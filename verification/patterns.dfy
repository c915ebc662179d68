/** Classic patterns and what one generation does to them. */
module Patterns {
  import opened LifeRule

  /** The grid whose live cells are exactly the on-grid positions in live. */
  ghost function Of(live: set<(int, int)>): (g: Grid)
    ensures IsGrid(g)
    ensures forall x, y | InBounds(x, y) :: g[x][y] == ((x, y) in live)
  {
    seq(WIDTH, x requires 0 <= x < WIDTH => seq(HEIGHT, y requires 0 <= y < HEIGHT => (x, y) in live))
  }

  /** The all-dead grid; the program's second buffer starts out as this. */
  ghost function Dead(): Grid {
    Of({})
  }

  /** The grid on which every cell is alive. */
  ghost function Full(): Grid {
    Of(set a, b | 0 <= a < WIDTH && 0 <= b < HEIGHT :: (a, b))
  }

  /** A 2x2 block with its top-left cell at (x0, y0). */
  function Block(x0: int, y0: int): set<(int, int)> {
    {(x0, y0), (x0 + 1, y0), (x0, y0 + 1), (x0 + 1, y0 + 1)}
  }

  /** A blinker lying along the x axis, centred on (cx, cy). */
  function Row(cx: int, cy: int): set<(int, int)> {
    {(cx - 1, cy), (cx, cy), (cx + 1, cy)}
  }

  /** A blinker lying along the y axis, centred on (cx, cy). */
  function Column(cx: int, cy: int): set<(int, int)> {
    {(cx, cy - 1), (cx, cy), (cx, cy + 1)}
  }

  /** No cell is ever born on an empty grid. */
  lemma DeadStaysDead()
    ensures NextGen(Dead()) == Dead()
  {
    var g := Dead();
    forall x, y | InBounds(x, y) ensures NextGen(g)[x][y] == g[x][y] {
      CountExpanded(g, x, y);
    }
    GridsEqual(NextGen(g), g);
  }

  /** Each cell of a lone block keeps its state: the four block cells have
      three live neighbours each, every other cell at most two. */
  lemma BlockCell(x0: int, y0: int, x: int, y: int)
    requires InBounds(x0, y0) && InBounds(x0 + 1, y0 + 1) && InBounds(x, y)
    ensures Next(Of(Block(x0, y0)), x, y) == ((x, y) in Block(x0, y0))
  {
    CountExpanded(Of(Block(x0, y0)), x, y);
  }

  /** A lone 2x2 block is a still life, wherever it sits on the grid. */
  lemma BlockIsStill(x0: int, y0: int)
    requires InBounds(x0, y0) && InBounds(x0 + 1, y0 + 1)
    ensures NextGen(Of(Block(x0, y0))) == Of(Block(x0, y0))
  {
    var g := Of(Block(x0, y0));
    forall x, y | InBounds(x, y) ensures NextGen(g)[x][y] == g[x][y] {
      BlockCell(x0, y0, x, y);
    }
    GridsEqual(NextGen(g), g);
  }

  /** Cell by cell, a lying blinker turns into a standing one. */
  lemma RowCell(cx: int, cy: int, x: int, y: int)
    requires 1 <= cx < WIDTH - 1 && 1 <= cy < HEIGHT - 1 && InBounds(x, y)
    ensures Next(Of(Row(cx, cy)), x, y) == ((x, y) in Column(cx, cy))
  {
    CountExpanded(Of(Row(cx, cy)), x, y);
  }

  /** Cell by cell, a standing blinker turns into a lying one. */
  lemma ColumnCell(cx: int, cy: int, x: int, y: int)
    requires 1 <= cx < WIDTH - 1 && 1 <= cy < HEIGHT - 1 && InBounds(x, y)
    ensures Next(Of(Column(cx, cy)), x, y) == ((x, y) in Row(cx, cy))
  {
    CountExpanded(Of(Column(cx, cy)), x, y);
  }

  /** A lying blinker stands up after one generation. */
  lemma RowBecomesColumn(cx: int, cy: int)
    requires 1 <= cx < WIDTH - 1 && 1 <= cy < HEIGHT - 1
    ensures NextGen(Of(Row(cx, cy))) == Of(Column(cx, cy))
  {
    var g, h := Of(Row(cx, cy)), Of(Column(cx, cy));
    forall x, y | InBounds(x, y) ensures NextGen(g)[x][y] == h[x][y] {
      RowCell(cx, cy, x, y);
    }
    GridsEqual(NextGen(g), h);
  }

  /** A standing blinker lies down after one generation. */
  lemma ColumnBecomesRow(cx: int, cy: int)
    requires 1 <= cx < WIDTH - 1 && 1 <= cy < HEIGHT - 1
    ensures NextGen(Of(Column(cx, cy))) == Of(Row(cx, cy))
  {
    var g, h := Of(Column(cx, cy)), Of(Row(cx, cy));
    forall x, y | InBounds(x, y) ensures NextGen(g)[x][y] == h[x][y] {
      ColumnCell(cx, cy, x, y);
    }
    GridsEqual(NextGen(g), h);
  }

  /** Cell by cell, a standing blinker on the left edge turns into a domino. */
  lemma EdgeColumnCell(cy: int, x: int, y: int)
    requires 1 <= cy < HEIGHT - 1 && InBounds(x, y)
    ensures Next(Of(Column(0, cy)), x, y) == ((x, y) in {(0, cy), (1, cy)})
  {
    CountExpanded(Of(Column(0, cy)), x, y);
  }

  /** A standing blinker on the left edge does not turn into a lying one,
      because the cell it would need at x = -1 does not exist: it becomes a
      two-cell domino. The grid does not wrap. */
  lemma EdgeColumnBecomesDomino(cy: int)
    requires 1 <= cy < HEIGHT - 1
    ensures NextGen(Of(Column(0, cy))) == Of({(0, cy), (1, cy)})
  {
    var g, h := Of(Column(0, cy)), Of({(0, cy), (1, cy)});
    forall x, y | InBounds(x, y) ensures NextGen(g)[x][y] == h[x][y] {
      EdgeColumnCell(cy, x, y);
    }
    GridsEqual(NextGen(g), h);
  }

  /** The two phases of a blinker differ, so its period is not one. */
  lemma BlinkerPhasesDiffer(cx: int, cy: int)
    requires 1 <= cx < WIDTH - 1 && 1 <= cy < HEIGHT - 1
    ensures Of(Row(cx, cy)) != Of(Column(cx, cy))
  {
    assert Of(Row(cx, cy))[cx - 1][cy] != Of(Column(cx, cy))[cx - 1][cy];
  }

  /** Two grids that step into each other alternate forever. */
  lemma {:induction false} Alternates(a: Grid, b: Grid, k: nat)
    requires IsGrid(a) && IsGrid(b) && NextGen(a) == b && NextGen(b) == a
    ensures Generation(a, 2 * k) == a && Generation(a, 2 * k + 1) == b
  {
    if k > 0 {
      Alternates(a, b, k - 1);
      assert Generation(a, 2 * k) == NextGen(Generation(a, 2 * (k - 1) + 1));
    }
  }

  /** A blinker has period two: it alternates between lying and standing. */
  lemma BlinkerOscillates(cx: int, cy: int, k: nat)
    requires 1 <= cx < WIDTH - 1 && 1 <= cy < HEIGHT - 1
    ensures Generation(Of(Row(cx, cy)), 2 * k) == Of(Row(cx, cy))
    ensures Generation(Of(Row(cx, cy)), 2 * k + 1) == Of(Column(cx, cy))
  {
    RowBecomesColumn(cx, cy);
    ColumnBecomesRow(cx, cy);
    Alternates(Of(Row(cx, cy)), Of(Column(cx, cy)), k);
  }

  /** The border bounds are reached: on a full grid a corner cell has three
      live neighbours, a non-corner border cell five and an inner cell eight.
      On a wrapped grid every cell would have eight. */
  lemma FullGridCounts(x: int, y: int)
    requires InBounds(x, y)
    ensures var n := Count(Full(), x, y);
      && ((x == 0 || x == WIDTH - 1) && (y == 0 || y == HEIGHT - 1) ==> n == 3)
      && ((x == 0 || x == WIDTH - 1) != (y == 0 || y == HEIGHT - 1) ==> n == 5)
      && (0 < x < WIDTH - 1 && 0 < y < HEIGHT - 1 ==> n == 8)
  {
    CountExpanded(Full(), x, y);
  }
}
