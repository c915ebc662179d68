/** The rule the simulation engine follows, stated on grid values: which cells
    count as neighbours on the bounded grid, how many of them are alive, and
    the B3/S23 transition from one generation to the next. */
module LifeRule {

  /** Grid dimensions, fixed as in the program. */
  const WIDTH: nat := 100
  const HEIGHT: nat := 50

  /** One generation, indexed g[x][y] with x < WIDTH and y < HEIGHT; true means alive. */
  type Grid = seq<seq<bool>>

  predicate IsGrid(g: Grid) {
    |g| == WIDTH && forall x | 0 <= x < |g| :: |g[x]| == HEIGHT
  }

  /** The grid is bounded: positions outside it do not exist (no wrap-around). */
  predicate InBounds(a: int, b: int) {
    0 <= a < WIDTH && 0 <= b < HEIGHT
  }

  /** Whether position (a, b) exists on the grid and holds a live cell. */
  predicate LiveAt(g: Grid, a: int, b: int)
    requires IsGrid(g)
  {
    InBounds(a, b) && g[a][b]
  }

  /** The live cells among the eight Moore neighbours of (x, y) that lie on the grid. */
  ghost function LiveNeighbours(g: Grid, x: int, y: int): set<(int, int)>
    requires IsGrid(g)
  {
    set a, b | x - 1 <= a <= x + 1 && y - 1 <= b <= y + 1 && (a, b) != (x, y) && LiveAt(g, a, b) :: (a, b)
  }

  /** The neighbour count of (x, y): how many of its neighbours are alive. */
  ghost function Count(g: Grid, x: int, y: int): nat
    requires IsGrid(g)
  {
    |LiveNeighbours(g, x, y)|
  }

  /** Whether (x, y) is alive in the generation after g: a live cell survives
      with two or three live neighbours, a dead cell is born with exactly three. */
  ghost predicate Next(g: Grid, x: int, y: int)
    requires IsGrid(g) && InBounds(x, y)
  {
    var n := Count(g, x, y);
    if g[x][y] then n == 2 || n == 3 else n == 3
  }

  /** The whole next generation. */
  ghost function NextGen(g: Grid): (r: Grid)
    requires IsGrid(g)
    ensures IsGrid(r)
    ensures forall x, y | InBounds(x, y) :: r[x][y] == Next(g, x, y)
  {
    seq(WIDTH, x requires 0 <= x < WIDTH =>
      seq(HEIGHT, y requires 0 <= y < HEIGHT => Next(g, x, y)))
  }

  /** The generation n steps after g. */
  ghost function Generation(g: Grid, n: nat): (r: Grid)
    requires IsGrid(g)
    ensures IsGrid(r)
  {
    if n == 0 then g else NextGen(Generation(g, n - 1))
  }

  /** Two grids that agree on every cell are the same grid. */
  lemma GridsEqual(g: Grid, h: Grid)
    requires IsGrid(g) && IsGrid(h)
    requires forall x, y | InBounds(x, y) :: g[x][y] == h[x][y]
    ensures g == h
  {
    forall x | 0 <= x < WIDTH
      ensures g[x] == h[x]
    {
      assert forall y | 0 <= y < HEIGHT :: g[x][y] == h[x][y];
    }
  }

  // ---------------------------------------------------------------------
  // Counting in the order the program visits the offsets: i (the x offset)
  // outer, j (the y offset) inner, both from -1 to 1.

  /** 1 when the neighbour at offset (i, j) of (x, y) exists and is alive;
      the cell itself, offset (0, 0), never contributes. */
  function Contribution(g: Grid, x: int, y: int, i: int, j: int): nat
    requires IsGrid(g)
  {
    if (i, j) != (0, 0) && LiveAt(g, x + i, y + j) then 1 else 0
  }

  /** The contributions of offsets (i, -1), ..., (i, k - 1). */
  function ColumnSum(g: Grid, x: int, y: int, i: int, k: int): (s: nat)
    requires IsGrid(g) && -1 <= k <= 2
    ensures s <= k + 1
    decreases k + 1
  {
    if k == -1 then 0 else ColumnSum(g, x, y, i, k - 1) + Contribution(g, x, y, i, k - 1)
  }

  /** The contributions of the columns i = -1, ..., k - 1. */
  function PrefixSum(g: Grid, x: int, y: int, k: int): (s: nat)
    requires IsGrid(g) && -1 <= k <= 2
    ensures s <= 3 * (k + 1)
    decreases k + 1
  {
    if k == -1 then 0 else PrefixSum(g, x, y, k - 1) + ColumnSum(g, x, y, k - 1, 2)
  }

  /** The live neighbours among offsets (i, -1), ..., (i, k - 1). */
  ghost function ColumnSet(g: Grid, x: int, y: int, i: int, k: int): set<(int, int)>
    requires IsGrid(g)
  {
    set a, b | a == x + i && y - 1 <= b < y + k && (a, b) != (x, y) && LiveAt(g, a, b) :: (a, b)
  }

  /** The live neighbours in the columns i = -1, ..., k - 1. */
  ghost function PrefixSet(g: Grid, x: int, y: int, k: int): set<(int, int)>
    requires IsGrid(g)
  {
    set a, b | x - 1 <= a < x + k && y - 1 <= b <= y + 1 && (a, b) != (x, y) && LiveAt(g, a, b) :: (a, b)
  }

  /** A column's sum counts the neighbours it found. */
  lemma {:induction false} ColumnSetCounted(g: Grid, x: int, y: int, i: int, k: int)
    requires IsGrid(g) && -1 <= k <= 2
    ensures |ColumnSet(g, x, y, i, k)| == ColumnSum(g, x, y, i, k)
    decreases k + 1
  {
    if k == -1 {
      assert ColumnSet(g, x, y, i, k) == {};
    } else {
      ColumnSetCounted(g, x, y, i, k - 1);
      var before, q := ColumnSet(g, x, y, i, k - 1), (x + i, y + k - 1);
      if Contribution(g, x, y, i, k - 1) == 1 {
        assert ColumnSet(g, x, y, i, k) == before + {q};
      } else {
        assert ColumnSet(g, x, y, i, k) == before;
      }
    }
  }

  /** The running sum counts the neighbours found so far. */
  lemma {:induction false} PrefixSetCounted(g: Grid, x: int, y: int, k: int)
    requires IsGrid(g) && -1 <= k <= 2
    ensures |PrefixSet(g, x, y, k)| == PrefixSum(g, x, y, k)
    decreases k + 1
  {
    if k == -1 {
      assert PrefixSet(g, x, y, k) == {};
    } else {
      PrefixSetCounted(g, x, y, k - 1);
      ColumnSetCounted(g, x, y, k - 1, 2);
      var before, column := PrefixSet(g, x, y, k - 1), ColumnSet(g, x, y, k - 1, 2);
      assert PrefixSet(g, x, y, k) == before + column;
      assert before * column == {};
    }
  }

  /** The number of live neighbours is what the program's loop accumulates. */
  lemma CountIsSum(g: Grid, x: int, y: int)
    requires IsGrid(g)
    ensures Count(g, x, y) == PrefixSum(g, x, y, 2)
  {
    PrefixSetCounted(g, x, y, 2);
    assert LiveNeighbours(g, x, y) == PrefixSet(g, x, y, 2);
  }

  /** The neighbour count as the eight contributions written out. */
  lemma CountExpanded(g: Grid, x: int, y: int)
    requires IsGrid(g)
    ensures Count(g, x, y) ==
      Contribution(g, x, y, -1, -1) + Contribution(g, x, y, -1, 0) + Contribution(g, x, y, -1, 1) +
      Contribution(g, x, y, 0, -1) + Contribution(g, x, y, 0, 1) +
      Contribution(g, x, y, 1, -1) + Contribution(g, x, y, 1, 0) + Contribution(g, x, y, 1, 1)
  {
    CountIsSum(g, x, y);
    forall i ensures ColumnSum(g, x, y, i, 2) ==
      Contribution(g, x, y, i, -1) + Contribution(g, x, y, i, 0) + Contribution(g, x, y, i, 1)
    {
      assert ColumnSum(g, x, y, i, 0) == Contribution(g, x, y, i, -1);
    }
    assert PrefixSum(g, x, y, 0) == ColumnSum(g, x, y, -1, 2);
  }

  // ---------------------------------------------------------------------
  // Properties of the neighbour count and of the transition.

  /** At most eight neighbours are alive; a corner cell has at most three
      neighbours and any other border cell at most five, because positions
      off the grid are dropped rather than wrapped. */
  lemma CountBounds(g: Grid, x: int, y: int)
    requires IsGrid(g)
    ensures Count(g, x, y) <= 8
    ensures (x == 0 || x == WIDTH - 1) && (y == 0 || y == HEIGHT - 1) ==> Count(g, x, y) <= 3
    ensures (x == 0 || x == WIDTH - 1 || y == 0 || y == HEIGHT - 1) ==> Count(g, x, y) <= 5
  {
    CountExpanded(g, x, y);
  }

  /** The count at (x, y) depends only on the cells around it. */
  lemma CountLocal(g: Grid, h: Grid, x: int, y: int)
    requires IsGrid(g) && IsGrid(h)
    requires forall a, b | x - 1 <= a <= x + 1 && y - 1 <= b <= y + 1 && (a, b) != (x, y)
                           && InBounds(a, b) :: g[a][b] == h[a][b]
    ensures Count(g, x, y) == Count(h, x, y)
  {
    CountExpanded(g, x, y);
    CountExpanded(h, x, y);
  }

  /** The cell's own state never contributes to its count. */
  lemma CountIgnoresOwnCell(g: Grid, x: int, y: int, v: bool)
    requires IsGrid(g) && InBounds(x, y)
    ensures IsGrid(g[x := g[x][y := v]])
    ensures Count(g[x := g[x][y := v]], x, y) == Count(g, x, y)
  {
    var h := g[x := g[x][y := v]];
    assert IsGrid(h);
    CountLocal(g, h, x, y);
  }

  /** A restatement of the rule, read through NextGen and the live-neighbour
      set rather than proved from anything deeper: a live cell stays alive
      iff two or three neighbours are alive (so it dies of isolation with zero
      or one and of overcrowding with four or more), and a dead cell comes
      alive iff exactly three are. */
  lemma NextGenRule(g: Grid, x: int, y: int)
    requires IsGrid(g) && InBounds(x, y)
    ensures g[x][y] ==> (NextGen(g)[x][y] <==> |LiveNeighbours(g, x, y)| in {2, 3})
    ensures !g[x][y] ==> (NextGen(g)[x][y] <==> |LiveNeighbours(g, x, y)| == 3)
    ensures NextGen(g)[x][y] ==> 2 <= |LiveNeighbours(g, x, y)| <= 3
  {
  }

  /** The transition is local: cells whose neighbourhoods agree in two grids
      agree in the next generation. */
  lemma NextLocal(g: Grid, h: Grid, x: int, y: int)
    requires IsGrid(g) && IsGrid(h) && InBounds(x, y)
    requires forall a, b | x - 1 <= a <= x + 1 && y - 1 <= b <= y + 1 && InBounds(a, b) :: g[a][b] == h[a][b]
    ensures NextGen(g)[x][y] == NextGen(h)[x][y]
  {
    CountLocal(g, h, x, y);
  }
}
