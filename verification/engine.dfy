/** The simulation engine as the program runs it: a neighbour counter with
    nested offset loops and a step that scans the grid and writes the next
    generation into a second, fixed-size buffer. */
module Engine {
  import opened LifeRule

  /** The program's unsigned 8-bit counter; arithmetic that leaves this range
      would be an overflow, so every increment must be shown to stay inside. */
  newtype u8 = n: int | 0 <= n < 256

  /** The outcome of converting a signed coordinate to an unsigned index:
      it fails exactly when the coordinate is negative. */
  datatype Conversion = Ok(value: nat) | Err

  function UsizeFrom(v: int): Conversion {
    if v < 0 then Err else Ok(v)
  }

  /** A buffer of the program's grid type. */
  predicate IsWorld(a: array2<bool>) {
    a.Length0 == WIDTH && a.Length1 == HEIGHT
  }

  /** The generation a buffer currently holds. */
  ghost function Cells(a: array2<bool>): (g: Grid)
    reads a
    requires IsWorld(a)
    ensures IsGrid(g)
    ensures forall x, y | InBounds(x, y) :: g[x][y] == a[x, y]
  {
    seq(WIDTH, x requires 0 <= x < WIDTH reads a =>
      seq(HEIGHT, y requires 0 <= y < HEIGHT reads a => a[x, y]))
  }

  /** Counts the live neighbours of (x, y), visiting the offsets i (for x)
      outer and j (for y) inner, skipping (0, 0) and every position that a
      negative conversion or the grid bounds rule out. */
  method NeighbourCount(world: array2<bool>, x: nat, y: nat) returns (n: u8)
    requires IsWorld(world)
    ensures n as int == |LiveNeighbours(Cells(world), x, y)|
  {
    ghost var g := Cells(world);
    n := 0;
    for i := -1 to 2
      invariant n as int == PrefixSum(g, x, y, i)
    {
      for j := -1 to 2
        invariant n as int == PrefixSum(g, x, y, i) + ColumnSum(g, x, y, i, j)
      {
        if i == 0 && j == 0 {
          continue;
        }
        var checkX := UsizeFrom(x + i);
        var checkY := UsizeFrom(y + j);
        if checkX.Ok? && checkY.Ok? && checkX.value < WIDTH && checkY.value < HEIGHT {
          if world[checkX.value, checkY.value] {
            n := n + 1;
          }
        }
      }
    }
    CountIsSum(g, x, y);
  }

  /** Writes into out the generation after inp. Every cell of out is
      assigned, so its previous contents do not matter; inp is only read. */
  method Step(inp: array2<bool>, out: array2<bool>)
    requires IsWorld(inp) && IsWorld(out) && inp != out
    modifies out
    ensures Cells(out) == NextGen(old(Cells(inp)))
    ensures Cells(inp) == old(Cells(inp))
  {
    ghost var g := Cells(inp);
    for y := 0 to HEIGHT
      invariant Cells(inp) == g
      invariant forall a, b | 0 <= a < WIDTH && 0 <= b < y :: out[a, b] == Next(g, a, b)
    {
      for x := 0 to WIDTH
        invariant Cells(inp) == g
        invariant forall a, b | 0 <= a < WIDTH && 0 <= b < y :: out[a, b] == Next(g, a, b)
        invariant forall a | 0 <= a < x :: out[a, y] == Next(g, a, y)
      {
        var neighbourNum := NeighbourCount(inp, x, y);
        if inp[x, y] {
          if neighbourNum == 2 || neighbourNum == 3 {
            out[x, y] := true;
          } else {
            out[x, y] := false;
          }
        } else {
          if neighbourNum == 3 {
            out[x, y] := true;
          } else {
            out[x, y] := false;
          }
        }
      }
    }
    GridsEqual(Cells(out), NextGen(g));
  }
}
