/** The simulation loop's state: two grid buffers and a flag saying which of
    them holds the current generation. Each iteration steps the current
    buffer into the other one and flips the flag. */
module Simulation {
  import opened LifeRule
  import opened Engine
  import Patterns

  class World {
    var buf0: array2<bool>
    var buf1: array2<bool>
    /** True when buf0 holds the current generation, false when buf1 does. */
    var current: bool

    ghost predicate Valid()
      reads this
    {
      IsWorld(buf0) && IsWorld(buf1) && buf0 != buf1
    }

    /** The buffer holding the generation on display. */
    function Current(): array2<bool>
      reads this
    {
      if current then buf0 else buf1
    }

    /** The buffer the next generation is written into. */
    function Scratch(): array2<bool>
      reads this
    {
      if current then buf1 else buf0
    }

    /** Sets up both buffers: the first holds the initial generation (chosen
        at random in the program, any grid here), the second is all dead,
        and the first is current. */
    constructor (initial: Grid)
      requires IsGrid(initial)
      ensures Valid() && fresh(buf0) && fresh(buf1)
      ensures current
      ensures Cells(buf0) == initial && Cells(buf1) == Patterns.Dead()
    {
      buf0 := new bool[WIDTH, HEIGHT]((x, y) requires 0 <= x < WIDTH && 0 <= y < HEIGHT => initial[x][y]);
      buf1 := new bool[WIDTH, HEIGHT]((x, y) => false);
      current := true;
      new;
      GridsEqual(Cells(buf0), initial);
      GridsEqual(Cells(buf1), Patterns.Dead());
    }

    /** One iteration of the loop: the scratch buffer receives the generation
        after the current one and becomes current; the buffer that was
        current keeps its contents. */
    method Advance()
      requires Valid()
      modifies this, buf0, buf1
      ensures Valid() && buf0 == old(buf0) && buf1 == old(buf1)
      ensures current == !old(current)
      ensures Cells(Current()) == NextGen(old(Cells(Current())))
      ensures Cells(Scratch()) == old(Cells(Current()))
    {
      if current {
        Step(buf0, buf1);
      } else {
        Step(buf1, buf0);
      }
      current := !current;
    }

    /** n iterations of the loop: the current buffer ends up holding the
        generation n steps after the one it started with, the other buffer
        the generation before that (or its old contents when n is 0), and
        the flag has flipped n times. */
    method Run(n: nat)
      requires Valid()
      modifies this, buf0, buf1
      ensures Valid() && buf0 == old(buf0) && buf1 == old(buf1)
      ensures current == (old(current) != (n % 2 == 1))
      ensures Cells(Current()) == Generation(old(Cells(Current())), n)
      ensures n == 0 ==> Cells(Scratch()) == old(Cells(Scratch()))
      ensures n > 0 ==> Cells(Scratch()) == Generation(old(Cells(Current())), n - 1)
    {
      ghost var start, scratch0 := Cells(Current()), Cells(Scratch());
      for k := 0 to n
        invariant Valid() && buf0 == old(buf0) && buf1 == old(buf1)
        invariant current == (old(current) != (k % 2 == 1))
        invariant Cells(Current()) == Generation(start, k)
        invariant k == 0 ==> Cells(Scratch()) == scratch0
        invariant k > 0 ==> Cells(Scratch()) == Generation(start, k - 1)
      {
        Advance();
      }
    }
  }
}
