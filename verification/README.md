# Conway's Game of Life engine, modelled in Dafny

This project models the simulation engine of a small Game of Life program.
The program keeps a fixed 100 x 50 grid of boolean cells indexed `world[x][y]`.
It counts each cell's live Moore neighbours on a bounded grid: positions off the grid do not exist, and nothing wraps around.
It applies the B3/S23 rule: a live cell survives with two or three live neighbours, and a dead cell is born with exactly three.
The next generation is written into a second buffer, and a flag records which buffer is current.

Files and modules:

- `life_rule.dfy`, module `LifeRule`: the rule on grid values (`Grid = seq<seq<bool>>`).
  `LiveNeighbours(g, x, y)` is the set of live on-grid neighbours and `Count` is its size.
  `Next` is the per-cell rule, `NextGen` the whole next generation and `Generation(g, n)` the n-th one.
  It also holds the lemmas tying the set to the order in which the program visits offsets, and the properties of the count.
- `patterns.dfy`, module `Patterns`: the empty grid, a 2x2 block, the two phases of a blinker, the full grid, and what one or more generations do to them.
- `engine.dfy`, module `Engine`: the program's two functions as methods on `array2<bool>` buffers.
  `NeighbourCount` has the nested `i`/`j` offset loops and an 8-bit counter.
  `Step` has the nested `y`/`x` scan that writes into `out`.
  `Cells(a)` is the generation a buffer holds.
- `simulation.dfy`, module `Simulation`: class `World` with the fields `buf0`, `buf1` and `current`.
  `Advance` is one iteration of the main loop, and `Run(n)` is n iterations.

## Model

| member | source | states |
|---|---|---|
| `Engine.NeighbourCount` | src/main.rs:31-52 | The result is exactly the number of live cells at on-grid positions `(x+i, y+j)`, `i, j` in {-1,0,1}, `(i,j) != (0,0)`. Negative candidates (failed unsigned conversion) and candidates at or beyond WIDTH/HEIGHT are skipped. The `u8` counter provably never overflows. |
| `Engine.Step` | src/main.rs:54-75 | Afterwards `out` holds the next generation of the input, cell by cell, so every cell of `out` is overwritten. The input is left unchanged. Every count reads the pre-step generation. |
| `Simulation.World.constructor` | src/main.rs:122-125 | The first buffer holds the initial generation and the second is all dead. The two buffers are distinct and the first is current. |
| `Simulation.World.Advance` | src/main.rs:126-136 | After one loop iteration the flag is flipped and the newly current buffer holds `NextGen` of the previously current one. The previously current buffer keeps its contents. |
| `Simulation.World.Run` | src/main.rs:126-138 | After n iterations the current buffer holds `Generation(start, n)` and the flag has flipped n times. The other buffer holds `Generation(start, n - 1)` when n > 0 and keeps its old contents when n = 0. |
| `LifeRule.NextGen` | src/main.rs:54-75 | The next generation is a well-formed WIDTH x HEIGHT grid whose cell (x, y) is the B3/S23 successor of (x, y). |
| `LifeRule.CountIsSum` | src/main.rs:34-50 | The number of live neighbours equals the running sum the program's offset loops accumulate, in their visiting order. |
| `LifeRule.CountExpanded` | src/main.rs:34-50 | The count is the sum of the eight offset contributions. Each contribution is 1 only for an on-grid live neighbour. |
| `LifeRule.CountBounds` | src/main.rs:34-48 | The count is at most 8, so it fits the `u8` counter. A corner cell counts at most 3 and a border cell at most 5, because off-grid candidates are dropped, not wrapped. |
| `LifeRule.CountIgnoresOwnCell` | src/main.rs:37-39 | Changing the cell itself does not change its own count. |
| `LifeRule.CountLocal` | src/main.rs:41-48 | The count depends only on the eight surrounding on-grid cells. |
| `LifeRule.NextLocal` | src/main.rs:58-71 | Two grids that agree on a cell's 3x3 neighbourhood agree on that cell in the next generation. |
| `LifeRule.NextGenRule` | src/main.rs:59-71 | A restatement of the rule through `NextGen` and the live-neighbour set: a live cell is alive next iff 2 or 3 neighbours are live. A dead cell is alive next iff exactly 3 are. Any cell alive next has 2 or 3 live neighbours. |
| `Patterns.FullGridCounts` | src/main.rs:41-44 | On a full grid a corner has 3 live neighbours, a non-corner border cell 5 and an inner cell 8. So the bounds are reached and the grid is not toroidal. |
| `Patterns.DeadStaysDead` | src/main.rs:59-71 | An all-dead grid steps to an all-dead grid. |
| `Patterns.BlockCell` | src/main.rs:59-71 | In a grid holding only a 2x2 block, each cell is alive next iff it is in the block. |
| `Patterns.BlockIsStill` | src/main.rs:59-71 | A lone 2x2 block anywhere on the grid, borders included, is a fixed point of `NextGen`. |
| `Patterns.RowCell` | src/main.rs:59-71 | In a grid holding only a lying blinker centred at least one cell from every border (`1 <= cx < WIDTH - 1`, `1 <= cy < HEIGHT - 1`), each cell is alive next iff it is in the standing blinker. |
| `Patterns.ColumnCell` | src/main.rs:59-71 | In a grid holding only a standing blinker centred at least one cell from every border (`1 <= cx < WIDTH - 1`, `1 <= cy < HEIGHT - 1`), each cell is alive next iff it is in the lying blinker. |
| `Patterns.RowBecomesColumn` | src/main.rs:59-71 | A lying blinker centred at least one cell from every border (`1 <= cx < WIDTH - 1`, `1 <= cy < HEIGHT - 1`) steps to the standing blinker. Its end cells may lie on the left or right border. |
| `Patterns.ColumnBecomesRow` | src/main.rs:59-71 | A standing blinker centred at least one cell from every border (`1 <= cx < WIDTH - 1`, `1 <= cy < HEIGHT - 1`) steps to the lying blinker. |
| `Patterns.EdgeColumnCell` | src/main.rs:59-71 | In a grid holding only a standing blinker on column 0, each cell is alive next iff it is (0, cy) or (1, cy). |
| `Patterns.EdgeColumnBecomesDomino` | src/main.rs:41-44 | A standing blinker on column 0 steps to a two-cell domino, not to a lying blinker, because the cell at x = -1 does not exist. So the grid does not wrap. |
| `Patterns.BlinkerPhasesDiffer` | src/main.rs:59-71 | For a blinker centred at least one cell from every border (`1 <= cx < WIDTH - 1`, `1 <= cy < HEIGHT - 1`), the two phases are different grids, so the period is not 1. |
| `Patterns.Alternates` | src/main.rs:126-136 | Two grids that step into each other recur: every even generation is the first and every odd one is the second. |
| `Patterns.BlinkerOscillates` | src/main.rs:59-71 | A blinker centred at least one cell from every border (`1 <= cx < WIDTH - 1`, `1 <= cy < HEIGHT - 1`) has period 2: even generations lie and odd generations stand. |

## Left out

- Random initial world (`gen_world`, src/main.rs:20-29): the random source is not modelled. The `World` constructor takes any well-formed initial grid instead.
- Rendering (`render`), SDL set-up and its `unwrap` failure paths, and the welcome message: these are display and foreign-library I/O.
- The one-second sleep and the endless `loop`: timing and non-termination are not modelled. `Run(n)` models any finite number of iterations.
- `Engine.NeighbourCount` takes any natural coordinates; the `as i64` cast of `usize` values of 2^63 and above, which would wrap to negative, is not modelled.
- `Engine.Step` takes its input as a buffer distinct from `out` and never writes to it. In the source the input is a by-value copy, so aliasing cannot happen there.
- The buffer pair `buf: [_; 2]` is modelled as the two fields `buf0` and `buf1`, not as an indexable array.
- Grid get/set are plain array indexing and are not separate operations.
