# Hue-inheriting Game of Life — Dafny model

This project models the simulation engine of a browser Game of Life. The
engine is a B3/S23 cellular automaton on a toroidal `rows x cols` grid. Each
cell is an integer: 0 is a dead cell and a positive value is a live cell's hue.
A newborn cell takes the hue of one of its three live parents, chosen at random.
The engine keeps two flat buffers, `cells` and `old_cells`. Each tick swaps them
by reference and rewrites every entry of the new `cells` from `old_cells`.

Layout:

- `geometry.dfy`, module `Geometry`: index and coordinate arithmetic. It
  enumerates the eight neighbour offsets in the source's loop order and applies
  the single-step edge fix-up. Lemmas cover range, wrap-equals-modulo, the
  index round trip and distinctness.
- `rules.dfy`, module `Rules`: the rule engine over sequences. It defines the
  filter of live neighbour values, the per-cell rule, the whole next
  generation, iterated generations and the cells written by the reset loop.
  Lemmas cover the four rules, hue inheritance and the invariants a step keeps.
- `grid.dfy`, module `Life`: class `Grid` with `rows` and `cols` as constant
  fields and the two buffers as arrays. Its methods are the reset loop, the
  nested neighbour loops, the per-cell step, and `UpdateCells` with its
  reference swap and in-place write loop. Each method is proved against the
  functions in `Rules` and `Geometry`.

Randomness is an input. `UpdateCells` takes one choice index in `[0, 3)` per
cell, standing for `floor(random() * 3)`. `Reset` takes one spawn flag per cell
and one hue in `[0, 360]`, standing for `random() < initial_spawn_ratio` and
`round(random() * 360)`. Because of this, a step is a function of the previous
buffer and the choices: two runs with the same start and the same choices give
the same generations.

Two consequences of the code that a reader of its comments might not expect:

- The eight neighbour indices are distinct and exclude the cell itself only on
  grids of at least 3 by 3 (`Geometry.NeighboursDistinctIff`). On a grid one or
  two cells wide or high, the wrap sends two offsets to the same cell, or one
  offset back to the cell itself. A live cell can then count itself, or one
  neighbour twice.
- A reset that spawns every cell does not make every cell live. The drawn hue
  `round(random() * 360)` can be 0, and 0 is a dead cell. The model only
  promises that every reset cell is 0 or in `[0, 360]`.

The source also uses two different liveness tests. A neighbour is counted when
its value is `!== 0`, while the cell itself is live when its value is `> 0`. The
model keeps both tests. They agree on every grid whose values stay in
`[0, 360]`, which `Reset` establishes and `UpdateCells` preserves.

## Model

| member | source | states |
|---|---|---|
| `Geometry.Offsets` | js/main.js:121-125 | there are exactly eight offsets, each in {-1,0,1} x {-1,0,1}, and none is (0,0) |
| `Geometry.IndexToCoordinates` | js/main.js:118-119 | for an in-grid index, `x = i % cols` is in `[0, cols)`, `y = floor(i / cols)` is in `[0, rows)`, and `y*cols + x == i` |
| `Geometry.CoordinatesToIndex` | js/main.js:142 | `y*cols + x` for in-grid coordinates is an in-grid index whose column and row are `x` and `y` again |
| `Geometry.CoordinatesUnique` | js/main.js:142 | a row-major index determines its row and column |
| `Geometry.WrapStep` | js/main.js:130-140 | a position already on the axis is kept, and a position one step off either end lands back in `[0, n)` |
| `Geometry.NeighbourAt` | js/main.js:127-142 | the neighbour of an in-grid cell at an offset in {-1,0,1} x {-1,0,1} is an in-grid index whose column is `(x+dx) mod cols` and whose row is `(y+dy) mod rows` |
| `Geometry.WrapStepIsMod` | js/main.js:130-140 | for a position between -1 and n, the single-step fix-up equals the position mod n and lies in `[0, n)` |
| `Geometry.NeighbourIndices` | js/main.js:115-147 | the neighbour list of a cell always has exactly eight entries |
| `Geometry.NeighbourCoordinates` | js/main.js:115-147 | neighbour k is the cell at column `(x+dx) mod cols` and row `(y+dy) mod rows`, where (dx,dy) is the k-th offset in row-major order, and it is in `[0, rows*cols)` |
| `Geometry.NeighbourIndicesInRange` | js/main.js:115-147 | all eight neighbour indices of an in-grid cell are in `[0, rows*cols)` |
| `Geometry.WrapStepInjective` | js/main.js:130-140 | on an axis of length at least 3, different offsets from the same position give different wrapped positions |
| `Geometry.OffsetsReachDistinctCells` | js/main.js:121-142 | on a grid of at least 3 by 3, two different offsets lead to two different cells |
| `Geometry.CentreIsSelf` | js/main.js:123-125 | the skipped offset (0,0) would have been the cell itself |
| `Geometry.NeighboursDistinctIff` | js/main.js:121-144 | the eight neighbours are pairwise different and all differ from the cell exactly when `rows >= 3` and `cols >= 3`; and on a smaller grid two of the eight are the same index |
| `Geometry.SingleColumnSeesItself` | js/main.js:130-134 | on a one-column grid, the left neighbour of each cell is the cell itself |
| `Geometry.CornerOfThreeByThree` | js/main.js:115-147 | on a 3 by 3 grid the neighbours of index 0 are 8, 6, 7, 2, 1, 5, 3, 4, wrapping to the far row and column |
| `Rules.Gather` | js/main.js:68 | the gathered list has one entry per neighbour index, and entry k is `old_cells` at index k |
| `Rules.AliveValues` | js/main.js:68 | the filter drops every 0 and keeps every non-zero value with its multiplicity, so its length is 8 minus the number of zero neighbours |
| `Rules.AliveValuesInScanOrder` | js/main.js:68 | the filter keeps scan order: if the non-zero values sit at increasing positions `ks`, the filtered list is exactly the values at `ks`, in that order |
| `Rules.AliveCountIsLiveNeighbourCount` | js/main.js:68-73 | the length of the filtered list equals the number of neighbour slots holding a non-zero value |
| `Rules.LiveCellDies` | js/main.js:72-76 | a live cell with fewer than 2 or more than 3 live neighbours is 0 in the next generation |
| `Rules.LiveCellSurvives` | js/main.js:77-78 | a live cell with 2 or 3 live neighbours keeps its exact previous value |
| `Rules.DeadCellIsBorn` | js/main.js:80-82 | a dead cell whose live neighbours are exactly scan slots k0 < k1 < k2 has 3 live neighbours; it is born with the non-zero `old_cells` value of slot k0, k1 or k2 for choice 0, 1 or 2 |
| `Rules.DeadCellIsBornFromNeighbour` | js/main.js:80-82 | a dead cell with exactly 3 live neighbours becomes non-zero, with the value some neighbour had in `old_cells` |
| `Rules.DeadCellStaysDead` | js/main.js:83-85 | a dead cell without exactly 3 live neighbours stays 0 |
| `Rules.NextCell` | js/main.js:67-86 | a live cell's next value is 0 or its own hue; a non-live cell's non-zero next value is one of its neighbour values |
| `Rules.NextGeneration` | js/main.js:66-87 | the next generation has one value per cell, and each is 0, the cell's previous value, or one of its neighbour values |
| `Rules.NextValuesComeFromPrevious` | js/main.js:66-87 | every next value is 0 or a value already present in the previous generation |
| `Rules.StepPreservesHueRange` | js/main.js:66-87 | if every cell is in `[0, 360]` before a step, every cell is in `[0, 360]` after it |
| `Rules.StepPreservesAllDead` | js/main.js:66-87 | an all-zero grid is all zero after one step |
| `Rules.Run` | js/main.js:52-55 | any number of ticks keeps the buffer length |
| `Rules.RunPreservesAllDead` | js/main.js:52-55 | an all-zero grid stays all zero after any number of steps |
| `Rules.RunPreservesHueRange` | js/main.js:52-55 | cells stay in `[0, 360]` after any number of steps |
| `Rules.ResetCells` | js/main.js:44-47 | the reset writes one value per cell, and each is 0 or that cell's drawn hue |
| `Rules.ResetEstablishesHueRange` | js/main.js:44-47 | after a reset every cell is 0 or a drawn hue in `[0, 360]`; with no cell spawned the grid is all zero; with every cell spawned it holds exactly the drawn hues |
| `Life.Grid.constructor` | js/main.js:17-18 | both buffers are fresh, of length `rows*cols`, and distinct |
| `Life.Grid.Reset` | js/main.js:43-47 | `cells` is overwritten in place with the reset values and satisfies the hue range; `old_cells` is untouched |
| `Life.Grid.GetNeighbourIndices` | js/main.js:115-147 | the nested offset loops with the edge fix-up return exactly the neighbour list `Geometry.NeighbourIndices`, all in range |
| `Life.Grid.CellRule` | js/main.js:67-86 | `Rules.NextCell` computed over the array: the gather, filter and branches over `old_cells` yield exactly the rule's next value for that cell |
| `Life.Grid.UpdateCells` | js/main.js:57-88 | the buffers swap by reference with no copy: `old_cells` is the former `cells` array with its contents unchanged. The new `cells` holds exactly the next generation of the former `cells`, and the hue range is preserved |

## Left out

- Rendering (`drawCells`, js/main.js:90-113) and the canvas setup: canvas drawing and HSL colour strings only.
- DOM queries, event listeners and the `.box` autohide handler (js/main.js:10-14, 24-28): user-interface wiring.
- `flow_resume`, `flow_pause` and `tick` (js/main.js:34-41, 52-55): these are timer scheduling. A tick's effect on the engine is one `UpdateCells` call, and `Rules.Run` iterates it.
- `rows` and `cols` from the window size (js/main.js:6-7): they are constructor parameters with `rows > 0 && cols > 0`.
- `Math.random()` and the `< initial_spawn_ratio` test (js/main.js:45-46, 82): they are per-cell input sequences, so the model states nothing about probabilities or uniformity.
- The holes of a fresh JavaScript `Array` are modelled as 0. The source never reads them before writing them, because `flow_reset` fills `cells` before the first tick and the first tick writes every entry of the other buffer.
