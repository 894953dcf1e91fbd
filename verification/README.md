# device-orientation-demo: the particle-stepping engine

A Dafny model of the grid logic of the `Canvas` class in `index.js`. The canvas
holds a `rows × columns` grid of booleans. A `true` cell holds a particle. Each
animation frame, `nextGen` moves every particle one step according to the device
tilt, given as the orientation pair `(xOrientation, yOrientation)`. The model covers:

- `buildGrid`: the all-empty grid (`Grids.BuildGrid`).
- `populateGrid`: seeding the centre cell (`Grids.Populate`).
- `countElements`: counting particles (`Grids.CountElements`).
- `nextGen`: one generation. It is modelled twice and the two are proved equal:
  - per cell, as a union of independent destinations (`Engine.FateOf`, `Engine.Step`);
  - as the JavaScript's row-major nested loop, filling a fresh grid in place
    (`NestedLoop.NextGen`).

The behaviour modelled is the code's. Occupancy tests read only the current
grid, never the next grid being built. So:

- two particles can be written to the same cell and merge;
- an off-rail particle whose two orthogonal neighbours are occupied is written
  nowhere and disappears;
- an off-rail particle on the row edge it moves toward makes `nextGen` assign
  into `nextGrid[row + nextYNeighbor]`, which is `undefined`, so JavaScript throws.
  `Step` returns `Failure(UndefinedRow)` in that case.

The particle count therefore never grows, but it is not conserved. Rows grow
downwards, so `yOrientation == 1` moves particles up a row. The "rail" is the edge
column in the direction of horizontal travel: column 0 when `xOrientation == -1`,
otherwise the last column. A particle on the rail only moves vertically.

Modules: `Wrappers` (result type), `Grids` (grid, build, populate, count),
`Direction` (orientation to step and rail), `Engine` (per-cell rule and `Step`),
`NestedLoop` (the imperative `nextGen`), `ScanOrder` (any visiting order gives
`Step`), `Counting` (what a step does to the count), and `Scenarios` (small
concrete generations).

## Model

| member | source | states |
|---|---|---|
| Grids.BuildGrid | index.js:37-39 | the built grid has exactly `rows` rows of `columns` cells, none occupied, so it has no live cells |
| Grids.BuildGridCountsZero | index.js:37-39 | `countElements` of a freshly built grid is 0 |
| Grids.Populate | index.js:41-43 | seeding keeps the dimensions and adds exactly the cell `(rows/2, columns/2)` (floor division) to the live cells |
| Grids.PopulateFreshGrid | index.js:41-43 | seeding a fresh grid leaves exactly one particle, at the centre, and the count becomes 1 |
| Grids.RowCountIsCardinality | index.js:115-117 | the inner `reduce` of one row equals the number of its occupied positions |
| Grids.CountIsCardinality | index.js:113-121 | `countElements` equals the number of occupied positions of the grid |
| Grids.RowCount | index.js:115-117 | the inner `reduce` counts at most one per cell, and is 0 exactly when the row has no particle |
| Grids.CountElements | index.js:113-121 | `countElements` is 0 exactly when no cell of the grid holds a particle; `Grids.CountIsCardinality` gives its exact value |
| Direction.NextYNeighbor | index.js:56 | the row offset is opposite to `yOrientation`: orientation 1 moves a particle towards row 0, orientation -1 towards the last row |
| Direction.NextXNeighbor | index.js:58 | the column offset has the sign of `xOrientation`: orientation 1 moves a particle towards the last column |
| Direction.IsTheLastColumn | index.js:58-61 | for an in-range column, it is the rail exactly when one more horizontal step leaves the grid |
| Engine.IsYOutOfBounds | index.js:62 | for an in-range row, the vertical step leaves the grid exactly on the edge row the particle moves toward: row 0 for orientation 1, the last row for -1 |
| Engine.IsXOutOfBounds | index.js:61 | for an in-range column, the horizontal step leaves the grid exactly on the rail |
| Engine.HasYNeighbor | index.js:63 | holds iff the cell one vertical step away is a live cell of the current grid |
| Engine.HasXNeighbor | index.js:64 | holds iff the cell one horizontal step away is a live cell of the current grid |
| Engine.WriteAt | index.js:66-90 | an assignment into `nextGrid` throws iff the row index is outside the grid; otherwise it sets exactly the named cell; it never drops the particle |
| Engine.FateOf | index.js:56-93 | a written particle stays in bounds and moves at most one step per axis, in the orientation's direction; it moves vertically iff the cell one row on exists and is empty in the current grid; it moves horizontally iff it is off the rail and the cell one column on is empty in the current grid; a rail particle is always written; the write throws iff the particle is off the rail and its target row does not exist; it vanishes iff it is off the rail with both neighbours occupied |
| Engine.Step | index.js:45-98 | the step fails iff some live off-rail cell is on the row edge it moves toward; otherwise the result has the same dimensions and orientation and a well-formed grid |
| NestedLoop.VisitLiveCell | index.js:56-93 | the JavaScript branch chain for one live cell performs exactly the write `FateOf` describes, throwing where it throws |
| NestedLoop.ScanRow | index.js:49-94 | one row of the inner loop either fails exactly as `Step` does, or adds exactly that row's writes to the next grid |
| NestedLoop.NextGen | index.js:45-98 | the imperative row-major nested loop produces exactly `Step`'s result, including its failure |
| ScanOrder.Paint | index.js:48-95 | visiting cells in a given order and writing each live cell's particle keeps a well-formed grid |
| ScanOrder.PaintAddsDestinations | index.js:63-93 | in any order, painting fails iff a listed live cell throws, and otherwise sets exactly the destinations of the listed live cells |
| ScanOrder.ScanOrderIrrelevant | index.js:48-64 | any visiting order that reaches every cell gives `Step`'s failure or `Step`'s next grid, so the scan order is irrelevant |
| Counting.NextLiveCellsAreDestinations | index.js:48-95 | the occupied cells of the next grid are exactly the destinations of the occupied cells of the current grid |
| Counting.NextCellHasSource | index.js:66-93 | every particle of the next grid was written there by some live cell of the current grid |
| Counting.CountNeverIncreases | index.js:48-95 | `countElements` of the next grid is at most that of the current grid |
| Counting.CountDropsIff | index.js:63-93 | the count drops iff some particle is boxed in or two particles are written to the same cell |
| Counting.CountConservedWithoutLoss | index.js:63-93 | when no particle is boxed in and no two are written to the same cell, the count is unchanged |
| Counting.EmptyStaysEmpty | index.js:46-54 | an empty grid steps to the freshly built empty grid, for every orientation |
| Scenarios.SingleParticleMovesUpRight | index.js:56-78 | on a 3 × 3 grid with orientation (1, 1), the centre particle moves to row 0, column 2 |
| Scenarios.BottomRowParticleThrows | index.js:62-78 | an off-rail particle on the bottom row, moving down, makes the step fail |
| Scenarios.BoxedInParticleIsLost | index.js:77-93 | on a 3 × 2 grid with orientation (1, -1) and particles at (0, 0), (0, 1), (1, 0), the step succeeds with particles exactly at (1, 1) and (2, 1): the boxed-in particle at (0, 0) is lost and the count goes from 3 to 2 |
| Scenarios.TwoParticlesMerge | index.js:63-93 | on a 4 × 3 grid with orientation (1, -1) and particles at (0, 1), (0, 2), (1, 0), (2, 0), the particles at (0, 1) and (1, 0) are both written to (1, 1); the step succeeds with particles exactly at (1, 1), (1, 2), (3, 1) and the count goes from 4 to 3 |

## Behaviour notes

Facts about `nextGen` in index.js that the model proves and a reader might not
expect:

- The particle count is not conserved. Particles are lost through merges and
  through boxed-in cells (`Counting.CountDropsIff`, `Scenarios.TwoParticlesMerge`,
  `Scenarios.BoxedInParticleIsLost`).
- Every occupancy test reads `this.grid`, never `nextGrid`. The order in which
  cells are visited therefore does not matter (`ScanOrder.ScanOrderIrrelevant`).
- An off-rail particle whose vertical and horizontal neighbours are both occupied
  matches none of the branches at index.js:76-91 and is written nowhere
  (`Engine.FateOf`).
- An off-rail particle on the edge row it moves toward throws a TypeError,
  because `nextGrid[row + nextYNeighbor]` is `undefined`
  (`Scenarios.BottomRowParticleThrows`).
- `yOrientation == 1` gives `nextYNeighbor == -1`, so the particle moves up a row
  (`Scenarios.SingleParticleMovesUpRight`).

## Left out

- `constructor`, `resize`, `cellWidth`/`cellHeight` (index.js:25-35, 137-142): canvas sizing and floating-point division; they do not affect the grid.
- `drawGrid` (index.js:100-111): rendering through the 2D drawing context.
- `render` (index.js:123-135): the `setTimeout`/`requestAnimationFrame` loop. An exception in `nextGen` ends that loop; the model stops at the `Failure` result of a single step.
- The `deviceorientation` listener (index.js:152-160): event input and floating-point angle arithmetic. The orientation pair is a plain input restricted to -1 and 1 (`Direction.Sign`).
- `isTheLastRow` (index.js:57): computed but never used. It names the edge row opposite to the one `isYOutOfBounds` detects.
- `xOrientation == 0` or `yOrientation == 0`: allowed by the type comment but never stored by the program, so `Direction.Sign` excludes it.
- Grids.Populate: requires positive dimensions. The program fixes the grid at 16 × 9 (index.js:8-9). With zero rows, `this.grid[0]` would be undefined and throw; with zero columns, JavaScript would grow an empty row. Neither case is modelled.
- Engine.Step: the error does not say which cell threw. The JavaScript TypeError does not name it either.
- `Engine.Canvas.Valid`: every member assumes the stored grid has exactly `rows` rows of `columns` cells. The program always builds it that way (index.js:34, 37-39, 97).
