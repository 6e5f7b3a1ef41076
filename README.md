# The Game of Life `Matrix`, modelled in Dafny

This project models the `Matrix` class of a browser Game of Life (rule B3/S23).
The class runs the game on a finite square grid of 0/1 cells with hard edges.
It builds a random grid, reads cells (outside the grid counts as dead),
counts the eight Moore neighbours, applies the survive/birth rule per cell and
to the whole grid, and grows or shrinks the grid by one row and one column in
place.

- `life.dfy`, module `Life`: the read-only queries (`isAlive`,
  `getTotalNumberOfLiveNeighbours`, `shouldLive`, `nextGenerationDeadOrAlive`)
  as functions of the grid value. It also holds the whole-grid step `Step` and
  the loops of `nextGeneration` as the method `NextGenerationOf`. A grid is a
  `seq<seq<int>>`, as the source keeps arrays of numbers.
- `resize.dfy`, module `Resize`: JavaScript's `splice(start, 1)`, the grid
  that `shrink` leaves behind, what `expand` guarantees (`IsExpansionOf`), and
  the lemmas that relate them.
- `matrix.dfy`, module `GameOfLife`: the class `Matrix` with the source's two
  fields, `matrixSize` and `matrix`. Its invariant `Valid()` says the grid is
  `matrixSize` rows of `matrixSize` cells, each 0 or 1. The constructor,
  `BuildMatrix`, `NextGeneration`, `Expand` and `Shrink` change the fields in
  place and keep `Valid()`. `RandomBoolean` is a nondeterministic choice of 0
  or 1.

Where the code and the intended design disagree, the model follows the code:

- The constructor uses `matrixSize || 15`. So a size of 0, or no size, gives
  a 15-by-15 grid, not an empty one. The doc comment above the constructor
  says "default 5"; the code uses 15.
- `shrink` decrements the size first and then splices index `matrixSize-1`.
  On an n-by-n grid with n >= 2 it therefore removes row n-2 and column n-2,
  not the last row and column. On a 1-by-1 grid, `splice(-1, 1)` removes the
  only row and leaves an empty grid. See "## Findings".

## Model

| member | source | states |
|---|---|---|
| `GameOfLife.Matrix.constructor` | src/Matrix.js:10-13 | the size is the argument when it is non-zero, 15 otherwise; the grid is size-by-size with 0/1 cells |
| `GameOfLife.Matrix.BuildMatrix` | src/Matrix.js:18-27 | installs a grid of `matrixSize` rows of `matrixSize` cells, each 0 or 1; the size is untouched |
| `GameOfLife.Matrix.RandomBoolean` | src/Matrix.js:33-35 | the coin flip is 0 or 1 |
| `GameOfLife.Matrix.RandomRow` | src/Matrix.js:22-24 | a row of n coin flips has length n and holds only 0 and 1 |
| `Life.IsAlive` | src/Matrix.js:43-49 | the result is 0 or 1 and never an error; it can be 1 only for a coordinate inside the grid |
| `Life.IsAliveHardEdges` | src/Matrix.js:43-49 | on an n-by-n 0/1 grid: the stored cell inside the grid, 0 for any row or column below 0 or at least n |
| `Life.LiveNeighbours` | src/Matrix.js:58-69 | the neighbour count is between 0 and 8 |
| `Life.NeighboursAreBlockMinusCentre` | src/Matrix.js:58-69 | the count equals the live cells of the 3-by-3 block around the cell minus the cell itself, so the eight lookups are the Moore neighbourhood, each position once, at edges and corners too |
| `Life.CornerNeighbours` | src/Matrix.js:58-69 | at the corner (0, 0) only the three in-grid neighbours count |
| `Life.ShouldLive` | src/Matrix.js:96-102 | the four rules: under 2 neighbours gives death, 2 or 3 keep a live cell alive, over 3 gives death, a dead cell is born on exactly 3 and on no other count |
| `Life.NextCellState` | src/Matrix.js:79-86 | the next state is 0 or 1, and 1 exactly when the cell has 3 live neighbours, or is alive and has 2 |
| `Life.Step` | src/Matrix.js:107-116 | the next generation has the old grid's shape, and each cell is the per-cell rule evaluated on the old grid |
| `Life.NextGenerationOf` | src/Matrix.js:107-116 | the nested loops build exactly `Step` of the grid they read |
| `Life.StepKeepsSquareBinary` | src/Matrix.js:107-116 | a step keeps an n-by-n grid n-by-n and its cells 0/1 |
| `Life.DeadGridStaysDead` | src/Matrix.js:96-116 | an all-dead grid steps to an all-dead grid |
| `Life.HardEdgesAreDeadBorder` | src/Matrix.js:43-49 | stepping a grid gives the same cells as stepping it inside a ring of dead cells, so the edge acts as dead cells |
| `Life.HorizontalBarTurns` | src/Matrix.js:79-116 | a horizontal bar of three in a 3-by-3 grid steps to the vertical bar; the dead cells next to its centre have 3 neighbours and are born |
| `Life.VerticalBarTurns` | src/Matrix.js:79-116 | the vertical bar steps back to the horizontal one |
| `Life.BlinkerOscillates` | src/Matrix.js:79-116 | the blinker has period exactly two |
| `GameOfLife.Matrix.NextGeneration` | src/Matrix.js:107-116 | the new grid is `Step` of the old one, computed from that one snapshot; the size is unchanged and the invariant kept |
| `GameOfLife.Matrix.Expand` | src/Matrix.js:121-135 | the size grows by one; the grid is (n+1)-by-(n+1) with 0/1 cells and agrees with the old grid on every old cell |
| `Resize.SpliceIndex` | src/Matrix.js:142 | the index `splice` removes: the start itself when in range, counted from the end when negative, none when past the end |
| `Resize.SpliceOne` | src/Matrix.js:144 | one element fewer when the index is in range; elements before it stay, elements after it move down by one |
| `Resize.ShrinkGrid` | src/Matrix.js:140-146 | the grid that `shrink` leaves has one row fewer |
| `Resize.ShrinkRemovesSecondToLast` | src/Matrix.js:140-146 | an n-by-n grid becomes (n-1)-by-(n-1) without row n-2 and column n-2; other cells keep their values, moving down past the removed index; at n = 1 the result is empty |
| `Resize.ShrinkKeepsBinary` | src/Matrix.js:140-146 | shrinking keeps every cell 0 or 1 |
| `GameOfLife.Matrix.Shrink` | src/Matrix.js:140-146 | the size drops by one and the grid becomes `ShrinkGrid` of the old one; the invariant is kept |
| `Resize.TrimLast` | src/Matrix.js:137-146 | dropping the last row and column leaves an (n-1)-by-(n-1) grid that agrees with the old one where both are defined |
| `Resize.TrimLastUndoesExpansion` | src/Matrix.js:121-146 | dropping the last row and column after any expansion gives back the original grid |
| `Resize.ShrinkAfterExpansionKeepsNewBorder` | src/Matrix.js:121-146 | `shrink` after `expand` keeps the old cells outside the old last row and column, and the added last row survives in place of the old one |
| `Resize.ShrinkAfterExpandCounterexample` | src/Matrix.js:140-146 | a 2-by-2 live grid, expanded with dead cells and shrunk, becomes `[[1,0],[0,0]]` |
| `GameOfLife.Matrix.Get` | src/Matrix.js:152-154 | the current grid, which has `matrixSize` rows of `matrixSize` cells of 0 or 1 |
| `GameOfLife.CreateExpandShrink` | src/Matrix.js:121-146 | after create(4), expand and shrink the grid is 4-by-4 again and its top-left 3-by-3 block is unchanged |

## Left out

- `Math.random() >= 0.5` in `randomBoolean`: floating point with a distribution that cannot be verified. `RandomBoolean` is an arbitrary choice of 0 or 1.
- GameOfLife.Matrix.BuildMatrix: states that each cell is 0 or 1, not that it is a fair, independent coin flip.
- GameOfLife.Matrix.Expand: states that the new cells are 0 or 1, not that they are fair, independent coin flips. The corner cell of the new row is flipped twice in the source; the model keeps only the second flip, which is the one that survives.
- GameOfLife.Matrix.constructor: requires a size of at least 0. A negative size in the source gives a negative `matrixSize` with an empty grid. A missing, `null` or `NaN` size is falsy like 0, and the model writes it as 0.
- GameOfLife.Matrix.Shrink: requires `matrixSize >= 1`. At size 0 the source sets `matrixSize` to -1 while the grid stays empty. The page only shrinks above size 2.
- The `try`/`catch` in `isAlive` becomes an explicit bounds check with the same result.
- The `parseInt` calls and the string keys of `for…in` in `nextGeneration`: the model uses integer indices 0 .. size-1 directly.
- `get` returns the live internal array, so a caller could change it. The model returns the current grid as a value, which does not capture that aliasing.
- The JavaScript methods `isAlive`, `getTotalNumberOfLiveNeighbours`, `shouldLive` and `nextGenerationDeadOrAlive` are methods of the class. Here they are functions of the `matrix` field's value.
- src/app.js (the page component, the `setInterval` animation loop, and the size limits 2 and 40 on the resize buttons) is UI and timer code and is not part of this model.

## Findings

| source | as written | input that shows it | evidently intended | confidence | as-written member | corrected member |
|---|---|---|---|---|---|---|
| src/Matrix.js:141-145 | `shrink` decrements `matrixSize` and then splices index `matrixSize-1`. That is row and column n-2 of an n-by-n grid, so `shrink` right after `expand` keeps the added border and drops the old last row and column. | the 2-by-2 grid `[[1,1],[1,1]]`, expanded to `[[1,1,0],[1,1,0],[0,0,0]]`, shrinks to `[[1,0],[0,0]]` | remove the last row and column (index n-1), so that `shrink` undoes `expand` | medium; not executed | `Resize.ShrinkAfterExpandCounterexample` | `Resize.TrimLastUndoesExpansion` |

The class method `GameOfLife.Matrix.Shrink` keeps the code's behaviour
(`ShrinkGrid`), because that is what the class does.
`Resize.TrimLast` is the corrected definition, and it is proved to undo any
expansion.
