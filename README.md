# Game of Life engine, modelled in Dafny

This project models the simulation core of a small browser demonstration of
Conway's Game of Life. The page keeps two boards: the one shown, `currentBoard`,
and a spare, `nextBoard`. One generation step writes the successor of every cell
of `currentBoard` into `nextBoard`, and then the page swaps the two references.
The repository has two versions of the engine, and both are modelled.

- `index.ts` (module `Life`, file `life.dfy`). A `Board` class holds `rows`,
  `columns`, a `toroidalBoard` flag and a grid `cells` of integers.
  - `getCellState` reads a cell as DEAD (0) or ALIVE (1). On a toroidal board it
    wraps the coordinates with `posmod`, which is built from JavaScript's
    truncating `%`. On a flat board a read outside the grid gives DEAD.
  - `countAliveNeighbours` counts the live cells among the eight neighbours.
  - `setCellState` and `configureBoard` write cells in place.
  - `generateNewBoard` fills one board from the other.
  - `Simulation` is the pair of boards and the swap done after each step.
  - The page's self-test fixtures are the five 3 x 3 patterns with their expected
    centre counts.
- `index.js` (module `RawLife`, file `raw_life.dfy`). An earlier version.
  - Boards are bare `32 x 32` integer arrays.
  - `countNeighbours` fills a two-slot tally array lent by the caller. Its loops
    visit only the offsets (-1, -1), (-1, 0) and (0, -1), so a cell sees just
    three neighbours: above-left, above and left.
  - `generateNewBoard` applies Conway's rule table to that tally.
- Both versions use Conway's rule from module `Rules` (`rules.dfy`). The rule is
  stated once, as the four clauses in the comments above each `generateNewBoard`.

Where code changes state step by step, the model is imperative. Boards are
objects whose methods reassign the `cells` field, and raw boards are `array2<int>`.
Loops carry invariants, and each method's `ensures` relates the new state to a
specification function: `AliveNeighbours`, `NextState`, `UpLeftCount`,
`Successor`. `posmod`, `wrapAround`, `inBounds` and `getCellState` are single
expressions, so they are functions.

## Model

| member | source | states |
|---|---|---|
| `Rules.NextAlive` | index.ts:137-141 | Conway's four rules. A live cell dies with fewer than 2 live neighbours, survives with 2 or 3, and dies with more than 3. A dead cell becomes alive exactly when it has 3. |
| `Life.JsRem` | index.ts:71 | JavaScript's `%` with a positive divisor. The result is strictly between `-m` and `m` and takes the sign of the dividend. It differs from `n` by a multiple of `m`. It is 0 exactly when `m` divides `n`. |
| `Life.PosMod` | index.ts:70-72 | For `m > 0`, `posmod(n, m)` lies in `[0, m)` and equals the mathematical remainder `n mod m`, so a wrapped coordinate is always a valid index. |
| `Life.Board.constructor` | index.ts:42-47 | A new board has exactly `rows` rows of `cols` cells, every one DEAD, and keeps the given toroidal flag. |
| `Life.Board.GenerateBoard` | index.ts:49-57 | Appends `rows` rows of `columns` zeros and leaves the rows already present unchanged. |
| `Life.Board.GetCellState` | index.ts:59-68 | Always returns DEAD or ALIVE. On a flat board an out-of-bounds read gives DEAD, and an in-bounds cell reads ALIVE exactly when it stores 1. On a toroidal board with columns, the cell at `(row mod rows, col mod columns)` is read. A toroidal board with rows but no columns reads DEAD everywhere. |
| `Life.Board.WrapAround` | index.ts:74-76 | Returns 0 or the input. With at least one row, it returns 0 exactly for multiples of the row count. With no rows it returns the input, because NaN is never 0. |
| `Life.Board.InBounds` | index.ts:82-84 | On a well-formed board, `(row, col)` is in bounds exactly when `cells[row][col]` exists. |
| `Life.Board.SetCellState` | index.ts:78-80 | An in-bounds write stores the state at `(row, col)`. Every other cell and the board's shape stay unchanged. |
| `Life.Board.AliveNeighbours` | index.ts:86-96 | The number of the eight neighbouring offsets that read as ALIVE, edge policy included, is at most 8. |
| `Life.Board.CountAliveNeighbours` | index.ts:86-96 | The loop over `dr, dc` in {-1, 0, 1}, skipping (0, 0), returns exactly `AliveNeighbours(r0, c0)`. The result is in `[0, 8]`. |
| `Life.Board.ConfigureBoard` | index.ts:98-104 | A configuration that fits sets the top-left `cfg.length x cfg[0].length` block to `cfg`. Every other cell stays unchanged. |
| `Life.GenerateNewBoard` | index.ts:142-155 | `currentBoard` is not modified. Each cell of the `BOARD_ROW x BOARD_COL` area of `nextBoard` gets Conway's successor of the corresponding cell of `currentBoard`. This is proved despite the index test `aliveNeighbors in [2, 3]`, modelled by `Life.IsIndexOf`. Cells of `nextBoard` outside that area are unchanged. |
| `Life.SurvivalTestIsIndexTest` | index.ts:149 | The test `aliveNeighbors in [2, 3]` holds exactly for the counts 0 and 1, the array's indices. It fails for 2 and 3. |
| `Life.Simulation.constructor` | index.ts:116-117 | Two distinct, fresh, toroidal, all-DEAD `BOARD_ROW x BOARD_COL` boards. |
| `Life.Simulation.Step` | index.ts:172-177 | Generate, then swap. The new current board holds exactly the next generation of the old current board, whatever the old spare held. The new spare is the old current board, unmodified. |
| `Life.AllDeadStaysDead` | index.ts:142-155 | On an all-DEAD board every read gives DEAD, every cell has 0 live neighbours, and every successor is DEAD. |
| `Life.TorusCornerSeesOrigin` | index.ts:86-96 | On an `n x n` toroidal board with `n >= 3` whose only live cell is `(0, 0)`, cell `(n-1, n-1)` has exactly one live neighbour. |
| `Life.FixtureCount` | index.ts:198-226 | On a flat 3 x 3 board holding the i-th self-test pattern, the centre cell's live-neighbour count is the i-th expected result (0, 4, 8, 1, 3). |
| `Life.TestCountNeighbours` | index.ts:228-236 | Configuring one flat 3 x 3 board with each pattern in turn and counting at `(1, 1)` yields exactly `[0, 4, 8, 1, 3]`. |
| `RawLife.CreateBoard` | index.js:30-36 | A fresh `BOARD_ROW x BOARD_COL` board of zeros. |
| `RawLife.UpLeftCount` | index.js:54-71 | The tally counts only on-board cells holding 1 among the three up/left neighbours, so it lies in `[0, 3]`. |
| `RawLife.UpLeftCountLocal` | index.js:56-66 | The tally depends only on the cells at offsets (-1, -1), (-1, 0) and (0, -1). Boards that agree there give the same tally. |
| `RawLife.LowerNeighboursUnseen` | index.js:56-57 | A top-row cell with three live neighbours in the row below and a dead left neighbour tallies 0: the loops never look down or right. |
| `RawLife.CountNeighbours` | index.js:54-71 | `neighbours` is zero-filled and only `neighbours[1]` is incremented, so every other slot ends at 0 and `neighbours[1]` is the up/left tally. The `<= BOARD_ROW` and `<= BOARD_COL` guards never let a read leave the board. |
| `RawLife.GenerateNewBoard` | index.js:77-106 | Every cell of `nextBoard` gets Conway's rule applied to the cell of `currentBoard` and its up/left tally. A DEAD cell becomes 1 iff the tally is 3. Any other value becomes 0 below 2, 1 at 2 or 3, and 0 above 3. `currentBoard` is never written. |
| `RawLife.NextGeneration` | index.js:114-118 | After generating and swapping, the new current board is the grid just computed from the old current board. The new spare is the old current board, unchanged. |

## Left out

- Browser plumbing is not modelled. This covers element lookup and its error
  (`getElementOrError`, the `app == null` check), the canvas context, grid
  lines (`drawCheckedBoard`) and cell painting (`render`, `fillStates`). These
  are calls into the DOM and the 2D canvas.
- The click handlers are not modelled. They turn pixel offsets into a cell with
  floating-point division by a non-integer cell size and `Math.floor`. The
  handler in index.ts:160 then calls `setCellState(x, y, 1)`, which
  `Life.Board.SetCellState` models. The handler in index.js:110 writes
  `currentBoard[x][y] = 1` into the array directly.
- Playback is not modelled: `setInterval`, `clearInterval`, `playbackID`, the
  speed input and the guard against starting twice are timer and event
  plumbing. One playback tick without the drawing is `Life.Simulation.Step`.
- The `console.log` output of the self-test and of index.js:84 is not modelled.
  The self-test's counts are returned and proved instead.
- JavaScript numbers are modelled as integers. Board dimensions are `nat`, and
  cells are `int`: the source stores whatever number it is given. Fractional or
  negative dimensions are not modelled.
- `Life.Board.GetCellState` requires `CanWrap()`: a toroidal board with no
  rows cannot be read. In the source, `posmod(row, 0)` is NaN, `cells[NaN]` is
  `undefined`, and indexing it throws. A toroidal board with rows but no
  columns is modelled: it reads DEAD.
- `Life.Board.SetCellState` requires an in-bounds cell. The source does not
  check this: a bad row throws, a column at or past the end grows the row
  array, and a negative column adds a property that is not an index. Every
  caller passes an in-bounds cell.
- `Life.Board.ConfigureBoard` requires a configuration that fits. It has no
  more rows than the board, its first row is no longer than the board is wide,
  and no row is shorter than the first. Otherwise the source throws, grows a row,
  or stores `undefined`.
- `RawLife.CountNeighbours` requires `r0 < BOARD_ROW` and `c0 < BOARD_COL`, as
  its only caller does. It also requires a tally array of at least two slots.
- `RawLife.GenerateNewBoard` marks the overpopulation branch
  (`nbors[ALIVE] > 3`, index.js:100-102) with `assert false` instead of a write.
  The three-cell tally never exceeds 3, so that branch cannot run.
- `Life.GenerateNewBoard` covers the fixed `BOARD_ROW x BOARD_COL` area, as the
  source's loops do, not the board's own dimensions.
