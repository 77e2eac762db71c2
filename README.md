# Game of Life board update, modelled in Dafny

This project models the update logic of a browser Game of Life (`main.js`). The page keeps a square board of
cell elements in a two-dimensional array. A cell element is alive when its class list holds `on`, and it carries
its coordinates as two data attributes. About thirty times a second, `onGameTick` visits the board row by row. For
each cell it calls `setCellState`, which:

- asks `getNeighbourCount` how many of the eight neighbours are alive (positions off the board count as dead);
- asks `getStateByCount` for the B3/S23 verdict;
- writes that verdict back into the same cell.

There are two layers.

- `rules.dfy`, `neighbours.dfy` and `generation.dfy` are the value layer. A generation is a grid of alive flags
  (`seq<seq<bool>>`). The layer holds:
  - the rule (`Rules.StateByCount`);
  - the neighbour count, with a set-based reference definition (`Neighbours.NeighbourCount`, `LiveNeighbours`,
    `InBoundsNeighbours`);
  - the in-place row-major sweep that `onGameTick` performs (`Generation.Sweep`, `Tick`);
  - the simultaneous next generation of Conway's game, as a reference (`Generation.NextGen`).
- `board.dfy` is the imperative layer. The board is an `array2<Cell?>` of `Cell` objects; `x` and `y` never
  change, and `on` is updated in place. Each method of the source is a method over that array. Each is proved
  against the value layer through `Snapshot(board)`, the grid of alive flags the board currently shows.

The central result is about `onGameTick`. It updates cells in place, so each visit counts neighbours that earlier
visits in the same tick have already rewritten. The tick it computes is therefore not Conway's simultaneous
generation. `Generation.InPlaceTickBreaksBlinker` shows this on a blinker (see Findings). `Board.TickFromSnapshot`
is the corrected update: it counts on a frozen copy of the board and is proved to produce `NextGen`.

## Model

| member | source | states |
|---|---|---|
| Rules.StateByCount | main.js:65-90 | The new state is alive iff the count is in the survive set {2, 3} for a live cell, or in the birth set {3} for a dead one. Equivalently: the count is 3, or the cell is alive and the count is 2. |
| Rules.LiveCellFate | main.js:68-78 | A live cell dies below two neighbours, lives on with two or three, and dies above three. |
| Rules.DeadCellFate | main.js:79-86 | A dead cell becomes alive exactly when it has three neighbours. |
| Neighbours.NeighbourCount | main.js:92-148 | The count of live cells among the eight inspected positions is at most 8. |
| Neighbours.NeighbourCountUnfolds | main.js:98-145 | The count is the sum of the eight tests in the source's order (top left, above, top right, left, right, bottom left, below, bottom right). Each test adds one exactly when that position is on the grid and alive. |
| Neighbours.CountAliveIsCardinality | main.js:95-147 | Adding one per live position of a list without repeats gives the number of distinct live positions in it. |
| Neighbours.NeighbourCountIsLiveNeighbours | main.js:92-148 | The count equals the number of live Moore neighbours that lie on the grid. There is no wrap-around. |
| Neighbours.NeighbourCountWithinBounds | main.js:92-148 | The count is at most the number of Moore neighbours that lie on the grid, which is at most 8. |
| Neighbours.CornerCount | main.js:98-115 | At the top-left corner at most three neighbours exist, so the count is at most 3. |
| Board.GetNeighbourCount | main.js:92-148 | Reading the board slot by slot returns the count on the board's snapshot, which is the number of its live in-bounds neighbours. The method has no modifies clause, so it only reads. |
| Generation.AdvanceWrites | main.js:150-159 | Updating cell (x, y) keeps the grid's shape. Cell (x, y) gets the rule's verdict on its own state and on the count taken before the write; every other cell keeps its value. |
| Board.OneCellWritten | main.js:154-158 | After a write to one cell object, the snapshot differs from the earlier one only in that cell's slot, which shows the new state. |
| Board.SetCellState | main.js:150-159 | The board afterwards is the earlier board with only the given cell advanced by the rule, counted on the board as it was before the write. |
| Generation.SweepVisit | main.js:161-167 | The visit to (i, j) writes the rule's verdict computed on the grid as the sweep has left it so far, not on the starting grid. |
| Generation.SweepLeavesUnvisited | main.js:161-167 | At any point of the sweep, every cell not visited yet, including every cell outside the square, still holds its starting value. |
| Generation.SweepSettled | main.js:161-167 | Once a cell has been visited, it keeps the value its visit wrote at every later point of the sweep. |
| Generation.SweepView | main.js:161-167 | Midway through the tick, cells before the cursor in row-major order hold their final value and all the others their starting value. |
| Generation.TickCell | main.js:161-167 | The tick keeps the grid's shape. A cell of the square ends with the rule applied to its old state and to the neighbour count on the half-updated grid its visit sees; cells outside the square are unchanged. |
| Board.OnGameTick | main.js:161-167 | The board afterwards shows the row-major in-place sweep of the gameRootLength-by-gameRootLength square applied to the board before the tick. Each cell is updated exactly once, in row-major order. |
| Generation.StillLifeSurvivesSweep | main.js:161-167 | If the rule already maps every cell of the square to its own value, no prefix of the in-place sweep changes the grid. |
| Generation.DeadGridIsStill | main.js:161-167 | An all-dead grid satisfies that condition, so a tick leaves it unchanged. |
| Generation.BlockIsStill | main.js:161-167 | A 2-by-2 block on a 4-by-4 board is left unchanged both by the in-place tick and by the simultaneous generation. |
| Generation.NextGenAt | main.js:161-167 | Reference generation: each cell of the square gets the rule applied to its old state and to its count on the old grid; other cells are unchanged. |
| Generation.StillLifeIsFixedPoint | main.js:161-167 | A grid is a fixed point of the simultaneous generation exactly when the rule maps every cell of the square to its own value. |
| Generation.BlinkerOscillates | main.js:161-167 | Under the simultaneous generation a vertical blinker changes, and comes back after two generations. |
| Generation.InPlaceTickBreaksBlinker | main.js:161-167 | Under the in-place tick, cell (1, 0) of a vertical blinker stays dead, although the simultaneous generation makes it alive. So the two updates differ. |
| Board.TickFromSnapshot | main.js:161-167 | The corrected tick: the board afterwards shows exactly the simultaneous next generation of the board before the tick. |
| Board.InitializeGameState | main.js:19-29 | A fresh board of numberOfRows by numberOfCellsPerRow slots, none populated yet. |
| Board.PopulateGridElements | main.js:41-62 | Every slot of the gameRootLength square holds a new cell whose coordinates are (i, j) and whose initial state is the draw for (i, j). Slots outside the square are untouched, and the board stays coordinated. |

## Left out

- The page bootstrap (main.js:1-17): the DOMContentLoaded handler, the fixed size of 70 and the 30-per-second
  timer. The model's operations take the size as a parameter, and there is no clock.
- `randomBinary` (main.js:31-33) draws from `Math.random`. `PopulateGridElements` instead takes the draws as a grid
  parameter.
- `getDiv`, the row and cell elements' pixel positions, `appendChild` and the page container (main.js:35-39,
  43, 46, 52, 55, 59-60). A cell element is modelled only by its coordinates and its `on` class. The coordinate
  attributes are modelled as integer fields, so the string-to-`Number` conversion is not modelled.
- The global `window.gameState` is passed explicitly as the `board` argument.
- Board.InitializeGameState: it allocates the whole two-dimensional array at once, whereas the source creates
  one row array after another. Its slots are null, standing for the undefined entries of a fresh script array.
- Board.PopulateGridElements: it requires the square to fit the board. The script would grow a row array past its
  length, and would fail on a row index past the board; neither is modelled.
- Board.OnGameTick, Board.SetCellState, Board.GetNeighbourCount: they require every slot of the square to hold a
  cell and the cell's row to lie on the board. On an undefined slot, and on the unguarded `gameState[currentX]`
  of the "above" and "below" tests, the script would throw; those runs are not modelled.
- Board.OnGameTick: it writes every cell on every tick, whatever the verdict, exactly as `setCellState` does.
  There is no guarantee that a cell whose state does not change is left unwritten; the source gives none.

## Findings

| source | as written | input that shows it | evidently intended | confidence | as-written member | corrected member |
|---|---|---|---|---|---|---|
| main.js:161-167 | `onGameTick` updates each cell in place while sweeping row by row, so a later cell's neighbour count sees neighbours already advanced to the next generation. | A vertical blinker on a 3-by-3 board (alive at (0,1), (1,1), (2,1)). When (1,0) is visited, (0,1) has already died, so it counts 2 instead of 3 and stays dead. | Conway's simultaneous generation, in which every count is taken on the previous generation and the blinker turns horizontal. | high; not executed | Generation.InPlaceTickBreaksBlinker | Board.TickFromSnapshot |
