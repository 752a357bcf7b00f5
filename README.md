# 2048 board and move logic, in Dafny

This project models the game engine of a browser 2048 game (`script.js`): the
`Board` class and the part of the `Game` controller that is not about the page.

- **Board state.** The board is an n×n grid of cells. A cell is 0 when it is empty; otherwise
  it holds a power of two of at least 2. The board also keeps a score and an undo history
  holding at most two snapshots of the grid.
- **Moves.** A move slides every row to the left:
  - the zeros of the row are dropped;
  - equal neighbours merge in one left-to-right pass, and a value produced by a merge never
    merges again in the same pass;
  - each merge adds the doubled value to the score;
  - the row is padded with zeros back to its length.

  The other three directions turn the grid by quarter turns, slide it left and turn it back.
- **After a move.** When a move changed the grid, the game spawns a 2 or a 4 in a randomly
  chosen empty cell. It then checks whether the game is over, and announces the first
  milestone tile (2048, 4096, …) that is reached and was not announced before.

The Dafny modules follow that structure.

- `Rows` (rows.dfy): the slide of one row (`Compact`, `Merge`, `Pad`, `SlideRow`), its
  score (`RowGain`), and its laws:
  - sum kept;
  - tiles kept;
  - the row is left alone exactly when it is settled;
  - the two worked rows of the game.
- `Grids` (grids.dfy): the whole-grid slide, the quarter turn and its group laws, the four
  directions (`Shift`), the game-over predicate (`Stuck`) and the largest tile. It includes
  the proof that a grid holding a tile is stuck exactly when no direction changes it.
- `Spawning` (spawn.dfy): the row-major list of empty cells, and the choice of a cell and a
  value from two random draws.
- `Snapshots` (history.dfy): the two-entry undo buffer and where an undo goes back to.
- `Milestones` (milestones.dfy): the milestone list and the choice of the one to announce.
- `Engine` (board.dfy): `class Board`. Its methods update `tiles`, `score` and `history` in
  place with the source's loops, and each is proved against the functions above.
- `Controller` (game.dfy): `class Game`, with the direction dispatch of `move` and the
  status check.

Randomness is a parameter. `Math.random()` is replaced by caller-supplied draws of type
`Random`, a real number in [0, 1). The cell index is `floor(r * k)` over the k empty cells,
and the value is 2 when the second draw is below 0.9 and 4 otherwise. These are the source's
own formulas. Every empty cell and both values can be reached by some draw
(`Spawning.SpawnedReaches`).

A merge of two equal values v, v produces 2v, so a slide keeps the sum of the cell values
exactly (`Rows.SlideRowSum`, `Grids.ShiftSum`).

Some specification functions carry no contract of their own; the lemmas in the table state
their properties. They model these lines of `script.js`:

- `Rows.MergeGain` and `Rows.RowGain`: the points a merge pass and a row slide score
  (script.js:47).
- `Grids.MoveGain` and `Grids.ShiftGain`: the points of a whole-grid slide and of a move in
  one direction (script.js:47, 182-186).
- `Grids.Stuck`: the game-over condition, no empty cell and no equal neighbours
  (script.js:74-83).
- `Spawning.EmptyCells`: the row-major scan for empty cells (script.js:27-32).
- `Grids.TurnsBefore` and `Grids.TurnsAfter`: the quarter turns each direction applies
  before and after the leftward slide (script.js:183-186).

## Model

| member | source | states |
|---|---|---|
| Rows.Compact | script.js:41 | the filtered row is no longer than the row and holds no zero |
| Rows.CompactCells | script.js:41 | the filtered row holds exactly the nonzero values of the row, with their multiplicities |
| Rows.CompactSum | script.js:41 | dropping the zeros keeps the sum of the row |
| Rows.Merge | script.js:44-54 | the merge pass never lengthens its input |
| Rows.Pad | script.js:55 | padding brings a shorter row up to the board's length and leaves a longer one alone |
| Rows.SumPad | script.js:55 | padding with zeros keeps the sum |
| Rows.SlideRow | script.js:41-55 | the slid row has the row's length |
| Rows.MergeStep | script.js:44-54 | one step of the merge loop: a pair at j becomes one doubled value and scores it, and the pass resumes after the pair; any other value is kept, scores nothing, and the pass resumes after it |
| Rows.MergeResume | script.js:44-54 | after one step, the values produced so far followed by the rest of the pass still form the whole pass (the loop's invariant is kept) |
| Rows.MergeSum | script.js:45-53 | the merge pass keeps the sum of the values |
| Rows.SlideRowSum | script.js:41-57 | sliding a row keeps the sum of its values |
| Rows.MergeNonZero | script.js:44-54 | the merge pass of nonzero values produces only nonzero values |
| Rows.MergePositive | script.js:44-54 | the merge pass of positive values produces only positive values |
| Rows.DoubleTile | script.js:46 | doubling a tile value gives a tile value |
| Rows.MergeTiles | script.js:44-54 | the merge pass of tile values produces only tile values |
| Rows.MergeIdentity | script.js:44-54 | the pass leaves its input unchanged exactly when no two neighbours are equal, and exactly when it does not shorten it |
| Rows.MergeGainSign | script.js:47 | a pass scores a non-negative amount, and scores zero exactly when no two neighbours are equal |
| Rows.RowGainSign | script.js:41-54 | sliding a row scores at least zero, and zero exactly when its nonzero values have no equal neighbours |
| Rows.CompactAppend | script.js:41 | filtering a concatenation is concatenating the filtered parts |
| Rows.CompactNonZero | script.js:41 | a row without zeros is its own filter |
| Rows.CompactZeros | script.js:41 | a row of zeros filters to nothing |
| Rows.CompactPad | script.js:41-55 | filtering the padded output of a pass gives the output back |
| Rows.CompactSlideRow | script.js:41-55 | the nonzero values of the slid row are exactly what the merge pass produced |
| Rows.MergeMovesRow | script.js:49-56 | a row in which some pair merges always changes, so the merge flag never disagrees with the row comparison |
| Rows.SlideRowShape | script.js:41-55 | the slid row has the row's length and holds the pass's output followed only by zeros; it is settled unless the output has equal neighbours |
| Rows.SettledZeroAfter | script.js:55 | in a settled row every cell after an empty cell is empty |
| Rows.SettledOfPadded | script.js:55 | nonzero values without equal neighbours, padded with zeros, form a settled row |
| Rows.SlideRowTiles | script.js:41-57 | sliding a row of tile values gives tile values |
| Rows.SettledRowSlides | script.js:41-57 | a settled row slides to itself |
| Rows.SlideRowFixed | script.js:56 | a slide leaves a row unchanged exactly when the row is settled (zeros only after all tiles, no equal tile neighbours) |
| Rows.CompactCons | script.js:41 | one step of the filter: a leading zero is dropped and anything else is kept in front |
| Rows.LeftmostPairFirst | script.js:44-55 | [a, 0, a, a] slides to [2a, a, 0, 0] for 2a points: the leftmost pair merges first (a = 2 gives [2,0,2,2] to [4,2,0,0]) |
| Rows.LeftmostPairCompacts | script.js:41 | [a, 0, a, a] filters to [a, a, a] |
| Rows.LeftmostPairMerges | script.js:44-54 | [a, a, a] merges to [2a, a] for 2a points |
| Rows.NoCascade | script.js:44-55 | [a, a, 2a, 0] slides to [2a, 2a, 0, 0] for 2a points: a produced value does not merge again (a = 2 gives [2,2,4,0] to [4,4,0,0]) |
| Rows.NoCascadeCompacts | script.js:41 | [a, a, 2a, 0] filters to [a, a, 2a] |
| Rows.NoCascadeMerges | script.js:44-54 | [a, a, 2a] merges to [2a, 2a] for 2a points |
| Grids.ZeroGrid | script.js:4 | the fresh grid is n×n, all zeros |
| Grids.GridExt | script.js:64-70 | two grids of the same shape with the same cells are equal |
| Grids.FlattenAppend | script.js:86 | flattening a concatenation of rows concatenates the flattenings |
| Grids.FlattenHas | script.js:86 | a value occurs in the flattened grid exactly when some cell holds it |
| Grids.MaxOf | script.js:86 | the maximum of a nonempty list is one of its elements and no element exceeds it |
| Grids.MaxTile | script.js:85-87 | the largest tile is held by some cell and no cell exceeds it |
| Grids.MoveLeftGrid | script.js:40-58 | the whole-grid slide keeps the number of rows and the length of every row |
| Grids.MoveLeftGridFixed | script.js:40-59 | the whole-grid slide leaves the grid unchanged exactly when every row is settled |
| Grids.MoveLeftGridTiles | script.js:40-58 | the whole-grid slide keeps every cell a tile value |
| Grids.MoveGainNonNegative | script.js:47 | the points of a whole-grid slide are never negative |
| Grids.MoveLeftPrefix | script.js:40-57 | storing the slid row i into the grid with rows before i slid gives the grid with rows up to i slid |
| Grids.MoveLeftPrefixRows | script.js:40-57 | sliding rows 0..i is sliding rows 0..i-1 and then row i |
| Grids.MoveGainPrefix | script.js:47 | the points of rows 0..i are those of rows 0..i-1 plus those of row i |
| Grids.MoveLeftPrefixChanges | script.js:49-56 | rows 0..i change exactly when rows 0..i-1 change or row i changes |
| Grids.MoveLeftPrefixShape | script.js:57 | a square grid with some rows slid stays square |
| Grids.MoveLeftPrefixDone | script.js:40-59 | once every row is slid the grid is the whole slide, which keeps tile values and scores at least zero |
| Grids.MoveLeftGridSum | script.js:40-58 | the whole-grid slide keeps the sum of all cell values |
| Grids.RotateOnce | script.js:64-70 | a quarter turn of an n×n grid is an n×n grid |
| Grids.RotateOnceMoves | script.js:67 | a quarter turn moves cell (i, j) to (j, n-1-i) |
| Grids.Rotated | script.js:62-72 | any number of quarter turns gives an n×n grid |
| Grids.RotateOnceAt | script.js:67 | cell (a, b) after a quarter turn comes from (n-1-b, a) |
| Grids.RotatedSmall | script.js:62-72 | one, two and three turns are one, two and three quarter turns in a row |
| Grids.TwiceTurnedCell | script.js:62-72 | cell (a, b) after two quarter turns comes from (n-1-a, n-1-b) |
| Grids.RotatedStepAt | script.js:63-70 | each further turn takes cell (a, b) from cell (n-1-b, a) of the previous turn |
| Grids.OnceTurnedMoves | script.js:67 | one more turn moves cell (i, j) of any turn to (j, n-1-i) |
| Grids.TwiceTurnedMoves | script.js:62-72 | two more turns move cell (i, j) to (n-1-i, n-1-j) |
| Grids.ThriceTurnedMoves | script.js:62-72 | three more turns move cell (i, j) to (n-1-j, i) |
| Grids.CellAfterOneTurn | script.js:62-72 | rotate(1) moves cell (i, j) to (j, n-1-i) |
| Grids.CellAfterTwoTurns | script.js:62-72 | rotate(2) moves cell (i, j) to (n-1-i, n-1-j) |
| Grids.CellAfterThreeTurns | script.js:62-72 | rotate(3) moves cell (i, j) to (n-1-j, i) |
| Grids.RotatedAdd | script.js:62-72 | rotate(k) then rotate(m) is rotate(k + m) |
| Grids.RotatedFour | script.js:62-72 | rotate(4) is the identity |
| Grids.RotatedInverse | script.js:184-186 | rotate(k) then rotate(4 - k) is the identity: rotate(4), rotate(2) twice, rotate(1) then rotate(3), and rotate(3) then rotate(1) |
| Grids.RotatedTiles | script.js:62-72 | turning keeps every cell a tile value |
| Grids.ReversedRows | script.js:67 | reversing the rows keeps their number |
| Grids.Transposed | script.js:67 | the transpose of an r×m grid is m×r |
| Grids.ReversedRowsCells | script.js:67 | reversing the rows keeps the multiset of cells |
| Grids.PrependColumn | script.js:67 | adding a column keeps the number of rows |
| Grids.PrependColumnCells | script.js:67 | adding a column adds its values to the multiset of cells |
| Grids.FlattenEmptyRows | script.js:67 | rows that are all empty flatten to nothing |
| Grids.TransposedCells | script.js:67 | transposing keeps the multiset of cells |
| Grids.RotateOnceCells | script.js:64-70 | a quarter turn keeps the multiset of cell values |
| Grids.RotatedCellsStep | script.js:63-71 | one more turn keeps the multiset of cell values |
| Grids.RotatedCellsMultiset | script.js:62-72 | any number of turns keeps the multiset of cell values |
| Grids.TurnsUndo | script.js:182-186 | for every direction, the turns after the slide undo the turns before it |
| Grids.Shift | script.js:182-186 | a move in any direction gives an n×n grid |
| Grids.ShiftChanges | script.js:182-186 | a move changes the grid exactly when the leftward slide of the turned grid changes it |
| Grids.ShiftSum | script.js:182-186 | a move in any direction keeps the sum of the cell values |
| Grids.ShiftTiles | script.js:182-186 | a move keeps every cell a tile value and scores a non-negative amount |
| Grids.StuckRotateOnce | script.js:74-83 | a quarter turn of a stuck grid is stuck |
| Grids.StuckRotated | script.js:74-83 | any number of turns of a stuck grid is stuck |
| Grids.StuckMoveLeft | script.js:74-83 | on a stuck grid the leftward slide changes nothing |
| Grids.StuckNoMove | script.js:74-83 | on a stuck grid no direction changes anything |
| Grids.NoMoveSettled | script.js:182-186 | when a direction changes nothing, every row of the turned grid for that direction is settled |
| Grids.NoMoveRowEmpty | script.js:74-83 | a row settled read from both ends is empty throughout as soon as one of its cells is empty |
| Grids.NoMoveColumnEmptyAbove | script.js:74-83 | a column settled read bottom to top is empty above any empty cell |
| Grids.NoMoveColumnEmptyBelow | script.js:74-83 | a column settled read top to bottom is empty below any empty cell |
| Grids.NoMoveRowZero | script.js:74-83 | when left and right moves change nothing, an empty cell empties its row |
| Grids.NoMoveColumnZero | script.js:74-83 | when up and down moves change nothing, an empty cell empties its column |
| Grids.NoMoveFull | script.js:74-83 | when no direction changes a grid that holds a tile, no cell is empty |
| Grids.NoMoveNoPairRight | script.js:79 | when the left move changes nothing, no tile equals its right neighbour |
| Grids.NoMoveNoPairBelow | script.js:78 | when the up move changes nothing, no tile equals the cell above it |
| Grids.NoMoveStuck | script.js:74-83 | a grid holding a tile that no direction changes is stuck |
| Grids.StuckIffNoMove | script.js:74-83 | for a grid holding a tile, the game-over test holds exactly when no move is possible |
| Spawning.EmptiesBeforeAre | script.js:29-31 | the cells the inner scan lists are exactly the empty cells of row i before column j |
| Spawning.EmptyPrefixAre | script.js:28-32 | the cells the scan lists up to row i are exactly the empty cells of those rows |
| Spawning.EmptyCellsAre | script.js:27-32 | the list of empty cells holds exactly the cells that are 0 |
| Spawning.EmptyCellsNone | script.js:33 | the list is empty exactly when no cell is 0 |
| Spawning.PickIndex | script.js:34 | floor(r * k) is a valid index into a list of k entries |
| Spawning.PickReaches | script.js:34 | every index of the list can be drawn |
| Spawning.SpawnValue | script.js:35 | the new tile is 2 exactly when the draw is below 0.9, and 4 otherwise |
| Spawning.Spawned | script.js:26-36 | the grid after a spawn is still n×n |
| Spawning.SpawnedFull | script.js:33 | a grid without an empty cell is left unchanged |
| Spawning.SpawnedOne | script.js:34-35 | otherwise exactly one previously empty cell becomes 2 or 4 and every other cell is unchanged |
| Spawning.SpawnedReaches | script.js:34-35 | every empty cell and both values can come out of some pair of draws |
| Spawning.SpawnedTiles | script.js:35 | a spawn keeps every cell a tile value |
| Snapshots.Pushed | script.js:12-15 | after a save the history holds one or two entries; the last is the saved grid and the one before it is the previous last entry |
| Snapshots.UndoTarget | script.js:19-20 | with two snapshots, undo restores the older one |
| Snapshots.UndoAfterFirstMove | script.js:9-24 | after the first move of a game, undo returns to the starting grid |
| Snapshots.UndoSkipsBack | script.js:12-24 | after two saves undo goes back to the first of the two saved grids, the grid from before the previous move |
| Milestones.TargetsAscending | script.js:94 | the milestone list is in increasing order |
| Milestones.FirstReached | script.js:225-233 | the chosen milestone is in the list, reached by the largest tile and not yet achieved; when none is chosen every reached milestone is already achieved |
| Milestones.FirstReachedSmallest | script.js:225-233 | with ascending milestones the chosen one is the smallest reached and not yet achieved |
| Milestones.Recorded | script.js:227-228 | recording adds at most one milestone, the chosen one |
| Engine.StuckCells | script.js:74-83 | a grid is stuck exactly when every cell is nonzero and differs from its right and lower neighbours |
| Engine.PadRow | script.js:55 | the padding loop appends zeros up to the row length |
| Engine.Board.constructor | script.js:2-10 | a new board is n×n with two spawned tiles on an empty grid, score 0, and a history holding that grid |
| Engine.Board.SaveState | script.js:12-15 | the history becomes the pushed history, with at most two entries and the current grid last |
| Engine.Board.Undo | script.js:17-24 | with two snapshots it drops the newer, restores the older and returns true; otherwise it returns false and changes nothing; the score is never restored |
| Engine.Board.AddRandomTile | script.js:26-36 | the grid becomes the spawn of the old grid with the two draws, and its cells stay tile values |
| Engine.Board.MoveLeft | script.js:38-60 | the grid becomes its whole-grid slide; the score rises by its points and never falls; the result is true exactly when the grid changed |
| Engine.Board.MoveRowLeft | script.js:41-57 | row i becomes its slide and no other row changes; the score rises by the row's points; the result is true exactly when the row changed |
| Engine.Board.MergePass | script.js:42-54 | the loop's output is the merge pass, the score rises by its points, and the flag is set exactly when some pair merged |
| Engine.Board.Rotate | script.js:62-72 | the grid becomes `times` quarter turns of itself and keeps tile values |
| Engine.Board.IsGameOver | script.js:74-83 | the result is true exactly when the grid is stuck |
| Engine.Board.GetMaxTile | script.js:85-87 | the result is held by some cell and no cell exceeds it |
| Controller.Game.constructor | script.js:91-95 | a new game has a fresh 4×4 board, the milestone list, no game over and no milestone achieved |
| Controller.Game.Move | script.js:178-193 | once the game is over nothing changes. Otherwise the grid is saved and shifted, and the score rises by the shift's points. Only a shift that changed the grid spawns a tile, sets game over exactly when the new grid is stuck, and announces the first reached milestone not announced before |
| Controller.Game.SpawnAndCheck | script.js:188-190 | a tile is spawned, then game over and the milestone are decided on the new grid |
| Controller.Game.ShiftBoard | script.js:182-187 | the grid becomes its shift in the direction, the score rises by the shift's points, and the result is true exactly when the grid changed |
| Controller.Game.CheckGameStatus | script.js:222-234 | game over is set when the grid is stuck; at most one milestone is recorded and announced, the first reached and not yet achieved |

## Left out

- Rendering, popups, event listeners, key and swipe handling: page and input plumbing. The
  popup of a milestone is modelled by `CheckGameStatus` returning it.
- `Game.undo`, `Game.reset`, `Game.continueGame` and the global game object are not part of
  this model: they only call `Board.undo` (modelled), build a new game (the constructor) or
  touch the page.
- `Math.random()`: the draws are parameters. The 90/10 split of values and the uniform choice
  of a cell are probabilities, which the model does not state.
- JSON deep copies of the grid are value copies here: grids are immutable sequences, so a
  snapshot can never alias the live grid.
- Engine.Board.Rotate: takes a natural number. The source's loop does nothing for a negative
  count, and its callers pass 1, 2 or 3.
- Engine.Board.GetMaxTile: requires a nonempty board. `Math.max()` of no cells is -Infinity,
  which is not an integer, and only 4×4 boards are ever built.
- Controller.Game.Move: directions are a closed datatype. A direction string outside the four
  would still save a snapshot and then change nothing; that case is not modelled.
- Grids.NoMoveStuck: requires a grid holding at least one tile. An all-zero grid admits no
  move but is not stuck; the game never builds one, since two tiles are spawned at the start
  and a slide keeps the sum of the cells.
- Snapshots.UndoTarget: states which snapshot undo restores only for a history of two
  entries, the only length at which undo acts.
- Numbers are unbounded integers. JavaScript's doubles are exact for every tile a 4×4 game
  can reach, so no rounding is modelled.
- The slide of one row, its merge loop and its padding loop are separate methods
  (`MoveRowLeft`, `MergePass`, `PadRow`), and so are the dispatch and the spawn-and-check
  steps of `Game.move` (`ShiftBoard`, `SpawnAndCheck`). The order of the state changes is
  the source's.
