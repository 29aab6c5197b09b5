# Minesweeper board engines in Dafny

This project models the board logic of a small Python Minesweeper
repository. The repository holds three independent engines, and each one
is a Dafny module of its own:

- `Grid` and `GridPlay` (`grid.dfy`, `grid_play.dfy`, with the cell in
  `grid_cell.dfy`) model `Grid` in grid.py and `Cell` in cell.py.
  - Flags are booleans.
  - Mines are laid on the first reveal, outside the 3x3 square around the
    clicked cell.
  - A zero-count cell floods.
  - A numbered cell whose flag count matches its number is chorded.
  - Victory means the flags sit exactly on the mines.
- `Backend` (`backend.dfy`) models `Cell` and `GameBoard` in
  Backend-by-joel.py.
  - Marks have three states: unknown, flag and question mark.
  - Only the clicked cell is kept free of mines.
  - The flood runs over the eight neighbours.
  - Victory is decided by a reveal counter.
  - `get_cell_state` is a display projection.
- `Demineur` (`demineur.dfy`) models the board half of `Case` and
  `Demineur` in frontend.py.
  - Mines are laid when the board is built, as the first cells of a
    shuffled list of all positions.
  - The flood runs over the clipped 3x3 window, and any mark blocks it.

`Neighbourhood` (`neighbourhood.dfy`) holds what all three share:
- coordinates and bounds;
- the clipped 3x3 window and the 8-cell ring, in the order the Python
  loops visit them;
- counting mines over a list of cells;
- the cardinality facts behind "exactly n mines".

`Wrappers` (`wrappers.dfy`) holds `Option` and `Result`.

Every board is an immutable map from in-bounds coordinates to cell
records. Every operation is a pure function that returns the new board,
except `GridPlay.CheckVictory`, which is a method with a loop over the
cells.
The floods are recursive functions that terminate on the number of hidden
cells.

Randomness is a parameter of the model:
- The placement loops of grid.py and Backend-by-joel.py become a
  caller-supplied set of positions. Its predicate (`Grid.IsPlacement`,
  `Backend.IsPlacement`) says which sets the loop can produce.
- The shuffle of frontend.py becomes a caller-supplied permutation. Its
  predicate is `Demineur.IsShuffle`.

## Model

| member | source | states |
|---|---|---|
| GridCell.ToggleFlags | cell.py:31-33 | toggling changes nothing on a revealed cell and flips the flag of a hidden one; mine, reveal bit and count are never touched |
| GridCell.ToggleFlagsTwice | cell.py:31-33 | two toggles restore the cell |
| GridCell.Reveal | cell.py:35-39 | a flagged cell is left as it was and reports no hit; an unflagged one becomes revealed and reports a hit exactly when it is mined |
| GridCell.RevealIdempotent | cell.py:35-39 | revealing twice gives the same cell and the same answer as revealing once |
| Grid.NewGrid | grid.py:15-28 | a new grid has one fresh cell for every in-bounds coordinate, no mines and no mines placed |
| Grid.CountMinesAroundSpec | grid.py:56-70 | the count is the number of mines within distance one of the cell, the cell included, so at most 9; for a safe cell it is the number of mined neighbours, at most 8 |
| Grid.CountFlagsAroundSpec | grid.py:72-81 | the flag count is the number of flagged cells within distance one, the cell included |
| Grid.PlacementExists | grid.py:41-49 | the loop can finish exactly when enough unmined cells lie outside the safe square |
| Grid.PlaceMines | grid.py:31-54 | exactly the requested number of new mines are laid, all outside the safe square; afterwards every cell holds the mine count of the final layout; reveal and flag bits are untouched |
| Grid.ArmedKeepsLayout | grid.py:90-93 | once mines are placed, a reveal never places them again |
| Grid.ArmedLays | grid.py:90-93 | the first reveal lays exactly the supplied placement, of the requested size |
| Grid.ArmedSafeZone | grid.py:37-54 | after the first reveal places the mines, no cell within distance one of the click is mined, so the clicked cell is safe and its stored count is 0 |
| Grid.ArmedKeeps | grid.py:90-93 | arming changes no flag, no reveal bit and not the game-over flag |
| Grid.RevealAtSpec | grid.py:111-113 | one step of the flood reveals the visited cell unless it is flagged, and changes no other cell |
| Grid.FloodFill | grid.py:105-117 | the corrected flood reveals no mine, leaves flagged cells alone, and leaves every unflagged safe cell around a revealed zero cell revealed |
| Grid.FloodFillWithin | grid.py:105-117 | the corrected flood uncovers only cells of any set that holds the clicked cell's window and the whole window of each of its hidden, unflagged, safe zero-count cells; the least such set is the zero region reachable from the click without crossing a flag, with its rim; FloodFill's own closure is the matching lower bound |
| Grid.FloodFillLocal | grid.py:105-117 | when no cell of the clicked cell's window can spread the flood, nothing outside that window is uncovered |
| Grid.RecursiveReveal | grid.py:105-117 | whenever the flood as written returns, it has only uncovered cells, changed no flag, uncovered no mine and kept the game-over flag |
| Grid.RecursiveRevealDiverges | grid.py:105-117 | as written, the flood started on a hidden, safe, flagged cell with count zero never returns, whatever recursion budget it is given |
| Grid.RecursiveRevealReturnsClear | grid.py:105-117 | whenever the flood as written returns, no hidden, safe, flagged cell with count zero lies in the window of the clicked cell or in the window of any zero-count cell it uncovered; so meeting such a cell anywhere in the flood means it never returns |
| Grid.RecursiveRevealAgrees | grid.py:105-117 | whenever the flood as written does return, it returns the corrected flood's board |
| GridPlay.Chord | grid.py:119-131 | a chord reveals cells only, and never touches a flagged cell |
| GridPlay.ChordSweeps | grid.py:121-131 | after a chord, every unflagged cell of the window is revealed; hitting a mine does not stop the loop |
| GridPlay.ChordStep | grid.py:126-131 | each chorded cell ends revealed, and the chord reports game over exactly when that cell is a mine |
| GridPlay.RevealCell | grid.py:83-103 | a click keeps the grid well formed with every cell in place, and mines are placed afterwards |
| GridPlay.RevealCellSteps | grid.py:83-103 | a click reports a hit exactly when the clicked cell is unflagged and mined, and reveals it unless it is flagged |
| GridPlay.RevealCellHit | grid.py:95-97 | the answer is true exactly when the clicked cell was unflagged and is mined |
| GridPlay.RevealCellFirstSafe | grid.py:90-97 | the first reveal never reports a hit |
| GridPlay.RevealCellLayout | grid.py:90-93 | mines are laid by the first reveal only, and later reveals keep the layout |
| GridPlay.RevealCellUncovers | grid.py:83-103 | a click changes no flag, hides nothing again, never reveals a flagged cell, and reveals the clicked cell unless it is flagged |
| GridPlay.RevealCellStopsOnHit | grid.py:95-97 | a click that hits a mine reveals that one cell and nothing else |
| GridPlay.RevealCellSpreads | grid.py:99-102 | after a safe click on a zero cell its window is cleared; on a numbered cell whose flag count matches, every unflagged cell of its window is revealed |
| GridPlay.AdjacentCells | grid.py:145-153 | the list holds exactly the in-bounds cells within distance one, the cell included, and its length is the product of the clipped spans |
| GridPlay.AdjacentCellsCount | grid.py:145-153 | the list has 9 cells inside the board, 6 on an edge and 4 in a corner |
| GridPlay.CheckVictory | grid.py:186-194 | the game is won exactly when the flagged cells are the mined cells |
| Backend.ToggleMark | Backend-by-joel.py:35-38 | toggling a revealed cell changes nothing; on a hidden cell only the mark changes, and it stays in 0..2 |
| Backend.ToggleMarkCycle | Backend-by-joel.py:35-38 | a hidden cell's mark goes unknown, then flag, then question mark, then unknown again |
| Backend.ToggleMarkThrice | Backend-by-joel.py:35-38 | three toggles give the cell back |
| Backend.SetDifficulty | Backend-by-joel.py:50-62 | the three named levels have sizes 9x9 with 5 mines, 16x16 with 40 and 30x16 with 99; every other name is refused with the ValueError message |
| Backend.NewBoard | Backend-by-joel.py:42-48 | a new board has the level's size, one fresh cell per coordinate, no mines, a zero counter and the game running; an unknown level is an error |
| Backend.NewBoardInv | Backend-by-joel.py:42-48 | a new board satisfies the board invariant |
| Backend.PlacementExists | Backend-by-joel.py:64-76 | at every level the placement loop can finish wherever the first click lands |
| Backend.CalculateAdjacentMines | Backend-by-joel.py:78-93 | computing counts changes no mine, no reveal bit and no mark |
| Backend.CalculateAdjacentMinesCounted | Backend-by-joel.py:78-93 | afterwards every safe cell holds the number of its mined neighbours |
| Backend.CalculateAdjacentMinesSpec | Backend-by-joel.py:78-93 | a mine keeps its cell unchanged; a safe cell's count is the size of its set of mined neighbours, in 0..8 |
| Backend.PlaceMines | Backend-by-joel.py:64-76 | placement does nothing once mines are placed, and always leaves the board armed with its size, counter and game flag unchanged |
| Backend.PlaceMinesLays | Backend-by-joel.py:64-76 | the first placement lays exactly the requested number of mines, never on the clicked cell, makes every count right and changes no mark or reveal bit |
| Backend.PlaceMinesZero | Backend-by-joel.py:78-93 | on a fresh board every mine still holds count 0 after placement |
| Backend.Open | Backend-by-joel.py:17 | revealing one hidden, unmarked cell shrinks the set of hidden cells |
| Backend.RevealRefuses | Backend-by-joel.py:15-16 | a revealed cell, or one with either mark, answers "Continue" and changes nothing |
| Backend.RevealOpens | Backend-by-joel.py:17-22 | any other cell is revealed, and the answer is "Game Over" exactly when it is a mine |
| Backend.RevealMineStops | Backend-by-joel.py:18-19 | revealing a mine reveals nothing else |
| Backend.Reveal | Backend-by-joel.py:13-33 | a reveal only uncovers cells, and never a flagged or questioned one |
| Backend.RevealSafe | Backend-by-joel.py:20-33 | on a board with right counts, a reveal uncovers no mine except possibly the clicked cell |
| Backend.RevealAdjacent | Backend-by-joel.py:24-33 | flooding the neighbours only uncovers cells, and never a marked one |
| Backend.RevealSweeps | Backend-by-joel.py:20-33 | after a zero cell floods, each unmarked neighbour is revealed |
| Backend.RevealClosed | Backend-by-joel.py:20-33 | every safe zero-count cell a reveal uncovers, however deep in the flood, ends with all its unmarked neighbours revealed |
| Backend.RevealWithin | Backend-by-joel.py:13-33 | a reveal uncovers only cells of any set that holds the clicked cell and every neighbour of each of its hidden, unmarked, safe zero-count cells; the least such set is the zero region reachable from the click without crossing a mark, with its rim |
| Backend.RevealCellOver | Backend-by-joel.py:97-98 | once the game is over a click answers "Game is already over." and changes nothing |
| Backend.Conclude | Backend-by-joel.py:103-110 | concluding a click changes no cell, no size, no mine and not the placement flag |
| Backend.ConcludeSpec | Backend-by-joel.py:103-110 | after a reveal the click reports a hit exactly on "Game Over"; otherwise the counter goes up by one and the game is won exactly when it reaches the number of safe cells; the game ends exactly when the answer is not "Continue" |
| Backend.RevealCell | Backend-by-joel.py:95-110 | a click keeps the board well formed with every cell in place |
| Backend.RevealCellOutcome | Backend-by-joel.py:95-110 | a click hits exactly when the cell was hidden, unmarked and mined; the first click never hits |
| Backend.RevealCellSafe | Backend-by-joel.py:95-110 | a click uncovers no mine other than the clicked cell and never a marked cell |
| Backend.RevealCellInv | Backend-by-joel.py:95-110 | every click keeps the board invariant |
| Backend.RevealCellRecounts | Backend-by-joel.py:106-110 | clicking an already revealed cell changes no cell yet still raises the counter |
| Backend.ClickAgainWins | Backend-by-joel.py:106-120 | clicking one revealed cell often enough wins the game with the grid unchanged |
| Backend.ClickAgainCounts | Backend-by-joel.py:106-120 | each such click before that adds one to the counter and answers "Continue" |
| Backend.ConcludeTallied | Backend-by-joel.py:106-110 | the corrected counter is the number of revealed safe cells |
| Backend.ClearedCount | Backend-by-joel.py:117-120 | on an armed board, the victory threshold is reached exactly when every safe cell is revealed |
| Backend.ConcludeTalliedWins | Backend-by-joel.py:106-120 | with the corrected counter, a safe reveal wins exactly when every safe cell is revealed |
| Backend.RevealCellTalliedWins | Backend-by-joel.py:95-120 | with the corrected counter, a click wins exactly when it hits no mine and leaves every safe cell revealed |
| Backend.ToggleFlag | Backend-by-joel.py:112-115 | toggling changes at most the chosen cell, and nothing once the game is over |
| Backend.ToggleFlagNext | Backend-by-joel.py:112-115 | while the game runs the chosen cell gets the cell's own toggle |
| Backend.ToggleFlagInv | Backend-by-joel.py:112-115 | toggling keeps the board invariant |
| Backend.ToggleFlagThrice | Backend-by-joel.py:112-115 | three toggles of one cell give the board back |
| Backend.Decimal | Backend-by-joel.py:128 | the rendering of a count is a non-empty string of digits with no leading zero |
| Backend.DecimalValue | Backend-by-joel.py:128 | the digits read back as the count |
| Backend.GetCellState | Backend-by-joel.py:122-133 | the symbol is "M" exactly for a revealed mine, " " for a revealed safe cell counted zero, "F" and "?" for the two marks on a hidden cell and "#" for any other hidden cell; a positive count is shown as its decimal digits with no leading zero, the one spelling `str` gives |
| Demineur.Reveler | frontend.py:21-22 | revealing sets the reveal bit and changes nothing else |
| Demineur.BasculerDrapeau | frontend.py:24-25 | toggling changes only the mark, leaves it in 0..2, and does so even on a revealed cell |
| Demineur.BasculerDrapeauCycle | frontend.py:24-25 | the mark goes nothing, then flag, then question mark, then nothing again |
| Demineur.BasculerDrapeauThrice | frontend.py:24-25 | three toggles give the cell back |
| Demineur.Difficultes | frontend.py:6-10 | Facile, Moyen and Difficile are 9x9 with 5 mines, 16x16 with 40 and 30x16 with 99; any other name is a KeyError carrying that name |
| Demineur.Prefix | frontend.py:43 | the slice is a prefix of the list, of Python's length for a positive or negative bound |
| Demineur.PlacerMines | frontend.py:40-44 | laying mines changes only mine bits |
| Demineur.PlacerMinesLays | frontend.py:40-44 | on a board without mines the mined cells are exactly the first nb_mines positions of the shuffle |
| Demineur.PlacerMinesCount | frontend.py:40-44 | there are exactly nb_mines of them when the board has room for that many |
| Demineur.ShuffleLength | frontend.py:41-42 | the shuffled list has one entry per cell of the board |
| Demineur.CalculerMinesVoisines | frontend.py:46-54 | computing counts changes no mine, no reveal bit and no mark |
| Demineur.CalculerMinesVoisinesSpec | frontend.py:46-54 | a mine keeps its cell unchanged; a safe cell's window count equals the size of its set of mined neighbours, in 0..8 |
| Demineur.CalculerCounted | frontend.py:46-54 | afterwards every safe cell holds its window's mine count, and mines that held 0 still do |
| Demineur.NewDemineur | frontend.py:28-35 | construction builds the level's board with mines laid and counts computed, or fails with the KeyError of an unknown level |
| Demineur.BuildLays | frontend.py:31-35 | a new board has every cell hidden and unmarked, and its mines are the first nb_mines of the shuffle |
| Demineur.BuildInv | frontend.py:31-35 | a new board has exactly nb_mines mines and every count right |
| Demineur.NewDemineurInv | frontend.py:28-35 | each of the three levels builds a board satisfying the invariant |
| Demineur.Open | frontend.py:89 | revealing one hidden, unmarked cell shrinks the set of hidden cells |
| Demineur.RevealRecursive | frontend.py:85-94 | the flood only uncovers cells, and never a marked one |
| Demineur.RevealRecursiveRefuses | frontend.py:86-87 | a revealed cell, or one with either mark, is left alone |
| Demineur.RevealRecursiveOpens | frontend.py:89-94 | any other cell ends revealed, and one with a non-zero count is the only cell revealed |
| Demineur.RevealRecursiveSafe | frontend.py:85-94 | started on a safe cell of a board with right counts, the flood uncovers no mine |
| Demineur.RevealRecursiveSweeps | frontend.py:91-94 | after a zero cell floods, every unmarked cell of its window is revealed |
| Demineur.RevealRecursiveClosed | frontend.py:85-94 | every zero-count cell the flood uncovers, however deep, ends with every unmarked cell of its window revealed |
| Demineur.RevealRecursiveWithin | frontend.py:85-94 | the flood uncovers only cells of any set that holds the clicked cell and the whole window of each of its hidden, unmarked zero-count cells; the least such set is the zero region reachable from the click without crossing a mark, with its rim |
| Demineur.RevelerCase | frontend.py:73-83 | a click keeps the board's cells in place |
| Demineur.RevelerCaseMine | frontend.py:78-81 | clicking a mine ends the game and changes no cell, whatever its mark |
| Demineur.RevelerCaseSafe | frontend.py:78-82 | any other click keeps the game flag as it was, even when the game is over, uncovers no mine and no marked cell, and reveals the clicked cell unless it is marked |
| Demineur.RevelerCaseInv | frontend.py:73-83 | every click keeps the invariant |
| Neighbourhood.AllPositionsCard | grid.py:23-26 | a w by h board has w times h cells |
| Neighbourhood.Window | grid.py:64-67 | the window holds exactly the in-bounds cells within distance one, the centre included, each once and in loop order |
| Neighbourhood.Ring | Backend-by-joel.py:84-91 | the ring holds exactly the in-bounds cells within distance one other than the centre, each once |
| Neighbourhood.CountWindow | frontend.py:50-54 | counting mines over the window gives the number of mines within distance one |
| Neighbourhood.CountRing | Backend-by-joel.py:84-92 | counting mines over the ring gives the number of mined neighbours |
| Neighbourhood.DistinctCard | frontend.py:41-43 | a list without repeats has as many distinct cells as entries |

## Left out

- All widget and window code is left out: drawing, images, buttons, the
  timer label, `creer_interface`, `mettre_a_jour_interface`,
  `afficher_game_over`, the difficulty change and `reset` of frontend.py.
  The same goes for the `draw` methods of cell.py and for the `draw`,
  `draw_game_over` and `update_inspected_cells*` methods of grid.py.
- topbar.py and game.py are not part of this model. They are a
  wall-clock timer, a menu and window wiring.
- `reset_all_cells` in grid.py is left out. It calls `Cell.reset` and
  `update_button`, which the cell class does not define.
- The calls out of grid.py are no-ops in the model: the timer start at
  grid.py:91 and the `handle_game_over` callback at grid.py:131. The
  game-over flag that `reveal_adjacent` sets is modelled; the callback is
  not.
- The timer start in `reveler_case` (frontend.py:74-76) is left out.
- Randomness is a parameter: `random.randint` in the placement loops and
  `random.shuffle` in frontend.py. The model does not say how likely any
  layout is.
- Console output is left out: `display_board` and the demo at the end of
  Backend-by-joel.py.
- The branch at grid.py:116-117 is unreachable, because the enclosing test
  already requires the cell to be safe. The model has no counterpart for
  it.
- Coordinates are always in bounds. Python would wrap a negative index
  to the far side of the board, but every caller passes a cell of the
  board.
- GridPlay.AdjacentCells returns the coordinates of the cells, not the cell
  objects.
- In the Backend and frontend boards the width is the extent of the first
  coordinate. This matches the `grid[x][y]` layout of the source.
- Grid.RecursiveReveal: the as-written flood takes a recursion budget
  (`fuel`) and answers `None` when the budget runs out. Python's own
  recursion limit is not modelled.
- GridPlay.RevealCell: the source never returns when its flood meets a
  hidden, safe, flagged cell with count zero (a first click on a flagged
  cell is enough); Python raises a RecursionError there. The model of
  `reveal_cell` and the RevealCell* and Chord* rows use the corrected
  flood `Grid.FloodFill` instead. `Grid.RecursiveRevealAgrees` shows that
  it gives the same board wherever `recursive_reveal` returns. When the
  clicked cell itself is flagged with count zero, `reveal_cell` still falls
  through to the flood (grid.py:99-100); the corrected flood then leaves the
  clicked cell hidden but reveals the unflagged cells of its window and
  spreads from there, where the source would never return.
- Demineur.BasculerDrapeau is modelled although no click handler in
  frontend.py calls it.
- Victory is not modelled for frontend.py, because frontend.py has no
  victory check.

Three behaviours of the code are worth noting:
- A chord in grid.py does not stop when it hits a mine. It keeps
  revealing the remaining cells of the window.
- The beginner level of Backend-by-joel.py and frontend.py has 5 mines,
  while the 9x9 game of the grid.py engine has 10 (game.py:7, and the
  "Easy 9x9 10 mines" menu entry at topbar.py:23).
- In frontend.py, clicking a mine ends the game even when the cell is
  flagged.

## Findings

| source | as written | input that shows it | evidently intended | confidence | as-written member | corrected member |
|---|---|---|---|---|---|---|
| grid.py:112-115 | the flood recurses into every zero-count neighbour, even one whose `reveal` refused because it is flagged; that call visits the same cell again, forever | flag any cell before the first click, then call `reveal_cell` on it: the mines avoid its 3x3 square, so it is a flagged safe cell with count 0; `reveal` refuses it and `recursive_reveal` calls itself on it without end | a flagged cell stops the flood, as the chord and the other two engines do | high, not executed | Grid.RecursiveRevealDiverges | Grid.FloodFill |
| Backend-by-joel.py:106-110, 117-120 | `cells_revealed` goes up by one on every click that does not hit a mine, including clicks on cells that are already revealed, and victory compares that counter with the number of safe cells | beginner board (81 cells, 5 mines): a first click on a cell with a non-zero count reveals that cell alone and sets the counter to 1; clicking the same cell 75 more times answers "Congratulations! You won!" with 75 safe cells still hidden | the game is won exactly when every safe cell is revealed | high, not executed | Backend.ClickAgainWins | Backend.RevealCellTalliedWins |
