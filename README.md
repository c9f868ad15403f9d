# Ultimate Tic-Tac-Toe rules engine in Dafny

This project models the rules engine of a small Ultimate Tic-Tac-Toe program (`utt.py`) and proves properties of the model.

The game is played on nine tic-tac-toe grids (sub-grids) arranged 3x3. A tenth grid, the meta-grid, records which player captured which sub-grid.

- **Cells.** Cells and grid positions are numbered 1..9 in reading order.
- **Move codes.** A move is the code `board * 10 + cell`. The tens digit names the sub-grid and the units digit the cell in it.
- **Where to play.** The first move may go anywhere. After that, the cell digit of the last move names the sub-grid the next move must go to. When that sub-grid's meta-grid cell is already taken, every sub-grid is open again (a "free move").
- **Capturing.** Winning a sub-grid with a line of `X` or `O` writes that mark into the meta-grid, unless its meta-grid cell is already taken (a sub-grid won by one player keeps that mark even if the other player later fills a line there too). The game's winner is the winner of the meta-grid.

## Modules

- `Coords` (`coords.dfy`): the cell-number/coordinate conversions `gridxy` and `mnum`.
- `Grid` (`grid.dfy`): one tic-tac-toe grid as a value.
  - the open cells;
  - placing a mark, write-once;
  - the winner scan: rows, then columns, then the two diagonals; otherwise `'N'` while a cell is open and `'S'` (scratch, a tie) when none is.
- `Rules` (`rules.dfy`): the whole game as a value (`Game`: nine sub-grids, the meta-grid and the last move).
  - the active sub-grids and the legal move codes;
  - the effect of a move (`Apply`);
  - the invariant `Consistent` tying the meta-grid to the sub-grids;
  - the winner.
- `Utt` (`utt.dfy`): the two classes of the program.
  - `XOGrid` holds a `grid` field rewritten in place.
  - `UTTBoard` owns nine `XOGrid` objects, the meta-grid object `outer` and the field `lastMove`.
  - Each method is proved against the value functions: `UTTBoard.Model()` reads the objects back as a `Rules.Game`, and every method states its outcome in terms of it.

Cells and players are `char`s, as in the source.

### Where the documented rules and the code disagree

The usual rules of Ultimate Tic-Tac-Toe say that when the sub-grid a player is sent to is full (for example, it ended in a tie), that player may play in any sub-grid.

The code does not do this:
- it widens to all sub-grids only when the designated sub-grid's meta-grid cell is non-space (`utt.py:165-168`);
- a tie never writes the meta-grid (`utt.py:199`).

So a designated tied sub-grid gives an empty list of legal moves. The model follows the code, and `Rules.TiedBoardBlocks` proves the empty list.

Unless the meta-grid already has a filled line, the game is then stuck. There is no legal move, yet the winner is still `'N'` (in progress), because the tied sub-grid's meta-grid cell stays open. `Rules.TiedBoardStalls` proves both facts. The driver loop in `main` (`utt.py:244`) runs while the winner is not `'X'`, `'O'` or `'S'`, and every move it tries is refused, so it never ends.

The free-move rule likewise lets a move go into a sub-grid that was already won but still has open cells (`Rules.FreeMove`).

## Model

| member | source | states |
|---|---|---|
| Coords.GridXY | utt.py:17-29 | the column lies in 0..2 and `num - 1 == 3*y + x`; for numbers 1..9 the row lies in 0..2 (Python floor division and remainder agree with Dafny's for divisor 3) |
| Coords.MNum | utt.py:31-35 | coordinates in 0..2 give a number in 1..9 |
| Coords.NumberRoundTrip | utt.py:27-35 | `mnum(gridxy(n)) == n` for every n in 1..9 |
| Coords.CoordRoundTrip | utt.py:27-35 | `gridxy(mnum(x, y)) == (x, y)` for x, y in 0..2 |
| Coords.GridXYInjective | utt.py:27-29 | distinct numbers give distinct coordinates |
| Grid.EmptyGrid | utt.py:42-43 | a new grid is well formed and every cell is open |
| Grid.OpenSpec | utt.py:93-101 | the scan over 1..n returns exactly the open cells among 1..n, each in range, in strictly ascending order |
| Grid.OpenCells | utt.py:89-101 | k is listed iff 1 <= k <= 9 and cell k is `' '`; the list is strictly ascending |
| Grid.OpenOfBlank | utt.py:93-101 | on an all-open grid the scan up to n returns 1..n |
| Grid.AllOpen | utt.py:93-101 | an all-open grid lists the moves `[1..9]` |
| Grid.EmptyGridOpenCells | utt.py:42-43 | a new grid lists the moves `[1..9]` |
| Grid.OpenCellsNonEmpty | utt.py:80-101 | the move list is non-empty iff some cell is open |
| Grid.Place | utt.py:112-113 | writing cell m sets cell m to p and leaves every other cell as it was |
| Grid.Move | utt.py:103-114 | the move is taken iff p is `'X'` or `'O'`, m is in 1..9 and cell m is open; then the grid is the grid with cell m set to p, otherwise it is unchanged |
| Grid.MoveIsWriteOnce | utt.py:108-114 | a move never overwrites a mark and changes no cell but m |
| Grid.OpenAfterPlace | utt.py:93-113 | placing a mark on open cell m shortens the scan by one exactly when m is within it |
| Grid.MoveRemovesCell | utt.py:103-114 | a taken move removes exactly m from the move list, which shrinks by one |
| Grid.Lines | utt.py:63-78 | there are eight lines of three cells each (the body lists them in the source's scan order: rows, columns, main diagonal, anti-diagonal) |
| Grid.FirstWin | utt.py:55-78 | the index returned is the first uniform non-space line at or after i, or the end if there is none |
| Grid.Winner | utt.py:46-87 | the result is one of `'X'`, `'O'`, `'S'`, `'N'` |
| Grid.WinnerScan | utt.py:46-87 | the winner is a mark iff some line is uniform and non-space; it is then the first such line's symbol; with no such line it is `'N'` iff a cell is open and `'S'` iff none is |
| Grid.WinnerIsMarkIffLine | utt.py:55-78 | the winner is a mark exactly when some player has filled a line, and that player is the winner |
| Grid.LineIsSticky | utt.py:55-78 | a filled line stays filled when marks are only added |
| Grid.WinIsSticky | utt.py:46-87 | a won grid stays won whatever marks are added |
| Grid.EmptyGridWinner | utt.py:42-87 | a new grid is open (`'N'`) |
| Grid.WinnerOpenCells | utt.py:80-101 | an open (`'N'`) grid has a legal move; a scratch (`'S'`) grid has none |
| Grid.TopRowWins | utt.py:63-65 | a top row of one mark wins for that mark, whatever the other rows hold |
| Rules.Initial | utt.py:118-124 | the first position is well formed and its meta-grid is consistent with its sub-grids |
| Rules.Active | utt.py:162-168 | the active sub-grids are numbers in 1..9 in ascending order |
| Rules.Tag | utt.py:172-175 | the code list has one code per cell, in order, with tens digit b and units digit the cell |
| Rules.Codes | utt.py:171-177 | every code is valid and its sub-grid is in the given list |
| Rules.LegalMoves | utt.py:160-177 | every legal move has both digits in 1..9 |
| Rules.LegalMovesMember | utt.py:160-177 | c is legal iff its tens digit is an active sub-grid and its units digit an open cell of that sub-grid |
| Rules.CodesMember | utt.py:171-177 | c is in the codes of a sub-grid list iff its sub-grid is listed and its cell is open there |
| Rules.LegalMovesIncreasing | utt.py:171-177 | the legal moves are strictly ascending |
| Rules.IncreasingCodesOrder | utt.py:171-177 | ascending codes are ordered by sub-grid first, then by cell |
| Rules.FreeMove | utt.py:162-168 | before the first move, or when the designated sub-grid is captured, every open cell of every sub-grid is legal, captured sub-grids included |
| Rules.SentToBoard | utt.py:165-168 | when the designated sub-grid's meta-grid cell is open, every legal move lies in that sub-grid |
| Rules.SentToBoardOpen | utt.py:165-175 | when the designated sub-grid's meta-grid cell is open, every open cell of that sub-grid is a legal move |
| Rules.TiedBoardBlocks | utt.py:165-168 | when the designated sub-grid ended in a tie there is no legal move |
| Rules.TiedBoardStalls | utt.py:160-168 | when the designated sub-grid ended in a tie and no meta-grid line is filled, there is no legal move and the winner is `'N'` (the `'N'` comes from the meta-grid's open cell through the blank-cell fallback at `utt.py:80-84`, reached through `utt.py:204-209`) |
| Rules.FreshLegalMoves | utt.py:162-177 | with no last move and all cells open, the legal moves are exactly the 81 codes with both digits in 1..9 |
| Rules.InitialLegalMoves | utt.py:118-124 | the first position has exactly the 81 legal moves |
| Rules.CodesOfFull | utt.py:171-177 | when every sub-grid has nine open cells, each listed sub-grid contributes nine codes |
| Rules.Apply | utt.py:179-202 | an illegal code is refused and changes nothing; the resulting game is well formed |
| Rules.ApplyTaken | utt.py:184-196 | a move is taken iff it is legal and the player is `'X'` or `'O'`; then it is the last move, it sets one open cell of its sub-grid to the player, and no other sub-grid changes |
| Rules.ApplyOuter | utt.py:198-200 | a meta-grid cell changes only when it was open, only at the move's sub-grid, and only to that sub-grid's winner, which is a mark |
| Rules.TieNeverMarks | utt.py:198-200 | a tied sub-grid leaves its meta-grid cell open in a consistent position |
| Rules.ApplyPreservesValid | utt.py:179-202 | a move keeps the invariant: a sub-grid won by a mark has a taken meta-grid cell, and a taken meta-grid cell names a player who filled a line there |
| Rules.RefusedMoveChangesNothing | utt.py:184-200 | in a consistent position, a refused move changes nothing, the meta-grid included |
| Rules.SameMoveTwice | utt.py:184-196 | repeating a taken move is refused, by either player, with no change |
| Rules.Winner | utt.py:204-209 | the game's result is one of `'X'`, `'O'`, `'S'`, `'N'` |
| Rules.TopRowCaptureWins | utt.py:204-209 | capturing the top row of sub-grids wins the game |
| Utt.XOGrid.constructor | utt.py:42-43 | a new grid object holds the empty grid |
| Utt.XOGrid.Winner | utt.py:46-87 | the result is one of `'X'`, `'O'`, `'S'`, `'N'` and is `Grid.Winner` of the grid, whose meaning `Grid.WinnerScan` states |
| Utt.XOGrid.Moves | utt.py:89-101 | the loop returns `Grid.OpenCells` of the grid: exactly the open cells, ascending |
| Utt.XOGrid.Move | utt.py:103-114 | the returned flag and the new grid are those of `Grid.Move` on the old grid |
| Utt.UTTBoard.constructor | utt.py:118-124 | ten distinct new grid objects; the model is the first position and is consistent |
| Utt.UTTBoard.NewRow | utt.py:122 | three distinct new grid objects, each empty |
| Utt.UTTBoard.ActiveBoards | utt.py:162-168 | returns `Rules.Active` of the model |
| Utt.UTTBoard.AppendCodes | utt.py:174-175 | appends the codes of the given cells of sub-grid b, in order |
| Utt.UTTBoard.AppendSubCodes | utt.py:173-175 | appends the codes of the open cells of sub-grid b |
| Utt.UTTBoard.Moves | utt.py:160-177 | returns `Rules.LegalMoves` of the model |
| Utt.UTTBoard.Move | utt.py:179-202 | the flag and the new model are `Rules.Apply` of the old model; the invariant is kept |
| Utt.UTTBoard.Play | utt.py:188-202 | the same, for a legal code |
| Utt.UTTBoard.Mark | utt.py:188-196 | the sub-grid object takes `Grid.Move`; no other sub-grid, the meta-grid and the last move do not change |
| Utt.UTTBoard.Capture | utt.py:198-200 | the meta-grid takes the sub-grid's winner when it is a mark, through `Grid.Move`; nothing else changes |
| Utt.UTTBoard.Winner | utt.py:204-209 | the game's winner is the meta-grid's winner |

## Left out

- Rendering (`UTTBoard.__str__` and the `bigX`/`bigO` art, `utt.py:5-15` and `utt.py:126-158`): text formatting only.
- `get_agent` (`utt.py:211-222`): console input and output and the dynamic import of agent modules, which are foreign code.
- `main` (`utt.py:225-262`): directory scanning, printing and the X/O turn alternation, which depends on the agents' choices. The engine does not check whose turn it is, and neither does the model. Any `'X'` or `'O'` may move.
- Players and cells are `char`s. The source accepts any value as a player and refuses every value except `'X'` and `'O'`, which the model's `char` parameter covers.
- Move codes are unbounded integers. The source's Python integers are unbounded too, so there is no overflow to model.
- Utt.UTTBoard.Move, Utt.XOGrid.Move: move codes and cell numbers are `int`s in the model. The source does not check the type. A non-integer value equal to a legal code, such as `55.0`, passes the `in moves()` check (`utt.py:184`, `utt.py:108`). It then raises a `TypeError` when used as a list index (`utt.py:188-193`, `utt.py:112-113`). The model does not cover that failure.
