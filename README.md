# Connect Four rules engine

A Dafny model of the two Connect Four ("Puissance 4") programs in this
repository. Both play on a grid of 6 rows and 7 columns. Row 0 is the top row
and row 5 the bottom one. A piece dropped into a column falls to the lowest
empty cell of that column. Four equal pieces in a line (horizontal, vertical,
or either diagonal) win.

- `main.go` is a web server. It holds one shared `Game` record. The grid holds
  `0` for an empty cell and `1` or `2` for a player's piece. The record also
  holds the player to move, the winner (`0` while there is none) and the last
  cell played. This is modelled in module `Server` as class `Server.Game`.
  `Grid` is an `array2<int>` updated in place, next to a ghost picture `Cells`
  of it.
- `Puissance4.go` is a console game. Its board is a grid of strings: `"."` is
  empty, `"X"` and `"O"` are pieces. This is modelled in module `Console` as
  methods on an `array2<string>`, together with the prompt loop's step.

Module `Board` holds the rules both programs share, as ghost functions and
lemmas over `seq<seq<T>>`, generic in the cell type and the empty value:
- gravity drops (`Drop`, `LowestEmpty`);
- runs of four (`RunAt`, `HasRun`, `HasAnyRun`) for the four orientations of
  `Dir`. Each orientation carries its row and column offsets and the exact
  start-cell ranges that the loops of `checkWin` (main.go) and
  `checkVictory` (Puissance4.go) scan;
- the first run that `checkWin`'s scan meets (`FirstRunAt`, `FirstWinner`);
- the "no floating piece" invariant (`NoFloating`);
- full boards (`Full`).

The methods are proved against these functions. The properties are then
proved about the functions:
- drops never overwrite a piece and never leave a gap;
- a column fills bottom-up;
- a drop can only make its own piece win;
- the scan ranges are exact;
- every sequence of moves keeps the server's record consistent.

Four behaviours of the code are easy to misread:
- `switchPlayer` gives the turn to player 1 whenever the current player is not
  1. So `Server.Other` maps every value other than 1 to 1, not only 2.
- The console's `dropPiece` does no bounds check of its own. Its caller checks
  the column first (`Puissance4.go:119`). So `Console.DropPiece` requires a
  valid column, and `Console.Step` does the check.
- The server's `checkWin` reports any player's run, not just the mover's. The
  console's `checkVictory` only looks for the given piece. Both are modelled
  as written.
- Before its first `reset` the server's `Game` is Go's zero value: player 0,
  `LastRow`/`LastCol` 0 (`main.go:27`). `main` calls `reset` first
  (`main.go:214`). `Server.Game.constructor` models that zero value.

## Model

| member | source | states |
|---|---|---|
| Board.LowestEmptyFrom | Puissance4.go:35-40 | the scan from row r toward row 0 stops at the first empty cell of the column, and every cell it passed is occupied; -1 when none is empty |
| Board.LowestEmpty | main.go:37-44 | the landing row is an empty cell with only occupied cells below it; it is -1 exactly when the whole column is occupied |
| Board.Place | main.go:39 | writing one cell changes that cell to the piece and no other cell |
| Board.Drop | main.go:33-46 | a drop is accepted exactly when the column exists and has an empty cell; a rejected drop leaves the grid as it was; occupied cells are never overwritten |
| Board.DropLandsLowest | Puissance4.go:34-42 | an accepted drop puts the piece on the lowest empty cell of the column (all cells below are occupied) and leaves every other cell unchanged |
| Board.DropKeepsNoFloating | main.go:37-43 | a drop preserves "every piece rests on the bottom or on another piece" |
| Board.PlaceCreatesOnlyOwnRuns | main.go:39 | writing piece p into one cell gives no other value q a run of four it did not have already |
| Board.DropWinnerIsMover | main.go:184-186 | on a grid where nobody has four in a row, any non-empty owner of a run after a drop is the piece dropped |
| Board.AllEmptyIsFresh | Puissance4.go:10-19 | the all-empty grid is not full, has no floating piece and no run of four |
| Board.HasRunCases | main.go:58-108 | a run of four exists exactly when one exists horizontally, vertically, down-right or up-right |
| Board.ScanRangeIsExact | main.go:60-106 | a start cell lies in the loop ranges scanned for an orientation exactly when the line of four from it lies inside the 6×7 grid |
| Board.FillColumnBottomUp | Puissance4.go:35-41 | on an empty grid, n <= 6 drops into one column fill exactly its bottom n cells and nothing else (by induction on n) |
| Board.NextDropRow | main.go:37-45 | when exactly the bottom n cells of a column are occupied, whatever the other columns hold, the next drop lands on row 5 - n; with all 6 occupied it is rejected |
| Board.ColumnFillOrder | Puissance4.go:35-41 | on an empty grid, successive drops into one column land on rows 5, 4, 3, 2, 1, 0; the seventh is rejected |
| Board.FirstWinnerUnique | main.go:58-108 | at most one value is the first winner of a grid, so the scan's result is determined by the grid |
| Board.BottomRowWin | Puissance4.go:46-55 | drops of one piece into columns 0, 1, 2, 3 of an empty grid give that piece four in a row |
| Server.Other | main.go:49-55 | the next player is always 1 or 2, and is 2 exactly when the current one is 1 |
| Server.OtherTwice | main.go:49-55 | for a real player, switching gives the turn to the other player, and switching twice gives it back |
| Server.Game.constructor | main.go:26-27 | the zero-value game has an empty grid, player 0, winner 0 and last cell (0, 0) |
| Server.Game.PlayMove | main.go:33-46 | the grid afterwards and the result are those of a gravity drop of the current player's piece; on success LastRow/LastCol are the landing cell, otherwise unchanged; a grid without floating pieces keeps none |
| Server.Game.SwitchPlayer | main.go:49-55 | the player afterwards is the other player of the one before |
| Server.Game.ScanRow | main.go:60-106 | a non-zero result owns a run starting on row r at a scanned column j, and no non-empty run starts on row r left of j; zero means no non-empty run starts on row r within the scanned columns |
| Server.Game.ScanRuns | main.go:60-106 | a non-zero result owns the first run of a non-empty value in row-by-row, left-to-right order for the given orientation; zero exactly when no non-empty value has a run in that orientation |
| Server.Game.CheckWin | main.go:58-108 | a non-zero result is the owner of the first run met in the first orientation (horizontal, vertical, down-right, up-right) that has one; zero exactly when no player has a run |
| Server.Game.Reset | main.go:111-122 | every cell is 0, player 1 is to move, no winner, last cell (-1, -1); the state is consistent and nobody has a run |
| Server.Game.Step | main.go:182-191 | a decided game is frozen; otherwise the grid is the gravity drop; a rejected move changes nothing; an accepted one records the scan's first winner exactly when a run exists and otherwise switches the player; consistency is preserved and the recorded winner is the player who moved |
| Console.PieceFor | Puissance4.go:114-117 | the piece to play is "X" or "O" |
| Console.PiecesAlternate | Puissance4.go:114-117 | turn 0 plays "X", consecutive turns play different pieces, turns two apart the same, and no piece is the empty mark |
| Console.CreateBoard | Puissance4.go:10-19 | a fresh 6×7 board with every cell "." |
| Console.DropPiece | Puissance4.go:34-42 | the result and the board afterwards are those of a gravity drop into the column; no floating piece appears |
| Console.ScanRow | Puissance4.go:46-88 | true means the piece has a run starting on row r at a scanned column; false means no run of the piece starts on row r within the scanned columns |
| Console.ScanFor | Puissance4.go:46-88 | true exactly when the piece has a run in the given orientation |
| Console.CheckVictory | Puissance4.go:44-90 | true exactly when the piece has four in a row in some orientation |
| Console.IsFull | Puissance4.go:92-101 | true exactly when no cell is "." |
| Console.Step | Puissance4.go:114-133 | the board is the drop of the turn's piece; an accepted move ends the game exactly when the mover has four in a row or the board is full, and otherwise passes the turn; an invalid column or a full column changes nothing; a live position stays live while the game goes on |
| Console.StepResult | Puissance4.go:114-133 | one pass of the loop on a board picture: the game is over only on the mover's four in a row or a full board; otherwise the turn stays or advances by one |
| Console.Replay | Puissance4.go:103-134 | the state after playing typed columns in order from a fresh board: the turn never exceeds the number of columns typed |
| Console.FirstMoveLandsBottom | Puissance4.go:114-119 | the first typed column in range receives an "X" on the bottom row |
| Console.Play | Puissance4.go:103-135 | the board, turn and game-over flag are those of playing the consumed typed columns in order from a fresh board; the loop stops before the input runs out only when the game is over, which happens only on the last mover's four in a row or a full board; while it goes on, the position has no floating piece, no run and an empty cell |

## Left out

- The HTTP layer is not modelled: `homeHandler`'s colour mapping and template
  rendering (`main.go:125-162`), the request method checks, form parsing and
  redirects of `playHandler` and `resetHandler` (`main.go:165-180`, `194`,
  `198-207`), template loading (`main.go:29`), and the static file server and
  listener (`main.go:212-223`). `Server.Game.Step` takes the already parsed
  column, and `Server.Game.Reset` is the body of `resetHandler`.
- The mutex (`main.go:28`) is not modelled. Every request is one atomic
  `Step` or `Reset` call, which is what the lock guarantees.
- Console output (`printBoard`, prompts and messages) and reading the column
  with `fmt.Scan` are not modelled. `Console.Play` takes the typed columns as
  a finite sequence of integers. A failed `fmt.Scan`, which leaves `col` at 0,
  is not modelled.
- The console's `[][]string` is modelled as an `array2<string>`.
  `createBoard` allocates each row separately, so rows never alias each other.
  The fixed `[6][7]int` of the server is likewise an `array2<int>`.
- Go's `int` is at least 32 bits wide. The model's turn counter is unbounded. It never
  exceeds 41, because the board holds 42 pieces, so no overflow can arise.
- Console.DropPiece: requires a column in 0..6. Go's `dropPiece` would panic
  with an index out of range for any other column. Its only caller checks
  the column first (`Puissance4.go:119`), so that panic cannot happen and is
  not modelled.
