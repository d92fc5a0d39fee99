# Connect-Four board engine

A Dafny model of `board.go` of package `arena`: the engine for a Connect-Four
board of 6 rows and 7 columns, where four in a row wins. It covers move
application with gravity and its two recoverable errors. It covers the check
for four in a row in each of the four directions, and `GameOver`, which
combines them. It also covers the top-row fullness check, the all-zero initial
board and the projection of a board to display symbols.

Everything is in one module, `Board` (`board.dfy`):

- A board passed by value is a `Grid`: a sequence of 6 rows of 7 `int`s
  (`Shaped`). The win checks, `GameOver` and `IsBoardFull` take one.
- A board passed by pointer is an `array2<int>`. `ApplyMoveToBoard` changes
  it in place. `InitializeBoard` returns one, and `GetStringBoard` reads one.
  `Contents` reads such an array as a `Grid`.
- Row 0 is the top row. Row 5 is the bottom row, which fills first.
- `Empty` is 0. The two player colours `Red` and `Black` are defined outside
  the modelled file. Here they are 1 and 2, and the model relies only on the
  three values being distinct and `Empty` being 0.
- The win checks are methods with loops and early returns, just like the
  source. Each is proved against a pure predicate:
  - `Uniform(g, r, c, d)`: the window of four cells from (r, c) in direction
    `d` lies on the board and all its cells equal the first one.
  - `WindowAt(g, r, c, d)`: additionally, that first cell is not `Empty`.
  - `HasFour(g)`: some start cell and some direction give such a window.
- `Gravity(g)` is the invariant that no occupied cell sits above an empty
  cell of its column. `Filled(g)` counts the occupied cells.

The horizontal scan bounds its start column by `column < NumConsecutive`
(board.go:58), where the down-right scan writes
`column <= NumColumns - NumConsecutive` (board.go:113). With 7 columns and
windows of 4 the two bounds give the same range 0..3, which is exactly the set
of horizontal starts whose window fits on the board. So no horizontal window
goes unchecked. `ScanCoversExactlyTheFittingWindows` proves that the start
cells of every scan are exactly the fitting windows, and the scans call it at
every start they try. `CheckHorizontalWin` proves that a window at any start
column is found.

## Model

| member | source | states |
|---|---|---|
| `Board.CheckRowInColumn` | board.go:17-30 | true exactly when the four cells from (row, column) downwards all lie on the board, are equal and are not Empty; false when the window runs off the bottom |
| `Board.CheckVerticalWin` | board.go:16-42 | true exactly when some vertical four-in-a-row starts anywhere in the column; empty start cells are skipped and rows 0..2 are enough |
| `Board.CheckColumnInRow` | board.go:45-57 | true exactly when the four cells from (row, column) rightwards lie on the board and all equal the first cell, which may itself be Empty |
| `Board.CheckHorizontalWin` | board.go:44-68 | true exactly when some horizontal four-in-a-row exists in the row at any start column, although only start columns 0..3 are tried |
| `Board.CheckSoutheastDiagonalWin` | board.go:71-82 | for a start whose down-right window lies on the board: true exactly when its four cells are equal and not Empty |
| `Board.CheckSouthwestDiagonalWin` | board.go:84-95 | for a start whose down-left window lies on the board: true exactly when its four cells are equal and not Empty |
| `Board.GameOver` | board.go:100-127 | true exactly when some start cell and direction (down, right, down-right, down-left) give four in-bounds, equal, non-Empty cells |
| `Board.ScanCoversExactlyTheFittingWindows` | board.go:32-120 | the start cells the four scans try are exactly the starts of windows that fit on the board, so every index they compute is in bounds and no window is missed |
| `Board.IsBoardFull` | board.go:146-154 | true exactly when every top-row cell is occupied; on a board with gravity, true exactly when all 42 cells are occupied |
| `Board.TopRowDecidesFullness` | board.go:147-152 | under gravity, a full top row is the same as a full board |
| `Board.FullIffAllCellsCounted` | board.go:146-154 | the board holds at most 42 pieces, and it is full exactly when it holds 42 |
| `Board.FullIffNoRoom` | board.go:146-167 | under gravity, a full top row is the same as every column having no empty cell, so that every in-range move fails with ColumnFull |
| `Board.ApplyMoveToBoard` | board.go:157-168 | a column outside 0..6 gives InvalidMove; a column with no empty cell gives ColumnFull; any other gives Applied. On failure the board is unchanged. On success only the lowest empty cell of the column changes, to the player. Under gravity with a non-Empty player, gravity holds afterwards and the piece count grows by one |
| `Board.WithCell` | board.go:163 | the single-cell update changes cell (r, c) to the new value and leaves every other cell as it was |
| `Board.DropKeepsGravity` | board.go:161-165 | writing a non-Empty player into the lowest empty cell of a column keeps the gravity invariant |
| `Board.FilledAfterOccupy` | board.go:161-165 | writing a non-Empty value into an empty cell adds exactly one to the count of occupied cells |
| `Board.FillColumn` | board.go:161-167 | six moves with non-Empty players into one column of a fresh board each return Applied; the k-th move's player ends in row 5 - k, so the column fills from the bottom up in call order; other columns stay Empty; a seventh move fails with ColumnFull |
| `Board.InitializeBoard` | board.go:170-174 | returns a fresh 6 x 7 board whose every cell is zero |
| `Board.EmptyGridIsInitial` | board.go:170-174 | the all-zero board has gravity, holds no pieces, is not full and has no four-in-a-row, so GameOver and IsBoardFull are both false on it |
| `Board.GetStringBoard` | board.go:129-145 | if every cell is Empty, Red or Black, returns a fresh 6 x 7 grid in which each cell is "", "R" or "B" exactly when the input cell is Empty, Red or Black respectively |

## Left out

- The text of the two error messages (board.go:159, board.go:167). The failures are the result variants `InvalidMove(move)` and `ColumnFull(move)`.
- The panic in `GetStringBoard` (board.go:140) and its message. A cell outside {Empty, Red, Black} is excluded by a precondition, because the source aborts the process on it.
- Pointer identity: `ApplyMoveToBoard` returns the same pointer it was given. The model changes the array in place and returns only the outcome.
- The concrete values of `Red` and `Black`, which are defined outside `board.go`. They are 1 and 2 here; nothing depends on that beyond their being distinct and not zero.
- Go's fixed-width `int`. The engine only compares and stores player ids and adds small indices, so unbounded integers behave identically.
- Validation of `playerId` and of turn order: the source has none. The gravity and count facts of `ApplyMoveToBoard` are stated for a non-Empty player.
- CheckSoutheastDiagonalWin: requires the down-right window from the start cell to lie on the board, so start cells whose window does not fit are not modelled. For such a start the source returns false if the start cell is Empty (board.go:73-74) or if a cell before the first off-board one differs from it; otherwise it indexes past the board and panics. All calls from `GameOver` (board.go:112-113) meet the requirement.
- CheckSouthwestDiagonalWin: requires the down-left window from the start cell to lie on the board, so start cells whose window does not fit are not modelled. For such a start the source returns false if the start cell is Empty (board.go:86-87) or if a cell before the first off-board one differs from it; otherwise it indexes past the board and panics. All calls from `GameOver` (board.go:119-120) meet the requirement.
- Off-board start cells of the other checks. `CheckRowInColumn` and `CheckColumnInRow` require `InBounds(row, column)`, `CheckVerticalWin` requires `0 <= column < NumColumns` and `CheckHorizontalWin` requires `0 <= row < NumRows`. Outside these ranges the source's first read of a start cell (board.go:18, 33, 46, 59) is an index-out-of-range panic, which the model does not represent. All calls from `GameOver` and from the two scans meet the requirements.
- A nil board pointer. In Go, `bp` of `ApplyMoveToBoard` and `board` of `GetStringBoard` may be nil. `ApplyMoveToBoard` then still returns the error for an out-of-range move but panics for an in-range one, and `GetStringBoard` panics. The model's boards are non-null arrays, so neither case is modelled.
