/** A 6 x 7 Connect-Four board: move application with gravity, detection of
    four-in-a-row in the four directions, the top-row fullness check and the
    projection of the board to display symbols.

    A board passed by value (the checks) is a `Grid`, a sequence of rows; a
    board passed by pointer (move application, display, initialisation) is an
    `array2<int>`, and `Contents` reads it as a `Grid`. Row 0 is the top row,
    row `NumRows - 1` the bottom one, which fills first. */
module Board {

  const NumRows: int := 6
  const NumColumns: int := 7
  const NumConsecutive: int := 4

  // Cell values. The two player colours are defined outside the modelled
  // file; only that the three values are distinct and that Empty is 0 matters.
  const Empty: int := 0
  const Red: int := 1
  const Black: int := 2

  predicate IsCellValue(v: int) {
    v == Empty || v == Red || v == Black
  }

  type Grid = seq<seq<int>>

  /** The shape of a `[NumRows][NumColumns]int` value. */
  predicate Shaped(g: Grid) {
    |g| == NumRows && forall r :: 0 <= r < |g| ==> |g[r]| == NumColumns
  }

  predicate InBounds(r: int, c: int) {
    0 <= r < NumRows && 0 <= c < NumColumns
  }

  // ---------------------------------------------------------------------------
  // Windows of four cells

  /** The four directions a line can run in, from its first cell. */
  datatype Direction = Down | Right | DownRight | DownLeft

  /** Row of the `k`-th cell of a line starting in row `r`. */
  function RowAt(d: Direction, r: int, k: int): (row: int) {
    if d == Right then r else r + k
  }

  /** Column of the `k`-th cell of a line starting in column `c`. */
  function ColAt(d: Direction, c: int, k: int): (column: int) {
    match d
    case Down => c
    case Right => c + k
    case DownRight => c + k
    case DownLeft => c - k
  }

  /** The window of `NumConsecutive` cells from (r, c) in direction `d` lies on the board. */
  predicate Fits(r: int, c: int, d: Direction) {
    InBounds(r, c) && InBounds(RowAt(d, r, NumConsecutive - 1), ColAt(d, c, NumConsecutive - 1))
  }

  /** The window fits and all its cells equal its first cell (which may be Empty). */
  predicate Uniform(g: Grid, r: int, c: int, d: Direction)
    requires Shaped(g)
  {
    Fits(r, c, d) &&
    forall k :: 0 <= k < NumConsecutive ==> g[RowAt(d, r, k)][ColAt(d, c, k)] == g[r][c]
  }

  /** A four-in-a-row: a window of equal, non-empty cells. */
  predicate WindowAt(g: Grid, r: int, c: int, d: Direction)
    requires Shaped(g)
  {
    Uniform(g, r, c, d) && g[r][c] != Empty
  }

  /** Some four-in-a-row exists anywhere on the board, in any direction. */
  ghost predicate HasFour(g: Grid)
    requires Shaped(g)
  {
    exists r, c, d :: WindowAt(g, r, c, d)
  }

  /** The start cells the scans of GameOver try for each direction. */
  predicate Scanned(r: int, c: int, d: Direction) {
    match d
    case Down => 0 <= c < NumColumns && 0 <= r <= NumRows - NumConsecutive
    case Right => 0 <= r < NumRows && 0 <= c < NumConsecutive
    case DownRight => 0 <= r <= NumRows - NumConsecutive && 0 <= c <= NumColumns - NumConsecutive
    case DownLeft => NumColumns - NumConsecutive <= c < NumColumns && 0 <= r <= NumRows - NumConsecutive
  }

  /** The scanned starts are exactly the starts of windows that fit: every
      index a scan computes is on the board (so the bounds guards of the two
      inner checks are never taken), and no window is missed. In particular
      the horizontal starts 0 .. NumConsecutive - 1 reach every horizontal
      window, because NumColumns - NumConsecutive == NumConsecutive - 1. */
  lemma ScanCoversExactlyTheFittingWindows(r: int, c: int, d: Direction)
    ensures Scanned(r, c, d) <==> Fits(r, c, d)
    ensures Scanned(r, c, d) ==>
      forall k :: 0 <= k < NumConsecutive ==> InBounds(RowAt(d, r, k), ColAt(d, c, k))
  {
  }

  /** No window in any of the four directions means no four-in-a-row. */
  lemma NoWindowMeansNoFour(g: Grid)
    requires Shaped(g)
    requires forall r, c :: !WindowAt(g, r, c, Down)
    requires forall r, c :: !WindowAt(g, r, c, Right)
    requires forall r, c :: !WindowAt(g, r, c, DownRight)
    requires forall r, c :: !WindowAt(g, r, c, DownLeft)
    ensures !HasFour(g)
  {
  }

  // ---------------------------------------------------------------------------
  // Win checks

  /** The closure checkRowInColumn of checkVerticalWin: four equal non-empty
      cells from (row, column) downwards, with a guard for running off the
      bottom of the board. */
  method CheckRowInColumn(column: int, row: int, board: Grid) returns (won: bool)
    requires Shaped(board) && InBounds(row, column)
    ensures won <==> WindowAt(board, row, column, Down)
  {
    var initColor := board[row][column];
    for k := 0 to NumConsecutive
      invariant row + k <= NumRows
      invariant k > 0 ==> initColor != Empty
      invariant forall j :: 0 <= j < k ==> board[RowAt(Down, row, j)][column] == initColor
    {
      if row + k >= NumRows {
        return false;
      }
      var value := board[row + k][column];
      if value == Empty || value != initColor {
        assert RowAt(Down, row, k) == row + k;
        return false;
      }
    }
    return true;
  }

  /** checkVerticalWin: some vertical four-in-a-row in `column`. The scan
      tries rows 0 .. NumRows - NumConsecutive and skips empty start cells. */
  method CheckVerticalWin(column: int, board: Grid) returns (won: bool)
    requires Shaped(board) && 0 <= column < NumColumns
    ensures won <==> exists row :: WindowAt(board, row, column, Down)
  {
    for row := 0 to NumRows - NumConsecutive + 1
      invariant forall r :: r < row ==> !WindowAt(board, r, column, Down)
    {
      ScanCoversExactlyTheFittingWindows(row, column, Down);
      assert Scanned(row, column, Down) && Fits(row, column, Down);
      var initColor := board[row][column];
      if initColor == Empty {
        continue;
      }
      won := CheckRowInColumn(column, row, board);
      if won {
        return true;
      }
    }
    return false;
  }

  /** The closure checkColumnInRow of checkHorizontalWin: four cells from
      (row, column) rightwards equal to the first one. Unlike its vertical
      counterpart it does not reject an empty first cell itself; its caller
      skips those. */
  method CheckColumnInRow(row: int, column: int, board: Grid) returns (same: bool)
    requires Shaped(board) && InBounds(row, column)
    ensures same <==> Uniform(board, row, column, Right)
  {
    var initColor := board[row][column];
    for k := 0 to NumConsecutive
      invariant column + k <= NumColumns
      invariant forall j :: 0 <= j < k ==> board[row][ColAt(Right, column, j)] == initColor
    {
      if column + k >= NumColumns {
        return false;
      }
      if board[row][column + k] != initColor {
        assert ColAt(Right, column, k) == column + k;
        return false;
      }
    }
    return true;
  }

  /** checkHorizontalWin: some horizontal four-in-a-row in `row`. The scan
      bound is written `column < NumConsecutive`; on a board of NumColumns == 7
      that is the range 0 .. NumColumns - NumConsecutive of start columns whose
      window fits, so a window at any start column is found. */
  method CheckHorizontalWin(row: int, board: Grid) returns (won: bool)
    requires Shaped(board) && 0 <= row < NumRows
    ensures won <==> exists column :: WindowAt(board, row, column, Right)
  {
    for column := 0 to NumConsecutive
      invariant forall c :: c < column ==> !WindowAt(board, row, c, Right)
    {
      ScanCoversExactlyTheFittingWindows(row, column, Right);
      assert Scanned(row, column, Right) && Fits(row, column, Right);
      var initColor := board[row][column];
      if initColor == Empty {
        continue;
      }
      won := CheckColumnInRow(row, column, board);
      if won {
        assert WindowAt(board, row, column, Right);
        return true;
      }
    }
    return false;
  }

  /** checkSoutheastDiagonalWin: four equal non-empty cells from (row, column)
      down and to the right. */
  method CheckSoutheastDiagonalWin(row: int, column: int, board: Grid) returns (won: bool)
    requires Shaped(board) && Fits(row, column, DownRight)
    ensures won <==> WindowAt(board, row, column, DownRight)
  {
    var initColor := board[row][column];
    if initColor == Empty {
      return false;
    }
    for i := 0 to NumConsecutive
      invariant forall j :: 0 <= j < i ==> board[RowAt(DownRight, row, j)][ColAt(DownRight, column, j)] == initColor
    {
      if board[row + i][column + i] != initColor {
        assert RowAt(DownRight, row, i) == row + i;
        return false;
      }
    }
    return true;
  }

  /** checkSouthwestDiagonalWin: four equal non-empty cells from (row, column)
      down and to the left. */
  method CheckSouthwestDiagonalWin(row: int, column: int, board: Grid) returns (won: bool)
    requires Shaped(board) && Fits(row, column, DownLeft)
    ensures won <==> WindowAt(board, row, column, DownLeft)
  {
    var initColor := board[row][column];
    if initColor == Empty {
      return false;
    }
    for i := 0 to NumConsecutive
      invariant forall j :: 0 <= j < i ==> board[RowAt(DownLeft, row, j)][ColAt(DownLeft, column, j)] == initColor
    {
      if board[row + i][column - i] != initColor {
        assert RowAt(DownLeft, row, i) == row + i;
        return false;
      }
    }
    return true;
  }

  /** GameOver: a four-in-a-row exists. Columns first, then rows, then the
      down-right diagonals, then the down-left ones. */
  method GameOver(board: Grid) returns (over: bool)
    requires Shaped(board)
    ensures over <==> HasFour(board)
  {
    for column := 0 to NumColumns
      invariant forall r, c :: c < column ==> !WindowAt(board, r, c, Down)
    {
      over := CheckVerticalWin(column, board);
      if over {
        return true;
      }
    }

    for row := 0 to NumRows
      invariant forall r, c :: r < row ==> !WindowAt(board, r, c, Right)
    {
      over := CheckHorizontalWin(row, board);
      if over {
        return true;
      }
    }

    for row := 0 to NumRows - NumConsecutive + 1
      invariant forall r, c :: r < row ==> !WindowAt(board, r, c, DownRight)
    {
      for column := 0 to NumColumns - NumConsecutive + 1
        invariant forall r, c :: r < row || (r == row && c < column) ==> !WindowAt(board, r, c, DownRight)
      {
        ScanCoversExactlyTheFittingWindows(row, column, DownRight);
        assert Scanned(row, column, DownRight);
        over := CheckSoutheastDiagonalWin(row, column, board);
        if over {
          return true;
        }
      }
    }

    for column := NumColumns - NumConsecutive to NumColumns
      invariant forall r, c :: c < column ==> !WindowAt(board, r, c, DownLeft)
    {
      for row := 0 to NumRows - NumConsecutive + 1
        invariant forall r, c :: c < column || (c == column && r < row) ==> !WindowAt(board, r, c, DownLeft)
      {
        ScanCoversExactlyTheFittingWindows(row, column, DownLeft);
        assert Scanned(row, column, DownLeft);
        over := CheckSouthwestDiagonalWin(row, column, board);
        if over {
          return true;
        }
      }
    }
    NoWindowMeansNoFour(board);
    return false;
  }

  // ---------------------------------------------------------------------------
  // Fullness

  /** Every cell of the top row is occupied. */
  predicate TopRowFilled(g: Grid)
    requires Shaped(g)
  {
    forall c :: 0 <= c < NumColumns ==> g[0][c] != Empty
  }

  /** Every one of the NumRows * NumColumns cells is occupied. */
  predicate AllFilled(g: Grid)
    requires Shaped(g)
  {
    forall r, c :: 0 <= r < NumRows && 0 <= c < NumColumns ==> g[r][c] != Empty
  }

  /** The gravity invariant: no occupied cell sits above an empty one in its column. */
  predicate Gravity(g: Grid)
    requires Shaped(g)
  {
    forall above, below, c :: 0 <= above < below < NumRows && 0 <= c < NumColumns && g[above][c] != Empty ==>
      g[below][c] != Empty
  }

  /** Under gravity the top row decides fullness: a column whose top cell is
      occupied is occupied all the way down. */
  lemma TopRowDecidesFullness(g: Grid)
    requires Shaped(g)
    ensures Gravity(g) ==> (TopRowFilled(g) <==> AllFilled(g))
  {
    if Gravity(g) && TopRowFilled(g) {
      forall r, c | 0 <= r < NumRows && 0 <= c < NumColumns ensures g[r][c] != Empty {
        if r > 0 {
          assert g[0][c] != Empty;
        }
      }
    }
  }

  /** IsBoardFull: looks at the top row only, which is exact under gravity. */
  method IsBoardFull(board: Grid) returns (full: bool)
    requires Shaped(board)
    ensures full <==> TopRowFilled(board)
    ensures Gravity(board) ==> (full <==> AllFilled(board))
  {
    TopRowDecidesFullness(board);
    for column := 0 to NumColumns
      invariant forall c :: 0 <= c < column ==> board[0][c] != Empty
    {
      if board[0][column] == Empty {
        return false;
      }
    }
    return true;
  }

  // ---------------------------------------------------------------------------
  // Counting occupied cells

  function FilledInRow(s: seq<int>): (n: nat) {
    if s == [] then 0 else (if s[0] != Empty then 1 else 0) + FilledInRow(s[1..])
  }

  /** The number of occupied cells. */
  function Filled(g: Grid): (n: nat) {
    if g == [] then 0 else FilledInRow(g[0]) + Filled(g[1..])
  }

  /** A row's count is at most its length, and reaches it exactly when every
      cell of the row is occupied. */
  lemma {:induction false} FilledInRowBound(s: seq<int>)
    ensures FilledInRow(s) <= |s|
    ensures FilledInRow(s) == |s| <==> forall c :: 0 <= c < |s| ==> s[c] != Empty
  {
    if s != [] {
      FilledInRowBound(s[1..]);
      assert forall c :: 1 <= c < |s| ==> s[c] == s[1..][c - 1];
    }
  }

  /** A grid of rows of width NumColumns holds at most |g| * NumColumns
      pieces, and holds that many exactly when every cell is occupied. */
  lemma {:induction false} FilledBound(g: Grid)
    requires forall r :: 0 <= r < |g| ==> |g[r]| == NumColumns
    ensures Filled(g) <= |g| * NumColumns
    ensures Filled(g) == |g| * NumColumns <==>
      forall r, c :: 0 <= r < |g| && 0 <= c < NumColumns ==> g[r][c] != Empty
  {
    if g != [] {
      FilledInRowBound(g[0]);
      FilledBound(g[1..]);
      assert forall r :: 1 <= r < |g| ==> g[r] == g[1..][r - 1];
    }
  }

  /** A board is full exactly when it holds NumRows * NumColumns pieces. */
  lemma FullIffAllCellsCounted(g: Grid)
    requires Shaped(g)
    ensures Filled(g) <= NumRows * NumColumns
    ensures AllFilled(g) <==> Filled(g) == NumRows * NumColumns
  {
    FilledBound(g);
  }

  /** The grid with the single cell (r, c) set to `v`. */
  function WithCell(g: Grid, r: int, c: int, v: int): (h: Grid)
    requires 0 <= r < |g| && 0 <= c < |g[r]|
    ensures |h| == |g| && forall i :: 0 <= i < |g| ==> |h[i]| == |g[i]|
    ensures h[r][c] == v
    ensures forall i, j :: 0 <= i < |g| && 0 <= j < |g[i]| && (i != r || j != c) ==> h[i][j] == g[i][j]
  {
    g[r := g[r][c := v]]
  }

  /** Occupying one empty cell of a row adds one to the row's count. */
  lemma {:induction false} FilledInRowAfterOccupy(s: seq<int>, c: int, v: int)
    requires 0 <= c < |s| && s[c] == Empty && v != Empty
    ensures FilledInRow(s[c := v]) == FilledInRow(s) + 1
  {
    if c == 0 {
      assert s[c := v][1..] == s[1..];
    } else {
      assert s[c := v][1..] == s[1..][c - 1 := v];
      FilledInRowAfterOccupy(s[1..], c - 1, v);
    }
  }

  /** Occupying one empty cell of the grid adds one to the count. */
  lemma {:induction false} FilledAfterOccupy(g: Grid, r: int, c: int, v: int)
    requires 0 <= r < |g| && 0 <= c < |g[r]| && g[r][c] == Empty && v != Empty
    ensures Filled(WithCell(g, r, c, v)) == Filled(g) + 1
  {
    var h := WithCell(g, r, c, v);
    if r == 0 {
      assert h[1..] == g[1..];
      FilledInRowAfterOccupy(g[0], c, v);
    } else {
      assert h[1..] == WithCell(g[1..], r - 1, c, v);
      FilledAfterOccupy(g[1..], r - 1, c, v);
    }
  }

  // ---------------------------------------------------------------------------
  // Moves

  /** The outcome of a move: applied, or one of the two recoverable errors. */
  datatype MoveResult = Applied | InvalidMove(column: int) | ColumnFull(column: int)

  /** Column `col` has no empty cell. */
  predicate ColumnIsFull(g: Grid, col: int)
    requires Shaped(g) && 0 <= col < NumColumns
  {
    forall r :: 0 <= r < NumRows ==> g[r][col] != Empty
  }

  /** Row `i` holds the lowest empty cell of column `col`. */
  predicate LowestEmpty(g: Grid, col: int, i: int)
    requires Shaped(g) && 0 <= col < NumColumns
  {
    0 <= i < NumRows && g[i][col] == Empty &&
    forall j :: i < j < NumRows ==> g[j][col] != Empty
  }

  /** Under gravity the board is full exactly when every column is full, that
      is, when every in-range move is refused with ColumnFull. */
  lemma FullIffNoRoom(g: Grid)
    requires Shaped(g) && Gravity(g)
    ensures TopRowFilled(g) <==> forall col :: 0 <= col < NumColumns ==> ColumnIsFull(g, col)
  {
    TopRowDecidesFullness(g);
    if forall col :: 0 <= col < NumColumns ==> ColumnIsFull(g, col) {
      forall col | 0 <= col < NumColumns ensures g[0][col] != Empty {
        assert ColumnIsFull(g, col);
      }
    }
  }

  /** Dropping a piece into the lowest empty cell of a column keeps gravity. */
  lemma DropKeepsGravity(g: Grid, col: int, i: int, p: int)
    requires Shaped(g) && 0 <= col < NumColumns && Gravity(g)
    requires LowestEmpty(g, col, i) && p != Empty
    ensures Shaped(WithCell(g, i, col, p)) && Gravity(WithCell(g, i, col, p))
  {
  }

  /** The board behind a pointer, as a value. */
  function Contents(bp: array2<int>): (g: Grid)
    reads bp
    requires bp.Length0 == NumRows && bp.Length1 == NumColumns
    ensures Shaped(g)
    ensures forall r, c :: InBounds(r, c) ==> g[r][c] == bp[r, c]
  {
    seq(NumRows, (r: int) reads bp requires 0 <= r < NumRows =>
      seq(NumColumns, (c: int) reads bp requires 0 <= c < NumColumns => bp[r, c]))
  }

  /** Two shaped grids with the same cells are equal. */
  lemma GridExtensionality(g: Grid, h: Grid)
    requires Shaped(g) && Shaped(h)
    requires forall r, c :: InBounds(r, c) ==> g[r][c] == h[r][c]
    ensures g == h
  {
    forall r | 0 <= r < NumRows ensures g[r] == h[r] {
      assert forall c :: 0 <= c < NumColumns ==> g[r][c] == h[r][c];
    }
  }

  /** ApplyMoveToBoard: drop `playerId` into column `move`, in place. */
  method ApplyMoveToBoard(move: int, playerId: int, bp: array2<int>) returns (res: MoveResult)
    requires bp.Length0 == NumRows && bp.Length1 == NumColumns
    modifies bp
    ensures !(0 <= move < NumColumns) ==> res == InvalidMove(move)
    ensures 0 <= move < NumColumns && ColumnIsFull(old(Contents(bp)), move) ==> res == ColumnFull(move)
    ensures 0 <= move < NumColumns && !ColumnIsFull(old(Contents(bp)), move) ==> res == Applied
    ensures res != Applied ==> Contents(bp) == old(Contents(bp))
    ensures res == Applied ==>
      exists i :: LowestEmpty(old(Contents(bp)), move, i) &&
                  Contents(bp) == WithCell(old(Contents(bp)), i, move, playerId)
    ensures res == Applied && old(Gravity(Contents(bp))) && playerId != Empty ==>
      Gravity(Contents(bp)) && Filled(Contents(bp)) == old(Filled(Contents(bp))) + 1
  {
    ghost var before := Contents(bp);
    if move >= NumColumns || move < 0 {
      return InvalidMove(move);
    }
    var i := NumRows - 1;
    while i >= 0
      invariant -1 <= i < NumRows
      invariant forall j :: i < j < NumRows ==> bp[j, move] != 0
      invariant Contents(bp) == before
    {
      if bp[i, move] == 0 {
        bp[i, move] := playerId;
        GridExtensionality(Contents(bp), WithCell(before, i, move, playerId));
        assert LowestEmpty(before, move, i);
        if Gravity(before) && playerId != Empty {
          DropKeepsGravity(before, move, i, playerId);
          FilledAfterOccupy(before, i, move, playerId);
        }
        return Applied;
      }
      i := i - 1;
    }
    return ColumnFull(move);
  }

  // ---------------------------------------------------------------------------
  // Initialisation and display

  /** The all-zero board. */
  function EmptyGrid(): (g: Grid)
    ensures Shaped(g)
    ensures forall r, c :: InBounds(r, c) ==> g[r][c] == Empty
  {
    seq(NumRows, _ => seq(NumColumns, _ => Empty))
  }

  /** InitializeBoard: a fresh board whose every cell is zero. */
  method InitializeBoard() returns (bp: array2<int>)
    ensures fresh(bp) && bp.Length0 == NumRows && bp.Length1 == NumColumns
    ensures Contents(bp) == EmptyGrid()
  {
    bp := new int[NumRows, NumColumns]((r, c) => Empty);
    GridExtensionality(Contents(bp), EmptyGrid());
  }

  /** The fresh board satisfies gravity, holds no piece, is not full and has
      no four-in-a-row. */
  lemma EmptyGridIsInitial()
    ensures Gravity(EmptyGrid())
    ensures Filled(EmptyGrid()) == 0
    ensures !TopRowFilled(EmptyGrid()) && !AllFilled(EmptyGrid())
    ensures !HasFour(EmptyGrid())
  {
    var g := EmptyGrid();
    assert g[0][0] == Empty;
    FilledOfEmptyRows(g);
  }

  lemma {:induction false} FilledOfEmptyRows(g: Grid)
    requires forall r, c :: 0 <= r < |g| && 0 <= c < |g[r]| ==> g[r][c] == Empty
    ensures Filled(g) == 0
  {
    if g != [] {
      FilledInEmptyRow(g[0]);
      FilledOfEmptyRows(g[1..]);
    }
  }

  lemma {:induction false} FilledInEmptyRow(s: seq<int>)
    requires forall c :: 0 <= c < |s| ==> s[c] == Empty
    ensures FilledInRow(s) == 0
  {
    if s != [] {
      FilledInEmptyRow(s[1..]);
    }
  }

  /** The board on which the first `n` pieces of `ps` were dropped, in order,
      into column `col` of an empty board: the k-th of them sits in row
      NumRows - 1 - k. */
  function Stacked(col: int, ps: seq<int>, n: int): (g: Grid)
    requires 0 <= col < NumColumns && 0 <= n <= NumRows && n <= |ps|
    ensures Shaped(g)
    ensures forall r, c :: InBounds(r, c) ==>
      g[r][c] == (if c == col && r >= NumRows - n then ps[NumRows - 1 - r] else Empty)
  {
    seq(NumRows, (r: int) requires 0 <= r < NumRows =>
      seq(NumColumns, (c: int) => if c == col && r >= NumRows - n then ps[NumRows - 1 - r] else Empty))
  }

  /** The next piece dropped into a partly filled column lands on top of the
      stack: the column has room, and the move gives the taller stack. */
  lemma StackGrows(col: int, ps: seq<int>, n: int)
    requires 0 <= col < NumColumns && 0 <= n < NumRows && n < |ps|
    requires forall k :: 0 <= k < n ==> ps[k] != Empty
    ensures !ColumnIsFull(Stacked(col, ps, n), col)
    ensures forall i :: LowestEmpty(Stacked(col, ps, n), col, i) ==>
      WithCell(Stacked(col, ps, n), i, col, ps[n]) == Stacked(col, ps, n + 1)
  {
    var g := Stacked(col, ps, n);
    assert g[NumRows - 1 - n][col] == Empty;
    forall i | LowestEmpty(g, col, i) ensures WithCell(g, i, col, ps[n]) == Stacked(col, ps, n + 1) {
      assert i == NumRows - 1 - n;
      GridExtensionality(WithCell(g, i, col, ps[n]), Stacked(col, ps, n + 1));
    }
  }

  /** A client of the contracts: NumRows moves into one column of a fresh
      board are each applied and stack from the bottom row up in the order
      they are made (the k-th move lands in row NumRows - 1 - k); one more
      move into that column is refused. */
  method FillColumn(col: int, players: seq<int>, extra: int)
    returns (bp: array2<int>, results: seq<MoveResult>, last: MoveResult)
    requires 0 <= col < NumColumns && |players| == NumRows
    requires forall k :: 0 <= k < |players| ==> players[k] != Empty
    ensures fresh(bp) && bp.Length0 == NumRows && bp.Length1 == NumColumns
    ensures |results| == NumRows && forall k :: 0 <= k < |results| ==> results[k] == Applied
    ensures forall k :: 0 <= k < NumRows ==> bp[NumRows - 1 - k, col] == players[k]
    ensures forall r, c :: InBounds(r, c) && c != col ==> bp[r, c] == Empty
    ensures last == ColumnFull(col)
  {
    bp := InitializeBoard();
    GridExtensionality(EmptyGrid(), Stacked(col, players, 0));
    results := [];
    for k := 0 to NumRows
      invariant |results| == k && forall j :: 0 <= j < k ==> results[j] == Applied
      invariant Contents(bp) == Stacked(col, players, k)
    {
      StackGrows(col, players, k);
      var res := ApplyMoveToBoard(col, players[k], bp);
      results := results + [res];
    }
    ghost var full := Contents(bp);
    assert forall r :: 0 <= r < NumRows ==> full[r][col] == players[NumRows - 1 - r];
    last := ApplyMoveToBoard(col, extra, bp);
    assert forall k :: 0 <= k < NumRows ==> full[NumRows - 1 - k][col] == players[k];
  }

  /** GetStringBoard: the display symbol of every cell, in a fresh grid. A
      cell outside {Empty, Red, Black} is a fatal error in the source, so
      every cell must hold one of the three values. */
  method GetStringBoard(board: array2<int>) returns (stringBoard: array2<string>)
    requires board.Length0 == NumRows && board.Length1 == NumColumns
    requires forall r, c :: InBounds(r, c) ==> IsCellValue(board[r, c])
    ensures fresh(stringBoard)
    ensures stringBoard.Length0 == NumRows && stringBoard.Length1 == NumColumns
    ensures forall r, c :: InBounds(r, c) ==> Shows(stringBoard[r, c], board[r, c])
  {
    stringBoard := new string[NumRows, NumColumns];
    for row := 0 to NumRows
      invariant forall r, c :: 0 <= r < row && 0 <= c < NumColumns ==> Shows(stringBoard[r, c], board[r, c])
    {
      for column := 0 to NumColumns
        invariant forall r, c :: (0 <= r < row && 0 <= c < NumColumns) || (r == row && 0 <= c < column) ==>
          Shows(stringBoard[r, c], board[r, c])
      {
        if board[row, column] == Empty {
          stringBoard[row, column] := "";
        } else if board[row, column] == Red {
          stringBoard[row, column] := "R";
        } else if board[row, column] == Black {
          stringBoard[row, column] := "B";
        } else {
          assert false;
        }
      }
    }
  }

  /** `s` is the display symbol of cell value `v`. */
  predicate Shows(s: string, v: int) {
    (s == "" <==> v == Empty) && (s == "R" <==> v == Red) && (s == "B" <==> v == Black)
  }
}
