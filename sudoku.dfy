// The board functions of src/sudoku.c. The board is the 9x9 CellPool array
// that every function receives; here an array2<Cell>. InitBoard, SetCell,
// FreeCell, FreeBoard and Search change it in place, the others only read it.
// Each method is proved against the pure model in SudokuSpec through
// Snapshot, the value of the board in the current heap.

module Sudoku {
  import opened SudokuSpec
  import opened LineGrid

  predicate IsBoard(board: array2<Cell>) {
    board.Length0 == BOARD_ROWS && board.Length1 == BOARD_COLS
  }

  /** The current contents of the board, as a value. */
  ghost function Snapshot(board: array2<Cell>): (s: BoardState)
    requires IsBoard(board)
    reads board
    ensures WellFormed(s)
    ensures forall r, c :: OnBoard(r, c) ==> s[r][c] == board[r, c]
  {
    seq(BOARD_ROWS, r requires 0 <= r < BOARD_ROWS reads board =>
      seq(BOARD_COLS, c requires 0 <= c < BOARD_COLS reads board => board[r, c]))
  }

  /** The first nine characters of each of the nine lines are decimal digits. */
  ghost predicate DigitRows(lines: seq<Line>) {
    |lines| == BOARD_ROWS && forall r, c :: OnBoard(r, c) ==> '0' <= BufAt(lines[r], c) <= '9'
  }

  /** The cell InitBoard makes of a decimal digit: vacant for '0', otherwise holding
      a value in 1..9. */
  lemma DigitCell(ch: char)
    requires '0' <= ch <= '9'
    ensures CellOf(Digit(ch)) == Empty <==> ch == '0'
    ensures CellOf(Digit(ch)).Occupied? ==> 1 <= CellOf(Digit(ch)).value <= 9
  {
  }

  /** InitBoard: fill the board from the first nine characters of the grid's nine
      lines; the character '0' leaves a cell vacant, any other character ch occupies
      it with ch - '0'. A grid that is not nine lines with a first line of nine
      characters is refused (the source aborts on its assert) and the board is left
      as it was. */
  method InitBoard(g: Grid, board: array2<Cell>) returns (ok: bool)
    requires g.Valid() && IsBoard(board)
    modifies board
    ensures ok == (g.count == BOARD_ROWS && |g.Contents()[0].text| == BOARD_COLS)
    ensures ok ==> forall r, c :: OnBoard(r, c) ==>
      board[r, c] == CellOf(Digit(BufAt(g.Contents()[r], c)))
    ensures ok ==> forall r, c :: OnBoard(r, c) ==>
      (board[r, c] == Empty <==> Digit(BufAt(g.Contents()[r], c)) == EMPTY)
    ensures ok && DigitRows(g.Contents()) ==> forall r, c :: OnBoard(r, c) && board[r, c].Occupied? ==>
      1 <= board[r, c].value <= BOARD_ROWS
    ensures !ok ==> unchanged(board)
  {
    if !(g.count == BOARD_ROWS && |g.items[0].text| == BOARD_COLS) {
      return false;
    }
    ok := true;
    for i := 0 to g.count
      invariant forall r, c :: 0 <= r < i && 0 <= c < BOARD_COLS ==>
        board[r, c] == CellOf(Digit(BufAt(g.items[r], c)))
    {
      for j := 0 to |g.items[0].text|
        invariant forall r, c :: 0 <= r < i && 0 <= c < BOARD_COLS ==>
          board[r, c] == CellOf(Digit(BufAt(g.items[r], c)))
        invariant forall c :: 0 <= c < j ==> board[i, c] == CellOf(Digit(BufAt(g.items[i], c)))
      {
        var n := Digit(BufAt(g.items[i], j));
        if n == EMPTY {
          board[i, j] := Empty;
        } else {
          SetCell(board, i, j, n);
        }
      }
    }
  }

  /** CheckCellStatus: whether the cell holds a value. */
  function CheckCellStatus(board: array2<Cell>, row: int, col: int): (occupied: bool)
    requires IsBoard(board) && OnBoard(row, col)
    reads board
    ensures occupied <==> Snapshot(board)[row][col] != Empty
  {
    board[row, col].Occupied?
  }

  /** GetCell: the cell at (row, col); Empty stands for the null cell pointer. */
  function GetCell(board: array2<Cell>, row: int, col: int): (cell: Cell)
    requires IsBoard(board) && OnBoard(row, col)
    reads board
    ensures cell.Occupied? <==> CheckCellStatus(board, row, col)
    ensures cell == Snapshot(board)[row][col]
  {
    board[row, col]
  }

  /** SetCell: occupy (row, col) with value, overwriting whatever was there;
      no other cell changes. */
  method SetCell(board: array2<Cell>, row: int, col: int, value: int)
    requires IsBoard(board) && OnBoard(row, col)
    modifies board
    ensures board[row, col] == Occupied(value)
    ensures forall r, c :: OnBoard(r, c) && (r != row || c != col) ==> board[r, c] == old(board[r, c])
    ensures Snapshot(board) == Put(old(Snapshot(board)), row, col, Occupied(value))
  {
    board[row, col] := Occupied(value);
    SameBoard(Snapshot(board), Put(old(Snapshot(board)), row, col, Occupied(value)));
  }

  /** FreeCell: vacate (row, col); no other cell changes. */
  method FreeCell(board: array2<Cell>, row: int, col: int)
    requires IsBoard(board) && OnBoard(row, col)
    modifies board
    ensures board[row, col] == Empty
    ensures forall r, c :: OnBoard(r, c) && (r != row || c != col) ==> board[r, c] == old(board[r, c])
    ensures Snapshot(board) == Put(old(Snapshot(board)), row, col, Empty)
  {
    board[row, col] := Empty;
    SameBoard(Snapshot(board), Put(old(Snapshot(board)), row, col, Empty));
  }

  /** FreeBoard: vacate every occupied cell. */
  method FreeBoard(board: array2<Cell>)
    requires IsBoard(board)
    modifies board
    ensures forall r, c :: OnBoard(r, c) ==> board[r, c] == Empty
    ensures Snapshot(board) == EmptyBoard()
  {
    for i := 0 to BOARD_ROWS
      invariant forall r, c :: 0 <= r < i && 0 <= c < BOARD_COLS ==> board[r, c] == Empty
    {
      for j := 0 to BOARD_COLS
        invariant forall r, c :: 0 <= r < i && 0 <= c < BOARD_COLS ==> board[r, c] == Empty
        invariant forall c :: 0 <= c < j ==> board[i, c] == Empty
      {
        if board[i, j].Occupied? {
          FreeCell(board, i, j);
        }
      }
    }
    SameBoard(Snapshot(board), EmptyBoard());
  }

  /** The first scan of ValidBoard: some cell and its right-hand neighbour hold the
      same value. */
  method HorizontalScan(board: array2<Cell>) returns (found: bool)
    requires IsBoard(board)
    ensures found <==> exists i, j :: 0 <= i < BOARD_ROWS && 0 <= j < BOARD_COLS - 1 && HorizontalRepeat(Snapshot(board), i, j)
  {
    ghost var s: BoardState := Snapshot(board);
    for i := 0 to BOARD_ROWS
      invariant forall i', j :: 0 <= i' < i && 0 <= j < BOARD_COLS - 1 ==> !HorizontalRepeat(s, i', j)
    {
      for j := 0 to BOARD_COLS - 1
        invariant forall j' :: 0 <= j' < j ==> !HorizontalRepeat(s, i, j')
      {
        if board[i, j].Occupied? && board[i, j + 1].Occupied? {
          if board[i, j].value == board[i, j + 1].value {
            assert HorizontalRepeat(s, i, j);
            return true;
          }
        }
      }
    }
    return false;
  }

  /** The second scan of ValidBoard: some cell and the cell below it hold the same value. */
  method VerticalScan(board: array2<Cell>) returns (found: bool)
    requires IsBoard(board)
    ensures found <==> exists i, j :: 0 <= i < BOARD_ROWS - 1 && 0 <= j < BOARD_COLS && VerticalRepeat(Snapshot(board), i, j)
  {
    ghost var s: BoardState := Snapshot(board);
    for i := 0 to BOARD_ROWS - 1
      invariant forall i', j :: 0 <= i' < i && 0 <= j < BOARD_COLS ==> !VerticalRepeat(s, i', j)
    {
      for j := 0 to BOARD_COLS
        invariant forall j' :: 0 <= j' < j ==> !VerticalRepeat(s, i, j')
      {
        if board[i, j].Occupied? && board[i + 1, j].Occupied? {
          if board[i, j].value == board[i + 1, j].value {
            assert VerticalRepeat(s, i, j);
            return true;
          }
        }
      }
    }
    return false;
  }

  /** The two innermost loops of ValidBoard's window scan: the occupied cell at
      offset (i, j) of window (m, n) holds the same value as another cell of it. */
  method CellScan(board: array2<Cell>, m: int, n: int, i: int, j: int) returns (found: bool)
    requires IsBoard(board) && InWindow(m, n, i, j) && board[i + m, j + n].Occupied?
    ensures found <==> CellRepeatsInWindow(Snapshot(board), m, n, i, j)
  {
    ghost var s: BoardState := Snapshot(board);
    var current := board[i + m, n + j].value;
    for x := 0 to BOX
      invariant forall x', y :: 0 <= x' < x && 0 <= y < BOX ==> !WindowRepeat(s, m, n, i, j, x', y)
    {
      for y := 0 to BOX
        invariant forall y' :: 0 <= y' < y ==> !WindowRepeat(s, m, n, i, j, x, y')
      {
        if x == i && y == j {
          continue;
        }
        if board[x + m, y + n].Occupied? && board[x + m, y + n].value == current {
          assert WindowRepeat(s, m, n, i, j, x, y);
          return true;
        }
      }
    }
    return false;
  }

  /** The third scan of ValidBoard: some 3x3 window, at any in-bounds offset, holds
      the same value twice. */
  method WindowScan(board: array2<Cell>) returns (found: bool)
    requires IsBoard(board)
    ensures found <==> exists m, n :: 0 <= m <= BOARD_ROWS - BOX && 0 <= n <= BOARD_COLS - BOX && WindowHasRepeat(Snapshot(board), m, n)
  {
    ghost var s: BoardState := Snapshot(board);
    for m := 0 to BOARD_ROWS - BOX + 1
      invariant forall m', n :: 0 <= m' < m && 0 <= n <= BOARD_COLS - BOX ==> !WindowHasRepeat(s, m', n)
    {
      for n := 0 to BOARD_COLS - BOX + 1
        invariant forall n' :: 0 <= n' < n ==> !WindowHasRepeat(s, m, n')
      {
        for i := 0 to BOX
          invariant forall i', j :: 0 <= i' < i && 0 <= j < BOX ==> !CellRepeatsInWindow(s, m, n, i', j)
        {
          for j := 0 to BOX
            invariant forall j' :: 0 <= j' < j ==> !CellRepeatsInWindow(s, m, n, i, j')
          {
            if board[i + m, j + n].Occupied? {
              var repeated := CellScan(board, m, n, i, j);
              if repeated {
                assert WindowHasRepeat(s, m, n);
                return true;
              }
            }
          }
        }
      }
    }
    return false;
  }

  /** ValidBoard: reject the board when two horizontally or vertically adjacent
      cells, or two cells of some 3x3 window, hold the same value. */
  method ValidBoard(board: array2<Cell>) returns (valid: bool)
    requires IsBoard(board)
    ensures valid == IsValid(Snapshot(board))
  {
    var found := HorizontalScan(board);
    if found {
      return false;
    }
    found := VerticalScan(board);
    if found {
      return false;
    }
    found := WindowScan(board);
    return !found;
  }

  /** The inner loop GetCandidates runs for every occupied cell it looks at:
      zero each slot that holds value. */
  method Strike(slots: array<int>, value: int)
    modifies slots
    ensures forall k :: 0 <= k < slots.Length ==>
      slots[k] == if old(slots[k]) == value then 0 else old(slots[k])
  {
    for k := 0 to slots.Length
      invariant forall k' :: 0 <= k' < k ==> slots[k'] == if old(slots[k']) == value then 0 else old(slots[k'])
      invariant forall k' :: k <= k' < slots.Length ==> slots[k'] == old(slots[k'])
    {
      if slots[k] == value {
        slots[k] := 0;
      }
    }
  }

  /** The first exclusion pass of GetCandidates: zero the slot of every value held
      in the row or in the column of (row, col). Slot k starts as k + 1. */
  method ExcludeRowAndColumn(board: array2<Cell>, row: int, col: int, slots: array<int>)
    requires IsBoard(board) && OnBoard(row, col)
    requires slots.Length == BOARD_COLS && forall k :: 0 <= k < BOARD_COLS ==> slots[k] == k + 1
    modifies slots
    ensures forall k :: 0 <= k < BOARD_COLS ==>
      slots[k] == if RowHas(Snapshot(board), row, 0, BOARD_COLS, k + 1) || ColHas(Snapshot(board), col, 0, BOARD_ROWS, k + 1) then 0 else k + 1
  {
    ghost var s: BoardState := Snapshot(board);
    for i := 0 to BOARD_ROWS
      invariant forall k :: 0 <= k < BOARD_COLS ==>
        slots[k] == if RowHas(s, row, 0, i, k + 1) || ColHas(s, col, 0, i, k + 1) then 0 else k + 1
    {
      if CheckCellStatus(board, row, i) {
        var current := GetCell(board, row, i).value;
        Strike(slots, current);
      }
      if CheckCellStatus(board, i, col) {
        var current := GetCell(board, i, col).value;
        Strike(slots, current);
      }
    }
  }

  /** The second exclusion pass of GetCandidates: zero the slot of every value held
      in the sub-grid of (row, col). */
  method ExcludeBox(board: array2<Cell>, row: int, col: int, slots: array<int>)
    requires IsBoard(board) && OnBoard(row, col) && slots.Length == BOARD_COLS
    requires forall k :: 0 <= k < BOARD_COLS ==>
      slots[k] == if RowHas(Snapshot(board), row, 0, BOARD_COLS, k + 1) || ColHas(Snapshot(board), col, 0, BOARD_ROWS, k + 1) then 0 else k + 1
    modifies slots
    ensures forall k :: 0 <= k < BOARD_COLS ==> slots[k] == if Used(Snapshot(board), row, col, k + 1) then 0 else k + 1
  {
    ghost var s: BoardState := Snapshot(board);
    var top := BoxTop(row);
    var left := BoxTop(col);
    for i := top to top + BOX
      invariant forall k :: 0 <= k < BOARD_COLS ==>
        slots[k] == if RowHas(s, row, 0, BOARD_COLS, k + 1) || ColHas(s, col, 0, BOARD_ROWS, k + 1) ||
          BoxHas(s, top, i, left, left + BOX, k + 1) then 0 else k + 1
    {
      for j := left to left + BOX
        invariant forall k :: 0 <= k < BOARD_COLS ==>
          slots[k] == if RowHas(s, row, 0, BOARD_COLS, k + 1) || ColHas(s, col, 0, BOARD_ROWS, k + 1) ||
            BoxHas(s, top, i, left, left + BOX, k + 1) || RowHas(s, i, left, j, k + 1) then 0 else k + 1
      {
        if CheckCellStatus(board, i, j) {
          var current := GetCell(board, i, j).value;
          Strike(slots, current);
        }
      }
    }
  }

  /** GetCandidates: the digits 1..9, in ascending order, that no occupied cell
      of the row, of the column or of the sub-grid of (row, col) holds. */
  method GetCandidates(board: array2<Cell>, row: int, col: int) returns (candidates: seq<int>)
    requires IsBoard(board) && OnBoard(row, col)
    ensures |candidates| <= BOARD_COLS
    ensures forall a, b :: 0 <= a < b < |candidates| ==> candidates[a] < candidates[b]
    ensures forall v :: v in candidates <==> 1 <= v <= BOARD_COLS && !Used(Snapshot(board), row, col, v)
  {
    var slots := new int[BOARD_COLS];
    for i := 0 to BOARD_COLS
      invariant forall k :: 0 <= k < i ==> slots[k] == k + 1
    {
      slots[i] := i + 1;
    }
    ExcludeRowAndColumn(board, row, col, slots);
    ExcludeBox(board, row, col, slots);
    // compaction, keeping the ascending order of the slots
    candidates := [];
    for i := 0 to BOARD_COLS
      invariant |candidates| <= i
      invariant forall a, b :: 0 <= a < b < |candidates| ==> candidates[a] < candidates[b]
      invariant forall a :: 0 <= a < |candidates| ==> candidates[a] <= i
      invariant forall v :: v in candidates <==> 1 <= v <= i && !Used(Snapshot(board), row, col, v)
    {
      if slots[i] != 0 {
        candidates := candidates + [slots[i]];
      }
    }
  }

  /** Search: depth-first backtracking. A board that ValidBoard accepts is a success
      as it stands; otherwise the first vacant cell in row-major order gets each
      candidate in ascending order, undoing it when the recursive search fails; a
      board without vacant cells is a success whatever ValidBoard said. */
  method Search(board: array2<Cell>) returns (solved: bool)
    requires IsBoard(board)
    modifies board
    ensures IsValid(old(Snapshot(board))) ==> solved && Snapshot(board) == old(Snapshot(board))
    ensures IsFull(old(Snapshot(board))) ==> solved && Snapshot(board) == old(Snapshot(board))
    ensures !solved ==> Snapshot(board) == old(Snapshot(board))
    ensures solved ==> Extends(old(Snapshot(board)), Snapshot(board))
    ensures solved ==> IsValid(Snapshot(board)) || IsFull(Snapshot(board))
    ensures Consistent(old(Snapshot(board))) ==> Consistent(Snapshot(board))
    decreases EmptyCount(Snapshot(board))
  {
    var valid := ValidBoard(board);
    if valid {
      return true;
    }
    ghost var start: BoardState := Snapshot(board);
    for i := 0 to BOARD_ROWS
      invariant Snapshot(board) == start
      invariant forall r, c :: 0 <= r < i && 0 <= c < BOARD_COLS ==> start[r][c].Occupied?
    {
      for j := 0 to BOARD_COLS
        invariant Snapshot(board) == start
        invariant forall c :: 0 <= c < j ==> start[i][c].Occupied?
      {
        if !CheckCellStatus(board, i, j) {
          var candidates := GetCandidates(board, i, j);
          for k := 0 to |candidates|
            invariant Snapshot(board) == start
          {
            var v := candidates[k];
            SetCell(board, i, j, v);
            EmptyCountPut(start, i, j, v);
            if Consistent(start) {
              PlaceCandidateKeepsConsistent(start, i, j, v);
            }
            var isSolved := Search(board);
            if isSolved {
              return true;
            }
            FreeCell(board, i, j);
            PutThenClear(start, i, j, v);
          }
          return false;
        }
      }
    }
    return true;
  }
}
