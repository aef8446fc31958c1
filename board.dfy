/**
 * The 3x3 board shared by the move engine and the game state machine:
 * cell values, the row-major board of nine cells, the fixed table of the
 * eight winning lines, and the scan that finds the first completed line.
 */
module BoardModel {

  datatype Option<T> = None | Some(value: T)

  /** A cell holds the human's marker X, the computer's marker O, or nothing (`null`). */
  datatype Cell = Empty | X | O

  /** A position on the board, 0..8 in row-major order. */
  type Index = i: int | 0 <= i < 9

  /** A board is exactly nine cells, indices 0-1-2 being the top row. */
  type Board = b: seq<Cell> | |b| == 9
    witness [Empty, Empty, Empty, Empty, Empty, Empty, Empty, Empty, Empty]

  /** A line of three board positions. */
  datatype Line = Line(a: Index, b: Index, c: Index)

  /** The eight winning lines, in the order in which both scans visit them. */
  const WinningCombinations: seq<Line> := [
    Line(0, 1, 2), // top row
    Line(3, 4, 5), // middle row
    Line(6, 7, 8), // bottom row
    Line(0, 3, 6), // left column
    Line(1, 4, 7), // middle column
    Line(2, 5, 8), // right column
    Line(0, 4, 8), // diagonal top-left to bottom-right
    Line(2, 4, 6)  // diagonal top-right to bottom-left
  ]

  const EmptyBoard: Board := [Empty, Empty, Empty, Empty, Empty, Empty, Empty, Empty, Empty]

  /** The three cells of `l` hold the same marker (null is falsy, so an empty line never counts). */
  predicate Completes(board: Board, l: Line) {
    board[l.a] != Empty && board[l.a] == board[l.b] && board[l.a] == board[l.c]
  }

  predicate Contains(l: Line, i: int) {
    l.a == i || l.b == i || l.c == i
  }

  /** Some line of the table is complete. */
  predicate HasWin(board: Board) {
    exists k :: 0 <= k < |WinningCombinations| && Completes(board, WinningCombinations[k])
  }

  /** Line `k` is complete and no earlier line of the table is. */
  predicate IsFirstComplete(board: Board, k: int) {
    && 0 <= k < |WinningCombinations|
    && Completes(board, WinningCombinations[k])
    && forall j :: 0 <= j < k ==> !Completes(board, WinningCombinations[j])
  }

  /** Only one line of the table can be the first complete one. */
  lemma FirstCompleteIsUnique(board: Board, j: int, k: int)
    requires IsFirstComplete(board, j) && IsFirstComplete(board, k)
    ensures j == k
  {
  }

  /** Every cell holds a marker. */
  predicate Full(board: Board) {
    Empty !in board
  }

  /** Every cell is empty. */
  predicate AllEmpty(board: Board) {
    forall i :: 0 <= i < |board| ==> board[i] == Empty
  }

  /**
   * The scan `for (... of WINNING_COMBINATIONS) if (...) return`, started at
   * table position `k`: the position of the first complete line at or after `k`.
   */
  function FirstCompleteFrom(board: Board, k: nat): (r: Option<nat>)
    requires k <= |WinningCombinations|
    decreases |WinningCombinations| - k
    ensures r.Some? ==> k <= r.value < |WinningCombinations|
                        && Completes(board, WinningCombinations[r.value])
                        && forall j :: k <= j < r.value ==> !Completes(board, WinningCombinations[j])
    ensures r.None? ==> forall j :: k <= j < |WinningCombinations| ==> !Completes(board, WinningCombinations[j])
  {
    if k == |WinningCombinations| then None
    else if Completes(board, WinningCombinations[k]) then Some(k)
    else FirstCompleteFrom(board, k + 1)
  }

  /** The whole-table scan finds a line exactly when there is one, and then the first. */
  function FirstComplete(board: Board): (r: Option<nat>)
    ensures r.Some? <==> HasWin(board)
    ensures r.Some? ==> IsFirstComplete(board, r.value)
  {
    FirstCompleteFrom(board, 0)
  }

  /**
   * `makeMove`: the copy-then-set board update `newBoard = [...board]; newBoard[index] = player`,
   * which the hook's `makeMove` also performs. The input board is a value and is not changed.
   */
  function Place(board: Board, index: Index, player: Cell): (r: Board)
    ensures r[index] == player
    ensures forall i :: 0 <= i < 9 && i != index ==> r[i] == board[i]
  {
    board[index := player]
  }

  /** The number of cells of `s` that hold `c`. */
  function CountOf(s: seq<Cell>, c: Cell): nat {
    if s == [] then 0 else (if s[0] == c then 1 else 0) + CountOf(s[1..], c)
  }

  /** Overwriting one cell moves one unit of count from the old value to the new one. */
  lemma {:induction false} CountOfUpdate(s: seq<Cell>, i: int, v: Cell, c: Cell)
    requires 0 <= i < |s|
    ensures CountOf(s[i := v], c)
            == CountOf(s, c) - (if s[i] == c then 1 else 0) + (if v == c then 1 else 0)
  {
    if i > 0 {
      assert s[i := v][1..] == s[1..][i - 1 := v];
      CountOfUpdate(s[1..], i - 1, v, c);
    } else {
      assert s[i := v][1..] == s[1..];
    }
  }

  /**
   * Placing a marker on an empty cell fills exactly one cell: one empty cell
   * fewer, one more of that marker, the other marker's count unchanged.
   */
  lemma PlaceFillsOneCell(board: Board, index: Index, m: Cell)
    requires board[index] == Empty && m != Empty
    ensures CountOf(Place(board, index, m), Empty) == CountOf(board, Empty) - 1
    ensures CountOf(Place(board, index, m), m) == CountOf(board, m) + 1
    ensures forall c :: c != m && c != Empty ==> CountOf(Place(board, index, m), c) == CountOf(board, c)
  {
    CountOfUpdate(board, index, m, Empty);
    CountOfUpdate(board, index, m, m);
    forall c | c != m && c != Empty
      ensures CountOf(Place(board, index, m), c) == CountOf(board, c)
    {
      CountOfUpdate(board, index, m, c);
    }
  }

  /** A value is counted zero times exactly when it does not occur; in particular a board is full exactly when no empty cell is left to count. */
  lemma {:induction false} CountOfZeroIffAbsent(s: seq<Cell>, c: Cell)
    ensures CountOf(s, c) == 0 <==> c !in s
  {
    if s != [] {
      CountOfZeroIffAbsent(s[1..], c);
      assert s == [s[0]] + s[1..];
    }
  }

  /**
   * A line that becomes complete when marker `m` is placed on an empty cell
   * of a board with no complete line runs through that cell and holds `m`.
   */
  lemma NewLineHoldsMover(board: Board, index: Index, m: Cell, k: int)
    requires !HasWin(board) && board[index] == Empty && m != Empty
    requires 0 <= k < |WinningCombinations| && Completes(Place(board, index, m), WinningCombinations[k])
    ensures Contains(WinningCombinations[k], index)
    ensures Place(board, index, m)[WinningCombinations[k].a] == m
  {
  }
}
