/**
 * The game state held by the `useGameState` hook, as an object: the board,
 * whose turn it is, the status, the winner and the winning line. The human
 * plays X and moves first; the computer plays O.
 */
module GameState {
  import opened BoardModel
  import AiOpponent

  datatype Player = Human | Ai
  datatype Status = Playing | Won | Draw

  /** The result of `checkGameStatus`. */
  datatype StatusResult = StatusResult(status: Status, winningLine: Option<Line>)

  /** The marker a player places. */
  function Marker(p: Player): Cell {
    if p == Human then X else O
  }

  function Opponent(p: Player): Player {
    if p == Human then Ai else Human
  }

  /**
   * Won, with the first complete line in table order; Draw when no line is
   * complete and the board is full; Playing otherwise.
   */
  function CheckGameStatus(board: Board): (r: StatusResult)
    ensures r.status == Won <==> HasWin(board)
    ensures r.status == Draw <==> !HasWin(board) && Full(board)
    ensures r.winningLine.Some? <==> r.status == Won
    ensures r.status == Won ==>
              exists k :: IsFirstComplete(board, k) && r.winningLine == Some(WinningCombinations[k])
  {
    match FirstComplete(board)
    case Some(k) => StatusResult(Won, Some(WinningCombinations[k]))
    case None => if Full(board) then StatusResult(Draw, None) else StatusResult(Playing, None)
  }

  /**
   * The hook's status and the move engine's detector agree: the game is over
   * for one exactly when it is over for the other, and the detector's winner
   * is the marker on the hook's winning line.
   */
  lemma StatusAgreesWithGameOver(board: Board)
    ensures (CheckGameStatus(board).status != Playing) == AiOpponent.CheckGameOver(board).isOver
    ensures (CheckGameStatus(board).status == Won) == (AiOpponent.CheckGameOver(board).winner != Empty)
    ensures CheckGameStatus(board).status == Won ==>
              AiOpponent.CheckGameOver(board).winner == board[CheckGameStatus(board).winningLine.value.a]
  {
    var r, g := CheckGameStatus(board), AiOpponent.CheckGameOver(board);
    if r.status == Won {
      var j :| IsFirstComplete(board, j) && r.winningLine == Some(WinningCombinations[j]);
      var k :| IsFirstComplete(board, k) && g.winner == board[WinningCombinations[k].a];
      FirstCompleteIsUnique(board, j, k);
    }
  }

  /**
   * Turns alternate: the human (X) has made as many moves as the computer (O)
   * or one more, and it is the human's turn exactly when the counts are equal.
   */
  ghost predicate TurnsAlternate(board: seq<Cell>, p: Player) {
    var xs, os := CountOf(board, X), CountOf(board, O);
    (xs == os || xs == os + 1) && (p == Human <==> xs == os)
  }

  /** Placing the mover's marker on an empty cell and passing the turn keeps turns alternating. */
  lemma TurnStep(board: Board, index: Index, p: Player)
    requires TurnsAlternate(board, p) && board[index] == Empty
    ensures TurnsAlternate(Place(board, index, Marker(p)), Opponent(p))
  {
    PlaceFillsOneCell(board, index, Marker(p));
  }

  /**
   * A move on a game still in progress that wins it wins with a line through
   * the cell just played, holding the mover's marker.
   */
  lemma WinnerIsMover(board: Board, index: Index, m: Cell)
    requires CheckGameStatus(board).status == Playing && board[index] == Empty && m != Empty
    ensures var r := CheckGameStatus(Place(board, index, m));
            r.status == Won ==>
              && Contains(r.winningLine.value, index)
              && Place(board, index, m)[r.winningLine.value.a] == m
  {
    var after := Place(board, index, m);
    var r := CheckGameStatus(after);
    if r.status == Won {
      var k :| IsFirstComplete(after, k) && r.winningLine == Some(WinningCombinations[k]);
      NewLineHoldsMover(board, index, m, k);
    }
  }

  /**
   * A consistent state: alternating turns, status and winning line as
   * `checkGameStatus` computes them from the board, and a winner exactly when
   * the game is won, namely the player who moved last, whose marker fills
   * the winning line.
   */
  ghost predicate Consistent(board: Board, currentPlayer: Player, status: Status,
                             winner: Option<Player>, winningLine: Option<Line>) {
    && TurnsAlternate(board, currentPlayer)
    && status == CheckGameStatus(board).status
    && winningLine == CheckGameStatus(board).winningLine
    && winner == (if status == Won then Some(Opponent(currentPlayer)) else None)
    && (status == Won ==> board[winningLine.value.a] == Marker(winner.value))
  }

  /** The initial state is consistent. */
  lemma InitialIsConsistent()
    ensures Consistent(EmptyBoard, Human, Playing, None, None)
  {
    assert !HasWin(EmptyBoard);
    assert !Full(EmptyBoard) by { assert EmptyBoard[0] == Empty; }
    CountOfZeroIffAbsent(EmptyBoard, X);
    CountOfZeroIffAbsent(EmptyBoard, O);
  }

  /**
   * The step `makeMove` takes on an accepted move keeps the state consistent:
   * from a consistent state in progress, the mover's marker on an empty cell,
   * the turn passed, the status and line recomputed, the mover as winner iff won.
   */
  lemma MoveIsConsistent(board: Board, currentPlayer: Player, winner: Option<Player>, winningLine: Option<Line>, index: Index)
    requires Consistent(board, currentPlayer, Playing, winner, winningLine) && board[index] == Empty
    ensures var after := Place(board, index, Marker(currentPlayer));
            var r := CheckGameStatus(after);
            Consistent(after, Opponent(currentPlayer), r.status,
                       if r.status == Won then Some(currentPlayer) else None, r.winningLine)
  {
    TurnStep(board, index, currentPlayer);
    WinnerIsMover(board, index, Marker(currentPlayer));
  }

  class Game {
    var board: array<Cell>
    var currentPlayer: Player
    var status: Status
    var winner: Option<Player>
    var winningLine: Option<Line>

    /** Nine cells, in a consistent state. */
    ghost predicate Valid()
      reads this, board
    {
      board.Length == 9 && Consistent(board[..], currentPlayer, status, winner, winningLine)
    }

    /** Nine empty cells, the human to move, the game in progress, no winner and no line. */
    ghost predicate IsInitial()
      reads this, board
    {
      && board[..] == EmptyBoard
      && currentPlayer == Human
      && status == Playing
      && winner == None
      && winningLine == None
    }

    /** The hook's initial state. */
    constructor ()
      ensures Valid() && IsInitial() && fresh(board)
    {
      board := new Cell[9](_ => Empty);
      currentPlayer := Human;
      status := Playing;
      winner := None;
      winningLine := None;
      new;
      assert board[..] == EmptyBoard;
      InitialIsConsistent();
    }

    /**
     * The move at `index` for the player to move. Rejected, with nothing
     * changed, when the game is over or the cell is not empty (an index off
     * the board reads as `undefined`, which is not empty either). Otherwise
     * the board is replaced by a copy with the mover's marker at `index`,
     * the turn passes, and status, winner and winning line are recomputed.
     */
    method MakeMove(index: int) returns (ok: bool)
      requires Valid()
      modifies this
      ensures Valid()
      ensures ok <==> old(status) == Playing && 0 <= index < 9 && old(board[..])[index] == Empty
      ensures !ok ==> unchanged(this)
      ensures ok ==> fresh(board) && board[..] == old(board[..])[index := Marker(old(currentPlayer))]
      ensures ok ==> currentPlayer == Opponent(old(currentPlayer))
      ensures ok ==> status == CheckGameStatus(board[..]).status
                     && winningLine == CheckGameStatus(board[..]).winningLine
      ensures ok ==> winner == (if status == Won then Some(old(currentPlayer)) else None)
      ensures ok && status == Won ==> Contains(winningLine.value, index)
    {
      if status != Playing || !(0 <= index < board.Length) || board[index] != Empty {
        return false;
      }
      var cells: Board := board[..];
      var mover := currentPlayer;
      var marker := Marker(mover);
      ghost var after := Place(cells, index, marker);
      var newBoard := new Cell[9](i requires 0 <= i < 9 => cells[i]);
      newBoard[index] := marker;
      assert newBoard[..] == after;
      var result := CheckGameStatus(newBoard[..]);
      MoveIsConsistent(cells, mover, winner, winningLine, index);
      WinnerIsMover(cells, index, marker);
      board, currentPlayer, status := newBoard, Opponent(mover), result.status;
      winner := if result.status == Won then Some(mover) else None;
      winningLine := result.winningLine;
      assert board[..] == after;
      ok := true;
    }

    /** Back to the initial state, whatever the state was (so resetting twice is resetting once). */
    method ResetGame()
      modifies this
      ensures Valid() && IsInitial() && fresh(board)
    {
      InitialIsConsistent();
      var cells := new Cell[9](_ => Empty);
      assert cells[..] == EmptyBoard;
      board, currentPlayer, status, winner, winningLine := cells, Human, Playing, None, None;
    }
  }
}
