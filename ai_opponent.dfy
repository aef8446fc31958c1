/**
 * The computer opponent: the win/draw detector, the list of legal moves,
 * the copy-and-set board update, the minimax search with alpha-beta
 * pruning and a depth cap, and the move chooser built on it.
 * The computer plays O and maximises; the human plays X and minimises.
 */
module AiOpponent {
  import opened BoardModel

  /** The result of `checkGameOver`: whether the game has ended and who won (Empty for none). */
  datatype GameOver = GameOver(isOver: bool, winner: Cell)

  /** Stand-ins for JavaScript's -Infinity and Infinity: every score lies in [-10, 10]. */
  const NegInfinity: int := -100
  const PosInfinity: int := 100

  /** The depth at which the search stops and scores the position as neutral. */
  const MaxDepth: nat := 9

  /** The opening choices on an empty board: the four corners and the centre. */
  const OpeningMoves: seq<Index> := [0, 2, 4, 6, 8]

  /**
   * The winner is the marker on the first complete line in table order; with
   * no complete line the game is over exactly when the board is full (a draw).
   */
  function CheckGameOver(board: Board): (r: GameOver)
    ensures r.winner != Empty <==> HasWin(board)
    ensures r.isOver <==> HasWin(board) || Full(board)
    ensures HasWin(board) ==>
              exists k :: IsFirstComplete(board, k) && r.winner == board[WinningCombinations[k].a]
  {
    match FirstComplete(board)
    case Some(k) => GameOver(true, board[WinningCombinations[k].a])
    case None => if Full(board) then GameOver(true, Empty) else GameOver(false, Empty)
  }

  /** The `reduce` over the first `n` cells: the indices below `n` whose cell is empty, in order. */
  function AvailableBelow(board: Board, n: nat): (moves: seq<Index>)
    requires n <= 9
    ensures forall i: int :: i in moves <==> 0 <= i < n && board[i] == Empty
    ensures forall p, q :: 0 <= p < q < |moves| ==> moves[p] < moves[q]
  {
    if n == 0 then []
    else
      var earlier := AvailableBelow(board, n - 1);
      assert forall p :: 0 <= p < |earlier| ==> earlier[p] < n - 1 by {
        forall p | 0 <= p < |earlier| ensures earlier[p] < n - 1 {
          assert earlier[p] in earlier;
        }
      }
      earlier + (if board[n - 1] == Empty then [n - 1] else [])
  }

  /** Exactly the empty cells, strictly ascending (hence without duplicates). */
  function AvailableMoves(board: Board): (moves: seq<Index>)
    ensures forall i: int :: 0 <= i < 9 ==> (i in moves <==> board[i] == Empty)
    ensures forall p, q :: 0 <= p < q < |moves| ==> moves[p] < moves[q]
    ensures moves == [] <==> Full(board)
  {
    var moves := AvailableBelow(board, 9);
    assert Full(board) ==> moves == [] by {
      if moves != [] { assert moves[0] in moves; }
    }
    moves
  }

  /** Playing on an empty cell (`makeMove`, which is BoardModel.Place) removes exactly that cell from the legal moves. */
  lemma PlaceRemovesMove(board: Board, index: Index, player: Cell)
    requires board[index] == Empty && player != Empty
    ensures forall i :: i in AvailableMoves(Place(board, index, player)) <==>
                        i in AvailableMoves(board) && i != index
  {
  }

  function Max(a: int, b: int): int { if a >= b then a else b }
  function Min(a: int, b: int): int { if a <= b then a else b }

  /** `s` strictly beats `t` for the side to move. */
  predicate Beats(s: int, t: int, maximizing: bool) {
    if maximizing then s > t else s < t
  }

  /**
   * Child `k` shows that `score` is the best of the child `scores` explored
   * so far and that `move` is the move of the FIRST child that reached it
   * (a later equal score does not replace it).
   */
  ghost predicate BestAt(scores: seq<int>, moves: seq<Index>, maximizing: bool, score: int, move: Option<Index>, k: int) {
    && 0 <= k < |scores| && k < |moves|
    && scores[k] == score && move == Some(moves[k])
    && (forall j :: 0 <= j < k ==> Beats(score, scores[j], maximizing))
    && (forall j :: 0 <= j < |scores| ==> !Beats(scores[j], score, maximizing))
  }

  /** `score` is the best explored child score and `move` the first child reaching it. */
  ghost predicate IsFirstBest(scores: seq<int>, moves: seq<Index>, maximizing: bool, score: int, move: Option<Index>) {
    exists k :: BestAt(scores, moves, maximizing, score, move, k)
  }

  /** The score `minimax` gives a finished game at `depth`: faster wins and slower losses score better. */
  function TerminalScore(winner: Cell, depth: int): int {
    if winner == O then 10 - depth
    else if winner == X then depth - 10
    else 0
  }

  /**
   * What one call of `minimax` produces: the score, the move (None for
   * `undefined`), and the scores of the children it evaluated, in move order.
   */
  datatype Outcome = Outcome(score: int, move: Option<Index>, explored: seq<int>)

  /**
   * The bookkeeping of either loop body once the child for move `m` has
   * scored `s`: the child replaces the best so far only when it strictly
   * beats it, and its score is recorded as explored.
   */
  function Keep(acc: Outcome, s: int, m: Index, maximizing: bool): Outcome {
    if Beats(s, acc.score, maximizing) then Outcome(s, Some(m), acc.explored + [s])
    else acc.(explored := acc.explored + [s])
  }

  /**
   * The state of either loop after `i` children: before the first child, the
   * start value (-Infinity or Infinity) and no move; afterwards child `k` is
   * the first whose score is the best explored so far, and its move is kept.
   */
  ghost predicate LoopState(moves: seq<Index>, maximizing: bool, start: int, i: nat, acc: Outcome, k: int) {
    && |acc.explored| == i
    && (i == 0 ==> acc.move.None? && acc.score == start)
    && (0 < i ==> BestAt(acc.explored, moves, maximizing, acc.score, acc.move, k))
  }

  /**
   * Keeping child `i` moves the loop state from `i` to `i + 1` children, and
   * the best score never gets worse for the side to move. The first child
   * always replaces the start value, since it beats it.
   */
  lemma KeepPreserves(moves: seq<Index>, maximizing: bool, start: int, i: nat, acc: Outcome, s: int, k: int)
    returns (k': int)
    requires i < |moves| && LoopState(moves, maximizing, start, i, acc, k)
    requires i == 0 ==> Beats(s, start, maximizing)
    ensures LoopState(moves, maximizing, start, i + 1, Keep(acc, s, moves[i], maximizing), k')
    ensures 0 < i ==> !Beats(acc.score, Keep(acc, s, moves[i], maximizing).score, maximizing)
  {
    k' := if Beats(s, acc.score, maximizing) then i else k;
  }

  /**
   * A scorer gives the value of the child reached by a move, searched with
   * the window bound (alpha or beta) the loop passes down at that point.
   * Scores(child, moves) says it may be asked about every move in `moves`.
   */
  ghost predicate Scores(child: (Index, int) --> int, moves: seq<Index>) {
    forall j, w :: 0 <= j < |moves| ==> child.requires(moves[j], w)
  }

  /** Every child in `moves` scores within [-bound, bound], whatever window it is given. */
  ghost predicate ScoresWithin(child: (Index, int) --> int, moves: seq<Index>, bound: int)
    requires Scores(child, moves)
  {
    forall j, w :: 0 <= j < |moves| ==> -bound <= child(moves[j], w) <= bound
  }

  /**
   * The maximising loop from child `i` on, with the current alpha `a` and the
   * best so far `acc`: score the child, keep it if strictly better, raise
   * alpha, and stop once beta <= alpha.
   */
  ghost function MaxFold(moves: seq<Index>, child: (Index, int) --> int, beta: int, i: nat, a: int, acc: Outcome): Outcome
    requires Scores(child, moves) && i <= |moves|
    decreases |moves| - i
  {
    if i == |moves| then acc
    else
      var next := Keep(acc, child(moves[i], a), moves[i], true);
      var a' := Max(a, next.score);
      if beta <= a' then next else MaxFold(moves, child, beta, i + 1, a', next)
  }

  /**
   * The minimising loop from child `i` on, with the current beta `b` and the
   * best so far `acc`: score the child, keep it if strictly better, lower
   * beta, and stop once beta <= alpha.
   */
  ghost function MinFold(moves: seq<Index>, child: (Index, int) --> int, alpha: int, i: nat, b: int, acc: Outcome): Outcome
    requires Scores(child, moves) && i <= |moves|
    decreases |moves| - i
  {
    if i == |moves| then acc
    else
      var next := Keep(acc, child(moves[i], b), moves[i], false);
      var b' := Min(b, next.score);
      if b' <= alpha then next else MinFold(moves, child, alpha, i + 1, b', next)
  }

  /**
   * The value of `minimax(board, depth, isMaximizing, alpha, beta)`, written
   * as a recursive definition: the terminal and depth-cap cases, otherwise
   * the fold of the side to move over the available moves. Each entry of
   * `explored` is the value of that child's search, with the window it was
   * given.
   */
  ghost function AlphaBeta(board: Board, depth: nat, isMaximizing: bool, alpha: int, beta: int): Outcome
    decreases CountOf(board, Empty), 2
  {
    var over := CheckGameOver(board);
    if over.isOver then Outcome(TerminalScore(over.winner, depth), None, [])
    else if depth >= MaxDepth then Outcome(0, None, [])
    else if isMaximizing then MaxFold(AvailableMoves(board), MaxChildren(board, depth, beta), beta, 0, alpha, Outcome(NegInfinity, None, []))
    else MinFold(AvailableMoves(board), MinChildren(board, depth, alpha), alpha, 0, beta, Outcome(PosInfinity, None, []))
  }

  /** The children of a maximising node: O plays the move and X is to move, with the node's beta. */
  ghost function MaxChildren(board: Board, depth: nat, beta: int): (child: (Index, int) --> int)
    decreases CountOf(board, Empty), 1
    ensures Scores(child, AvailableMoves(board))
  {
    (m: Index, a: int) requires board[m] == Empty => ChildScore(board, m, O, depth, false, a, beta)
  }

  /** The children of a minimising node: X plays the move and O is to move, with the node's alpha. */
  ghost function MinChildren(board: Board, depth: nat, alpha: int): (child: (Index, int) --> int)
    decreases CountOf(board, Empty), 1
    ensures Scores(child, AvailableMoves(board))
  {
    (m: Index, b: int) requires board[m] == Empty => ChildScore(board, m, X, depth, true, alpha, b)
  }

  /** The value of the search after playing `move` for `player`, one ply deeper. */
  ghost function ChildScore(board: Board, move: Index, player: Cell, depth: nat, isMaximizing: bool, alpha: int, beta: int): int
    requires board[move] == Empty && player != Empty
    decreases CountOf(board, Empty), 0, 1
  {
    ChildOutcome(board, move, player, depth, isMaximizing, alpha, beta).score
  }

  /** The search of the position after playing `move` for `player`, one ply deeper. */
  ghost function ChildOutcome(board: Board, move: Index, player: Cell, depth: nat, isMaximizing: bool, alpha: int, beta: int): Outcome
    requires board[move] == Empty && player != Empty
    decreases CountOf(board, Empty), 0, 0
  {
    PlaceFillsOneCell(board, move, player);
    AlphaBeta(Place(board, move, player), depth + 1, isMaximizing, alpha, beta)
  }

  /** The search value of a position at depth 0..9 lies in [-(10 - depth), 10 - depth]. */
  lemma {:induction false} AlphaBetaBound(board: Board, depth: nat, isMaximizing: bool, alpha: int, beta: int)
    requires depth <= MaxDepth
    decreases CountOf(board, Empty), 2
    ensures -(10 - depth) <= AlphaBeta(board, depth, isMaximizing, alpha, beta).score <= 10 - depth
  {
    var over := CheckGameOver(board);
    if !over.isOver && depth < MaxDepth {
      var moves := AvailableMoves(board);
      ChildrenWithin(board, depth, alpha, beta);
      if isMaximizing {
        MaxFoldBound(moves, MaxChildren(board, depth, beta), 9 - depth, beta, 0, alpha, Outcome(NegInfinity, None, []));
      } else {
        MinFoldBound(moves, MinChildren(board, depth, alpha), 9 - depth, alpha, 0, beta, Outcome(PosInfinity, None, []));
      }
    }
  }

  /** Below the depth cap, every child of a node at `depth` scores within [-(9 - depth), 9 - depth]. */
  lemma ChildrenWithin(board: Board, depth: nat, alpha: int, beta: int)
    requires depth < MaxDepth
    decreases CountOf(board, Empty), 1
    ensures ScoresWithin(MaxChildren(board, depth, beta), AvailableMoves(board), 9 - depth)
    ensures ScoresWithin(MinChildren(board, depth, alpha), AvailableMoves(board), 9 - depth)
  {
    var moves := AvailableMoves(board);
    forall j, w | 0 <= j < |moves|
      ensures -(9 - depth) <= MaxChildren(board, depth, beta)(moves[j], w) <= 9 - depth
      ensures -(9 - depth) <= MinChildren(board, depth, alpha)(moves[j], w) <= 9 - depth
    {
      assert moves[j] in moves;
      ChildScoreBound(board, moves[j], O, depth, false, w, beta);
      ChildScoreBound(board, moves[j], X, depth, true, alpha, w);
    }
  }

  /** The value a child contributes to the search of a position at depth 0..8 lies in [-(9 - depth), 9 - depth]. */
  lemma ChildScoreBound(board: Board, move: Index, player: Cell, depth: nat, isMaximizing: bool, alpha: int, beta: int)
    requires board[move] == Empty && player != Empty && depth < MaxDepth
    decreases CountOf(board, Empty), 0
    ensures -(9 - depth) <= ChildScore(board, move, player, depth, isMaximizing, alpha, beta) <= 9 - depth
  {
    PlaceFillsOneCell(board, move, player);
    AlphaBetaBound(Place(board, move, player), depth + 1, isMaximizing, alpha, beta);
  }

  /** With every child within [-bound, bound], so is the maximising fold's score once one child is in. */
  lemma {:induction false} MaxFoldBound(moves: seq<Index>, child: (Index, int) --> int, bound: int,
                                        beta: int, i: nat, a: int, acc: Outcome)
    requires Scores(child, moves) && ScoresWithin(child, moves, bound) && 0 < |moves| && i <= |moves|
    requires 0 <= bound < PosInfinity
    requires i == 0 ==> acc.score == NegInfinity
    requires 0 < i ==> -bound <= acc.score <= bound
    decreases |moves| - i
    ensures -bound <= MaxFold(moves, child, beta, i, a, acc).score <= bound
  {
    if i < |moves| {
      var next := Keep(acc, child(moves[i], a), moves[i], true);
      var a' := Max(a, next.score);
      if a' < beta {
        MaxFoldBound(moves, child, bound, beta, i + 1, a', next);
      }
    }
  }

  /** With every child within [-bound, bound], so is the minimising fold's score once one child is in. */
  lemma {:induction false} MinFoldBound(moves: seq<Index>, child: (Index, int) --> int, bound: int,
                                        alpha: int, i: nat, b: int, acc: Outcome)
    requires Scores(child, moves) && ScoresWithin(child, moves, bound) && 0 < |moves| && i <= |moves|
    requires 0 <= bound < PosInfinity
    requires i == 0 ==> acc.score == PosInfinity
    requires 0 < i ==> -bound <= acc.score <= bound
    decreases |moves| - i
    ensures -bound <= MinFold(moves, child, alpha, i, b, acc).score <= bound
  {
    if i < |moves| {
      var next := Keep(acc, child(moves[i], b), moves[i], false);
      var b' := Min(b, next.score);
      if alpha < b' {
        MinFoldBound(moves, child, bound, alpha, i + 1, b', next);
      }
    }
  }

  /**
   * What the search value promises: the exact terminal and depth-cap scores;
   * otherwise a move on an empty cell, at least one child explored, the score
   * the best explored child score and the move the first child reaching it,
   * and an early stop only at a cutoff.
   */
  lemma AlphaBetaFacts(board: Board, depth: nat, isMaximizing: bool, alpha: int, beta: int)
    ensures var r, over := AlphaBeta(board, depth, isMaximizing, alpha, beta), CheckGameOver(board);
            && (over.isOver ==> r.score == TerminalScore(over.winner, depth) && r.move.None? && r.explored == [])
            && (!over.isOver && depth >= MaxDepth ==> r.score == 0 && r.move.None? && r.explored == [])
            && (!over.isOver && depth < MaxDepth ==>
                  && r.move.Some? && board[r.move.value] == Empty
                  && 1 <= |r.explored| <= |AvailableMoves(board)|
                  && IsFirstBest(r.explored, AvailableMoves(board), isMaximizing, r.score, r.move)
                  && (|r.explored| < |AvailableMoves(board)| ==>
                        if isMaximizing then beta <= Max(alpha, r.score) else Min(beta, r.score) <= alpha))
  {
    var over := CheckGameOver(board);
    if !over.isOver && depth < MaxDepth {
      if isMaximizing {
        MaxOutcome(board, depth, alpha, beta);
      } else {
        MinOutcome(board, depth, alpha, beta);
      }
    }
  }

  /**
   * The maximising loop over all available moves, from -Infinity: a move on
   * an empty cell, at least one child explored, the best explored child score
   * with the first move reaching it, an early stop only at a cutoff, and a
   * score within the children's bounds.
   */
  lemma MaxOutcome(board: Board, depth: nat, alpha: int, beta: int)
    requires !Full(board) && depth < MaxDepth
    ensures var moves := AvailableMoves(board);
            var r := MaxFold(moves, MaxChildren(board, depth, beta), beta, 0, alpha, Outcome(NegInfinity, None, []));
            && r.move.Some? && board[r.move.value] == Empty
            && 1 <= |r.explored| <= |moves| && IsFirstBest(r.explored, moves, true, r.score, r.move)
            && (|r.explored| < |moves| ==> beta <= Max(alpha, r.score))
            && -(9 - depth) <= r.score <= 9 - depth
  {
    var moves, child := AvailableMoves(board), MaxChildren(board, depth, beta);
    var r := MaxFold(moves, child, beta, 0, alpha, Outcome(NegInfinity, None, []));
    ChildrenWithin(board, depth, alpha, beta);
    var k := MaxFoldFacts(moves, child, 9 - depth, alpha, beta, 0, alpha, Outcome(NegInfinity, None, []), 0);
    MaxFoldBound(moves, child, 9 - depth, beta, 0, alpha, Outcome(NegInfinity, None, []));
    assert BestAt(r.explored, moves, true, r.score, r.move, k);
    assert moves[k] in moves;
  }

  /**
   * The minimising loop over all available moves, from Infinity: a move on
   * an empty cell, at least one child explored, the best explored child score
   * with the first move reaching it, an early stop only at a cutoff, and a
   * score within the children's bounds.
   */
  lemma MinOutcome(board: Board, depth: nat, alpha: int, beta: int)
    requires !Full(board) && depth < MaxDepth
    ensures var moves := AvailableMoves(board);
            var r := MinFold(moves, MinChildren(board, depth, alpha), alpha, 0, beta, Outcome(PosInfinity, None, []));
            && r.move.Some? && board[r.move.value] == Empty
            && 1 <= |r.explored| <= |moves| && IsFirstBest(r.explored, moves, false, r.score, r.move)
            && (|r.explored| < |moves| ==> Min(beta, r.score) <= alpha)
            && -(9 - depth) <= r.score <= 9 - depth
  {
    var moves, child := AvailableMoves(board), MinChildren(board, depth, alpha);
    var r := MinFold(moves, child, alpha, 0, beta, Outcome(PosInfinity, None, []));
    ChildrenWithin(board, depth, alpha, beta);
    var k := MinFoldFacts(moves, child, 9 - depth, alpha, beta, 0, beta, Outcome(PosInfinity, None, []), 0);
    MinFoldBound(moves, child, 9 - depth, alpha, 0, beta, Outcome(PosInfinity, None, []));
    assert BestAt(r.explored, moves, false, r.score, r.move, k);
    assert moves[k] in moves;
  }

  /**
   * The maximising fold, started in a state the loop can be in after `i`
   * children, ends in a loop state with at least one child, and short of
   * the last child only at a cutoff.
   */
  lemma {:induction false} MaxFoldFacts(moves: seq<Index>, child: (Index, int) --> int, bound: int,
                                        alpha: int, beta: int, i: nat, a: int, acc: Outcome, k: int)
    returns (kr: int)
    requires Scores(child, moves) && ScoresWithin(child, moves, bound) && 0 < |moves| && i <= |moves|
    requires 0 <= bound < PosInfinity
    requires LoopState(moves, true, NegInfinity, i, acc, k)
    requires a == if i == 0 then alpha else Max(alpha, acc.score)
    decreases |moves| - i
    ensures var r := MaxFold(moves, child, beta, i, a, acc);
            && 0 < |r.explored| <= |moves| && LoopState(moves, true, NegInfinity, |r.explored|, r, kr)
            && (|r.explored| < |moves| ==> beta <= Max(alpha, r.score))
  {
    if i < |moves| {
      var s := child(moves[i], a);
      var k' := KeepPreserves(moves, true, NegInfinity, i, acc, s, k);
      var next := Keep(acc, s, moves[i], true);
      var a' := Max(a, next.score);
      if a' < beta {
        kr := MaxFoldFacts(moves, child, bound, alpha, beta, i + 1, a', next, k');
      } else {
        kr := k';
      }
    } else {
      kr := k;
    }
  }

  /**
   * The minimising fold, started in a state the loop can be in after `i`
   * children, ends in a loop state with at least one child, and short of
   * the last child only at a cutoff.
   */
  lemma {:induction false} MinFoldFacts(moves: seq<Index>, child: (Index, int) --> int, bound: int,
                                        alpha: int, beta: int, i: nat, b: int, acc: Outcome, k: int)
    returns (kr: int)
    requires Scores(child, moves) && ScoresWithin(child, moves, bound) && 0 < |moves| && i <= |moves|
    requires 0 <= bound < PosInfinity
    requires LoopState(moves, false, PosInfinity, i, acc, k)
    requires b == if i == 0 then beta else Min(beta, acc.score)
    decreases |moves| - i
    ensures var r := MinFold(moves, child, alpha, i, b, acc);
            && 0 < |r.explored| <= |moves| && LoopState(moves, false, PosInfinity, |r.explored|, r, kr)
            && (|r.explored| < |moves| ==> Min(beta, r.score) <= alpha)
  {
    if i < |moves| {
      var s := child(moves[i], b);
      var k' := KeepPreserves(moves, false, PosInfinity, i, acc, s, k);
      var next := Keep(acc, s, moves[i], false);
      var b' := Min(b, next.score);
      if alpha < b' {
        kr := MinFoldFacts(moves, child, bound, alpha, beta, i + 1, b', next, k');
      } else {
        kr := k';
      }
    } else {
      kr := k;
    }
  }

  /**
   * `minimax` with alpha-beta pruning, as the imperative recursion of the
   * source: it computes exactly AlphaBeta, and so has the properties
   * AlphaBetaFacts proves. The two `for` loops of the source are
   * MaximizeOver and MinimizeOver. The recursion terminates because every
   * recursive call has one empty cell fewer.
   */
  method Minimax(board: Board, depth: nat, isMaximizing: bool, alpha: int, beta: int)
    returns (score: int, move: Option<Index>, ghost explored: seq<int>)
    decreases CountOf(board, Empty), 2
    ensures Outcome(score, move, explored) == AlphaBeta(board, depth, isMaximizing, alpha, beta)
    ensures CheckGameOver(board).isOver ==>
              score == TerminalScore(CheckGameOver(board).winner, depth) && move.None? && explored == []
    ensures !CheckGameOver(board).isOver && depth >= MaxDepth ==>
              score == 0 && move.None? && explored == []
    ensures !CheckGameOver(board).isOver && depth < MaxDepth ==>
              && move.Some? && board[move.value] == Empty
              && 1 <= |explored| <= |AvailableMoves(board)|
              && IsFirstBest(explored, AvailableMoves(board), isMaximizing, score, move)
    ensures !CheckGameOver(board).isOver && depth < MaxDepth && |explored| < |AvailableMoves(board)| ==>
              if isMaximizing then beta <= Max(alpha, score) else Min(beta, score) <= alpha
    ensures depth <= MaxDepth ==> -(10 - depth) <= score <= 10 - depth
  {
    AlphaBetaFacts(board, depth, isMaximizing, alpha, beta);
    if depth <= MaxDepth {
      AlphaBetaBound(board, depth, isMaximizing, alpha, beta);
    }
    var over := CheckGameOver(board);
    if over.isOver {
      return TerminalScore(over.winner, depth), None, [];
    }
    if depth >= MaxDepth {
      return 0, None, [];
    }
    var moves := AvailableMoves(board);
    if isMaximizing {
      score, move, explored := MaximizeOver(board, moves, depth, alpha, beta);
    } else {
      score, move, explored := MinimizeOver(board, moves, depth, alpha, beta);
    }
  }

  /**
   * `minimax(makeMove(board, move, player), depth + 1, ...)`: the score of
   * playing `move`, one ply deeper, with the other side to move.
   */
  method ScoreOfMove(board: Board, move: Index, player: Cell, depth: nat, isMaximizing: bool, alpha: int, beta: int)
    returns (score: int)
    requires board[move] == Empty && player != Empty && depth < MaxDepth
    decreases CountOf(board, Empty), 0
    ensures score == ChildScore(board, move, player, depth, isMaximizing, alpha, beta)
    ensures -(9 - depth) <= score <= 9 - depth
  {
    PlaceFillsOneCell(board, move, player);
    var childMove;
    ghost var childExplored;
    score, childMove, childExplored := Minimax(Place(board, move, player), depth + 1, isMaximizing, alpha, beta);
  }

  /**
   * The computer's turn: try each move for O in order, keep the first move
   * with the highest score, raise alpha, and stop once beta <= alpha.
   */
  method MaximizeOver(board: Board, moves: seq<Index>, depth: nat, alpha: int, beta: int)
    returns (score: int, move: Option<Index>, ghost explored: seq<int>)
    requires moves == AvailableMoves(board) && !Full(board) && depth < MaxDepth
    decreases CountOf(board, Empty), 1
    ensures Outcome(score, move, explored) == MaxFold(moves, MaxChildren(board, depth, beta), beta, 0, alpha, Outcome(NegInfinity, None, []))
    ensures move.Some? && board[move.value] == Empty
    ensures 1 <= |explored| <= |moves| && IsFirstBest(explored, moves, true, score, move)
    ensures |explored| < |moves| ==> beta <= Max(alpha, score)
    ensures -(9 - depth) <= score <= 9 - depth
  {
    ghost var child := MaxChildren(board, depth, beta);
    ghost var outcome := MaxFold(moves, child, beta, 0, alpha, Outcome(NegInfinity, None, []));
    var a := alpha;
    move, explored := None, [];
    score := NegInfinity;
    var i := 0;
    while i < |moves|
      invariant 0 <= i <= |moves|
      invariant MaxFold(moves, child, beta, i, a, Outcome(score, move, explored)) == outcome
      decreases |moves| - i
    {
      var m := moves[i];
      assert m in moves;
      ghost var before := Outcome(score, move, explored);
      var s := ScoreOfMove(board, m, O, depth, false, a, beta);
      assert s == child(m, a);
      explored := explored + [s];
      if s > score {
        score, move := s, Some(m);
      }
      assert Outcome(score, move, explored) == Keep(before, s, m, true);
      a := Max(a, score);
      i := i + 1;
      if beta <= a { break; }
    }
    MaxOutcome(board, depth, alpha, beta);
  }

  /**
   * The human's turn: try each move for X in order, keep the first move
   * with the lowest score, lower beta, and stop once beta <= alpha.
   */
  method MinimizeOver(board: Board, moves: seq<Index>, depth: nat, alpha: int, beta: int)
    returns (score: int, move: Option<Index>, ghost explored: seq<int>)
    requires moves == AvailableMoves(board) && !Full(board) && depth < MaxDepth
    decreases CountOf(board, Empty), 1
    ensures Outcome(score, move, explored) == MinFold(moves, MinChildren(board, depth, alpha), alpha, 0, beta, Outcome(PosInfinity, None, []))
    ensures move.Some? && board[move.value] == Empty
    ensures 1 <= |explored| <= |moves| && IsFirstBest(explored, moves, false, score, move)
    ensures |explored| < |moves| ==> Min(beta, score) <= alpha
    ensures -(9 - depth) <= score <= 9 - depth
  {
    ghost var child := MinChildren(board, depth, alpha);
    ghost var outcome := MinFold(moves, child, alpha, 0, beta, Outcome(PosInfinity, None, []));
    var b := beta;
    move, explored := None, [];
    score := PosInfinity;
    var i := 0;
    while i < |moves|
      invariant 0 <= i <= |moves|
      invariant MinFold(moves, child, alpha, i, b, Outcome(score, move, explored)) == outcome
      decreases |moves| - i
    {
      var m := moves[i];
      assert m in moves;
      ghost var before := Outcome(score, move, explored);
      var s := ScoreOfMove(board, m, X, depth, true, alpha, b);
      assert s == child(m, b);
      explored := explored + [s];
      if s < score {
        score, move := s, Some(m);
      }
      assert Outcome(score, move, explored) == Keep(before, s, m, false);
      b := Min(b, score);
      i := i + 1;
      if b <= alpha { break; }
    }
    MinOutcome(board, depth, alpha, beta);
  }

  /**
   * `getBestMove`, with `Math.random()` replaced by the choice `pick` in [0, 5).
   * On an all-empty board it plays a corner or the centre; otherwise it plays
   * the move of the full-window search from depth 0 with O to move, falling
   * back to the first empty cell. The result is None (JavaScript's
   * `undefined`) exactly when the board is full.
   */
  method GetBestMove(board: Board, pick: int) returns (r: Option<Index>)
    requires 0 <= pick < |OpeningMoves|
    ensures AllEmpty(board) ==> r == Some(OpeningMoves[pick]) && r.value in {0, 2, 4, 6, 8}
    ensures !AllEmpty(board) && !CheckGameOver(board).isOver ==>
              r == AlphaBeta(board, 0, true, NegInfinity, PosInfinity).move && r.Some?
    ensures r.Some? ==> board[r.value] == Empty
    ensures r.None? <==> Full(board)
    ensures !AllEmpty(board) && CheckGameOver(board).isOver && !Full(board) ==>
              r == Some(AvailableMoves(board)[0])
  {
    if AllEmpty(board) {
      return Some(OpeningMoves[pick]);
    }
    var score, move;
    ghost var explored;
    score, move, explored := Minimax(board, 0, true, NegInfinity, PosInfinity);
    if move.Some? {
      r := move;
    } else {
      var available := AvailableMoves(board);
      r := if available == [] then None else Some(available[0]);
    }
  }
}
