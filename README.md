# Tic-tac-toe against the computer: the move engine and the game state

This project models, and proves properties of, the two pieces of logic of a
single-player tic-tac-toe web game:

* the **computer opponent** (`src/utils/aiOpponent.ts`): the win/draw detector
  `checkGameOver`, the list of legal moves `getAvailableMoves`, the copy-and-set
  board update `makeMove` (`BoardModel.Place`, shared with the hook), the `minimax` search with alpha-beta pruning and a
  depth cap of 9, and `getBestMove`, which opens on a corner or the centre and
  otherwise plays minimax's move;
* the **game state** of the `useGameState` hook (`src/hooks/useGameState.ts`):
  board, player to move, status, winner and winning line, with the guarded
  `makeMove(index)` transition and `resetGame`.

The board is nine cells in row-major order, each `X` (the human), `O` (the
computer) or empty (`null` in the source). Both source files carry their own
copy of the table of the eight winning lines; the model defines the table and
the scan that finds the first complete line once, in `board.dfy`
(module `BoardModel`), and both detectors are built on it.

Files:

* `board.dfy` — `BoardModel`: cells, boards, the line table, the first
  complete line, counting markers.
* `ai_opponent.dfy` — `AiOpponent`: the move engine. The value of a search is
  defined once, as the ghost function `AlphaBeta`: the terminal and depth-cap
  cases, otherwise a fold of the side to move over the available moves in
  order (`MaxFold`, `MinFold`). A fold step scores the next child with the
  window the loop has reached, keeps it only if it strictly beats the best so
  far (`Keep`), moves alpha (or beta), and stops once beta <= alpha. The folds
  take the children's values as a scorer function (`MaxChildren`,
  `MinChildren`, each the search of the board after the move, one ply
  deeper), so the facts about a fold are proved once for any scorer.
  `minimax` is an imperative method; its two `for` loops are the methods
  `MaximizeOver` and `MinimizeOver`, and the recursive call
  `minimax(makeMove(board, move, p), depth + 1, ...)` is `ScoreOfMove`. Each
  is proved to compute exactly the corresponding part of `AlphaBeta`. A ghost
  result `explored` lists the scores of the children the search evaluated, in
  move order, so that the contracts can say which move is kept.
  `-Infinity`/`Infinity` are the integers -100/100, outside every score.
  `Math.random()` is the parameter `pick` in [0, 5).
* `game_state.dfy` — `GameState`: `checkGameStatus` as a function and the hook's
  state as the class `Game` with fields `board` (an array of nine cells),
  `currentPlayer`, `status`, `winner` and `winningLine`. `makeMove` builds a
  fresh copy of the board, as the source's `[...gameState.board]` does, and
  replaces the field; `resetGame` installs a fresh empty board.
  `Valid()` is the invariant every state satisfies: turns alternate, status and
  winning line are what `checkGameStatus` computes from the board, and the
  winner is the player who moved last exactly when the game is won.

The code has no difficulty tiers, score counters, "AI is thinking"
flag or delayed computer move: `getBestMove` always runs the full search, and
neither the hook nor the components call it.

## Model

| member | source | states |
|---|---|---|
| `BoardModel.FirstCompleteFrom` | src/utils/aiOpponent.ts:18-22 | the scan from table position k returns the first position at or after k whose three cells hold the same marker, or nothing when no later line is complete |
| `BoardModel.FirstComplete` | src/hooks/useGameState.ts:41-46 | the scan over the whole table finds a line exactly when some line is complete (`HasWin`), and then the first one in table order |
| `BoardModel.FirstCompleteIsUnique` | src/hooks/useGameState.ts:41-46 | only one table position can be the first complete line, so "the first line in table order" is well defined even on a board with several complete lines |
| `BoardModel.CountOfUpdate` | src/utils/aiOpponent.ts:44-48 | overwriting one cell lowers the count of the old value by one and raises the count of the new value by one |
| `BoardModel.PlaceFillsOneCell` | src/utils/aiOpponent.ts:44-48 | placing a marker on an empty cell leaves one empty cell fewer and one more of that marker, the other marker's count unchanged |
| `BoardModel.CountOfZeroIffAbsent` | src/utils/aiOpponent.ts:25 | a value is counted zero times exactly when it does not occur, so a board is full exactly when no empty cell is left |
| `BoardModel.NewLineHoldsMover` | src/hooks/useGameState.ts:65-70 | a line completed by placing marker m on an empty cell of a board with no complete line passes through that cell and holds m |
| `AiOpponent.CheckGameOver` | src/utils/aiOpponent.ts:16-31 | winner is non-empty iff some line is complete, and is then the marker of the first complete line in table order; over iff a line is complete or the board is full; a draw (over, no winner) exactly when the board is full with no complete line; so every board is in exactly one of in progress, draw, won by its first line's marker |
| `AiOpponent.AvailableBelow` | src/utils/aiOpponent.ts:35-40 | the `reduce` over the first n cells returns exactly the indices below n whose cell is empty, strictly ascending |
| `AiOpponent.AvailableMoves` | src/utils/aiOpponent.ts:34-41 | exactly the indices of empty cells, strictly ascending and so without duplicates; empty exactly when the board is full |
| `BoardModel.Place` | src/utils/aiOpponent.ts:44-48 | `makeMove`: the new board has the player's marker at the index and every other cell unchanged; the input board is a value and cannot change |
| `AiOpponent.PlaceRemovesMove` | src/utils/aiOpponent.ts:44-48 | a marker placed on an empty cell removes exactly that index from the available moves |
| `AiOpponent.KeepPreserves` | src/utils/aiOpponent.ts:83-86 | keeping a child's score (replacing the best only on a strict improvement) moves the loop from "after i children" to "after i + 1 children": the best score is the best explored one, its move that of the first child reaching it, the first child always replaces the start value, and the best never gets worse for the side to move |
| `AiOpponent.MaxChildren` | src/utils/aiOpponent.ts:79-81 | the children of a maximising node are the searches of O's moves one ply deeper with X to move and the node's beta; every available move can be scored |
| `AiOpponent.MinChildren` | src/utils/aiOpponent.ts:95-97 | the children of a minimising node are the searches of X's moves one ply deeper with O to move and the node's alpha; every available move can be scored |
| `AiOpponent.AlphaBetaBound` | src/utils/aiOpponent.ts:51-111 | the search value of a position at depth 0..9 lies in [-(10 - depth), 10 - depth], hence in [-10, 10] and strictly between -Infinity and Infinity |
| `AiOpponent.ChildrenWithin` | src/utils/aiOpponent.ts:79-81 | below the depth cap every child of a node at depth d, with whatever window it is given, scores within [-(9 - d), 9 - d] |
| `AiOpponent.ChildScoreBound` | src/utils/aiOpponent.ts:80-81 | the recursive call's score after playing an empty cell at depth d < 9 lies in [-(9 - d), 9 - d] |
| `AiOpponent.MaxFoldBound` | src/utils/aiOpponent.ts:76-91 | when every child scores within [-bound, bound], so does the maximising loop's result, since the first child always replaces -Infinity |
| `AiOpponent.MinFoldBound` | src/utils/aiOpponent.ts:92-107 | when every child scores within [-bound, bound], so does the minimising loop's result, since the first child always replaces Infinity |
| `AiOpponent.MaxFoldFacts` | src/utils/aiOpponent.ts:76-91 | the maximising loop, resumed from any state it can reach, ends with at least one child explored, its best score the best explored score and its move the first child reaching it, and it stops short of the last move only when beta <= max(alpha, best) |
| `AiOpponent.MinFoldFacts` | src/utils/aiOpponent.ts:92-107 | the minimising loop, resumed from any state it can reach, ends with at least one child explored, its best score the best (lowest) explored score and its move the first child reaching it, and it stops short of the last move only when min(beta, best) <= alpha |
| `AiOpponent.MaxOutcome` | src/utils/aiOpponent.ts:76-91 | on a board with an empty cell, the maximising loop from -Infinity returns a move on an empty cell, the first with the best explored score, stops early only at a cutoff, and scores within [-(9 - depth), 9 - depth] |
| `AiOpponent.MinOutcome` | src/utils/aiOpponent.ts:92-107 | on a board with an empty cell, the minimising loop from Infinity returns a move on an empty cell, the first with the lowest explored score, stops early only at a cutoff, and scores within [-(9 - depth), 9 - depth] |
| `AiOpponent.AlphaBetaFacts` | src/utils/aiOpponent.ts:58-110 | the search value of a finished board is 10 - depth if O won, depth - 10 if X won, 0 for a draw, with no move; at depth 9 or more it is 0 with no move; otherwise it has a move on an empty cell, at least one explored child, the best explored score reached first by that move, and fewer children than moves only at a cutoff |
| `AiOpponent.Minimax` | src/utils/aiOpponent.ts:51-111 | the imperative search returns exactly the search value `AlphaBeta` (score, move and explored child scores); hence on a finished board 10 - depth / depth - 10 / 0 with no move, at depth 9 or more 0 with no move, otherwise a move on an empty cell that is the first child with the best explored score, an early stop only at a cutoff (beta <= alpha), and for depth in [0, 9] a score in [-(10 - depth), 10 - depth]; terminates because every recursive call has one empty cell fewer |
| `AiOpponent.ScoreOfMove` | src/utils/aiOpponent.ts:80-81 | the recursive call returns exactly the search value of the board after the move, one ply deeper with the other side to move and the given window, and that score lies in [-(9 - depth), 9 - depth] |
| `AiOpponent.MaximizeOver` | src/utils/aiOpponent.ts:76-91 | the maximising loop computes exactly the maximising fold over the available moves from -Infinity: each child is scored with the alpha reached so far, a later equal score does not replace the first move, and it breaks at the first child after which beta <= alpha; hence a move on an empty cell with the best explored score, within [-(9 - depth), 9 - depth] |
| `AiOpponent.MinimizeOver` | src/utils/aiOpponent.ts:92-107 | the minimising loop computes exactly the minimising fold over the available moves from Infinity: each child is scored with the beta reached so far, a later equal score does not replace the first move, and it breaks at the first child after which beta <= alpha; hence a move on an empty cell with the lowest explored score, within [-(9 - depth), 9 - depth] |
| `AiOpponent.GetBestMove` | src/utils/aiOpponent.ts:114-122 | on an all-empty board the move is the picked one of the corners and the centre {0, 2, 4, 6, 8}; on any other board still in progress it is the move of the full-window search from depth 0 with O to move; every returned move is an empty cell; there is no move (`undefined`) exactly when the board is full; on a finished board that is not full it is the first empty cell |
| `GameState.CheckGameStatus` | src/hooks/useGameState.ts:39-55 | won iff some line is complete, with the first complete line in table order as winning line; draw iff no line is complete and the board is full; playing otherwise; a winning line exactly when won |
| `GameState.StatusAgreesWithGameOver` | src/hooks/useGameState.ts:39-55 | the hook's status is not playing exactly when the engine's detector says the game is over, it is won exactly when the detector reports a winner, and that winner is the marker on the hook's winning line |
| `GameState.TurnStep` | src/hooks/useGameState.ts:66-75 | if X has made as many moves as O or one more and it is the human's turn iff the counts are equal, placing the mover's marker on an empty cell and passing the turn keeps that so |
| `GameState.WinnerIsMover` | src/hooks/useGameState.ts:70-77 | a move that wins a game in progress wins with a line through the cell just played, holding the mover's marker |
| `GameState.InitialIsConsistent` | src/hooks/useGameState.ts:30-36 | the initial state (nine empty cells, human to move, playing, no winner, no line) satisfies the state invariant |
| `GameState.MoveIsConsistent` | src/hooks/useGameState.ts:64-79 | from a consistent state in progress, the accepted move's new state (marker placed, turn passed, status and line recomputed, the mover as winner iff won) is consistent again |
| `GameState.Game.constructor` | src/hooks/useGameState.ts:30-36 | the hook's initial state: nine empty cells, `currentPlayer` human, status playing, no winner, no winning line; the invariant holds |
| `GameState.Game.MakeMove` | src/hooks/useGameState.ts:58-82 | the move is accepted iff the status is playing, the index is on the board and its cell is empty; a rejected move returns false and changes nothing; an accepted move returns true, replaces the board by a fresh copy with X (human to move) or O (computer to move) at the index and every other cell unchanged, flips the player, records the recomputed status and winning line, sets the winner to the player who moved iff the game is now won (else none), the winning line then passing through the cell played; the invariant (alternating marker counts, consistent status, winner and line) is preserved |
| `GameState.Game.ResetGame` | src/hooks/useGameState.ts:85-93 | from any state, restores exactly the initial state on a fresh empty board; since the result does not depend on the prior state, resetting twice gives the same state as resetting once |

## Left out

- React plumbing: `useState`, `useCallback` memoisation and the hook's returned object are replaced by the fields and methods of one `Game` object; the components under `src/components/` and `src/app/page.tsx` only render and log, and are not modelled.
- `Math.random()` in `getBestMove` is the parameter `pick`, assumed in [0, 5) as `Math.floor(Math.random() * 5)` is; the choice itself is not modelled.
- JavaScript's `-Infinity`/`Infinity` are the integers -100/100; since every score is in [-10, 10] the comparisons behave the same. No floating point is modelled.
- Boards are exactly nine cells and engine indices are in [0, 9): the source's functions accept arrays of any length, but nothing in it builds another length.
- GameState.Game.MakeMove: the index is an integer; a fractional JavaScript index, which also reads as `undefined` and is rejected, is not modelled.
- `getBestMove` returns `undefined` on a full board (`getAvailableMoves(board)[0]` of an empty list); the model returns `None` there. Neither the hook nor the components call `getBestMove`.
- AiOpponent.Minimax: does not state that its score equals the unpruned minimax value, that the strategy is optimal, or that it never loses; these game-theoretic facts are not claimed by the code and are not proved. For the same reason the opening scenario in which the computer must block at cell 2 is not proved: it would need the search tree evaluated.
