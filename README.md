# Alpha-beta agent for 4x8 mini-chess, modelled in Dafny

The model covers the move-selection agent of `B23CM1046.py`: the root loop
of `get_best_move`, the recursive depth-limited alpha-beta search
`_alphabeta` with its two move loops, the static evaluator
`evaluate_board`, and its helpers `_pst_value` and `_has_king`. It also
models the agent's `nodes_expanded` and `root_is_white` state and the
time check `_out_of_time`.

The model has seven modules:

- `Scores` (`scores.dfy`): the extended integers. A score is −∞, a finite
  integer or +∞, because the search seeds its running values and its window
  with `math.inf`. The module defines the order on scores and `Max`/`Min`.
- `Boards` (`board.dfy`): the board collaborator, seen from the engine.
  Move generation, game-state classification and check detection are
  arbitrary total functions of the position: the `Rules` record.
  - The class `Board` holds the current position and a history stack.
  - `MakeMove` replaces the position by its successor and pushes the old one.
  - `UndoMove` pops it back.
  - A ghost `trace` records every applied move.
- `Evaluator` (`evaluator.dfy`): the evaluation as functions of a
  `Config`. The config holds the board dimensions, the piece values and
  the four piece-square tables.
  - `PstValue` is the mirrored, sign-flipped lookup of `_pst_value`.
  - `Material` is the row-by-row sum over the grid.
  - `KingTerm` and `CheckTerm` are the ±300 and ±2 adjustments.
  - `Evaluation` applies them in the program's order: the check term is
    added to the white-perspective sum, and the whole sum is then negated
    for a black root.
  - So the check term's sign depends on the colour of the side to move, not
    on the root side. For a black root that is to move and in check, the
    evaluation is 2 higher than out of check. The class docstring
    (`B23CM1046.py:14`) and the comment at `B23CM1046.py:75` describe a
    penalty for the side in check. The model follows the code as written,
    and `BlackRootRewardedForBeingInCheck` proves the +2.
- `Search` (`search.dfy`): the search as pure functions of the position.
  - `AlphaBeta` and `MoveLoop` are the pruned search. `RootLoop` and
    `SelectMove` are the root loop.
  - `Minimax` is the unpruned, untimed reference.
  - The time check is an oracle `clock: nat -> bool`: the `k`-th poll of a
    move selection finds the budget spent exactly when `clock(k)` holds.
    `AlphaBeta`, `MoveLoop`, `RootLoop` and `SelectMove` thread the poll
    count and report how many moves they applied. `Minimax`, `ChildValues`,
    `Leaf` and `Fold` make no polls.
  - The module proves fail-soft soundness of pruning against `Minimax`, and
    that the chosen move is the first move of greatest minimax value. It
    also proves the earliest-tie rule with and without timeouts.
- `CompleteRoot` (`complete_root.dfy`): the root loop when the clock cuts
  a search short, and its correction (see "## Findings").
  - `TimedOutMoveBeatsMate` shows the program as written choosing a move
    whose search was cut off over a mate.
  - `CompletedRootLoop` and `CompletedSelectMove` compare only moves whose
    search found the time left at every poll, and stop at the first move
    whose search did not.
  - Everything else in the model, the `Engine` included, follows the code
    as written.
- `SearchSteps` (`steps.dfy`): the search functions cut into the steps
  the agent's loops take. Each step lemma turns one loop invariant into
  the next.
- `Engine` (`engine.dfy`): the class `Agent` with the program's fields
  and its methods. Each method loops and updates fields as the program
  does. It is proved against the function of `Search` or `Evaluator` that
  specifies it, and it leaves the board's position and history as it found
  them. `SearchChild` holds the make / count / recurse / undo sequence that
  the root loop and both inner loops share.

Facts the agent's loops only pass from one lemma to the next are written
under the quantifier `forall k {:trigger Expand(k)} :: Expand(k) ==> ...`.
The solver opens them only in a proof that mentions `Expand(0)` or that
proves such a fact. The predicates `Searched`, `Remaining`,
`RootRemaining`, `LoopInv`, `EvaluatesAs` and `EarliestAfter` are written
this way.

## Model

| member | source | states |
|---|---|---|
| Engine.Agent.constructor | B23CM1046.py:18-24 | a new agent has depth 3, a white root and no nodes expanded, on the given board |
| Engine.Agent.GetBestMove | B23CM1046.py:28-53 | resets the node count and the poll count, and records the side to move as the root side. Returns exactly what `SelectMove` selects: no move when there is no legal move, otherwise a legal move. The final node and poll counts equal `SelectMove`'s. Board position and history are as on entry, and one move was applied per counted node. |
| Engine.Agent.SearchRoot | B23CM1046.py:38-52 | the root loop ends as `RootLoop` from index 0, −∞, −∞: the returned move is the legal move at the chosen index. Polls and nodes are as `RootLoop` counts them, and the board is restored after every move, on a timeout break too. |
| Engine.Agent.EvaluateBoard | B23CM1046.py:55-87 | the score is `Evaluation` of the current position: the material and piece-square sum over the non-empty cells, plus the check term and the two king terms, negated for a black root. The method changes nothing. |
| Engine.Agent.AlphaBeta | B23CM1046.py:91-138 | the value, the polls and the number of applied moves are those of the function `Search.AlphaBeta` at the current position. The board's position and history are restored, and the trace grows by the node count. |
| Engine.Agent.SearchMax | B23CM1046.py:109-123 | the maximizing loop ends with the outcome of `MoveLoop` from −∞ with the given window. This holds whether it breaks on a cutoff, breaks on a timeout or runs out of moves, and the board is restored. |
| Engine.Agent.SearchMin | B23CM1046.py:124-138 | the minimizing loop ends with the outcome of `MoveLoop` from +∞, with the same guarantees as the maximizing loop |
| Engine.Agent.SearchChild | B23CM1046.py:114-119 | applies the move, counts one node, searches the successor and undoes the move. The value and polls are those of `Search.AlphaBeta` at the successor, and position and history are as on entry. |
| Engine.Agent.HasKing | B23CM1046.py:162-168 | true exactly when some cell with row below the height and column below the width holds the king of that colour |
| Engine.Agent.OutOfTime | B23CM1046.py:170-171 | reports the clock oracle at the current poll and advances the poll count by one |
| Boards.Board.MakeMove | B23CM1046.py:45 | the position becomes the successor under the move, the old position is pushed on the history, and the move is traced |
| Boards.Board.UndoMove | B23CM1046.py:48 | with a non-empty history, the position becomes the top of the history and the top is popped |
| Search.Leaf | B23CM1046.py:95-107 | a node is searched further exactly when its state is normal, the depth is positive and some move is legal. Checkmate gives a score that is negative exactly when the side to move is the root side. Every other leaf gives the static evaluation. |
| Search.AlphaBeta | B23CM1046.py:91-138 | every call polls the clock at least once |
| Search.MoveLoop | B23CM1046.py:109-138 | the poll count never decreases, at most the remaining moves are examined, and each examined move expands at least one node |
| SearchSteps.AlphaBetaLeaves | B23CM1046.py:92-107 | a poll that finds the time spent returns the evaluation. Checkmate returns −1,000,000 when the side to move is the root side and +1,000,000 otherwise. Stalemate, depth 0 and an empty move list return the evaluation. Each of these takes one poll and applies no move. |
| SearchSteps.MoveLoopAdvances | B23CM1046.py:114-122 | after one examined move, either alpha ≥ beta and the loop ends with the combined value, or the loop continues from the next move with the updated window |
| SearchSteps.RootLoopAdvances | B23CM1046.py:45-52 | after one root move the chosen move changes only on a strict improvement, and alpha becomes the maximum of alpha and the returned value |
| Search.MoveLoopChild | B23CM1046.py:116-120 | one loop step combines the child's value into the running value and narrows the window. A maximizing step never lowers the running value or alpha and keeps beta. A minimizing step never raises the running value or beta and keeps alpha. |
| Search.LoopValueIsBestOfExamined | B23CM1046.py:109-138 | a move loop returns the fold of `max` (or `min`) over its starting value and the values of the children it actually examined, in order, and it examines at most the remaining moves |
| Search.FoldIsBest | B23CM1046.py:116-118 | that fold is on the right side of its start and of every examined value, and it equals one of them |
| Search.AlphaBetaSound | B23CM1046.py:91-138 | with no timeout and a non-empty window, the result is fail-soft for the minimax value. At or below alpha, the result lies between the value and alpha. At or above beta, it lies between beta and the value. Strictly inside the window, it is the value. |
| Search.FullWindowIsExact | B23CM1046.py:91-138 | with no timeout and the window (−∞, +∞), the search returns the minimax value |
| Search.SelectMove | B23CM1046.py:34-53 | no move exactly when the root has no legal move; otherwise the selected move is one of the legal moves |
| Search.RootLoop | B23CM1046.py:38-52 | the chosen index is a valid index of the move list, and it is the starting index or one examined later. At most the remaining moves are examined. |
| Search.SelectMoveKeepsEarliestBest | B23CM1046.py:42-52 | with or without a timeout, the selected move is the first root move whose returned value is the largest among the moves examined, or the first legal move when none was examined. After a timeout, an examined value can be the −∞ or +∞ seed of an interrupted search rather than a searched value. |
| CompleteRoot.TimedOutMoveBeatsMate | B23CM1046.py:42-52 | two root moves at depth 3: the first mates at once, the second leads to a position with replies, and the clock reports the time spent from poll 4 on. Then the root records the mate score and then +∞, the seed of the minimizing loop cut at its first poll, and selects the second move |
| CompleteRoot.CompletedSearchIsFinite | B23CM1046.py:91-138 | a search that finds the time left at every one of its polls returns a finite value, never a seed |
| CompleteRoot.CompletedRootLoop | B23CM1046.py:38-52 | corrected root loop. The chosen index is valid and is the starting index or one compared later, at most the remaining moves are compared, and every compared value is finite |
| CompleteRoot.CompletedSelectMove | B23CM1046.py:28-53 | corrected selection: no move exactly when the root has no legal move, otherwise one of the legal moves |
| CompleteRoot.CompletedSelectionKeepsEarliestBest | B23CM1046.py:42-52 | the corrected selection is the first move of greatest value among the moves it compared, each compared value is finite, and it is the first legal move when none was compared |
| CompleteRoot.CompletedSelectionKeepsMate | B23CM1046.py:42-52 | on the input of `TimedOutMoveBeatsMate`, the corrected selection is the mating move |
| CompleteRoot.CompletedAgreesWithoutTimeout | B23CM1046.py:38-52 | when no poll finds the time spent, the corrected selection equals the program's: the same move, polls and applied moves |
| Search.FirstPollTimeoutKeepsFirstMove | B23CM1046.py:38-44 | when the first poll finds the time spent, the first legal move is returned after one poll and with no node expanded |
| Search.BestMoveIsFirstMinimaxMove | B23CM1046.py:42-52 | with no timeout, the selected move is the first root move of greatest unpruned minimax value: pruning does not change the decision |
| Search.FirstMaximumUnique | B23CM1046.py:49-51 | the first-greatest-value characterisation of the chosen move determines a single index |
| Search.MateDominatesEvaluation | B23CM1046.py:96-101 | when every square contributes at most `bound` and a full board of such squares plus 302 stays below 1,000,000, every evaluation lies strictly between the two mate scores |
| Evaluator.PstMirror | B23CM1046.py:142-159 | for pawn, knight, bishop and king, the black piece's bonus on row r is the negated bonus of the white piece on row height−1−r, and back |
| Evaluator.PstValue | B23CM1046.py:142-160 | the empty square and any piece kind without a table get 0. A white pawn, knight, bishop or king reads its table at (r, c). The black piece reads the same table at the mirrored row height−1−r, negated. |
| Evaluator.KingPresent | B23CM1046.py:162-168 | a king reported present stands on a non-empty board, in some row of the grid |
| Evaluator.KingTerm | B23CM1046.py:81-85 | each missing king shifts the white-perspective sum by 300: −300 for a missing white king, +300 for a missing black king, 0 when both stand |
| Evaluator.CheckTerm | B23CM1046.py:74-79 | the check adjustment is nonzero exactly when the side to move is in check. It is negative exactly when, in addition, the side to move is the root side, and it is always 0, 2 or −2. |
| Evaluator.Evaluation | B23CM1046.py:55-87 | the evaluation is the white-perspective material and king sum, negated for a black root, plus a check effect that does not depend on the root: −2 when white is to move and in check, +2 when black is |
| Evaluator.KingTermsAdditive | B23CM1046.py:81-87 | the king terms are added to the rest of the sum and never replace it: the evaluation is the oriented material-and-check sum plus the oriented king term |
| Evaluator.BlackRootRewardedForBeingInCheck | B23CM1046.py:73-87 | so for a black root that is to move and in check, the evaluation is 2 higher than for the same position out of check |
| Evaluator.EvaluationBound | B23CM1046.py:55-87 | when every square contributes at most `bound`, the evaluation is at most height × width × bound + 302 in magnitude |
| Scores.Max | B23CM1046.py:52 | `max` on extended integers is an upper bound of both arguments and equals one of them |
| Scores.Min | B23CM1046.py:135 | `min` on extended integers is a lower bound of both arguments and equals one of them |

## Left out

- The wall clock: `time.time()`, the 1.2-second `time_budget` and `start_time`.
  - They are replaced by the oracle `clock`, read as `clock(k)` at the `k`-th poll of a move selection.
  - Resetting the poll count stands for taking the start time.
  - The oracle is arbitrary, so monotonicity of real time is not assumed.
- The collaborators in `board.py` and `config.py` are not part of this model.
  - Move generation, legality, check detection, game-state classification and the internals of make/undo are the total functions of `Rules`.
  - The piece values, the tables and the board dimensions are the fields of `Config`.
  - Results that depend on their contents are not claimed, such as colour symmetry of the evaluation or the choice of a king capture at depth 1.
- Engine.Agent.GetBestMove: requires `depth >= 1`.
  - With a depth of 0 or less, the program searches the children at a negative depth, where `depth == 0` never holds, so only the clock and terminal positions end the search.
  - Depths are natural numbers in this model.
- Lookups outside the grid read as an empty square, and lookups outside a table read as 0. Python would raise on a ragged grid or table, or wrap a negative index. With tables of the board's dimensions no such lookup happens.
- Floating-point infinities: −∞ and +∞ are the sentinels of `Score`, and the integer scores are unbounded as in Python.
- Piece identities are `Cell` values, a kind and a colour, in place of the program's piece constants.
- The unused `Move` import and the docstrings add no behaviour.

## Findings

| source | as written | input that shows it | evidently intended | confidence | as-written member | corrected member |
|---|---|---|---|---|---|---|
| B23CM1046.py:124-128 | a minimizing loop whose first poll finds the time spent returns its seed +∞ unsearched, and the root loop (lines 49-51) counts that value as a strict improvement | depth 3, root moves m0 and m1; m0 mates at once (+1,000,000); after m1 the position is normal with replies; the clock reports the time spent from poll 4 on. The root selects m1. | a move whose search was cut off by the clock is not compared, so the root keeps the best fully searched move, here the mate m0 | not executed | CompleteRoot.TimedOutMoveBeatsMate | CompleteRoot.CompletedSelectMove |
