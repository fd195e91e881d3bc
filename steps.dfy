/** The search functions of `Search`, cut into the steps the agent's loops
    take.  The agent's methods keep, as loop invariants, facts of the form
    "what remains of this loop from move `i` on, in this state, ends with
    outcome `w`", and each step lemma below turns one such fact into the
    next.

    The facts are stated under a quantifier whose only trigger is
    `Expand(k)`.  The solver opens them where a proof mentions `Expand(0)`,
    that is in the step lemmas, and treats them as plain propositions in
    the agent's methods, whose proofs then only relay them from one lemma
    to the next. */
module SearchSteps {
  import opened Scores
  import opened Boards
  import opened Search

  /** The alpha-beta call at `pos` with poll counter `t` has outcome `o`.
      Since `Expand(0)` holds and `Expand(k)` holds for no other `k`, this
      says exactly `AlphaBeta(ctx, pos, depth, alpha, beta, maximizing, t) == o`;
      the quantifier only keeps the solver from unfolding it. */
  ghost predicate Searched(ctx: Ctx, pos: Position, depth: nat, alpha: Score, beta: Score, maximizing: bool,
                           t: nat, o: Outcome) {
    forall k: nat {:trigger Expand(k)} :: Expand(k) ==> AlphaBeta(ctx, pos, depth, alpha, beta, maximizing, t) == o
  }

  /** The outcome `w` of a move loop is what remains of it from move `i` on,
      after `done` moves applied before.  Equivalent to `w` being the
      `MoveLoop` outcome from `i` with `done` added to its node count; the
      quantifier over `Expand` only keeps the solver from unfolding it. */
  ghost predicate Remaining(ctx: Ctx, pos: Position, moves: seq<Move>, i: nat, depth: nat,
                            value: Score, alpha: Score, beta: Score, maximizing: bool, t: nat,
                            w: Outcome, done: nat)
    requires i <= |moves| && depth >= 1
  {
    forall k: nat {:trigger Expand(k)} :: Expand(k) ==>
      var r := MoveLoop(ctx, pos, moves, i, depth, value, alpha, beta, maximizing, t);
      w == Outcome(r.value, r.polls, done + r.nodes)
  }

  // ---------------------------------------------------------------------
  // Inner nodes

  /** The three ways an alpha-beta call returns without expanding its node:
      the poll finds the time spent, the position is checkmate, or it is
      stalemate, at the horizon or without moves. */
  lemma AlphaBetaLeaves(ctx: Ctx, pos: Position, depth: nat, alpha: Score, beta: Score, maximizing: bool, t: nat)
    ensures ctx.clock(t) ==>
      Searched(ctx, pos, depth, alpha, beta, maximizing, t, Outcome(Fin(StaticEval(ctx, pos)), t + 1, 0))
    ensures !ctx.clock(t) && ctx.rules.gameState(pos) == Checkmate ==>
      Searched(ctx, pos, depth, alpha, beta, maximizing, t,
               Outcome(Fin(if pos.whiteToMove == ctx.rootWhite then -MateScore else MateScore), t + 1, 0))
    ensures !ctx.clock(t) && ctx.rules.gameState(pos) != Checkmate
            && (ctx.rules.gameState(pos) == Stalemate || depth == 0 || ctx.rules.legalMoves(pos) == []) ==>
      Searched(ctx, pos, depth, alpha, beta, maximizing, t, Outcome(Fin(StaticEval(ctx, pos)), t + 1, 0))
  {
  }

  /** An alpha-beta call at a node it expands has the outcome of its move
      loop, begun one poll later from -inf (maximizing) or +inf. */
  lemma AlphaBetaExpands(ctx: Ctx, pos: Position, depth: nat, alpha: Score, beta: Score, maximizing: bool, t: nat,
                         w: Outcome)
    requires !ctx.clock(t) && Leaf(ctx, pos, depth).None? && depth >= 1
    requires Remaining(ctx, pos, ctx.rules.legalMoves(pos), 0, depth, if maximizing then NegInf else PosInf,
                       alpha, beta, maximizing, t + 1, w, 0)
    ensures Searched(ctx, pos, depth, alpha, beta, maximizing, t, w)
  {
    assert Expand(0);
  }

  /** The outcome a move loop has from move `i` on. */
  lemma MoveLoopTarget(ctx: Ctx, pos: Position, moves: seq<Move>, i: nat, depth: nat,
                       value: Score, alpha: Score, beta: Score, maximizing: bool, t: nat) returns (w: Outcome)
    requires i <= |moves| && depth >= 1
    ensures Remaining(ctx, pos, moves, i, depth, value, alpha, beta, maximizing, t, w, 0)
  {
    var r := MoveLoop(ctx, pos, moves, i, depth, value, alpha, beta, maximizing, t);
    w := Outcome(r.value, r.polls, r.nodes);
  }

  /** A loop that has run out of moves, or whose poll finds the time spent,
      returns its running value. */
  lemma MoveLoopStops(ctx: Ctx, pos: Position, moves: seq<Move>, i: nat, depth: nat,
                      value: Score, alpha: Score, beta: Score, maximizing: bool, t: nat,
                      w: Outcome, done: nat)
    requires i <= |moves| && depth >= 1
    requires Remaining(ctx, pos, moves, i, depth, value, alpha, beta, maximizing, t, w, done)
    ensures i == |moves| ==> w == Outcome(value, t, done)
    ensures i < |moves| && ctx.clock(t) ==> w == Outcome(value, t + 1, done)
  {
    assert Expand(0);
  }

  /** One examined move, the child at `childPos` searched from poll `tc`:
      the loop either cuts off with the combined value or goes on from the
      next move with the updated window `alpha'`, `beta'`. */
  lemma MoveLoopAdvances(ctx: Ctx, pos: Position, moves: seq<Move>, i: nat, depth: nat,
                         value: Score, alpha: Score, beta: Score, maximizing: bool, t: nat,
                         w: Outcome, done: nat, childPos: Position, tc: nat, child: Outcome,
                         value': Score, alpha': Score, beta': Score, done': nat)
    requires i < |moves| && depth >= 1 && !ctx.clock(t)
    requires Remaining(ctx, pos, moves, i, depth, value, alpha, beta, maximizing, t, w, done)
    requires childPos == ctx.rules.apply(pos, moves[i]) && tc == t + 1
    requires Searched(ctx, childPos, depth - 1, alpha, beta, !maximizing, tc, child)
    requires value' == Combine(maximizing, value, child.value)
    requires alpha' == (if maximizing then Max(alpha, value') else alpha)
    requires beta' == (if maximizing then beta else Min(beta, value'))
    requires done' == done + 1 + child.nodes
    ensures Le(beta', alpha') ==> w == Outcome(value', child.polls, done')
    ensures !Le(beta', alpha') ==>
      Remaining(ctx, pos, moves, i + 1, depth, value', alpha', beta', maximizing, child.polls, w, done')
  {
    assert Expand(0);
  }

  // ---------------------------------------------------------------------
  // The root

  /** The root loop's running state: the chosen index, its value, alpha,
      the poll counter and the moves applied so far. */
  datatype RootState = RootState(best: nat, bestVal: Score, alpha: Score, polls: nat, done: nat)

  /** The outcome `w` of the root loop is what remains of it from move `i`
      on, in state `s`.  Equivalent to `w`'s best index and poll count being
      those of `RootLoop` from `i` in state `s`, and its node count being
      `s.done` plus `RootLoop`'s; the quantifier over `Expand` only keeps the
      solver from unfolding it. */
  ghost predicate RootRemaining(ctx: Ctx, pos: Position, moves: seq<Move>, depth: nat, i: nat,
                                s: RootState, w: RootOutcome)
    requires depth >= 1 && i <= |moves| && s.best < |moves|
  {
    forall k: nat {:trigger Expand(k)} :: Expand(k) ==>
      var r := RootLoop(ctx, pos, moves, depth, i, s.best, s.bestVal, s.alpha, s.polls);
      (w.best, w.polls, w.nodes) == (r.best, r.polls, s.done + r.nodes)
  }

  /** The outcome the root loop has from its start, with poll counter `t`. */
  lemma RootLoopTarget(ctx: Ctx, pos: Position, moves: seq<Move>, depth: nat, t: nat) returns (w: RootOutcome)
    requires depth >= 1 && moves != []
    ensures w.best < |moves|
    ensures RootRemaining(ctx, pos, moves, depth, 0, RootState(0, NegInf, NegInf, t, 0), w)
  {
    w := RootLoop(ctx, pos, moves, depth, 0, 0, NegInf, NegInf, t);
  }

  /** The root loop keeps its current choice when it runs out of moves or time. */
  lemma RootLoopStops(ctx: Ctx, pos: Position, moves: seq<Move>, depth: nat, i: nat,
                      s: RootState, w: RootOutcome)
    requires depth >= 1 && i <= |moves| && s.best < |moves|
    requires RootRemaining(ctx, pos, moves, depth, i, s, w)
    ensures i == |moves| ==> w.best == s.best && w.polls == s.polls && w.nodes == s.done
    ensures i < |moves| && ctx.clock(s.polls) ==> w.best == s.best && w.polls == s.polls + 1 && w.nodes == s.done
  {
    assert Expand(0);
  }

  /** One examined root move, the child at `childPos` searched from poll
      `tc` with window (`alpha`, `beta`): the choice moves to it on a strict improvement, and alpha rises
      to its value. */
  lemma RootLoopAdvances(ctx: Ctx, pos: Position, moves: seq<Move>, depth: nat, i: nat,
                         s: RootState, w: RootOutcome, childPos: Position, tc: nat, alpha: Score, beta: Score,
                         child: Outcome, s': RootState)
    requires depth >= 1 && i < |moves| && s.best < |moves| && !ctx.clock(s.polls)
    requires RootRemaining(ctx, pos, moves, depth, i, s, w)
    requires childPos == ctx.rules.apply(pos, moves[i]) && tc == s.polls + 1
    requires alpha == s.alpha && beta == PosInf
    requires Searched(ctx, childPos, depth - 1, alpha, beta, false, tc, child)
    requires var improved := Lt(s.bestVal, child.value);
      s' == RootState(if improved then i else s.best, if improved then child.value else s.bestVal,
                      Max(s.alpha, child.value), child.polls, s.done + 1 + child.nodes)
    ensures s'.best < |moves|
    ensures RootRemaining(ctx, pos, moves, depth, i + 1, s', w)
  {
    assert Expand(0);
  }

  /** Move selection from a position with moves returns the move the root
      loop chooses, with its polls and applied moves. */
  lemma SelectMoveFromRoot(ctx: Ctx, pos: Position, depth: nat, w: RootOutcome)
    requires depth >= 1 && ctx.rules.legalMoves(pos) != [] && w.best < |ctx.rules.legalMoves(pos)|
    requires RootRemaining(ctx, pos, ctx.rules.legalMoves(pos), depth, 0, RootState(0, NegInf, NegInf, 0, 0), w)
    ensures SelectMove(ctx, pos, depth) == Selection(Some(ctx.rules.legalMoves(pos)[w.best]), w.polls, w.nodes)
  {
    assert Expand(0);
  }
}
