/** Root move selection when the clock cuts a search short.

    An inner node whose first loop poll finds the time spent returns the
    seed of its running value, -inf or +inf, having examined nothing.  The
    root loop of `Search` compares that sentinel like any returned value,
    so a move whose replies were never searched can beat a mate.
    `TimedOutMoveBeatsMate` shows this for the program as written.

    `CompletedRootLoop` is the root loop that compares only moves whose
    search saw the time left at every poll, and stops at the first move
    whose search did not.  Every value it compares is finite
    (`CompletedSelectionKeepsEarliestBest`), it picks the mate on the same
    input (`CompletedSelectionKeepsMate`), and with no timeout it selects
    what the program selects (`CompletedAgreesWithoutTimeout`). */
module CompleteRoot {
  import opened Scores
  import opened Boards
  import opened Search

  /** Every poll numbered from `lo` up to `hi` finds the time left. */
  predicate Unspent(ctx: Ctx, lo: nat, hi: nat) {
    forall k | lo <= k < hi :: !ctx.clock(k)
  }

  /** Every value of `s` is finite. */
  predicate AllFinite(s: seq<Score>) {
    forall j | 0 <= j < |s| :: s[j].Fin?
  }

  /** A search that began at poll `t` and was never told the time is spent
      returns a finite value: only an interrupted search returns a seed. */
  lemma {:induction false} CompletedSearchIsFinite(ctx: Ctx, pos: Position, depth: nat, alpha: Score, beta: Score,
                                                   maximizing: bool, t: nat)
    requires Unspent(ctx, t, AlphaBeta(ctx, pos, depth, alpha, beta, maximizing, t).polls)
    ensures AlphaBeta(ctx, pos, depth, alpha, beta, maximizing, t).value.Fin?
    decreases depth, 1, 0, 0
  {
    if !ctx.clock(t) && Leaf(ctx, pos, depth).None? {
      CompletedLoopIsFinite(ctx, pos, ctx.rules.legalMoves(pos), 0, depth,
                            if maximizing then NegInf else PosInf, alpha, beta, maximizing, t + 1);
    }
  }

  /** A move loop started from its seed with a move left, or already holding
      a finite value, and never told the time is spent, returns a finite
      value. */
  lemma {:induction false} CompletedLoopIsFinite(ctx: Ctx, pos: Position, moves: seq<Move>, i: nat, depth: nat,
                                                 value: Score, alpha: Score, beta: Score, maximizing: bool, t: nat)
    requires i <= |moves| && depth >= 1
    requires value.Fin? || (i < |moves| && value == (if maximizing then NegInf else PosInf))
    requires Unspent(ctx, t, MoveLoop(ctx, pos, moves, i, depth, value, alpha, beta, maximizing, t).polls)
    ensures MoveLoop(ctx, pos, moves, i, depth, value, alpha, beta, maximizing, t).value.Fin?
    decreases depth, 0, |moves| - i, 1
  {
    if i < |moves| && !ctx.clock(t) {
      var cut, value', alpha', beta', t' := CompletedLoopStep(ctx, pos, moves, i, depth, value, alpha, beta, maximizing, t);
      if !cut {
        CompletedLoopIsFinite(ctx, pos, moves, i + 1, depth, value', alpha', beta', maximizing, t');
      }
    }
  }

  /** One examined move of a move loop never told the time is spent: the
      child's value is finite, so the running value becomes finite, and the
      loop either ends with it or goes on from the next move without being
      told the time is spent. */
  lemma {:induction false} CompletedLoopStep(ctx: Ctx, pos: Position, moves: seq<Move>, i: nat, depth: nat,
                                             value: Score, alpha: Score, beta: Score, maximizing: bool, t: nat)
    returns (cut: bool, value': Score, alpha': Score, beta': Score, t': nat)
    requires i < |moves| && depth >= 1 && !ctx.clock(t)
    requires value.Fin? || value == (if maximizing then NegInf else PosInf)
    requires Unspent(ctx, t, MoveLoop(ctx, pos, moves, i, depth, value, alpha, beta, maximizing, t).polls)
    ensures value'.Fin? && t < t'
    ensures var l := MoveLoop(ctx, pos, moves, i, depth, value, alpha, beta, maximizing, t);
      cut ==> l.value == value'
    ensures var l := MoveLoop(ctx, pos, moves, i, depth, value, alpha, beta, maximizing, t);
      var rest := MoveLoop(ctx, pos, moves, i + 1, depth, value', alpha', beta', maximizing, t');
      !cut ==> l.value == rest.value && l.polls == rest.polls
    decreases depth, 0, |moves| - i, 0
  {
    var child := AlphaBeta(ctx, ctx.rules.apply(pos, moves[i]), depth - 1, alpha, beta, !maximizing, t + 1);
    value' := Combine(maximizing, value, child.value);
    alpha' := if maximizing then Max(alpha, value') else alpha;
    beta' := if maximizing then beta else Min(beta, value');
    t' := child.polls;
    cut := Le(beta', alpha');
    var l := MoveLoop(ctx, pos, moves, i, depth, value, alpha, beta, maximizing, t);
    if cut {
      assert l == LoopOutcome(value', child.polls, 1 + child.nodes, [child.value]);
    } else {
      var rest := MoveLoop(ctx, pos, moves, i + 1, depth, value', alpha', beta', maximizing, t');
      assert l == LoopOutcome(rest.value, rest.polls, 1 + child.nodes + rest.nodes, [child.value] + rest.seen);
    }
    CompletedSearchIsFinite(ctx, ctx.rules.apply(pos, moves[i]), depth - 1, alpha, beta, !maximizing, t + 1);
  }

  /** The root loop from move `i` on, comparing only completed searches: a
      move whose search was told the time is spent ends the loop, and its
      value is neither compared nor recorded. */
  function CompletedRootLoop(ctx: Ctx, pos: Position, moves: seq<Move>, depth: nat, i: nat,
                             best: nat, bestVal: Score, alpha: Score, t: nat): (r: RootOutcome)
    requires depth >= 1 && i <= |moves| && best < |moves|
    ensures r.best < |moves| && (r.best == best || i <= r.best < i + |r.seen|)
    ensures |r.seen| <= |moves| - i
    ensures AllFinite(r.seen)
    decreases |moves| - i
  {
    if i == |moves| then RootOutcome(best, t, 0, [])
    else if ctx.clock(t) then RootOutcome(best, t + 1, 0, [])
    else
      var child := AlphaBeta(ctx, ctx.rules.apply(pos, moves[i]), depth - 1, alpha, PosInf, false, t + 1);
      if !Unspent(ctx, t + 1, child.polls) then RootOutcome(best, child.polls, 1 + child.nodes, [])
      else
        var improved := Lt(bestVal, child.value);
        var rest := CompletedRootLoop(ctx, pos, moves, depth, i + 1,
                                      if improved then i else best, if improved then child.value else bestVal,
                                      Max(alpha, child.value), child.polls);
        CompletedSearchIsFinite(ctx, ctx.rules.apply(pos, moves[i]), depth - 1, alpha, PosInf, false, t + 1);
        FiniteCons(child.value, rest.seen);
        RootOutcome(rest.best, rest.polls, 1 + child.nodes + rest.nodes, [child.value] + rest.seen)
  }

  /** Move selection with the completed root loop. */
  function CompletedSelectMove(ctx: Ctx, pos: Position, depth: nat): (s: Selection)
    requires depth >= 1
    ensures s.move.None? <==> ctx.rules.legalMoves(pos) == []
    ensures s.move.Some? ==> s.move.value in ctx.rules.legalMoves(pos)
  {
    var moves := ctx.rules.legalMoves(pos);
    if moves == [] then Selection(None, 0, 0)
    else
      var r := CompletedRootLoop(ctx, pos, moves, depth, 0, 0, NegInf, NegInf, 0);
      Selection(Some(moves[r.best]), r.polls, r.nodes)
  }

  /** The completed root loop keeps its choice, having compared nothing,
      when it is out of moves or its poll finds the time spent. */
  lemma CompletedRootLoopEnd(ctx: Ctx, pos: Position, moves: seq<Move>, depth: nat, i: nat,
                             best: nat, bestVal: Score, alpha: Score, t: nat)
    requires depth >= 1 && i <= |moves| && best < |moves| && (i == |moves| || ctx.clock(t))
    ensures CompletedRootLoop(ctx, pos, moves, depth, i, best, bestVal, alpha, t)
         == RootOutcome(best, if i == |moves| then t else t + 1, 0, [])
  {
  }

  /** One step of the completed root loop that searches move `i`, written
      out: when the child's search saw the time left at every poll, its value
      is recorded and the loop goes on; otherwise the loop stops there. */
  lemma CompletedRootUnroll(ctx: Ctx, pos: Position, moves: seq<Move>, depth: nat, i: nat,
                            best: nat, bestVal: Score, alpha: Score, t: nat)
    requires depth >= 1 && i < |moves| && best < |moves| && !ctx.clock(t)
    ensures var child := AlphaBeta(ctx, ctx.rules.apply(pos, moves[i]), depth - 1, alpha, PosInf, false, t + 1);
      var improved := Lt(bestVal, child.value);
      var rest := CompletedRootLoop(ctx, pos, moves, depth, i + 1,
                                    if improved then i else best, if improved then child.value else bestVal,
                                    Max(alpha, child.value), child.polls);
      CompletedRootLoop(ctx, pos, moves, depth, i, best, bestVal, alpha, t)
        == if Unspent(ctx, t + 1, child.polls)
           then RootOutcome(rest.best, rest.polls, 1 + child.nodes + rest.nodes, [child.value] + rest.seen)
           else RootOutcome(best, child.polls, 1 + child.nodes, [])
  {
  }

  /** Root move `i` searched: when its search saw the time left at every
      poll, its finite value `v` joins the bookkeeping and the loop from `i`
      chooses what the loop from `i + 1` does; otherwise the loop ends with
      its current choice. */
  lemma CompletedRootStep(ctx: Ctx, pos: Position, moves: seq<Move>, depth: nat, i: nat,
                          best: nat, bestVal: Score, t: nat, prior: seq<Score>)
    returns (completed: bool, best': nat, bestVal': Score, t': nat, v: Score)
    requires depth >= 1 && i < |moves| && best < |moves| && |prior| == i && !ctx.clock(t)
    requires RootInv(prior, best, bestVal)
    ensures best' < |moves| && (completed ==> RootInv(prior + [v], best', bestVal'))
    ensures var r := CompletedRootLoop(ctx, pos, moves, depth, i, best, bestVal, bestVal, t);
      var rest := CompletedRootLoop(ctx, pos, moves, depth, i + 1, best', bestVal', bestVal', t');
      completed ==> r.best == rest.best && prior + r.seen == (prior + [v]) + rest.seen
    ensures var r := CompletedRootLoop(ctx, pos, moves, depth, i, best, bestVal, bestVal, t);
      !completed ==> r.best == best && prior + r.seen == prior
  {
    var child := AlphaBeta(ctx, ctx.rules.apply(pos, moves[i]), depth - 1, bestVal, PosInf, false, t + 1);
    completed := Unspent(ctx, t + 1, child.polls);
    v, t' := child.value, child.polls;
    RootStep(prior, best, bestVal, v);
    var improved := Lt(bestVal, v);
    best' := if improved then i else best;
    bestVal' := if improved then v else bestVal;
    if completed {
      assert Max(bestVal, v) == bestVal';
      var rest := CompletedRootLoop(ctx, pos, moves, depth, i + 1, best', bestVal', bestVal', t');
      ConcatAssoc(prior, v, rest.seen);
    } else {
      assert prior + [] == prior;
    }
  }

  /** The choice of the root loop outcome `r` is the first best of the
      values `prior` compared before it followed by those `r` compared.
      Equivalent to `EarliestBest(prior + r.seen, r.best)`, since `Expand(k)`
      holds only for `k == 0`; the quantifier only keeps the solver from
      unfolding it where it is passed on. */
  ghost predicate EarliestAfter(prior: seq<Score>, r: RootOutcome) {
    forall k: nat {:trigger Expand(k)} :: Expand(k) ==> EarliestBest(prior + r.seen, r.best)
  }

  /** From move `i` on, the completed root loop keeps the first best of the
      values compared so far: `prior` before `i`, then its own. */
  lemma {:induction false} CompletedLoopKeepsEarliestBest(ctx: Ctx, pos: Position, moves: seq<Move>, depth: nat,
                                                          i: nat, best: nat, bestVal: Score, t: nat, prior: seq<Score>)
    requires depth >= 1 && i <= |moves| && best < |moves| && |prior| == i
    requires RootInv(prior, best, bestVal)
    ensures EarliestAfter(prior, CompletedRootLoop(ctx, pos, moves, depth, i, best, bestVal, bestVal, t))
    decreases |moves| - i
  {
    var r := CompletedRootLoop(ctx, pos, moves, depth, i, best, bestVal, bestVal, t);
    if i == |moves| || ctx.clock(t) {
      CompletedRootLoopEnd(ctx, pos, moves, depth, i, best, bestVal, bestVal, t);
      assert prior + r.seen == prior;
    } else {
      var completed, best', bestVal', t', v := CompletedRootStep(ctx, pos, moves, depth, i, best, bestVal, t, prior);
      if completed {
        CompletedLoopKeepsEarliestBest(ctx, pos, moves, depth, i + 1, best', bestVal', t', prior + [v]);
        var rest := CompletedRootLoop(ctx, pos, moves, depth, i + 1, best', bestVal', bestVal', t');
      }
    }
  }

  /** Prefixing a finite value keeps a sequence all finite. */
  lemma FiniteCons(v: Score, s: seq<Score>)
    requires v.Fin? && AllFinite(s)
    ensures AllFinite([v] + s)
  {
    forall j | 0 <= j < |[v] + s| ensures ([v] + s)[j].Fin? {
      if j > 0 {
        assert ([v] + s)[j] == s[j - 1];
      }
    }
  }

  /** The corrected selection picks the first move of greatest value among
      the moves it compared, and every value it compared is finite: no
      seed of an interrupted search takes part. */
  lemma CompletedSelectionKeepsEarliestBest(ctx: Ctx, pos: Position, depth: nat)
    requires depth >= 1 && ctx.rules.legalMoves(pos) != []
    ensures var moves := ctx.rules.legalMoves(pos);
      var r := CompletedRootLoop(ctx, pos, moves, depth, 0, 0, NegInf, NegInf, 0);
      && CompletedSelectMove(ctx, pos, depth).move == Some(moves[r.best])
      && EarliestBest(r.seen, r.best)
      && AllFinite(r.seen)
  {
    var moves := ctx.rules.legalMoves(pos);
    CompletedLoopKeepsEarliestBest(ctx, pos, moves, depth, 0, 0, NegInf, 0, []);
    var r := CompletedRootLoop(ctx, pos, moves, depth, 0, 0, NegInf, NegInf, 0);
    assert Expand(0);
    assert [] + r.seen == r.seen;
  }

  /** With no timeout the completed root loop from move `i` on is the
      program's root loop, since every child search completes. */
  lemma {:induction false} CompletedLoopAgrees(ctx: Ctx, pos: Position, moves: seq<Move>, depth: nat, i: nat,
                                               best: nat, bestVal: Score, alpha: Score, t: nat)
    requires NoTimeout(ctx) && depth >= 1 && i <= |moves| && best < |moves|
    ensures CompletedRootLoop(ctx, pos, moves, depth, i, best, bestVal, alpha, t)
         == RootLoop(ctx, pos, moves, depth, i, best, bestVal, alpha, t)
    decreases |moves| - i
  {
    if i == |moves| || ctx.clock(t) {
      CompletedRootLoopEnd(ctx, pos, moves, depth, i, best, bestVal, alpha, t);
      RootLoopEnd(ctx, pos, moves, depth, i, best, bestVal, alpha, t);
    } else {
      CompletedRootUnroll(ctx, pos, moves, depth, i, best, bestVal, alpha, t);
      RootLoopUnroll(ctx, pos, moves, depth, i, best, bestVal, alpha, t);
      var c := AlphaBeta(ctx, ctx.rules.apply(pos, moves[i]), depth - 1, alpha, PosInf, false, t + 1);
      assert Unspent(ctx, t + 1, c.polls);
      var improved := Lt(bestVal, c.value);
      CompletedLoopAgrees(ctx, pos, moves, depth, i + 1, if improved then i else best,
                          if improved then c.value else bestVal, Max(alpha, c.value), c.polls);
    }
  }

  /** With no timeout the corrected selection is the program's: the same
      move, polls and applied moves. */
  lemma CompletedAgreesWithoutTimeout(ctx: Ctx, pos: Position, depth: nat)
    requires NoTimeout(ctx) && depth >= 1
    ensures CompletedSelectMove(ctx, pos, depth) == SelectMove(ctx, pos, depth)
  {
    if ctx.rules.legalMoves(pos) != [] {
      CompletedLoopAgrees(ctx, pos, ctx.rules.legalMoves(pos), depth, 0, 0, NegInf, NegInf, 0);
    }
  }

  /** Two root moves: `m0` mates at once, and after `m1` the opponent has
      replies.  The budget is spent from poll 4 on, so the search after `m1`
      is cut at its first loop poll. */
  ghost predicate MateThenCutOff(ctx: Ctx, pos: Position, m0: Move, m1: Move) {
    && ctx.rules.legalMoves(pos) == [m0, m1]
    && ctx.rootWhite == pos.whiteToMove
    && ctx.rules.gameState(ctx.rules.apply(pos, m0)) == Checkmate
    && ctx.rules.apply(pos, m0).whiteToMove != pos.whiteToMove
    && ctx.rules.gameState(ctx.rules.apply(pos, m1)) == Normal
    && ctx.rules.legalMoves(ctx.rules.apply(pos, m1)) != []
    && (forall k: nat :: ctx.clock(k) <==> 4 <= k)
  }

  /** As written, the root prefers `m1`, whose replies were never searched,
      over the mate `m0`: its search returns the +inf seed of the
      minimizing loop, which beats the mate score. */
  lemma TimedOutMoveBeatsMate(ctx: Ctx, pos: Position, m0: Move, m1: Move)
    requires MateThenCutOff(ctx, pos, m0, m1)
    ensures m0 != m1
    ensures RootLoop(ctx, pos, [m0, m1], 3, 0, 0, NegInf, NegInf, 0).seen == [Fin(MateScore), PosInf]
    ensures SelectMove(ctx, pos, 3).move == Some(m1)
  {
    var p0, p1 := ctx.rules.apply(pos, m0), ctx.rules.apply(pos, m1);
    var c0 := AlphaBeta(ctx, p0, 2, NegInf, PosInf, false, 1);
    assert c0 == Outcome(Fin(MateScore), 2, 0);
    var l1 := MoveLoop(ctx, p1, ctx.rules.legalMoves(p1), 0, 2, PosInf, Fin(MateScore), PosInf, false, 4);
    assert l1 == LoopOutcome(PosInf, 5, 0, []);
    var c1 := AlphaBeta(ctx, p1, 2, Fin(MateScore), PosInf, false, 3);
    assert c1 == Outcome(PosInf, 5, 0);
    RootLoopUnroll(ctx, pos, [m0, m1], 3, 0, 0, NegInf, NegInf, 0);
    RootLoopUnroll(ctx, pos, [m0, m1], 3, 1, 0, Fin(MateScore), Fin(MateScore), 2);
    RootLoopEnd(ctx, pos, [m0, m1], 3, 2, 1, PosInf, PosInf, 5);
  }

  /** On the same input the corrected selection keeps the mate. */
  lemma CompletedSelectionKeepsMate(ctx: Ctx, pos: Position, m0: Move, m1: Move)
    requires MateThenCutOff(ctx, pos, m0, m1)
    ensures CompletedSelectMove(ctx, pos, 3).move == Some(m0)
  {
    var p0, p1 := ctx.rules.apply(pos, m0), ctx.rules.apply(pos, m1);
    var c0 := AlphaBeta(ctx, p0, 2, NegInf, PosInf, false, 1);
    assert c0 == Outcome(Fin(MateScore), 2, 0);
    var l1 := MoveLoop(ctx, p1, ctx.rules.legalMoves(p1), 0, 2, PosInf, Fin(MateScore), PosInf, false, 4);
    assert l1 == LoopOutcome(PosInf, 5, 0, []);
    var c1 := AlphaBeta(ctx, p1, 2, Fin(MateScore), PosInf, false, 3);
    assert c1 == Outcome(PosInf, 5, 0);
    assert !Unspent(ctx, 3, 5) by { assert ctx.clock(4); }
    assert CompletedRootLoop(ctx, pos, [m0, m1], 3, 1, 0, Fin(MateScore), Fin(MateScore), 2).best == 0;
  }
}
