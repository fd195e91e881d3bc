/** The agent: the object the tournament runner holds, with its search
    methods working on the shared board through make/undo.  Each method is
    proved against the function of `Search` or `Evaluator` that specifies it,
    and leaves the board's position and history as it found them.

    The wall clock is the field `clock`, read through `OutOfTime`: the
    `k`-th poll since the start of the current move selection reports
    `clock(k)`.  Resetting the poll counter stands for taking the start time. */
module Engine {
  import opened Scores
  import opened Boards
  import opened Evaluator
  import opened Search
  import opened SearchSteps

  /** The context of a search by an agent with these rules, configuration,
      root colour and clock. */
  function AgentContext(rules: Rules, cfg: Config, rootWhite: bool, clock: nat -> bool): Ctx {
    Ctx(rules, p => Evaluation(cfg, rules, rootWhite, p), rootWhite, clock)
  }

  /** `ctx` is the context of a search by such an agent: the same rules,
      root colour and clock, and the agent's evaluation at every position. */
  ghost predicate ServesAgent(ctx: Ctx, rules: Rules, cfg: Config, rootWhite: bool, clock: nat -> bool) {
    ctx.rules == rules && ctx.rootWhite == rootWhite && ctx.clock == clock && EvaluatesAs(ctx, cfg)
  }

  /** The evaluation of `ctx` is the agent's: equivalent to
      `forall p :: ctx.eval(p) == Evaluation(cfg, ctx.rules, ctx.rootWhite, p)`,
      since `Expand(k)` holds only for `k == 0`.  The trigger `Expand(k)` lets
      the methods that only pass it on treat it as one proposition. */
  ghost predicate EvaluatesAs(ctx: Ctx, cfg: Config) {
    forall k: nat {:trigger Expand(k)} :: Expand(k) ==>
      forall p :: ctx.eval(p) == Evaluation(cfg, ctx.rules, ctx.rootWhite, p)
  }

  lemma AgentContextServes(rules: Rules, cfg: Config, rootWhite: bool, clock: nat -> bool)
    ensures ServesAgent(AgentContext(rules, cfg, rootWhite, clock), rules, cfg, rootWhite, clock)
  {
  }

  /** A context that evaluates as the agent does gives, at `pos`, the
      agent's evaluation.  The body only opens the `Expand` guard of
      `EvaluatesAs`. */
  lemma EvaluationServes(ctx: Ctx, cfg: Config, pos: Position)
    requires EvaluatesAs(ctx, cfg)
    ensures StaticEval(ctx, pos) == Evaluation(cfg, ctx.rules, ctx.rootWhite, pos)
  {
    assert Expand(0);
  }

  class Agent {
    const board: Board
    const cfg: Config
    var nodesExpanded: nat
    var depth: nat
    var rootIsWhite: bool
    var clock: nat -> bool
    var polls: nat

    constructor (board: Board, cfg: Config, clock: nat -> bool)
      ensures this.board == board && this.cfg == cfg && this.clock == clock
      ensures nodesExpanded == 0 && depth == 3 && rootIsWhite && polls == 0
    {
      this.board := board;
      this.cfg := cfg;
      this.clock := clock;
      nodesExpanded := 0;
      depth := 3;
      rootIsWhite := true;
      polls := 0;
    }

    /** What the current search reads and does not change. */
    function Context(): Ctx
      reads this`rootIsWhite, this`clock
    {
      AgentContext(board.rules, cfg, rootIsWhite, clock)
    }

    /** One poll of the clock. */
    method OutOfTime() returns (over: bool)
      modifies this`polls
      ensures over == clock(old(polls)) && polls == old(polls) + 1
    {
      over := clock(polls);
      polls := polls + 1;
    }

    /** Chooses a move at the current position, or None when there is none. */
    method GetBestMove() returns (best: Option<Move>)
      requires depth >= 1
      modifies this`nodesExpanded, this`polls, this`rootIsWhite, board
      ensures rootIsWhite == old(board.pos).whiteToMove
      ensures var s := SelectMove(Context(), old(board.pos), depth);
        best == s.move && polls == s.polls && nodesExpanded == s.nodes
      ensures board.pos == old(board.pos) && board.history == old(board.history)
      ensures |board.trace| == |old(board.trace)| + nodesExpanded
    {
      nodesExpanded := 0;
      polls := 0;
      rootIsWhite := board.pos.whiteToMove;

      var legalMoves := board.LegalMoves();
      if legalMoves == [] {
        return None;
      }
      ghost var w;
      var bestMove;
      AgentContextServes(board.rules, cfg, rootIsWhite, clock);
      bestMove, w := SearchRoot(Context(), legalMoves, depth);
      SelectMoveFromRoot(Context(), old(board.pos), depth, w);
      return Some(bestMove);
    }

    /** The loop of `GetBestMove` over the legal moves `legalMoves` of the
        current position: keeps the first move whose value is strictly the
        best so far, and raises alpha to every value returned. */
    method SearchRoot(ghost ctx: Ctx, legalMoves: seq<Move>, depth: nat) returns (bestMove: Move, ghost w: RootOutcome)
      requires ServesAgent(ctx, board.rules, cfg, rootIsWhite, clock) && depth >= 1 && legalMoves != []
      modifies this`nodesExpanded, this`polls, board
      ensures w.best < |legalMoves| && bestMove == legalMoves[w.best]
      ensures polls == w.polls && nodesExpanded == old(nodesExpanded) + w.nodes
      ensures RootRemaining(ctx, old(board.pos), legalMoves, depth, 0, RootState(0, NegInf, NegInf, old(polls), 0), w)
      ensures board.pos == old(board.pos) && board.history == old(board.history)
      ensures |board.trace| == |old(board.trace)| + w.nodes
      decreases depth, 0
    {
      ghost var pos0, history0, trace0, nodes0 := board.pos, board.history, |board.trace|, nodesExpanded;
      w := RootLoopTarget(ctx, pos0, legalMoves, depth, polls);
      bestMove := legalMoves[0];
      ghost var bestIndex: nat := 0;
      ghost var stopped := false;
      var bestVal := NegInf;
      var alpha, beta := NegInf, PosInf;
      ghost var st := RootState(0, NegInf, NegInf, polls, 0);

      for i := 0 to |legalMoves|
        invariant board.pos == pos0 && board.history == history0
        invariant nodesExpanded == nodes0 + st.done && |board.trace| == trace0 + st.done
        invariant beta == PosInf && !stopped
        invariant st == RootState(bestIndex, bestVal, alpha, polls, st.done)
        invariant bestIndex < |legalMoves| && bestMove == legalMoves[bestIndex]
        invariant RootRemaining(ctx, pos0, legalMoves, depth, i, st, w)
      {
        var over := OutOfTime();
        if over {
          RootLoopStops(ctx, pos0, legalMoves, depth, i, st, w);
          stopped := true;
          break;
        }
        var mv := legalMoves[i];
        ghost var tc, ca := polls, alpha;
        var val;
        ghost var child;
        val, child := SearchChild(ctx, mv, depth - 1, alpha, beta, false);
        if Lt(bestVal, val) {
          bestVal := val;
          bestMove := mv;
          bestIndex := i;
        }
        alpha := Max(alpha, val);
        ghost var st' := RootState(bestIndex, bestVal, alpha, polls, st.done + 1 + child.nodes);
        RootLoopAdvances(ctx, pos0, legalMoves, depth, i, st, w, ctx.rules.apply(pos0, mv), tc, ca, beta, child, st');
        st := st';
      }
      if !stopped {
        RootLoopStops(ctx, pos0, legalMoves, depth, |legalMoves|, st, w);
      }
    }

    /** The static evaluation of the current position, from the root side. */
    method EvaluateBoard() returns (score: int)
      ensures score == Evaluation(cfg, board.rules, rootIsWhite, board.pos)
    {
      score := 0;
      var b := board.pos.grid;
      for r := 0 to cfg.height
        invariant score == GridScore(cfg, b, r)
      {
        for c := 0 to cfg.width
          invariant score == GridScore(cfg, b, r) + RowScore(cfg, b, r, c)
        {
          var p := CellAt(b, r, c);
          if p == Empty {
            continue;
          }
          score := score + PieceValue(cfg, p);
          var pstVal := PstValue(cfg, p, r, c);
          score := score + pstVal;
        }
      }

      if board.InCheck() {
        if board.pos.whiteToMove == rootIsWhite {
          score := score - 2;
        } else {
          score := score + 2;
        }
      }

      var whiteKing := HasKing(true);
      if !whiteKing {
        score := score - 300;
      }
      var blackKing := HasKing(false);
      if !blackKing {
        score := score + 300;
      }

      if !rootIsWhite {
        score := -score;
      }
    }

    /** Alpha-beta at the current position with `depth` plies left. */
    method AlphaBeta(ghost ctx: Ctx, depth: nat, alpha: Score, beta: Score, maximizing: bool) returns (value: Score)
      requires ServesAgent(ctx, board.rules, cfg, rootIsWhite, clock)
      modifies this`nodesExpanded, this`polls, board
      ensures nodesExpanded >= old(nodesExpanded)
      ensures Searched(ctx, old(board.pos), depth, alpha, beta, maximizing, old(polls),
                       Outcome(value, polls, nodesExpanded - old(nodesExpanded)))
      ensures board.pos == old(board.pos) && board.history == old(board.history)
      ensures |board.trace| == |old(board.trace)| + (nodesExpanded - old(nodesExpanded))
      decreases depth, 1
    {
      ghost var t0, pos0 := polls, board.pos;
      AlphaBetaLeaves(ctx, pos0, depth, alpha, beta, maximizing, t0);
      EvaluationServes(ctx, cfg, pos0);
      var over := OutOfTime();
      if over {
        var e := EvaluateBoard();
        return Fin(e);
      }

      var state := board.State();
      if state == Checkmate {
        return Fin(if board.pos.whiteToMove == rootIsWhite then -MateScore else MateScore);
      }
      if state == Stalemate || depth == 0 {
        var e := EvaluateBoard();
        return Fin(e);
      }

      var moves := board.LegalMoves();
      if moves == [] {
        var e := EvaluateBoard();
        return Fin(e);
      }

      ghost var n0 := nodesExpanded;
      if maximizing {
        value := SearchMax(ctx, moves, depth, alpha, beta);
      } else {
        value := SearchMin(ctx, moves, depth, alpha, beta);
      }
      AlphaBetaExpands(ctx, pos0, depth, alpha, beta, maximizing, t0, Outcome(value, polls, nodesExpanded - n0));
    }

    /** The move loop of a maximizing node: raises `value` and alpha, and
        stops once alpha reaches beta. */
    method SearchMax(ghost ctx: Ctx, moves: seq<Move>, depth: nat, alpha: Score, beta: Score) returns (value: Score)
      requires ServesAgent(ctx, board.rules, cfg, rootIsWhite, clock) && depth >= 1
      modifies this`nodesExpanded, this`polls, board
      ensures nodesExpanded >= old(nodesExpanded)
      ensures Remaining(ctx, old(board.pos), moves, 0, depth, NegInf, alpha, beta, true, old(polls),
                        Outcome(value, polls, nodesExpanded - old(nodesExpanded)), 0)
      ensures board.pos == old(board.pos) && board.history == old(board.history)
      ensures |board.trace| == |old(board.trace)| + (nodesExpanded - old(nodesExpanded))
      decreases depth, 0
    {
      ghost var pos0, history0, nodes0, trace0 := board.pos, board.history, nodesExpanded, |board.trace|;
      ghost var w := MoveLoopTarget(ctx, pos0, moves, 0, depth, NegInf, alpha, beta, true, polls);
      ghost var done: nat := 0;
      ghost var stopped := false;
      value := NegInf;
      var a := alpha;
      for i := 0 to |moves|
        invariant board.pos == pos0 && board.history == history0 && !stopped
        invariant nodesExpanded == nodes0 + done && |board.trace| == trace0 + done
        invariant Remaining(ctx, pos0, moves, i, depth, value, a, beta, true, polls, w, done)
      {
        ghost var t, value0, a0 := polls, value, a;
        var over := OutOfTime();
        if over {
          MoveLoopStops(ctx, pos0, moves, i, depth, value, a, beta, true, t, w, done);
          stopped := true;
          break;
        }
        ghost var tc := polls;
        var child;
        ghost var c;
        child, c := SearchChild(ctx, moves[i], depth - 1, a, beta, false);
        value := Max(value, child);
        a := Max(a, value);
        MoveLoopAdvances(ctx, pos0, moves, i, depth, value0, a0, beta, true, t, w, done,
                         ctx.rules.apply(pos0, moves[i]), tc, c, value, a, beta, done + 1 + c.nodes);
        done := done + 1 + c.nodes;
        if Le(beta, a) {
          stopped := true;
          break;
        }
      }
      if !stopped {
        MoveLoopStops(ctx, pos0, moves, |moves|, depth, value, a, beta, true, polls, w, done);
      }
    }

    /** The move loop of a minimizing node: lowers `value` and beta, and
        stops once beta reaches alpha. */
    method SearchMin(ghost ctx: Ctx, moves: seq<Move>, depth: nat, alpha: Score, beta: Score) returns (value: Score)
      requires ServesAgent(ctx, board.rules, cfg, rootIsWhite, clock) && depth >= 1
      modifies this`nodesExpanded, this`polls, board
      ensures nodesExpanded >= old(nodesExpanded)
      ensures Remaining(ctx, old(board.pos), moves, 0, depth, PosInf, alpha, beta, false, old(polls),
                        Outcome(value, polls, nodesExpanded - old(nodesExpanded)), 0)
      ensures board.pos == old(board.pos) && board.history == old(board.history)
      ensures |board.trace| == |old(board.trace)| + (nodesExpanded - old(nodesExpanded))
      decreases depth, 0
    {
      ghost var pos0, history0, nodes0, trace0 := board.pos, board.history, nodesExpanded, |board.trace|;
      ghost var w := MoveLoopTarget(ctx, pos0, moves, 0, depth, PosInf, alpha, beta, false, polls);
      ghost var done: nat := 0;
      ghost var stopped := false;
      value := PosInf;
      var b := beta;
      for i := 0 to |moves|
        invariant board.pos == pos0 && board.history == history0 && !stopped
        invariant nodesExpanded == nodes0 + done && |board.trace| == trace0 + done
        invariant Remaining(ctx, pos0, moves, i, depth, value, alpha, b, false, polls, w, done)
      {
        ghost var t, value0, b0 := polls, value, b;
        var over := OutOfTime();
        if over {
          MoveLoopStops(ctx, pos0, moves, i, depth, value, alpha, b, false, t, w, done);
          stopped := true;
          break;
        }
        ghost var tc := polls;
        var child;
        ghost var c;
        child, c := SearchChild(ctx, moves[i], depth - 1, alpha, b, true);
        value := Min(value, child);
        b := Min(b, value);
        MoveLoopAdvances(ctx, pos0, moves, i, depth, value0, alpha, b0, false, t, w, done,
                         ctx.rules.apply(pos0, moves[i]), tc, c, value, alpha, b, done + 1 + c.nodes);
        done := done + 1 + c.nodes;
        if Le(b, alpha) {
          stopped := true;
          break;
        }
      }
      if !stopped {
        MoveLoopStops(ctx, pos0, moves, |moves|, depth, value, alpha, b, false, polls, w, done);
      }
    }

    /** One examined move: applies `m`, counts it, searches the position
        reached with `depth` plies left, and takes the move back; `child`
        is the outcome of that search. */
    method SearchChild(ghost ctx: Ctx, m: Move, depth: nat, alpha: Score, beta: Score, maximizing: bool)
      returns (value: Score, ghost child: Outcome)
      requires ServesAgent(ctx, board.rules, cfg, rootIsWhite, clock)
      modifies this`nodesExpanded, this`polls, board
      ensures Searched(ctx, ctx.rules.apply(old(board.pos), m), depth, alpha, beta, maximizing, old(polls), child)
      ensures value == child.value && polls == child.polls
      ensures nodesExpanded == old(nodesExpanded) + 1 + child.nodes
      ensures board.pos == old(board.pos) && board.history == old(board.history)
      ensures |board.trace| == |old(board.trace)| + 1 + child.nodes
      decreases depth, 2
    {
      board.MakeMove(m);
      nodesExpanded := nodesExpanded + 1;
      ghost var n0 := nodesExpanded;
      value := AlphaBeta(ctx, depth, alpha, beta, maximizing);
      child := Outcome(value, polls, nodesExpanded - n0);
      board.UndoMove();
    }

    /** Whether the king of the given colour is on the board. */
    method HasKing(white: bool) returns (found: bool)
      ensures found == KingPresent(cfg, board.pos.grid, white)
    {
      var target := Piece(King, white);
      var grid := board.pos.grid;
      for r := 0 to cfg.height
        invariant forall r', c' | 0 <= r' < r && 0 <= c' < cfg.width :: CellAt(grid, r', c') != target
      {
        for c := 0 to cfg.width
          invariant forall r', c' | 0 <= r' < r && 0 <= c' < cfg.width :: CellAt(grid, r', c') != target
          invariant forall c' | 0 <= c' < c :: CellAt(grid, r, c') != target
        {
          if CellAt(grid, r, c) == target {
            return true;
          }
        }
      }
      return false;
    }
  }
}
