/** The search as a function of the position: depth-limited minimax with
    fail-soft alpha-beta pruning at the inner nodes and a root loop that keeps
    the earliest strictly best move.  The wall clock is an oracle `clock`:
    `clock(k)` tells whether the `k`-th poll of the current search finds the
    time budget spent.  `AlphaBeta`, `MoveLoop`, `RootLoop` and `SelectMove`
    thread the number of polls made so far and report how many moves they
    applied; the node count is an output only, so it cannot steer the
    search.  `Minimax`, `ChildValues`, `Leaf` and `Fold` make no polls.

    `Minimax` is the reference the pruned search is proved against. */
module Search {
  import opened Scores
  import opened Boards
  import opened Evaluator

  datatype Option<T> = None | Some(value: T)

  /** Everything one top-level search reads and never changes: the game
      rules, the static evaluation from the root side, the root colour and
      the clock. */
  datatype Ctx = Ctx(rules: Rules, eval: Position -> int, rootWhite: bool, clock: nat -> bool)

  /** The flat magnitude of a checkmate score. */
  const MateScore: int := 1_000_000

  function StaticEval(ctx: Ctx, pos: Position): int {
    ctx.eval(pos)
  }

  /** The value of a node that is not expanded, or None when its moves are
      searched: checkmate scores the flat mate value against the side to move
      (negative when that is the root side), stalemate, the depth horizon and
      an empty move list score the static evaluation. */
  function Leaf(ctx: Ctx, pos: Position, depth: nat): (v: Option<int>)
    ensures v.None? <==> ctx.rules.gameState(pos) == Normal && depth > 0 && ctx.rules.legalMoves(pos) != []
    ensures ctx.rules.gameState(pos) == Checkmate ==> v.Some? && (v.value < 0 <==> pos.whiteToMove == ctx.rootWhite)
    ensures v.Some? && ctx.rules.gameState(pos) != Checkmate ==> v.value == StaticEval(ctx, pos)
  {
    match ctx.rules.gameState(pos)
    case Checkmate => Some(if pos.whiteToMove == ctx.rootWhite then -MateScore else MateScore)
    case Stalemate => Some(StaticEval(ctx, pos))
    case Normal =>
      if depth == 0 || ctx.rules.legalMoves(pos) == [] then Some(StaticEval(ctx, pos)) else None
  }

  ghost predicate NoTimeout(ctx: Ctx) {
    forall k: nat :: !ctx.clock(k)
  }

  // ---------------------------------------------------------------------
  // The pruned search

  /** What a search call returns, the poll counter after it, and how many
      moves it applied. */
  datatype Outcome = Outcome(value: Score, polls: nat, nodes: nat)

  /** A move loop's outcome, with the values of the children it examined. */
  datatype LoopOutcome = LoopOutcome(value: Score, polls: nat, nodes: nat, seen: seq<Score>)

  function Combine(maximizing: bool, a: Score, b: Score): Score {
    if maximizing then Max(a, b) else Min(a, b)
  }

  /** An alpha-beta call at `pos` with poll counter `t`. */
  function AlphaBeta(ctx: Ctx, pos: Position, depth: nat, alpha: Score, beta: Score, maximizing: bool, t: nat): (r: Outcome)
    ensures t < r.polls
    decreases depth, 1, 0
  {
    if ctx.clock(t) then Outcome(Fin(StaticEval(ctx, pos)), t + 1, 0)
    else
      match Leaf(ctx, pos, depth)
      case Some(v) => Outcome(Fin(v), t + 1, 0)
      case None =>
        var l := MoveLoop(ctx, pos, ctx.rules.legalMoves(pos), 0, depth,
                          if maximizing then NegInf else PosInf, alpha, beta, maximizing, t + 1);
        Outcome(l.value, l.polls, l.nodes)
  }

  /** The move loop of an inner node from move `i` on, with running value
      `value` and current window `alpha`, `beta`.  The loop stops when the
      poll reports the time spent, and after a child once `alpha >= beta`. */
  function MoveLoop(ctx: Ctx, pos: Position, moves: seq<Move>, i: nat, depth: nat,
                    value: Score, alpha: Score, beta: Score, maximizing: bool, t: nat): (r: LoopOutcome)
    requires i <= |moves| && depth >= 1
    ensures t <= r.polls && |r.seen| <= |moves| - i && |r.seen| <= r.nodes
    decreases depth, 0, |moves| - i
  {
    if i == |moves| then LoopOutcome(value, t, 0, [])
    else if ctx.clock(t) then LoopOutcome(value, t + 1, 0, [])
    else
      var child := AlphaBeta(ctx, ctx.rules.apply(pos, moves[i]), depth - 1, alpha, beta, !maximizing, t + 1);
      var value' := Combine(maximizing, value, child.value);
      var alpha' := if maximizing then Max(alpha, value') else alpha;
      var beta' := if maximizing then beta else Min(beta, value');
      if Le(beta', alpha') then LoopOutcome(value', child.polls, 1 + child.nodes, [child.value])
      else
        var rest := MoveLoop(ctx, pos, moves, i + 1, depth, value', alpha', beta', maximizing, child.polls);
        LoopOutcome(rest.value, rest.polls, 1 + child.nodes + rest.nodes, [child.value] + rest.seen)
  }

  /** One step of a move loop that examines move `i`, written out: the
      child's value `c`, the running value and window after it, and the
      poll counter `t'` the rest of the loop starts from.  A maximizing
      step never lowers the running value or alpha, a minimizing step never
      raises the running value or beta. */
  lemma MoveLoopChild(ctx: Ctx, pos: Position, moves: seq<Move>, i: nat, depth: nat,
                      value: Score, alpha: Score, beta: Score, maximizing: bool, t: nat)
    returns (c: Score, value': Score, alpha': Score, beta': Score, t': nat)
    requires i < |moves| && depth >= 1 && !ctx.clock(t)
    ensures c == AlphaBeta(ctx, ctx.rules.apply(pos, moves[i]), depth - 1, alpha, beta, !maximizing, t + 1).value
    ensures value' == Combine(maximizing, value, c)
    ensures alpha' == (if maximizing then Max(alpha, value') else alpha)
    ensures beta' == (if maximizing then beta else Min(beta, value'))
    ensures maximizing ==> Le(value, value') && Le(alpha, alpha') && beta' == beta
    ensures !maximizing ==> Le(value', value) && Le(beta', beta) && alpha' == alpha
    ensures var l := MoveLoop(ctx, pos, moves, i, depth, value, alpha, beta, maximizing, t);
      if Le(beta', alpha') then l.value == value' && l.seen == [c]
      else
        var rest := MoveLoop(ctx, pos, moves, i + 1, depth, value', alpha', beta', maximizing, t');
        l.value == rest.value && l.seen == [c] + rest.seen
  {
    var child := AlphaBeta(ctx, ctx.rules.apply(pos, moves[i]), depth - 1, alpha, beta, !maximizing, t + 1);
    c := child.value;
    value' := Combine(maximizing, value, c);
    alpha' := if maximizing then Max(alpha, value') else alpha;
    beta' := if maximizing then beta else Min(beta, value');
    t' := child.polls;
  }

  /** A move loop out of moves, or whose poll finds the time spent, returns
      its running value having examined nothing. */
  lemma MoveLoopEnd(ctx: Ctx, pos: Position, moves: seq<Move>, i: nat, depth: nat,
                    value: Score, alpha: Score, beta: Score, maximizing: bool, t: nat)
    requires i <= |moves| && depth >= 1 && (i == |moves| || ctx.clock(t))
    ensures MoveLoop(ctx, pos, moves, i, depth, value, alpha, beta, maximizing, t)
         == LoopOutcome(value, if i == |moves| then t else t + 1, 0, [])
  {
  }

  /** Folding `Combine` over `s` from the left, starting at `acc`. */
  function Fold(maximizing: bool, acc: Score, s: seq<Score>): Score
    decreases |s|
  {
    if s == [] then acc else Fold(maximizing, Combine(maximizing, acc, s[0]), s[1..])
  }

  /** The fold is the maximum (or minimum) of `acc` and the elements of `s`:
      on the right side of each of them, and equal to one of them. */
  lemma {:induction false} FoldIsBest(maximizing: bool, acc: Score, s: seq<Score>)
    ensures var r := Fold(maximizing, acc, s);
      && (maximizing ==> Le(acc, r) && forall j | 0 <= j < |s| :: Le(s[j], r))
      && (!maximizing ==> Le(r, acc) && forall j | 0 <= j < |s| :: Le(r, s[j]))
      && (r == acc || exists j | 0 <= j < |s| :: r == s[j])
    decreases |s|
  {
    if s != [] {
      var acc' := Combine(maximizing, acc, s[0]);
      FoldIsBest(maximizing, acc', s[1..]);
      var r := Fold(maximizing, acc', s[1..]);
      LeTotalOrder(acc, s[0], r);
      LeTotalOrder(acc, acc', r);
      LeTotalOrder(s[0], acc', r);
      assert forall j | 1 <= j < |s| :: s[j] == s[1..][j - 1];
      if r != acc' {
        var j :| 0 <= j < |s[1..]| && r == s[1..][j];
        assert r == s[j + 1];
      }
    }
  }

  /** A move loop's value is the best of its starting value and the values
      of the children it actually examined, in the order examined. */
  lemma {:induction false} LoopValueIsBestOfExamined(ctx: Ctx, pos: Position, moves: seq<Move>, i: nat, depth: nat,
                                                     value: Score, alpha: Score, beta: Score, maximizing: bool, t: nat)
    requires i <= |moves| && depth >= 1
    ensures var l := MoveLoop(ctx, pos, moves, i, depth, value, alpha, beta, maximizing, t);
            l.value == Fold(maximizing, value, l.seen)
    decreases |moves| - i
  {
    if i < |moves| && !ctx.clock(t) {
      var c, value', alpha', beta', t' := MoveLoopChild(ctx, pos, moves, i, depth, value, alpha, beta, maximizing, t);
      var l := MoveLoop(ctx, pos, moves, i, depth, value, alpha, beta, maximizing, t);
      if !Le(beta', alpha') {
        LoopValueIsBestOfExamined(ctx, pos, moves, i + 1, depth, value', alpha', beta', maximizing, t');
        var rest := MoveLoop(ctx, pos, moves, i + 1, depth, value', alpha', beta', maximizing, t');
        assert ([c] + rest.seen)[1..] == rest.seen;
        assert Fold(maximizing, value, l.seen) == Fold(maximizing, value', rest.seen);
      } else {
        assert [c][1..] == [];
        assert Fold(maximizing, value, l.seen) == Fold(maximizing, value', []);
      }
    } else {
      MoveLoopEnd(ctx, pos, moves, i, depth, value, alpha, beta, maximizing, t);
      assert Fold(maximizing, value, []) == value;
    }
  }

  // ---------------------------------------------------------------------
  // Plain minimax, the reference

  function MaxOf(s: seq<int>): (m: int)
    requires |s| > 0
    ensures (exists j | 0 <= j < |s| :: s[j] == m) && forall j | 0 <= j < |s| :: s[j] <= m
  {
    if |s| == 1 then s[0]
    else
      var m := MaxOf(s[..|s| - 1]);
      assert forall j | 0 <= j < |s| - 1 :: s[j] == s[..|s| - 1][j];
      if s[|s| - 1] > m then s[|s| - 1] else m
  }

  function MinOf(s: seq<int>): (m: int)
    requires |s| > 0
    ensures (exists j | 0 <= j < |s| :: s[j] == m) && forall j | 0 <= j < |s| :: m <= s[j]
  {
    if |s| == 1 then s[0]
    else
      var m := MinOf(s[..|s| - 1]);
      assert forall j | 0 <= j < |s| - 1 :: s[j] == s[..|s| - 1][j];
      if s[|s| - 1] < m then s[|s| - 1] else m
  }

  function Best(maximizing: bool, s: seq<int>): int
    requires |s| > 0
  {
    if maximizing then MaxOf(s) else MinOf(s)
  }

  /** The unpruned, untimed minimax value of a node. */
  function Minimax(ctx: Ctx, pos: Position, depth: nat, maximizing: bool): int
    decreases depth, 1
  {
    match Leaf(ctx, pos, depth)
    case Some(v) => v
    case None => Best(maximizing, ChildValues(ctx, pos, depth, maximizing))
  }

  /** The minimax values of the children of `pos`, in move order. */
  function ChildValues(ctx: Ctx, pos: Position, depth: nat, maximizing: bool): (vals: seq<int>)
    requires depth >= 1
    ensures |vals| == |ctx.rules.legalMoves(pos)|
    decreases depth, 0
  {
    var moves := ctx.rules.legalMoves(pos);
    seq(|moves|, j requires 0 <= j < |moves| => Minimax(ctx, ctx.rules.apply(pos, moves[j]), depth - 1, !maximizing))
  }

  /** The `i`-th child value is the minimax value of the `i`-th successor,
      and at an expanded node it lies on the right side of the node's value. */
  lemma ChildValueAt(ctx: Ctx, pos: Position, depth: nat, maximizing: bool, i: nat)
    requires depth >= 1 && Leaf(ctx, pos, depth) == None && i < |ctx.rules.legalMoves(pos)|
    ensures var vals := ChildValues(ctx, pos, depth, maximizing);
      && vals[i] == Minimax(ctx, ctx.rules.apply(pos, ctx.rules.legalMoves(pos)[i]), depth - 1, !maximizing)
      && (maximizing ==> vals[i] <= Minimax(ctx, pos, depth, maximizing))
      && (!maximizing ==> Minimax(ctx, pos, depth, maximizing) <= vals[i])
  {
    var vals := ChildValues(ctx, pos, depth, maximizing);
    assert Minimax(ctx, pos, depth, maximizing) == Best(maximizing, vals);
  }

  // ---------------------------------------------------------------------
  // Pruning soundness

  /** The fail-soft guarantee of a search with window (`alpha`, `beta`) that
      returns `r` at a node of minimax value `v`: a bound on the right side
      when `v` falls outside the window, the exact value inside it. */
  predicate FailSoft(alpha: Score, beta: Score, v: int, r: Score) {
    && (Le(Fin(v), alpha) ==> Le(Fin(v), r) && Le(r, alpha))
    && (Le(beta, Fin(v)) ==> Le(beta, r) && Le(r, Fin(v)))
    && (Lt(alpha, Fin(v)) && Lt(Fin(v), beta) ==> r == Fin(v))
  }

  /** The best of the first `i` child values, or the loop's starting value. */
  function PrefixBest(maximizing: bool, vals: seq<int>, i: nat): Score
    requires i <= |vals|
  {
    if i == 0 then (if maximizing then NegInf else PosInf) else Fin(Best(maximizing, vals[..i]))
  }

  lemma PrefixBestStep(maximizing: bool, vals: seq<int>, i: nat)
    requires i < |vals|
    ensures PrefixBest(maximizing, vals, i + 1) == Combine(maximizing, PrefixBest(maximizing, vals, i), Fin(vals[i]))
  {
    assert vals[..i + 1][..i] == vals[..i];
  }

  /** The state of a move loop that has not been cut off, with `w` the best
      minimax value among the children examined so far. */
  predicate WindowState(maximizing: bool, a0: Score, b0: Score, w: Score, value: Score, alpha: Score, beta: Score) {
    && Lt(alpha, beta)
    && if maximizing then
         && beta == b0 && alpha == Max(a0, value)
         && (Lt(a0, w) ==> value == w)
         && (Le(w, a0) ==> Le(w, value) && Le(value, a0))
       else
         && alpha == a0 && beta == Min(b0, value)
         && (Lt(w, b0) ==> value == w)
         && (Le(b0, w) ==> Le(b0, value) && Le(value, w))
  }

  /** The solver opens a fact stated under `forall k :: Expand(k) ==> ...`
      only where a proof mentions `Expand(0)`; elsewhere it passes the fact on
      as a single proposition. */
  predicate Expand(k: nat) {
    k == 0
  }

  /** `WindowState` as the soundness lemmas of the move loop pass it on:
      equivalent to `WindowState(maximizing, a0, b0, w, value, alpha, beta)`,
      since `Expand(k)` holds only for `k == 0`. */
  ghost predicate LoopInv(maximizing: bool, a0: Score, b0: Score, w: Score, value: Score, alpha: Score, beta: Score) {
    forall k: nat {:trigger Expand(k)} :: Expand(k) ==> WindowState(maximizing, a0, b0, w, value, alpha, beta)
  }

  /** A loop state whose invariant holds has a non-empty window.  The body
      only opens the `Expand` guard of `LoopInv`. */
  lemma LoopInvWindow(maximizing: bool, a0: Score, b0: Score, w: Score, value: Score, alpha: Score, beta: Score)
    requires LoopInv(maximizing, a0, b0, w, value, alpha, beta)
    ensures Lt(alpha, beta)
  {
    assert Expand(0);
  }

  /** One maximising step: either the loop goes on with the invariant, or it
      is cut off and the running value is a fail-high bound of the child. */
  lemma MaxStep(a0: Score, b0: Score, w: Score, value: Score, alpha: Score, v: int, r: Score)
    requires WindowState(true, a0, b0, w, value, alpha, b0) && FailSoft(alpha, b0, v, r)
    ensures var value' := Max(value, r); var alpha' := Max(alpha, value');
      && (Lt(alpha', b0) ==> WindowState(true, a0, b0, Max(w, Fin(v)), value', alpha', b0))
      && (Le(b0, alpha') ==> Le(b0, value') && Le(value', Fin(v)))
  {
    LeTotalOrder(a0, value, alpha);
    LeTotalOrder(Fin(v), alpha, b0);
    LeTotalOrder(w, a0, Fin(v));
    LeTotalOrder(value, r, b0);
  }

  lemma MinStep(a0: Score, b0: Score, w: Score, value: Score, beta: Score, v: int, r: Score)
    requires WindowState(false, a0, b0, w, value, a0, beta) && FailSoft(a0, beta, v, r)
    ensures var value' := Min(value, r); var beta' := Min(beta, value');
      && (Lt(a0, beta') ==> WindowState(false, a0, b0, Min(w, Fin(v)), value', a0, beta'))
      && (Le(beta', a0) ==> Le(value', a0) && Le(Fin(v), value'))
  {
    LeTotalOrder(b0, value, beta);
    LeTotalOrder(Fin(v), beta, a0);
    LeTotalOrder(w, b0, Fin(v));
    LeTotalOrder(value, r, a0);
  }

  /** A loop that ran out of moves, its invariant holding for all children. */
  lemma LoopEndSound(maximizing: bool, a0: Score, b0: Score, node: int, value: Score, alpha: Score, beta: Score)
    requires Lt(a0, b0) && WindowState(maximizing, a0, b0, Fin(node), value, alpha, beta)
    ensures FailSoft(a0, b0, node, value)
  {
    LeTotalOrder(a0, Fin(node), b0);
    LeTotalOrder(value, Fin(node), b0);
    LeTotalOrder(value, Fin(node), a0);
  }

  /** A loop cut off after a child whose running value crossed the window. */
  lemma CutoffSound(maximizing: bool, a0: Score, b0: Score, node: int, v: int, value': Score)
    requires Lt(a0, b0)
    requires maximizing ==> Le(b0, value') && Le(value', Fin(v)) && v <= node
    requires !maximizing ==> Le(value', a0) && Le(Fin(v), value') && node <= v
    ensures FailSoft(a0, b0, node, value')
  {
    LeTotalOrder(a0, b0, value');
    LeTotalOrder(value', Fin(v), Fin(node));
    LeTotalOrder(Fin(node), Fin(v), value');
    LeTotalOrder(value', a0, b0);
  }

  /** The move loop of a node returns a fail-soft result for the node's
      minimax value, given the invariant for the children before `i`. */
  lemma LoopSound(ctx: Ctx, pos: Position, depth: nat, i: nat, value: Score,
                  alpha: Score, beta: Score, maximizing: bool, a0: Score, b0: Score, t: nat)
    requires NoTimeout(ctx) && depth >= 1 && Leaf(ctx, pos, depth) == None
    requires i <= |ctx.rules.legalMoves(pos)| && Lt(a0, b0)
    requires LoopInv(maximizing, a0, b0, PrefixBest(maximizing, ChildValues(ctx, pos, depth, maximizing), i), value, alpha, beta)
    ensures FailSoft(a0, b0, Minimax(ctx, pos, depth, maximizing),
                     MoveLoop(ctx, pos, ctx.rules.legalMoves(pos), i, depth, value, alpha, beta, maximizing, t).value)
    decreases depth, 0, |ctx.rules.legalMoves(pos)| - i, 3
  {
    if i == |ctx.rules.legalMoves(pos)| {
      LoopSoundEnd(ctx, pos, depth, value, alpha, beta, maximizing, a0, b0, t);
    } else {
      LoopSoundStep(ctx, pos, depth, i, value, alpha, beta, maximizing, a0, b0, t);
    }
  }

  /** A move loop with child `i` still to examine: after that child it is
      cut off with a fail-soft result, or the rest of the loop is. */
  lemma {:induction false} LoopSoundStep(ctx: Ctx, pos: Position, depth: nat, i: nat, value: Score,
                                         alpha: Score, beta: Score, maximizing: bool, a0: Score, b0: Score, t: nat)
    requires NoTimeout(ctx) && depth >= 1 && Leaf(ctx, pos, depth) == None
    requires i < |ctx.rules.legalMoves(pos)| && Lt(a0, b0)
    requires LoopInv(maximizing, a0, b0, PrefixBest(maximizing, ChildValues(ctx, pos, depth, maximizing), i), value, alpha, beta)
    ensures FailSoft(a0, b0, Minimax(ctx, pos, depth, maximizing),
                     MoveLoop(ctx, pos, ctx.rules.legalMoves(pos), i, depth, value, alpha, beta, maximizing, t).value)
    decreases depth, 0, |ctx.rules.legalMoves(pos)| - i, 2
  {
    var value', alpha', beta', t' := LoopChildSound(ctx, pos, depth, i, value, alpha, beta, maximizing, a0, b0, t);
    if !Le(beta', alpha') {
      LoopSound(ctx, pos, depth, i + 1, value', alpha', beta', maximizing, a0, b0, t');
    }
  }

  /** The end of a move loop that examined every child. */
  lemma LoopSoundEnd(ctx: Ctx, pos: Position, depth: nat, value: Score,
                     alpha: Score, beta: Score, maximizing: bool, a0: Score, b0: Score, t: nat)
    requires depth >= 1 && Leaf(ctx, pos, depth) == None && Lt(a0, b0)
    requires var vals := ChildValues(ctx, pos, depth, maximizing);
      LoopInv(maximizing, a0, b0, PrefixBest(maximizing, vals, |vals|), value, alpha, beta)
    ensures FailSoft(a0, b0, Minimax(ctx, pos, depth, maximizing),
                     MoveLoop(ctx, pos, ctx.rules.legalMoves(pos), |ctx.rules.legalMoves(pos)|, depth,
                              value, alpha, beta, maximizing, t).value)
  {
    var moves := ctx.rules.legalMoves(pos);
    var vals := ChildValues(ctx, pos, depth, maximizing);
    var node := Minimax(ctx, pos, depth, maximizing);
    assert node == Best(maximizing, vals);
    assert vals[..|vals|] == vals;
    assert Expand(0);
    LoopEndSound(maximizing, a0, b0, node, value, alpha, beta);
    MoveLoopEnd(ctx, pos, moves, |moves|, depth, value, alpha, beta, maximizing, t);
  }

  /** The window reasoning of one child: with the child's fail-soft result
      `r` for its minimax value `v`, either the loop is cut off with a
      fail-soft result for the node, or the invariant holds one child on. */
  lemma StepLogic(maximizing: bool, a0: Score, b0: Score, w: Score, value: Score, alpha: Score, beta: Score,
                  v: int, r: Score, node: int)
    requires Lt(a0, b0) && LoopInv(maximizing, a0, b0, w, value, alpha, beta) && FailSoft(alpha, beta, v, r)
    requires maximizing ==> v <= node
    requires !maximizing ==> node <= v
    ensures var value' := Combine(maximizing, value, r);
      var alpha' := if maximizing then Max(alpha, value') else alpha;
      var beta' := if maximizing then beta else Min(beta, value');
      && (Le(beta', alpha') ==> FailSoft(a0, b0, node, value'))
      && (!Le(beta', alpha') ==> LoopInv(maximizing, a0, b0, Combine(maximizing, w, Fin(v)), value', alpha', beta'))
  {
    assert Expand(0);
    var value' := Combine(maximizing, value, r);
    if maximizing {
      MaxStep(a0, b0, w, value, alpha, v, r);
      if Le(b0, Max(alpha, value')) {
        CutoffSound(maximizing, a0, b0, node, v, value');
      }
    } else {
      MinStep(a0, b0, w, value, beta, v, r);
      if Le(Min(beta, value'), a0) {
        CutoffSound(maximizing, a0, b0, node, v, value');
      }
    }
  }

  /** Child `i` of an expanded node, examined without a timeout: its
      search is fail-soft for its minimax value, which lies on the right
      side of the node's, and the loop's step through it written out. */
  lemma ChildSound(ctx: Ctx, pos: Position, depth: nat, i: nat, value: Score,
                   alpha: Score, beta: Score, maximizing: bool, t: nat)
    returns (c: Score, value': Score, alpha': Score, beta': Score, t': nat)
    requires NoTimeout(ctx) && depth >= 1 && Leaf(ctx, pos, depth) == None
    requires i < |ctx.rules.legalMoves(pos)| && Lt(alpha, beta)
    ensures var v := ChildValues(ctx, pos, depth, maximizing)[i];
      && FailSoft(alpha, beta, v, c)
      && (maximizing ==> v <= Minimax(ctx, pos, depth, maximizing))
      && (!maximizing ==> Minimax(ctx, pos, depth, maximizing) <= v)
    ensures value' == Combine(maximizing, value, c)
    ensures alpha' == (if maximizing then Max(alpha, value') else alpha)
    ensures beta' == (if maximizing then beta else Min(beta, value'))
    ensures var moves := ctx.rules.legalMoves(pos);
      var l := MoveLoop(ctx, pos, moves, i, depth, value, alpha, beta, maximizing, t);
      !Le(beta', alpha') ==> l.value == MoveLoop(ctx, pos, moves, i + 1, depth, value', alpha', beta', maximizing, t').value
    ensures Le(beta', alpha') ==> MoveLoop(ctx, pos, ctx.rules.legalMoves(pos), i, depth, value, alpha, beta, maximizing, t).value == value'
    decreases depth, 0, |ctx.rules.legalMoves(pos)| - i, 0
  {
    var moves := ctx.rules.legalMoves(pos);
    ChildValueAt(ctx, pos, depth, maximizing, i);
    assert !ctx.clock(t);
    c, value', alpha', beta', t' := MoveLoopChild(ctx, pos, moves, i, depth, value, alpha, beta, maximizing, t);
    AlphaBetaSound(ctx, ctx.rules.apply(pos, moves[i]), depth - 1, alpha, beta, !maximizing, t + 1);
  }

  /** Child `i` of an expanded node, examined without a timeout, the
      induction step of `LoopSound`: either the loop is cut off with a
      fail-soft result for the node, or it goes on from the next child with
      the invariant. */
  lemma {:induction false} LoopChildSound(ctx: Ctx, pos: Position, depth: nat, i: nat, value: Score,
                                          alpha: Score, beta: Score, maximizing: bool, a0: Score, b0: Score, t: nat)
    returns (value': Score, alpha': Score, beta': Score, t': nat)
    requires NoTimeout(ctx) && depth >= 1 && Leaf(ctx, pos, depth) == None
    requires i < |ctx.rules.legalMoves(pos)| && Lt(a0, b0)
    requires LoopInv(maximizing, a0, b0, PrefixBest(maximizing, ChildValues(ctx, pos, depth, maximizing), i), value, alpha, beta)
    ensures Le(beta', alpha') ==> FailSoft(a0, b0, Minimax(ctx, pos, depth, maximizing),
      MoveLoop(ctx, pos, ctx.rules.legalMoves(pos), i, depth, value, alpha, beta, maximizing, t).value)
    ensures !Le(beta', alpha') ==>
      LoopInv(maximizing, a0, b0, PrefixBest(maximizing, ChildValues(ctx, pos, depth, maximizing), i + 1),
              value', alpha', beta')
    ensures !Le(beta', alpha') ==>
      MoveLoop(ctx, pos, ctx.rules.legalMoves(pos), i, depth, value, alpha, beta, maximizing, t).value
      == MoveLoop(ctx, pos, ctx.rules.legalMoves(pos), i + 1, depth, value', alpha', beta', maximizing, t').value
    decreases depth, 0, |ctx.rules.legalMoves(pos)| - i, 1
  {
    var vals := ChildValues(ctx, pos, depth, maximizing);
    var node := Minimax(ctx, pos, depth, maximizing);
    LoopInvWindow(maximizing, a0, b0, PrefixBest(maximizing, vals, i), value, alpha, beta);
    var c;
    c, value', alpha', beta', t' := ChildSound(ctx, pos, depth, i, value, alpha, beta, maximizing, t);
    PrefixBestStep(maximizing, vals, i);
    StepLogic(maximizing, a0, b0, PrefixBest(maximizing, vals, i), value, alpha, beta, vals[i], c, node);
  }

  /** Pruning soundness: with no timeout, alpha-beta with any non-empty
      window returns the minimax value when it lies strictly inside the
      window, and a bound between it and the crossed window edge otherwise. */
  lemma {:induction false} AlphaBetaSound(ctx: Ctx, pos: Position, depth: nat, alpha: Score, beta: Score,
                                          maximizing: bool, t: nat)
    requires NoTimeout(ctx) && Lt(alpha, beta)
    ensures FailSoft(alpha, beta, Minimax(ctx, pos, depth, maximizing),
                     AlphaBeta(ctx, pos, depth, alpha, beta, maximizing, t).value)
    decreases depth, 1, 0, 0
  {
    assert !ctx.clock(t);
    match Leaf(ctx, pos, depth)
    case Some(v) =>
    case None =>
      assert Expand(0);
      LoopSound(ctx, pos, depth, 0, if maximizing then NegInf else PosInf, alpha, beta, maximizing, alpha, beta, t + 1);
  }

  /** With the full window, the pruned search returns the minimax value. */
  lemma FullWindowIsExact(ctx: Ctx, pos: Position, depth: nat, maximizing: bool, t: nat)
    requires NoTimeout(ctx)
    ensures AlphaBeta(ctx, pos, depth, NegInf, PosInf, maximizing, t).value == Fin(Minimax(ctx, pos, depth, maximizing))
  {
    AlphaBetaSound(ctx, pos, depth, NegInf, PosInf, maximizing, t);
  }

  // ---------------------------------------------------------------------
  // The root

  /** The root loop's outcome: the index of the chosen move, the poll
      counter, the moves applied, and the values returned for the moves
      examined, in order. */
  datatype RootOutcome = RootOutcome(best: nat, polls: nat, nodes: nat, seen: seq<Score>)

  /** The root loop from move `i` on.  The best move is replaced only on a
      strict improvement, alpha follows the best value, beta stays +inf. */
  function RootLoop(ctx: Ctx, pos: Position, moves: seq<Move>, depth: nat, i: nat,
                    best: nat, bestVal: Score, alpha: Score, t: nat): (r: RootOutcome)
    requires depth >= 1 && i <= |moves| && best < |moves|
    ensures r.best < |moves| && (r.best == best || i <= r.best < i + |r.seen|)
    ensures |r.seen| <= |moves| - i
    decreases |moves| - i
  {
    if i == |moves| then RootOutcome(best, t, 0, [])
    else if ctx.clock(t) then RootOutcome(best, t + 1, 0, [])
    else
      var child := AlphaBeta(ctx, ctx.rules.apply(pos, moves[i]), depth - 1, alpha, PosInf, false, t + 1);
      var improved := Lt(bestVal, child.value);
      var rest := RootLoop(ctx, pos, moves, depth, i + 1,
                           if improved then i else best, if improved then child.value else bestVal,
                           Max(alpha, child.value), child.polls);
      RootOutcome(rest.best, rest.polls, 1 + child.nodes + rest.nodes, [child.value] + rest.seen)
  }

  /** One step of the root loop that examines move `i`, written out. */
  lemma RootLoopUnroll(ctx: Ctx, pos: Position, moves: seq<Move>, depth: nat, i: nat,
                       best: nat, bestVal: Score, alpha: Score, t: nat)
    requires depth >= 1 && i < |moves| && best < |moves| && !ctx.clock(t)
    ensures var child := AlphaBeta(ctx, ctx.rules.apply(pos, moves[i]), depth - 1, alpha, PosInf, false, t + 1);
      var improved := Lt(bestVal, child.value);
      var rest := RootLoop(ctx, pos, moves, depth, i + 1,
                           if improved then i else best, if improved then child.value else bestVal,
                           Max(alpha, child.value), child.polls);
      RootLoop(ctx, pos, moves, depth, i, best, bestVal, alpha, t)
        == RootOutcome(rest.best, rest.polls, 1 + child.nodes + rest.nodes, [child.value] + rest.seen)
  {
  }

  /** The root loop keeps its choice, having examined nothing, when it is
      out of moves or its poll finds the time spent. */
  lemma RootLoopEnd(ctx: Ctx, pos: Position, moves: seq<Move>, depth: nat, i: nat,
                    best: nat, bestVal: Score, alpha: Score, t: nat)
    requires depth >= 1 && i <= |moves| && best < |moves| && (i == |moves| || ctx.clock(t))
    ensures RootLoop(ctx, pos, moves, depth, i, best, bestVal, alpha, t)
         == RootOutcome(best, if i == |moves| then t else t + 1, 0, [])
  {
  }

  /** What a top-level search returns, the polls it made, and the moves it applied. */
  datatype Selection = Selection(move: Option<Move>, polls: nat, nodes: nat)

  /** Move selection at `pos` with search depth `depth`: no move exactly when
      there is no legal move, otherwise one of the legal moves. */
  function SelectMove(ctx: Ctx, pos: Position, depth: nat): (s: Selection)
    requires depth >= 1
    ensures s.move.None? <==> ctx.rules.legalMoves(pos) == []
    ensures s.move.Some? ==> s.move.value in ctx.rules.legalMoves(pos)
  {
    var moves := ctx.rules.legalMoves(pos);
    if moves == [] then Selection(None, 0, 0)
    else
      var r := RootLoop(ctx, pos, moves, depth, 0, 0, NegInf, NegInf, 0);
      Selection(Some(moves[r.best]), r.polls, r.nodes)
  }

  /** `k` is the first index of a largest element of `s`. */
  predicate FirstArgMax(s: seq<Score>, k: int) {
    && 0 <= k < |s|
    && (forall j | 0 <= j < |s| :: Le(s[j], s[k]))
    && (forall j | 0 <= j < k :: Lt(s[j], s[k]))
  }

  /** `k` is the first best of the values `s`, or 0 when `s` is empty. */
  predicate EarliestBest(s: seq<Score>, k: int) {
    && (s == [] ==> k == 0)
    && (s != [] ==> FirstArgMax(s, k))
  }

  /** The root's bookkeeping for the examined values `prior`: the chosen
      index is the first best of them, or 0 with -inf when there are none. */
  predicate RootInv(prior: seq<Score>, best: nat, bestVal: Score) {
    && (prior == [] ==> best == 0 && bestVal == NegInf)
    && (prior != [] ==> FirstArgMax(prior, best) && bestVal == prior[best])
  }

  lemma RootStep(prior: seq<Score>, best: nat, bestVal: Score, v: Score)
    requires RootInv(prior, best, bestVal)
    ensures var improved := Lt(bestVal, v);
      && Max(bestVal, v) == (if improved then v else bestVal)
      && RootInv(prior + [v], if improved then |prior| else best, if improved then v else bestVal)
  {
    var prior' := prior + [v];
    forall j | 0 <= j < |prior| ensures Le(prior[j], bestVal) {
      LeTotalOrder(prior[j], bestVal, bestVal);
    }
    if Lt(bestVal, v) {
      forall j | 0 <= j < |prior| ensures Lt(prior'[j], prior'[|prior|]) {
        LeTotalOrder(prior[j], bestVal, v);
      }
      LeTotalOrder(bestVal, v, v);
    } else {
      LeTotalOrder(v, bestVal, v);
    }
  }

  /** Regrouping one value between two sequences.  As a lemma the step costs
      the solver far less at its callers than the same assertion inline. */
  lemma ConcatAssoc(a: seq<Score>, v: Score, b: seq<Score>)
    ensures a + ([v] + b) == (a + [v]) + b
  {
  }

  /** Root move `i` examined: the bookkeeping takes in its value `v`, and
      the root loop from `i` chooses what the root loop from `i + 1` does,
      having seen `v` first. */
  lemma RootEarliestChild(ctx: Ctx, pos: Position, moves: seq<Move>, depth: nat, i: nat,
                          best: nat, bestVal: Score, t: nat, prior: seq<Score>)
    returns (best': nat, bestVal': Score, t': nat, v: Score)
    requires depth >= 1 && i < |moves| && best < |moves| && |prior| == i && !ctx.clock(t)
    requires RootInv(prior, best, bestVal)
    ensures best' < |moves| && RootInv(prior + [v], best', bestVal')
    ensures var r := RootLoop(ctx, pos, moves, depth, i, best, bestVal, bestVal, t);
      var rest := RootLoop(ctx, pos, moves, depth, i + 1, best', bestVal', bestVal', t');
      r.best == rest.best && prior + r.seen == (prior + [v]) + rest.seen
  {
    var child := AlphaBeta(ctx, ctx.rules.apply(pos, moves[i]), depth - 1, bestVal, PosInf, false, t + 1);
    v := child.value;
    RootStep(prior, best, bestVal, v);
    var improved := Lt(bestVal, v);
    best' := if improved then i else best;
    bestVal' := if improved then v else bestVal;
    t' := child.polls;
    assert Max(bestVal, v) == bestVal';
    RootLoopUnroll(ctx, pos, moves, depth, i, best, bestVal, bestVal, t);
    var rest := RootLoop(ctx, pos, moves, depth, i + 1, best', bestVal', bestVal', t');
    ConcatAssoc(prior, v, rest.seen);
  }

  lemma {:induction false} RootLoopKeepsEarliestBest(ctx: Ctx, pos: Position, moves: seq<Move>, depth: nat, i: nat,
                                                     best: nat, bestVal: Score, t: nat, prior: seq<Score>)
    requires depth >= 1 && i <= |moves| && best < |moves| && |prior| == i
    requires RootInv(prior, best, bestVal)
    ensures var r := RootLoop(ctx, pos, moves, depth, i, best, bestVal, bestVal, t);
      EarliestBest(prior + r.seen, r.best)
    decreases |moves| - i
  {
    var r := RootLoop(ctx, pos, moves, depth, i, best, bestVal, bestVal, t);
    if i == |moves| || ctx.clock(t) {
      RootLoopEnd(ctx, pos, moves, depth, i, best, bestVal, bestVal, t);
      assert prior + r.seen == prior;
    } else {
      var best', bestVal', t', v := RootEarliestChild(ctx, pos, moves, depth, i, best, bestVal, t, prior);
      RootLoopKeepsEarliestBest(ctx, pos, moves, depth, i + 1, best', bestVal', t', prior + [v]);
      var rest := RootLoop(ctx, pos, moves, depth, i + 1, best', bestVal', bestVal', t');
      assert prior + r.seen == (prior + [v]) + rest.seen && r.best == rest.best;
    }
  }

  /** Ties keep the earliest move, with or without a timeout: the chosen move
      is the first root move whose returned value is the largest among the
      moves examined, and the first legal move when none was examined. */
  lemma SelectMoveKeepsEarliestBest(ctx: Ctx, pos: Position, depth: nat)
    requires depth >= 1 && ctx.rules.legalMoves(pos) != []
    ensures var moves := ctx.rules.legalMoves(pos);
      var r := RootLoop(ctx, pos, moves, depth, 0, 0, NegInf, NegInf, 0);
      && SelectMove(ctx, pos, depth).move == Some(moves[r.best])
      && EarliestBest(r.seen, r.best)
  {
    var moves := ctx.rules.legalMoves(pos);
    RootLoopKeepsEarliestBest(ctx, pos, moves, depth, 0, 0, NegInf, 0, []);
    var r := RootLoop(ctx, pos, moves, depth, 0, 0, NegInf, NegInf, 0);
    assert [] + r.seen == r.seen;
  }

  /** When the very first poll finds the time spent, the first legal move is
      returned without applying any move. */
  lemma FirstPollTimeoutKeepsFirstMove(ctx: Ctx, pos: Position, depth: nat)
    requires depth >= 1 && ctx.rules.legalMoves(pos) != [] && ctx.clock(0)
    ensures SelectMove(ctx, pos, depth) == Selection(Some(ctx.rules.legalMoves(pos)[0]), 1, 0)
  {
  }

  /** `k` is the first index of a largest element of `s`, among the first `n`. */
  predicate FirstMaximum(s: seq<int>, n: nat, k: int) {
    && 0 <= k < n <= |s|
    && (forall j | 0 <= j < n :: s[j] <= s[k])
    && (forall j | 0 <= j < k :: s[j] < s[k])
  }

  /** The root's bookkeeping against the minimax values of the first `i`
      root moves: the best value so far and the first move attaining it. */
  predicate RootMinimaxInv(vals: seq<int>, i: nat, best: nat, bestVal: Score) {
    && i <= |vals|
    && (i == 0 ==> best == 0 && bestVal == NegInf)
    && (i > 0 ==> FirstMaximum(vals, i, best) && bestVal == Fin(vals[best]))
  }

  lemma RootMinimaxStep(vals: seq<int>, i: nat, best: nat, bestVal: Score, r: Score)
    requires i < |vals| && RootMinimaxInv(vals, i, best, bestVal) && FailSoft(bestVal, PosInf, vals[i], r)
    ensures var improved := Lt(bestVal, r);
      && Max(bestVal, r) == (if improved then r else bestVal)
      && RootMinimaxInv(vals, i + 1, if improved then i else best, if improved then r else bestVal)
  {
    if Lt(bestVal, Fin(vals[i])) {
      assert r == Fin(vals[i]);
    } else {
      LeTotalOrder(r, bestVal, Fin(vals[i]));
    }
  }

  /** Root move `i` examined without a timeout: the bookkeeping against the
      minimax values moves one move on, and the root loop from `i` chooses
      what the root loop from `i + 1` chooses, having seen one more value. */
  lemma RootMinimaxChild(ctx: Ctx, pos: Position, depth: nat, i: nat, best: nat, bestVal: Score, t: nat)
    returns (best': nat, bestVal': Score, t': nat)
    requires NoTimeout(ctx) && depth >= 1
    requires i < |ctx.rules.legalMoves(pos)| && best < |ctx.rules.legalMoves(pos)|
    requires RootMinimaxInv(ChildValues(ctx, pos, depth, true), i, best, bestVal)
    ensures best' < |ctx.rules.legalMoves(pos)|
    ensures RootMinimaxInv(ChildValues(ctx, pos, depth, true), i + 1, best', bestVal')
    ensures var moves := ctx.rules.legalMoves(pos);
      var r := RootLoop(ctx, pos, moves, depth, i, best, bestVal, bestVal, t);
      var rest := RootLoop(ctx, pos, moves, depth, i + 1, best', bestVal', bestVal', t');
      r.best == rest.best && |r.seen| == 1 + |rest.seen|
  {
    var moves := ctx.rules.legalMoves(pos);
    var vals := ChildValues(ctx, pos, depth, true);
    assert !ctx.clock(t);
    var next := ctx.rules.apply(pos, moves[i]);
    assert vals[i] == Minimax(ctx, next, depth - 1, false);
    AlphaBetaSound(ctx, next, depth - 1, bestVal, PosInf, false, t + 1);
    var child := AlphaBeta(ctx, next, depth - 1, bestVal, PosInf, false, t + 1);
    RootMinimaxStep(vals, i, best, bestVal, child.value);
    var improved := Lt(bestVal, child.value);
    best' := if improved then i else best;
    bestVal' := if improved then child.value else bestVal;
    t' := child.polls;
    RootLoopUnroll(ctx, pos, moves, depth, i, best, bestVal, bestVal, t);
  }

  lemma {:induction false} RootLoopFollowsMinimax(ctx: Ctx, pos: Position, depth: nat, i: nat,
                                                  best: nat, bestVal: Score, t: nat)
    requires NoTimeout(ctx) && depth >= 1
    requires i <= |ctx.rules.legalMoves(pos)| && best < |ctx.rules.legalMoves(pos)|
    requires RootMinimaxInv(ChildValues(ctx, pos, depth, true), i, best, bestVal)
    ensures var moves := ctx.rules.legalMoves(pos);
      var r := RootLoop(ctx, pos, moves, depth, i, best, bestVal, bestVal, t);
      FirstMaximum(ChildValues(ctx, pos, depth, true), |moves|, r.best) && |r.seen| == |moves| - i
    decreases |ctx.rules.legalMoves(pos)| - i
  {
    if i < |ctx.rules.legalMoves(pos)| {
      var best', bestVal', t' := RootMinimaxChild(ctx, pos, depth, i, best, bestVal, t);
      RootLoopFollowsMinimax(ctx, pos, depth, i + 1, best', bestVal', t');
    } else {
      RootLoopEnd(ctx, pos, ctx.rules.legalMoves(pos), depth, i, best, bestVal, bestVal, t);
    }
  }

  /** Pruning does not change the decision: with no timeout every root move
      is examined and the chosen move is the first one whose plain minimax
      value is the largest. */
  lemma BestMoveIsFirstMinimaxMove(ctx: Ctx, pos: Position, depth: nat)
    requires NoTimeout(ctx) && depth >= 1 && ctx.rules.legalMoves(pos) != []
    ensures exists k :: FirstMaximum(ChildValues(ctx, pos, depth, true), |ctx.rules.legalMoves(pos)|, k)
                        && SelectMove(ctx, pos, depth).move == Some(ctx.rules.legalMoves(pos)[k])
  {
    var moves := ctx.rules.legalMoves(pos);
    RootLoopFollowsMinimax(ctx, pos, depth, 0, 0, NegInf, 0);
    var r := RootLoop(ctx, pos, moves, depth, 0, 0, NegInf, NegInf, 0);
    assert FirstMaximum(ChildValues(ctx, pos, depth, true), |moves|, r.best);
  }

  /** The first-maximum characterisation pins down a single index. */
  lemma FirstMaximumUnique(s: seq<int>, n: nat, k: int, k': int)
    requires FirstMaximum(s, n, k) && FirstMaximum(s, n, k')
    ensures k == k'
  {
    assert s[k] <= s[k'] && s[k'] <= s[k];
    assert !(k < k');
    assert !(k' < k);
  }

  /** Mate scores dominate: when no square contributes more than `bound` and
      a full board of such squares plus the check and king terms stays below
      the mate magnitude, every static evaluation lies strictly between the
      two mate scores. */
  lemma MateDominatesEvaluation(cfg: Config, rules: Rules, rootWhite: bool, pos: Position, bound: nat)
    requires CellsBounded(cfg, bound)
    requires cfg.height * (cfg.width * bound) + 302 < MateScore
    ensures -MateScore < Evaluation(cfg, rules, rootWhite, pos) < MateScore
  {
    EvaluationBound(cfg, rules, rootWhite, pos, bound);
  }
}
