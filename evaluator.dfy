/** The static evaluator: material, piece-square bonuses, a check term and
    king-absence terms, summed from white's point of view and negated when
    the root side is black.  The piece values, the four piece-square tables
    and the board dimensions come from the configuration module of the
    program, whose contents are not part of this model: they are the
    parameters gathered in `Config`. */
module Evaluator {
  import opened Boards

  datatype Config = Config(
    height: nat,
    width: nat,
    pieceValues: map<Cell, int>,
    pawnPst: seq<seq<int>>,
    knightPst: seq<seq<int>>,
    bishopPst: seq<seq<int>>,
    kingPst: seq<seq<int>>)

  /** Entry `[r][c]` of a table; outside the table it reads as 0. */
  function TableAt(t: seq<seq<int>>, r: int, c: int): int {
    if 0 <= r < |t| && 0 <= c < |t[r]| then t[r][c] else 0
  }

  /** Material value of a cell, 0 for a cell the value map does not list. */
  function PieceValue(cfg: Config, p: Cell): int {
    if p in cfg.pieceValues then cfg.pieceValues[p] else 0
  }

  /** The piece-square table of a tabled kind. */
  function Table(cfg: Config, k: Kind): seq<seq<int>>
    requires !k.Other?
  {
    match k
    case Pawn => cfg.pawnPst
    case Knight => cfg.knightPst
    case Bishop => cfg.bishopPst
    case King => cfg.kingPst
  }

  /** Positional bonus: the tables are authored for white; a black piece
      reads the vertically mirrored row and the bonus is negated.  Kinds
      without a table, and the empty square, get no bonus. */
  function PstValue(cfg: Config, p: Cell, r: int, c: int): (v: int)
    ensures p == Empty || p.kind.Other? ==> v == 0
    ensures p.Piece? && !p.kind.Other? ==>
      v == (if p.white then TableAt(Table(cfg, p.kind), r, c) else -TableAt(Table(cfg, p.kind), cfg.height - 1 - r, c))
  {
    var mirrored := cfg.height - 1 - r;
    match p
    case Piece(Pawn, true) => TableAt(cfg.pawnPst, r, c)
    case Piece(Pawn, false) => -TableAt(cfg.pawnPst, mirrored, c)
    case Piece(Knight, true) => TableAt(cfg.knightPst, r, c)
    case Piece(Knight, false) => -TableAt(cfg.knightPst, mirrored, c)
    case Piece(Bishop, true) => TableAt(cfg.bishopPst, r, c)
    case Piece(Bishop, false) => -TableAt(cfg.bishopPst, mirrored, c)
    case Piece(King, true) => TableAt(cfg.kingPst, r, c)
    case Piece(King, false) => -TableAt(cfg.kingPst, mirrored, c)
    case _ => 0
  }

  /** What one square adds to the white-perspective sum. */
  function CellScore(cfg: Config, p: Cell, r: int, c: int): int {
    if p == Empty then 0 else PieceValue(cfg, p) + PstValue(cfg, p, r, c)
  }

  /** The sum over columns `0 .. c-1` of row `r`. */
  function RowScore(cfg: Config, grid: seq<seq<Cell>>, r: int, c: nat): int {
    if c == 0 then 0
    else RowScore(cfg, grid, r, c - 1) + CellScore(cfg, CellAt(grid, r, c - 1), r, c - 1)
  }

  /** The sum over rows `0 .. r-1`, each over the full board width. */
  function GridScore(cfg: Config, grid: seq<seq<Cell>>, r: nat): int {
    if r == 0 then 0
    else GridScore(cfg, grid, r - 1) + RowScore(cfg, grid, r - 1, cfg.width)
  }

  /** Material plus piece-square bonuses over the whole board, from white's side. */
  function Material(cfg: Config, grid: seq<seq<Cell>>): int {
    GridScore(cfg, grid, cfg.height)
  }

  /** Whether the king of the given colour stands on some square of the
      board.  A king found is really in the grid, not a default read off
      its edge. */
  predicate KingPresent(cfg: Config, grid: seq<seq<Cell>>, white: bool)
    ensures KingPresent(cfg, grid, white) ==>
      0 < cfg.height && 0 < cfg.width && exists r | 0 <= r < |grid| :: Piece(King, white) in grid[r]
  {
    exists r, c | 0 <= r < cfg.height && 0 <= c < cfg.width :: CellAt(grid, r, c) == Piece(King, white)
  }

  /** The king-absence terms: 300 against white per missing white king,
      300 for white per missing black king. */
  function KingTerm(cfg: Config, grid: seq<seq<Cell>>): (k: int)
    ensures k == 300 * ((if KingPresent(cfg, grid, false) then 0 else 1)
                        - (if KingPresent(cfg, grid, true) then 0 else 1))
  {
    (if KingPresent(cfg, grid, true) then 0 else -300)
    + (if KingPresent(cfg, grid, false) then 0 else 300)
  }

  /** The check adjustment, relative to the root side: nonzero exactly when
      the side to move is in check, negative exactly when that side is the
      root side, and 2 in size. */
  function CheckTerm(rules: Rules, rootWhite: bool, pos: Position): (d: int)
    ensures d != 0 <==> rules.inCheck(pos)
    ensures d < 0 <==> rules.inCheck(pos) && pos.whiteToMove == rootWhite
    ensures d == 0 || d == 2 || d == -2
  {
    if rules.inCheck(pos) then (if pos.whiteToMove == rootWhite then -2 else 2) else 0
  }

  /** `x` seen from the root side: unchanged for white, negated for black. */
  function Oriented(rootWhite: bool, x: int): int {
    if rootWhite then x else -x
  }

  /** The evaluation as the program computes it: the root-relative check
      term is added to the white-perspective sum before the final negation.
      So, seen from the root side, a white side to move in check always
      costs 2 and a black side to move in check always gains 2, whoever the
      root is. */
  function Evaluation(cfg: Config, rules: Rules, rootWhite: bool, pos: Position): (e: int)
    ensures e == Oriented(rootWhite, Material(cfg, pos.grid) + KingTerm(cfg, pos.grid))
               + (if rules.inCheck(pos) then (if pos.whiteToMove then -2 else 2) else 0)
  {
    var score := Material(cfg, pos.grid) + CheckTerm(rules, rootWhite, pos) + KingTerm(cfg, pos.grid);
    Oriented(rootWhite, score)
  }

  // ---------------------------------------------------------------------
  // Piece-square lookup

  /** A black piece of a tabled kind scores the negated bonus of the white
      piece of that kind on the vertically mirrored square, and back. */
  lemma PstMirror(cfg: Config, k: Kind, r: int, c: int)
    requires !k.Other?
    ensures PstValue(cfg, Piece(k, false), r, c) == -PstValue(cfg, Piece(k, true), cfg.height - 1 - r, c)
    ensures PstValue(cfg, Piece(k, true), r, c) == -PstValue(cfg, Piece(k, false), cfg.height - 1 - r, c)
  {
  }

  // ---------------------------------------------------------------------
  // King-absence and check terms

  /** The king terms are added to, never substituted for, the rest of the
      sum: the evaluation still depends on the material of a board with a
      missing king. */
  lemma KingTermsAdditive(cfg: Config, rules: Rules, rootWhite: bool, pos: Position)
    ensures Evaluation(cfg, rules, rootWhite, pos)
         == Oriented(rootWhite, Material(cfg, pos.grid) + CheckTerm(rules, rootWhite, pos))
          + Oriented(rootWhite, KingTerm(cfg, pos.grid))
  {
  }

  /** With the check term added before the negation (see `Evaluation`), a
      black root that is to move and in check scores 2 more than
      on the same position out of check, where the comment beside the check
      term speaks of a penalty for the side in check. */
  lemma BlackRootRewardedForBeingInCheck(cfg: Config, rules: Rules, pos: Position)
    requires !pos.whiteToMove && rules.inCheck(pos)
    ensures Evaluation(cfg, rules, false, pos)
         == Evaluation(cfg, rules.(inCheck := _ => false), false, pos) + 2
  {
  }

  // ---------------------------------------------------------------------
  // Magnitude of the heuristic sum

  function Abs(x: int): nat {
    if x < 0 then -x else x
  }

  /** Every square, whatever it holds, contributes at most `bound` in size. */
  ghost predicate CellsBounded(cfg: Config, bound: nat) {
    forall p: Cell, r: int, c: int | 0 <= r < cfg.height && 0 <= c < cfg.width :: Abs(CellScore(cfg, p, r, c)) <= bound
  }

  lemma {:induction false} RowScoreBound(cfg: Config, grid: seq<seq<Cell>>, r: int, c: nat, bound: nat)
    requires CellsBounded(cfg, bound) && 0 <= r < cfg.height && c <= cfg.width
    ensures Abs(RowScore(cfg, grid, r, c)) <= c * bound
  {
    if c > 0 {
      RowScoreBound(cfg, grid, r, c - 1, bound);
      assert Abs(CellScore(cfg, CellAt(grid, r, c - 1), r, c - 1)) <= bound;
      assert (c - 1) * bound + bound == c * bound;
    }
  }

  lemma {:induction false} GridScoreBound(cfg: Config, grid: seq<seq<Cell>>, r: nat, bound: nat)
    requires CellsBounded(cfg, bound) && r <= cfg.height
    ensures Abs(GridScore(cfg, grid, r)) <= r * (cfg.width * bound)
  {
    if r > 0 {
      GridScoreBound(cfg, grid, r - 1, bound);
      RowScoreBound(cfg, grid, r - 1, cfg.width, bound);
      assert (r - 1) * (cfg.width * bound) + cfg.width * bound == r * (cfg.width * bound);
    }
  }

  /** When no square contributes more than `bound`, no evaluation exceeds the
      full board of such squares plus the check and king terms. */
  lemma EvaluationBound(cfg: Config, rules: Rules, rootWhite: bool, pos: Position, bound: nat)
    requires CellsBounded(cfg, bound)
    ensures Abs(Evaluation(cfg, rules, rootWhite, pos)) <= cfg.height * (cfg.width * bound) + 302
  {
    GridScoreBound(cfg, pos.grid, cfg.height, bound);
  }
}
