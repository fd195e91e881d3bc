/** The board collaborator the engine talks to.  Its move generator,
    legality rules, check detection and game-state classification are not
    part of this model: they are taken as arbitrary total functions of the
    position (a `Rules` record).  What the engine relies on is captured by
    the `Board` class: a current position that `MakeMove` replaces by its
    successor, pushing the old one on a history stack, and that `UndoMove`
    restores from the top of that stack. */
module Boards {

  /** A move as the generator hands it out; the engine only passes it back
      and compares it for identity. */
  type Move(==)

  /** Piece kinds that have a piece-square table, and any other kind. */
  datatype Kind = Pawn | Knight | Bishop | King | Other(name: string)

  /** One square of the grid: the empty marker or a coloured piece. */
  datatype Cell = Empty | Piece(kind: Kind, white: bool)

  /** What the engine can read of a position: the grid (rows indexed from 0)
      and whose turn it is. */
  datatype Position = Position(grid: seq<seq<Cell>>, whiteToMove: bool)

  datatype GameState = Normal | Checkmate | Stalemate

  /** The cell at row `r`, column `c`; a square outside the grid reads as empty. */
  function CellAt(grid: seq<seq<Cell>>, r: int, c: int): Cell {
    if 0 <= r < |grid| && 0 <= c < |grid[r]| then grid[r][c] else Empty
  }

  /** The collaborator's game logic as seen by the engine. */
  datatype Rules = Rules(
    legalMoves: Position -> seq<Move>,
    apply: (Position, Move) -> Position,
    gameState: Position -> GameState,
    inCheck: Position -> bool)

  /** The shared, mutable board.  `trace` records every move ever applied,
      so that callers can count `MakeMove` calls. */
  class Board {
    const rules: Rules
    var pos: Position
    var history: seq<Position>
    ghost var trace: seq<Move>

    constructor (rules: Rules, start: Position)
      ensures this.rules == rules && pos == start
      ensures history == [] && trace == []
    {
      this.rules := rules;
      pos := start;
      history := [];
      trace := [];
    }

    function LegalMoves(): seq<Move>
      reads this
    {
      rules.legalMoves(pos)
    }

    function State(): GameState
      reads this
    {
      rules.gameState(pos)
    }

    function InCheck(): bool
      reads this
    {
      rules.inCheck(pos)
    }

    /** Applies `m` in place and remembers the position it replaced. */
    method MakeMove(m: Move)
      modifies this
      ensures pos == rules.apply(old(pos), m)
      ensures history == old(history) + [old(pos)]
      ensures trace == old(trace) + [m]
    {
      history := history + [pos];
      pos := rules.apply(pos, m);
      trace := trace + [m];
    }

    /** Reverts the most recent `MakeMove`. */
    method UndoMove()
      requires history != []
      modifies this
      ensures pos == old(history)[|old(history)| - 1]
      ensures history == old(history)[..|old(history)| - 1]
      ensures trace == old(trace)
    {
      pos := history[|history| - 1];
      history := history[..|history| - 1];
    }
  }
}
