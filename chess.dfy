/**
 * The surface of the chess rules engine that the AI consumes.
 *
 * The engine itself (move generation, check and checkmate detection,
 * draw rules) is not modelled: a position is an opaque value, and the
 * engine is a record of total functions over positions. The one fact
 * about the engine that the search relies on is stated as `WellFormed`.
 * `Board` models the mutable board object: a root position plus a stack
 * of moves, changed by `Push` and `Pop`.
 */
module Chess {

  datatype Option<T> = None | Some(value: T)

  datatype Color = White | Black

  datatype PieceType = Pawn | Knight | Bishop | Rook | Queen | King

  datatype Piece = Piece(kind: PieceType, color: Color)

  /** Squares are numbered 0 (a1) to 63 (h8), rank by rank. */
  type Square = x: int | 0 <= x < 64

  const D4: Square := 27
  const E4: Square := 28
  const D5: Square := 35
  const E5: Square := 36

  /** A move as the engine hands it out: a token fed back to `apply`. */
  datatype Move = Move(from: Square, to: Square, promotion: Option<PieceType>)

  /** A full game state; its inside belongs to the rules engine. */
  type Position(==, !new)

  datatype Rules = Rules(
    legalMoves: Position -> seq<Move>,
    apply: (Position, Move) -> Position,
    isCheckmate: Position -> bool,
    isGameOver: Position -> bool,
    pieceAt: (Position, Square) -> Option<Piece>,
    turn: Position -> Color)

  /**
   * What the search assumes of the engine: a position that is not over
   * has a legal move (no legal move means checkmate or stalemate, both
   * of which end the game).
   */
  ghost predicate WellFormed(r: Rules) {
    forall p :: !r.isGameOver(p) ==> r.legalMoves(p) != []
  }

  /** The position reached from `root` by playing `moves` in order. */
  function Replay(r: Rules, root: Position, moves: seq<Move>): Position
    decreases |moves|
  {
    if moves == [] then root
    else r.apply(Replay(r, root, moves[..|moves| - 1]), moves[|moves| - 1])
  }

  /**
   * The mutable board: the position it shows is always the root with
   * the move stack replayed on it. The ghost field `played` records every
   * move `Push` was given, in order, and `pops` counts the calls of `Pop`,
   * so that callers can state which moves a search tries and that each
   * one is taken back.
   */
  class Board {
    const rules: Rules
    const root: Position
    var moveStack: seq<Move>
    ghost var played: seq<Move>
    ghost var pops: nat

    constructor (rules: Rules, root: Position)
      ensures this.rules == rules && this.root == root
      ensures moveStack == [] && played == [] && pops == 0
      ensures Current() == root
    {
      this.rules := rules;
      this.root := root;
      moveStack := [];
      played, pops := [], 0;
    }

    /** The position the board currently shows. */
    function Current(): Position
      reads this
    {
      Replay(rules, root, moveStack)
    }

    function Turn(): Color
      reads this
    {
      rules.turn(Current())
    }

    function LegalMoves(): seq<Move>
      reads this
    {
      rules.legalMoves(Current())
    }

    function IsCheckmate(): bool
      reads this
    {
      rules.isCheckmate(Current())
    }

    function IsGameOver(): bool
      reads this
    {
      rules.isGameOver(Current())
    }

    function PieceAt(sq: Square): Option<Piece>
      reads this
    {
      rules.pieceAt(Current(), sq)
    }

    /** Plays `m` on the board. */
    method Push(m: Move)
      modifies this
      ensures moveStack == old(moveStack) + [m]
      ensures Current() == rules.apply(old(Current()), m)
      ensures played == old(played) + [m] && pops == old(pops)
    {
      moveStack := moveStack + [m];
      played := played + [m];
      assert moveStack[..|moveStack| - 1] == old(moveStack);
    }

    /** Takes back the last move played; the board must have one. */
    method Pop() returns (m: Move)
      requires moveStack != []
      modifies this
      ensures old(moveStack) == moveStack + [m]
      ensures old(Current()) == rules.apply(Current(), m)
      ensures pops == old(pops) + 1 && played == old(played)
    {
      m := moveStack[|moveStack| - 1];
      moveStack := moveStack[..|moveStack| - 1];
      pops := pops + 1;
    }
  }
}
