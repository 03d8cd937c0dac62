/**
 * The static evaluation of a position, from White's point of view:
 * a mate score when the side to move is checkmated, otherwise signed
 * material plus a centre bonus plus a mobility term.
 */
module Evaluation {
  import opened Chess

  const MateScore: int := 10000
  const CentreWeight: int := 50
  const MoveWeight: int := 10

  /** The weight of every kind of piece. */
  const PieceValues: map<PieceType, int> :=
    map[Pawn := 100, Knight := 320, Bishop := 330, Rook := 500, Queen := 900, King := 20000]

  /** The four centre squares, in the order they are examined. */
  const CentreSquares: seq<Square> := [D4, E4, D5, E5]

  /** The table has an entry for every kind, and every entry is positive. */
  lemma PieceValuesTotal(k: PieceType)
    ensures k in PieceValues && PieceValues[k] > 0
  {
  }

  /** The table entry for kind k. */
  function Value(k: PieceType): int {
    PieceValuesTotal(k);
    PieceValues[k]
  }

  /** What the contents of one square add to the material score. */
  function SignedValue(occupant: Option<Piece>): int {
    match occupant
    case None => 0
    case Some(pc) => if pc.color == White then Value(pc.kind) else -Value(pc.kind)
  }

  /** Signed material over the squares 0 .. n-1. */
  function Material(r: Rules, p: Position, n: nat): int
    requires n <= 64
  {
    if n == 0 then 0 else Material(r, p, n - 1) + SignedValue(r.pieceAt(p, n - 1))
  }

  /** The weight of the pieces of colour `c` over the squares 0 .. n-1. */
  function SideMaterial(r: Rules, p: Position, c: Color, n: nat): int
    requires n <= 64
  {
    if n == 0 then 0
    else
      var occupant := r.pieceAt(p, n - 1);
      SideMaterial(r, p, c, n - 1) +
        (if occupant.Some? && occupant.value.color == c then Value(occupant.value.kind) else 0)
  }

  /** What one centre square adds to the centre bonus. */
  function CentreValue(occupant: Option<Piece>): int {
    match occupant
    case None => 0
    case Some(pc) => if pc.color == White then CentreWeight else -CentreWeight
  }

  /** The centre bonus over the first k centre squares. */
  function CentreBonus(r: Rules, p: Position, k: nat): int
    requires k <= |CentreSquares|
  {
    if k == 0 then 0 else CentreBonus(r, p, k - 1) + CentreValue(r.pieceAt(p, CentreSquares[k - 1]))
  }

  /**
   * The mobility term: the full centre bonus plus ten per legal move of
   * the side to move. The move count is added with the same sign
   * whichever side is to move.
   */
  function Mobility(r: Rules, p: Position): int {
    CentreBonus(r, p, |CentreSquares|) + MoveWeight * |r.legalMoves(p)|
  }

  /** The full evaluation. */
  function Evaluate(r: Rules, p: Position): int {
    if r.isCheckmate(p) then (if r.turn(p) == White then -MateScore else MateScore)
    else Material(r, p, 64) + Mobility(r, p)
  }

  // ---------------------------------------------------------------------
  // Properties of the evaluation

  /**
   * A checkmated side to move loses outright: the score is the mate score
   * against it, whatever the material and the mobility.
   */
  lemma MateOverridesMaterial(r: Rules, p: Position)
    requires r.isCheckmate(p)
    ensures Evaluate(r, p) == (if r.turn(p) == White then -10000 else 10000)
    ensures Evaluate(r, p) < 0 <==> r.turn(p) == White
  {
  }

  /** Signed material is White's material minus Black's. */
  lemma {:induction false} MaterialIsDifference(r: Rules, p: Position, n: nat)
    requires n <= 64
    ensures Material(r, p, n) == SideMaterial(r, p, White, n) - SideMaterial(r, p, Black, n)
  {
    if n > 0 {
      MaterialIsDifference(r, p, n - 1);
    }
  }

  /** The centre bonus lies between -50 and 50 per square examined. */
  lemma {:induction false} CentreBonusBounded(r: Rules, p: Position, k: nat)
    requires k <= |CentreSquares|
    ensures -CentreWeight * k <= CentreBonus(r, p, k) <= CentreWeight * k
  {
    if k > 0 {
      CentreBonusBounded(r, p, k - 1);
    }
  }

  /**
   * The mobility term is the centre bonus, in [-200, 200], plus ten per
   * legal move; in particular it is never below -200.
   */
  lemma MobilityBounds(r: Rules, p: Position)
    ensures -200 + 10 * |r.legalMoves(p)| <= Mobility(r, p) <= 200 + 10 * |r.legalMoves(p)|
    ensures Mobility(r, p) >= -200
  {
    CentreBonusBounded(r, p, |CentreSquares|);
  }

  /** Two positions that agree on the first k centre squares have the same bonus over them. */
  lemma {:induction false} CentreBonusDependsOnCentre(r: Rules, p: Position, q: Position, k: nat)
    requires k <= |CentreSquares|
    requires forall i :: 0 <= i < k ==> r.pieceAt(p, CentreSquares[i]) == r.pieceAt(q, CentreSquares[i])
    ensures CentreBonus(r, p, k) == CentreBonus(r, q, k)
  {
    if k > 0 {
      CentreBonusDependsOnCentre(r, p, q, k - 1);
    }
  }

  /**
   * With the centre occupied alike, the mobility terms of two positions
   * differ by exactly ten per legal move, whichever side is to move in
   * either of them.
   */
  lemma MobilityGrowsWithMoves(r: Rules, p: Position, q: Position)
    requires forall sq :: sq in CentreSquares ==> r.pieceAt(p, sq) == r.pieceAt(q, sq)
    ensures Mobility(r, q) - Mobility(r, p) == 10 * (|r.legalMoves(q)| - |r.legalMoves(p)|)
    ensures |r.legalMoves(p)| < |r.legalMoves(q)| ==> Mobility(r, p) < Mobility(r, q)
  {
    forall i | 0 <= i < |CentreSquares|
      ensures r.pieceAt(p, CentreSquares[i]) == r.pieceAt(q, CentreSquares[i])
    {
      assert CentreSquares[i] in CentreSquares;
    }
    CentreBonusDependsOnCentre(r, p, q, |CentreSquares|);
  }

  // ---------------------------------------------------------------------
  // Colour symmetry, and where the evaluation breaks it

  function Flipped(occupant: Option<Piece>): Option<Piece> {
    match occupant
    case None => None
    case Some(pc) => Some(Piece(pc.kind, if pc.color == White then Black else White))
  }

  /** q shows every piece of p on the same square with the other colour. */
  ghost predicate ColourMirror(r: Rules, p: Position, q: Position) {
    forall sq: Square :: r.pieceAt(q, sq) == Flipped(r.pieceAt(p, sq))
  }

  lemma {:induction false} MaterialAntisymmetric(r: Rules, p: Position, q: Position, n: nat)
    requires n <= 64
    requires ColourMirror(r, p, q)
    ensures Material(r, q, n) == -Material(r, p, n)
  {
    if n > 0 {
      MaterialAntisymmetric(r, p, q, n - 1);
      assert r.pieceAt(q, n - 1) == Flipped(r.pieceAt(p, n - 1));
    }
  }

  lemma {:induction false} CentreBonusAntisymmetric(r: Rules, p: Position, q: Position, k: nat)
    requires k <= |CentreSquares|
    requires ColourMirror(r, p, q)
    ensures CentreBonus(r, q, k) == -CentreBonus(r, p, k)
  {
    if k > 0 {
      CentreBonusAntisymmetric(r, p, q, k - 1);
      assert r.pieceAt(q, CentreSquares[k - 1]) == Flipped(r.pieceAt(p, CentreSquares[k - 1]));
    }
  }

  /**
   * Material and the centre bonus change sign when the colours are
   * swapped, but the move-count term does not: the evaluations of two
   * colour-mirrored positions add up to ten times their move counts
   * instead of to zero.
   */
  lemma EvaluateNotColourSymmetric(r: Rules, p: Position, q: Position)
    requires ColourMirror(r, p, q)
    requires !r.isCheckmate(p) && !r.isCheckmate(q)
    ensures Evaluate(r, p) + Evaluate(r, q) == 10 * (|r.legalMoves(p)| + |r.legalMoves(q)|)
  {
    MaterialAntisymmetric(r, p, q, 64);
    CentreBonusAntisymmetric(r, p, q, |CentreSquares|);
  }
}
