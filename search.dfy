/**
 * Fixed-depth minimax as a pure function of the position: the
 * specification that the board-mutating search in module Game is proved
 * to compute, and the properties of that search.
 */
module Search {
  import opened Chess
  import opened Evaluation

  /** The score of a node and the move chosen there (none at a leaf). */
  datatype SearchResult = SearchResult(score: int, move: Option<Move>)

  /**
   * Whether a child score replaces the best score so far: always when
   * there is none yet, otherwise only when it is strictly better for the
   * side choosing, so that ties keep the earlier move.
   */
  predicate Improves(maximizing: bool, s: int, best: Option<int>) {
    best.None? || (if maximizing then s > best.value else s < best.value)
  }

  /** The score part of a best-so-far pair. */
  function ScoreOf(best: Option<(int, Move)>): Option<int> {
    if best.Some? then Some(best.value.0) else None
  }

  /**
   * The value of the node `p` searched `depth` plies deep, with the side
   * choosing at `p` maximizing when `maximizing` holds. A node with
   * depth left that is not over always yields one of its legal moves.
   */
  function Minimax(r: Rules, p: Position, depth: nat, maximizing: bool): (res: SearchResult)
    requires WellFormed(r)
    decreases depth, 1, 0
    ensures depth > 0 && !r.isGameOver(p) ==> res.move.Some? && res.move.value in r.legalMoves(p)
  {
    if depth == 0 || r.isGameOver(p) then SearchResult(Evaluate(r, p), None)
    else
      var best := BestOf(r, p, r.legalMoves(p), depth - 1, maximizing);
      SearchResult(best.value.0, Some(best.value.1))
  }

  /**
   * The best (score, move) pair after the moves `ms` of `p` have been
   * tried in order, each child searched `d` plies deep; none when no move
   * has been tried.
   */
  function BestOf(r: Rules, p: Position, ms: seq<Move>, d: nat, maximizing: bool): (best: Option<(int, Move)>)
    requires WellFormed(r)
    decreases d + 1, 0, |ms|
    ensures best.Some? <==> ms != []
    ensures best.Some? ==> best.value.1 in ms
  {
    if ms == [] then None
    else
      var prev := BestOf(r, p, ms[..|ms| - 1], d, maximizing);
      var m := ms[|ms| - 1];
      var s := Minimax(r, r.apply(p, m), d, !maximizing).score;
      if Improves(maximizing, s, ScoreOf(prev)) then Some((s, m)) else prev
  }

  /** One more step of the scan: the move at index i is tried after those before it. */
  lemma BestOfStep(r: Rules, p: Position, ms: seq<Move>, i: nat, d: nat, maximizing: bool)
    requires WellFormed(r)
    requires i < |ms|
    ensures var prev := BestOf(r, p, ms[..i], d, maximizing);
            var s := Minimax(r, r.apply(p, ms[i]), d, !maximizing).score;
            BestOf(r, p, ms[..i + 1], d, maximizing) ==
              if Improves(maximizing, s, ScoreOf(prev)) then Some((s, ms[i])) else prev
  {
    assert ms[..i + 1][..i] == ms[..i];
  }

  /** The score of the child reached by `m`, searched `d` plies deep. */
  function ChildScore(r: Rules, p: Position, m: Move, d: nat, maximizing: bool): int
    requires WellFormed(r)
  {
    Minimax(r, r.apply(p, m), d, !maximizing).score
  }

  /** The child scores of the moves `ms`, in order. */
  function ChildScores(r: Rules, p: Position, ms: seq<Move>, d: nat, maximizing: bool): seq<int>
    requires WellFormed(r)
  {
    seq(|ms|, i requires 0 <= i < |ms| => ChildScore(r, p, ms[i], d, maximizing))
  }

  /** The move the AI plays in `p`: the root maximizes when White is to move. */
  function BestMove(r: Rules, p: Position, depth: nat): (m: Option<Move>)
    requires WellFormed(r)
    ensures m.Some? <==> depth > 0 && !r.isGameOver(p)
    ensures m.Some? ==> m.value in r.legalMoves(p)
  {
    Minimax(r, p, depth, r.turn(p) == White).move
  }

  // ---------------------------------------------------------------------
  // An independent reference: the optimum of a list and where it first occurs

  /** The largest (maximizing) or smallest element of a non-empty list. */
  function Optimum(s: seq<int>, maximizing: bool): (o: int)
    requires s != []
    ensures o in s
    ensures forall x :: x in s ==> if maximizing then x <= o else o <= x
  {
    if |s| == 1 then s[0]
    else
      var o := Optimum(s[..|s| - 1], maximizing);
      var x := s[|s| - 1];
      assert s == s[..|s| - 1] + [x];
      if maximizing then (if x > o then x else o) else (if x < o then x else o)
  }

  /** The first index at which `v` occurs in `s`. */
  function FirstIndex(s: seq<int>, v: int): (k: nat)
    requires v in s
    ensures k < |s| && s[k] == v
    ensures forall j :: 0 <= j < k ==> s[j] != v
  {
    if s[0] == v then 0 else 1 + FirstIndex(s[1..], v)
  }

  lemma FirstIndexAppend(s: seq<int>, x: int, v: int)
    requires v in s
    ensures FirstIndex(s + [x], v) == FirstIndex(s, v)
  {
    var k, k' := FirstIndex(s + [x], v), FirstIndex(s, v);
    assert (s + [x])[k'] == v;
  }

  // ---------------------------------------------------------------------
  // Properties of the search

  /**
   * Trying the moves in order and keeping a strictly better score picks
   * the optimum of the child scores, with the first move that reaches it.
   */
  lemma {:induction false} BestOfIsFirstOptimum(r: Rules, p: Position, ms: seq<Move>, d: nat, maximizing: bool)
    requires WellFormed(r)
    requires ms != []
    ensures var scores := ChildScores(r, p, ms, d, maximizing);
            var o := Optimum(scores, maximizing);
            BestOf(r, p, ms, d, maximizing) == Some((o, ms[FirstIndex(scores, o)]))
  {
    var n := |ms| - 1;
    var init, m := ms[..n], ms[n];
    var scores := ChildScores(r, p, ms, d, maximizing);
    var s := scores[n];
    assert s == Minimax(r, r.apply(p, m), d, !maximizing).score;
    if n == 0 {
      assert init == [];
      assert scores == [s];
    } else {
      var before := ChildScores(r, p, init, d, maximizing);
      assert scores[..n] == before;
      assert scores == before + [s];
      BestOfIsFirstOptimum(r, p, init, d, maximizing);
      var o := Optimum(before, maximizing);
      var prev := BestOf(r, p, init, d, maximizing);
      assert prev == Some((o, init[FirstIndex(before, o)]));
      if Improves(maximizing, s, ScoreOf(prev)) {
        assert s !in before;
        FirstIndexAppendNew(before, s);
      } else {
        FirstIndexAppend(before, s, o);
      }
    }
  }

  lemma FirstIndexAppendNew(s: seq<int>, x: int)
    requires x !in s
    ensures FirstIndex(s + [x], x) == |s|
  {
  }

  /**
   * At an inner node the score is the best child score for the side
   * choosing (at least every child score when maximizing, at most every
   * one when minimizing), and it is the score of the chosen move's child.
   */
  lemma MinimaxIsOptimal(r: Rules, p: Position, depth: nat, maximizing: bool)
    requires WellFormed(r)
    requires depth > 0 && !r.isGameOver(p)
    ensures var res := Minimax(r, p, depth, maximizing);
            res.move.Some? && res.move.value in r.legalMoves(p) &&
            res.score == ChildScore(r, p, res.move.value, depth - 1, maximizing) &&
            forall m :: m in r.legalMoves(p) ==>
              if maximizing then ChildScore(r, p, m, depth - 1, maximizing) <= res.score
              else res.score <= ChildScore(r, p, m, depth - 1, maximizing)
  {
    var ms := r.legalMoves(p);
    var scores := ChildScores(r, p, ms, depth - 1, maximizing);
    BestOfIsFirstOptimum(r, p, ms, depth - 1, maximizing);
    forall m | m in ms
      ensures if maximizing then ChildScore(r, p, m, depth - 1, maximizing) <= Optimum(scores, maximizing)
              else Optimum(scores, maximizing) <= ChildScore(r, p, m, depth - 1, maximizing)
    {
      var i :| 0 <= i < |ms| && ms[i] == m;
      assert scores[i] in scores;
    }
  }

  /**
   * Ties go to the earliest move: the chosen move is the first legal move,
   * in enumeration order, whose child reaches the node's score.
   */
  lemma MinimaxPrefersEarliestMove(r: Rules, p: Position, depth: nat, maximizing: bool)
    requires WellFormed(r)
    requires depth > 0 && !r.isGameOver(p)
    ensures var res := Minimax(r, p, depth, maximizing);
            var ms := r.legalMoves(p);
            var scores := ChildScores(r, p, ms, depth - 1, maximizing);
            res.score in scores &&
            res.move == Some(ms[FirstIndex(scores, res.score)])
  {
    BestOfIsFirstOptimum(r, p, r.legalMoves(p), depth - 1, maximizing);
  }

  // ---------------------------------------------------------------------
  // Which moves a search plays on the board

  /** The moves a search of `p` plays (and takes back), in the order it plays them. */
  function Played(r: Rules, p: Position, depth: nat): seq<Move>
    decreases depth, 1, 0
  {
    if depth == 0 || r.isGameOver(p) then [] else PlayedOf(r, p, r.legalMoves(p), depth - 1)
  }

  /**
   * The moves played while trying `ms` in `p` in order: each move of `ms`,
   * followed by the moves of the search of its child `d` plies deep.
   */
  function PlayedOf(r: Rules, p: Position, ms: seq<Move>, d: nat): seq<Move>
    decreases d + 1, 0, |ms|
  {
    if ms == [] then []
    else
      var m := ms[|ms| - 1];
      PlayedOf(r, p, ms[..|ms| - 1], d) + [m] + Played(r, r.apply(p, m), d)
  }

  /** One more step of trying moves: the move at index i, then its child's search. */
  lemma PlayedOfStep(r: Rules, p: Position, ms: seq<Move>, i: nat, d: nat)
    requires i < |ms|
    ensures PlayedOf(r, p, ms[..i + 1], d) ==
            PlayedOf(r, p, ms[..i], d) + [ms[i]] + Played(r, r.apply(p, ms[i]), d)
  {
    assert ms[..i + 1][..i] == ms[..i];
  }

  /** Regrouping the board's record of played moves after one more move and its child's search. */
  lemma PlayedRegroup(before: seq<Move>, trail: seq<Move>, m: Move, child: seq<Move>)
    ensures before + trail + [m] + child == before + (trail + [m] + child)
  {
  }

  lemma {:induction false} PlayedOfOnePly(r: Rules, p: Position, ms: seq<Move>)
    ensures PlayedOf(r, p, ms, 0) == ms
  {
    if ms != [] {
      PlayedOfOnePly(r, p, ms[..|ms| - 1]);
    }
  }

  /**
   * A one-ply search plays exactly the legal moves, each once, in
   * enumeration order (and nothing when the game is over).
   */
  lemma OnePlyPlaysTheLegalMoves(r: Rules, p: Position)
    ensures Played(r, p, 1) == if r.isGameOver(p) then [] else r.legalMoves(p)
  {
    if !r.isGameOver(p) {
      PlayedOfOnePly(r, p, r.legalMoves(p));
    }
  }

  lemma {:induction false} PlayedOfContainsMoves(r: Rules, p: Position, ms: seq<Move>, d: nat)
    ensures |PlayedOf(r, p, ms, d)| >= |ms|
    ensures forall m :: m in ms ==> m in PlayedOf(r, p, ms, d)
  {
    if ms != [] {
      var n := |ms| - 1;
      PlayedOfContainsMoves(r, p, ms[..n], d);
      forall m | m in ms
        ensures m in PlayedOf(r, p, ms, d)
      {
        if m != ms[n] {
          var i :| 0 <= i < |ms| && ms[i] == m;
          assert ms[..n][i] == m;
        }
      }
    }
  }

  /**
   * A search with depth left at a live node plays every legal move, so it
   * plays at least as many moves as there are legal moves.
   */
  lemma SearchTriesEveryMove(r: Rules, p: Position, depth: nat)
    requires depth > 0 && !r.isGameOver(p)
    ensures forall m :: m in r.legalMoves(p) ==> m in Played(r, p, depth)
    ensures |Played(r, p, depth)| >= |r.legalMoves(p)|
  {
    PlayedOfContainsMoves(r, p, r.legalMoves(p), depth - 1);
  }
}
