/**
 * The chess AI: a static evaluator and a fixed-depth minimax search that
 * plays each candidate move on a shared board and takes it back again.
 * Each method is proved to compute the matching pure function of
 * modules Evaluation and Search, and to leave the board as it found it.
 */
module Game {
  import opened Chess
  import opened Evaluation
  import Search

  class ChessAI {
    /** How many plies the search looks ahead. */
    const depth: nat
    /** The weight of each kind of piece; the same table for every instance. */
    const pieceValues: map<PieceType, int> := PieceValues

    constructor (depth: nat := 3)
      ensures this.depth == depth
      ensures pieceValues == map[Pawn := 100, Knight := 320, Bishop := 330, Rook := 500, Queen := 900, King := 20000]
    {
      this.depth := depth;
    }

    /**
     * Scores the board from White's point of view. A checkmated side to
     * move gets the mate score against it; otherwise the score is signed
     * material plus the mobility term.
     */
    method EvaluateBoard(board: Board) returns (score: int)
      ensures board.IsCheckmate() ==> score == (if board.Turn() == White then -10000 else 10000)
      ensures !board.IsCheckmate() ==>
                score == Material(board.rules, board.Current(), 64) + Mobility(board.rules, board.Current())
      ensures score == Evaluate(board.rules, board.Current())
    {
      if board.IsCheckmate() {
        return if board.Turn() == White then -MateScore else MateScore;
      }
      score := 0;
      for sq := 0 to 64
        invariant score == Material(board.rules, board.Current(), sq)
      {
        var piece := board.PieceAt(sq);
        if piece.Some? {
          PieceValuesTotal(piece.value.kind);
          var value := pieceValues[piece.value.kind];
          score := score + if piece.value.color == White then value else -value;
        }
      }
      var bonus := EvaluateMobility(board);
      score := score + bonus;
    }

    /**
     * The centre bonus (plus or minus 50 for each occupied centre square,
     * by the occupant's colour) plus ten per legal move of the side to move.
     */
    method EvaluateMobility(board: Board) returns (bonus: int)
      ensures bonus == CentreBonus(board.rules, board.Current(), 4) + 10 * |board.LegalMoves()|
      ensures bonus == Mobility(board.rules, board.Current())
    {
      bonus := 0;
      var centre := [D4, E4, D5, E5];
      assert centre == CentreSquares;
      for k := 0 to |centre|
        invariant bonus == CentreBonus(board.rules, board.Current(), k)
      {
        if board.PieceAt(centre[k]).Some? {
          bonus := bonus + if board.PieceAt(centre[k]).value.color == White then 50 else -50;
        }
      }
      bonus := bonus + |board.LegalMoves()| * 10;
    }

    /**
     * Searches `depth` plies deep from the board's position, maximizing
     * when `maximizing` holds. Each legal move is played, searched with
     * the other side choosing, and taken back; a strictly better child
     * score replaces the best so far. The board ends as it started, having
     * played and taken back the moves `Search.Played` lists, in that order.
     */
    method Minimax(board: Board, depth: nat, maximizing: bool) returns (score: int, best: Option<Move>)
      requires WellFormed(board.rules)
      modifies board
      decreases depth
      ensures board.moveStack == old(board.moveStack)
      ensures Search.SearchResult(score, best) == Search.Minimax(board.rules, old(board.Current()), depth, maximizing)
      ensures board.played == old(board.played) + Search.Played(board.rules, old(board.Current()), depth)
      ensures board.pops == old(board.pops) + |Search.Played(board.rules, old(board.Current()), depth)|
      ensures depth == 0 || old(board.IsGameOver()) ==>
                score == Evaluate(board.rules, old(board.Current())) && best == None &&
                board.played == old(board.played) && board.pops == old(board.pops)
    {
      if depth == 0 || board.IsGameOver() {
        score := EvaluateBoard(board);
        best := None;
        return;
      }
      ghost var r, p := board.rules, board.Current();
      var moves := board.LegalMoves();
      var bestEval: Option<int> := None;
      best := None;
      for i := 0 to |moves|
        invariant board.moveStack == old(board.moveStack)
        invariant bestEval.Some? == best.Some?
        invariant Search.BestOf(r, p, moves[..i], depth - 1, maximizing) ==
                  if bestEval.Some? && best.Some? then Some((bestEval.value, best.value)) else None
        invariant board.played == old(board.played) + Search.PlayedOf(r, p, moves[..i], depth - 1)
        invariant board.pops == old(board.pops) + |Search.PlayedOf(r, p, moves[..i], depth - 1)|
      {
        var move := moves[i];
        Search.BestOfStep(r, p, moves, i, depth - 1, maximizing);
        Search.PlayedOfStep(r, p, moves, i, depth - 1);
        board.Push(move);
        var evalScore, _ := Minimax(board, depth - 1, !maximizing);
        var _ := board.Pop();
        Search.PlayedRegroup(old(board.played), Search.PlayedOf(r, p, moves[..i], depth - 1), move,
                             Search.Played(r, r.apply(p, move), depth - 1));
        if Search.Improves(maximizing, evalScore, bestEval) {
          bestEval := Some(evalScore);
          best := Some(move);
        }
      }
      assert moves[..|moves|] == moves;
      score := bestEval.value;
    }

    /**
     * The move to play on the board: a search at the configured depth,
     * maximizing when White is to move. None when the depth is zero or
     * the game is over; otherwise a legal move. The board is unchanged.
     */
    method GetBestMove(board: Board) returns (best: Option<Move>)
      requires WellFormed(board.rules)
      modifies board
      ensures board.moveStack == old(board.moveStack)
      ensures board.Current() == old(board.Current())
      ensures best == Search.BestMove(board.rules, old(board.Current()), depth)
      ensures best.Some? <==> depth > 0 && !old(board.IsGameOver())
      ensures best.Some? ==> best.value in old(board.LegalMoves())
      ensures board.played == old(board.played) + Search.Played(board.rules, old(board.Current()), depth)
      ensures board.pops == old(board.pops) + |Search.Played(board.rules, old(board.Current()), depth)|
    {
      var _, move := Minimax(board, depth, board.Turn() == White);
      best := move;
    }
  }
}
