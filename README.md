# Chess AI: evaluation and fixed-depth minimax

This project models the move-choosing core of a small chess program:
the class `ChessAI` in `game.py`. It has two parts:

- a static evaluator that scores a position from White's point of view;
- a plain minimax search, with no pruning, that plays each legal move on
  a shared board, searches the reply, and takes the move back.

The chess rules engine that the program uses (python-chess) is not
modelled. A position is an opaque type. The engine is a record `Rules`
of total functions: legal moves in enumeration order, applying a move,
checkmate, game over, the piece on a square, and the side to move. The
search relies on one assumption about the engine, the predicate
`Chess.WellFormed`: a position that is not over has at least one legal
move. That holds in chess, because having no legal move means checkmate
or stalemate, and both end the game. The engine's mutable board is the
class `Chess.Board`: a root position plus a move stack. `Push` appends a
move and `Pop` removes the last one. A ghost field records every move
`Push` is given, in order, and a ghost counter counts the calls of `Pop`.

Layout:

- `chess.dfy`, module `Chess`: the engine interface, `Replay` and the
  `Board` class.
- `evaluation.dfy`, module `Evaluation`: the piece table, and material,
  centre bonus, mobility and the full evaluation as pure functions, with
  lemmas about them.
- `search.dfy`, module `Search`: minimax as a pure function (`Minimax`,
  which calls `BestOf`, a left-to-right scan over the legal moves). It
  also has a separate reference definition (`Optimum`, `FirstIndex`) that
  the scan is proved to agree with, and the list of moves a search plays,
  in order (`Played`).
- `game.dfy`, module `Game`: the class `ChessAI`. Its methods follow the
  source's loops and its push/pop discipline. Each method is proved to
  compute the matching pure function and to leave the board's move stack
  as it found it.

The source uses two copies of the search loop, one maximizing and one
minimizing. The model has one loop with a `maximizing` flag.
`Search.Improves` holds the only difference between the copies: strict
`>` when maximizing and strict `<` when minimizing. The float sentinels
`-inf` and `+inf` become an `Option<int>` that is `None` until the first
child has been scored. Every real score is an integer.

The evaluation adds ten per legal move of the side to move, without
signing it by colour. The model keeps this as written.
`Evaluation.EvaluateNotColourSymmetric` states the consequence: for two
positions that are colour mirrors of each other, the evaluations add up
to ten times their combined move counts, not to zero.

`get_best_move` returns `None` both for a finished game and for a search
depth of zero; there is no separate "no move available" signal, and the
model returns `None` in the same two cases. `Search.BestMove` and
`Game.ChessAI.GetBestMove` state exactly when the result is `None`.

## Model

| member | source | states |
|---|---|---|
| Game.ChessAI.constructor | game.py:8-17 | the configured depth (3 by default) is stored and the piece table maps pawn, knight, bishop, rook, queen and king to 100, 320, 330, 500, 900 and 20000 |
| Evaluation.PieceValuesTotal | game.py:10-17 | the piece table has a positive entry for every kind of piece, so the lookup at line 27 never fails |
| Game.ChessAI.EvaluateBoard | game.py:19-31 | a checkmated side to move scores -10000 if White and 10000 if Black; otherwise the score is signed material over all 64 squares plus the mobility term; in both cases it equals `Evaluation.Evaluate` of the board's position |
| Game.ChessAI.EvaluateMobility | game.py:33-42 | the result is the centre bonus over D4, E4, D5, E5 (in that order) plus ten times the number of legal moves |
| Evaluation.MateOverridesMaterial | game.py:20-21 | at a checkmate the evaluation is the mate score, negative exactly when White is the side to move, whatever the material |
| Evaluation.MaterialIsDifference | game.py:23-29 | signed material is the total weight of White's pieces minus the total weight of Black's |
| Evaluation.MaterialAntisymmetric | game.py:24-28 | swapping the colour of every piece negates the material score |
| Evaluation.CentreBonusBounded | game.py:35-39 | after k centre squares the bonus lies in [-50k, 50k], so the full bonus lies in [-200, 200] |
| Evaluation.CentreBonusAntisymmetric | game.py:37-39 | swapping the colour of every piece negates the centre bonus |
| Evaluation.MobilityBounds | game.py:33-42 | the mobility term is within 200 of ten times the legal-move count, and never below -200 |
| Evaluation.MobilityGrowsWithMoves | game.py:41 | with the centre occupied alike, mobility terms differ by exactly ten per legal move, whichever side is to move, so more moves always means a larger term |
| Evaluation.EvaluateNotColourSymmetric | game.py:19-42 | for colour-mirrored positions that are not checkmate, the two evaluations add up to ten times the total legal-move count: the move term is not signed by colour |
| Search.Minimax | game.py:44-71 | at a node with depth left that is not over, the result carries a move, and that move is one of the legal moves |
| Search.BestOf | game.py:48-71 | scanning the moves yields a best pair exactly when at least one move was tried, and its move is one of the moves tried |
| Search.BestOfIsFirstOptimum | game.py:48-71 | the scan with strict comparison returns the optimum of the child scores (maximum or minimum) with the first move, in enumeration order, that reaches it |
| Search.MinimaxIsOptimal | game.py:48-71 | at an inner node the score is at least every child score when maximizing and at most every child score when minimizing, it is the score of the returned move's child, and that move is legal |
| Search.MinimaxPrefersEarliestMove | game.py:51-70 | ties go to the earliest move: the returned move is the first legal move whose child reaches the node's score |
| Search.BestMove | game.py:73-75 | the move chosen for the side to move exists exactly when the depth is positive and the game is not over, and it is then a legal move |
| Search.OnePlyPlaysTheLegalMoves | game.py:51-54 | the moves a one-ply search plays are exactly the legal moves, each once, in enumeration order (none when the game is over) |
| Search.SearchTriesEveryMove | game.py:51-54 | a search with depth left at a live node plays every legal move, and so plays at least as many moves as there are legal moves |
| Chess.Board.Push | game.py:52 | the move is appended to the move stack (and to the record of moves played) and the board shows the position with the move applied |
| Chess.Board.Pop | game.py:54 | the last move is removed from the stack and the board shows the position from before that move |
| Game.ChessAI.Minimax | game.py:44-71 | the method computes `Search.Minimax` of the position on entry; it restores the move stack; the moves it pushes are exactly `Search.Played` of the entry position, in order, and it pops as many times as it pushes; at depth 0 or game over it returns the evaluation and no move, and plays nothing |
| Game.ChessAI.GetBestMove | game.py:73-75 | the method returns `Search.BestMove` at the configured depth, maximizing when White is to move; the move is legal, and is absent exactly when the depth is 0 or the game is over; the board's stack and position are unchanged afterwards, the moves pushed are `Search.Played` at the configured depth, and every push is matched by a pop |

## Left out

- `ChessGUI` (game.py:77-243) and `main` (game.py:245-250): drawing, image loading, mouse input, the event loop and the frame clock. All of it is user interface and I/O.
- The chess rules engine itself: move generation, checkmate and game-over detection, and how `push` and `pop` work inside. It is a foreign library. Here it is an abstract record of functions, plus the one `WellFormed` assumption.
- Floating point: scores are integers. The `float('-inf')` and `float('inf')` starting values are replaced by an `Option<int>` that is `None` before the first move.
- `numpy`, `os` and `sys` are imported in the source but not used by the core.
- Game.ChessAI.constructor: the depth is a `nat`. A negative depth in the source never reaches the `depth == 0` cut-off. The search would then run until every line ends in game over, and that is not modelled.
- Game.ChessAI.Minimax: the source walks the engine's lazy `legal_moves` generator. The model takes the list of legal moves once, before the loop. The two give the same moves, because each move is popped before the generator advances, so the board is the same at every step.
- Chess.Board.Pop: requires a non-empty move stack. The engine raises an error on an empty stack, and the search only pops after it has pushed.
- A move carries its from-square, its to-square and an optional promotion. The engine's other move fields, such as drops, are not modelled, because the core only passes moves back to the engine.
- Concurrency: the search is single-threaded, and nothing in the model is shared between calls.
