/** The engine's search on the in-place board: materialScore, scoreMove,
    quiescenceSearch, minimax, iterativeMinimax and checkmateSearch. Each
    plays its moves on the board with makeMove / unmakeMove and leaves the
    position as it found it; the node counters and timers are not part of
    the model. */
module Ai {
  import opened Values
  import opened Pieces
  import opened Grids
  import opened Rules
  import opened Sorting
  import opened Legality
  import opened State
  import Search
  import Board
  import CheckScan
  import MoveGen
  import Status

  /** materialScore: the white total minus the black total of piece values. */
  method MaterialScore(board: array2<char>) returns (score: int)
    ensures score == Material(Cells(board))
  {
    ghost var g := Cells(board);
    var whiteScore, blackScore := 0, 0;
    var y := 0;
    while y < board.Length0
      invariant 0 <= y <= board.Length0
      invariant whiteScore == GridSum(g, WhiteWeight, y)
      invariant blackScore == GridSum(g, BlackWeight, y)
    {
      var x := 0;
      while x < board.Length1
        invariant 0 <= x <= board.Length1
        invariant whiteScore == GridSum(g, WhiteWeight, y) + RowSum(g[y], WhiteWeight, x)
        invariant blackScore == GridSum(g, BlackWeight, y) + RowSum(g[y], BlackWeight, x)
      {
        var piece := board[y, x];
        if piece != Empty {
          var value := ValueOf(ToUpper(piece));
          if piece == ToUpper(piece) {
            whiteScore := whiteScore + value;
          } else {
            blackScore := blackScore + value;
          }
        }
        x := x + 1;
      }
      y := y + 1;
    }
    score := whiteScore - blackScore;
  }

  /** scoreMove: plays the move to look for a check, takes it back, and
      adds the promotion and capture terms. */
  method ScoreMove(m: Move, board: array2<char>, st: GameState, maximizing: bool, ghost p: Pos)
    returns (score: int)
    requires Shows(board, st, p)
    requires Board.OnArray(board, m.fromX, m.fromY) && Board.OnArray(board, m.toX, m.toY)
    modifies board, st`enPassantTarget, st`movedPawnPositions
    ensures score == Search.MoveScore(p, m, maximizing)
    ensures Shows(board, st, p)
  {
    hide InCheck, Rules.MakeMove, Rules.UnmakeMove;
    assert PosOf(board, st) == p;
    var isWhite := maximizing;
    var attacker := board[m.fromY, m.fromX];
    var victim := board[m.toY, m.toX];
    score := 0;
    var undo := Board.MakeMove(board, m, st);
    var opponentColor := if isWhite then Black else White;
    var check := CheckScan.IsInCheck(opponentColor, board, st);
    if check {
      score := score + 100;
    }
    var rows := board.Length0;
    var isPromotion := ToLower(attacker) == 'p' &&
                       ((isWhite && m.toY == 0) || (!isWhite && m.toY == rows - 1));
    if isPromotion {
      score := score + 89;
    }
    Board.UnmakeMove(board, m, undo, st);
    UnmakeRestores(p, m);
    if victim != Empty {
      score := score + ValueOf(ToLower(victim)) * 10;
      score := score - ValueOf(ToLower(attacker));
    }
  }

  /** The scores the sort comparators compute, one per move. */
  method ScoreMoves(moves: seq<Move>, board: array2<char>, st: GameState, maximizing: bool,
                    ghost p: Pos) returns (scores: map<Move, int>)
    requires Shows(board, st, p)
    requires forall m | m in moves :: MoveOnBoard(p.grid, m)
    modifies board, st`enPassantTarget, st`movedPawnPositions
    ensures forall m | m in moves :: m in scores && scores[m] == Search.MoveScore(p, m, maximizing)
    ensures Shows(board, st, p)
  {
    hide Search.MoveScore;
    scores := map[];
    var i := 0;
    while i < |moves|
      invariant 0 <= i <= |moves|
      invariant Shows(board, st, p)
      invariant forall k | 0 <= k < i ::
        moves[k] in scores && scores[moves[k]] == Search.MoveScore(p, moves[k], maximizing)
    {
      var m := moves[i];
      assert m in moves;
      var s := ScoreMove(m, board, st, maximizing, p);
      scores := scores[m := s];
      i := i + 1;
    }
  }

  /** A key read from precomputed scores, descending or ascending. */
  function ScoreKey(scores: map<Move, int>, descending: bool): Move -> ExtInt {
    m => var s := if m in scores then scores[m] else 0;
         if descending then Neg(Fin(s)) else Fin(s)
  }

  /** quiescenceSearch: stands pat on the material, then searches the
      captures, best-scored first, with a fail-hard window. */
  method Quiescence(board: array2<char>, st: GameState, maximizing: bool, alpha: ExtInt,
                    beta: ExtInt, depth: int, ghost p: Pos) returns (score: ExtInt)
    requires Shows(board, st, p)
    modifies board, st`enPassantTarget, st`movedPawnPositions
    ensures score == Search.Quiescence(p, maximizing, alpha, beta, depth)
    ensures Shows(board, st, p)
    decreases if depth > 0 then depth else 0, 2
  {
    hide InCheck, IsValidMove, AllMoves, Search.MoveScore, Search.QuiescenceLoop;
    var material := MaterialScore(board);
    if depth <= 0 {
      return Fin(material);
    }
    var standPat := Fin(material);
    var alpha, beta := alpha, beta;
    if maximizing {
      if LessEq(beta, standPat) {
        return beta;
      }
      if Less(alpha, standPat) {
        alpha := standPat;
      }
    } else {
      if LessEq(standPat, alpha) {
        return alpha;
      }
      if Less(standPat, beta) {
        beta := standPat;
      }
    }
    var moves := CaptureMoves(board, st, maximizing, p);
    forall m | m in moves
      ensures MoveOnBoard(p.grid, m)
    {
      Search.QuiescenceMovesLegal(p, maximizing);
      AllMovesOnBoard(p, Search.SideOf(maximizing), false, m);
    }
    score := CaptureLoop(board, st, maximizing, alpha, beta, depth, moves, p);
  }

  /** The captures of quiescenceSearch in their search order. */
  method CaptureMoves(board: array2<char>, st: GameState, maximizing: bool, ghost p: Pos)
    returns (moves: seq<Move>)
    requires Shows(board, st, p)
    modifies board, st`enPassantTarget, st`movedPawnPositions
    ensures moves == Search.QuiescenceMoves(p, maximizing)
    ensures Shows(board, st, p)
  {
    hide InCheck, IsValidMove, Search.MoveScore;
    assert PosOf(board, st) == p;
    var all := MoveGen.GetAllMoves(board, Search.SideOf(maximizing), st, false);
    var captures := Search.Captures(Cells(board), all);
    forall m | m in captures
      ensures MoveOnBoard(p.grid, m)
    {
      AllMovesOnBoard(p, Search.SideOf(maximizing), false, m);
    }
    var scores := ScoreMoves(captures, board, st, maximizing, p);
    moves := SortBy(captures, ScoreKey(scores, true));
    SortByAgree(captures, ScoreKey(scores, true), Search.DescendingScore(p, maximizing));
  }

  /** One capture of quiescenceSearch: make, search the reply, unmake. */
  method CaptureReply(board: array2<char>, st: GameState, m: Move, maximizing: bool,
                      alpha: ExtInt, beta: ExtInt, depth: int, ghost p: Pos)
    returns (evalScore: ExtInt)
    requires Shows(board, st, p) && depth > 0 && MoveOnBoard(p.grid, m)
    modifies board, st`enPassantTarget, st`movedPawnPositions
    ensures evalScore == Search.Quiescence(Rules.MakeMove(p, m).pos, !maximizing, alpha, beta,
                                           depth - 1)
    ensures Shows(board, st, p)
    decreases depth, 0
  {
    hide InCheck, IsValidMove, AllMoves, Search.Quiescence;
    assert PosOf(board, st) == p;
    var undo := Board.MakeMove(board, m, st);
    evalScore := Quiescence(board, st, !maximizing, alpha, beta, depth - 1,
                            Rules.MakeMove(p, m).pos);
    Board.UnmakeMove(board, m, undo, st);
    UnmakeRestores(p, m);
  }

  /** The capture loop of quiescenceSearch. */
  method CaptureLoop(board: array2<char>, st: GameState, maximizing: bool, alpha: ExtInt,
                     beta: ExtInt, depth: int, moves: seq<Move>, ghost p: Pos)
    returns (score: ExtInt)
    requires Shows(board, st, p) && depth > 0
    requires forall m | m in moves :: MoveOnBoard(p.grid, m)
    modifies board, st`enPassantTarget, st`movedPawnPositions
    ensures score == Search.QuiescenceLoop(p, maximizing, alpha, beta, depth, moves, 0)
    ensures Shows(board, st, p)
    decreases depth, 1
  {
    hide InCheck, IsValidMove, AllMoves, Search.MoveScore, Search.Quiescence, Rules.MakeMove;
    ghost var target := Search.QuiescenceLoop(p, maximizing, alpha, beta, depth, moves, 0);
    var alpha, beta := alpha, beta;
    var i := 0;
    while i < |moves|
      invariant 0 <= i <= |moves|
      invariant Shows(board, st, p)
      invariant Search.QuiescenceLoop(p, maximizing, alpha, beta, depth, moves, i) == target
    {
      var m := moves[i];
      assert m in moves;
      var evalScore := CaptureReply(board, st, m, maximizing, alpha, beta, depth, p);
      if maximizing {
        if LessEq(beta, evalScore) {
          return beta;
        }
        if Less(alpha, evalScore) {
          alpha := evalScore;
        }
      } else {
        if LessEq(evalScore, alpha) {
          return alpha;
        }
        if Less(evalScore, beta) {
          beta := evalScore;
        }
      }
      i := i + 1;
    }
    score := if maximizing then alpha else beta;
  }

  /** The Zobrist table covers every square of the board (a condition on
      the board's size only, so moves keep it). */
  predicate FitsBoard(z: Zobrist, board: array2<char>) {
    |z.table| >= board.Length0 &&
    (forall y | 0 <= y < board.Length0 :: |z.table[y]| >= board.Length1) &&
    (forall y, x | 0 <= y < board.Length0 && 0 <= x < board.Length1 :: |z.table[y][x]| >= 12)
  }

  lemma FitsBoardCells(z: Zobrist, board: array2<char>)
    requires FitsBoard(z, board)
    ensures Fits(z, Cells(board))
  {
  }

  /** The legal moves of the side in minimax's order: scoreMove called
      without `maximizing`, descending for the maximizing side, ascending
      for the other. */
  method MinimaxMoves(board: array2<char>, st: GameState, maximizing: bool, ghost p: Pos)
    returns (moves: seq<Move>)
    requires Shows(board, st, p)
    modifies board, st`enPassantTarget, st`movedPawnPositions
    ensures moves == Search.MinimaxMoves(p, maximizing)
    ensures forall m | m in moves :: MoveOnBoard(p.grid, m)
    ensures Shows(board, st, p)
  {
    hide InCheck, IsValidMove, Search.MoveScore, AllMoves;
    assert PosOf(board, st) == p;
    var all := MoveGen.GetAllMoves(board, Search.SideOf(maximizing), st, false);
    forall m | m in all
      ensures MoveOnBoard(p.grid, m)
    {
      AllMovesOnBoard(p, Search.SideOf(maximizing), false, m);
    }
    var scores := ScoreMoves(all, board, st, false, p);
    moves := SortBy(all, ScoreKey(scores, maximizing));
    SortByAgree(all, ScoreKey(scores, maximizing), Search.MinimaxOrder(p, maximizing));
    SortByMembers(all, ScoreKey(scores, maximizing));
  }

  /** One child of minimax: make, search to one ply less, unmake. */
  method MinimaxReply(board: array2<char>, st: GameState, m: Move, depth: nat, maximizing: bool,
                      alpha: ExtInt, beta: ExtInt, seqDepth: int, ghost p: Pos)
    returns (result: SearchResult)
    requires Shows(board, st, p) && FitsBoard(st.zobrist, board)
    requires depth > 0 && MoveOnBoard(p.grid, m)
    modifies board, st`enPassantTarget, st`movedPawnPositions, st`transpositionTable
    ensures (result, st.transpositionTable) ==
      Search.Minimax(st.zobrist, Rules.MakeMove(p, m).pos, depth - 1, !maximizing, alpha, beta,
                     seqDepth, old(st.transpositionTable))
    ensures Shows(board, st, p)
    decreases depth, 0
  {
    hide InCheck, IsValidMove, AllMoves, Search.Minimax;
    assert PosOf(board, st) == p;
    var undo := Board.MakeMove(board, m, st);
    result := Minimax(board, st, depth - 1, !maximizing, alpha, beta, seqDepth,
                      Rules.MakeMove(p, m).pos);
    Board.UnmakeMove(board, m, undo, st);
    UnmakeRestores(p, m);
  }

  /** The move loop of minimax: keeps the strictly better child and its
      line, narrows the window and stops at `beta <= alpha`. */
  method MinimaxLoop(board: array2<char>, st: GameState, depth: nat, maximizing: bool,
                     alpha: ExtInt, beta: ExtInt, seqDepth: int, moves: seq<Move>, ghost p: Pos)
    returns (r: SearchResult)
    requires Shows(board, st, p) && FitsBoard(st.zobrist, board) && depth > 0
    requires forall m | m in moves :: MoveOnBoard(p.grid, m)
    modifies board, st`enPassantTarget, st`movedPawnPositions, st`transpositionTable
    ensures (r, st.transpositionTable) ==
      Search.MinimaxLoop(st.zobrist, p, depth, maximizing, alpha, beta, seqDepth, moves, 0,
                         SearchResult(Search.WorstFor(maximizing), []),
                         old(st.transpositionTable))
    ensures Shows(board, st, p)
    decreases depth, 1
  {
    hide InCheck, IsValidMove, AllMoves, Search.Minimax, Rules.MakeMove;
    ghost var target := Search.MinimaxLoop(st.zobrist, p, depth, maximizing, alpha, beta,
                                           seqDepth, moves, 0,
                                           SearchResult(Search.WorstFor(maximizing), []),
                                           st.transpositionTable);
    var alpha, beta := alpha, beta;
    var best := if maximizing then NegInf else PosInf;
    var bestSequence: seq<Move> := [];
    var i := 0;
    while i < |moves|
      invariant 0 <= i <= |moves|
      invariant Shows(board, st, p)
      invariant Search.MinimaxLoop(st.zobrist, p, depth, maximizing, alpha, beta, seqDepth, moves,
                                   i, SearchResult(best, bestSequence), st.transpositionTable)
                == target
    {
      var m := moves[i];
      assert m in moves;
      var result := MinimaxReply(board, st, m, depth, maximizing, alpha, beta, seqDepth, p);
      var evalScore := result.score;
      var isBetter := if maximizing then Less(best, evalScore) else Less(evalScore, best);
      if isBetter {
        best := evalScore;
        bestSequence := [m] + result.sequence;
      }
      if maximizing {
        alpha := Max(alpha, evalScore);
      } else {
        beta := Min(beta, evalScore);
      }
      if LessEq(beta, alpha) {
        return SearchResult(best, bestSequence);
      }
      i := i + 1;
    }
    r := SearchResult(best, bestSequence);
  }

  /** minimax: answers from the transposition table when the key is there;
      otherwise scores mate and stalemate, hands depth 0 to the quiescence
      search, or searches the moves and stores the result under the key. */
  method Minimax(board: array2<char>, st: GameState, depth: nat, maximizing: bool,
                 alpha: ExtInt, beta: ExtInt, seqDepth: int, ghost p: Pos)
    returns (r: SearchResult)
    requires Shows(board, st, p) && FitsBoard(st.zobrist, board)
    modifies board, st`enPassantTarget, st`movedPawnPositions, st`transpositionTable
    ensures (r, st.transpositionTable) ==
      Search.Minimax(st.zobrist, p, depth, maximizing, alpha, beta, seqDepth,
                     old(st.transpositionTable))
    ensures Shows(board, st, p)
    decreases depth, 2
  {
    hide InCheck, IsValidMove, AllMoves, HasLegal, GameStatus, Hash, Search.MinimaxLoop,
      Search.Quiescence, Search.MinimaxMoves;
    assert PosOf(board, st) == p;
    var color := if maximizing then White else Black;
    FitsBoardCells(st.zobrist, board);
    var boardSig := Status.GetZobristHash(board, color, st.zobrist);
    var key := CacheKey(boardSig, depth, Scale10(alpha), Scale10(beta));
    if key in st.transpositionTable {
      return st.transpositionTable[key];
    }
    var gameState := Status.GetGameState(color, board, st, true, []);
    if gameState == Checkmate {
      var score := if maximizing then -1000000 - depth else 1000000 + depth;
      return SearchResult(Fin(score), []);
    }
    if gameState == Draw {
      return SearchResult(Fin(0), []);
    }
    if depth == 0 {
      var qScore := Quiescence(board, st, maximizing, alpha, beta, seqDepth, p);
      return SearchResult(qScore, []);
    }
    var moves := MinimaxMoves(board, st, maximizing, p);
    r := MinimaxLoop(board, st, depth, maximizing, alpha, beta, seqDepth, moves, p);
    st.transpositionTable := st.transpositionTable[key := r];
  }

  /** The root moves of iterativeMinimax in their first order: scoreMove
      with `isMaximizing`, best first. */
  method RootMoves(board: array2<char>, st: GameState, isMaximizing: bool, ghost p: Pos)
    returns (moves: seq<Move>)
    requires Shows(board, st, p)
    modifies board, st`enPassantTarget, st`movedPawnPositions
    ensures moves == Search.RootMoves(p, isMaximizing)
    ensures forall m :: m in moves <==> m in AllMoves(p, Search.SideOf(isMaximizing), false)
    ensures |moves| == |AllMoves(p, Search.SideOf(isMaximizing), false)|
    ensures Shows(board, st, p)
  {
    hide InCheck, IsValidMove, Search.MoveScore, AllMoves;
    assert PosOf(board, st) == p;
    var all := MoveGen.GetAllMoves(board, Search.SideOf(isMaximizing), st, false);
    forall m | m in all
      ensures MoveOnBoard(p.grid, m)
    {
      AllMovesOnBoard(p, Search.SideOf(isMaximizing), false, m);
    }
    var scores := ScoreMoves(all, board, st, isMaximizing, p);
    moves := SortBy(all, ScoreKey(scores, true));
    SortByAgree(all, ScoreKey(scores, true), Search.DescendingScore(p, isMaximizing));
    SortByMembers(all, ScoreKey(scores, true));
    SortByPermutation(all, ScoreKey(scores, true));
  }

  /** One root move: make, minimax to `depth - 1` for the other side with
      the caller's window, unmake. */
  method RootReply(board: array2<char>, st: GameState, m: Move, depth: nat, isMaximizing: bool,
                   alpha: ExtInt, beta: ExtInt, seqDepth: int, ghost p: Pos)
    returns (result: SearchResult)
    requires Shows(board, st, p) && FitsBoard(st.zobrist, board)
    requires depth >= 1 && MoveOnBoard(p.grid, m)
    modifies board, st`enPassantTarget, st`movedPawnPositions, st`transpositionTable
    ensures (result, st.transpositionTable) ==
      Search.Minimax(st.zobrist, Rules.MakeMove(p, m).pos, depth - 1, !isMaximizing, alpha,
                     beta, seqDepth, old(st.transpositionTable))
    ensures Shows(board, st, p)
  {
    hide InCheck, IsValidMove, AllMoves, Search.Minimax;
    assert PosOf(board, st) == p;
    var undo := Board.MakeMove(board, m, st);
    result := Minimax(board, st, depth - 1, !isMaximizing, alpha, beta, seqDepth,
                      Rules.MakeMove(p, m).pos);
    Board.UnmakeMove(board, m, undo, st);
    UnmakeRestores(p, m);
  }

  /** The loop over the root moves of one depth: records every score and
      keeps the strictly better move. */
  method SearchRoot(board: array2<char>, st: GameState, depth: nat, isMaximizing: bool,
                    alpha: ExtInt, beta: ExtInt, seqDepth: int, moves: seq<Move>, ghost p: Pos)
    returns (bestMove: Option<Move>, bestScore: ExtInt, scores: map<Move, ExtInt>)
    requires Shows(board, st, p) && FitsBoard(st.zobrist, board) && depth >= 1
    requires forall m | m in moves :: MoveOnBoard(p.grid, m)
    modifies board, st`enPassantTarget, st`movedPawnPositions, st`transpositionTable
    ensures Search.Root(bestMove, bestScore, scores, st.transpositionTable) ==
      Search.RootLoop(st.zobrist, p, depth, isMaximizing, alpha, beta, seqDepth, moves, 0,
                      Search.Root(None, Search.WorstFor(isMaximizing), map[],
                                  old(st.transpositionTable)))
    ensures Shows(board, st, p)
  {
    hide InCheck, IsValidMove, AllMoves, Search.Minimax, Rules.MakeMove;
    ghost var target := Search.RootLoop(st.zobrist, p, depth, isMaximizing, alpha, beta, seqDepth,
                                        moves, 0,
                                        Search.Root(None, Search.WorstFor(isMaximizing), map[],
                                                    st.transpositionTable));
    bestMove := None;
    bestScore := if isMaximizing then NegInf else PosInf;
    scores := map[];
    var i := 0;
    while i < |moves|
      invariant 0 <= i <= |moves|
      invariant Shows(board, st, p)
      invariant Search.RootLoop(st.zobrist, p, depth, isMaximizing, alpha, beta, seqDepth, moves,
                                i, Search.Root(bestMove, bestScore, scores, st.transpositionTable))
                == target
    {
      var m := moves[i];
      assert m in moves;
      var result := RootReply(board, st, m, depth, isMaximizing, alpha, beta, seqDepth, p);
      scores := scores[m := result.score];
      var isBetter := if isMaximizing then Less(bestScore, result.score)
                      else Less(result.score, bestScore);
      if isBetter {
        bestMove := Some(m);
        bestScore := result.score;
      }
      i := i + 1;
    }
  }

  /** One depth of iterativeMinimax: empties the table, records the depth,
      reorders the root moves by the previous scores after the first depth
      and searches them. */
  method SearchOneDepth(board: array2<char>, st: GameState, depth: nat, isMaximizing: bool,
                        alpha: ExtInt, beta: ExtInt, seqDepth: int, moves: seq<Move>,
                        previousScores: map<Move, ExtInt>, ghost p: Pos)
    returns (ordered: seq<Move>, bestMove: Option<Move>, bestScore: ExtInt,
             scores: map<Move, ExtInt>)
    requires Shows(board, st, p) && FitsBoard(st.zobrist, board) && depth >= 1
    requires forall m | m in moves :: MoveOnBoard(p.grid, m)
    modifies board, st`enPassantTarget, st`movedPawnPositions, st`transpositionTable,
      st`iterativeDepth
    ensures ordered == if depth > 1 then SortBy(moves, Search.RootOrder(previousScores, isMaximizing))
                       else moves
    ensures forall m | m in ordered :: MoveOnBoard(p.grid, m)
    ensures Search.Root(bestMove, bestScore, scores, st.transpositionTable) ==
      Search.SearchDepth(st.zobrist, p, depth, isMaximizing, alpha, beta, seqDepth, ordered)
    ensures st.iterativeDepth == depth
    ensures Shows(board, st, p)
  {
    hide InCheck, IsValidMove, AllMoves, Search.Minimax, Search.RootLoop;
    st.transpositionTable := map[];
    st.iterativeDepth := depth;
    ordered := moves;
    if depth > 1 {
      ordered := SortBy(moves, Search.RootOrder(previousScores, isMaximizing));
      SortByMembers(moves, Search.RootOrder(previousScores, isMaximizing));
    }
    bestMove, bestScore, scores := SearchRoot(board, st, depth, isMaximizing, alpha, beta,
                                              seqDepth, ordered, p);
  }

  /** The deepening loop of iterativeMinimax over non-empty root moves. */
  method Deepen(board: array2<char>, st: GameState, maxDepth: int, isMaximizing: bool,
                seqDepth: int, alpha: ExtInt, beta: ExtInt, timeUp: nat -> bool,
                moves: seq<Move>, ghost p: Pos) returns (r: Search.IterResult)
    requires Shows(board, st, p) && FitsBoard(st.zobrist, board)
    requires forall m | m in moves :: MoveOnBoard(p.grid, m)
    modifies board, st`enPassantTarget, st`movedPawnPositions, st`transpositionTable,
      st`iterativeDepth
    ensures (r, st.transpositionTable) ==
      Search.Deepen(st.zobrist, p, 1, maxDepth, isMaximizing, alpha, beta, seqDepth, timeUp,
                    moves, map[], Search.IterResult(None, None, old(st.iterativeDepth)),
                    old(st.transpositionTable))
    ensures st.iterativeDepth == r.resultDepth
    ensures Shows(board, st, p)
  {
    hide InCheck, IsValidMove, AllMoves, Search.Minimax, Search.SearchDepth, Search.RootLoop,
      SortBy;
    ghost var z := st.zobrist;
    ghost var target := Search.Deepen(z, p, 1, maxDepth, isMaximizing, alpha, beta, seqDepth,
                                      timeUp, moves, map[],
                                      Search.IterResult(None, None, st.iterativeDepth),
                                      st.transpositionTable);
    var allMoves := moves;
    var bestMove: Option<Move> := None;
    var bestScore: Option<ExtInt> := None;
    var previousScores: map<Move, ExtInt> := map[];
    var depth := 1;
    while depth <= maxDepth
      invariant depth >= 1
      invariant Shows(board, st, p) && st.zobrist == z
      invariant forall m | m in allMoves :: MoveOnBoard(p.grid, m)
      invariant Search.Deepen(z, p, depth, maxDepth, isMaximizing, alpha, beta, seqDepth, timeUp,
                              allMoves, previousScores,
                              Search.IterResult(bestMove, bestScore, st.iterativeDepth),
                              st.transpositionTable) == target
      decreases maxDepth - depth
    {
      var ordered, move, score, scores := SearchOneDepth(board, st, depth, isMaximizing, alpha,
                                                         beta, seqDepth, allMoves,
                                                         previousScores, p);
      allMoves := ordered;
      bestMove, bestScore, previousScores := move, Some(score), scores;
      if AbsAtLeast(score, 1000000) || timeUp(depth) {
        return Search.IterResult(bestMove, bestScore, st.iterativeDepth);
      }
      depth := depth + 1;
    }
    r := Search.IterResult(bestMove, bestScore, st.iterativeDepth);
  }

  /** iterativeMinimax: null without a legal move; otherwise one search per
      depth from 1 to `maxDepth` on an emptied table, reordering the root
      moves by the previous depth's scores, until a mate score or the time
      budget (`timeUp`, asked after each depth) ends it. */
  method IterativeMinimax(board: array2<char>, st: GameState, maxDepth: int, isMaximizing: bool,
                          seqDepth: int, alpha: ExtInt, beta: ExtInt, timeUp: nat -> bool)
    returns (r: Option<Search.IterResult>)
    requires FitsBoard(st.zobrist, board)
    modifies board, st`enPassantTarget, st`movedPawnPositions, st`transpositionTable,
      st`iterativeDepth
    ensures (r, st.transpositionTable) ==
      Search.Iterative(st.zobrist, old(PosOf(board, st)), maxDepth, isMaximizing, seqDepth, alpha,
                       beta, timeUp, old(st.iterativeDepth), old(st.transpositionTable))
    ensures st.iterativeDepth == if r.Some? then r.value.resultDepth else old(st.iterativeDepth)
    ensures PosOf(board, st) == old(PosOf(board, st))
  {
    hide InCheck, IsValidMove, AllMoves, Search.Deepen, Search.RootMoves;
    ghost var p := PosOf(board, st);
    var allMoves := RootMoves(board, st, isMaximizing, p);
    if |allMoves| == 0 {
      return None;
    }
    forall m | m in allMoves
      ensures MoveOnBoard(p.grid, m)
    {
      AllMovesOnBoard(p, Search.SideOf(isMaximizing), false, m);
    }
    var result := Deepen(board, st, maxDepth, isMaximizing, seqDepth, alpha, beta, timeUp,
                         allMoves, p);
    r := Some(result);
  }

  /** checkmateSearch: iterative deepening for `color` with the window that
      only sees scores beyond 10000 in its favour; a mate is reported with
      the number of plies to it. `None` where the source fails on a side
      without any move. */
  method CheckmateSearch(color: Color, board: array2<char>, st: GameState, depth: int,
                         timeUp: nat -> bool) returns (r: Option<Search.MateReport>)
    requires FitsBoard(st.zobrist, board) && depth >= 1
    modifies board, st`enPassantTarget, st`movedPawnPositions, st`transpositionTable,
      st`iterativeDepth
    ensures (r, st.transpositionTable) ==
      Search.CheckmateSearch(st.zobrist, old(PosOf(board, st)), color == White, depth, timeUp,
                             old(st.iterativeDepth), old(st.transpositionTable))
    ensures PosOf(board, st) == old(PosOf(board, st))
  {
    hide InCheck, IsValidMove, AllMoves, Search.Iterative;
    ghost var p := PosOf(board, st);
    ghost var d0 := st.iterativeDepth;
    ghost var t0 := st.transpositionTable;
    var isWhite := color == White;
    var alpha := if isWhite then Fin(10000) else NegInf;
    var beta := if isWhite then PosInf else Fin(-10000);
    var minimaxResult := IterativeMinimax(board, st, depth, isWhite, 0, alpha, beta, timeUp);
    if minimaxResult.None? {
      return None;
    }
    Search.IterativeOutcome(st.zobrist, p, depth, isWhite, 0, alpha, beta, timeUp, d0, t0);
    var bestScore := minimaxResult.value.bestScore.value;
    var resultDepth := minimaxResult.value.resultDepth;
    if (Less(Fin(-100000), bestScore) && !isWhite) || (Less(bestScore, Fin(100000)) && isWhite) {
      return Some(Search.MateReport(false, Fin(100)));
    }
    var movesUntilMate := Search.MovesUntilMate(resultDepth, bestScore);
    r := Some(Search.MateReport(true, movesUntilMate));
  }
}
