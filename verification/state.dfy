/** The shared game state of the engine: the fields of the global `state`
    object that the modelled code reads and writes. The piece values are
    the constant `Pieces.PieceValues`; DOM handles, sounds and timing
    counters are not part of the model. */
module State {
  import opened Values
  import opened Pieces
  import opened Grids
  import opened Rules

  /** A transposition-table key: the Zobrist fingerprint, the remaining
      depth and `Math.floor(10 * alpha)`, `Math.floor(10 * beta)`. */
  datatype CacheKey = CacheKey(hash: nat, depth: int, alpha10: ExtInt, beta10: ExtInt)

  /** `{ score, sequence }` as minimax returns and caches it. */
  datatype SearchResult = SearchResult(score: ExtInt, sequence: seq<Move>)

  class GameState {
    var boardState: array2<char>
    var currentPlayer: Color
    var gameOver: bool
    var enPassantTarget: Option<Square>
    var movedPawnPositions: seq<Square>
    var moveHistory: seq<string>
    var zobrist: Zobrist
    var transpositionTable: map<CacheKey, SearchResult>
    var iterativeDepth: int

    /** A fresh game on `board`: white to move, nothing recorded yet. */
    constructor(board: array2<char>, z: Zobrist)
      ensures boardState == board && currentPlayer == White && !gameOver
      ensures enPassantTarget == None && movedPawnPositions == [] && moveHistory == []
      ensures zobrist == z && transpositionTable == map[] && iterativeDepth == 0
    {
      boardState := board;
      currentPlayer := White;
      gameOver := false;
      enPassantTarget := None;
      movedPawnPositions := [];
      moveHistory := [];
      zobrist := z;
      transpositionTable := map[];
      iterativeDepth := 0;
    }
  }

  /** `board` and `st` show the position `p`. */
  predicate Shows(board: array2<char>, st: GameState, p: Pos)
    reads board, st
  {
    Cells(board) == p.grid && st.enPassantTarget == p.ep && st.movedPawnPositions == p.moved
  }

  /** What the move rules see of `board` and `st`. */
  function PosOf(board: array2<char>, st: GameState): Pos
    reads board, st
  {
    Pos(Cells(board), st.enPassantTarget, st.movedPawnPositions)
  }
}
