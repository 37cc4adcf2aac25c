/** hasLegalMoves, getGameState, onlyKingsLeft, isKingMissing and
    getZobristHash on the in-place board. */
module Status {
  import opened Values
  import opened Pieces
  import opened Grids
  import opened Rules
  import opened Sorting
  import opened Legality
  import opened State
  import Board
  import CheckScan
  import MoveGen

  /** One row of the collection loop of hasLegalMoves. */
  method RowPieces(board: array2<char>, color: Color, y: int) returns (row: seq<Square>)
    requires 0 <= y < board.Length0
    ensures row == ScanRow(OwnSquares(Cells(board), color), y, board.Length1)
  {
    ghost var g := Cells(board);
    row := [];
    var x := 0;
    while x < board.Length1
      invariant 0 <= x <= board.Length1
      invariant row == ScanRow(OwnSquares(g, color), y, x)
    {
      OwnSquaresNext(g, color, y, x);
      var piece := board[y, x];
      if piece != Empty && IsUpper(piece) == (color == White) {
        row := row + [Square(x, y)];
      }
      x := x + 1;
    }
  }

  /** The collection loop of hasLegalMoves: the squares of the colour's
      pieces in row-major order. */
  method CollectPieces(board: array2<char>, color: Color) returns (pieces: seq<Square>)
    ensures pieces == ScanRows(OwnSquares(Cells(board), color), board.Length1, board.Length0)
  {
    pieces := [];
    var y := 0;
    while y < board.Length0
      invariant 0 <= y <= board.Length0
      invariant pieces == ScanRows(OwnSquares(Cells(board), color), board.Length1, y)
    {
      var row := RowPieces(board, color, y);
      pieces := pieces + row;
      y := y + 1;
    }
  }

  /** The piece list of hasLegalMoves, sorted kings first. */
  method KingsFirst(board: array2<char>, color: Color) returns (order: seq<Square>)
    ensures order == PieceOrder(Cells(board), color)
  {
    var pieces := CollectPieces(board, color);
    order := SortBy(pieces, KingsFirstKey(Cells(board)));
  }

  /** The inner loop of hasLegalMoves for the piece on (x, y): some
      destination leaves the king of `color` out of check. */
  method PieceHasSafeMove(x: int, y: int, board: array2<char>, color: Color, st: GameState,
                          ghost p: Pos) returns (r: bool)
    requires Shows(board, st, p)
    requires Board.OnArray(board, x, y)
    modifies board, st`enPassantTarget, st`movedPawnPositions
    ensures r == SafeFrom(p, Square(x, y), color)
    ensures Shows(board, st, p)
  {
    hide InCheck, IsValidMove;
    assert PosOf(board, st) == p;
    var moves := MoveGen.GetValidMoves(x, y, board, st, true);
    var piece := board[y, x];
    var i := 0;
    while i < |moves|
      invariant 0 <= i <= |moves|
      invariant Shows(board, st, p) && board[y, x] == piece
      invariant forall k | 0 <= k < i ::
        !LeavesKingSafe(p, Move(x, y, moves[k].x, moves[k].y, piece), color)
    {
      var d := moves[i];
      ValidMovesMember(p, x, y, true, d);
      var m := Move(x, y, d.x, d.y, piece);
      var inCheck := MoveGen.LeavesInCheck(board, m, color, st, p);
      if !inCheck {
        assert LeavesKingSafe(p, m, color);
        return true;
      }
      i := i + 1;
    }
    return false;
  }

  /** hasLegalMoves: tries the pieces kings first and stops at the first
      destination that keeps the king out of check; the board and the
      state are as before afterwards. */
  method HasLegalMoves(color: Color, board: array2<char>, st: GameState) returns (r: bool)
    modifies board, st`enPassantTarget, st`movedPawnPositions
    ensures r == HasLegal(old(PosOf(board, st)), color)
    ensures PosOf(board, st) == old(PosOf(board, st))
  {
    hide InCheck, IsValidMove, SafeFrom, HasLegal, PieceOrder;
    ghost var p := PosOf(board, st);
    var order := KingsFirst(board, color);
    HasLegalByPieces(p, color);
    var i := 0;
    while i < |order|
      invariant 0 <= i <= |order|
      invariant Shows(board, st, p)
      invariant forall k | 0 <= k < i :: !SafeFrom(p, order[k], color)
    {
      var s := order[i];
      PieceOrderMembers(p.grid, color, s);
      var found := PieceHasSafeMove(s.x, s.y, board, color, st, p);
      if found {
        return true;
      }
      i := i + 1;
    }
    return false;
  }

  /** onlyKingsLeft: one pass that records both kings and adds up the
      extras (1 for a knight or bishop, 2 for any other piece). */
  method OnlyKingsLeft(board: array2<char>) returns (r: bool)
    ensures r == Grids.OnlyKingsLeft(Cells(board))
  {
    hide SeenBefore, HasPiece;
    ghost var g := Cells(board);
    var hasW, hasB, extras := false, false, 0;
    SeenNone(g, 'K');
    SeenNone(g, 'k');
    var y := 0;
    while y < board.Length0
      invariant 0 <= y <= board.Length0
      invariant hasW == SeenBefore(g, 'K', y, 0) && hasB == SeenBefore(g, 'k', y, 0)
      invariant extras == GridSum(g, ExtraWeight, y)
    {
      var x := 0;
      while x < board.Length1
        invariant 0 <= x <= board.Length1
        invariant hasW == SeenBefore(g, 'K', y, x) && hasB == SeenBefore(g, 'k', y, x)
        invariant extras == GridSum(g, ExtraWeight, y) + RowSum(g[y], ExtraWeight, x)
      {
        SeenStep(g, 'K', y, x);
        SeenStep(g, 'k', y, x);
        var piece := board[y, x];
        if piece != Empty {
          if piece == 'K' {
            hasW := true;
          } else if piece == 'k' {
            hasB := true;
          } else if piece == 'n' || piece == 'N' || piece == 'b' || piece == 'B' {
            extras := extras + 1;
          } else {
            extras := extras + 2;
          }
        }
        x := x + 1;
      }
      SeenRowEnd(g, 'K', y);
      SeenRowEnd(g, 'k', y);
      y := y + 1;
    }
    SeenAll(g, 'K');
    SeenAll(g, 'k');
    r := hasW && hasB && extras <= 1;
  }

  /** isKingMissing on `state.boardState`. */
  method IsKingMissing(st: GameState) returns (r: Option<string>)
    ensures r == KingMissing(Cells(st.boardState))
  {
    hide SeenBefore, HasPiece;
    var board := st.boardState;
    ghost var g := Cells(board);
    var w, b := false, false;
    SeenNone(g, 'K');
    SeenNone(g, 'k');
    var y := 0;
    while y < board.Length0
      invariant 0 <= y <= board.Length0
      invariant w == SeenBefore(g, 'K', y, 0) && b == SeenBefore(g, 'k', y, 0)
    {
      var x := 0;
      while x < board.Length1
        invariant 0 <= x <= board.Length1
        invariant w == SeenBefore(g, 'K', y, x) && b == SeenBefore(g, 'k', y, x)
      {
        SeenStep(g, 'K', y, x);
        SeenStep(g, 'k', y, x);
        if board[y, x] == 'K' {
          w := true;
        }
        if board[y, x] == 'k' {
          b := true;
        }
        x := x + 1;
      }
      SeenRowEnd(g, 'K', y);
      SeenRowEnd(g, 'k', y);
      y := y + 1;
    }
    SeenAll(g, 'K');
    SeenAll(g, 'k');
    r := if !w then Some("Black") else if !b then Some("White") else None;
  }

  /** One row of getZobristHash: folds the row's squares into `h`. */
  method RowHash(board: array2<char>, z: Zobrist, y: int, h0: nat) returns (h: nat)
    requires Fits(z, Cells(board)) && 0 <= y < board.Length0
    ensures HashFrom(z, Cells(board), y + 1, 0, h) == HashFrom(z, Cells(board), y, 0, h0)
  {
    ghost var g := Cells(board);
    h := h0;
    var x := 0;
    while x < board.Length1
      invariant 0 <= x <= board.Length1
      invariant HashFrom(z, g, y, x, h) == HashFrom(z, g, y, 0, h0)
    {
      HashFromStep(z, g, y, x, h);
      var piece := board[y, x];
      if piece != Empty && piece in PieceToIndex {
        h := Xor(h, z.table[y][x][PieceToIndex[piece]]);
      }
      x := x + 1;
    }
    HashFromRowEnd(z, g, y, h);
  }

  /** The loops of getZobristHash: the XOR of the entries of the occupied
      squares. */
  method BoardHashOf(board: array2<char>, z: Zobrist) returns (h: nat)
    requires Fits(z, Cells(board))
    ensures h == BoardHash(z, Cells(board))
  {
    hide HashFrom;
    ghost var g := Cells(board);
    h := 0;
    var y := 0;
    while y < board.Length0
      invariant 0 <= y <= board.Length0
      invariant HashFrom(z, g, y, 0, h) == HashFrom(z, g, 0, 0, 0)
    {
      h := RowHash(board, z, y, h);
      y := y + 1;
    }
    HashFromEnd(z, g, h);
  }

  /** getZobristHash with the table passed in; the source turns the number
      into its decimal string, which is a one-to-one renaming of the key. */
  method GetZobristHash(board: array2<char>, color: Color, z: Zobrist) returns (h: nat)
    requires Fits(z, Cells(board))
    ensures h == Hash(z, Cells(board), color)
  {
    h := BoardHashOf(board, z);
    if color == White {
      h := Xor(h, z.sideToMove);
    }
  }

  /** getGameState: repetition and the bare-kings draw only outside the
      search, then "ongoing" when a legal move exists, else checkmate or
      stalemate by the check test. */
  method GetGameState(color: Color, board: array2<char>, st: GameState, sim: bool,
                      history: seq<string>) returns (r: Outcome)
    modifies board, st`enPassantTarget, st`movedPawnPositions
    ensures r == GameStatus(old(PosOf(board, st)), color, sim, history)
    ensures PosOf(board, st) == old(PosOf(board, st))
  {
    hide InCheck, IsValidMove;
    if !sim {
      var sig := Signature(Cells(board), Opponent(color));
      if Count(history, sig) >= 3 {
        return Repetition;
      }
      var bare := OnlyKingsLeft(board);
      if bare {
        return Draw;
      }
    }
    var hasMoves := HasLegalMoves(color, board, st);
    if hasMoves {
      return Ongoing;
    }
    var inCheck := CheckScan.IsInCheck(color, board, st);
    r := if inCheck then Checkmate else Draw;
  }
}
