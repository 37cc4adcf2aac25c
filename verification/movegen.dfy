/** getValidMoves and getAllMoves: scans of the in-place board that apply
    each candidate move, test for check and undo it again. */
module MoveGen {
  import opened Values
  import opened Pieces
  import opened Grids
  import opened Rules
  import opened Legality
  import opened State
  import Board
  import Validation
  import CheckScan

  /** Plays `m`, asks whether `color` is then in check, and takes the move
      back: the make / isInCheck / unmake sequence the move lists share. */
  method LeavesInCheck(board: array2<char>, m: Move, color: Color, st: GameState, ghost p: Pos)
    returns (inCheck: bool)
    requires Shows(board, st, p)
    requires Board.OnArray(board, m.fromX, m.fromY) && Board.OnArray(board, m.toX, m.toY)
    modifies board, st`enPassantTarget, st`movedPawnPositions
    ensures inCheck == InCheck(Rules.MakeMove(p, m).pos, color)
    ensures Shows(board, st, p)
  {
    assert PosOf(board, st) == p;
    var undo := Board.MakeMove(board, m, st);
    inCheck := CheckScan.IsInCheck(color, board, st);
    Board.UnmakeMove(board, m, undo, st);
    UnmakeRestores(p, m);
  }

  /** The body of the inner loop of getValidMoves: what it pushes for the
      destination (toX, toY). */
  method DestStep(x: int, y: int, toX: int, toY: int, board: array2<char>, st: GameState,
                  skipCheckTest: bool, ghost p: Pos) returns (add: seq<Square>)
    requires Shows(board, st, p)
    requires Board.OnArray(board, x, y) && Board.OnArray(board, toX, toY)
    modifies board, st`enPassantTarget, st`movedPawnPositions
    ensures add == DestAt(p, x, y, skipCheckTest, toX, toY)
    ensures Shows(board, st, p)
  {
    assert PosOf(board, st) == p;
    var piece := board[y, x];
    var valid := Validation.IsValidMove(x, y, toX, toY, board, st);
    add := [];
    if valid {
      if skipCheckTest {
        add := [Square(toX, toY)];
      } else {
        var inCheck := LeavesInCheck(board, Move(x, y, toX, toY, piece), ColorOf(piece), st, p);
        if !inCheck {
          add := [Square(toX, toY)];
        }
      }
    }
  }

  /** The inner loop of getValidMoves over one row of destinations. */
  method DestRow(x: int, y: int, toY: int, board: array2<char>, st: GameState,
                 skipCheckTest: bool, ghost p: Pos) returns (row: seq<Square>)
    requires Shows(board, st, p)
    requires Board.OnArray(board, x, y) && 0 <= toY < board.Length0
    modifies board, st`enPassantTarget, st`movedPawnPositions
    ensures row == ScanRow(DestScan(p, x, y, skipCheckTest), toY, board.Length1)
    ensures Shows(board, st, p)
  {
    hide DestAt;
    row := [];
    var toX := 0;
    while toX < board.Length1
      invariant 0 <= toX <= board.Length1
      invariant Shows(board, st, p)
      invariant row == ScanRow(DestScan(p, x, y, skipCheckTest), toY, toX)
    {
      var add := DestStep(x, y, toX, toY, board, st, skipCheckTest, p);
      DestScanNext(p, x, y, skipCheckTest, toY, toX);
      row := row + add;
      toX := toX + 1;
    }
  }

  /** The outer loop of getValidMoves, over the rows of destinations. */
  method DestRows(x: int, y: int, board: array2<char>, st: GameState, skipCheckTest: bool,
                  ghost p: Pos) returns (moves: seq<Square>)
    requires Shows(board, st, p)
    requires Board.OnArray(board, x, y)
    modifies board, st`enPassantTarget, st`movedPawnPositions
    ensures moves == ScanRows(DestScan(p, x, y, skipCheckTest), board.Length1, board.Length0)
    ensures Shows(board, st, p)
  {
    hide DestAt;
    moves := [];
    var toY := 0;
    while toY < board.Length0
      invariant 0 <= toY <= board.Length0
      invariant Shows(board, st, p)
      invariant moves == ScanRows(DestScan(p, x, y, skipCheckTest), board.Length1, toY)
    {
      var row := DestRow(x, y, toY, board, st, skipCheckTest, p);
      moves := moves + row;
      toY := toY + 1;
    }
  }

  /** getValidMoves: the destinations of the piece on (x, y) in row-major
      order; the board and the state are as before afterwards. */
  method GetValidMoves(x: int, y: int, board: array2<char>, st: GameState, skipCheckTest: bool)
    returns (moves: seq<Square>)
    modifies board, st`enPassantTarget, st`movedPawnPositions
    ensures moves == ValidMoves(old(PosOf(board, st)), x, y, skipCheckTest)
    ensures PosOf(board, st) == old(PosOf(board, st))
  {
    ghost var p := PosOf(board, st);
    if !(0 <= y < board.Length0 && 0 <= x < board.Length1) || board[y, x] == Empty {
      return [];
    }
    moves := DestRows(x, y, board, st, skipCheckTest, p);
  }

  /** The loop of getAllMoves over the destinations of one piece. */
  method PieceMoves(x: int, y: int, legalMoves: seq<Square>, board: array2<char>, color: Color,
                    st: GameState, skipCheckTest: bool, ghost p: Pos) returns (moves: seq<Move>)
    requires Shows(board, st, p)
    requires Board.OnArray(board, x, y)
    requires legalMoves == ValidMoves(p, x, y, true)
    modifies board, st`enPassantTarget, st`movedPawnPositions
    ensures moves == MovesFrom(p, x, y, board[y, x], legalMoves, color, skipCheckTest)
    ensures Shows(board, st, p)
  {
    hide InCheck, IsValidMove;
    var piece := board[y, x];
    moves := [];
    var i := 0;
    while i < |legalMoves|
      invariant 0 <= i <= |legalMoves|
      invariant Shows(board, st, p)
      invariant board[y, x] == piece
      invariant moves == MovesFrom(p, x, y, piece, legalMoves[..i], color, skipCheckTest)
    {
      var d := legalMoves[i];
      var m := Move(x, y, d.x, d.y, piece);
      ValidMovesMember(p, x, y, true, d);
      assert legalMoves[..i + 1][..i] == legalMoves[..i];
      if skipCheckTest {
        moves := moves + [m];
      } else {
        var inCheck := LeavesInCheck(board, m, color, st, p);
        if !inCheck {
          moves := moves + [m];
        }
      }
      i := i + 1;
    }
    assert legalMoves[..|legalMoves|] == legalMoves;
  }

  /** The inner loop of getAllMoves over the squares of one row. */
  method RowMoves(y: int, board: array2<char>, color: Color, st: GameState, skipCheckTest: bool,
                  ghost p: Pos) returns (moves: seq<Move>)
    requires Shows(board, st, p)
    requires 0 <= y < board.Length0
    modifies board, st`enPassantTarget, st`movedPawnPositions
    ensures moves == ScanRow(PieceScan(p, color, skipCheckTest), y, board.Length1)
    ensures Shows(board, st, p)
  {
    hide InCheck, IsValidMove;
    moves := [];
    var x := 0;
    while x < board.Length1
      invariant 0 <= x <= board.Length1
      invariant Shows(board, st, p)
      invariant moves == ScanRow(PieceScan(p, color, skipCheckTest), y, x)
    {
      var piece := board[y, x];
      var add: seq<Move> := [];
      if piece != Empty && IsUpper(piece) == (color == White) {
        var legalMoves := GetValidMoves(x, y, board, st, true);
        add := PieceMoves(x, y, legalMoves, board, color, st, skipCheckTest, p);
      }
      PieceScanNext(p, color, skipCheckTest, y, x);
      moves := moves + add;
      x := x + 1;
    }
  }

  /** getAllMoves: every move of every piece of `color`, square by square
      in row-major order; the board and the state are as before afterwards. */
  method GetAllMoves(board: array2<char>, color: Color, st: GameState, skipCheckTest: bool)
    returns (moves: seq<Move>)
    modifies board, st`enPassantTarget, st`movedPawnPositions
    ensures moves == AllMoves(old(PosOf(board, st)), color, skipCheckTest)
    ensures PosOf(board, st) == old(PosOf(board, st))
  {
    hide InCheck, IsValidMove, PieceScan, ScanRow;
    ghost var p := PosOf(board, st);
    moves := [];
    var y := 0;
    while y < board.Length0
      invariant 0 <= y <= board.Length0
      invariant Shows(board, st, p)
      invariant moves == ScanRows(PieceScan(p, color, skipCheckTest), board.Length1, y)
    {
      var row := RowMoves(y, board, color, st, skipCheckTest, p);
      moves := moves + row;
      y := y + 1;
    }
    assert board.Length0 == 0 || Cols(p.grid) == board.Length1;
  }
}
