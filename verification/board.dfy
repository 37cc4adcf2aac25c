/** makeMove and unmakeMove on the in-place board. */
module Board {
  import opened Values
  import opened Pieces
  import opened Grids
  import opened Rules
  import opened State

  predicate OnArray(board: array2<char>, x: int, y: int) {
    0 <= y < board.Length0 && 0 <= x < board.Length1
  }

  /** One cell assignment `board[y][x] = v`, seen on the grid. */
  method Write(board: array2<char>, x: int, y: int, v: char)
    requires OnArray(board, x, y)
    modifies board
    ensures Cells(board) == Set(old(Cells(board)), x, y, v)
  {
    ghost var g0 := Cells(board);
    board[y, x] := v;
    GridExt(Cells(board), Set(g0, x, y, v));
  }

  /** makeMove: writes the two cells, records the undo information and
      recomputes `enPassantTarget`. */
  method MakeMove(board: array2<char>, m: Move, st: GameState) returns (undo: Undo)
    requires OnArray(board, m.fromX, m.fromY) && OnArray(board, m.toX, m.toY)
    modifies board, st`enPassantTarget
    ensures PosOf(board, st) == Rules.MakeMove(old(PosOf(board, st)), m).pos
    ensures undo == Rules.MakeMove(old(PosOf(board, st)), m).undo
  {
    ghost var p := PosOf(board, st);
    var fromPiece := board[m.fromY, m.fromX];
    var toPiece := board[m.toY, m.toX];
    var isPromotion := (fromPiece == 'P' && m.toY == 0) ||
                       (fromPiece == 'p' && m.toY == board.Length0 - 1);
    var promotedTo := if isPromotion then Some(if fromPiece == 'P' then 'Q' else 'q') else None;
    assert fromPiece == At(p.grid, m.fromX, m.fromY) && toPiece == At(p.grid, m.toX, m.toY);
    assert promotedTo == PromotedTo(p.grid, m);
    Write(board, m.toX, m.toY, promotedTo.GetOr(fromPiece));
    Write(board, m.fromX, m.fromY, Empty);
    undo := Undo(m.fromX, m.fromY, m.toX, m.toY, fromPiece, toPiece, promotedTo,
                 st.enPassantTarget, st.movedPawnPositions);
    if ToLower(fromPiece) == 'p' && Abs(m.toY - m.fromY) == 2 {
      st.enPassantTarget := Some(Square(m.toX, (m.fromY + m.toY) / 2));
    } else {
      st.enPassantTarget := None;
    }
  }

  /** unmakeMove: writes the moved and the captured piece back and restores
      the two state fields from the record. */
  method UnmakeMove(board: array2<char>, m: Move, undo: Undo, st: GameState)
    requires OnArray(board, m.fromX, m.fromY) && OnArray(board, m.toX, m.toY)
    modifies board, st`enPassantTarget, st`movedPawnPositions
    ensures PosOf(board, st) == Rules.UnmakeMove(old(PosOf(board, st)), m, undo)
  {
    ghost var p := PosOf(board, st);
    Write(board, m.fromX, m.fromY, undo.movedPiece);
    Write(board, m.toX, m.toY, undo.capturedPiece);
    if undo.promotedTo.Some? {
      Write(board, m.fromX, m.fromY, undo.movedPiece);
    }
    st.movedPawnPositions := undo.fullMovedPawnPositions;
    st.enPassantTarget := undo.previousEnPassant;
  }
}
