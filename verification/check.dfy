/** isInCheck on the in-place board. */
module CheckScan {
  import opened Values
  import opened Pieces
  import opened Grids
  import opened Rules
  import opened Legality
  import opened State
  import Validation

  /** isInCheck: finds the king (the inner `break` leaves only the row
      loop), then looks for an opposing piece that may move onto it. */
  method IsInCheck(color: Color, board: array2<char>, st: GameState) returns (r: bool)
    ensures r == InCheck(PosOf(board, st), color)
  {
    ghost var p := PosOf(board, st);
    ghost var g := p.grid;
    var king := KingOf(color);
    var kingX, kingY := -1, -1;
    ghost var found: Option<Square> := None;
    var y := 0;
    while y < board.Length0
      invariant 0 <= y <= board.Length0
      invariant KingFrom(g, king, y, found) == KingSquare(g, color)
      invariant found.None? ==> kingX == -1 && kingY == -1
      invariant found.Some? ==> found == Some(Square(kingX, kingY)) && 0 <= kingX && 0 <= kingY
    {
      var x := 0;
      ghost var hit := false;
      while x < board.Length1
        invariant 0 <= x <= board.Length1
        invariant FirstInRow(g, y, king, x) == FirstInRow(g, y, king, 0)
        invariant !hit
        invariant found.None? ==> kingX == -1 && kingY == -1
        invariant found.Some? ==> found == Some(Square(kingX, kingY)) && 0 <= kingX && 0 <= kingY
      {
        if board[y, x] == king {
          kingX, kingY := x, y;
          hit := true;
          break;
        }
        x := x + 1;
      }
      assert hit ==> FirstInRow(g, y, king, 0) == Some(kingX) && kingY == y && 0 <= kingX;
      assert !hit ==> FirstInRow(g, y, king, 0) == None;
      found := if hit then Some(Square(kingX, kingY)) else found;
      y := y + 1;
    }
    if kingX == -1 || kingY == -1 {
      return false;
    }
    ghost var k := Square(kingX, kingY);
    assert InCheck(p, color) == AttackFrom(p, color, k, 0, 0);
    y := 0;
    while y < board.Length0
      invariant 0 <= y <= board.Length0
      invariant AttackFrom(p, color, k, y, 0) == AttackFrom(p, color, k, 0, 0)
    {
      var x := 0;
      while x < board.Length1
        invariant 0 <= x <= board.Length1
        invariant AttackFrom(p, color, k, y, x) == AttackFrom(p, color, k, 0, 0)
      {
        var piece := board[y, x];
        if piece != Empty && IsLower(piece) == (color == White) {
          var v := Validation.IsValidMove(x, y, kingX, kingY, board, st);
          if v {
            assert Attacker(p, color, x, y, k);
            return true;
          }
        }
        assert !Attacker(p, color, x, y, k);
        x := x + 1;
      }
      y := y + 1;
    }
    return false;
  }
}
