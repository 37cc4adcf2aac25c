/** isPathClear and isValidMove on the in-place board. */
module Validation {
  import opened Values
  import opened Pieces
  import opened Grids
  import opened Rules
  import opened State

  /** Along a line, the walk of `k` steps reaches the far end exactly when
      `k` is the distance. */
  lemma WalkEnds(fx: int, fy: int, tx: int, ty: int, k: int)
    requires OnLine(fx, fy, tx, ty) && 0 <= k <= Dist(fx, fy, tx, ty)
    ensures (Along(fx, Sign(tx - fx), k) == tx && Along(fy, Sign(ty - fy), k) == ty) <==>
      k == Dist(fx, fy, tx, ty)
  {
    LineEnds(fx, fy, tx, ty);
    var d := Dist(fx, fy, tx, ty);
    if k < d {
      if Abs(tx - fx) == d {
        assert Along(fx, Sign(tx - fx), k) != tx;
      } else {
        assert Along(fy, Sign(ty - fy), k) != ty;
      }
    }
  }

  /** isPathClear: steps from the square after `from` towards `to` and
      fails on the first occupied square. */
  method IsPathClear(fromX: int, fromY: int, toX: int, toY: int, board: array2<char>) returns (r: bool)
    requires OnLine(fromX, fromY, toX, toY)
    ensures r == PathClear(Cells(board), fromX, fromY, toX, toY)
  {
    ghost var g := Cells(board);
    ghost var d := Dist(fromX, fromY, toX, toY);
    PathClearMeaning(g, fromX, fromY, toX, toY);
    var dx := Sign(toX - fromX);
    var dy := Sign(toY - fromY);
    var x := fromX + dx;
    var y := fromY + dy;
    ghost var k := 1;
    if d == 0 {
      assert x == toX && y == toY;
    }
    while x != toX || y != toY
      invariant d > 0 ==> 1 <= k <= d
      invariant d == 0 ==> x == toX && y == toY
      invariant x == Along(fromX, dx, k) && y == Along(fromY, dy, k)
      invariant forall j | 0 < j < k :: OnLineAt(g, fromX, fromY, toX, toY, j) == Empty
      decreases d - k
    {
      WalkEnds(fromX, fromY, toX, toY, k);
      if 0 <= y < board.Length0 && 0 <= x < board.Length1 && board[y, x] != Empty {
        assert OnLineAt(g, fromX, fromY, toX, toY, k) != Empty;
        return false;
      }
      assert OnLineAt(g, fromX, fromY, toX, toY, k) == Empty;
      x := x + dx;
      y := y + dy;
      k := k + 1;
    }
    if d > 0 {
      WalkEnds(fromX, fromY, toX, toY, k);
    }
    return true;
  }

  /** isValidMove, reading `enPassantTarget` and `movedPawnPositions` from
      the state. The source row must exist (the source indexes it
      directly). */
  method IsValidMove(fromX: int, fromY: int, toX: int, toY: int, board: array2<char>, st: GameState)
    returns (r: bool)
    requires 0 <= fromY < board.Length0
    ensures r == Rules.IsValidMove(PosOf(board, st), fromX, fromY, toX, toY)
  {
    ghost var p := PosOf(board, st);
    var dx := toX - fromX;
    var dy := toY - fromY;
    var src := if 0 <= fromX < board.Length1 then board[fromY, fromX] else Empty;
    var piece := ToLower(src);
    var target := if 0 <= toY < board.Length0 && 0 <= toX < board.Length1 then board[toY, toX] else Empty;
    assert src == At(p.grid, fromX, fromY) && target == At(p.grid, toX, toY);
    if src == Empty {
      return false;
    }
    if target != Empty && IsSameSide(src, target) {
      return false;
    }
    if piece == 'p' {
      var dir := if src == 'P' then -1 else 1;
      var hasMoved := Square(fromX, fromY) in st.movedPawnPositions;
      if dx == 0 && target == Empty && dy == dir {
        return true;
      }
      if dx == 0 && target == Empty && dy == 2 * dir && !hasMoved {
        var clear := IsPathClear(fromX, fromY, toX, toY, board);
        if clear {
          return true;
        }
      }
      if Abs(dx) == 1 && dy == dir && target != Empty {
        return true;
      }
      if Abs(dx) == 1 && dy == dir && target == Empty && st.enPassantTarget == Some(Square(toX, toY)) {
        return true;
      }
      return false;
    } else if piece == 'r' {
      if dx != 0 && dy != 0 {
        return false;
      }
      r := IsPathClear(fromX, fromY, toX, toY, board);
    } else if piece == 'n' {
      r := (Abs(dx) == 2 && Abs(dy) == 1) || (Abs(dx) == 1 && Abs(dy) == 2);
    } else if piece == 'b' {
      if Abs(dx) != Abs(dy) {
        return false;
      }
      r := IsPathClear(fromX, fromY, toX, toY, board);
    } else if piece == 'q' {
      if dx == 0 || dy == 0 || Abs(dx) == Abs(dy) {
        r := IsPathClear(fromX, fromY, toX, toY, board);
      } else {
        r := false;
      }
    } else if piece == 'k' {
      r := Abs(dx) <= 1 && Abs(dy) <= 1;
    } else {
      r := false;
    }
  }
}
