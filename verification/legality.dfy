/** Check detection, the move lists of getValidMoves / getAllMoves, and the
    classification of a position by getGameState, as functions of a
    position. */
module Legality {
  import opened Values
  import opened Pieces
  import opened Grids
  import opened Rules
  import opened Sorting

  function KingOf(color: Color): char {
    if color == White then 'K' else 'k'
  }

  // ---------------------------------------------------------------------
  // isInCheck: finding the king

  /** The first column at or after `x` of row `y` that holds `king`. */
  function FirstInRow(g: Grid, y: int, king: char, x: nat): Option<nat>
    decreases Cols(g) - x
  {
    if x >= Cols(g) then None
    else if At(g, x, y) == king then Some(x)
    else FirstInRow(g, y, king, x + 1)
  }

  /** The king scan of isInCheck from row `y` on: its `break` leaves only
      the inner loop, so a later row with the king overrides `acc`. */
  function KingFrom(g: Grid, king: char, y: nat, acc: Option<Square>): Option<Square>
    decreases |g| - y
  {
    if y >= |g| then acc
    else
      var found := FirstInRow(g, y, king, 0);
      KingFrom(g, king, y + 1, if found.Some? then Some(Square(found.value, y)) else acc)
  }

  /** Where isInCheck believes the king of `color` stands. */
  function KingSquare(g: Grid, color: Color): Option<Square> {
    KingFrom(g, KingOf(color), 0, None)
  }

  predicate NoneInRow(g: Grid, y: int, c: char, x: nat) {
    forall i | x <= i < Cols(g) :: At(g, i, y) != c
  }

  predicate NoneFrom(g: Grid, c: char, y: nat) {
    forall r, i | y <= r < |g| && 0 <= i < Cols(g) :: At(g, i, r) != c
  }

  lemma {:induction false} FirstInRowMeaning(g: Grid, y: int, king: char, x: nat)
    ensures var r := FirstInRow(g, y, king, x);
      (r.None? <==> NoneInRow(g, y, king, x)) &&
      (r.Some? ==> (x <= r.value < Cols(g) && At(g, r.value, y) == king &&
        forall i | x <= i < r.value :: At(g, i, y) != king))
    decreases Cols(g) - x
  {
    if x < Cols(g) && At(g, x, y) != king {
      FirstInRowMeaning(g, y, king, x + 1);
    }
  }

  lemma {:induction false} KingFromMeaning(g: Grid, king: char, y: nat, acc: Option<Square>)
    ensures var r := KingFrom(g, king, y, acc);
      (NoneFrom(g, king, y) ==> r == acc) &&
      (!NoneFrom(g, king, y) ==> (r.Some? && y <= r.value.y < |g| && 0 <= r.value.x < Cols(g) &&
        At(g, r.value.x, r.value.y) == king))
    decreases |g| - y
  {
    if y < |g| {
      var found := FirstInRow(g, y, king, 0);
      FirstInRowMeaning(g, y, king, 0);
      var acc' := if found.Some? then Some(Square(found.value, y)) else acc;
      KingFromMeaning(g, king, y + 1, acc');
      if NoneFrom(g, king, y) {
        assert NoneInRow(g, y, king, 0);
        assert NoneFrom(g, king, y + 1);
      } else if NoneFrom(g, king, y + 1) {
        assert !NoneInRow(g, y, king, 0);
      }
    }
  }

  /** The king scan finds a square holding the king exactly when there is
      one on the board. */
  lemma KingSquareMeaning(g: Grid, color: Color)
    ensures KingSquare(g, color).None? <==> NoneFrom(g, KingOf(color), 0)
    ensures KingSquare(g, color).Some? ==>
      var k := KingSquare(g, color).value;
      0 <= k.y < |g| && 0 <= k.x < Cols(g) && At(g, k.x, k.y) == KingOf(color)
  {
    KingFromMeaning(g, KingOf(color), 0, None);
  }

  // ---------------------------------------------------------------------
  // isInCheck: the attack test

  /** A piece of the side opposing `color` on (x, y) may move onto `k`. */
  predicate Attacker(p: Pos, color: Color, x: int, y: int, k: Square) {
    var piece := At(p.grid, x, y);
    piece != Empty && IsLower(piece) == (color == White) && IsValidMove(p, x, y, k.x, k.y)
  }

  /** The attack loop of isInCheck from square (x, y) on, in row-major
      order: some later square holds an attacker of `k`. */
  predicate AttackFrom(p: Pos, color: Color, k: Square, y: nat, x: nat)
    decreases |p.grid| - y, Cols(p.grid) - x
  {
    if y >= |p.grid| then false
    else if x >= Cols(p.grid) then AttackFrom(p, color, k, y + 1, 0)
    else Attacker(p, color, x, y, k) || AttackFrom(p, color, k, y, x + 1)
  }

  /** isInCheck. */
  predicate InCheck(p: Pos, color: Color) {
    match KingSquare(p.grid, color)
    case None => false
    case Some(k) => AttackFrom(p, color, k, 0, 0)
  }

  /** The attack scan finds an attacker exactly when one stands on a
      square at or after (x, y). */
  lemma {:induction false} AttackFromMeaning(p: Pos, color: Color, k: Square, y: nat, x: nat)
    ensures AttackFrom(p, color, k, y, x) <==>
      exists yy, xx | ((yy == y && x <= xx) || y < yy) && yy < |p.grid| && 0 <= xx < Cols(p.grid) ::
        Attacker(p, color, xx, yy, k)
    decreases |p.grid| - y, Cols(p.grid) - x
  {
    if y >= |p.grid| {
    } else if x >= Cols(p.grid) {
      AttackFromMeaning(p, color, k, y + 1, 0);
      if AttackFrom(p, color, k, y, x) {
        var yy, xx :| y + 1 <= yy < |p.grid| && 0 <= xx < Cols(p.grid) && Attacker(p, color, xx, yy, k);
        assert ((yy == y && x <= xx) || y < yy) && yy < |p.grid| && 0 <= xx < Cols(p.grid);
      } else {
        forall yy, xx | ((yy == y && x <= xx) || y < yy) && yy < |p.grid| && 0 <= xx < Cols(p.grid)
          ensures !Attacker(p, color, xx, yy, k)
        {
          assert (yy == y + 1 && 0 <= xx) || y + 1 < yy;
        }
      }
    } else {
      AttackFromMeaning(p, color, k, y, x + 1);
      if Attacker(p, color, x, y, k) {
        assert (y == y && x <= x) || y < y;
      } else if AttackFrom(p, color, k, y, x) {
        var yy, xx :| ((yy == y && x + 1 <= xx) || y < yy) && yy < |p.grid| && 0 <= xx < Cols(p.grid) &&
          Attacker(p, color, xx, yy, k);
        assert ((yy == y && x <= xx) || y < yy) && yy < |p.grid| && 0 <= xx < Cols(p.grid);
      } else {
        forall yy, xx | ((yy == y && x <= xx) || y < yy) && yy < |p.grid| && 0 <= xx < Cols(p.grid)
          ensures !Attacker(p, color, xx, yy, k)
        {
          if yy == y && xx == x {
          } else {
            assert (yy == y && x + 1 <= xx) || y < yy;
          }
        }
      }
    }
  }

  /** A side without a king is never in check; otherwise it is in check
      exactly when an opposing piece may move onto the king's square. */
  lemma InCheckMeaning(p: Pos, color: Color)
    ensures NoneFrom(p.grid, KingOf(color), 0) ==> !InCheck(p, color)
    ensures !NoneFrom(p.grid, KingOf(color), 0) ==>
      KingSquare(p.grid, color).Some? &&
      var k := KingSquare(p.grid, color).value;
      At(p.grid, k.x, k.y) == KingOf(color) &&
      (InCheck(p, color) <==>
        exists y, x | 0 <= y < |p.grid| && 0 <= x < Cols(p.grid) :: Attacker(p, color, x, y, k))
  {
    KingSquareMeaning(p.grid, color);
    if KingSquare(p.grid, color).Some? {
      var k := KingSquare(p.grid, color).value;
      AttackFromMeaning(p, color, k, 0, 0);
    }
  }

  /** Moving onto an occupied square never depends on the en-passant
      target or on the moved-pawn list. */
  lemma ValidMoveOntoPiece(p: Pos, q: Pos, fx: int, fy: int, tx: int, ty: int)
    requires p.grid == q.grid && At(p.grid, tx, ty) != Empty
    ensures IsValidMove(p, fx, fy, tx, ty) == IsValidMove(q, fx, fy, tx, ty)
  {
  }

  /** Check depends on the board alone. */
  lemma InCheckBoardOnly(p: Pos, q: Pos, color: Color)
    requires p.grid == q.grid
    ensures InCheck(p, color) == InCheck(q, color)
  {
    InCheckMeaning(p, color);
    InCheckMeaning(q, color);
    KingSquareMeaning(p.grid, color);
    if KingSquare(p.grid, color).Some? {
      var k := KingSquare(p.grid, color).value;
      forall y, x ensures Attacker(p, color, x, y, k) == Attacker(q, color, x, y, k) {
        ValidMoveOntoPiece(p, q, x, y, k.x, k.y);
      }
    }
  }

  // ---------------------------------------------------------------------
  // getValidMoves

  /** Playing `m` does not leave the king of `color` in check. */
  predicate LeavesKingSafe(p: Pos, m: Move, color: Color) {
    MoveOnBoard(p.grid, m) && !InCheck(MakeMove(p, m).pos, color)
  }

  /** What the inner loop of getValidMoves pushes for destination (tx, ty). */
  function DestAt(p: Pos, x: int, y: int, skip: bool, tx: int, ty: int): seq<Square> {
    var piece := At(p.grid, x, y);
    if IsValidMove(p, x, y, tx, ty) &&
       (skip || LeavesKingSafe(p, Move(x, y, tx, ty, piece), ColorOf(piece)))
    then [Square(tx, ty)] else []
  }

  function DestScan(p: Pos, x: int, y: int, skip: bool): (int, int) -> seq<Square> {
    (tx: int, ty: int) => DestAt(p, x, y, skip, tx, ty)
  }

  /** One more column of the destination scan. */
  lemma DestScanNext(p: Pos, x: int, y: int, skip: bool, ty: int, n: nat)
    ensures ScanRow(DestScan(p, x, y, skip), ty, n + 1) ==
      ScanRow(DestScan(p, x, y, skip), ty, n) + DestAt(p, x, y, skip, n, ty)
  {
  }

  /** getValidMoves: the destinations in row-major order. */
  function ValidMoves(p: Pos, x: int, y: int, skip: bool): seq<Square> {
    if At(p.grid, x, y) == Empty then []
    else ScanRows(DestScan(p, x, y, skip), Cols(p.grid), |p.grid|)
  }

  /** The destinations getValidMoves returns are exactly the valid ones on
      the board, and with `skip` false exactly those after which the
      mover's king is not in check; an empty square has none. */
  lemma ValidMovesMember(p: Pos, x: int, y: int, skip: bool, s: Square)
    ensures s in ValidMoves(p, x, y, skip) <==>
      At(p.grid, x, y) != Empty && 0 <= s.y < |p.grid| && 0 <= s.x < Cols(p.grid) &&
      IsValidMove(p, x, y, s.x, s.y) &&
      (skip || LeavesKingSafe(p, Move(x, y, s.x, s.y, At(p.grid, x, y)), ColorOf(At(p.grid, x, y))))
  {
    if At(p.grid, x, y) != Empty {
      var f := DestScan(p, x, y, skip);
      ScanRowsMember(f, Cols(p.grid), |p.grid|, s);
      if s in ValidMoves(p, x, y, skip) {
        var y', x' :| 0 <= y' < |p.grid| && 0 <= x' < Cols(p.grid) && s in f(x', y');
        assert s == Square(x', y');
      } else if 0 <= s.y < |p.grid| && 0 <= s.x < Cols(p.grid) {
        assert s !in f(s.x, s.y);
      }
    }
  }

  // ---------------------------------------------------------------------
  // getAllMoves

  /** The moves the inner `for (const [toX, toY] of legalMoves)` loop pushes. */
  function MovesFrom(p: Pos, x: int, y: int, piece: char, ds: seq<Square>, color: Color, skip: bool): seq<Move> {
    if |ds| == 0 then []
    else
      var d := ds[|ds| - 1];
      var m := Move(x, y, d.x, d.y, piece);
      MovesFrom(p, x, y, piece, ds[..|ds| - 1], color, skip) +
        (if skip || LeavesKingSafe(p, m, color) then [m] else [])
  }

  /** `(piece === piece.toUpperCase()) === isWhite`. */
  predicate BelongsTo(piece: char, color: Color) {
    piece != Empty && IsUpper(piece) == (color == White)
  }

  /** What getAllMoves pushes for the square (x, y). */
  function PieceAt(p: Pos, color: Color, skip: bool, x: int, y: int): seq<Move> {
    var piece := At(p.grid, x, y);
    if BelongsTo(piece, color)
    then MovesFrom(p, x, y, piece, ValidMoves(p, x, y, true), color, skip)
    else []
  }

  function PieceScan(p: Pos, color: Color, skip: bool): (int, int) -> seq<Move> {
    (x: int, y: int) => PieceAt(p, color, skip, x, y)
  }

  /** One more column of the piece scan. */
  lemma PieceScanNext(p: Pos, color: Color, skip: bool, y: int, n: nat)
    ensures ScanRow(PieceScan(p, color, skip), y, n + 1) ==
      ScanRow(PieceScan(p, color, skip), y, n) + PieceAt(p, color, skip, n, y)
  {
  }

  /** getAllMoves. */
  function AllMoves(p: Pos, color: Color, skip: bool): seq<Move> {
    ScanRows(PieceScan(p, color, skip), Cols(p.grid), |p.grid|)
  }

  lemma {:induction false} MovesFromMember(p: Pos, x: int, y: int, piece: char, ds: seq<Square>,
                                           color: Color, skip: bool, m: Move)
    ensures m in MovesFrom(p, x, y, piece, ds, color, skip) <==>
      m.fromX == x && m.fromY == y && m.piece == piece && Square(m.toX, m.toY) in ds &&
      (skip || LeavesKingSafe(p, m, color))
  {
    if |ds| > 0 {
      var ds' := ds[..|ds| - 1];
      MovesFromMember(p, x, y, piece, ds', color, skip, m);
      assert ds == ds' + [ds[|ds| - 1]];
    }
  }

  /** A move is listed by getAllMoves exactly when it moves a piece of the
      given colour (tagged with that piece) to a valid square of the
      board, and, unless the check test is skipped, keeps the mover's king
      out of check. */
  lemma AllMovesMember(p: Pos, color: Color, skip: bool, m: Move)
    ensures m in AllMoves(p, color, skip) <==>
      0 <= m.fromY < |p.grid| && 0 <= m.fromX < Cols(p.grid) &&
      0 <= m.toY < |p.grid| && 0 <= m.toX < Cols(p.grid) &&
      m.piece == At(p.grid, m.fromX, m.fromY) && BelongsTo(m.piece, color) &&
      IsValidMove(p, m.fromX, m.fromY, m.toX, m.toY) &&
      (skip || LeavesKingSafe(p, m, color))
  {
    var f := PieceScan(p, color, skip);
    ScanRowsMember(f, Cols(p.grid), |p.grid|, m);
    MovesFromMember(p, m.fromX, m.fromY, m.piece, ValidMoves(p, m.fromX, m.fromY, true), color, skip, m);
    ValidMovesMember(p, m.fromX, m.fromY, true, Square(m.toX, m.toY));
    if m in AllMoves(p, color, skip) {
      var y', x' :| 0 <= y' < |p.grid| && 0 <= x' < Cols(p.grid) && m in f(x', y');
      MovesFromMember(p, x', y', At(p.grid, x', y'), ValidMoves(p, x', y', true), color, skip, m);
    } else if 0 <= m.fromY < |p.grid| && 0 <= m.fromX < Cols(p.grid) {
      assert m !in f(m.fromX, m.fromY);
    }
  }

  /** On a rectangular board every listed move stays on the board, so
      makeMove may be applied to it. */
  lemma AllMovesOnBoard(p: Pos, color: Color, skip: bool, m: Move)
    requires Rect(p.grid) && m in AllMoves(p, color, skip)
    ensures MoveOnBoard(p.grid, m)
  {
    AllMovesMember(p, color, skip, m);
  }

  // ---------------------------------------------------------------------
  // hasLegalMoves, getGameState

  /** hasLegalMoves: getAllMoves with the check test would list a move. */
  predicate HasLegal(p: Pos, color: Color) {
    |AllMoves(p, color, false)| > 0
  }

  /** There is a legal move exactly when some piece of the colour has a
      valid destination after which its king is not in check. */
  lemma HasLegalMeaning(p: Pos, color: Color)
    ensures HasLegal(p, color) <==>
      exists m :: m in AllMoves(p, color, false)
    ensures forall m :: m in AllMoves(p, color, false) <==>
      0 <= m.fromY < |p.grid| && 0 <= m.fromX < Cols(p.grid) &&
      0 <= m.toY < |p.grid| && 0 <= m.toX < Cols(p.grid) &&
      m.piece == At(p.grid, m.fromX, m.fromY) && BelongsTo(m.piece, color) &&
      IsValidMove(p, m.fromX, m.fromY, m.toX, m.toY) && LeavesKingSafe(p, m, color)
  {
    var all := AllMoves(p, color, false);
    if |all| > 0 {
      assert all[0] in all;
    }
    forall m
      ensures m in all <==>
        0 <= m.fromY < |p.grid| && 0 <= m.fromX < Cols(p.grid) &&
        0 <= m.toY < |p.grid| && 0 <= m.toX < Cols(p.grid) &&
        m.piece == At(p.grid, m.fromX, m.fromY) && BelongsTo(m.piece, color) &&
        IsValidMove(p, m.fromX, m.fromY, m.toX, m.toY) && LeavesKingSafe(p, m, color)
    {
      AllMovesMember(p, color, false, m);
    }
  }

  /** Some destination of the piece on `s` keeps the king of `color` out of
      check: what the inner loop of hasLegalMoves looks for. */
  predicate SafeFrom(p: Pos, s: Square, color: Color) {
    exists d | d in ValidMoves(p, s.x, s.y, true) ::
      LeavesKingSafe(p, Move(s.x, s.y, d.x, d.y, At(p.grid, s.x, s.y)), color)
  }

  /** Trying the pieces in any order that lists all of them decides the
      same question as getAllMoves: a legal move exists exactly when some
      piece of the colour has a safe destination. */
  lemma HasLegalByPieces(p: Pos, color: Color)
    ensures HasLegal(p, color) <==> exists s | s in PieceOrder(p.grid, color) :: SafeFrom(p, s, color)
  {
    var g := p.grid;
    if HasLegal(p, color) {
      var m := AllMoves(p, color, false)[0];
      AllMovesMember(p, color, false, m);
      var s, d := Square(m.fromX, m.fromY), Square(m.toX, m.toY);
      PieceOrderMembers(g, color, s);
      ValidMovesMember(p, s.x, s.y, true, d);
      assert m == Move(s.x, s.y, d.x, d.y, At(g, s.x, s.y));
      assert SafeFrom(p, s, color);
    } else {
      forall s | s in PieceOrder(g, color)
        ensures !SafeFrom(p, s, color)
      {
        PieceOrderMembers(g, color, s);
        forall d | d in ValidMoves(p, s.x, s.y, true)
          ensures !LeavesKingSafe(p, Move(s.x, s.y, d.x, d.y, At(g, s.x, s.y)), color)
        {
          var m := Move(s.x, s.y, d.x, d.y, At(g, s.x, s.y));
          ValidMovesMember(p, s.x, s.y, true, d);
          AllMovesMember(p, color, false, m);
        }
      }
    }
  }

  /** What hasLegalMoves collects for the square (x, y). */
  function OwnAt(g: Grid, color: Color, x: int, y: int): seq<Square> {
    if BelongsTo(At(g, x, y), color) then [Square(x, y)] else []
  }

  function OwnSquares(g: Grid, color: Color): (int, int) -> seq<Square> {
    (x: int, y: int) => OwnAt(g, color, x, y)
  }

  /** One more column of the piece collection. */
  lemma OwnSquaresNext(g: Grid, color: Color, y: int, n: nat)
    ensures ScanRow(OwnSquares(g, color), y, n + 1) ==
      ScanRow(OwnSquares(g, color), y, n) + OwnAt(g, color, n, y)
  {
  }

  /** The comparator of hasLegalMoves puts kings first. */
  function KingsFirstKey(g: Grid): Square -> ExtInt {
    (s: Square) => if ToLower(At(g, s.x, s.y)) == 'k' then Fin(0) else Fin(1)
  }

  /** The order in which hasLegalMoves tries the pieces. */
  function PieceOrder(g: Grid, color: Color): seq<Square> {
    SortBy(ScanRows(OwnSquares(g, color), Cols(g), |g|), KingsFirstKey(g))
  }

  /** The reordered piece list holds exactly the squares of the colour's
      pieces. */
  lemma PieceOrderMembers(g: Grid, color: Color, s: Square)
    ensures s in PieceOrder(g, color) <==>
      0 <= s.y < |g| && 0 <= s.x < Cols(g) && BelongsTo(At(g, s.x, s.y), color)
  {
    var f := OwnSquares(g, color);
    var scan := ScanRows(f, Cols(g), |g|);
    SortByMembers(scan, KingsFirstKey(g));
    ScanRowsMember(f, Cols(g), |g|, s);
    if s in scan {
      var y', x' :| 0 <= y' < |g| && 0 <= x' < Cols(g) && s in f(x', y');
    } else if 0 <= s.y < |g| && 0 <= s.x < Cols(g) {
      assert s !in f(s.x, s.y);
    }
  }

  /** In the reordered piece list every king comes before every other
      piece. */
  lemma PieceOrderKingsFirst(g: Grid, color: Color)
    ensures var o := PieceOrder(g, color);
      forall i, j | 0 <= i < j < |o| && ToLower(At(g, o[j].x, o[j].y)) == 'k' ::
        ToLower(At(g, o[i].x, o[i].y)) == 'k'
  {
    var key := KingsFirstKey(g);
    SortBySorted(ScanRows(OwnSquares(g, color), Cols(g), |g|), key);
    var o := PieceOrder(g, color);
    forall i, j | 0 <= i < j < |o| && ToLower(At(g, o[j].x, o[j].y)) == 'k'
      ensures ToLower(At(g, o[i].x, o[i].y)) == 'k'
    {
      assert LessEq(key(o[i]), key(o[j]));
    }
  }

  datatype Outcome = Ongoing | Checkmate | Draw | Repetition

  function Count(history: seq<string>, sig: string): (n: nat)
    ensures n <= |history|
    ensures n > 0 <==> sig in history
  {
    if |history| == 0 then 0
    else Count(history[..|history| - 1], sig) + (if history[|history| - 1] == sig then 1 else 0)
  }

  /** getGameState for the side `color` about to move. */
  function GameStatus(p: Pos, color: Color, sim: bool, history: seq<string>): Outcome {
    if !sim && Count(history, Signature(p.grid, Opponent(color))) >= 3 then Repetition
    else if !sim && OnlyKingsLeft(p.grid) then Draw
    else if HasLegal(p, color) then Ongoing
    else if InCheck(p, color) then Checkmate
    else Draw
  }

  /** Checkmate is "no legal move and in check"; a simulated position (the
      search) is never judged a repetition or a bare-kings draw. */
  lemma GameStatusMeaning(p: Pos, color: Color, sim: bool, history: seq<string>)
    ensures var r := GameStatus(p, color, sim, history);
      (r == Checkmate ==> !HasLegal(p, color) && InCheck(p, color)) &&
      (r == Ongoing ==> HasLegal(p, color)) &&
      (r == Repetition <==> !sim && Count(history, Signature(p.grid, Opponent(color))) >= 3) &&
      (sim ==> (r == Ongoing <==> HasLegal(p, color)) &&
               (r == Checkmate <==> !HasLegal(p, color) && InCheck(p, color)) &&
               (r == Draw <==> !HasLegal(p, color) && !InCheck(p, color)))
  {
  }
}
