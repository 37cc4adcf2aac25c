/** The pseudo-legal movement rules of moveValidation.js and the board
    changes of makeMove / unmakeMove, as functions of a position. */
module Rules {
  import opened Values
  import opened Pieces
  import opened Grids

  /** A square (x = column, y = row); it is also the "x,y" key of
      `movedPawnPositions`, since the key determines the square. */
  datatype Square = Square(x: int, y: int)

  /** What the move rules read: the board, `state.enPassantTarget` and
      `state.movedPawnPositions`. */
  datatype Pos = Pos(grid: Grid, ep: Option<Square>, moved: seq<Square>)

  /** `{ fromX, fromY, toX, toY, piece }`. */
  datatype Move = Move(fromX: int, fromY: int, toX: int, toY: int, piece: char)

  function Abs(d: int): nat {
    if d < 0 then -d else d
  }

  /** `Math.sign` on integers. */
  function Sign(d: int): int {
    if d > 0 then 1 else if d < 0 then -1 else 0
  }

  /** The lines isPathClear can walk: orthogonal or diagonal. */
  predicate OnLine(fx: int, fy: int, tx: int, ty: int) {
    tx == fx || ty == fy || Abs(tx - fx) == Abs(ty - fy)
  }

  /** The number of steps from one square to the other along a line. */
  function Dist(fx: int, fy: int, tx: int, ty: int): nat {
    if Abs(tx - fx) < Abs(ty - fy) then Abs(ty - fy) else Abs(tx - fx)
  }

  /** The coordinate `k` steps of size `s` away from `f`. */
  function Along(f: int, s: int, k: int): int {
    f + k * s
  }

  /** The `n` squares from (x, y) on, stepping by (sx, sy), are empty (a
      square off the board reads as empty, as `board[y]?.[x]` does). */
  function ClearFrom(g: Grid, x: int, y: int, sx: int, sy: int, n: nat): bool
    decreases n
  {
    n == 0 || (At(g, x, y) == Empty && ClearFrom(g, x + sx, y + sy, sx, sy, n - 1))
  }

  /** isPathClear: the walk from the square after `from` up to, but not
      including, `to`. The walk ends only on a line, hence the precondition. */
  function PathClear(g: Grid, fx: int, fy: int, tx: int, ty: int): bool
    requires OnLine(fx, fy, tx, ty)
  {
    var d := Dist(fx, fy, tx, ty);
    ClearFrom(g, fx + Sign(tx - fx), fy + Sign(ty - fy), Sign(tx - fx), Sign(ty - fy),
              if d == 0 then 0 else d - 1)
  }

  lemma {:induction false} ClearFromMeaning(g: Grid, fx: int, fy: int, sx: int, sy: int, j: int, n: nat)
    decreases n
    ensures ClearFrom(g, Along(fx, sx, j), Along(fy, sy, j), sx, sy, n) <==>
      forall k | j <= k < j + n :: At(g, Along(fx, sx, k), Along(fy, sy, k)) == Empty
  {
    if n > 0 {
      assert Along(fx, sx, j) + sx == Along(fx, sx, j + 1) by {
        assert (j + 1) * sx == j * sx + sx;
      }
      assert Along(fy, sy, j) + sy == Along(fy, sy, j + 1) by {
        assert (j + 1) * sy == j * sy + sy;
      }
      ClearFromMeaning(g, fx, fy, sx, sy, j + 1, n - 1);
    }
  }

  /** The cell `k` steps from (fx, fy) towards (tx, ty). */
  function OnLineAt(g: Grid, fx: int, fy: int, tx: int, ty: int, k: int): char {
    At(g, Along(fx, Sign(tx - fx), k), Along(fy, Sign(ty - fy), k))
  }

  /** isPathClear holds exactly when every square strictly between the two
      ends of the line is empty. */
  lemma PathClearMeaning(g: Grid, fx: int, fy: int, tx: int, ty: int)
    requires OnLine(fx, fy, tx, ty)
    ensures PathClear(g, fx, fy, tx, ty) <==>
      forall k | 0 < k < Dist(fx, fy, tx, ty) ::
        OnLineAt(g, fx, fy, tx, ty, k) == Empty
  {
    var sx, sy := Sign(tx - fx), Sign(ty - fy);
    assert Along(fx, sx, 1) == fx + sx && Along(fy, sy, 1) == fy + sy;
    var d := Dist(fx, fy, tx, ty);
    ClearFromMeaning(g, fx, fy, sx, sy, 1, if d == 0 then 0 else d - 1);
    forall k ensures OnLineAt(g, fx, fy, tx, ty, k) == At(g, Along(fx, sx, k), Along(fy, sy, k)) {
    }
  }

  /** The walk of isPathClear ends on the target: `Dist` steps of
      (sign dx, sign dy) lead from one end of a line to the other. */
  lemma LineEnds(fx: int, fy: int, tx: int, ty: int)
    requires OnLine(fx, fy, tx, ty)
    ensures Along(fx, Sign(tx - fx), Dist(fx, fy, tx, ty)) == tx
    ensures Along(fy, Sign(ty - fy), Dist(fx, fy, tx, ty)) == ty
  {
    var d := Dist(fx, fy, tx, ty);
    if tx == fx {
      assert Along(fx, 0, d) == fx;
    }
    if ty == fy {
      assert Along(fy, 0, d) == fy;
    }
  }

  // ---------------------------------------------------------------------
  // isValidMove

  /** The pawn branch of isValidMove, once the source is a pawn and the
      target holds no piece of the pawn's own colour. */
  function PawnMove(p: Pos, fx: int, fy: int, tx: int, ty: int): bool {
    var dx, dy := tx - fx, ty - fy;
    var dir := if At(p.grid, fx, fy) == 'P' then -1 else 1;
    var target := At(p.grid, tx, ty);
    var hasMoved := Square(fx, fy) in p.moved;
    (dx == 0 && target == Empty && dy == dir) ||
    (dx == 0 && target == Empty && dy == 2 * dir && !hasMoved && PathClear(p.grid, fx, fy, tx, ty)) ||
    (Abs(dx) == 1 && dy == dir && target != Empty) ||
    (Abs(dx) == 1 && dy == dir && target == Empty && p.ep == Some(Square(tx, ty)))
  }

  /** isValidMove: whether the piece on (fx, fy) may move to (tx, ty) by its
      own movement rule, ignoring whether its king is left in check. */
  function IsValidMove(p: Pos, fx: int, fy: int, tx: int, ty: int): bool {
    var dx, dy := tx - fx, ty - fy;
    var src := At(p.grid, fx, fy);
    var target := At(p.grid, tx, ty);
    var piece := ToLower(src);
    if src == Empty then false
    else if target != Empty && IsSameSide(src, target) then false
    else if piece == 'p' then PawnMove(p, fx, fy, tx, ty)
    else if piece == 'r' then (dx == 0 || dy == 0) && PathClear(p.grid, fx, fy, tx, ty)
    else if piece == 'n' then (Abs(dx) == 2 && Abs(dy) == 1) || (Abs(dx) == 1 && Abs(dy) == 2)
    else if piece == 'b' then Abs(dx) == Abs(dy) && PathClear(p.grid, fx, fy, tx, ty)
    else if piece == 'q' then
      (dx == 0 || dy == 0 || Abs(dx) == Abs(dy)) && PathClear(p.grid, fx, fy, tx, ty)
    else if piece == 'k' then Abs(dx) <= 1 && Abs(dy) <= 1
    else false
  }

  /** Nothing moves from an empty square, nothing captures its own side,
      and so no piece may stay where it is. */
  lemma ValidMoveBasics(p: Pos, fx: int, fy: int, tx: int, ty: int)
    ensures At(p.grid, fx, fy) == Empty ==> !IsValidMove(p, fx, fy, tx, ty)
    ensures IsSameSide(At(p.grid, fx, fy), At(p.grid, tx, ty)) ==> !IsValidMove(p, fx, fy, tx, ty)
    ensures !IsValidMove(p, fx, fy, fx, fy)
  {
    SameSideSymmetric(At(p.grid, fx, fy), At(p.grid, fx, fy));
  }

  /** The source square holds a piece that the target does not hold a friend of. */
  predicate Movable(p: Pos, fx: int, fy: int, tx: int, ty: int) {
    At(p.grid, fx, fy) != Empty && !IsSameSide(At(p.grid, fx, fy), At(p.grid, tx, ty))
  }

  /** Knights jump (±1, ±2) or (±2, ±1); kings step to any adjacent square. */
  lemma LeaperMoves(p: Pos, fx: int, fy: int, tx: int, ty: int)
    requires Movable(p, fx, fy, tx, ty)
    ensures ToLower(At(p.grid, fx, fy)) == 'n' ==>
      (IsValidMove(p, fx, fy, tx, ty) <==>
        (Abs(tx - fx), Abs(ty - fy)) in {(1, 2), (2, 1)})
    ensures ToLower(At(p.grid, fx, fy)) == 'k' ==>
      (IsValidMove(p, fx, fy, tx, ty) <==> Abs(tx - fx) <= 1 && Abs(ty - fy) <= 1)
  {
  }

  /** Rooks, bishops and queens move along their lines through empty squares. */
  lemma SliderMoves(p: Pos, fx: int, fy: int, tx: int, ty: int)
    requires Movable(p, fx, fy, tx, ty)
    ensures ToLower(At(p.grid, fx, fy)) == 'r' ==>
      (IsValidMove(p, fx, fy, tx, ty) <==>
        (tx == fx || ty == fy) &&
        forall k | 0 < k < Dist(fx, fy, tx, ty) ::
          OnLineAt(p.grid, fx, fy, tx, ty, k) == Empty)
    ensures ToLower(At(p.grid, fx, fy)) == 'b' ==>
      (IsValidMove(p, fx, fy, tx, ty) <==>
        Abs(tx - fx) == Abs(ty - fy) &&
        forall k | 0 < k < Dist(fx, fy, tx, ty) ::
          OnLineAt(p.grid, fx, fy, tx, ty, k) == Empty)
    ensures ToLower(At(p.grid, fx, fy)) == 'q' ==>
      (IsValidMove(p, fx, fy, tx, ty) <==>
        OnLine(fx, fy, tx, ty) &&
        forall k | 0 < k < Dist(fx, fy, tx, ty) ::
          OnLineAt(p.grid, fx, fy, tx, ty, k) == Empty)
  {
    if OnLine(fx, fy, tx, ty) {
      PathClearMeaning(p.grid, fx, fy, tx, ty);
    }
  }

  /** The pawn rules: white moves up the board (towards row 0) and black
      down; one step onto an empty square; two steps from a square not
      recorded in `movedPawnPositions` through an empty square onto an
      empty one; one diagonal step onto a piece or onto the en-passant
      target. */
  lemma PawnMoves(p: Pos, fx: int, fy: int, tx: int, ty: int)
    requires Movable(p, fx, fy, tx, ty) && ToLower(At(p.grid, fx, fy)) == 'p'
    ensures var dir := if At(p.grid, fx, fy) == 'P' then -1 else 1;
      var target := At(p.grid, tx, ty);
      IsValidMove(p, fx, fy, tx, ty) <==>
        (tx == fx && target == Empty && ty == fy + dir) ||
        (tx == fx && target == Empty && ty == fy + 2 * dir && Square(fx, fy) !in p.moved &&
          At(p.grid, fx, fy + dir) == Empty) ||
        (Abs(tx - fx) == 1 && ty == fy + dir && (target != Empty || p.ep == Some(Square(tx, ty))))
    ensures At(p.grid, fx, fy) == 'P' || At(p.grid, fx, fy) == 'p'
  {
    var dir := if At(p.grid, fx, fy) == 'P' then -1 else 1;
    if tx == fx && ty == fy + 2 * dir {
      PathClearMeaning(p.grid, fx, fy, tx, ty);
      assert Dist(fx, fy, tx, ty) == 2;
      assert Along(fx, Sign(tx - fx), 1) == fx;
      assert Along(fy, Sign(ty - fy), 1) == fy + dir;
    }
  }

  // ---------------------------------------------------------------------
  // makeMove / unmakeMove

  /** The record makeMove returns. */
  datatype Undo = Undo(fromX: int, fromY: int, toX: int, toY: int,
                       movedPiece: char, capturedPiece: char, promotedTo: Option<char>,
                       previousEnPassant: Option<Square>, fullMovedPawnPositions: seq<Square>)

  datatype Applied = Applied(pos: Pos, undo: Undo)

  /** Both squares of the move lie on the board (makeMove indexes them directly). */
  predicate MoveOnBoard(g: Grid, m: Move) {
    InBounds(g, m.fromX, m.fromY) && InBounds(g, m.toX, m.toY)
  }

  /** `promotedTo`: a white pawn reaching row 0 becomes 'Q', a black pawn
      reaching the last row becomes 'q'. */
  function PromotedTo(g: Grid, m: Move): (r: Option<char>)
    ensures r == Some('Q') <==> At(g, m.fromX, m.fromY) == 'P' && m.toY == 0
    ensures r == Some('q') <==> At(g, m.fromX, m.fromY) == 'p' && m.toY == |g| - 1
    ensures r.Some? ==> r == Some('Q') || r == Some('q')
  {
    var fromPiece := At(g, m.fromX, m.fromY);
    if (fromPiece == 'P' && m.toY == 0) || (fromPiece == 'p' && m.toY == |g| - 1) then
      Some(if fromPiece == 'P' then 'Q' else 'q')
    else None
  }

  /** The en-passant target makeMove leaves: the square a pawn passed over
      in a two-row move (in the destination column), and none otherwise. */
  function EnPassantAfter(g: Grid, m: Move): Option<Square> {
    if ToLower(At(g, m.fromX, m.fromY)) == 'p' && Abs(m.toY - m.fromY) == 2
    then Some(Square(m.toX, (m.fromY + m.toY) / 2))
    else None
  }

  /** makeMove: the destination receives the piece (or its promoted queen),
      the source is emptied, the en-passant target is recomputed and the
      undo record remembers everything that was overwritten. It is total
      (`Set` ignores a square off the board); the in-place version requires
      both squares on the board. */
  function MakeMove(p: Pos, m: Move): Applied {
    var fromPiece := At(p.grid, m.fromX, m.fromY);
    var toPiece := At(p.grid, m.toX, m.toY);
    var promotedTo := PromotedTo(p.grid, m);
    var placed := promotedTo.GetOr(fromPiece);
    var grid := Set(Set(p.grid, m.toX, m.toY, placed), m.fromX, m.fromY, Empty);
    Applied(Pos(grid, EnPassantAfter(p.grid, m), p.moved),
            Undo(m.fromX, m.fromY, m.toX, m.toY, fromPiece, toPiece, promotedTo, p.ep, p.moved))
  }

  /** unmakeMove: writes the moved and the captured piece back and restores
      the two state fields from the record. */
  function UnmakeMove(p: Pos, m: Move, u: Undo): Pos {
    var g1 := Set(Set(p.grid, m.fromX, m.fromY, u.movedPiece), m.toX, m.toY, u.capturedPiece);
    var g2 := if u.promotedTo.Some? then Set(g1, m.fromX, m.fromY, u.movedPiece) else g1;
    Pos(g2, u.previousEnPassant, u.fullMovedPawnPositions)
  }

  /** makeMove writes exactly two cells: the source becomes empty and the
      destination gets the mover or its queen; everything else, including
      the square of a pawn taken en passant, and `movedPawnPositions` are
      left alone. */
  lemma MakeMoveCells(p: Pos, m: Move)
    requires MoveOnBoard(p.grid, m)
    ensures var q := MakeMove(p, m).pos;
      |q.grid| == |p.grid| &&
      (forall y | 0 <= y < |p.grid| :: |q.grid[y]| == |p.grid[y]|) &&
      At(q.grid, m.fromX, m.fromY) == Empty &&
      ((m.toX, m.toY) != (m.fromX, m.fromY) ==>
        At(q.grid, m.toX, m.toY) ==
          if PromotedTo(p.grid, m).Some? then PromotedTo(p.grid, m).value else At(p.grid, m.fromX, m.fromY)) &&
      (forall x, y | (x, y) != (m.fromX, m.fromY) && (x, y) != (m.toX, m.toY) ::
        At(q.grid, x, y) == At(p.grid, x, y)) &&
      q.moved == p.moved
  {
  }

  /** After makeMove the en-passant target is set exactly when a pawn moved
      two rows, and it is then the square the pawn passed over. */
  lemma MakeMoveEnPassant(p: Pos, m: Move)
    requires MoveOnBoard(p.grid, m)
    ensures var ep := MakeMove(p, m).pos.ep;
      (ep.Some? <==> ToLower(At(p.grid, m.fromX, m.fromY)) == 'p' && Abs(m.toY - m.fromY) == 2) &&
      (ep.Some? ==> ep.value == Square(m.toX, m.fromY + Sign(m.toY - m.fromY)))
  {
  }

  /** unmakeMove with the record of makeMove restores every cell, the
      en-passant target and the moved-pawn list. */
  lemma UnmakeRestores(p: Pos, m: Move)
    requires MoveOnBoard(p.grid, m)
    ensures UnmakeMove(MakeMove(p, m).pos, m, MakeMove(p, m).undo) == p
  {
    var a := MakeMove(p, m);
    var r := UnmakeMove(a.pos, m, a.undo);
    GridExt(r.grid, p.grid);
  }
}
