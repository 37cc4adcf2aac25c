/** Piece encoding: a piece is one character, upper case for white and
    lower case for black (P N B R Q K / p n b r q k); an empty square is the
    sentinel `Empty`, which stands for the empty string of the board. */
module Pieces {

  const Empty: char := ' '

  datatype Color = White | Black

  function Opponent(c: Color): (r: Color)
    ensures r != c
  {
    if c == White then Black else White
  }

  /** The side-to-move letter used in signatures and `currentPlayer`. */
  function ColorChar(c: Color): char {
    if c == White then 'w' else 'b'
  }

  predicate IsAsciiLower(c: char) { 'a' <= c <= 'z' }
  predicate IsAsciiUpper(c: char) { 'A' <= c <= 'Z' }

  /** `toUpperCase` on one character (ASCII letters; others unchanged). */
  function ToUpper(c: char): (r: char)
    ensures IsAsciiLower(c) ==> IsAsciiUpper(r) && r as int == c as int - 32
    ensures !IsAsciiLower(c) ==> r == c
  {
    if IsAsciiLower(c) then (c as int - 32) as char else c
  }

  /** `toLowerCase` on one character (ASCII letters; others unchanged). */
  function ToLower(c: char): (r: char)
    ensures IsAsciiUpper(c) ==> IsAsciiLower(r) && r as int == c as int + 32
    ensures !IsAsciiUpper(c) ==> r == c
  {
    if IsAsciiUpper(c) then (c as int + 32) as char else c
  }

  /** Swaps the case of a letter: the colour-opposite piece of the same type. */
  function Flip(c: char): (r: char)
    ensures IsAsciiUpper(c) <==> IsAsciiLower(r)
    ensures IsAsciiLower(c) <==> IsAsciiUpper(r)
  {
    if IsAsciiUpper(c) then ToLower(c) else ToUpper(c)
  }

  /** `piece === piece.toUpperCase()`: how the source recognises white. */
  predicate IsUpper(c: char) { c == ToUpper(c) }

  /** `piece === piece.toLowerCase()`. */
  predicate IsLower(c: char) { c == ToLower(c) }

  /** The colour the source assigns to a non-empty piece (getValidMoves, getAllMoves). */
  function ColorOf(c: char): Color {
    if IsUpper(c) then White else Black
  }

  /** isSameSide: two non-empty pieces of the same case. */
  predicate IsSameSide(a: char, b: char) {
    a != Empty && b != Empty && IsUpper(a) == IsUpper(b)
  }

  /** isCurrentPlayerPiece, with `state.currentPlayer` passed in. */
  predicate IsCurrentPlayerPiece(player: Color, piece: char) {
    (player == White && IsUpper(piece)) || (player == Black && IsLower(piece))
  }

  /** `state.pieceValues`: both cases of every piece type. */
  const PieceValues: map<char, int> :=
    map['p' := 1, 'n' := 3, 'b' := 3, 'r' := 5, 'q' := 9, 'k' := 100,
        'P' := 1, 'N' := 3, 'B' := 3, 'R' := 5, 'Q' := 9, 'K' := 100]

  /** `state.pieceValues[c] || 0`. */
  function ValueOf(c: char): (v: int)
    ensures v >= 0
    ensures v == 0 <==> c !in PieceValues
  {
    if c in PieceValues then PieceValues[c] else 0
  }

  lemma FlipInvolutive(c: char)
    ensures Flip(Flip(c)) == c
    ensures ToLower(Flip(c)) == ToLower(c) && ToUpper(Flip(c)) == ToUpper(c)
  {
  }

  lemma {:induction false} SameSideSymmetric(a: char, b: char)
    ensures IsSameSide(a, b) <==> IsSameSide(b, a)
    ensures IsSameSide(a, b) ==> IsSameSide(a, a)
  {
  }

  /** For a letter exactly one of the two players owns it; any other
      character is "owned" by both, as `toUpperCase` and `toLowerCase` both
      leave it unchanged. */
  lemma CurrentPlayerPieceSplit(piece: char)
    ensures IsAsciiUpper(piece) || IsAsciiLower(piece) ==>
      (IsCurrentPlayerPiece(White, piece) <==> !IsCurrentPlayerPiece(Black, piece))
    ensures !IsAsciiUpper(piece) && !IsAsciiLower(piece) ==>
      IsCurrentPlayerPiece(White, piece) && IsCurrentPlayerPiece(Black, piece)
  {
  }

  /** Both cases of a piece type are worth the same. */
  lemma ValueIgnoresCase(c: char)
    ensures ValueOf(ToUpper(c)) == ValueOf(ToLower(c))
    ensures ValueOf(Flip(c)) == ValueOf(c)
  {
  }
}
