/** formatMove: the algebraic-style text the engine prints for a move,
    e.g. "Nxf3 (g1 → f3)" or "e8=Q (e7 → e8)". */
module Notation {
  import opened Values
  import opened Pieces

  /** A move as formatMove receives it: any field may be missing (null or
      undefined), and the whole move may be missing too. */
  datatype MoveRecord = MoveRecord(fromX: Option<int>, fromY: Option<int>, toX: Option<int>,
                                   toY: Option<int>, piece: Option<char>, isCapture: Option<bool>)

  /** What formatMove returns: the "Invalid move: …" message (whose JSON
      dump of the argument is not modelled) or the move's text. */
  datatype Formatted = Invalid | Text(s: string)

  // ------------------------------------------------------------ numbers

  function DigitChar(d: nat): char
    requires d < 10
  {
    ('0' as int + d) as char
  }

  /** The decimal digits of a natural number, without leading zeros. */
  function NatToString(n: nat): (s: string)
    ensures |s| >= 1
    ensures forall i | 0 <= i < |s| :: '0' <= s[i] <= '9'
    decreases n
  {
    if n < 10 then [DigitChar(n)] else NatToString(n / 10) + [DigitChar(n % 10)]
  }

  /** A number in a template literal: its decimal digits, after a '-' when
      negative. */
  function IntToString(n: int): string {
    if n < 0 then "-" + NatToString(-n) else NatToString(n)
  }

  /** Reads a run of decimal digits back. */
  function ParseNat(s: string): nat
    requires forall i | 0 <= i < |s| :: '0' <= s[i] <= '9'
  {
    if |s| == 0 then 0
    else 10 * ParseNat(s[..|s| - 1]) + (s[|s| - 1] as int - '0' as int)
  }

  function ParseInt(s: string): int
    requires |s| > 0
    requires forall i | 1 <= i < |s| :: '0' <= s[i] <= '9'
    requires s[0] == '-' || '0' <= s[0] <= '9'
  {
    if s[0] == '-' then -(ParseNat(s[1..]) as int) else ParseNat(s)
  }

  lemma {:induction false} NatRoundTrip(n: nat)
    ensures ParseNat(NatToString(n)) == n
    decreases n
  {
    if n >= 10 {
      NatRoundTrip(n / 10);
      var s := NatToString(n);
      assert s[..|s| - 1] == NatToString(n / 10);
    }
  }

  /** Reading the text of a number gives the number back, so two numbers
      print alike only when they are equal. */
  lemma IntRoundTrip(n: int)
    ensures var s := IntToString(n);
      |s| > 0 && (s[0] == '-' || '0' <= s[0] <= '9') &&
      (forall i | 1 <= i < |s| :: '0' <= s[i] <= '9') &&
      ParseInt(s) == n
  {
    if n < 0 {
      NatRoundTrip(-n);
      assert IntToString(n)[1..] == NatToString(-n);
    } else {
      NatRoundTrip(n);
    }
  }

  lemma IntToStringInjective(a: int, b: int)
    requires IntToString(a) == IntToString(b)
    ensures a == b
  {
    IntRoundTrip(a);
    IntRoundTrip(b);
  }

  // ------------------------------------------------------------ files

  /** `String.fromCharCode(97 + x)` names a character (not half of a
      surrogate pair). */
  predicate FileOk(x: int) {
    var c := (97 + x) % 0x1_0000;
    c < 0xD800 || c >= 0xE000
  }

  /** `String.fromCharCode(97 + x)`: the code is taken modulo 2^16. */
  function FileLetter(x: int): char
    requires FileOk(x)
  {
    ((97 + x) % 0x1_0000) as char
  }

  /** A file letter and a rank number, as in "e4". */
  function SquareText(x: int, rank: int): string
    requires FileOk(x)
  {
    [FileLetter(x)] + IntToString(rank)
  }

  lemma SquareTextInjective(x1: int, r1: int, x2: int, r2: int)
    requires FileOk(x1) && FileOk(x2) && SquareText(x1, r1) == SquareText(x2, r2)
    ensures FileLetter(x1) == FileLetter(x2) && r1 == r2
  {
    var s1, s2 := SquareText(x1, r1), SquareText(x2, r2);
    assert s1[0] == s2[0];
    assert s1[1..] == IntToString(r1) && s2[1..] == IntToString(r2);
    IntToStringInjective(r1, r2);
  }

  /** Every present coordinate gives a character. */
  predicate Printable(move: Option<MoveRecord>) {
    move.Some? ==>
      (move.value.fromX.Some? ==> FileOk(move.value.fromX.value)) &&
      (move.value.toX.Some? ==> FileOk(move.value.toX.value))
  }

  predicate Complete(m: MoveRecord) {
    m.fromX.Some? && m.fromY.Some? && m.toX.Some? && m.toY.Some?
  }

  // ------------------------------------------------------------ formatMove

  /** The move part before the parenthesis: "fxe5" for a pawn capture,
      "e5" for another pawn move, and the upper-case piece letter, an 'x'
      on a capture and the target square otherwise. */
  function MoveText(piece: char, isCapture: bool, fromX: int, toX: int, rankTo: int): string
    requires FileOk(fromX) && FileOk(toX)
  {
    if ToLower(piece) == 'p' && isCapture then [FileLetter(fromX), 'x'] + SquareText(toX, rankTo)
    else if ToLower(piece) == 'p' then SquareText(toX, rankTo)
    else [ToUpper(piece)] + (if isCapture then "x" else "") + SquareText(toX, rankTo)
  }

  /** A pawn of either colour reaching the far row for its side. */
  predicate Promotes(piece: char, toY: int, rows: int) {
    (piece == 'P' && toY == 0) || (piece == 'p' && toY == rows - 1)
  }

  /** The move part of formatMove's text: the piece-and-target text,
      followed by "=Q" on a promotion. */
  function Notation(m: MoveRecord, rows: int): string
    requires Complete(m) && Printable(Some(m))
  {
    var piece := m.piece.GetOr('?');
    MoveText(piece, m.isCapture.GetOr(false), m.fromX.value, m.toX.value, rows - m.toY.value)
      + (if Promotes(piece, m.toY.value, rows) then "=Q" else "")
  }

  /** The " (e2 → e4)" part of formatMove's text; ranks count from the
      bottom row as 1. */
  function Route(m: MoveRecord, rows: int): string
    requires Complete(m) && Printable(Some(m))
  {
    " (" + SquareText(m.fromX.value, rows - m.fromY.value) + " \U{2192} " +
    SquareText(m.toX.value, rows - m.toY.value) + ")"
  }

  /** formatMove with `rows` rows on the board. */
  function FormatMove(move: Option<MoveRecord>, rows: int): (r: Formatted)
    requires Printable(move)
    ensures r.Invalid? <==> move.None? || !Complete(move.value)
  {
    if move.None? || !Complete(move.value) then Invalid
    else Text(Notation(move.value, rows) + Route(move.value, rows))
  }

  /** The move part names the target square last, unless a pawn promotes,
      in which case it ends with "=Q"; a pawn capture starts with the file
      the pawn left followed by 'x', any other piece with its upper-case
      letter, followed by an 'x' on a capture and by the target file otherwise. */
  lemma NotationMeaning(m: MoveRecord, rows: int)
    requires Complete(m) && Printable(Some(m))
    ensures var s := Notation(m, rows);
      var piece := m.piece.GetOr('?');
      var isCapture := m.isCapture.GetOr(false);
      var target := SquareText(m.toX.value, rows - m.toY.value);
      |s| >= |target| &&
      (Promotes(piece, m.toY.value, rows) ==> s[|s| - 2..] == "=Q" && s[..|s| - 2] == MoveText(
         piece, isCapture, m.fromX.value, m.toX.value, rows - m.toY.value)) &&
      (!Promotes(piece, m.toY.value, rows) ==> s[|s| - |target|..] == target) &&
      (ToLower(piece) == 'p' && isCapture ==> s[..2] == [FileLetter(m.fromX.value), 'x']) &&
      (ToLower(piece) != 'p' ==>
         s[0] == ToUpper(piece) && s[1] == (if isCapture then 'x' else FileLetter(m.toX.value)))
  {
    var piece := m.piece.GetOr('?');
    var isCapture := m.isCapture.GetOr(false);
    var target := SquareText(m.toX.value, rows - m.toY.value);
    var text := MoveText(piece, isCapture, m.fromX.value, m.toX.value, rows - m.toY.value);
    var s := Notation(m, rows);
    assert |text| >= |target| && text[|text| - |target|..] == target;
    if Promotes(piece, m.toY.value, rows) {
      assert s == text + "=Q";
    } else {
      assert s == text;
    }
    if ToLower(piece) != 'p' {
      assert target[0] == FileLetter(m.toX.value);
    }
  }

  /** The printed text names the two squares unambiguously: two printed
      moves with the same "(from → to)" part on the same board share their
      file letters and rows. */
  lemma SquaresRecovered(x1: int, y1: int, x2: int, y2: int, rows: int)
    requires FileOk(x1) && FileOk(x2)
    requires SquareText(x1, rows - y1) == SquareText(x2, rows - y2)
    ensures FileLetter(x1) == FileLetter(x2) && y1 == y2
  {
    SquareTextInjective(x1, rows - y1, x2, rows - y2);
  }
}
