/** The board as a value (a sequence of rows of cells), its reading from the
    in-place `array2` board, row-major scans, and the whole-board functions
    of the game-state module: the position signature, the material sums and
    counts, and the Zobrist fingerprint. */
module Grids {
  import opened Values
  import opened Pieces

  type Grid = seq<seq<char>>

  /** `board[0].length`, the width every scanning loop uses. */
  function Cols(g: Grid): nat {
    if |g| == 0 then 0 else |g[0]|
  }

  predicate Rect(g: Grid) {
    forall y | 0 <= y < |g| :: |g[y]| == Cols(g)
  }

  predicate InBounds(g: Grid, x: int, y: int) {
    0 <= y < |g| && 0 <= x < |g[y]|
  }

  /** `board[y]?.[x]`: a square off the board reads as empty. */
  function At(g: Grid, x: int, y: int): (c: char)
    ensures !InBounds(g, x, y) ==> c == Empty
  {
    if InBounds(g, x, y) then g[y][x] else Empty
  }

  /** `board[y][x] = v` on a square of the board. */
  function Set(g: Grid, x: int, y: int, v: char): (r: Grid)
    ensures |r| == |g| && (forall i | 0 <= i < |g| :: |r[i]| == |g[i]|)
    ensures InBounds(g, x, y) ==> At(r, x, y) == v
    ensures forall i, j | (i, j) != (x, y) :: At(r, i, j) == At(g, i, j)
    ensures Cols(r) == Cols(g) && (Rect(g) ==> Rect(r))
  {
    if InBounds(g, x, y) then g[y := g[y][x := v]] else g
  }

  /** The cells of the in-place board, read as a value. */
  function Cells(a: array2<char>): (g: Grid)
    reads a
    ensures |g| == a.Length0
    ensures forall y | 0 <= y < a.Length0 :: |g[y]| == a.Length1
    ensures forall y, x | 0 <= y < a.Length0 && 0 <= x < a.Length1 :: g[y][x] == a[y, x]
    ensures Rect(g) && (a.Length0 > 0 ==> Cols(g) == a.Length1)
  {
    seq(a.Length0, y requires 0 <= y < a.Length0 reads a =>
      seq(a.Length1, x requires 0 <= x < a.Length1 reads a => a[y, x]))
  }

  /** Two boards with the same shape and the same cells are equal. */
  lemma GridExt(g1: Grid, g2: Grid)
    requires |g1| == |g2|
    requires forall y | 0 <= y < |g1| :: |g1[y]| == |g2[y]|
    requires forall y, x | InBounds(g1, x, y) :: At(g1, x, y) == At(g2, x, y)
    ensures g1 == g2
  {
    forall y | 0 <= y < |g1|
      ensures g1[y] == g2[y]
    {
      forall x | 0 <= x < |g1[y]|
        ensures g1[y][x] == g2[y][x]
      {
        assert At(g1, x, y) == At(g2, x, y);
      }
    }
  }

  // ---------------------------------------------------------------------
  // Row-major scans: the nested `for y { for x { ... } }` loops of the source

  /** What `f` yields for the first `n` squares of row `y`, in order. */
  function ScanRow<T>(f: (int, int) -> seq<T>, y: int, n: nat): seq<T> {
    if n == 0 then [] else ScanRow(f, y, n - 1) + f(n - 1, y)
  }

  /** What `f` yields for the first `m` rows of width `cols`, in row-major order. */
  function ScanRows<T>(f: (int, int) -> seq<T>, cols: nat, m: nat): seq<T> {
    if m == 0 then [] else ScanRows(f, cols, m - 1) + ScanRow(f, m - 1, cols)
  }

  lemma {:induction false} ScanRowMember<T>(f: (int, int) -> seq<T>, y: int, n: nat, e: T)
    ensures e in ScanRow(f, y, n) <==> exists x :: 0 <= x < n && e in f(x, y)
  {
    if n > 0 {
      var prev := ScanRow(f, y, n - 1);
      ScanRowMember(f, y, n - 1, e);
      assert ScanRow(f, y, n) == prev + f(n - 1, y);
      if e in ScanRow(f, y, n) {
        if e in prev {
          var x :| 0 <= x < n - 1 && e in f(x, y);
          assert 0 <= x < n && e in f(x, y);
        } else {
          assert 0 <= n - 1 < n && e in f(n - 1, y);
        }
      }
      if exists x :: 0 <= x < n && e in f(x, y) {
        var x :| 0 <= x < n && e in f(x, y);
        if x < n - 1 {
          assert e in prev;
        } else {
          assert e in f(n - 1, y);
        }
      }
    }
  }

  /** An element comes out of a scan exactly when some square yields it. */
  lemma {:induction false} ScanRowsMember<T>(f: (int, int) -> seq<T>, cols: nat, m: nat, e: T)
    ensures e in ScanRows(f, cols, m) <==>
      exists y, x :: 0 <= y < m && 0 <= x < cols && e in f(x, y)
  {
    if m > 0 {
      var prev := ScanRows(f, cols, m - 1);
      var row := ScanRow(f, m - 1, cols);
      ScanRowsMember(f, cols, m - 1, e);
      ScanRowMember(f, m - 1, cols, e);
      assert ScanRows(f, cols, m) == prev + row;
      if e in prev {
        var y, x :| 0 <= y < m - 1 && 0 <= x < cols && e in f(x, y);
        assert 0 <= y < m && 0 <= x < cols && e in f(x, y);
      } else if e in row {
        var x :| 0 <= x < cols && e in f(x, m - 1);
        assert 0 <= m - 1 < m && 0 <= x < cols && e in f(x, m - 1);
      } else {
        forall y, x | 0 <= y < m && 0 <= x < cols
          ensures e !in f(x, y)
        {
          if y < m - 1 {
            assert !(0 <= y < m - 1 && 0 <= x < cols && e in f(x, y));
          } else {
            assert !(0 <= x < cols && e in f(x, m - 1));
          }
        }
      }
    }
  }


  // ---------------------------------------------------------------------
  // Sums over all cells, row by row (`for (const row of board) for (const p of row)`)

  function RowSum(row: seq<char>, w: char -> int, n: nat): int
    requires n <= |row|
  {
    if n == 0 then 0 else RowSum(row, w, n - 1) + w(row[n - 1])
  }

  function GridSum(g: Grid, w: char -> int, m: nat): int
    requires m <= |g|
  {
    if m == 0 then 0 else GridSum(g, w, m - 1) + RowSum(g[m - 1], w, |g[m - 1]|)
  }

  function Total(g: Grid, w: char -> int): int {
    GridSum(g, w, |g|)
  }

  /** The sum of a weight that is zero on every cell of the board is zero. */
  lemma {:induction false} GridSumZero(g: Grid, w: char -> int, m: nat)
    requires m <= |g|
    requires forall y, x | InBounds(g, x, y) :: w(g[y][x]) == 0
    ensures GridSum(g, w, m) == 0
  {
    if m > 0 {
      GridSumZero(g, w, m - 1);
      RowSumZero(g, w, m - 1, |g[m - 1]|);
    }
  }

  lemma {:induction false} RowSumZero(g: Grid, w: char -> int, y: nat, n: nat)
    requires y < |g| && n <= |g[y]|
    requires forall x | 0 <= x < |g[y]| :: w(g[y][x]) == 0
    ensures RowSum(g[y], w, n) == 0
  {
    if n > 0 {
      RowSumZero(g, w, y, n - 1);
    }
  }

  /** Summing two weights cell by cell is summing their totals. */
  lemma {:induction false} GridSumLinear(g: Grid, w1: char -> int, w2: char -> int, w3: char -> int, m: nat)
    requires m <= |g|
    requires forall c :: w3(c) == w1(c) + w2(c)
    ensures GridSum(g, w3, m) == GridSum(g, w1, m) + GridSum(g, w2, m)
  {
    if m > 0 {
      GridSumLinear(g, w1, w2, w3, m - 1);
      RowSumLinear(g[m - 1], w1, w2, w3, |g[m - 1]|);
    }
  }

  lemma {:induction false} RowSumLinear(row: seq<char>, w1: char -> int, w2: char -> int, w3: char -> int, n: nat)
    requires n <= |row|
    requires forall c :: w3(c) == w1(c) + w2(c)
    ensures RowSum(row, w3, n) == RowSum(row, w1, n) + RowSum(row, w2, n)
  {
    if n > 0 {
      RowSumLinear(row, w1, w2, w3, n - 1);
    }
  }

  /** A non-negative weight: the total bounds the weight of any one cell. */
  lemma {:induction false} RowSumCell(row: seq<char>, w: char -> int, n: nat, x: nat)
    requires n <= |row| && x < n
    requires forall c :: w(c) >= 0
    ensures RowSum(row, w, n) >= w(row[x])
    ensures RowSum(row, w, n) >= 0
  {
    if x < n - 1 {
      RowSumCell(row, w, n - 1, x);
    } else if n > 1 {
      RowSumCell(row, w, n - 1, 0);
    }
  }

  lemma {:induction false} RowSumNonNeg(row: seq<char>, w: char -> int, n: nat)
    requires n <= |row|
    requires forall c :: w(c) >= 0
    ensures RowSum(row, w, n) >= 0
  {
    if n > 0 {
      RowSumNonNeg(row, w, n - 1);
    }
  }

  lemma {:induction false} GridSumNonNeg(g: Grid, w: char -> int, m: nat)
    requires m <= |g|
    requires forall c :: w(c) >= 0
    ensures GridSum(g, w, m) >= 0
  {
    if m > 0 {
      GridSumNonNeg(g, w, m - 1);
      RowSumNonNeg(g[m - 1], w, |g[m - 1]|);
    }
  }

  /** Two distinct cells of one row both count in the row's sum. */
  lemma {:induction false} RowSumTwoCells(row: seq<char>, w: char -> int, n: nat, x1: nat, x2: nat)
    requires n <= |row| && x1 < x2 < n
    requires forall c :: w(c) >= 0
    ensures RowSum(row, w, n) >= w(row[x1]) + w(row[x2])
  {
    if x2 < n - 1 {
      RowSumTwoCells(row, w, n - 1, x1, x2);
    } else {
      RowSumCell(row, w, n - 1, x1);
    }
  }

  /** Any one cell, and any two distinct cells, count in the board's sum. */
  lemma {:induction false} GridSumCells(g: Grid, w: char -> int, m: nat, x1: int, y1: int, x2: int, y2: int)
    requires m <= |g|
    requires forall c :: w(c) >= 0
    requires InBounds(g, x1, y1) && y1 < m
    ensures GridSum(g, w, m) >= w(g[y1][x1])
    ensures InBounds(g, x2, y2) && y2 < m && (x1, y1) != (x2, y2) ==>
      GridSum(g, w, m) >= w(g[y1][x1]) + w(g[y2][x2])
  {
    var last := m - 1;
    GridSumNonNeg(g, w, last);
    RowSumNonNeg(g[last], w, |g[last]|);
    if y1 < last && (!InBounds(g, x2, y2) || y2 < last) {
      GridSumCells(g, w, last, x1, y1, x2, y2);
    } else if y1 == last && y2 == last && InBounds(g, x2, y2) && x1 != x2 {
      if x1 < x2 {
        RowSumTwoCells(g[last], w, |g[last]|, x1, x2);
      } else {
        RowSumTwoCells(g[last], w, |g[last]|, x2, x1);
      }
    } else if y1 == last {
      RowSumCell(g[last], w, |g[last]|, x1);
      if InBounds(g, x2, y2) && y2 < last {
        GridSumCells(g, w, last, x2, y2, x2, y2);
      }
    } else {
      // y1 < last and the second cell is in the last row
      GridSumCells(g, w, last, x1, y1, x1, y1);
      if InBounds(g, x2, y2) && y2 == last {
        RowSumCell(g[last], w, |g[last]|, x2);
      }
    }
  }

  // ---------------------------------------------------------------------
  // materialScore, onlyKingsLeft, isKingMissing

  /** What a white piece adds to `whiteScore` (`pieceValues[piece.toUpperCase()] || 0`). */
  function WhiteWeight(c: char): int {
    if c != Empty && IsUpper(c) then ValueOf(ToUpper(c)) else 0
  }

  /** What a black piece adds to `blackScore`. */
  function BlackWeight(c: char): int {
    if c != Empty && !IsUpper(c) then ValueOf(ToUpper(c)) else 0
  }

  /** materialScore: white's total minus black's total. */
  function Material(g: Grid): int {
    Total(g, WhiteWeight) - Total(g, BlackWeight)
  }

  /** What a square adds to `extras` in onlyKingsLeft. */
  function ExtraWeight(c: char): (w: int)
    ensures w >= 0
  {
    if c == Empty || c == 'K' || c == 'k' then 0
    else if c == 'n' || c == 'N' || c == 'b' || c == 'B' then 1
    else 2
  }

  predicate HasPiece(g: Grid, c: char) {
    exists y, x | 0 <= y < |g| && 0 <= x < |g[y]| :: g[y][x] == c
  }

  /** onlyKingsLeft: both kings present and at most one "extra" point. */
  predicate OnlyKingsLeft(g: Grid) {
    HasPiece(g, 'K') && HasPiece(g, 'k') && Total(g, ExtraWeight) <= 1
  }

  predicate IsMinorPiece(c: char) {
    c == 'n' || c == 'N' || c == 'b' || c == 'B'
  }

  predicate IsNonKingPiece(c: char) {
    c != Empty && c != 'K' && c != 'k'
  }

  /** What the draw heuristic means: besides the kings there is at most one
      piece on the board, and that one is a knight or a bishop. */
  lemma OnlyKingsLeftMeaning(g: Grid)
    requires OnlyKingsLeft(g)
    ensures forall y, x | InBounds(g, x, y) && IsNonKingPiece(g[y][x]) :: IsMinorPiece(g[y][x])
    ensures forall y1, x1, y2, x2 |
      InBounds(g, x1, y1) && InBounds(g, x2, y2) &&
      IsNonKingPiece(g[y1][x1]) && IsNonKingPiece(g[y2][x2]) :: x1 == x2 && y1 == y2
  {
    forall y, x | InBounds(g, x, y) && IsNonKingPiece(g[y][x])
      ensures IsMinorPiece(g[y][x])
    {
      GridSumCells(g, ExtraWeight, |g|, x, y, x, y);
    }
    forall y1, x1, y2, x2 |
      InBounds(g, x1, y1) && InBounds(g, x2, y2) &&
      IsNonKingPiece(g[y1][x1]) && IsNonKingPiece(g[y2][x2])
      ensures x1 == x2 && y1 == y2
    {
      GridSumCells(g, ExtraWeight, |g|, x1, y1, x2, y2);
    }
  }

  /** Some square before (x, y) in row-major order holds `c`: what the
      flags of the scanning loops of onlyKingsLeft and isKingMissing record. */
  predicate SeenBefore(g: Grid, c: char, y: int, x: int) {
    exists r, i | 0 <= r < |g| && 0 <= i < |g[r]| && (r < y || (r == y && i < x)) :: g[r][i] == c
  }

  /** One more square of the scan. */
  lemma SeenStep(g: Grid, c: char, y: int, x: int)
    requires 0 <= y < |g| && 0 <= x < |g[y]|
    ensures SeenBefore(g, c, y, x + 1) <==> SeenBefore(g, c, y, x) || g[y][x] == c
  {
    if SeenBefore(g, c, y, x + 1) && g[y][x] != c {
      var r, i :| 0 <= r < |g| && 0 <= i < |g[r]| && (r < y || (r == y && i < x + 1)) && g[r][i] == c;
      assert r < y || (r == y && i < x);
    }
    if SeenBefore(g, c, y, x) {
      var r, i :| 0 <= r < |g| && 0 <= i < |g[r]| && (r < y || (r == y && i < x)) && g[r][i] == c;
      assert r < y || (r == y && i < x + 1);
    }
    if g[y][x] == c {
      assert y < y || (y == y && x < x + 1);
    }
  }

  /** The end of a row is the start of the next. */
  lemma SeenRowEnd(g: Grid, c: char, y: int)
    requires 0 <= y < |g|
    ensures SeenBefore(g, c, y, |g[y]|) <==> SeenBefore(g, c, y + 1, 0)
  {
    if SeenBefore(g, c, y + 1, 0) {
      var r, i :| 0 <= r < |g| && 0 <= i < |g[r]| && (r < y + 1 || (r == y + 1 && i < 0)) && g[r][i] == c;
      assert r < y || (r == y && i < |g[y]|);
    }
    if SeenBefore(g, c, y, |g[y]|) {
      var r, i :| 0 <= r < |g| && 0 <= i < |g[r]| && (r < y || (r == y && i < |g[y]|)) && g[r][i] == c;
      assert r < y + 1 || (r == y + 1 && i < 0);
    }
  }

  /** A scan that has not started has seen nothing. */
  lemma SeenNone(g: Grid, c: char)
    ensures !SeenBefore(g, c, 0, 0)
  {
  }

  /** A scan that has passed every row has seen every square. */
  lemma SeenAll(g: Grid, c: char)
    ensures SeenBefore(g, c, |g|, 0) <==> HasPiece(g, c)
  {
    if HasPiece(g, c) {
      var r, i :| 0 <= r < |g| && 0 <= i < |g[r]| && g[r][i] == c;
      assert r < |g| || (r == |g| && i < 0);
    }
  }

  /** isKingMissing: "Black" (wins) when the white king is gone, else "White"
      when the black king is gone, else nothing. */
  function KingMissing(g: Grid): (r: Option<string>)
    ensures r == Some("Black") <==> !HasPiece(g, 'K')
    ensures r == Some("White") <==> HasPiece(g, 'K') && !HasPiece(g, 'k')
    ensures r == None <==> HasPiece(g, 'K') && HasPiece(g, 'k')
  {
    if !HasPiece(g, 'K') then Some("Black")
    else if !HasPiece(g, 'k') then Some("White")
    else None
  }

  /** Colour swap of a whole board (each piece becomes its opposite-colour twin). */
  function FlipColors(g: Grid): (r: Grid)
    ensures |r| == |g| && forall y | 0 <= y < |g| :: |r[y]| == |g[y]|
    ensures forall y, x | InBounds(g, x, y) :: r[y][x] == Flip(g[y][x])
  {
    seq(|g|, y requires 0 <= y < |g| => seq(|g[y]|, x requires 0 <= x < |g[y]| => Flip(g[y][x])))
  }

  predicate LetterBoard(g: Grid) {
    forall y, x | 0 <= y < |g| && 0 <= x < |g[y]| ::
      g[y][x] == Empty || IsAsciiUpper(g[y][x]) || IsAsciiLower(g[y][x])
  }

  lemma {:induction false} RowSumFlip(row: seq<char>, frow: seq<char>, n: nat)
    requires n <= |row| == |frow|
    requires forall x | 0 <= x < |row| :: frow[x] == Flip(row[x])
    requires forall x | 0 <= x < |row| :: row[x] == Empty || IsAsciiUpper(row[x]) || IsAsciiLower(row[x])
    ensures RowSum(frow, WhiteWeight, n) == RowSum(row, BlackWeight, n)
    ensures RowSum(frow, BlackWeight, n) == RowSum(row, WhiteWeight, n)
  {
    if n > 0 {
      RowSumFlip(row, frow, n - 1);
      ValueIgnoresCase(row[n - 1]);
      FlipInvolutive(row[n - 1]);
    }
  }

  lemma {:induction false} GridSumFlip(g: Grid, m: nat)
    requires m <= |g| && LetterBoard(g)
    ensures GridSum(FlipColors(g), WhiteWeight, m) == GridSum(g, BlackWeight, m)
    ensures GridSum(FlipColors(g), BlackWeight, m) == GridSum(g, WhiteWeight, m)
  {
    if m > 0 {
      GridSumFlip(g, m - 1);
      RowSumFlip(g[m - 1], FlipColors(g)[m - 1], |g[m - 1]|);
    }
  }

  /** The evaluation is antisymmetric: swapping every piece's colour negates it. */
  lemma MaterialFlip(g: Grid)
    requires LetterBoard(g)
    ensures Material(FlipColors(g)) == -Material(g)
  {
    GridSumFlip(g, |g|);
  }

  /** An empty board is level. */
  lemma MaterialEmpty(g: Grid)
    requires forall y, x | InBounds(g, x, y) :: g[y][x] == Empty
    ensures Material(g) == 0
  {
    GridSumZero(g, WhiteWeight, |g|);
    GridSumZero(g, BlackWeight, |g|);
  }

  // ---------------------------------------------------------------------
  // getBoardSignature

  function CellText(c: char): char {
    if c == Empty then '.' else c
  }

  function RowText(row: seq<char>): (s: string)
    ensures |s| == |row|
    ensures forall i | 0 <= i < |row| :: s[i] == CellText(row[i])
  {
    seq(|row|, i requires 0 <= i < |row| => CellText(row[i]))
  }

  /** `rows.join('/')`. */
  function JoinRows(g: Grid): string {
    if |g| == 0 then ""
    else if |g| == 1 then RowText(g[0])
    else RowText(g[0]) + "/" + JoinRows(g[1..])
  }

  /** getBoardSignature: the player letter, ':', then the rows joined by '/'
      with empty squares written '.'. */
  function Signature(g: Grid, player: Color): string {
    [ColorChar(player), ':'] + JoinRows(g)
  }

  /** Boards whose pieces never use the two separator characters. */
  predicate SignatureSafe(g: Grid) {
    forall y, x | 0 <= y < |g| && 0 <= x < |g[y]| :: g[y][x] != '.' && g[y][x] != '/'
  }

  /** In `s + "/" + t` with no '/' in `s`, the first '/' is at `|s|`. */
  lemma FirstSlash(s: string, t: string)
    requires '/' !in s
    ensures (s + "/" + t)[|s|] == '/'
    ensures forall i | 0 <= i < |s| :: (s + "/" + t)[i] != '/'
  {
  }

  lemma SplitAtSlash(s1: string, t1: string, s2: string, t2: string)
    requires '/' !in s1 && '/' !in s2
    requires s1 + "/" + t1 == s2 + "/" + t2
    ensures s1 == s2 && t1 == t2
  {
    FirstSlash(s1, t1);
    FirstSlash(s2, t2);
    assert |s1| == |s2|;
    var l := s1 + "/" + t1;
    assert s1 == l[..|s1|] && s2 == l[..|s2|];
    assert t1 == l[|s1| + 1..] && t2 == l[|s2| + 1..];
  }

  lemma RowTextInjective(r1: seq<char>, r2: seq<char>)
    requires forall i | 0 <= i < |r1| :: r1[i] != '.'
    requires forall i | 0 <= i < |r2| :: r2[i] != '.'
    requires RowText(r1) == RowText(r2)
    ensures r1 == r2
  {
    forall i | 0 <= i < |r1|
      ensures r1[i] == r2[i]
    {
      assert CellText(r1[i]) == CellText(r2[i]);
    }
  }

  lemma {:induction false} JoinRowsInjective(g1: Grid, g2: Grid)
    requires |g1| == |g2| && SignatureSafe(g1) && SignatureSafe(g2)
    requires JoinRows(g1) == JoinRows(g2)
    ensures g1 == g2
  {
    if |g1| == 1 {
      RowTextInjective(g1[0], g2[0]);
    } else if |g1| > 1 {
      assert '/' !in RowText(g1[0]) by {
        forall i | 0 <= i < |g1[0]| ensures RowText(g1[0])[i] != '/' {
          assert InBounds(g1, i, 0);
        }
      }
      assert '/' !in RowText(g2[0]) by {
        forall i | 0 <= i < |g2[0]| ensures RowText(g2[0])[i] != '/' {
          assert InBounds(g2, i, 0);
        }
      }
      SplitAtSlash(RowText(g1[0]), JoinRows(g1[1..]), RowText(g2[0]), JoinRows(g2[1..]));
      forall i | 0 <= i < |g1[0]| ensures g1[0][i] != '.' { assert InBounds(g1, i, 0); }
      forall i | 0 <= i < |g2[0]| ensures g2[0][i] != '.' { assert InBounds(g2, i, 0); }
      RowTextInjective(g1[0], g2[0]);
      assert SignatureSafe(g1[1..]) by {
        forall y, x | InBounds(g1[1..], x, y) ensures g1[1..][y][x] != '.' && g1[1..][y][x] != '/' {
          assert InBounds(g1, x, y + 1);
        }
      }
      assert SignatureSafe(g2[1..]) by {
        forall y, x | InBounds(g2[1..], x, y) ensures g2[1..][y][x] != '.' && g2[1..][y][x] != '/' {
          assert InBounds(g2, x, y + 1);
        }
      }
      JoinRowsInjective(g1[1..], g2[1..]);
      assert g1 == [g1[0]] + g1[1..];
      assert g2 == [g2[0]] + g2[1..];
    }
  }

  /** Repetition counting is sound: two positions with the same number of
      rows share a signature only when they have the same side to move and
      the same board. */
  lemma SignatureInjective(g1: Grid, p1: Color, g2: Grid, p2: Color)
    requires |g1| == |g2| && SignatureSafe(g1) && SignatureSafe(g2)
    requires Signature(g1, p1) == Signature(g2, p2)
    ensures p1 == p2 && g1 == g2
  {
    var s1, s2 := Signature(g1, p1), Signature(g2, p2);
    assert s1[0] == ColorChar(p1) && s2[0] == ColorChar(p2);
    assert JoinRows(g1) == s1[2..] && JoinRows(g2) == s2[2..];
    JoinRowsInjective(g1, g2);
  }

  // ---------------------------------------------------------------------
  // getZobristHash

  /** Bitwise XOR of two non-negative integers (`^` on the BigInt values of
      the table), defined bit by bit from the least significant end. */
  function Xor(a: nat, b: nat): nat
    decreases a + b
  {
    if a == 0 then b
    else if b == 0 then a
    else 2 * Xor(a / 2, b / 2) + (if a % 2 == b % 2 then 0 else 1)
  }

  /** XOR with zero keeps the value, and the lowest bit and the rest split
      as for the digits of a binary number. */
  lemma XorBits(a: nat, b: nat)
    ensures Xor(a, 0) == a && Xor(0, b) == b
    ensures Xor(a, b) / 2 == Xor(a / 2, b / 2)
    ensures Xor(a, b) % 2 == (if a % 2 == b % 2 then 0 else 1)
  {
    if a == 0 {
      assert Xor(a / 2, b / 2) == b / 2;
    } else if b == 0 {
      assert Xor(a / 2, b / 2) == a / 2;
    }
  }

  /** XOR-ing the same key twice cancels: what makes the side-to-move key
      a toggle. */
  lemma {:induction false} XorCancel(h: nat, k: nat)
    ensures Xor(Xor(h, k), k) == h
    decreases h + k
  {
    var x := Xor(h, k);
    XorBits(h, k);
    XorBits(x, k);
    if h == 0 {
      XorSelf(k);
    } else if k == 0 {
    } else {
      XorCancel(h / 2, k / 2);
      assert Xor(x, k) / 2 == h / 2;
      assert Xor(x, k) % 2 == h % 2;
    }
  }

  lemma {:induction false} XorSelf(k: nat)
    ensures Xor(k, k) == 0
    decreases k
  {
    if k > 0 {
      XorSelf(k / 2);
    }
  }

  /** The random table of initZobrist: one 64-bit value per square and
      piece kind, and one for the side to move. */
  datatype Zobrist = Zobrist(table: seq<seq<seq<nat>>>, sideToMove: nat)

  /** `pieceToIndex`. */
  const PieceToIndex: map<char, nat> :=
    map['P' := 0, 'N' := 1, 'B' := 2, 'R' := 3, 'Q' := 4, 'K' := 5,
        'p' := 6, 'n' := 7, 'b' := 8, 'r' := 9, 'q' := 10, 'k' := 11]

  /** The table covers every square of the board with 12 entries each, as
      initZobrist builds it from the board's own dimensions. */
  predicate Fits(z: Zobrist, g: Grid) {
    |z.table| >= |g| &&
    (forall y | 0 <= y < |g| :: |z.table[y]| >= |g[y]|) &&
    (forall y, x | 0 <= y < |g| && 0 <= x < |g[y]| :: |z.table[y][x]| >= 12)
  }

  /** What square (x, y) holding `c` contributes to the fingerprint: its
      table entry for a piece, nothing for an empty square. */
  function Entry(z: Zobrist, c: char, x: int, y: int): nat {
    if c in PieceToIndex && 0 <= y < |z.table| && 0 <= x < |z.table[y]| &&
       PieceToIndex[c] < |z.table[y][x]|
    then z.table[y][x][PieceToIndex[c]] else 0
  }

  /** The XOR accumulation of getZobristHash in the source's own order:
      `acc` is what has been folded in before square (x, y), row by row. */
  function HashFrom(z: Zobrist, g: Grid, y: nat, x: nat, acc: nat): nat
    requires y <= |g| && (y < |g| ==> x <= |g[y]|)
    decreases |g| - y, if y < |g| then |g[y]| - x else 0
  {
    if y == |g| then acc
    else if x == |g[y]| then HashFrom(z, g, y + 1, 0, acc)
    else HashFrom(z, g, y, x + 1, Xor(acc, Entry(z, g[y][x], x, y)))
  }

  /** The XOR of the entries of every occupied square. */
  function BoardHash(z: Zobrist, g: Grid): nat {
    HashFrom(z, g, 0, 0, 0)
  }

  /** getZobristHash, as the number rather than its decimal string. */
  function Hash(z: Zobrist, g: Grid, color: Color): nat {
    if color == White then Xor(BoardHash(z, g), z.sideToMove) else BoardHash(z, g)
  }

  /** The two sides' fingerprints of one board differ exactly by
      `sideToMove`: toggling it turns white's into black's, and with a
      non-zero key the two are never equal. */
  lemma HashSideToMove(z: Zobrist, g: Grid)
    ensures z.sideToMove != 0 ==> Hash(z, g, White) != Hash(z, g, Black)
    ensures Xor(Hash(z, g, White), z.sideToMove) == Hash(z, g, Black)
  {
    XorCancel(BoardHash(z, g), z.sideToMove);
    if z.sideToMove != 0 {
      XorChanges(BoardHash(z, g), z.sideToMove);
    }
  }

  /** XOR with a non-zero key changes the value. */
  lemma {:induction false} XorChanges(a: nat, k: nat)
    requires k != 0
    ensures Xor(a, k) != a
    decreases k
  {
    XorBits(a, k);
    if Xor(a, k) == a && k % 2 == 0 {
      XorChanges(a / 2, k / 2);
    }
  }

  /** One square of the fold; a square without a table entry leaves the
      accumulator as it is. */
  lemma HashFromStep(z: Zobrist, g: Grid, y: nat, x: nat, acc: nat)
    requires y < |g| && x < |g[y]|
    ensures HashFrom(z, g, y, x, acc) == HashFrom(z, g, y, x + 1, Xor(acc, Entry(z, g[y][x], x, y)))
    ensures Entry(z, g[y][x], x, y) == 0 ==> HashFrom(z, g, y, x, acc) == HashFrom(z, g, y, x + 1, acc)
  {
    XorBits(acc, 0);
  }

  lemma HashFromEnd(z: Zobrist, g: Grid, acc: nat)
    ensures HashFrom(z, g, |g|, 0, acc) == acc
  {
  }

  /** The end of a row is the start of the next. */
  lemma HashFromRowEnd(z: Zobrist, g: Grid, y: nat, acc: nat)
    requires y < |g|
    ensures HashFrom(z, g, y, |g[y]|, acc) == HashFrom(z, g, y + 1, 0, acc)
  {
  }

  lemma {:induction false} HashFromEmpty(z: Zobrist, g: Grid, y: nat, x: nat, acc: nat)
    requires y <= |g| && (y < |g| ==> x <= |g[y]|)
    requires forall r, i | 0 <= r < |g| && 0 <= i < |g[r]| :: g[r][i] == Empty
    ensures HashFrom(z, g, y, x, acc) == acc
    decreases |g| - y, if y < |g| then |g[y]| - x else 0
  {
    if y == |g| {
    } else if x == |g[y]| {
      HashFromEmpty(z, g, y + 1, 0, acc);
    } else {
      assert Entry(z, g[y][x], x, y) == 0;
      XorBits(acc, 0);
      HashFromEmpty(z, g, y, x + 1, acc);
    }
  }

  /** Pieces alone make the fingerprint: an empty board hashes to the
      side-to-move key for white and to zero for black. */
  lemma HashEmptyBoard(z: Zobrist, g: Grid)
    requires forall r, i | 0 <= r < |g| && 0 <= i < |g[r]| :: g[r][i] == Empty
    ensures Hash(z, g, Black) == 0 && Hash(z, g, White) == z.sideToMove
  {
    HashFromEmpty(z, g, 0, 0, 0);
    XorBits(0, z.sideToMove);
  }
}
