/** What the generator's layouts guarantee: the shuffles only permute,
    both colours get the same pieces, exactly one king of each colour,
    the mirror mode's shape, the orientation and the pawn normalisation. */
module LayoutFacts {
  import opened Pieces
  import opened Grids
  import opened Layouts

  lemma SwapPermutes<T>(s: seq<T>, i: nat, j: nat)
    requires i < |s| && j < |s|
    ensures |Swap(s, i, j)| == |s| && multiset(Swap(s, i, j)) == multiset(s)
  {
  }

  /** Fisher-Yates only permutes the cells. */
  lemma {:induction false} ShufflePermutes<T>(s: seq<T>, swap: nat -> nat, i: int)
    requires i < |s| && SwapsOk(swap)
    ensures |Shuffle(s, swap, i)| == |s| && multiset(Shuffle(s, swap, i)) == multiset(s)
    decreases i
  {
    if i > 0 {
      SwapPermutes(s, i, swap(i));
      ShufflePermutes(Swap(s, i, swap(i)), swap, i - 1);
    }
  }

  lemma SpinStepPermutes(s: seq<char>, i: nat, j: nat)
    requires i < |s| && j < |s|
    ensures |SpinStep(s, i, j)| == |s| && multiset(SpinStep(s, i, j)) == multiset(s)
  {
    hide Swap;
    var l := |s| - 1;
    SwapPermutes(s, i, j);
    SwapPermutes(Swap(s, i, j), l - i, l - j);
    assert SpinStep(s, i, j) == Swap(Swap(s, i, j), l - i, l - j);
  }

  /** Spin mode's shuffle only permutes the cells too. */
  lemma {:induction false} SpinShufflePermutes(s: seq<char>, swap: nat -> nat, odd: bool, mid: int,
                                               i: int)
    requires i < |s| && SwapsOk(swap)
    ensures |SpinShuffle(s, swap, odd, mid, i)| == |s|
    ensures multiset(SpinShuffle(s, swap, odd, mid, i)) == multiset(s)
    decreases i
  {
    hide SpinStep;
    if i > 0 {
      var j := swap(i);
      var i' := if odd && i == mid then 0 else i;
      var j' := if odd && j == mid then 0 else j;
      SpinStepPermutes(s, i', j');
      SpinShufflePermutes(SpinStep(s, i', j'), swap, odd, mid, i' - 1);
    }
  }

  lemma ReverseMultiset<T>(s: seq<T>)
    ensures multiset(Reverse(s)) == multiset(s)
    decreases |s|
  {
    if |s| > 0 {
      var r := Reverse(s);
      assert r == [s[|s| - 1]] + Reverse(s[..|s| - 1]);
      ReverseMultiset(s[..|s| - 1]);
      assert s == s[..|s| - 1] + [s[|s| - 1]];
    }
  }

  lemma PadMultiset(s: seq<char>, n: int)
    ensures |PadTo(s, n)| == if |s| >= n then |s| else n
    ensures multiset(PadTo(s, n)) == multiset(s) + multiset(Blanks(if |s| >= n then 0 else n - |s|))
  {
    if |s| >= n {
      assert Blanks(0) == [];
    }
  }

  /** Random mode gives black exactly the white list lower-cased: the
      layout holds the white list, its lower-case copy and blanks. */
  lemma RandomLayoutBalanced(white: seq<char>, total: int, swap: nat -> nat)
    requires SwapsOk(swap)
    ensures var base := 2 * |white|;
      var r := RandomLayout(white, total, swap);
      |r| == (if base >= total then base else total) &&
      multiset(r) == multiset(white) + multiset(LowerAll(white)) +
                     multiset(Blanks(if base >= total then 0 else total - base))
  {
    hide Shuffle, Reverse, LowerAll, Blanks, PadTo;
    var base := white + Reverse(LowerAll(white));
    ReverseMultiset(LowerAll(white));
    assert multiset(base) == multiset(white) + multiset(LowerAll(white));
    PadMultiset(base, total);
    var s := PadTo(base, total);
    ShufflePermutes(s, swap, |s| - 1);
    assert RandomLayout(white, total, swap) == Shuffle(s, swap, |s| - 1);
  }

  // ------------------------------------------------------------ kings

  lemma CaseOfKing(c: char)
    ensures ToUpper(c) == 'K' ==> c == 'k' || c == 'K'
    ensures ToUpper(c) != 'k' && ToLower(c) != 'K'
    ensures ToLower(c) == 'k' ==> c == 'k' || c == 'K'
  {
  }

  /** Upper-cased picks from the kingless list are never kings. */
  lemma {:induction false} PicksKingless(available: seq<char>, pick: nat -> nat, n: nat)
    requires PicksOk(available, pick, n) && 'k' !in available && 'K' !in available
    ensures 'K' !in Picks(available, pick, n) && 'k' !in Picks(available, pick, n)
    ensures 'K' !in LowerAll(Picks(available, pick, n)) && 'k' !in LowerAll(Picks(available, pick, n))
  {
    if n > 0 {
      PicksKingless(available, pick, n - 1);
      var c := available[pick(n - 1)];
      CaseOfKing(c);
      CaseOfKing(ToUpper(c));
      var p := Picks(available, pick, n);
      assert LowerAll(p) == LowerAll(Picks(available, pick, n - 1)) + [ToLower(ToUpper(c))];
    }
  }

  /** The white list of any mode holds one white king and no black one. */
  lemma WhiteListKings(selection: seq<char>, pick: nat -> nat, perSide: int)
    requires PicksOk(Available(selection), pick, perSide)
    ensures var w := WhiteList(Available(selection), pick, perSide);
      multiset(w)['K'] == 1 && multiset(w)['k'] == 0 &&
      multiset(LowerAll(w))['k'] == 1 && multiset(LowerAll(w))['K'] == 0
  {
    hide Picks, Available, LowerAll;
    var available := Available(selection);
    var n := if perSide > 0 then perSide else 0;
    PicksKingless(available, pick, n);
    var p := Picks(available, pick, n);
    var w := ['K'] + p;
    assert WhiteList(available, pick, perSide) == w;
    assert multiset(w) == multiset(['K']) + multiset(p);
    assert multiset(p)['K'] == 0 && multiset(p)['k'] == 0;
    var lw := LowerAll(w);
    assert lw == ['k'] + LowerAll(p);
    assert multiset(lw) == multiset(['k']) + multiset(LowerAll(p));
    assert multiset(LowerAll(p))['K'] == 0 && multiset(LowerAll(p))['k'] == 0;
  }

  /** Random mode places exactly one king of each colour. */
  lemma RandomKings(selection: seq<char>, pick: nat -> nat, perSide: int, total: int,
                    swap: nat -> nat)
    requires PicksOk(Available(selection), pick, perSide) && SwapsOk(swap)
    ensures var r := RandomLayout(WhiteList(Available(selection), pick, perSide), total, swap);
      multiset(r)['K'] == 1 && multiset(r)['k'] == 1
  {
    var w := WhiteList(Available(selection), pick, perSide);
    WhiteListKings(selection, pick, perSide);
    RandomLayoutBalanced(w, total, swap);
  }

  lemma {:induction false} ExtrasKingless(available: seq<char>, pick: nat -> nat, coin: nat -> bool,
                                          n: nat)
    requires PicksOk(available, pick, n) && 'k' !in available && 'K' !in available
    ensures 'K' !in Extras(available, pick, coin, n) && 'k' !in Extras(available, pick, coin, n)
  {
    if n > 0 {
      ExtrasKingless(available, pick, coin, n - 1);
      CaseOfKing(available[pick(n - 1)]);
    }
  }

  /** Puzzle mode places exactly one king of each colour: its extras come
      from the kingless list. */
  lemma PuzzleKings(selection: seq<char>, perSide: int, total: int, d: Draws)
    requires SwapsOk(d.swap)
    requires PicksOk(Available(selection), d.puzzlePick, PuzzleCount(perSide, Available(selection)))
    ensures var r := PuzzleLayout(Available(selection), perSide, total, d);
      multiset(r)['K'] == 1 && multiset(r)['k'] == 1
  {
    hide Shuffle, PadTo, Blanks, Extras, Available, PuzzleCount;
    var available := Available(selection);
    var e := Extras(available, d.puzzlePick, d.coin, PuzzleCount(perSide, available));
    ExtrasKingless(available, d.puzzlePick, d.coin, PuzzleCount(perSide, available));
    var s := ['K', 'k'] + e;
    assert multiset(e)['K'] == 0 && multiset(e)['k'] == 0;
    PadMultiset(s, total);
    var n := if |s| >= total then 0 else total - |s|;
    assert 'K' !in Blanks(n) && 'k' !in Blanks(n);
    assert multiset(Blanks(n))['K'] == 0 && multiset(Blanks(n))['k'] == 0;
    var padded := PadTo(s, total);
    assert multiset(s) == multiset(['K', 'k']) + multiset(e);
    assert multiset(padded) == multiset(s) + multiset(Blanks(n));
    assert multiset(padded)['K'] == 1 && multiset(padded)['k'] == 1;
    ShufflePermutes(padded, d.swap, |padded| - 1);
    assert PuzzleLayout(available, perSide, total, d) == Shuffle(padded, d.swap, |padded| - 1);
  }

  // ------------------------------------------------------------ mirror

  lemma DivOfProduct(a: nat, b: nat)
    requires a > 0
    ensures (a * b) / a == b
  {
    var q, r := (a * b) / a, (a * b) % a;
    assert a * b == a * q + r && 0 <= r < a;
    Distrib(a, q);
    Distrib(a, b);
    if q < b {
      MulMono(a, q + 1, b);
      assert false;
    } else if q > b {
      MulMono(a, b + 1, q);
      assert false;
    }
  }

  /** The sizes mirror mode works with: a half of `rows / 2` full rows, of
      which the first is one row, and the middle row on an odd board. */
  lemma MirrorSizes(rows: nat, cols: nat)
    requires rows >= 2
    ensures var half := (rows / 2) * cols;
      cols <= half && half / (rows / 2) == cols && rows * cols == 2 * half + rows % 2 * cols
  {
    var half := (rows / 2) * cols;
    DivOfProduct(rows / 2, cols);
    MulMono(cols, 1, rows / 2);
    assert cols * (rows / 2) == half;
    assert rows == 2 * (rows / 2) + rows % 2;
  }

  /** Mirror mode: the white half is the padded or cut list shuffled, and
      the black half is that half lower-cased with its first row moved to
      the back; an odd board keeps a blank row in the middle. */
  lemma MirrorShape(white: seq<char>, rows: nat, cols: nat, swap: nat -> nat)
    requires rows >= 2 && SwapsOk(swap)
    ensures var half := (rows / 2) * cols;
      var h := Shuffle(MirrorHalf(white, half), swap, |MirrorHalf(white, half)| - 1);
      var r := MirrorLayout(white, rows, cols, swap);
      |h| == half && cols <= half && multiset(h) == multiset(MirrorHalf(white, half)) &&
      |r| == rows * cols &&
      r == LowerAll(h[cols..] + h[..cols]) + Blanks(rows % 2 * cols) + h
  {
    hide Shuffle, RotateSlices, Blanks, PadTo, MirrorHalf;
    var half := (rows / 2) * cols;
    var m := MirrorHalf(white, half);
    var h := Shuffle(m, swap, |m| - 1);
    ShufflePermutes(m, swap, |m| - 1);
    MirrorSizes(rows, cols);
    var lh := LowerAll(h);
    RotateSlicesRotates(lh, rows / 2);
    assert RotateSlices(lh, rows / 2) == lh[cols..] + lh[..cols];
    assert lh[cols..] + lh[..cols] == LowerAll(h[cols..] + h[..cols]);
    assert MirrorLayout(white, rows, cols, swap) == RotateSlices(lh, rows / 2) + Blanks(rows % 2 * cols) + h;
  }

  // ------------------------------------------------------------ orientation

  lemma TwoOccurrences(s: seq<char>, c: char, i: nat, j: nat)
    requires i < j < |s| && s[i] == c && s[j] == c
    ensures multiset(s)[c] >= 2
  {
    assert s == s[..i] + [s[i]] + s[i + 1..j] + [s[j]] + s[j + 1..];
  }

  /** The only position of a piece that occurs once. */
  lemma OnlyPosition(s: seq<char>, c: char, i: nat)
    requires multiset(s)[c] == 1 && i < |s| && s[i] == c
    ensures forall j | 0 <= j < |s| && j != i :: s[j] != c
  {
    forall j | 0 <= j < |s| && j != i
      ensures s[j] != c
    {
      if s[j] == c {
        if j < i { TwoOccurrences(s, c, j, i); } else { TwoOccurrences(s, c, i, j); }
      }
    }
  }

  lemma IndexOfReverse(s: seq<char>, c: char)
    requires multiset(s)[c] == 1
    ensures IndexOf(s, c) >= 0 && IndexOf(Reverse(s), c) == |s| - 1 - IndexOf(s, c)
  {
    var a := IndexOf(s, c);
    OnlyPosition(s, c, a);
    var r := Reverse(s);
    var b := IndexOf(r, c);
    assert r[|s| - 1 - a] == c;
    assert c in r;
    assert s[|s| - 1 - b] == c;
  }

  /** With one king of each colour, the black king comes first after the
      orientation step. */
  lemma OrientedKings(s: seq<char>)
    requires multiset(s)['k'] == 1 && multiset(s)['K'] == 1
    ensures 0 <= IndexOf(Oriented(s), 'k') < IndexOf(Oriented(s), 'K')
    ensures multiset(Oriented(s)) == multiset(s)
  {
    IndexOfReverse(s, 'k');
    IndexOfReverse(s, 'K');
    ReverseMultiset(s);
    var a, b := IndexOf(s, 'k'), IndexOf(s, 'K');
    assert s[a] == 'k' && s[b] == 'K';
  }

  // ------------------------------------------------------------ pawns and rows

  /** After normalisation no white pawn stands in the first `cols` cells and
      no black pawn in the last `cols` cells; only pawns change, and only
      their colour. */
  lemma FixPawnsMeaning(s: seq<char>, cols: nat)
    requires 2 * cols <= |s|
    ensures var r := FixPawns(s, cols);
      (forall i | 0 <= i < cols :: r[i] != 'P') &&
      (forall i | |s| - cols <= i < |s| :: r[i] != 'p') &&
      (forall i | 0 <= i < |s| :: ToLower(r[i]) == ToLower(s[i])) &&
      (forall i | 0 <= i < |s| && s[i] != 'p' && s[i] != 'P' :: r[i] == s[i])
  {
  }

  lemma SplitRowsLength(s: seq<char>, rows: nat, cols: nat, y: nat)
    requires |s| == rows * cols && y < rows
    ensures |SplitRows(s, rows, cols)[y]| == cols
  {
    var lo, hi := y * cols, (y + 1) * cols;
    MulMono(cols, y + 1, rows);
    Distrib(cols, y);
    assert hi == lo + cols && hi <= |s|;
    assert SplitRows(s, rows, cols)[y] == Slice(s, lo, hi);
  }

  /** With exactly rows·cols cells, row y holds cells y·cols .. y·cols + cols - 1. */
  lemma SplitRowsCells(s: seq<char>, rows: nat, cols: nat, y: nat, x: nat)
    requires |s| == rows * cols && y < rows && x < cols
    ensures y * cols + x < |s|
    ensures |SplitRows(s, rows, cols)[y]| == cols && SplitRows(s, rows, cols)[y][x] == s[y * cols + x]
  {
    MulMono(cols, y + 1, rows);
    assert cols * (y + 1) == cols * y + cols;
    assert cols * rows == rows * cols && cols * y == y * cols;
  }

  // ------------------------------------------------------------ density

  lemma MulCancel(k: nat, a: int, b: int)
    requires k > 0 && k * a <= k * b
    ensures a <= b
  {
    if a > b {
      MulMono(k, b + 1, a);
      Distrib(k, b);
      assert false;
    }
  }

  /** For a density of at most 1 the white list fills at most half of the
      squares the density is applied to. */
  lemma WhiteListFits(selection: seq<char>, rows: nat, cols: nat, num: int, den: int, mode: Mode,
                      pick: nat -> nat)
    requires den > 0 && 0 <= num <= den && MaxPieces(mode, rows, cols) >= 2
    requires PicksOk(Available(selection), pick, PiecesPerSide(mode, rows, cols, num, den))
    ensures 2 * |WhiteList(Available(selection), pick, PiecesPerSide(mode, rows, cols, num, den))|
            <= MaxPieces(mode, rows, cols) <= rows * cols
  {
    var m := MaxPieces(mode, rows, cols);
    var perSide := PiecesPerSide(mode, rows, cols, num, den);
    if perSide >= 0 {
      MulMono(m, num, den);
      assert m * num == num * m && m * den == den * m;
      assert 2 * den * (perSide + 1) == den * (2 * (perSide + 1));
      MulCancel(den, 2 * (perSide + 1), m);
    }
    if mode == Mirror {
      assert (rows / 2) * cols * 2 == (rows / 2 * 2) * cols;
      MulMono(cols, rows / 2 * 2, rows);
    }
  }

  // ------------------------------------------------------------ spin symmetry

  /** Every cell holds the colour-swapped piece of the cell as far from the
      other end: the layout looks the same after a half turn with the
      colours exchanged. */
  predicate PointSymmetric(s: seq<char>) {
    forall k | 0 <= k < |s| :: s[|s| - 1 - k] == Flip(s[k])
  }

  lemma FlipTwice(c: char)
    ensures Flip(Flip(c)) == c
  {
  }

  /** A white piece as the white list holds it: its own upper case. */
  lemma UpperFlip(c: char)
    requires ToUpper(c) == c
    ensures Flip(c) == ToLower(c) && Flip(ToLower(c)) == c
  {
  }

  /** One round of spin mode's shuffle keeps the symmetry when the two
      swapped pairs are the same pair or share no cell. */
  lemma SpinStepSymmetric(s: seq<char>, a: nat, b: nat)
    requires PointSymmetric(s) && a < |s| && b < |s|
    requires a == b || a + b == |s| - 1 || (2 * a != |s| - 1 && 2 * b != |s| - 1)
    ensures PointSymmetric(SpinStep(s, a, b))
  {
    var l := |s| - 1;
    var t := SpinStep(s, a, b);
    if a == b || a + b == l {
      assert t == s;
    } else {
      assert forall k | 0 <= k < |s| ::
        t[k] == (if k == l - a then s[l - b] else if k == l - b then s[l - a]
                 else if k == a then s[b] else if k == b then s[a] else s[k]);
      forall k | 0 <= k < |s|
        ensures t[l - k] == Flip(t[k])
      {
        FlipTwice(s[k]);
        FlipTwice(s[a]);
        FlipTwice(s[b]);
      }
    }
  }

  /** Spin mode's shuffle keeps the symmetry: on an even length no cell is
      its own partner, and on an odd length the centre is never touched. */
  lemma {:induction false} SpinShuffleSymmetric(s: seq<char>, swap: nat -> nat, odd: bool, mid: int,
                                                i: int)
    requires PointSymmetric(s) && i < |s| && SwapsOk(swap)
    requires (!odd && |s| % 2 == 0) || (odd && |s| == 2 * mid + 1)
    ensures PointSymmetric(SpinShuffle(s, swap, odd, mid, i))
    decreases i
  {
    hide SpinStep;
    if i > 0 {
      var j := swap(i);
      var i' := if odd && i == mid then 0 else i;
      var j' := if odd && j == mid then 0 else j;
      SpinStepSymmetric(s, i', j');
      SpinStepPermutes(s, i', j');
      SpinShuffleSymmetric(SpinStep(s, i', j'), swap, odd, mid, i' - 1);
    }
  }

  /** The padded white list: the list, then blanks, half the board long. */
  lemma {:induction false} SpinPadShape(white: seq<char>, total: int)
    ensures var r := SpinPad(white, total);
      |r| >= |white| && r[..|white|] == white && (forall i | |white| <= i < |r| :: r[i] == Empty) &&
      (2 * |white| < total - 1 ==> |r| == total / 2) &&
      (2 * |white| >= total - 1 ==> r == white)
    decreases total - 2 * |white|
  {
    if 2 * |white| < total - 1 {
      SpinPadShape(white + [Empty], total);
      var r := SpinPad(white, total);
      assert r[..|white| + 1][..|white|] == r[..|white|];
    }
  }

  /** Before the shuffle the spin layout is symmetric: the lower-cased list
      reversed mirrors the white list, around a blank centre on an odd
      number of rows. */
  /** The white list, an optional blank centre and the lower-cased list
      reversed: each cell faces its colour-swapped twin. */
  lemma JoinSymmetric(white: seq<char>, centre: seq<char>)
    requires forall i | 0 <= i < |white| :: ToUpper(white[i]) == white[i]
    requires centre == [] || centre == [Empty]
    ensures PointSymmetric(white + centre + Reverse(LowerAll(white)))
  {
    hide Reverse, LowerAll;
    var lower := Reverse(LowerAll(white));
    var s := white + centre + lower;
    var n := |white|;
    var l := |s| - 1;
    forall k | 0 <= k < |s|
      ensures s[l - k] == Flip(s[k])
    {
      if k < n {
        UpperFlip(white[k]);
        assert s[l - k] == lower[n - 1 - k];
      } else if k > l - n {
        UpperFlip(white[l - k]);
        assert s[k] == lower[k - (l - n + 1)];
      } else {
        assert s[k] == Empty;
      }
    }
  }

  lemma SpinMirrorSymmetric(white: seq<char>, rows: nat)
    requires forall i | 0 <= i < |white| :: ToUpper(white[i]) == white[i]
    ensures PointSymmetric(SpinMirror(white, rows))
  {
    if rows % 2 != 0 {
      JoinSymmetric(white, [Empty]);
    } else {
      JoinSymmetric(white, []);
      assert white + [] == white;
    }
  }

  lemma WhiteListUpper(available: seq<char>, pick: nat -> nat, perSide: int)
    requires PicksOk(available, pick, perSide)
    ensures var w := WhiteList(available, pick, perSide);
      forall i | 0 <= i < |w| :: ToUpper(w[i]) == w[i]
  {
    var n := if perSide > 0 then perSide else 0;
    PicksUpper(available, pick, n);
  }

  lemma {:induction false} PicksUpper(available: seq<char>, pick: nat -> nat, n: nat)
    requires PicksOk(available, pick, n)
    ensures forall i | 0 <= i < n :: ToUpper(Picks(available, pick, n)[i]) == Picks(available, pick, n)[i]
  {
    if n > 0 {
      PicksUpper(available, pick, n - 1);
    }
  }

  lemma ReverseSymmetric(s: seq<char>)
    requires PointSymmetric(s)
    ensures PointSymmetric(Reverse(s)) && PointSymmetric(Oriented(s))
  {
  }

  lemma FixPawnsSymmetric(s: seq<char>, cols: nat)
    requires PointSymmetric(s) && 2 * cols <= |s|
    ensures PointSymmetric(FixPawns(s, cols))
  {
    var r := FixPawns(s, cols);
    var l := |s| - 1;
    forall k | 0 <= k < |s|
      ensures r[l - k] == Flip(r[k])
    {
      FlipTwice(s[k]);
    }
  }

  /** The board looks the same after a half turn with the colours exchanged. */
  predicate GridSymmetric(g: Grid, rows: nat, cols: nat)
    requires |g| == rows
  {
    (forall y | 0 <= y < rows :: |g[y]| == cols) &&
    forall y, x {:trigger g[y][x]} | 0 <= y < rows && 0 <= x < cols ::
      g[rows - 1 - y][cols - 1 - x] == Flip(g[y][x])
  }

  lemma SymmetricGrid(s: seq<char>, rows: nat, cols: nat, y: nat, x: nat)
    requires PointSymmetric(s) && |s| == rows * cols && y < rows && x < cols
    ensures var g := SplitRows(s, rows, cols);
      |g[y]| == cols && |g[rows - 1 - y]| == cols && g[rows - 1 - y][cols - 1 - x] == Flip(g[y][x])
  {
    SplitRowsCells(s, rows, cols, y, x);
    SplitRowsCells(s, rows, cols, rows - 1 - y, cols - 1 - x);
    assert (rows - 1 - y) * cols == rows * cols - cols - y * cols;
  }

  /** Orientation, pawn normalisation and the split into rows keep a
      symmetric layout of exactly rows·cols cells symmetric as a board. */
  lemma NormalisedSymmetric(layout: seq<char>, rows: nat, cols: nat)
    requires PointSymmetric(layout) && |layout| == rows * cols && rows >= 2
    ensures GridSymmetric(SplitRows(FixPawns(Oriented(layout), cols), rows, cols), rows, cols)
  {
    hide SplitRows, FixPawns, Oriented;
    ReverseSymmetric(layout);
    var o := Oriented(layout);
    MulMono(cols, 2, rows);
    FixPawnsSymmetric(o, cols);
    var f := FixPawns(o, cols);
    var g := SplitRows(f, rows, cols);
    forall y | 0 <= y < rows
      ensures |g[y]| == cols
    {
      SplitRowsLength(f, rows, cols, y);
    }
    forall y, x {:trigger g[y][x]} | 0 <= y < rows && 0 <= x < cols
      ensures g[rows - 1 - y][cols - 1 - x] == Flip(g[y][x])
    {
      SymmetricGrid(f, rows, cols, y, x);
    }
  }

  lemma TotalParity(rows: nat, cols: nat)
    requires rows % 2 == 0 || cols % 2 == 1
    ensures 2 * ((rows * cols) / 2) + rows % 2 == rows * cols
  {
    var h, r := rows / 2, rows % 2;
    var hc := h * cols;
    assert rows == 2 * h + r;
    assert rows * cols == 2 * hc + r * cols;
    if r == 1 {
      assert rows * cols == 2 * (hc + cols / 2) + 1;
    }
  }

  /** The spin layout itself is symmetric and fills the board exactly. */
  lemma SpinLayoutSymmetric(white: seq<char>, rows: nat, cols: nat, swap: nat -> nat)
    requires SwapsOk(swap) && (rows % 2 == 0 || cols % 2 == 1)
    requires forall i | 0 <= i < |white| :: ToUpper(white[i]) == white[i]
    requires 2 * |white| <= rows * cols
    ensures |SpinLayout(white, rows, cols, swap)| == rows * cols
    ensures PointSymmetric(SpinLayout(white, rows, cols, swap))
  {
    hide SpinShuffle, SpinPad;
    var total := rows * cols;
    SpinPadShape(white, total);
    var p := SpinPad(white, total);
    assert |p| == total / 2;
    forall i | 0 <= i < |p|
      ensures ToUpper(p[i]) == p[i]
    {
      if i < |white| {
        assert p[i] == p[..|white|][i];
      }
    }
    SpinMirrorSymmetric(p, rows);
    var s := SpinMirror(p, rows);
    TotalParity(rows, cols);
    assert |s| == total;
    SpinShuffleSymmetric(s, swap, rows % 2 != 0, total / 2, |s| - 1);
    SpinShufflePermutes(s, swap, rows % 2 != 0, total / 2, |s| - 1);
  }

  /** Spin mode on a board with a whole number of cell pairs (an even number
      of rows, or an odd number of columns, as on a square board) and at
      most half of it in white's list gives a board that looks the same
      after a half turn with the colours exchanged. */
  lemma SpinBoardSymmetric(selection: seq<char>, rows: nat, cols: nat, num: int, den: int, d: Draws)
    requires DrawsFit(selection, rows, cols, num, den, Spin, d)
    requires rows >= 2 && (rows % 2 == 0 || cols % 2 == 1)
    requires 2 * |WhiteList(Available(selection), d.pick, PiecesPerSide(Spin, rows, cols, num, den))|
             <= rows * cols
    ensures GridSymmetric(RandomBoard(selection, rows, cols, num, den, Spin, d), rows, cols)
  {
    hide SpinLayout, SplitRows, FixPawns, Oriented;
    var w := WhiteList(Available(selection), d.pick, PiecesPerSide(Spin, rows, cols, num, den));
    WhiteListUpper(Available(selection), d.pick, PiecesPerSide(Spin, rows, cols, num, den));
    SpinLayoutSymmetric(w, rows, cols, d.swap);
    NormalisedSymmetric(SpinLayout(w, rows, cols, d.swap), rows, cols);
  }
}
