/** The board generator's layouts as values: rotateSlices, the piece lists
    of the four generation modes, the shuffles (with their random draws
    passed in), the orientation and pawn normalisation, and the split into
    rows. */
module Layouts {
  import opened Pieces
  import opened Grids

  // ------------------------------------------------------------ rotateSlices

  function Flatten<T>(ss: seq<seq<T>>): seq<T> {
    if |ss| == 0 then [] else ss[0] + Flatten(ss[1..])
  }

  lemma {:induction false} FlattenAppend<T>(a: seq<seq<T>>, b: seq<T>)
    ensures Flatten(a + [b]) == Flatten(a) + b
  {
    if |a| > 0 {
      assert (a + [b])[1..] == a[1..] + [b];
      FlattenAppend(a[1..], b);
    }
  }

  // ------------------------------------------------------------ arithmetic

  lemma {:induction false} MulMono(k: nat, a: int, b: int)
    requires a <= b
    ensures k * a <= k * b
  {
    if k > 0 {
      MulMono(k - 1, a, b);
      assert k * a == (k - 1) * a + a && k * b == (k - 1) * b + b;
    }
  }

  lemma Distrib(a: int, q: int)
    ensures a * (q + 1) == a * q + a
  {
  }

  /** Where slice `i` of `numSlices` starts and ends. */
  lemma SliceBounds(n: nat, numSlices: nat, i: nat)
    requires 1 <= numSlices && i < numSlices
    ensures 0 <= i * (n / numSlices) <= (i + 1) * (n / numSlices) <= n
  {
    var s := n / numSlices;
    assert n == numSlices * s + n % numSlices;
    MulMono(s, 0, i);
    MulMono(s, i + 1, numSlices);
    Distrib(s, i);
  }

  /** The slice loop of rotateSlices from slice `i` on: equal slices of
      ⌊n/numSlices⌋ elements, the last one taking the remainder. */
  function Slices<T>(arr: seq<T>, numSlices: nat, i: nat): seq<seq<T>>
    requires 1 <= numSlices && i <= numSlices
    decreases numSlices - i
  {
    if i == numSlices then []
    else
      var size := |arr| / numSlices;
      SliceBounds(|arr|, numSlices, i);
      var start := i * size;
      var end := if i == numSlices - 1 then |arr| else start + size;
      [arr[start..end]] + Slices(arr, numSlices, i + 1)
  }

  /** rotateSlices: the first slice moves behind the others. */
  function RotateSlices<T>(arr: seq<T>, numSlices: nat): seq<T>
    requires numSlices >= 1
  {
    var slices := Slices(arr, numSlices, 0);
    Flatten(slices[1..] + [slices[0]])
  }

  lemma {:induction false} SlicesFlatten<T>(arr: seq<T>, numSlices: nat, i: nat)
    requires 1 <= numSlices && i < numSlices
    ensures i * (|arr| / numSlices) <= |arr|
    ensures Flatten(Slices(arr, numSlices, i)) == arr[i * (|arr| / numSlices)..]
    decreases numSlices - i
  {
    SliceBounds(|arr|, numSlices, i);
    var size := |arr| / numSlices;
    var start := i * size;
    var sl := Slices(arr, numSlices, i);
    if i < numSlices - 1 {
      SliceBounds(|arr|, numSlices, i + 1);
      var next := (i + 1) * size;
      assert next == start + size;
      assert sl == [arr[start..next]] + Slices(arr, numSlices, i + 1);
      assert sl[1..] == Slices(arr, numSlices, i + 1);
      SlicesFlatten(arr, numSlices, i + 1);
      assert arr[start..] == arr[start..next] + arr[next..];
    } else {
      assert sl == [arr[start..|arr|]] + Slices(arr, numSlices, i + 1);
      assert Slices(arr, numSlices, i + 1) == [];
      assert sl[1..] == [];
      assert Flatten(sl) == sl[0] + Flatten(sl[1..]);
    }
  }

  /** With s = ⌊n/numSlices⌋, rotateSlices moves the first s elements to the
      back. */
  lemma RotateSlicesRotates<T>(arr: seq<T>, numSlices: nat)
    requires numSlices >= 1
    ensures var s := |arr| / numSlices;
      s <= |arr| && RotateSlices(arr, numSlices) == arr[s..] + arr[..s]
  {
    var s := |arr| / numSlices;
    SliceBounds(|arr|, numSlices, 0);
    var slices := Slices(arr, numSlices, 0);
    FlattenAppend(slices[1..], slices[0]);
    if numSlices == 1 {
      assert slices[1..] == [];
      assert arr[s..] == [];
    } else {
      SlicesFlatten(arr, numSlices, 1);
      assert slices[1..] == Slices(arr, numSlices, 1);
    }
  }

  /** One slice gives the array back; any number keeps the elements. */
  lemma RotateSlicesPermutes<T>(arr: seq<T>, numSlices: nat)
    requires numSlices >= 1
    ensures |RotateSlices(arr, numSlices)| == |arr|
    ensures multiset(RotateSlices(arr, numSlices)) == multiset(arr)
    ensures numSlices == 1 ==> RotateSlices(arr, numSlices) == arr
  {
    RotateSlicesRotates(arr, numSlices);
    var s := |arr| / numSlices;
    assert arr == arr[..s] + arr[s..];
  }

  // ------------------------------------------------------------ sequences

  function Reverse<T>(s: seq<T>): (r: seq<T>)
    ensures |r| == |s| && forall i | 0 <= i < |s| :: r[i] == s[|s| - 1 - i]
  {
    seq(|s|, i requires 0 <= i < |s| => s[|s| - 1 - i])
  }

  /** `map(p => p.toLowerCase())`. */
  function LowerAll(s: seq<char>): (r: seq<char>)
    ensures |r| == |s| && forall i | 0 <= i < |s| :: r[i] == ToLower(s[i])
  {
    seq(|s|, i requires 0 <= i < |s| => ToLower(s[i]))
  }

  /** `n` empty cells. */
  function Blanks(n: nat): (r: seq<char>)
    ensures |r| == n && forall i | 0 <= i < n :: r[i] == Empty
  {
    seq(n, i => Empty)
  }

  /** `while (pieces.length < n) pieces.push('')`. */
  function PadTo(s: seq<char>, n: int): seq<char> {
    if |s| >= n then s else s + Blanks(n - |s|)
  }

  /** `[pieces[i], pieces[j]] = [pieces[j], pieces[i]]`. */
  function Swap<T>(s: seq<T>, i: nat, j: nat): (r: seq<T>)
    requires i < |s| && j < |s|
  {
    s[i := s[j]][j := s[i]]
  }

  // ------------------------------------------------------------ random draws

  /** The generation modes; any other mode value keeps only the white list. */
  datatype Mode = RandomMode | Spin | Mirror | Puzzle | OtherMode

  /** The random draws of one generateRandomBoard call: `pick(k)` is the
      index of the k-th piece drawn for the white list, `puzzlePick(k)` and
      `coin(k)` (a draw above 0.4) those of the k-th puzzle extra, and
      `swap(i)` the index j <= i that cell i is exchanged with by the
      shuffle. */
  datatype Draws = Draws(pick: nat -> nat, puzzlePick: nat -> nat, coin: nat -> bool,
                         swap: nat -> nat)

  /** `Math.floor(Math.random() * (i + 1))` lies in 0..i. */
  ghost predicate SwapsOk(swap: nat -> nat) {
    forall i: nat :: swap(i) <= i
  }

  /** The first `n` picks index into `available`. */
  predicate PicksOk(available: seq<char>, pick: nat -> nat, n: int) {
    forall k: nat | k < n :: pick(k) < |available|
  }

  // ------------------------------------------------------------ piece lists

  /** The selected pieces other than kings, in order. */
  function Available(selection: seq<char>): (r: seq<char>)
    ensures forall c :: c in r <==> c in selection && c != 'k' && c != 'K'
  {
    if |selection| == 0 then []
    else
      (if selection[0] != 'k' && selection[0] != 'K' then [selection[0]] else []) +
      Available(selection[1..])
  }

  /** The number of squares the density is applied to: all of them, one
      fewer for an odd total in spin mode, the two full halves in mirror
      mode. */
  function MaxPieces(mode: Mode, rows: nat, cols: nat): int {
    var total := rows * cols;
    if mode == Mirror then (rows / 2) * cols * 2
    else if mode == Spin && total % 2 != 0 then total - 1
    else total
  }

  /** ⌊density · M / 2 − 1⌋ for the density num/den. */
  function PiecesPerSide(mode: Mode, rows: nat, cols: nat, num: int, den: int): (r: int)
    requires den > 0
    ensures 2 * den * (r + 1) <= num * MaxPieces(mode, rows, cols) < 2 * den * (r + 2)
  {
    (num * MaxPieces(mode, rows, cols) - 2 * den) / (2 * den)
  }

  /** The first `n` white-list picks, upper-cased. */
  function Picks(available: seq<char>, pick: nat -> nat, n: nat): (r: seq<char>)
    requires PicksOk(available, pick, n)
    ensures |r| == n
  {
    if n == 0 then [] else Picks(available, pick, n - 1) + [ToUpper(available[pick(n - 1)])]
  }

  /** The white list every mode starts from: the king, then
      `piecesPerSide` picks. */
  function WhiteList(available: seq<char>, pick: nat -> nat, perSide: int): seq<char>
    requires PicksOk(available, pick, perSide)
  {
    ['K'] + Picks(available, pick, if perSide > 0 then perSide else 0)
  }

  /** Fisher-Yates from cell `i` down to cell 1. */
  function Shuffle<T>(s: seq<T>, swap: nat -> nat, i: int): (r: seq<T>)
    requires i < |s| && SwapsOk(swap)
    decreases i
  {
    if i <= 0 then s else Shuffle(Swap(s, i, swap(i)), swap, i - 1)
  }

  // ------------------------------------------------------------ the modes

  /** Random mode: the white list, its lower-cased mirror image, blanks up
      to the board size, shuffled. */
  function RandomLayout(white: seq<char>, total: int, swap: nat -> nat): seq<char>
    requires SwapsOk(swap)
  {
    var s := PadTo(white + Reverse(LowerAll(white)), total);
    Shuffle(s, swap, |s| - 1)
  }

  /** Spin mode's padding: blanks until twice the list reaches total - 1. */
  function SpinPad(white: seq<char>, total: int): seq<char>
    decreases total - 2 * |white|
  {
    if 2 * |white| < total - 1 then SpinPad(white + [Empty], total) else white
  }

  /** Spin mode's layout before the shuffle: the padded list, a blank
      centre for an odd number of rows, and the lower-cased list reversed. */
  function SpinMirror(white: seq<char>, rows: nat): seq<char> {
    if rows % 2 != 0 then white + [Empty] + Reverse(LowerAll(white))
    else white + Reverse(LowerAll(white))
  }

  /** One round of spin mode's shuffle: swap cells i and j, then the cells
      as far from the end. */
  function SpinStep(s: seq<char>, i: nat, j: nat): seq<char>
    requires i < |s| && j < |s|
  {
    var l := |s| - 1;
    Swap(Swap(s, i, j), l - i, l - j)
  }

  /** Spin mode's shuffle from `i` down. On an odd number of rows an index
      equal to `mid` becomes 0, and since that is the loop's own counter,
      the loop ends after that round. */
  function SpinShuffle(s: seq<char>, swap: nat -> nat, odd: bool, mid: int, i: int): (r: seq<char>)
    requires i < |s| && SwapsOk(swap)
    decreases i
  {
    if i <= 0 then s
    else
      var j := swap(i);
      var i' := if odd && i == mid then 0 else i;
      var j' := if odd && j == mid then 0 else j;
      SpinShuffle(SpinStep(s, i', j'), swap, odd, mid, i' - 1)
  }

  function SpinLayout(white: seq<char>, rows: nat, cols: nat, swap: nat -> nat): seq<char>
    requires SwapsOk(swap)
  {
    var total := rows * cols;
    var s := SpinMirror(SpinPad(white, total), rows);
    SpinShuffle(s, swap, rows % 2 != 0, total / 2, |s| - 1)
  }

  /** Mirror mode's white half: padded or cut to exactly `half` cells. */
  function MirrorHalf(white: seq<char>, half: nat): (r: seq<char>)
    ensures |r| == half && (|white| >= half ==> r == white[..half])
    ensures |white| < half ==> r[..|white|] == white && forall i | |white| <= i < half :: r[i] == Empty
  {
    if |white| < half then PadTo(white, half) else white[..half]
  }

  /** Mirror mode: black is the shuffled white half lower-cased with its
      slices rotated, a blank row sits between on an odd number of rows. */
  function MirrorLayout(white: seq<char>, rows: nat, cols: nat, swap: nat -> nat): seq<char>
    requires rows >= 2 && SwapsOk(swap)
  {
    var half := (rows / 2) * cols;
    var h := MirrorHalf(white, half);
    var shuffled := Shuffle(h, swap, |h| - 1);
    RotateSlices(LowerAll(shuffled), rows / 2) + Blanks(rows % 2 * cols) + shuffled
  }

  /** How many extras puzzle mode draws: twice the pieces per side, or three
      when that is below three and only knights are selected. */
  function PuzzleCount(perSide: int, available: seq<char>): nat {
    if perSide * 2 < 3 && available == ['n'] then 3
    else if perSide > 0 then 2 * perSide
    else 0
  }

  /** The first `n` puzzle extras, each upper-cased on its coin. */
  function Extras(available: seq<char>, pick: nat -> nat, coin: nat -> bool, n: nat): (r: seq<char>)
    requires PicksOk(available, pick, n)
    ensures |r| == n
  {
    if n == 0 then []
    else
      var c := available[pick(n - 1)];
      Extras(available, pick, coin, n - 1) + [if coin(n - 1) then ToUpper(c) else c]
  }

  function PuzzleLayout(available: seq<char>, perSide: int, total: int, d: Draws): seq<char>
    requires SwapsOk(d.swap) && PicksOk(available, d.puzzlePick, PuzzleCount(perSide, available))
  {
    var s := PadTo(['K', 'k'] + Extras(available, d.puzzlePick, d.coin, PuzzleCount(perSide, available)),
                   total);
    Shuffle(s, d.swap, |s| - 1)
  }

  /** What a generateRandomBoard call needs of its arguments and draws:
      a positive density denominator, swap draws in range, picks into a
      non-empty list whenever a pick is made, and two rows at least in
      mirror mode. */
  ghost predicate DrawsFit(selection: seq<char>, rows: nat, cols: nat, num: int, den: int, mode: Mode,
                     d: Draws) {
    den > 0 && SwapsOk(d.swap) &&
    PicksOk(Available(selection), d.pick, PiecesPerSide(mode, rows, cols, num, den)) &&
    (mode == Puzzle ==> PicksOk(Available(selection), d.puzzlePick,
                                PuzzleCount(PiecesPerSide(mode, rows, cols, num, den),
                                            Available(selection)))) &&
    (mode == Mirror ==> rows >= 2)
  }

  /** The layout of the chosen mode, before orientation. */
  function Layout(selection: seq<char>, rows: nat, cols: nat, num: int, den: int, mode: Mode,
                  d: Draws): seq<char>
    requires DrawsFit(selection, rows, cols, num, den, mode, d)
  {
    var available := Available(selection);
    var perSide := PiecesPerSide(mode, rows, cols, num, den);
    var white := WhiteList(available, d.pick, perSide);
    match mode
    case RandomMode => RandomLayout(white, rows * cols, d.swap)
    case Spin => SpinLayout(white, rows, cols, d.swap)
    case Mirror => MirrorLayout(white, rows, cols, d.swap)
    case Puzzle => PuzzleLayout(available, perSide, rows * cols, d)
    case OtherMode => white
  }

  // ------------------------------------------------------------ normalisation

  /** `indexOf`: the first position of `c`, or -1. */
  function IndexOf(s: seq<char>, c: char): (r: int)
    ensures -1 <= r < |s|
    ensures r >= 0 ==> s[r] == c && c !in s[..r]
    ensures r == -1 <==> c !in s
  {
    if |s| == 0 then -1
    else if s[0] == c then 0
    else
      var k := IndexOf(s[1..], c);
      if k < 0 then -1
      else
        assert s[..k + 1] == [s[0]] + s[1..][..k];
        k + 1
  }

  /** The layout turned round when the black king comes after the white one. */
  function Oriented(s: seq<char>): (r: seq<char>)
    ensures |r| == |s|
  {
    if IndexOf(s, 'k') > IndexOf(s, 'K') then Reverse(s) else s
  }

  /** A white pawn in the first `cols` cells turns black, and a black pawn
      in the last `cols` cells turns white. */
  function FixPawns(s: seq<char>, cols: nat): (r: seq<char>)
    ensures |r| == |s|
  {
    seq(|s|, i requires 0 <= i < |s| =>
      if i < cols && s[i] == 'P' then 'p'
      else if i > |s| - 1 - cols && s[i] == 'p' then 'P'
      else s[i])
  }

  /** `slice(a, b)` with the bounds clamped to the sequence. */
  function Slice(s: seq<char>, a: nat, b: nat): seq<char> {
    var lo := if a < |s| then a else |s|;
    var hi := if b < |s| then b else |s|;
    if lo < hi then s[lo..hi] else []
  }

  /** Consecutive rows of `cols` cells. */
  function SplitRows(s: seq<char>, rows: nat, cols: nat): (g: Grid)
    ensures |g| == rows
  {
    seq(rows, y requires 0 <= y < rows => Slice(s, y * cols, (y + 1) * cols))
  }

  /** generateRandomBoard with its draws given. */
  function RandomBoard(selection: seq<char>, rows: nat, cols: nat, num: int, den: int, mode: Mode,
                       d: Draws): Grid
    requires DrawsFit(selection, rows, cols, num, den, mode, d)
  {
    SplitRows(FixPawns(Oriented(Layout(selection, rows, cols, num, den, mode, d)), cols), rows, cols)
  }
}
