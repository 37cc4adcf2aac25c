/** generateRandomBoard and generateRandomValidBoard: the push loops, the
    in-place shuffles and the retry loop, each proved to build the layout
    the value model describes. */
module Generator {
  import opened Values
  import opened Pieces
  import opened Grids
  import opened Rules
  import opened Legality
  import opened Layouts
  import Search

  /** The white list: the king, then one upper-cased pick per piece. */
  method WhitePieces(available: seq<char>, pick: nat -> nat, perSide: int) returns (pieces: seq<char>)
    requires PicksOk(available, pick, perSide)
    ensures pieces == WhiteList(available, pick, perSide)
  {
    pieces := ['K'];
    var i := 0;
    while i < perSide
      invariant 0 <= i && (perSide > 0 ==> i <= perSide) && (perSide <= 0 ==> i == 0)
      invariant pieces == ['K'] + Picks(available, pick, i)
    {
      pieces := pieces + [ToUpper(available[pick(i)])];
      i := i + 1;
    }
  }

  /** Pushes empty cells until there are `n`. */
  method PadCells(pieces: seq<char>, n: int) returns (r: seq<char>)
    ensures r == PadTo(pieces, n)
  {
    r := pieces;
    while |r| < n
      invariant |r| >= |pieces| && r == pieces + Blanks(|r| - |pieces|)
      invariant |pieces| < n ==> |r| <= n
      invariant |pieces| >= n ==> r == pieces
      decreases n - |r|
    {
      r := r + [Empty];
    }
  }

  /** The Fisher-Yates loop, exchanging cells of the array in place. */
  method FisherYates(a: array<char>, swap: nat -> nat)
    requires SwapsOk(swap)
    modifies a
    ensures a[..] == Shuffle(old(a[..]), swap, a.Length - 1)
  {
    ghost var target := Shuffle(a[..], swap, a.Length - 1);
    var i := a.Length - 1;
    while i > 0
      invariant -1 <= i < a.Length
      invariant Shuffle(a[..], swap, i) == target
      decreases i
    {
      var j := swap(i);
      SwapCells(a, i, j);
      i := i - 1;
    }
  }

  /** A shuffled copy of `s`, built in an array. */
  method ShuffleCells(s: seq<char>, swap: nat -> nat) returns (r: seq<char>)
    requires SwapsOk(swap)
    ensures r == Shuffle(s, swap, |s| - 1)
  {
    var a := new char[|s|](i requires 0 <= i < |s| => s[i]);
    assert a[..] == s;
    FisherYates(a, swap);
    r := a[..];
  }

  /** Random mode. */
  method RandomPieces(white: seq<char>, total: int, swap: nat -> nat) returns (r: seq<char>)
    requires SwapsOk(swap)
    ensures r == RandomLayout(white, total, swap)
  {
    var pieces := white + Reverse(LowerAll(white));
    pieces := PadCells(pieces, total);
    r := ShuffleCells(pieces, swap);
  }

  /** Exchanges cells i and j of the array. */
  method SwapCells(a: array<char>, i: nat, j: nat)
    requires i < a.Length && j < a.Length
    modifies a
    ensures a[..] == Swap(old(a[..]), i, j)
  {
    var t := a[i];
    a[i] := a[j];
    a[j] := t;
  }

  /** Spin mode's shuffle on the array: each round exchanges a pair and the
      pair as far from the end; on an odd number of rows an index at the
      centre is replaced by 0, the loop counter included. */
  method SpinShuffleCells(a: array<char>, swap: nat -> nat, odd: bool, mid: int)
    requires SwapsOk(swap)
    modifies a
    ensures a[..] == SpinShuffle(old(a[..]), swap, odd, mid, a.Length - 1)
  {
    hide SpinShuffle;
    ghost var target := SpinShuffle(a[..], swap, odd, mid, a.Length - 1);
    var l := a.Length - 1;
    var i := a.Length - 1;
    while i > 0
      invariant -1 <= i < a.Length
      invariant SpinShuffle(a[..], swap, odd, mid, i) == target
      decreases i
    {
      var j := swap(i);
      ghost var i0, before := i, a[..];
      if odd {
        i := if i == mid then 0 else i;
        j := if j == mid then 0 else j;
      }
      SpinShuffleStep(before, swap, odd, mid, i0);
      SwapCells(a, i, j);
      SwapCells(a, l - i, l - j);
      i := i - 1;
    }
    SpinShuffleDone(a[..], swap, odd, mid, i);
  }

  lemma SpinShuffleDone(s: seq<char>, swap: nat -> nat, odd: bool, mid: int, i: int)
    requires i <= 0 && i < |s| && SwapsOk(swap)
    ensures SpinShuffle(s, swap, odd, mid, i) == s
  {
  }

  /** One round of the spin shuffle, unfolded. */
  lemma SpinShuffleStep(s: seq<char>, swap: nat -> nat, odd: bool, mid: int, i: nat)
    requires 0 < i < |s| && SwapsOk(swap)
    ensures var j := swap(i);
      var i' := if odd && i == mid then 0 else i;
      var j' := if odd && j == mid then 0 else j;
      j < |s| &&
      SpinShuffle(s, swap, odd, mid, i) == SpinShuffle(
        Swap(Swap(s, i', j'), |s| - 1 - i', |s| - 1 - j'), swap, odd, mid, i' - 1)
  {
  }

  /** Spin mode. */
  method SpinPieces(white: seq<char>, rows: nat, cols: nat, swap: nat -> nat) returns (r: seq<char>)
    requires SwapsOk(swap)
    ensures r == SpinLayout(white, rows, cols, swap)
  {
    var total := rows * cols;
    var pieces := white;
    while |pieces| * 2 < total - 1
      invariant SpinPad(pieces, total) == SpinPad(white, total)
      decreases total - 2 * |pieces|
    {
      pieces := pieces + [Empty];
    }
    if rows % 2 != 0 {
      pieces := pieces + [Empty] + Reverse(LowerAll(pieces));
    } else {
      pieces := pieces + Reverse(LowerAll(pieces));
    }
    var a := new char[|pieces|](i requires 0 <= i < |pieces| => pieces[i]);
    assert a[..] == pieces;
    SpinShuffleCells(a, swap, rows % 2 != 0, total / 2);
    r := a[..];
  }

  /** Mirror mode. */
  method MirrorPieces(white: seq<char>, rows: nat, cols: nat, swap: nat -> nat) returns (r: seq<char>)
    requires rows >= 2 && SwapsOk(swap)
    ensures r == MirrorLayout(white, rows, cols, swap)
  {
    var half := (rows / 2) * cols;
    var pieces := PadCells(white, half);
    if |pieces| > half {
      pieces := pieces[..half];
    }
    assert pieces == MirrorHalf(white, half);
    pieces := ShuffleCells(pieces, swap);
    var whiteSpace := Blanks(rows % 2 * cols);
    var blackPieces := LowerAll(pieces);
    blackPieces := RotateSlices(blackPieces, rows / 2);
    r := blackPieces + whiteSpace + pieces;
  }

  /** Puzzle mode: both kings, then the extras, blanks, shuffled. */
  method PuzzlePieces(available: seq<char>, perSide: int, total: int, d: Draws) returns (r: seq<char>)
    requires SwapsOk(d.swap) && PicksOk(available, d.puzzlePick, PuzzleCount(perSide, available))
    ensures r == PuzzleLayout(available, perSide, total, d)
  {
    var count := perSide * 2;
    if perSide * 2 < 3 && |available| == 1 && available[0] == 'n' {
      count := 3;
    }
    assert count <= 0 || count == PuzzleCount(perSide, available);
    var pieces := ['K', 'k'];
    var i := 0;
    while i < count
      invariant 0 <= i && (count > 0 ==> i <= count) && (count <= 0 ==> i == 0)
      invariant pieces == ['K', 'k'] + Extras(available, d.puzzlePick, d.coin, i)
    {
      var c := available[d.puzzlePick(i)];
      if d.coin(i) {
        c := ToUpper(c);
      }
      pieces := pieces + [c];
      i := i + 1;
    }
    pieces := PadCells(pieces, total);
    r := ShuffleCells(pieces, d.swap);
  }

  /** The final loop: `slice` by `slice`, one row of `cols` cells each. */
  method SplitIntoRows(pieces: seq<char>, rows: nat, cols: nat) returns (board: Grid)
    ensures board == SplitRows(pieces, rows, cols)
  {
    board := [];
    var y := 0;
    while y < rows
      invariant 0 <= y <= rows && |board| == y
      invariant forall k | 0 <= k < y :: board[k] == Slice(pieces, k * cols, (k + 1) * cols)
    {
      board := board + [Slice(pieces, y * cols, (y + 1) * cols)];
      y := y + 1;
    }
  }

  /** generateRandomBoard with its random draws given: the white list, the
      mode's layout, the turn when the black king comes later, the pawn
      normalisation and the rows. */
  method GenerateRandomBoard(selection: seq<char>, rows: nat, cols: nat, num: int, den: int,
                             mode: Mode, d: Draws) returns (board: Grid)
    requires DrawsFit(selection, rows, cols, num, den, mode, d)
    ensures board == RandomBoard(selection, rows, cols, num, den, mode, d)
  {
    var total := rows * cols;
    var available := Available(selection);
    var totalMaxPieces := total;
    if mode == Spin && totalMaxPieces % 2 != 0 {
      totalMaxPieces := totalMaxPieces - 1;
    }
    if mode == Mirror {
      totalMaxPieces := (rows / 2) * cols * 2;
    }
    var perSide := (num * totalMaxPieces - 2 * den) / (2 * den);
    assert perSide == PiecesPerSide(mode, rows, cols, num, den);
    var pieces := WhitePieces(available, d.pick, perSide);
    match mode {
      case RandomMode =>
        pieces := RandomPieces(pieces, total, d.swap);
      case Spin =>
        pieces := SpinPieces(pieces, rows, cols, d.swap);
      case Mirror =>
        pieces := MirrorPieces(pieces, rows, cols, d.swap);
      case Puzzle =>
        pieces := PuzzlePieces(available, perSide, total, d);
      case OtherMode =>
    }
    assert pieces == Layout(selection, rows, cols, num, den, mode, d);
    if IndexOf(pieces, 'k') > IndexOf(pieces, 'K') {
      pieces := Reverse(pieces);
    }
    pieces := FixPawns(pieces, cols);
    board := SplitIntoRows(pieces, rows, cols);
  }

  // ------------------------------------------------------------ generateRandomValidBoard

  /** The tries generateRandomValidBoard makes: at least one. */
  function Tries(maxSimulations: int): nat {
    if maxSimulations > 1 then maxSimulations else 1
  }

  /** checkmateSearch for white to depth 5 finds a mate at least five moves
      away. */
  predicate PuzzleFound(z: Zobrist, p: Pos, timeUp: nat -> bool, iterativeDepth: int) {
    var (report, _) := Search.CheckmateSearch(z, p, true, 5, timeUp, iterativeDepth, map[]);
    report.Some? && report.value.isMate && LessEq(Fin(5), report.value.movesUntilMate)
  }

  /** A candidate generateRandomValidBoard keeps: white has a legal move,
      neither king is in check, and in puzzle mode a mate is found. */
  predicate Acceptable(g: Grid, mode: Mode, ep: Option<Square>, moved: seq<Square>, z: Zobrist,
                       timeUp: nat -> bool, iterativeDepth: int) {
    var p := Pos(g, ep, moved);
    HasLegal(p, White) && !InCheck(p, Black) && !InCheck(p, White) &&
    (mode == Puzzle ==> PuzzleFound(z, p, timeUp, iterativeDepth))
  }

  /** generateRandomValidBoard over the stream of candidate boards: the
      first acceptable one among the first max(1, maxSimulations), or none.
      The en-passant target and moved pawns are the state the checks read;
      `timeUp(k)` is the clock of the k-th try. */
  method GenerateRandomValidBoard(candidates: nat -> Grid, mode: Mode, maxSimulations: int,
                                  ep: Option<Square>, moved: seq<Square>, z: Zobrist,
                                  timeUp: nat -> nat -> bool, iterativeDepth: int)
    returns (r: Option<Grid>)
    ensures r.Some? ==> exists k: nat | k < Tries(maxSimulations) ::
      r.value == candidates(k) &&
      Acceptable(candidates(k), mode, ep, moved, z, timeUp(k), iterativeDepth) &&
      forall k': nat | k' < k :: !Acceptable(candidates(k'), mode, ep, moved, z, timeUp(k'), iterativeDepth)
    ensures r.None? ==> forall k: nat | k < Tries(maxSimulations) ::
      !Acceptable(candidates(k), mode, ep, moved, z, timeUp(k), iterativeDepth)
  {
    hide HasLegal, InCheck, Search.CheckmateSearch;
    var sim: nat := 0;
    var limit := if maxSimulations > 1 then maxSimulations else 1;
    while sim < limit
      invariant sim <= limit
      invariant forall k: nat | k < sim ::
        !Acceptable(candidates(k), mode, ep, moved, z, timeUp(k), iterativeDepth)
    {
      var k := sim;
      var candidate := candidates(k);
      sim := sim + 1;
      var p := Pos(candidate, ep, moved);
      if !HasLegal(p, White) {
        continue;
      }
      if !InCheck(p, Black) && !InCheck(p, White) {
        if mode != Puzzle {
          return Some(candidate);
        } else {
          var (report, _) := Search.CheckmateSearch(z, p, true, 5, timeUp(k), iterativeDepth, map[]);
          if report.Some? && report.value.isMate && LessEq(Fin(5), report.value.movesUntilMate) {
            return Some(candidate);
          }
        }
      }
    }
    return None;
  }
}
