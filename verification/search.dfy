/** The search of the engine as functions of a position: the move-ordering
    heuristic scoreMove, the capture-only quiescence search, alpha-beta
    minimax with its transposition table, iterative deepening at the root
    and the mate report of checkmateSearch. */
module Search {
  import opened Values
  import opened Pieces
  import opened Grids
  import opened Rules
  import opened Sorting
  import opened Legality
  import opened State

  /** The base of a checkmate score; minimax adds the remaining depth. */
  const MateScore: int := 1000000

  function SideOf(maximizing: bool): Color {
    if maximizing then White else Black
  }

  // ---------------------------------------------------------------- scoreMove

  /** +100 when the move leaves the opponent of the scored side in check. */
  function CheckBonus(p: Pos, m: Move, isWhite: bool): int {
    if InCheck(MakeMove(p, m).pos, if isWhite then Black else White) then 100 else 0
  }

  /** The promotion test of scoreMove: a pawn of either colour reaching the
      scored side's promotion row (row 0 for white, the last row for black). */
  predicate IsPromotion(g: Grid, m: Move, isWhite: bool) {
    ToLower(At(g, m.fromX, m.fromY)) == 'p' &&
    ((isWhite && m.toY == 0) || (!isWhite && m.toY == |g| - 1))
  }

  /** Ten times the victim's value less the attacker's, on a capture. */
  function CaptureGain(g: Grid, m: Move): int {
    var victim := At(g, m.toX, m.toY);
    if victim == Empty then 0
    else 10 * ValueOf(ToLower(victim)) - ValueOf(ToLower(At(g, m.fromX, m.fromY)))
  }

  /** scoreMove: the ordering heuristic of the search. */
  function MoveScore(p: Pos, m: Move, maximizing: bool): int {
    CheckBonus(p, m, maximizing) + (if IsPromotion(p.grid, m, maximizing) then 89 else 0) +
    CaptureGain(p.grid, m)
  }

  /** The score is made of its three parts and nothing else: a quiet move
      that neither checks nor promotes scores 0, and the score is never
      below -100 (a capture by a king of a worthless piece). */
  lemma MoveScoreRange(p: Pos, m: Move, maximizing: bool)
    ensures var r := MoveScore(p, m, maximizing);
      -100 <= r <= 100 + 89 + 1000 &&
      ((At(p.grid, m.toX, m.toY) == Empty && !IsPromotion(p.grid, m, maximizing) &&
        !InCheck(MakeMove(p, m).pos, Opponent(SideOf(maximizing)))) ==> r == 0)
  {
    var a := At(p.grid, m.fromX, m.fromY);
    var v := At(p.grid, m.toX, m.toY);
    assert ValueOf(ToLower(a)) <= 100 && ValueOf(ToLower(v)) <= 100;
  }

  /** Most valuable victim, least valuable attacker: when no king captures,
      taking the more valuable piece always scores the higher capture gain,
      whatever the attackers. */
  lemma MvvLva(g: Grid, m1: Move, m2: Move)
    requires At(g, m1.toX, m1.toY) != Empty && At(g, m2.toX, m2.toY) != Empty
    requires ValueOf(ToLower(At(g, m1.toX, m1.toY))) > ValueOf(ToLower(At(g, m2.toX, m2.toY)))
    requires ToLower(At(g, m1.fromX, m1.fromY)) != 'k' && ToLower(At(g, m2.fromX, m2.fromY)) != 'k'
    ensures CaptureGain(g, m1) > CaptureGain(g, m2)
  {
    var a1 := ToLower(At(g, m1.fromX, m1.fromY));
    var a2 := ToLower(At(g, m2.fromX, m2.fromY));
    assert ValueOf(a1) <= 9 && ValueOf(a2) >= 0;
  }

  /** minimax scores its moves without the `maximizing` argument, so as
      black: a white pawn stepping onto row 0 of a board of two or more rows
      gets no promotion bonus there, although it does when scored for white;
      the key minimax orders it by, for either side, is only its check
      bonus as black and its capture gain. */
  lemma PromotionScoredAsBlack(p: Pos, m: Move, maximizing: bool)
    requires At(p.grid, m.fromX, m.fromY) == 'P' && m.toY == 0 && |p.grid| > 1
    ensures !IsPromotion(p.grid, m, false) && IsPromotion(p.grid, m, true)
    ensures var k := CheckBonus(p, m, false) + CaptureGain(p.grid, m);
      MinimaxOrder(p, maximizing)(m) == (if maximizing then Fin(-k) else Fin(k))
  {
  }

  // ------------------------------------------------------ quiescenceSearch

  /** The capture filter of quiescenceSearch: the moves onto an occupied
      square, in their original order. */
  function Captures(g: Grid, ms: seq<Move>): (r: seq<Move>)
    ensures |r| <= |ms|
    ensures forall m :: m in r <==> m in ms && At(g, m.toX, m.toY) != Empty
  {
    if |ms| == 0 then []
    else
      var rest := Captures(g, ms[..|ms| - 1]);
      var m := ms[|ms| - 1];
      assert forall x :: x in ms <==> x in ms[..|ms| - 1] || x == m;
      if At(g, m.toX, m.toY) != Empty then rest + [m] else rest
  }

  /** The sort key of a descending `scoreMove` comparator. */
  function DescendingScore(p: Pos, maximizing: bool): Move -> ExtInt {
    m => Neg(Fin(MoveScore(p, m, maximizing)))
  }

  /** The captures of the side to move, best-scored first. */
  function QuiescenceMoves(p: Pos, maximizing: bool): seq<Move> {
    SortBy(Captures(p.grid, AllMoves(p, SideOf(maximizing), false)),
           DescendingScore(p, maximizing))
  }

  /** The quiescence search only ever plays legal captures of the side to
      move, and all of them. */
  lemma QuiescenceMovesLegal(p: Pos, maximizing: bool)
    ensures forall m :: m in QuiescenceMoves(p, maximizing) <==>
      m in AllMoves(p, SideOf(maximizing), false) && At(p.grid, m.toX, m.toY) != Empty
  {
    var caps := Captures(p.grid, AllMoves(p, SideOf(maximizing), false));
    SortByMembers(caps, DescendingScore(p, maximizing));
  }

  /** quiescenceSearch: a fail-hard alpha-beta search over captures only,
      standing pat on the material balance. */
  function Quiescence(p: Pos, maximizing: bool, alpha: ExtInt, beta: ExtInt, depth: int): ExtInt
    decreases if depth > 0 then depth else 0, 1, 0
  {
    var standPat := Fin(Material(p.grid));
    if depth <= 0 then standPat
    else if maximizing && LessEq(beta, standPat) then beta
    else if !maximizing && LessEq(standPat, alpha) then alpha
    else
      var alpha' := if maximizing && Less(alpha, standPat) then standPat else alpha;
      var beta' := if !maximizing && Less(standPat, beta) then standPat else beta;
      QuiescenceLoop(p, maximizing, alpha', beta', depth, QuiescenceMoves(p, maximizing), 0)
  }

  /** The loop of quiescenceSearch from the `i`-th capture on. */
  function QuiescenceLoop(p: Pos, maximizing: bool, alpha: ExtInt, beta: ExtInt, depth: int,
                          moves: seq<Move>, i: nat): ExtInt
    requires depth > 0 && i <= |moves|
    decreases depth, 0, |moves| - i
  {
    if i == |moves| then (if maximizing then alpha else beta)
    else
      var e := Quiescence(MakeMove(p, moves[i]).pos, !maximizing, alpha, beta, depth - 1);
      if maximizing then
        if LessEq(beta, e) then beta
        else QuiescenceLoop(p, maximizing, if Less(alpha, e) then e else alpha, beta, depth,
                            moves, i + 1)
      else
        if LessEq(e, alpha) then alpha
        else QuiescenceLoop(p, maximizing, alpha, if Less(e, beta) then e else beta, depth,
                            moves, i + 1)
  }

  /** Fail-hard: once the window is proper, the loop answers inside it. */
  lemma {:induction false} QuiescenceLoopWindow(p: Pos, maximizing: bool, alpha: ExtInt,
                                                beta: ExtInt, depth: int, moves: seq<Move>, i: nat)
    requires depth > 0 && i <= |moves| && LessEq(alpha, beta)
    ensures var r := QuiescenceLoop(p, maximizing, alpha, beta, depth, moves, i);
      LessEq(alpha, r) && LessEq(r, beta)
    decreases |moves| - i
  {
    if i < |moves| {
      var e := Quiescence(MakeMove(p, moves[i]).pos, !maximizing, alpha, beta, depth - 1);
      LessTotal(e, alpha);
      LessTotal(e, beta);
      if maximizing && !LessEq(beta, e) {
        var a := if Less(alpha, e) then e else alpha;
        QuiescenceLoopWindow(p, maximizing, a, beta, depth, moves, i + 1);
        LessTrans(alpha, a, QuiescenceLoop(p, maximizing, a, beta, depth, moves, i + 1));
      } else if !maximizing && !LessEq(e, alpha) {
        var b := if Less(e, beta) then e else beta;
        QuiescenceLoopWindow(p, maximizing, alpha, b, depth, moves, i + 1);
        LessTrans(QuiescenceLoop(p, maximizing, alpha, b, depth, moves, i + 1), b, beta);
      }
    }
  }

  /** quiescenceSearch with depth left never answers outside [alpha, beta];
      at depth 0 or below it is the material balance. */
  lemma QuiescenceWindow(p: Pos, maximizing: bool, alpha: ExtInt, beta: ExtInt, depth: int)
    requires LessEq(alpha, beta)
    ensures var r := Quiescence(p, maximizing, alpha, beta, depth);
      (depth > 0 ==> LessEq(alpha, r) && LessEq(r, beta)) &&
      (depth <= 0 ==> r == Fin(Material(p.grid)))
  {
    if depth > 0 {
      var standPat := Fin(Material(p.grid));
      LessTotal(standPat, alpha);
      LessTotal(standPat, beta);
      if maximizing && !LessEq(beta, standPat) {
        var a := if Less(alpha, standPat) then standPat else alpha;
        QuiescenceLoopWindow(p, maximizing, a, beta, depth, QuiescenceMoves(p, maximizing), 0);
        LessTrans(alpha, a, Quiescence(p, maximizing, alpha, beta, depth));
      } else if !maximizing && !LessEq(standPat, alpha) {
        var b := if Less(standPat, beta) then standPat else beta;
        QuiescenceLoopWindow(p, maximizing, alpha, b, depth, QuiescenceMoves(p, maximizing), 0);
        LessTrans(Quiescence(p, maximizing, alpha, beta, depth), b, beta);
      }
    }
  }

  /** A quiet position (no capture for the side to move) whose material lies
      strictly inside the window is worth its material. */
  lemma QuiescenceQuiet(p: Pos, maximizing: bool, alpha: ExtInt, beta: ExtInt, depth: int)
    requires depth > 0
    requires Captures(p.grid, AllMoves(p, SideOf(maximizing), false)) == []
    requires Less(alpha, Fin(Material(p.grid))) && Less(Fin(Material(p.grid)), beta)
    ensures Quiescence(p, maximizing, alpha, beta, depth) == Fin(Material(p.grid))
  {
    var standPat := Fin(Material(p.grid));
    LessTotal(standPat, alpha);
    LessTotal(standPat, beta);
    assert QuiescenceMoves(p, maximizing) == [];
  }

  // ------------------------------------------------------------------ minimax

  type Table = map<CacheKey, SearchResult>

  /** The transposition-table key of a node. */
  function KeyOf(z: Zobrist, p: Pos, depth: int, maximizing: bool, alpha: ExtInt, beta: ExtInt)
    : CacheKey
  {
    CacheKey(Hash(z, p.grid, SideOf(maximizing)), depth, Scale10(alpha), Scale10(beta))
  }

  /** The score of a side that has been mated with `depth` plies left:
      the deeper (the sooner) the mate, the larger its size. */
  function MatedScore(maximizing: bool, depth: int): int {
    if maximizing then -MateScore - depth else MateScore + depth
  }

  /** The sort key of minimax's comparator: scoreMove without `maximizing`,
      descending for the maximizing side and ascending for the other. */
  function MinimaxOrder(p: Pos, maximizing: bool): Move -> ExtInt {
    m => if maximizing then Neg(Fin(MoveScore(p, m, false))) else Fin(MoveScore(p, m, false))
  }

  function MinimaxMoves(p: Pos, maximizing: bool): seq<Move> {
    SortBy(AllMoves(p, SideOf(maximizing), false), MinimaxOrder(p, maximizing))
  }

  /** The worst score for the side, the starting value of `best`. */
  function WorstFor(maximizing: bool): ExtInt {
    if maximizing then NegInf else PosInf
  }

  /** `isBetter`: strictly better for the side. */
  predicate Better(maximizing: bool, e: ExtInt, best: ExtInt) {
    if maximizing then Less(best, e) else Less(e, best)
  }

  /** minimax: the result and the transposition table afterwards. A cached
      key answers at once; a mated side scores `MatedScore`, a stalemate 0;
      at depth 0 the quiescence search decides; otherwise the children are
      searched in move order and the result is stored under the key. */
  function Minimax(z: Zobrist, p: Pos, depth: nat, maximizing: bool, alpha: ExtInt, beta: ExtInt,
                   seqDepth: int, table: Table): (SearchResult, Table)
    decreases depth, 1, 0
  {
    var key := KeyOf(z, p, depth, maximizing, alpha, beta);
    if key in table then (table[key], table)
    else
      var status := GameStatus(p, SideOf(maximizing), true, []);
      if status == Checkmate then (SearchResult(Fin(MatedScore(maximizing, depth)), []), table)
      else if status == Draw then (SearchResult(Fin(0), []), table)
      else if depth == 0 then
        (SearchResult(Quiescence(p, maximizing, alpha, beta, seqDepth), []), table)
      else
        var (r, t) := MinimaxLoop(z, p, depth, maximizing, alpha, beta, seqDepth,
                                  MinimaxMoves(p, maximizing), 0,
                                  SearchResult(WorstFor(maximizing), []), table);
        (r, t[key := r])
  }

  /** The loop of minimax from the `i`-th move on, with the best result so
      far; stops after the first child at which `beta <= alpha`. */
  function MinimaxLoop(z: Zobrist, p: Pos, depth: nat, maximizing: bool, alpha: ExtInt,
                       beta: ExtInt, seqDepth: int, moves: seq<Move>, i: nat,
                       best: SearchResult, table: Table): (SearchResult, Table)
    requires depth > 0 && i <= |moves|
    decreases depth, 0, |moves| - i
  {
    if i == |moves| then (best, table)
    else
      var m := moves[i];
      var (child, t) := Minimax(z, MakeMove(p, m).pos, depth - 1, !maximizing, alpha, beta,
                                seqDepth, table);
      var e := child.score;
      var best' := if Better(maximizing, e, best.score) then SearchResult(e, [m] + child.sequence)
                   else best;
      var alpha' := if maximizing then Max(alpha, e) else alpha;
      var beta' := if maximizing then beta else Min(beta, e);
      if LessEq(beta', alpha') then (best', t)
      else MinimaxLoop(z, p, depth, maximizing, alpha', beta', seqDepth, moves, i + 1, best', t)
  }

  /** The table only grows: an entry, once stored, keeps its value. */
  predicate Extends(t: Table, t': Table) {
    forall k | k in t :: k in t' && t'[k] == t[k]
  }

  lemma ExtendsTrans(t1: Table, t2: Table, t3: Table)
    requires Extends(t1, t2) && Extends(t2, t3)
    ensures Extends(t1, t3)
  {
  }

  /** Every search leaves earlier table entries as they were; a cached node
      answers its entry and changes nothing, and whenever the node's key is
      in the table afterwards it holds the node's result. */
  lemma {:induction false} MinimaxTable(z: Zobrist, p: Pos, depth: nat, maximizing: bool,
                                        alpha: ExtInt, beta: ExtInt, seqDepth: int, table: Table)
    ensures var (r, t) := Minimax(z, p, depth, maximizing, alpha, beta, seqDepth, table);
      Extends(table, t) &&
      (KeyOf(z, p, depth, maximizing, alpha, beta) in table ==>
         r == table[KeyOf(z, p, depth, maximizing, alpha, beta)] && t == table) &&
      (KeyOf(z, p, depth, maximizing, alpha, beta) in t ==>
         t[KeyOf(z, p, depth, maximizing, alpha, beta)] == r)
    decreases depth, 1, 0
  {
    hide MinimaxLoop, GameStatus, Quiescence, Hash, MinimaxMoves, AllMoves, MakeMove;
    var key := KeyOf(z, p, depth, maximizing, alpha, beta);
    var status := GameStatus(p, SideOf(maximizing), true, []);
    if key !in table && status != Checkmate && status != Draw && depth > 0 {
      var moves := MinimaxMoves(p, maximizing);
      var best := SearchResult(WorstFor(maximizing), []);
      MinimaxLoopTable(z, p, depth, maximizing, alpha, beta, seqDepth, moves, 0, best, table);
    }
  }

  lemma {:induction false} MinimaxLoopTable(z: Zobrist, p: Pos, depth: nat, maximizing: bool,
                                            alpha: ExtInt, beta: ExtInt, seqDepth: int,
                                            moves: seq<Move>, i: nat, best: SearchResult,
                                            table: Table)
    requires depth > 0 && i <= |moves|
    ensures Extends(table, MinimaxLoop(z, p, depth, maximizing, alpha, beta, seqDepth, moves, i,
                                       best, table).1)
    decreases depth, 0, |moves| - i
  {
    hide Minimax, GameStatus, MakeMove, AllMoves, Hash, Quiescence, SortBy;
    if i < |moves| {
      var m := moves[i];
      var (child, t) := Minimax(z, MakeMove(p, m).pos, depth - 1, !maximizing, alpha, beta,
                                seqDepth, table);
      MinimaxTable(z, MakeMove(p, m).pos, depth - 1, !maximizing, alpha, beta, seqDepth, table);
      var e := child.score;
      var best' := if Better(maximizing, e, best.score) then SearchResult(e, [m] + child.sequence)
                   else best;
      var alpha' := if maximizing then Max(alpha, e) else alpha;
      var beta' := if maximizing then beta else Min(beta, e);
      if !LessEq(beta', alpha') {
        MinimaxLoopTable(z, p, depth, maximizing, alpha', beta', seqDepth, moves, i + 1, best', t);
        ExtendsTrans(table, t, MinimaxLoop(z, p, depth, maximizing, alpha', beta', seqDepth,
                                           moves, i + 1, best', t).1);
      }
    }
  }

  /** The loop keeps the best result: its score is at least as good for the
      side as the starting best, and either it is that starting best or its
      sequence opens with one of the remaining moves. */
  lemma {:induction false} MinimaxLoopBest(z: Zobrist, p: Pos, depth: nat, maximizing: bool,
                                           alpha: ExtInt, beta: ExtInt, seqDepth: int,
                                           moves: seq<Move>, i: nat, best: SearchResult,
                                           table: Table)
    requires depth > 0 && i <= |moves|
    ensures var r := MinimaxLoop(z, p, depth, maximizing, alpha, beta, seqDepth, moves, i,
                                 best, table).0;
      (if maximizing then LessEq(best.score, r.score) else LessEq(r.score, best.score)) &&
      (r == best || (|r.sequence| > 0 && r.sequence[0] in moves[i..]))
    decreases |moves| - i
  {
    hide Minimax, GameStatus, MakeMove, AllMoves, Hash, Quiescence, SortBy;
    if i < |moves| {
      var m := moves[i];
      var (child, t) := Minimax(z, MakeMove(p, m).pos, depth - 1, !maximizing, alpha, beta,
                                seqDepth, table);
      var e := child.score;
      var better := Better(maximizing, e, best.score);
      var best' := if better then SearchResult(e, [m] + child.sequence) else best;
      var alpha' := if maximizing then Max(alpha, e) else alpha;
      var beta' := if maximizing then beta else Min(beta, e);
      assert maximizing ==> LessEq(best.score, best'.score);
      assert !maximizing ==> LessEq(best'.score, best.score);
      if !LessEq(beta', alpha') {
        MinimaxLoopBest(z, p, depth, maximizing, alpha', beta', seqDepth, moves, i + 1, best', t);
        var r := MinimaxLoop(z, p, depth, maximizing, alpha', beta', seqDepth, moves, i + 1,
                             best', t).0;
        if maximizing {
          LessTrans(best.score, best'.score, r.score);
        } else {
          LessTrans(r.score, best'.score, best.score);
        }
        assert moves[i..] == [moves[i]] + moves[i + 1..];
        assert r == best' || r.sequence[0] in moves[i + 1..];
      } else {
        assert best' == best || best'.sequence[0] == moves[i];
      }
    }
  }

  /** Keeping the first strictly better score, starting from `start`, over
      the scores `s` gives `best` at index `j`: no score of `s` beats
      `best`; and either no score beats `start` and `best` is `start`
      (`j == -1`), or `best` is `s[j]`, it beats `start`, and no earlier
      score equals it. */
  predicate KeepsFirst(maximizing: bool, start: ExtInt, s: seq<ExtInt>, best: ExtInt, j: int) {
    -1 <= j < |s| &&
    (forall k | 0 <= k < |s| :: !Better(maximizing, s[k], best)) &&
    if j < 0 then best == start && forall k | 0 <= k < |s| :: !Better(maximizing, s[k], start)
    else best == s[j] && Better(maximizing, s[j], start) && forall k | 0 <= k < j :: s[k] != best
  }

  /** One more score in front: it becomes the kept one when it beats
      `start`, and the one kept after it stays kept when it beats that. */
  lemma KeepsFirstCons(maximizing: bool, start: ExtInt, e: ExtInt, s: seq<ExtInt>, best: ExtInt,
                       j: int)
    requires KeepsFirst(maximizing, if Better(maximizing, e, start) then e else start, s, best, j)
    ensures KeepsFirst(maximizing, start, [e] + s, best,
                       if j >= 0 then j + 1 else if Better(maximizing, e, start) then 0 else -1)
  {
    var start' := if Better(maximizing, e, start) then e else start;
    var s' := [e] + s;
    LessTotal(e, start);
    if j >= 0 {
      LessTotal(best, start');
      LessTotal(e, best);
      LessTotal(best, start);
      assert Better(maximizing, best, start);
      assert forall k | 0 <= k < j + 1 :: s'[k] != best by {
        assert s'[0] == e != best;
        assert forall k | 1 <= k < j + 1 :: s'[k] == s[k - 1];
      }
    }
    assert forall k | 1 <= k < |s'| :: s'[k] == s[k - 1];
  }

  /** One child examined by the loop of minimax: its move, the window and
      table it is searched with, and its result. */
  datatype Step = Step(move: Move, alpha: ExtInt, beta: ExtInt, table: Table, child: SearchResult)

  /** The window after a child's score: the maximizing side raises alpha,
      the other lowers beta. */
  function NextAlpha(maximizing: bool, alpha: ExtInt, e: ExtInt): ExtInt {
    if maximizing then Max(alpha, e) else alpha
  }

  function NextBeta(maximizing: bool, beta: ExtInt, e: ExtInt): ExtInt {
    if maximizing then beta else Min(beta, e)
  }

  /** The child closes the window: `beta <= alpha` once its score is in. */
  predicate Closes(maximizing: bool, st: Step) {
    LessEq(NextBeta(maximizing, st.beta, st.child.score),
           NextAlpha(maximizing, st.alpha, st.child.score))
  }

  /** The children the loop of minimax examines from the `i`-th move on,
      each in the window and the table the earlier ones left, up to and
      including the first that closes the window. */
  function Steps(z: Zobrist, p: Pos, depth: nat, maximizing: bool, alpha: ExtInt, beta: ExtInt,
                 seqDepth: int, moves: seq<Move>, i: nat, table: Table): seq<Step>
    requires depth > 0 && i <= |moves|
    decreases |moves| - i
  {
    if i == |moves| then []
    else
      var m := moves[i];
      var (child, t) := Minimax(z, MakeMove(p, m).pos, depth - 1, !maximizing, alpha, beta,
                                seqDepth, table);
      var st := Step(m, alpha, beta, table, child);
      if Closes(maximizing, st) then [st]
      else [st] + Steps(z, p, depth, maximizing, NextAlpha(maximizing, alpha, child.score),
                        NextBeta(maximizing, beta, child.score), seqDepth, moves, i + 1, t)
  }

  /** The children's scores, in order. */
  function Scores(s: seq<Step>): (r: seq<ExtInt>)
    ensures |r| == |s| && forall k | 0 <= k < |s| :: r[k] == s[k].child.score
  {
    if |s| == 0 then [] else [s[0].child.score] + Scores(s[1..])
  }

  /** The examined children are the moves in order, from the `i`-th on,
      the first in the caller's window and table, and each is the search
      of its move in its window and table. */
  lemma {:induction false} StepsSearched(z: Zobrist, p: Pos, depth: nat, maximizing: bool,
                                         alpha: ExtInt, beta: ExtInt, seqDepth: int,
                                         moves: seq<Move>, i: nat, table: Table)
    requires depth > 0 && i <= |moves|
    ensures var s := Steps(z, p, depth, maximizing, alpha, beta, seqDepth, moves, i, table);
      |s| <= |moves| - i &&
      (i < |moves| ==> |s| > 0 && s[0].alpha == alpha && s[0].beta == beta && s[0].table == table) &&
      (forall k | 0 <= k < |s| ::
         s[k].move == moves[i + k] &&
         s[k].child == Minimax(z, MakeMove(p, s[k].move).pos, depth - 1, !maximizing, s[k].alpha,
                               s[k].beta, seqDepth, s[k].table).0)
    decreases |moves| - i
  {
    hide Steps, Minimax, GameStatus, MakeMove, AllMoves, Hash, Quiescence, SortBy;
    if i < |moves| {
      var m := moves[i];
      var (child, t) := Minimax(z, MakeMove(p, m).pos, depth - 1, !maximizing, alpha, beta,
                                seqDepth, table);
      var st := Step(m, alpha, beta, table, child);
      var a' := NextAlpha(maximizing, alpha, child.score);
      var b' := NextBeta(maximizing, beta, child.score);
      StepsUnfold(z, p, depth, maximizing, alpha, beta, seqDepth, moves, i, table);
      if !Closes(maximizing, st) {
        StepsSearched(z, p, depth, maximizing, a', b', seqDepth, moves, i + 1, t);
        var rest := Steps(z, p, depth, maximizing, a', b', seqDepth, moves, i + 1, t);
        var s := [st] + rest;
        forall k | 0 <= k < |s|
          ensures s[k].move == moves[i + k] &&
                  s[k].child == Minimax(z, MakeMove(p, s[k].move).pos, depth - 1, !maximizing,
                                        s[k].alpha, s[k].beta, seqDepth, s[k].table).0
        {
          if k > 0 {
            assert s[k] == rest[k - 1];
          }
        }
      }
    } else {
      StepsEnd(z, p, depth, maximizing, alpha, beta, seqDepth, moves, i, table);
    }
  }

  /** Each examined child after the first is searched in the window and
      table the one before it left, which did not close the window; the
      loop stops before the last move only on a child that closes it. */
  lemma {:induction false} StepsWindow(z: Zobrist, p: Pos, depth: nat, maximizing: bool,
                                       alpha: ExtInt, beta: ExtInt, seqDepth: int,
                                       moves: seq<Move>, i: nat, table: Table)
    requires depth > 0 && i <= |moves|
    ensures var s := Steps(z, p, depth, maximizing, alpha, beta, seqDepth, moves, i, table);
      (forall k | 0 <= k < |s| - 1 ::
         !Closes(maximizing, s[k]) &&
         s[k + 1].alpha == NextAlpha(maximizing, s[k].alpha, s[k].child.score) &&
         s[k + 1].beta == NextBeta(maximizing, s[k].beta, s[k].child.score) &&
         s[k + 1].table == Minimax(z, MakeMove(p, s[k].move).pos, depth - 1, !maximizing,
                                   s[k].alpha, s[k].beta, seqDepth, s[k].table).1) &&
      (i < |moves| && |s| < |moves| - i ==> |s| > 0 && Closes(maximizing, s[|s| - 1]))
    decreases |moves| - i
  {
    hide Steps, Minimax, GameStatus, MakeMove, AllMoves, Hash, Quiescence, SortBy;
    if i < |moves| {
      var m := moves[i];
      var (child, t) := Minimax(z, MakeMove(p, m).pos, depth - 1, !maximizing, alpha, beta,
                                seqDepth, table);
      var st := Step(m, alpha, beta, table, child);
      var a' := NextAlpha(maximizing, alpha, child.score);
      var b' := NextBeta(maximizing, beta, child.score);
      StepsUnfold(z, p, depth, maximizing, alpha, beta, seqDepth, moves, i, table);
      if !Closes(maximizing, st) {
        StepsWindow(z, p, depth, maximizing, a', b', seqDepth, moves, i + 1, t);
        StepsSearched(z, p, depth, maximizing, a', b', seqDepth, moves, i + 1, t);
        var rest := Steps(z, p, depth, maximizing, a', b', seqDepth, moves, i + 1, t);
        var s := [st] + rest;
        forall k | 0 <= k < |s| - 1
          ensures !Closes(maximizing, s[k]) &&
                  s[k + 1].alpha == NextAlpha(maximizing, s[k].alpha, s[k].child.score) &&
                  s[k + 1].beta == NextBeta(maximizing, s[k].beta, s[k].child.score) &&
                  s[k + 1].table == Minimax(z, MakeMove(p, s[k].move).pos, depth - 1, !maximizing,
                                            s[k].alpha, s[k].beta, seqDepth, s[k].table).1
        {
          assert s[k + 1] == rest[k];
          if k > 0 {
            assert s[k] == rest[k - 1];
          }
        }
        if |s| < |moves| - i {
          assert s[|s| - 1] == rest[|rest| - 1];
        }
      }
    } else {
      StepsEnd(z, p, depth, maximizing, alpha, beta, seqDepth, moves, i, table);
    }
  }

  lemma StepsEnd(z: Zobrist, p: Pos, depth: nat, maximizing: bool, alpha: ExtInt,
                 beta: ExtInt, seqDepth: int, moves: seq<Move>, i: nat, table: Table)
    requires depth > 0 && i == |moves|
    ensures Steps(z, p, depth, maximizing, alpha, beta, seqDepth, moves, i, table) == []
  {
  }

  lemma StepsUnfold(z: Zobrist, p: Pos, depth: nat, maximizing: bool, alpha: ExtInt,
                    beta: ExtInt, seqDepth: int, moves: seq<Move>, i: nat, table: Table)
    requires depth > 0 && i < |moves|
    ensures var (child, t) := Minimax(z, MakeMove(p, moves[i]).pos, depth - 1, !maximizing,
                                      alpha, beta, seqDepth, table);
      var st := Step(moves[i], alpha, beta, table, child);
      Steps(z, p, depth, maximizing, alpha, beta, seqDepth, moves, i, table) ==
      if Closes(maximizing, st) then [st]
      else [st] + Steps(z, p, depth, maximizing, NextAlpha(maximizing, alpha, child.score),
                        NextBeta(maximizing, beta, child.score), seqDepth, moves, i + 1, t)
  {
    hide Minimax, GameStatus, MakeMove, AllMoves, Hash, Quiescence, SortBy;
  }

  /** The loop of minimax keeps the first strictly better child: over the
      examined children's scores, its result scores what keeping the first
      strictly better one over `best` gives; it is `best` itself when no
      child beats it, and otherwise the kept child's move in front of that
      child's line. */
  lemma {:induction false} MinimaxLoopChoice(z: Zobrist, p: Pos, depth: nat, maximizing: bool,
                                             alpha: ExtInt, beta: ExtInt, seqDepth: int,
                                             moves: seq<Move>, i: nat, best: SearchResult,
                                             table: Table)
    requires depth > 0 && i <= |moves|
    ensures LoopChoice(maximizing, best,
                       Steps(z, p, depth, maximizing, alpha, beta, seqDepth, moves, i, table),
                       MinimaxLoop(z, p, depth, maximizing, alpha, beta, seqDepth, moves, i,
                                   best, table).0)
    decreases |moves| - i
  {
    hide Minimax, GameStatus, MakeMove, AllMoves, Hash, Quiescence, SortBy, LoopChoice;
    var s := Steps(z, p, depth, maximizing, alpha, beta, seqDepth, moves, i, table);
    var r := MinimaxLoop(z, p, depth, maximizing, alpha, beta, seqDepth, moves, i, best, table).0;
    if i == |moves| {
      LoopChoiceNil(maximizing, best);
    } else {
      var m := moves[i];
      var (child, t) := Minimax(z, MakeMove(p, m).pos, depth - 1, !maximizing, alpha, beta,
                                seqDepth, table);
      var e := child.score;
      var st := Step(m, alpha, beta, table, child);
      var best' := if Better(maximizing, e, best.score) then SearchResult(e, [m] + child.sequence)
                   else best;
      var a' := NextAlpha(maximizing, alpha, e);
      var b' := NextBeta(maximizing, beta, e);
      if Closes(maximizing, st) {
        assert r == best' && s == [st] + [];
        LoopChoiceNil(maximizing, best');
        LoopChoiceCons(maximizing, best, st, [], r);
      } else {
        var rest := Steps(z, p, depth, maximizing, a', b', seqDepth, moves, i + 1, t);
        assert r == MinimaxLoop(z, p, depth, maximizing, a', b', seqDepth, moves, i + 1, best', t).0;
        assert s == [st] + rest;
        MinimaxLoopChoice(z, p, depth, maximizing, a', b', seqDepth, moves, i + 1, best', t);
        LoopChoiceCons(maximizing, best, st, rest, r);
      }
    }
  }

  lemma LoopChoiceNil(maximizing: bool, best: SearchResult)
    ensures LoopChoice(maximizing, best, [], best)
  {
    assert KeepsFirst(maximizing, best.score, Scores([]), best.score, -1);
  }

  /** One more child in front of the loop: its result is kept when it beats
      `best`, and the one kept over the rest stays kept. */
  lemma LoopChoiceCons(maximizing: bool, best: SearchResult, st: Step, rest: seq<Step>,
                       r: SearchResult)
    requires LoopChoice(maximizing,
                        if Better(maximizing, st.child.score, best.score)
                        then SearchResult(st.child.score, [st.move] + st.child.sequence) else best,
                        rest, r)
    ensures LoopChoice(maximizing, best, [st] + rest, r)
  {
    var e := st.child.score;
    var better := Better(maximizing, e, best.score);
    var best' := if better then SearchResult(e, [st.move] + st.child.sequence) else best;
    var j' :| KeepsFirst(maximizing, best'.score, Scores(rest), r.score, j') &&
              (j' < 0 ==> r == best') &&
              (0 <= j' < |rest| ==> r.sequence == [rest[j'].move] + rest[j'].child.sequence);
    var s := [st] + rest;
    assert s[1..] == rest;
    assert Scores(s) == [e] + Scores(rest);
    KeepsFirstCons(maximizing, best.score, e, Scores(rest), r.score, j');
    var j := if j' >= 0 then j' + 1 else if better then 0 else -1;
    assert j >= 1 ==> s[j] == rest[j - 1];
    assert KeepsFirst(maximizing, best.score, Scores(s), r.score, j) &&
           (j < 0 ==> r == best) &&
           (0 <= j < |s| ==> r.sequence == [s[j].move] + s[j].child.sequence);
  }

  /** `r` is what keeping the first strictly better child over `best` gives
      for the examined children `s`. */
  ghost predicate LoopChoice(maximizing: bool, best: SearchResult, s: seq<Step>, r: SearchResult) {
    exists j :: KeepsFirst(maximizing, best.score, Scores(s), r.score, j) &&
      (j < 0 ==> r == best) &&
      (0 <= j < |s| ==> r.sequence == [s[j].move] + s[j].child.sequence)
  }

  /** What minimax answers when nothing is cached: a mated side gets its
      mate score, a stalemate 0, a search at depth 0 the quiescence value
      with an empty line; a deeper search answers, unless no child improved
      on the worst score, a line that starts with one of the side's moves,
      and it keeps the first strictly better child over the worst score
      among the children examined in move order (`MinimaxLoopChoice`). */
  lemma MinimaxResult(z: Zobrist, p: Pos, depth: nat, maximizing: bool, alpha: ExtInt,
                      beta: ExtInt, seqDepth: int, table: Table)
    requires KeyOf(z, p, depth, maximizing, alpha, beta) !in table
    ensures var r := Minimax(z, p, depth, maximizing, alpha, beta, seqDepth, table).0;
      var color := SideOf(maximizing);
      (!HasLegal(p, color) && InCheck(p, color) ==>
         r == SearchResult(Fin(MatedScore(maximizing, depth)), [])) &&
      (!HasLegal(p, color) && !InCheck(p, color) ==> r == SearchResult(Fin(0), [])) &&
      (HasLegal(p, color) && depth == 0 ==>
         r == SearchResult(Quiescence(p, maximizing, alpha, beta, seqDepth), [])) &&
      (HasLegal(p, color) && depth > 0 ==>
         (r == SearchResult(WorstFor(maximizing), []) ||
          (|r.sequence| > 0 && r.sequence[0] in AllMoves(p, color, false))) &&
         LoopChoice(maximizing, SearchResult(WorstFor(maximizing), []),
                    Steps(z, p, depth, maximizing, alpha, beta, seqDepth,
                          MinimaxMoves(p, maximizing), 0, table), r))
  {
    var color := SideOf(maximizing);
    GameStatusMeaning(p, color, true, []);
    if HasLegal(p, color) && depth > 0 {
      var moves := MinimaxMoves(p, maximizing);
      var best := SearchResult(WorstFor(maximizing), []);
      MinimaxLoopBest(z, p, depth, maximizing, alpha, beta, seqDepth, moves, 0, best, table);
      MinimaxLoopChoice(z, p, depth, maximizing, alpha, beta, seqDepth, moves, 0, best, table);
      SortByMembers(AllMoves(p, color, false), MinimaxOrder(p, maximizing));
      assert moves[0..] == moves;
    }
  }

  /** The mate score of a side mated deeper in the tree is larger in size. */
  lemma MatedScoreOrder(maximizing: bool, d1: int, d2: int)
    requires d1 < d2
    ensures maximizing ==> MatedScore(maximizing, d2) < MatedScore(maximizing, d1) <= -MateScore - d1
    ensures !maximizing ==> MateScore + d1 <= MatedScore(maximizing, d1) < MatedScore(maximizing, d2)
  {
  }

  // -------------------------------------------------------- iterativeMinimax

  /** What iterativeMinimax returns (the search tree is not modelled):
      `bestScore` is `None` while no depth has been searched. */
  datatype IterResult = IterResult(bestMove: Option<Move>, bestScore: Option<ExtInt>, resultDepth: int)

  /** The previous depth's scores, keyed by move; a missing one counts 0. */
  function PreviousScore(scores: map<Move, ExtInt>, m: Move): ExtInt {
    if m in scores then scores[m] else Fin(0)
  }

  /** The reordering before each depth after the first: by the previous
      depth's scores, best first for the side. */
  function RootOrder(scores: map<Move, ExtInt>, isMaximizing: bool): Move -> ExtInt {
    m => if isMaximizing then Neg(PreviousScore(scores, m)) else PreviousScore(scores, m)
  }

  /** One root depth: the state after the loop over the root moves. */
  datatype Root = Root(bestMove: Option<Move>, bestScore: ExtInt, scores: map<Move, ExtInt>,
                       table: Table)

  /** The loop over the root moves from the `i`-th on: each is searched to
      `depth - 1` with the caller's window, its score recorded, and the
      strictly better one kept. */
  function RootLoop(z: Zobrist, p: Pos, depth: nat, isMaximizing: bool, alpha: ExtInt,
                    beta: ExtInt, seqDepth: int, moves: seq<Move>, i: nat, acc: Root): Root
    requires depth >= 1 && i <= |moves|
    decreases |moves| - i
  {
    if i == |moves| then acc
    else
      var m := moves[i];
      var (r, t) := Minimax(z, MakeMove(p, m).pos, depth - 1, !isMaximizing, alpha, beta,
                            seqDepth, acc.table);
      var acc' := if Better(isMaximizing, r.score, acc.bestScore)
                  then Root(Some(m), r.score, acc.scores[m := r.score], t)
                  else Root(acc.bestMove, acc.bestScore, acc.scores[m := r.score], t);
      RootLoop(z, p, depth, isMaximizing, alpha, beta, seqDepth, moves, i + 1, acc')
  }

  /** The whole search of one depth, on an emptied table. */
  function SearchDepth(z: Zobrist, p: Pos, depth: nat, isMaximizing: bool, alpha: ExtInt,
                       beta: ExtInt, seqDepth: int, moves: seq<Move>): Root
    requires depth >= 1
  {
    RootLoop(z, p, depth, isMaximizing, alpha, beta, seqDepth, moves, 0,
             Root(None, WorstFor(isMaximizing), map[], map[]))
  }

  /** The deepening loop from `depth` on; `timeUp(d)` tells whether the
      time budget is used up once depth `d` is done. The last table is
      returned with the outcome. */
  function Deepen(z: Zobrist, p: Pos, depth: nat, maxDepth: int, isMaximizing: bool,
                  alpha: ExtInt, beta: ExtInt, seqDepth: int, timeUp: nat -> bool,
                  moves: seq<Move>, scores: map<Move, ExtInt>, last: IterResult, table: Table)
    : (IterResult, Table)
    requires depth >= 1
    decreases maxDepth - depth
  {
    if depth > maxDepth then (last, table)
    else
      var ordered := if depth > 1 then SortBy(moves, RootOrder(scores, isMaximizing)) else moves;
      var root := SearchDepth(z, p, depth, isMaximizing, alpha, beta, seqDepth, ordered);
      var out := IterResult(root.bestMove, Some(root.bestScore), depth);
      if AbsAtLeast(root.bestScore, MateScore) || timeUp(depth) then (out, root.table)
      else Deepen(z, p, depth + 1, maxDepth, isMaximizing, alpha, beta, seqDepth, timeUp,
                  ordered, root.scores, out, root.table)
  }

  /** The root moves in their first order: scoreMove with `isMaximizing`,
      best first. */
  function RootMoves(p: Pos, isMaximizing: bool): seq<Move> {
    SortBy(AllMoves(p, SideOf(isMaximizing), false), DescendingScore(p, isMaximizing))
  }

  /** iterativeMinimax: `None` (null) when the side has no legal move;
      otherwise the outcome of the last depth searched and the table it
      left. `iterativeDepth` is the value `state.iterativeDepth` had before,
      which is what the source reports when `maxDepth` is below 1. */
  function Iterative(z: Zobrist, p: Pos, maxDepth: int, isMaximizing: bool, seqDepth: int,
                     alpha: ExtInt, beta: ExtInt, timeUp: nat -> bool, iterativeDepth: int,
                     table: Table): (Option<IterResult>, Table)
  {
    var moves := RootMoves(p, isMaximizing);
    if |AllMoves(p, SideOf(isMaximizing), false)| == 0 then (None, table)
    else
      var (out, t) := Deepen(z, p, 1, maxDepth, isMaximizing, alpha, beta, seqDepth, timeUp,
                             moves, map[], IterResult(None, None, iterativeDepth), table);
      (Some(out), t)
  }

  /** The root loop keeps a strictly better move: the best score is at
      least as good as the starting one, and the best move is the starting
      one or one of the remaining moves, which all get a score. */
  lemma {:induction false} RootLoopBest(z: Zobrist, p: Pos, depth: nat, isMaximizing: bool,
                                        alpha: ExtInt, beta: ExtInt, seqDepth: int,
                                        moves: seq<Move>, i: nat, acc: Root)
    requires depth >= 1 && i <= |moves|
    ensures var r := RootLoop(z, p, depth, isMaximizing, alpha, beta, seqDepth, moves, i, acc);
      (if isMaximizing then LessEq(acc.bestScore, r.bestScore)
       else LessEq(r.bestScore, acc.bestScore)) &&
      (r.bestMove == acc.bestMove || (r.bestMove.Some? && r.bestMove.value in moves[i..])) &&
      (forall m | m in moves[i..] :: m in r.scores) &&
      (forall m | m in acc.scores :: m in r.scores)
    decreases |moves| - i
  {
    hide Minimax, GameStatus, MakeMove, AllMoves, Hash, Quiescence, SortBy;
    if i < |moves| {
      var m := moves[i];
      var (r, t) := Minimax(z, MakeMove(p, m).pos, depth - 1, !isMaximizing, alpha, beta,
                            seqDepth, acc.table);
      var acc' := if Better(isMaximizing, r.score, acc.bestScore)
                  then Root(Some(m), r.score, acc.scores[m := r.score], t)
                  else Root(acc.bestMove, acc.bestScore, acc.scores[m := r.score], t);
      RootLoopBest(z, p, depth, isMaximizing, alpha, beta, seqDepth, moves, i + 1, acc');
      var res := RootLoop(z, p, depth, isMaximizing, alpha, beta, seqDepth, moves, i + 1, acc');
      assert isMaximizing ==> LessEq(acc.bestScore, acc'.bestScore);
      assert !isMaximizing ==> LessEq(acc'.bestScore, acc.bestScore);
      if isMaximizing {
        LessTrans(acc.bestScore, acc'.bestScore, res.bestScore);
      } else {
        LessTrans(res.bestScore, acc'.bestScore, acc.bestScore);
      }
      assert moves[i..] == [moves[i]] + moves[i + 1..];
    }
  }

  /** The score each root move gets from the `i`-th on, each searched in
      the caller's window and in the table the moves before it left. */
  function RootScores(z: Zobrist, p: Pos, depth: nat, isMaximizing: bool, alpha: ExtInt,
                      beta: ExtInt, seqDepth: int, moves: seq<Move>, i: nat, table: Table)
    : (s: seq<ExtInt>)
    requires depth >= 1 && i <= |moves|
    ensures |s| == |moves| - i
    decreases |moves| - i
  {
    if i == |moves| then []
    else
      var (r, t) := Minimax(z, MakeMove(p, moves[i]).pos, depth - 1, !isMaximizing, alpha, beta,
                            seqDepth, table);
      [r.score] + RootScores(z, p, depth, isMaximizing, alpha, beta, seqDepth, moves, i + 1, t)
  }

  /** Over the root moves `moves` and their scores `s`, keeping the first
      strictly better one from `start`, `startMove` gives `bestScore` and
      `bestMove`: the start when no move beats it, otherwise the first
      move to reach the best score. */
  ghost predicate RootChoice(isMaximizing: bool, start: ExtInt, startMove: Option<Move>,
                             moves: seq<Move>, s: seq<ExtInt>, bestMove: Option<Move>,
                             bestScore: ExtInt)
  {
    exists j :: KeepsFirst(isMaximizing, start, s, bestScore, j) &&
      (j < 0 ==> bestMove == startMove) &&
      (0 <= j < |moves| ==> bestMove == Some(moves[j]))
  }

  /** The root loop keeps the first move with a strictly better score:
      over the scores the remaining moves get, its best score and move are
      what keeping the first strictly better one from the starting pair
      gives. */
  lemma {:induction false} RootLoopChoice(z: Zobrist, p: Pos, depth: nat, isMaximizing: bool,
                                          alpha: ExtInt, beta: ExtInt, seqDepth: int,
                                          moves: seq<Move>, i: nat, acc: Root)
    requires depth >= 1 && i <= |moves|
    ensures var r := RootLoop(z, p, depth, isMaximizing, alpha, beta, seqDepth, moves, i, acc);
      RootChoice(isMaximizing, acc.bestScore, acc.bestMove, moves[i..],
                 RootScores(z, p, depth, isMaximizing, alpha, beta, seqDepth, moves, i, acc.table),
                 r.bestMove, r.bestScore)
    decreases |moves| - i
  {
    hide Minimax, GameStatus, MakeMove, AllMoves, Hash, Quiescence, SortBy, RootChoice;
    var r := RootLoop(z, p, depth, isMaximizing, alpha, beta, seqDepth, moves, i, acc);
    if i == |moves| {
      assert moves[i..] == [];
      RootChoiceNil(isMaximizing, acc.bestScore, acc.bestMove);
    } else {
      var m := moves[i];
      var (c, t) := Minimax(z, MakeMove(p, m).pos, depth - 1, !isMaximizing, alpha, beta,
                            seqDepth, acc.table);
      var acc' := if Better(isMaximizing, c.score, acc.bestScore)
                  then Root(Some(m), c.score, acc.scores[m := c.score], t)
                  else Root(acc.bestMove, acc.bestScore, acc.scores[m := c.score], t);
      var rest := RootScores(z, p, depth, isMaximizing, alpha, beta, seqDepth, moves, i + 1, t);
      assert r == RootLoop(z, p, depth, isMaximizing, alpha, beta, seqDepth, moves, i + 1, acc');
      RootLoopChoice(z, p, depth, isMaximizing, alpha, beta, seqDepth, moves, i + 1, acc');
      assert moves[i..] == [m] + moves[i + 1..];
      RootChoiceCons(isMaximizing, acc.bestScore, acc.bestMove, m, c.score, moves[i + 1..], rest,
                     r.bestMove, r.bestScore);
    }
  }

  /** The root loop records a score for every remaining move: the one the
      move got, when it does not come again later. */
  lemma {:induction false} RootLoopScores(z: Zobrist, p: Pos, depth: nat, isMaximizing: bool,
                                          alpha: ExtInt, beta: ExtInt, seqDepth: int,
                                          moves: seq<Move>, i: nat, acc: Root)
    requires depth >= 1 && i <= |moves|
    ensures var r := RootLoop(z, p, depth, isMaximizing, alpha, beta, seqDepth, moves, i, acc);
      var s := RootScores(z, p, depth, isMaximizing, alpha, beta, seqDepth, moves, i, acc.table);
      forall k | i <= k < |moves| ::
        moves[k] in r.scores && (moves[k] !in moves[k + 1..] ==> r.scores[moves[k]] == s[k - i])
    decreases |moves| - i
  {
    hide Minimax, GameStatus, MakeMove, AllMoves, Hash, Quiescence, SortBy, RootLoop;
    if i < |moves| {
      var s := RootScores(z, p, depth, isMaximizing, alpha, beta, seqDepth, moves, i, acc.table);
      var m := moves[i];
      var (c, t) := Minimax(z, MakeMove(p, m).pos, depth - 1, !isMaximizing, alpha, beta,
                            seqDepth, acc.table);
      var acc' := RootStep(isMaximizing, acc, m, c.score, t);
      RootLoopUnfold(z, p, depth, isMaximizing, alpha, beta, seqDepth, moves, i, acc);
      var rest := RootScores(z, p, depth, isMaximizing, alpha, beta, seqDepth, moves, i + 1, t);
      assert s == [c.score] + rest;
      var r := RootLoop(z, p, depth, isMaximizing, alpha, beta, seqDepth, moves, i + 1, acc');
      RootLoopScores(z, p, depth, isMaximizing, alpha, beta, seqDepth, moves, i + 1, acc');
      RootLoopKeeps(z, p, depth, isMaximizing, alpha, beta, seqDepth, moves, i + 1, acc');
      forall k | i <= k < |moves|
        ensures moves[k] in r.scores &&
                (moves[k] !in moves[k + 1..] ==> r.scores[moves[k]] == s[k - i])
      {
        if k == i {
          assert m in acc'.scores && acc'.scores[m] == s[0];
        } else {
          assert s[k - i] == rest[k - (i + 1)];
        }
      }
    }
  }

  /** A recorded score of a move that does not come again stays. */
  lemma {:induction false} RootLoopKeeps(z: Zobrist, p: Pos, depth: nat, isMaximizing: bool,
                                         alpha: ExtInt, beta: ExtInt, seqDepth: int,
                                         moves: seq<Move>, i: nat, acc: Root)
    requires depth >= 1 && i <= |moves|
    ensures var r := RootLoop(z, p, depth, isMaximizing, alpha, beta, seqDepth, moves, i, acc);
      forall m | m in acc.scores && m !in moves[i..] :: m in r.scores && r.scores[m] == acc.scores[m]
    decreases |moves| - i
  {
    hide Minimax, GameStatus, MakeMove, AllMoves, Hash, Quiescence, SortBy, RootLoop;
    if i == |moves| {
      RootLoopEnd(z, p, depth, isMaximizing, alpha, beta, seqDepth, moves, i, acc);
    } else {
      var m := moves[i];
      var (c, t) := Minimax(z, MakeMove(p, m).pos, depth - 1, !isMaximizing, alpha, beta,
                            seqDepth, acc.table);
      var acc' := RootStep(isMaximizing, acc, m, c.score, t);
      assert acc'.scores == acc.scores[m := c.score];
      RootLoopUnfold(z, p, depth, isMaximizing, alpha, beta, seqDepth, moves, i, acc);
      var r := RootLoop(z, p, depth, isMaximizing, alpha, beta, seqDepth, moves, i + 1, acc');
      RootLoopKeeps(z, p, depth, isMaximizing, alpha, beta, seqDepth, moves, i + 1, acc');
      assert moves[i..] == [m] + moves[i + 1..];
      forall x | x in acc.scores && x !in moves[i..]
        ensures x in r.scores && r.scores[x] == acc.scores[x]
      {
        assert x != m && x !in moves[i + 1..];
      }
    }
  }

  /** The root loop's state after one move scored `e`, leaving table `t`. */
  function RootStep(isMaximizing: bool, acc: Root, m: Move, e: ExtInt, t: Table): Root {
    if Better(isMaximizing, e, acc.bestScore) then Root(Some(m), e, acc.scores[m := e], t)
    else Root(acc.bestMove, acc.bestScore, acc.scores[m := e], t)
  }

  lemma RootLoopEnd(z: Zobrist, p: Pos, depth: nat, isMaximizing: bool, alpha: ExtInt,
                    beta: ExtInt, seqDepth: int, moves: seq<Move>, i: nat, acc: Root)
    requires depth >= 1 && i == |moves|
    ensures RootLoop(z, p, depth, isMaximizing, alpha, beta, seqDepth, moves, i, acc) == acc
  {
  }

  lemma RootLoopUnfold(z: Zobrist, p: Pos, depth: nat, isMaximizing: bool, alpha: ExtInt,
                       beta: ExtInt, seqDepth: int, moves: seq<Move>, i: nat, acc: Root)
    requires depth >= 1 && i < |moves|
    ensures var (c, t) := Minimax(z, MakeMove(p, moves[i]).pos, depth - 1, !isMaximizing, alpha,
                                  beta, seqDepth, acc.table);
      RootLoop(z, p, depth, isMaximizing, alpha, beta, seqDepth, moves, i, acc) ==
      RootLoop(z, p, depth, isMaximizing, alpha, beta, seqDepth, moves, i + 1,
               RootStep(isMaximizing, acc, moves[i], c.score, t))
  {
    hide Minimax, GameStatus, MakeMove, AllMoves, Hash, Quiescence, SortBy;
  }

  lemma RootChoiceNil(isMaximizing: bool, start: ExtInt, startMove: Option<Move>)
    ensures RootChoice(isMaximizing, start, startMove, [], [], startMove, start)
  {
    assert KeepsFirst(isMaximizing, start, [], start, -1);
  }

  /** One more root move in front: it is kept when its score beats the
      start, and the one kept over the rest stays kept. */
  lemma RootChoiceCons(isMaximizing: bool, start: ExtInt, startMove: Option<Move>, m: Move,
                       e: ExtInt, moves: seq<Move>, s: seq<ExtInt>, bestMove: Option<Move>,
                       bestScore: ExtInt)
    requires |moves| == |s|
    requires RootChoice(isMaximizing, if Better(isMaximizing, e, start) then e else start,
                        if Better(isMaximizing, e, start) then Some(m) else startMove,
                        moves, s, bestMove, bestScore)
    ensures RootChoice(isMaximizing, start, startMove, [m] + moves, [e] + s, bestMove, bestScore)
  {
    var better := Better(isMaximizing, e, start);
    var start' := if better then e else start;
    var move' := if better then Some(m) else startMove;
    assert RootChoice(isMaximizing, start', move', moves, s, bestMove, bestScore);
    var j' :| KeepsFirst(isMaximizing, start', s, bestScore, j') &&
              (j' < 0 ==> bestMove == move') &&
              (0 <= j' < |moves| ==> bestMove == Some(moves[j']));
    KeepsFirstCons(isMaximizing, start, e, s, bestScore, j');
    var j := if j' >= 0 then j' + 1 else if better then 0 else -1;
    assert j >= 1 ==> ([m] + moves)[j] == moves[j - 1];
    assert KeepsFirst(isMaximizing, start, [e] + s, bestScore, j) &&
           (j < 0 ==> bestMove == startMove) &&
           (0 <= j < |[m] + moves| ==> bestMove == Some(([m] + moves)[j]));
  }

  /** The outcome of one depth `depth` of the root search: in some order
      of the moves `all`, searched on an emptied table, the best move and
      score are the first strictly better ones over the worst score. */
  ghost predicate DepthChoice(z: Zobrist, p: Pos, depth: int, isMaximizing: bool, alpha: ExtInt,
                              beta: ExtInt, seqDepth: int, all: seq<Move>,
                              bestMove: Option<Move>, bestScore: ExtInt)
  {
    depth >= 1 &&
    exists ordered: seq<Move> ::
      (forall m :: m in ordered <==> m in all) &&
      RootChoice(isMaximizing, WorstFor(isMaximizing), None, ordered,
                 RootScores(z, p, depth, isMaximizing, alpha, beta, seqDepth, ordered, 0, map[]),
                 bestMove, bestScore)
  }

  /** iterativeMinimax answers null exactly when the side has no legal
      move; otherwise, for `maxDepth >= 1`, it reports a depth between 1
      and `maxDepth`, a score, and a best move that is one of the side's
      legal moves unless no root move beat the worst score; the move and
      score are those the last depth searched kept (`DepthChoice`). */
  lemma IterativeOutcome(z: Zobrist, p: Pos, maxDepth: int, isMaximizing: bool, seqDepth: int,
                         alpha: ExtInt, beta: ExtInt, timeUp: nat -> bool, iterativeDepth: int,
                         table: Table)
    ensures var (r, _) := Iterative(z, p, maxDepth, isMaximizing, seqDepth, alpha, beta, timeUp,
                                    iterativeDepth, table);
      (r.None? <==> !HasLegal(p, SideOf(isMaximizing))) &&
      (r.Some? && maxDepth >= 1 ==>
         1 <= r.value.resultDepth <= maxDepth && r.value.bestScore.Some? &&
         (r.value.bestMove.None? ||
          r.value.bestMove.value in AllMoves(p, SideOf(isMaximizing), false)) &&
         DepthChoice(z, p, r.value.resultDepth, isMaximizing, alpha, beta, seqDepth,
                     AllMoves(p, SideOf(isMaximizing), false), r.value.bestMove,
                     r.value.bestScore.value))
  {
    var all := AllMoves(p, SideOf(isMaximizing), false);
    if |all| > 0 && maxDepth >= 1 {
      var moves := RootMoves(p, isMaximizing);
      SortByMembers(all, DescendingScore(p, isMaximizing));
      DeepenOutcome(z, p, 1, maxDepth, isMaximizing, alpha, beta, seqDepth, timeUp, moves, map[],
                    IterResult(None, None, iterativeDepth), table, all);
    }
  }

  lemma {:induction false} DeepenOutcome(z: Zobrist, p: Pos, depth: nat, maxDepth: int,
                                         isMaximizing: bool, alpha: ExtInt, beta: ExtInt,
                                         seqDepth: int, timeUp: nat -> bool, moves: seq<Move>,
                                         scores: map<Move, ExtInt>, last: IterResult, table: Table,
                                         all: seq<Move>)
    requires 1 <= depth <= maxDepth
    requires forall m :: m in moves <==> m in all
    ensures var (r, _) := Deepen(z, p, depth, maxDepth, isMaximizing, alpha, beta, seqDepth,
                                 timeUp, moves, scores, last, table);
      depth <= r.resultDepth <= maxDepth && r.bestScore.Some? &&
      (r.bestMove.None? || r.bestMove.value in all) &&
      DepthChoice(z, p, r.resultDepth, isMaximizing, alpha, beta, seqDepth, all, r.bestMove,
                  r.bestScore.value)
    decreases maxDepth - depth
  {
    hide RootLoop, Minimax, GameStatus, MakeMove, AllMoves, Hash, Quiescence, SortBy;
    var ordered := if depth > 1 then SortBy(moves, RootOrder(scores, isMaximizing)) else moves;
    SortByMembers(moves, RootOrder(scores, isMaximizing));
    assert forall m :: m in ordered <==> m in all;
    var root := SearchDepth(z, p, depth, isMaximizing, alpha, beta, seqDepth, ordered);
    SearchDepthChoice(z, p, depth, isMaximizing, alpha, beta, seqDepth, ordered, all);
    hide SearchDepth, DepthChoice;
    var out := IterResult(root.bestMove, Some(root.bestScore), depth);
    if !(AbsAtLeast(root.bestScore, MateScore) || timeUp(depth)) && depth + 1 <= maxDepth {
      DeepenOutcome(z, p, depth + 1, maxDepth, isMaximizing, alpha, beta, seqDepth, timeUp,
                    ordered, root.scores, out, root.table, all);
    }
  }

  /** One depth of the root search over an order of the moves `all`: its
      best move is one of them or none, and it is the first strictly best. */
  lemma SearchDepthChoice(z: Zobrist, p: Pos, depth: nat, isMaximizing: bool, alpha: ExtInt,
                          beta: ExtInt, seqDepth: int, ordered: seq<Move>, all: seq<Move>)
    requires depth >= 1
    requires forall m :: m in ordered <==> m in all
    ensures var root := SearchDepth(z, p, depth, isMaximizing, alpha, beta, seqDepth, ordered);
      (root.bestMove.None? || root.bestMove.value in all) &&
      DepthChoice(z, p, depth, isMaximizing, alpha, beta, seqDepth, all, root.bestMove,
                  root.bestScore)
  {
    hide RootLoop, Minimax, GameStatus, MakeMove, AllMoves, Hash, Quiescence, SortBy;
    RootLoopBest(z, p, depth, isMaximizing, alpha, beta, seqDepth, ordered, 0,
                 Root(None, WorstFor(isMaximizing), map[], map[]));
    RootLoopChoice(z, p, depth, isMaximizing, alpha, beta, seqDepth, ordered, 0,
                   Root(None, WorstFor(isMaximizing), map[], map[]));
    assert ordered[0..] == ordered;
  }

  /** The deepening stops early only on a mate score or when the time is
      up: a search that reports a depth below `maxDepth` found a score of
      size at least `MateScore` there or ran out of time after it. */
  lemma {:induction false} DeepenStops(z: Zobrist, p: Pos, depth: nat, maxDepth: int,
                                       isMaximizing: bool, alpha: ExtInt, beta: ExtInt,
                                       seqDepth: int, timeUp: nat -> bool, moves: seq<Move>,
                                       scores: map<Move, ExtInt>, last: IterResult, table: Table)
    requires 1 <= depth <= maxDepth
    ensures var (r, _) := Deepen(z, p, depth, maxDepth, isMaximizing, alpha, beta, seqDepth,
                                 timeUp, moves, scores, last, table);
      depth <= r.resultDepth <= maxDepth &&
      (r.resultDepth < maxDepth ==>
         r.bestScore.Some? && (AbsAtLeast(r.bestScore.value, MateScore) || timeUp(r.resultDepth)))
    decreases maxDepth - depth
  {
    hide SearchDepth, RootLoop, Minimax, GameStatus, MakeMove, AllMoves, Hash, Quiescence, SortBy;
    var ordered := if depth > 1 then SortBy(moves, RootOrder(scores, isMaximizing)) else moves;
    var root := SearchDepth(z, p, depth, isMaximizing, alpha, beta, seqDepth, ordered);
    var out := IterResult(root.bestMove, Some(root.bestScore), depth);
    if !(AbsAtLeast(root.bestScore, MateScore) || timeUp(depth)) && depth + 1 <= maxDepth {
      DeepenStops(z, p, depth + 1, maxDepth, isMaximizing, alpha, beta, seqDepth, timeUp,
                  ordered, root.scores, out, root.table);
    }
  }

  // ---------------------------------------------------------- checkmateSearch

  /** `{ isMate, movesUntilMate }` of checkmateSearch (the tree and the
      score it adds on a mate are not modelled). */
  datatype MateReport = MateReport(isMate: bool, movesUntilMate: ExtInt)

  /** The aspiration window of checkmateSearch: only scores beyond 10000 in
      the side's favour matter. */
  function MateWindow(isWhite: bool): (ExtInt, ExtInt) {
    if isWhite then (Fin(10000), PosInf) else (NegInf, Fin(-10000))
  }

  /** The "no mate" test of checkmateSearch. */
  predicate NoMate(isWhite: bool, bestScore: ExtInt) {
    (Less(Fin(-100000), bestScore) && !isWhite) || (Less(bestScore, Fin(100000)) && isWhite)
  }

  /** `resultDepth - (bestScore - 1000000)`, as written. */
  function MovesUntilMateAsWritten(resultDepth: int, bestScore: ExtInt): ExtInt {
    SubFrom(resultDepth + MateScore, bestScore)
  }

  /** The size of a score. */
  function AbsScore(a: ExtInt): ExtInt {
    match a
    case Fin(x) => Fin(if x < 0 then -x else x)
    case _ => PosInf
  }

  /** The count of plies to the mate, for either side: the distance between
      the mate score and `MateScore + resultDepth`. */
  function MovesUntilMate(resultDepth: int, bestScore: ExtInt): ExtInt {
    SubFrom(resultDepth + MateScore, AbsScore(bestScore))
  }

  /** A mate found `k` plies below the root of a depth-`d` search scores
      `MatedScore` with `d - k` plies left; the count is `k` for both
      sides. */
  lemma MovesUntilMateCounts(d: int, k: int, isWhite: bool)
    requires 0 <= k <= d
    ensures MovesUntilMate(d, Fin(MatedScore(!isWhite, d - k))) == Fin(k)
  {
  }

  /** As written, the count is right for white but, for black, whose mate
      scores are negative, it is two million too large: a black mate one ply
      deep in a depth-1 search is reported as 2000001 moves away. */
  lemma MovesUntilMateForBlack()
    ensures MovesUntilMateAsWritten(1, Fin(MatedScore(true, 0))) == Fin(2000001)
    ensures MovesUntilMate(1, Fin(MatedScore(true, 0))) == Fin(1)
  {
  }

  /** For white the two counts agree. */
  lemma MovesUntilMateWhite(resultDepth: int, bestScore: int)
    requires bestScore >= 0
    ensures MovesUntilMate(resultDepth, Fin(bestScore)) ==
            MovesUntilMateAsWritten(resultDepth, Fin(bestScore))
  {
  }

  /** The report from the outcome of the iterative search. */
  function Report(isWhite: bool, out: IterResult): MateReport
    requires out.bestScore.Some?
  {
    if NoMate(isWhite, out.bestScore.value) then MateReport(false, Fin(100))
    else MateReport(true, MovesUntilMate(out.resultDepth, out.bestScore.value))
  }

  /** checkmateSearch for the side `isWhite` on `p`: `None` where the
      source fails because the side has no move at all. */
  function CheckmateSearch(z: Zobrist, p: Pos, isWhite: bool, depth: int, timeUp: nat -> bool,
                           iterativeDepth: int, table: Table): (Option<MateReport>, Table)
    requires depth >= 1
  {
    var (alpha, beta) := MateWindow(isWhite);
    var (r, t) := Iterative(z, p, depth, isWhite, 0, alpha, beta, timeUp, iterativeDepth, table);
    if r.None? then (None, t)
    else
      IterativeOutcome(z, p, depth, isWhite, 0, alpha, beta, timeUp, iterativeDepth, table);
      (Some(Report(isWhite, r.value)), t)
  }

  /** A mate is reported exactly when the best score is at least 100000 in
      the side's favour, and its count is then the distance to the mate
      score; otherwise the count is the default 100. The count as written
      is the same for white and, for black, larger by twice the score's
      size. */
  lemma ReportMeaning(isWhite: bool, out: IterResult)
    requires out.bestScore.Some?
    ensures var r := Report(isWhite, out);
      var s := out.bestScore.value;
      (r.isMate <==> (if isWhite then LessEq(Fin(100000), s) else LessEq(s, Fin(-100000)))) &&
      (!r.isMate ==> r.movesUntilMate == Fin(100)) &&
      (r.isMate && s.Fin? ==>
         r.movesUntilMate == Fin(out.resultDepth + MateScore - (if isWhite then s.n else -s.n)) &&
         MovesUntilMateAsWritten(out.resultDepth, s) ==
           Fin(r.movesUntilMate.n + (if isWhite then 0 else -2 * s.n)))
  {
    LessTotal(Fin(100000), out.bestScore.value);
    LessTotal(Fin(-100000), out.bestScore.value);
  }
}
