/** Small value types shared by the whole model: an optional value and the
    search scores, which are integers extended with the two infinities the
    search uses as initial bounds. */
module Values {

  datatype Option<+T> = None | Some(value: T) {
    function GetOr(default: T): T {
      match this
      case Some(v) => v
      case None => default
    }
  }

  /** A search score: an integer, or one of the two infinities used as
      initial window bounds and initial "best" values. */
  datatype ExtInt = NegInf | Fin(n: int) | PosInf

  /** Strict order `a < b` on extended integers. */
  predicate Less(a: ExtInt, b: ExtInt) {
    match (a, b)
    case (NegInf, NegInf) => false
    case (NegInf, _) => true
    case (Fin(x), Fin(y)) => x < y
    case (Fin(_), PosInf) => true
    case (_, _) => false
  }

  predicate LessEq(a: ExtInt, b: ExtInt) {
    a == b || Less(a, b)
  }

  function Max(a: ExtInt, b: ExtInt): (r: ExtInt)
    ensures LessEq(a, r) && LessEq(b, r)
    ensures r == a || r == b
  {
    if Less(a, b) then b else a
  }

  function Min(a: ExtInt, b: ExtInt): (r: ExtInt)
    ensures LessEq(r, a) && LessEq(r, b)
    ensures r == a || r == b
  {
    if Less(b, a) then b else a
  }

  /** `Math.floor(v * 10)`: exact on integers, and the infinities stay put. */
  function Scale10(a: ExtInt): (r: ExtInt)
    ensures a.Fin? <==> r.Fin?
    ensures a.Fin? ==> r.n == 10 * a.n
  {
    match a
    case Fin(x) => Fin(10 * x)
    case _ => a
  }

  /** `Math.abs(v) >= k`. */
  predicate AbsAtLeast(a: ExtInt, k: int) {
    match a
    case Fin(x) => x >= k || x <= -k
    case _ => true
  }

  /** `c - a` for an integer `c`; `c - Infinity` is `-Infinity`. */
  function SubFrom(c: int, a: ExtInt): (r: ExtInt)
    ensures a.Fin? ==> r == Fin(c - a.n)
    ensures a.PosInf? <==> r.NegInf?
  {
    match a
    case NegInf => PosInf
    case Fin(x) => Fin(c - x)
    case PosInf => NegInf
  }

  /** `-a`, used to turn a descending comparator into an ascending key. */
  function Neg(a: ExtInt): ExtInt {
    match a
    case NegInf => PosInf
    case Fin(x) => Fin(-x)
    case PosInf => NegInf
  }

  lemma NegReverses(a: ExtInt, b: ExtInt)
    ensures Less(Neg(a), Neg(b)) <==> Less(b, a)
    ensures Neg(Neg(a)) == a
  {
  }

  lemma LessTrans(a: ExtInt, b: ExtInt, c: ExtInt)
    requires LessEq(a, b) && LessEq(b, c)
    ensures LessEq(a, c)
    ensures Less(a, b) || Less(b, c) ==> Less(a, c)
  {
  }

  lemma LessTotal(a: ExtInt, b: ExtInt)
    ensures Less(a, b) || a == b || Less(b, a)
    ensures !(Less(a, b) && LessEq(b, a))
  {
  }
}
