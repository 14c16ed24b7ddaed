/** JavaScript numbers as far as the theme script's arithmetic needs them:
    NaN, the two infinities and finite values. Finite values are exact
    reals; IEEE rounding is not modelled. */
module JsNumber {

  datatype Num = NaN | NegInf | Fin(r: real) | PosInf

  /** The order on non-NaN numbers. */
  predicate Le(a: Num, b: Num)
    requires !a.NaN? && !b.NaN?
  {
    match (a, b)
    case (NegInf, _) => true
    case (_, PosInf) => true
    case (Fin(x), Fin(y)) => x <= y
    case _ => false
  }

  predicate InRange(a: Num, lo: real, hi: real) {
    a.Fin? && lo <= a.r <= hi
  }

  /** `Math.max(a, b)`: NaN if either is NaN, otherwise the larger. */
  function Max(a: Num, b: Num): (m: Num)
    ensures m.NaN? <==> a.NaN? || b.NaN?
    ensures !m.NaN? ==> Le(a, m) && Le(b, m) && (m == a || m == b)
  {
    if a.NaN? || b.NaN? then NaN
    else if Le(a, b) then b
    else a
  }

  /** `Math.min(a, b)`: NaN if either is NaN, otherwise the smaller. */
  function Min(a: Num, b: Num): (m: Num)
    ensures m.NaN? <==> a.NaN? || b.NaN?
    ensures !m.NaN? ==> Le(m, a) && Le(m, b) && (m == a || m == b)
  {
    if a.NaN? || b.NaN? then NaN
    else if Le(a, b) then a
    else b
  }

  /** `a + b`; the sum of opposite infinities is NaN. */
  function Add(a: Num, b: Num): (s: Num)
    ensures a.Fin? && b.Fin? ==> s == Fin(a.r + b.r)
    ensures s.NaN? <==> a.NaN? || b.NaN? || (a.PosInf? && b.NegInf?) || (a.NegInf? && b.PosInf?)
  {
    match (a, b)
    case (NaN, _) => NaN
    case (_, NaN) => NaN
    case (Fin(x), Fin(y)) => Fin(x + y)
    case (PosInf, NegInf) => NaN
    case (NegInf, PosInf) => NaN
    case (PosInf, _) => PosInf
    case (_, PosInf) => PosInf
    case _ => NegInf
  }

  /** `a * k` for a positive finite factor `k`. */
  function Scale(a: Num, k: real): (s: Num)
    requires k > 0.0
    ensures s.NaN? <==> a.NaN?
    ensures a.Fin? ==> s == Fin(a.r * k)
    ensures !a.Fin? ==> s == a
  {
    match a
    case Fin(x) => Fin(x * k)
    case _ => a
  }
}
