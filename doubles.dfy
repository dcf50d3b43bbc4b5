/**
 * Java `double` values as the library uses them: NaN, the two infinities and
 * exact finite reals (IEEE rounding is not modelled).
 */
module Doubles {
  datatype Double = NaN | NegInf | Fin(r: real) | PosInf

  /** Where a non-NaN value sits: below, among or above the finite reals. */
  function Tier(a: Double): int {
    if a.NegInf? then 0 else if a.Fin? then 1 else 2
  }

  /** Java's `a < b`: false as soon as either side is NaN. */
  predicate Lt(a: Double, b: Double) {
    && !a.NaN? && !b.NaN?
    && (Tier(a) < Tier(b) || (a.Fin? && b.Fin? && a.r < b.r))
  }

  /** Java's `a <= b`. */
  predicate Le(a: Double, b: Double) {
    !a.NaN? && !b.NaN? && !Lt(b, a)
  }

  /** Java's `a + b`, without rounding. */
  function Add(a: Double, b: Double): (r: Double)
    ensures r.NaN? <==> (a.NaN? || b.NaN? || (a.NegInf? && b.PosInf?) || (a.PosInf? && b.NegInf?))
    ensures a.Fin? && b.Fin? ==> r == Fin(a.r + b.r)
    ensures r.PosInf? <==> ((a.PosInf? && !b.NaN? && !b.NegInf?) || (b.PosInf? && !a.NaN? && !a.NegInf?))
    ensures r.NegInf? <==> ((a.NegInf? && !b.NaN? && !b.PosInf?) || (b.NegInf? && !a.NaN? && !a.PosInf?))
  {
    match (a, b)
    case (NaN, _) => NaN
    case (_, NaN) => NaN
    case (PosInf, NegInf) => NaN
    case (NegInf, PosInf) => NaN
    case (PosInf, _) => PosInf
    case (_, PosInf) => PosInf
    case (NegInf, _) => NegInf
    case (_, NegInf) => NegInf
    case (Fin(x), Fin(y)) => Fin(x + y)
  }

  /** Apart from NaN, `<` is a strict total order and `<=` its reflexive closure. */
  lemma LtTotal(a: Double, b: Double)
    requires !a.NaN? && !b.NaN?
    ensures Lt(a, b) || a == b || Lt(b, a)
    ensures !(Lt(a, b) && Lt(b, a))
    ensures Le(a, b) <==> (Lt(a, b) || a == b)
  {
  }

  lemma LtTransitive(a: Double, b: Double, c: Double)
    requires Lt(a, b) && Lt(b, c)
    ensures Lt(a, c)
  {
  }

  lemma LeTransitive(a: Double, b: Double, c: Double)
    requires Le(a, b) && Le(b, c)
    ensures Le(a, c)
  {
  }
}
