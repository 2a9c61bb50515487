/**
  Edge costs as the solver sees them: a double that is either finite or
  +infinity. Costs are modelled exactly (no rounding, no NaN); +infinity is
  an explicit constructor, and double.MaxValue is a separate, finite value.
*/
module Costs {

  datatype Cost = Fin(v: real) | Inf

  /** The exact value of double.MaxValue, (2 - 2^-52) * 2^1023. It is finite. */
  const MaxValue: real := 179769313486231570814527423731704356798070567525844996598917476803157260780028538760589558632766878171540458953514382464234321326889464182768467546703537516986049910576551282076245490090389328944075868508455133942304583236903222948165808559332123348274797826204144723168738177180919299881250404026184124858368.0

  /** The double `<`: +infinity is above every finite value and not below itself. */
  predicate Lt(a: Cost, b: Cost) {
    match a
    case Inf => false
    case Fin(x) => b.Inf? || x < b.v
  }

  /** The double `<=`. */
  predicate Le(a: Cost, b: Cost) {
    !Lt(b, a)
  }

  /** `a - m` for a finite `m`: +infinity absorbs the subtraction. */
  function Sub(a: Cost, m: real): (r: Cost)
    ensures r.Inf? <==> a.Inf?
  {
    match a
    case Inf => Inf
    case Fin(x) => Fin(x - m)
  }

  /** `a + x` for a finite `x`. */
  function AddReal(a: Cost, x: real): (r: Cost)
    ensures r.Inf? <==> a.Inf?
  {
    match a
    case Inf => Inf
    case Fin(y) => Fin(y + x)
  }

  /** `a + b`: +infinity absorbs the sum. */
  function Add(a: Cost, b: Cost): (r: Cost)
    ensures r.Inf? <==> a.Inf? || b.Inf?
  {
    if a.Inf? || b.Inf? then Inf else Fin(a.v + b.v)
  }

  /** double.CompareTo without NaN: -1, 0 or 1. */
  function CompareCosts(a: Cost, b: Cost): (r: int)
    ensures r == -1 <==> Lt(a, b)
    ensures r == 1 <==> Lt(b, a)
    ensures r == 0 <==> a == b
  {
    if Lt(a, b) then -1 else if Lt(b, a) then 1 else 0
  }

  /** A cost the distance provider may return: non-negative or +infinity. */
  predicate NonNeg(a: Cost) {
    a.Inf? || a.v >= 0.0
  }

  /** `Lt` is a strict total order. */
  lemma LtStrictTotal(a: Cost, b: Cost, c: Cost)
    ensures !Lt(a, a)
    ensures Lt(a, b) && Lt(b, c) ==> Lt(a, c)
    ensures a != b ==> Lt(a, b) || Lt(b, a)
  {
  }

  /** `Le` and `Lt` chain like the orders on the reals. */
  lemma LeChains(a: Cost, b: Cost, c: Cost)
    ensures Le(a, b) && Le(b, c) ==> Le(a, c)
    ensures Lt(a, b) && Le(b, c) ==> Lt(a, c)
    ensures Le(a, b) && Lt(b, c) ==> Lt(a, c)
  {
  }
}
