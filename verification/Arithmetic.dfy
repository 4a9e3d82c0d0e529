/** Powers of two and the little nonlinear arithmetic the models need. */
module Arithmetic {
  function Pow2(o: nat): (p: nat)
    ensures p > 0
  {
    if o == 0 then 1 else 2 * Pow2(o - 1)
  }

  lemma Pow2Double(o: nat)
    ensures Pow2(o + 1) == 2 * Pow2(o)
  {
  }

  lemma Pow2Zero()
    ensures Pow2(0) == 1
  {
  }

  lemma {:induction false} Pow2Monotone(a: nat, b: nat)
    requires a <= b
    ensures Pow2(a) <= Pow2(b)
    decreases b
  {
    if a < b {
      Pow2Monotone(a, b - 1);
    }
  }

  lemma MulMonotone(a: int, b: int, p: nat)
    ensures a <= b ==> a * p <= b * p
  {
  }

  lemma OneMore(n: nat, unit: nat)
    ensures (n + 1) * unit == n * unit + unit
  {
  }

  /** Quotient and remainder are unique. */
  lemma QuotientIs(x: nat, unit: nat, q: nat, r: nat)
    requires unit > 0 && r < unit && x == q * unit + r
    ensures x / unit == q && x % unit == r
  {
    var q' := x / unit;
    MulMonotone(q' + 1, q, unit);
    MulMonotone(q + 1, q', unit);
  }

  lemma Division(x: nat, unit: nat)
    requires unit > 0
    ensures x == x / unit * unit + x % unit
  {
  }
}
