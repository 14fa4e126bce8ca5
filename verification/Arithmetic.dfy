/** The few facts about products and quotients that the solver does not find on its own. */
module Arithmetic {
  lemma MulOrder(a: int, b: int, c: int)
    requires a >= 0 && b <= c
    ensures a * b <= a * c
  {
    MulDistributes(a, c - b, b);
    MulSign(a, c - b);
  }

  lemma MulSign(a: int, b: int)
    requires a >= 0 && b >= 0
    ensures a * b >= 0
  {
  }

  lemma MulDistributes(a: int, b: int, c: int)
    ensures a * (b + c) == a * b + a * c
  {
  }

  lemma MulAssociates(a: int, b: int, c: int)
    ensures (a * b) * c == a * (b * c)
  {
  }

  lemma Division(a: int, d: int)
    requires d > 0
    ensures d * (a / d) <= a < d * (a / d) + d
  {
  }

  lemma MulAtLeast(d: int, k: int)
    requires d > 0
    ensures k >= 1 ==> d * k >= d
    ensures k <= -1 ==> d * k <= -d
  {
    if k >= 1 { MulOrder(d, 1, k); }
    if k <= -1 { MulOrder(d, k, -1); }
  }

  /** A quotient is the only multiple count that fits. */
  lemma QuotientIs(a: int, d: int, q: int)
    requires d > 0 && d * q <= a < d * q + d
    ensures a / d == q
  {
    Division(a, d);
    MulDistributes(d, a / d - q, q);
    MulAtLeast(d, a / d - q);
  }

  lemma QuotientStep(a: int, b: int, d: int)
    requires d > 0 && b >= 0
    ensures a / d <= (a + b) / d
    ensures d * ((a + b) / d - a / d) <= b + d - 1
  {
    var k := (a + b) / d - a / d;
    Division(a, d);
    Division(a + b, d);
    MulDistributes(d, k, a / d);
    MulAtLeast(d, k);
  }

  lemma QuotientShift(a: int, d: int, k: int)
    requires d > 0
    ensures (a + d * k) / d == a / d + k
  {
    Division(a, d);
    MulDistributes(d, a / d, k);
    QuotientIs(a + d * k, d, a / d + k);
  }

  lemma RemainderIs(a: int, d: int)
    requires d > 0
    ensures a % d == a - d * (a / d)
  {
  }

  lemma RemainderShift(a: int, d: int, k: int)
    requires d > 0
    ensures (a + d * k) % d == a % d
  {
    RemainderIs(a + d * k, d);
    RemainderIs(a, d);
    QuotientShift(a, d, k);
    MulDistributes(d, a / d, k);
  }

  lemma QuotientDifference(a: int, c: int, d: int)
    requires d > 0
    ensures (a - c) / d == a / d - c / d - if a - a / d * d < c - c / d * d then 1 else 0
  {
    Division(a, d);
    Division(c, d);
    var lost := if a - a / d * d < c - c / d * d then 1 else 0;
    MulDistributes(d, a / d - c / d, -lost);
    MulDistributes(d, a / d, -(c / d));
    QuotientIs(a - c, d, a / d - c / d - lost);
  }
}
