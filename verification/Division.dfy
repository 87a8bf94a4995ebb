/** Floor division by a positive number: the bounds and monotonicity facts the bit-timing proofs use. */
module Division {

  lemma Scale(d: nat, x: int, y: int)
    requires x <= y
    ensures d * x <= d * y
  {
  }

  lemma Cancel(d: nat, x: int, y: int)
    requires d * x < d * y
    ensures x < y
  {
    if y <= x {
      Scale(d, y, x);
    }
  }

  lemma QuotientBounds(a: nat, d: nat)
    requires d > 0
    ensures d * (a / d) <= a < d * (a / d + 1)
  {
    assert a == d * (a / d) + a % d;
    assert d * (a / d + 1) == d * (a / d) + d;
  }

  lemma QuotientAtLeast(a: nat, d: nat, m: nat)
    requires d > 0 && d * m <= a
    ensures m <= a / d
  {
    QuotientBounds(a, d);
    Cancel(d, m, a / d + 1);
  }

  lemma QuotientBelow(a: nat, d: nat, m: nat)
    requires d > 0 && a < d * m
    ensures a / d < m
  {
    QuotientBounds(a, d);
    Cancel(d, a / d, m);
  }

  /** The floor is at least `m` exactly when `m` divisors fit. */
  lemma QuotientReaches(a: nat, d: nat, m: nat)
    requires d > 0
    ensures m <= a / d <==> d * m <= a
  {
    if d * m <= a {
      QuotientAtLeast(a, d, m);
    } else {
      QuotientBelow(a, d, m);
    }
  }

  lemma QuotientMonotone(a: nat, b: nat, d: nat)
    requires d > 0 && a <= b
    ensures a / d <= b / d
  {
    var q := a / d;
    QuotientBounds(a, d);
    QuotientAtLeast(b, d, q);
  }

  /** A larger divisor gives a smaller quotient. */
  lemma QuotientAntitone(a: nat, d: nat, e: nat)
    requires 0 < d <= e
    ensures a / e <= a / d
  {
    var q := a / e;
    QuotientBounds(a, e);
    Scale(q, d, e);
    QuotientAtLeast(a, d, q);
  }

  lemma ExactQuotient(a: nat, d: nat, q: nat, r: nat)
    requires a == d * q + r && r < d
    ensures a / d == q && a % d == r
  {
    assert d * (q + 1) == d * q + d;
    QuotientAtLeast(a, d, q);
    QuotientBelow(a, d, q + 1);
  }

  lemma PositiveProduct(a: nat, b: nat)
    requires 0 < a && 0 < b
    ensures 0 < a * b
  {
  }

  /** a / (b * c). */
  function Divided(a: nat, b: nat, c: nat): (r: nat)
    requires 0 < b && 0 < c
    ensures r <= a
  {
    PositiveProduct(b, c);
    QuotientAntitone(a, 1, b * c);
    a / (b * c)
  }
}
