/** Facts about products and quotients that the solver does not find by itself. */
module Arith {
  lemma MulGap(p: int, q: int, d: nat)
    requires p < q
    ensures p * d + d <= q * d
  {
    assert (q - p) * d == q * d - p * d;
    assert (q - p - 1) * d >= 0;
  }

  lemma MulNat(a: nat, b: nat)
    ensures a * b >= 0
  {
  }

  lemma MulMonotone(a: nat, b: nat, w: nat)
    requires a <= b
    ensures a * w <= b * w
  {
    if a < b { MulGap(a, b, w); }
  }

  lemma QuotientUnique(n: int, d: nat, q: int, r: int)
    requires n == q * d + r && 0 <= r < d
    ensures n / d == q && n % d == r
  {
    var k := n / d;
    assert n == k * d + n % d;
    if k > q { MulGap(q, k, d); }
    if k < q { MulGap(k, q, d); }
  }

  lemma QuotientAtMost(a: nat, b: nat, d: nat)
    requires a <= b && d > 0
    ensures a / d <= b / d
  {
    if b / d < a / d { MulGap(b / d, a / d, d); }
  }

  lemma DoubleOverDouble(x: nat, d: nat)
    requires d > 0
    ensures (2 * x) / (2 * d) == x / d && (2 * x) % (2 * d) == 2 * (x % d)
  {
    var q, r := x / d, x % d;
    assert x == q * d + r;
    assert q * (2 * d) == 2 * (q * d);
    QuotientUnique(2 * x, 2 * d, q, 2 * r);
  }
}
