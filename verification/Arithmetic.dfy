/** Powers of two and quotients, for the id space and for the codecs. */
module Arithmetic {

  function Pow2(m: nat): (p: nat)
    ensures p >= 1
  {
    if m == 0 then 1 else 2 * Pow2(m - 1)
  }

  lemma HalveQuotient(x: nat, p: nat)
    requires p >= 1
    ensures x / (2 * p) == (x / 2) / p
  {
    var k, r := (x / 2) / p, (x / 2) % p;
    assert x / 2 == p * k + r;
    var s := 2 * r + x % 2;
    assert x == (2 * p) * k + s;
    assert 0 <= s < 2 * p;
    QuotientUnique(x, 2 * p, k, s);
  }

  lemma QuotientUnique(x: nat, d: nat, k: nat, s: nat)
    requires d >= 1 && s < d && x == d * k + s
    ensures x / d == k
  {
    var k' := x / d;
    if k' < k {
      MulStep(d, k', k);
    } else if k < k' {
      MulStep(d, k, k');
    }
  }

  lemma MulStep(d: nat, a: nat, b: nat)
    requires a < b
    ensures d * a + d <= d * b
  {
    assert d * b == d * a + d * (b - a);
    assert d * (b - a) == d + d * (b - a - 1);
  }
}
