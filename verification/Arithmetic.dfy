/** Division with remainder. */
module Arithmetic {

  lemma NotNegative(a: int, b: int)
    requires a >= 0 && b >= 0
    ensures a * b >= 0
  {}

  lemma AtLeast(z: int, d: int)
    requires d > 0 && z != 0
    ensures z * d >= d || z * d <= -d
  {
    if z >= 1 {
      NotNegative(z - 1, d);
      assert z * d == (z - 1) * d + d;
    } else {
      NotNegative(-1 - z, d);
      assert z * d == -((-1 - z) * d) - d;
    }
  }

  /** Quotient and remainder are determined by what they add up to. */
  lemma Divided(x: int, d: int, q: int, r: int)
    requires d > 0 && x == q * d + r && 0 <= r < d
    ensures x / d == q && x % d == r
  {
    var (q', r') := (x / d, x % d);
    assert x == q' * d + r';
    assert (q' - q) * d == q' * d - q * d == r - r';
    if q' != q { AtLeast(q' - q, d); }
  }

  lemma ModSmall(x: nat, n: nat)
    requires x < 2 * n
    ensures x % n == if x < n then x else x - n
  {}

  lemma ModAdd(x: int, y: int, n: int)
    requires n > 0
    ensures (x % n + y) % n == (x + y) % n
  {
    var (q, r) := ((x % n + y) / n, (x % n + y) % n);
    assert x % n + y == q * n + r;
    assert x == (x / n) * n + x % n;
    assert x + y == (x / n + q) * n + r by { assert (x / n + q) * n == (x / n) * n + q * n; }
    Divided(x + y, n, x / n + q, r);
  }

  lemma MulOrder(a: int, b: int, d: int)
    requires d >= 0
    ensures a >= b ==> a * d >= b * d
  {
    if a >= b {
      NotNegative(a - b, d);
      assert (a - b) * d == a * d - b * d;
    }
  }

  lemma QuotientBelow(x: nat, d: nat, n: nat)
    requires d > 0 && x < d * n
    ensures x / d < n
  {
    assert x == (x / d) * d + x % d;
    MulOrder(x / d, n, d);
  }

  function Power2(n: nat): (p: nat)
    ensures p > 0
  {
    if n == 0 then 1 else 2 * Power2(n - 1)
  }
}
