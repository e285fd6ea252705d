/** A few facts about products and remainders by a variable modulus. */
module Modular {

  lemma MulAtLeast(d: nat, x: int)
    requires x >= 1
    ensures d * x >= d
  {
    assert d * x == d * (x - 1) + d;
  }

  lemma MulSub(d: int, q: int, r: int)
    ensures d * (q - r) == d * q - d * r
  {
  }

  lemma MulMono(a: nat, b: nat, k: nat)
    requires a <= b
    ensures a * k <= b * k && k * a <= k * b
  {
    MulSub(k, b, a);
    assert k * (b - a) >= 0;
  }

  /** A quotient and remainder are determined by their defining equation. */
  lemma EuclidUnique(d: nat, q: int, r: int, q': int, r': int)
    requires 0 <= r < d && 0 <= r' < d
    requires d * q + r == d * q' + r'
    ensures q == q' && r == r'
  {
    MulSub(d, q, q');
    MulSub(d, q', q);
    if q > q' {
      MulAtLeast(d, q - q');
    } else if q < q' {
      MulAtLeast(d, q' - q);
    }
  }

  lemma AddModulus(a: nat, m: nat)
    requires m > 0
    ensures (a + m) % m == a % m
  {
    var q := a / m;
    assert a + m == m * (q + 1) + a % m;
    EuclidUnique(m, q + 1, a % m, (a + m) / m, (a + m) % m);
  }

  lemma SmallMod(v: nat, m: nat)
    requires v < m
    ensures v % m == v
  {
  }

  /** A multiple of m that is a difference of numbers below m is zero. */
  lemma NoWrap(m: nat, x: int, a: nat, b: nat)
    requires m * x == a - b && a < m && b < m
    ensures a == b
  {
    MulSub(m, 0, x);
    if x >= 1 {
      MulAtLeast(m, x);
    } else if x <= -1 {
      MulAtLeast(m, -x);
    }
  }
}
