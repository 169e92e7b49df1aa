/** Division with remainder, for divisors that are not constants. */
module Arithmetic {
  lemma Quotient(x: int, d: nat, q: int, r: nat)
    requires 0 < d && r < d && x == d * q + r
    ensures x / d == q && x % d == r
  {
    var k := x / d - q;
    assert d * (x / d) + x % d == x;
    assert d * k == d * (x / d) - d * q;
    if k != 0 {
      BigMultiple(d, k);
    }
  }

  lemma BigMultiple(d: int, k: int)
    requires 0 < d && k != 0
    ensures d * k >= d || d * k <= -d
  {
    if k > 0 {
      Product(d, k - 1);
    } else {
      Product(d, -k - 1);
      assert d * (-k - 1) == -(d * k) - d;
    }
  }

  lemma {:induction false} Product(d: nat, k: nat)
    ensures d * k >= 0 && d * (k + 1) == d * k + d
  {
  }

  function Pow2(k: nat): (p: nat)
    ensures p > 0
  {
    if k == 0 then 1 else 2 * Pow2(k - 1)
  }

  /** The bitwise and of two numbers. */
  function BitAnd(x: nat, y: nat): nat {
    if x == 0 || y == 0 then 0 else 2 * BitAnd(x / 2, y / 2) + (x % 2) * (y % 2)
  }

  /** The remainder by an even divisor, from that of the half. */
  lemma HalfRemainder(x: nat, p: nat)
    requires p > 0
    ensures x % (2 * p) == 2 * (x / 2 % p) + x % 2
  {
    var q, r := x / 2 / p, x / 2 % p;
    assert x / 2 == p * q + r;
    TwiceProduct(p, q);
    Quotient(x, 2 * p, q, 2 * r + x % 2);
  }

  lemma TwiceProduct(p: int, q: int)
    ensures (2 * p) * q == 2 * (p * q)
  {
  }

  lemma BitAndStep(x: nat, y: nat)
    requires y % 2 == 1
    ensures BitAnd(x, y) == 2 * BitAnd(x / 2, y / 2) + x % 2
  {
  }

  lemma MaskStep(x: nat, p: nat)
    requires p > 0 && BitAnd(x / 2, p - 1) == x / 2 % p
    ensures BitAnd(x, 2 * p - 1) == x % (2 * p)
  {
    hide BitAnd;
    assert (2 * p - 1) / 2 == p - 1 && (2 * p - 1) % 2 == 1;
    BitAndStep(x, 2 * p - 1);
    HalfRemainder(x, p);
  }

  /** Masking with a power of two less one is taking the remainder. */
  lemma {:induction false} MaskIsRemainder(x: nat, k: nat)
    ensures BitAnd(x, Pow2(k) - 1) == x % Pow2(k)
    decreases k
  {
    if k == 0 {
      assert Pow2(k) == 1;
    } else {
      hide BitAnd;
      assert Pow2(k) == 2 * Pow2(k - 1);
      MaskIsRemainder(x / 2, k - 1);
      MaskStep(x, Pow2(k - 1));
    }
  }
}
