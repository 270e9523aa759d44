/** Facts about Euclidean division shared by the board geometry and the bit-field codecs. */
module Arith {

  lemma ModUnique(y: int, k: int, r: int, n: int)
    requires n > 0 && y == k * n + r && 0 <= r < n
    ensures y % n == r && y / n == k
  {
    var q, s := y / n, y % n;
    assert y == q * n + s;
    assert (k - q) * n == s - r;
    ZeroMultiple(k - q, n, s - r);
  }

  lemma ModOfSmall(x: int, n: int)
    requires n > 0
    ensures 0 <= x < n ==> x % n == x && x / n == 0
  {
    if 0 <= x < n {
      ModUnique(x, 0, x, n);
    }
  }

  /** A multiple of n strictly between -n and n is 0. */
  lemma ZeroMultiple(m: int, n: int, e: int)
    requires n > 0 && m * n == e && -n < e < n
    ensures m == 0
  {
    MulAtLeast(m, n);
    MulAtLeast(-m, n);
    assert (-m) * n == -e;
  }

  lemma {:induction false} MulAtLeast(a: int, n: int)
    requires n >= 0
    ensures a >= 1 ==> a * n >= n
    decreases if a < 0 then 0 else a
  {
    if a > 1 {
      MulAtLeast(a - 1, n);
      assert a * n == (a - 1) * n + n;
    }
  }

  lemma DivDiv(a: int, p: int, q: int)
    requires a >= 0 && p > 0 && q > 0
    ensures a / p / q == a / (p * q)
  {
    var x := a / p;
    var y := x / q;
    assert a == p * x + a % p;
    assert x == q * y + x % q;
    assert a == (p * q) * y + (p * (x % q) + a % p) by {
      assert a == p * (q * y + x % q) + a % p;
    }
    assert p * (x % q) <= p * (q - 1) by { MulMonotone(p, x % q, q - 1); }
    assert p * (q - 1) + p == p * q;
    ModUnique(a, y, p * (x % q) + a % p, p * q);
  }

  lemma MulMonotone(p: int, x: int, y: int)
    requires p >= 0 && x <= y
    ensures p * x <= p * y
  {
    assert p * y - p * x == p * (y - x);
  }

  lemma DivNonNeg(a: int, p: int)
    requires a >= 0 && p > 0
    ensures 0 <= a / p
  {
    var q := a / p;
    assert a == p * q + a % p;
    MulAtLeast(-q, p);
    assert (-q) * p == -(p * q);
  }
}
