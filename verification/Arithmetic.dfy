/** Facts about division with remainder by a variable divisor, which the solver does not know by itself. */
module Arithmetic {

  lemma MulSmall(d: int, x: int)
    requires 0 < d && -d < d * x < d
    ensures x == 0
  {
    assert x >= 1 ==> d * x >= d;
    assert x <= -1 ==> d * x <= -d;
  }

  /** Quotient and remainder are unique. */
  lemma DivModUnique(n: int, d: int, q: int, r: int)
    requires 0 < d && 0 <= r < d && n == d * q + r
    ensures n / d == q && n % d == r
  {
    var q', r' := n / d, n % d;
    assert n == d * q' + r';
    assert d * (q - q') == r' - r;
    MulSmall(d, q - q');
  }

  /** Adding a multiple of the divisor moves the quotient and keeps the remainder. */
  lemma DivModShift(n: int, d: int, k: int)
    requires 0 < d
    ensures (n + d * k) / d == n / d + k && (n + d * k) % d == n % d
  {
    assert n == d * (n / d) + n % d;
    assert n + d * k == d * (n / d + k) + n % d;
    DivModUnique(n + d * k, d, n / d + k, n % d);
  }

  /** Two numbers less than d apart have the same remainder only if they are equal. */
  lemma ModInjective(i: int, j: int, d: int)
    requires 0 < d && i < j < i + d
    ensures i % d != j % d
  {
    if i % d == j % d {
      assert i == d * (i / d) + i % d && j == d * (j / d) + j % d;
      assert j - i == d * (j / d - i / d);
      MulSmall(d, j / d - i / d);
    }
  }

  /** Reducing first modulo a multiple of d does not change the remainder modulo d. */
  lemma ModMod(n: int, d: int, m: int)
    requires 0 < d && 0 < m && m % d == 0
    ensures (n % m) % d == n % d
  {
    var k, q := m / d, n / m;
    assert m == d * k;
    assert n == m * q + n % m;
    assert m * q == d * (k * q) by { assert (d * k) * q == d * (k * q); }
    DivModShift(n % m, d, k * q);
  }

  function Pow2(k: nat): (r: nat)
    ensures 0 < r
  {
    if k == 0 then 1 else 2 * Pow2(k - 1)
  }

  lemma {:induction false} Pow2Add(a: nat, b: nat)
    ensures Pow2(a + b) == Pow2(a) * Pow2(b)
  {
    if a > 0 {
      Pow2Add(a - 1, b);
      assert 2 * (Pow2(a - 1) * Pow2(b)) == (2 * Pow2(a - 1)) * Pow2(b);
    }
  }

  /** A smaller power of two divides a larger one. */
  lemma Pow2Divides(a: nat, b: nat)
    requires a <= b
    ensures Pow2(b) % Pow2(a) == 0 && Pow2(a) <= Pow2(b)
  {
    Pow2Add(a, b - a);
    DivModShift(0, Pow2(a), Pow2(b - a));
    assert Pow2(a) * Pow2(b - a) >= Pow2(a) * 1;
  }

  lemma Pow2Word()
    ensures Pow2(64) == 0x1_0000_0000_0000_0000
  {
    assert Pow2(8) == 256;
    Pow2Add(8, 8);
    Pow2Add(16, 16);
    Pow2Add(32, 32);
  }

  lemma MulAssoc(a: int, b: int, c: int)
    ensures (a * b) * c == a * (b * c)
  {
  }

  lemma MulDistribute(a: int, b: int, c: int)
    ensures (a + b) * c == a * c + b * c
  {
  }

  lemma MulLess(a: int, b: int, c: int)
    requires 0 < c && a < b
    ensures a * c < b * c
  {
  }

  /** Scaling by p: the remainder of q*p by h*p is that of q by h, scaled. */
  lemma ModScale(q: int, p: int, h: int)
    requires 0 < p && 0 < h
    ensures 0 < h * p && (q * p) % (h * p) == (q % h) * p
  {
    var u, c := q / h, q % h;
    MulLess(0, h, p);
    MulLess(c, h, p);
    MulDistribute(h * u, c, p);
    assert (h * u) * p == (h * p) * u;
    assert 0 <= c * p;
    DivModUnique(q * p, h * p, u, c * p);
  }

  lemma ModSmall(x: int, m: int)
    requires 0 <= x < m
    ensures x % m == x && x / m == 0
  {
    DivModUnique(x, m, 0, x);
  }
}
