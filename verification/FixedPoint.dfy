/**
 The arithmetic of FixedPoint on types that have no wider type to compute in: division by doubling and
 halving, and multiplication in four parts, compared with the versions that use a wider type.

 Raw values are bits wide with f fractional bits; Wrap is what two's complement keeps of an integer.
 */
module FixedPoint {
  import opened Arithmetic

  datatype Result = Ok(raw: int) | DivideByZero

  /** static_cast to the signed base type. */
  function Wrap(x: int, bits: nat): int
    requires 0 < bits
  {
    var m := x % Pow2(bits);
    if m < Pow2(bits - 1) then m else m - Pow2(bits)
  }

  predicate InRange(x: int, bits: nat)
    requires 0 < bits
  {
    0 <= x + Pow2(bits - 1) < Pow2(bits)
  }

  predicate Format(bits: nat, f: nat) {
    0 < f < bits
  }

  function Abs(x: int): nat {
    if x < 0 then -x else x
  }

  /** Division of signed integers in C++: towards zero. */
  function TruncDiv(a: int, b: int): int
    requires b != 0
  {
    if (a < 0) == (b < 0) then Abs(a) / Abs(b) else -(Abs(a) / Abs(b))
  }

  /** detail::divide where a type of twice the width exists. */
  function WideDivide(n: int, d: int, bits: nat, f: nat): int
    requires Format(bits, f) && d != 0
  {
    Wrap(TruncDiv(n * Pow2(f), d), bits)
  }

  /** detail::multiply where a type of twice the width exists; the shift is arithmetic. */
  function WideMultiply(a: int, b: int, bits: nat, f: nat): int
    requires Format(bits, f)
  {
    Wrap((a * b) / Pow2(f), bits)
  }

  // ---------------------------------------------------------------------------------------------
  // Egyptian division
  // ---------------------------------------------------------------------------------------------

  /** Quotient and remainder of unsigned words by doubling and halving. */
  method EgyptianDivide(dividend: nat, divisor: nat, bits: nat) returns (answer: nat, n: nat)
    requires 0 < bits && dividend < Pow2(bits) && 0 < divisor < Pow2(bits)
    ensures answer == dividend / divisor && n == dividend % divisor
  {
    n := dividend;
    var d, x := divisor, 1;
    answer := 0;
    ghost var k: int := 0;
    assert Pow2(bits) == 2 * Pow2(bits - 1);
    // the top bit of d is clear
    while n >= d && d / Pow2(bits - 1) == 0
      invariant 0 <= k && x == Pow2(k) && d == x * divisor && 0 < d < Pow2(bits)
      decreases Pow2(bits) - d
    {
      TopBit(d, bits);
      DoubleWord(x, d, divisor, bits);
      x := (2 * x) % Pow2(bits);
      d := (2 * d) % Pow2(bits);
      k := k + 1;
    }
    TopBit(d, bits);
    while x != 0
      invariant -1 <= k && x == (if k < 0 then 0 else Pow2(k))
      invariant k >= 0 ==> d == x * divisor && n < 2 * d
      invariant k < 0 ==> n < divisor
      invariant dividend == divisor * answer + n
      decreases k
    {
      if n >= d {
        Distribute(divisor, answer, x);
        n := n - d;
        answer := answer + x;
      }
      HalveWord(x, d, divisor, k);
      x := x / 2;
      d := d / 2;
      k := k - 1;
    }
    DivModUnique(dividend, divisor, answer, n);
  }

  lemma TopBit(d: nat, bits: nat)
    requires 0 < bits && d < Pow2(bits)
    ensures d / Pow2(bits - 1) == 0 <==> d < Pow2(bits - 1)
  {
    var h := Pow2(bits - 1);
    if d < h { DivModUnique(d, h, 0, d); } else { DivModUnique(d, h, 1, d - h); }
  }

  lemma DoubleWord(x: nat, d: nat, divisor: nat, bits: nat)
    requires 0 < bits && d == x * divisor && 0 < divisor && 0 < d < Pow2(bits - 1)
    ensures (2 * x) % Pow2(bits) == 2 * x && (2 * d) % Pow2(bits) == 2 * d && 2 * d == (2 * x) * divisor
  {
    assert x <= x * divisor;
    assert Pow2(bits) == 2 * Pow2(bits - 1);
    DivModUnique(2 * x, Pow2(bits), 0, 2 * x);
    DivModUnique(2 * d, Pow2(bits), 0, 2 * d);
  }

  lemma HalveWord(x: nat, d: nat, divisor: nat, k: nat)
    requires x == Pow2(k) && d == x * divisor
    ensures k > 0 ==> x / 2 == Pow2(k - 1) && d / 2 == (x / 2) * divisor && d == 2 * (d / 2)
    ensures k == 0 ==> x / 2 == 0 && d == divisor
  {
    if k > 0 { assert d == 2 * (Pow2(k - 1) * divisor); }
  }

  lemma Distribute(d: int, a: int, b: int)
    ensures d * (a + b) == d * a + b * d
  {
  }

  // ---------------------------------------------------------------------------------------------
  // The fraction bits
  // ---------------------------------------------------------------------------------------------

  /** Halve both until the dividend leaves room for the fraction bits. */
  function Reduced(l1: nat, l2: nat, room: nat): (r: (nat, nat))
    requires 2 <= room && l1 <= l2 && 0 < l2
    ensures r.0 < room && r.0 <= r.1 && 0 < r.1
    ensures l1 < room ==> r == (l1, l2)
  {
    if l1 < room then (l1, l2) else Reduced(l1 / 2, l2 / 2, room)
  }

  /** Bitwise or. */
  function BitOr(a: nat, b: nat): nat {
    if a == 0 then b else if b == 0 then a
    else 2 * BitOr(a / 2, b / 2) + if a % 2 == 1 || b % 2 == 1 then 1 else 0
  }

  /** Setting low bits of a number that has none is adding them. */
  lemma {:induction false} OrIsAdd(q: nat, lo: nat, f: nat)
    requires lo < Pow2(f)
    ensures BitOr(q * Pow2(f), lo) == q * Pow2(f) + lo
  {
    if f == 0 {
      assert lo == 0;
    } else if lo > 0 && q > 0 {
      var a := q * Pow2(f);
      assert a == 2 * (q * Pow2(f - 1));
      assert a / 2 == q * Pow2(f - 1) && a % 2 == 0;
      OrIsAdd(q, lo / 2, f - 1);
    }
  }

  /** A number moved up by f bits. */
  function Shifted(x: nat, f: nat): nat {
    x * Pow2(f)
  }

  /** Left shift of an unsigned word, which drops what leaves the word. */
  function Shl(x: nat, f: nat, bits: nat): nat {
    Shifted(x, f) % Pow2(bits)
  }

  function Quotient(a: nat, b: nat): nat
    requires 0 < b
  {
    a / b
  }

  /** The magnitude the fallback computes: Reduced gives the fraction bits, which are or-ed below the quotient. */
  function FallbackMagnitude(n: nat, d: nat, bits: nat, f: nat): nat
    requires Format(bits, f) && 0 < d
  {
    Room(bits, f);
    var (l1, l2) := Reduced(n % d, d, Pow2(bits - f));
    BitOr(Shl(Quotient(n, d), f, bits), Quotient(Shl(l1, f, bits), l2))
  }

  lemma Room(bits: nat, f: nat)
    requires Format(bits, f)
    ensures 2 <= Pow2(bits - f) && Pow2(bits - f) * Pow2(f) == Pow2(bits)
  {
    assert Pow2(bits - f) == 2 * Pow2(bits - f - 1);
    Pow2Add(bits - f, f);
  }

  /** Negation of a base type value. */
  function Negate(x: int, bits: nat): int
    requires 0 < bits
  {
    Wrap(-x, bits)
  }

  function FallbackDivide(n: int, d: int, bits: nat, f: nat): int
    requires Format(bits, f) && d != 0
  {
    var q := Wrap(FallbackMagnitude(Abs(n), Abs(d), bits, f), bits);
    if (n < 0) != (d < 0) then Negate(q, bits) else q
  }

  /** detail::divide where no wider type exists. */
  method Divide(numerator: int, denominator: int, bits: nat, f: nat) returns (r: Result)
    requires Format(bits, f) && InRange(numerator, bits) && InRange(denominator, bits)
    ensures denominator == 0 <==> r == DivideByZero
    ensures denominator != 0 ==> r == Ok(FallbackDivide(numerator, denominator, bits, f))
  {
    if denominator == 0 {
      return DivideByZero;
    }
    var sign := false;
    var num, den := numerator, denominator;
    if num < 0 {
      sign := !sign;
      num := Negate(num, bits);
    }
    if den < 0 {
      sign := !sign;
      den := Negate(den, bits);
    }
    AsWord(numerator, bits);
    AsWord(denominator, bits);
    hide Pow2, Wrap;
    var magnitude := DivideMagnitudes(num % Pow2(bits), den % Pow2(bits), bits, f);
    var quotient := Wrap(magnitude, bits);
    if sign {
      quotient := Negate(quotient, bits);
    }
    r := Ok(quotient);
  }

  /** The division proper, on words. */
  method DivideMagnitudes(num: nat, den: nat, bits: nat, f: nat) returns (r: nat)
    requires Format(bits, f) && num < Pow2(bits) && 0 < den < Pow2(bits)
    ensures r == FallbackMagnitude(num, den, bits, f)
  {
    hide Pow2, BitOr, Reduced, FallbackMagnitude, Shl, Quotient;
    var answer, n := EgyptianDivide(num, den, bits);
    Room(bits, f);
    var l1, l2 := Reduce(n, den, Pow2(bits - f));
    var lo := Quotient(Shl(l1, f, bits), l2);
    r := BitOr(Shl(answer, f, bits), lo);
    MagnitudeParts(num, den, bits, f, answer, n, l1, l2);
  }

  lemma MagnitudeParts(n: nat, d: nat, bits: nat, f: nat, q: nat, r: nat, l1: nat, l2: nat)
    requires Format(bits, f) && 0 < d && q == n / d && r == n % d && 2 <= Pow2(bits - f)
    requires (l1, l2) == Reduced(r, d, Pow2(bits - f))
    ensures FallbackMagnitude(n, d, bits, f) == BitOr(Shl(q, f, bits), Quotient(Shl(l1, f, bits), l2))
  {
    hide Pow2, BitOr, Reduced, Shl;
  }

  method Reduce(n: nat, d: nat, room: nat) returns (l1: nat, l2: nat)
    requires 2 <= room && n <= d && 0 < d
    ensures (l1, l2) == Reduced(n, d, room) && 0 < l2
  {
    l1, l2 := n, d;
    QuotientPositive(l1, room);
    while l1 / room > 0
      invariant l1 <= l2 && 0 < l2 && (l1 / room > 0 <==> l1 >= room)
      invariant Reduced(n, d, room) == Reduced(l1, l2, room)
      decreases l1
    {
      l1 := l1 / 2;
      l2 := l2 / 2;
      QuotientPositive(l1, room);
    }
  }

  lemma QuotientPositive(a: nat, d: nat)
    requires 0 < d
    ensures a / d > 0 <==> a >= d
  {
    if a < d { ModSmall(a, d); } else { DivModShift(a - d, d, 1); }
  }

  /** The unsigned word of an operand whose sign was dropped is its magnitude, also for the minimum value. */
  lemma AsWord(x: int, bits: nat)
    requires 0 < bits && InRange(x, bits)
    ensures (if x < 0 then Negate(x, bits) else x) % Pow2(bits) == Abs(x)
    ensures Abs(x) < Pow2(bits)
    ensures x < 0 ==> Negate(x, bits) != 0
  {
    assert Pow2(bits) == 2 * Pow2(bits - 1);
    hide Pow2, Wrap;
    ModSmall(Abs(x), Pow2(bits));
    if x < 0 {
      WrapKeepsWord(-x, bits);
      if Negate(x, bits) == 0 { ModSmall(0, Pow2(bits)); }
    }
  }

  // ---------------------------------------------------------------------------------------------
  // The fallback against the wide version
  // ---------------------------------------------------------------------------------------------

  /** The scaled quotient: the magnitude the wide version computes. */
  function Scaled(n: nat, d: nat, p: nat): nat
    requires 0 < d
  {
    (n * p) / d
  }

  /** Quotient and fraction bits together are the quotient of the scaled dividend. */
  lemma ScaledQuotient(n: nat, d: nat, f: nat)
    requires 0 < d
    ensures Scaled(n, d, Pow2(f)) == Shifted(n / d, f) + Scaled(n % d, d, Pow2(f))
  {
    var q, r, p := n / d, n % d, Pow2(f);
    hide Pow2;
    ScaledSum(n, d, q, r, p);
    DivModShift(r * p, d, q * p);
  }

  lemma ScaledSum(n: int, d: int, q: int, r: int, p: int)
    requires n == d * q + r
    ensures n * p == r * p + d * (q * p)
  {
    MulDistribute(d * q, r, p);
    MulAssoc(d, q, p);
  }

  lemma FractionBelowOne(n: nat, d: nat, p: nat)
    requires 0 < d && 0 < p
    ensures Scaled(n % d, d, p) < p
  {
    MulLess(n % d, d, p);
    QuotientBelow((n % d) * p, d, p);
  }

  lemma QuotientBelow(a: nat, d: nat, p: nat)
    requires 0 < d && a < p * d
    ensures a / d < p
  {
    var s := a / d;
    assert a == d * s + a % d;
    assert s >= p ==> s * d >= p * d;
  }

  lemma ModAddMultiple(x: int, y: int, m: nat)
    requires 0 < m
    ensures (x % m + y) % m == (x + y) % m
  {
    DivModShift(x % m + y, m, x / m);
  }

  /** What the halved remainder and divisor give for the fraction bits. */
  function FractionBits(r: nat, d: nat, bits: nat, f: nat): nat
    requires Format(bits, f) && r <= d && 0 < d
  {
    Room(bits, f);
    var reduced := Reduced(r, d, Pow2(bits - f));
    Scaled(reduced.0, reduced.1, Pow2(f))
  }

  /** Setting the bit of weight Pow2(f) adds it, or finds it set. */
  lemma {:induction false} OrOne(c: nat, f: nat)
    ensures BitOr(c * Pow2(f), Pow2(f)) == if c % 2 == 1 then c * Pow2(f) else c * Pow2(f) + Pow2(f)
  {
    if f > 0 && c > 0 {
      var a := c * Pow2(f);
      assert a == 2 * (c * Pow2(f - 1));
      assert a / 2 == c * Pow2(f - 1) && a % 2 == 0;
      OrOne(c, f - 1);
    } else if c > 0 {
      OrNothing(c / 2);
    }
  }

  /** The fraction bits are below one, unless the halving made remainder and divisor equal. */
  lemma FractionBitsBound(r: nat, d: nat, bits: nat, f: nat)
    requires Format(bits, f) && r <= d && 0 < d
    ensures FractionBits(r, d, bits, f) <= Pow2(f)
  {
    Room(bits, f);
    hide Pow2, Reduced;
    var (l1, l2) := Reduced(r, d, Pow2(bits - f));
    QuotientAtMost(l1, l2, Pow2(f));
  }

  lemma QuotientAtMost(a: nat, d: nat, p: nat)
    requires a <= d && 0 < d
    ensures Scaled(a, d, p) <= p
  {
    assert a * p <= d * p;
    MulDistribute(p, 1, d);
    QuotientBelow(a * p, d, p + 1);
  }

  /** The magnitude is the cut quotient with the fraction bits or-ed into it. */
  lemma MagnitudeBits(n: nat, d: nat, bits: nat, f: nat)
    requires Format(bits, f) && 0 < d
    ensures FallbackMagnitude(n, d, bits, f)
         == BitOr(((n / d) % Pow2(bits - f)) * Pow2(f), FractionBits(n % d, d, bits, f))
    ensures Shl(n / d, f, bits) == ((n / d) % Pow2(bits - f)) * Pow2(f)
  {
    Room(bits, f);
    hide Pow2, Reduced, BitOr;
    var p, h := Pow2(f), Pow2(bits - f);
    var (l1, l2) := Reduced(n % d, d, h);
    MulLess(l1, h, p);
    ModSmall(l1 * p, Pow2(bits));
    ModScale(n / d, p, h);
  }

  /**
   The fallback's magnitude is right exactly when halving remainder and divisor kept the fraction bits: a
   fraction that comes out as one is never right, whether the or adds it or loses it.
   */
  lemma MagnitudeExactly(n: nat, d: nat, bits: nat, f: nat)
    requires Format(bits, f) && 0 < d <= Pow2(bits)
    ensures FallbackMagnitude(n, d, bits, f) % Pow2(bits) == Scaled(n, d, Pow2(f)) % Pow2(bits)
            <==> FractionBits(n % d, d, bits, f) == Scaled(n % d, d, Pow2(f))
  {
    hide Pow2, BitOr, FallbackMagnitude, FractionBits, Scaled, Shifted;
    var m, p, x, r := Pow2(bits), Pow2(f), Shifted(n / d, f), n % d;
    TwiceFits(bits, f);
    ScaledQuotient(n, d, f);
    FractionBelowOne(n, d, p);
    FractionBitsBound(r, d, bits, f);
    MagnitudeCases(n, d, bits, f);
    MagnitudeDecided(FallbackMagnitude(n, d, bits, f), x, FractionBits(r, d, bits, f), Scaled(r, d, p), p, m);
  }

  lemma MagnitudeCases(n: nat, d: nat, bits: nat, f: nat)
    requires Format(bits, f) && 0 < d <= Pow2(bits)
    ensures var low := Shl(n / d, f, bits);
            (var lo := FractionBits(n % d, d, bits, f);
             if lo < Pow2(f) then FallbackMagnitude(n, d, bits, f) == low + lo
             else FallbackMagnitude(n, d, bits, f) in {low, low + Pow2(f)} && 0 < Scaled(n % d, d, Pow2(f)))
  {
    hide Pow2, BitOr, FallbackMagnitude, FractionBits, Scaled, Shl;
    var c, lo := (n / d) % Pow2(bits - f), FractionBits(n % d, d, bits, f);
    MagnitudeBits(n, d, bits, f);
    FractionBitsBound(n % d, d, bits, f);
    if lo < Pow2(f) {
      OrIsAdd(c, lo, f);
    } else {
      OrOne(c, f);
      FractionFromOne(n, d, bits, f);
    }
  }

  lemma TwiceFits(bits: nat, f: nat)
    requires Format(bits, f)
    ensures 2 * Pow2(f) <= Pow2(bits)
  {
    Room(bits, f);
    hide Pow2;
    assert Pow2(bits - f) * Pow2(f) >= 2 * Pow2(f);
  }

  lemma MagnitudeDecided(mag: nat, x: nat, lo: nat, exact: nat, p: nat, m: nat)
    requires 0 < p && 2 * p <= m && lo <= p && exact < p
    requires if lo < p then mag == x % m + lo else mag in {x % m, x % m + p} && 0 < exact
    ensures mag % m == (x + exact) % m <==> lo == exact
  {
    SameLowBits(x, lo, exact, p, m);
    SameLowBits(x, 0, exact, p, m);
  }

  lemma SameLowBits(x: int, u: nat, v: nat, p: nat, m: nat)
    requires 0 < p && 2 * p <= m && u <= p && v < p
    ensures (x % m + u) % m == (x + v) % m <==> u == v
  {
    ModAddMultiple(x, u, m);
    if u < v { ModInjective(x + u, x + v, m); }
    if v < u { ModInjective(x + v, x + u, m); }
  }

  /** Fraction bits that come out as one stand for a fraction that is neither zero nor one. */
  lemma FractionFromOne(n: nat, d: nat, bits: nat, f: nat)
    requires Format(bits, f) && 0 < d <= Pow2(bits) && FractionBits(n % d, d, bits, f) == Pow2(f)
    ensures 0 < Scaled(n % d, d, Pow2(f)) < Pow2(f)
  {
    hide Pow2, FractionBits;
    var p, h, r := Pow2(f), Pow2(bits - f), n % d;
    FractionBelowOne(n, d, p);
    Room(bits, f);
    if r < h {
      RoomKeepsBits(r, d, bits, f);
    } else {
      AtLeastOne(r, d, p, h);
    }
  }

  lemma RoomKeepsBits(r: nat, d: nat, bits: nat, f: nat)
    requires Format(bits, f) && r <= d && 0 < d && r < Pow2(bits - f)
    ensures FractionBits(r, d, bits, f) == Scaled(r, d, Pow2(f))
  {
    Room(bits, f);
    hide Pow2, Reduced;
  }

  lemma AtLeastOne(r: nat, d: nat, p: nat, h: nat)
    requires h <= r && 0 < d <= h * p
    ensures 0 < Scaled(r, d, p)
  {
    assert r * p >= h * p;
    QuotientPositive(r * p, d);
  }

  /** Division agrees with the wide version, whatever the signs, exactly when the halving kept the fraction bits. */
  lemma DivideAgreesExactly(n: int, d: int, bits: nat, f: nat)
    requires Format(bits, f) && d != 0 && Abs(d) <= Pow2(bits)
    ensures FallbackDivide(n, d, bits, f) == WideDivide(n, d, bits, f)
            <==> FractionBits(Abs(n) % Abs(d), Abs(d), bits, f) == Scaled(Abs(n) % Abs(d), Abs(d), Pow2(f))
  {
    hide Pow2, Wrap, FallbackMagnitude, FractionBits, Scaled;
    var mag := FallbackMagnitude(Abs(n), Abs(d), bits, f);
    var exact := Scaled(Abs(n), Abs(d), Pow2(f));
    MagnitudeExactly(Abs(n), Abs(d), bits, f);
    SameWord(mag, exact, bits);
    SignedQuotient(n, d, Pow2(f));
    NegateWrap(exact, bits);
    NegateWrap(mag, bits);
    SameNegation(mag, exact, bits);
  }

  /** The sign is that of the operands, also for a dividend of zero. */
  lemma SignedQuotient(n: int, d: int, p: nat)
    requires d != 0 && 0 < p
    ensures TruncDiv(n * p, d) == if (n < 0) != (d < 0) then 0 - Scaled(Abs(n), Abs(d), p) else Scaled(Abs(n), Abs(d), p)
  {
    AbsScaled(n, p);
  }

  lemma SameWord(x: int, y: int, bits: nat)
    requires 0 < bits
    ensures x % Pow2(bits) == y % Pow2(bits) <==> Wrap(x, bits) == Wrap(y, bits)
  {
    assert Pow2(bits) == 2 * Pow2(bits - 1);
    hide Pow2;
  }

  lemma SameNegation(x: int, y: int, bits: nat)
    requires 0 < bits
    ensures Wrap(-x, bits) == Wrap(-y, bits) <==> Wrap(x, bits) == Wrap(y, bits)
  {
    hide Pow2, Wrap;
    NegateWrap(x, bits);
    NegateWrap(y, bits);
    NegateWrap(-x, bits);
    NegateWrap(-y, bits);
  }

  /** In particular it agrees when the remainder leaves room for the fraction bits, even where the result wraps. */
  lemma DivideAgrees(n: int, d: int, bits: nat, f: nat)
    requires Format(bits, f) && d != 0 && Abs(d) <= Pow2(bits) && Abs(n) % Abs(d) < Pow2(bits - f)
    ensures FallbackDivide(n, d, bits, f) == WideDivide(n, d, bits, f)
  {
    hide Pow2, FractionBits, FallbackDivide, WideDivide;
    RoomKeepsBits(Abs(n) % Abs(d), Abs(d), bits, f);
    DivideAgreesExactly(n, d, bits, f);
  }

  lemma AbsScaled(n: int, p: nat)
    requires 0 < p
    ensures Abs(n * p) == Abs(n) * p && (n * p < 0 <==> n < 0)
  {
    assert n > 0 ==> n * p > 0;
    assert n < 0 ==> n * p < 0 && (-n) * p == -(n * p);
  }

  /** What Wrap takes off is a whole number of words. */
  lemma WordsOff(x: int, bits: nat) returns (k: int)
    requires 0 < bits
    ensures x == Wrap(x, bits) + Pow2(bits) * k
  {
    var m := Pow2(bits);
    hide Pow2;
    k := x / m + if Wrap(x, bits) == x % m then 0 else 1;
    MulDistribute(x / m, 1, m);
  }

  lemma WrapKeepsWord(x: int, bits: nat)
    requires 0 < bits
    ensures Wrap(x, bits) % Pow2(bits) == x % Pow2(bits)
  {
    hide Pow2, Wrap;
    var k := WordsOff(x, bits);
    DivModShift(Wrap(x, bits), Pow2(bits), k);
  }

  lemma SameWrap(x: int, y: int, k: int, bits: nat)
    requires 0 < bits && x == y + Pow2(bits) * k
    ensures Wrap(x, bits) == Wrap(y, bits)
  {
    hide Pow2;
    DivModShift(y, Pow2(bits), k);
  }

  lemma NegateWrap(x: int, bits: nat)
    requires 0 < bits
    ensures Negate(Wrap(x, bits), bits) == Wrap(-x, bits)
  {
    hide Pow2, Wrap;
    var k := WordsOff(x, bits);
    SameWrap(-Wrap(x, bits), -x, k, bits);
  }

  // ---------------------------------------------------------------------------------------------
  // Remainders that leave no room
  // ---------------------------------------------------------------------------------------------

  /** A remainder and a divisor that the halving makes equal: the fraction comes out as one. */
  ghost predicate CutAlike(r: nat, d: nat, bits: nat, f: nat)
    requires Format(bits, f) && r <= d && 0 < d
  {
    Room(bits, f);
    var reduced := Reduced(r, d, Pow2(bits - f));
    reduced.0 == reduced.1
  }

  lemma FractionOne(r: nat, d: nat, bits: nat, f: nat)
    requires Format(bits, f) && r <= d && 0 < d
    ensures CutAlike(r, d, bits, f) <==> FractionBits(r, d, bits, f) == Pow2(f)
  {
    Room(bits, f);
    hide Pow2, Reduced;
    var (l1, l2) := Reduced(r, d, Pow2(bits - f));
    ScaledOne(l1, l2, Pow2(f));
  }

  lemma ScaledOne(a: nat, d: nat, p: nat)
    requires a <= d && 0 < d && 0 < p
    ensures a == d <==> Scaled(a, d, p) == p
  {
    if a == d {
      DivModUnique(a * p, d, p, 0);
    } else {
      MulLess(a, d, p);
      QuotientBelow(a * p, d, p);
    }
  }

  /** Then the results always differ. */
  lemma CutAlikeDiffers(n: int, d: int, bits: nat, f: nat)
    requires Format(bits, f) && d != 0 && Abs(d) <= Pow2(bits)
    requires CutAlike(Abs(n) % Abs(d), Abs(d), bits, f)
    ensures FallbackDivide(n, d, bits, f) != WideDivide(n, d, bits, f)
  {
    hide Pow2, FractionBits, FallbackDivide, WideDivide, CutAlike, Scaled;
    FractionOne(Abs(n) % Abs(d), Abs(d), bits, f);
    FractionBelowOne(Abs(n), Abs(d), Pow2(f));
    DivideAgreesExactly(n, d, bits, f);
  }

  /** How often the loop halves. */
  function Halvings(l1: nat, room: nat): nat
    requires 2 <= room
  {
    if l1 < room then 0 else 1 + Halvings(l1 / 2, room)
  }

  /** The halving cuts as many bits off both. */
  lemma {:induction false} ReducedIs(l1: nat, l2: nat, room: nat)
    requires 2 <= room && l1 <= l2 && 0 < l2
    ensures Reduced(l1, l2, room) == (l1 / Pow2(Halvings(l1, room)), l2 / Pow2(Halvings(l1, room)))
  {
    if l1 >= room {
      ReducedIs(l1 / 2, l2 / 2, room);
      var k := Pow2(Halvings(l1 / 2, room));
      hide Reduced;
      HalfFirst(l1, k);
      HalfFirst(l2, k);
    }
  }

  lemma HalfFirst(x: nat, k: nat)
    requires 0 < k
    ensures (x / 2) / k == x / (2 * k)
  {
    var h := x / 2;
    var q, c := h / k, h % k;
    assert x == (2 * k) * q + (2 * c + x % 2) by { assert h == k * q + c; assert (2 * k) * q == 2 * (k * q); }
    DivModUnique(x, 2 * k, q, 2 * c + x % 2);
  }

  /** Counting on to the next number is not noticed after the cut: r does not end in ones where it is cut. */
  ghost predicate CutHidesOne(r: nat, bits: nat, f: nat)
    requires Format(bits, f)
  {
    Room(bits, f);
    (r + 1) % Pow2(Halvings(r, Pow2(bits - f))) != 0
  }

  lemma HiddenCutAlike(r: nat, bits: nat, f: nat)
    requires Format(bits, f) && CutHidesOne(r, bits, f)
    ensures CutAlike(r, r + 1, bits, f)
  {
    Room(bits, f);
    var room := Pow2(bits - f);
    ReducedIs(r, r + 1, room);
    hide Pow2, Reduced, Halvings;
    SameQuotient(r, Pow2(Halvings(r, room)));
  }

  lemma SameQuotient(r: nat, k: nat)
    requires 0 < k && (r + 1) % k != 0
    ensures r / k == (r + 1) / k
  {
    DivModUnique(r, k, (r + 1) / k, (r + 1) % k - 1);
  }

  /** Even remainders without room are of this kind. */
  lemma EvenHidesOne(r: nat, bits: nat, f: nat)
    requires Format(bits, f) && r % 2 == 0 && Pow2(bits - f) <= r
    ensures CutHidesOne(r, bits, f)
  {
    Room(bits, f);
    var room := Pow2(bits - f);
    var half := Pow2(Halvings(r / 2, room));
    assert Pow2(Halvings(r, room)) == 2 * half;
    hide Pow2, Halvings;
    DivModShift(0, 2, half);
    ModMod(r + 1, 2, 2 * half);
  }

  /**
   The guard of the halving loop is the exact condition on the remainder, unless this ends in ones where it is
   cut: all divisions that leave it agree with the wide version if and only if it is below 2^(bits - f), so that
   nothing is halved.
   */
  lemma RoomIsNeeded(r: nat, bits: nat, f: nat)
    requires Format(bits, f) && InRange(r + 1, bits)
    requires r < Pow2(bits - f) || CutHidesOne(r, bits, f)
    ensures (forall n, d :: InRange(n, bits) && InRange(d, bits) && d != 0 && Abs(n) % Abs(d) == r ==>
               FallbackDivide(n, d, bits, f) == WideDivide(n, d, bits, f))
            <==> r < Pow2(bits - f)
  {
    hide FallbackDivide, WideDivide;
    assert Pow2(bits) == 2 * Pow2(bits - 1);
    if r < Pow2(bits - f) {
      forall n, d | InRange(n, bits) && InRange(d, bits) && d != 0 && Abs(n) % Abs(d) == r
        ensures FallbackDivide(n, d, bits, f) == WideDivide(n, d, bits, f)
      {
        DivideAgrees(n, d, bits, f);
      }
    } else {
      ModSmall(r, r + 1);
      HiddenCutAlike(r, bits, f);
      CutAlikeDiffers(r, r + 1, bits, f);
      assert InRange(r, bits);
    }
  }

  /** Others can be luckier: this one has no room in FixedPoint<62, 2>, and all divisions that leave it agree. */
  lemma OnesMayAgree(n: int, d: int)
    requires InRange(n, 64) && InRange(d, 64) && d != 0 && Abs(n) % Abs(d) == 0x7FFF_FFFF_FFFF_FFFF
    ensures Pow2(64 - 2) <= 0x7FFF_FFFF_FFFF_FFFF
    ensures FallbackDivide(n, d, 64, 2) == WideDivide(n, d, 64, 2)
  {
    Powers();
    assert Pow2(63) == 2 * Pow2(62) && Pow2(2) == 4;
    LastHalving();
    hide Pow2, FallbackDivide, WideDivide, Reduced;
    assert Abs(d) == 0x8000_0000_0000_0000;
    DivideAgreesExactly(n, d, 64, 2);
  }

  lemma LastHalving()
    ensures Reduced(0x7FFF_FFFF_FFFF_FFFF, 0x8000_0000_0000_0000, 0x4000_0000_0000_0000)
         == (0x3FFF_FFFF_FFFF_FFFF, 0x4000_0000_0000_0000)
  {
  }

  /** The halving drops the low bits: some power of two is divided out of both. */
  lemma {:induction false} HalvedBy(l1: nat, l2: nat, room: nat) returns (k: nat)
    requires 2 <= room && l1 <= l2 && 0 < l2
    ensures var (a, b) := Reduced(l1, l2, room);
            a * k <= l1 < a * k + k && b * k <= l2 < b * k + k && (l1 < room || a >= room / 2)
    ensures 0 < k
  {
    if l1 < room {
      k := 1;
    } else {
      var h := HalvedBy(l1 / 2, l2 / 2, room);
      k := 2 * h;
      var (a, b) := Reduced(l1, l2, room);
      hide Reduced;
      Doubled(l1, a, h);
      Doubled(l2, b, h);
    }
  }

  lemma Doubled(x: nat, a: nat, h: nat)
    requires a * h <= x / 2 < a * h + h
    ensures a * (2 * h) <= x < a * (2 * h) + 2 * h
  {
    assert a * (2 * h) == 2 * (a * h);
  }

  /** How far off a cut can put the fraction bits. */
  function Slack(bits: nat, f: nat): (e: nat)
    requires Format(bits, f)
    ensures 2 * f < bits ==> e == 1
  {
    if 2 * f < bits then 1 else Pow2(2 * f - bits + 1)
  }

  lemma SlackSuffices(bits: nat, f: nat)
    requires Format(bits, f)
    ensures 0 < Slack(bits, f) && Pow2(f) <= Slack(bits, f) * Pow2(bits - f - 1)
    ensures Pow2(bits - f) == 2 * Pow2(bits - f - 1)
  {
    if 2 * f < bits {
      Pow2Divides(f, bits - f - 1);
    } else {
      Pow2Add(2 * f - bits + 1, bits - f - 1);
    }
  }

  /** With fewer fraction than integer bits the fraction bits are off by one at most, else by 2^(2f - bits + 1). */
  lemma FractionOff(r: nat, d: nat, bits: nat, f: nat)
    requires Format(bits, f) && r < d
    ensures Scaled(r, d, Pow2(f)) - Slack(bits, f) <= FractionBits(r, d, bits, f) <= Scaled(r, d, Pow2(f)) + Slack(bits, f)
  {
    hide Pow2, Reduced, Slack, Scaled;
    Room(bits, f);
    SlackSuffices(bits, f);
    if r < Pow2(bits - f) {
      RoomKeepsBits(r, d, bits, f);
    } else {
      CutOff(r, d, Pow2(bits - f), Pow2(bits - f - 1), Pow2(f), Slack(bits, f));
    }
  }

  lemma CutOff(r: nat, d: nat, room: nat, half: nat, p: nat, e: nat)
    requires 2 <= room <= r < d && room == 2 * half && 0 < p <= e * half && 0 < e
    ensures var (a, b) := Reduced(r, d, room); Scaled(r, d, p) - e <= Scaled(a, b, p) <= Scaled(r, d, p) + e
  {
    hide Reduced, Scaled;
    var k := HalvedBy(r, d, room);
    var (a, b) := Reduced(r, d, room);
    MulMonotone(half, b, e);
    CutQuotient(r, d, a, b, k, p, e);
  }

  lemma CutQuotient(r: nat, d: nat, a: nat, b: nat, k: nat, p: nat, e: nat)
    requires 0 < k && r < d && a * k <= r < a * k + k && b * k <= d < b * k + k && a <= b && 0 < b
    requires 0 < p <= e * b && 0 < e
    ensures Scaled(r, d, p) - e <= Scaled(a, b, p) <= Scaled(r, d, p) + e
  {
    var lo: int, exact: int := Scaled(a, b, p), Scaled(r, d, p);
    QuotientAtMost(a, b, p);
    QuotientFits(a * p, b);
    QuotientFits(r * p, d);
    hide Scaled;
    CutNotAbove(r, d, a, b, k, p, lo, e);
    CutNotBelow(r, d, a, b, k, p, exact, e);
    NotAbove(lo - e, r, d, p);
    NotAbove(exact - e, a, b, p);
  }

  lemma QuotientFits(x: nat, d: nat)
    requires 0 < d
    ensures (x / d) * d <= x
  {
  }

  lemma NotAbove(q: int, a: nat, d: nat, p: nat)
    requires 0 < d && q * d <= a * p
    ensures q <= Scaled(a, d, p)
  {
    var s := Scaled(a, d, p);
    assert a * p == d * s + (a * p) % d;
    if q > s {
      MulMonotone(s + 1, q, d);
      MulDistribute(s, 1, d);
      assert false;
    }
  }

  lemma MulMonotone(a: int, b: int, c: int)
    requires a <= b && 0 <= c
    ensures a * c <= b * c
  {
  }

  /** The cut quotient less the slack is not above the exact one, */
  lemma CutNotAbove(r: nat, d: nat, a: nat, b: nat, k: nat, p: nat, lo: int, e: int)
    requires 0 < k && a * k <= r && d < b * k + k && 0 <= lo <= p <= e * b && lo * b <= a * p && 0 < e
    ensures (lo - e) * d <= r * p
  {
    if lo <= e {
      MulMonotone(lo - e, 0, d);
      MulMonotone(0, r, p);
    } else {
      MulDistribute(b, 1, k);
      MulMonotone(d, (b + 1) * k, lo - e);
      ProductLess(lo, b, e);
      MulMonotone((lo - e) * (b + 1), a * p, k);
      MulAssoc(lo - e, b + 1, k);
      MulMonotone(a * k, r, p);
      Swap(a, p, k);
    }
  }

  lemma ProductLess(lo: int, b: int, e: int)
    ensures (lo - e) * (b + 1) == lo * b + lo - e * b - e
  {
    MulDistribute(lo, -e, b + 1);
  }

  lemma Swap(a: int, p: int, k: int)
    ensures (a * p) * k == (a * k) * p
  {
  }

  /** and the exact quotient less the slack is not above the cut one. */
  lemma CutNotBelow(r: nat, d: nat, a: nat, b: nat, k: nat, p: nat, exact: int, e: int)
    requires 0 < k && r < a * k + k && b * k <= d && 0 < p <= e * b && 0 <= exact && exact * d <= r * p
    ensures (exact - e) * b <= a * p
  {
    MulMonotone(b * k, d, exact);
    MulDistribute(a, 1, k);
    MulLess(r, (a + 1) * k, p);
    MulAssoc(exact, b, k);
    Swap(a + 1, p, k);
    if exact * b >= (a + 1) * p {
      MulMonotone((a + 1) * p, exact * b, k);
      assert false;
    }
    MulDistribute(exact, -e, b);
    MulDistribute(a, 1, p);
  }

  /** The or loses a fraction that was cut to one. */
  ghost predicate LosesCarry(n: nat, d: nat, bits: nat, f: nat)
    requires Format(bits, f) && 0 < d
  {
    CutAlike(n % d, d, bits, f) && (n / d) % 2 == 1
  }

  /** By how much a magnitude or a quotient may be off: by the slack, or if the or loses the carry, by about one. */
  ghost predicate OffBy(delta: int, lost: bool, bits: nat, f: nat)
    requires Format(bits, f)
  {
    if lost then 0 < delta + Pow2(f) <= Slack(bits, f) else 0 <= delta + Slack(bits, f) <= 2 * Slack(bits, f)
  }

  lemma MagnitudeOff(n: nat, d: nat, bits: nat, f: nat) returns (delta: int)
    requires Format(bits, f) && 0 < d <= Pow2(bits)
    ensures OffBy(delta, LosesCarry(n, d, bits, f), bits, f)
    ensures FallbackMagnitude(n, d, bits, f) % Pow2(bits) == (Scaled(n, d, Pow2(f)) + delta) % Pow2(bits)
  {
    hide Pow2, BitOr, FallbackMagnitude, FractionBits, Scaled, Shifted, CutAlike, Slack;
    var m, p, x, r := Pow2(bits), Pow2(f), Shifted(n / d, f), n % d;
    var lo := if LosesCarry(n, d, bits, f) then 0 else FractionBits(r, d, bits, f);
    delta := lo - Scaled(r, d, p);
    ScaledQuotient(n, d, f);
    FractionBelowOne(n, d, p);
    FractionBitsBound(r, d, bits, f);
    FractionOne(r, d, bits, f);
    FractionOff(r, d, bits, f);
    MagnitudeSum(n, d, bits, f);
    ModAddMultiple(x, lo, m);
  }

  /** The division is as far off, in the direction of its sign. */
  lemma DivideOff(n: int, d: int, bits: nat, f: nat) returns (delta: int)
    requires Format(bits, f) && d != 0 && Abs(d) <= Pow2(bits)
    ensures OffBy(delta, LosesCarry(Abs(n), Abs(d), bits, f), bits, f)
    ensures FallbackDivide(n, d, bits, f)
         == Wrap(TruncDiv(n * Pow2(f), d) + if (n < 0) != (d < 0) then -delta else delta, bits)
  {
    hide Pow2, Wrap, FallbackMagnitude, LosesCarry, OffBy, Scaled, TruncDiv;
    var mag, x := FallbackMagnitude(Abs(n), Abs(d), bits, f), Scaled(Abs(n), Abs(d), Pow2(f));
    delta := MagnitudeOff(Abs(n), Abs(d), bits, f);
    SignedQuotient(n, d, Pow2(f));
    NegateWrap(mag, bits);
    SameSigned(mag, x + delta, bits);
  }

  /** In FixedPoint<32, 32> the slack is two, and two it can be. */
  lemma OffByTwo()
    ensures Slack(64, 32) == 2 && !LosesCarry(0x1_76DF_8C5F_E8F8, 0x1_76DF_8F20_10C2, 64, 32)
    ensures WideDivide(0x1_76DF_8C5F_E8F8, 0x1_76DF_8F20_10C2, 64, 32) == 4294966815
    ensures FallbackDivide(0x1_76DF_8C5F_E8F8, 0x1_76DF_8F20_10C2, 64, 32) == 4294966813
  {
    Powers();
    assert Pow2(1) == 2;
    hide Pow2, FallbackDivide, WideDivide, CutAlike;
    TwoTooSmall();
    ExactOfTwo();
  }

  lemma ExactOfTwo()
    ensures WideDivide(0x1_76DF_8C5F_E8F8, 0x1_76DF_8F20_10C2, 64, 32) == 4294966815
  {
    Powers();
    hide Pow2, Wrap;
    assert TruncDiv(0x1_76DF_8C5F_E8F8 * 0x1_0000_0000, 0x1_76DF_8F20_10C2) == 4294966815;
    WrapFits(4294966815, 64);
  }

  lemma TwoTooSmall()
    ensures FallbackDivide(0x1_76DF_8C5F_E8F8, 0x1_76DF_8F20_10C2, 64, 32) == 4294966813
  {
    Powers();
    SeventeenHalvings();
    hide Pow2, Reduced, Wrap, FallbackMagnitude, BitOr;
    var lo := Quotient(Shl(0xBB6F_C62F, 32, 64), 0xBB6F_C790);
    assert Shl(0xBB6F_C62F, 32, 64) == 0xBB6F_C62F_0000_0000;
    assert lo == 4294966813 && Shl(0, 32, 64) == 0;
    hide Shl, Quotient;
    MagnitudeParts(0x1_76DF_8C5F_E8F8, 0x1_76DF_8F20_10C2, 64, 32, 0, 0x1_76DF_8C5F_E8F8, 0xBB6F_C62F, 0xBB6F_C790);
    OrNothing(4294966813);
    WrapFits(4294966813, 64);
  }

  lemma SeventeenHalvings()
    ensures Reduced(0x1_76DF_8C5F_E8F8, 0x1_76DF_8F20_10C2, 0x1_0000_0000) == (0xBB6F_C62F, 0xBB6F_C790)
  {
    ReducedIs(0x1_76DF_8C5F_E8F8, 0x1_76DF_8F20_10C2, 0x1_0000_0000);
    hide Reduced, Pow2;
    SeventeenTimes();
  }

  lemma SeventeenTimes()
    ensures Halvings(0x1_76DF_8C5F_E8F8, 0x1_0000_0000) == 17 && Pow2(17) == 0x2_0000
  {
    var room := 0x1_0000_0000;
    assert Halvings(0xBB6F_C62F, room) == 0;
    assert Halvings(0xB_B6FC_62FF, room) == 4;
    assert Halvings(0xBB_6FC6_2FF4, room) == 8;
    assert Halvings(0xBB6_FC62_FF47, room) == 12;
    assert Halvings(0xBB6F_C62F_F47C, room) == 16;
    assert Pow2(4) == 16;
    Pow2Add(4, 4);
    Pow2Add(8, 8);
  }

  lemma SameSigned(x: int, y: int, bits: nat)
    requires 0 < bits
    ensures x % Pow2(bits) == y % Pow2(bits) ==> Wrap(x, bits) == Wrap(y, bits) && Wrap(-x, bits) == Wrap(-y, bits)
  {
    SameWord(x, y, bits);
    SameNegation(x, y, bits);
  }

  /** The magnitude is the sum of quotient and fraction bits, unless these are one and the quotient is odd. */
  lemma MagnitudeSum(n: nat, d: nat, bits: nat, f: nat)
    requires Format(bits, f) && 0 < d
    ensures FallbackMagnitude(n, d, bits, f)
         == Shl(n / d, f, bits) + if CutAlike(n % d, d, bits, f) && (n / d) % 2 == 1 then 0 else FractionBits(n % d, d, bits, f)
  {
    Parity(n / d, bits, f);
    hide Pow2, BitOr, FallbackMagnitude, FractionBits, Shl, CutAlike;
    var c, lo := (n / d) % Pow2(bits - f), FractionBits(n % d, d, bits, f);
    MagnitudeBits(n, d, bits, f);
    FractionBitsBound(n % d, d, bits, f);
    FractionOne(n % d, d, bits, f);
    if lo < Pow2(f) { OrIsAdd(c, lo, f); } else { OrOne(c, f); }
  }

  lemma Parity(q: nat, bits: nat, f: nat)
    requires Format(bits, f)
    ensures (q % Pow2(bits - f)) % 2 == q % 2
  {
    var half := Pow2(bits - f - 1);
    assert Pow2(bits - f) == 2 * half;
    hide Pow2;
    DivModShift(0, 2, half);
    ModMod(q, 2, 2 * half);
  }

  /** A remainder without room in FixedPoint<50, 14>, and a quotient that is one too large. */
  lemma LargeRemainderDiffers()
    ensures InRange(0x4_0000_0000_0000, 64) && InRange(0x8_0000_0000_0001, 64)
    ensures 0x4_0000_0000_0000 % 0x8_0000_0000_0001 >= Pow2(64 - 14)
    ensures WideDivide(0x4_0000_0000_0000, 0x8_0000_0000_0001, 64, 14) == 8191
    ensures FallbackDivide(0x4_0000_0000_0000, 0x8_0000_0000_0001, 64, 14) == 8192
  {
    Powers();
    hide Pow2, Reduced, Wrap, FallbackMagnitude, BitOr;
    HalvedOnce();
    MagnitudeParts(0x4_0000_0000_0000, 0x8_0000_0000_0001, 64, 14, 0, 0x4_0000_0000_0000, 0x2_0000_0000_0000, 0x4_0000_0000_0000);
    OrNothing(8192);
    WrapFits(8191, 64);
    WrapFits(8192, 64);
  }

  lemma HalvedOnce()
    ensures Reduced(0x4_0000_0000_0000, 0x8_0000_0000_0001, 0x4_0000_0000_0000) == (0x2_0000_0000_0000, 0x4_0000_0000_0000)
  {
  }

  /** And one that is too small by almost one, because the fraction is cut to one and the quotient is odd. */
  lemma CarryIsLost()
    ensures InRange(0x4000_0000_0000_0001, 64) && InRange(0x2000_0000_0000_0001, 64)
    ensures WideDivide(0x4000_0000_0000_0001, 0x2000_0000_0000_0001, 64, 14) == 32767
    ensures FallbackDivide(0x4000_0000_0000_0001, 0x2000_0000_0000_0001, 64, 14) == 16384
  {
    var n, d := 0x4000_0000_0000_0001, 0x2000_0000_0000_0001;
    Powers();
    hide Pow2, Reduced, Wrap, FallbackMagnitude, BitOr, FractionBits, CutAlike;
    assert n / d == 1 && n % d == 0x2000_0000_0000_0000;
    EvenHidesOne(0x2000_0000_0000_0000, 64, 14);
    HiddenCutAlike(0x2000_0000_0000_0000, 64, 14);
    var delta := MagnitudeOff(n, d, 64, 14);
    assert delta == -16383;
    assert Scaled(n, d, 16384) == 32767;
    SameWord(FallbackMagnitude(n, d, 64, 14), 16384, 64);
    WrapFits(32767, 64);
    WrapFits(16384, 64);
  }

  lemma OrNothing(a: nat)
    ensures BitOr(0, a) == a && BitOr(a, 0) == a
  {
  }

  lemma Powers()
    ensures Pow2(14) == 0x4000 && Pow2(32) == 0x1_0000_0000 && Pow2(50) == 0x4_0000_0000_0000
    ensures Pow2(63) == 0x8000_0000_0000_0000 && Pow2(64) == 0x1_0000_0000_0000_0000
  {
    assert Pow2(4) == 16 && Pow2(2) == 4;
    assert Pow2(64) == 2 * Pow2(63);
    hide Pow2;
    Pow2Add(4, 4);
    Pow2Add(8, 4);
    Pow2Add(12, 2);
    Pow2Add(8, 8);
    Pow2Add(16, 16);
    Pow2Add(16, 2);
    Pow2Add(32, 18);
    Pow2Add(32, 32);
  }

  // ---------------------------------------------------------------------------------------------
  // Multiplication in four parts
  // ---------------------------------------------------------------------------------------------

  /** detail::multiply where no wider type exists; every product is cut to the base type. */
  function FallbackMultiply(a: int, b: int, bits: nat, f: nat): int
    requires Format(bits, f)
  {
    var p := Pow2(f);
    var aHi, aLo, bHi, bLo := a / p, a % p, b / p, b % p;
    var x1, x2, x3, x4 := Wrap(aHi * bHi, bits), Wrap(aHi * bLo, bits), Wrap(aLo * bHi, bits), Wrap(aLo * bLo, bits);
    Wrap(Wrap(x1 * p, bits) + Wrap(x3 + x2, bits) + x4 / p, bits)
  }

  /** The product of the fraction parts, the only one whose low bits are shifted out. */
  function LowPart(a: int, b: int, p: nat): int
    requires 0 < p
  {
    (a % p) * (b % p)
  }

  function HighParts(a: int, b: int, p: nat): int
    requires 0 < p
  {
    ((a / p) * (b / p)) * p + (a / p) * (b % p) + (a % p) * (b / p)
  }

  /** The scaled product, put together from its four parts. */
  lemma FourParts(a: int, b: int, p: nat)
    requires 0 < p
    ensures (a * b) / p == HighParts(a, b, p) + LowPart(a, b, p) / p
  {
    Partwise(a, b, p, a / p, a % p, b / p, b % p);
  }

  lemma Partwise(a: int, b: int, p: nat, ah: int, al: int, bh: int, bl: int)
    requires 0 < p && a == p * ah + al && b == p * bh + bl
    ensures (a * b) / p == (ah * bh) * p + ah * bl + al * bh + (al * bl) / p
  {
    Expand(p, ah, al, bh, bl);
    QuotientOfSum(a * b, al * bl, p, (ah * bh) * p + ah * bl + al * bh);
  }

  lemma QuotientOfSum(x: int, y: int, p: nat, k: int)
    requires 0 < p && x == y + p * k
    ensures x / p == k + y / p
  {
    DivModShift(y, p, k);
  }

  lemma Expand(p: int, ah: int, al: int, bh: int, bl: int)
    ensures (p * ah + al) * (p * bh + bl) == al * bl + p * ((ah * bh) * p + ah * bl + al * bh)
  {
    MulDistribute(p * ah, al, p * bh + bl);
    assert (p * ah) * (p * bh + bl) == (p * ah) * (p * bh) + (p * ah) * bl;
    assert al * (p * bh + bl) == al * (p * bh) + al * bl;
    assert (p * ah) * (p * bh) == p * ((ah * bh) * p);
    assert (p * ah) * bl == p * (ah * bl);
    assert al * (p * bh) == p * (al * bh);
    assert p * ((ah * bh) * p + ah * bl + al * bh) == p * ((ah * bh) * p) + p * (ah * bl) + p * (al * bh);
  }

  /** Wrapped terms can be replaced by unwrapped ones inside a wrapped sum. */
  lemma WrapTerm(x: int, y: int, bits: nat)
    requires 0 < bits
    ensures Wrap(Wrap(x, bits) + y, bits) == Wrap(x + y, bits)
  {
    hide Pow2, Wrap;
    var k := WordsOff(x, bits);
    SameWrap(x + y, Wrap(x, bits) + y, k, bits);
  }

  lemma WrapFactor(x: int, p: int, bits: nat)
    requires 0 < bits
    ensures Wrap(Wrap(x, bits) * p, bits) == Wrap(x * p, bits)
  {
    hide Pow2, Wrap;
    var k := WordsOff(x, bits);
    MulDistribute(Wrap(x, bits), Pow2(bits) * k, p);
    MulAssoc(Pow2(bits), k, p);
    SameWrap(x * p, Wrap(x, bits) * p, k * p, bits);
  }

  /** All but the last part may be left unwrapped. */
  lemma PartsUnwrapped(a: int, b: int, bits: nat, f: nat)
    requires Format(bits, f)
    ensures FallbackMultiply(a, b, bits, f) == Wrap(HighParts(a, b, Pow2(f)) + Wrap(LowPart(a, b, Pow2(f)), bits) / Pow2(f), bits)
  {
    hide Pow2, Wrap;
    var p := Pow2(f);
    var y1, y2, y3 := (a / p) * (b / p), (a / p) * (b % p), (a % p) * (b / p);
    var t := Wrap((a % p) * (b % p), bits) / p;
    WrapFactor(y1, p, bits);
    var s23 := Wrap(Wrap(y3, bits) + Wrap(y2, bits), bits);
    WrapTerm(y3, Wrap(y2, bits), bits);
    WrapTerm(y2, y3, bits);
    assert s23 == Wrap(y2 + y3, bits);
    WrapTerm(y1 * p, s23 + t, bits);
    WrapTerm(y2 + y3, y1 * p + t, bits);
  }

  /** Multiplication agrees with the wide version exactly when the product of the fraction parts fits. */
  lemma MultiplyAgreesExactly(a: int, b: int, bits: nat, f: nat)
    requires Format(bits, f)
    ensures FallbackMultiply(a, b, bits, f) == WideMultiply(a, b, bits, f)
            <==> (a % Pow2(f)) * (b % Pow2(f)) < Pow2(bits - 1)
  {
    var p := Pow2(f);
    hide Pow2, Wrap, FallbackMultiply, HighParts;
    var x4 := LowPart(a, b, p);
    PartsUnwrapped(a, b, bits, f);
    FourParts(a, b, p);
    LowProduct(a % p, b % p, p);
    if x4 < Pow2(bits - 1) {
      WrapFits(x4, bits);
    } else {
      WrappedPartOff(x4, bits, f);
      DifferentWraps(HighParts(a, b, p), Wrap(x4, bits) / p, x4 / p, bits);
    }
  }

  lemma WrapFits(x: nat, bits: nat)
    requires 0 < bits && x < Pow2(bits - 1)
    ensures Wrap(x, bits) == x
  {
    assert Pow2(bits) == 2 * Pow2(bits - 1);
    ModSmall(x, Pow2(bits));
  }

  lemma LowProduct(x: nat, y: nat, p: nat)
    requires x < p && y < p
    ensures 0 <= x * y < p * p
  {
    assert x * y <= x * p;
    MulLess(x, p, p);
  }

  /** A cut fraction product is off by a multiple of the word that the shift does not carry out of it. */
  lemma WrappedPartOff(x4: nat, bits: nat, f: nat)
    requires Format(bits, f) && Pow2(bits - 1) <= x4 < Pow2(f) * Pow2(f)
    ensures 0 < x4 / Pow2(f) - Wrap(x4, bits) / Pow2(f) < Pow2(bits)
  {
    Room(bits, f);
    WrapBounds(x4, bits);
    assert Pow2(bits) == 2 * Pow2(bits - 1);
    hide Pow2, Wrap;
    var k := WordsOff(x4, bits);
    OffByWords(x4, Wrap(x4, bits), k, Pow2(f), Pow2(bits - f), Pow2(bits - 1));
  }

  lemma WrapBounds(x: int, bits: nat)
    requires 0 < bits
    ensures 0 <= Wrap(x, bits) + Pow2(bits - 1) < Pow2(bits)
  {
    assert Pow2(bits) == 2 * Pow2(bits - 1);
    hide Pow2;
  }

  lemma OffByWords(x: nat, w: int, k: int, p: nat, h: nat, half: nat)
    requires 0 < p && 2 <= h && 2 * half == h * p && half <= x < p * p && 0 <= w + half < h * p
    requires x == w + (h * p) * k
    ensures 0 < x / p - w / p < h * p
  {
    FewWords(x, w, k, p, h, half);
    Rearrange(h, p, k);
    DivModShift(w, p, h * k);
    MulLess(k, p, h);
    MulLess(0, k, h);
    assert h * k == k * h && h * p == p * h;
  }

  lemma Rearrange(h: int, p: int, k: int)
    ensures (h * p) * k == p * (h * k)
  {
    MulAssoc(p, h, k);
    assert h * p == p * h;
  }

  lemma FewWords(x: nat, w: int, k: int, p: nat, h: nat, half: nat)
    requires 0 < p && 2 <= h && 2 * half == h * p && half <= x < p * p && 0 <= w + half < h * p
    requires x == w + (h * p) * k
    ensures 0 < k < p
  {
    var m := h * p;
    if k <= 0 {
      Negative(m, k);
      assert false;
    }
    if k >= p {
      TwoWords(p, h, k, m);
      assert false;
    }
  }

  lemma Negative(m: nat, k: int)
    requires k <= 0
    ensures m * k <= 0
  {
  }

  lemma TwoWords(p: nat, h: nat, k: int, m: nat)
    requires 0 < p <= k && 2 <= h && m == h * p
    ensures 2 * (m * k) >= 2 * (p * p) + m
  {
    MulMonotone(p, k, m);
    MulMonotone(1, p, m);
    MulAssoc(h, p, p);
    MulMonotone(0, p, p);
    MulMonotone(2, h, p * p);
  }

  lemma DifferentWraps(x: int, y: int, z: int, bits: nat)
    requires 0 < bits && 0 < z - y < Pow2(bits)
    ensures Wrap(x + y, bits) != Wrap(x + z, bits)
  {
    hide Pow2, Wrap;
    if Wrap(x + y, bits) == Wrap(x + z, bits) {
      var k := WordsOff(x + y, bits);
      var l := WordsOff(x + z, bits);
      MulDistribute(l, -k, Pow2(bits));
      MulSmall(Pow2(bits), l - k);
    }
  }

  /** The largest fraction of FixedPoint<32, 32>, squared: the product of the fractions takes the sign bit. */
  lemma MultiplyDiffers()
    ensures WideMultiply(0xFFFF_FFFF, 0xFFFF_FFFF, 64, 32) == 0xFFFF_FFFE
    ensures FallbackMultiply(0xFFFF_FFFF, 0xFFFF_FFFF, 64, 32) == -2
  {
    Powers();
    var a := 0xFFFF_FFFF;
    hide Pow2;
    assert a / 0x1_0000_0000 == 0 && a % 0x1_0000_0000 == a && a * a == 0xFFFF_FFFE_0000_0001;
    assert Wrap(0, 64) == 0 && Wrap(a * a, 64) == -0x1_FFFF_FFFF;
  }

  /** With fewer fraction than integer bits, multiplication always agrees. */
  lemma MultiplyAgrees(a: int, b: int, bits: nat, f: nat)
    requires Format(bits, f) && 2 * f < bits
    ensures FallbackMultiply(a, b, bits, f) == WideMultiply(a, b, bits, f)
  {
    var p := Pow2(f);
    LowProduct(a % p, b % p, p);
    Pow2Add(f, f);
    Pow2Divides(2 * f, bits - 1);
    MultiplyAgreesExactly(a, b, bits, f);
  }
}
