/** 64-bit division from a 64-by-32-bit divide instruction, on machine words of explicit width. */
module Arithmetic {
  import opened Bits

  const TWO31 := 0x8000_0000
  const TWO32 := 0x1_0000_0000
  const TWO63 := 0x8000_0000_0000_0000
  const TWO64 := 0x1_0000_0000_0000_0000

  type Uint64 = x: int | 0 <= x < TWO64
  type Int64 = x: int | -TWO63 <= x < TWO63
  type Int32 = x: int | -TWO31 <= x < TWO31

  /** Conversions between the integer types keep the low bits. */
  function ToUint64(x: int): (r: Uint64)
    ensures 0 <= x < TWO64 ==> r == x
  {
    x % TWO64
  }

  function ToInt64(x: int): (r: Int64)
    ensures -TWO63 <= x < TWO63 ==> r == x
  {
    if x % TWO64 < TWO63 then x % TWO64 else x % TWO64 - TWO64
  }

  function ToInt32(x: int): (r: Int32)
    ensures -TWO31 <= x < TWO31 ==> r == x
  {
    if x % TWO32 < TWO31 then x % TWO32 else x % TWO32 - TWO32
  }

  // ----- Quotients -----

  /** `q` is `n` divided by `d`, rounded down. */
  predicate IsQuotient(n: int, d: int, q: int) {
    q * d <= n < q * d + d
  }

  lemma Scale(a: int, b: int, c: int)
    requires a <= b && 0 <= c
    ensures a * c <= b * c
  {
  }

  /** The exact answers. */
  function Quotient(n: nat, d: nat): nat
    requires d > 0
  {
    n / d
  }

  function Remainder(n: nat, d: nat): nat
    requires d > 0
  {
    n % d
  }

  lemma Divides(n: nat, d: nat)
    requires d > 0
    ensures IsQuotient(n, d, Quotient(n, d)) && Remainder(n, d) == n - Quotient(n, d) * d
  {
  }

  lemma OneQuotient(n: int, d: int, p: int, q: int)
    requires d > 0 && IsQuotient(n, d, p) && IsQuotient(n, d, q)
    ensures p == q
  {
    if p < q {
      Scale(p + 1, q, d);
    } else if q < p {
      Scale(q + 1, p, d);
    }
  }

  lemma QuotientIs(n: nat, d: nat, q: nat)
    requires d > 0 && IsQuotient(n, d, q)
    ensures Quotient(n, d) == q
  {
    Divides(n, d);
    OneQuotient(n, d, Quotient(n, d), q);
  }

  lemma QuotientLess(n: int, d: int, q: int, m: int)
    requires d > 0 && IsQuotient(n, d, q) && n < m * d
    ensures q < m
  {
    if m <= q {
      Scale(m, q, d);
    }
  }

  /** Dividing twice is dividing by the product. */
  lemma DivDiv(x: int, a: int, y: int, b: int, q: int)
    requires a > 0 && b > 0 && IsQuotient(x, a, y) && IsQuotient(y, b, q)
    ensures IsQuotient(x, a * b, q)
  {
    Scale(q * b, y, a);
    Scale(y + 1, q * b + b, a);
    assert q * b * a == q * (a * b);
    assert (q * b + b) * a == q * (a * b) + a * b;
  }

  // ----- The instruction and the leading zeros -----

  /** `divl`: the precondition is what keeps the instruction from trapping. */
  method Divl(n: Uint64, d: Word) returns (q: Word)
    requires d != 0 && n < d * TWO32
    ensures IsQuotient(n, d, q)
  {
    hide Quotient;
    Divides(n, d);
    q := Quotient(n, d);
    QuotientLess(n, d, q, TWO32);
  }

  lemma SmallPowers()
    ensures Pow2(0) == 1 && Pow2(1) == 2 && Pow2(2) == 4 && Pow2(4) == 16 && Pow2(8) == 256 && Pow2(16) == 65536
  {
    Pow2Sum(1, 1);
    Pow2Sum(2, 2);
    Pow2Sum(4, 4);
    Pow2Sum(8, 8);
  }

  /** A shift to the left that loses nothing. */
  function Shl(x: int, n: nat): int {
    x * Pow2(n)
  }

  lemma ShlAdd(x: int, n: nat, k: nat)
    ensures Shl(x, n + k) == Shl(Shl(x, n), k)
  {
    Pow2Sum(n, k);
    var a, b := Pow2(n), Pow2(k);
    assert x * (a * b) == x * a * b;
  }

  lemma ShlSmall(y: int)
    ensures Shl(y, 0) == y && Shl(y, 1) == 2 * y && Shl(y, 2) == 4 * y && Shl(y, 4) == 16 * y
    ensures Shl(y, 8) == 256 * y && Shl(y, 16) == 65536 * y
  {
    SmallPowers();
  }

  /** `nlz`: the shift that brings the leading one to the top. */
  method Nlz(x: Word) returns (n: nat)
    requires x != 0
    ensures n <= 31 && TWO31 <= Shl(x, n) < TWO32
  {
    hide Shl;
    ShlSmall(x);
    var y;
    n, y := Halve(x, 0, x, 0x0000_FFFF, 16, 65536);
    n, y := Halve(x, n, y, 0x00FF_FFFF, 8, 256);
    n, y := Halve(x, n, y, 0x0FFF_FFFF, 4, 16);
    n, y := Halve(x, n, y, 0x3FFF_FFFF, 2, 4);
    if y <= 0x7FFF_FFFF {
      ShlAdd(x, n, 1);
      ShlSmall(y);
      n := n + 1;
    }
  }

  /** One of the tests of `nlz`: shift by `k` bits, multiplying by `p`, if the top `k` bits are clear. */
  method Halve(ghost x: int, n: nat, y: Word, limit: Word, k: nat, p: nat) returns (n': nat, y': Word)
    requires y == Shl(x, n) && limit * p + p == TWO32
    requires (k, p) in {(16, 65536), (8, 256), (4, 16), (2, 4)}
    ensures y' == Shl(x, n')
    ensures if y <= limit then n' == n + k && y' == y * p else n' == n && y' == y
  {
    n', y' := n, y;
    if y <= limit {
      ShlAdd(x, n, k);
      ShlSmall(y);
      hide Shl;
      Scale(y, limit, p);
      n', y' := n + k, y * p % TWO32;
    }
  }

  // ----- Unsigned division -----

  /** `udiv64` */
  method Udiv64(n: Uint64, d: Uint64) returns (q: Uint64)
    requires d != 0
    ensures q == Quotient(n, d)
  {
    if d / TWO32 == 0 {
      q := DivideNarrow(n, d);
    } else if n < d {
      q := 0;
      assert IsQuotient(n, d, 0);
    } else {
      q := DivideWide(n, d);
    }
    QuotientIs(n, d, q);
  }

  /** `udiv64` by a divisor of 32 bits. */
  method DivideNarrow(n: Uint64, d: Word) returns (q: Uint64)
    requires d != 0
    ensures IsQuotient(n, d, q)
  {
    var n1, n0 := n / TWO32, n % TWO32;
    var m, r := DivideWord(n1, d);
    hide IsQuotient, ToUint64;
    var low := Divl(ToUint64(TWO32 * r + n0), d);
    q := ToUint64(low + ToUint64(TWO32 * m));
    AddHigh(n1, n0, d, m, r, low);
  }

  /** The 32-bit `/` and `%`. */
  method DivideWord(n: Word, d: Word) returns (m: Word, r: Word)
    requires d != 0
    ensures n == m * d + r && r < d
  {
    hide Quotient, Remainder;
    Divides(n, d);
    m, r := Quotient(n, d), Remainder(n, d);
    if 1 <= m {
      Scale(1, d, m);
    }
  }

  lemma AddHigh(n1: int, n0: int, d: int, m: int, r: int, low: int)
    requires n1 == m * d + r && IsQuotient(TWO32 * r + n0, d, low)
    ensures IsQuotient(TWO32 * n1 + n0, d, low + TWO32 * m)
  {
    assert (low + TWO32 * m) * d == low * d + TWO32 * (m * d);
  }

  /** `udiv64` by a wider divisor. */
  method DivideWide(n: Uint64, d: Uint64) returns (q: Uint64)
    requires TWO32 <= d <= n
    ensures IsQuotient(n, d, q)
  {
    hide IsQuotient, Pow2, Shl, Quotient, Remainder;
    var s := Nlz(d / TWO32);
    Normalised(d, s);
    var v := ToUint64(Shl(d, s)) / TWO32;
    var e := Divl(n / 2, v);
    var est := Quotient(e, Pow2(31 - s));
    Divides(e, Pow2(31 - s));
    Estimate(n, d, s, v, e, est);
    q := Correct(n, d, est);
  }

  /** The last line of `udiv64`: the multiplication and the subtraction do not wrap. */
  method Correct(n: Uint64, d: Uint64, est: Uint64) returns (q: Uint64)
    requires est >= 1 && 0 <= (est - 1) * d <= n < (est + 1) * d
    ensures IsQuotient(n, d, q)
  {
    var p := (est - 1) * d;
    assert est * d == p + d && (est + 1) * d == p + d + d;
    q := if ToUint64(n - ToUint64(p)) < d then est - 1 else est;
  }

  /** The divisor shifted so that its top bit is set; nothing is shifted out. */
  lemma Normalised(d: Uint64, s: nat)
    requires s <= 31 && TWO31 <= Shl(d / TWO32, s) < TWO32
    ensures 0 <= Shl(d, s) < TWO64 && TWO31 <= Shl(d, s) / TWO32 < TWO32
  {
    Pow2Sum(s, 32 - s);
    Pow2Of32();
    ShiftedTop(d / TWO32, d % TWO32, Pow2(s), Pow2(32 - s));
  }

  lemma ShiftedTop(d1: int, d0: int, a: int, b: int)
    requires 0 <= d0 < TWO32 && a > 0 && a * b == TWO32 && TWO31 <= d1 * a < TWO32
    ensures TWO31 * TWO32 <= (TWO32 * d1 + d0) * a < TWO64
  {
    TopFits(d1, a, b);
    Scale(0, d0, a);
    Scale(d0, TWO32 - 1, a);
    assert (TWO32 * d1 + d0) * a == TWO32 * (d1 * a) + d0 * a;
  }

  /** `d1 * a` is a multiple of `a` below the multiple `TWO32` of `a`. */
  lemma TopFits(d1: int, a: int, b: int)
    requires a > 0 && a * b == TWO32 && d1 * a < TWO32
    ensures d1 * a + a <= TWO32
  {
    if b <= d1 {
      Scale(b, d1, a);
    } else {
      Scale(d1 + 1, b, a);
    }
  }

  /** The estimate is the quotient or one more. */
  lemma Estimate(n: Uint64, d: Uint64, s: nat, v: Word, e: Word, q: nat)
    requires 0 < d <= n && s <= 31 && TWO31 <= v && v == Shl(d, s) / TWO32
    requires IsQuotient(n / 2, v, e) && IsQuotient(e, Pow2(31 - s), q)
    ensures q >= 1 && 0 <= (q - 1) * d <= n < (q + 1) * d
  {
    hide IsQuotient, Pow2, Shl;
    var a, p := Pow2(s), Pow2(31 - s);
    ShiftsSplit(s);
    TopQuotient(d, s);
    ByConstants(n, Shl(d, s));
    DivDiv(n, 2, n / 2, v, e);
    DivDiv(n, 2 * v, e, p, q);
    SameProduct(v, p);
    EstimateBounds(n, d, a, 2 * p, v, q);
  }

  lemma ShiftsSplit(s: nat)
    requires s <= 31
    ensures Pow2(s) > 0 && Pow2(31 - s) > 0 && Pow2(s) * (2 * Pow2(31 - s)) == TWO32
  {
    Pow2Sum(s, 32 - s);
    Pow2Of32();
    assert Pow2(32 - s) == 2 * Pow2(31 - s);
  }

  lemma TopQuotient(d: Uint64, s: nat)
    ensures IsQuotient(d * Pow2(s), TWO32, Shl(d, s) / TWO32)
  {
    ByConstants(0, Shl(d, s));
  }

  lemma SameProduct(v: int, p: int)
    ensures 2 * v * p == v * (2 * p)
  {
  }

  lemma ByConstants(n: int, m: int)
    ensures IsQuotient(n, 2, n / 2) && IsQuotient(m, TWO32, m / TWO32)
  {
  }

  lemma EstimateBounds(n: int, d: int, a: int, k: int, v: int, q: int)
    requires 0 < d <= n < TWO64 && a > 0 && k % 2 == 0 && k > 0 && a * k == TWO32 && TWO31 <= v
    requires IsQuotient(d * a, TWO32, v) && IsQuotient(n, v * k, q)
    ensures q >= 1 && 0 <= (q - 1) * d <= n < (q + 1) * d
  {
    var e := v * k;
    Scale(TWO31, v, k);
    LowBits(d, a, k, v);
    AtLeastOne(n, d, e, q);
    SmallEstimate(n, e, k, a, q);
    UpperBound(n, d, e, k, a, q);
    Scale(0, q - 1, d);
  }

  /** `v * k` is `d` with its low bits cleared. */
  lemma LowBits(d: int, a: int, k: int, v: int)
    requires a > 0 && a * k == TWO32 && IsQuotient(d * a, TWO32, v)
    ensures v * k <= d < v * k + k
  {
    var e := v * k;
    assert v * TWO32 == e * a by {
      assert v * (a * k) == v * k * a;
    }
    assert e * a + k * a == (e + k) * a;
    if d < e {
      Scale(d + 1, e, a);
    } else if e + k <= d {
      Scale(e + k, d, a);
    }
  }

  lemma AtLeastOne(n: int, d: int, e: int, q: int)
    requires 0 < e <= d <= n && IsQuotient(n, e, q)
    ensures q >= 1 && n < (q + 1) * d
  {
    if q < 1 {
      Scale(q, 0, e);
    }
    Scale(e, d, q + 1);
    assert e * (q + 1) == q * e + e;
  }

  lemma SmallEstimate(n: int, e: int, k: int, a: int, q: int)
    requires n < TWO64 && a > 0 && a * k == TWO32 && TWO31 * k <= e && IsQuotient(n, e, q)
    ensures q < 2 * a
  {
    Scale(TWO31 * k, e, 2 * a);
    assert TWO31 * k * (2 * a) == TWO32 * (a * k);
    assert e * (2 * a) == 2 * a * e;
    if 2 * a <= q {
      Scale(2 * a, q, e);
    }
  }

  lemma UpperBound(n: int, d: int, e: int, k: int, a: int, q: int)
    requires a > 0 && a * k == TWO32 && k % 2 == 0 && k > 0 && TWO31 * k <= e
    requires e <= d < e + k && 1 <= q < 2 * a && IsQuotient(n, e, q)
    ensures (q - 1) * d <= n
  {
    // (q - 1) * d == (q - 1) * e + (q - 1) * r, and the last product is at most e
    var r, j := d - e, q - 1;
    SmallCorrection(j, r, a, k, e);
    assert j * d == j * e + j * r;
    assert j * e == q * e - e;
  }

  lemma SmallCorrection(j: int, r: int, a: int, k: int, e: int)
    requires 0 <= j <= 2 * a - 2 && 0 <= r <= k - 1 && a * k == TWO32 && k % 2 == 0 && TWO31 * k <= e
    ensures j * r <= e
  {
    Scale(j, 2 * a - 2, r);
    Scale(r, k - 1, 2 * a - 2);
    assert (k - 1) * (2 * a - 2) == 2 * (a * k) - 2 * a - 2 * k + 2;
    assert r * (2 * a - 2) == (2 * a - 2) * r;
  }

  /** `umod64` keeps only the low 32 bits of the remainder, which is all of it for divisors up to 2 to the 32. */
  method Umod64(n: Uint64, d: Uint64) returns (r: Word)
    requires d != 0
    ensures r == Remainder(n, d) % TWO32
    ensures d <= TWO32 || n < TWO32 ==> r == Remainder(n, d)
  {
    hide Quotient, Remainder;
    var q := Udiv64(n, d);
    Divides(n, d);
    var p := d * q;
    r := ToUint64(n - ToUint64(p)) % TWO32;
  }

  /** `umod64` is exact for every dividend exactly when the divisor is at most 2 to the 32: a larger
      one loses the remainder of 2 to the 32. */
  lemma ExactModulus(d: Uint64)
    requires d != 0
    ensures (forall n: Uint64 :: Remainder(n, d) % TWO32 == Remainder(n, d)) <==> d <= TWO32
    ensures d > TWO32 ==> Remainder(TWO32, d) == TWO32 && Remainder(TWO32, d) % TWO32 == 0
  {
    hide Quotient, Remainder;
    if d <= TWO32 {
      forall n: Uint64
        ensures Remainder(n, d) % TWO32 == Remainder(n, d)
      {
        Divides(n, d);
      }
    } else {
      SmallDividend(TWO32, d);
      assert Remainder(TWO32, d) % TWO32 == 0;
    }
  }

  lemma SmallDividend(n: nat, d: nat)
    requires n < d
    ensures Quotient(n, d) == 0 && Remainder(n, d) == n
  {
  }

  // ----- Signed division -----

  function Abs(x: int): nat {
    if x >= 0 then x else -x
  }

  /** C's division: the quotient truncated toward zero. */
  function Truncated(n: int, d: int): int
    requires d != 0
  {
    var q: int := Quotient(Abs(n), Abs(d));
    if (n < 0) == (d < 0) then q else -q
  }

  /** `sdiv64`: exact, except for the one quotient that has no 64-bit representation. */
  method Sdiv64(n: Int64, d: Int64) returns (q: Int64)
    requires d != 0
    ensures q == Truncated(n, d) <==> !(n == -TWO63 && d == -1)
    ensures q == ToInt64(Truncated(n, d))
  {
    hide Quotient, ToInt64;
    var nAbs: Uint64 := if n >= 0 then n else ToUint64(0 - ToUint64(n) as int);
    var dAbs: Uint64 := if d >= 0 then d else ToUint64(0 - ToUint64(d) as int);
    var qAbs := Udiv64(nAbs, dAbs);
    LargestQuotient(n, d);
    Signed(qAbs);
    q := if (n < 0) == (d < 0) then ToInt64(qAbs) else ToInt64(0 - ToInt64(qAbs) as int);
  }

  lemma Signed(q: Uint64)
    requires q <= TWO63
    ensures ToInt64(q) == if q == TWO63 then -TWO63 else q
    ensures ToInt64(0 - ToInt64(q) as int) == 0 - q as int
  {
  }

  /** The quotient that `sdiv64` loses. */
  lemma LostQuotient()
    ensures Truncated(-TWO63, -1) == TWO63 && ToInt64(Truncated(-TWO63, -1)) == -TWO63
  {
  }

  lemma LargestQuotient(n: Int64, d: Int64)
    requires d != 0
    ensures var q := Quotient(Abs(n), Abs(d)); q <= TWO63 && (q == TWO63 <==> n == -TWO63 && Abs(d) == 1)
  {
    hide Quotient, Remainder;
    Divides(Abs(n), Abs(d));
    var y, q := Abs(d), Quotient(Abs(n), Abs(d));
    Scale(1, y, q);
    if y > 1 {
      Scale(2, y, q);
    }
  }

  /** C's remainder: it has the sign of the dividend. */
  function SignedRemainder(n: int, d: int): int
    requires d != 0
  {
    n - d * Truncated(n, d)
  }

  /** `smod64`: the low 32 bits of the remainder, as a signed number. That is all of it for divisors
      of magnitude up to 2 to the 31. */
  method Smod64(n: Int64, d: Int64) returns (r: Int32)
    requires d != 0
    ensures r == ToInt32(SignedRemainder(n, d))
    ensures Abs(d) <= TWO31 || -TWO31 <= n < TWO31 ==> r == SignedRemainder(n, d)
  {
    var q := Sdiv64(n, d);
    var t := Truncated(n, d);
    RemainderBounds(n, d);
    hide Truncated, Quotient, Remainder, ToInt32;
    var p := d * q;
    r := ToInt32(ToInt64(n - ToInt64(p)));
  }

  /** `smod64` is exact for every dividend exactly when the divisor's magnitude is at most 2 to the 31:
      a larger one turns the remainder of 2 to the 31 negative. */
  lemma ExactSignedModulus(d: Int64)
    requires d != 0
    ensures (forall n: Int64 :: ToInt32(SignedRemainder(n, d)) == SignedRemainder(n, d)) <==> Abs(d) <= TWO31
  {
    hide Quotient, Remainder, Truncated, SignedRemainder, ToInt32;
    if Abs(d) <= TWO31 {
      forall n: Int64
        ensures ToInt32(SignedRemainder(n, d)) == SignedRemainder(n, d)
      {
        SignedRemainderBounds(n, d);
      }
    } else {
      LostSignedRemainder(d);
    }
  }

  lemma SignedRemainderBounds(n: Int64, d: Int64)
    requires d != 0
    ensures Abs(SignedRemainder(n, d)) < Abs(d)
  {
    RemainderBounds(n, d);
  }

  /** The remainder that `smod64` loses. */
  lemma LostSignedRemainder(d: Int64)
    requires Abs(d) > TWO31
    ensures SignedRemainder(TWO31, d) == TWO31 && ToInt32(SignedRemainder(TWO31, d)) == -TWO31
  {
    SmallDividend(TWO31, Abs(d));
    hide Quotient;
  }

  lemma RemainderBounds(n: Int64, d: Int64)
    requires d != 0
    ensures var p := d * Truncated(n, d);
            && Abs(n - p) < Abs(d)
            && (if n >= 0 then 0 <= p <= n else n <= p <= 0)
  {
    hide Quotient, Remainder;
    Divides(Abs(n), Abs(d));
    var y, q, t := Abs(d), Quotient(Abs(n), Abs(d)), Truncated(n, d);
    Signs(d, y, q);
    Bounds(n, d, q * y, d * t);
  }

  lemma Bounds(n: int, d: int, w: int, p: int)
    requires w <= Abs(n) < w + Abs(d) && w >= 0 && p == if n < 0 then -w else w
    ensures Abs(n - p) < Abs(d) && (if n >= 0 then 0 <= p <= n else n <= p <= 0)
  {
  }

  lemma Signs(d: int, y: int, q: int)
    requires y == Abs(d)
    ensures d * q == (if d < 0 then -(q * y) else q * y) && d * (0 - q) == -(d * q)
  {
  }
}
