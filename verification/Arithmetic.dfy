/** 64-bit division built from an instruction that divides 64 bits by 32 bits. */
module Arithmetic {
  import opened Common
  import opened CDivision

  const TWO31 := 0x8000_0000
  const TWO63 := 0x8000_0000_0000_0000

  function Pow2(k: nat): (p: nat)
    ensures p >= 1
  {
    if k == 0 then 1 else 2 * Pow2(k - 1)
  }

  lemma {:induction false} Pow2Add(a: nat, b: nat)
    ensures Pow2(a + b) == Pow2(a) * Pow2(b)
  {
    if b > 0 {
      Pow2Add(a, b - 1);
      assert Pow2(a + b) == 2 * Pow2(a + b - 1);
      assert Pow2(a) * Pow2(b) == Pow2(a) * (2 * Pow2(b - 1));
    }
  }

  lemma Pow2Values()
    ensures Pow2(1) == 2 && Pow2(2) == 4 && Pow2(4) == 16 && Pow2(8) == 256
    ensures Pow2(16) == 0x1_0000 && Pow2(31) == TWO31 && Pow2(32) == TWO32
  {
    assert Pow2(2) == 4 && Pow2(4) == 16;
    Pow2Add(4, 4);
    Pow2Add(8, 8);
    Pow2Add(16, 16);
    assert Pow2(32) == 2 * Pow2(31);
  }

  /** The divide instruction.  It traps unless the quotient fits in 32 bits. */
  method Divl(n: nat, d: nat) returns (q: nat)
    requires n < TWO64 && 0 < d < TWO32 && n / d < TWO32
    ensures q == n / d
  {
    q := n / d;
  }

  /** The number of leading zero bits of a 32-bit X: shifting it by that much brings its top bit to bit 31. */
  method Nlz(x: nat) returns (n: nat)
    requires 0 < x < TWO32
    ensures n <= 31 && TWO31 <= x * Pow2(n) < TWO32
  {
    Pow2Values();
    assert Pow2(0) == 1;
    hide Pow2;
    var y;
    n, y := NlzStep(x, 0, x, 0x0000FFFF, 16);
    n, y := NlzStep(x, n, y, 0x00FFFFFF, 8);
    n, y := NlzStep(x, n, y, 0x0FFFFFFF, 4);
    n, y := NlzStep(x, n, y, 0x3FFFFFFF, 2);
    n, y := NlzStep(x, n, y, 0x7FFFFFFF, 1);
  }

  /** One of the five steps: if Y, which is X shifted by N, is at most LIMIT, it is shifted by K more. */
  method NlzStep(x: nat, n: nat, y: nat, limit: nat, k: nat) returns (n': nat, y': nat)
    requires y == x * Pow2(n) < TWO32 && (limit + 1) * Pow2(k) == TWO32 && limit < y * Pow2(k)
    ensures n <= n' <= n + k && limit < y' == x * Pow2(n') < TWO32
  {
    hide Pow2;
    n', y' := n, y;
    if y <= limit {
      ShiftMore(x, n, y, k);
      ShiftFits(y, limit, Pow2(k));
      n', y' := n + k, y * Pow2(k);
    }
  }

  lemma ShiftFits(y: nat, limit: nat, p: nat)
    requires y <= limit && (limit + 1) * p == TWO32 && p > 0
    ensures y * p < TWO32
  {
    MulMono(p, y + 1, limit + 1);
    assert p * (y + 1) == y * p + p;
  }

  lemma ShiftMore(x: nat, n: nat, y: nat, k: nat)
    requires y == x * Pow2(n)
    ensures y * Pow2(k) == x * Pow2(n + k)
  {
    Pow2Add(n, k);
    assert x * Pow2(n) * Pow2(k) == x * (Pow2(n) * Pow2(k));
  }

  /** A divisor below 2^32 needs no estimate: the high word is divided first. */
  lemma SmallDivisor(n: nat, d: nat)
    requires n < TWO64 && 0 < d < TWO32
    ensures (TWO32 * ((n / TWO32) % d) + n % TWO32) / d < TWO32
    ensures (TWO32 * ((n / TWO32) % d) + n % TWO32) / d + TWO32 * ((n / TWO32) / d) == n / d
    ensures TWO32 * ((n / TWO32) % d) + n % TWO32 < TWO64
  {
    var n1, n0 := n / TWO32, n % TWO32;
    var r, k := n1 % d, n1 / d;
    MulMono(TWO32, r, d - 1);
    DivLess(TWO32 * r + n0, d, TWO32);
    assert n == (TWO32 * r + n0) + d * (TWO32 * k);
    DivAddMultiple(TWO32 * r + n0, TWO32 * k, d);
  }

  /** What is known of a divisor D of at least 2^32 whose high word has S leading zeros: with P = 2^S and
      Q = 2^(32-S), V is D shifted left by S with the low 32 bits dropped. */
  ghost predicate Normalized(d: nat, p: nat, q: nat, v: nat) {
    && p * q == TWO32 && 2 <= q && 1 <= p
    && TWO31 <= v < TWO32
    && v * q <= d < v * q + q
  }

  lemma Normalize(d: nat, s: nat)
    requires TWO32 <= d < TWO64 && s <= 31 && TWO31 <= (d / TWO32) * Pow2(s) < TWO32
    ensures d * Pow2(s) < TWO64
    ensures Pow2(32 - s) == 2 * Pow2(31 - s)
    ensures Normalized(d, Pow2(s), Pow2(32 - s), d * Pow2(s) / TWO32)
  {
    Pow2Values();
    Pow2Add(s, 32 - s);
    assert Pow2(32 - s) == 2 * Pow2(31 - s);
    hide Pow2;
    ShiftedRange(d, Pow2(s), Pow2(32 - s));
    DroppedBits(d, Pow2(s), Pow2(32 - s));
  }

  lemma ShiftedRange(d: nat, p: nat, q: nat)
    requires p * q == TWO32 && TWO31 <= (d / TWO32) * p < TWO32
    ensures TWO63 <= d * p < TWO64
    ensures TWO31 <= d * p / TWO32 < TWO32
  {
    var d1, d0 := d / TWO32, d % TWO32;
    assert d * p == TWO32 * (d1 * p) + d0 * p;
    MulMono(p, d0, TWO32 - 1);
    MulMono(p, 0, d0);
    TopBits(d1, p, q);
    DivAtLeast(d * p, TWO32, TWO31);
    DivLess(d * p, TWO32, TWO32);
  }

  lemma DroppedBits(d: nat, p: nat, q: nat)
    requires p * q == TWO32
    ensures var v := d * p / TWO32; v * q <= d < v * q + q
  {
    var v, r := d * p / TWO32, d * p % TWO32;
    assert p * (v * q) == (p * q) * v;
    assert p * (d - v * q) == r;
    if d < v * q {
      MulMono(p, d - v * q, -1);
    } else if d >= v * q + q {
      MulMono(p, q, d - v * q);
    }
  }

  lemma TopBits(d1: nat, p: nat, q: nat)
    requires p * q == TWO32 && d1 * p < TWO32
    ensures d1 * p + p <= TWO32
  {
    if d1 >= q {
      MulMono(p, q, d1);
    }
    MulMono(p, d1 + 1, q);
  }

  /** The shifted quotient is the quotient by D with its low bits cleared, and fits in 32 bits before the shift. */
  lemma Estimate(n: nat, d: nat, s: nat, p: nat, q: nat, v: nat)
    requires n < TWO64 && s <= 31 && Normalized(d, p, q, v) && q == 2 * Pow2(31 - s)
    ensures n / 2 / v < TWO32
    ensures v * q > 0 && n / 2 / v / Pow2(31 - s) == n / (v * q)
  {
    hide Pow2;
    var h := Pow2(31 - s);
    EstimateFits(n, v);
    EstimateShifted(n, v, h);
    assert v * (2 * h) == v * q;
  }

  lemma EstimateFits(n: nat, v: nat)
    requires n < TWO64 && TWO31 <= v
    ensures n / 2 / v < TWO32
  {
    MulMono(TWO32, TWO31, v);
    DivLess(n / 2, v, TWO32);
  }

  lemma EstimateShifted(n: nat, v: nat, h: nat)
    requires v > 0 && h > 0
    ensures v * (2 * h) > 0 && n / 2 / v / h == n / (v * (2 * h))
  {
    DivDiv(n / 2, v, h);
    DivDiv(n, 2, v * h);
    assert 2 * (v * h) == v * (2 * h);
  }

  /** The estimate is the quotient or one more. */
  lemma EstimateClose(n: nat, d: nat, p: nat, q: nat, v: nat)
    requires n < TWO64 && d <= n && Normalized(d, p, q, v)
    ensures v * q > 0 && n / d <= n / (v * q) <= n / d + 1
  {
    var D := v * q;
    MulMono(q, TWO31, v);
    DivAntitone(n, D, d);
    var e := n / D;
    assert e * (d - D) <= d by {
      EstimateSmall(n, p, q, v, e);
      Overshoot(d, D, p, q, v, e);
    }
    assert (e - 1) * d == e * D + e * (d - D) - d;
    assert e * D <= n;
    DivAtLeast(n, d, e - 1);
  }

  lemma EstimateSmall(n: nat, p: nat, q: nat, v: nat, e: nat)
    requires n < TWO64 && p * q == TWO32 && 1 <= q && TWO31 <= v && e * (v * q) <= n
    ensures e <= 2 * p - 1
  {
    assert (v * q) * (2 * p) == 2 * v * (p * q);
    if e >= 2 * p {
      MulMono(v * q, 2 * p, e);
    }
  }

  lemma Overshoot(d: nat, D: nat, p: nat, q: nat, v: nat, e: nat)
    requires Normalized(d, p, q, v) && D == v * q && e <= 2 * p - 1
    ensures e * (d - D) <= d
  {
    var g := d - D;
    assert 0 <= g <= q - 1;
    MulMono(e, g, q - 1);
    MulMono(q - 1, e, 2 * p - 1);
    assert e * g <= (2 * p - 1) * (q - 1);
    assert (2 * p - 1) * (q - 1) == 2 * (p * q) - 2 * p - q + 1;
    MulMono(q, TWO31, v);
    if q < 4 {
      // q is a power of two, so it is 2 and p is 2^31.
      assert q == 2 || q == 3;
      assert q == 2;
    }
  }

  /** For a divisor of at least 2^32 with S leading zeros: nothing overflows, the instruction does not trap,
      and the estimate is off by at most one. */
  lemma LargeDivisor(n: nat, d: nat, s: nat)
    requires TWO32 <= d <= n < TWO64 && s <= 31 && TWO31 <= (d / TWO32) * Pow2(s) < TWO32
    ensures d * Pow2(s) < TWO64 && 0 < d * Pow2(s) / TWO32 < TWO32
    ensures n / 2 / (d * Pow2(s) / TWO32) < TWO32
    ensures n / d <= n / 2 / (d * Pow2(s) / TWO32) / Pow2(31 - s) <= n / d + 1
  {
    Normalize(d, s);
    hide Pow2;
    var p, q, v := Pow2(s), Pow2(32 - s), d * Pow2(s) / TWO32;
    Estimate(n, d, s, p, q, v);
    EstimateClose(n, d, p, q, v);
  }

  /** Divides an unsigned 64-bit N by an unsigned 64-bit D.  The divide instruction never traps on the way. */
  method UDiv64(n: nat, d: nat) returns (quotient: nat)
    requires n < TWO64 && 0 < d < TWO64
    ensures quotient == n / d
  {
    hide Pow2;
    if d / TWO32 == 0 {
      SmallDivisor(n, d);
      var b := TWO32;
      var n1, n0 := n / TWO32, n % TWO32;
      var low := Divl(b * (n1 % d) + n0, d);
      quotient := low + b * (n1 / d);
    } else if n < d {
      DivUnique(n, d, 0, n);
      quotient := 0;
    } else {
      quotient := UDivLarge(n, d);
    }
  }

  /** The case of a divisor of at least 2^32: normalize, estimate, correct by one. */
  method UDivLarge(n: nat, d: nat) returns (quotient: nat)
    requires TWO32 <= d <= n < TWO64
    ensures quotient == n / d
  {
    hide Pow2;
    var s := Nlz(d / TWO32);
    LargeDivisor(n, d, s);
    var e := Divl(n / 2, d * Pow2(s) / TWO32);
    e := e / Pow2(31 - s);
    Corrected(n, d, e);
    quotient := if (n - (e - 1) * d) % TWO64 < d then e - 1 else e;
  }

  /** One comparison of the remainder, which does not wrap, decides between the two candidates. */
  lemma Corrected(n: nat, d: nat, e: nat)
    requires n < TWO64 && 0 < d <= n && n / d <= e <= n / d + 1
    ensures 0 <= n - (e - 1) * d < TWO64
    ensures (n - (e - 1) * d) % TWO64 < d <==> n / d == e - 1
  {
    DivAtLeast(n, d, 1);
    var k, r := n / d, n % d;
    assert n == d * k + r;
    if e == k {
      assert n - (e - 1) * d == r + d;
    } else {
      assert n - (e - 1) * d == r;
    }
    assert (e - 1) * d >= 0 by { MulMono(d, 0, e - 1); }
  }

  /** Reduction to an unsigned 32-bit result. */
  function ToUInt32(x: int): (r: nat) {
    x % TWO32
  }

  /** The remainder routine returns only 32 bits. */
  method UMod64(n: nat, d: nat) returns (r: nat)
    requires n < TWO64 && 0 < d < TWO64
    ensures r == ToUInt32(n % d)
  {
    var q := UDiv64(n, d);
    assert n - d * q == n % d;
    r := ToUInt32((n - d * q) % TWO64);
  }

  /** The 32-bit remainder is right for every dividend exactly when the divisor is at most 2^32. */
  lemma UMod64Exact(d: nat)
    requires 0 < d < TWO64
    ensures (forall n | 0 <= n < TWO64 :: ToUInt32(n % d) == n % d) <==> d <= TWO32
  {
    if d > TWO32 {
      DivUnique(TWO32, d, 0, TWO32);
      assert ToUInt32(TWO32 % d) != TWO32 % d;
    }
  }

  /** The value of an unsigned 64-bit X taken as signed. */
  function ToInt64(x: int): (r: int)
    ensures -TWO63 <= r < TWO63
  {
    var u := x % TWO64;
    if u < TWO63 then u else u - TWO64
  }

  function ToInt32(x: int): (r: int)
    ensures -TWO31 <= r < TWO31
  {
    var u := x % TWO32;
    if u < TWO31 then u else u - TWO32
  }

  lemma QuotientFits(n: int, d: int)
    requires -TWO63 <= n < TWO63 && -TWO63 <= d < TWO63 && d != 0
    ensures 0 <= Abs(n) / Abs(d) <= TWO63
    ensures Abs(n) / Abs(d) == TWO63 ==> n == -TWO63 && Abs(d) == 1
  {
    var a, b := Abs(n), Abs(d);
    DivAntitone(a, 1, b);
    if b >= 2 {
      DivAntitone(a, 2, b);
    }
  }

  /** Divides a signed 64-bit N by a signed 64-bit D, toward zero; only -2^63 / -1 does not fit, and wraps. */
  method SDiv64(n: int, d: int) returns (q: int)
    requires -TWO63 <= n < TWO63 && -TWO63 <= d < TWO63 && d != 0
    ensures q == if n == -TWO63 && d == -1 then -TWO63 else TruncDiv(n, d)
  {
    hide ToInt64, TruncDiv, Abs;
    MagnitudeIs(n);
    MagnitudeIs(d);
    var nAbs := if n >= 0 then n else (-n) % TWO64;
    var dAbs := if d >= 0 then d else (-d) % TWO64;
    var qAbs := UDiv64(nAbs, dAbs);
    SignedQuotient(n, d, qAbs);
    q := if (n < 0) == (d < 0) then ToInt64(qAbs) else ToInt64(-ToInt64(qAbs));
  }

  lemma MagnitudeIs(n: int)
    requires -TWO63 <= n < TWO63
    ensures (if n >= 0 then n else (-n) % TWO64) == Abs(n)
    ensures n != 0 ==> Abs(n) > 0
  {
  }

  lemma SignedQuotient(n: int, d: int, k: nat)
    requires -TWO63 <= n < TWO63 && -TWO63 <= d < TWO63 && d != 0 && Abs(d) > 0 && k == Abs(n) / Abs(d)
    ensures (if (n < 0) == (d < 0) then ToInt64(k) else ToInt64(-ToInt64(k)))
         == if n == -TWO63 && d == -1 then -TWO63 else TruncDiv(n, d)
  {
    hide ToInt64;
    QuotientFits(n, d);
    SignWraps(k);
  }

  lemma SignWraps(k: int)
    requires 0 <= k <= TWO63
    ensures ToInt64(k) == if k == TWO63 then -TWO63 else k
    ensures ToInt64(-ToInt64(k)) == -k
  {
    if k < TWO63 {
      hide ToInt64;
      FitsInt64(k);
      FitsInt64(-k);
    } else {
      DivUnique(TWO63, TWO64, 0, TWO63);
    }
  }

  /** The remainder routine for signed numbers also returns only 32 bits. */
  method SMod64(n: int, d: int) returns (r: int)
    requires -TWO63 <= n < TWO63 && -TWO63 <= d < TWO63 && d != 0
    ensures r == ToInt32(TruncRem(n, d))
  {
    var q := SDiv64(n, d);
    TruncatedIs(n, d);
    r := ToInt32(ToInt64(n - ToInt64(d * q)));
    RemainderWraps(n, d, q);
  }

  lemma RemainderWraps(n: int, d: int, q: int)
    requires -TWO63 <= n < TWO63 && -TWO63 <= d < TWO63 && d != 0
    requires q == if n == -TWO63 && d == -1 then -TWO63 else TruncDiv(n, d)
    ensures ToInt64(n - ToInt64(d * q)) == TruncRem(n, d)
  {
    hide ToInt64, TruncRem, TruncDiv;
    TruncatedIs(n, d);
    WrapTwice(n, d * q);
    if n == -TWO63 && d == -1 {
      assert n - d * q == -TWO64;
      WrapExtreme();
    } else {
      FitsInt64(TruncRem(n, d));
    }
  }

  lemma FitsInt64(x: int)
    requires -TWO63 <= x < TWO63
    ensures ToInt64(x) == x
  {
  }

  lemma WrapExtreme()
    ensures ToInt64(-TWO64) == TruncRem(-TWO63, -1)
  {
  }

  /** Wrapping the subtrahend first makes no difference. */
  lemma WrapTwice(n: int, x: int)
    ensures ToInt64(n - ToInt64(x)) == ToInt64(n - x)
  {
    var j := if x % TWO64 < TWO63 then x / TWO64 else x / TWO64 + 1;
    assert ToInt64(x) == x - TWO64 * j;
    var y := n - x;
    assert y + TWO64 * j == TWO64 * (y / TWO64 + j) + y % TWO64;
    DivUnique(y + TWO64 * j, TWO64, y / TWO64 + j, y % TWO64);
  }

  /** The 32-bit remainder is right for every dividend exactly when the divisor's magnitude is at most 2^31. */
  lemma SMod64Exact(d: int)
    requires -TWO63 <= d < TWO63 && d != 0
    ensures (forall n | -TWO63 <= n < TWO63 :: ToInt32(TruncRem(n, d)) == TruncRem(n, d)) <==> Abs(d) <= TWO31
  {
    if Abs(d) > TWO31 {
      DivUnique(TWO31, Abs(d), 0, TWO31);
      assert ToInt32(TruncRem(TWO31, d)) != TruncRem(TWO31, d);
    }
  }
}
