/** 64-bit division, lib/arithmetic.c. */
module Division {
  /*
   64-bit division from 32-bit division, lib/arithmetic.c. Machine words are naturals (or integers)
   in their range, and every operation that can leave the range is reduced explicitly. The divl
   instruction divides a 64-bit by a 32-bit word and traps if the quotient does not fit.
   */

  import opened Common

  type U64 = x: nat | x < 0x1_0000_0000_0000_0000
  type I32 = x: int | -0x8000_0000 <= x < 0x8000_0000
  type I64 = x: int | -0x8000_0000_0000_0000 <= x < 0x8000_0000_0000_0000

  /** The x86 instruction: the precondition is that it does not trap. */
  function Divl(n: U64, d: U32): U32
    requires d != 0 && n / d < 0x1_0000_0000
  {
    n / d
  }

  // ---------------------------------------------------------------- powers of two

  lemma {:induction false} Pow2Add(a: nat, b: nat)
    ensures Pow2(a + b) == Pow2(a) * Pow2(b)
  {
    if a > 0 {
      Pow2Add(a - 1, b);
      assert Pow2(a + b) == 2 * (Pow2(a - 1) * Pow2(b));
      assert 2 * (Pow2(a - 1) * Pow2(b)) == (2 * Pow2(a - 1)) * Pow2(b);
    }
  }

  lemma Pow2Small()
    ensures Pow2(0) == 1 && Pow2(1) == 2 && Pow2(2) == 4 && Pow2(4) == 16
  {
    assert Pow2(2) == 2 * Pow2(1);
    assert Pow2(3) == 2 * Pow2(2);
  }

  lemma Pow2Values()
    ensures Pow2(0) == 1 && Pow2(1) == 2 && Pow2(2) == 4 && Pow2(4) == 16 && Pow2(8) == 256
    ensures Pow2(16) == 0x1_0000 && Pow2(31) == 0x8000_0000 && Pow2(32) == 0x1_0000_0000 && Pow2(63) == 0x8000_0000_0000_0000 && Pow2(64) == 0x1_0000_0000_0000_0000
  {
    hide Pow2;
    Pow2Small();
    Pow2Add(4, 4);
    Pow2Add(8, 8);
    Pow2Add(16, 16);
    Pow2Add(32, 32);
    Pow2Add(1, 31);
    Pow2Add(1, 63);
  }

  // ---------------------------------------------------------------- nlz

  /** A left shift by k that pushes no bit out. */
  lemma ShiftStep(x0: nat, x: nat, n: nat, k: nat)
    requires x == x0 * Pow2(n) && x * Pow2(k) < 0x1_0000_0000
    ensures x * Pow2(k) % 0x1_0000_0000 == x * Pow2(k) == x0 * Pow2(n + k)
  {
    Pow2Add(n, k);
    calc {
      x * Pow2(k);
      (x0 * Pow2(n)) * Pow2(k);
      x0 * (Pow2(n) * Pow2(k));
    }
  }

  /** The number of leading zero bits: shifting x0 left by n brings its top bit to bit 31. */
  method Nlz(x0: U32) returns (n: nat)
    requires x0 != 0
    ensures n < 32 && Pow2(31) <= x0 * Pow2(n) < Pow2(32)
  {
    hide Pow2;
    Pow2Values();
    var x: nat := x0;
    n := 0;
    if x <= 0x0000FFFF {
      ShiftStep(x0, x, n, 16);
      n, x := n + 16, x * Pow2(16) % 0x1_0000_0000;
    }
    assert x == x0 * Pow2(n) && 0x1_0000 <= x < 0x1_0000_0000 && n <= 16;
    if x <= 0x00FFFFFF {
      ShiftStep(x0, x, n, 8);
      n, x := n + 8, x * Pow2(8) % 0x1_0000_0000;
    }
    assert x == x0 * Pow2(n) && 0x100_0000 <= x < 0x1_0000_0000 && n <= 24;
    if x <= 0x0FFFFFFF {
      ShiftStep(x0, x, n, 4);
      n, x := n + 4, x * Pow2(4) % 0x1_0000_0000;
    }
    assert x == x0 * Pow2(n) && 0x1000_0000 <= x < 0x1_0000_0000 && n <= 28;
    if x <= 0x3FFFFFFF {
      ShiftStep(x0, x, n, 2);
      n, x := n + 2, x * Pow2(2) % 0x1_0000_0000;
    }
    assert x == x0 * Pow2(n) && 0x4000_0000 <= x < 0x1_0000_0000 && n <= 30;
    if x <= 0x7FFFFFFF {
      ShiftStep(x0, x, n, 1);
      n := n + 1;
    }
  }

  // ---------------------------------------------------------------- the two cases of udiv64

  /** The quotient is the only q with q * d <= n < (q + 1) * d. */
  lemma QuotientUnique(n: nat, d: nat, q: nat)
    requires d > 0 && q * d <= n < (q + 1) * d
    ensures q == n / d
  {
    DivUnique(n, q, d, n - q * d);
  }

  lemma QuotientBelow(n: nat, d: nat, b: nat)
    requires d > 0 && n < b * d
    ensures n / d < b
  {
    if n / d >= b {
      MulLe(b, n / d, d);
    }
  }

  lemma QuotientAtLeast(n: nat, d: nat, q: nat)
    requires d > 0 && q * d <= n
    ensures q <= n / d
  {
    if n / d < q {
      MulLe(n / d + 1, q, d);
    }
  }

  lemma AddMultiple(m: nat, d: nat, k: nat)
    requires d > 0
    ensures (m + k * d) / d == m / d + k
  {
    var q := m / d;
    assert q * d <= m < q * d + d;
    assert (q + k) * d == q * d + k * d;
    assert (q + k + 1) * d == q * d + k * d + d;
    QuotientUnique(m + k * d, d, q + k);
  }

  /** Schoolbook division of the two-digit number (n1, n0) in base b by one digit: the second digit
      of the quotient is a digit, and no third one appears. */
  lemma Schoolbook(n1: nat, n0: nat, d: nat, b: nat, t: nat, r: nat)
    requires d > 0 && n0 < b && n1 == t * d + r && r < d
    ensures (b * r + n0) / d < b
    ensures (b * n1 + n0) / d == (b * r + n0) / d + b * t
  {
    MulLe(r + 1, d, b);
    assert (r + 1) * b == b * r + b;
    QuotientBelow(b * r + n0, d, b);
    AddMultiple(b * r + n0, d, b * t);
    assert b * (t * d + r) == b * t * d + b * r;
  }

  /** The estimate: dividing by a rounded-down divisor e with e <= d <= e + g overshoots by at most
      one, provided the quotient times the rounding error is at most e. */
  lemma EstimateOff(n: nat, d: nat, e: nat, g: nat)
    requires 0 < e <= d <= e + g && (n / d + 1) * g <= e
    ensures n / e == n / d || n / e == n / d + 1
  {
    EstimateBounds(n, d, e, g, n / d);
    QuotientAtLeast(n, e, n / d);
    QuotientBelow(n, e, n / d + 2);
  }

  lemma EstimateBounds(n: nat, d: nat, e: nat, g: nat, q: nat)
    requires e <= d <= e + g && (q + 1) * g <= e && q * d <= n < (q + 1) * d
    ensures q * e <= n < (q + 2) * e
  {
    MulLe(e, d, q);
    MulLe(d, e + g, q + 1);
    assert (q + 1) * (e + g) == (q + 1) * e + (q + 1) * g;
    assert (q + 2) * e == (q + 1) * e + e;
  }

  lemma DivDivBounds(n: nat, a: nat, b: nat, p: nat, q: nat)
    requires p * a <= n < (p + 1) * a && q * b <= p && p + 1 <= q * b + b
    ensures q * (a * b) <= n < (q + 1) * (a * b)
  {
    MulLe(q * b, p, a);
    MulLe(p + 1, q * b + b, a);
    assert q * (a * b) == q * b * a;
    assert (q + 1) * (a * b) == (q * b + b) * a;
  }

  lemma DivDiv(n: nat, a: nat, b: nat)
    requires a > 0 && b > 0
    ensures a * b > 0 && n / a / b == n / (a * b)
  {
    var p := n / a;
    var q := p / b;
    assert q * b <= p && p + 1 <= q * b + b;
    DivDivBounds(n, a, b, p, q);
    QuotientUnique(n, a * b, q);
  }

  /** Shifting both sides of a division left changes nothing. */
  lemma DivShift(d: nat, p: nat, r: nat)
    requires p > 0 && r > 0
    ensures p * r > 0 && d * p / (p * r) == d / r
  {
    DivDiv(d * p, p, r);
    QuotientUnique(d * p, p, d);
  }

  // ---------------------------------------------------------------- the normalised divisor

  /** What is known of the shift s that nlz() gives for the upper half of d; p and r stand for
      2^s and 2^(32-s). */
  ghost predicate Normal(d: nat, p: nat, r: nat) {
    && 0x1_0000_0000 <= d < 0x1_0000_0000_0000_0000 && p > 0 && r > 0 && p * r == 0x1_0000_0000
    && 0x8000_0000 <= d / 0x1_0000_0000 * p < 0x1_0000_0000
  }

  lemma NormalFits(d: nat, p: nat, r: nat)
    requires Normal(d, p, r)
    ensures 0x8000_0000_0000_0000 <= d * p < 0x1_0000_0000_0000_0000
  {
    var d1 := d / 0x1_0000_0000;
    assert d1 * 0x1_0000_0000 <= d < (d1 + 1) * 0x1_0000_0000;
    assert d1 < r by {
      if d1 >= r {
        MulLe(r, d1, p);
      }
    }
    MulLe(d1 + 1, r, p);
    assert (d1 + 1) * p <= 0x1_0000_0000;
    hide Normal;
    ScaledBounds(d, d1, p);
  }

  lemma ScaledBounds(d: nat, d1: nat, p: nat)
    requires d1 * 0x1_0000_0000 <= d < (d1 + 1) * 0x1_0000_0000 && p > 0
    ensures d1 * p * 0x1_0000_0000 <= d * p < (d1 + 1) * p * 0x1_0000_0000
  {
    MulLe(d + 1, (d1 + 1) * 0x1_0000_0000, p);
    MulLe(d1 * 0x1_0000_0000, d, p);
    assert (d1 + 1) * 0x1_0000_0000 * p == (d1 + 1) * p * 0x1_0000_0000;
    assert d1 * 0x1_0000_0000 * p == d1 * p * 0x1_0000_0000;
  }

  /** The shifted divisor's upper half fits 32 bits with its top bit set, and is the divisor
      rounded down to a multiple of r. */
  lemma NormalTop(d: nat, p: nat, r: nat)
    requires Normal(d, p, r)
    ensures var t := d * p / 0x1_0000_0000;
      0x8000_0000 <= t < 0x1_0000_0000 && t == d / r && t * r <= d <= t * r + (r - 1)
  {
    NormalFits(d, p, r);
    DivShift(d, p, r);
    QuotientBelow(d * p, 0x1_0000_0000, 0x1_0000_0000);
    QuotientAtLeast(d * p, 0x1_0000_0000, 0x8000_0000);
  }

  lemma SlackProduct(q: nat, t: nat, p: nat, r: nat)
    requires q + 1 <= 2 * p && 0x8000_0000 <= t && p * r == 0x1_0000_0000 && r >= 2
    ensures (q + 1) * (r - 1) <= t * r
  {
    MulLe(q + 1, 2 * p, r - 1);
    assert 2 * p * (r - 1) == 2 * (p * r) - 2 * p;
    MulLe(0x8000_0000, t, r);
    SlackCases(p, r);
  }

  /** The quotient is small enough for the estimate. */
  lemma NormalSlack(n: nat, d: nat, p: nat, r: nat)
    requires Normal(d, p, r) && n < 0x1_0000_0000_0000_0000 && r >= 2
    ensures (n / d + 1) * (r - 1) <= d * p / 0x1_0000_0000 * r
  {
    NormalFits(d, p, r);
    NormalTop(d, p, r);
    hide Normal;
    assert 2 * p * d == 2 * (d * p);
    QuotientBelow(n, d, 2 * p);
    SlackProduct(n / d, d * p / 0x1_0000_0000, p, r);
  }

  lemma SlackCases(p: nat, r: nat)
    requires p * r == 0x1_0000_0000 && r >= 2
    ensures 2 * 0x1_0000_0000 - 2 * p <= 0x8000_0000 * r
  {
    if r == 2 {
      assert p == 0x8000_0000;
    } else {
      assert r != 3;
      MulLe(4, r, 0x8000_0000);
    }
  }

  /** The estimate is the true quotient or one more. */
  lemma EstimateNormal(n: nat, d: nat, p: nat, r: nat, h: nat)
    requires Normal(d, p, r) && n < 0x1_0000_0000_0000_0000 && r == 2 * h
    ensures var t := d * p / 0x1_0000_0000;
      && t > 0 && n / 2 / t < 0x1_0000_0000 && h > 0
      && (n / 2 / t / h == n / d || n / 2 / t / h == n / d + 1)
  {
    var t := d * p / 0x1_0000_0000;
    NormalTop(d, p, r);
    NormalSlack(n, d, p, r);
    QuotientBelow(n / 2, t, 0x1_0000_0000) by { MulLe(0x8000_0000, t, 0x1_0000_0000); }
    hide Normal;
    EstimateOff(n, d, t * r, r - 1);
    ThreeQuotients(n, t, r, h);
  }

  lemma ThreeQuotients(n: nat, t: nat, r: nat, h: nat)
    requires t > 0 && r == 2 * h > 0
    ensures n / 2 / t / h == n / (t * r)
  {
    DivDiv(n, 2, t);
    DivDiv(n, 2 * t, h);
    assert 2 * t * h == t * r;
  }

  // ---------------------------------------------------------------- udiv64

  /** The final correction turns an estimate that is right or one too big into the quotient. */
  lemma Correction(n: nat, d: nat, q: nat)
    requires 0 < d <= n < 0x1_0000_0000_0000_0000 && d < 0x1_0000_0000_0000_0000 && (q == n / d || q == n / d + 1)
    ensures 1 <= q <= 0x1_0000_0000_0000_0000
    ensures (q - 1) * d <= n
    ensures q == n / d + 1 <==> n - (q - 1) * d < d
  {
    QuotientAtLeast(n, d, 1);
    var t := n / d;
    assert t * d <= n < t * d + d;
    assert (t - 1) * d == t * d - d;
    QuotientBelow(n, d, 0x1_0000_0000_0000_0000) by { MulLe(1, d, 0x1_0000_0000_0000_0000); }
  }

  /** Unsigned 64-bit subtraction and multiplication. */
  function Sub64(a: nat, b: nat): U64 {
    (a - b) % 0x1_0000_0000_0000_0000
  }

  function Mul64(a: nat, b: nat): U64 {
    a * b % 0x1_0000_0000_0000_0000
  }

  lemma SmallFacts(n: U64, d: U64, n1: nat, n0: nat, r: nat, t: nat)
    requires 0 < d < 0x1_0000_0000 && n == 0x1_0000_0000 * n1 + n0 && n0 < 0x1_0000_0000
    requires n1 == t * d + r && r < d
    ensures var m := 0x1_0000_0000 * r + n0;
      m < 0x1_0000_0000_0000_0000 && m / d < 0x1_0000_0000 && n / d == m / d + 0x1_0000_0000 * t
  {
    Schoolbook(n1, n0, d, 0x1_0000_0000, t, r);
  }

  lemma QuotientAtMost(n: nat, d: nat)
    requires d > 0
    ensures n / d <= n
  {
    QuotientBelow(n, d, n + 1) by { MulLe(1, d, n + 1); }
  }

  /** The branch for a divisor that fits 32 bits. */
  function DivSmall(n: U64, d: U64): (q: U64)
    requires 0 < d < 0x1_0000_0000
    ensures q == n / d
  {
    var n1, n0 := n / 0x1_0000_0000, n % 0x1_0000_0000;
    var r, t := n1 % d, n1 / d;
    SmallFacts(n, d, n1, n0, r, t);
    QuotientAtMost(n, d);
    Divl(0x1_0000_0000 * r + n0, d) + 0x1_0000_0000 * t
  }

  /** The facts that the estimate rests on. */
  lemma EstimateFacts(n: U64, d: U64, s: nat)
    requires 0x1_0000_0000 <= d <= n && s < 32 && Pow2(31) <= d / 0x1_0000_0000 * Pow2(s) < Pow2(32)
    ensures d * Pow2(s) % 0x1_0000_0000_0000_0000 == d * Pow2(s)
    ensures var t := d * Pow2(s) / 0x1_0000_0000;
      && 0 < t < 0x1_0000_0000 && n / 2 / t < 0x1_0000_0000
      && (n / 2 / t / Pow2(31 - s) == n / d || n / 2 / t / Pow2(31 - s) == n / d + 1)
  {
    NlzNormal(d, s);
    hide Pow2;
    NormalFits(d, Pow2(s), Pow2(32 - s));
    NormalTop(d, Pow2(s), Pow2(32 - s));
    EstimateNormal(n, d, Pow2(s), Pow2(32 - s), Pow2(31 - s));
  }

  /** The estimate of the other branch, for the shift s that nlz() gives. */
  function Estimate(n: U64, d: U64, s: nat): (q: nat)
    requires 0x1_0000_0000 <= d <= n && s < 32 && Pow2(31) <= d / 0x1_0000_0000 * Pow2(s) < Pow2(32)
    ensures q == n / d || q == n / d + 1
  {
    EstimateFacts(n, d, s);
    var shifted := d * Pow2(s) % 0x1_0000_0000_0000_0000;
    Divl(n / 2, shifted / 0x1_0000_0000) / Pow2(31 - s)
  }

  /** The correction, in 64-bit arithmetic. */
  function Corrected(n: U64, d: U64, q: nat): (r: U64)
    requires 0 < d <= n && (q == n / d || q == n / d + 1)
    ensures r == n / d
  {
    CorrectionFits(n, d, q);
    hide Sub64, Mul64;
    var less := Sub64(q, 1);
    var rest := Sub64(n, Mul64(less, d));
    if rest < d then less else q
  }

  /** Nothing wraps in the correction. */
  lemma CorrectionFits(n: U64, d: U64, q: nat)
    requires 0 < d <= n && (q == n / d || q == n / d + 1)
    ensures Sub64(q, 1) == q - 1 && (q == n / d + 1 <==> Sub64(n, Mul64(Sub64(q, 1), d)) < d)
    ensures q == n / d ==> q < 0x1_0000_0000_0000_0000
  {
    Correction(n, d, q);
    Small64(q - 1);
    Small64((q - 1) * d);
    Small64(n - (q - 1) * d);
  }

  lemma Small64(x: nat)
    requires x < 0x1_0000_0000_0000_0000
    ensures x % 0x1_0000_0000_0000_0000 == x
  {
  }

  function UpperHalf(d: U64): (d1: U32)
    ensures d1 == d / 0x1_0000_0000 && (d1 == 0 <==> d < 0x1_0000_0000)
  {
    QuotientBelow(d, 0x1_0000_0000, 0x1_0000_0000);
    d / 0x1_0000_0000
  }

  /** udiv64() is floor division, and neither of its divl instructions traps. */
  method Udiv64(n: U64, d: U64) returns (q: U64)
    requires d != 0
    ensures q == n / d
  {
    hide Pow2, DivSmall, Estimate, Corrected;
    var d1 := UpperHalf(d);
    if d1 == 0 {
      q := DivSmall(n, d);
    } else if n < d {
      q := 0;
    } else {
      var s := Nlz(d1);
      var estimate := Estimate(n, d, s);
      q := Corrected(n, d, estimate);
    }
  }

  lemma NlzNormal(d: U64, s: nat)
    requires 0x1_0000_0000 <= d && s < 32 && Pow2(31) <= d / 0x1_0000_0000 * Pow2(s) < Pow2(32)
    ensures Normal(d, Pow2(s), Pow2(32 - s)) && Pow2(32 - s) == 2 * Pow2(31 - s)
  {
    Pow2Values();
    Pow2Add(s, 32 - s);
    Pow2Add(1, 31 - s);
  }

  // ---------------------------------------------------------------- signed division and remainders

  /** q is the quotient of n by d truncated toward zero: the remainder is smaller than the divisor
      and does not have the opposite sign of the dividend. */
  ghost predicate Truncated(n: int, d: int, q: int) {
    var r := n - q * d;
    Abs(r) < Abs(d) && (n >= 0 ==> r >= 0) && (n <= 0 ==> r <= 0)
  }

  /** Conversions between words and signed values. */
  function Magnitude64(x: I64): (u: U64)
    ensures u == Abs(x)
  {
    if x >= 0 then x % 0x1_0000_0000_0000_0000 else Sub64(0, x % 0x1_0000_0000_0000_0000)
  }

  function Signed64(u: int): I64 {
    var m := u % 0x1_0000_0000_0000_0000;
    if m < 0x8000_0000_0000_0000 then m else m - 0x1_0000_0000_0000_0000
  }

  function Negated64(x: I64): I64 {
    Signed64(0 - x)
  }

  function Signed32(u: int): I32 {
    var m := u % 0x1_0000_0000;
    if m < 0x8000_0000 then m else m - 0x1_0000_0000
  }

  lemma TruncatedSigns(n: int, d: int, q: int)
    requires d != 0 && q == Abs(n) / Abs(d)
    ensures Truncated(n, d, if (n < 0) == (d < 0) then q else -q)
  {
    SignedProduct(n, d, q);
    QuotientTimes(Abs(n), Abs(d));
  }

  lemma QuotientTimes(a: nat, b: nat)
    requires b > 0
    ensures a == a / b * b + a % b && a / b * b <= a < a / b * b + b
  {
  }

  lemma SignedProduct(n: int, d: int, q: int)
    ensures (if (n < 0) == (d < 0) then q else -q) * d == if n < 0 then -(q * Abs(d)) else q * Abs(d)
  {
    assert (-q) * d == -(q * d);
    assert q * -d == -(q * d);
  }

  lemma TruncatedUnique(n: int, d: int, p: int, q: int)
    requires d != 0 && Truncated(n, d, p) && Truncated(n, d, q)
    ensures p == q
  {
    assert (p - q) * d == p * d - q * d;
    assert Abs((p - q) * d) < Abs(d);
    SmallMultiple(p - q, d);
  }

  lemma SmallMultiple(k: int, d: int)
    requires Abs(k * d) < Abs(d)
    ensures k == 0
  {
    assert Abs(k * d) == Abs(k) * Abs(d);
    if k != 0 {
      MulLe(1, Abs(k), Abs(d));
    }
  }

  /** sdiv64() truncates toward zero for every dividend and nonzero divisor but one pair, whose
      quotient no 64-bit integer can hold. */
  method Sdiv64(n: I64, d: I64) returns (q: I64)
    requires d != 0
    ensures Truncated(n, d, q) <==> !(n == -0x8000_0000_0000_0000 && d == -1)
    ensures n == -0x8000_0000_0000_0000 && d == -1 ==> q == n
  {
    var nAbs, dAbs := Magnitude64(n), Magnitude64(d);
    var qAbs := Udiv64(nAbs, dAbs);
    SdivResult(n, d, qAbs);
    q := if (n < 0) == (d < 0) then Signed64(qAbs) else Negated64(Signed64(qAbs));
  }

  lemma SdivResult(n: I64, d: I64, qAbs: nat)
    requires d != 0 && qAbs == Abs(n) / Abs(d)
    ensures var q := if (n < 0) == (d < 0) then Signed64(qAbs) else Negated64(Signed64(qAbs));
      && (Truncated(n, d, q) <==> !(n == -0x8000_0000_0000_0000 && d == -1))
      && (n == -0x8000_0000_0000_0000 && d == -1 ==> q == n)
  {
    TruncatedSigns(n, d, qAbs);
    QuotientBelow(Abs(n), Abs(d), 0x8000_0000_0000_0000 + 1) by { MulLe(1, Abs(d), 0x8000_0000_0000_0000 + 1); }
    if qAbs == 0x8000_0000_0000_0000 {
      HugeQuotient(n, d);
    }
  }

  /** Only the smallest dividend, and a divisor of magnitude one, give a quotient of 2^63. */
  lemma HugeQuotient(n: I64, d: I64)
    requires d != 0 && Abs(n) / Abs(d) == 0x8000_0000_0000_0000
    ensures n == -0x8000_0000_0000_0000 && (d == 1 || d == -1)
  {
    if Abs(d) >= 2 {
      QuotientBelow(Abs(n), Abs(d), 0x8000_0000_0000_0000) by { MulLe(2, Abs(d), 0x8000_0000_0000_0000); }
    }
  }

  /** umod64() keeps the low 32 bits of the remainder, so it is the remainder exactly when that fits. */
  method Umod64(n: U64, d: U64) returns (r: U32)
    requires d != 0
    ensures r == n % d % 0x1_0000_0000
    ensures r == n % d <==> n % d < 0x1_0000_0000
  {
    var q := Udiv64(n, d);
    var p := Mul64(d, q);
    ProductFits(n, d, q);
    r := Sub64(n, p) % 0x1_0000_0000;
  }

  lemma ProductFits(n: U64, d: U64, q: U64)
    requires d != 0 && q == n / d
    ensures Mul64(d, q) == d * q && Sub64(n, d * q) == n % d
  {
    assert n == d * q + n % d;
  }

  /** The remainder of truncating division takes the sign of the dividend. */
  function Remainder(n: int, d: int): int
    requires d != 0
  {
    if n >= 0 then Abs(n) % Abs(d) else -(Abs(n) % Abs(d))
  }

  lemma TruncatedRemainder(n: int, d: int, q: int)
    requires d != 0 && Truncated(n, d, q)
    ensures n - q * d == Remainder(n, d)
  {
    var k := Abs(n) / Abs(d);
    TruncatedSigns(n, d, k);
    TruncatedUnique(n, d, q, if (n < 0) == (d < 0) then k else -k);
    SignedProduct(n, d, k);
    QuotientTimes(Abs(n), Abs(d));
  }

  /** smod64() keeps the low 32 bits of the remainder, as a signed value: it is the remainder exactly
      when that is a 32-bit integer. The pair that sdiv64() cannot divide still has remainder zero. */
  method Smod64(n: I64, d: I64) returns (r: I32)
    requires d != 0
    ensures r == Remainder(n, d) <==> -0x8000_0000 <= Remainder(n, d) < 0x8000_0000
  {
    var m := Sdiv64(n, d);
    var p := Signed64(d * m);
    ghost var q := if n == -0x8000_0000_0000_0000 && d == -1 then 0x8000_0000_0000_0000 else m;
    SmodResult(n, d, m, q);
    TruncatedRemainder(n, d, q);
    r := Signed32(Signed64(n - p));
  }

  lemma SmodResult(n: I64, d: I64, m: I64, q: int)
    requires d != 0
    requires if n == -0x8000_0000_0000_0000 && d == -1 then m == n && q == 0x8000_0000_0000_0000 else q == m && Truncated(n, d, m)
    ensures Truncated(n, d, q)
    ensures Signed64(n - Signed64(d * m)) == n - q * d
  {
    if !(n == -0x8000_0000_0000_0000 && d == -1) {
      assert d * m == m * d;
      NoWrap(n, m * d);
    }
  }

  /** Neither the product nor the remainder wraps around. */
  lemma NoWrap(n: I64, x: int)
    requires -0x8000_0000_0000_0000 < n - x < 0x8000_0000_0000_0000
    requires (n >= 0 ==> n - x >= 0) && (n <= 0 ==> n - x <= 0)
    ensures Signed64(n - Signed64(x)) == n - x
  {
    assert Signed64(x) == x;
  }
}
