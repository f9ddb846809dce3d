/** Division of a 64-bit by a 32-bit integer with 32-bit arithmetic only (mcucpp/div.h). */
module Div {
  import opened MachineInts

  /** One narrowing step of the count: if the top `k` bits of `x` are clear, shift them out. */
  method Narrow(ghost x0: u32, x: u32, n: nat, k: nat) returns (x': u32, n': nat)
    requires 1 <= k <= 16 && x == x0 * Pow2(n)
    requires Pow2(32 - 2 * k) <= x
    ensures x' == x0 * Pow2(n') && n <= n' <= n + k
    ensures Pow2(32 - k) <= x'
  {
    x', n' := x, n;
    DivZero(x, Pow2(32 - k));
    if x / Pow2(32 - k) == 0 {
      ShiftOut(x0, x, n, k);
      x', n' := U32(x * Pow2(k)), n + k;
    }
  }

  lemma ShiftOut(x0: u32, x: u32, n: nat, k: nat)
    requires 1 <= k <= 16 && x == x0 * Pow2(n)
    requires Pow2(32 - 2 * k) <= x < Pow2(32 - k)
    ensures Pow2(32 - k) <= x * Pow2(k) < 0x1_0000_0000
    ensures x * Pow2(k) == x0 * Pow2(n + k)
  {
    hide Pow2;
    Pow32();
    MulOrder(Pow2(k), Pow2(32 - 2 * k), x);
    MulOrder(Pow2(k), x, Pow2(32 - k));
    Pow2Add(32 - 2 * k, k);
    Pow2Add(32 - k, k);
    Pow2Add(n, k);
    Associate(x0, Pow2(n), Pow2(k));
  }

  lemma Associate(x: int, y: int, z: int)
    ensures x * (y * z) == (x * y) * z
  {
  }

  lemma Pow32()
    ensures Pow2(16) == 0x1_0000 && Pow2(31) == 0x8000_0000 && Pow2(32) == 0x1_0000_0000
  {
    assert Pow2(4) == 2 * (2 * (2 * (2 * 1)));
    Pow2Add(4, 4);
    Pow2Add(8, 8);
    Pow2Add(16, 16);
    Pow2Add(31, 1);
  }

  lemma DivZero(x: nat, p: nat)
    requires p > 0
    ensures x / p == 0 <==> x < p
  {
    QuotientBelow(1, x, p);
  }

  /** The portable branch of the count of leading zeros: a binary search that narrows `x` to its top bit. */
  method CountLeadingZeros(x0: u32) returns (n: nat)
    ensures x0 == 0 ==> n == 32
    ensures x0 != 0 ==> n <= 31 && 0x8000_0000 <= x0 * Pow2(n) < 0x1_0000_0000
  {
    if x0 == 0 {
      return 32;
    }
    Pow32();
    var x := x0;
    n := 0;
    x, n := Narrow(x0, x, n, 16);
    x, n := Narrow(x0, x, n, 8);
    x, n := Narrow(x0, x, n, 4);
    x, n := Narrow(x0, x, n, 2);
    x, n := Narrow(x0, x, n, 1);
  }

  /** Quotient and remainder are determined by their defining property. */
  lemma Unique(u: int, v: int, q: int, r: int)
    requires u == q * v + r && 0 <= r < v
    ensures q == u / v && r == u % v
  {
    QuotientBelow(q, u, v);
    QuotientBelow(q + 1, u, v);
    assert (q + 1) * v == q * v + v;
  }

  /** `hi:d` in base 65536. */
  function Pair(hi: int, d: int): int { hi * 0x1_0000 + d }

  lemma Distribute(q: int, v1: int, v0: int)
    ensures q * Pair(v1, v0) == Pair(q * v1, q * v0)
  {
  }

  lemma MulBound(q: int, m: nat, v: int, w: nat)
    requires 0 <= q <= m && 0 <= v <= w
    ensures 0 <= q * v <= m * w
  {
    assert q * v <= m * v <= m * w;
  }

  /** What the test of the correction loop decides, given the running remainder. */
  lemma CorrectionTest(hi: u32, d: u16, v1: u16, v0: u16, q: nat, rhat: nat)
    requires v1 >= 0x8000 && rhat == hi - q * v1
    ensures q < 0x1_0000 ==> 0 <= q * v0 < 0x1_0000_0000
    ensures q * v0 > Pair(rhat, d) <==> q > Pair(hi, d) / Pair(v1, v0)
    ensures rhat >= 0x1_0000 && q <= 0x1_0000 ==> q <= Pair(hi, d) / Pair(v1, v0)
    ensures (q - 1) * v1 == q * v1 - v1
  {
    QuotientBelow(q, Pair(hi, d), Pair(v1, v0));
    Distribute(q, v1, v0);
    if q <= 0x1_0000 {
      MulBound(q, if q < 0x1_0000 then 0xFFFF else 0x1_0000, v0, 0xFFFF);
    }
  }

  lemma DigitCarry(q: nat, v1: nat, v0: nat, hi: nat, d: u16)
    requires q * Pair(v1, v0) <= Pair(hi, d)
    ensures q * v1 <= hi
  {
    Distribute(q, v1, v0);
    MulNonNegative(v0, q);
  }

  /** The first estimate is at least the digit and at most one above the base. */
  lemma EstimateBounds(hi: u32, d: u16, v1: u16, v0: u16)
    requires v1 >= 0x8000 && hi < Pair(v1, v0)
    ensures 0 <= Pair(hi, d) / Pair(v1, v0) < 0x1_0000
    ensures Pair(hi, d) / Pair(v1, v0) <= hi / v1 <= 0x1_0001
    ensures hi % v1 == hi - hi / v1 * v1
  {
    var v, n := Pair(v1, v0), Pair(hi, d);
    QuotientBelow(0, n, v);
    QuotientBelow(0x1_0000, n, v);
    var q := n / v;
    QuotientBelow(q, n, v);
    DigitCarry(q, v1, v0, hi, d);
    QuotientBelow(q, hi, v1);
    QuotientBelow(0x1_0002, hi, v1);
    Euclid(hi, v1);
  }

  /** The test of the correction loop, in wrapping arithmetic. */
  predicate Overshoots(q: u32, rhat: u32, d: u16, v0: u16)
  {
    q >= 0x1_0000 || U32(q * v0) > U32(U32(0x1_0000 * rhat) + d)
  }

  lemma OvershootsIsExact(hi: u32, d: u16, v1: u16, v0: u16, q: u32, rhat: u32, digit: int)
    requires v1 >= 0x8000 && rhat == hi - q * v1 && rhat < 0x1_0000
    requires digit == Pair(hi, d) / Pair(v1, v0) < 0x1_0000
    ensures Overshoots(q, rhat, d, v0) <==> q > digit
  {
    CorrectionTest(hi, d, v1, v0, q, rhat);
  }

  /** The first estimate of a quotient digit. */
  function Estimate(hi: u32, v1: u16): int
    requires v1 > 0
  {
    hi / v1
  }

  /** The correction loop: from the estimate `hi / v1` down to the quotient digit of `hi:d` by `v1:v0`. */
  method QuotientDigit(hi: u32, d: u16, v1: u16, v0: u16) returns (q: u32, ghost corrections: nat)
    requires v1 >= 0x8000 && hi < Pair(v1, v0)
    ensures q == Pair(hi, d) / Pair(v1, v0) && q < 0x1_0000
    ensures q == Estimate(hi, v1) - corrections && corrections <= 2
  {
    ghost var digit := Pair(hi, d) / Pair(v1, v0);
    EstimateBounds(hi, d, v1, v0);
    q := hi / v1;
    ghost var estimate := q;
    var rhat := U32(hi - U32(q * v1));
    corrections := 0;
    var again := true;
    while again
      invariant q == estimate - corrections && digit <= q <= 0x1_0001 - corrections && corrections <= 2
      invariant rhat == hi - q * v1 && corrections * 0x8000 <= rhat
      invariant again ==> rhat < 0x1_0000
      invariant !again ==> q == digit
      decreases again, 0x1_0000 - rhat
    {
      again := false;
      OvershootsIsExact(hi, d, v1, v0, q, rhat, digit);
      if Overshoots(q, rhat, d, v0) {
        NextEstimate(hi, d, v1, v0, q, digit);
        q := U32(q - 1);
        rhat := U32(rhat + v1);
        corrections := corrections + 1;
        again := rhat < 0x1_0000;
      }
    }
  }

  lemma NextEstimate(hi: u32, d: u16, v1: u16, v0: u16, q: u32, digit: int)
    requires v1 >= 0x8000 && 0 < q <= 0x1_0001
    requires digit == Pair(hi, d) / Pair(v1, v0)
    ensures hi - (q - 1) * v1 == hi - q * v1 + v1
    ensures hi - (q - 1) * v1 >= 0x1_0000 ==> q - 1 <= digit
  {
    if hi - (q - 1) * v1 >= 0x1_0000 {
      CorrectionTest(hi, d, v1, v0, q - 1, hi - (q - 1) * v1);
    }
  }

  /** Multiply and subtract in wrapping arithmetic: the intermediate overflows cancel. */
  function MultiplySubtract(un: u32, d: u16, q: u32, v: u32): (r: u32)
    ensures 0 <= Pair(un, d) - q * v < 0x1_0000_0000 ==> r == Pair(un, d) - q * v
  {
    WrapCancels(un * 0x1_0000, d, q * v);
    U32(U32(un * 0x1_0000) + d - U32(q * v))
  }

  lemma WrapCancels(a: int, b: int, c: int)
    ensures U32(U32(a) + b - U32(c)) == U32(a + b - c)
  {
  }

  /** Scaling dividend and divisor by the same power leaves the quotient. */
  lemma CancelScale(u: nat, p: nat, a: nat)
    requires p > 0 && a > 0 && a * p > 0
    ensures u / a == (u * p) / (a * p)
  {
    var q := u / a;
    var r := u % a;
    assert u == q * a + r;
    assert u * p == q * (a * p) + r * p by {
      assert (q * a + r) * p == (q * a) * p + r * p;
      Associate(q, a, p);
    }
    MulOrder(p, 0, r);
    MulOrder(p, r, a);
    Unique(u * p, a * p, q, r * p);
  }

  /** The halves of the scaled dividend. */
  lemma Halves(u: u64, v: u32, p: nat, a: nat)
    requires u / 0x1_0000_0000 < v && p > 0 && a > 0 && a * p == 0x1_0000_0000 && v * p < 0x1_0000_0000
    ensures U32(u / a) == (u * p) / 0x1_0000_0000 < v * p
    ensures U32(U64(u * p)) == (u * p) % 0x1_0000_0000
  {
    CancelScale(u, p, a);
    MulOrder(p, 0, u);
    MulOrder(p, u, v * 0x1_0000_0000);
    Commute(v, 0x1_0000_0000, p);
    ScaledRange(u * p, v * p);
  }

  lemma Commute(x: int, y: int, z: int)
    ensures (x * y) * z == (x * z) * y
  {
  }

  lemma ScaledRange(n: nat, vn: nat)
    requires n < vn * 0x1_0000_0000 && vn < 0x1_0000_0000
    ensures n / 0x1_0000_0000 < vn && U32(n / 0x1_0000_0000) == n / 0x1_0000_0000
    ensures U32(U64(n)) == n % 0x1_0000_0000
  {
  }

  /** Two digits of long division, rejoined. */
  lemma LongDivision(hi: int, d1: int, d0: int, v: int, q1: int, q0: int)
    requires v > 0
    requires q1 == Pair(hi, d1) / v && q0 == Pair(Pair(hi, d1) - q1 * v, d0) / v
    ensures 0 <= Pair(hi, d1) - q1 * v < v
    ensures 0 <= Pair(Pair(hi, d1) - q1 * v, d0) - q0 * v < v
    ensures Pair(Pair(hi, d1), d0) == Pair(q1, q0) * v + (Pair(Pair(hi, d1) - q1 * v, d0) - q0 * v)
  {
    Euclid(Pair(hi, d1), v);
    Euclid(Pair(Pair(hi, d1) - q1 * v, d0), v);
    Distribute(v, q1, q0);
  }

  /** Scaling the remainder back. */
  lemma Unscale(u: nat, v: nat, p: nat, q: nat, rem: nat)
    requires p > 0 && v > 0 && u * p == q * (v * p) + rem && rem < v * p
    ensures q == u / v && rem / p == u % v
  {
    var r := u - q * v;
    Associate(q, v, p);
    assert r * p == u * p - (q * v) * p == rem;
    MulReflects(-1, r, p);
    MulReflects(r, v, p);
    Unique(u, v, q, r);
    Unique(rem, p, r, 0);
  }

  lemma MulReflects(a: int, b: int, p: nat)
    requires a * p < b * p
    ensures a < b
  {
    if a >= b {
      MulOrder(p, b, a);
    }
  }

  /** The two digit steps on normalised operands, in wrapping 32-bit arithmetic. */
  method DivideNormalized(un32: u32, un1: u16, un0: u16, vn: u32) returns (q: u32, rem: u32)
    requires vn >= 0x8000_0000 && un32 < vn
    ensures Pair(Pair(un32, un1), un0) == q * vn + rem && rem < vn
  {
    hide MultiplySubtract, Estimate;
    var vn1, vn0 := vn / 0x1_0000, vn % 0x1_0000;
    ghost var corrections;
    var q1, q0;
    q1, corrections := QuotientDigit(un32, un1, vn1, vn0);
    LongDivision(un32, un1, un0, vn, q1, Pair(Pair(un32, un1) - q1 * vn, un0) / vn);
    var un21 := MultiplySubtract(un32, un1, q1, vn);
    q0, corrections := QuotientDigit(un21, un0, vn1, vn0);
    rem := MultiplySubtract(un21, un0, q0, vn);
    q := U32(U32(q1 * 0x1_0000) + q0);
  }

  /** `div64x32u`: exact quotient and remainder, or all ones when the quotient has more than 32 bits. */
  method Div64x32u(u: u64, v: u32) returns (q: u32, r: u32)
    ensures u / 0x1_0000_0000 >= v ==> q == 0xFFFF_FFFF && r == 0xFFFF_FFFF
    ensures u / 0x1_0000_0000 < v ==> q == u / v && r == u % v
  {
    if u / 0x1_0000_0000 >= v {
      return 0xFFFF_FFFF, 0xFFFF_FFFF;
    }
    var s := CountLeadingZeros(v);
    Pow32();
    Pow2Add(32 - s, s);
    Halves(u, v, Pow2(s), Pow2(32 - s));
    var vn := U32(v * Pow2(s));
    var un32 := U32(u / Pow2(32 - s));
    var un10 := U32(U64(u * Pow2(s)));
    var un1, un0 := un10 / 0x1_0000, un10 % 0x1_0000;
    q, r := DivideNormalized(un32, un1, un0, vn);
    Unscale(u, v, Pow2(s), q, r);
    r := r / Pow2(s);
  }

  /** The guard of the overflow branch says exactly that the quotient does not exist or is too wide. */
  lemma OverflowGuard(u: u64, v: u32)
    ensures u / 0x1_0000_0000 >= v <==> v == 0 || u / v >= 0x1_0000_0000
  {
    if v > 0 {
      QuotientBelow(0x1_0000_0000, u, v);
    }
  }

  /** Exclusive or with a sign mask: 0 leaves `x`, -1 complements it. */
  function XorMask(x: int, mask: int): int
  {
    if mask == 0 then x else -1 - x
  }

  function Abs(x: int): nat { if x < 0 then -x else x }

  /** Division that rounds toward zero. */
  function TruncatedQuotient(u: int, v: int): int
    requires v != 0
  {
    if (u < 0) == (v < 0) then Abs(u) / Abs(v) else -(Abs(u) / Abs(v))
  }

  predicate QuotientFits(u: i64, v: i32)
  {
    v != 0 && -0x8000_0000 <= TruncatedQuotient(u, v) < 0x8000_0000
  }

  /** `div64x32s`: exact truncated division when the quotient fits, otherwise the impossible remainder. */
  method Div64x32s(u0: i64, v0: i32) returns (q: i32, r: i32)
    ensures QuotientFits(u0, v0) ==>
              q == TruncatedQuotient(u0, v0) && u0 == q * v0 + r && Abs(r) < Abs(v0) && (r == 0 || (r < 0) == (u0 < 0))
    ensures !QuotientFits(u0, v0) ==> q == -0x8000_0000 && r == -0x8000_0000
    ensures QuotientFits(u0, v0) <==> r != -0x8000_0000
  {
    var u, v := AbsWrap64(u0), AbsWrap32(v0);
    Magnitudes(u0, v0);
    SignedGuard(u0, v0);
    if U32(u / 0x1_0000_0000) >= U32(v) {
      return -0x8000_0000, -0x8000_0000;
    }
    var uq, ur := Div64x32u(U64(u), U32(v));
    q, r := RestoreSigns(uq, ur, u0 < 0, v0 < 0);
    if QuotientFits(u0, v0) {
      TruncatedDivision(u0, v0, q, r);
    }
  }

  /** The tail of the signed division: negate quotient and remainder, or report overflow. */
  method RestoreSigns(uq: u32, ur: u32, uneg: bool, vneg: bool) returns (q: i32, r: i32)
    requires ur < 0x8000_0000
    ensures var s: int := if uneg == vneg then uq else -(uq as int);
            if -0x8000_0000 <= s < 0x8000_0000
            then q == s && r == (if uneg then -(ur as int) else ur)
            else q == -0x8000_0000 && r == -0x8000_0000
  {
    q, r := I32(uq), I32(ur);
    var diff := if uneg == vneg then 0 else -1;
    q := I32(XorMask(q, diff) - diff);
    if uneg {
      r := I32(-(r as int));
    }
    if XorMask(q, diff) < 0 && q != 0 {
      r := -0x8000_0000;
      q := -0x8000_0000;
    }
  }

  /** The absolute values as the code computes them; the most negative value stays as it is. */
  function AbsWrap64(u: i64): i64
  {
    if u < 0 then I64(-(u as int)) else u
  }

  function AbsWrap32(v: i32): i32
  {
    var vneg := if v < 0 then -1 else 0;
    I32(XorMask(v, vneg) - vneg)
  }

  lemma Magnitudes(u: i64, v: i32)
    ensures U64(AbsWrap64(u)) == Abs(u) && U32(AbsWrap64(u) / 0x1_0000_0000) == Abs(u) / 0x1_0000_0000
    ensures U32(AbsWrap32(v)) == Abs(v)
  {
    hide AbsWrap64, AbsWrap32;
    Magnitude64(u);
    Magnitude32(v);
  }

  lemma Magnitude64(u: i64)
    ensures U64(AbsWrap64(u)) == Abs(u)
    ensures U32(AbsWrap64(u) / 0x1_0000_0000) == Abs(u) / 0x1_0000_0000
  {
  }

  lemma Magnitude32(v: i32)
    ensures U32(AbsWrap32(v)) == Abs(v)
  {
  }

  /** The unsigned magnitudes survive the two's complement negations, and the early test is sound. */
  lemma SignedGuard(u0: i64, v0: i32)
    ensures Abs(u0) / 0x1_0000_0000 >= Abs(v0) ==> !QuotientFits(u0, v0)
    ensures Abs(u0) / 0x1_0000_0000 < Abs(v0) ==>
              v0 != 0 && 0 <= Abs(u0) / Abs(v0) < 0x1_0000_0000 && Abs(u0) % Abs(v0) < Abs(v0)
  {
    if v0 != 0 {
      QuotientBelow(0x1_0000_0000, Abs(u0), Abs(v0));
      QuotientBelow(0, Abs(u0), Abs(v0));
    }
  }

  /** What truncated division means: dividend restored, remainder smaller than the divisor, sign of the dividend. */
  lemma TruncatedDivision(u: int, v: int, q: int, r: int)
    requires v != 0
    requires q == TruncatedQuotient(u, v) && Abs(r) == Abs(u) % Abs(v)
    requires (u < 0 ==> r <= 0) && (u >= 0 ==> r >= 0)
    ensures u == q * v + r && Abs(r) < Abs(v)
  {
    var m := Abs(u) / Abs(v);
    assert Abs(u) == m * Abs(v) + Abs(u) % Abs(v);
    assert q * v == if u < 0 then -(m * Abs(v)) else m * Abs(v);
  }
}
