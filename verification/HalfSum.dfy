/**
 Sums of halves (tce/src/tools/HalfFloatWord.cc:143-149).  A sum is rounded twice, first to
 binary32 and then to a half; the two roundings together still give the half nearest to the
 exact sum.
 */
module HalfSum {
  import opened Powers
  import opened HalfFloat
  import opened HalfArithmetic

  /** Section 4.3.1 of IEEE 754-2008 for a binary32 result that does not overflow. */
  ghost predicate IsNearestEvenFloat(x: int, u: Word32) {
    && IsFinite(u)
    && forall w: Word32 | IsFinite(w) ::
         && Distance(x, FloatValue(u)) <= Distance(x, FloatValue(w))
         && (Distance(x, FloatValue(u)) == Distance(x, FloatValue(w)) && FloatValue(u) != FloatValue(w)
             ==> u % 2 == 0)
  }

  predicate IsNormalOrZero(h: Word16) {
    IsNormal(h) || h % 0x8000 == 0
  }

  function Abs(x: int): nat {
    Distance(x, 0)
  }

  // ---------------------------------------------------------------------------------------
  // Exact sums
  // ---------------------------------------------------------------------------------------

  /** A sum that is a binary32 number is not changed by the first rounding. */
  lemma ExactSumIsKept(x: int, s: nat, k: nat, u: Word32)
    requires Abs(x) == s * Pow2(k) && s < 0x100_0000 && k <= 253
    requires IsNearestEvenFloat(x, u)
    ensures FloatValue(u) == x && FloatMag(u % 0x8000_0000) == Abs(x)
  {
    var c := Representable(s, k);
    var w := WithSign(x < 0, c);
    assert FloatValue(w) == x;
    assert Distance(x, FloatValue(u)) <= Distance(x, FloatValue(w));
  }

  lemma ExactSumRoundsOnce(x: int, s: nat, k: nat, u: Word32)
    requires Abs(x) == s * Pow2(k) && s < 0x100_0000 && 125 <= k <= 253
    requires IsNearestEvenFloat(x, u)
    ensures IsNearestEven(x, HalfOfFloat(u)) <==> Abs(x) >= HalfMag(0x400) || x == 0
  {
    ExactSumIsKept(x, s, k, u);
    ConversionRoundsToNearestEven(u);
    MagnitudeReaches(u % 0x8000_0000, 0x400);
    Pow2Mono(124, k);
    if s > 0 {
      AtLeastUnit(s, Pow2(k));
    }
  }

  /** |sx + ty| for x = sa * 2^(kb + d) and y = sb * 2^kb is a multiple of 2^kb. */
  lemma AlignedSum(s: bool, x: nat, sa: nat, t: bool, y: nat, sb: nat, kb: nat, d: nat) returns (m: nat)
    requires sa < 0x800 && sb < 0x800 && d <= 12
    requires x == sa * Pow2(kb + d) && y == sb * Pow2(kb)
    ensures m < 0x100_0000 && Abs(Signed(s, x) + Signed(t, y)) == m * Pow2(kb)
  {
    var q := ScaleDown(sa, kb, d, x);
    m := Abs(Signed(s, q) + Signed(t, sb));
    SumTimes(s, q, t, sb, Pow2(kb));
  }

  lemma ScaleDown(sa: nat, kb: nat, d: nat, x: nat) returns (q: nat)
    requires sa < 0x800 && d <= 12 && x == sa * Pow2(kb + d)
    ensures q <= 0x7ff * 0x1000 && x == q * Pow2(kb)
  {
    assert Pow2(d) <= 0x1000 by {
      Pow2Mono(d, 12);
      assert Pow2(12) == 0x1000;
    }
    ProductMono(sa, 0x7ff, Pow2(d), 0x1000);
    Pow2Add(d, kb);
    Reassociate(sa, Pow2(d), Pow2(kb));
    q := sa * Pow2(d);
  }

  lemma SumTimes(s: bool, a: nat, t: bool, b: nat, p: nat)
    requires p > 0
    ensures Abs(Signed(s, a * p) + Signed(t, b * p)) == Abs(Signed(s, a) + Signed(t, b)) * p
  {
    var x, y := Signed(s, a), Signed(t, b);
    SignedScale(s, a, p);
    SignedScale(t, b, p);
    DifferenceTimes(x, y, p);
    ScaledDistance(x + y, 0, p);
  }

  // ---------------------------------------------------------------------------------------
  // Sums with a negligible operand
  // ---------------------------------------------------------------------------------------

  /** The gap on either side of a normal half, above the first binade. */
  lemma Gaps(n: HalfCode)
    requires 0x800 <= n < 0x7c00
    ensures HalfMag(n + 1) - HalfMag(n) == HalfUlp(n)
    ensures HalfMag(n) >= HalfMag(n - 1) && 2 * (HalfMag(n) - HalfMag(n - 1)) >= HalfUlp(n)
  {
    HalfMagStep(n);
    HalfMagStep(n - 1);
    Pow2Mono(124 + (n - 1) / 0x400, 124 + n / 0x400);
    assert (n - 1) / 0x400 == n / 0x400 || (n - 1) / 0x400 == n / 0x400 - 1;
  }

  /** Within a quarter of the gap, a half is strictly nearer than any other. */
  lemma StrictlyNearest(x: nat, n: HalfCode, m: HalfCode)
    requires 0x800 <= n < 0x7c00 && 4 * Distance(x, HalfMag(n)) < HalfUlp(n) && m != n
    ensures Distance(x, HalfMag(n)) < Distance(x, HalfMag(m))
  {
    Gaps(n);
    HalfMagOrdered(m, n);
    HalfMagOrdered(m, n + 1);
    HalfMagOrdered(m, n - 1);
  }

  lemma CloseFloatConverts(c: FloatCode, n: HalfCode)
    requires 0x800 <= n < 0x7c00 && 4 * Distance(FloatMag(c), HalfMag(n)) < HalfUlp(n)
    ensures HalfOfMagnitude(c) == n && c >= 113 * 0x80_0000
  {
    Gaps(n);
    FarFromZero(c, n);
    NearestMagnitude(c, n);
    if HalfOfMagnitude(c) != n {
      StrictlyNearest(FloatMag(c), n, HalfOfMagnitude(c));
    }
  }

  lemma FarFromZero(c: FloatCode, n: HalfCode)
    requires 0x800 <= n < 0x7c00 && 4 * Distance(FloatMag(c), HalfMag(n)) < HalfUlp(n)
    ensures c >= 113 * 0x80_0000
  {
    Gaps(n);
    MagnitudeReaches(c, n - 1);
    assert Widened(n - 1) >= 113 * 0x80_0000;
  }

  /** The largest change an operand 13 binades below can make: 2047/8192 of the gap. */
  function Reach(n: HalfCode): nat
    requires 0x3800 <= n < 0x7c00
  {
    0x7ff * Pow2(124 + n / 0x400 - 13)
  }

  lemma ReachBelowQuarter(n: HalfCode)
    requires 0x3800 <= n < 0x7c00
    ensures HalfUlp(n) == 0x2000 * Pow2(124 + n / 0x400 - 13)
    ensures 4 * Reach(n) < HalfUlp(n)
  {
    Pow2Add(13, 124 + n / 0x400 - 13);
    assert Pow2(13) == 0x2000;
  }

  /** The two binary32 numbers at Reach below and above a half. */
  lemma ReachEnds(n: HalfCode) returns (lo: FloatCode, hi: FloatCode)
    requires 0x3800 <= n < 0x7c00
    ensures HalfMag(n) > Reach(n)
    ensures FloatMag(lo) == HalfMag(n) - Reach(n) && FloatMag(hi) == HalfMag(n) + Reach(n)
    ensures HalfOfMagnitude(lo) == n && HalfOfMagnitude(hi) == n && lo >= 113 * 0x80_0000
  {
    var s, k := 0x400 + n % 0x400, 124 + n / 0x400 - 13;
    ReachBelowQuarter(n);
    var p := Pow2(k);
    assert HalfMag(n) == s * (0x2000 * p) == s * 0x2000 * p;
    lo := Representable(s * 0x2000 - 0x7ff, k);
    hi := Representable(s * 0x2000 + 0x7ff, k);
    DifferenceTimes(s * 0x2000, 0x7ff, p);
    assert s * 0x2000 * p > 0x7ff * p by { LessTimes(0x7ff, s * 0x2000, p); }
    CloseFloatConverts(lo, n);
    CloseFloatConverts(hi, n);
  }

  lemma DifferenceTimes(a: int, b: int, p: int)
    ensures (a - b) * p == a * p - b * p && (a + b) * p == a * p + b * p
  {
  }

  /** Rounding to binary32 does not leave an interval that ends in binary32 numbers. */
  lemma RoundingStaysBetween(s: bool, y: nat, u: Word32, lo: FloatCode, hi: FloatCode)
    requires 0 < FloatMag(lo) <= y <= FloatMag(hi) && IsNearestEvenFloat(Signed(s, y), u)
    ensures FloatMag(lo) <= FloatMag(u % 0x8000_0000) <= FloatMag(hi)
    ensures u >= 0x8000_0000 <==> s
  {
    var x := Signed(s, y);
    var wl := WithSign(s, lo);
    var wh := WithSign(s, hi);
    assert Distance(x, FloatValue(u)) <= Distance(x, FloatValue(wl));
    assert Distance(x, FloatValue(u)) <= Distance(x, FloatValue(wh));
  }

  /** An operand too small to matter: both roundings return the large operand. */
  lemma NegligibleOperand(a: Word16, y: nat, u: Word32)
    requires 0x3800 <= a % 0x8000 < 0x7c00
    requires Distance(y, HalfMag(a % 0x8000)) <= Reach(a % 0x8000)
    requires IsNearestEvenFloat(Signed(a >= 0x8000, y), u)
    ensures HalfOfFloat(u) == a && IsNearestEven(Signed(a >= 0x8000, y), a)
    ensures y >= HalfMag(0x400)
  {
    var n, c := a % 0x8000, u % 0x8000_0000;
    var lo, hi := ReachEnds(n);
    MagnitudeReaches(lo, 0x400);
    ReachBelowQuarter(n);
    RoundingStaysBetween(a >= 0x8000, y, u, lo, hi);
    FloatMagOrdered(lo, c);
    FloatMagOrdered(c, hi);
    HalfOfMagnitudeMono(lo, c);
    HalfOfMagnitudeMono(c, hi);
    SignsMatch(a, u);
    forall m: HalfCode | m != n {
      StrictlyNearest(y, n, m);
    }
    SignedNearest(y, a);
  }

  lemma SmallOperandBound(s: nat, k: nat, n: HalfCode)
    requires s < 0x800 && 0x3800 <= n < 0x7c00 && k + 13 <= 124 + n / 0x400
    ensures s * Pow2(k) <= Reach(n)
  {
    Pow2Mono(k, 124 + n / 0x400 - 13);
    ProductMono(s, 0x7ff, Pow2(k), Pow2(124 + n / 0x400 - 13));
  }

  lemma ProductMono(a: nat, b: nat, p: nat, q: nat)
    requires a <= b && p <= q
    ensures a * p <= b * q
  {
    assert a * p <= b * p <= b * q;
  }

  // ---------------------------------------------------------------------------------------
  // The theorem
  // ---------------------------------------------------------------------------------------

  /** The double rounding of x through the binary32 word u is a correct rounding just when x
      is in the half's normal range or zero. */
  ghost predicate RoundsOnce(x: int, u: Word32) {
    IsNearestEven(x, HalfOfFloat(u)) <==> Abs(x) >= HalfMag(0x400) || x == 0
  }

  lemma {:induction false} NearbyExponents(s: bool, x: nat, sa: nat, ka: nat, t: bool, y: nat, sb: nat, kb: nat, u: Word32)
    requires sa < 0x800 && sb < 0x800 && 125 <= kb <= ka <= kb + 12 && ka <= 154
    requires x == sa * Pow2(ka) && y == sb * Pow2(kb)
    requires IsNearestEvenFloat(Signed(s, x) + Signed(t, y), u)
    ensures RoundsOnce(Signed(s, x) + Signed(t, y), u)
  {
    assert kb + (ka - kb) == ka;
    var m := AlignedSum(s, x, sa, t, y, sb, kb, ka - kb);
    ExactSumRoundsOnce(Signed(s, x) + Signed(t, y), m, kb, u);
  }

  lemma SumNearLargeOperand(s: bool, x: nat, t: bool, y: nat) returns (z: nat)
    requires y < x
    ensures Signed(s, x) + Signed(t, y) == Signed(s, z) && Distance(z, x) == y
    ensures z == Abs(Signed(s, x) + Signed(t, y))
  {
    z := if s == t then x + y else x - y;
  }

  lemma DistantExponents(a: Word16, t: bool, y: nat, u: Word32)
    requires IsNormal(a) && a % 0x8000 >= 0x3800 && y <= Reach(a % 0x8000)
    requires IsNearestEvenFloat(HalfValue(a) + Signed(t, y), u)
    ensures RoundsOnce(HalfValue(a) + Signed(t, y), u)
  {
    var n := a % 0x8000;
    var lo, hi := ReachEnds(n);
    var z := SumNearLargeOperand(a >= 0x8000, HalfMag(n), t, y);
    NegligibleOperand(a, z, u);
  }

  /** A normal half or a zero as a multiple of a power of two. */
  lemma Decompose(h: Word16) returns (s: nat, k: nat)
    requires IsNormalOrZero(h)
    ensures s < 0x800 && 125 <= k && HalfMag(h % 0x8000) == s * Pow2(k)
    ensures k == if IsNormal(h) then 124 + h % 0x8000 / 0x400 else 125
  {
    var n := h % 0x8000;
    if IsNormal(h) {
      s, k := 0x400 + n % 0x400, 124 + n / 0x400;
    } else {
      s, k := 0, 125;
    }
  }

  lemma {:induction false} NearbySum(s: bool, n: HalfCode, x: nat, t: bool, y: nat, sb: nat, kb: nat, sum: int, u: Word32)
    requires 0x400 <= n < 0x7c00 && x == HalfMag(n) && 125 <= kb <= 124 + n / 0x400 <= kb + 12
    requires sb < 0x800 && y == sb * Pow2(kb)
    requires sum == Signed(s, x) + Signed(t, y) && IsNearestEvenFloat(sum, u)
    ensures RoundsOnce(sum, u)
  {
    NearbyExponents(s, x, 0x400 + n % 0x400, 124 + n / 0x400, t, y, sb, kb, u);
  }

  lemma ExponentBound(n: nat)
    requires n / 0x400 >= 14
    ensures n >= 0x3800
  {
  }

  lemma {:induction false} DistantSum(a: Word16, t: bool, y: nat, sb: nat, kb: nat, sum: int, u: Word32)
    requires IsNormal(a) && 125 <= kb && kb + 13 <= 124 + a % 0x8000 / 0x400
    requires sb < 0x800 && y == sb * Pow2(kb)
    requires sum == HalfValue(a) + Signed(t, y) && IsNearestEvenFloat(sum, u)
    ensures RoundsOnce(sum, u)
  {
    ExponentBound(a % 0x8000);
    SmallOperandBound(sb, kb, a % 0x8000);
    DistantExponents(a, t, y, u);
  }

  lemma {:induction false} SumOfMultiples(a: Word16, t: bool, y: nat, sb: nat, kb: nat, sum: int, u: Word32)
    requires IsNormal(a) && 125 <= kb <= 124 + a % 0x8000 / 0x400 && sb < 0x800 && y == sb * Pow2(kb)
    requires sum == HalfValue(a) + Signed(t, y) && IsNearestEvenFloat(sum, u)
    ensures RoundsOnce(sum, u)
  {
    var n := a % 0x8000;
    if 124 + n / 0x400 <= kb + 12 {
      NearbySum(a >= 0x8000, n, HalfMag(n), t, y, sb, kb, sum, u);
    } else {
      DistantSum(a, t, y, sb, kb, sum, u);
    }
  }

  lemma {:induction false} SumWithLargerExponent(a: Word16, b: Word16, u: Word32)
    requires IsNormal(a) && IsNormalOrZero(b)
    requires IsNormal(b) ==> b % 0x8000 / 0x400 <= a % 0x8000 / 0x400
    requires IsNearestEvenFloat(HalfValue(a) + HalfValue(b), u)
    ensures RoundsOnce(HalfValue(a) + HalfValue(b), u)
  {
    var sb, kb := Decompose(b);
    SumOfMultiples(a, b >= 0x8000, HalfMag(b % 0x8000), sb, kb, HalfValue(a) + HalfValue(b), u);
  }

  /**
   Adding two halves through binary32 is correctly rounded: for every two halves that are
   normal numbers or zeros, rounding the exact sum to binary32 and the result to a half gives
   the half nearest to the exact sum, ties to even, exactly when the sum reaches the half's
   normal range or is zero.
   */
  lemma AdditionRoundsOnce(a: Word16, b: Word16, u: Word32)
    requires IsNormalOrZero(a) && IsNormalOrZero(b)
    requires IsNearestEvenFloat(HalfValue(a) + HalfValue(b), u)
    ensures RoundsOnce(HalfValue(a) + HalfValue(b), u)
  {
    assert HalfValue(a) + HalfValue(b) == HalfValue(b) + HalfValue(a);
    if IsNormal(a) && (IsNormal(b) ==> b % 0x8000 / 0x400 <= a % 0x8000 / 0x400) {
      SumWithLargerExponent(a, b, u);
    } else if IsNormal(b) {
      SumWithLargerExponent(b, a, u);
    } else {
      ExactSumRoundsOnce(HalfValue(a) + HalfValue(b), 0, 125, u);
    }
  }

  /** The half with the sign bit flipped. */
  function Negated(h: Word16): Word16 {
    if h >= 0x8000 then h - 0x8000 else h + 0x8000
  }

  lemma NegatedValue(h: Word16)
    requires IsNormalOrZero(h)
    ensures IsNormalOrZero(Negated(h)) && HalfValue(Negated(h)) == -HalfValue(h)
  {
    assert Negated(h) % 0x8000 == h % 0x8000;
  }

  /** Subtraction, likewise: the binary32 difference is the sum with the sign flipped. */
  lemma SubtractionRoundsOnce(a: Word16, b: Word16, u: Word32)
    requires IsNormalOrZero(a) && IsNormalOrZero(b)
    requires IsNearestEvenFloat(HalfValue(a) - HalfValue(b), u)
    ensures RoundsOnce(HalfValue(a) - HalfValue(b), u)
  {
    NegatedValue(b);
    AdditionRoundsOnce(a, Negated(b), u);
  }
}
