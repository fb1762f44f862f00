/**
 Quotients of halves (tce/src/tools/HalfFloatWord.cc:155-157).  A quotient is rounded twice, first
 to binary32 and then to a half, and unlike a sum or a product it has in general infinitely many
 digits.  The two roundings together still give the half nearest to the exact quotient: a quotient
 of two significands of 11 bits is either one of the points where the rounding to a half changes,
 or farther from it than the rounding to binary32 can move it.
 */
module HalfQuotient {
  import opened Powers
  import opened HalfFloat
  import opened HalfArithmetic
  import opened HalfSum

  /** Round to nearest even of the exact quotient num / den, for a binary32 result that does not overflow. */
  ghost predicate IsNearestEvenFloatOver(num: int, den: nat, u: Word32) {
    && IsFinite(u)
    && forall w: Word32 | IsFinite(w) ::
         && Distance(num, FloatValue(u) * den) <= Distance(num, FloatValue(w) * den)
         && (Distance(num, FloatValue(u) * den) == Distance(num, FloatValue(w) * den) && FloatValue(u) != FloatValue(w)
             ==> u % 2 == 0)
  }

  // ---------------------------------------------------------------------------------------
  // The first rounding
  // ---------------------------------------------------------------------------------------

  /** No binary32 magnitude is nearer to num / den. */
  ghost predicate NearestCode(num: nat, den: nat, c: FloatCode) {
    forall k: FloatCode :: Distance(num, FloatMag(c) * den) <= Distance(num, FloatMag(k) * den)
  }

  lemma SignsApart(s: bool, num: nat, t: bool, p: nat)
    ensures Distance(Signed(s, num), Signed(t, p)) == if s == t then Distance(num, p) else num + p
  {
  }

  lemma MagnitudeIsNearest(s: bool, num: nat, den: nat, u: Word32)
    requires den > 0 && IsNearestEvenFloatOver(Signed(s, num), den, u)
    ensures NearestCode(num, den, u % 0x8000_0000)
    ensures FloatMag(u % 0x8000_0000) > 0 ==> (u >= 0x8000_0000 <==> s)
  {
    var f := FloatMag(u % 0x8000_0000);
    forall k: FloatCode
      ensures Distance(num, f * den) <= Distance(num, FloatMag(k) * den)
      ensures (u >= 0x8000_0000 <==> s) || num + f * den <= Distance(num, FloatMag(k) * den)
    {
      NotNearer(s, num, den, u, k);
    }
    var zero: FloatCode := 0;
    assert FloatMag(zero) * den == 0;
    AtLeastUnit(den, f);
  }

  lemma NotNearer(s: bool, num: nat, den: nat, u: Word32, k: FloatCode)
    requires den > 0 && IsNearestEvenFloatOver(Signed(s, num), den, u)
    ensures var f := FloatMag(u % 0x8000_0000);
            && Distance(num, f * den) <= Distance(num, FloatMag(k) * den)
            && ((u >= 0x8000_0000 <==> s) || num + f * den <= Distance(num, FloatMag(k) * den))
  {
    var w := WithSign(s, k);
    assert Distance(Signed(s, num), FloatValue(u) * den) <= Distance(Signed(s, num), FloatValue(w) * den);
    ScaledApart(s, num, u >= 0x8000_0000, FloatMag(u % 0x8000_0000), den);
    ScaledApart(s, num, s, FloatMag(k), den);
  }

  lemma ScaledApart(s: bool, num: nat, t: bool, f: nat, den: nat)
    ensures f * den >= 0
    ensures Distance(Signed(s, num), Signed(t, f) * den) == if s == t then Distance(num, f * den) else num + f * den
  {
    SignedScale(t, f, den);
    SignsApart(s, num, t, f * den);
  }

  lemma RoundedPast(num: nat, den: nat, c: FloatCode, k: FloatCode)
    requires den > 0 && NearestCode(num, den, c)
    ensures num >= FloatMag(k) * den ==> FloatMag(c) >= FloatMag(k)
    ensures num <= FloatMag(k) * den ==> FloatMag(c) <= FloatMag(k)
  {
    StrictProduct(FloatMag(c), FloatMag(k), den);
    StrictProduct(FloatMag(k), FloatMag(c), den);
    assert Distance(num, FloatMag(c) * den) <= Distance(num, FloatMag(k) * den);
  }

  /** The gap above a normal float. */
  lemma FloatGap(c: FloatCode)
    requires 0x80_0000 <= c && c + 1 < 0x7f80_0000
    ensures FloatMag(c + 1) == FloatMag(c) + Pow2(c / 0x80_0000 - 1)
  {
    var e, m := c / 0x80_0000, c % 0x80_0000;
    if m == 0x7f_ffff {
      assert (c + 1) / 0x80_0000 == e + 1 && (c + 1) % 0x80_0000 == 0;
      assert Pow2(e) == 2 * Pow2(e - 1);
    } else {
      assert (c + 1) / 0x80_0000 == e && (c + 1) % 0x80_0000 == m + 1;
      OneMore(0x80_0000 + m, Pow2(e - 1));
    }
  }

  lemma OneMore(s: nat, p: nat)
    ensures (s + 1) * p == s * p + p
  {
  }

  /** The first rounding moves by at most half the gap. */
  lemma WithinHalfGap(num: nat, den: nat, c: FloatCode)
    requires den > 0 && NearestCode(num, den, c) && 2 * 0x80_0000 <= c && c + 1 < 0x7f80_0000
    ensures 2 * Distance(num, FloatMag(c) * den) <= Pow2(c / 0x80_0000 - 1) * den
  {
    var p, r := Pow2(c / 0x80_0000 - 1), Pow2((c - 1) / 0x80_0000 - 1);
    FloatGap(c);
    FloatGap(c - 1);
    Pow2Mono((c - 1) / 0x80_0000 - 1, c / 0x80_0000 - 1);
    assert Distance(num, FloatMag(c) * den) <= Distance(num, FloatMag(c + 1) * den);
    assert Distance(num, FloatMag(c) * den) <= Distance(num, FloatMag(c - 1) * den);
    HalfTheGap(num, den, FloatMag(c), p, FloatMag(c - 1), r);
  }

  lemma HalfTheGap(num: nat, den: nat, f: nat, p: nat, below: nat, r: nat)
    requires f == below + r && 0 < r <= p && den > 0
    requires Distance(num, f * den) <= Distance(num, (f + p) * den) && Distance(num, f * den) <= Distance(num, below * den)
    ensures 2 * Distance(num, f * den) <= p * den
  {
    DifferenceTimes(f, p, den);
    DifferenceTimes(below, r, den);
    ProductMono(r, p, den, den);
    AtLeastUnit(r, den);
    Nearest(num, f * den, p * den, r * den);
  }

  lemma Nearest(num: nat, f: nat, p: nat, r: nat)
    requires 0 < r <= p && r <= f && Distance(num, f) <= Distance(num, f + p) && Distance(num, f) <= Distance(num, f - r)
    ensures 2 * Distance(num, f) <= p
  {
  }

  // ---------------------------------------------------------------------------------------
  // Quotients near a short number
  // ---------------------------------------------------------------------------------------

  /** A nonzero difference of integers is too large to be rounded away. */
  lemma NoSmallDifference(x: int, sb: nat, w: nat)
    requires sb < 0x800 && w > 0 && 2 * Distance(x * (0x1000 * w), 0) <= sb * w
    ensures x == 0
  {
    if x != 0 {
      var y := Distance(x, 0);
      ScaledDistance(x, 0, 0x1000 * w);
      AtLeastUnit(y, 0x1000 * w);
      LessTimes(sb, 0x800, w);
    }
  }

  lemma Factored(a: int, b: int, p: nat)
    ensures Distance(a * p, b * p) == Distance((a - b) * p, 0)
  {
    DifferenceTimes(a, b, p);
  }

  /** sa * 2^x / (sb * 2^y) against m * 2^z, all scaled by sb * 2^y; w is 2^(z + y - 12). */
  lemma {:induction false} LargeNumerator(sa: nat, x: nat, sb: nat, m: nat, t: nat, w: nat)
    requires sb < 0x800 && t <= x && w > 0 && Pow2(t) == 0x1000 * w
    requires 2 * Distance(sa * Pow2(x), m * sb * Pow2(t)) <= sb * w
    ensures sa * Pow2(x) == m * sb * Pow2(t)
  {
    var d := Pow2(x - t);
    PowersMultiply(x - t, t, x);
    Reassociate(sa, d, Pow2(t));
    Factored(sa * d, m * sb, Pow2(t));
    NoSmallDifference(sa * d - m * sb, sb, w);
  }

  lemma {:induction false} SmallNumerator(sa: nat, x: nat, sb: nat, m: nat, t: nat, w: nat)
    requires sa < 0x800 <= m && sb > 0 && x < t && w > 0 && Pow2(t) == 0x1000 * w
    ensures 2 * Distance(sa * Pow2(x), m * sb * Pow2(t)) > sb * w
  {
    Pow2Mono(x, t);
    ProductMono(sa, 0x800, Pow2(x), 0x800 * w);
    AtLeastUnit(sb, w);
    ProductMono(0x800, m, sb, sb);
    FarApart(sa * Pow2(x), sb * w, m * sb, sb, w);
  }

  lemma FarApart(n: nat, far: nat, ms: nat, sb: nat, w: nat)
    requires n <= 0x800 * (0x800 * w) && far == sb * w && far >= w > 0 && ms >= 0x800 * sb
    ensures 2 * Distance(n, ms * (0x1000 * w)) > far
  {
    ProductMono(0x800 * sb, ms, 0x1000 * w, 0x1000 * w);
    Reordered(sb, w);
  }

  lemma Reordered(sb: nat, w: nat)
    ensures (0x800 * sb) * (0x1000 * w) == 0x80_0000 * (sb * w)
  {
  }

  /** A quotient of short significands within half a gap of a short number is that number. */
  lemma {:induction false} ShortQuotient(num: nat, sa: nat, x: nat, den: nat, sb: nat, y: nat, b: nat, m: nat, z: nat)
    requires sa < 0x800 && 0 < sb < 0x800 <= m && z >= 12
    requires num == sa * Pow2(x) && den == sb * Pow2(y) && b == m * Pow2(z)
    requires 2 * Distance(num, b * den) <= Pow2(z - 12) * den
    ensures num == b * den
  {
    var t, w := z + y, Pow2(z + y - 12);
    PowersMultiply(z - 12, y, z + y - 12);
    TwelveBits(t);
    PowersMultiply(z, y, t);
    Rearrange(m, sb, Pow2(z), Pow2(y));
    SwapFactors(Pow2(z - 12), sb, Pow2(y));
    if x < t {
      SmallNumerator(sa, x, sb, m, t, w);
    } else {
      LargeNumerator(sa, x, sb, m, t, w);
    }
  }

  lemma SwapFactors(p: nat, s: nat, q: nat)
    ensures p * (s * q) == s * (p * q)
  {
  }

  lemma TwelveBits(t: nat)
    requires t >= 12
    ensures Pow2(t) == 0x1000 * Pow2(t - 12)
  {
    PowersMultiply(12, t - 12, t);
    assert Pow2(12) == 0x1000;
  }

  // ---------------------------------------------------------------------------------------
  // The points where the second rounding changes
  // ---------------------------------------------------------------------------------------

  /** A float of the half range with at most 12 significant bits: a half or the middle of two. */
  predicate IsShort(k: FloatCode) {
    113 * 0x80_0000 <= k <= 143 * 0x80_0000 && k % 0x1000 == 0
  }

  lemma {:induction false} ShortValue(k: FloatCode) returns (m: nat, z: nat)
    requires IsShort(k)
    ensures 0x800 <= m && z == 12 + (k / 0x80_0000 - 1) && FloatMag(k) == m * Pow2(z)
  {
    var e, r := k / 0x80_0000, k % 0x80_0000;
    m, z := (0x80_0000 + r) / 0x1000, 12 + (e - 1);
    assert 0x80_0000 + r == m * 0x1000;
    TwelveBits(z);
    Reassociate(m, 0x1000, Pow2(e - 1));
  }

  /** The rounded quotient and the exact one lie on the same side of b. */
  ghost predicate SameSide(num: nat, den: nat, f: nat, b: nat) {
    (f < b <==> num < b * den) && (f > b <==> num > b * den)
  }

  ghost predicate IsQuotient(num: nat, den: nat, sa: nat, x: nat, sb: nat, y: nat) {
    sa < 0x800 && 0 < sb < 0x800 && num == sa * Pow2(x) && den == sb * Pow2(y)
  }

  lemma {:induction false} RoundingKeepsSide(num: nat, den: nat, sa: nat, x: nat, sb: nat, y: nat, c: FloatCode, k: FloatCode)
    requires den > 0 && IsQuotient(num, den, sa, x, sb, y) && NearestCode(num, den, c) && IsShort(k)
    ensures SameSide(num, den, FloatMag(c), FloatMag(k))
  {
    RoundedPast(num, den, c, k);
    if FloatMag(c) == FloatMag(k) {
      SameMagnitudeSameCode(c, k);
      var m, z := ShortValue(k);
      WithinHalfGap(num, den, c);
      ShortQuotient(num, sa, x, den, sb, y, FloatMag(k), m, z);
    }
  }

  /** Both roundings see the quotient on the same side of every half and of every middle. */
  ghost predicate KeepsSides(num: nat, den: nat, c: FloatCode) {
    forall k: FloatCode | IsShort(k) :: SameSide(num, den, FloatMag(c), FloatMag(k))
  }

  /** The middle of two neighbouring halves. */
  lemma Middle(q: HalfCode) returns (k: FloatCode)
    requires 0x400 <= q < 0x7c00
    ensures IsShort(k) && 2 * FloatMag(k) == HalfMag(q) + HalfMag(q + 1)
  {
    k := Widened(q) + 0x1000;
    MiddleCode(q, k);
    BetweenHalves(k);
    HalfMagStep(q);
    MiddleOfGap(FloatMag(k), HalfMag(q), HalfMag(q + 1), Pow2(k / 0x80_0000 - 1));
  }

  lemma MiddleCode(q: HalfCode, k: int)
    requires 0x400 <= q < 0x7c00 && k == Widened(q) + 0x1000
    ensures 113 * 0x80_0000 <= k < 143 * 0x80_0000 && k % 0x1000 == 0
    ensures (k - EXPONENT_SHIFT) / 0x2000 == q && (k - EXPONENT_SHIFT) % 0x2000 == 0x1000
  {
    var n := 112 * 0x800 + 2 * q + 1;
    assert k == 0x1000 * n;
    BlockStart(k, n);
  }

  lemma BlockStart(k: int, n: int)
    requires k == 0x1000 * n
    ensures k % 0x1000 == 0
  {
  }

  lemma MiddleOfGap(k: nat, a: nat, b: nat, unit: nat)
    requires k == a + 0x1000 * unit && b == a + 0x2000 * unit
    ensures 2 * k == a + b
  {
  }

  // ---------------------------------------------------------------------------------------
  // The second rounding
  // ---------------------------------------------------------------------------------------

  ghost predicate IsNearestCodeOver(num: nat, den: nat, h: HalfCode) {
    forall n: HalfCode ::
      && Distance(num, HalfMag(h) * den) <= Distance(num, HalfMag(n) * den)
      && (Distance(num, HalfMag(h) * den) == Distance(num, HalfMag(n) * den) && h != n ==> h % 2 == 0)
  }

  lemma NeighbourOver(num: nat, den: nat, q: HalfCode, h: HalfCode, n: HalfCode)
    requires den > 0 && q < 0x7c00 && HalfMag(q) * den <= num <= HalfMag(q + 1) * den
    requires h == q || h == q + 1
    requires h == q ==> 2 * num <= HalfMag(q) * den + HalfMag(q + 1) * den
    requires h == q + 1 ==> HalfMag(q) * den + HalfMag(q + 1) * den <= 2 * num
    requires 2 * num == HalfMag(q) * den + HalfMag(q + 1) * den ==> h % 2 == 0
    ensures Distance(num, HalfMag(h) * den) <= Distance(num, HalfMag(n) * den)
    ensures Distance(num, HalfMag(h) * den) == Distance(num, HalfMag(n) * den) && h != n ==> h % 2 == 0
  {
    HalfMagOrdered(q, q + 1);
    StrictProduct(HalfMag(q), HalfMag(q + 1), den);
    if n < q {
      HalfMagOrdered(n, q);
      StrictProduct(HalfMag(n), HalfMag(q), den);
    } else if n > q + 1 {
      HalfMagOrdered(q + 1, n);
      StrictProduct(HalfMag(q + 1), HalfMag(n), den);
    }
  }

  /** The exact quotient lies between the same halves as the rounded one, and in the same half of the gap. */
  lemma SidesOfGap(num: nat, den: nat, c: FloatCode, q: HalfCode)
    requires KeepsSides(num, den, c) && 0x400 <= q < 0x7c00
    ensures SameSide(num, den, FloatMag(c), HalfMag(q)) && SameSide(num, den, FloatMag(c), HalfMag(q + 1))
    ensures 2 * FloatMag(c) < HalfMag(q) + HalfMag(q + 1) <==> 2 * num < HalfMag(q) * den + HalfMag(q + 1) * den
    ensures 2 * FloatMag(c) > HalfMag(q) + HalfMag(q + 1) <==> 2 * num > HalfMag(q) * den + HalfMag(q + 1) * den
  {
    SideOfHalf(num, den, c, q);
    SideOfHalf(num, den, c, q + 1);
    var k := Middle(q);
    assert SameSide(num, den, FloatMag(c), FloatMag(k));
    DoubledMiddle(FloatMag(k), HalfMag(q), HalfMag(q + 1), den);
  }

  lemma SideOfHalf(num: nat, den: nat, c: FloatCode, n: HalfCode)
    requires KeepsSides(num, den, c) && n >= 0x400
    ensures SameSide(num, den, FloatMag(c), HalfMag(n))
  {
    WidenedMagnitude(n);
    assert IsShort(Widened(n));
  }

  lemma QuotientBetween(num: nat, den: nat, c: FloatCode)
    requires den > 0 && KeepsSides(num, den, c) && 113 * 0x80_0000 <= c < 143 * 0x80_0000
    ensures IsNearestCodeOver(num, den, HalfOfMagnitude(c))
  {
    var q, h := (c - EXPONENT_SHIFT) / 0x2000, HalfOfMagnitude(c);
    RoundedToNeighbour(c);
    SidesOfGap(num, den, c, q);
    forall n: HalfCode {
      NeighbourOver(num, den, q, h, n);
    }
  }

  lemma DoubledMiddle(k: nat, a: nat, b: nat, den: nat)
    requires 2 * k == a + b
    ensures 2 * (k * den) == a * den + b * den
  {
    DifferenceTimes(a, b, den);
    assert 2 * (k * den) == (2 * k) * den;
  }

  lemma QuotientAbove(num: nat, den: nat, c: FloatCode)
    requires den > 0 && KeepsSides(num, den, c) && c >= 143 * 0x80_0000
    ensures IsNearestCodeOver(num, den, 0x7c00)
  {
    var top: HalfCode := 0x7c00;
    MagnitudeReaches(c, top);
    SideOfHalf(num, den, c, top);
    forall n: HalfCode | n != top
      ensures HalfMag(n) * den < HalfMag(top) * den
    {
      HalfMagOrdered(n, top);
      StrictProduct(HalfMag(n), HalfMag(top), den);
    }
  }

  lemma QuotientBelow(num: nat, den: nat, c: FloatCode, first: HalfCode)
    requires KeepsSides(num, den, c) && first >= 0x400
    ensures c >= Widened(first) <==> num >= HalfMag(first) * den
  {
    MagnitudeReaches(c, first);
    SideOfHalf(num, den, c, first);
  }

  lemma FlushedOver(num: nat, den: nat, bound: nat, first: HalfCode)
    requires den > 0 && first > 0 && HalfMag(first) == 2 * bound
    requires forall n: HalfCode | n > 0 :: HalfMag(n) >= 2 * bound
    ensures IsNearestCodeOver(num, den, 0) <==> num <= bound * den
  {
    var zero: HalfCode := 0;
    assert HalfMag(zero) * den == 0;
    assert HalfMag(first) * den == 2 * (bound * den);
    if num <= bound * den {
      forall n: HalfCode | n > 0
        ensures HalfMag(n) * den >= 2 * (bound * den)
      {
        ProductMono(2 * bound, HalfMag(n), den, den);
      }
    } else {
      assert Distance(num, HalfMag(zero) * den) > Distance(num, HalfMag(first) * den);
    }
  }

  // ---------------------------------------------------------------------------------------
  // The theorem
  // ---------------------------------------------------------------------------------------

  /** On magnitudes: both roundings together are a correct rounding in the normal range and up to 2^-25. */
  lemma {:induction false} QuotientRoundsOnce(num: nat, den: nat, c: FloatCode)
    requires den > 0 && KeepsSides(num, den, c)
    ensures HalfOfMagnitude(c) <= 0x7c00
    ensures IsNearestCodeOver(num, den, HalfOfMagnitude(c)) <==> num >= HalfMag(0x400) * den || num <= Pow2(124) * den
  {
    QuotientBelow(num, den, c, 0x400);
    if c >= 143 * 0x80_0000 {
      QuotientAbove(num, den, c);
    } else if c >= 113 * 0x80_0000 {
      QuotientBetween(num, den, c);
    } else {
      forall n: HalfCode | n > 0 {
        SmallestHalf(n);
      }
      FlushedOver(num, den, Pow2(124), 1);
    }
  }

  lemma SignedNearestOver(s: bool, num: nat, den: nat, h: Word16)
    requires IsNumber(h) && (h % 0x8000 > 0 ==> (h >= 0x8000 <==> s))
    ensures IsNearestEvenOver(Signed(s, num), den, h) <==> IsNearestCodeOver(num, den, h % 0x8000)
  {
    if IsNearestCodeOver(num, den, h % 0x8000) {
      forall other: Word16 | IsNumber(other) {
        OtherValue(s, num, den, h, other);
      }
    }
    if IsNearestEvenOver(Signed(s, num), den, h) {
      forall k: HalfCode {
        OtherCode(s, num, den, h, k);
      }
    }
  }

  lemma OtherCode(s: bool, num: nat, den: nat, h: Word16, k: HalfCode)
    requires (h % 0x8000 > 0 ==> (h >= 0x8000 <==> s)) && IsNearestEvenOver(Signed(s, num), den, h)
    ensures var n := h % 0x8000;
            && Distance(num, HalfMag(n) * den) <= Distance(num, HalfMag(k) * den)
            && (Distance(num, HalfMag(n) * den) == Distance(num, HalfMag(k) * den) && n != k ==> n % 2 == 0)
  {
    var other := HalfWithSign(s, k);
    SameParity(h);
    ValueApart(s, num, den, h);
    ValueApart(s, num, den, other);
    HalfMagOrdered(h % 0x8000, k);
    assert Distance(Signed(s, num), HalfValue(h) * den) <= Distance(Signed(s, num), HalfValue(other) * den);
  }

  lemma HalfWithSign(s: bool, k: HalfCode) returns (h: Word16)
    ensures h % 0x8000 == k && (h >= 0x8000 <==> s)
  {
    h := if s then 0x8000 + k else k;
  }

  lemma SameParity(h: Word16)
    ensures h % 0x8000 % 2 == h % 2
  {
  }

  lemma ValueApart(s: bool, num: nat, den: nat, h: Word16)
    requires IsNumber(h) && (h % 0x8000 > 0 ==> (h >= 0x8000 <==> s))
    ensures Distance(Signed(s, num), HalfValue(h) * den) == Distance(num, HalfMag(h % 0x8000) * den)
    ensures HalfValue(h) == Signed(s, HalfMag(h % 0x8000))
  {
    assert HalfValue(h) == Signed(s, HalfMag(h % 0x8000));
    ScaledApart(s, num, s, HalfMag(h % 0x8000), den);
  }

  lemma OtherValue(s: bool, num: nat, den: nat, h: Word16, other: Word16)
    requires IsNumber(h) && IsNumber(other) && IsNearestCodeOver(num, den, h % 0x8000)
    requires h % 0x8000 > 0 ==> (h >= 0x8000 <==> s)
    ensures var v := Signed(s, num);
            && Distance(v, HalfValue(h) * den) <= Distance(v, HalfValue(other) * den)
            && (Distance(v, HalfValue(h) * den) == Distance(v, HalfValue(other) * den) && HalfValue(h) != HalfValue(other)
                ==> h % 2 == 0)
  {
    var n, k, zero: HalfCode := h % 0x8000, other % 0x8000, 0;
    SameParity(h);
    ValueApart(s, num, den, h);
    assert Distance(num, HalfMag(n) * den) <= Distance(num, HalfMag(k) * den);
    assert HalfMag(zero) * den == 0;
    assert Distance(num, HalfMag(n) * den) <= Distance(num, HalfMag(zero) * den);
    ScaledApart(s, num, other >= 0x8000, HalfMag(k), den);
    HalfMagOrdered(n, k);
    HalfMagOrdered(n, zero);
  }

  /** The rounding through u is a correct one just when the quotient is in the half's normal range or at most 2^-25. */
  ghost predicate DividesOnce(s: bool, num: nat, den: nat, u: Word32) {
    IsNearestEvenOver(Signed(s, num), den, HalfOfFloat(u)) <==> num >= HalfMag(0x400) * den || num <= Pow2(124) * den
  }

  lemma {:induction false} DivideScaled(s: bool, p: nat, sa: nat, x: nat, unit: nat, den: nat, sb: nat, y: nat, u: Word32)
    requires sa < 0x800 && p == sa * Pow2(x) && 0 < sb < 0x800 && den == sb * Pow2(y)
    requires IsNearestEvenFloatOver(Signed(s, p * Pow2(unit)), den, u)
    ensures DividesOnce(s, p * Pow2(unit), den, u)
  {
    PowersMultiply(x, unit, x + unit);
    Reassociate(sa, Pow2(x), Pow2(unit));
    AtLeastUnit(sb, Pow2(y));
    DivideQuotient(s, p * Pow2(unit), sa, x + unit, den, sb, y, u);
  }

  lemma {:induction false} DivideQuotient(s: bool, num: nat, sa: nat, x: nat, den: nat, sb: nat, y: nat, u: Word32)
    requires den > 0 && IsQuotient(num, den, sa, x, sb, y) && IsNearestEvenFloatOver(Signed(s, num), den, u)
    ensures DividesOnce(s, num, den, u)
  {
    var c := u % 0x8000_0000;
    MagnitudeIsNearest(s, num, den, u);
    forall k: FloatCode | IsShort(k) {
      RoundingKeepsSide(num, den, sa, x, sb, y, c, k);
    }
    QuotientRoundsOnce(num, den, c);
    SignsOfHalf(u);
    ZeroConverts(c);
    SignedNearestOver(s, num, den, HalfOfFloat(u));
  }

  lemma ZeroConverts(c: FloatCode)
    ensures FloatMag(c) == 0 ==> HalfOfMagnitude(c) == 0
  {
    var zero: FloatCode := 0;
    FloatMagOrdered(c, zero);
  }

  /**
   Dividing two halves through binary32 is correctly rounded: for a normal number or a zero divided
   by a normal number, rounding the exact quotient to binary32 and the result to a half gives the
   half nearest to the exact quotient, ties to even, exactly when the quotient reaches 2^-14, the
   half's normal range (overflow to infinity included), or is at most 2^-25.
   */
  lemma {:induction false} DivisionRoundsOnce(a: Word16, b: Word16, u: Word32)
    requires IsNormalOrZero(a) && IsNormal(b)
    requires IsNearestEvenFloatOver(Signed((a >= 0x8000) != (b >= 0x8000), HalfMag(a % 0x8000) * Pow2(149)), HalfMag(b % 0x8000), u)
    ensures DividesOnce((a >= 0x8000) != (b >= 0x8000), HalfMag(a % 0x8000) * Pow2(149), HalfMag(b % 0x8000), u)
  {
    var n, s := b % 0x8000, (a >= 0x8000) != (b >= 0x8000);
    var sa, x := Decompose(a);
    DivideScaled(s, HalfMag(a % 0x8000), sa, x, 149, HalfMag(n), 0x400 + n % 0x400, 124 + n / 0x400, u);
  }
}
