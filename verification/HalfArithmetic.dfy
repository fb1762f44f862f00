/**
 Half arithmetic through binary32 (tce/src/tools/HalfFloatWord.cc:113-157): the conversion of a
 half to binary32, its inverse, and the products and sums that are rounded first to binary32 and
 then to a half.
 */
module HalfArithmetic {
  import opened Powers
  import opened HalfFloat

  /** What `operator float` returns; a finite magnitude counts units of 2^-149. */
  datatype Float = NaN | Inf(negative: bool) | Fin(negative: bool, mag: nat)

  /** The binary32 word u is the float f. */
  predicate Denotes(u: Word32, f: Float) {
    match f
    case NaN => u % 0x8000_0000 > 0x7f80_0000
    case Inf(negative) => u % 0x8000_0000 == 0x7f80_0000 && (u >= 0x8000_0000 <==> negative)
    case Fin(negative, mag) =>
      IsFinite(u) && (u >= 0x8000_0000 <==> negative) && FloatMag(u % 0x8000_0000) == mag
  }

  predicate IsNormal(h: Word16) {
    0x400 <= h % 0x8000 < 0x7c00
  }

  predicate IsFiniteHalf(h: Word16) {
    h % 0x8000 < 0x7c00
  }

  /** The significand the code uses: the implicit one is added unless the exponent is zero. */
  function Significand(h: Word16): nat {
    var mant := h % 0x400;
    if h / 0x400 % 0x20 == 0 then mant else mant + 0x400
  }

  function FloatOfHalf(h: Word16): Float {
    if h % 0x8000 == 0x7c00 then Inf(h >= 0x8000)
    else if h % 0x8000 > 0x7c00 then NaN
    else Fin(h >= 0x8000, Significand(h) * Pow2(124 + h / 0x400 % 0x20))
  }

  /**
   The steps of `operator float`.  The float variable `value` holds mant * 2^scale throughout:
   dividing by 0x400 and multiplying by exp2 change only the scale, and Representable below
   shows that a significand of 11 bits at any of these scales is a binary32 number, so no step
   of the original rounds.
   */
  method OperatorFloat(binaryRep: Word16) returns (f: Float)
    ensures f == FloatOfHalf(binaryRep)
  {
    FieldsOfHalf(binaryRep);
    if binaryRep == 0xfc00 {
      return Inf(true);
    }
    if binaryRep == 0x7c00 {
      return Inf(false);
    }
    var sgn := binaryRep / 0x8000 == 1;
    var exp := binaryRep / 0x400 % 0x20;
    var mant := binaryRep % 0x400;
    if exp == 0x1f && mant != 0 {
      return NaN;
    }
    var value := if exp == 0 then mant else mant + 0x400;
    var scale := 0;
    scale := scale - 10;
    scale := scale + (exp - 15);
    f := Fin(sgn, value * Pow2(149 + scale));
  }

  /** A significand of at most 24 bits, shifted within the exponent range, is a binary32 number. */
  lemma {:induction false} Representable(s: nat, k: nat) returns (c: FloatCode)
    requires s < 0x100_0000 && k <= 253
    ensures FloatMag(c) == s * Pow2(k)
    decreases k
  {
    if s >= 0x80_0000 {
      c := (k + 1) * 0x80_0000 + (s - 0x80_0000);
      assert c / 0x80_0000 == k + 1 && c % 0x80_0000 == s - 0x80_0000;
    } else if k == 0 {
      c := s;
    } else {
      c := Representable(2 * s, k - 1);
      Doubled(s, k);
    }
  }

  lemma Doubled(s: nat, k: nat)
    requires k > 0
    ensures 2 * s * Pow2(k - 1) == s * Pow2(k)
  {
  }

  lemma SameMagnitudeSameCode(a: FloatCode, b: FloatCode)
    requires FloatMag(a) == FloatMag(b)
    ensures a == b
  {
    FloatMagOrdered(a, b);
    FloatMagOrdered(b, a);
  }

  /** The fields of a half read off its code. */
  lemma FieldsOfHalf(h: Word16)
    ensures h % 0x8000 / 0x400 == h / 0x400 % 0x20
    ensures h % 0x8000 % 0x400 == h % 0x400
    ensures h % 0x8000 == h / 0x400 % 0x20 * 0x400 + h % 0x400
    ensures h == h / 0x8000 * 0x8000 + h % 0x8000
  {
    assert h / 0x400 / 0x20 == h / 0x8000;
  }

  /** Every half has a binary32 word: the conversion to float is exact. */
  lemma HalfIsExactFloat(h: Word16) returns (u: Word32)
    ensures Denotes(u, FloatOfHalf(h))
  {
    var c: nat := 0x7fc0_0000;
    if h % 0x8000 == 0x7c00 {
      c := 0x7f80_0000;
    } else if h % 0x8000 < 0x7c00 {
      c := Representable(Significand(h), 124 + h / 0x400 % 0x20);
    }
    u := WithSign(h >= 0x8000, c);
  }

  lemma WithSign(negative: bool, c: nat) returns (u: Word32)
    requires c < 0x8000_0000
    ensures u % 0x8000_0000 == c && (u >= 0x8000_0000 <==> negative)
  {
    u := if negative then 0x8000_0000 + c else c;
  }

  /** The float of a normal half is the IEEE value of the half. */
  lemma NormalHalfValue(h: Word16)
    requires IsNormal(h)
    ensures FloatOfHalf(h) == Fin(h >= 0x8000, HalfMag(h % 0x8000))
  {
    FieldsOfHalf(h);
  }

  /** A float whose value is that of a normal half converts to that half. */
  lemma ExactMagnitudeConverts(c: FloatCode, n: HalfCode)
    requires 0x400 <= n < 0x7c00 && FloatMag(c) == HalfMag(n)
    ensures 113 * 0x80_0000 <= c && HalfOfMagnitude(c) == n
  {
    WidenedMagnitude(n);
    SameMagnitudeSameCode(c, Widened(n));
  }

  /** A product with a smaller factor and a unit no larger stays below a normal half. */
  lemma SubnormalStaysBelow(s: nat, k: nat, c: FloatCode, n: HalfCode)
    requires s < 0x400 <= n && Pow2(k) <= HalfUlp(n) && FloatMag(c) == s * Pow2(k)
    ensures c < Widened(n)
  {
    MagnitudeReaches(c, n);
    SmallerProduct(s, 0x400 + n % 0x400, Pow2(k), HalfUlp(n));
  }

  lemma SmallerProduct(a: nat, b: nat, p: nat, q: nat)
    requires a < b && 0 < p <= q
    ensures a * p < b * q
  {
    LessTimes(a, b, p);
    assert b * p <= b * q;
  }

  lemma LessTimes(a: nat, b: nat, p: nat)
    requires a < b && p > 0
    ensures a * p < b * p
  {
  }

  /**
   Converting a half to float and back gives it back exactly when it is a zero or a normal
   number, or the one NaN pattern the conversion produces; infinities come back as NaN and
   subnormal halves as zero.
   */
  lemma {:induction false} RoundTrip(h: Word16, u: Word32)
    requires Denotes(u, FloatOfHalf(h))
    ensures HalfOfFloat(u) == h
            <==> h % 0x8000 == 0 || IsNormal(h) || h == u / 0x8000_0000 * 0x8000 + 0x7e00
  {
    if IsFiniteHalf(h) {
      FiniteRoundTrip(h, u % 0x8000_0000);
      SignsMatch(h, u);
    } else if h % 0x8000 == 0x7c00 {
      SignsMatch(h, u);
    }
  }

  lemma {:induction false} FiniteRoundTrip(h: Word16, c: FloatCode)
    requires IsFiniteHalf(h) && FloatMag(c) == FloatOfHalf(h).mag
    ensures HalfOfMagnitude(c) == if IsNormal(h) then h % 0x8000 else 0
  {
    if IsNormal(h) {
      NormalHalfValue(h);
      ExactMagnitudeConverts(c, h % 0x8000);
    } else {
      SmallHalfRoundTrip(h, c);
    }
  }

  lemma SmallHalfRoundTrip(h: Word16, c: FloatCode)
    requires h % 0x8000 < 0x400 && FloatMag(c) == Significand(h) * Pow2(124 + h / 0x400 % 0x20)
    ensures HalfOfMagnitude(c) == 0
  {
    FieldsOfHalf(h);
    SubnormalStaysBelow(Significand(h), 124 + h / 0x400 % 0x20, c, 0x400);
  }

  lemma SignsMatch(h: Word16, u: Word32)
    requires u >= 0x8000_0000 <==> h >= 0x8000
    ensures HalfOfFloat(u) == h <==> HalfOfMagnitude(u % 0x8000_0000) == h % 0x8000
  {
  }

  // ---------------------------------------------------------------------------------------
  // Multiplication
  // ---------------------------------------------------------------------------------------

  /** u is the exact product of the floats of a and b; products of two counts of 2^-149 count
      units of 2^-298. */
  ghost predicate IsExactProduct(u: Word32, a: Word16, b: Word16)
    requires IsFiniteHalf(a) && IsFiniteHalf(b)
  {
    && IsFinite(u)
    && (u >= 0x8000_0000 <==> (a >= 0x8000) != (b >= 0x8000))
    && FloatMag(u % 0x8000_0000) * Pow2(149) == FloatOfHalf(a).mag * FloatOfHalf(b).mag
  }

  lemma ProductOfScaled(sa: nat, sb: nat, ka: nat, kb: nat, k: nat, unit: nat)
    requires k + unit == ka + kb
    ensures sa * sb * Pow2(k) * Pow2(unit) == (sa * Pow2(ka)) * (sb * Pow2(kb))
  {
    SameExponents(ka, kb, k, unit);
    SameProduct(sa, sb, Pow2(ka), Pow2(kb), Pow2(k), Pow2(unit));
  }

  lemma {:induction false} SameExponents(ka: nat, kb: nat, k: nat, unit: nat)
    requires k + unit == ka + kb
    ensures Pow2(k) * Pow2(unit) == Pow2(ka) * Pow2(kb)
  {
    PowersMultiply(k, unit, k + unit);
    PowersMultiply(ka, kb, k + unit);
  }

  lemma {:induction false} PowersMultiply(a: nat, b: nat, n: nat)
    requires n == a + b
    ensures Pow2(a) * Pow2(b) == Pow2(n)
  {
    Pow2Add(a, b);
  }

  lemma SameProduct(x: nat, y: nat, p: nat, q: nat, r: nat, unit: nat)
    requires r * unit == p * q
    ensures x * y * r * unit == (x * p) * (y * q)
  {
    Rearrange(x, y, p, q);
    Reassociate(x * y, r, unit);
  }

  lemma Rearrange(x: nat, y: nat, p: nat, q: nat)
    ensures x * y * (p * q) == (x * p) * (y * q)
  {
  }

  lemma Reassociate(x: nat, p: nat, q: nat)
    ensures x * p * q == x * (p * q)
  {
  }

  /** The product of two significands of 11 bits fits in 24, so every product of two finite
      halves, subnormal ones included, is a binary32 number. */
  lemma {:induction false} ProductIsExact(a: Word16, b: Word16) returns (u: Word32)
    requires IsFiniteHalf(a) && IsFiniteHalf(b)
    ensures IsExactProduct(u, a, b)
  {
    var ka, kb := 124 + a / 0x400 % 0x20, 124 + b / 0x400 % 0x20;
    var c := ProductWord(Significand(a), ka, FloatOfHalf(a).mag, Significand(b), kb, FloatOfHalf(b).mag, 149);
    u := WithSign((a >= 0x8000) != (b >= 0x8000), c);
  }

  lemma {:induction false} ProductWord(sa: nat, ka: nat, x: nat, sb: nat, kb: nat, y: nat, unit: nat)
      returns (c: FloatCode)
    requires sa < 0x800 && sb < 0x800 && unit <= ka + kb <= unit + 253
    requires x == sa * Pow2(ka) && y == sb * Pow2(kb)
    ensures FloatMag(c) * Pow2(unit) == x * y
  {
    assert 0 <= sa * sb < 0x800 * 0x800;
    c := Representable(sa * sb, ka + kb - unit);
    ProductOfScaled(sa, sb, ka, kb, ka + kb - unit, unit);
  }

  /** Round to nearest even of the exact quotient num / den. */
  ghost predicate IsNearestEvenOver(num: int, den: nat, h: Word16) {
    && IsNumber(h)
    && forall other: Word16 | IsNumber(other) ::
         && Distance(num, HalfValue(h) * den) <= Distance(num, HalfValue(other) * den)
         && (Distance(num, HalfValue(h) * den) == Distance(num, HalfValue(other) * den) && HalfValue(h) != HalfValue(other)
             ==> h % 2 == 0)
  }

  lemma ScaledDistance(x: int, y: int, den: nat)
    requires den > 0
    ensures Distance(x * den, y * den) == Distance(x, y) * den
  {
  }

  lemma ScaledOrder(p: nat, q: nat, den: nat)
    requires den > 0
    ensures p * den <= q * den <==> p <= q
    ensures p * den == q * den <==> p == q
  {
  }

  lemma NearestIsScaleFree(x: int, den: nat, h: Word16)
    requires den > 0
    ensures IsNearestEvenOver(x * den, den, h) <==> IsNearestEven(x, h)
  {
    if IsNumber(h) {
      var v := HalfValue(h);
      ScaledDistance(x, v, den);
      forall other: Word16 | IsNumber(other)
        ensures Distance(x * den, v * den) <= Distance(x * den, HalfValue(other) * den)
                <==> Distance(x, v) <= Distance(x, HalfValue(other))
        ensures Distance(x * den, v * den) == Distance(x * den, HalfValue(other) * den)
                <==> Distance(x, v) == Distance(x, HalfValue(other))
      {
        ScaledDistance(x, HalfValue(other), den);
        ScaledOrder(Distance(x, v), Distance(x, HalfValue(other)), den);
      }
    }
  }

  lemma SignedProduct(s: bool, x: nat, t: bool, y: nat)
    ensures Signed(s, x) * Signed(t, y) == Signed(s != t, x * y)
  {
  }

  lemma SignedScale(s: bool, x: nat, den: nat)
    ensures Signed(s, x) * den == Signed(s, x * den)
  {
  }

  /**
   Multiplying two normal halves through binary32 gives the exact product rounded once to
   nearest even exactly when the product reaches 2^-14, the half's normal range (overflow to
   infinity included), or is at most 2^-25.
   */
  lemma MultiplicationRoundsOnce(a: Word16, b: Word16, u: Word32)
    requires IsNormal(a) && IsNormal(b) && IsExactProduct(u, a, b)
    ensures var p := HalfMag(a % 0x8000) * HalfMag(b % 0x8000);
            IsNearestEvenOver(HalfValue(a) * HalfValue(b), Pow2(149), HalfOfFloat(u))
            <==> p >= HalfMag(0x400) * Pow2(149) || p <= Pow2(124) * Pow2(149)
  {
    ScaledRounding(a, b, u, Pow2(149));
  }

  lemma ScaledRounding(a: Word16, b: Word16, u: Word32, den: nat)
    requires IsNormal(a) && IsNormal(b) && IsFinite(u) && den > 0
    requires u >= 0x8000_0000 <==> (a >= 0x8000) != (b >= 0x8000)
    requires FloatMag(u % 0x8000_0000) * den == FloatOfHalf(a).mag * FloatOfHalf(b).mag
    ensures var p := HalfMag(a % 0x8000) * HalfMag(b % 0x8000);
            IsNearestEvenOver(HalfValue(a) * HalfValue(b), den, HalfOfFloat(u))
            <==> p >= HalfMag(0x400) * den || p <= Pow2(124) * den
  {
    NormalHalfValue(a);
    NormalHalfValue(b);
    var x := FloatMag(u % 0x8000_0000);
    SignedProduct(a >= 0x8000, HalfMag(a % 0x8000), b >= 0x8000, HalfMag(b % 0x8000));
    SignedScale(u >= 0x8000_0000, x, den);
    NearestIsScaleFree(FloatValue(u), den, HalfOfFloat(u));
    ConversionRoundsToNearestEven(u);
    MagnitudeReaches(u % 0x8000_0000, 0x400);
    ScaledOrder(HalfMag(0x400), x, den);
    ScaledOrder(x, Pow2(124), den);
  }
}
