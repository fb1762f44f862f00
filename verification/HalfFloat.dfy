/**
 The half-precision float of the simulator (tce/src/tools/HalfFloatWord.cc): conversion from
 binary32, conversion back, and arithmetic carried out in binary32.

 Words are natural numbers; a bit field `(x & mask) >> s` is `x / 2^s % 2^w`, and an `or` of
 fields that do not overlap is a sum.  Magnitudes are exact: a natural number counts units of
 2^-149, the smallest positive binary32 number, so no rounding hides in the specification.
 */
module HalfFloat {
  import opened Powers

  type Word32 = x: int | 0 <= x < 0x1_0000_0000
  type Word16 = x: int | 0 <= x < 0x1_0000

  // ---------------------------------------------------------------------------------------
  // Reference values: IEEE 754-2008 section 3.4, in units of 2^-149
  // ---------------------------------------------------------------------------------------

  /** A finite or infinite half without its sign; 0x7c00 stands for 2^16, the value section
      4.3.1 gives to the first number past the largest finite half. */
  type HalfCode = n: int | 0 <= n <= 0x7c00

  /** A finite binary32 number without its sign. */
  type FloatCode = c: int | 0 <= c < 0x7f80_0000

  /** The gap between a half and the next one. */
  function HalfUlp(n: HalfCode): nat {
    Pow2(124 + if n < 0x400 then 1 else n / 0x400)
  }

  function HalfMag(n: HalfCode): nat {
    if n < 0x400 then n * HalfUlp(n) else (0x400 + n % 0x400) * HalfUlp(n)
  }

  function FloatMag(c: FloatCode): nat {
    var e, m := c / 0x80_0000, c % 0x80_0000;
    if e == 0 then m else (0x80_0000 + m) * Pow2(e - 1)
  }

  function Signed(negative: bool, magnitude: nat): int {
    if negative then 0 - magnitude as int else magnitude
  }

  predicate IsFinite(u: Word32) {
    u % 0x8000_0000 < 0x7f80_0000
  }

  function FloatValue(u: Word32): int
    requires IsFinite(u)
  {
    Signed(u >= 0x8000_0000, FloatMag(u % 0x8000_0000))
  }

  predicate IsNumber(h: Word16) {
    h % 0x8000 <= 0x7c00
  }

  function HalfValue(h: Word16): int
    requires IsNumber(h)
  {
    Signed(h >= 0x8000, HalfMag(h % 0x8000))
  }

  function Distance(x: int, y: int): nat {
    if x < y then y - x else x - y
  }

  /** Section 4.3.1, roundTiesToEven: no half is closer to x, and of two equally close ones
      h is the one with an even least significant digit. */
  ghost predicate IsNearestEven(x: int, h: Word16) {
    && IsNumber(h)
    && forall other: Word16 | IsNumber(other) ::
         && Distance(x, HalfValue(h)) <= Distance(x, HalfValue(other))
         && (Distance(x, HalfValue(h)) == Distance(x, HalfValue(other)) && HalfValue(h) != HalfValue(other)
             ==> h % 2 == 0)
  }

  // ---------------------------------------------------------------------------------------
  // binary32 to binary16
  // ---------------------------------------------------------------------------------------

  const EXPONENT_SHIFT := 112 * 0x80_0000

  /** The multiple of 2^13 nearest to x, counted in units of 2^13; ties go to the even one. */
  function RoundedUnits(x: nat): nat {
    var q, r := x / 0x2000, x % 0x2000;
    if r > 0x1000 || (r == 0x1000 && q % 2 == 1) then q + 1 else q
  }

  function HalfOfMagnitude(c: nat): (h: Word16)
    requires c < 0x8000_0000
    ensures c < 0x7f80_0000 ==> h <= 0x7c00
    ensures h < 0x8000
  {
    if c >= 0x7f80_0000 then 0x7e00
    else if c < 113 * 0x80_0000 then 0
    else if c >= 143 * 0x80_0000 then 0x7c00
    else RoundedUnits(c - EXPONENT_SHIFT)
  }

  function HalfOfFloat(u: Word32): Word16 {
    u / 0x8000_0000 * 0x8000 + HalfOfMagnitude(u % 0x8000_0000)
  }

  /** The exponent, mantissa and rounding fields of a word, read off its magnitude. */
  lemma FieldsOfFloat(u: Word32)
    ensures u / 0x80_0000 % 0x100 == u % 0x8000_0000 / 0x80_0000
    ensures u % 0x8000_0000 == u / 0x80_0000 % 0x100 * 0x80_0000 + u % 0x80_0000
    ensures u % 0x80_0000 / 0x2000 % 2 == u / 0x2000 % 2
    ensures u % 0x2000 == u / 0x1000 % 2 * 0x1000 + u % 0x1000
    ensures u % 0x1000 == u / 0x800 % 2 * 0x800 + u % 0x800
    ensures u % 0x80_0000 % 0x2000 == u % 0x2000
  {
    var s, e, q, g, r := u / 0x8000_0000, u / 0x80_0000, u / 0x2000, u / 0x1000, u / 0x800;
    assert q / 0x400 == e && g / 2 == q && r / 2 == g && e / 0x100 == s;
  }

  method ConvertFloatToHalfWordRep(u: Word32) returns (binary16: Word16)
    ensures binary16 == HalfOfFloat(u)
  {
    FieldsOfFloat(u);
    binary16 := u / 0x8000_0000 * 0x8000;
    var expon := u / 0x80_0000 % 0x100;
    if expon == 255 {
      return binary16 + 0x7e00;
    }
    expon := expon + 15 - 127;
    if expon <= 0 {
      return binary16;
    }
    if expon >= 31 {
      return binary16 + 0x7c00;
    }
    binary16 := binary16 + expon * 0x400;
    binary16 := binary16 + u % 0x80_0000 / 0x2000;
    var l, g, r := u / 0x2000 % 2, u / 0x1000 % 2, u / 0x800 % 2;
    var s := if u % 0x800 != 0 then 1 else 0;
    if g == 1 && (l == 1 || r == 1 || s == 1) {
      binary16 := binary16 + 1;
    }
  }

  // ---------------------------------------------------------------------------------------
  // Spacing of the two formats
  // ---------------------------------------------------------------------------------------

  lemma HalfMagStep(n: HalfCode)
    requires n < 0x7c00
    ensures HalfMag(n + 1) == HalfMag(n) + HalfUlp(n)
  {
    var e, m := n / 0x400, n % 0x400;
    if m == 0x3ff {
      assert (n + 1) / 0x400 == e + 1 && (n + 1) % 0x400 == 0;
      assert e > 0 ==> Pow2(124 + (e + 1)) == 2 * Pow2(124 + e);
    } else {
      assert (n + 1) / 0x400 == e && (n + 1) % 0x400 == m + 1;
    }
  }

  lemma {:induction false} HalfMagMono(a: HalfCode, b: HalfCode)
    requires a < b
    ensures HalfMag(a) < HalfMag(b)
    decreases b - a
  {
    HalfMagStep(b - 1);
    if a < b - 1 {
      HalfMagMono(a, b - 1);
    }
  }

  lemma FloatMagStep(c: FloatCode)
    requires c + 1 < 0x7f80_0000
    ensures FloatMag(c) < FloatMag(c + 1)
  {
    var e, m := c / 0x80_0000, c % 0x80_0000;
    if m == 0x7f_ffff {
      assert (c + 1) / 0x80_0000 == e + 1 && (c + 1) % 0x80_0000 == 0;
      if e > 0 {
        assert Pow2(e) == 2 * Pow2(e - 1);
      }
    } else {
      assert (c + 1) / 0x80_0000 == e && (c + 1) % 0x80_0000 == m + 1;
    }
  }

  /** The binary32 words of one sign are ordered like their values, so a value has one word. */
  lemma {:induction false} FloatMagMono(a: FloatCode, b: FloatCode)
    requires a < b
    ensures FloatMag(a) < FloatMag(b)
    decreases b - a
  {
    FloatMagStep(b - 1);
    if a < b - 1 {
      FloatMagMono(a, b - 1);
    }
  }

  /** A float in the half range lies between two neighbouring halves, at r/8192 of the gap. */
  lemma BetweenHalves(c: FloatCode)
    requires 113 * 0x80_0000 <= c < 143 * 0x80_0000
    ensures var x, unit := c - EXPONENT_SHIFT, Pow2(c / 0x80_0000 - 1);
            && 0x400 <= x / 0x2000 < 0x7c00
            && HalfUlp(x / 0x2000) == 0x2000 * unit
            && FloatMag(c) == HalfMag(x / 0x2000) + x % 0x2000 * unit
  {
    var e, m := c / 0x80_0000, c % 0x80_0000;
    var x, unit := c - EXPONENT_SHIFT, Pow2(e - 1);
    var q, r := m / 0x2000, m % 0x2000;
    ShiftedFields(c);
    HalfUnit(e);
    ScaledSum(q, r, unit);
  }

  lemma ShiftedFields(c: nat)
    requires 113 * 0x80_0000 <= c < 143 * 0x80_0000
    ensures var x, e, m := c - EXPONENT_SHIFT, c / 0x80_0000, c % 0x80_0000;
            && x / 0x2000 == (e - 112) * 0x400 + m / 0x2000
            && x % 0x2000 == m % 0x2000
            && x / 0x2000 / 0x400 == e - 112
            && x / 0x2000 % 0x400 == m / 0x2000
  {
  }

  lemma HalfUnit(e: nat)
    requires 113 <= e
    ensures Pow2(124 + (e - 112)) == 0x2000 * Pow2(e - 1)
  {
    Pow2Add(13, e - 1);
    assert Pow2(13) == 0x2000;
  }

  lemma ScaledSum(q: nat, r: nat, unit: nat)
    ensures (0x400 * 0x2000 + (q * 0x2000 + r)) * unit == (0x400 + q) * (0x2000 * unit) + r * unit
  {
  }

  // ---------------------------------------------------------------------------------------
  // Correct rounding
  // ---------------------------------------------------------------------------------------

  lemma GapFraction(r: nat, unit: nat)
    requires r < 0x2000 && unit > 0
    ensures r * unit < 0x2000 * unit
    ensures r < 0x1000 ==> 2 * (r * unit) < 0x2000 * unit
    ensures r == 0x1000 ==> 2 * (r * unit) == 0x2000 * unit
    ensures r > 0x1000 ==> 2 * (r * unit) > 0x2000 * unit
  {
    StrictProduct(r, 0x2000, unit);
    StrictProduct(r, 0x1000, unit);
    StrictProduct(0x1000, r, unit);
  }

  lemma StrictProduct(a: nat, b: nat, unit: nat)
    requires unit > 0
    ensures a < b ==> a * unit < b * unit
  {
  }

  /** RoundedUnits compares the remainder with half a unit, which compares the distances. */
  lemma RoundedUnitsNearer(y: nat, unit: nat, lo: nat, hi: nat)
    requires unit > 0 && hi == lo + 0x2000 * unit
    ensures var q, r, h := y / 0x2000, y % 0x2000, RoundedUnits(y);
            var x := lo + r * unit;
            && lo <= x < hi
            && (h == q ==> x - lo <= hi - x)
            && (h == q + 1 ==> hi - x <= x - lo)
            && (x - lo == hi - x ==> h % 2 == 0)
  {
    GapFraction(y % 0x2000, unit);
  }

  lemma HalfMagOrdered(a: HalfCode, b: HalfCode)
    ensures a < b ==> HalfMag(a) < HalfMag(b)
    ensures a > b ==> HalfMag(a) > HalfMag(b)
  {
    if a < b {
      HalfMagMono(a, b);
    } else if b < a {
      HalfMagMono(b, a);
    }
  }

  /** Of two neighbouring halves, the nearer one is as near as any other half. */
  lemma NearerNeighbour(x: nat, q: HalfCode, h: HalfCode, n: HalfCode)
    requires q < 0x7c00 && HalfMag(q) <= x < HalfMag(q + 1)
    requires h == q || h == q + 1
    requires h == q ==> x - HalfMag(q) <= HalfMag(q + 1) - x
    requires h == q + 1 ==> HalfMag(q + 1) - x <= x - HalfMag(q)
    requires x - HalfMag(q) == HalfMag(q + 1) - x ==> h % 2 == 0
    ensures Distance(x, HalfMag(h)) <= Distance(x, HalfMag(n))
    ensures Distance(x, HalfMag(h)) == Distance(x, HalfMag(n)) && h != n ==> h % 2 == 0
  {
    HalfMagOrdered(n, q);
    HalfMagOrdered(n, q + 1);
  }

  lemma RoundedToNeighbour(c: FloatCode)
    requires 113 * 0x80_0000 <= c < 143 * 0x80_0000
    ensures var x, h, q := FloatMag(c), HalfOfMagnitude(c), (c - EXPONENT_SHIFT) / 0x2000;
            && q < 0x7c00 && HalfMag(q) <= x < HalfMag(q + 1)
            && (h == q || h == q + 1)
            && (h == q ==> x - HalfMag(q) <= HalfMag(q + 1) - x)
            && (h == q + 1 ==> HalfMag(q + 1) - x <= x - HalfMag(q))
            && (x - HalfMag(q) == HalfMag(q + 1) - x ==> h % 2 == 0)
  {
    var y := c - EXPONENT_SHIFT;
    BetweenHalves(c);
    HalfMagStep(y / 0x2000);
    RoundedUnitsNearer(y, Pow2(c / 0x80_0000 - 1), HalfMag(y / 0x2000), HalfMag(y / 0x2000 + 1));
  }

  /** The float with the value of a normal half, and the first number past the largest half. */
  function Widened(n: HalfCode): FloatCode
    requires n >= 0x400
  {
    EXPONENT_SHIFT + n * 0x2000
  }

  lemma WidenedMagnitude(n: HalfCode)
    requires n >= 0x400
    ensures FloatMag(Widened(n)) == HalfMag(n)
  {
    var c, e := Widened(n), n / 0x400 + 112;
    HalfUnit(e);
    assert c == e * 0x80_0000 + n % 0x400 * 0x2000;
    assert c / 0x80_0000 == e && c % 0x80_0000 == n % 0x400 * 0x2000;
  }

  lemma FloatMagOrdered(a: FloatCode, b: FloatCode)
    ensures FloatMag(a) <= FloatMag(b) <==> a <= b
  {
    if a < b {
      FloatMagMono(a, b);
    } else if b < a {
      FloatMagMono(b, a);
    }
  }

  lemma MagnitudeReaches(c: FloatCode, n: HalfCode)
    requires n >= 0x400
    ensures c >= Widened(n) <==> FloatMag(c) >= HalfMag(n)
  {
    WidenedMagnitude(n);
    FloatMagOrdered(Widened(n), c);
  }

  /** Among magnitudes: the conversion picks the nearer neighbour, the even one on a tie. */
  lemma NearestMagnitude(c: FloatCode, n: HalfCode)
    requires 113 * 0x80_0000 <= c
    ensures var h := HalfOfMagnitude(c);
            && Distance(FloatMag(c), HalfMag(h)) <= Distance(FloatMag(c), HalfMag(n))
            && (Distance(FloatMag(c), HalfMag(h)) == Distance(FloatMag(c), HalfMag(n)) && h != n
                ==> h % 2 == 0)
  {
    var h := HalfOfMagnitude(c);
    if c < 143 * 0x80_0000 {
      RoundedToNeighbour(c);
      NearerNeighbour(FloatMag(c), (c - EXPONENT_SHIFT) / 0x2000, h, n);
    } else {
      MagnitudeReaches(c, h);
      HalfMagOrdered(n, h);
    }
  }

  ghost predicate IsNearestMagnitude(x: nat, h: HalfCode) {
    forall n: HalfCode ::
      && Distance(x, HalfMag(h)) <= Distance(x, HalfMag(n))
      && (Distance(x, HalfMag(h)) == Distance(x, HalfMag(n)) && h != n ==> h % 2 == 0)
  }

  lemma SignedDistance(negative: bool, x: nat, h: HalfCode, n: HalfCode, otherNegative: bool)
    requires IsNearestMagnitude(x, h)
    ensures var v, a, b := Signed(negative, x), Signed(negative, HalfMag(h)), Signed(otherNegative, HalfMag(n));
            && Distance(v, a) <= Distance(v, b)
            && (Distance(v, a) == Distance(v, b) && a != b ==> h % 2 == 0)
  {
    var zero: HalfCode := 0;
    assert Distance(x, HalfMag(h)) <= Distance(x, HalfMag(n));
    assert Distance(x, HalfMag(h)) <= Distance(x, HalfMag(zero));
    HalfMagOrdered(zero, n);
  }

  /** A magnitude result carries over to signed values: halves of the other sign are farther. */
  lemma SignedNearest(x: nat, h: Word16)
    requires IsNumber(h) && IsNearestMagnitude(x, h % 0x8000)
    ensures IsNearestEven(Signed(h >= 0x8000, x), h)
  {
    var v := Signed(h >= 0x8000, x);
    assert h % 0x8000 % 2 == h % 2;
    forall other: Word16 | IsNumber(other)
      ensures && Distance(v, HalfValue(h)) <= Distance(v, HalfValue(other))
              && (Distance(v, HalfValue(h)) == Distance(v, HalfValue(other)) && HalfValue(h) != HalfValue(other)
                  ==> h % 2 == 0)
    {
      SignedDistance(h >= 0x8000, x, h % 0x8000, other % 0x8000, other >= 0x8000);
    }
  }

  lemma SignsOfHalf(u: Word32)
    requires IsFinite(u)
    ensures IsNumber(HalfOfFloat(u))
    ensures HalfOfFloat(u) % 0x8000 == HalfOfMagnitude(u % 0x8000_0000)
    ensures HalfOfFloat(u) >= 0x8000 <==> u >= 0x8000_0000
  {
  }

  lemma NearestAboveUnderflow(u: Word32)
    requires IsFinite(u) && u % 0x8000_0000 >= 113 * 0x80_0000
    ensures IsNearestEven(FloatValue(u), HalfOfFloat(u))
  {
    forall n: HalfCode {
      NearestMagnitude(u % 0x8000_0000, n);
    }
    SignsOfHalf(u);
    SignedNearest(FloatMag(u % 0x8000_0000), HalfOfFloat(u));
  }

  /** The smallest positive half is 2^-24, twice the bound for flushing. */
  lemma SmallestHalf(n: HalfCode)
    requires n > 0
    ensures HalfMag(n) >= 2 * Pow2(124)
    ensures n == 1 ==> HalfMag(n) == 2 * Pow2(124)
  {
    Pow2Mono(124, 124 + if n < 0x400 then 1 else n / 0x400);
    AtLeastUnit(if n < 0x400 then n else 0x400 + n % 0x400, HalfUlp(n));
  }

  lemma AtLeastUnit(s: nat, unit: nat)
    requires s > 0
    ensures s * unit >= unit
  {
  }

  lemma ZeroIsNearest(x: nat, bound: nat)
    requires x <= bound && forall n: HalfCode | n > 0 :: HalfMag(n) >= 2 * bound
    ensures IsNearestMagnitude(x, 0)
  {
    var zero: HalfCode := 0;
    assert HalfMag(zero) == 0;
  }

  lemma NotNearest(v: int, h: Word16, other: Word16)
    requires IsNumber(other) && (IsNumber(h) ==> Distance(v, HalfValue(h)) > Distance(v, HalfValue(other)))
    ensures !IsNearestEven(v, h)
  {
  }

  /** Flushing to zero is correct rounding for a magnitude of at most 2^-25, and only then. */
  lemma NearestWhenFlushed(u: Word32)
    requires u % 0x8000_0000 < 113 * 0x80_0000
    ensures IsNearestEven(FloatValue(u), HalfOfFloat(u)) <==> FloatMag(u % 0x8000_0000) <= Pow2(124)
  {
    forall n: HalfCode | n > 0 {
      SmallestHalf(n);
    }
    FlushedNearest(u, HalfOfFloat(u), Pow2(124), 1);
  }

  lemma FlushedNearest(u: Word32, h: Word16, bound: nat, first: HalfCode)
    requires IsFinite(u) && h == u / 0x8000_0000 * 0x8000 && first > 0 && HalfMag(first) == 2 * bound
    requires forall n: HalfCode | n > 0 :: HalfMag(n) >= 2 * bound
    ensures IsNearestEven(FloatValue(u), h) <==> FloatMag(u % 0x8000_0000) <= bound
  {
    var x := FloatMag(u % 0x8000_0000);
    if x <= bound {
      ZeroIsNearest(x, bound);
      SignedNearest(x, h);
    } else {
      assert (h + first) % 0x8000 == first;
      NotNearest(FloatValue(u), h, h + first);
    }
  }

  /**
   The conversion rounds to nearest even exactly when the float's exponent field reaches the
   half's normal range or its magnitude is at most 2^-25, half the smallest subnormal half:
   for every finite float, including carries into the exponent and overflow to infinity.
   */
  lemma ConversionRoundsToNearestEven(u: Word32)
    requires IsFinite(u)
    ensures IsNearestEven(FloatValue(u), HalfOfFloat(u))
            <==> u % 0x8000_0000 >= 113 * 0x80_0000 || FloatMag(u % 0x8000_0000) <= Pow2(124)
  {
    if u % 0x8000_0000 >= 113 * 0x80_0000 {
      NearestAboveUnderflow(u);
    } else {
      NearestWhenFlushed(u);
    }
  }

  // ---------------------------------------------------------------------------------------
  // Monotonicity
  // ---------------------------------------------------------------------------------------

  lemma HalfOfMagnitudeMono(a: FloatCode, b: FloatCode)
    requires a <= b
    ensures HalfOfMagnitude(a) <= HalfOfMagnitude(b)
  {
  }

  lemma MagnitudesKeepOrder(a: FloatCode, b: FloatCode)
    ensures FloatMag(a) <= FloatMag(b) ==> HalfMag(HalfOfMagnitude(a)) <= HalfMag(HalfOfMagnitude(b))
    ensures FloatMag(a) == 0 ==> HalfMag(HalfOfMagnitude(a)) == 0
  {
    var zero: FloatCode := 0;
    FloatMagOrdered(a, b);
    FloatMagOrdered(a, zero);
    if a <= b {
      HalfOfMagnitudeMono(a, b);
      HalfMagOrdered(HalfOfMagnitude(a), HalfOfMagnitude(b));
    }
  }

  /** The conversion keeps the order of every two finite floats. */
  lemma ConversionIsMonotone(u: Word32, w: Word32)
    requires IsFinite(u) && IsFinite(w) && FloatValue(u) <= FloatValue(w)
    ensures IsNumber(HalfOfFloat(u)) && IsNumber(HalfOfFloat(w))
    ensures HalfValue(HalfOfFloat(u)) <= HalfValue(HalfOfFloat(w))
  {
    SignsOfHalf(u);
    SignsOfHalf(w);
    var a, b := u % 0x8000_0000, w % 0x8000_0000;
    MagnitudesKeepOrder(a, b);
    MagnitudesKeepOrder(b, a);
    SignedOrder(u >= 0x8000_0000, FloatMag(a), w >= 0x8000_0000, FloatMag(b),
                HalfMag(HalfOfMagnitude(a)), HalfMag(HalfOfMagnitude(b)));
  }

  lemma SignedOrder(s: bool, x: nat, t: bool, y: nat, x': nat, y': nat)
    requires Signed(s, x) <= Signed(t, y)
    requires x <= y ==> x' <= y'
    requires y <= x ==> y' <= x'
    requires (x == 0 ==> x' == 0) && (y == 0 ==> y' == 0)
    ensures Signed(s, x') <= Signed(t, y')
  {
  }
}
