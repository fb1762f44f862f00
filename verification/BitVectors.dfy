/**
 Bit vectors, most significant bit first (tce/src/applibs/PIG/BitVector.cc), and the bit count
 of MathTools::requiredBits (tce/src/tools/MathTools.icc:50-61).
 */
module BitVectors {
  import opened Powers

  type BitVector = seq<bool>

  function FromBits(b: BitVector): nat {
    if b == [] then 0 else 2 * FromBits(b[..|b| - 1]) + if b[|b| - 1] then 1 else 0
  }

  /** The low `width` binary digits of n. */
  function ToBits(n: nat, width: nat): (b: BitVector)
    ensures |b| == width
  {
    if width == 0 then [] else ToBits(n / 2, width - 1) + [n % 2 == 1]
  }

  /** Reading back the pushed digits gives the number modulo 2^width. */
  lemma {:induction false} FromToBits(n: nat, width: nat)
    ensures FromBits(ToBits(n, width)) == n % Pow2(width)
    decreases width
  {
    if width > 0 {
      FromToBits(n / 2, width - 1);
      var b := ToBits(n, width);
      assert b[..|b| - 1] == ToBits(n / 2, width - 1);
      HalveModulo(n, Pow2(width - 1));
    }
  }

  lemma HalveModulo(n: nat, p: nat)
    requires p > 0
    ensures 2 * (n / 2 % p) + n % 2 == n % (2 * p)
  {
    var q, r := n / 2 / p, n / 2 % p;
    assert n == (2 * p) * q + (2 * r + n % 2) by {
      assert n / 2 == p * q + r;
    }
    RemainderIsUnique(n, 2 * p, q, 2 * r + n % 2);
  }

  lemma RemainderIsUnique(n: nat, d: nat, q: nat, r: nat)
    requires r < d && n == d * q + r
    ensures n % d == r && n / d == q
  {
    QuotientIsUnique(d, q, r, n / d, n % d);
  }

  lemma QuotientIsUnique(d: nat, q: nat, r: nat, q': int, r': nat)
    requires r < d && r' < d && d * q + r == d * q' + r'
    ensures q == q' && r == r'
  {
    if q < q' {
      MultipleGap(d, q, q');
    } else if q' < q {
      MultipleGap(d, q', q);
    }
  }

  lemma MultipleGap(d: nat, a: int, b: int)
    requires a < b
    ensures d * a + d <= d * b
    decreases b - a
  {
    assert d * b == d * (b - 1) + d;
    if a < b - 1 {
      MultipleGap(d, a, b - 1);
    }
  }

  lemma SmallFitsBits(n: nat, width: nat)
    requires n < Pow2(width)
    ensures FromBits(ToBits(n, width)) == n
  {
    FromToBits(n, width);
  }

  lemma HalveQuotient(n: nat, p: nat)
    requires p > 0
    ensures n / (2 * p) == n / p / 2
  {
    var q := n / p;
    var r := n % p;
    assert n == p * q + r;
    assert n == (2 * p) * (q / 2) + (p * (q % 2) + r) by {
      assert q == 2 * (q / 2) + q % 2;
      assert p * (2 * (q / 2) + q % 2) == (2 * p) * (q / 2) + p * (q % 2);
    }
    RemainderIsUnique(n, 2 * p, q / 2, p * (q % 2) + r);
  }

  lemma QuotientIsNat(n: nat, d: nat)
    requires d > 0
    ensures n / d >= 0
  {
    var q := n / d;
    assert n == d * q + n % d;
    if q < 0 {
      MultipleGap(d, q, 0);
    }
  }

  /** The number without its lowest i digits. */
  function High(n: nat, i: nat): nat {
    QuotientIsNat(n, Pow2(i));
    n / Pow2(i)
  }

  lemma HighStep(n: nat, i: nat)
    requires i > 0
    ensures High(n, i) == High(n, i - 1) / 2
  {
    HalveQuotient(n, Pow2(i - 1));
  }

  lemma PushStep(bits: BitVector, integer: nat, size: nat, i: nat)
    requires 0 < i <= size
    ensures bits + ToBits(High(integer, i), size - i) + [High(integer, i - 1) % 2 == 1]
            == bits + ToBits(High(integer, i - 1), size - (i - 1))
  {
    HighStep(integer, i);
    var rest, last := ToBits(High(integer, i), size - i), [High(integer, i - 1) % 2 == 1];
    assert bits + rest + last == bits + (rest + last);
  }

  /** BitVector::pushBack(integer, size): one bit at a time, the highest first. */
  method PushBack(bits: BitVector, integer: nat, size: nat) returns (r: BitVector)
    ensures r == bits + ToBits(integer, size)
  {
    r := bits;
    var i := size;
    assert bits + [] == bits;
    while i > 0
      invariant 0 <= i <= size
      invariant r == bits + ToBits(High(integer, i), size - i)
    {
      PushStep(bits, integer, size, i);
      r := r + [High(integer, i - 1) % 2 == 1];
      i := i - 1;
    }
  }

  /** The number of binary digits of n, at least one. */
  function RequiredBits(n: nat): (bits: nat)
    ensures bits >= 1 && n < Pow2(bits)
    ensures n > 0 ==> Pow2(bits - 1) <= n
  {
    if n < 2 then 1 else 1 + RequiredBits(n / 2)
  }

  method CountRequiredBits(n: nat) returns (bits: nat)
    ensures bits == RequiredBits(n)
  {
    if n == 0 {
      return 1;
    }
    var number: nat := n;
    bits := 0;
    while number != 0
      invariant number > 0 ==> bits + RequiredBits(number) == RequiredBits(n)
      invariant number == 0 ==> bits == RequiredBits(n)
      decreases number
    {
      number := number / 2;
      bits := bits + 1;
    }
  }
}
