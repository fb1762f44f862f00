/**
 Component names of the clustered machine (tce/explorer/ADFCombiner.cc:525-541, 562-588 and 955-961).
 */
module ClusterNames {

  predicate IsDigit(c: char) {
    '0' <= c <= '9'
  }

  /** Conversion::toString for a lane number. */
  function Decimal(n: nat): (s: string)
    ensures s != [] && forall i :: 0 <= i < |s| ==> IsDigit(s[i])
  {
    var digit := ['0' + (n % 10) as char];
    if n < 10 then digit else Decimal(n / 10) + digit
  }

  function Number(s: string): int {
    if s == [] then 0 else 10 * Number(s[..|s| - 1]) + (s[|s| - 1] as int - '0' as int)
  }

  lemma {:induction false} NumberOfDecimal(n: nat)
    ensures Number(Decimal(n)) == n
    decreases n
  {
    var s := Decimal(n);
    if n >= 10 {
      NumberOfDecimal(n / 10);
      assert s[..|s| - 1] == Decimal(n / 10);
    } else {
      assert s[..0] == [];
    }
  }

  lemma DecimalInjective(a: nat, b: nat)
    requires Decimal(a) == Decimal(b)
    ensures a == b
  {
    NumberOfDecimal(a);
    NumberOfDecimal(b);
  }

  /** getNodeComponentName */
  function LaneName(original: string, lane: nat): string {
    "L_" + Decimal(lane) + "_" + original
  }

  /** getExtraComponentName */
  function ExtraName(original: string): string {
    "EX_" + original
  }

  function DigitCount(s: string): nat {
    if s == [] || !IsDigit(s[0]) then 0 else 1 + DigitCount(s[1..])
  }

  lemma {:induction false} DigitsBefore(a: string, x: string)
    requires forall i :: 0 <= i < |a| ==> IsDigit(a[i])
    ensures DigitCount(a + "_" + x) == |a|
    decreases |a|
  {
    if a != [] {
      DigitsBefore(a[1..], x);
      assert (a + "_" + x)[1..] == a[1..] + "_" + x;
    }
  }

  /** The digits of a lane number end at the underscore. */
  lemma DigitsEnd(a: string, b: string, x: string, y: string)
    requires (forall i :: 0 <= i < |a| ==> IsDigit(a[i])) && (forall i :: 0 <= i < |b| ==> IsDigit(b[i]))
    requires a + "_" + x == b + "_" + y
    ensures a == b && x == y
  {
    DigitsBefore(a, x);
    DigitsBefore(b, y);
    var s, t := a + "_" + x, b + "_" + y;
    assert a == s[..|a|] && b == t[..|b|];
    assert x == s[|a| + 1..] && y == t[|b| + 1..];
  }

  /** Lane names tell both the lane and the original name; no lane name is an extra name. */
  lemma LaneNameInjective(x: string, i: nat, y: string, j: nat)
    requires LaneName(x, i) == LaneName(y, j)
    ensures x == y && i == j
  {
    assert LaneName(x, i)[2..] == Decimal(i) + "_" + x;
    assert LaneName(y, j)[2..] == Decimal(j) + "_" + y;
    DigitsEnd(Decimal(i), Decimal(j), x, y);
    DecimalInjective(i, j);
  }

  lemma LaneIsNotExtra(x: string, i: nat, y: string)
    ensures LaneName(x, i) != ExtraName(y)
  {
    assert LaneName(x, i)[0] == 'L' && ExtraName(y)[0] == 'E';
  }

  lemma ExtraNameInjective(x: string, y: string)
    requires ExtraName(x) == ExtraName(y)
    ensures x == y
  {
    assert ExtraName(x)[3..] == x && ExtraName(y)[3..] == y;
  }

  function ReadName(file: string): string {
    file + "_connect_r"
  }

  function WriteName(file: string): string {
    file + "_connect_w"
  }

  /** The connect ports of different register files have different names. */
  lemma ConnectNamesDiffer(x: string, y: string)
    ensures ReadName(x) != WriteName(y)
    ensures ReadName(x) == ReadName(y) ==> x == y
    ensures WriteName(x) == WriteName(y) ==> x == y
  {
    var rx, wy, ry, wx := ReadName(x), WriteName(y), ReadName(y), WriteName(x);
    assert rx[|rx| - 1] == 'r' && wy[|wy| - 1] == 'w';
    assert rx[..|rx| - 10] == x && ry[..|ry| - 10] == y && wx[..|wx| - 10] == x && wy[..|wy| - 10] == y;
  }
}
