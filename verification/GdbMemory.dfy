/**
 Memory commands of the GDB stub (tce/newlib-1.17.0/libgloss/debug.c:180-264, 396-417 and 499-567):
 addresses are 32 bits wide, and a byte that is not in the memory map faults.
 */
module GdbMemory {
  import opened Wrappers
  import opened GdbPackets

  type Memory = map<int, byte>

  const SPACE: int := 0x1_0000_0000

  function At(addr: nat, i: nat): nat {
    (addr + i) % SPACE
  }

  // ---------------------------------------------------------------------------------------
  // Hex text
  // ---------------------------------------------------------------------------------------

  function HexOf(s: seq<byte>): (h: seq<byte>)
    ensures |h| == 2 * |s|
  {
    if s == [] then []
    else
      var n := |s| - 1;
      HexOf(s[..n]) + [DigitToHex(s[n] / 16), DigitToHex(s[n] % 16)]
  }

  /** Two digits put into one byte; a character that is no digit contributes ones. */
  function Pair(hi: int, lo: int): byte
    requires -1 <= hi < 16 && -1 <= lo < 16
  {
    if lo == -1 then 255 else (if hi == -1 then 240 else 16 * hi) + lo
  }

  function FromHex(buffer: seq<byte>, at: nat, n: nat): (s: seq<byte>)
    requires at + 2 * n <= |buffer|
    ensures |s| == n
  {
    if n == 0 then []
    else
      var k := at + 2 * (n - 1);
      FromHex(buffer, at, n - 1) + [Pair(HexToDigit(buffer[k]), HexToDigit(buffer[k + 1]))]
  }

  lemma PairRoundTrip(b: byte)
    ensures Pair(HexToDigit(DigitToHex(b / 16)), HexToDigit(DigitToHex(b % 16))) == b
  {
    DigitRoundTrip(b / 16);
    DigitRoundTrip(b % 16);
  }

  /** Decoding the hex text of bytes, wherever it stands in a buffer, gives back the bytes. */
  lemma {:induction false} HexRoundTrip(b: seq<byte>, at: nat, s: seq<byte>)
    requires at + 2 * |s| <= |b| && b[at..at + 2 * |s|] == HexOf(s)
    ensures FromHex(b, at, |s|) == s
    decreases |s|
  {
    if s != [] {
      var n := |s| - 1;
      var h := b[at..at + 2 * |s|];
      assert b[at + 2 * n] == h[2 * n] && b[at + 2 * n + 1] == h[2 * n + 1];
      assert b[at..at + 2 * n] == h[..2 * n] == HexOf(s[..n]);
      HexRoundTrip(b, at, s[..n]);
      PairRoundTrip(s[n]);
      assert s[..n] + [s[n]] == s;
    }
  }

  lemma {:induction false} HexIsPlain(s: seq<byte>)
    ensures Plain(HexOf(s)) && forall i :: 0 <= i < |HexOf(s)| ==> HexOf(s)[i] != 0
    decreases |s|
  {
    if s != [] {
      var n := |s| - 1;
      HexIsPlain(s[..n]);
      DigitRoundTrip(s[n] / 16);
      DigitRoundTrip(s[n] % 16);
    }
  }

  /** hex2int: the value read, wrapping at 32 bits, and where reading stopped. */
  function HexInt(buffer: seq<byte>, at: nat, v: nat): (r: (nat, nat))
    requires at <= |buffer| && v < SPACE
    ensures at <= r.1 <= |buffer| && r.0 < SPACE
    decreases |buffer| - at
  {
    if at == |buffer| || buffer[at] == 0 || HexToDigit(buffer[at]) < 0 then (v, at)
    else HexInt(buffer, at + 1, (16 * v + HexToDigit(buffer[at])) % SPACE)
  }

  predicate AreDigits(s: seq<byte>) {
    forall i :: 0 <= i < |s| ==> s[i] != 0 && HexToDigit(s[i]) >= 0
  }

  function Digit(c: byte): nat {
    if HexToDigit(c) < 0 then 0 else HexToDigit(c)
  }

  /** The number that hex digits denote. */
  function Number(digits: seq<byte>): nat {
    if digits == [] then 0 else 16 * Number(digits[..|digits| - 1]) + Digit(digits[|digits| - 1])
  }

  /** What 32 bits hold of it. */
  function Value(digits: seq<byte>): (v: nat)
    ensures v < SPACE
  {
    Number(digits) % SPACE
  }

  lemma WrapStep(m: nat, d: nat)
    ensures (16 * (m % SPACE) + d) % SPACE == (16 * m + d) % SPACE
  {
  }

  lemma ValueStep(digits: seq<byte>, k: nat)
    requires k < |digits|
    ensures Value(digits[..k + 1]) == (16 * Value(digits[..k]) + Digit(digits[k])) % SPACE
  {
    assert digits[..k + 1][..k] == digits[..k];
    WrapStep(Number(digits[..k]), Digit(digits[k]));
  }

  lemma {:induction false} HexIntContinues(buffer: seq<byte>, at: nat, digits: seq<byte>, k: nat)
    requires at + |digits| < |buffer| && AreDigits(digits) && k <= |digits|
    requires forall i :: 0 <= i < |digits| ==> buffer[at + i] == digits[i]
    requires buffer[at + |digits|] == 0 || HexToDigit(buffer[at + |digits|]) < 0
    ensures HexInt(buffer, at + k, Value(digits[..k])) == (Value(digits), at + |digits|)
    decreases |digits| - k
  {
    if k == |digits| {
      assert digits[..k] == digits;
    } else {
      assert buffer[at + k] == digits[k];
      ValueStep(digits, k);
      HexIntContinues(buffer, at, digits, k + 1);
    }
  }

  /** Reading stops after the digits, with the number they denote modulo 2^32. */
  lemma HexIntReads(buffer: seq<byte>, at: nat, digits: seq<byte>)
    requires at + |digits| < |buffer| && AreDigits(digits)
    requires forall i :: 0 <= i < |digits| ==> buffer[at + i] == digits[i]
    requires buffer[at + |digits|] == 0 || HexToDigit(buffer[at + |digits|]) < 0
    ensures HexInt(buffer, at, 0) == (Number(digits) % SPACE, at + |digits|)
  {
    assert digits[..0] == [];
    HexIntContinues(buffer, at, digits, 0);
  }

  /** The shortest hex text of a number. */
  function NumberText(n: nat): (t: seq<byte>)
    ensures t != []
  {
    if n < 16 then One(DigitToHex(n)) else NumberText(n / 16) + One(DigitToHex(n % 16))
  }

  /** The hex text of a number denotes it. */
  lemma {:induction false} NumberRoundTrip(n: nat)
    ensures AreDigits(NumberText(n)) && Number(NumberText(n)) == n
    decreases n
  {
    var t := NumberText(n);
    DigitRoundTrip(n % 16);
    if n < 16 {
      assert t[..0] == [];
    } else {
      NumberRoundTrip(n / 16);
      assert t[..|t| - 1] == NumberText(n / 16);
    }
  }

  /** The hex text of a number below 2^32 reads back as the number. */
  lemma NumberReadsBack(n: nat)
    requires n < SPACE
    ensures AreDigits(NumberText(n)) && Value(NumberText(n)) == n
  {
    NumberRoundTrip(n);
  }

  lemma {:induction false} NumberTextLength(n: nat, k: nat)
    requires k > 0 && n < Power16(k)
    ensures |NumberText(n)| <= k
    decreases k
  {
    if n >= 16 {
      NumberTextLength(n / 16, k - 1);
    }
  }

  function Power16(k: nat): nat {
    if k == 0 then 1 else 16 * Power16(k - 1)
  }

  // ---------------------------------------------------------------------------------------
  // Memory
  // ---------------------------------------------------------------------------------------

  /** mem2hex reads byte after byte; it fails at the first fault. */
  function ReadBytes(mem: Memory, addr: nat, n: nat): Option<seq<byte>> {
    if n == 0 then Some([])
    else
      match ReadBytes(mem, addr, n - 1)
      case None => None
      case Some(s) => if At(addr, n - 1) in mem then Some(s + [mem[At(addr, n - 1)]]) else None
  }

  /** hex2mem stores byte after byte; what is stored before a fault stays. */
  function WriteBytes(mem: Memory, addr: nat, data: seq<byte>): (Memory, bool) {
    if data == [] then (mem, true)
    else
      var n := |data| - 1;
      var r := WriteBytes(mem, addr, data[..n]);
      if r.1 && At(addr, n) in r.0 then (r.0[At(addr, n) := data[n]], true) else (r.0, false)
  }

  ghost predicate Accessible(mem: Memory, addr: nat, n: nat) {
    forall i: nat :: i < n ==> At(addr, i) in mem
  }

  lemma AtDiffers(addr: nat, i: nat, j: nat)
    requires i < j && j - i < SPACE
    ensures At(addr, i) != At(addr, j)
  {
    var a, b := addr + i, addr + j;
    if a % SPACE == b % SPACE {
      assert a == SPACE * (a / SPACE) + a % SPACE && b == SPACE * (b / SPACE) + b % SPACE;
      assert b - a == SPACE * (b / SPACE - a / SPACE);
      MultipleIsBig(b / SPACE - a / SPACE, b - a);
    }
  }

  lemma MultipleIsBig(q: int, d: int)
    requires d == SPACE * q && 0 < d
    ensures d >= SPACE
  {
  }

  /** A write succeeds exactly if every byte of the range can be accessed. */
  lemma {:induction false} WriteSucceedsIff(mem: Memory, addr: nat, data: seq<byte>)
    ensures WriteBytes(mem, addr, data).1 <==> Accessible(mem, addr, |data|)
    ensures WriteBytes(mem, addr, data).0.Keys == mem.Keys
    decreases |data|
  {
    if data != [] {
      WriteSucceedsIff(mem, addr, data[..|data| - 1]);
    }
  }

  lemma {:induction false} ReadSucceedsIff(mem: Memory, addr: nat, n: nat)
    ensures ReadBytes(mem, addr, n).Some? <==> Accessible(mem, addr, n)
    ensures ReadBytes(mem, addr, n).Some? ==>
              |ReadBytes(mem, addr, n).value| == n
              && forall i: nat :: i < n ==> At(addr, i) in mem && ReadBytes(mem, addr, n).value[i] == mem[At(addr, i)]
    decreases n
  {
    if n > 0 {
      ReadSucceedsIff(mem, addr, n - 1);
    }
  }

  /** What a write leaves in memory: its bytes, and everything else as it was. */
  lemma {:induction false} Written(mem: Memory, addr: nat, data: seq<byte>)
    requires Accessible(mem, addr, |data|) && |data| <= SPACE
    ensures var after := WriteBytes(mem, addr, data).0;
            && (forall i: nat :: i < |data| ==> At(addr, i) in after && after[At(addr, i)] == data[i])
            && (forall a :: a in mem && (forall i: nat :: i < |data| ==> a != At(addr, i)) ==>
                  a in after && after[a] == mem[a])
    decreases |data|
  {
    if data != [] {
      var n := |data| - 1;
      Written(mem, addr, data[..n]);
      WriteSucceedsIff(mem, addr, data[..n]);
      forall i: nat | i < n
        ensures At(addr, i) != At(addr, n)
      {
        AtDiffers(addr, i, n);
      }
    }
  }

  /** With a fault at byte k, the k bytes before it are written and no other. */
  lemma {:induction false} WriteStopsAtFault(mem: Memory, addr: nat, data: seq<byte>, k: nat)
    requires k < |data| && Accessible(mem, addr, k) && At(addr, k) !in mem
    ensures WriteBytes(mem, addr, data) == (WriteBytes(mem, addr, data[..k]).0, false)
    decreases |data|
  {
    var n := |data| - 1;
    WriteSucceedsIff(mem, addr, data[..n]);
    if k < n {
      WriteStopsAtFault(mem, addr, data[..n], k);
      assert data[..n][..k] == data[..k];
    }
  }

  /** Reading a range that was just written gives what was written. */
  lemma ReadAfterWrite(mem: Memory, addr: nat, data: seq<byte>)
    requires Accessible(mem, addr, |data|) && |data| <= SPACE
    ensures ReadBytes(WriteBytes(mem, addr, data).0, addr, |data|) == Some(data)
  {
    var after := WriteBytes(mem, addr, data).0;
    WriteSucceedsIff(mem, addr, data);
    Written(mem, addr, data);
    ReadSucceedsIff(after, addr, |data|);
    assert ReadBytes(after, addr, |data|).value == data;
  }

  // ---------------------------------------------------------------------------------------
  // Commands
  // ---------------------------------------------------------------------------------------

  /** make_return_packet */
  function ReturnPacket(val: byte): seq<byte> {
    if val == 0 then ['O' as int, 'K' as int]
    else ['E' as int, DigitToHex(val / 16), DigitToHex(val % 16)]
  }

  /** A count argument is a signed int; negative counts move nothing. */
  function Count(v: nat): nat {
    if v < SPACE / 2 then v else 0
  }

  /**
   The new memory and the reply. Undefined: a command of the target, or one that leaves the buffers.
   */
  datatype Reaction = Reaction(mem: Memory, reply: seq<byte>) | Undefined

  function ReadMemory(mem: Memory, addr: nat, n: nat): Reaction {
    if 2 * n >= BUF_MAX then Undefined
    else
      match ReadBytes(mem, addr, n)
      case Some(s) => Reaction(mem, HexOf(s))
      case None => Reaction(mem, ReturnPacket(3))
  }

  /** The address after the last byte is the result, so that ending at address 0 looks like a fault. */
  function Store(mem: Memory, addr: nat, data: seq<byte>): (r: Reaction)
    ensures r.Reaction? && r.mem == WriteBytes(mem, addr, data).0
  {
    var r := WriteBytes(mem, addr, data);
    Reaction(r.0, ReturnPacket(if r.1 && At(addr, |data|) != 0 then 0 else 3))
  }

  /** The reply is OK exactly if no byte faults and the range does not end at address 0. */
  lemma StoreReply(mem: Memory, addr: nat, data: seq<byte>)
    ensures Store(mem, addr, data).reply == ReturnPacket(if Accessible(mem, addr, |data|) && At(addr, |data|) != 0 then 0 else 3)
  {
    WriteSucceedsIff(mem, addr, data);
  }

  function WriteMemory(mem: Memory, addr: nat, n: nat, buffer: seq<byte>, at: nat): Reaction
    requires at <= |buffer|
  {
    if at + 2 * n > |buffer| then Undefined else Store(mem, addr, FromHex(buffer, at, n))
  }

  predicate IsAt(buffer: seq<byte>, at: nat, c: byte) {
    at < |buffer| && buffer[at] == c
  }

  /** The two numbers of a command from a place on: address, length, and where the length ends. */
  function Arguments(buffer: seq<byte>): (r: Option<(nat, nat, nat)>)
    requires |buffer| >= 1
    ensures r.Some? ==> r.value.2 <= |buffer|
  {
    var a := HexInt(buffer, 1, 0);
    if a.1 == 1 || !IsAt(buffer, a.1, COMMA) then None
    else
      var l := HexInt(buffer, a.1 + 1, 0);
      if l.1 == a.1 + 1 then None else Some((a.0, l.0, l.1))
  }

  /** Commands of the event loop that depend on the target and are not described here. */
  predicate IsTarget(c: byte) {
    c in {'?' as int, 'd' as int, 'g' as int, 'G' as int, 'c' as int, 'k' as int, 'r' as int}
  }

  function React(mem: Memory, buffer: seq<byte>): Reaction
    requires |buffer| >= 1
  {
    if IsAt(buffer, 0, READ_LETTER) then
      match Arguments(buffer)
      case None => Reaction(mem, ReturnPacket(1))
      case Some((addr, length, _)) => ReadMemory(mem, addr, Count(length))
    else if IsAt(buffer, 0, WRITE_LETTER) then
      match Arguments(buffer)
      case None => Reaction(mem, ReturnPacket(2))
      case Some((addr, length, at)) =>
        if !IsAt(buffer, at, COLON) then Reaction(mem, ReturnPacket(2))
        else WriteMemory(mem, addr, Count(length), buffer, at + 1)
    else if IsTarget(buffer[0]) then Undefined
    else Reaction(mem, [])
  }

  /** A received payload in a buffer, ended by a zero; the rest of the buffer is as before. */
  function Filled(buffer: seq<byte>, p: seq<byte>): (b: seq<byte>)
    requires |p| < |buffer|
    ensures |b| == |buffer|
  {
    seq(|buffer|, i requires 0 <= i < |buffer| => if i < |p| then p[i] else if i == |p| then 0 else buffer[i])
  }

  function Head(c: byte, a: seq<byte>, l: seq<byte>): seq<byte> {
    One(c) + a + One(COMMA) + l
  }

  /** A write command with any text after its colon. */
  function CommandText(a: seq<byte>, l: seq<byte>, text: seq<byte>): seq<byte> {
    Head(WRITE_LETTER, a, l) + One(COLON) + text
  }

  function WriteText(a: seq<byte>, l: seq<byte>, data: seq<byte>): seq<byte> {
    CommandText(a, l, HexOf(data))
  }

  function ReadText(a: seq<byte>, l: seq<byte>): seq<byte> {
    Head(READ_LETTER, a, l)
  }

  lemma ArgumentsAre(b: seq<byte>, addr: nat, n1: nat, length: nat, n2: nat)
    requires |b| >= 1 && HexInt(b, 1, 0) == (addr, n1) && n1 > 1 && IsAt(b, n1, COMMA)
    requires HexInt(b, n1 + 1, 0) == (length, n2) && n2 > n1 + 1
    ensures Arguments(b) == Some((addr, length, n2))
  {
  }

  /** The buffer starts with a letter and two comma-separated numbers, and the second one ends there. */
  ghost predicate HasHead(b: seq<byte>, c: byte, a: seq<byte>, l: seq<byte>) {
    && |b| > 2 + |a| + |l| && b[0] == c && b[1 + |a|] == COMMA
    && (forall i :: 0 <= i < |a| ==> b[1 + i] == a[i])
    && (forall i :: 0 <= i < |l| ==> b[2 + |a| + i] == l[i])
    && (b[2 + |a| + |l|] == 0 || HexToDigit(b[2 + |a| + |l|]) < 0)
  }

  lemma HeadArguments(b: seq<byte>, c: byte, a: seq<byte>, l: seq<byte>)
    requires AreDigits(a) && AreDigits(l) && a != [] && l != [] && HasHead(b, c, a, l)
    ensures Arguments(b) == Some((Value(a), Value(l), |a| + |l| + 2))
  {
    HexIntReads(b, 1, a);
    HexIntReads(b, 2 + |a|, l);
    ArgumentsAre(b, Value(a), 1 + |a|, Value(l), 2 + |a| + |l|);
  }

  lemma FilledAt(buffer: seq<byte>, p: seq<byte>)
    requires |p| < |buffer|
    ensures Filled(buffer, p)[|p|] == 0 && Filled(buffer, p)[..|p|] == p
    ensures forall i :: 0 <= i < |p| ==> Filled(buffer, p)[i] == p[i]
  {
  }

  lemma HeadAt(c: byte, a: seq<byte>, l: seq<byte>)
    ensures var h := Head(c, a, l);
            && |h| == 2 + |a| + |l| && h[0] == c && h[1 + |a|] == COMMA
            && (forall i :: 0 <= i < |a| ==> h[1 + i] == a[i])
            && (forall i :: 0 <= i < |l| ==> h[2 + |a| + i] == l[i])
  {
  }

  lemma ReadHasHead(buffer: seq<byte>, a: seq<byte>, l: seq<byte>)
    requires |ReadText(a, l)| < |buffer|
    ensures HasHead(Filled(buffer, ReadText(a, l)), READ_LETTER, a, l)
  {
    HeadAt(READ_LETTER, a, l);
    FilledAt(buffer, ReadText(a, l));
  }

  lemma WriteHasHead(buffer: seq<byte>, a: seq<byte>, l: seq<byte>, text: seq<byte>)
    requires |CommandText(a, l, text)| < |buffer|
    ensures var b := Filled(buffer, CommandText(a, l, text));
            && HasHead(b, WRITE_LETTER, a, l) && b[2 + |a| + |l|] == COLON
            && 3 + |a| + |l| + |text| <= |b| && b[3 + |a| + |l|..3 + |a| + |l| + |text|] == text
  {
    var h, t := Head(WRITE_LETTER, a, l), CommandText(a, l, text);
    var b := Filled(buffer, t);
    HeadAt(WRITE_LETTER, a, l);
    FilledAt(buffer, t);
    assert forall i :: 0 <= i < |h| ==> t[i] == h[i];
    assert t[|h|] == COLON && t[|h| + 1..] == text;
    assert b[|h| + 1..|h| + 1 + |text|] == b[..|t|][|h| + 1..];
  }

  /** A read of a range that is too long for the reply buffer is not covered; any other one reads it. */
  lemma ReadReply(mem: Memory, buffer: seq<byte>, a: seq<byte>, l: seq<byte>)
    requires AreDigits(a) && AreDigits(l) && a != [] && l != []
    requires var p := ReadText(a, l); |p| < |buffer|
    requires 2 * Count(Value(l)) < BUF_MAX
    ensures React(mem, Filled(buffer, ReadText(a, l)))
            == Reaction(mem, match ReadBytes(mem, Value(a), Count(Value(l)))
                             case Some(s) => HexOf(s)
                             case None => ReturnPacket(3))
  {
    ReadHasHead(buffer, a, l);
    HeadArguments(Filled(buffer, ReadText(a, l)), READ_LETTER, a, l);
  }

  lemma ReactWrite(mem: Memory, b: seq<byte>, addr: nat, length: nat, at: nat, next: nat)
    requires |b| >= 1 && b[0] == WRITE_LETTER && Arguments(b) == Some((addr, length, at)) && IsAt(b, at, COLON) && next == at + 1
    ensures var n := Count(length);
            React(mem, b) == if next + 2 * n > |b| then Undefined else Store(mem, addr, FromHex(b, next, n))
  {
  }

  lemma StoredText(mem: Memory, addr: nat, b: seq<byte>, next: nat, data: seq<byte>)
    requires next + 2 * |data| <= |b| && FromHex(b, next, |data|) == data && |data| < SPACE / 2
    ensures WriteMemory(mem, addr, Count(|data|), b, next) == Store(mem, addr, data)
  {
  }

  lemma WriteReacts(mem: Memory, b: seq<byte>, addr: nat, at: nat, data: seq<byte>)
    requires |b| >= 1 && b[0] == WRITE_LETTER && |data| < SPACE / 2
    requires Arguments(b) == Some((addr, |data|, at)) && IsAt(b, at, COLON)
    requires at + 1 + 2 * |data| <= |b| && FromHex(b, at + 1, |data|) == data
    ensures React(mem, b) == Store(mem, addr, data)
  {
    ReactWrite(mem, b, addr, |data|, at, at + 1);
    StoredText(mem, addr, b, at + 1, data);
  }

  lemma CommandArrives(buffer: seq<byte>, a: seq<byte>, l: seq<byte>, text: seq<byte>)
    requires AreDigits(a) && AreDigits(l) && a != [] && l != [] && |CommandText(a, l, text)| < |buffer|
    ensures var b, at := Filled(buffer, CommandText(a, l, text)), 2 + |a| + |l|;
            && b[0] == WRITE_LETTER && Arguments(b) == Some((Value(a), Value(l), at)) && IsAt(b, at, COLON)
            && at + 1 + |text| <= |b| && b[at + 1..at + 1 + |text|] == text
  {
    WriteHasHead(buffer, a, l, text);
    HeadArguments(Filled(buffer, CommandText(a, l, text)), WRITE_LETTER, a, l);
  }

  lemma WriteArrives(buffer: seq<byte>, a: seq<byte>, l: seq<byte>, data: seq<byte>)
    requires AreDigits(a) && AreDigits(l) && a != [] && l != [] && Value(l) == |data|
    requires |WriteText(a, l, data)| < |buffer|
    ensures var b, at := Filled(buffer, WriteText(a, l, data)), 2 + |a| + |l|;
            && b[0] == WRITE_LETTER && Arguments(b) == Some((Value(a), |data|, at)) && IsAt(b, at, COLON)
            && at + 1 + 2 * |data| <= |b| && FromHex(b, at + 1, |data|) == data
  {
    CommandArrives(buffer, a, l, HexOf(data));
    HexRoundTrip(Filled(buffer, WriteText(a, l, data)), 3 + |a| + |l|, data);
  }

  /**
   A write command with any text after its colon: as many bytes as announced are taken from the buffer,
   the end of the text counting as digit 0 and other characters that are no digits as ones, and what
   stands behind it included. Where they would reach past the buffer nothing is said.
   */
  lemma AnyWriteReply(mem: Memory, buffer: seq<byte>, a: seq<byte>, l: seq<byte>, text: seq<byte>)
    requires AreDigits(a) && AreDigits(l) && a != [] && l != [] && |CommandText(a, l, text)| < |buffer|
    ensures var b, at, n := Filled(buffer, CommandText(a, l, text)), 3 + |a| + |l|, Count(Value(l));
            React(mem, b) == if at + 2 * n > |b| then Undefined else Store(mem, Value(a), FromHex(b, at, n))
  {
    CommandArrives(buffer, a, l, text);
    ReactWrite(mem, Filled(buffer, CommandText(a, l, text)), Value(a), Value(l), 2 + |a| + |l|, 3 + |a| + |l|);
  }

  lemma WriteReaction(mem: Memory, buffer: seq<byte>, a: seq<byte>, l: seq<byte>, data: seq<byte>)
    requires AreDigits(a) && AreDigits(l) && a != [] && l != [] && Value(l) == |data| && |data| < SPACE / 2
    requires |WriteText(a, l, data)| < |buffer|
    ensures React(mem, Filled(buffer, WriteText(a, l, data))) == Store(mem, Value(a), data)
  {
    WriteArrives(buffer, a, l, data);
    WriteReacts(mem, Filled(buffer, WriteText(a, l, data)), Value(a), 2 + |a| + |l|, data);
  }

  /** A write of as many bytes as announced stores them; the reply tells faults, and an end at address 0. */
  lemma WriteReply(mem: Memory, buffer: seq<byte>, a: seq<byte>, l: seq<byte>, data: seq<byte>)
    requires AreDigits(a) && AreDigits(l) && a != [] && l != [] && Value(l) == |data| && |data| < SPACE / 2
    requires var p := WriteText(a, l, data); |p| < |buffer|
    ensures React(mem, Filled(buffer, WriteText(a, l, data))) == Store(mem, Value(a), data)
    ensures Store(mem, Value(a), data).reply
            == ReturnPacket(if Accessible(mem, Value(a), |data|) && At(Value(a), |data|) != 0 then 0 else 3)
  {
    WriteReaction(mem, buffer, a, l, data);
    StoreReply(mem, Value(a), data);
  }

  lemma ReadBack(mem: Memory, buffer: seq<byte>, a: seq<byte>, l: seq<byte>, data: seq<byte>)
    requires AreDigits(a) && AreDigits(l) && a != [] && l != [] && Value(l) == |data| && 2 * |data| < BUF_MAX
    requires |ReadText(a, l)| < |buffer| && Accessible(mem, Value(a), |data|)
    ensures var m := WriteBytes(mem, Value(a), data).0;
            React(m, Filled(buffer, ReadText(a, l))) == Reaction(m, HexOf(data))
  {
    ReadReply(WriteBytes(mem, Value(a), data).0, buffer, a, l);
    ReadAfterWrite(mem, Value(a), data);
  }

  /**
   An 'M' command followed by an 'm' command for the same range: the reply is the hex text of the
   bytes written, whatever the buffer holds besides.
   */
  lemma WriteThenRead(mem: Memory, buffer: seq<byte>, a: seq<byte>, l: seq<byte>, data: seq<byte>)
    requires AreDigits(a) && AreDigits(l) && a != [] && l != [] && Value(l) == |data| && 2 * |data| < BUF_MAX
    requires var p := WriteText(a, l, data); |p| < |buffer|
    requires Accessible(mem, Value(a), |data|)
    ensures var written := Filled(buffer, WriteText(a, l, data));
            var w := React(mem, written);
            && w.Reaction?
            && w.reply == ReturnPacket(if At(Value(a), |data|) != 0 then 0 else 3)
            && |ReadText(a, l)| < |written|
            && React(w.mem, Filled(written, ReadText(a, l))) == Reaction(w.mem, HexOf(data))
  {
    WriteReply(mem, buffer, a, l, data);
    var written := Filled(buffer, WriteText(a, l, data));
    ReadBack(mem, written, a, l, data);
  }

  /** One byte written at the last address is stored, and yet answered by error 3. */
  lemma LastByteIsRefused(mem: Memory, buffer: seq<byte>, x: byte)
    requires SPACE - 1 in mem && |buffer| == BUF_MAX
    ensures var p := WriteText(NumberText(SPACE - 1), NumberText(1), [x]);
            |p| < BUF_MAX && React(mem, Filled(buffer, p)) == Reaction(mem[SPACE - 1 := x], ['E' as int, '0' as int, '3' as int])
  {
    var a, l, data := NumberText(SPACE - 1), NumberText(1), [x];
    NumberReadsBack(SPACE - 1);
    NumberReadsBack(1);
    assert Power16(4) == 0x1_0000;
    assert Power16(8) == SPACE;
    NumberTextLength(SPACE - 1, 8);
    NumberTextLength(1, 1);
    assert At(SPACE - 1, 0) == SPACE - 1 && At(SPACE - 1, 1) == 0;
    assert data[..0] == [];
    assert WriteBytes(mem, SPACE - 1, data) == (mem[SPACE - 1 := x], true);
    WriteReply(mem, buffer, a, l, data);
  }
}
