/**
 The bytes that the stub sends for a command (tce/newlib-1.17.0/libgloss/debug.c:149-181, 245-447 and
 559-567), written out as characters.
 */
module GdbReplies {
  import opened Wrappers
  import opened GdbPackets
  import opened GdbMemory
  import opened GdbStub

  /** The codes of the characters of an ASCII text. */
  function Text(s: string): (t: seq<byte>)
    requires forall i :: 0 <= i < |s| ==> s[i] < '\U{80}'
    ensures |t| == |s| && forall i :: 0 <= i < |t| ==> t[i] == s[i] as int
  {
    seq(|s|, i requires 0 <= i < |s| => s[i] as int)
  }

  function HexChar(d: nat): byte
    requires d < 16
  {
    "0123456789abcdef"[d] as int
  }

  const EMPTY_SENT := Text("+$#00")
  const OK_SENT := Text("+$OK#9a")
  const ERROR_1_SENT := Text("+$E01#a6")
  const ERROR_2_SENT := Text("+$E02#a7")
  const ERROR_3_SENT := Text("+$E03#a8")

  lemma DigitIsChar(d: nat)
    requires d < 16
    ensures DigitToHex(d) == HexChar(d)
  {
    var s := "0123456789abcdef";
    assert s[0] == '0' && s[1] == '1' && s[2] == '2' && s[3] == '3' && s[4] == '4' && s[5] == '5' && s[6] == '6' && s[7] == '7';
    assert s[8] == '8' && s[9] == '9' && s[10] == 'a' && s[11] == 'b' && s[12] == 'c' && s[13] == 'd' && s[14] == 'e' && s[15] == 'f';
  }

  function Total(s: seq<byte>, n: nat): nat
    requires n <= |s|
  {
    if n == 0 then 0 else Total(s, n - 1) + s[n - 1]
  }

  lemma ModStep(a: nat, b: nat, c: nat)
    requires a == b % 256
    ensures (a + c) % 256 == (b + c) % 256
  {
    assert b + c == a + c + b / 256 * 256;
  }

  lemma {:induction false} ChecksumIsTotal(s: seq<byte>, n: nat)
    requires n <= |s|
    ensures SumTo(s, n) == Total(s, n) % 256
    decreases n
  {
    if n > 0 {
      ChecksumIsTotal(s, n - 1);
      ModStep(SumTo(s, n - 1), Total(s, n - 1), s[n - 1]);
    }
  }

  /** A reply on the line: acknowledge, start mark, text, end mark, and the sum of the text in two hex digits. */
  function OnLine(reply: seq<byte>): seq<byte> {
    var sum := Total(reply, |reply|) % 256;
    Text("+$") + reply + Text("#") + [HexChar(sum / 16), HexChar(sum % 16)]
  }

  lemma ReplyOnLine(reply: seq<byte>)
    ensures One(PLUS) + Frame(reply) == OnLine(reply)
  {
    ChecksumIsTotal(reply, |reply|);
    DigitIsChar(Checksum(reply) / 16);
    DigitIsChar(Checksum(reply) % 16);
    assert Text("+$") == One(PLUS) + One(DOLLAR);
    assert Text("#") == One(HASH);
  }

  /** The hex text of bytes: two digits for each, the high one first. */
  lemma {:induction false} HexTextIs(s: seq<byte>, i: nat)
    requires i < |s|
    ensures HexOf(s)[2 * i] == HexChar(s[i] / 16) && HexOf(s)[2 * i + 1] == HexChar(s[i] % 16)
    decreases |s|
  {
    var n := |s| - 1;
    DigitIsChar(s[n] / 16);
    DigitIsChar(s[n] % 16);
    if i < n {
      HexTextIs(s[..n], i);
    }
  }

  // ---------------------------------------------------------------------------------------
  // A frame and its acknowledge
  // ---------------------------------------------------------------------------------------

  /** Noise, a frame with any two checksum characters, and an acknowledge for the reply. */
  function Exchange(noise: seq<byte>, p: seq<byte>, c1: byte, c2: byte, tail: seq<byte>): seq<byte> {
    noise + Text("$") + p + Text("#") + [c1, c2] + Text("+") + tail
  }

  lemma ExchangeIs(noise: seq<byte>, p: seq<byte>, c1: byte, c2: byte, tail: seq<byte>)
    ensures Exchange(noise, p, c1, c2, tail) == noise + One(DOLLAR) + p + [HASH, c1, c2] + (One(PLUS) + tail)
    ensures |noise| + |p| + 4 <= |Exchange(noise, p, c1, c2, tail)|
    ensures Exchange(noise, p, c1, c2, tail)[|noise| + |p| + 4..] == One(PLUS) + tail
  {
    assert Text("$") == One(DOLLAR) && Text("#") + [c1, c2] == [HASH, c1, c2] && Text("+") == One(PLUS);
    var x := Exchange(noise, p, c1, c2, tail);
    assert x == noise + Text("$") + p + (Text("#") + [c1, c2]) + (Text("+") + tail);
  }

  lemma ExchangeNotStale(buffer: seq<byte>, noise: seq<byte>, p: seq<byte>, c1: byte, c2: byte, rest: seq<byte>)
    requires |buffer| == BUF_MAX && NoDollar(noise) && Plain(p) && |p| < BUF_MAX
    ensures Stale(buffer, noise + One(DOLLAR) + p + [HASH, c1, c2] + rest) == buffer
  {
    var input := noise + One(DOLLAR) + p + [HASH, c1, c2] + rest;
    FindAt(input, DOLLAR, |noise|);
    var body := input[|noise| + 1..];
    assert forall i :: 0 <= i < |p| ==> body[i] == p[i];
    FindAt(body, HASH, |p|);
  }

  /** The turn of a command: what it does, and the bytes it sends. */
  lemma TurnSends(mem: Memory, buffer: seq<byte>, at: nat, noise: seq<byte>, p: seq<byte>, c1: byte, c2: byte, tail: seq<byte>,
                  m: Memory, reply: seq<byte>)
    requires |buffer| == BUF_MAX && NoDollar(noise) && Plain(p) && |p| < BUF_MAX
    requires React(mem, Filled(buffer, p)) == Reaction(m, reply)
    ensures TurnOf(mem, buffer, at, {}, Exchange(noise, p, c1, c2, tail))
            == Turned(m, Filled(buffer, p), OnLine(reply), |noise| + |p| + 5)
  {
    var input, used := Exchange(noise, p, c1, c2, tail), |noise| + |p| + 4;
    ExchangeIs(noise, p, c1, c2, tail);
    AnyChecksumIsAccepted(noise, p, c1, c2, One(PLUS) + tail);
    ExchangeNotStale(buffer, noise, p, c1, c2, One(PLUS) + tail);
    TurnWhenAcked(m, reply, Filled(buffer, p), at, input, used, tail);
    ReplyOnLine(reply);
  }

  /** The turn sends these characters, leaves memory as it is, and takes the frame and the acknowledge. */
  ghost predicate Answers(t: Turn, mem: Memory, used: nat, text: seq<byte>) {
    t.Turned? && t.mem == mem && t.out == text && t.used == used
  }

  // ---------------------------------------------------------------------------------------
  // Commands that are not carried out
  // ---------------------------------------------------------------------------------------

  /** No command starts with this character. */
  predicate IsUnknown(p: seq<byte>) {
    p == [] || p[0] !in Text("mM?dgGckr")
  }

  lemma UnknownReaction(mem: Memory, buffer: seq<byte>, p: seq<byte>)
    requires |p| < |buffer| && IsUnknown(p)
    ensures React(mem, Filled(buffer, p)) == Reaction(mem, [])
  {
    var t, c := Text("mM?dgGckr"), Filled(buffer, p)[0];
    assert t[0] == 'm' as int && t[1] == 'M' as int && t[2] == '?' as int && t[3] == 'd' as int && t[4] == 'g' as int;
    assert t[5] == 'G' as int && t[6] == 'c' as int && t[7] == 'k' as int && t[8] == 'r' as int;
    FilledAt(buffer, p);
    assert p != [] ==> c == p[0];
  }

  /** A command that the stub does not know is answered by the empty packet, and nothing is done. */
  lemma UnknownIsEmpty(mem: Memory, buffer: seq<byte>, at: nat, noise: seq<byte>, p: seq<byte>, c1: byte, c2: byte, tail: seq<byte>)
    requires |buffer| == BUF_MAX && NoDollar(noise) && Plain(p) && |p| < BUF_MAX && IsUnknown(p)
    ensures Answers(TurnOf(mem, buffer, at, {}, Exchange(noise, p, c1, c2, tail)), mem, |noise| + |p| + 5, EMPTY_SENT)
  {
    UnknownReaction(mem, buffer, p);
    TurnSends(mem, buffer, at, noise, p, c1, c2, tail, mem, []);
    EmptyOnLine();
  }

  lemma EmptyOnLine()
    ensures OnLine([]) == EMPTY_SENT
  {
    assert HexChar(0) == '0' as int;
  }

  predicate IsHex(c: byte) {
    '0' as int <= c <= '9' as int || 'a' as int <= c <= 'f' as int || 'A' as int <= c <= 'F' as int
  }

  /** The letter is followed by hex digits, a comma at place n, and a hex digit. */
  predicate CommaAt(p: seq<byte>, n: nat) {
    2 <= n && n + 1 < |p| && (forall i :: 1 <= i < n ==> IsHex(p[i])) && p[n] == ',' as int && IsHex(p[n + 1])
  }

  /** ... and after all hex digits behind the comma, place k holds a colon. */
  predicate ColonAt(p: seq<byte>, n: nat, k: nat) {
    CommaAt(p, n) && n + 1 < k < |p| && (forall i :: n < i < k ==> IsHex(p[i])) && p[k] == ':' as int
  }

  lemma {:induction false} HexIntStops(b: seq<byte>, at: nat, v: nat)
    requires at <= |b| && v < SPACE
    ensures var k := HexInt(b, at, v).1;
            && (forall i :: at <= i < k ==> IsHex(b[i]))
            && (k < |b| ==> !IsHex(b[k]))
    decreases |b| - at
  {
    if at < |b| && IsHex(b[at]) {
      HexIntStops(b, at + 1, (16 * v + HexToDigit(b[at])) % SPACE);
    }
  }

  lemma StopsAt(b: seq<byte>, at: nat, k: nat)
    requires at <= k < |b| && (forall i :: at <= i < k ==> IsHex(b[i])) && !IsHex(b[k])
    ensures HexInt(b, at, 0).1 == k
  {
    HexIntStops(b, at, 0);
  }

  lemma ArgumentsHaveComma(buffer: seq<byte>, p: seq<byte>)
    requires 0 < |p| < |buffer|
    ensures Arguments(Filled(buffer, p)).Some? <==> exists n: nat :: CommaAt(p, n)
  {
    var b := Filled(buffer, p);
    FilledAt(buffer, p);
    HexIntStops(b, 1, 0);
    var n := HexInt(b, 1, 0).1;
    if Arguments(b).Some? {
      HexIntStops(b, n + 1, 0);
      assert n < |p| by { assert n <= |p|; }
      assert n + 1 < |p|;
      assert CommaAt(p, n);
    }
    if k: nat :| CommaAt(p, k) {
      StopsAt(b, 1, k);
      HexIntStops(b, k + 1, 0);
    }
  }

  lemma ColonFollows(buffer: seq<byte>, p: seq<byte>)
    requires 0 < |p| < |buffer| && Arguments(Filled(buffer, p)).Some?
    ensures IsAt(Filled(buffer, p), Arguments(Filled(buffer, p)).value.2, COLON) <==> exists n: nat, k: nat :: ColonAt(p, n, k)
  {
    var b := Filled(buffer, p);
    FilledAt(buffer, p);
    HexIntStops(b, 1, 0);
    var n := HexInt(b, 1, 0).1;
    HexIntStops(b, n + 1, 0);
    var k := HexInt(b, n + 1, 0).1;
    if IsAt(b, k, COLON) {
      assert k < |p| by { assert k <= |p|; }
      assert ColonAt(p, n, k);
    }
    if x: nat, y: nat :| ColonAt(p, x, y) {
      StopsAt(b, 1, x);
      StopsAt(b, x + 1, y);
    }
  }

  lemma MalformedReadReaction(mem: Memory, buffer: seq<byte>, p: seq<byte>)
    requires 0 < |p| < |buffer| && p[0] == 'm' as int && !(exists n: nat :: CommaAt(p, n))
    ensures React(mem, Filled(buffer, p)) == Reaction(mem, ReturnPacket(1))
  {
    FilledAt(buffer, p);
    ArgumentsHaveComma(buffer, p);
  }

  lemma MalformedWriteReaction(mem: Memory, buffer: seq<byte>, p: seq<byte>)
    requires 0 < |p| < |buffer| && p[0] == 'M' as int && !(exists n: nat, k: nat :: ColonAt(p, n, k))
    ensures React(mem, Filled(buffer, p)) == Reaction(mem, ReturnPacket(2))
  {
    FilledAt(buffer, p);
    ArgumentsHaveComma(buffer, p);
    if Arguments(Filled(buffer, p)).Some? {
      ColonFollows(buffer, p);
    }
  }

  lemma OkOnLine()
    ensures OnLine(ReturnPacket(0)) == OK_SENT
  {
    var r := ReturnPacket(0);
    assert Total(r, 2) == Total(r, 1) + r[1] && Total(r, 1) == r[0];
    DigitIsChar(9);
    DigitIsChar(10);
  }

  /** The sum of an error packet is that of 'E' and '0', 117, and of its digit, so it starts with 'a'. */
  lemma ErrorTotal(r: seq<byte>, e: byte)
    requires 1 <= e <= 3 && r == ['E' as int, '0' as int, '0' as int + e]
    ensures Total(r, |r|) == 165 + e
  {
    assert Total(r, 3) == Total(r, 2) + r[2] && Total(r, 2) == Total(r, 1) + r[1] && Total(r, 1) == r[0];
  }

  lemma ErrorLine(e: byte)
    requires 1 <= e <= 3
    ensures OnLine(ReturnPacket(e)) == Text("+$") + ['E' as int, '0' as int, '0' as int + e] + Text("#") + ['a' as int, '0' as int + 5 + e]
  {
    var r := ReturnPacket(e);
    assert r == ['E' as int, '0' as int, '0' as int + e];
    ErrorTotal(r, e);
    assert Total(r, |r|) % 256 == 16 * 10 + 5 + e;
    DigitIsChar(10);
    DigitIsChar(5 + e);
  }

  lemma ErrorsOnLine()
    ensures OnLine(ReturnPacket(1)) == ERROR_1_SENT
    ensures OnLine(ReturnPacket(2)) == ERROR_2_SENT
    ensures OnLine(ReturnPacket(3)) == ERROR_3_SENT
  {
    ErrorLine(1);
    ErrorLine(2);
    ErrorLine(3);
  }

  /** A read command without its two numbers is answered by error 1, and nothing is done. */
  lemma MalformedReadIsError(mem: Memory, buffer: seq<byte>, at: nat, noise: seq<byte>, p: seq<byte>, c1: byte, c2: byte,
                             tail: seq<byte>)
    requires |buffer| == BUF_MAX && NoDollar(noise) && Plain(p) && 0 < |p| < BUF_MAX
    requires p[0] == 'm' as int && !(exists n: nat :: CommaAt(p, n))
    ensures Answers(TurnOf(mem, buffer, at, {}, Exchange(noise, p, c1, c2, tail)), mem, |noise| + |p| + 5, ERROR_1_SENT)
  {
    MalformedReadReaction(mem, buffer, p);
    TurnSends(mem, buffer, at, noise, p, c1, c2, tail, mem, ReturnPacket(1));
    ErrorsOnLine();
  }

  /** A write command without its two numbers or its colon is answered by error 2, and nothing is done. */
  lemma MalformedWriteIsError(mem: Memory, buffer: seq<byte>, at: nat, noise: seq<byte>, p: seq<byte>, c1: byte, c2: byte,
                              tail: seq<byte>)
    requires |buffer| == BUF_MAX && NoDollar(noise) && Plain(p) && 0 < |p| < BUF_MAX
    requires p[0] == 'M' as int && !(exists n: nat, k: nat :: ColonAt(p, n, k))
    ensures Answers(TurnOf(mem, buffer, at, {}, Exchange(noise, p, c1, c2, tail)), mem, |noise| + |p| + 5, ERROR_2_SENT)
  {
    MalformedWriteReaction(mem, buffer, p);
    TurnSends(mem, buffer, at, noise, p, c1, c2, tail, mem, ReturnPacket(2));
    ErrorsOnLine();
  }

  /** Commands of the target, for which the model says nothing. */
  lemma TargetIsUndefined(mem: Memory, buffer: seq<byte>, p: seq<byte>)
    requires 0 < |p| < |buffer| && p[0] in Text("?dgGckr")
    ensures React(mem, Filled(buffer, p)).Undefined?
  {
    FilledAt(buffer, p);
    var t := Text("?dgGckr");
    var i :| 0 <= i < |t| && t[i] == p[0];
    assert t[0] == '?' as int && t[1] == 'd' as int && t[2] == 'g' as int && t[3] == 'G' as int;
    assert t[4] == 'c' as int && t[5] == 'k' as int && t[6] == 'r' as int;
  }

  // ---------------------------------------------------------------------------------------
  // Reads and writes
  // ---------------------------------------------------------------------------------------

  /** The number of bytes that hex digits announce: a C int, of which a negative one moves nothing. */
  function Announced(l: seq<byte>): nat {
    var v := Number(l) % 0x1_0000_0000;
    if v < 0x8000_0000 then v else 0
  }

  /** Addresses wrap round. */
  function Place(addr: nat, i: nat): nat {
    (addr + i) % 0x1_0000_0000
  }

  /** The bytes from this address on. */
  ghost predicate IsRange(mem: Memory, addr: nat, bytes: seq<byte>) {
    forall i: nat :: i < |bytes| ==> Place(addr, i) in mem && mem[Place(addr, i)] == bytes[i]
  }

  ghost predicate Readable(mem: Memory, addr: nat, n: nat) {
    forall i: nat :: i < n ==> Place(addr, i) in mem
  }

  lemma ReadableIs(mem: Memory, addr: nat, n: nat)
    ensures Accessible(mem, addr, n) <==> Readable(mem, addr, n)
  {
    forall i: nat
      ensures Place(addr, i) == At(addr, i)
    {
    }
  }

  lemma ReadBytesAre(mem: Memory, addr: nat, n: nat)
    requires Readable(mem, addr, n)
    ensures var s := ReadBytes(mem, addr, n); s.Some? && |s.value| == n && IsRange(mem, addr, s.value)
  {
    ReadableIs(mem, addr, n);
    ReadSucceedsIff(mem, addr, n);
    forall i: nat
      ensures Place(addr, i) == At(addr, i)
    {
    }
  }

  /**
   A read command whose reply fits: the hex text of the bytes in the range, or error 3 if one of them
   cannot be accessed.
   */
  lemma ReadIsAnswered(mem: Memory, buffer: seq<byte>, at: nat, noise: seq<byte>, a: seq<byte>, l: seq<byte>, c1: byte, c2: byte,
                       tail: seq<byte>) returns (bytes: seq<byte>)
    requires |buffer| == BUF_MAX && NoDollar(noise) && AreDigits(a) && AreDigits(l) && a != [] && l != []
    requires |a| + |l| + 2 < BUF_MAX && 2 * Announced(l) < BUF_MAX
    ensures var p := Text("m") + a + Text(",") + l;
            var t := TurnOf(mem, buffer, at, {}, Exchange(noise, p, c1, c2, tail));
            var addr, used := Number(a) % 0x1_0000_0000, |noise| + |p| + 5;
            if Readable(mem, addr, Announced(l)) then
              |bytes| == Announced(l) && IsRange(mem, addr, bytes) && Answers(t, mem, used, OnLine(HexOf(bytes)))
            else Answers(t, mem, used, ERROR_3_SENT)
  {
    var p, addr, n := Text("m") + a + Text(",") + l, Number(a) % 0x1_0000_0000, Announced(l);
    assert Text("m") == One(READ_LETTER) && Text(",") == One(COMMA);
    HeadIsPlain(READ_LETTER, a, l);
    ReadReply(mem, buffer, a, l);
    ReadableIs(mem, addr, n);
    ReadSucceedsIff(mem, addr, n);
    bytes := [];
    if Readable(mem, addr, n) {
      ReadBytesAre(mem, addr, n);
      bytes := ReadBytes(mem, addr, n).value;
      TurnSends(mem, buffer, at, noise, p, c1, c2, tail, mem, HexOf(bytes));
    } else {
      TurnSends(mem, buffer, at, noise, p, c1, c2, tail, mem, ReturnPacket(3));
      ErrorsOnLine();
    }
  }

  /** The text of a write command. */
  function WriteCommand(a: seq<byte>, l: seq<byte>, data: seq<byte>): seq<byte> {
    Text("M") + a + Text(",") + l + Text(":") + HexOf(data)
  }

  lemma WriteCommandIs(a: seq<byte>, l: seq<byte>, data: seq<byte>)
    requires AreDigits(a) && AreDigits(l)
    ensures WriteCommand(a, l, data) == WriteText(a, l, data) && Plain(WriteCommand(a, l, data))
    ensures |WriteCommand(a, l, data)| == |a| + |l| + 3 + 2 * |data|
  {
    assert Text("M") == One(WRITE_LETTER) && Text(",") == One(COMMA) && Text(":") == One(COLON);
    WriteTextIsPlain(a, l, data);
  }

  /** Whether the answer is OK: all of the range can be accessed, and it does not end at address 0. */
  ghost predicate IsTaken(mem: Memory, addr: nat, n: nat) {
    Readable(mem, addr, n) && Place(addr, n) != 0
  }

  lemma StoreOnLine(mem: Memory, addr: nat, data: seq<byte>)
    ensures OnLine(Store(mem, addr, data).reply) == if IsTaken(mem, addr, |data|) then OK_SENT else ERROR_3_SENT
  {
    StoreReply(mem, addr, data);
    ReadableIs(mem, addr, |data|);
    OkOnLine();
    ErrorsOnLine();
  }

  /**
   A write command with as many bytes as it announces is answered by OK exactly if all of the range
   can be accessed and does not end at address 0, and by error 3 otherwise.
   */
  lemma WriteIsAnswered(mem: Memory, buffer: seq<byte>, at: nat, noise: seq<byte>, a: seq<byte>, l: seq<byte>, data: seq<byte>,
                        c1: byte, c2: byte, tail: seq<byte>)
    requires |buffer| == BUF_MAX && NoDollar(noise) && AreDigits(a) && AreDigits(l) && a != [] && l != []
    requires Number(l) % 0x1_0000_0000 == |data| && |a| + |l| + 3 + 2 * |data| < BUF_MAX
    ensures var t := TurnOf(mem, buffer, at, {}, Exchange(noise, WriteCommand(a, l, data), c1, c2, tail));
            && t.Turned? && t.used == |noise| + |WriteCommand(a, l, data)| + 5
            && t.out == if IsTaken(mem, Number(a) % 0x1_0000_0000, |data|) then OK_SENT else ERROR_3_SENT
  {
    var r := Store(mem, Number(a) % 0x1_0000_0000, data);
    WriteCommandIs(a, l, data);
    WriteReply(mem, buffer, a, l, data);
    TurnSends(mem, buffer, at, noise, WriteCommand(a, l, data), c1, c2, tail, r.mem, r.reply);
    StoreOnLine(mem, Number(a) % 0x1_0000_0000, data);
  }
}
