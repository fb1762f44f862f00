/**
 Packets of the GDB stub (tce/newlib-1.17.0/libgloss/debug.c:143-181 and 266-358) as functions of
 the bytes that arrive.
 */
module GdbPackets {

  type byte = b: int | 0 <= b < 256 witness 0

  const BUF_MAX: nat := 2048
  const DOLLAR: byte := '$' as int
  const HASH: byte := '#' as int
  const PLUS: byte := '+' as int
  const COMMA: byte := ',' as int
  const COLON: byte := ':' as int
  const READ_LETTER: byte := 'm' as int
  const WRITE_LETTER: byte := 'M' as int

  function One(b: byte): seq<byte> {
    [b]
  }

  // ---------------------------------------------------------------------------------------
  // Digits
  // ---------------------------------------------------------------------------------------

  /** hex2digit: the end of a string counts as 0, anything else that is no digit as -1. */
  function HexToDigit(c: int): int {
    if c == 0 then 0
    else if '0' as int <= c <= '9' as int then c - '0' as int
    else if 'a' as int <= c <= 'f' as int then c - 'a' as int + 10
    else if 'A' as int <= c <= 'F' as int then c - 'A' as int + 10
    else -1
  }

  function DigitToHex(d: nat): byte
    requires d < 16
  {
    if d < 10 then '0' as int + d else 'a' as int + d - 10
  }

  lemma DigitRoundTrip(d: nat)
    requires d < 16
    ensures HexToDigit(DigitToHex(d)) == d && DigitToHex(d) != 0 && DigitToHex(d) < 128 && DigitToHex(d) != HASH
  {
  }

  // ---------------------------------------------------------------------------------------
  // Frames
  // ---------------------------------------------------------------------------------------

  /** Sum of the first n bytes modulo 256. */
  function SumTo(p: seq<byte>, n: nat): (c: byte)
    requires n <= |p|
  {
    if n == 0 then 0 else (SumTo(p, n - 1) + p[n - 1]) % 256
  }

  function Checksum(p: seq<byte>): (c: byte) {
    SumTo(p, |p|)
  }

  lemma {:induction false} SumOfPrefix(p: seq<byte>, q: seq<byte>, n: nat)
    requires n <= |p| && n <= |q| && forall i :: 0 <= i < n ==> p[i] == q[i]
    ensures SumTo(p, n) == SumTo(q, n)
    decreases n
  {
    if n > 0 {
      SumOfPrefix(p, q, n - 1);
    }
  }

  lemma ChecksumStep(p: seq<byte>, x: byte)
    ensures Checksum(p + One(x)) == (Checksum(p) + x) % 256
  {
    SumOfPrefix(p, p + One(x), |p|);
  }

  /** The text putpacket sends for a payload. */
  function Frame(p: seq<byte>): (f: seq<byte>)
    ensures |f| == |p| + 4
  {
    One(DOLLAR) + p + [HASH, DigitToHex(Checksum(p) / 16), DigitToHex(Checksum(p) % 16)]
  }

  function Masked(s: seq<byte>): (m: seq<byte>)
    ensures |m| == |s| && forall i :: 0 <= i < |s| ==> m[i] == s[i] % 128
  {
    seq(|s|, i requires 0 <= i < |s| => s[i] % 128)
  }

  /** Index of the first byte from i on that is c in its lower seven bits; the length if there is none. */
  function FindFrom(s: seq<byte>, c: byte, i: nat): (k: nat)
    requires i <= |s|
    ensures i <= k <= |s| && (forall j :: i <= j < k ==> s[j] % 128 != c)
    ensures k < |s| ==> s[k] % 128 == c
    decreases |s| - i
  {
    if i == |s| || s[i] % 128 == c then i else FindFrom(s, c, i + 1)
  }

  function Find(s: seq<byte>, c: byte): (k: nat)
    ensures k <= |s| && (forall i :: 0 <= i < k ==> s[i] % 128 != c)
    ensures k < |s| ==> s[k] % 128 == c
  {
    FindFrom(s, c, 0)
  }

  lemma FindAt(s: seq<byte>, c: byte, k: nat)
    requires k < |s| && s[k] % 128 == c && forall i :: 0 <= i < k ==> s[i] % 128 != c
    ensures Find(s, c) == k
  {
  }

  lemma FindInTail(s: seq<byte>, c: byte)
    requires s != [] && s[0] % 128 != c
    ensures Find(s, c) == 1 + Find(s[1..], c)
  {
    var k, t := Find(s, c), Find(s[1..], c);
    assert forall i :: 0 <= i < k - 1 ==> s[1..][i] == s[i + 1];
    assert t < |s| - 1 ==> s[t + 1] % 128 == c;
    if k < |s| {
      FindAt(s[1..], c, k - 1);
    }
  }

  // ---------------------------------------------------------------------------------------
  // getpacket
  // ---------------------------------------------------------------------------------------

  /**
   What getpacket makes of its input: it waits for more, or returns a packet after so many bytes, or
   returns a full buffer without end mark. The last happens when BUFMAX characters without '#' add up
   to 255, the value the received checksum starts with; an overlong packet with another sum is dropped.
   */
  datatype Got = Waiting | Packet(payload: seq<byte>, used: nat) | Overlong(payload: seq<byte>, used: nat)

  function Later(g: Got, n: nat): Got {
    match g
    case Waiting => Waiting
    case Packet(p, used) => Packet(p, used + n)
    case Overlong(p, used) => Overlong(p, used + n)
  }

  /** From the next start character to the end mark and checksum, or to the end of the buffer. */
  datatype Attempt = Short | Done(payload: seq<byte>, used: nat) | Full(body: seq<byte>, used: nat)

  function TryPacket(input: seq<byte>): (t: Attempt)
    ensures t.Done? ==> |t.payload| < BUF_MAX && t.used <= |input|
    ensures t.Full? ==> |t.body| == BUF_MAX && 0 < t.used <= |input|
  {
    var i := Find(input, DOLLAR);
    if i == |input| then Short
    else
      var rest := input[i + 1..];
      var h := Find(rest, HASH);
      if h >= BUF_MAX then Full(Masked(rest[..BUF_MAX]), i + 1 + BUF_MAX)
      else if h + 3 > |rest| then Short
      else Done(Masked(rest[..h]), i + 1 + h + 3)
  }

  function GetPacket(input: seq<byte>): (g: Got)
    ensures g.Packet? ==> |g.payload| < BUF_MAX && g.used <= |input|
    ensures g.Overlong? ==> |g.payload| == BUF_MAX && g.used <= |input|
    decreases |input|
  {
    match TryPacket(input)
    case Short => Waiting
    case Done(p, used) => Packet(p, used)
    case Full(body, used) =>
      if Checksum(body) == 255 then Overlong(body, used) else Later(GetPacket(input[used..]), used)
  }

  /** The buffer before the last packet is stored in it: an overlong packet that is dropped fills it. */
  function Stale(buffer: seq<byte>, input: seq<byte>): (b: seq<byte>)
    requires |buffer| == BUF_MAX
    ensures |b| == BUF_MAX
    decreases |input|
  {
    match TryPacket(input)
    case Full(body, used) => if Checksum(body) == 255 then buffer else Stale(body, input[used..])
    case _ => buffer
  }

  /** Characters that survive: seven bits wide and not the end mark. */
  predicate Plain(p: seq<byte>) {
    forall i :: 0 <= i < |p| ==> p[i] < 128 && p[i] != HASH
  }

  predicate NoDollar(noise: seq<byte>) {
    forall i :: 0 <= i < |noise| ==> noise[i] % 128 != DOLLAR
  }

  lemma PlainIsMasked(p: seq<byte>)
    requires Plain(p)
    ensures Masked(p) == p
  {
  }

  /** After noise, the frame of a short plain payload is received, and exactly its bytes are used. */
  lemma FrameIsReceived(noise: seq<byte>, p: seq<byte>, tail: seq<byte>)
    requires NoDollar(noise) && Plain(p) && |p| < BUF_MAX
    ensures GetPacket(noise + Frame(p) + tail) == Packet(p, |noise| + |p| + 4)
  {
    var input := noise + Frame(p) + tail;
    FindAt(input, DOLLAR, |noise|);
    var rest := input[|noise| + 1..];
    var sum := [HASH, DigitToHex(Checksum(p) / 16), DigitToHex(Checksum(p) % 16)];
    assert rest == p + sum + tail;
    assert forall i :: 0 <= i < |p| ==> rest[i] == p[i];
    FindAt(rest, HASH, |p|);
    assert rest[..|p|] == p;
    PlainIsMasked(p);
  }

  /** Whatever arrives, a payload that getpacket completes is short and plain. */
  lemma {:induction false} ReceivedIsPlain(input: seq<byte>)
    ensures GetPacket(input).Packet? ==> Plain(GetPacket(input).payload) && |GetPacket(input).payload| < BUF_MAX
    decreases |input|
  {
    match TryPacket(input)
    case Full(body, used) => ReceivedIsPlain(input[used..]);
    case _ =>
  }

  lemma FrameAlone(p: seq<byte>, tail: seq<byte>)
    requires Plain(p) && |p| < BUF_MAX
    ensures GetPacket(Frame(p) + tail) == Packet(p, |p| + 4)
  {
    FrameIsReceived([], p, tail);
    assert [] + Frame(p) == Frame(p);
  }

  /** Exactly the payloads shorter than BUFMAX made of plain characters are received as they were sent. */
  lemma ReceivedIff(p: seq<byte>, tail: seq<byte>)
    ensures GetPacket(Frame(p) + tail) == Packet(p, |p| + 4) <==> |p| < BUF_MAX && Plain(p)
  {
    ReceivedIsPlain(Frame(p) + tail);
    if Plain(p) && |p| < BUF_MAX {
      FrameAlone(p, tail);
    }
  }

  /** The two checksum characters are not looked at: whatever they are, the packet is accepted. */
  lemma AnyChecksumIsAccepted(noise: seq<byte>, p: seq<byte>, c1: byte, c2: byte, tail: seq<byte>)
    requires NoDollar(noise) && Plain(p) && |p| < BUF_MAX
    ensures GetPacket(noise + One(DOLLAR) + p + [HASH, c1, c2] + tail) == Packet(p, |noise| + |p| + 4)
  {
    var input := noise + One(DOLLAR) + p + [HASH, c1, c2] + tail;
    FindAt(input, DOLLAR, |noise|);
    var rest := input[|noise| + 1..];
    assert rest == p + [HASH, c1, c2] + tail;
    assert forall i :: 0 <= i < |p| ==> rest[i] == p[i];
    FindAt(rest, HASH, |p|);
    assert rest[..|p|] == p;
    PlainIsMasked(p);
  }

  // ---------------------------------------------------------------------------------------
  // Overlong packets
  // ---------------------------------------------------------------------------------------

  /** A start mark after noise, and a full buffer of characters other than the end mark. */
  predicate StartsFull(s: seq<byte>, i: nat) {
    && i + 1 + BUF_MAX <= |s| && s[i] % 128 == DOLLAR && NoDollar(s[..i])
    && forall j :: i < j <= i + BUF_MAX ==> s[j] % 128 != HASH
  }

  function BodySum(s: seq<byte>, i: nat): byte
    requires i + 1 + BUF_MAX <= |s|
  {
    Checksum(Masked(s[i + 1..i + 1 + BUF_MAX]))
  }

  /** Overlong bodies one after another; all but the last are dropped, and the last adds up to 255. */
  predicate Overlongs(s: seq<byte>, starts: seq<nat>) {
    && starts != [] && StartsFull(s, starts[0])
    && if |starts| == 1 then BodySum(s, starts[0]) == 255
       else BodySum(s, starts[0]) != 255 && Overlongs(s[starts[0] + 1 + BUF_MAX..], starts[1..])
  }

  lemma FullIff(s: seq<byte>)
    ensures TryPacket(s).Full? <==> StartsFull(s, Find(s, DOLLAR))
    ensures TryPacket(s).Full? ==>
              var i := Find(s, DOLLAR);
              TryPacket(s) == Full(Masked(s[i + 1..i + 1 + BUF_MAX]), i + 1 + BUF_MAX)
  {
    var i := Find(s, DOLLAR);
    if i < |s| {
      var rest := s[i + 1..];
      assert forall j :: 0 <= j < |rest| ==> rest[j] == s[i + 1 + j];
      if i + 1 + BUF_MAX <= |s| {
        assert rest[..BUF_MAX] == s[i + 1..i + 1 + BUF_MAX];
      }
      var h := Find(rest, HASH);
      assert h < |rest| ==> s[i + 1 + h] % 128 == HASH;
    }
  }

  lemma StartIsFirst(s: seq<byte>, i: nat)
    requires StartsFull(s, i)
    ensures i == Find(s, DOLLAR)
  {
    assert forall j :: 0 <= j < i ==> s[..i][j] == s[j];
    FindAt(s, DOLLAR, i);
  }

  lemma {:induction false} OverlongsAreReturned(s: seq<byte>, starts: seq<nat>)
    requires Overlongs(s, starts)
    ensures GetPacket(s).Overlong?
    decreases |starts|
  {
    StartIsFirst(s, starts[0]);
    FullIff(s);
    if |starts| > 1 {
      OverlongsAreReturned(s[starts[0] + 1 + BUF_MAX..], starts[1..]);
    }
  }

  lemma MoreOverlongs(s: seq<byte>, i: nat, rest: seq<nat>)
    requires StartsFull(s, i) && BodySum(s, i) != 255 && Overlongs(s[i + 1 + BUF_MAX..], rest)
    ensures Overlongs(s, [i] + rest)
  {
    assert ([i] + rest)[1..] == rest;
  }

  /** Where an overlong packet is returned, it starts with a full body, and this one or a later one adds up. */
  lemma ReturnedStartsFull(s: seq<byte>) returns (i: nat)
    requires GetPacket(s).Overlong?
    ensures StartsFull(s, i)
    ensures BodySum(s, i) != 255 ==> GetPacket(s[i + 1 + BUF_MAX..]).Overlong?
  {
    FullIff(s);
    i := Find(s, DOLLAR);
  }

  lemma {:induction false} ReturnedAreOverlongs(s: seq<byte>) returns (starts: seq<nat>)
    requires GetPacket(s).Overlong?
    ensures Overlongs(s, starts)
    decreases |s|
  {
    var i := ReturnedStartsFull(s);
    starts := [i];
    if BodySum(s, i) != 255 {
      var rest := ReturnedAreOverlongs(s[i + 1 + BUF_MAX..]);
      MoreOverlongs(s, i, rest);
      starts := starts + rest;
    }
  }

  ghost predicate HasOverlongs(s: seq<byte>) {
    exists starts :: Overlongs(s, starts)
  }

  /**
   A full buffer without end mark is returned exactly if, after dropped overlong bodies, a start mark is
   followed by BUFMAX characters other than the end mark that add up to 255 modulo 256.
   */
  lemma OverlongIff(s: seq<byte>)
    ensures GetPacket(s).Overlong? <==> HasOverlongs(s)
  {
    if GetPacket(s).Overlong? {
      var starts := ReturnedAreOverlongs(s);
      assert Overlongs(s, starts);
    }
    if HasOverlongs(s) {
      var starts :| Overlongs(s, starts);
      OverlongsAreReturned(s, starts);
    }
  }

  function Zeros(n: nat): (z: seq<byte>)
    ensures |z| == n && forall i :: 0 <= i < n ==> z[i] == 0
  {
    if n == 0 then [] else Zeros(n - 1) + [0]
  }

  lemma {:induction false} ZerosAddNothing(p: seq<byte>, n: nat)
    ensures Checksum(p + Zeros(n)) == Checksum(p)
    decreases n
  {
    if n == 0 {
      assert p + Zeros(0) == p;
    } else {
      assert p + Zeros(n) == p + Zeros(n - 1) + One(0);
      ChecksumStep(p + Zeros(n - 1), 0);
      ZerosAddNothing(p, n - 1);
    }
  }

  function FullBody(): (body: seq<byte>)
    ensures |body| == BUF_MAX && forall j :: 0 <= j < BUF_MAX ==> body[j] < 128 && body[j] != HASH
  {
    [127, 127, 1] + Zeros(BUF_MAX - 3)
  }

  lemma BodyAddsUp()
    ensures Checksum(FullBody()) == 255
  {
    var p: seq<byte> := [127, 127, 1];
    assert SumTo(p, 1) == 127 && SumTo(p, 2) == 254 && SumTo(p, 3) == 255;
    ZerosAddNothing(p, BUF_MAX - 3);
  }

  lemma FullIsReturned(s: seq<byte>, body: seq<byte>, used: nat)
    requires TryPacket(s) == Full(body, used) && Checksum(body) == 255
    ensures GetPacket(s) == Overlong(body, used)
  {
  }

  lemma BodyIsFull(body: seq<byte>)
    requires |body| == BUF_MAX && Plain(body)
    ensures TryPacket(One(DOLLAR) + body) == Full(body, BUF_MAX + 1)
  {
    var s := One(DOLLAR) + body;
    assert forall j :: 0 < j <= BUF_MAX ==> s[j] == body[j - 1];
    assert s[..0] == [] && s[1..1 + BUF_MAX] == body;
    PlainIsMasked(body);
    StartIsFirst(s, 0);
    FullIff(s);
  }

  /** An input that does: a start mark, and the characters 127, 127, 1 and zeros up to the buffer's size. */
  lemma FullBufferIsReturned()
    ensures GetPacket(One(DOLLAR) + FullBody()) == Overlong(FullBody(), BUF_MAX + 1)
  {
    BodyAddsUp();
    BodyIsFull(FullBody());
    FullIsReturned(One(DOLLAR) + FullBody(), FullBody(), BUF_MAX + 1);
  }

  /** Frames with noise before each. */
  function Stream(noise: seq<seq<byte>>, ps: seq<seq<byte>>): seq<byte>
    requires |noise| == |ps|
  {
    if ps == [] then [] else noise[0] + Frame(ps[0]) + Stream(noise[1..], ps[1..])
  }

  /** Call getpacket n times; the payloads and what is left of the input. */
  function Receive(input: seq<byte>, n: nat): (seq<seq<byte>>, seq<byte>) {
    if n == 0 then ([], input)
    else
      match GetPacket(input)
      case Packet(p, used) =>
        var r := Receive(input[used..], n - 1);
        ([p] + r.0, r.1)
      case _ => ([], input)
  }

  lemma ReceiveStep(input: seq<byte>, noise: seq<byte>, p: seq<byte>, rest: seq<byte>, n: nat)
    requires NoDollar(noise) && Plain(p) && |p| < BUF_MAX && input == noise + Frame(p) + rest
    ensures Receive(input, n + 1) == ([p] + Receive(rest, n).0, Receive(rest, n).1)
  {
    FrameIsReceived(noise, p, rest);
    assert input[|noise| + |p| + 4..] == rest;
  }

  /** Every payload of a sequence is received, in order, and nothing of what follows is touched. */
  lemma {:induction false} StreamIsReceived(noise: seq<seq<byte>>, ps: seq<seq<byte>>, tail: seq<byte>)
    requires |noise| == |ps|
    requires forall i :: 0 <= i < |ps| ==> NoDollar(noise[i]) && Plain(ps[i]) && |ps[i]| < BUF_MAX
    ensures Receive(Stream(noise, ps) + tail, |ps|) == (ps, tail)
    decreases |ps|
  {
    if ps == [] {
      assert Stream(noise, ps) + tail == tail;
    } else {
      var rest := Stream(noise[1..], ps[1..]) + tail;
      assert Stream(noise, ps) + tail == noise[0] + Frame(ps[0]) + rest;
      ReceiveStep(Stream(noise, ps) + tail, noise[0], ps[0], rest, |ps| - 1);
      StreamIsReceived(noise[1..], ps[1..], tail);
      assert [ps[0]] + ps[1..] == ps;
    }
  }

  // ---------------------------------------------------------------------------------------
  // putpacket
  // ---------------------------------------------------------------------------------------

  datatype Status = Acked | GaveUp | NoAnswer

  /** What putpacket sends, the answers it reads, and how it ends. A refused character counts as sent. */
  datatype Put = Put(out: seq<byte>, used: nat, status: Status)

  /** How many of the payload bytes sent from this place of the output on are taken by outbyte. */
  function Taken(p: seq<byte>, at: nat, refused: set<nat>): (k: nat)
    ensures k <= |p| && (forall i :: at <= i < at + k ==> i !in refused) && (k < |p| ==> at + k in refused)
  {
    TakenFrom(|p|, at, refused, 0)
  }

  function TakenFrom(n: nat, at: nat, refused: set<nat>, k: nat): (r: nat)
    requires k <= n && forall i :: at <= i < at + k ==> i !in refused
    ensures r <= n && (forall i :: at <= i < at + r ==> i !in refused) && (r < n ==> at + r in refused)
    decreases n - k
  {
    if k == n || at + k in refused then k else TakenFrom(n, at, refused, k + 1)
  }

  /** Sending repeats until '+' comes back, or until outbyte refuses a character of the payload. */
  function PutPacket(p: seq<byte>, at: nat, refused: set<nat>, input: seq<byte>): (r: Put)
    ensures r.used <= |input|
    decreases |input|
  {
    var k := Taken(p, at + 1, refused);
    if k < |p| then Put(One(DOLLAR) + p[..k + 1], 0, GaveUp)
    else if input == [] then Put(Frame(p), 0, NoAnswer)
    else if input[0] % 128 == PLUS then Put(Frame(p), 1, Acked)
    else
      var r := PutPacket(p, at + |p| + 4, refused, input[1..]);
      Put(Frame(p) + r.out, 1 + r.used, r.status)
  }

  function Repeat(f: seq<byte>, n: nat): seq<byte> {
    if n == 0 then [] else f + Repeat(f, n - 1)
  }

  function Copies(p: seq<byte>, n: nat): seq<seq<byte>> {
    if n == 0 then [] else [p] + Copies(p, n - 1)
  }

  /** On a line that takes everything: one frame for every answer up to the first '+'. */
  lemma {:induction false} SentUntilAcked(p: seq<byte>, at: nat, input: seq<byte>)
    ensures var n := Find(input, PLUS);
            PutPacket(p, at, {}, input)
            == if n < |input| then Put(Repeat(Frame(p), n + 1), n + 1, Acked)
               else Put(Repeat(Frame(p), n + 1), n, NoAnswer)
    decreases |input|
  {
    assert Frame(p) + [] == Frame(p);
    assert Repeat(Frame(p), 1) == Frame(p) + Repeat(Frame(p), 0);
    if input != [] && input[0] % 128 != PLUS {
      FindInTail(input, PLUS);
      SentUntilAcked(p, at + |p| + 4, input[1..]);
    }
  }

  /** n times no noise. */
  function Quiet(n: nat): seq<seq<byte>> {
    if n == 0 then [] else [[]] + Quiet(n - 1)
  }

  lemma {:induction false} CopiesAreStream(p: seq<byte>, n: nat)
    ensures |Quiet(n)| == |Copies(p, n)| == n
    ensures forall i :: 0 <= i < n ==> Quiet(n)[i] == [] && Copies(p, n)[i] == p
    ensures Stream(Quiet(n), Copies(p, n)) == Repeat(Frame(p), n)
    decreases n
  {
    if n > 0 {
      CopiesAreStream(p, n - 1);
      assert Quiet(n)[1..] == Quiet(n - 1) && Copies(p, n)[1..] == Copies(p, n - 1);
      assert [] + Frame(p) == Frame(p);
    }
  }

  /** All copies that bad answers cause are received as the same payload. */
  lemma CopiesAreReceived(p: seq<byte>, n: nat, tail: seq<byte>)
    requires Plain(p) && |p| < BUF_MAX
    ensures Receive(Repeat(Frame(p), n) + tail, n) == (Copies(p, n), tail)
  {
    CopiesAreStream(p, n);
    StreamIsReceived(Quiet(n), Copies(p, n), tail);
  }
}
