/**
 The stub with its buffers, its serial line and its memory, changed in place
 (tce/newlib-1.17.0/libgloss/debug.c:180-447 and 499-567).
 */
module GdbStub {
  import opened Wrappers
  import opened GdbPackets
  import opened GdbMemory

  /** The buffer holds this C string. */
  ghost predicate Holds(buffer: seq<byte>, p: seq<byte>) {
    |p| < |buffer| && buffer[..|p|] == p && buffer[|p|] == 0 && forall i :: 0 <= i < |p| ==> p[i] != 0
  }

  /** One pass of the event loop: memory and command buffer afterwards, what was sent, and how much was read. */
  datatype Turn = Turned(mem: Memory, buffer: seq<byte>, out: seq<byte>, used: nat) | Stuck

  function TurnOf(mem: Memory, buffer: seq<byte>, at: nat, refused: set<nat>, input: seq<byte>): (t: Turn)
    requires |buffer| == BUF_MAX
    ensures t.Turned? ==> t.used <= |input| && |t.buffer| == BUF_MAX
  {
    match GetPacket(input)
    case Packet(p, used) =>
      var b := Filled(Stale(buffer, input), p);
      TurnAfter(React(mem, b), b, at, refused, input, used)
    case _ => Stuck
  }

  /** The rest of a turn after the command was carried out. */
  function TurnAfter(reaction: Reaction, b: seq<byte>, at: nat, refused: set<nat>, input: seq<byte>, used: nat): (t: Turn)
    requires used <= |input|
    ensures t.Turned? ==> t.used <= |input| && t.buffer == b
  {
    match reaction
    case Undefined => Stuck
    case Reaction(m, reply) =>
      var r := PutPacket(reply, at + 1, refused, input[used..]);
      if r.status == NoAnswer then Stuck else Turned(m, b, One(PLUS) + r.out, used + r.used)
  }

  class Stub {
    const packetIn: array<byte>
    const packetOut: array<byte>
    /** The places of the output at which outbyte returns 0. */
    const refused: set<nat>
    /** Bytes that are still to arrive, and all bytes sent. */
    var input: seq<byte>
    var output: seq<byte>
    var mem: Memory

    ghost predicate Valid()
      reads this
    {
      packetIn.Length == BUF_MAX && packetOut.Length == BUF_MAX && packetIn != packetOut
    }

    constructor (line: seq<byte>, refusals: set<nat>, memory: Memory)
      ensures Valid() && fresh(packetIn) && fresh(packetOut)
      ensures input == line && output == [] && mem == memory && refused == refusals
    {
      packetIn, packetOut := new byte[BUF_MAX], new byte[BUF_MAX];
      input, output, refused, mem := line, [], refusals, memory;
    }

    /** inbyte; false if it would wait for ever. */
    method InByte() returns (ok: bool, c: byte)
      modifies this`input
      ensures ok <==> old(input) != []
      ensures ok ==> c == old(input)[0] && input == old(input)[1..]
      ensures !ok ==> input == []
    {
      ok, c := input != [], 0;
      if ok {
        c := input[0];
        input := input[1..];
      }
    }

    method OutByte(c: byte) returns (ok: bool)
      modifies this`output
      ensures output == old(output) + One(c) && ok == (|old(output)| !in refused)
    {
      ok := |output| !in refused;
      output := output + [c];
    }

    /** Skip to the start character. */
    method SkipToDollar() returns (ok: bool)
      modifies this`input
      ensures ok <==> Find(old(input), DOLLAR) < |old(input)|
      ensures ok ==> input == old(input)[Find(old(input), DOLLAR) + 1..]
    {
      ghost var all := input;
      var c;
      ok, c := InByte();
      while ok && c % 128 != DOLLAR
        invariant ok ==> all != [] && |input| < |all| && input == all[|all| - |input|..] && c == all[|all| - |input| - 1]
        invariant forall i :: 0 <= i < |all| - |input| - 1 ==> all[i] % 128 != DOLLAR
        invariant !ok ==> input == [] && (all == [] || all[|all| - 1] % 128 != DOLLAR)
        decreases |input|, ok
      {
        ok, c := InByte();
      }
      if ok {
        FindAt(all, DOLLAR, |all| - |input| - 1);
      }
    }

    /**
     Read until '#' or the end of the buffer. Afterwards the buffer holds what was read; `ended`
     tells that '#' was.
     */
    method ReadBody() returns (ok: bool, ended: bool, count: nat, checksum: byte)
      requires Valid()
      modifies this`input, packetIn
      ensures !ok ==> Find(old(input), HASH) == |old(input)| < BUF_MAX
      ensures ok ==> BodyRead(old(input), old(packetIn[..]), count, packetIn[..], checksum)
      ensures ok && ended ==>
                Find(old(input), HASH) == count < BUF_MAX && count < |old(input)| && input == old(input)[count + 1..]
      ensures ok && !ended ==> count == BUF_MAX && input == old(input)[BUF_MAX..]
    {
      ghost var all, buffer := input, packetIn[..];
      ok, ended, count, checksum := true, false, 0, 0;
      while count < BUF_MAX && ok && !ended
        invariant BodyRead(all, buffer, count, packetIn[..], checksum)
        invariant ok && !ended ==> input == all[count..]
        invariant ok && ended ==> Find(all, HASH) == count < BUF_MAX && count < |all| && input == all[count + 1..]
        invariant !ok ==> count == |all| && count < BUF_MAX
        decreases BUF_MAX - count, ok, !ended
      {
        var c;
        ok, c := InByte();
        if ok {
          if c % 128 == HASH {
            NextFound(all, HASH, count);
            ended := true;
          } else {
            BodyStep(all, buffer, count, packetIn[..], checksum);
            checksum := (checksum + c % 128) % 256;
            StoreCharacter(count, c % 128);
            count := count + 1;
          }
        }
      }
    }

    method StoreCharacter(count: nat, c: byte)
      requires count < packetIn.Length
      modifies packetIn
      ensures packetIn[..] == old(packetIn[..])[count := c]
    {
      packetIn[count] := c;
    }

    /** After '#': the two checksum characters are read and not compared, and '+' is sent. */
    method FinishPacket() returns (ok: bool)
      modifies this`input, this`output
      ensures ok <==> |old(input)| >= 2
      ensures ok ==> input == old(input)[2..] && output == old(output) + One(PLUS)
      ensures !ok ==> output == old(output)
    {
      var c;
      ok, c := InByte();
      if ok {
        ok, c := InByte();
      }
      if ok {
        var _ := OutByte(PLUS);
      }
    }

    /** The zero after the payload, and the rest of the frame. */
    method EndPacket(count: nat, ghost all: seq<byte>, ghost rest: seq<byte>, ghost buffer: seq<byte>) returns (ok: bool)
      requires Valid() && |buffer| == BUF_MAX
      requires Find(all, DOLLAR) < |all| && rest == all[Find(all, DOLLAR) + 1..]
      requires count == Find(rest, HASH) < BUF_MAX && count < |rest| && input == rest[count + 1..]
      requires packetIn[..] == Masked(rest[..count]) + buffer[count..]
      modifies this`input, this`output, packetIn
      ensures !ok ==> GetPacket(all).Waiting?
      ensures ok ==> Received(all, buffer, old(output), input, packetIn[..], output)
    {
      PacketEnds(all, Find(all, DOLLAR), rest, count, buffer, output);
      packetIn[count] := 0;
      FilledStep(packetIn[..], Masked(rest[..count]), buffer);
      ok := FinishPacket();
    }

    /** One round of getpacket: from the start character to the end of a packet or of the buffer. */
    method TryPacket() returns (ok: bool, again: bool)
      requires Valid()
      modifies this`input, this`output, packetIn
      ensures !ok ==> GetPacket(old(input)).Waiting?
      ensures ok && again ==>
                output == old(output) && |input| < |old(input)| && Dropped(old(input), old(packetIn[..]), input, packetIn[..])
      ensures ok && !again ==> Received(old(input), old(packetIn[..]), old(output), input, packetIn[..], output)
    {
      ghost var all, buffer := input, packetIn[..];
      again := false;
      ok := SkipToDollar();
      if ok {
        var received: byte := 255;
        ghost var rest := input;
        var ended, count, checksum;
        ok, ended, count, checksum := ReadBody();
        if ok && ended {
          ok := EndPacket(count, all, rest, buffer);
        } else if ok {
          FullContent(rest, buffer, packetIn[..], checksum);
          BufferFull(all, rest, input, buffer, output);
          again := checksum != received;
        } else {
          BodyWaits(all, rest);
        }
      }
    }

    /** getpacket; false if it would wait for ever. */
    method ReceivePacket() returns (ok: bool)
      requires Valid()
      modifies this`input, this`output, packetIn
      ensures ok <==> !GetPacket(old(input)).Waiting?
      ensures ok ==> Received(old(input), old(packetIn[..]), old(output), input, packetIn[..], output)
    {
      ghost var all, buffer, sent := input, packetIn[..], output;
      var again;
      ok, again := TryPacket();
      while ok && again
        invariant !ok ==> GetPacket(all).Waiting?
        invariant ok && again ==> output == sent && Dropped(all, buffer, input, packetIn[..])
        invariant ok && !again ==> Received(all, buffer, sent, input, packetIn[..], output)
        decreases ok && again, |input|
      {
        ghost var mid, content := input, packetIn[..];
        ok, again := TryPacket();
        if ok && again {
          DroppedTwice(all, buffer, mid, content, input, packetIn[..]);
        } else if ok {
          DroppedThenReceived(all, buffer, sent, mid, content, input, packetIn[..], output);
        }
      }
    }

    /** The characters up to the zero; false once outbyte refuses one. */
    method SendPayload(ghost p: seq<byte>) returns (ok: bool, checksum: byte)
      requires Valid() && Holds(packetOut[..], p)
      modifies this`output
      ensures var k := Taken(p, |old(output)|, refused);
              && (ok <==> k == |p|)
              && output == old(output) + if ok then p else p[..k + 1]
      ensures ok ==> checksum == Checksum(p)
    {
      ghost var sent := output;
      var count := 0;
      ok, checksum := true, 0;
      HoldsAt(packetOut[..], p, 0);
      while packetOut[count] != 0
        invariant 0 <= count <= |p| && output == sent + p[..count] && Taken(p, |sent|, refused) >= count
        invariant ok && checksum == SumTo(p, count) && (packetOut[count] != 0 <==> count < |p|)
        decreases |p| - count
      {
        HoldsAt(packetOut[..], p, count);
        var c := packetOut[count];
        assert p[..count + 1] == p[..count] + One(c);
        ok := OutByte(c);
        if !ok {
          return;
        }
        checksum := (checksum + c) % 256;
        count := count + 1;
        HoldsAt(packetOut[..], p, count);
      }
      assert p[..count] == p;
    }

    /** One frame; false once outbyte refuses a character of the payload. */
    method SendFrame(ghost p: seq<byte>) returns (ok: bool)
      requires Valid() && Holds(packetOut[..], p)
      modifies this`output
      ensures var k := Taken(p, |old(output)| + 1, refused);
              && (ok <==> k == |p|)
              && output == old(output) + if ok then Frame(p) else One(DOLLAR) + p[..k + 1]
    {
      ghost var sent, k := output, Taken(p, |output| + 1, refused);
      var _ := OutByte(DOLLAR);
      var checksum;
      ok, checksum := SendPayload(p);
      if ok {
        var _ := OutByte(HASH);
        var _ := OutByte(DigitToHex(checksum / 16));
        var _ := OutByte(DigitToHex(checksum % 16));
        FrameParts(sent, p);
      } else {
        Regroup(sent, One(DOLLAR), p[..k + 1]);
      }
    }

    /** One frame and its answer: finished, or to be sent again. */
    method SendOnce(ghost p: seq<byte>) returns (ok: bool, again: bool)
      requires Valid() && Holds(packetOut[..], p)
      modifies this`input, this`output
      ensures SentOnce(p, refused, old(input), old(output), ok, again, input, output)
    {
      ghost var all, sent := input, output;
      again := false;
      ok := SendFrame(p);
      if !ok {
        Refused(p, refused, all, sent);
        return true, false;
      }
      var c;
      ok, c := InByte();
      again := ok && c % 128 != PLUS;
      Answered(p, refused, all, sent);
    }

    /** putpacket; false if it would wait for an answer for ever. */
    method SendPacket(ghost p: seq<byte>) returns (ok: bool)
      requires Valid() && Holds(packetOut[..], p)
      modifies this`input, this`output
      ensures var r := PutPacket(p, |old(output)|, refused, old(input));
              && (ok <==> r.status != NoAnswer)
              && output == old(output) + r.out && input == old(input)[r.used..]
    {
      ghost var all, sent := input, output;
      ghost var r0 := PutPacket(p, |sent|, refused, all);
      var again := true;
      ok := false;
      while again
        invariant again ==> Follows(r0, PutPacket(p, |output|, refused, input), all, sent, input, output)
        invariant !again ==> (ok <==> r0.status != NoAnswer) && output == sent + r0.out && input == all[r0.used..]
        decreases again, |input|
      {
        ghost var left, now := input, output;
        ghost var r := PutPacket(p, |now|, refused, left);
        FollowsToEnd(r0, r, all, sent, left, now);
        ok, again := SendOnce(p);
        if again {
          PutAgain(p, |now|, refused, left);
          FollowsAgain(r0, r, PutPacket(p, |output|, refused, input), Frame(p), all, sent, left, now);
        }
      }
    }

    /** mem2hex into the reply buffer; false at a fault. */
    method Mem2Hex(addr: nat, count: nat) returns (ok: bool)
      requires Valid() && addr < SPACE && 2 * count < BUF_MAX
      modifies packetOut
      ensures match ReadBytes(mem, addr, count)
              case Some(s) => ok && Holds(packetOut[..], HexOf(s))
              case None => !ok
    {
      var a, i := addr, 0;
      ghost var s: seq<byte> := [];
      assert At(addr, 0) == addr;
      while i < count
        invariant 0 <= i <= count && a == At(addr, i) && ReadBytes(mem, addr, i) == Some(s) && |s| == i
        invariant packetOut[..2 * i] == HexOf(s)
      {
        if a !in mem {
          ReadSucceedsIff(mem, addr, count);
          assert At(addr, i) !in mem;
          return false;
        }
        var c := mem[a];
        packetOut[2 * i] := DigitToHex(c / 16);
        packetOut[2 * i + 1] := DigitToHex(c % 16);
        ReadStep(mem, addr, i, s, packetOut[..2 * i], packetOut[..2 * (i + 1)]);
        s := s + [c];
        AtNext(addr, i);
        a := (a + 1) % SPACE;
        i := i + 1;
      }
      packetOut[2 * i] := 0;
      HexIsPlain(s);
      HoldsHex(packetOut[..], s);
      ok := true;
    }

    /** hex2mem from the command buffer; false at a fault, and the address after the last byte. */
    method Hex2Mem(at: nat, addr: nat, count: nat) returns (ok: bool, next: nat)
      requires Valid() && addr < SPACE && at + 2 * count <= BUF_MAX
      modifies this`mem
      ensures var r := WriteBytes(old(mem), addr, FromHex(packetIn[..], at, count));
              mem == r.0 && ok == r.1 && (ok ==> next == At(addr, count))
    {
      ghost var before, b := mem, packetIn[..];
      var i := 0;
      next, ok := addr, true;
      assert At(addr, 0) == addr;
      while i < count && ok
        invariant 0 <= i <= count && packetIn[..] == b && (ok ==> next == At(addr, i))
        invariant Stored(before, addr, b, at, i, count, ok, mem)
        decreases count - i, ok
      {
        ghost var now := mem;
        StoreStep(before, now, addr, b, at, i, count);
        var c := Pair(HexToDigit(packetIn[at + 2 * i]), HexToDigit(packetIn[at + 2 * i + 1]));
        ok := next in mem;
        if ok {
          mem := mem[next := c];
          AtNext(addr, i);
          next := (next + 1) % SPACE;
          i := i + 1;
        }
      }
    }

    method Hex2Int(at: nat) returns (v: nat, next: nat)
      requires Valid() && at <= BUF_MAX
      ensures (v, next) == HexInt(packetIn[..], at, 0)
    {
      v, next := 0, at;
      while next < BUF_MAX && packetIn[next] != 0 && HexToDigit(packetIn[next]) >= 0
        invariant at <= next <= BUF_MAX && v < SPACE
        invariant HexInt(packetIn[..], next, v) == HexInt(packetIn[..], at, 0)
      {
        v := (16 * v + HexToDigit(packetIn[next])) % SPACE;
        next := next + 1;
      }
    }

    /** make_return_packet */
    method MakeReturnPacket(val: byte)
      requires Valid()
      modifies packetOut
      ensures Holds(packetOut[..], ReturnPacket(val))
    {
      if val == 0 {
        packetOut[0], packetOut[1], packetOut[2] := 'O' as int, 'K' as int, 0;
      } else {
        DigitRoundTrip(val / 16);
        DigitRoundTrip(val % 16);
        packetOut[0], packetOut[1], packetOut[2] := 'E' as int, DigitToHex(val / 16), DigitToHex(val % 16);
        packetOut[3] := 0;
      }
    }

    /** The two numbers of a command. */
    method ReadArguments() returns (ok: bool, addr: nat, length: nat, next: nat)
      requires Valid()
      ensures match Arguments(packetIn[..])
              case None => !ok
              case Some((a, l, n)) => ok && addr == a && length == l && next == n
      ensures addr < SPACE
    {
      addr, next := Hex2Int(1);
      length := 0;
      ok := next > 1 && next < BUF_MAX && packetIn[next] == COMMA;
      if ok {
        var start := next + 1;
        length, next := Hex2Int(start);
        ok := next > start;
      }
    }

    /** The switch of the event loop: the reply is left in packetOut. False where React says nothing. */
    method HandleCommand() returns (ok: bool)
      requires Valid()
      modifies this`mem, packetOut
      ensures var r := React(old(mem), packetIn[..]);
              ok == r.Reaction? && (ok ==> mem == r.mem && Holds(packetOut[..], r.reply))
    {
      packetOut[0] := 0;
      ok := true;
      var c := packetIn[0];
      if c == READ_LETTER {
        ok := ReadCommand();
      } else if c == WRITE_LETTER {
        ok := WriteCommand();
      } else {
        ok := !IsTarget(c);
      }
    }

    method ReadCommand() returns (ok: bool)
      requires Valid() && packetIn[0] == READ_LETTER
      modifies packetOut
      ensures var r := React(mem, packetIn[..]);
              ok == r.Reaction? && (ok ==> mem == r.mem && Holds(packetOut[..], r.reply))
    {
      var parsed, addr, length, next := ReadArguments();
      if !parsed {
        MakeReturnPacket(1);
        return true;
      }
      ok := 2 * Count(length) < BUF_MAX;
      if ok {
        var done := Mem2Hex(addr, Count(length));
        if !done {
          MakeReturnPacket(3);
        }
      }
    }

    method WriteCommand() returns (ok: bool)
      requires Valid() && packetIn[0] == WRITE_LETTER
      modifies this`mem, packetOut
      ensures var r := React(old(mem), packetIn[..]);
              ok == r.Reaction? && (ok ==> mem == r.mem && Holds(packetOut[..], r.reply))
    {
      var parsed, addr, length, next := ReadArguments();
      if !parsed || next >= BUF_MAX || packetIn[next] != COLON {
        MakeReturnPacket(2);
        return true;
      }
      ok := StoreData(addr, Count(length), next + 1);
    }

    method StoreData(addr: nat, n: nat, at: nat) returns (ok: bool)
      requires Valid() && addr < SPACE && at <= BUF_MAX
      modifies this`mem, packetOut
      ensures var r := WriteMemory(old(mem), addr, n, packetIn[..], at);
              ok == r.Reaction? && (ok ==> mem == r.mem && Holds(packetOut[..], r.reply))
    {
      ok := at + 2 * n <= BUF_MAX;
      if ok {
        var done, after := Hex2Mem(at, addr, n);
        MakeReturnPacket(if done && after != 0 then 0 else 3);
      }
    }

    /** One pass of the event loop; false where it waits for ever or leaves the model. */
    method Turn() returns (ok: bool)
      requires Valid() && !GetPacket(input).Overlong?
      modifies this`input, this`output, this`mem, packetIn, packetOut
      ensures TurnDone(TurnOf(old(mem), old(packetIn[..]), |old(output)|, refused, old(input)), ok, mem, packetIn[..],
                       old(output), output, old(input), input)
    {
      ghost var all, buffer, sent, before := input, packetIn[..], output, mem;
      ok := ReceivePacket();
      if ok {
        ghost var b, left := packetIn[..], input;
        ghost var reaction := React(mem, b);
        ok := HandleCommand();
        TurnEnds(before, buffer, refused, all, sent, b, left, reaction);
        if ok {
          ok := SendPacket(reaction.reply);
        }
      }
    }
  }

  /** What a pass of the event loop has done, against what it should do. */
  ghost predicate TurnDone(t: Turn, ok: bool, mem: Memory, content: seq<byte>, sent: seq<byte>, output: seq<byte>,
                           all: seq<byte>, left: seq<byte>) {
    match t
    case Stuck => !ok
    case Turned(m, b, out, used) =>
      ok && mem == m && content == b && output == sent + out && used <= |all| && left == all[used..]
  }

  lemma TurnEnds(mem: Memory, buffer: seq<byte>, refused: set<nat>, all: seq<byte>, sent: seq<byte>, b: seq<byte>, left: seq<byte>,
                 reaction: Reaction)
    requires Received(all, buffer, sent, left, b, sent + One(PLUS)) && GetPacket(all).Packet?
    requires |b| >= 1 && reaction == React(mem, b)
    ensures var t := TurnOf(mem, buffer, |sent|, refused, all);
            if reaction.Undefined? then t == Stuck
            else
              var r := PutPacket(reaction.reply, |sent| + 1, refused, left);
              && TurnDone(t, r.status != NoAnswer, reaction.mem, b, sent, sent + One(PLUS) + r.out, all, left[r.used..])
  {
    if reaction.Reaction? {
      var r, used := PutPacket(reaction.reply, |sent| + 1, refused, left), GetPacket(all).used;
      Regroup(sent, One(PLUS), r.out);
      SliceTwice(all, used, r.used);
    }
  }

  /** The outcome of getpacket: input left, buffer and output afterwards. */
  ghost predicate Received(all: seq<byte>, buffer: seq<byte>, sent: seq<byte>, left: seq<byte>, content: seq<byte>, output: seq<byte>) {
    && |buffer| == BUF_MAX
    && match GetPacket(all)
       case Waiting => false
       case Packet(p, used) => left == all[used..] && output == sent + One(PLUS) && content == Filled(Stale(buffer, all), p)
       case Overlong(p, used) => left == all[used..] && output == sent && content == p
  }

  /** An overlong packet has been dropped; what follows decides. */
  ghost predicate Dropped(all: seq<byte>, buffer: seq<byte>, left: seq<byte>, content: seq<byte>) {
    && |buffer| == |content| == BUF_MAX && |left| <= |all| && left == all[|all| - |left|..]
    && GetPacket(all) == Later(GetPacket(left), |all| - |left|)
    && Stale(buffer, all) == Stale(content, left)
  }

  lemma DroppedTwice(all: seq<byte>, buffer: seq<byte>, mid: seq<byte>, content: seq<byte>, left: seq<byte>, after: seq<byte>)
    requires Dropped(all, buffer, mid, content) && Dropped(mid, content, left, after)
    ensures Dropped(all, buffer, left, after)
  {
    LaterTwice(GetPacket(left), |mid| - |left|, |all| - |mid|);
  }

  lemma SuffixOfSuffix(all: seq<byte>, mid: seq<byte>, used: nat)
    requires |mid| <= |all| && mid == all[|all| - |mid|..] && used <= |mid|
    ensures mid[used..] == all[used + (|all| - |mid|)..]
  {
  }

  lemma DroppedThenReceived(all: seq<byte>, buffer: seq<byte>, sent: seq<byte>, mid: seq<byte>, content: seq<byte>,
                            left: seq<byte>, after: seq<byte>, output: seq<byte>)
    requires Dropped(all, buffer, mid, content) && Received(mid, content, sent, left, after, output)
    ensures Received(all, buffer, sent, left, after, output)
  {
    match GetPacket(mid)
    case Waiting =>
    case Packet(p, used) => SuffixOfSuffix(all, mid, used);
    case Overlong(p, used) => SuffixOfSuffix(all, mid, used);
  }

  lemma SliceTwice(s: seq<byte>, i: nat, n: nat)
    requires i + n <= |s|
    ensures s[i..][n..] == s[i + n..] && s[i + n..] == s[|s| - |s[i + n..]|..]
  {
  }

  lemma TryDone(all: seq<byte>, i: nat, rest: seq<byte>, h: nat)
    requires i == Find(all, DOLLAR) < |all| && rest == all[i + 1..]
    requires h == Find(rest, HASH) < BUF_MAX && h + 3 <= |rest|
    ensures TryPacket(all) == Done(Masked(rest[..h]), i + 1 + h + 3)
  {
  }

  lemma PacketEnds(all: seq<byte>, i: nat, rest: seq<byte>, h: nat, buffer: seq<byte>, sent: seq<byte>)
    requires i == Find(all, DOLLAR) < |all| && rest == all[i + 1..] && |buffer| == BUF_MAX
    requires h == Find(rest, HASH) < BUF_MAX && h < |rest|
    ensures h + 3 > |rest| ==> GetPacket(all) == Waiting
    ensures h + 3 <= |rest| ==>
              Received(all, buffer, sent, rest[h + 1..][2..], Filled(buffer, Masked(rest[..h])), sent + One(PLUS))
  {
    if h + 3 <= |rest| {
      SliceTwice(all, i + 1, h + 3);
      SliceTwice(rest, h + 1, 2);
      TryDone(all, i, rest, h);
      DoneIsReceived(all, Masked(rest[..h]), i + 1 + h + 3, buffer, sent);
    } else {
      TryShort(all, i, rest, h);
    }
  }

  lemma TryShort(all: seq<byte>, i: nat, rest: seq<byte>, h: nat)
    requires i == Find(all, DOLLAR) < |all| && rest == all[i + 1..] && h == Find(rest, HASH) < BUF_MAX && h + 3 > |rest|
    ensures GetPacket(all) == Waiting
  {
  }

  lemma DoneIsReceived(all: seq<byte>, p: seq<byte>, used: nat, buffer: seq<byte>, sent: seq<byte>)
    requires TryPacket(all) == Done(p, used) && |buffer| == BUF_MAX
    ensures Received(all, buffer, sent, all[used..], Filled(buffer, p), sent + One(PLUS))
  {
  }

  lemma BodyWaits(all: seq<byte>, rest: seq<byte>)
    requires Find(all, DOLLAR) < |all| && rest == all[Find(all, DOLLAR) + 1..]
    requires Find(rest, HASH) == |rest| < BUF_MAX
    ensures GetPacket(all) == Waiting
  {
  }

  lemma FullContent(rest: seq<byte>, buffer: seq<byte>, content: seq<byte>, checksum: byte)
    requires BodyRead(rest, buffer, BUF_MAX, content, checksum)
    ensures Find(rest, HASH) >= BUF_MAX && content == Masked(rest[..BUF_MAX]) && checksum == Checksum(content)
  {
    assert buffer[BUF_MAX..] == [];
  }

  lemma FullPacket(all: seq<byte>, body: seq<byte>, used: nat, left: seq<byte>, buffer: seq<byte>)
    requires TryPacket(all) == Full(body, used) && left == all[used..] && |buffer| == BUF_MAX
    ensures GetPacket(all) == if Checksum(body) == 255 then Overlong(body, used) else Later(GetPacket(left), used)
    ensures Checksum(body) != 255 ==> Stale(buffer, all) == Stale(body, left)
  {
  }

  lemma TryFull(all: seq<byte>, i: nat, rest: seq<byte>)
    requires i == Find(all, DOLLAR) < |all| && rest == all[i + 1..] && Find(rest, HASH) >= BUF_MAX
    ensures TryPacket(all) == Full(Masked(rest[..BUF_MAX]), i + 1 + BUF_MAX)
  {
  }

  lemma FullEnds(all: seq<byte>, body: seq<byte>, used: nat, left: seq<byte>, buffer: seq<byte>, sent: seq<byte>)
    requires TryPacket(all) == Full(body, used) && left == all[used..] && |buffer| == BUF_MAX && |left| == |all| - used
    ensures if Checksum(body) == 255 then Received(all, buffer, sent, left, body, sent)
            else Dropped(all, buffer, left, body)
  {
    FullPacket(all, body, used, left, buffer);
  }

  lemma BufferFull(all: seq<byte>, rest: seq<byte>, left: seq<byte>, buffer: seq<byte>, sent: seq<byte>)
    requires Find(all, DOLLAR) < |all| && rest == all[Find(all, DOLLAR) + 1..] && |buffer| == BUF_MAX
    requires Find(rest, HASH) >= BUF_MAX && left == rest[BUF_MAX..]
    ensures |left| < |all|
    ensures var body := Masked(rest[..BUF_MAX]);
            if Checksum(body) == 255 then Received(all, buffer, sent, left, body, sent)
            else Dropped(all, buffer, left, body)
  {
    var i := Find(all, DOLLAR);
    SliceTwice(all, i + 1, BUF_MAX);
    TryFull(all, i, rest);
    FullEnds(all, Masked(rest[..BUF_MAX]), i + 1 + BUF_MAX, left, buffer, sent);
  }

  lemma FilledStep(after: seq<byte>, p: seq<byte>, buffer: seq<byte>)
    requires |p| < |buffer| && after == (p + buffer[|p|..])[|p| := 0]
    ensures after == Filled(buffer, p)
  {
  }

  lemma LaterTwice(g: Got, a: nat, b: nat)
    ensures Later(Later(g, a), b) == Later(g, a + b)
  {
  }

  /** With none of the first k bytes the wanted one, the next byte decides. */
  lemma NextFound(s: seq<byte>, c: byte, k: nat)
    requires k < |s| && Find(s, c) >= k
    ensures if s[k] % 128 == c then Find(s, c) == k else Find(s, c) > k
  {
    if s[k] % 128 == c {
      FindAt(s, c, k);
    }
  }

  /** So many characters of a packet are in the buffer, and none of them was '#'. */
  ghost predicate BodyRead(all: seq<byte>, buffer: seq<byte>, count: nat, content: seq<byte>, checksum: byte) {
    && |buffer| == BUF_MAX && count <= BUF_MAX && count <= |all| && Find(all, HASH) >= count
    && content == Masked(all[..count]) + buffer[count..]
    && checksum == Checksum(Masked(all[..count]))
  }

  lemma MaskedStep(all: seq<byte>, count: nat)
    requires count < |all|
    ensures Masked(all[..count + 1]) == Masked(all[..count]) + One(all[count] % 128)
    ensures Checksum(Masked(all[..count + 1])) == (Checksum(Masked(all[..count])) + all[count] % 128) % 256
  {
    assert Masked(all[..count + 1]) == Masked(all[..count]) + One(all[count] % 128);
    ChecksumStep(Masked(all[..count]), all[count] % 128);
  }

  lemma ReplaceAt(m: seq<byte>, tail: seq<byte>, b: byte)
    requires tail != []
    ensures (m + tail)[|m| := b] == m + One(b) + tail[1..]
  {
  }

  lemma BodyStep(all: seq<byte>, buffer: seq<byte>, count: nat, content: seq<byte>, checksum: byte)
    requires BodyRead(all, buffer, count, content, checksum)
    requires count < |all| && count < BUF_MAX && all[count] % 128 != HASH
    ensures BodyRead(all, buffer, count + 1, content[count := all[count] % 128], (checksum + all[count] % 128) % 256)
  {
    NextFound(all, HASH, count);
    MaskedStep(all, count);
    ReplaceAt(Masked(all[..count]), buffer[count..], all[count] % 128);
    assert buffer[count..][1..] == buffer[count + 1..];
  }

  /** Some frames have been sent: what is sent in all is that and what is sent from here on. */
  ghost predicate Follows(r0: Put, r: Put, all: seq<byte>, sent: seq<byte>, left: seq<byte>, output: seq<byte>) {
    && r0.status == r.status && sent + r0.out == output + r.out
    && |left| <= |all| && left == all[|all| - |left|..] && r0.used == |all| - |left| + r.used && r.used <= |left|
  }

  /** The frame is finished as PutPacket says, or was answered by something else and is to be sent again. */
  ghost predicate SentOnce(p: seq<byte>, refused: set<nat>, all: seq<byte>, sent: seq<byte>, ok: bool, again: bool,
                           left: seq<byte>, output: seq<byte>) {
    if again then
      && Taken(p, |sent| + 1, refused) == |p| && all != [] && all[0] % 128 != PLUS
      && left == all[1..] && output == sent + Frame(p)
    else
      var r := PutPacket(p, |sent|, refused, all);
      (ok <==> r.status != NoAnswer) && output == sent + r.out && left == all[r.used..]
  }

  lemma Refused(p: seq<byte>, refused: set<nat>, all: seq<byte>, sent: seq<byte>)
    requires Taken(p, |sent| + 1, refused) < |p|
    ensures SentOnce(p, refused, all, sent, true, false, all, sent + (One(DOLLAR) + p[..Taken(p, |sent| + 1, refused) + 1]))
  {
    assert all[0..] == all;
  }

  lemma Answered(p: seq<byte>, refused: set<nat>, all: seq<byte>, sent: seq<byte>)
    requires Taken(p, |sent| + 1, refused) == |p|
    ensures if all == [] then SentOnce(p, refused, all, sent, false, false, [], sent + Frame(p))
            else SentOnce(p, refused, all, sent, true, all[0] % 128 != PLUS, all[1..], sent + Frame(p))
  {
  }

  lemma PutAgain(p: seq<byte>, at: nat, refused: set<nat>, input: seq<byte>)
    requires Taken(p, at + 1, refused) == |p| && input != [] && input[0] % 128 != PLUS
    ensures var r := PutPacket(p, at + |p| + 4, refused, input[1..]);
            PutPacket(p, at, refused, input) == Put(Frame(p) + r.out, 1 + r.used, r.status)
  {
  }

  lemma FollowsToEnd(r0: Put, r: Put, all: seq<byte>, sent: seq<byte>, left: seq<byte>, output: seq<byte>)
    requires Follows(r0, r, all, sent, left, output)
    ensures r0.used <= |all| && all[r0.used..] == left[r.used..]
  {
  }

  lemma FollowsAgain(r0: Put, now: Put, r: Put, f: seq<byte>, all: seq<byte>, sent: seq<byte>, left: seq<byte>, output: seq<byte>)
    requires Follows(r0, now, all, sent, left, output) && left != [] && r.used < |left|
    requires now == Put(f + r.out, 1 + r.used, r.status)
    ensures Follows(r0, r, all, sent, left[1..], output + f)
  {
    Regroup(output, f, r.out);
    NextSuffix(all, left);
  }

  lemma Regroup(a: seq<byte>, b: seq<byte>, d: seq<byte>)
    ensures a + (b + d) == a + b + d
  {
  }

  lemma NextSuffix(all: seq<byte>, left: seq<byte>)
    requires left != [] && |left| <= |all| && left == all[|all| - |left|..]
    ensures left[1..] == all[|all| - (|left| - 1)..]
  {
  }

  lemma AtNext(addr: nat, i: nat)
    ensures (At(addr, i) + 1) % SPACE == At(addr, i + 1)
  {
  }

  lemma ReadStep(mem: Memory, addr: nat, i: nat, s: seq<byte>, h: seq<byte>, h': seq<byte>)
    requires ReadBytes(mem, addr, i) == Some(s) && |s| == i && At(addr, i) in mem && h == HexOf(s)
    requires h' == h + [DigitToHex(mem[At(addr, i)] / 16), DigitToHex(mem[At(addr, i)] % 16)]
    ensures ReadBytes(mem, addr, i + 1) == Some(s + [mem[At(addr, i)]]) && h' == HexOf(s + [mem[At(addr, i)]])
  {
    assert (s + [mem[At(addr, i)]])[..i] == s;
  }

  lemma FrameParts(sent: seq<byte>, p: seq<byte>)
    ensures sent + One(DOLLAR) + p + One(HASH) + One(DigitToHex(Checksum(p) / 16)) + One(DigitToHex(Checksum(p) % 16))
            == sent + Frame(p)
  {
  }

  lemma HoldsAt(buffer: seq<byte>, p: seq<byte>, k: nat)
    requires Holds(buffer, p) && k <= |p|
    ensures buffer[k] != 0 <==> k < |p|
    ensures k < |p| ==> buffer[k] == p[k]
  {
    assert k < |p| ==> buffer[..|p|][k] == p[k];
  }

  lemma HoldsHex(buffer: seq<byte>, s: seq<byte>)
    requires 2 * |s| < |buffer| && buffer[..2 * |s|] == HexOf(s) && buffer[2 * |s|] == 0
    ensures Holds(buffer, HexOf(s))
  {
    HexIsPlain(s);
  }

  lemma {:induction false} FromHexPrefix(buffer: seq<byte>, at: nat, i: nat, n: nat)
    requires i <= n && at + 2 * n <= |buffer|
    ensures FromHex(buffer, at, n)[..i] == FromHex(buffer, at, i)
    decreases n
  {
    if i < n {
      FromHexPrefix(buffer, at, i, n - 1);
    }
  }

  /** The first i bytes of a write have been stored, or a fault has ended the whole write. */
  ghost predicate Stored(before: Memory, addr: nat, buffer: seq<byte>, at: nat, i: nat, n: nat, ok: bool, now: Memory) {
    && i <= n && at + 2 * n <= |buffer|
    && WriteBytes(before, addr, FromHex(buffer, at, if ok then i else n)) == (now, ok)
  }

  /** Storing one more byte; a fault there ends the whole write. */
  lemma StoreStep(before: Memory, now: Memory, addr: nat, buffer: seq<byte>, at: nat, i: nat, n: nat)
    requires i < n && Stored(before, addr, buffer, at, i, n, true, now)
    ensures var c := Pair(HexToDigit(buffer[at + 2 * i]), HexToDigit(buffer[at + 2 * i + 1]));
            if At(addr, i) in now then Stored(before, addr, buffer, at, i + 1, n, true, now[At(addr, i) := c])
            else Stored(before, addr, buffer, at, i, n, false, now)
  {
    if At(addr, i) in now {
      StoredMore(before, now, addr, buffer, at, i);
    } else {
      WriteSucceedsIff(before, addr, FromHex(buffer, at, i));
      WriteStopsAtFault(before, addr, FromHex(buffer, at, n), i);
      FromHexPrefix(buffer, at, i, n);
    }
  }

  lemma StoredMore(before: Memory, now: Memory, addr: nat, buffer: seq<byte>, at: nat, i: nat)
    requires at + 2 * i + 2 <= |buffer| && At(addr, i) in now
    requires WriteBytes(before, addr, FromHex(buffer, at, i)) == (now, true)
    ensures var c := Pair(HexToDigit(buffer[at + 2 * i]), HexToDigit(buffer[at + 2 * i + 1]));
            WriteBytes(before, addr, FromHex(buffer, at, i + 1)) == (now[At(addr, i) := c], true)
  {
    var d := FromHex(buffer, at, i + 1);
    assert d[..i] == FromHex(buffer, at, i);
  }

  lemma AckedAtOnce(p: seq<byte>, at: nat, tail: seq<byte>)
    ensures PutPacket(p, at, {}, One(PLUS) + tail) == Put(Frame(p), 1, Acked)
  {
    SentUntilAcked(p, at, One(PLUS) + tail);
    FindAt(One(PLUS) + tail, PLUS, 0);
    assert Frame(p) + [] == Frame(p);
    assert Repeat(Frame(p), 1) == Frame(p) + Repeat(Frame(p), 0);
  }

  lemma NothingStale(buffer: seq<byte>, noise: seq<byte>, p: seq<byte>, tail: seq<byte>)
    requires |buffer| == BUF_MAX && NoDollar(noise) && Plain(p) && |p| < BUF_MAX
    ensures Stale(buffer, noise + Frame(p) + tail) == buffer
  {
    var input := noise + Frame(p) + tail;
    FindAt(input, DOLLAR, |noise|);
    var rest := input[|noise| + 1..];
    assert forall i :: 0 <= i < |p| ==> rest[i] == p[i];
    FindAt(rest, HASH, |p|);
  }

  lemma After(a: seq<byte>, b: seq<byte>, d: seq<byte>)
    ensures (a + b + d)[|a| + |b|..] == d
  {
  }

  lemma Arrival(buffer: seq<byte>, noise: seq<byte>, p: seq<byte>, rest: seq<byte>, input: seq<byte>)
    requires |buffer| == BUF_MAX && NoDollar(noise) && Plain(p) && |p| < BUF_MAX && input == noise + Frame(p) + rest
    ensures GetPacket(input) == Packet(p, |noise| + |p| + 4) && Stale(buffer, input) == buffer
    ensures input[|noise| + |p| + 4..] == rest
  {
    FrameIsReceived(noise, p, rest);
    NothingStale(buffer, noise, p, rest);
    After(noise, Frame(p), rest);
  }

  /** A frame after noise: the turn is that of its payload. */
  lemma TurnOfFrame(mem: Memory, buffer: seq<byte>, at: nat, noise: seq<byte>, p: seq<byte>, rest: seq<byte>, input: seq<byte>)
    requires |buffer| == BUF_MAX && NoDollar(noise) && Plain(p) && |p| < BUF_MAX && input == noise + Frame(p) + rest
    ensures |noise| + |p| + 4 <= |input| && input[|noise| + |p| + 4..] == rest
    ensures TurnOf(mem, buffer, at, {}, input)
            == TurnAfter(React(mem, Filled(buffer, p)), Filled(buffer, p), at, {}, input, |noise| + |p| + 4)
  {
    Arrival(buffer, noise, p, rest, input);
  }

  /** A reply that is acknowledged at once is sent once. */
  lemma TurnWhenAcked(m: Memory, reply: seq<byte>, b: seq<byte>, at: nat, input: seq<byte>, used: nat, tail: seq<byte>)
    requires used <= |input| && input[used..] == One(PLUS) + tail
    ensures TurnAfter(Reaction(m, reply), b, at, {}, input, used) == Turned(m, b, One(PLUS) + Frame(reply), used + 1)
  {
    AckedAtOnce(reply, at + 1, tail);
  }

  /** A frame followed by '+': the command is carried out and its reply sent once. */
  lemma OneTurn(mem: Memory, buffer: seq<byte>, at: nat, noise: seq<byte>, p: seq<byte>, tail: seq<byte>, b: seq<byte>, m: Memory,
                reply: seq<byte>, input: seq<byte>)
    requires |buffer| == BUF_MAX && NoDollar(noise) && Plain(p) && |p| < BUF_MAX && b == Filled(buffer, p)
    requires React(mem, b) == Reaction(m, reply) && input == noise + Frame(p) + (One(PLUS) + tail)
    ensures TurnOf(mem, buffer, at, {}, input) == Turned(m, b, One(PLUS) + Frame(reply), |noise| + |p| + 5)
  {
    TurnOfFrame(mem, buffer, at, noise, p, One(PLUS) + tail, input);
    TurnWhenAcked(m, reply, b, at, input, |noise| + |p| + 4, tail);
  }

  lemma HeadIsPlain(c: byte, a: seq<byte>, l: seq<byte>)
    requires c < 128 && c != HASH && AreDigits(a) && AreDigits(l)
    ensures Plain(Head(c, a, l))
  {
  }

  lemma WriteTextIsPlain(a: seq<byte>, l: seq<byte>, data: seq<byte>)
    requires AreDigits(a) && AreDigits(l)
    ensures Plain(WriteText(a, l, data))
  {
    HeadIsPlain(WRITE_LETTER, a, l);
    HexIsPlain(data);
  }

  /** Well-formed arguments: hex numbers, with the length of the data, all in the buffer's reach. */
  ghost predicate WellFormed(a: seq<byte>, l: seq<byte>, data: seq<byte>) {
    && AreDigits(a) && AreDigits(l) && a != [] && l != [] && Value(l) == |data|
    && 2 * |data| < BUF_MAX && |WriteText(a, l, data)| < BUF_MAX
  }

  lemma WriteTurn(mem: Memory, buffer: seq<byte>, a: seq<byte>, l: seq<byte>, data: seq<byte>, noise: seq<byte>, tail: seq<byte>)
    requires |buffer| == BUF_MAX && NoDollar(noise) && WellFormed(a, l, data)
    requires Accessible(mem, Value(a), |data|)
    ensures TurnOf(mem, buffer, 0, {}, noise + Frame(WriteText(a, l, data)) + (One(PLUS) + tail))
            == Turned(WriteBytes(mem, Value(a), data).0, Filled(buffer, WriteText(a, l, data)),
                      One(PLUS) + Frame(ReturnPacket(if At(Value(a), |data|) != 0 then 0 else 3)),
                      |noise| + |WriteText(a, l, data)| + 5)
  {
    WriteTextIsPlain(a, l, data);
    WriteReply(mem, buffer, a, l, data);
    OneTurn(mem, buffer, 0, noise, WriteText(a, l, data), tail, Filled(buffer, WriteText(a, l, data)), WriteBytes(mem, Value(a), data).0,
            ReturnPacket(if At(Value(a), |data|) != 0 then 0 else 3),
            noise + Frame(WriteText(a, l, data)) + (One(PLUS) + tail));
  }

  /** What was written is read, whatever the command buffer holds. */
  lemma ReadTurn(mem: Memory, buffer: seq<byte>, at: nat, a: seq<byte>, l: seq<byte>, data: seq<byte>, noise: seq<byte>, tail: seq<byte>)
    requires |buffer| == BUF_MAX && NoDollar(noise) && WellFormed(a, l, data)
    requires Accessible(mem, Value(a), |data|)
    ensures var m := WriteBytes(mem, Value(a), data).0;
            && |ReadText(a, l)| < BUF_MAX
            && TurnOf(m, buffer, at, {}, noise + Frame(ReadText(a, l)) + (One(PLUS) + tail))
               == Turned(m, Filled(buffer, ReadText(a, l)), One(PLUS) + Frame(HexOf(data)), |noise| + |ReadText(a, l)| + 5)
  {
    var m := WriteBytes(mem, Value(a), data).0;
    HeadIsPlain(READ_LETTER, a, l);
    ReadBack(mem, buffer, a, l, data);
    OneTurn(m, buffer, at, noise, ReadText(a, l), tail, Filled(buffer, ReadText(a, l)), m, HexOf(data),
            noise + Frame(ReadText(a, l)) + (One(PLUS) + tail));
  }

  /**
   A whole session: after any noise, a host frame that writes memory and then one that reads it back,
   each reply acknowledged at once. The first command stores the data, and is answered by OK unless it
   ends at address 0; the reply to the second carries the bytes of the first.
   */
  lemma Session(mem: Memory, buffer: seq<byte>, a: seq<byte>, l: seq<byte>, data: seq<byte>,
                n1: seq<byte>, n2: seq<byte>, tail: seq<byte>)
    requires |buffer| == BUF_MAX && NoDollar(n1) && NoDollar(n2) && WellFormed(a, l, data)
    requires Accessible(mem, Value(a), |data|)
    ensures var second := n2 + Frame(ReadText(a, l)) + (One(PLUS) + tail);
            var reply := ReturnPacket(if At(Value(a), |data|) != 0 then 0 else 3);
            var t1 := TurnOf(mem, buffer, 0, {}, n1 + Frame(WriteText(a, l, data)) + (One(PLUS) + second));
            && t1 == Turned(WriteBytes(mem, Value(a), data).0, Filled(buffer, WriteText(a, l, data)),
                            One(PLUS) + Frame(reply), |n1| + |WriteText(a, l, data)| + 5)
            && TurnOf(t1.mem, t1.buffer, |t1.out|, {}, second)
               == Turned(t1.mem, Filled(t1.buffer, ReadText(a, l)),
                         One(PLUS) + Frame(HexOf(data)), |n2| + |ReadText(a, l)| + 5)
  {
    WriteTurn(mem, buffer, a, l, data, n1, n2 + Frame(ReadText(a, l)) + (One(PLUS) + tail));
    var reply := ReturnPacket(if At(Value(a), |data|) != 0 then 0 else 3);
    ReadTurn(mem, Filled(buffer, WriteText(a, l, data)), 1 + |Frame(reply)|, a, l, data, n2, tail);
  }
}
