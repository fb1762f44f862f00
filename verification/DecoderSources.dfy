/**
 Rules for the sources of moves (DefaultDecoderGenerator.cc:2529-2612, 2692-2812 and 4745-4766):
 which output socket or short immediate drives a bus.
 */
module DecoderSources {
  import opened Wrappers
  import opened BitVectors
  import opened DecoderRules

  // ---------------------------------------------------------------------------------------
  // Generated rules
  // ---------------------------------------------------------------------------------------

  /** The sockets that get bus control rules, and whose control register is reset. */
  predicate HasBusControl(m: Machine, s: nat) {
    s < |m.sockets| && m.sockets[s].direction == Output && |m.sockets[s].segments| > 0 && m.sockets[s].ports > 0
  }

  /** The control pin of a bus is the first segment of the socket on that bus. */
  function PinFrom(segments: seq<nat>, b: nat, i: nat): (pin: nat)
    requires i <= |segments| && b in segments[i..]
    ensures i <= pin < |segments| && segments[pin] == b
    ensures forall j :: i <= j < pin ==> segments[j] != b
    decreases |segments| - i
  {
    if segments[i] == b then i else PinFrom(segments, b, i + 1)
  }

  function Pin(m: Machine, s: nat, b: nat): (pin: nat)
    requires s < |m.sockets| && b in m.sockets[s].segments
    ensures pin < |m.sockets[s].segments| && m.sockets[s].segments[pin] == b
  {
    PinFrom(m.sockets[s].segments, b, 0)
  }

  /** outputSocketCntrlPinForSegment: not available for other sockets and unconnected buses. */
  method OutputSocketCntrlPin(m: Machine, s: nat, b: nat) returns (r: Option<nat>)
    requires s < |m.sockets|
    ensures r == if m.sockets[s].direction == Output && b in m.sockets[s].segments then Some(Pin(m, s, b)) else None
  {
    if m.sockets[s].direction != Output {
      return None;
    }
    var i := 0;
    while i < |m.sockets[s].segments|
      invariant i <= |m.sockets[s].segments|
      invariant forall j :: 0 <= j < i ==> m.sockets[s].segments[j] != b
    {
      if m.sockets[s].segments[i] == b {
        return Some(i);
      }
      i := i + 1;
    }
    r := None;
  }

  function BusRule(m: Machine, s: nat, b: nat): Statement
    requires s < |m.sockets| && b < |m.buses| && b in m.sockets[s].segments && s in m.buses[b].sockets
  {
    var pin := BusPin(s, Pin(m, s, b));
    If(SourceTest(b, m.buses[b].sockets[s]), [Assign(pin, Constant(ONE))], [Assign(pin, Constant(ZERO))])
  }

  /** One rule for each of the first n buses the socket is connected to. */
  function SocketRules(m: Machine, s: nat, n: nat): seq<Statement>
    requires ValidMachine(m) && HasBusControl(m, s) && n <= |m.buses|
  {
    if n == 0 then []
    else SocketRules(m, s, n - 1) + if n - 1 in m.sockets[s].segments then [BusRule(m, s, n - 1)] else []
  }

  function OutputRules(m: Machine, n: nat): seq<Statement>
    requires ValidMachine(m) && n <= |m.sockets|
  {
    if n == 0 then []
    else OutputRules(m, n - 1) + if HasBusControl(m, n - 1) then SocketRules(m, n - 1, |m.buses|) else []
  }

  function ImmediateRule(m: Machine, b: nat): Statement
    requires b < |m.buses| && m.buses[b].immediate.Some?
  {
    var imm := m.buses[b].immediate.value;
    If(SourceTest(b, imm.test),
       [Assign(ImmediateControl(b), Constant(ONE)),
        Assign(ImmediateData(b), SourceBits(b, Range(imm.pos, imm.width), imm.signExtends, imm.busWidth))],
       [Assign(ImmediateControl(b), Constant(ZERO))])
  }

  function ImmediateRules(m: Machine, n: nat): seq<Statement>
    requires n <= |m.buses|
  {
    if n == 0 then []
    else ImmediateRules(m, n - 1) + if m.buses[n - 1].immediate.Some? then [ImmediateRule(m, n - 1)] else []
  }

  function SourceRules(m: Machine): seq<Statement>
    requires ValidMachine(m)
  {
    OutputRules(m, |m.sockets|) + ImmediateRules(m, |m.buses|)
  }

  method WriteBusControlRulesOfOutputSocket(m: Machine, s: nat) returns (rules: seq<Statement>)
    requires ValidMachine(m) && HasBusControl(m, s)
    ensures rules == SocketRules(m, s, |m.buses|)
  {
    rules := [];
    for b := 0 to |m.buses|
      invariant rules == SocketRules(m, s, b)
    {
      if b in m.sockets[s].segments {
        var pin := OutputSocketCntrlPin(m, s, b);
        assert s in m.buses[b].sockets by {
          assert m.sockets[s].segments[pin.value] == b;
        }
        var test := m.buses[b].sockets[s];
        rules := rules + [If(SourceTest(b, test),
                             [Assign(BusPin(s, pin.value), Constant(ONE))],
                             [Assign(BusPin(s, pin.value), Constant(ZERO))])];
      }
    }
  }

  method WriteRulesForSourceControlSignals(m: Machine) returns (rules: seq<Statement>)
    requires ValidMachine(m)
    ensures rules == SourceRules(m)
  {
    rules := [];
    for s := 0 to |m.sockets|
      invariant rules == OutputRules(m, s)
    {
      if m.sockets[s].direction == Output && |m.sockets[s].segments| > 0 && m.sockets[s].ports > 0 {
        var socketRules := WriteBusControlRulesOfOutputSocket(m, s);
        rules := rules + socketRules;
      }
    }
    for b := 0 to |m.buses|
      invariant rules == OutputRules(m, |m.sockets|) + ImmediateRules(m, b)
    {
      if m.buses[b].immediate.Some? {
        rules := rules + [ImmediateRule(m, b)];
      }
    }
  }

  // ---------------------------------------------------------------------------------------
  // Which rules there are
  // ---------------------------------------------------------------------------------------

  predicate Connected(m: Machine, s: nat, b: nat) {
    HasBusControl(m, s) && b in m.sockets[s].segments
  }

  lemma ConnectedIsEncoded(m: Machine, s: nat, b: nat)
    requires ValidMachine(m) && Connected(m, s, b)
    ensures b < |m.buses| && s in m.buses[b].sockets
  {
    var i :| 0 <= i < |m.sockets[s].segments| && m.sockets[s].segments[i] == b;
  }

  lemma {:induction false} SocketRuleIn(m: Machine, s: nat, n: nat, b: nat)
    requires ValidMachine(m) && b < n <= |m.buses| && Connected(m, s, b)
    ensures s in m.buses[b].sockets && BusRule(m, s, b) in SocketRules(m, s, n)
    decreases n
  {
    ConnectedIsEncoded(m, s, b);
    if b < n - 1 {
      SocketRuleIn(m, s, n - 1, b);
    }
  }

  lemma {:induction false} OutputRuleIn(m: Machine, n: nat, s: nat, b: nat)
    requires ValidMachine(m) && s < n <= |m.sockets| && Connected(m, s, b)
    ensures b < |m.buses| && s in m.buses[b].sockets && BusRule(m, s, b) in OutputRules(m, n)
    decreases n
  {
    ConnectedIsEncoded(m, s, b);
    if s < n - 1 {
      OutputRuleIn(m, n - 1, s, b);
    } else {
      SocketRuleIn(m, s, |m.buses|, b);
    }
  }

  lemma {:induction false} ImmediateRuleIn(m: Machine, n: nat, b: nat)
    requires b < n <= |m.buses| && m.buses[b].immediate.Some?
    ensures ImmediateRule(m, b) in ImmediateRules(m, n)
    decreases n
  {
    if b < n - 1 {
      ImmediateRuleIn(m, n - 1, b);
    }
  }

  ghost predicate IsBusRule(m: Machine, r: Statement, s: nat, b: nat)
    requires ValidMachine(m)
  {
    Connected(m, s, b) && b < |m.buses| && s in m.buses[b].sockets && r == BusRule(m, s, b)
  }

  ghost predicate IsImmediateRule(m: Machine, r: Statement, b: nat) {
    b < |m.buses| && m.buses[b].immediate.Some? && r == ImmediateRule(m, b)
  }

  lemma {:induction false} OnlySocketRules(m: Machine, s: nat, n: nat, r: Statement) returns (b: nat)
    requires ValidMachine(m) && HasBusControl(m, s) && n <= |m.buses| && r in SocketRules(m, s, n)
    ensures IsBusRule(m, r, s, b)
    decreases n
  {
    if r in SocketRules(m, s, n - 1) {
      b := OnlySocketRules(m, s, n - 1, r);
    } else {
      b := n - 1;
    }
  }

  lemma {:induction false} OnlyOutputRules(m: Machine, n: nat, r: Statement) returns (s: nat, b: nat)
    requires ValidMachine(m) && n <= |m.sockets| && r in OutputRules(m, n)
    ensures IsBusRule(m, r, s, b)
    decreases n
  {
    if r in OutputRules(m, n - 1) {
      s, b := OnlyOutputRules(m, n - 1, r);
    } else {
      s := n - 1;
      b := OnlySocketRules(m, s, |m.buses|, r);
    }
  }

  lemma {:induction false} OnlyImmediateRules(m: Machine, n: nat, r: Statement) returns (b: nat)
    requires n <= |m.buses| && r in ImmediateRules(m, n)
    ensures IsImmediateRule(m, r, b)
    decreases n
  {
    if r in ImmediateRules(m, n - 1) {
      b := OnlyImmediateRules(m, n - 1, r);
    } else {
      b := n - 1;
    }
  }

  // ---------------------------------------------------------------------------------------
  // What the rules compute
  // ---------------------------------------------------------------------------------------

  /** If one statement is the only writer of a signal and decides its value, the list does. */
  lemma {:induction false} SoleWriter(m: Machine, stmts: seq<Statement>, r: Statement, x: Signal, v: BitVector, env: Env, regs: Registers)
    requires ValidCycle(m, env) && r in stmts
    requires forall q :: q in stmts && WritesOne(q, x) ==> q == r
    requires forall before: Registers :: x in ExecOne(m, r, env, before) && ExecOne(m, r, env, before)[x] == v
    ensures var after := Exec(m, stmts, env, regs);
            x in after && after[x] == v
    decreases |stmts|
  {
    var n := |stmts| - 1;
    var before := Exec(m, stmts[..n], env, regs);
    if stmts[n] == r {
      assert x in ExecOne(m, r, env, before);
    } else {
      SoleWriter(m, stmts[..n], r, x, v, env, regs);
      UnwrittenOne(m, stmts[n], env, before, x);
    }
  }

  function Level(b: bool): BitVector {
    if b then ONE else ZERO
  }

  lemma ExecSingle(m: Machine, target: Signal, value: Value, env: Env, regs: Registers)
    requires ValidCycle(m, env)
    ensures Exec(m, [Assign(target, value)], env, regs) == regs[target := EvalValue(m, env, value)]
  {
    ExecAppend(m, [], Assign(target, value), env, regs);
  }

  lemma WritesSingle(target: Signal, value: Value, x: Signal)
    ensures Writes([Assign(target, value)], x) <==> target == x
  {
  }

  lemma BusRuleEffect(m: Machine, s: nat, b: nat, env: Env, regs: Registers)
    requires ValidCycle(m, env) && Connected(m, s, b)
    requires b < |m.buses| && s in m.buses[b].sockets
    ensures ExecOne(m, BusRule(m, s, b), env, regs)
            == regs[BusPin(s, Pin(m, s, b)) := Level(EvalCondition(m, env, SourceTest(b, m.buses[b].sockets[s])))]
  {
    ExecSingle(m, BusPin(s, Pin(m, s, b)), Constant(ONE), env, regs);
    ExecSingle(m, BusPin(s, Pin(m, s, b)), Constant(ZERO), env, regs);
  }

  lemma BusRuleWrites(m: Machine, s: nat, b: nat, x: Signal)
    requires ValidMachine(m) && Connected(m, s, b) && b < |m.buses| && s in m.buses[b].sockets
    ensures WritesOne(BusRule(m, s, b), x) <==> x == BusPin(s, Pin(m, s, b))
  {
    WritesSingle(BusPin(s, Pin(m, s, b)), Constant(ONE), x);
    WritesSingle(BusPin(s, Pin(m, s, b)), Constant(ZERO), x);
  }

  lemma ImmediateRuleWrites(m: Machine, b: nat, x: Signal)
    requires b < |m.buses| && m.buses[b].immediate.Some?
    ensures WritesOne(ImmediateRule(m, b), x) <==> x == ImmediateControl(b) || x == ImmediateData(b)
  {
    var r := ImmediateRule(m, b);
    assert r.thn == [r.thn[0]] + [r.thn[1]];
    WritesConcat([r.thn[0]], [r.thn[1]], x);
    WritesSingle(ImmediateControl(b), Constant(ONE), x);
    WritesSingle(ImmediateData(b), r.thn[1].value, x);
    WritesSingle(ImmediateControl(b), Constant(ZERO), x);
  }

  lemma ImmediateRuleEffect(m: Machine, b: nat, env: Env, regs: Registers)
    requires ValidCycle(m, env) && b < |m.buses| && m.buses[b].immediate.Some?
    ensures var after := ExecOne(m, ImmediateRule(m, b), env, regs);
            && ImmediateControl(b) in after
            && after[ImmediateControl(b)] == Level(EvalCondition(m, env, SourceTest(b, m.buses[b].immediate.value.test)))
  {
    var r := ImmediateRule(m, b);
    ExecSingle(m, ImmediateControl(b), Constant(ZERO), env, regs);
    ExecSingle(m, ImmediateControl(b), Constant(ONE), env, regs);
    assert r.thn == [r.thn[0]] + [r.thn[1]];
    ExecAppend(m, [r.thn[0]], r.thn[1], env, regs);
  }

  lemma OnlySourceRules(m: Machine, r: Statement) returns (isBus: bool, s: nat, b: nat)
    requires ValidMachine(m) && r in SourceRules(m)
    ensures if isBus then IsBusRule(m, r, s, b) else IsImmediateRule(m, r, b)
  {
    isBus := r in OutputRules(m, |m.sockets|);
    if isBus {
      s, b := OnlyOutputRules(m, |m.sockets|, r);
    } else {
      s := 0;
      b := OnlyImmediateRules(m, |m.buses|, r);
    }
  }

  /** Pins of one socket differ from bus to bus, so a pin has one rule. */
  lemma SolePinWriter(m: Machine, s: nat, b: nat, q: Statement)
    requires ValidMachine(m) && Connected(m, s, b) && q in SourceRules(m)
    requires WritesOne(q, BusPin(s, Pin(m, s, b)))
    ensures b < |m.buses| && s in m.buses[b].sockets && q == BusRule(m, s, b)
  {
    ConnectedIsEncoded(m, s, b);
    var x := BusPin(s, Pin(m, s, b));
    var isBus, s', b' := OnlySourceRules(m, q);
    if isBus {
      BusRuleWrites(m, s', b', x);
    } else {
      ImmediateRuleWrites(m, b', x);
    }
  }

  lemma SoleImmediateWriter(m: Machine, b: nat, q: Statement)
    requires ValidMachine(m) && b < |m.buses| && m.buses[b].immediate.Some? && q in SourceRules(m)
    requires WritesOne(q, ImmediateControl(b))
    ensures q == ImmediateRule(m, b)
  {
    var isBus, s', b' := OnlySourceRules(m, q);
    if isBus {
      BusRuleWrites(m, s', b', ImmediateControl(b));
    } else {
      ImmediateRuleWrites(m, b', ImmediateControl(b));
    }
  }

  /** The control pin of a bus is set exactly when the move on the bus is not squashed and its
      source field names the socket. */
  lemma PinAfterDecoding(m: Machine, s: nat, b: nat, env: Env, regs: Registers)
    requires ValidCycle(m, env) && Connected(m, s, b)
    ensures b < |m.buses| && s in m.buses[b].sockets
    ensures var after, x := Exec(m, SourceRules(m), env, regs), BusPin(s, Pin(m, s, b));
            x in after && after[x] == Level(EvalCondition(m, env, SourceTest(b, m.buses[b].sockets[s])))
  {
    OutputRuleIn(m, |m.sockets|, s, b);
    var x, v := BusPin(s, Pin(m, s, b)), Level(EvalCondition(m, env, SourceTest(b, m.buses[b].sockets[s])));
    forall q | q in SourceRules(m) && WritesOne(q, x)
      ensures q == BusRule(m, s, b)
    {
      SolePinWriter(m, s, b, q);
    }
    forall before: Registers
      ensures var after := ExecOne(m, BusRule(m, s, b), env, before); x in after && after[x] == v
    {
      BusRuleEffect(m, s, b, env, before);
    }
    SoleWriter(m, SourceRules(m), BusRule(m, s, b), x, v, env, regs);
  }

  lemma ImmediateAfterDecoding(m: Machine, b: nat, env: Env, regs: Registers)
    requires ValidCycle(m, env) && b < |m.buses| && m.buses[b].immediate.Some?
    ensures var after, x := Exec(m, SourceRules(m), env, regs), ImmediateControl(b);
            && x in after
            && after[x] == Level(EvalCondition(m, env, SourceTest(b, m.buses[b].immediate.value.test)))
  {
    ImmediateRuleIn(m, |m.buses|, b);
    var x, v := ImmediateControl(b), Level(EvalCondition(m, env, SourceTest(b, m.buses[b].immediate.value.test)));
    forall q | q in SourceRules(m) && WritesOne(q, x)
      ensures q == ImmediateRule(m, b)
    {
      SoleImmediateWriter(m, b, q);
    }
    forall before: Registers
      ensures var after := ExecOne(m, ImmediateRule(m, b), env, before); x in after && after[x] == v
    {
      ImmediateRuleEffect(m, b, env, before);
    }
    SoleWriter(m, SourceRules(m), ImmediateRule(m, b), x, v, env, regs);
  }

  lemma ImmediateRuleData(m: Machine, b: nat, env: Env, regs: Registers)
    requires ValidCycle(m, env) && b < |m.buses| && m.buses[b].immediate.Some?
    ensures var after, x, imm := ExecOne(m, ImmediateRule(m, b), env, regs), ImmediateData(b), m.buses[b].immediate.value;
            if EvalCondition(m, env, SourceTest(b, imm.test)) then
              x in after && after[x] == CutAndResize(SourceField(m, env, b), Range(imm.pos, imm.width), imm.signExtends, imm.busWidth)
            else SameAt(after, regs, x)
  {
    var r := ImmediateRule(m, b);
    ExecSingle(m, ImmediateControl(b), Constant(ZERO), env, regs);
    ExecSingle(m, ImmediateControl(b), Constant(ONE), env, regs);
    assert r.thn == [r.thn[0]] + [r.thn[1]];
    ExecAppend(m, [r.thn[0]], r.thn[1], env, regs);
  }

  lemma SoleDataWriter(m: Machine, b: nat, q: Statement)
    requires ValidMachine(m) && b < |m.buses| && m.buses[b].immediate.Some? && q in SourceRules(m)
    requires WritesOne(q, ImmediateData(b))
    ensures q == ImmediateRule(m, b)
  {
    var isBus, s', b' := OnlySourceRules(m, q);
    if isBus {
      BusRuleWrites(m, s', b', ImmediateData(b));
    } else {
      ImmediateRuleWrites(m, b', ImmediateData(b));
    }
  }

  /** A signal that no statement changes is not changed by the list. */
  lemma {:induction false} NoneChanges(m: Machine, stmts: seq<Statement>, x: Signal, env: Env, regs: Registers)
    requires ValidCycle(m, env)
    requires forall q, before: Registers :: q in stmts ==> SameAt(ExecOne(m, q, env, before), before, x)
    ensures SameAt(Exec(m, stmts, env, regs), regs, x)
    decreases |stmts|
  {
    if stmts != [] {
      NoneChanges(m, stmts[..|stmts| - 1], x, env, regs);
      assert stmts[|stmts| - 1] in stmts;
    }
  }

  /** The data of a short immediate: cut from the source field if the move happens, kept otherwise. */
  lemma DataAfterDecoding(m: Machine, b: nat, env: Env, regs: Registers)
    requires ValidCycle(m, env) && b < |m.buses| && m.buses[b].immediate.Some?
    ensures var after, x, imm := Exec(m, SourceRules(m), env, regs), ImmediateData(b), m.buses[b].immediate.value;
            if EvalCondition(m, env, SourceTest(b, imm.test)) then
              x in after && after[x] == CutAndResize(SourceField(m, env, b), Range(imm.pos, imm.width), imm.signExtends, imm.busWidth)
            else SameAt(after, regs, x)
  {
    var x, imm := ImmediateData(b), m.buses[b].immediate.value;
    forall q | q in SourceRules(m) && WritesOne(q, x)
      ensures q == ImmediateRule(m, b)
    {
      SoleDataWriter(m, b, q);
    }
    if EvalCondition(m, env, SourceTest(b, imm.test)) {
      ImmediateRuleIn(m, |m.buses|, b);
      var v := CutAndResize(SourceField(m, env, b), Range(imm.pos, imm.width), imm.signExtends, imm.busWidth);
      forall before: Registers
        ensures var after := ExecOne(m, ImmediateRule(m, b), env, before); x in after && after[x] == v
      {
        ImmediateRuleData(m, b, env, before);
      }
      SoleWriter(m, SourceRules(m), ImmediateRule(m, b), x, v, env, regs);
    } else {
      forall q, before: Registers | q in SourceRules(m)
        ensures SameAt(ExecOne(m, q, env, before), before, x)
      {
        if WritesOne(q, x) {
          ImmediateRuleData(m, b, env, before);
        } else {
          UnwrittenOne(m, q, env, before, x);
        }
      }
      NoneChanges(m, SourceRules(m), x, env, regs);
    }
  }

  /** Pins that are not the control pin of any bus are left alone. */
  lemma OtherPinsUntouched(m: Machine, x: Signal)
    requires ValidMachine(m)
    requires forall s, b :: Connected(m, s, b) ==> x != BusPin(s, Pin(m, s, b))
    requires x.BusPin?
    ensures !Writes(SourceRules(m), x)
  {
    forall q | q in SourceRules(m)
      ensures !WritesOne(q, x)
    {
      var isBus, s, b := OnlySourceRules(m, q);
      if isBus {
        BusRuleWrites(m, s, b, x);
      } else {
        ImmediateRuleWrites(m, b, x);
      }
    }
    NoWriter(SourceRules(m), x);
  }

  /** Source rules write control pins and the registers of short immediates only. */
  lemma OtherSignalsUntouched(m: Machine, x: Signal)
    requires ValidMachine(m) && !x.BusPin? && !x.ImmediateControl? && !x.ImmediateData?
    ensures !Writes(SourceRules(m), x)
  {
    forall q | q in SourceRules(m)
      ensures !WritesOne(q, x)
    {
      var isBus, s, b := OnlySourceRules(m, q);
      if isBus {
        BusRuleWrites(m, s, b, x);
      } else {
        ImmediateRuleWrites(m, b, x);
      }
    }
    NoWriter(SourceRules(m), x);
  }

  lemma {:induction false} NoWriter(stmts: seq<Statement>, x: Signal)
    requires forall q :: q in stmts ==> !WritesOne(q, x)
    ensures !Writes(stmts, x)
    decreases |stmts|
  {
    if stmts != [] {
      NoWriter(stmts[..|stmts| - 1], x);
    }
  }
}
