/**
 The registers after a reset (tce/icdecoder_plugins/DefaultDecoderGenerator.cc:2299-2430 and
 1742-1850): which of them are cleared, at which width, and that no other changes.
 */
module DecoderResets {
  import opened Wrappers
  import opened BitVectors
  import opened DecoderRules
  import opened DecoderSources
  import opened DecoderDestinations
  import opened DecoderProcess
  import I = DecoderImmediates

  /** The main process clears this register, which has this width. */
  ghost predicate MainClears(d: Decoder, x: Signal, width: nat) {
    var sockets, buses := d.m.sockets, d.m.buses;
    match x
    case BusPin(s, i) =>
      && s < |sockets| && sockets[s].direction == Output && sockets[s].ports > 0
      && i < |sockets[s].segments| && width == 1
    case InputSocketControl(s) =>
      && s < |sockets| && sockets[s].direction == Input && sockets[s].ports > 0
      && |sockets[s].segments| > 1 && width == RequiredBits(|sockets[s].segments| - 1)
    case ImmediateControl(b) => b < |buses| && buses[b].immediate.Some? && width == 1
    case ImmediateData(b) => b < |buses| && buses[b].immediate.Some? && width == buses[b].immediate.value.busWidth
    case FuLoad(fu, port) => width == 1 && exists j :: 0 <= j < |d.ports| && d.ports[j].fu == fu && d.ports[j].port == port
    case FuOpcode(fu) =>
      (fu == d.gcu && width == 1) || exists j :: 0 <= j < |d.ports| && d.ports[j].fu == fu && d.ports[j].opcodeWidth == width
    case _ => false
  }

  /** The long immediate process clears this register. */
  ghost predicate UnitClears(d: Decoder, x: Signal, width: nat) {
    match x
    case IuLoad(i) => i < |d.units| && width == 1
    case IuData(i) => i < |d.units| && width == d.units[i].width
    case IuOpcode(i) => i < |d.units| && width == d.units[i].opcodeWidth
    case _ => false
  }

  ghost predicate Clears(d: Decoder, x: Signal, width: nat) {
    MainClears(d, x, width) || UnitClears(d, x, width)
  }

  // ---------------------------------------------------------------------------------------
  // Which registers are cleared
  // ---------------------------------------------------------------------------------------

  lemma ClearedIs(x: Signal, v: nat, y: Signal, w: nat)
    ensures Cleared(x, v) == Cleared(y, w) <==> x == y && v == w
  {
    assert |I.Zeros(v)| == v && |I.Zeros(w)| == w;
  }

  lemma {:induction false} PinsIn(m: Machine, s: nat, n: nat, x: Signal, w: nat)
    ensures Cleared(x, w) in PinResets(m, s, n) <==> x.BusPin? && x.socket == s && x.pin < n && w == 1
    decreases n
  {
    if n > 0 {
      PinsIn(m, s, n - 1, x, w);
      ClearedIs(x, w, BusPin(s, n - 1), 1);
    }
  }

  ghost predicate OfSocket(x: Signal, s: nat) {
    (x.BusPin? || x.InputSocketControl?) && x.socket == s
  }

  lemma SocketIn(d: Decoder, s: nat, x: Signal, w: nat)
    requires s < |d.m.sockets|
    ensures Cleared(x, w) in SocketReset(d.m, s) <==> OfSocket(x, s) && MainClears(d, x, w)
  {
    PinsIn(d.m, s, |d.m.sockets[s].segments|, x, w);
    if ChoosesBus(d.m, s) {
      ClearedIs(x, w, InputSocketControl(s), RequiredBits(|d.m.sockets[s].segments| - 1));
    }
  }

  lemma {:induction false} JoinedIn(parts: seq<seq<Statement>>, statement: Statement)
    ensures statement in Joined(parts) <==> exists s :: 0 <= s < |parts| && statement in parts[s]
    decreases |parts|
  {
    if parts != [] {
      var n := |parts| - 1;
      JoinedIn(parts[..n], statement);
      assert forall s :: 0 <= s < n ==> parts[..n][s] == parts[s];
    }
  }

  lemma SocketsIn(d: Decoder, x: Signal, w: nat)
    ensures Cleared(x, w) in SocketResets(d.m) <==> (x.BusPin? || x.InputSocketControl?) && MainClears(d, x, w)
  {
    var parts := SocketParts(d.m);
    JoinedIn(parts, Cleared(x, w));
    forall s | 0 <= s < |parts|
      ensures Cleared(x, w) in parts[s] <==> OfSocket(x, s) && MainClears(d, x, w)
    {
      SocketIn(d, s, x, w);
    }
    if MainClears(d, x, w) && (x.BusPin? || x.InputSocketControl?) {
      assert OfSocket(x, x.socket) && Cleared(x, w) in parts[x.socket];
    }
  }

  lemma {:induction false} ImmediatesIn(d: Decoder, n: nat, x: Signal, w: nat)
    requires n <= |d.m.buses|
    ensures Cleared(x, w) in ImmediateResets(d.m, n)
            <==> (x.ImmediateControl? || x.ImmediateData?) && x.bus < n && MainClears(d, x, w)
    decreases n
  {
    if n > 0 {
      ImmediatesIn(d, n - 1, x, w);
      match d.m.buses[n - 1].immediate {
        case None =>
        case Some(imm) =>
          ClearedIs(x, w, ImmediateControl(n - 1), 1);
          ClearedIs(x, w, ImmediateData(n - 1), imm.busWidth);
      }
    }
  }

  lemma {:induction false} PortsIn(d: Decoder, n: nat, x: Signal, w: nat)
    requires n <= |d.ports|
    ensures Cleared(x, w) in PortResets(d, n)
            <==> exists j :: 0 <= j < n && ((x == FuOpcode(d.ports[j].fu) && w == d.ports[j].opcodeWidth)
                                            || (x == FuLoad(d.ports[j].fu, d.ports[j].port) && w == 1))
    decreases n
  {
    if n > 0 {
      PortsIn(d, n - 1, x, w);
      ClearedIs(x, w, FuOpcode(d.ports[n - 1].fu), d.ports[n - 1].opcodeWidth);
      ClearedIs(x, w, FuLoad(d.ports[n - 1].fu, d.ports[n - 1].port), 1);
    }
  }

  lemma {:induction false} UnitsIn(d: Decoder, n: nat, x: Signal, w: nat)
    requires n <= |d.units|
    ensures Cleared(x, w) in UnitResets(d.units, n)
            <==> (x.IuLoad? || x.IuData? || x.IuOpcode?) && x.iu < n && UnitClears(d, x, w)
    decreases n
  {
    if n > 0 {
      UnitsIn(d, n - 1, x, w);
      ClearedIs(x, w, IuLoad(n - 1), 1);
      ClearedIs(x, w, IuData(n - 1), d.units[n - 1].width);
      ClearedIs(x, w, IuOpcode(n - 1), d.units[n - 1].opcodeWidth);
    }
  }

  lemma MainIn(d: Decoder, x: Signal, w: nat)
    ensures Cleared(x, w) in MainResets(d) <==> MainClears(d, x, w)
  {
    SocketsIn(d, x, w);
    ImmediatesIn(d, |d.m.buses|, x, w);
    PortsIn(d, |d.ports|, x, w);
    ClearedIs(x, w, FuOpcode(d.gcu), 1);
  }

  // ---------------------------------------------------------------------------------------
  // The state after a reset
  // ---------------------------------------------------------------------------------------

  ghost predicate IsLow(regs: Registers, x: Signal, width: nat) {
    x in regs && |regs[x]| == width && forall k :: 0 <= k < width ==> !regs[x][k]
  }

  lemma ExecClear(m: Machine, s: Statement, env: Env, regs: Registers, v: nat)
    requires ValidCycle(m, env) && s.Assign? && s.value == Constant(I.Zeros(v))
    ensures s == Cleared(s.target, v) && ExecOne(m, s, env, regs) == regs[s.target := I.Zeros(v)]
    ensures IsLow(ExecOne(m, s, env, regs), s.target, v)
  {
  }

  lemma LastStatement(stmts: seq<Statement>, s: Statement)
    requires stmts != []
    ensures s in stmts <==> s in stmts[..|stmts| - 1] || s == stmts[|stmts| - 1]
  {
    assert stmts == stmts[..|stmts| - 1] + [stmts[|stmts| - 1]];
  }

  ghost predicate OneWidth(stmts: seq<Statement>, x: Signal, w: nat) {
    forall v :: Cleared(x, v) in stmts ==> v == w
  }

  /** Clearing statements that give a register one width, or do not touch it. */
  lemma {:induction false} ExecClears(m: Machine, stmts: seq<Statement>, env: Env, regs: Registers, x: Signal, w: nat)
    requires ValidCycle(m, env) && OnlyClears(stmts) && OneWidth(stmts, x, w)
    ensures if Cleared(x, w) in stmts then IsLow(Exec(m, stmts, env, regs), x, w)
            else SameAt(Exec(m, stmts, env, regs), regs, x)
    decreases |stmts|
  {
    if stmts != [] {
      var n := |stmts| - 1;
      var before, v :| before == Exec(m, stmts[..n], env, regs) && stmts[n].value == Constant(I.Zeros(v));
      ExecClears(m, stmts[..n], env, regs, x, w);
      ExecClear(m, stmts[n], env, before, v);
      LastStatement(stmts, Cleared(x, w));
      ClearedIs(stmts[n].target, v, x, w);
      assert stmts[n].target == x ==> stmts[n] == Cleared(x, v) && Cleared(x, v) in stmts;
    }
  }

  lemma {:induction false} UnitResetsClear(units: seq<I.Unit>, n: nat)
    requires n <= |units|
    ensures OnlyClears(UnitResets(units, n))
    decreases n
  {
    if n > 0 {
      UnitResetsClear(units, n - 1);
      var u, i := units[n - 1], n - 1;
      ClearedOnly(IuLoad(i), 1);
      ClearedOnly(IuData(i), u.width);
      ClearedOnly(IuOpcode(i), u.opcodeWidth);
      ClearsConcat(UnitResets(units, n - 1), [Cleared(IuLoad(i), 1), Cleared(IuData(i), u.width), Cleared(IuOpcode(i), u.opcodeWidth)]);
    }
  }

  lemma ResetsClear(d: Decoder)
    ensures OnlyClears(MainResets(d) + UnitResets(d.units, |d.units|))
  {
    SocketResetsClear(d.m);
    ImmediateResetsClear(d.m, |d.m.buses|);
    PortResetsClear(d, |d.ports|);
    ClearedOnly(FuOpcode(d.gcu), 1);
    UnitResetsClear(d.units, |d.units|);
  }

  lemma ClearedIn(d: Decoder, x: Signal, w: nat)
    ensures Cleared(x, w) in MainResets(d) + UnitResets(d.units, |d.units|) <==> Clears(d, x, w)
  {
    MainIn(d, x, w);
    UnitsIn(d, |d.units|, x, w);
  }

  /**
   After a reset, from any state: every register that is reset, if its width is well defined, is
   all zeros and as wide as it should be; every other register is as it was.
   */
  lemma ResetClears(d: Decoder, regs: Registers, c: Cycle, x: Signal, w: nat)
    requires ValidDecoder(d) && ValidCycle(d.m, c.env) && c.reset && forall v :: Clears(d, x, v) ==> v == w
    ensures if Clears(d, x, w) then IsLow(Step(d, regs, c), x, w) else SameAt(Step(d, regs, c), regs, x)
  {
    var all := MainResets(d) + UnitResets(d.units, |d.units|);
    ExecConcat(d.m, MainResets(d), UnitResets(d.units, |d.units|), c.env, regs);
    ResetsClear(d);
    forall v
      ensures Cleared(x, v) in all <==> Clears(d, x, v)
    {
      ClearedIn(d, x, v);
    }
    ExecClears(d.m, all, c.env, regs, x, w);
  }
}
