/**
 The clocked processes of the decoder (DefaultDecoderGenerator.cc:1742-1850 and 2231-2500), and
 what holds in every run of them.
 */
module DecoderProcess {
  import opened Wrappers
  import opened BitVectors
  import opened DecoderRules
  import opened DecoderMeaning
  import opened DecoderSources
  import opened DecoderDestinations
  import I = DecoderImmediates

  /** `debugger` is set when the generator adds the debugger, which it does in VHDL only. */
  datatype Decoder = Decoder(m: Machine, ports: seq<FuPort>, gcu: nat, language: Language, debugger: bool,
                             templates: seq<I.Template>, units: seq<I.Unit>)

  ghost predicate ValidDecoder(d: Decoder) {
    && ValidMachine(d.m) && (d.debugger ==> d.language == VHDL)
    && forall i :: 0 <= i < |d.ports| ==> ValidPort(d.ports[i])
  }

  /** One clock cycle: reset and soft reset are given as active, lock as set. */
  datatype Cycle = Cycle(reset: bool, softReset: bool, lock: bool, env: Env)

  ghost predicate ValidCycles(d: Decoder, cycles: seq<Cycle>) {
    ValidDecoder(d) && forall i :: 0 <= i < |cycles| ==> |cycles[i].env.word| == d.m.wordWidth
  }

  // ---------------------------------------------------------------------------------------
  // Process bodies
  // ---------------------------------------------------------------------------------------

  function PortsRules(d: Decoder, n: nat): seq<Statement>
    requires n <= |d.ports| && forall i :: 0 <= i < |d.ports| ==> ValidPort(d.ports[i])
  {
    if n == 0 then [] else PortsRules(d, n - 1) + PortRules(d.language, d.ports[n - 1])
  }

  function MainRules(d: Decoder): seq<Statement>
    requires ValidMachine(d.m) && forall i :: 0 <= i < |d.ports| ==> ValidPort(d.ports[i])
  {
    SourceRules(d.m) + PortsRules(d, |d.ports|)
  }

  function Cleared(x: Signal, width: nat): Statement {
    Assign(x, Constant(I.Zeros(width)))
  }

  /** (others => '0') clears every pin of a socket. */
  function PinResets(m: Machine, s: nat, n: nat): seq<Statement> {
    if n == 0 then [] else PinResets(m, s, n - 1) + [Cleared(BusPin(s, n - 1), 1)]
  }

  /** An input socket on several buses has a register that chooses one of them. */
  predicate ChoosesBus(m: Machine, s: nat) {
    s < |m.sockets| && m.sockets[s].direction == Input && |m.sockets[s].segments| > 1 && m.sockets[s].ports > 0
  }

  function SocketReset(m: Machine, s: nat): seq<Statement>
    requires s < |m.sockets|
  {
    if HasBusControl(m, s) then PinResets(m, s, |m.sockets[s].segments|)
    else if ChoosesBus(m, s) then [Cleared(InputSocketControl(s), RequiredBits(|m.sockets[s].segments| - 1))]
    else []
  }

  /** The parts one after another. */
  function Joined(parts: seq<seq<Statement>>): seq<Statement> {
    if parts == [] then [] else Joined(parts[..|parts| - 1]) + parts[|parts| - 1]
  }

  function SocketParts(m: Machine): (parts: seq<seq<Statement>>)
    ensures |parts| == |m.sockets| && forall s :: 0 <= s < |parts| ==> parts[s] == SocketReset(m, s)
  {
    seq(|m.sockets|, s requires 0 <= s < |m.sockets| => SocketReset(m, s))
  }

  function SocketResets(m: Machine): seq<Statement> {
    Joined(SocketParts(m))
  }

  function ImmediateResets(m: Machine, n: nat): seq<Statement>
    requires n <= |m.buses|
  {
    if n == 0 then []
    else
      var rest := ImmediateResets(m, n - 1);
      match m.buses[n - 1].immediate
      case None => rest
      case Some(imm) => rest + [Cleared(ImmediateControl(n - 1), 1), Cleared(ImmediateData(n - 1), imm.busWidth)]
  }

  function PortResets(d: Decoder, n: nat): seq<Statement>
    requires n <= |d.ports|
  {
    if n == 0 then []
    else
      var p := d.ports[n - 1];
      PortResets(d, n - 1) + [Cleared(FuOpcode(p.fu), p.opcodeWidth), Cleared(FuLoad(p.fu, p.port), 1)]
  }

  function MainResets(d: Decoder): seq<Statement> {
    SocketResets(d.m) + ImmediateResets(d.m, |d.m.buses|) + PortResets(d, |d.ports|)
    + [Cleared(FuOpcode(d.gcu), 1)]
  }

  function UnitResets(units: seq<I.Unit>, n: nat): seq<Statement>
    requires n <= |units|
  {
    if n == 0 then []
    else
      UnitResets(units, n - 1)
      + [Cleared(IuLoad(n - 1), 1), Cleared(IuData(n - 1), units[n - 1].width), Cleared(IuOpcode(n - 1), units[n - 1].opcodeWidth)]
  }

  /** The main decoding process. */
  function MainStep(d: Decoder, regs: Registers, c: Cycle): Registers
    requires ValidCycle(d.m, c.env) && forall i :: 0 <= i < |d.ports| ==> ValidPort(d.ports[i])
  {
    if c.reset then Exec(d.m, MainResets(d), c.env, regs)
    else if d.debugger && c.softReset then Exec(d.m, MainResets(d), c.env, regs)
    else if !c.lock then Exec(d.m, MainRules(d), c.env, regs)
    else regs
  }

  /** The long immediate write process, which knows no soft reset. */
  function ImmediateStep(d: Decoder, regs: Registers, c: Cycle): Registers
    requires ValidCycle(d.m, c.env)
  {
    if c.reset then Exec(d.m, UnitResets(d.units, |d.units|), c.env, regs)
    else if !c.lock then Exec(d.m, I.ImmediateProcess(d.templates, d.units), c.env, regs)
    else regs
  }

  function Step(d: Decoder, regs: Registers, c: Cycle): Registers
    requires ValidCycle(d.m, c.env) && forall i :: 0 <= i < |d.ports| ==> ValidPort(d.ports[i])
  {
    ImmediateStep(d, MainStep(d, regs, c), c)
  }

  ghost function Run(d: Decoder, regs: Registers, cycles: seq<Cycle>): Registers
    requires ValidCycles(d, cycles)
  {
    if cycles == [] then regs
    else Step(d, Run(d, regs, cycles[..|cycles| - 1]), cycles[|cycles| - 1])
  }

  // ---------------------------------------------------------------------------------------
  // Drivers of a bus
  // ---------------------------------------------------------------------------------------

  datatype Source = FromSocket(socket: nat) | FromImmediate

  predicate IsHigh(regs: Registers, x: Signal) {
    x in regs && regs[x] == ONE
  }

  /** The interconnect puts a socket on a bus when the pin of a segment on that bus is set. */
  ghost predicate Drives(m: Machine, regs: Registers, x: Source, b: nat) {
    match x
    case FromSocket(s) =>
      HasBusControl(m, s)
      && exists i :: 0 <= i < |m.sockets[s].segments| && m.sockets[s].segments[i] == b && IsHigh(regs, BusPin(s, i))
    case FromImmediate =>
      b < |m.buses| && m.buses[b].immediate.Some? && IsHigh(regs, ImmediateControl(b))
  }

  /** The source field of the bus holds the code of this source. */
  predicate Names(m: Machine, b: nat, field: BitVector, x: Source)
    requires ValidMachine(m) && b < |m.buses| && |field| == m.buses[b].source.width
  {
    assert ValidBus(m, b);
    match x
    case FromSocket(s) => Connected(m, s, b) && s in m.buses[b].sockets && Holds(m.buses[b].sockets[s], field)
    case FromImmediate => m.buses[b].immediate.Some? && Holds(m.buses[b].immediate.value.test, field)
  }

  /** No source field names two sources. */
  ghost predicate Unambiguous(m: Machine)
    requires ValidMachine(m)
  {
    forall b: nat, field: BitVector, x, y ::
      b < |m.buses| && |field| == m.buses[b].source.width && Names(m, b, field, x) && Names(m, b, field, y) ==> x == y
  }

  ghost predicate Exclusive(m: Machine, regs: Registers) {
    forall b, x, y :: Drives(m, regs, x, b) && Drives(m, regs, y, b) ==> x == y
  }

  /** Second and later segments of a socket on one bus have no rule; their pins stay low. */
  ghost predicate SparePinsLow(m: Machine, regs: Registers) {
    forall s: nat, i: nat :: HasBusControl(m, s) && i < |m.sockets[s].segments| && Pin(m, s, m.sockets[s].segments[i]) != i ==>
      !IsHigh(regs, BusPin(s, i))
  }

  /** Not a register of the source rules. */
  predicate OtherSignal(x: Signal) {
    !x.BusPin? && !x.ImmediateControl?
  }

  lemma {:induction false} ChainWrites(branches: seq<Branch>, els: seq<Statement>, x: Signal)
    requires !Writes(els, x) && forall i :: 0 <= i < |branches| ==> !Writes(branches[i].body, x)
    ensures !Writes(Chain(branches, els), x)
    decreases |branches|
  {
    if branches != [] {
      ChainWrites(branches[1..], els, x);
      assert !Writes(branches[0].body, x);
      I.WritesOnly(Chain(branches, els)[0], x);
    }
  }

  lemma {:induction false} NoWriterIn(stmts: seq<Statement>, x: Signal)
    requires forall i :: 0 <= i < |stmts| ==> !WritesOne(stmts[i], x)
    ensures !Writes(stmts, x)
    decreases |stmts|
  {
    if stmts != [] {
      NoWriterIn(stmts[..|stmts| - 1], x);
    }
  }

  /** The port may give its unit an opcode. */
  predicate SetsOpcode(p: FuPort) {
    exists i :: 0 <= i < |p.routes| && RouteSetsOpcode(p.routes[i])
  }

  predicate RouteSetsOpcode(r: Route) {
    match r.codes
    case NoCodes(opcodes) => opcodes != []
    case SingleCode(_) => false
    case OpcodeSetting(_) => true
  }

  /** What the rules of a port can change. */
  predicate OfPort(x: Signal, p: FuPort) {
    x == FuLoad(p.fu, p.port) || x == InputSocketControl(p.socket) || (x == FuOpcode(p.fu) && SetsOpcode(p))
  }

  lemma LoadsWrite(lang: Language, p: FuPort, r: Route, x: Signal)
    requires ValidRoute(r) && x != FuLoad(p.fu, p.port) && (x == FuOpcode(p.fu) ==> !RouteSetsOpcode(r))
    ensures !Writes(LoadStatements(lang, p, r), x)
  {
    match r.codes
    case NoCodes(opcodes) =>
      NoWriterIn(LoadStatements(lang, p, r), x);
    case SingleCode(_) =>
      NoWriterIn(LoadStatements(lang, p, r), x);
    case OpcodeSetting(operations) =>
      NoWriterIn(DirectSlice(p, r.bus, operations[0]), x);
      NoWriterIn([SetLoad(p, false)], x);
      forall i | 0 <= i < |operations|
        ensures !Writes(OperationBranches(p, r.bus, operations)[i].body, x)
      {
        NoWriterIn(OperationBranches(p, r.bus, operations)[i].body, x);
      }
      ChainWrites(OperationBranches(p, r.bus, operations), [SetLoad(p, false)], x);
  }

  lemma PortWrites(lang: Language, p: FuPort, x: Signal)
    requires ValidPort(p) && !OfPort(x, p)
    ensures !Writes(PortRules(lang, p), x)
  {
    forall i | 0 <= i < |p.routes|
      ensures !Writes(RouteBranches(lang, p)[i].body, x)
    {
      var r := p.routes[i];
      assert ValidRoute(r);
      LoadsWrite(lang, p, r, x);
      NoWriterIn(ControlStatements(p, r), x);
      WritesConcat(LoadStatements(lang, p, r), ControlStatements(p, r), x);
    }
    NoWriterIn([SetLoad(p, false)], x);
    ChainWrites(RouteBranches(lang, p), [SetLoad(p, false)], x);
  }

  lemma {:induction false} PortsWrite(d: Decoder, n: nat, x: Signal)
    requires n <= |d.ports| && (forall i :: 0 <= i < |d.ports| ==> ValidPort(d.ports[i]))
    requires forall i :: 0 <= i < n ==> !OfPort(x, d.ports[i])
    ensures !Writes(PortsRules(d, n), x)
    decreases n
  {
    if n > 0 {
      assert PortsRules(d, n) == PortsRules(d, n - 1) + PortRules(d.language, d.ports[n - 1]);
      PortsWrite(d, n - 1, x);
      PortWrites(d.language, d.ports[n - 1], x);
      WritesConcat(PortsRules(d, n - 1), PortRules(d.language, d.ports[n - 1]), x);
    }
  }

  /** A register of an immediate unit. */
  predicate UnitSignal(x: Signal) {
    x.IuLoad? || x.IuOpcode? || x.IuData?
  }

  lemma OtherUnitSignal(t: I.Template, i: nat, u: I.Unit, x: Signal)
    requires !UnitSignal(x)
    ensures !Writes(I.UnitRules(t, i, u), x)
  {
    I.UnitRulesWrite(t, i, u, x);
  }

  lemma {:induction false} TemplateWrites(t: I.Template, units: seq<I.Unit>, n: nat, x: Signal)
    requires n <= |units| && !UnitSignal(x)
    ensures !Writes(I.TemplateRules(t, units, n), x)
    decreases n
  {
    if n > 0 {
      var rest, last := I.TemplateRules(t, units, n - 1), I.UnitRules(t, n - 1, units[n - 1]);
      TemplateWrites(t, units, n - 1, x);
      OtherUnitSignal(t, n - 1, units[n - 1], x);
      WritesConcat(rest, last, x);
      assert I.TemplateRules(t, units, n) == rest + last;
    }
  }

  lemma ImmediateProcessWrites(d: Decoder, x: Signal)
    requires !UnitSignal(x)
    ensures !Writes(I.ImmediateProcess(d.templates, d.units), x)
  {
    forall t
      ensures !Writes(I.TemplateRules(t, d.units, |d.units|), x)
    {
      TemplateWrites(t, d.units, |d.units|, x);
    }
    if d.templates != [] {
      var n := if |d.templates| == 1 then 1 else |d.templates| - 1;
      ChainWrites(I.TemplateBranches(d.templates, d.units, n), [], x);
      ChainWrites(I.TemplateBranches(d.templates, d.units, n),
                  I.TemplateRules(d.templates[|d.templates| - 1], d.units, |d.units|), x);
    }
  }

  lemma {:induction false} UnitResetsWrite(units: seq<I.Unit>, n: nat, x: Signal)
    requires n <= |units| && !OtherSignal(x)
    ensures !Writes(UnitResets(units, n), x)
    decreases n
  {
    if n > 0 {
      UnitResetsWrite(units, n - 1, x);
      var last := [Cleared(IuLoad(n - 1), 1), Cleared(IuData(n - 1), units[n - 1].width), Cleared(IuOpcode(n - 1), units[n - 1].opcodeWidth)];
      NoWriterIn(last, x);
      WritesConcat(UnitResets(units, n - 1), last, x);
    }
  }

  /** The long immediate process does not touch the drivers. */
  lemma ImmediateStepKeepsDrivers(d: Decoder, regs: Registers, c: Cycle, x: Signal)
    requires ValidCycle(d.m, c.env) && !OtherSignal(x)
    ensures SameAt(ImmediateStep(d, regs, c), regs, x)
  {
    UnitResetsWrite(d.units, |d.units|, x);
    ImmediateProcessWrites(d, x);
    Unwritten(d.m, UnitResets(d.units, |d.units|), c.env, regs, x);
    Unwritten(d.m, I.ImmediateProcess(d.templates, d.units), c.env, regs, x);
  }

  // ---------------------------------------------------------------------------------------
  // Decoding cycles
  // ---------------------------------------------------------------------------------------

  lemma DecodedLikeSources(d: Decoder, env: Env, regs: Registers, x: Signal)
    requires ValidDecoder(d) && ValidCycle(d.m, env) && !OtherSignal(x)
    ensures SameAt(Exec(d.m, MainRules(d), env, regs), Exec(d.m, SourceRules(d.m), env, regs), x)
  {
    ExecConcat(d.m, SourceRules(d.m), PortsRules(d, |d.ports|), env, regs);
    PortsWrite(d, |d.ports|, x);
    Unwritten(d.m, PortsRules(d, |d.ports|), env, Exec(d.m, SourceRules(d.m), env, regs), x);
  }

  lemma SparePinStaysLow(d: Decoder, env: Env, regs: Registers, s: nat, i: nat)
    requires ValidDecoder(d) && ValidCycle(d.m, env) && SparePinsLow(d.m, regs)
    requires HasBusControl(d.m, s) && i < |d.m.sockets[s].segments| && Pin(d.m, s, d.m.sockets[s].segments[i]) != i
    ensures !IsHigh(Exec(d.m, MainRules(d), env, regs), BusPin(s, i))
  {
    DecodedLikeSources(d, env, regs, BusPin(s, i));
    OtherPinsUntouched(d.m, BusPin(s, i));
    Unwritten(d.m, SourceRules(d.m), env, regs, BusPin(s, i));
  }

  /**
   After a decoding cycle a source drives a bus exactly when the move on the bus is not squashed
   and its source field names the source.
   */
  lemma DriversAfterDecoding(d: Decoder, env: Env, regs: Registers, b: nat, x: Source)
    requires ValidDecoder(d) && ValidCycle(d.m, env) && SparePinsLow(d.m, regs) && b < |d.m.buses|
    ensures Drives(d.m, Exec(d.m, MainRules(d), env, regs), x, b)
            <==> !IsSquashed(d.m, env, b) && Names(d.m, b, SourceField(d.m, env, b), x)
  {
    var after := Exec(d.m, MainRules(d), env, regs);
    assert ValidBus(d.m, b);
    match x {
      case FromSocket(s) =>
        if Connected(d.m, s, b) {
          PinAfterDecoding(d.m, s, b, env, regs);
          DecodedLikeSources(d, env, regs, BusPin(s, Pin(d.m, s, b)));
          OnlyItsPinDrives(d, env, regs, s, b);
        }
      case FromImmediate =>
        if d.m.buses[b].immediate.Some? {
          ImmediateAfterDecoding(d.m, b, env, regs);
          DecodedLikeSources(d, env, regs, ImmediateControl(b));
        }
    }
  }

  lemma OnlyItsPinDrives(d: Decoder, env: Env, regs: Registers, s: nat, b: nat)
    requires ValidDecoder(d) && ValidCycle(d.m, env) && SparePinsLow(d.m, regs) && Connected(d.m, s, b)
    ensures Drives(d.m, Exec(d.m, MainRules(d), env, regs), FromSocket(s), b)
            <==> IsHigh(Exec(d.m, MainRules(d), env, regs), BusPin(s, Pin(d.m, s, b)))
  {
    forall i | 0 <= i < |d.m.sockets[s].segments| && d.m.sockets[s].segments[i] == b && i != Pin(d.m, s, b)
      ensures !IsHigh(Exec(d.m, MainRules(d), env, regs), BusPin(s, i))
    {
      SparePinStaysLow(d, env, regs, s, i);
    }
  }

  lemma UnconnectedNeverDrives(m: Machine, regs: Registers, b: nat, x: Source)
    requires ValidMachine(m) && Drives(m, regs, x, b)
    ensures b < |m.buses|
  {
  }

  /** What every cycle keeps. */
  ghost predicate Safe(m: Machine, regs: Registers)
    requires ValidMachine(m)
  {
    SparePinsLow(m, regs) && (Unambiguous(m) ==> Exclusive(m, regs))
  }

  lemma DecodingKeepsInvariant(d: Decoder, env: Env, regs: Registers)
    requires ValidDecoder(d) && ValidCycle(d.m, env) && SparePinsLow(d.m, regs)
    ensures Safe(d.m, Exec(d.m, MainRules(d), env, regs))
  {
    var after := Exec(d.m, MainRules(d), env, regs);
    forall s: nat, i: nat | HasBusControl(d.m, s) && i < |d.m.sockets[s].segments| && Pin(d.m, s, d.m.sockets[s].segments[i]) != i
      ensures !IsHigh(after, BusPin(s, i))
    {
      SparePinStaysLow(d, env, regs, s, i);
    }
    forall b, x, y | Unambiguous(d.m) && Drives(d.m, after, x, b) && Drives(d.m, after, y, b)
      ensures x == y
    {
      UnconnectedNeverDrives(d.m, after, b, x);
      DriversAfterDecoding(d, env, regs, b, x);
      DriversAfterDecoding(d, env, regs, b, y);
    }
  }

  // ---------------------------------------------------------------------------------------
  // Reset cycles
  // ---------------------------------------------------------------------------------------

  /** Every statement only clears. */
  ghost predicate OnlyClears(stmts: seq<Statement>) {
    forall i :: 0 <= i < |stmts| ==> stmts[i].Assign? && exists w :: stmts[i].value == Constant(I.Zeros(w))
  }

  lemma {:induction false} ClearedIsLow(m: Machine, stmts: seq<Statement>, env: Env, regs: Registers, x: Signal)
    requires ValidCycle(m, env) && OnlyClears(stmts) && Writes(stmts, x)
    ensures !IsHigh(Exec(m, stmts, env, regs), x)
    decreases |stmts|
  {
    var n := |stmts| - 1;
    var before := Exec(m, stmts[..n], env, regs);
    if WritesOne(stmts[n], x) {
      var w :| stmts[n].value == Constant(I.Zeros(w));
      assert ExecOne(m, stmts[n], env, before) == before[x := I.Zeros(w)];
      assert w == 1 ==> !I.Zeros(w)[0] && ONE[0];
    } else {
      ClearedIsLow(m, stmts[..n], env, regs, x);
      UnwrittenOne(m, stmts[n], env, before, x);
    }
  }

  lemma ClearsConcat(a: seq<Statement>, b: seq<Statement>)
    requires OnlyClears(a) && OnlyClears(b)
    ensures OnlyClears(a + b)
  {
  }

  lemma ClearedOnly(x: Signal, width: nat)
    ensures OnlyClears([Cleared(x, width)])
  {
  }

  lemma {:induction false} PinResetsClear(m: Machine, s: nat, n: nat)
    ensures OnlyClears(PinResets(m, s, n))
    decreases n
  {
    if n > 0 {
      PinResetsClear(m, s, n - 1);
      ClearedOnly(BusPin(s, n - 1), 1);
      ClearsConcat(PinResets(m, s, n - 1), [Cleared(BusPin(s, n - 1), 1)]);
    }
  }

  lemma {:induction false} PinResetsWrite(m: Machine, s: nat, n: nat, i: nat)
    requires i < n
    ensures Writes(PinResets(m, s, n), BusPin(s, i))
    decreases n
  {
    WritesConcat(PinResets(m, s, n - 1), [Cleared(BusPin(s, n - 1), 1)], BusPin(s, i));
    I.WritesOnly(Cleared(BusPin(s, n - 1), 1), BusPin(s, i));
    if i < n - 1 {
      PinResetsWrite(m, s, n - 1, i);
    }
  }

  lemma SocketResetClears(m: Machine, s: nat)
    requires s < |m.sockets|
    ensures OnlyClears(SocketReset(m, s))
    ensures forall i: nat :: HasBusControl(m, s) && i < |m.sockets[s].segments| ==> Writes(SocketReset(m, s), BusPin(s, i))
  {
    if HasBusControl(m, s) {
      PinResetsClear(m, s, |m.sockets[s].segments|);
      forall i: nat | i < |m.sockets[s].segments|
        ensures Writes(SocketReset(m, s), BusPin(s, i))
      {
        PinResetsWrite(m, s, |m.sockets[s].segments|, i);
      }
    } else if ChoosesBus(m, s) {
      ClearedOnly(InputSocketControl(s), RequiredBits(|m.sockets[s].segments| - 1));
    }
  }

  lemma {:induction false} JoinedWrites(parts: seq<seq<Statement>>, x: Signal)
    ensures Writes(Joined(parts), x) <==> exists i :: 0 <= i < |parts| && Writes(parts[i], x)
    decreases |parts|
  {
    if parts != [] {
      var n := |parts| - 1;
      JoinedWrites(parts[..n], x);
      WritesConcat(Joined(parts[..n]), parts[n], x);
      assert forall i :: 0 <= i < n ==> parts[..n][i] == parts[i];
    }
  }

  lemma {:induction false} JoinedClears(parts: seq<seq<Statement>>)
    requires forall i :: 0 <= i < |parts| ==> OnlyClears(parts[i])
    ensures OnlyClears(Joined(parts))
    decreases |parts|
  {
    if parts != [] {
      var n := |parts| - 1;
      JoinedClears(parts[..n]);
      ClearsConcat(Joined(parts[..n]), parts[n]);
    }
  }

  lemma SocketResetsClear(m: Machine)
    ensures OnlyClears(SocketResets(m))
    ensures forall s: nat, i: nat :: HasBusControl(m, s) && i < |m.sockets[s].segments| ==> Writes(SocketResets(m), BusPin(s, i))
  {
    var parts := SocketParts(m);
    forall s | 0 <= s < |parts|
      ensures OnlyClears(parts[s])
    {
      SocketResetClears(m, s);
    }
    JoinedClears(parts);
    forall s: nat, i: nat | HasBusControl(m, s) && i < |m.sockets[s].segments|
      ensures Writes(SocketResets(m), BusPin(s, i))
    {
      SocketResetClears(m, s);
      JoinedWrites(parts, BusPin(s, i));
      assert Writes(parts[s], BusPin(s, i));
    }
  }

  lemma ImmediatePairClears(b: nat, width: nat)
    ensures var pair := [Cleared(ImmediateControl(b), 1), Cleared(ImmediateData(b), width)];
            OnlyClears(pair) && Writes(pair, ImmediateControl(b))
  {
    var control, data := [Cleared(ImmediateControl(b), 1)], [Cleared(ImmediateData(b), width)];
    ClearedOnly(ImmediateControl(b), 1);
    ClearedOnly(ImmediateData(b), width);
    ClearsConcat(control, data);
    WritesConcat(control, data, ImmediateControl(b));
    I.WritesOnly(control[0], ImmediateControl(b));
    assert control + data == [Cleared(ImmediateControl(b), 1), Cleared(ImmediateData(b), width)];
  }

  lemma {:induction false} ImmediateResetsClear(m: Machine, n: nat)
    requires n <= |m.buses|
    ensures OnlyClears(ImmediateResets(m, n))
    ensures forall b: nat :: b < n && m.buses[b].immediate.Some? ==> Writes(ImmediateResets(m, n), ImmediateControl(b))
    decreases n
  {
    if n > 0 {
      ImmediateResetsClear(m, n - 1);
      match m.buses[n - 1].immediate {
        case None =>
        case Some(imm) =>
          var last := [Cleared(ImmediateControl(n - 1), 1), Cleared(ImmediateData(n - 1), imm.busWidth)];
          ImmediatePairClears(n - 1, imm.busWidth);
          ClearsConcat(ImmediateResets(m, n - 1), last);
          forall b: nat | b < n && m.buses[b].immediate.Some?
            ensures Writes(ImmediateResets(m, n), ImmediateControl(b))
          {
            WritesConcat(ImmediateResets(m, n - 1), last, ImmediateControl(b));
          }
      }
    }
  }

  lemma {:induction false} PortResetsClear(d: Decoder, n: nat)
    requires n <= |d.ports|
    ensures OnlyClears(PortResets(d, n))
    decreases n
  {
    if n > 0 {
      PortResetsClear(d, n - 1);
      var p := d.ports[n - 1];
      ClearedOnly(FuOpcode(p.fu), p.opcodeWidth);
      ClearedOnly(FuLoad(p.fu, p.port), 1);
      ClearsConcat([Cleared(FuOpcode(p.fu), p.opcodeWidth)], [Cleared(FuLoad(p.fu, p.port), 1)]);
      ClearsConcat(PortResets(d, n - 1), [Cleared(FuOpcode(p.fu), p.opcodeWidth), Cleared(FuLoad(p.fu, p.port), 1)]);
    }
  }

  lemma MainResetsClear(d: Decoder, x: Signal)
    requires x.BusPin? ==> HasBusControl(d.m, x.socket) && x.pin < |d.m.sockets[x.socket].segments|
    requires x.ImmediateControl? ==> x.bus < |d.m.buses| && d.m.buses[x.bus].immediate.Some?
    requires !OtherSignal(x)
    ensures OnlyClears(MainResets(d)) && Writes(MainResets(d), x)
  {
    var a, b := SocketResets(d.m), ImmediateResets(d.m, |d.m.buses|);
    var c, g := PortResets(d, |d.ports|), [Cleared(FuOpcode(d.gcu), 1)];
    SocketResetsClear(d.m);
    ImmediateResetsClear(d.m, |d.m.buses|);
    PortResetsClear(d, |d.ports|);
    ClearedOnly(FuOpcode(d.gcu), 1);
    ClearsConcat(a, b);
    ClearsConcat(a + b, c);
    ClearsConcat(a + b + c, g);
    WritesConcat(a, b, x);
    WritesConcat(a + b, c, x);
    WritesConcat(a + b + c, g, x);
  }

  lemma LowAfterReset(d: Decoder, env: Env, regs: Registers, x: Signal)
    requires ValidCycle(d.m, env) && !OtherSignal(x)
    requires x.BusPin? ==> HasBusControl(d.m, x.socket) && x.pin < |d.m.sockets[x.socket].segments|
    requires x.ImmediateControl? ==> x.bus < |d.m.buses| && d.m.buses[x.bus].immediate.Some?
    ensures !IsHigh(Exec(d.m, MainResets(d), env, regs), x)
  {
    MainResetsClear(d, x);
    ClearedIsLow(d.m, MainResets(d), env, regs, x);
  }

  /** After a reset nothing drives any bus. */
  lemma ResetSilencesBuses(d: Decoder, env: Env, regs: Registers)
    requires ValidCycle(d.m, env)
    ensures var after := Exec(d.m, MainResets(d), env, regs);
            (forall x, b :: !Drives(d.m, after, x, b)) && SparePinsLow(d.m, after)
  {
    var after := Exec(d.m, MainResets(d), env, regs);
    forall s: nat, i: nat | HasBusControl(d.m, s) && i < |d.m.sockets[s].segments|
      ensures !IsHigh(after, BusPin(s, i))
    {
      LowAfterReset(d, env, regs, BusPin(s, i));
    }
    forall b: nat | b < |d.m.buses| && d.m.buses[b].immediate.Some?
      ensures !IsHigh(after, ImmediateControl(b))
    {
      LowAfterReset(d, env, regs, ImmediateControl(b));
    }
  }

  // ---------------------------------------------------------------------------------------
  // Every run
  // ---------------------------------------------------------------------------------------

  lemma SameDrivers(m: Machine, a: Registers, b: Registers)
    requires ValidMachine(m) && Safe(m, a)
    requires forall x :: !OtherSignal(x) ==> SameAt(a, b, x)
    ensures Safe(m, b)
  {
    forall x, i | Drives(m, b, x, i)
      ensures Drives(m, a, x, i)
    {
      if x.FromSocket? {
        var k :| 0 <= k < |m.sockets[x.socket].segments| && m.sockets[x.socket].segments[k] == i && IsHigh(b, BusPin(x.socket, k));
        assert SameAt(a, b, BusPin(x.socket, k));
      } else {
        assert SameAt(a, b, ImmediateControl(i));
      }
    }
    forall s: nat, i: nat | HasBusControl(m, s) && i < |m.sockets[s].segments| && Pin(m, s, m.sockets[s].segments[i]) != i
      ensures !IsHigh(b, BusPin(s, i))
    {
      assert SameAt(a, b, BusPin(s, i)) && !IsHigh(a, BusPin(s, i));
    }
  }

  lemma StepKeepsSafe(d: Decoder, regs: Registers, c: Cycle)
    requires ValidDecoder(d) && ValidCycle(d.m, c.env)
    requires Safe(d.m, regs) || c.reset
    ensures Safe(d.m, Step(d, regs, c))
  {
    ResetSilencesBuses(d, c.env, regs);
    if Safe(d.m, regs) {
      DecodingKeepsInvariant(d, c.env, regs);
    }
    var main := MainStep(d, regs, c);
    forall x | !OtherSignal(x)
      ensures SameAt(main, ImmediateStep(d, main, c), x)
    {
      ImmediateStepKeepsDrivers(d, main, c, x);
    }
    SameDrivers(d.m, main, ImmediateStep(d, main, c));
  }

  lemma {:induction false} RunsAreSafe(d: Decoder, regs: Registers, cycles: seq<Cycle>)
    requires ValidCycles(d, cycles) && cycles != [] && cycles[0].reset
    ensures Safe(d.m, Run(d, regs, cycles))
    decreases |cycles|
  {
    var n := |cycles| - 1;
    if n > 0 {
      RunsAreSafe(d, regs, cycles[..n]);
    }
    StepKeepsSafe(d, Run(d, regs, cycles[..n]), cycles[n]);
  }

  /**
   In every run that begins with a reset, whatever the registers held before it, and whatever
   resets, locks, guards and instructions follow in any order, at every point at most one output
   socket or short immediate drives each bus.
   */
  lemma BusesAreExclusive(d: Decoder, regs: Registers, cycles: seq<Cycle>, b: nat, x: Source, y: Source)
    requires ValidCycles(d, cycles) && Unambiguous(d.m)
    requires cycles != [] && cycles[0].reset
    requires Drives(d.m, Run(d, regs, cycles), x, b) && Drives(d.m, Run(d, regs, cycles), y, b)
    ensures x == y
  {
    RunsAreSafe(d, regs, cycles);
  }

  /** The word names this source for the bus. */
  ghost predicate NamedBy(m: Machine, word: BitVector, b: nat, x: Source) {
    b < |m.buses| &&
    match x
    case FromSocket(s) =>
      && s < |m.sockets| && m.sockets[s].direction == Output && m.sockets[s].ports > 0 && b in m.sockets[s].segments
      && s in m.buses[b].sockets && CodeAt(word, m.buses[b].source, m.buses[b].sockets[s])
    case FromImmediate =>
      m.buses[b].immediate.Some? && CodeAt(word, m.buses[b].source, m.buses[b].immediate.value.test)
  }

  lemma NamesMeans(m: Machine, env: Env, b: nat, x: Source)
    requires ValidCycle(m, env) && b < |m.buses|
    ensures Names(m, b, SourceField(m, env, b), x) <==> NamedBy(m, env.word, b, x)
  {
    assert ValidBus(m, b);
    match x {
      case FromSocket(s) =>
        if s in m.buses[b].sockets {
          CodeInSlice(env.word, m.buses[b].source, m.buses[b].sockets[s]);
        }
      case FromImmediate =>
        if m.buses[b].immediate.Some? {
          CodeInSlice(env.word, m.buses[b].source, m.buses[b].immediate.value.test);
        }
    }
  }

  /**
   The decoder executes the moves of the instruction: in every run, after an unlocked cycle a
   source drives a bus exactly when the word says that the slot's move happens (it carries no long
   immediate, and no guard is selected or the selected one lets it) and names that source.
   */
  lemma RunExecutesMoves(d: Decoder, regs: Registers, cycles: seq<Cycle>, b: nat, x: Source)
    requires ValidCycles(d, cycles) && b < |d.m.buses|
    requires |cycles| > 1 && cycles[0].reset
    requires var c := cycles[|cycles| - 1]; !c.reset && !(d.debugger && c.softReset) && !c.lock
    ensures var env := cycles[|cycles| - 1].env;
            Drives(d.m, Run(d, regs, cycles), x, b) <==> Happens(d.m, env, b) && NamedBy(d.m, env.word, b, x)
  {
    var n := |cycles| - 1;
    var before, c := Run(d, regs, cycles[..n]), cycles[n];
    SquashMeans(d.m, c.env, b);
    NamesMeans(d.m, c.env, b, x);
    RunsAreSafe(d, regs, cycles[..n]);
    DriversAfterDecoding(d, c.env, before, b, x);
    var main := MainStep(d, before, c);
    forall y | !OtherSignal(y)
      ensures SameAt(main, ImmediateStep(d, main, c), y)
    {
      ImmediateStepKeepsDrivers(d, main, c, y);
    }
    SameDrives(d.m, main, ImmediateStep(d, main, c), x, b);
  }

  lemma SameDrives(m: Machine, a: Registers, b: Registers, x: Source, bus: nat)
    requires forall y :: !OtherSignal(y) ==> SameAt(a, b, y)
    ensures Drives(m, a, x, bus) <==> Drives(m, b, x, bus)
  {
    assert SameAt(a, b, ImmediateControl(bus));
    if x.FromSocket? {
      forall i: nat
        ensures IsHigh(a, BusPin(x.socket, i)) <==> IsHigh(b, BusPin(x.socket, i))
      {
        assert SameAt(a, b, BusPin(x.socket, i));
      }
    }
  }

  // ---------------------------------------------------------------------------------------
  // Lock cycles
  // ---------------------------------------------------------------------------------------

  /** A locked cycle without reset changes a register only through the debugger's soft reset. */
  lemma LockedCycle(d: Decoder, regs: Registers, c: Cycle)
    requires ValidDecoder(d) && ValidCycle(d.m, c.env) && c.lock && !c.reset
    ensures Step(d, regs, c) == if d.debugger && c.softReset then Exec(d.m, MainResets(d), c.env, regs) else regs
  {
  }

  /** A locked cycle stutters from every state exactly when no soft reset is active in it. */
  lemma LockStuttersIff(d: Decoder, c: Cycle)
    requires ValidDecoder(d) && ValidCycle(d.m, c.env) && c.lock && !c.reset
    ensures (forall regs :: Step(d, regs, c) == regs) <==> !(d.debugger && c.softReset)
  {
    if d.debugger && c.softReset {
      var x := FuOpcode(d.gcu);
      var regs: Registers := map[x := ONE];
      var rest := SocketResets(d.m) + ImmediateResets(d.m, |d.m.buses|) + PortResets(d, |d.ports|);
      ExecAppend(d.m, rest, Cleared(x, 1), c.env, regs);
      assert Step(d, regs, c)[x] == I.Zeros(1);
      assert !I.Zeros(1)[0] && ONE[0];
    }
  }

  predicate IsLocked(c: Cycle) {
    c.lock && !c.reset
  }

  /** The cycles that are left when locked ones are removed. */
  function Unlocked(cycles: seq<Cycle>): seq<Cycle> {
    if cycles == [] then []
    else
      var c := cycles[|cycles| - 1];
      var rest := Unlocked(cycles[..|cycles| - 1]);
      if IsLocked(c) then rest else rest + [c]
  }

  /** The states after the cycles that are left. */
  ghost function StatesWhenUnlocked(d: Decoder, regs: Registers, cycles: seq<Cycle>): seq<Registers>
    requires ValidCycles(d, cycles)
  {
    if cycles == [] then []
    else
      var c := cycles[|cycles| - 1];
      var rest := StatesWhenUnlocked(d, regs, cycles[..|cycles| - 1]);
      if IsLocked(c) then rest else rest + [Run(d, regs, cycles)]
  }

  /** The states after every cycle. */
  ghost function States(d: Decoder, regs: Registers, cycles: seq<Cycle>): seq<Registers>
    requires ValidCycles(d, cycles)
  {
    if cycles == [] then [] else States(d, regs, cycles[..|cycles| - 1]) + [Run(d, regs, cycles)]
  }

  lemma {:induction false} RunOneMore(d: Decoder, regs: Registers, cycles: seq<Cycle>, c: Cycle)
    requires ValidCycles(d, cycles) && ValidCycle(d.m, c.env)
    ensures ValidCycles(d, cycles + [c]) && Run(d, regs, cycles + [c]) == Step(d, Run(d, regs, cycles), c)
    ensures States(d, regs, cycles + [c]) == States(d, regs, cycles) + [Run(d, regs, cycles + [c])]
  {
    assert (cycles + [c])[..|cycles|] == cycles;
  }

  /** Without its locked cycles a run passes through the same states. */
  ghost predicate Stutters(d: Decoder, regs: Registers, cycles: seq<Cycle>, kept: seq<Cycle>)
    requires ValidCycles(d, cycles)
  {
    && ValidCycles(d, kept) && Run(d, regs, kept) == Run(d, regs, cycles)
    && States(d, regs, kept) == StatesWhenUnlocked(d, regs, cycles)
  }

  lemma {:induction false} StuttersLocked(d: Decoder, regs: Registers, cycles: seq<Cycle>, kept: seq<Cycle>)
    requires ValidCycles(d, cycles) && cycles != [] && Stutters(d, regs, cycles[..|cycles| - 1], kept)
    requires var c := cycles[|cycles| - 1]; IsLocked(c) && !(d.debugger && c.softReset)
    ensures Stutters(d, regs, cycles, kept)
  {
    LockedCycle(d, Run(d, regs, cycles[..|cycles| - 1]), cycles[|cycles| - 1]);
  }

  lemma {:induction false} StuttersUnlocked(d: Decoder, regs: Registers, cycles: seq<Cycle>, kept: seq<Cycle>)
    requires ValidCycles(d, cycles) && cycles != [] && Stutters(d, regs, cycles[..|cycles| - 1], kept)
    requires !IsLocked(cycles[|cycles| - 1])
    ensures Stutters(d, regs, cycles, kept + [cycles[|cycles| - 1]])
  {
    RunOneMore(d, regs, kept, cycles[|cycles| - 1]);
  }

  /**
   Lock cycles are stuttering: if no soft reset falls into a locked cycle, removing all locked
   cycles leaves the sequence of register states, of the main and of the long immediate
   registers, as it was.
   */
  lemma {:induction false} LockCyclesStutter(d: Decoder, regs: Registers, cycles: seq<Cycle>)
    requires ValidCycles(d, cycles)
    requires forall i :: 0 <= i < |cycles| && IsLocked(cycles[i]) ==> !(d.debugger && cycles[i].softReset)
    ensures ValidCycles(d, Unlocked(cycles))
    ensures Run(d, regs, Unlocked(cycles)) == Run(d, regs, cycles)
    ensures States(d, regs, Unlocked(cycles)) == StatesWhenUnlocked(d, regs, cycles)
    decreases |cycles|
  {
    if cycles != [] {
      var n := |cycles| - 1;
      LockCyclesStutter(d, regs, cycles[..n]);
      if IsLocked(cycles[n]) {
        StuttersLocked(d, regs, cycles, Unlocked(cycles[..n]));
      } else {
        StuttersUnlocked(d, regs, cycles, Unlocked(cycles[..n]));
      }
    }
  }
}
