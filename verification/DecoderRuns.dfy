/**
 What every run of the decoder does to the ports of function units and to the immediate units
 (DefaultDecoderGenerator.cc:1742-2013, 2231-2290 and 3055-3339).
 */
module DecoderRuns {
  import opened Wrappers
  import opened BitVectors
  import opened DecoderRules
  import opened DecoderSources
  import opened DecoderDestinations
  import opened DecoderProcess
  import I = DecoderImmediates

  // ---------------------------------------------------------------------------------------
  // Moves to function units
  // ---------------------------------------------------------------------------------------

  /** Whether a port is loaded, and the opcode its unit is given. */
  datatype Loading = Loading(load: bool, opcode: Option<BitVector>)

  /** A move that takes this route. */
  function RouteLoading(m: Machine, env: Env, lang: Language, p: FuPort, r: Route): Loading
    requires ValidCycle(m, env) && ValidRoute(r)
  {
    match r.codes
    case SingleCode(_) => Loading(true, None)
    case NoCodes(opcodes) =>
      Loading(true, if opcodes == [] then None else Some(ToBits(opcodes[|opcodes| - 1], p.opcodeWidth)))
    case OpcodeSetting(operations) =>
      if lang == VHDL && Ordered(operations) then
        Loading(true, Some(EvalValue(m, env, DestinationBits(r.bus, Range(operations[0].code.pos, operations[0].code.width)))))
      else
        var j := FirstTaken(m, env, OperationBranches(p, r.bus, operations));
        if j < |operations| then Loading(true, Some(ToBits(operations[j].opcode, p.opcodeWidth))) else Loading(false, None)
  }

  /** The first route whose condition holds loads the port; none does not. */
  function PortLoading(m: Machine, env: Env, lang: Language, p: FuPort): Loading
    requires ValidCycle(m, env) && ValidPort(p)
  {
    var i := Taken(m, env, lang, p);
    if i < |p.routes| then RouteLoading(m, env, lang, p, p.routes[i]) else Loading(false, None)
  }

  /** The registers of the port and its unit show this loading; without an opcode the old one stays. */
  ghost predicate Shows(after: Registers, before: Registers, p: FuPort, l: Loading) {
    var load, opcode := FuLoad(p.fu, p.port), FuOpcode(p.fu);
    && load in after && after[load] == (if l.load then ONE else ZERO)
    && if l.opcode.Some? then opcode in after && after[opcode] == l.opcode.value else SameAt(after, before, opcode)
  }

  lemma {:induction false} OpcodesLast(m: Machine, env: Env, p: FuPort, opcodes: seq<nat>, regs: Registers)
    requires ValidCycle(m, env)
    ensures Exec(m, OpcodeAssignments(p, opcodes), env, regs)
            == if opcodes == [] then regs else regs[FuOpcode(p.fu) := ToBits(opcodes[|opcodes| - 1], p.opcodeWidth)]
    decreases |opcodes|
  {
    if opcodes != [] {
      var n := |opcodes| - 1;
      OpcodesLast(m, env, p, opcodes[..n], regs);
      assert OpcodeAssignments(p, opcodes) == OpcodeAssignments(p, opcodes[..n]) + [SetOpcode(p, opcodes[n])];
      ExecAppend(m, OpcodeAssignments(p, opcodes[..n]), SetOpcode(p, opcodes[n]), env, regs);
    }
  }

  lemma LoadStatementsShow(m: Machine, env: Env, lang: Language, p: FuPort, r: Route, regs: Registers)
    requires ValidCycle(m, env) && ValidRoute(r)
    ensures Shows(Exec(m, LoadStatements(lang, p, r), env, regs), regs, p, RouteLoading(m, env, lang, p, r))
  {
    match r.codes
    case SingleCode(_) => ExecSingleton(m, SetLoad(p, true), env, regs);
    case NoCodes(opcodes) =>
      ExecConcat(m, [SetLoad(p, true)], OpcodeAssignments(p, opcodes), env, regs);
      ExecSingleton(m, SetLoad(p, true), env, regs);
      OpcodesLast(m, env, p, opcodes, Exec(m, [SetLoad(p, true)], env, regs));
    case OpcodeSetting(operations) =>
      if lang == VHDL && Ordered(operations) {
        var s := DirectSlice(p, r.bus, operations[0]);
        ExecTwo(m, s[0], s[1], env, regs);
      } else {
        ComparisonShows(m, env, p, r.bus, operations, regs);
      }
  }

  lemma ComparisonShows(m: Machine, env: Env, p: FuPort, bus: nat, operations: seq<Operation>, regs: Registers)
    requires ValidCycle(m, env)
    ensures var j := FirstTaken(m, env, OperationBranches(p, bus, operations));
            Shows(Exec(m, ComparisonChain(p, bus, operations), env, regs), regs, p,
                  if j < |operations| then Loading(true, Some(ToBits(operations[j].opcode, p.opcodeWidth))) else Loading(false, None))
  {
    var branches := OperationBranches(p, bus, operations);
    ExecChain(m, branches, [SetLoad(p, false)], env, regs);
    var j := FirstTaken(m, env, branches);
    if j < |branches| {
      ExecTwo(m, SetLoad(p, true), SetOpcode(p, operations[j].opcode), env, regs);
    } else {
      ExecSingleton(m, SetLoad(p, false), env, regs);
    }
  }

  lemma ControlKeeps(m: Machine, env: Env, p: FuPort, r: Route, regs: Registers, x: Signal)
    requires ValidCycle(m, env) && !x.InputSocketControl?
    ensures SameAt(Exec(m, ControlStatements(p, r), env, regs), regs, x)
  {
    NoWriterIn(ControlStatements(p, r), x);
    Unwritten(m, ControlStatements(p, r), env, regs, x);
  }

  /** The rules of a port do what its first taken route says. */
  lemma PortRulesShow(m: Machine, env: Env, lang: Language, p: FuPort, regs: Registers)
    requires ValidCycle(m, env) && ValidPort(p)
    ensures Shows(Exec(m, PortRules(lang, p), env, regs), regs, p, PortLoading(m, env, lang, p))
  {
    var branches := RouteBranches(lang, p);
    ExecChain(m, branches, [SetLoad(p, false)], env, regs);
    var i := Taken(m, env, lang, p);
    if i < |p.routes| {
      var r := p.routes[i];
      assert ValidRoute(r);
      ExecConcat(m, LoadStatements(lang, p, r), ControlStatements(p, r), env, regs);
      var loaded := Exec(m, LoadStatements(lang, p, r), env, regs);
      LoadStatementsShow(m, env, lang, p, r, regs);
      ControlKeeps(m, env, p, r, loaded, FuLoad(p.fu, p.port));
      ControlKeeps(m, env, p, r, loaded, FuOpcode(p.fu));
    } else {
      ExecSingleton(m, SetLoad(p, false), env, regs);
    }
  }

  /** Ports are told apart, and only one port of a unit sets its opcode. */
  ghost predicate PortsApart(d: Decoder) {
    forall i, j :: 0 <= i < |d.ports| && 0 <= j < |d.ports| && i != j && d.ports[i].fu == d.ports[j].fu ==>
      d.ports[i].port != d.ports[j].port && !(SetsOpcode(d.ports[i]) && SetsOpcode(d.ports[j]))
  }

  /** A register of port j that no other port writes. */
  ghost predicate Owned(d: Decoder, j: nat, x: Signal) {
    j < |d.ports| && forall i :: 0 <= i < |d.ports| && i != j ==> !OfPort(x, d.ports[i])
  }

  lemma PortsLast(d: Decoder, env: Env, n: nat, regs: Registers)
    requires ValidDecoder(d) && ValidCycle(d.m, env) && n < |d.ports|
    ensures Exec(d.m, PortsRules(d, n + 1), env, regs)
            == Exec(d.m, PortRules(d.language, d.ports[n]), env, Exec(d.m, PortsRules(d, n), env, regs))
  {
    ExecConcat(d.m, PortsRules(d, n), PortRules(d.language, d.ports[n]), env, regs);
  }

  lemma OwnedElsewhere(d: Decoder, j: nat, x: Signal, i: nat)
    requires ValidPorts(d) && Owned(d, j, x) && i < |d.ports| && i != j
    ensures ValidPort(d.ports[i]) && !Writes(PortRules(d.language, d.ports[i]), x)
  {
    PortWrites(d.language, d.ports[i], x);
  }

  ghost predicate ValidPorts(d: Decoder) {
    forall i :: 0 <= i < |d.ports| ==> ValidPort(d.ports[i])
  }

  /** The rules of ports k to n - 1. */
  function PortsBetween(d: Decoder, k: nat, n: nat): seq<Statement>
    requires k <= n <= |d.ports| && ValidPorts(d)
  {
    if n == k then [] else PortsBetween(d, k, n - 1) + PortRules(d.language, d.ports[n - 1])
  }

  lemma {:induction false} PortsSplit(d: Decoder, k: nat, n: nat)
    requires k <= n <= |d.ports| && ValidPorts(d)
    ensures PortsRules(d, n) == PortsRules(d, k) + PortsBetween(d, k, n)
    decreases n
  {
    if k < n {
      PortsSplit(d, k, n - 1);
    }
  }

  /** The rules of the ports after port j do not write its registers. */
  lemma {:induction false} LaterPortsLeave(d: Decoder, n: nat, j: nat, x: Signal)
    requires j < n <= |d.ports| && ValidPorts(d) && Owned(d, j, x)
    ensures !Writes(PortsBetween(d, j + 1, n), x)
    decreases n
  {
    if j + 1 < n {
      LaterPortsLeave(d, n - 1, j, x);
      OwnedElsewhere(d, j, x, n - 1);
      WritesConcat(PortsBetween(d, j + 1, n - 1), PortRules(d.language, d.ports[n - 1]), x);
    }
  }

  lemma {:induction false} PortsAfterPort(d: Decoder, env: Env, n: nat, j: nat, x: Signal, regs: Registers)
    requires ValidDecoder(d) && ValidCycle(d.m, env) && j < n <= |d.ports| && Owned(d, j, x)
    ensures SameAt(Exec(d.m, PortsRules(d, n), env, regs), Exec(d.m, PortsRules(d, j + 1), env, regs), x)
  {
    PortsSplit(d, j + 1, n);
    LaterPortsLeave(d, n, j, x);
    ExecConcat(d.m, PortsRules(d, j + 1), PortsBetween(d, j + 1, n), env, regs);
    Unwritten(d.m, PortsBetween(d, j + 1, n), env, Exec(d.m, PortsRules(d, j + 1), env, regs), x);
  }

  lemma PortsAtPort(d: Decoder, env: Env, n: nat, j: nat, x: Signal, regs: Registers)
    requires ValidDecoder(d) && ValidCycle(d.m, env) && j < n <= |d.ports| && Owned(d, j, x)
    ensures SameAt(Exec(d.m, PortsRules(d, n), env, regs),
                   Exec(d.m, PortRules(d.language, d.ports[j]), env, Exec(d.m, PortsRules(d, j), env, regs)), x)
  {
    PortsAfterPort(d, env, n, j, x, regs);
    PortsLast(d, env, j, regs);
  }

  lemma BeforePort(d: Decoder, env: Env, j: nat, x: Signal, regs: Registers)
    requires ValidDecoder(d) && ValidCycle(d.m, env) && Owned(d, j, x)
    requires !x.BusPin? && !x.ImmediateControl? && !x.ImmediateData?
    ensures SameAt(Exec(d.m, PortsRules(d, j), env, Exec(d.m, SourceRules(d.m), env, regs)), regs, x)
  {
    OtherSignalsUntouched(d.m, x);
    Unwritten(d.m, SourceRules(d.m), env, regs, x);
    PortsWrite(d, j, x);
    Unwritten(d.m, PortsRules(d, j), env, Exec(d.m, SourceRules(d.m), env, regs), x);
  }

  /** A loading shows in states that agree at the two registers. */
  lemma SameShows(a: Registers, b: Registers, before: Registers, start: Registers, p: FuPort, l: Loading)
    requires Shows(a, before, p, l) && SameAt(b, a, FuLoad(p.fu, p.port)) && SameAt(before, start, FuOpcode(p.fu))
    requires SameAt(b, a, FuOpcode(p.fu))
    ensures Shows(b, start, p, l)
  {
  }

  lemma OwnRegisters(d: Decoder, j: nat)
    requires PortsApart(d) && j < |d.ports|
    ensures Owned(d, j, FuLoad(d.ports[j].fu, d.ports[j].port))
    ensures SetsOpcode(d.ports[j]) ==> Owned(d, j, FuOpcode(d.ports[j].fu))
  {
  }

  /** One decoding cycle: each port is loaded as its first taken route says; its unit gets the opcode with it. */
  lemma DecodingLoads(d: Decoder, env: Env, regs: Registers, j: nat)
    requires ValidDecoder(d) && ValidCycle(d.m, env) && PortsApart(d) && j < |d.ports|
    ensures var l, p := PortLoading(d.m, env, d.language, d.ports[j]), d.ports[j];
            && Loads(Exec(d.m, MainRules(d), env, regs), p, l)
            && (SetsOpcode(p) ==> Shows(Exec(d.m, MainRules(d), env, regs), regs, p, l))
  {
    var p, n := d.ports[j], |d.ports|;
    var x, y := FuLoad(p.fu, p.port), FuOpcode(p.fu);
    var sources := Exec(d.m, SourceRules(d.m), env, regs);
    var before := Exec(d.m, PortsRules(d, j), env, sources);
    ExecConcat(d.m, SourceRules(d.m), PortsRules(d, n), env, regs);
    OwnRegisters(d, j);
    PortRulesShow(d.m, env, d.language, p, before);
    PortsAtPort(d, env, n, j, x, sources);
    if SetsOpcode(p) {
      PortsAtPort(d, env, n, j, y, sources);
      BeforePort(d, env, j, y, regs);
      SameShows(Exec(d.m, PortRules(d.language, p), env, before), Exec(d.m, MainRules(d), env, regs), before, regs, p,
                PortLoading(d.m, env, d.language, p));
    }
  }

  ghost predicate Loads(after: Registers, p: FuPort, l: Loading) {
    var load := FuLoad(p.fu, p.port);
    load in after && after[load] == if l.load then ONE else ZERO
  }

  /**
   The decoder executes the moves to function units: in every run, after an unlocked cycle a port is
   loaded exactly if the first route whose condition holds loads it, and a port that sets opcodes gives
   its unit the opcode of that route; without one the unit keeps the opcode it had.
   */
  lemma RunLoadsPorts(d: Decoder, regs: Registers, cycles: seq<Cycle>, j: nat)
    requires ValidCycles(d, cycles) && PortsApart(d) && j < |d.ports| && cycles != []
    requires var c := cycles[|cycles| - 1]; !c.reset && !(d.debugger && c.softReset) && !c.lock
    ensures var n, p := |cycles| - 1, d.ports[j];
            var l := PortLoading(d.m, cycles[n].env, d.language, p);
            && Loads(Run(d, regs, cycles), p, l)
            && (SetsOpcode(p) ==> Shows(Run(d, regs, cycles), Run(d, regs, cycles[..n]), p, l))
  {
    var n, p := |cycles| - 1, d.ports[j];
    var before, c := Run(d, regs, cycles[..n]), cycles[n];
    var main := MainStep(d, before, c);
    DecodingLoads(d, c.env, before, j);
    UnitsLeave(d, main, c, FuLoad(p.fu, p.port));
    UnitsLeave(d, main, c, FuOpcode(p.fu));
    if SetsOpcode(p) {
      SameShows(main, Step(d, before, c), before, before, p, PortLoading(d.m, c.env, d.language, p));
    }
  }

  lemma UnitsLeave(d: Decoder, main: Registers, c: Cycle, x: Signal)
    requires ValidCycle(d.m, c.env) && !c.reset && !UnitSignal(x)
    ensures SameAt(ImmediateStep(d, main, c), main, x)
  {
    ImmediateProcessWrites(d, x);
    Unwritten(d.m, I.ImmediateProcess(d.templates, d.units), c.env, main, x);
  }


  // ---------------------------------------------------------------------------------------
  // Long immediates
  // ---------------------------------------------------------------------------------------

  ghost predicate HasWidth(regs: Registers, i: nat, width: nat) {
    IuData(i) in regs && |regs[IuData(i)]| == width
  }

  /** The write ports of the units have their widths. */
  ghost predicate PortWidths(d: Decoder, regs: Registers) {
    forall i: nat :: i < |d.units| ==> HasWidth(regs, i, d.units[i].width)
  }

  lemma {:induction false} PinResetsLeave(m: Machine, s: nat, n: nat, x: Signal)
    requires !x.BusPin?
    ensures !Writes(PinResets(m, s, n), x)
    decreases n
  {
    if n > 0 {
      PinResetsLeave(m, s, n - 1, x);
      NoWriterIn([Cleared(BusPin(s, n - 1), 1)], x);
      WritesConcat(PinResets(m, s, n - 1), [Cleared(BusPin(s, n - 1), 1)], x);
    }
  }

  lemma SocketResetLeaves(m: Machine, s: nat, x: Signal)
    requires s < |m.sockets| && !x.BusPin? && !x.InputSocketControl?
    ensures !Writes(SocketReset(m, s), x)
  {
    PinResetsLeave(m, s, |m.sockets[s].segments|, x);
    if !HasBusControl(m, s) {
      NoWriterIn(SocketReset(m, s), x);
    }
  }

  lemma SocketResetsLeave(m: Machine, x: Signal)
    requires !x.BusPin? && !x.InputSocketControl?
    ensures !Writes(SocketResets(m), x)
  {
    forall s | 0 <= s < |m.sockets|
      ensures !Writes(SocketParts(m)[s], x)
    {
      SocketResetLeaves(m, s, x);
    }
    JoinedWrites(SocketParts(m), x);
  }

  lemma {:induction false} ImmediateResetsLeave(m: Machine, n: nat, x: Signal)
    requires n <= |m.buses| && !x.ImmediateControl? && !x.ImmediateData?
    ensures !Writes(ImmediateResets(m, n), x)
    decreases n
  {
    if n > 0 {
      ImmediateResetsLeave(m, n - 1, x);
      match m.buses[n - 1].immediate {
        case None =>
        case Some(imm) =>
          var last := [Cleared(ImmediateControl(n - 1), 1), Cleared(ImmediateData(n - 1), imm.busWidth)];
          NoWriterIn(last, x);
          WritesConcat(ImmediateResets(m, n - 1), last, x);
      }
    }
  }

  lemma {:induction false} PortResetsLeave(d: Decoder, n: nat, x: Signal)
    requires n <= |d.ports| && !x.FuLoad? && !x.FuOpcode?
    ensures !Writes(PortResets(d, n), x)
    decreases n
  {
    if n > 0 {
      var p := d.ports[n - 1];
      var last := [Cleared(FuOpcode(p.fu), p.opcodeWidth), Cleared(FuLoad(p.fu, p.port), 1)];
      PortResetsLeave(d, n - 1, x);
      NoWriterIn(last, x);
      WritesConcat(PortResets(d, n - 1), last, x);
    }
  }

  lemma MainResetsLeave(d: Decoder, x: Signal)
    requires UnitSignal(x)
    ensures !Writes(MainResets(d), x)
  {
    var a, b := SocketResets(d.m), ImmediateResets(d.m, |d.m.buses|);
    var c, g := PortResets(d, |d.ports|), [Cleared(FuOpcode(d.gcu), 1)];
    SocketResetsLeave(d.m, x);
    ImmediateResetsLeave(d.m, |d.m.buses|, x);
    PortResetsLeave(d, |d.ports|, x);
    NoWriterIn(g, x);
    WritesConcat(a, b, x);
    WritesConcat(a + b, c, x);
    WritesConcat(a + b + c, g, x);
  }

  /** The main process leaves the immediate units alone. */
  lemma MainLeavesUnits(d: Decoder, regs: Registers, c: Cycle, x: Signal)
    requires ValidDecoder(d) && ValidCycle(d.m, c.env) && UnitSignal(x)
    ensures SameAt(MainStep(d, regs, c), regs, x)
  {
    MainResetsLeave(d, x);
    OtherSignalsUntouched(d.m, x);
    PortsWrite(d, |d.ports|, x);
    WritesConcat(SourceRules(d.m), PortsRules(d, |d.ports|), x);
    Unwritten(d.m, MainResets(d), c.env, regs, x);
    Unwritten(d.m, MainRules(d), c.env, regs, x);
  }

  lemma {:induction false} ResetGivesWidths(d: Decoder, env: Env, n: nat, i: nat, regs: Registers)
    requires ValidCycle(d.m, env) && i < n <= |d.units|
    ensures HasWidth(Exec(d.m, UnitResets(d.units, n), env, regs), i, d.units[i].width)
    decreases n
  {
    var k := n - 1;
    var load, data := Cleared(IuLoad(k), 1), Cleared(IuData(k), d.units[k].width);
    var last := [load, data, Cleared(IuOpcode(k), d.units[k].opcodeWidth)];
    var before := Exec(d.m, UnitResets(d.units, k), env, regs);
    ExecConcat(d.m, UnitResets(d.units, k), last, env, regs);
    assert last == [load, data] + [last[2]];
    ExecAppend(d.m, [load, data], last[2], env, before);
    ExecTwo(d.m, load, data, env, before);
    if i < k {
      ResetGivesWidths(d, env, k, i, regs);
    }
  }

  /** Rules that change a register by slices only. */
  predicate OnlySlices(stmts: seq<Statement>, x: Signal) {
    forall q :: 0 <= q < |stmts| ==> !WritesOne(stmts[q], x) || (stmts[q].AssignSlice? && stmts[q].target == x)
  }

  lemma {:induction false} SlicesKeepWidth(m: Machine, stmts: seq<Statement>, env: Env, regs: Registers, i: nat, width: nat)
    requires ValidCycle(m, env) && OnlySlices(stmts, IuData(i)) && HasWidth(regs, i, width)
    ensures HasWidth(Exec(m, stmts, env, regs), i, width)
    decreases |stmts|
  {
    if stmts != [] {
      var n := |stmts| - 1;
      var before := Exec(m, stmts[..n], env, regs);
      SlicesKeepWidth(m, stmts[..n], env, regs, i, width);
      if !WritesOne(stmts[n], IuData(i)) {
        UnwrittenOne(m, stmts[n], env, before, IuData(i));
      }
    }
  }

  lemma UnitRulesSlice(t: I.Template, i: nat, u: I.Unit)
    ensures OnlySlices(I.UnitRules(t, i, u), IuData(i))
  {
    var slots := I.SlotsOf(t.slots, i);
    forall q | 0 <= q < |I.Pieces(slots, i, u, |slots|)|
      ensures I.Pieces(slots, i, u, |slots|)[q].AssignSlice? && I.Pieces(slots, i, u, |slots|)[q].target == IuData(i)
    {
    }
  }

  lemma TemplateKeepsWidth(d: Decoder, t: I.Template, env: Env, regs: Registers, i: nat)
    requires ValidCycle(d.m, env) && i < |d.units| && HasWidth(regs, i, d.units[i].width)
    ensures HasWidth(Exec(d.m, I.TemplateRules(t, d.units, |d.units|), env, regs), i, d.units[i].width)
  {
    var before := Exec(d.m, I.TemplateRules(t, d.units, i), env, regs);
    I.EarlierUnits(d.m, t, d.units, i, IuData(i), env, regs);
    I.TemplateAtUnit(d.m, t, d.units, |d.units|, i, IuData(i), env, regs);
    UnitRulesSlice(t, i, d.units[i]);
    SlicesKeepWidth(d.m, I.UnitRules(t, i, d.units[i]), env, before, i, d.units[i].width);
  }

  lemma ProcessKeepsWidth(d: Decoder, env: Env, regs: Registers, i: nat)
    requires ValidCycle(d.m, env) && i < |d.units| && HasWidth(regs, i, d.units[i].width)
    ensures HasWidth(Exec(d.m, I.ImmediateProcess(d.templates, d.units), env, regs), i, d.units[i].width)
  {
    var k := I.Selected(d.m, d.templates, d.units, env);
    I.ProcessTakes(d.m, d.templates, d.units, k, env, regs);
    if k < |d.templates| {
      TemplateKeepsWidth(d, d.templates[k], env, regs, i);
    }
  }

  lemma StepKeepsWidth(d: Decoder, regs: Registers, c: Cycle, i: nat)
    requires ValidDecoder(d) && ValidCycle(d.m, c.env) && i < |d.units|
    requires c.reset || HasWidth(regs, i, d.units[i].width)
    ensures HasWidth(Step(d, regs, c), i, d.units[i].width)
  {
    var main := MainStep(d, regs, c);
    MainLeavesUnits(d, regs, c, IuData(i));
    if c.reset {
      ResetGivesWidths(d, c.env, |d.units|, i, main);
    } else if !c.lock {
      ProcessKeepsWidth(d, c.env, main, i);
    }
  }

  /** In every run that begins with a reset the write ports have their widths. */
  lemma {:induction false} RunsHaveWidths(d: Decoder, regs: Registers, cycles: seq<Cycle>)
    requires ValidCycles(d, cycles) && cycles != [] && cycles[0].reset
    ensures PortWidths(d, Run(d, regs, cycles))
    decreases |cycles|
  {
    var n := |cycles| - 1;
    if n > 0 {
      RunsHaveWidths(d, regs, cycles[..n]);
    }
    forall i: nat | i < |d.units|
      ensures HasWidth(Run(d, regs, cycles), i, d.units[i].width)
    {
      StepKeepsWidth(d, Run(d, regs, cycles[..n]), cycles[n], i);
    }
  }

  /** Load, data and register index of unit i are as before. */
  ghost predicate UnitStays(after: Registers, before: Registers, i: nat) {
    SameAt(after, before, IuLoad(i)) && SameAt(after, before, IuData(i)) && SameAt(after, before, IuOpcode(i))
  }

  /**
   The decoder executes long immediates: in every run that begins with a reset, after an unlocked cycle
   with an instruction of template k, every unit of the template holds exactly its extended immediate
   and register index and is loaded; the others are not, and keep their register index and, unless the
   template is empty, their data. Nothing changes if the only template of the machine is empty.
   */
  lemma RunWritesImmediates(d: Decoder, regs: Registers, cycles: seq<Cycle>, k: nat, i: nat)
    requires ValidCycles(d, cycles) && |cycles| > 1 && cycles[0].reset && I.DistinctTags(d.templates)
    requires var c := cycles[|cycles| - 1]; !c.reset && !c.lock
    requires k < |d.templates| && i < |d.units|
    requires var word := cycles[|cycles| - 1].env.word;
             d.templates[k].tag == FromBits(Slice(word, d.m.tag)) && I.FitsUnit(d.templates[k], i, d.units[i], word)
    ensures var n := |cycles| - 1;
            var after, before := Run(d, regs, cycles), Run(d, regs, cycles[..n]);
            if I.NoProcess(d.templates) then UnitStays(after, before, i)
            else I.Written(after, before, d.templates[k], i, d.units[i], cycles[n].env.word)
  {
    var n := |cycles| - 1;
    var before, c := Run(d, regs, cycles[..n]), cycles[n];
    var main := MainStep(d, before, c);
    MainLeavesUnits(d, before, c, IuData(i));
    MainLeavesUnits(d, before, c, IuOpcode(i));
    if I.NoProcess(d.templates) {
      MainLeavesUnits(d, before, c, IuLoad(i));
    } else {
      RunsHaveWidths(d, regs, cycles[..n]);
      assert HasWidth(before, i, d.units[i].width);
      I.LongImmediateWritten(d.m, d.templates, d.units, k, i, c.env, main);
    }
  }
}
