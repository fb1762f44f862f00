/**
 The effect of an instruction word, read bit by bit, on the registers of the decoder in every run
 (DefaultDecoderGenerator.cc:1742-2013, 2231-2330, 2745-2812 and 3055-3339).
 */
module DecoderEffects {
  import opened Wrappers
  import opened Powers
  import opened BitVectors
  import opened DecoderRules
  import opened DecoderMeaning
  import opened DecoderSources
  import opened DecoderDestinations
  import opened DecoderProcess
  import opened DecoderRuns
  import I = DecoderImmediates

  /** The last cycle of a run decodes an instruction. */
  ghost predicate Decodes(d: Decoder, cycles: seq<Cycle>) {
    && ValidCycles(d, cycles) && cycles != []
    && var c := cycles[|cycles| - 1];
       !c.reset && !(d.debugger && c.softReset) && !c.lock
  }

  /** The register holds these bits of the word. */
  ghost predicate HasBits(regs: Registers, x: Signal, word: BitVector, pos: nat, width: nat) {
    x in regs && |regs[x]| == width && forall k: nat :: k < width ==> Bit(regs[x], k) == Bit(word, pos + k)
  }

  /** The register holds this number, as far as it is wide enough. */
  ghost predicate HasNumber(regs: Registers, x: Signal, width: nat, n: nat) {
    x in regs && |regs[x]| == width && Field(regs[x], 0, width) == n % Pow2(width)
  }

  // ---------------------------------------------------------------------------------------
  // Short immediates
  // ---------------------------------------------------------------------------------------

  /** Bit k of a field that is extended above its top bit. */
  predicate ExtendedBit(word: BitVector, pos: nat, width: nat, sign: bool, k: nat) {
    if k < width then Bit(word, pos + k) else sign && width > 0 && Bit(word, pos + width - 1)
  }

  lemma ResizeBit(sign: bool, b: BitVector, width: nat, k: nat)
    requires k < width
    ensures Bit(Resize(sign, b, width), k) == ExtendedBit(b, 0, |b|, sign, k)
  {
  }

  lemma CutBit(v: BitVector, r: Range, sign: bool, width: nat, k: nat)
    requires r.pos + r.width <= |v| && k < width
    ensures Bit(CutAndResize(v, r, sign, width), k) == ExtendedBit(v, r.pos, r.width, sign, k)
  {
    ResizeBit(sign, Slice(v, r), width, k);
    if k < r.width {
      BitOfSlice(v, r, k);
    } else if r.width > 0 {
      BitOfSlice(v, r, r.width - 1);
    }
  }

  /** The word has the short immediate of the bus moved. */
  ghost predicate MovesImmediate(m: Machine, env: Env, b: nat)
    requires b < |m.buses| && m.buses[b].immediate.Some?
  {
    Happens(m, env, b) && CodeAt(env.word, m.buses[b].source, m.buses[b].immediate.value.test)
  }

  ghost predicate HasImmediate(regs: Registers, m: Machine, b: nat, word: BitVector)
    requires b < |m.buses| && m.buses[b].immediate.Some?
  {
    var imm, x := m.buses[b].immediate.value, ImmediateData(b);
    && x in regs && |regs[x]| == imm.busWidth
    && forall k: nat :: k < imm.busWidth ==>
         Bit(regs[x], k) == ExtendedBit(word, m.buses[b].source.pos + imm.pos, imm.width, imm.signExtends, k)
  }

  lemma CutIsImmediate(m: Machine, env: Env, b: nat, regs: Registers)
    requires ValidCycle(m, env) && b < |m.buses| && m.buses[b].immediate.Some? && ImmediateData(b) in regs
    requires var imm := m.buses[b].immediate.value;
             regs[ImmediateData(b)]
             == CutAndResize(SourceField(m, env, b), Range(imm.pos, imm.width), imm.signExtends, imm.busWidth)
    ensures HasImmediate(regs, m, b, env.word)
  {
    var imm, source := m.buses[b].immediate.value, m.buses[b].source;
    assert ValidBus(m, b);
    var field := SourceField(m, env, b);
    forall k: nat | k < imm.busWidth
      ensures Bit(regs[ImmediateData(b)], k) == ExtendedBit(env.word, source.pos + imm.pos, imm.width, imm.signExtends, k)
    {
      CutBit(field, Range(imm.pos, imm.width), imm.signExtends, imm.busWidth, k);
      ExtendedInField(env.word, source, imm.pos, imm.width, imm.signExtends, k);
    }
  }

  lemma ExtendedInField(word: BitVector, field: Range, pos: nat, width: nat, sign: bool, k: nat)
    requires field.pos + field.width <= |word| && pos + width <= field.width
    ensures ExtendedBit(Slice(word, field), pos, width, sign, k) == ExtendedBit(word, field.pos + pos, width, sign, k)
  {
    if k < width {
      BitOfSlice(word, field, pos + k);
      assert field.pos + (pos + k) == field.pos + pos + k;
    } else if width > 0 {
      BitOfSlice(word, field, pos + width - 1);
      assert field.pos + (pos + width - 1) == field.pos + pos + width - 1;
    }
  }

  lemma SourceTestMeans(m: Machine, env: Env, b: nat, t: Test)
    requires ValidCycle(m, env) && b < |m.buses|
    ensures EvalCondition(m, env, SourceTest(b, t)) <==> Happens(m, env, b) && CodeAt(env.word, m.buses[b].source, t)
  {
    assert ValidBus(m, b);
    SquashMeans(m, env, b);
    CodeInSlice(env.word, m.buses[b].source, t);
  }

  lemma DecodingGivesImmediates(d: Decoder, env: Env, regs: Registers, b: nat)
    requires ValidDecoder(d) && ValidCycle(d.m, env) && b < |d.m.buses| && d.m.buses[b].immediate.Some?
    ensures var after := Exec(d.m, MainRules(d), env, regs);
            if MovesImmediate(d.m, env, b) then HasImmediate(after, d.m, b, env.word) else SameAt(after, regs, ImmediateData(b))
  {
    var x, sources := ImmediateData(b), Exec(d.m, SourceRules(d.m), env, regs);
    SourceTestMeans(d.m, env, b, d.m.buses[b].immediate.value.test);
    DataAfterDecoding(d.m, b, env, regs);
    ExecConcat(d.m, SourceRules(d.m), PortsRules(d, |d.ports|), env, regs);
    PortsWrite(d, |d.ports|, x);
    Unwritten(d.m, PortsRules(d, |d.ports|), env, sources, x);
    if MovesImmediate(d.m, env, b) {
      CutIsImmediate(d.m, env, b, Exec(d.m, MainRules(d), env, regs));
    }
  }

  /**
   In every run, after a decoding cycle the short immediate register of a bus has the width of the
   bus, the bits of the immediate field at its low end and above them zeros or, if the bus extends
   the sign, copies of the top bit of the field; without such a move it keeps its value.
   */
  lemma RunGivesImmediates(d: Decoder, regs: Registers, cycles: seq<Cycle>, b: nat)
    requires Decodes(d, cycles) && b < |d.m.buses| && d.m.buses[b].immediate.Some?
    ensures var n := |cycles| - 1;
            var after, env := Run(d, regs, cycles), cycles[n].env;
            if MovesImmediate(d.m, env, b) then HasImmediate(after, d.m, b, env.word)
            else SameAt(after, Run(d, regs, cycles[..n]), ImmediateData(b))
  {
    var n := |cycles| - 1;
    var before, c := Run(d, regs, cycles[..n]), cycles[n];
    DecodingGivesImmediates(d, c.env, before, b);
    UnitsLeave(d, MainStep(d, before, c), c, ImmediateData(b));
  }

  // ---------------------------------------------------------------------------------------
  // Moves to function units
  // ---------------------------------------------------------------------------------------

  /** The word sends a move along this route. */
  ghost predicate Reaches(m: Machine, env: Env, r: Route) {
    && r.bus < |m.buses| && Happens(m, env, r.bus)
    && CodeAt(env.word, m.buses[r.bus].destination, r.socketTest)
    && (r.codes.SingleCode? ==> CodeAt(env.word, m.buses[r.bus].destination, r.codes.code))
  }

  /** The first route of the port that is reached. */
  ghost predicate Uses(m: Machine, env: Env, p: FuPort, i: nat) {
    i < |p.routes| && Reaches(m, env, p.routes[i]) && forall j :: 0 <= j < i ==> !Reaches(m, env, p.routes[j])
  }

  lemma ConditionMeans(m: Machine, env: Env, lang: Language, p: FuPort, r: Route)
    requires ValidCycle(m, env) && ValidRoute(r)
    ensures EvalCondition(m, env, RouteBranch(lang, p, r).cond) <==> Reaches(m, env, r)
  {
    if r.bus < |m.buses| {
      assert ValidBus(m, r.bus);
      SquashMeans(m, env, r.bus);
      CodeInSlice(env.word, m.buses[r.bus].destination, r.socketTest);
      if r.codes.SingleCode? {
        CodeInSlice(env.word, m.buses[r.bus].destination, r.codes.code);
      }
    }
  }

  lemma UsesTaken(m: Machine, env: Env, lang: Language, p: FuPort, i: nat)
    requires ValidCycle(m, env) && ValidPort(p)
    ensures Uses(m, env, p, i) <==> i < |p.routes| && i == Taken(m, env, lang, p)
  {
    forall j | 0 <= j < |p.routes|
      ensures EvalCondition(m, env, RouteBranches(lang, p)[j].cond) <==> Reaches(m, env, p.routes[j])
    {
      assert ValidRoute(p.routes[j]);
      ConditionMeans(m, env, lang, p, p.routes[j]);
    }
  }

  /** The generator slices the opcode out of the field instead of comparing codes. */
  ghost predicate Slices(lang: Language, operations: seq<Operation>) {
    lang == VHDL && forall q :: 0 <= q < |operations| ==> operations[q].code.code == operations[q].opcode
  }

  /** The field carries the code of operation q, and of none before it. */
  ghost predicate Selects(m: Machine, env: Env, bus: nat, operations: seq<Operation>, q: nat) {
    && q < |operations| && bus < |m.buses| && CodeAt(env.word, m.buses[bus].destination, operations[q].code)
    && forall j :: 0 <= j < q ==> !CodeAt(env.word, m.buses[bus].destination, operations[j].code)
  }

  /** A move along this route loads the port. */
  ghost predicate RouteLoads(m: Machine, env: Env, lang: Language, r: Route) {
    r.codes.OpcodeSetting? ==>
      Slices(lang, r.codes.operations) || exists q: nat :: Selects(m, env, r.bus, r.codes.operations, q)
  }

  /** What a move along this route leaves in the opcode register of the unit. */
  ghost predicate OpcodeGiven(after: Registers, before: Registers, m: Machine, env: Env, lang: Language, p: FuPort, r: Route)
    requires r.bus < |m.buses| && ValidRoute(r)
  {
    var x := FuOpcode(p.fu);
    match r.codes
    case SingleCode(_) => SameAt(after, before, x)
    case NoCodes(opcodes) =>
      if opcodes == [] then SameAt(after, before, x) else HasNumber(after, x, p.opcodeWidth, opcodes[|opcodes| - 1])
    case OpcodeSetting(operations) =>
      if Slices(lang, operations) then
        var code := operations[0].code;
        HasBits(after, x, env.word, m.buses[r.bus].destination.pos + code.pos, code.width)
      else
        && (forall q: nat :: Selects(m, env, r.bus, operations, q) ==> HasNumber(after, x, p.opcodeWidth, operations[q].opcode))
        && ((forall q: nat :: !Selects(m, env, r.bus, operations, q)) ==> SameAt(after, before, x))
  }

  ghost predicate CodesInFields(m: Machine, p: FuPort) {
    forall i :: 0 <= i < |p.routes| && p.routes[i].bus < |m.buses| && p.routes[i].codes.OpcodeSetting? ==>
      forall q :: 0 <= q < |p.routes[i].codes.operations| ==>
        TestFits(p.routes[i].codes.operations[q].code, m.buses[p.routes[i].bus].destination.width)
  }

  lemma {:induction false} NumberIsField(v: BitVector)
    ensures FromBits(v) == Field(v, 0, |v|)
  {
    FieldOfSlice(v, 0, |v|);
    assert Slice(v, Range(0, |v|)) == v;
  }

  lemma BitsHaveNumber(regs: Registers, x: Signal, width: nat, n: nat)
    requires x in regs && regs[x] == ToBits(n, width)
    ensures HasNumber(regs, x, width, n)
  {
    NumberIsField(regs[x]);
    FromToBits(n, width);
  }

  lemma SelectsFirst(m: Machine, env: Env, p: FuPort, bus: nat, operations: seq<Operation>, q: nat)
    requires ValidCycle(m, env) && bus < |m.buses|
    ensures Selects(m, env, bus, operations, q)
            <==> q < |operations| && q == FirstTaken(m, env, OperationBranches(p, bus, operations))
  {
    assert ValidBus(m, bus);
    var branches := OperationBranches(p, bus, operations);
    forall j | 0 <= j < |operations|
      ensures EvalCondition(m, env, branches[j].cond) <==> CodeAt(env.word, m.buses[bus].destination, operations[j].code)
    {
      CodeInSlice(env.word, m.buses[bus].destination, operations[j].code);
    }
  }

  /** The loading of a taken route is the one the word asks for. */
  lemma LoadMeans(m: Machine, env: Env, lang: Language, p: FuPort, r: Route)
    requires ValidCycle(m, env) && ValidRoute(r) && r.bus < |m.buses|
    ensures RouteLoading(m, env, lang, p, r).load <==> RouteLoads(m, env, lang, r)
  {
    if r.codes.OpcodeSetting? && !Slices(lang, r.codes.operations) {
      var operations := r.codes.operations;
      forall q: nat
        ensures Selects(m, env, r.bus, operations, q)
                <==> q < |operations| && q == FirstTaken(m, env, OperationBranches(p, r.bus, operations))
      {
        SelectsFirst(m, env, p, r.bus, operations, q);
      }
      SelectsFirst(m, env, p, r.bus, operations, FirstTaken(m, env, OperationBranches(p, r.bus, operations)));
    }
  }

  lemma SlicedBits(m: Machine, env: Env, bus: nat, code: Test, after: Registers, x: Signal)
    requires ValidCycle(m, env) && bus < |m.buses| && TestFits(code, m.buses[bus].destination.width)
    requires x in after && after[x] == EvalValue(m, env, DestinationBits(bus, Range(code.pos, code.width)))
    ensures HasBits(after, x, env.word, m.buses[bus].destination.pos + code.pos, code.width)
  {
    assert ValidBus(m, bus);
    var field, r := DestinationField(m, env, bus), Range(code.pos, code.width);
    forall k: nat | k < code.width
      ensures Bit(after[x], k) == Bit(env.word, m.buses[bus].destination.pos + code.pos + k)
    {
      CutBit(field, r, false, code.width, k);
      BitOfSlice(env.word, m.buses[bus].destination, code.pos + k);
      assert m.buses[bus].destination.pos + (code.pos + k) == m.buses[bus].destination.pos + code.pos + k;
    }
  }

  lemma OpcodeMeans(after: Registers, before: Registers, m: Machine, env: Env, lang: Language, p: FuPort, r: Route)
    requires ValidCycle(m, env) && ValidRoute(r) && r.bus < |m.buses|
    requires r.codes.OpcodeSetting? ==> TestFits(r.codes.operations[0].code, m.buses[r.bus].destination.width)
    requires Shows(after, before, p, RouteLoading(m, env, lang, p, r))
    ensures OpcodeGiven(after, before, m, env, lang, p, r)
  {
    var x := FuOpcode(p.fu);
    match r.codes
    case SingleCode(_) =>
    case NoCodes(opcodes) =>
      if opcodes != [] {
        BitsHaveNumber(after, x, p.opcodeWidth, opcodes[|opcodes| - 1]);
      }
    case OpcodeSetting(operations) =>
      if Slices(lang, operations) {
        SlicedBits(m, env, r.bus, operations[0].code, after, x);
      } else {
        ComparedOpcode(after, before, m, env, p, r.bus, operations);
      }
  }

  lemma ComparedOpcode(after: Registers, before: Registers, m: Machine, env: Env, p: FuPort, bus: nat, operations: seq<Operation>)
    requires ValidCycle(m, env) && bus < |m.buses|
    requires var j := FirstTaken(m, env, OperationBranches(p, bus, operations));
             Shows(after, before, p,
                   if j < |operations| then Loading(true, Some(ToBits(operations[j].opcode, p.opcodeWidth))) else Loading(false, None))
    ensures forall q: nat :: Selects(m, env, bus, operations, q) ==> HasNumber(after, FuOpcode(p.fu), p.opcodeWidth, operations[q].opcode)
    ensures (forall q: nat :: !Selects(m, env, bus, operations, q)) ==> SameAt(after, before, FuOpcode(p.fu))
  {
    var j := FirstTaken(m, env, OperationBranches(p, bus, operations));
    forall q: nat
      ensures Selects(m, env, bus, operations, q) <==> q < |operations| && q == j
    {
      SelectsFirst(m, env, p, bus, operations, q);
    }
    SelectsFirst(m, env, p, bus, operations, j);
    if j < |operations| {
      BitsHaveNumber(after, FuOpcode(p.fu), p.opcodeWidth, operations[j].opcode);
    }
  }

  /** Load and opcode registers after an instruction, from the word alone. */
  ghost predicate PortLoaded(after: Registers, m: Machine, env: Env, lang: Language, p: FuPort) {
    var x := FuLoad(p.fu, p.port);
    && x in after
    && ((exists i: nat :: Uses(m, env, p, i) && RouteLoads(m, env, lang, p.routes[i])) ==> after[x] == [true])
    && (!(exists i: nat :: Uses(m, env, p, i) && RouteLoads(m, env, lang, p.routes[i])) ==> after[x] == [false])
  }

  ghost predicate UnitInstructed(after: Registers, before: Registers, m: Machine, env: Env, lang: Language, p: FuPort)
    requires ValidPort(p)
  {
    && (forall i: nat :: Uses(m, env, p, i) ==> ValidRoute(p.routes[i]) && OpcodeGiven(after, before, m, env, lang, p, p.routes[i]))
    && ((forall i: nat :: !Uses(m, env, p, i)) ==> SameAt(after, before, FuOpcode(p.fu)))
  }

  lemma LoadedMeans(after: Registers, m: Machine, env: Env, lang: Language, p: FuPort)
    requires ValidCycle(m, env) && ValidPort(p) && Loads(after, p, PortLoading(m, env, lang, p))
    ensures PortLoaded(after, m, env, lang, p)
  {
    var t := Taken(m, env, lang, p);
    forall i: nat
      ensures Uses(m, env, p, i) <==> i < |p.routes| && i == t
    {
      UsesTaken(m, env, lang, p, i);
    }
    if t < |p.routes| {
      assert ValidRoute(p.routes[t]);
      assert Uses(m, env, p, t);
      LoadMeans(m, env, lang, p, p.routes[t]);
    }
  }

  lemma InstructedMeans(after: Registers, before: Registers, m: Machine, env: Env, lang: Language, p: FuPort)
    requires ValidCycle(m, env) && ValidPort(p) && CodesInFields(m, p) && Shows(after, before, p, PortLoading(m, env, lang, p))
    ensures UnitInstructed(after, before, m, env, lang, p)
  {
    var t := Taken(m, env, lang, p);
    forall i: nat
      ensures Uses(m, env, p, i) <==> i < |p.routes| && i == t
    {
      UsesTaken(m, env, lang, p, i);
    }
    if t < |p.routes| {
      assert ValidRoute(p.routes[t]);
      assert Uses(m, env, p, t);
      OpcodeMeans(after, before, m, env, lang, p, p.routes[t]);
    }
  }

  /**
   The decoder executes the moves to function units: in every run, after a decoding cycle a port is
   loaded exactly if the word reaches it by a move that happens and, where codes are compared,
   carries the code of an operation; and a port that sets opcodes gives its unit the opcode the word
   asks for, or leaves the old one.
   */
  lemma RunLoadsFromWord(d: Decoder, regs: Registers, cycles: seq<Cycle>, j: nat)
    requires Decodes(d, cycles) && PortsApart(d) && j < |d.ports| && CodesInFields(d.m, d.ports[j])
    ensures var n, p := |cycles| - 1, d.ports[j];
            var after, before, env := Run(d, regs, cycles), Run(d, regs, cycles[..n]), cycles[n].env;
            && PortLoaded(after, d.m, env, d.language, p)
            && (SetsOpcode(p) ==> UnitInstructed(after, before, d.m, env, d.language, p))
  {
    var n, p := |cycles| - 1, d.ports[j];
    var after, before, env := Run(d, regs, cycles), Run(d, regs, cycles[..n]), cycles[n].env;
    RunLoadsPorts(d, regs, cycles, j);
    LoadedMeans(after, d.m, env, d.language, p);
    if SetsOpcode(p) {
      InstructedMeans(after, before, d.m, env, d.language, p);
    }
  }

  // ---------------------------------------------------------------------------------------
  // Bus selection of input sockets
  // ---------------------------------------------------------------------------------------

  /** The word uses this route of the port, and the route sets the socket's bus control. */
  ghost predicate Steers(m: Machine, env: Env, p: FuPort, i: nat) {
    Uses(m, env, p, i) && p.routes[i].control.Some?
  }

  ghost predicate Steering(m: Machine, env: Env, p: FuPort, socket: nat) {
    p.socket == socket && exists i: nat :: Steers(m, env, p, i)
  }

  ghost predicate IsSteered(after: Registers, socket: nat, v: BitVector) {
    InputSocketControl(socket) in after && after[InputSocketControl(socket)] == v
  }

  lemma RouteSteers(m: Machine, env: Env, lang: Language, p: FuPort, r: Route, regs: Registers)
    requires ValidCycle(m, env) && ValidRoute(r)
    ensures var after := Exec(m, RouteBranch(lang, p, r).body, env, regs);
            if r.control.Some? then IsSteered(after, p.socket, r.control.value)
            else SameAt(after, regs, InputSocketControl(p.socket))
  {
    var x := InputSocketControl(p.socket);
    ExecConcat(m, LoadStatements(lang, p, r), ControlStatements(p, r), env, regs);
    LoadsWrite(lang, p, r, x);
    var loaded := Exec(m, LoadStatements(lang, p, r), env, regs);
    Unwritten(m, LoadStatements(lang, p, r), env, regs, x);
    if r.control.Some? {
      ExecSingleton(m, Assign(x, Constant(r.control.value)), env, loaded);
    }
  }

  lemma PortSteers(m: Machine, env: Env, lang: Language, p: FuPort, regs: Registers)
    requires ValidCycle(m, env) && ValidPort(p)
    ensures var after := Exec(m, PortRules(lang, p), env, regs);
            && (forall i: nat :: Steers(m, env, p, i) ==> IsSteered(after, p.socket, p.routes[i].control.value))
            && (!Steering(m, env, p, p.socket) ==> SameAt(after, regs, InputSocketControl(p.socket)))
  {
    var t := Taken(m, env, lang, p);
    ExecChain(m, RouteBranches(lang, p), [SetLoad(p, false)], env, regs);
    forall i: nat
      ensures Uses(m, env, p, i) <==> i < |p.routes| && i == t
    {
      UsesTaken(m, env, lang, p, i);
    }
    if t < |p.routes| {
      assert ValidRoute(p.routes[t]);
      assert Uses(m, env, p, t);
      RouteSteers(m, env, lang, p, p.routes[t], regs);
      if p.routes[t].control.Some? {
        assert Steers(m, env, p, t);
      }
    } else {
      ExecSingleton(m, SetLoad(p, false), env, regs);
    }
  }

  lemma OtherSocketStays(m: Machine, env: Env, lang: Language, p: FuPort, regs: Registers, socket: nat)
    requires ValidCycle(m, env) && ValidPort(p) && p.socket != socket
    ensures SameAt(Exec(m, PortRules(lang, p), env, regs), regs, InputSocketControl(socket))
  {
    PortWrites(lang, p, InputSocketControl(socket));
    Unwritten(m, PortRules(lang, p), env, regs, InputSocketControl(socket));
  }

  /** Port j steers the socket by its route i, and no port between j and n does. */
  ghost predicate SteersLast(d: Decoder, env: Env, n: nat, socket: nat, j: nat, i: nat) {
    && j < n <= |d.ports| && d.ports[j].socket == socket && Steers(d.m, env, d.ports[j], i)
    && forall k :: j < k < n ==> !Steering(d.m, env, d.ports[k], socket)
  }

  lemma NotSteered(d: Decoder, env: Env, k: nat, socket: nat, regs: Registers)
    requires ValidDecoder(d) && ValidCycle(d.m, env) && k < |d.ports| && !Steering(d.m, env, d.ports[k], socket)
    ensures SameAt(Exec(d.m, PortRules(d.language, d.ports[k]), env, regs), regs, InputSocketControl(socket))
  {
    if d.ports[k].socket == socket {
      PortSteers(d.m, env, d.language, d.ports[k], regs);
    } else {
      OtherSocketStays(d.m, env, d.language, d.ports[k], regs, socket);
    }
  }

  lemma {:induction false} SteeredByLast(d: Decoder, env: Env, n: nat, socket: nat, j: nat, i: nat, regs: Registers)
    requires ValidDecoder(d) && ValidCycle(d.m, env) && SteersLast(d, env, n, socket, j, i)
    ensures IsSteered(Exec(d.m, PortsRules(d, n), env, regs), socket, d.ports[j].routes[i].control.value)
    decreases n
  {
    if j == n - 1 {
      PortsLast(d, env, n - 1, regs);
      PortSteers(d.m, env, d.language, d.ports[j], Exec(d.m, PortsRules(d, n - 1), env, regs));
    } else {
      SteeredByLast(d, env, n - 1, socket, j, i, regs);
      LastNotSteered(d, env, n, socket, regs);
    }
  }

  lemma {:induction false} SteeredByNone(d: Decoder, env: Env, n: nat, socket: nat, regs: Registers)
    requires ValidDecoder(d) && ValidCycle(d.m, env) && n <= |d.ports|
    requires forall k :: 0 <= k < n ==> !Steering(d.m, env, d.ports[k], socket)
    ensures SameAt(Exec(d.m, PortsRules(d, n), env, regs), regs, InputSocketControl(socket))
    decreases n
  {
    if n > 0 {
      SteeredByNone(d, env, n - 1, socket, regs);
      LastNotSteered(d, env, n, socket, regs);
    }
  }

  lemma LastNotSteered(d: Decoder, env: Env, n: nat, socket: nat, regs: Registers)
    requires ValidDecoder(d) && ValidCycle(d.m, env) && 0 < n <= |d.ports| && !Steering(d.m, env, d.ports[n - 1], socket)
    ensures SameAt(Exec(d.m, PortsRules(d, n), env, regs), Exec(d.m, PortsRules(d, n - 1), env, regs), InputSocketControl(socket))
  {
    PortsLast(d, env, n - 1, regs);
    NotSteered(d, env, n - 1, socket, Exec(d.m, PortsRules(d, n - 1), env, regs));
  }

  lemma SourcesLeaveSocket(d: Decoder, env: Env, socket: nat, regs: Registers)
    requires ValidDecoder(d) && ValidCycle(d.m, env)
    ensures SameAt(Exec(d.m, SourceRules(d.m), env, regs), regs, InputSocketControl(socket))
    ensures Exec(d.m, MainRules(d), env, regs)
            == Exec(d.m, PortsRules(d, |d.ports|), env, Exec(d.m, SourceRules(d.m), env, regs))
  {
    OtherSignalsUntouched(d.m, InputSocketControl(socket));
    Unwritten(d.m, SourceRules(d.m), env, regs, InputSocketControl(socket));
    ExecConcat(d.m, SourceRules(d.m), PortsRules(d, |d.ports|), env, regs);
  }

  /**
   In every run, after a decoding cycle the bus control of an input socket is that of the route the
   word uses, of the last port if several ports of the socket are reached; if none is, it stays.
   */
  lemma RunSteersSockets(d: Decoder, regs: Registers, cycles: seq<Cycle>, socket: nat, j: nat, i: nat)
    requires Decodes(d, cycles)
    ensures var n := |cycles| - 1;
            var after, before, env := Run(d, regs, cycles), Run(d, regs, cycles[..n]), cycles[n].env;
            && (SteersLast(d, env, |d.ports|, socket, j, i) ==> IsSteered(after, socket, d.ports[j].routes[i].control.value))
            && ((forall k :: 0 <= k < |d.ports| ==> !Steering(d.m, env, d.ports[k], socket)) ==>
                  SameAt(after, before, InputSocketControl(socket)))
  {
    var n := |cycles| - 1;
    var before, c := Run(d, regs, cycles[..n]), cycles[n];
    var sources := Exec(d.m, SourceRules(d.m), c.env, before);
    SourcesLeaveSocket(d, c.env, socket, before);
    UnitsLeave(d, MainStep(d, before, c), c, InputSocketControl(socket));
    if SteersLast(d, c.env, |d.ports|, socket, j, i) {
      SteeredByLast(d, c.env, |d.ports|, socket, j, i, sources);
    }
    if forall k :: 0 <= k < |d.ports| ==> !Steering(d.m, c.env, d.ports[k], socket) {
      SteeredByNone(d, c.env, |d.ports|, socket, sources);
    }
  }

  // ---------------------------------------------------------------------------------------
  // Long immediates
  // ---------------------------------------------------------------------------------------

  /** The bits that the first n slots hold for unit i. */
  function SlotTotal(slots: seq<I.Slot>, n: nat, i: nat): nat
    requires n <= |slots|
  {
    if n == 0 then 0 else SlotTotal(slots, n - 1, i) + if slots[n - 1].unit == i then slots[n - 1].width else 0
  }

  /** Bit k of the immediate in the first n slots: the last slot of the unit holds the lowest bits. */
  predicate SlotBit(slots: seq<I.Slot>, n: nat, i: nat, word: BitVector, k: nat)
    requires n <= |slots|
  {
    n > 0 &&
    var s := slots[n - 1];
    if s.unit != i then SlotBit(slots, n - 1, i, word, k)
    else if k < s.width then Bit(word, s.position + k)
    else SlotBit(slots, n - 1, i, word, k - s.width)
  }

  /** Bit k of the immediate, extended above its top bit. */
  predicate ImmediateBit(slots: seq<I.Slot>, i: nat, sign: bool, word: BitVector, k: nat) {
    var total := SlotTotal(slots, |slots|, i);
    if k < total then SlotBit(slots, |slots|, i, word, k) else sign && total > 0 && SlotBit(slots, |slots|, i, word, total - 1)
  }

  lemma BitOfConcat(a: BitVector, b: BitVector, k: nat)
    ensures Bit(a + b, k) == if k < |b| then Bit(b, k) else Bit(a, k - |b|)
  {
  }

  lemma {:induction false} FragmentsOfPrefix(slots: seq<I.Slot>, more: I.Slot, word: BitVector, n: nat)
    requires n <= |slots| && I.SlotsInWord(slots + [more], word)
    ensures I.SlotsInWord(slots, word)
    ensures I.Fragments(slots + [more], word, n) == I.Fragments(slots, word, n)
    decreases n
  {
    assert forall q :: 0 <= q < |slots| ==> (slots + [more])[q] == slots[q];
    if n > 0 {
      FragmentsOfPrefix(slots, more, word, n - 1);
    }
  }

  /** The concatenated fragments, bit by bit. */
  lemma {:induction false} FragmentBits(slots: seq<I.Slot>, n: nat, i: nat, word: BitVector)
    requires n <= |slots| && I.SlotsInWord(I.SlotsOf(slots[..n], i), word)
    ensures var own := I.SlotsOf(slots[..n], i);
            var f := I.Fragments(own, word, |own|);
            |f| == SlotTotal(slots, n, i) && forall k: nat :: k < |f| ==> Bit(f, k) == SlotBit(slots, n, i, word, k)
    decreases n
  {
    if n > 0 {
      var s, others := slots[n - 1], I.SlotsOf(slots[..n - 1], i);
      assert slots[..n][..n - 1] == slots[..n - 1];
      if s.unit == i {
        FragmentsOfPrefix(others, s, word, |others|);
        FragmentBits(slots, n - 1, i, word);
        FragmentStep(slots, n, i, word);
      } else {
        FragmentBits(slots, n - 1, i, word);
      }
    }
  }

  lemma FragmentStep(slots: seq<I.Slot>, n: nat, i: nat, word: BitVector)
    requires 0 < n <= |slots| && slots[n - 1].unit == i
    requires I.SlotsInWord(I.SlotsOf(slots[..n - 1], i) + [slots[n - 1]], word)
    requires I.SlotsInWord(I.SlotsOf(slots[..n - 1], i), word)
    requires var others := I.SlotsOf(slots[..n - 1], i);
             var f := I.Fragments(others, word, |others|);
             |f| == SlotTotal(slots, n - 1, i) && forall k: nat :: k < |f| ==> Bit(f, k) == SlotBit(slots, n - 1, i, word, k)
    ensures var own := I.SlotsOf(slots[..n - 1], i) + [slots[n - 1]];
            var f := I.Fragments(own, word, |own|);
            |f| == SlotTotal(slots, n, i) && forall k: nat :: k < |f| ==> Bit(f, k) == SlotBit(slots, n, i, word, k)
  {
    var s, others := slots[n - 1], I.SlotsOf(slots[..n - 1], i);
    assert (others + [s])[|others|] == s;
    var before, last := I.Fragments(others, word, |others|), Slice(word, Range(s.position, s.width));
    FragmentsOfPrefix(others, s, word, |others|);
    var f := I.Fragments(others + [s], word, |others| + 1);
    assert f == before + last;
    forall k: nat | k < |f|
      ensures Bit(f, k) == SlotBit(slots, n, i, word, k)
    {
      BitOfConcat(before, last, k);
      if k < s.width {
        BitOfSlice(word, Range(s.position, s.width), k);
      }
    }
  }

  lemma {:induction false} SlotsOfUnit(slots: seq<I.Slot>, i: nat)
    ensures I.SlotsOf(slots, i) != [] <==> exists q :: 0 <= q < |slots| && slots[q].unit == i
    decreases |slots|
  {
    if slots != [] {
      var n := |slots| - 1;
      SlotsOfUnit(slots[..n], i);
      forall q | 0 <= q < n
        ensures slots[..n][q] == slots[q]
      {
      }
    }
  }

  ghost predicate Feeds(t: I.Template, i: nat) {
    exists q :: 0 <= q < |t.slots| && t.slots[q].unit == i
  }

  /** Load, data and register index of unit i after an instruction of template t, from the word alone. */
  ghost predicate UnitShows(after: Registers, before: Registers, t: I.Template, i: nat, u: I.Unit, word: BitVector) {
    && IuLoad(i) in after && after[IuLoad(i)] == [Feeds(t, i)]
    && (Feeds(t, i) || t.slots == [] ==> IuData(i) in after && |after[IuData(i)]| == u.width)
    && (Feeds(t, i) ==>
          forall k: nat :: k < u.width ==> Bit(after[IuData(i)], k) == ImmediateBit(t.slots, i, u.signExtends, word, k))
    && (t.slots == [] ==> forall k: nat :: k < u.width ==> !Bit(after[IuData(i)], k))
    && (!Feeds(t, i) && t.slots != [] ==> SameAt(after, before, IuData(i)))
    && if Feeds(t, i) && u.opcodeWidth > 0 && i in t.registerFields then
         HasBits(after, IuOpcode(i), word, t.registerFields[i], u.opcodeWidth)
       else SameAt(after, before, IuOpcode(i))
  }

  lemma DataShows(data: BitVector, t: I.Template, i: nat, u: I.Unit, word: BitVector, k: nat)
    requires var slots := I.SlotsOf(t.slots, i);
             I.SlotsInWord(slots, word) && data == Resize(u.signExtends, I.Fragments(slots, word, |slots|), u.width)
    requires k < u.width
    ensures Bit(data, k) == ImmediateBit(t.slots, i, u.signExtends, word, k)
  {
    var slots := I.SlotsOf(t.slots, i);
    assert t.slots[..|t.slots|] == t.slots;
    FragmentBits(t.slots, |t.slots|, i, word);
    ResizeBit(u.signExtends, I.Fragments(slots, word, |slots|), u.width, k);
  }

  lemma SliceHasBits(regs: Registers, x: Signal, word: BitVector, pos: nat, width: nat)
    requires pos + width <= |word| && x in regs && regs[x] == Slice(word, Range(pos, width))
    ensures HasBits(regs, x, word, pos, width)
  {
    forall k: nat | k < width {
      BitOfSlice(word, Range(pos, width), k);
    }
  }

  lemma WrittenShows(after: Registers, before: Registers, t: I.Template, i: nat, u: I.Unit, word: BitVector)
    requires I.FitsUnit(t, i, u, word) && I.Written(after, before, t, i, u, word)
    ensures UnitShows(after, before, t, i, u, word)
  {
    SlotsOfUnit(t.slots, i);
    if Feeds(t, i) {
      forall k: nat | k < u.width {
        DataShows(after[IuData(i)], t, i, u, word, k);
      }
      if I.WritesIndex(t, i, u) {
        SliceHasBits(after, IuOpcode(i), word, t.registerFields[i], u.opcodeWidth);
      }
    }
  }

  /**
   In every run that begins with a reset, after a decoding cycle with an instruction of template k
   every unit that the template feeds is loaded with the bits of its slots, the last slot lowest and
   the top extended, and with its register index; every other unit is not loaded.
   */
  lemma RunWritesFromWord(d: Decoder, regs: Registers, cycles: seq<Cycle>, k: nat, i: nat)
    requires ValidCycles(d, cycles) && |cycles| > 1 && cycles[0].reset && I.DistinctTags(d.templates)
    requires var c := cycles[|cycles| - 1]; !c.reset && !c.lock
    requires k < |d.templates| && i < |d.units|
    requires var word := cycles[|cycles| - 1].env.word;
             d.templates[k].tag == Field(word, d.m.tag.pos, d.m.tag.width) && I.FitsUnit(d.templates[k], i, d.units[i], word)
    ensures var n := |cycles| - 1;
            var after, before := Run(d, regs, cycles), Run(d, regs, cycles[..n]);
            if |d.templates| == 1 && d.templates[0].slots == [] then UnitStays(after, before, i)
            else UnitShows(after, before, d.templates[k], i, d.units[i], cycles[n].env.word)
  {
    var n := |cycles| - 1;
    var word := cycles[n].env.word;
    FieldOfSlice(word, d.m.tag.pos, d.m.tag.width);
    RunWritesImmediates(d, regs, cycles, k, i);
    if !I.NoProcess(d.templates) {
      WrittenShows(Run(d, regs, cycles), Run(d, regs, cycles[..n]), d.templates[k], i, d.units[i], word);
    }
  }
}
