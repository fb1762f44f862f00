/**
 Rules for the input ports of function units (DefaultDecoderGenerator.cc:3055-3339 and 4641-4681),
 in the two languages the generator writes.
 */
module DecoderDestinations {
  import opened Wrappers
  import opened BitVectors
  import opened DecoderRules

  datatype Language = VHDL | Verilog

  /** An operation of the unit: its code in the destination field and the opcode the unit
      expects.  For the control unit the opcodes are those of IFE_CALL and IFE_JUMP, 0 and 1. */
  datatype Operation = Operation(code: Test, opcode: nat)

  datatype PortCodes =
    | NoCodes(opcodes: seq<nat>)
    | SingleCode(code: Test)
    | OpcodeSetting(operations: seq<Operation>)

  /** How a move on a bus reaches the port; `control` is the value of the socket's bus control
      register that selects the bus, if the socket has one. */
  datatype Route = Route(bus: nat, socketTest: Test, codes: PortCodes, control: Option<BitVector>)

  datatype FuPort = FuPort(fu: nat, port: nat, socket: nat, opcodeWidth: nat, routes: seq<Route>)

  predicate ValidRoute(r: Route) {
    r.codes.OpcodeSetting? ==> r.codes.operations != []
  }

  predicate ValidPort(p: FuPort) {
    forall i :: 0 <= i < |p.routes| ==> ValidRoute(p.routes[i])
  }

  // ---------------------------------------------------------------------------------------
  // Generated rules
  // ---------------------------------------------------------------------------------------

  function SetLoad(p: FuPort, on: bool): Statement {
    Assign(FuLoad(p.fu, p.port), Constant(if on then ONE else ZERO))
  }

  function SetOpcode(p: FuPort, opcode: nat): Statement {
    Assign(FuOpcode(p.fu), Constant(ToBits(opcode, p.opcodeWidth)))
  }

  function OperationBranches(p: FuPort, bus: nat, operations: seq<Operation>): seq<Branch> {
    seq(|operations|, i requires 0 <= i < |operations| =>
      Branch(CodeTest(bus, operations[i].code), [SetLoad(p, true), SetOpcode(p, operations[i].opcode)]))
  }

  /** One comparison for each operation; no load when none matches. */
  function ComparisonChain(p: FuPort, bus: nat, operations: seq<Operation>): seq<Statement> {
    Chain(OperationBranches(p, bus, operations), [SetLoad(p, false)])
  }

  /** Codes and opcodes agree. */
  predicate Ordered(operations: seq<Operation>) {
    forall i :: 0 <= i < |operations| ==> operations[i].code.code == operations[i].opcode
  }

  /** The opcode taken directly from the field. */
  function DirectSlice(p: FuPort, bus: nat, first: Operation): seq<Statement> {
    [SetLoad(p, true), Assign(FuOpcode(p.fu), DestinationBits(bus, Range(first.code.pos, first.code.width)))]
  }

  function RouteCondition(r: Route): Condition {
    if r.codes.SingleCode? then Both(DestinationTest(r.bus, r.socketTest), CodeTest(r.bus, r.codes.code))
    else DestinationTest(r.bus, r.socketTest)
  }

  function OpcodeAssignments(p: FuPort, opcodes: seq<nat>): seq<Statement> {
    seq(|opcodes|, i requires 0 <= i < |opcodes| => SetOpcode(p, opcodes[i]))
  }

  function LoadStatements(lang: Language, p: FuPort, r: Route): seq<Statement>
    requires ValidRoute(r)
  {
    match r.codes
    case NoCodes(opcodes) => [SetLoad(p, true)] + OpcodeAssignments(p, opcodes)
    case SingleCode(_) => [SetLoad(p, true)]
    case OpcodeSetting(operations) =>
      if lang == VHDL && Ordered(operations) then DirectSlice(p, r.bus, operations[0])
      else ComparisonChain(p, r.bus, operations)
  }

  function ControlStatements(p: FuPort, r: Route): seq<Statement> {
    if r.control.Some? then [Assign(InputSocketControl(p.socket), Constant(r.control.value))] else []
  }

  function RouteBranch(lang: Language, p: FuPort, r: Route): Branch
    requires ValidRoute(r)
  {
    Branch(RouteCondition(r), LoadStatements(lang, p, r) + ControlStatements(p, r))
  }

  function RouteBranches(lang: Language, p: FuPort): seq<Branch>
    requires ValidPort(p)
  {
    seq(|p.routes|, i requires 0 <= i < |p.routes| => RouteBranch(lang, p, p.routes[i]))
  }

  function PortRules(lang: Language, p: FuPort): seq<Statement>
    requires ValidPort(p)
  {
    Chain(RouteBranches(lang, p), [SetLoad(p, false)])
  }

  method CheckOrdered(operations: seq<Operation>) returns (ordered: bool)
    ensures ordered == Ordered(operations)
  {
    ordered := true;
    for i := 0 to |operations|
      invariant ordered && forall j :: 0 <= j < i ==> operations[j].code.code == operations[j].opcode
    {
      if operations[i].code.code != operations[i].opcode {
        return false;
      }
    }
  }

  method WriteOperationChain(p: FuPort, bus: nat, operations: seq<Operation>) returns (body: seq<Statement>)
    ensures body == ComparisonChain(p, bus, operations)
  {
    var branches := [];
    for i := 0 to |operations|
      invariant branches == OperationBranches(p, bus, operations)[..i]
    {
      branches := branches + [Branch(CodeTest(bus, operations[i].code),
                                     [SetLoad(p, true), SetOpcode(p, operations[i].opcode)])];
    }
    assert branches == OperationBranches(p, bus, operations);
    body := Chain(branches, [SetLoad(p, false)]);
  }

  /** One round of the loop over the sockets' segments: the condition and what it guards. */
  method WriteRoute(lang: Language, p: FuPort, r: Route) returns (cond: Condition, body: seq<Statement>)
    requires ValidRoute(r)
    ensures Branch(cond, body) == RouteBranch(lang, p, r)
  {
    match r.codes {
      case OpcodeSetting(operations) =>
        cond := DestinationTest(r.bus, r.socketTest);
        var ordered := false;
        if lang == VHDL {
          ordered := CheckOrdered(operations);
        }
        if ordered {
          body := DirectSlice(p, r.bus, operations[0]);
        } else {
          body := WriteOperationChain(p, r.bus, operations);
        }
      case SingleCode(code) =>
        cond := Both(DestinationTest(r.bus, r.socketTest), CodeTest(r.bus, code));
        body := [SetLoad(p, true)];
      case NoCodes(opcodes) =>
        cond := DestinationTest(r.bus, r.socketTest);
        body := [SetLoad(p, true)] + OpcodeAssignments(p, opcodes);
    }
    if r.control.Some? {
      body := body + [Assign(InputSocketControl(p.socket), Constant(r.control.value))];
    }
    assert body == LoadStatements(lang, p, r) + ControlStatements(p, r);
  }

  method WriteControlRulesOfFUInputPort(lang: Language, p: FuPort) returns (rules: seq<Statement>)
    requires ValidPort(p)
    ensures rules == PortRules(lang, p)
  {
    var branches := [];
    for i := 0 to |p.routes|
      invariant branches == RouteBranches(lang, p)[..i]
    {
      assert ValidRoute(p.routes[i]);
      var cond, body := WriteRoute(lang, p, p.routes[i]);
      branches := branches + [Branch(cond, body)];
    }
    assert branches == RouteBranches(lang, p);
    rules := Chain(branches, [SetLoad(p, false)]);
  }

  // ---------------------------------------------------------------------------------------
  // The direct slice against the comparison chain
  // ---------------------------------------------------------------------------------------

  /** All codes of the unit occupy the same bits, as many as its opcode register has. */
  ghost predicate EqualWidths(p: FuPort, operations: seq<Operation>) {
    && operations != [] && p.opcodeWidth > 0
    && forall i :: 0 <= i < |operations| ==>
         operations[i].code.pos == operations[0].code.pos && operations[i].code.width == p.opcodeWidth
  }

  ghost predicate IsOperationCode(operations: seq<Operation>, v: nat) {
    exists i :: 0 <= i < |operations| && operations[i].code.code == v
  }

  /** The code bits of a route's field. */
  function CodeBits(m: Machine, env: Env, bus: nat, first: Operation): BitVector
    requires ValidCycle(m, env) && bus < |m.buses| && TestFits(first.code, |DestinationField(m, env, bus)|)
  {
    Slice(DestinationField(m, env, bus), Range(first.code.pos, first.code.width))
  }

  lemma ExecTwo(m: Machine, a: Statement, b: Statement, env: Env, regs: Registers)
    requires ValidCycle(m, env)
    ensures Exec(m, [a, b], env, regs) == ExecOne(m, b, env, ExecOne(m, a, env, regs))
  {
    assert [a, b] == [a] + [b];
    ExecAppend(m, [a], b, env, regs);
    ExecSingleton(m, a, env, regs);
  }

  lemma {:induction false} BitsOfNumber(b: BitVector)
    ensures ToBits(FromBits(b), |b|) == b
  {
    if b != [] {
      BitsOfNumber(b[..|b| - 1]);
    }
  }

  lemma ChainOutcome(m: Machine, p: FuPort, bus: nat, operations: seq<Operation>, env: Env, regs: Registers)
    requires ValidCycle(m, env) && bus < |m.buses| && EqualWidths(p, operations) && Ordered(operations)
    requires TestFits(operations[0].code, |DestinationField(m, env, bus)|)
    ensures var bits := CodeBits(m, env, bus, operations[0]);
            Exec(m, ComparisonChain(p, bus, operations), env, regs)
            == if IsOperationCode(operations, FromBits(bits)) then regs[FuLoad(p.fu, p.port) := ONE][FuOpcode(p.fu) := bits]
               else regs[FuLoad(p.fu, p.port) := ZERO]
  {
    var bits, branches := CodeBits(m, env, bus, operations[0]), OperationBranches(p, bus, operations);
    ExecChain(m, branches, [SetLoad(p, false)], env, regs);
    forall j | 0 <= j < |operations|
      ensures EvalCondition(m, env, branches[j].cond) <==> operations[j].code.code == FromBits(bits)
    {
    }
    var i := FirstTaken(m, env, branches);
    if i < |branches| {
      ExecTwo(m, SetLoad(p, true), SetOpcode(p, operations[i].opcode), env, regs);
      BitsOfNumber(bits);
    } else {
      ExecSingleton(m, SetLoad(p, false), env, regs);
    }
  }

  lemma SliceOutcome(m: Machine, p: FuPort, bus: nat, operations: seq<Operation>, env: Env, regs: Registers)
    requires ValidCycle(m, env) && bus < |m.buses| && operations != []
    requires TestFits(operations[0].code, |DestinationField(m, env, bus)|)
    ensures Exec(m, DirectSlice(p, bus, operations[0]), env, regs)
            == regs[FuLoad(p.fu, p.port) := ONE][FuOpcode(p.fu) := CodeBits(m, env, bus, operations[0])]
  {
    var s := DirectSlice(p, bus, operations[0]);
    ExecTwo(m, s[0], s[1], env, regs);
    var bits := CodeBits(m, env, bus, operations[0]);
    assert Resize(false, bits, |bits|) == bits;
  }

  /**
   When codes and opcodes agree, taking the opcode directly from the field does the same as the
   chain of comparisons exactly on the fields that carry the code of one of the operations.
   */
  lemma SliceRefinesChain(m: Machine, p: FuPort, bus: nat, operations: seq<Operation>, env: Env, regs: Registers)
    requires ValidCycle(m, env) && bus < |m.buses| && EqualWidths(p, operations) && Ordered(operations)
    requires TestFits(operations[0].code, |DestinationField(m, env, bus)|)
    ensures Exec(m, DirectSlice(p, bus, operations[0]), env, regs) == Exec(m, ComparisonChain(p, bus, operations), env, regs)
            <==> IsOperationCode(operations, FromBits(CodeBits(m, env, bus, operations[0])))
  {
    ChainOutcome(m, p, bus, operations, env, regs);
    SliceOutcome(m, p, bus, operations, env, regs);
    var load := FuLoad(p.fu, p.port);
    assert regs[load := ONE][FuOpcode(p.fu) := CodeBits(m, env, bus, operations[0])][load] == ONE;
    assert regs[load := ZERO][load] == ZERO;
  }

  /** The route the port takes in this cycle, or the number of routes. */
  function Taken(m: Machine, env: Env, lang: Language, p: FuPort): nat
    requires ValidCycle(m, env) && ValidPort(p)
  {
    FirstTaken(m, env, RouteBranches(lang, p))
  }

  lemma {:induction false} FirstTakenByConditions(m: Machine, env: Env, a: seq<Branch>, b: seq<Branch>)
    requires ValidCycle(m, env) && |a| == |b|
    requires forall i :: 0 <= i < |a| ==> a[i].cond == b[i].cond
    ensures FirstTaken(m, env, a) == FirstTaken(m, env, b)
    decreases |a|
  {
    if a != [] {
      assert a[0].cond == b[0].cond;
      FirstTakenByConditions(m, env, a[1..], b[1..]);
    }
  }

  /** In this cycle the port is reached through codes that VHDL slices instead of comparing. */
  ghost predicate TakesSlice(m: Machine, env: Env, p: FuPort)
    requires ValidCycle(m, env) && ValidPort(p)
  {
    var i := Taken(m, env, VHDL, p);
    i < |p.routes| && p.routes[i].codes.OpcodeSetting? && Ordered(p.routes[i].codes.operations)
  }

  /** ... and the field carries the code of one of the operations. */
  ghost predicate CarriesOperation(m: Machine, env: Env, p: FuPort)
    requires ValidCycle(m, env) && ValidPort(p) && TakesSlice(m, env, p) && UniformCodes(m, env, p)
  {
    var r := p.routes[Taken(m, env, VHDL, p)];
    IsOperationCode(r.codes.operations, FromBits(CodeBits(m, env, r.bus, r.codes.operations[0])))
  }

  ghost predicate RouteCodesFit(m: Machine, env: Env, p: FuPort, r: Route)
    requires ValidCycle(m, env)
  {
    r.codes.OpcodeSetting? ==>
      && EqualWidths(p, r.codes.operations) && r.bus < |m.buses|
      && TestFits(r.codes.operations[0].code, |DestinationField(m, env, r.bus)|)
  }

  ghost predicate UniformCodes(m: Machine, env: Env, p: FuPort)
    requires ValidCycle(m, env)
  {
    forall i :: 0 <= i < |p.routes| ==> RouteCodesFit(m, env, p, p.routes[i])
  }

  lemma ControlKeepsLoad(m: Machine, p: FuPort, r: Route, env: Env, regs: Registers)
    requires ValidCycle(m, env)
    ensures SameAt(Exec(m, ControlStatements(p, r), env, regs), regs, FuLoad(p.fu, p.port))
  {
    assert !Writes(ControlStatements(p, r), FuLoad(p.fu, p.port));
    Unwritten(m, ControlStatements(p, r), env, regs, FuLoad(p.fu, p.port));
  }

  lemma ControlAfterEqualLoads(m: Machine, p: FuPort, r: Route, env: Env, a: Registers, b: Registers)
    requires ValidCycle(m, env)
    requires a != b ==> !SameAt(a, b, FuLoad(p.fu, p.port))
    ensures Exec(m, ControlStatements(p, r), env, a) == Exec(m, ControlStatements(p, r), env, b) <==> a == b
  {
    ControlKeepsLoad(m, p, r, env, a);
    ControlKeepsLoad(m, p, r, env, b);
  }

  lemma SlicedRouteAgrees(m: Machine, p: FuPort, r: Route, operations: seq<Operation>, env: Env, regs: Registers)
    requires ValidCycle(m, env) && r.bus < |m.buses| && EqualWidths(p, operations) && Ordered(operations)
    requires TestFits(operations[0].code, |DestinationField(m, env, r.bus)|)
    ensures Exec(m, DirectSlice(p, r.bus, operations[0]) + ControlStatements(p, r), env, regs)
            == Exec(m, ComparisonChain(p, r.bus, operations) + ControlStatements(p, r), env, regs)
            <==> IsOperationCode(operations, FromBits(CodeBits(m, env, r.bus, operations[0])))
  {
    var x, y := DirectSlice(p, r.bus, operations[0]), ComparisonChain(p, r.bus, operations);
    ExecConcat(m, x, ControlStatements(p, r), env, regs);
    ExecConcat(m, y, ControlStatements(p, r), env, regs);
    SliceRefinesChain(m, p, r.bus, operations, env, regs);
    SliceOutcome(m, p, r.bus, operations, env, regs);
    ChainOutcome(m, p, r.bus, operations, env, regs);
    assert ONE != ZERO;
    ControlAfterEqualLoads(m, p, r, env, Exec(m, x, env, regs), Exec(m, y, env, regs));
  }

  /** The statements of the route that is taken, or the load set to zero. */
  lemma PortOutcome(m: Machine, lang: Language, p: FuPort, i: nat, env: Env, regs: Registers)
    requires ValidCycle(m, env) && ValidPort(p) && i == Taken(m, env, lang, p)
    ensures i < |p.routes| ==> Exec(m, PortRules(lang, p), env, regs) == Exec(m, RouteBranches(lang, p)[i].body, env, regs)
    ensures i >= |p.routes| ==> Exec(m, PortRules(lang, p), env, regs) == Exec(m, [SetLoad(p, false)], env, regs)
  {
    ExecChain(m, RouteBranches(lang, p), [SetLoad(p, false)], env, regs);
  }

  lemma RouteAgrees(m: Machine, p: FuPort, r: Route, env: Env, regs: Registers)
    requires ValidCycle(m, env) && ValidRoute(r) && RouteCodesFit(m, env, p, r)
    ensures Exec(m, RouteBranch(VHDL, p, r).body, env, regs) == Exec(m, RouteBranch(Verilog, p, r).body, env, regs)
            <==> (r.codes.OpcodeSetting? && Ordered(r.codes.operations) ==>
                    IsOperationCode(r.codes.operations, FromBits(CodeBits(m, env, r.bus, r.codes.operations[0]))))
  {
    if r.codes.OpcodeSetting? && Ordered(r.codes.operations) {
      SlicedRouteAgrees(m, p, r, r.codes.operations, env, regs);
    } else {
      assert RouteBranch(VHDL, p, r) == RouteBranch(Verilog, p, r);
    }
  }

  /**
   The two languages describe the same port exactly in the cycles in which the move that reaches
   it, if VHDL slices its code, carries a code of one of the unit's operations.
   */
  lemma LanguagesAgree(m: Machine, p: FuPort, env: Env, regs: Registers)
    requires ValidCycle(m, env) && ValidPort(p) && UniformCodes(m, env, p)
    ensures Exec(m, PortRules(VHDL, p), env, regs) == Exec(m, PortRules(Verilog, p), env, regs)
            <==> (TakesSlice(m, env, p) ==> CarriesOperation(m, env, p))
  {
    var i := Taken(m, env, VHDL, p);
    FirstTakenByConditions(m, env, RouteBranches(VHDL, p), RouteBranches(Verilog, p));
    PortOutcome(m, VHDL, p, i, env, regs);
    PortOutcome(m, Verilog, p, i, env, regs);
    if i < |p.routes| {
      assert ValidRoute(p.routes[i]);
      RouteAgrees(m, p, p.routes[i], env, regs);
    }
  }

  /** One bus of which the only instruction bit is the destination field. */
  function OneBitMachine(): Machine {
    Machine([], [Bus(Range(0, 0), Range(0, 1), map[], None, Squash([], None, []))], Range(0, 0), 1)
  }

  const UNKNOWN_PORT := FuPort(0, 0, 0, 1, [])

  const UNKNOWN_CODES := [Operation(Test(0, 1, 0), 0)]

  lemma UnknownCode()
    ensures var m, env := OneBitMachine(), Env([true], []);
            && ValidCycle(m, env) && EqualWidths(UNKNOWN_PORT, UNKNOWN_CODES) && Ordered(UNKNOWN_CODES)
            && TestFits(UNKNOWN_CODES[0].code, |DestinationField(m, env, 0)|)
            && CodeBits(m, env, 0, UNKNOWN_CODES[0]) == [true] && FromBits([true]) == 1
  {
    assert ValidBus(OneBitMachine(), 0);
    assert [true][..0] == [];
  }

  /**
   A field that carries no operation code: with the single code 0 and a field of 1 the slice loads the
   port with opcode 1, and the chain of comparisons does not load it.
   */
  lemma SliceLoadsUnknownCode(regs: Registers)
    ensures var m, env, p, operations := OneBitMachine(), Env([true], []), UNKNOWN_PORT, UNKNOWN_CODES;
            && ValidCycle(m, env) && EqualWidths(p, operations) && Ordered(operations)
            && Exec(m, DirectSlice(p, 0, operations[0]), env, regs) == regs[FuLoad(0, 0) := ONE][FuOpcode(0) := [true]]
            && Exec(m, ComparisonChain(p, 0, operations), env, regs) == regs[FuLoad(0, 0) := ZERO]
  {
    var m, env := OneBitMachine(), Env([true], []);
    UnknownCode();
    SliceOutcome(m, UNKNOWN_PORT, 0, UNKNOWN_CODES, env, regs);
    ChainOutcome(m, UNKNOWN_PORT, 0, UNKNOWN_CODES, env, regs);
  }
}
