/**
 The instruction decoder that the generator describes
 (tce/icdecoder_plugins/DefaultDecoderGenerator.cc), for any machine and binary encoding.

 The generator's output is a list of hardware statements.  This module gives those statements a
 syntax and a meaning; the modules that follow generate them and prove what they do.
 */
module DecoderRules {
  import opened Wrappers
  import opened BitVectors

  // ---------------------------------------------------------------------------------------
  // Machine and encoding
  // ---------------------------------------------------------------------------------------

  datatype Direction = Input | Output

  /** Buses are not segmented, so a segment is named by its bus. */
  datatype Socket = Socket(direction: Direction, ports: nat, segments: seq<nat>)

  /** `field(pos + width - 1 downto pos) = code`; a test of width zero is always true. */
  datatype Test = Test(pos: nat, width: nat, code: nat)

  /** A short immediate: its test, its bits in the source field, and its bus register. */
  datatype ShortImmediate = ShortImmediate(test: Test, pos: nat, width: nat, signExtends: bool, busWidth: nat)

  /** What one choice of the guard field means: a guard input, or a move that never happens. */
  datatype GuardChoice = OnGuard(code: nat, guard: nat, inverted: bool) | NeverMove(code: nat)

  /** Bits `pos` to `pos + width - 1` of the instruction word. */
  datatype Range = Range(pos: nat, width: nat)

  /** `templates` are the tags of the templates that use the slot for a long immediate. */
  datatype Squash = Squash(templates: seq<nat>, guardField: Option<Range>, choices: seq<GuardChoice>)

  datatype Bus = Bus(source: Range, destination: Range, sockets: map<nat, Test>,
                     immediate: Option<ShortImmediate>, squash: Squash)

  datatype Machine = Machine(sockets: seq<Socket>, buses: seq<Bus>, tag: Range, wordWidth: nat)

  function Slice(v: BitVector, r: Range): (s: BitVector)
    requires r.pos + r.width <= |v|
    ensures |s| == r.width
  {
    v[|v| - r.pos - r.width..|v| - r.pos]
  }

  /** ext and sxt: a longer vector is filled up on the left, a shorter one cut on the left. */
  function Resize(sign: bool, b: BitVector, width: nat): (r: BitVector)
    ensures |r| == width
  {
    if |b| <= width then seq(width - |b|, _ => sign && b != [] && b[0]) + b else b[|b| - width..]
  }

  predicate TestFits(t: Test, width: nat) {
    t.pos + t.width <= width
  }

  predicate Holds(t: Test, field: BitVector)
    requires TestFits(t, |field|)
  {
    t.width == 0 || FromBits(Slice(field, Range(t.pos, t.width))) == t.code
  }

  predicate InWord(r: Range, m: Machine) {
    r.pos + r.width <= m.wordWidth
  }

  /** Every range lies inside what it cuts, and every connection has an encoding. */
  predicate ValidBus(m: Machine, b: nat)
    requires b < |m.buses|
  {
    var bus := m.buses[b];
    && InWord(bus.source, m) && InWord(bus.destination, m)
    && (bus.squash.guardField.Some? ==> InWord(bus.squash.guardField.value, m))
    && (forall s :: s in bus.sockets ==> TestFits(bus.sockets[s], bus.source.width))
    && (bus.immediate.Some? ==>
          && TestFits(bus.immediate.value.test, bus.source.width)
          && bus.immediate.value.pos + bus.immediate.value.width <= bus.source.width)
  }

  predicate ValidMachine(m: Machine) {
    && InWord(m.tag, m)
    && (forall b :: 0 <= b < |m.buses| ==> ValidBus(m, b))
    && (forall s, i :: 0 <= s < |m.sockets| && 0 <= i < |m.sockets[s].segments| ==>
          && m.sockets[s].segments[i] < |m.buses|
          && (m.sockets[s].direction == Output ==> s in m.buses[m.sockets[s].segments[i]].sockets))
  }

  // ---------------------------------------------------------------------------------------
  // Combinational signals
  // ---------------------------------------------------------------------------------------

  /** What the decoder sees during one cycle. */
  datatype Env = Env(word: BitVector, guards: seq<bool>)

  predicate ValidCycle(m: Machine, env: Env) {
    ValidMachine(m) && |env.word| == m.wordWidth
  }

  /** The case statement over the guard field; `when others` does not squash. */
  function GuardSquash(choices: seq<GuardChoice>, sel: nat, guards: seq<bool>): bool {
    if choices == [] then false
    else if choices[0].code == sel then
      match choices[0]
      case NeverMove(_) => true
      case OnGuard(_, guard, inverted) =>
        var value := guard < |guards| && guards[guard];
        if inverted then value else !value
    else GuardSquash(choices[1..], sel, guards)
  }

  /** squash_<bus>: a slot that carries a long immediate is squashed, otherwise the guard decides. */
  predicate IsSquashed(m: Machine, env: Env, b: nat)
    requires ValidCycle(m, env) && b < |m.buses|
  {
    assert ValidBus(m, b);
    var squash := m.buses[b].squash;
    if FromBits(Slice(env.word, m.tag)) in squash.templates then true
    else
      match squash.guardField
      case None => false
      case Some(r) => GuardSquash(squash.choices, FromBits(Slice(env.word, r)), env.guards)
  }

  function SourceField(m: Machine, env: Env, b: nat): BitVector
    requires ValidCycle(m, env) && b < |m.buses|
  {
    assert ValidBus(m, b);
    Slice(env.word, m.buses[b].source)
  }

  function DestinationField(m: Machine, env: Env, b: nat): BitVector
    requires ValidCycle(m, env) && b < |m.buses|
  {
    assert ValidBus(m, b);
    Slice(env.word, m.buses[b].destination)
  }

  // ---------------------------------------------------------------------------------------
  // Statements
  // ---------------------------------------------------------------------------------------

  datatype Signal =
    | BusPin(socket: nat, pin: nat)
    | ImmediateControl(bus: nat)
    | ImmediateData(bus: nat)
    | FuLoad(fu: nat, port: nat)
    | FuOpcode(fu: nat)
    | InputSocketControl(socket: nat)
    | IuLoad(iu: nat)
    | IuOpcode(iu: nat)
    | IuData(iu: nat)

  type Registers = map<Signal, BitVector>

  const ONE: BitVector := [true]
  const ZERO: BitVector := [false]

  /** Conditions and values read only the instruction word and the guards, never a register. */
  datatype Condition =
    | SourceTest(bus: nat, test: Test)       // squash_bus = '0' and the test on src_bus
    | DestinationTest(bus: nat, test: Test)  // squash_bus = '0' and the test on dst_bus
    | CodeTest(bus: nat, test: Test)         // the test on dst_bus alone
    | TagIs(tag: nat)
    | Both(left: Condition, right: Condition)

  datatype Value =
    | Constant(bits: BitVector)
    | SourceBits(bus: nat, range: Range, sign: bool, width: nat)
    | DestinationBits(bus: nat, range: Range)
    | WordBits(range: Range, sign: bool, width: nat)

  datatype Statement =
    | Assign(target: Signal, value: Value)
    | AssignSlice(target: Signal, hi: int, lo: int, value: Value)
    | If(cond: Condition, thn: seq<Statement>, els: seq<Statement>)

  /** Conditions and values that do not fit their field cannot be written; they read as false
      and as the empty vector. */
  predicate EvalCondition(m: Machine, env: Env, c: Condition)
    requires ValidCycle(m, env)
  {
    match c
    case SourceTest(b, t) =>
      b < |m.buses| && TestFits(t, |SourceField(m, env, b)|) && !IsSquashed(m, env, b) && Holds(t, SourceField(m, env, b))
    case DestinationTest(b, t) =>
      b < |m.buses| && TestFits(t, |DestinationField(m, env, b)|) && !IsSquashed(m, env, b)
      && Holds(t, DestinationField(m, env, b))
    case CodeTest(b, t) =>
      b < |m.buses| && TestFits(t, |DestinationField(m, env, b)|) && Holds(t, DestinationField(m, env, b))
    case TagIs(tag) => FromBits(Slice(env.word, m.tag)) == tag
    case Both(left, right) => EvalCondition(m, env, left) && EvalCondition(m, env, right)
  }

  function CutAndResize(v: BitVector, r: Range, sign: bool, width: nat): BitVector {
    if r.pos + r.width <= |v| then Resize(sign, Slice(v, r), width) else []
  }

  function EvalValue(m: Machine, env: Env, v: Value): BitVector
    requires ValidCycle(m, env)
  {
    match v
    case Constant(bits) => bits
    case SourceBits(b, r, sign, width) =>
      if b < |m.buses| then CutAndResize(SourceField(m, env, b), r, sign, width) else []
    case DestinationBits(b, r) =>
      if b < |m.buses| then CutAndResize(DestinationField(m, env, b), r, false, r.width) else []
    case WordBits(r, sign, width) => CutAndResize(env.word, r, sign, width)
  }

  /** v(hi downto lo) <= piece. */
  function Overwrite(v: BitVector, hi: int, lo: int, piece: BitVector): BitVector {
    if 0 <= lo <= hi + 1 <= |v| && |piece| == hi + 1 - lo
    then v[..|v| - 1 - hi] + piece + v[|v| - lo..]
    else v
  }

  function ExecOne(m: Machine, s: Statement, env: Env, regs: Registers): Registers
    requires ValidCycle(m, env)
    decreases s, 0
  {
    match s
    case Assign(target, value) => regs[target := EvalValue(m, env, value)]
    case AssignSlice(target, hi, lo, value) =>
      if target in regs then regs[target := Overwrite(regs[target], hi, lo, EvalValue(m, env, value))] else regs
    case If(cond, thn, els) =>
      if EvalCondition(m, env, cond) then Exec(m, thn, env, regs) else Exec(m, els, env, regs)
  }

  /** A process body: the statements in order, the last assignment to a signal wins. */
  function Exec(m: Machine, stmts: seq<Statement>, env: Env, regs: Registers): Registers
    requires ValidCycle(m, env)
    decreases stmts, 1
  {
    if stmts == [] then regs
    else ExecOne(m, stmts[|stmts| - 1], env, Exec(m, stmts[..|stmts| - 1], env, regs))
  }

  /** if c0 then b0 elsif c1 then b1 ... else els. */
  datatype Branch = Branch(cond: Condition, body: seq<Statement>)

  function Chain(branches: seq<Branch>, els: seq<Statement>): seq<Statement> {
    if branches == [] then els else [If(branches[0].cond, branches[0].body, Chain(branches[1..], els))]
  }

  lemma ExecSingleton(m: Machine, s: Statement, env: Env, regs: Registers)
    requires ValidCycle(m, env)
    ensures Exec(m, [s], env, regs) == ExecOne(m, s, env, regs)
  {
    ExecAppend(m, [], s, env, regs);
  }

  /** The first branch whose condition holds, or the number of branches. */
  function FirstTaken(m: Machine, env: Env, branches: seq<Branch>): (i: nat)
    requires ValidCycle(m, env)
    ensures i <= |branches|
    ensures forall j :: 0 <= j < i ==> !EvalCondition(m, env, branches[j].cond)
    ensures i < |branches| ==> EvalCondition(m, env, branches[i].cond)
  {
    if branches == [] then 0
    else if EvalCondition(m, env, branches[0].cond) then 0
    else 1 + FirstTaken(m, env, branches[1..])
  }

  lemma {:induction false} ExecChain(m: Machine, branches: seq<Branch>, els: seq<Statement>, env: Env, regs: Registers)
    requires ValidCycle(m, env)
    ensures var i := FirstTaken(m, env, branches);
            Exec(m, Chain(branches, els), env, regs)
            == Exec(m, if i < |branches| then branches[i].body else els, env, regs)
    decreases |branches|
  {
    if branches != [] {
      ExecSingleton(m, Chain(branches, els)[0], env, regs);
      ExecChain(m, branches[1..], els, env, regs);
    }
  }

  lemma ExecAppend(m: Machine, stmts: seq<Statement>, s: Statement, env: Env, regs: Registers)
    requires ValidCycle(m, env)
    ensures Exec(m, stmts + [s], env, regs) == ExecOne(m, s, env, Exec(m, stmts, env, regs))
  {
    assert (stmts + [s])[..|stmts|] == stmts;
  }

  lemma {:induction false} ExecConcat(m: Machine, a: seq<Statement>, b: seq<Statement>, env: Env, regs: Registers)
    requires ValidCycle(m, env)
    ensures Exec(m, a + b, env, regs) == Exec(m, b, env, Exec(m, a, env, regs))
    decreases |b|
  {
    if b == [] {
      assert a + b == a;
    } else {
      var n := |b| - 1;
      ExecConcat(m, a, b[..n], env, regs);
      assert a + b == (a + b[..n]) + [b[n]];
      ExecAppend(m, a + b[..n], b[n], env, regs);
    }
  }

  // ---------------------------------------------------------------------------------------
  // What a statement can change
  // ---------------------------------------------------------------------------------------

  predicate WritesOne(s: Statement, x: Signal)
    decreases s, 0
  {
    match s
    case Assign(target, _) => target == x
    case AssignSlice(target, _, _, _) => target == x
    case If(_, thn, els) => Writes(thn, x) || Writes(els, x)
  }

  predicate Writes(stmts: seq<Statement>, x: Signal)
    decreases stmts, 1
  {
    stmts != [] && (WritesOne(stmts[|stmts| - 1], x) || Writes(stmts[..|stmts| - 1], x))
  }

  ghost predicate SameAt(a: Registers, b: Registers, x: Signal) {
    (x in a <==> x in b) && (x in a ==> a[x] == b[x])
  }

  lemma {:induction false} UnwrittenOne(m: Machine, s: Statement, env: Env, regs: Registers, x: Signal)
    requires ValidCycle(m, env) && !WritesOne(s, x)
    ensures SameAt(ExecOne(m, s, env, regs), regs, x)
    decreases s, 0
  {
    if s.If? {
      Unwritten(m, s.thn, env, regs, x);
      Unwritten(m, s.els, env, regs, x);
    }
  }

  /** A signal that no statement writes keeps its value. */
  lemma {:induction false} Unwritten(m: Machine, stmts: seq<Statement>, env: Env, regs: Registers, x: Signal)
    requires ValidCycle(m, env) && !Writes(stmts, x)
    ensures SameAt(Exec(m, stmts, env, regs), regs, x)
    decreases stmts, 1
  {
    if stmts != [] {
      Unwritten(m, stmts[..|stmts| - 1], env, regs, x);
      UnwrittenOne(m, stmts[|stmts| - 1], env, Exec(m, stmts[..|stmts| - 1], env, regs), x);
    }
  }

  lemma {:induction false} WritesConcat(a: seq<Statement>, b: seq<Statement>, x: Signal)
    ensures Writes(a + b, x) <==> Writes(a, x) || Writes(b, x)
    decreases |b|
  {
    if b == [] {
      assert a + b == a;
    } else {
      WritesConcat(a, b[..|b| - 1], x);
      assert (a + b)[..|a + b| - 1] == a + b[..|b| - 1];
    }
  }
}
