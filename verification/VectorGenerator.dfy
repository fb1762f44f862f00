/**
 Generating a vector load/store unit for a cluster (tce/explorer/VectorLSGenerator.cc:185-304).
 */
module VectorGenerator {
  import opened Wrappers
  import opened ClusterNames
  import opened VectorWiring
  import opened VectorLanes

  datatype Operation = Operation(name: string, usesMemory: bool, inputs: nat, outputs: nat)

  datatype Error = TooFewLanes | NoSuchPort

  function Width(lanes: nat): nat {
    if lanes >= 8 then 8 else if lanes >= 4 then 4 else if lanes >= 2 then 2 else 0
  }

  function Lower(s: string): string {
    seq(|s|, i requires 0 <= i < |s| => if 'A' <= s[i] <= 'Z' then s[i] - 'A' + 'a' else s[i])
  }

  predicate EndsWith(s: string, c: char) {
    s != [] && s[|s| - 1] == c
  }

  predicate StartsWith(s: string, p: string) {
    |p| <= |s| && s[..|p|] == p
  }

  predicate IsVector(op: Operation, lanes: nat) {
    && op.usesMemory && (EndsWith(op.name, '2') || EndsWith(op.name, '4') || EndsWith(op.name, '8'))
    && op.inputs <= lanes + 1 && op.outputs <= lanes
  }

  predicate IsScalar(op: Operation) {
    && op.usesMemory
    && ((StartsWith(op.name, "LD") && op.inputs == 1 && op.outputs == 1)
        || (StartsWith(op.name, "ST") && op.inputs == 2 && op.outputs == 0))
  }

  /** An operation taken into the unit, with vector or scalar ports. */
  datatype Selected = Selected(op: Operation, scalar: bool)

  /** The operations taken from a pool; of several with one name, whatever the case, the first. */
  function Selection(pool: seq<Operation>, lanes: nat): seq<Selected> {
    if pool == [] then []
    else
      var rest, op := Selection(pool[..|pool| - 1], lanes), pool[|pool| - 1];
      if Has(rest, op.name) then rest
      else if IsVector(op, lanes) then rest + [Selected(op, false)]
      else if IsScalar(op) then rest + [Selected(op, true)]
      else rest
  }

  predicate Has(s: seq<Selected>, name: string) {
    exists i :: 0 <= i < |s| && Lower(s[i].op.name) == Lower(name)
  }

  /** A vector operation fits if the unit has a port for each of its operands. */
  predicate Fits(s: Selected, w: nat) {
    s.scalar || (s.op.inputs <= w + 1 && s.op.outputs <= w)
  }

  /** The port of an operand: outputs are bound after inputs and replace them. */
  function PortOf(s: Selected, w: nat, k: nat): nat {
    if k < 2 then 0
    else if s.scalar then if s.op.outputs == 1 then 2 * w + 2 else 2 * w + 1
    else if k - 1 <= s.op.outputs then 2 * (k - 1)
    else 2 * k - 3
  }

  /** Operand 1 is always read, at the trigger port; the k-th result is operand k + 1. */
  ghost predicate OpFor(s: Selected, w: nat, op: Op) {
    && |op.inputs| == (if s.op.inputs == 0 then 1 else s.op.inputs)
    && |op.outputs| == s.op.outputs
    && (forall i :: 0 <= i < |op.inputs| ==> op.inputs[i] == i + 1)
    && (forall i :: 0 <= i < |op.outputs| ==> op.outputs[i] == i + 2)
    && (forall k :: k in op.binding <==> 1 <= k <= |op.inputs| || 2 <= k <= |op.outputs| + 1)
    && (forall k :: k in op.binding ==> op.binding[k] == PortOf(s, w, k))
  }

  /** Every data port of such an operation carries the operand its place says. */
  lemma OpIsGenerated(c: Cluster, w: nat, s: Selected, op: Op)
    requires OpFor(s, w, op) && Fits(s, w) && (s.scalar ==> IsScalar(s.op)) && (!s.scalar ==> IsVector(s.op, c.lanes))
    ensures GeneratedOp(c, w, op)
  {
    forall i | 0 <= i < |op.inputs|
      ensures var p := op.binding[op.inputs[i]];
              p == 0 || p == 2 * w + 1
              || (Carries(c, w, p, op.inputs[i]) && (p % 2 == 0 ==> op.inputs[i] in op.outputs))
    {
      OddPort(i + 1);
      if i > 0 && !s.scalar && i <= s.op.outputs {
        assert op.outputs[i - 1] == i + 1;
      }
    }
    forall i | 0 <= i < |op.outputs|
      ensures var p := op.binding[op.outputs[i]];
              p == 2 * w + 2 || (Carries(c, w, p, op.outputs[i]) && p % 2 == 0)
    {
      OddPort(i + 2);
    }
  }

  lemma OddPort(k: nat)
    requires k >= 1
    ensures k >= 2 ==> OperandOf(2 * k - 3) == k && (2 * k - 3) % 2 == 1
    ensures OperandOf(2 * (k - 1)) == k && (2 * (k - 1)) % 2 == 0
  {
  }

  /** Only data ports up to the width exist under their names. */
  lemma LookUp(w: nat, ports: seq<UnitPort>, p: nat)
    requires GeneratedPorts(w, ports) && 1 <= p
    ensures var name := if p % 2 == 1 then "in" + Decimal(p / 2 + 2) else "out" + Decimal(p / 2);
            PortNamed(ports, name) == if p <= 2 * w then p else -1
  {
    var name := if p % 2 == 1 then "in" + Decimal(p / 2 + 2) else "out" + Decimal(p / 2);
    var k := PortNamed(ports, name);
    if p <= 2 * w {
      GeneratedPortNamed(w, ports, p);
    } else if k != -1 {
      var v := w + p;
      assert PortName(v, p) == name && ports[k].name == PortName(w, k);
      var q := if k == 0 || IsData(w, k) then k else if k == 2 * w + 1 then 2 * v + 1 else 2 * v + 2;
      assert PortName(v, q) == PortName(w, k);
      PortNamesDiffer(v, p, q);
    }
  }

  /** The ports of a unit of this width, in the order they are made. */
  method CreatePorts(w: nat) returns (ports: seq<UnitPort>)
    ensures GeneratedPorts(w, ports)
  {
    ports := [UnitPort("in1t", true, [])];
    var i := 1;
    while i <= w
      invariant 1 <= i <= w + 1 && |ports| == 2 * i - 1
      invariant forall p :: 0 <= p < |ports| ==> ports[p] == UnitPort(PortName(w, p), p == 0, [])
    {
      ports := ports + [UnitPort("in" + Decimal(i + 1), false, [])];
      ports := ports + [UnitPort("out" + Decimal(i), false, [])];
      i := i + 1;
    }
    ports := ports + [UnitPort("in_extra2", false, []), UnitPort("out_extra1", false, [])];
  }

  /** The inputs after the trigger, each at its own port. */
  ghost predicate InputsBound(op: Op, n: nat) {
    && op.outputs == [] && |op.inputs| == n && (forall j :: 0 <= j < n ==> op.inputs[j] == j + 1)
    && (forall k :: k in op.binding <==> 1 <= k <= n)
    && (forall k :: k in op.binding ==> op.binding[k] == if k < 2 then 0 else 2 * k - 3)
  }

  /** The first m outputs bound after n inputs. */
  ghost predicate OutputsBound(op: Op, n: nat, m: nat) {
    && |op.inputs| == n && (forall j :: 0 <= j < n ==> op.inputs[j] == j + 1)
    && |op.outputs| == m && (forall j :: 0 <= j < m ==> op.outputs[j] == j + 2)
    && (forall k :: k in op.binding <==> 1 <= k <= n || 2 <= k <= m + 1)
    && (forall k :: k in op.binding ==> op.binding[k] == if k < 2 then 0 else if k <= m + 1 then 2 * (k - 1) else 2 * k - 3)
  }

  lemma InputsStep(op: Op, n: nat)
    requires InputsBound(op, n) && n >= 1
    ensures InputsBound(op.(inputs := op.inputs + [n + 1], binding := op.binding[n + 1 := 2 * n - 1]), n + 1)
  {
  }

  lemma LookUpInput(w: nat, ports: seq<UnitPort>, i: nat)
    requires GeneratedPorts(w, ports) && i >= 1
    ensures PortNamed(ports, "in" + Decimal(i + 1)) == if i <= w then 2 * i - 1 else -1
  {
    OddHalf(i);
    LookUp(w, ports, 2 * i - 1);
  }

  lemma OddHalf(i: nat)
    requires i >= 1
    ensures (2 * i - 1) / 2 + 2 == i + 1 && (2 * i - 1) % 2 == 1
  {
  }

  lemma OutputsStep(op: Op, n: nat, m: nat)
    requires OutputsBound(op, n, m) && n >= 1
    ensures OutputsBound(op.(outputs := op.outputs + [m + 2], binding := op.binding[m + 2 := 2 * (m + 1)]), n, m + 1)
  {
  }

  lemma LookUpOutput(w: nat, ports: seq<UnitPort>, i: nat)
    requires GeneratedPorts(w, ports) && i >= 1
    ensures PortNamed(ports, "out" + Decimal(i)) == if i <= w then 2 * i else -1
  {
    LookUp(w, ports, 2 * i);
    assert (2 * i) / 2 == i && (2 * i) % 2 == 0;
  }

  ghost predicate HasPort(ports: seq<UnitPort>, name: string) {
    exists p :: 0 <= p < |ports| && ports[p].name == name
  }

  lemma HasPortIff(ports: seq<UnitPort>, name: string)
    ensures HasPort(ports, name) <==> PortNamed(ports, name) != -1
  {
    if HasPort(ports, name) {
      var p :| 0 <= p < |ports| && ports[p].name == name;
      PortNamedFinds(ports, p);
    }
  }

  ghost predicate HasInput(ports: seq<UnitPort>, i: nat) {
    HasPort(ports, "in" + Decimal(i + 1))
  }

  ghost predicate HasOutput(ports: seq<UnitPort>, i: nat) {
    HasPort(ports, "out" + Decimal(i))
  }

  lemma DataPorts(w: nat, ports: seq<UnitPort>, i: nat)
    requires GeneratedPorts(w, ports) && i >= 1
    ensures HasInput(ports, i) <==> i <= w
    ensures HasOutput(ports, i) <==> i <= w
  {
    LookUpInput(w, ports, i);
    LookUpOutput(w, ports, i);
    HasPortIff(ports, "in" + Decimal(i + 1));
    HasPortIff(ports, "out" + Decimal(i));
  }

  /** Ports in2, in3, ... for the inputs after the first, and out1, out2, ... for the outputs. */
  ghost predicate HasPorts(ports: seq<UnitPort>, inputs: nat, outputs: nat) {
    && (forall i :: 1 <= i < inputs ==> HasInput(ports, i))
    && (forall i :: 1 <= i <= outputs ==> HasOutput(ports, i))
  }

  lemma HasPortsIff(w: nat, ports: seq<UnitPort>, inputs: nat, outputs: nat)
    requires GeneratedPorts(w, ports)
    ensures HasPorts(ports, inputs, outputs) <==> inputs <= w + 1 && outputs <= w
  {
    if HasPorts(ports, inputs, outputs) {
      if inputs >= 2 {
        DataPorts(w, ports, inputs - 1);
      }
      if outputs >= 1 {
        DataPorts(w, ports, outputs);
      }
    } else {
      var i: nat :| 1 <= i && ((i < inputs && !HasInput(ports, i)) || (i <= outputs && !HasOutput(ports, i)));
      DataPorts(w, ports, i);
    }
  }

  /** An operation fits exactly if it is scalar or all ports that it asks for by name exist. */
  lemma FitsIff(w: nat, ports: seq<UnitPort>, s: Selected)
    requires GeneratedPorts(w, ports)
    ensures Fits(s, w) <==> s.scalar || HasPorts(ports, s.op.inputs, s.op.outputs)
  {
    HasPortsIff(w, ports, s.op.inputs, s.op.outputs);
  }

  method BindInputs(w: nat, ports: seq<UnitPort>, inputs: nat) returns (r: Result<Op, Error>)
    requires GeneratedPorts(w, ports)
    ensures r.Ok? <==> inputs <= w + 1
    ensures r.Ok? ==> InputsBound(r.value, if inputs == 0 then 1 else inputs)
  {
    var op := Op([1], [], map[1 := 0]);
    var i := 1;
    while i < inputs
      invariant 1 <= i && (i <= inputs || i == 1) && i <= w + 1 && InputsBound(op, i)
    {
      LookUpInput(w, ports, i);
      InputsStep(op, i);
      var p := PortNamed(ports, "in" + Decimal(i + 1));
      if p == -1 {
        return Err(NoSuchPort);
      }
      op := op.(inputs := op.inputs + [i + 1], binding := op.binding[i + 1 := p]);
      i := i + 1;
    }
    return Ok(op);
  }

  method BindOutputs(w: nat, ports: seq<UnitPort>, outputs: nat, start: Op) returns (r: Result<Op, Error>)
    requires GeneratedPorts(w, ports) && InputsBound(start, |start.inputs|) && |start.inputs| >= 1
    ensures r.Ok? <==> outputs <= w
    ensures r.Ok? ==> OutputsBound(r.value, |start.inputs|, outputs)
  {
    var op := start;
    var i := 1;
    while i <= outputs
      invariant 1 <= i <= outputs + 1 && i <= w + 1 && OutputsBound(op, |start.inputs|, i - 1)
    {
      LookUpOutput(w, ports, i);
      OutputsStep(op, |start.inputs|, i - 1);
      var p := PortNamed(ports, "out" + Decimal(i));
      if p == -1 {
        return Err(NoSuchPort);
      }
      op := op.(outputs := op.outputs + [i + 1], binding := op.binding[i + 1 := p]);
      i := i + 1;
    }
    return Ok(op);
  }

  /** addOperation */
  method AddOperation(w: nat, ports: seq<UnitPort>, s: Selected) returns (r: Result<Op, Error>)
    requires GeneratedPorts(w, ports) && (s.scalar ==> IsScalar(s.op))
    ensures r.Ok? <==> Fits(s, w)
    ensures r.Ok? ==> OpFor(s, w, r.value)
  {
    var op := Op([1], [], map[1 := 0]);
    if s.scalar {
      GeneratedPortNamed(w, ports, 2 * w + 1);
      GeneratedPortNamed(w, ports, 2 * w + 2);
      if s.op.inputs == 2 {
        op := op.(inputs := op.inputs + [2], binding := op.binding[2 := PortNamed(ports, "in_extra2")]);
      }
      if s.op.outputs == 1 {
        op := op.(outputs := op.outputs + [2], binding := op.binding[2 := PortNamed(ports, "out_extra1")]);
      }
      return Ok(op);
    }
    r := BindInputs(w, ports, s.op.inputs);
    if r.Ok? {
      r := BindOutputs(w, ports, s.op.outputs, r.value);
    }
  }

  lemma {:induction false} SelectionIsSound(pool: seq<Operation>, lanes: nat)
    ensures forall i :: 0 <= i < |Selection(pool, lanes)| ==>
                          var s := Selection(pool, lanes)[i]; if s.scalar then IsScalar(s.op) else IsVector(s.op, lanes)
    decreases |pool|
  {
    if pool != [] {
      SelectionIsSound(pool[..|pool| - 1], lanes);
    }
  }

  lemma {:induction false} SelectionGrows(pool: seq<Operation>, n: nat, lanes: nat)
    requires n <= |pool|
    ensures Selection(pool[..n], lanes) <= Selection(pool, lanes)
    decreases |pool| - n
  {
    if n == |pool| {
      assert pool[..n] == pool;
    } else {
      SelectionGrows(pool, n + 1, lanes);
      assert pool[..n + 1][..n] == pool[..n];
    }
  }

  ghost predicate OpsFor(sel: seq<Selected>, w: nat, ops: seq<Op>) {
    |ops| == |sel| && forall i :: 0 <= i < |sel| ==> Fits(sel[i], w) && OpFor(sel[i], w, ops[i])
  }

  // ---------------------------------------------------------------------------------------
  // What is selected, and where it is bound
  // ---------------------------------------------------------------------------------------

  /** The greatest width of a vector unit that the lanes allow. */
  lemma WidthIs(lanes: nat)
    ensures lanes < 2 <==> Width(lanes) == 0
    ensures 2 <= lanes < 4 <==> Width(lanes) == 2
    ensures 4 <= lanes < 8 <==> Width(lanes) == 4
    ensures 8 <= lanes <==> Width(lanes) == 8
  {
  }

  /** A memory operation named for its width, with operands for the lanes and one address. */
  ghost predicate IsWide(op: Operation, lanes: nat) {
    && op.usesMemory && op.name != "" && op.name[|op.name| - 1] in {'2', '4', '8'}
    && op.inputs <= lanes + 1 && op.outputs <= lanes
  }

  ghost predicate Begins(name: string, c: char, d: char) {
    |name| >= 2 && name[0] == c && name[1] == d
  }

  /** A load of one value, or a store of one value. */
  ghost predicate IsNarrow(op: Operation) {
    && op.usesMemory
    && (|| (Begins(op.name, 'L', 'D') && op.inputs == 1 && op.outputs == 1)
        || (Begins(op.name, 'S', 'T') && op.inputs == 2 && op.outputs == 0))
  }

  ghost predicate UpToCase(x: char, y: char) {
    || x == y
    || ('A' <= x <= 'Z' && y as int == x as int + 32)
    || ('A' <= y <= 'Z' && x as int == y as int + 32)
  }

  ghost predicate SameName(a: string, b: string) {
    |a| == |b| && forall k :: 0 <= k < |a| ==> UpToCase(a[k], b[k])
  }

  lemma SameLower(a: string, b: string)
    ensures Lower(a) == Lower(b) <==> SameName(a, b)
  {
    if Lower(a) == Lower(b) {
      assert |Lower(a)| == |a| && |Lower(b)| == |b|;
      forall k | 0 <= k < |a|
        ensures UpToCase(a[k], b[k])
      {
        assert Lower(a)[k] == Lower(b)[k];
      }
    }
  }

  lemma EligibleIs(op: Operation, lanes: nat)
    ensures IsVector(op, lanes) <==> IsWide(op, lanes)
    ensures IsScalar(op) <==> IsNarrow(op)
  {
    PrefixIs(op.name, "LD");
    PrefixIs(op.name, "ST");
  }

  lemma PrefixIs(name: string, p: string)
    requires |p| == 2
    ensures StartsWith(name, p) <==> Begins(name, p[0], p[1])
  {
    if Begins(name, p[0], p[1]) {
      assert name[..2] == p;
    }
    if StartsWith(name, p) {
      assert name[..2][0] == name[0] && name[..2][1] == name[1];
    }
  }

  ghost predicate IsEligible(op: Operation, lanes: nat) {
    IsWide(op, lanes) || IsNarrow(op)
  }

  /** The first eligible operation of its name, whatever the case. */
  ghost predicate IsChosen(pool: seq<Operation>, lanes: nat, m: nat) {
    && m < |pool| && IsEligible(pool[m], lanes)
    && forall j :: 0 <= j < m && IsEligible(pool[j], lanes) ==> !SameName(pool[j].name, pool[m].name)
  }

  /** These are the places of the chosen operations among the first n, in order, taken as vectors where they are wide. */
  ghost predicate ChosenAt(pool: seq<Operation>, lanes: nat, n: nat, sel: seq<Selected>, places: seq<nat>) {
    && n <= |pool| && |places| == |sel|
    && (forall i :: 0 <= i < |sel| ==>
          && places[i] < n && IsChosen(pool, lanes, places[i])
          && sel[i] == Selected(pool[places[i]], !IsWide(pool[places[i]], lanes)))
    && (forall i, j :: 0 <= i < j < |places| ==> places[i] < places[j])
    && (forall m: nat :: m < n && IsChosen(pool, lanes, m) ==> m in places)
  }

  /** The unit gets exactly the first eligible operation of each name, in the order of the pool. */
  lemma {:induction false} SelectionIs(pool: seq<Operation>, lanes: nat, n: nat) returns (places: seq<nat>)
    requires n <= |pool|
    ensures ChosenAt(pool, lanes, n, Selection(pool[..n], lanes), places)
    decreases n
  {
    if n == 0 {
      places := [];
    } else {
      var rest := SelectionIs(pool, lanes, n - 1);
      assert pool[..n][..n - 1] == pool[..n - 1];
      EligibleIs(pool[n - 1], lanes);
      HasIsSameName(pool, lanes, n - 1, Selection(pool[..n - 1], lanes), rest);
      if IsChosen(pool, lanes, n - 1) {
        places := rest + [n - 1];
        ChosenMore(pool, lanes, n - 1, Selection(pool[..n - 1], lanes), rest);
      } else {
        places := rest;
        ChosenSame(pool, lanes, n - 1, Selection(pool[..n - 1], lanes), rest);
      }
    }
  }

  lemma ChosenMore(pool: seq<Operation>, lanes: nat, n: nat, sel: seq<Selected>, places: seq<nat>)
    requires n < |pool| && ChosenAt(pool, lanes, n, sel, places) && IsChosen(pool, lanes, n)
    ensures ChosenAt(pool, lanes, n + 1, sel + [Selected(pool[n], !IsWide(pool[n], lanes))], places + [n])
  {
    forall m: nat | m < n + 1 && IsChosen(pool, lanes, m)
      ensures m in places + [n]
    {
      assert m in places || m == n;
    }
  }

  lemma ChosenSame(pool: seq<Operation>, lanes: nat, n: nat, sel: seq<Selected>, places: seq<nat>)
    requires n < |pool| && ChosenAt(pool, lanes, n, sel, places) && !IsChosen(pool, lanes, n)
    ensures ChosenAt(pool, lanes, n + 1, sel, places)
  {
  }

  /** A name is taken if an eligible operation before has it. */
  lemma HasIsSameName(pool: seq<Operation>, lanes: nat, n: nat, sel: seq<Selected>, places: seq<nat>)
    requires n < |pool| && ChosenAt(pool, lanes, n, sel, places)
    ensures Has(sel, pool[n].name)
            <==> exists j :: 0 <= j < n && IsEligible(pool[j], lanes) && SameName(pool[j].name, pool[n].name)
  {
    if i :| 0 <= i < |sel| && Lower(sel[i].op.name) == Lower(pool[n].name) {
      SameLower(pool[places[i]].name, pool[n].name);
      assert IsEligible(pool[places[i]], lanes);
    }
    if j :| 0 <= j < n && IsEligible(pool[j], lanes) && SameName(pool[j].name, pool[n].name) {
      SameLower(pool[j].name, pool[n].name);
      var k := FirstOfName(pool, lanes, j);
      assert k in places;
      var i :| 0 <= i < |places| && places[i] == k;
      SameLower(pool[k].name, pool[j].name);
      assert sel[i].op == pool[k];
    }
  }

  /** Every eligible operation has a chosen one of its name at or before it. */
  lemma {:induction false} FirstOfName(pool: seq<Operation>, lanes: nat, j: nat) returns (k: nat)
    requires j < |pool| && IsEligible(pool[j], lanes)
    ensures k <= j && IsChosen(pool, lanes, k) && SameName(pool[k].name, pool[j].name)
    decreases j
  {
    if IsChosen(pool, lanes, j) {
      k := j;
    } else {
      var i :| 0 <= i < j && IsEligible(pool[i], lanes) && SameName(pool[i].name, pool[j].name);
      k := FirstOfName(pool, lanes, i);
      SameLower(pool[i].name, pool[j].name);
      SameLower(pool[k].name, pool[i].name);
      SameLower(pool[k].name, pool[j].name);
    }
  }

  /** The name of the port for operand k. */
  ghost function PortFor(s: Selected, k: nat): string {
    if k < 2 then "in1t"
    else if s.scalar then if s.op.outputs == 1 then "out_extra1" else "in_extra2"
    else if k <= s.op.outputs + 1 then "out" + Decimal(k - 1)
    else "in" + Decimal(k)
  }

  /** Operands are bound to the ports of their names; outputs come after inputs and replace them. */
  lemma OperandsBound(w: nat, ports: seq<UnitPort>, s: Selected, op: Op, k: nat)
    requires GeneratedPorts(w, ports) && OpFor(s, w, op) && Fits(s, w) && (s.scalar ==> IsScalar(s.op)) && k in op.binding
    ensures op.binding[k] < |ports| && ports[op.binding[k]].name == PortFor(s, k)
  {
    PortNames(w, k);
  }

  lemma PortNames(w: nat, k: nat)
    ensures 2 <= k <= w + 1 ==> PortName(w, 2 * k - 3) == "in" + Decimal(k) && PortName(w, 2 * (k - 1)) == "out" + Decimal(k - 1)
  {
    if 2 <= k <= w + 1 {
      assert (2 * k - 3) % 2 == 1 && (2 * k - 3) / 2 + 2 == k;
      assert (2 * (k - 1)) % 2 == 0 && (2 * (k - 1)) / 2 == k - 1;
    }
  }

  /**
   createVectorLSU: fails for less than two lanes, and where an operation has more operands than
   the unit has ports; otherwise the unit has exactly the selected operations.
   */
  method CreateVectorLSU(name: string, c: Cluster, pool: seq<Operation>) returns (r: Result<FunctionUnit, Error>)
    ensures r == Err(TooFewLanes) <==> c.lanes < 2
    ensures c.lanes >= 2 ==>
              (r.Ok? <==> forall i :: 0 <= i < |Selection(pool, c.lanes)| ==> Fits(Selection(pool, c.lanes)[i], Width(c.lanes)))
    ensures r.Ok? ==>
              && r.value.name == name && Generated(c, r.value, Width(c.lanes))
              && OpsFor(Selection(pool, c.lanes), Width(c.lanes), r.value.operations)
  {
    var w := Width(c.lanes);
    if w == 0 {
      return Err(TooFewLanes);
    }
    var ports := CreatePorts(w);
    var ops, chosen := [], [];
    var m := 0;
    assert pool[..0] == [];
    while m < |pool|
      invariant 0 <= m <= |pool| && chosen == Selection(pool[..m], c.lanes) && OpsFor(chosen, w, ops)
    {
      var op := pool[m];
      assert pool[..m + 1][..m] == pool[..m];
      if !Has(chosen, op.name) && (IsVector(op, c.lanes) || IsScalar(op)) {
        var s := Selected(op, !IsVector(op, c.lanes));
        SelectionGrows(pool, m + 1, c.lanes);
        assert Selection(pool[..m + 1], c.lanes) == chosen + [s];
        var hw := AddOperation(w, ports, s);
        if hw.Err? {
          assert Selection(pool, c.lanes)[|chosen|] == s;
          return Err(NoSuchPort);
        }
        ops, chosen := ops + [hw.value], chosen + [s];
      }
      m := m + 1;
    }
    assert pool[..m] == pool;
    SelectionIsSound(pool, c.lanes);
    forall i | 0 <= i < |ops|
      ensures GeneratedOp(c, w, ops[i])
    {
      OpIsGenerated(c, w, chosen[i], ops[i]);
    }
    return Ok(FunctionUnit(name, true, ports, ops));
  }
}
