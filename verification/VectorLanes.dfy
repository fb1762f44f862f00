/**
 Where the ports of a generated vector load/store unit end up (tce/explorer/ADFCombiner.cc:705-939,
 with the units of tce/explorer/VectorLSGenerator.cc:185-263).
 */
module VectorLanes {
  import opened Wrappers
  import opened ClusterNames
  import opened ClusterRing
  import opened VectorWiring

  // ---------------------------------------------------------------------------------------
  // Generated units
  // ---------------------------------------------------------------------------------------

  /** Port order: in1t, in2, out1, in3, out2, ..., in_extra2, out_extra1. */
  function PortName(w: nat, p: nat): string {
    if p == 0 then "in1t"
    else if p == 2 * w + 1 then "in_extra2"
    else if p == 2 * w + 2 then "out_extra1"
    else if p % 2 == 1 then "in" + Decimal(p / 2 + 2)
    else "out" + Decimal(p / 2)
  }

  predicate IsData(w: nat, p: nat) {
    1 <= p <= 2 * w
  }

  /** The operand a data port carries. */
  function OperandOf(p: nat): nat {
    if p % 2 == 1 then p / 2 + 2 else p / 2 + 1
  }

  /** A data port carries one operand, of an existing lane. */
  predicate Carries(c: Cluster, w: nat, p: nat, k: nat) {
    IsData(w, p) && k == OperandOf(p) && k < c.lanes + 2
  }

  ghost predicate GeneratedOp(c: Cluster, w: nat, op: Op) {
    && OpValid(op, 2 * w + 3)
    && (forall i :: 0 <= i < |op.inputs| ==>
          var p := op.binding[op.inputs[i]];
          p == 0 || p == 2 * w + 1
          || (Carries(c, w, p, op.inputs[i]) && (p % 2 == 0 ==> op.inputs[i] in op.outputs)))
    && (forall i :: 0 <= i < |op.outputs| ==>
          var p := op.binding[op.outputs[i]];
          p == 2 * w + 2 || (Carries(c, w, p, op.outputs[i]) && p % 2 == 0))
  }

  /** Ports of a generated unit, none of them connected yet. */
  ghost predicate GeneratedPorts(w: nat, ports: seq<UnitPort>) {
    && |ports| == 2 * w + 3
    && forall p :: 0 <= p < |ports| ==> ports[p] == UnitPort(PortName(w, p), p == 0, [])
  }

  ghost predicate Generated(c: Cluster, u: FunctionUnit, w: nat) {
    && u.memory && GeneratedPorts(w, u.ports)
    && forall i :: 0 <= i < |u.operations| ==> GeneratedOp(c, w, u.operations[i])
  }

  lemma PortNamesDiffer(w: nat, p: nat, q: nat)
    requires p <= 2 * w + 2 && q <= 2 * w + 2 && PortName(w, p) == PortName(w, q)
    ensures p == q
  {
    if IsData(w, p) && IsData(w, q) {
      var a, b := PortName(w, p), PortName(w, q);
      assert a[0] == if p % 2 == 1 then 'i' else 'o';
      assert b[0] == if q % 2 == 1 then 'i' else 'o';
      if p % 2 == 1 {
        assert a[2..] == Decimal(p / 2 + 2) && b[2..] == Decimal(q / 2 + 2);
        DecimalInjective(p / 2 + 2, q / 2 + 2);
      } else {
        assert a[3..] == Decimal(p / 2) && b[3..] == Decimal(q / 2);
        DecimalInjective(p / 2, q / 2);
      }
    } else if IsData(w, p) {
      DataNameDiffers(w, p, q);
    } else if IsData(w, q) {
      DataNameDiffers(w, q, p);
    }
  }

  lemma DataNameDiffers(w: nat, p: nat, q: nat)
    requires IsData(w, p) && q <= 2 * w + 2 && !IsData(w, q)
    ensures PortName(w, p) != PortName(w, q)
  {
    var a := PortName(w, p);
    if p % 2 == 1 {
      assert a[2] == Decimal(p / 2 + 2)[0] && a[|a| - 1] == Decimal(p / 2 + 2)[|a| - 3];
    } else {
      assert a[0] == 'o' && a[3] == Decimal(p / 2)[0];
    }
    var b := PortName(w, q);
    assert b == "in1t" ==> b[3] == 't' && |b| == 4;
  }

  lemma {:induction false} PortNamedFinds(ports: seq<UnitPort>, p: nat)
    requires p < |ports|
    ensures PortNamed(ports, ports[p].name) != -1
    decreases |ports|
  {
    var n := |ports| - 1;
    if p < n {
      PortNamedFinds(ports[..n], p);
      assert ports[..n][p] == ports[p];
    }
  }

  lemma GeneratedPortNamed(w: nat, ports: seq<UnitPort>, p: nat)
    requires GeneratedPorts(w, ports) && p < |ports|
    ensures PortNamed(ports, PortName(w, p)) == p
  {
    PortNamedFinds(ports, p);
    var k := PortNamed(ports, PortName(w, p));
    assert ports[k].name == PortName(w, k);
    PortNamesDiffer(w, k, p);
  }

  lemma SocketNamesDiffer(prefix: string, w: nat, p: nat, q: nat)
    requires p <= 2 * w + 2 && q <= 2 * w + 2 && SocketName(prefix, PortName(w, p)) == SocketName(prefix, PortName(w, q))
    ensures p == q
  {
    var a, b := PortName(w, p), PortName(w, q);
    assert (prefix + "_" + a)[|prefix| + 1..] == a;
    assert (prefix + "_" + b)[|prefix| + 1..] == b;
    PortNamesDiffer(w, p, q);
  }

  // ---------------------------------------------------------------------------------------
  // Wires of a generated unit
  // ---------------------------------------------------------------------------------------

  function ControlsOf(w: nat): Controls {
    Controls(0, 2 * w + 1, 2 * w + 2)
  }

  predicate DataWire(c: Cluster, w: nat, wire: Wire) {
    Carries(c, w, wire.port, wire.operand) && (wire.d == Input || (wire.d == Output && wire.port % 2 == 0))
  }

  ghost predicate DataWires(c: Cluster, w: nat, wires: seq<Wire>) {
    forall i :: 0 <= i < |wires| ==> DataWire(c, w, wires[i])
  }

  lemma {:induction false} WiresAreData(c: Cluster, w: nat, operands: seq<nat>, binding: map<nat, nat>, d: Direction, skip: set<nat>)
    requires d == Input || d == Output
    requires forall i :: 0 <= i < |operands| ==> operands[i] in binding
    requires forall i :: 0 <= i < |operands| ==>
                           var p := binding[operands[i]];
                           p in skip || (Carries(c, w, p, operands[i]) && (d == Output ==> p % 2 == 0))
    ensures DataWires(c, w, WiresOf(operands, binding, d, skip))
    decreases |operands|
  {
    if operands != [] {
      WiresAreData(c, w, operands[..|operands| - 1], binding, d, skip);
    }
  }

  lemma OpWiresAreData(c: Cluster, w: nat, op: Op)
    requires GeneratedOp(c, w, op)
    ensures DataWires(c, w, OpWires(op, 2 * w + 3, ControlsOf(w)))
  {
    WiresAreData(c, w, op.inputs, op.binding, Input, {0, 2 * w + 1});
    WiresAreData(c, w, op.outputs, op.binding, Output, {2 * w + 2});
  }

  lemma {:induction false} AllWiresAreData(c: Cluster, w: nat, ops: seq<Op>)
    requires forall i :: 0 <= i < |ops| ==> GeneratedOp(c, w, ops[i])
    ensures OpsValid(ops, 2 * w + 3) && DataWires(c, w, AllWires(ops, 2 * w + 3, ControlsOf(w)))
    decreases |ops|
  {
    if ops != [] {
      AllWiresAreData(c, w, ops[..|ops| - 1]);
      OpWiresAreData(c, w, ops[|ops| - 1]);
    }
  }

  /** Direction of the last wire of a port; Unknown if it has none. */
  function LastDirection(wires: seq<Wire>, p: nat): Direction {
    if wires == [] then Unknown
    else if wires[|wires| - 1].port == p then wires[|wires| - 1].d
    else LastDirection(wires[..|wires| - 1], p)
  }

  lemma {:induction false} LastOfAppend(a: seq<Wire>, b: seq<Wire>, p: nat)
    requires forall i :: 0 <= i < |b| ==> b[i].d != Unknown
    ensures LastDirection(a + b, p) == if LastDirection(b, p) == Unknown then LastDirection(a, p) else LastDirection(b, p)
    decreases |b|
  {
    if b == [] {
      assert a + b == a;
    } else {
      var n := |b| - 1;
      assert (a + b)[..|a| + n] == a + b[..n];
      LastOfAppend(a, b[..n], p);
    }
  }

  lemma {:induction false} LastOfWires(operands: seq<nat>, binding: map<nat, nat>, d: Direction, skip: set<nat>, p: nat)
    requires d != Unknown && p !in skip && forall i :: 0 <= i < |operands| ==> operands[i] in binding
    ensures LastDirection(WiresOf(operands, binding, d, skip), p)
            == if Binds(operands, binding, p) then d else Unknown
    ensures forall i :: 0 <= i < |WiresOf(operands, binding, d, skip)| ==> WiresOf(operands, binding, d, skip)[i].d == d
    decreases |operands|
  {
    if operands != [] {
      var n := |operands| - 1;
      LastOfWires(operands[..n], binding, d, skip, p);
      if i :| 0 <= i < n && binding[operands[i]] == p {
        assert operands[..n][i] == operands[i];
      }
      var rest := WiresOf(operands[..n], binding, d, skip);
      assert (rest + [Wire(binding[operands[n]], operands[n], d)])[..|rest|] == rest;
    }
  }

  predicate Binds(operands: seq<nat>, binding: map<nat, nat>, p: nat)
    requires forall i :: 0 <= i < |operands| ==> operands[i] in binding
  {
    exists i :: 0 <= i < |operands| && binding[operands[i]] == p
  }

  predicate UsesPort(op: Op, n: nat, p: nat)
    requires OpValid(op, n)
  {
    Binds(op.inputs, op.binding, p) || Binds(op.outputs, op.binding, p)
  }

  function DirectionOf(p: nat): Direction {
    if p % 2 == 1 then Input else Output
  }

  /** An even data port that is bound to an input is bound to an output as well, and odd ones never are. */
  lemma BoundAs(c: Cluster, w: nat, op: Op, p: nat)
    requires GeneratedOp(c, w, op) && IsData(w, p)
    ensures p % 2 == 0 && Binds(op.inputs, op.binding, p) ==> Binds(op.outputs, op.binding, p)
    ensures Binds(op.outputs, op.binding, p) ==> p % 2 == 0
  {
    if p % 2 == 0 && Binds(op.inputs, op.binding, p) {
      var i :| 0 <= i < |op.inputs| && op.binding[op.inputs[i]] == p;
      var j :| 0 <= j < |op.outputs| && op.outputs[j] == op.inputs[i];
      assert op.binding[op.outputs[j]] == p;
    }
  }

  lemma LastOfOp(op: Op, n: nat, k: Controls, p: nat)
    requires OpValid(op, n) && p != k.trigger && p != k.inExtra && p != k.outExtra
    ensures LastDirection(OpWires(op, n, k), p)
            == if Binds(op.outputs, op.binding, p) then Output
               else if Binds(op.inputs, op.binding, p) then Input else Unknown
  {
    LastOfWires(op.inputs, op.binding, Input, {k.trigger, k.inExtra}, p);
    LastOfWires(op.outputs, op.binding, Output, {k.outExtra}, p);
    LastOfAppend(WiresOf(op.inputs, op.binding, Input, {k.trigger, k.inExtra}),
                 WiresOf(op.outputs, op.binding, Output, {k.outExtra}), p);
  }

  lemma OpDirection(c: Cluster, w: nat, op: Op, p: nat)
    requires GeneratedOp(c, w, op) && IsData(w, p)
    ensures LastDirection(OpWires(op, 2 * w + 3, ControlsOf(w)), p)
            == if UsesPort(op, 2 * w + 3, p) then DirectionOf(p) else Unknown
  {
    LastOfOp(op, 2 * w + 3, ControlsOf(w), p);
    BoundAs(c, w, op, p);
  }

  ghost predicate Used(ops: seq<Op>, n: nat, p: nat)
    requires OpsValid(ops, n)
  {
    exists i :: 0 <= i < |ops| && UsesPort(ops[i], n, p)
  }

  /** A data port that any operation uses ends as an input or an output by its kind. */
  lemma {:induction false} AllDirections(c: Cluster, w: nat, ops: seq<Op>, p: nat)
    requires (forall i :: 0 <= i < |ops| ==> GeneratedOp(c, w, ops[i])) && IsData(w, p)
    ensures OpsValid(ops, 2 * w + 3)
    ensures LastDirection(AllWires(ops, 2 * w + 3, ControlsOf(w)), p)
            == if Used(ops, 2 * w + 3, p) then DirectionOf(p) else Unknown
    decreases |ops|
  {
    if ops != [] {
      var n, op := |ops| - 1, ops[|ops| - 1];
      AllDirections(c, w, ops[..n], p);
      OpDirection(c, w, op, p);
      OpWiresAreData(c, w, op);
      LastOfAppend(AllWires(ops[..n], 2 * w + 3, ControlsOf(w)), OpWires(op, 2 * w + 3, ControlsOf(w)), p);
      UsedStep(ops, 2 * w + 3, p);
    }
  }

  lemma UsedStep(ops: seq<Op>, n: nat, p: nat)
    requires ops != [] && OpsValid(ops, n)
    ensures Used(ops, n, p) <==> Used(ops[..|ops| - 1], n, p) || UsesPort(ops[|ops| - 1], n, p)
  {
    var m := |ops| - 1;
    if Used(ops, n, p) {
      var i :| 0 <= i < |ops| && UsesPort(ops[i], n, p);
      assert i < m ==> ops[..m][i] == ops[i];
    }
    if Used(ops[..m], n, p) {
      var i :| 0 <= i < m && UsesPort(ops[..m][i], n, p);
      assert ops[..m][i] == ops[i];
    }
  }

  // ---------------------------------------------------------------------------------------
  // Effect of one wire
  // ---------------------------------------------------------------------------------------

  ghost predicate Distinct(s: seq<string>) {
    forall i, j :: 0 <= i < j < |s| ==> s[i] != s[j]
  }

  lemma {:induction false} AttachNewBuses(buses: seq<string>)
    requires Distinct(buses)
    ensures AttachAll([], buses) == buses
    decreases |buses|
  {
    if buses != [] {
      var n := |buses| - 1;
      AttachNewBuses(buses[..n]);
      assert buses[..n] + [buses[n]] == buses;
    }
  }

  lemma {:induction false} AttachOldBuses(attached: seq<string>, buses: seq<string>)
    requires forall b :: b in buses ==> b in attached
    ensures AttachAll(attached, buses) == attached
    decreases |buses|
  {
    if buses != [] {
      AttachOldBuses(attached, buses[..|buses| - 1]);
    }
  }

  /** The first wire of an unconnected port makes its socket. */
  lemma FirstWire(s: State, prefix: string, p: nat, buses: seq<string>, all: set<string>, d: Direction)
    requires p < |s.ports| && s.ports[p].sockets == [] && SocketName(prefix, s.ports[p].name) !in s.sockets
    requires buses != [] && Distinct(buses) && AllIn(buses, all)
    ensures var name := SocketName(prefix, s.ports[p].name);
            ConnectPort(s, prefix, p, buses, all, d)
            == Some(State(s.ports[p := s.ports[p].(sockets := [name])], s.sockets[name := Socket(d, buses)]))
  {
    AttachNewBuses(buses);
    var name := SocketName(prefix, s.ports[p].name);
    assert [] + [name] == [name];
    assert s.sockets[name := Socket(Unknown, [])][name := Socket(d, buses)] == s.sockets[name := Socket(d, buses)];
  }

  /** Further wires of the same operand leave it as it is, but for the direction. */
  lemma NextWire(s: State, prefix: string, p: nat, buses: seq<string>, all: set<string>, d: Direction)
    requires p < |s.ports| && AllIn(buses, all) && buses != []
    requires var name := SocketName(prefix, s.ports[p].name);
             s.ports[p].sockets == [name] && name in s.sockets && s.sockets[name].buses == buses
    ensures var name := SocketName(prefix, s.ports[p].name);
            ConnectPort(s, prefix, p, buses, all, d) == Some(State(s.ports, s.sockets[name := Socket(d, buses)]))
  {
    AttachOldBuses(buses, buses);
  }

  /** A data port as its wires leave it: unconnected before the first, of this direction after the last. */
  ghost predicate PortDone(c: Cluster, s: State, prefix: string, w: nat, p: nat, d: Direction)
    requires c.lanes >= 2 && |s.ports| == 2 * w + 3 && p < |s.ports|
  {
    var name := SocketName(prefix, PortName(w, p));
    && s.ports[p].name == PortName(w, p)
    && if d == Unknown then s.ports[p].sockets == [] && name !in s.sockets
       else s.ports[p].sockets == [name] && name in s.sockets && s.sockets[name] == Socket(d, LaneBuses(c, OperandOf(p)))
  }

  /** The bus names of the lanes are in the machine. */
  ghost predicate BusesExist(c: Cluster, all: set<string>) {
    && c.lanes >= 2 && c.nodeBuses != [] && c.extraBuses != [] && Distinct(c.nodeBuses) && Distinct(c.extraBuses)
    && AllIn(c.extraBuses, all)
    && forall i, j: nat :: 0 <= i < |c.nodeBuses| && j < c.lanes ==> LaneBus(c.nodeBuses[i], j) in all
  }

  lemma LaneBusParts(a: string, digits: string)
    requires forall i :: 0 <= i < |digits| ==> IsDigit(digits[i])
    ensures var s := a + "_connect_" + digits;
            && TrailingDigits(s) == |digits| && s[|s| - |digits|..] == digits && |s| == |a| + 9 + |digits| && s[..|a|] == a
  {
    LastDigits(a + "_connect", digits);
    assert a + "_connect_" + digits == a + "_connect" + "_" + digits;
  }

  lemma LaneBusInjective(a: string, b: string, i: nat, j: nat)
    requires LaneBus(a, i) == LaneBus(b, j)
    ensures a == b && i == j
  {
    LaneBusParts(a, Decimal(i));
    LaneBusParts(b, Decimal(j));
    DecimalInjective(i, j);
  }

  /** Number of digits at the end of a string. */
  function TrailingDigits(s: string): nat {
    if s == [] || !IsDigit(s[|s| - 1]) then 0 else 1 + TrailingDigits(s[..|s| - 1])
  }

  lemma {:induction false} LastDigits(x: string, digits: string)
    requires forall i :: 0 <= i < |digits| ==> IsDigit(digits[i])
    ensures TrailingDigits(x + "_" + digits) == |digits|
    decreases |digits|
  {
    if digits == [] {
      assert x + "_" + digits == x + "_";
    } else {
      var n := |digits| - 1;
      LastDigits(x, digits[..n]);
      assert (x + "_" + digits)[..|x| + 1 + n] == x + "_" + digits[..n];
    }
  }

  /** An operand of lane k - 2 goes to the buses of that lane: no wrap-around happens. */
  lemma OperandBuses(c: Cluster, k: nat, all: set<string>)
    requires BusesExist(c, all) && 2 <= k < c.lanes + 2
    ensures LaneBuses(c, k) != [] && Distinct(LaneBuses(c, k)) && AllIn(LaneBuses(c, k), all)
    ensures forall i :: 0 <= i < |c.nodeBuses| ==> LaneBuses(c, k)[i] == LaneBus(c.nodeBuses[i], k - 2)
  {
    SmallModulus(k - 2, c.lanes);
    forall i, j | 0 <= i < j < |c.nodeBuses|
      ensures LaneBuses(c, k)[i] != LaneBuses(c, k)[j]
    {
      if LaneBuses(c, k)[i] == LaneBuses(c, k)[j] {
        LaneBusInjective(c.nodeBuses[i], c.nodeBuses[j], k - 2, k - 2);
        assert false;
      }
    }
  }

  lemma SmallModulus(a: nat, n: nat)
    requires a < n
    ensures a % n == a
  {
  }

  ghost predicate DataDone(c: Cluster, s: State, prefix: string, w: nat, wires: seq<Wire>)
    requires c.lanes >= 2 && |s.ports| == 2 * w + 3
  {
    forall p: nat :: IsData(w, p) ==> PortDone(c, s, prefix, w, p, LastDirection(wires, p))
  }

  /** Only the data ports of the unit and their sockets differ. */
  ghost predicate OnlyData(s: State, after: State, prefix: string, w: nat) {
    && |s.ports| == |after.ports| == 2 * w + 3
    && (forall p: nat :: p < |s.ports| && !IsData(w, p) ==> after.ports[p] == s.ports[p])
    && (forall p: nat :: p < |s.ports| ==> after.ports[p].name == s.ports[p].name && after.ports[p].triggering == s.ports[p].triggering)
    && (forall n :: (forall p: nat :: IsData(w, p) ==> n != SocketName(prefix, PortName(w, p))) ==>
          (n in after.sockets <==> n in s.sockets) && (n in s.sockets ==> after.sockets[n] == s.sockets[n]))
  }

  lemma WireEffect(c: Cluster, s: State, prefix: string, w: nat, all: set<string>, wire: Wire, d: Direction)
    requires BusesExist(c, all) && |s.ports| == 2 * w + 3 && DataWire(c, w, wire) && PortDone(c, s, prefix, w, wire.port, d)
    ensures var r, name := ConnectWire(c, s, prefix, ControlsOf(w), all, wire), SocketName(prefix, PortName(w, wire.port));
            && r.Some?
            && r.value.ports == s.ports[wire.port := s.ports[wire.port].(sockets := [name])]
            && r.value.sockets == s.sockets[name := Socket(wire.d, LaneBuses(c, wire.operand))]
  {
    OperandBuses(c, wire.operand, all);
    if d == Unknown {
      FirstWire(s, prefix, wire.port, LaneBuses(c, wire.operand), all, wire.d);
    } else {
      NextWire(s, prefix, wire.port, LaneBuses(c, wire.operand), all, wire.d);
    }
  }

  lemma WireKeepsOthers(c: Cluster, s: State, after: State, prefix: string, w: nat, wire: Wire, p: nat, d: Direction)
    requires c.lanes >= 2 && |s.ports| == 2 * w + 3 && DataWire(c, w, wire) && IsData(w, p) && PortDone(c, s, prefix, w, p, d)
    requires s.ports[wire.port].name == PortName(w, wire.port)
    requires var name := SocketName(prefix, PortName(w, wire.port));
             && after.ports == s.ports[wire.port := s.ports[wire.port].(sockets := [name])]
             && after.sockets == s.sockets[name := Socket(wire.d, LaneBuses(c, wire.operand))]
    ensures |after.ports| == 2 * w + 3
    ensures PortDone(c, after, prefix, w, p, if p == wire.port then wire.d else d)
  {
    if p != wire.port && SocketName(prefix, PortName(w, p)) == SocketName(prefix, PortName(w, wire.port)) {
      SocketNamesDiffer(prefix, w, p, wire.port);
      assert false;
    }
  }

  /** All wires of a generated unit can be made; each data port ends at its lane. */
  lemma {:induction false} WiresReachLanes(c: Cluster, s: State, prefix: string, w: nat, all: set<string>, wires: seq<Wire>)
    requires BusesExist(c, all) && |s.ports| == 2 * w + 3 && DataWires(c, w, wires) && DataDone(c, s, prefix, w, [])
    ensures var r := ConnectWires(c, s, prefix, ControlsOf(w), all, wires);
            r.Some? && OnlyData(s, r.value, prefix, w) && DataDone(c, r.value, prefix, w, wires)
    decreases |wires|
  {
    if wires != [] {
      var n, wire := |wires| - 1, wires[|wires| - 1];
      WiresReachLanes(c, s, prefix, w, all, wires[..n]);
      var s1 := ConnectWires(c, s, prefix, ControlsOf(w), all, wires[..n]).value;
      WireEffect(c, s1, prefix, w, all, wire, LastDirection(wires[..n], wire.port));
      var after := ConnectWire(c, s1, prefix, ControlsOf(w), all, wire).value;
      forall p: nat | IsData(w, p)
        ensures PortDone(c, after, prefix, w, p, LastDirection(wires, p))
      {
        WireKeepsOthers(c, s1, after, prefix, w, wire, p, LastDirection(wires[..n], p));
      }
    }
  }
}
