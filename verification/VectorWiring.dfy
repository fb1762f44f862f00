/**
 Connecting vector load/store units to the lanes (tce/explorer/ADFCombiner.cc:160-165 and 705-939),
 as functions of the machine.
 */
module VectorWiring {
  import opened Wrappers
  import opened ClusterNames
  import opened ClusterRing

  datatype UnitPort = UnitPort(name: string, triggering: bool, sockets: seq<string>)

  /** The operands read and written, in ascending order, and the port bound to each. */
  datatype Op = Op(inputs: seq<nat>, outputs: seq<nat>, binding: map<nat, nat>)

  datatype FunctionUnit = FunctionUnit(name: string, memory: bool, ports: seq<UnitPort>, operations: seq<Op>)

  datatype Machine = Machine(units: seq<FunctionUnit>, sockets: map<string, Socket>, buses: set<string>)

  /** Lanes of the cluster, and the buses of the node machine and of the extra machine. */
  datatype Cluster = Cluster(lanes: nat, nodeBuses: seq<string>, extraBuses: seq<string>)

  function SocketName(prefix: string, port: string): string {
    prefix + "_" + port
  }

  /** Name of a bus in a lane. */
  function LaneBus(bus: string, lane: nat): string {
    bus + "_connect_" + Decimal(lane)
  }

  /** Lane number in a bus name for an operand; operand 1 gives -1 as C++ takes the remainder. */
  function BusOfOperand(c: Cluster, bus: string, k: nat): string
    requires c.lanes >= 2
  {
    if k < 2 then bus + "_connect_" + "-1" else LaneBus(bus, (k - 2) % c.lanes)
  }

  function LaneBuses(c: Cluster, k: nat): (r: seq<string>)
    requires c.lanes >= 2
    ensures |r| == |c.nodeBuses| && forall i :: 0 <= i < |r| ==> r[i] == BusOfOperand(c, c.nodeBuses[i], k)
  {
    seq(|c.nodeBuses|, i requires 0 <= i < |c.nodeBuses| => BusOfOperand(c, c.nodeBuses[i], k))
  }

  // ---------------------------------------------------------------------------------------
  // Choosing a unit
  // ---------------------------------------------------------------------------------------

  /** Whether the last port has no socket, and the last triggering port since a connected one. */
  function Scan(ports: seq<UnitPort>, trigger: int): (bool, int) {
    if ports == [] then (false, trigger)
    else
      var n := |ports| - 1;
      if ports[n].sockets != [] then (false, -1)
      else (true, if ports[n].triggering then n else Scan(ports[..n], trigger).1)
  }

  datatype Choice = NoUnit(carried: int) | Chosen(index: nat, trigger: int)

  /** The first unit found among the first n; the trigger index is carried from unit to unit. */
  function Choose(units: seq<FunctionUnit>, n: nat): Choice
    requires n <= |units|
  {
    if n == 0 then NoUnit(-1)
    else
      match Choose(units, n - 1)
      case Chosen(i, t) => Chosen(i, t)
      case NoUnit(t) =>
        var s := Scan(units[n - 1].ports, t);
        if s.0 && units[n - 1].memory then Chosen(n - 1, s.1) else NoUnit(s.1)
  }

  /** A memory unit whose last operation port has no socket. */
  predicate Unconnected(u: FunctionUnit) {
    u.memory && u.ports != [] && u.ports[|u.ports| - 1].sockets == []
  }

  lemma {:induction false} ChooseFirst(units: seq<FunctionUnit>, n: nat)
    requires n <= |units|
    ensures Choose(units, n).Chosen?
            ==> Choose(units, n).index < n && Unconnected(units[Choose(units, n).index])
                && forall j: nat :: j < Choose(units, n).index ==> !Unconnected(units[j])
    ensures Choose(units, n).NoUnit? ==> forall j: nat :: j < n ==> !Unconnected(units[j])
    decreases n
  {
    if n > 0 {
      ChooseFirst(units, n - 1);
    }
  }

  // ---------------------------------------------------------------------------------------
  // Connecting one port
  // ---------------------------------------------------------------------------------------

  /** The ports of the chosen unit and the sockets of the machine. */
  datatype State = State(ports: seq<UnitPort>, sockets: map<string, Socket>)

  /** Some socket of the port other than `name` has this direction. */
  predicate OtherHas(p: UnitPort, sockets: map<string, Socket>, name: string, d: Direction) {
    exists i :: 0 <= i < |p.sockets| && p.sockets[i] != name && p.sockets[i] in sockets && sockets[p.sockets[i]].direction == d
  }

  /** A port takes two sockets at most, of different directions. */
  predicate CanAttach(p: UnitPort, sockets: map<string, Socket>, name: string) {
    name in p.sockets
    || (|p.sockets| < 2
        && !(name in sockets && sockets[name].direction != Unknown && OtherHas(p, sockets, name, sockets[name].direction)))
  }

  function AttachSocket(ports: seq<UnitPort>, p: nat, name: string): seq<UnitPort>
    requires p < |ports|
  {
    if name in ports[p].sockets then ports
    else ports[p := ports[p].(sockets := ports[p].sockets + [name])]
  }

  function AttachAll(attached: seq<string>, buses: seq<string>): seq<string> {
    if buses == [] then attached
    else
      var n := |buses| - 1;
      var rest := AttachAll(attached, buses[..n]);
      if buses[n] in rest then rest else rest + [buses[n]]
  }

  predicate AllIn(buses: seq<string>, all: set<string>) {
    forall i :: 0 <= i < |buses| ==> buses[i] in all
  }

  /** Socket for a port, made unless it exists, attached to the buses, and given a direction. */
  function ConnectPort(s: State, prefix: string, p: nat, buses: seq<string>, all: set<string>, d: Direction): Option<State>
    requires p < |s.ports|
  {
    var name := SocketName(prefix, s.ports[p].name);
    var sockets := WithSocket(s.sockets, name);
    var attached := AttachAll(sockets[name].buses, buses);
    if !CanAttach(s.ports[p], sockets, name) || !AllIn(buses, all) || attached == [] || OtherHas(s.ports[p], sockets, name, d)
    then None
    else Some(State(AttachSocket(s.ports, p, name), sockets[name := Socket(d, attached)]))
  }

  /** The trigger and the extra ports need sockets of their own. */
  function ConnectNewPort(s: State, prefix: string, p: nat, buses: seq<string>, all: set<string>, d: Direction): Option<State>
    requires p < |s.ports|
  {
    if SocketName(prefix, s.ports[p].name) in s.sockets then None else ConnectPort(s, prefix, p, buses, all, d)
  }

  /** A socket of this port, under another name, that has the direction. */
  ghost predicate Faces(p: UnitPort, sockets: map<string, Socket>, name: string, d: Direction) {
    exists other :: other in p.sockets && other != name && other in sockets && sockets[other].direction == d
  }

  lemma FacesIs(p: UnitPort, sockets: map<string, Socket>, name: string, d: Direction)
    ensures OtherHas(p, sockets, name, d) <==> Faces(p, sockets, name, d)
  {
    if other :| other in p.sockets && other != name && other in sockets && sockets[other].direction == d {
      var i :| 0 <= i < |p.sockets| && p.sockets[i] == other;
      assert OtherHas(p, sockets, name, d);
    }
  }

  /** The buses of a socket after attaching more: the old ones, then each new one once, in order. */
  ghost predicate AttachedTo(before: seq<string>, more: seq<string>, after: seq<string>) {
    && before <= after
    && (forall b :: b in after <==> b in before || b in more)
    && (forall i, j :: |before| <= i < j < |after| ==> after[i] != after[j])
    && (forall i :: |before| <= i < |after| ==> after[i] !in before)
  }

  lemma {:induction false} AttachAllIs(before: seq<string>, more: seq<string>)
    ensures AttachedTo(before, more, AttachAll(before, more))
    decreases |more|
  {
    if more != [] {
      AttachAllIs(before, more[..|more| - 1]);
      assert forall b :: b in more <==> b in more[..|more| - 1] || b == more[|more| - 1];
    }
  }

  /** Whether the port can be connected: room for the socket, known buses, and at least one of them. */
  ghost predicate IsConnectable(s: State, prefix: string, p: nat, buses: seq<string>, all: set<string>, d: Direction)
    requires p < |s.ports|
  {
    var name, port := prefix + "_" + s.ports[p].name, s.ports[p];
    && (name in port.sockets
        || (|port.sockets| <= 1
            && (name in s.sockets && s.sockets[name].direction != Unknown ==> !Faces(port, s.sockets, name, s.sockets[name].direction))))
    && (forall b :: b in buses ==> b in all)
    && (buses != [] || (name in s.sockets && s.sockets[name].buses != []))
    && !Faces(port, s.sockets, name, d)
  }

  lemma NewSocketFacesNone(p: UnitPort, sockets: map<string, Socket>, name: string, d: Direction)
    ensures Faces(p, WithSocket(sockets, name), name, d) <==> Faces(p, sockets, name, d)
  {
  }

  /** One port: connected exactly if it can be, to a socket of its name with the direction and the buses. */
  lemma ConnectPortIff(s: State, prefix: string, p: nat, buses: seq<string>, all: set<string>, d: Direction)
    requires p < |s.ports|
    ensures ConnectPort(s, prefix, p, buses, all, d).Some? <==> IsConnectable(s, prefix, p, buses, all, d)
    ensures ConnectPort(s, prefix, p, buses, all, d).Some? ==>
              var after, name := ConnectPort(s, prefix, p, buses, all, d).value, prefix + "_" + s.ports[p].name;
              && name in after.sockets && after.sockets == s.sockets[name := after.sockets[name]]
              && after.sockets[name].direction == d
              && AttachedTo(if name in s.sockets then s.sockets[name].buses else [], buses, after.sockets[name].buses)
              && after.ports == s.ports[p := s.ports[p].(sockets := if name in s.ports[p].sockets then s.ports[p].sockets
                                                                     else s.ports[p].sockets + [name])]
  {
    var name, port := SocketName(prefix, s.ports[p].name), s.ports[p];
    var sockets := WithSocket(s.sockets, name);
    NewSocketFacesNone(port, s.sockets, name, d);
    NewSocketFacesNone(port, s.sockets, name, sockets[name].direction);
    FacesIs(port, sockets, name, d);
    FacesIs(port, sockets, name, sockets[name].direction);
    AttachAllIs(sockets[name].buses, buses);
    assert port.(sockets := port.sockets) == port;
  }

  // ---------------------------------------------------------------------------------------
  // Connecting one unit
  // ---------------------------------------------------------------------------------------

  /** An operand to be wired to its lane. */
  datatype Wire = Wire(port: nat, operand: nat, d: Direction)

  /** Wires of the first n operands of a list, leaving out two ports. */
  function WiresOf(operands: seq<nat>, binding: map<nat, nat>, d: Direction, skip: set<nat>): seq<Wire>
    requires forall i :: 0 <= i < |operands| ==> operands[i] in binding
  {
    if operands == [] then []
    else
      var n := |operands| - 1;
      var rest := WiresOf(operands[..n], binding, d, skip);
      var p := binding[operands[n]];
      if p in skip then rest else rest + [Wire(p, operands[n], d)]
  }

  predicate OpValid(op: Op, ports: nat) {
    && (forall i :: 0 <= i < |op.inputs| ==> op.inputs[i] in op.binding && op.binding[op.inputs[i]] < ports)
    && (forall i :: 0 <= i < |op.outputs| ==> op.outputs[i] in op.binding && op.binding[op.outputs[i]] < ports)
  }

  /** The three ports that go to the extra buses. */
  datatype Controls = Controls(trigger: nat, inExtra: nat, outExtra: nat)

  function OpWires(op: Op, n: nat, k: Controls): seq<Wire>
    requires OpValid(op, n)
  {
    WiresOf(op.inputs, op.binding, Input, {k.trigger, k.inExtra}) + WiresOf(op.outputs, op.binding, Output, {k.outExtra})
  }

  ghost predicate OpsValid(ops: seq<Op>, ports: nat) {
    forall i :: 0 <= i < |ops| ==> OpValid(ops[i], ports)
  }

  function AllWires(ops: seq<Op>, n: nat, k: Controls): seq<Wire>
    requires OpsValid(ops, n)
  {
    if ops == [] then [] else AllWires(ops[..|ops| - 1], n, k) + OpWires(ops[|ops| - 1], n, k)
  }

  /** One wire; an output on the trigger port violates an assertion of the builder. */
  function ConnectWire(c: Cluster, s: State, prefix: string, k: Controls, all: set<string>, w: Wire): Option<State>
    requires c.lanes >= 2
  {
    if w.port >= |s.ports| || w.port == k.trigger then None
    else ConnectPort(s, prefix, w.port, LaneBuses(c, w.operand), all, w.d)
  }

  /** The end of a bus name in the lane of an operand. */
  ghost function LaneText(lanes: nat, operand: nat): string
    requires lanes >= 2
  {
    if operand < 2 then "_connect_-1" else "_connect_" + Decimal((operand - 2) % lanes)
  }

  /** A wire needs, and puts on the socket of its port, the lane copies of all buses of the node machine. */
  lemma WireReachesBuses(c: Cluster, s: State, prefix: string, k: Controls, all: set<string>, w: Wire, after: State, i: nat)
    requires c.lanes >= 2 && ConnectWire(c, s, prefix, k, all, w) == Some(after) && i < |c.nodeBuses|
    ensures w.port < |s.ports| && w.port != k.trigger
    ensures var name, bus := prefix + "_" + s.ports[w.port].name, c.nodeBuses[i] + LaneText(c.lanes, w.operand);
            bus in all && name in after.sockets && bus in after.sockets[name].buses && after.sockets[name].direction == w.d
  {
    var buses := LaneBuses(c, w.operand);
    ConnectPortIff(s, prefix, w.port, buses, all, w.d);
    assert c.nodeBuses[i] + "_connect_" + "-1" == c.nodeBuses[i] + "_connect_-1";
    assert buses[i] == c.nodeBuses[i] + LaneText(c.lanes, w.operand);
    assert buses[i] in buses;
  }

  function ConnectWires(c: Cluster, s: State, prefix: string, k: Controls, all: set<string>, wires: seq<Wire>): Option<State>
    requires c.lanes >= 2
  {
    if wires == [] then Some(s)
    else
      match ConnectWires(c, s, prefix, k, all, wires[..|wires| - 1])
      case None => None
      case Some(s1) => ConnectWire(c, s1, prefix, k, all, wires[|wires| - 1])
  }

  /** Index of the first port of this name. */
  function PortNamed(ports: seq<UnitPort>, name: string): (k: int)
    ensures k == -1 || (0 <= k < |ports| && ports[k].name == name)
  {
    if ports == [] then -1
    else
      var k := PortNamed(ports[..|ports| - 1], name);
      if k != -1 then k else if ports[|ports| - 1].name == name then |ports| - 1 else -1
  }

  function ConnectControls(c: Cluster, s: State, prefix: string, k: Controls, all: set<string>): Option<State>
    requires k.trigger < |s.ports| && k.inExtra < |s.ports| && k.outExtra < |s.ports|
  {
    match ConnectNewPort(s, prefix, k.trigger, c.extraBuses, all, Input)
    case None => None
    case Some(s1) =>
      match ConnectNewPort(s1, prefix, k.inExtra, c.extraBuses, all, Input)
      case None => None
      case Some(s2) => ConnectNewPort(s2, prefix, k.outExtra, c.extraBuses, all, Output)
  }

  ghost predicate Valid(m: Machine) {
    forall i :: 0 <= i < |m.units| ==> OpsValid(m.units[i].operations, |m.units[i].ports|)
  }

  function WireUnit(c: Cluster, s: State, u: FunctionUnit, trigger: int, all: set<string>): Option<State>
    requires c.lanes >= 2 && OpsValid(u.operations, |s.ports|)
  {
    var i, o := PortNamed(s.ports, "in_extra2"), PortNamed(s.ports, "out_extra1");
    if trigger < 0 || trigger >= |s.ports| || i == -1 || o == -1 then None
    else
      var k := Controls(trigger, i, o);
      match ConnectControls(c, s, u.name, k, all)
      case None => None
      case Some(s1) => ConnectWires(c, s1, u.name, k, all, AllWires(u.operations, |s.ports|, k))
  }

  datatype Outcome = NothingToDo | Failed | Again(machine: Machine)

  /** connectVectorLSU */
  function Round(c: Cluster, m: Machine): Outcome
    requires c.lanes >= 2 && Valid(m)
  {
    match Choose(m.units, |m.units|)
    case NoUnit(_) => NothingToDo
    case Chosen(i, t) =>
      ChooseFirst(m.units, |m.units|);
      match WireUnit(c, State(m.units[i].ports, m.sockets), m.units[i], t, m.buses)
      case None => Failed
      case Some(s) => Again(m.(units := m.units[i := m.units[i].(ports := s.ports)], sockets := s.sockets))
  }

  // ---------------------------------------------------------------------------------------
  // Termination
  // ---------------------------------------------------------------------------------------

  function SocketOf(u: FunctionUnit): string {
    SocketName(u.name, "in_extra2")
  }

  /** Units without a socket for their extra input. */
  function Missing(m: Machine, n: nat): nat
    requires n <= |m.units|
  {
    if n == 0 then 0 else Missing(m, n - 1) + if SocketOf(m.units[n - 1]) in m.sockets then 0 else 1
  }

  /** Ports keep their names, and no socket goes away. */
  ghost predicate Extends(s: State, after: State) {
    && |after.ports| == |s.ports| && s.sockets.Keys <= after.sockets.Keys
    && (forall i :: 0 <= i < |s.ports| ==> after.ports[i].name == s.ports[i].name && after.ports[i].triggering == s.ports[i].triggering)
    && (forall i :: 0 <= i < |s.ports| && s.ports[i].sockets != [] ==> after.ports[i].sockets != [])
  }

  lemma ConnectPortExtends(s: State, prefix: string, p: nat, buses: seq<string>, all: set<string>, d: Direction)
    requires p < |s.ports| && ConnectPort(s, prefix, p, buses, all, d).Some?
    ensures Extends(s, ConnectPort(s, prefix, p, buses, all, d).value)
    ensures SocketName(prefix, s.ports[p].name) in ConnectPort(s, prefix, p, buses, all, d).value.sockets
    ensures ConnectPort(s, prefix, p, buses, all, d).value.ports[p].sockets != []
  {
  }

  lemma {:induction false} WiresExtend(c: Cluster, s: State, prefix: string, k: Controls, all: set<string>, wires: seq<Wire>)
    requires c.lanes >= 2 && ConnectWires(c, s, prefix, k, all, wires).Some?
    ensures Extends(s, ConnectWires(c, s, prefix, k, all, wires).value)
    decreases |wires|
  {
    if wires != [] {
      var n := |wires| - 1;
      WiresExtend(c, s, prefix, k, all, wires[..n]);
      var s1 := ConnectWires(c, s, prefix, k, all, wires[..n]).value;
      ConnectPortExtends(s1, prefix, wires[n].port, LaneBuses(c, wires[n].operand), all, wires[n].d);
    }
  }

  lemma ControlsExtend(c: Cluster, s: State, prefix: string, k: Controls, all: set<string>)
    requires k.trigger < |s.ports| && k.inExtra < |s.ports| && k.outExtra < |s.ports|
    requires ConnectControls(c, s, prefix, k, all).Some?
    ensures var after := ConnectControls(c, s, prefix, k, all).value;
            && Extends(s, after) && SocketName(prefix, s.ports[k.inExtra].name) in after.sockets
            && SocketName(prefix, s.ports[k.inExtra].name) !in s.sockets
            && after.ports[k.outExtra].sockets != []
  {
    var s1 := ConnectNewPort(s, prefix, k.trigger, c.extraBuses, all, Input).value;
    ConnectPortExtends(s, prefix, k.trigger, c.extraBuses, all, Input);
    var s2 := ConnectNewPort(s1, prefix, k.inExtra, c.extraBuses, all, Input).value;
    ConnectPortExtends(s1, prefix, k.inExtra, c.extraBuses, all, Input);
    ConnectPortExtends(s2, prefix, k.outExtra, c.extraBuses, all, Output);
  }

  /** A unit that gets wired had no socket for its extra input, and has one afterwards. */
  lemma UnitGetsSocket(c: Cluster, s: State, u: FunctionUnit, trigger: int, all: set<string>)
    requires c.lanes >= 2 && OpsValid(u.operations, |s.ports|) && WireUnit(c, s, u, trigger, all).Some?
    ensures var after := WireUnit(c, s, u, trigger, all).value;
            && Extends(s, after) && SocketOf(u) !in s.sockets && SocketOf(u) in after.sockets
            && PortNamed(s.ports, "out_extra1") != -1 && after.ports[PortNamed(s.ports, "out_extra1")].sockets != []
  {
    var k := Controls(trigger, PortNamed(s.ports, "in_extra2"), PortNamed(s.ports, "out_extra1"));
    ControlsExtend(c, s, u.name, k, all);
    WiresExtend(c, ConnectControls(c, s, u.name, k, all).value, u.name, k, all, AllWires(u.operations, |s.ports|, k));
  }

  lemma {:induction false} MissingShrinks(m: Machine, after: Machine, n: nat, i: nat)
    requires i < |m.units| && n <= |m.units| == |after.units| && m.sockets.Keys <= after.sockets.Keys
    requires forall j :: 0 <= j < |m.units| ==> after.units[j].name == m.units[j].name
    requires SocketOf(m.units[i]) !in m.sockets && SocketOf(m.units[i]) in after.sockets
    ensures Missing(after, n) <= Missing(m, n) && (i < n ==> Missing(after, n) < Missing(m, n))
    decreases n
  {
    if n > 0 {
      MissingShrinks(m, after, n - 1, i);
    }
  }

  /** Whatever the units are: each call that wires one leaves fewer units without a socket. */
  lemma RoundProgress(c: Cluster, m: Machine)
    requires c.lanes >= 2 && Valid(m) && Round(c, m).Again?
    ensures var after := Round(c, m).machine;
            && Valid(after) && |after.units| == |m.units|
            && Missing(after, |m.units|) < Missing(m, |m.units|)
  {
    ChooseFirst(m.units, |m.units|);
    var choice := Choose(m.units, |m.units|);
    var u := m.units[choice.index];
    UnitGetsSocket(c, State(u.ports, m.sockets), u, choice.trigger, m.buses);
    MissingShrinks(m, Round(c, m).machine, |m.units|, choice.index);
  }

  /** The driving loop: call until there is no unit left. */
  function ConnectAll(c: Cluster, m: Machine): Option<Machine>
    requires c.lanes >= 2 && Valid(m)
    decreases Missing(m, |m.units|)
  {
    match Round(c, m)
    case NothingToDo => Some(m)
    case Failed => None
    case Again(m1) =>
      RoundProgress(c, m);
      ConnectAll(c, m1)
  }

  /** When the loop ends without an exception, no memory unit has an unconnected last port. */
  lemma {:induction false} NoneLeft(c: Cluster, m: Machine)
    requires c.lanes >= 2 && Valid(m) && ConnectAll(c, m).Some?
    ensures forall i :: 0 <= i < |ConnectAll(c, m).value.units| ==> !Unconnected(ConnectAll(c, m).value.units[i])
    decreases Missing(m, |m.units|)
  {
    if Round(c, m).NothingToDo? {
      ChooseFirst(m.units, |m.units|);
    } else {
      RoundProgress(c, m);
      NoneLeft(c, Round(c, m).machine);
    }
  }
}
