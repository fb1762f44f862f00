/**
 All generated units of a machine, connected one call at a time (tce/explorer/ADFCombiner.cc:160-165).
 */
module VectorRounds {
  import opened Wrappers
  import opened ClusterNames
  import opened ClusterRing
  import opened VectorWiring
  import opened VectorLanes

  // ---------------------------------------------------------------------------------------
  // One unit
  // ---------------------------------------------------------------------------------------

  function BusesOfLane(c: Cluster, lane: nat): (r: seq<string>)
    ensures |r| == |c.nodeBuses| && forall i :: 0 <= i < |r| ==> r[i] == LaneBus(c.nodeBuses[i], lane)
  {
    seq(|c.nodeBuses|, i requires 0 <= i < |c.nodeBuses| => LaneBus(c.nodeBuses[i], lane))
  }

  /** The lane of a data port: operand k belongs to lane k - 2. */
  function LaneOf(p: nat): nat {
    if OperandOf(p) < 2 then 0 else OperandOf(p) - 2
  }

  /** The port has its own socket, of this direction and attached to these buses. */
  ghost predicate Attached(ports: seq<UnitPort>, sockets: map<string, Socket>, prefix: string, w: nat, p: nat, to: Socket)
    requires p < |ports|
  {
    var name := SocketName(prefix, PortName(w, p));
    ports[p] == UnitPort(PortName(w, p), p == 0, [name]) && name in sockets && sockets[name] == to
  }

  ghost predicate Bare(ports: seq<UnitPort>, sockets: map<string, Socket>, prefix: string, w: nat, p: nat)
    requires p < |ports|
  {
    ports[p] == UnitPort(PortName(w, p), p == 0, []) && SocketName(prefix, PortName(w, p)) !in sockets
  }

  /**
   A finished unit: address and extra ports at the buses of the extra machine, every used data port
   at the buses of the lane of its operand.
   */
  ghost predicate UnitWired(c: Cluster, u: FunctionUnit, w: nat, ports: seq<UnitPort>, sockets: map<string, Socket>)
    requires OpsValid(u.operations, 2 * w + 3)
  {
    && |ports| == 2 * w + 3
    && ControlsDone(c, State(ports, sockets), u.name, w)
    && DataWired(c, u, w, State(ports, sockets))
  }

  ghost predicate ControlsDone(c: Cluster, s: State, prefix: string, w: nat)
    requires |s.ports| == 2 * w + 3
  {
    && Attached(s.ports, s.sockets, prefix, w, 0, Socket(Input, c.extraBuses))
    && Attached(s.ports, s.sockets, prefix, w, 2 * w + 1, Socket(Input, c.extraBuses))
    && Attached(s.ports, s.sockets, prefix, w, 2 * w + 2, Socket(Output, c.extraBuses))
  }

  ghost predicate DataPortDone(c: Cluster, u: FunctionUnit, w: nat, s: State, p: nat)
    requires OpsValid(u.operations, 2 * w + 3) && p < |s.ports|
  {
    if Used(u.operations, 2 * w + 3, p) then
      Attached(s.ports, s.sockets, u.name, w, p, Socket(DirectionOf(p), BusesOfLane(c, LaneOf(p))))
    else Bare(s.ports, s.sockets, u.name, w, p)
  }

  ghost predicate DataWired(c: Cluster, u: FunctionUnit, w: nat, s: State)
    requires OpsValid(u.operations, 2 * w + 3) && |s.ports| == 2 * w + 3
  {
    forall p: nat :: IsData(w, p) ==> DataPortDone(c, u, w, s, p)
  }

  /** Sockets that are not the unit's stay as they are. */
  ghost predicate KeepsOthers(before: map<string, Socket>, after: map<string, Socket>, prefix: string, w: nat) {
    forall n :: Foreign(n, prefix, w) ==> (n in after <==> n in before) && (n in before ==> after[n] == before[n])
  }

  ghost predicate Foreign(n: string, prefix: string, w: nat) {
    forall p: nat :: p <= 2 * w + 2 ==> n != SocketName(prefix, PortName(w, p))
  }

  lemma KeepsOthersTwice(a: map<string, Socket>, b: map<string, Socket>, d: map<string, Socket>, prefix: string, w: nat)
    requires KeepsOthers(a, b, prefix, w) && KeepsOthers(b, d, prefix, w)
    ensures KeepsOthers(a, d, prefix, w)
  {
  }

  ghost predicate NoSockets(prefix: string, w: nat, sockets: map<string, Socket>) {
    forall p: nat :: p <= 2 * w + 2 ==> SocketName(prefix, PortName(w, p)) !in sockets
  }

  lemma {:induction false} ScanGenerated(w: nat, ports: seq<UnitPort>, n: nat, t: int)
    requires GeneratedPorts(w, ports) && 1 <= n <= |ports|
    ensures Scan(ports[..n], t) == (true, 0)
    decreases n
  {
    assert ports[..n][..n - 1] == ports[..n - 1];
    if n > 1 {
      ScanGenerated(w, ports, n - 1, t);
    }
  }

  lemma ControlEffect(c: Cluster, s: State, prefix: string, w: nat, all: set<string>, p: nat, d: Direction)
    requires |s.ports| == 2 * w + 3 && p < |s.ports| && Bare(s.ports, s.sockets, prefix, w, p)
    requires BusesExist(c, all)
    ensures var name := SocketName(prefix, PortName(w, p));
            ConnectNewPort(s, prefix, p, c.extraBuses, all, d)
            == Some(State(s.ports[p := UnitPort(PortName(w, p), p == 0, [name])], s.sockets[name := Socket(d, c.extraBuses)]))
  {
    FirstWire(s, prefix, p, c.extraBuses, all, d);
  }

  /** Attaching port p leaves the other ports alone. */
  lemma OthersStay(s: State, prefix: string, w: nat, p: nat, q: nat, to: Socket)
    requires |s.ports| == 2 * w + 3 && p <= 2 * w + 2 && q <= 2 * w + 2 && p != q
    ensures var name := SocketName(prefix, PortName(w, p));
            var ports, sockets := s.ports[p := UnitPort(PortName(w, p), p == 0, [name])], s.sockets[name := to];
            && (Bare(s.ports, s.sockets, prefix, w, q) ==> Bare(ports, sockets, prefix, w, q))
            && (forall old' :: Attached(s.ports, s.sockets, prefix, w, q, old') ==> Attached(ports, sockets, prefix, w, q, old'))
  {
    if SocketName(prefix, PortName(w, p)) == SocketName(prefix, PortName(w, q)) {
      SocketNamesDiffer(prefix, w, p, q);
      assert false;
    }
  }

  ghost predicate AllBare(s: State, prefix: string, w: nat, from: set<int>)
    requires |s.ports| == 2 * w + 3
  {
    forall p: nat :: p <= 2 * w + 2 && p !in from ==> Bare(s.ports, s.sockets, prefix, w, p)
  }

  lemma ControlStep(c: Cluster, s: State, prefix: string, w: nat, all: set<string>, p: nat, d: Direction, from: set<int>)
    requires |s.ports| == 2 * w + 3 && p <= 2 * w + 2 && p !in from && AllBare(s, prefix, w, from) && BusesExist(c, all)
    ensures var r := ConnectNewPort(s, prefix, p, c.extraBuses, all, d);
            && r.Some? && |r.value.ports| == |s.ports|
            && AllBare(r.value, prefix, w, from + {p})
            && Attached(r.value.ports, r.value.sockets, prefix, w, p, Socket(d, c.extraBuses))
            && (forall q: nat, old' :: q in from && q <= 2 * w + 2 && Attached(s.ports, s.sockets, prefix, w, q, old') ==>
                  Attached(r.value.ports, r.value.sockets, prefix, w, q, old'))
            && KeepsOthers(s.sockets, r.value.sockets, prefix, w)
  {
    ControlEffect(c, s, prefix, w, all, p, d);
    forall q: nat | q <= 2 * w + 2 && q != p
      ensures var name := SocketName(prefix, PortName(w, p));
              var to := Socket(d, c.extraBuses);
              var ports, sockets := s.ports[p := UnitPort(PortName(w, p), p == 0, [name])], s.sockets[name := to];
              && (Bare(s.ports, s.sockets, prefix, w, q) ==> Bare(ports, sockets, prefix, w, q))
              && (forall old' :: Attached(s.ports, s.sockets, prefix, w, q, old') ==> Attached(ports, sockets, prefix, w, q, old'))
    {
      OthersStay(s, prefix, w, p, q, Socket(d, c.extraBuses));
    }
  }

  /** The trigger and the extra input are connected, the other ports are bare. */
  ghost predicate InputsDone(c: Cluster, s: State, after: State, prefix: string, w: nat) {
    && |after.ports| == 2 * w + 3 && AllBare(after, prefix, w, {0, 2 * w + 1})
    && KeepsOthers(s.sockets, after.sockets, prefix, w)
    && Attached(after.ports, after.sockets, prefix, w, 0, Socket(Input, c.extraBuses))
    && Attached(after.ports, after.sockets, prefix, w, 2 * w + 1, Socket(Input, c.extraBuses))
  }

  lemma InputsReach(c: Cluster, s: State, prefix: string, w: nat, all: set<string>) returns (s1: State, s2: State)
    requires |s.ports| == 2 * w + 3 && AllBare(s, prefix, w, {}) && BusesExist(c, all)
    ensures ConnectNewPort(s, prefix, 0, c.extraBuses, all, Input) == Some(s1) && |s1.ports| == 2 * w + 3
    ensures ConnectNewPort(s1, prefix, 2 * w + 1, c.extraBuses, all, Input) == Some(s2)
    ensures InputsDone(c, s, s2, prefix, w)
  {
    ControlStep(c, s, prefix, w, all, 0, Input, {});
    s1 := ConnectNewPort(s, prefix, 0, c.extraBuses, all, Input).value;
    assert {} + {0} == {0};
    ControlStep(c, s1, prefix, w, all, 2 * w + 1, Input, {0});
    s2 := ConnectNewPort(s1, prefix, 2 * w + 1, c.extraBuses, all, Input).value;
    assert {0} + {2 * w + 1} == {0, 2 * w + 1};
    KeepsOthersTwice(s.sockets, s1.sockets, s2.sockets, prefix, w);
  }

  /** All three control ports are connected, the data ports are bare. */
  ghost predicate ControlsReached(c: Cluster, s: State, after: State, prefix: string, w: nat) {
    && |after.ports| == 2 * w + 3 && ControlsDone(c, after, prefix, w)
    && AllBare(after, prefix, w, {0, 2 * w + 1, 2 * w + 2})
    && KeepsOthers(s.sockets, after.sockets, prefix, w)
  }

  lemma OutputReaches(c: Cluster, s: State, s2: State, prefix: string, w: nat, all: set<string>) returns (s3: State)
    requires InputsDone(c, s, s2, prefix, w) && BusesExist(c, all)
    ensures ConnectNewPort(s2, prefix, 2 * w + 2, c.extraBuses, all, Output) == Some(s3)
    ensures ControlsReached(c, s, s3, prefix, w)
  {
    ControlStep(c, s2, prefix, w, all, 2 * w + 2, Output, {0, 2 * w + 1});
    s3 := ConnectNewPort(s2, prefix, 2 * w + 2, c.extraBuses, all, Output).value;
    assert {0, 2 * w + 1} + {2 * w + 2} == {0, 2 * w + 1, 2 * w + 2};
    KeepsOthersTwice(s.sockets, s2.sockets, s3.sockets, prefix, w);
  }

  lemma ControlsReach(c: Cluster, s: State, prefix: string, w: nat, all: set<string>)
    requires |s.ports| == 2 * w + 3 && AllBare(s, prefix, w, {}) && BusesExist(c, all)
    ensures var r := ConnectControls(c, s, prefix, ControlsOf(w), all);
            r.Some? && ControlsReached(c, s, r.value, prefix, w)
  {
    var s1, s2 := InputsReach(c, s, prefix, w, all);
    var s3 := OutputReaches(c, s, s2, prefix, w, all);
  }

  lemma DataKeepsControl(s: State, after: State, prefix: string, w: nat, p: nat, to: Socket)
    requires OnlyData(s, after, prefix, w) && p <= 2 * w + 2 && !IsData(w, p) && Attached(s.ports, s.sockets, prefix, w, p, to)
    ensures Attached(after.ports, after.sockets, prefix, w, p, to)
  {
    forall q: nat | IsData(w, q)
      ensures SocketName(prefix, PortName(w, p)) != SocketName(prefix, PortName(w, q))
    {
      if SocketName(prefix, PortName(w, p)) == SocketName(prefix, PortName(w, q)) {
        SocketNamesDiffer(prefix, w, p, q);
        assert false;
      }
    }
  }

  lemma UsedCarries(c: Cluster, w: nat, ops: seq<Op>, p: nat)
    requires (forall i :: 0 <= i < |ops| ==> GeneratedOp(c, w, ops[i])) && IsData(w, p)
    requires OpsValid(ops, 2 * w + 3) && Used(ops, 2 * w + 3, p)
    ensures 2 <= OperandOf(p) < c.lanes + 2
  {
    var i :| 0 <= i < |ops| && UsesPort(ops[i], 2 * w + 3, p);
    var op := ops[i];
    assert GeneratedOp(c, w, op);
    if Binds(op.inputs, op.binding, p) {
      var j :| 0 <= j < |op.inputs| && op.binding[op.inputs[j]] == p;
    } else {
      var j :| 0 <= j < |op.outputs| && op.binding[op.outputs[j]] == p;
    }
  }

  lemma DataPortWired(c: Cluster, after: State, u: FunctionUnit, w: nat, all: set<string>, p: nat)
    requires BusesExist(c, all) && IsData(w, p) && |after.ports| == 2 * w + 3 && !after.ports[p].triggering
    requires forall i :: 0 <= i < |u.operations| ==> GeneratedOp(c, w, u.operations[i])
    requires OpsValid(u.operations, 2 * w + 3)
    requires PortDone(c, after, u.name, w, p, LastDirection(AllWires(u.operations, 2 * w + 3, ControlsOf(w)), p))
    ensures DataPortDone(c, u, w, after, p)
  {
    AllDirections(c, w, u.operations, p);
    if Used(u.operations, 2 * w + 3, p) {
      UsedCarries(c, w, u.operations, p);
      OperandBuses(c, OperandOf(p), all);
      assert LaneBuses(c, OperandOf(p)) == BusesOfLane(c, LaneOf(p));
    }
  }

  lemma DataStart(c: Cluster, s: State, prefix: string, w: nat, from: set<int>)
    requires c.lanes >= 2 && |s.ports| == 2 * w + 3 && AllBare(s, prefix, w, from) && from == {0, 2 * w + 1, 2 * w + 2}
    ensures DataDone(c, s, prefix, w, [])
  {
    forall p: nat | IsData(w, p)
      ensures PortDone(c, s, prefix, w, p, LastDirection([], p))
    {
      assert Bare(s.ports, s.sockets, prefix, w, p);
    }
  }

  lemma ControlsStay(c: Cluster, s: State, after: State, prefix: string, w: nat)
    requires OnlyData(s, after, prefix, w) && ControlsDone(c, s, prefix, w)
    ensures ControlsDone(c, after, prefix, w)
  {
    DataKeepsControl(s, after, prefix, w, 0, Socket(Input, c.extraBuses));
    DataKeepsControl(s, after, prefix, w, 2 * w + 1, Socket(Input, c.extraBuses));
    DataKeepsControl(s, after, prefix, w, 2 * w + 2, Socket(Output, c.extraBuses));
  }

  ghost predicate NoneTriggers(ports: seq<UnitPort>, w: nat)
    requires |ports| == 2 * w + 3
  {
    forall p: nat :: IsData(w, p) ==> !ports[p].triggering
  }

  lemma NotTriggering(s: State, after: State, prefix: string, w: nat, from: set<int>)
    requires OnlyData(s, after, prefix, w) && AllBare(s, prefix, w, from) && from == {0, 2 * w + 1, 2 * w + 2}
    ensures NoneTriggers(after.ports, w)
  {
    forall p: nat | IsData(w, p)
      ensures !after.ports[p].triggering
    {
      assert Bare(s.ports, s.sockets, prefix, w, p);
    }
  }

  lemma DataPorts(c: Cluster, after: State, u: FunctionUnit, w: nat, all: set<string>)
    requires BusesExist(c, all) && |after.ports| == 2 * w + 3 && NoneTriggers(after.ports, w)
    requires forall i :: 0 <= i < |u.operations| ==> GeneratedOp(c, w, u.operations[i])
    requires OpsValid(u.operations, 2 * w + 3)
    requires DataDone(c, after, u.name, w, AllWires(u.operations, 2 * w + 3, ControlsOf(w)))
    ensures DataWired(c, u, w, after)
  {
    forall p: nat | IsData(w, p)
      ensures DataPortDone(c, u, w, after, p)
    {
      DataPortWired(c, after, u, w, all, p);
    }
  }

  lemma DataReach(c: Cluster, s: State, u: FunctionUnit, w: nat, all: set<string>)
    requires Generated(c, u, w) && BusesExist(c, all) && |s.ports| == 2 * w + 3
    requires ControlsDone(c, s, u.name, w) && AllBare(s, u.name, w, {0, 2 * w + 1, 2 * w + 2})
    requires OpsValid(u.operations, 2 * w + 3)
    ensures var r := ConnectWires(c, s, u.name, ControlsOf(w), all, AllWires(u.operations, 2 * w + 3, ControlsOf(w)));
            r.Some? && OnlyData(s, r.value, u.name, w) && ControlsDone(c, r.value, u.name, w) && DataWired(c, u, w, r.value)
  {
    var wires := AllWires(u.operations, 2 * w + 3, ControlsOf(w));
    AllWiresAreData(c, w, u.operations);
    DataStart(c, s, u.name, w, {0, 2 * w + 1, 2 * w + 2});
    WiresReachLanes(c, s, u.name, w, all, wires);
    var after := ConnectWires(c, s, u.name, ControlsOf(w), all, wires).value;
    ControlsStay(c, s, after, u.name, w);
    NotTriggering(s, after, u.name, w, {0, 2 * w + 1, 2 * w + 2});
    DataPorts(c, after, u, w, all);
  }

  lemma OnlyDataKeepsOthers(s: State, after: State, prefix: string, w: nat)
    requires OnlyData(s, after, prefix, w)
    ensures KeepsOthers(s.sockets, after.sockets, prefix, w)
  {
  }

  lemma GeneratedIsBare(c: Cluster, u: FunctionUnit, w: nat, sockets: map<string, Socket>)
    requires Generated(c, u, w) && NoSockets(u.name, w, sockets)
    ensures |u.ports| == 2 * w + 3 && AllBare(State(u.ports, sockets), u.name, w, {}) && OpsValid(u.operations, 2 * w + 3)
    ensures PortNamed(u.ports, "in_extra2") == 2 * w + 1 && PortNamed(u.ports, "out_extra1") == 2 * w + 2
  {
    AllWiresAreData(c, w, u.operations);
    GeneratedPortNamed(w, u.ports, 2 * w + 1);
    GeneratedPortNamed(w, u.ports, 2 * w + 2);
  }

  lemma WireUnitIs(c: Cluster, s: State, u: FunctionUnit, w: nat, all: set<string>, s1: State, s2: State)
    requires c.lanes >= 2 && |s.ports| == 2 * w + 3 && OpsValid(u.operations, |s.ports|)
    requires PortNamed(s.ports, "in_extra2") == 2 * w + 1 && PortNamed(s.ports, "out_extra1") == 2 * w + 2
    requires ConnectControls(c, s, u.name, ControlsOf(w), all) == Some(s1)
    requires ConnectWires(c, s1, u.name, ControlsOf(w), all, AllWires(u.operations, |s.ports|, ControlsOf(w))) == Some(s2)
    ensures WireUnit(c, s, u, 0, all) == Some(s2)
  {
  }

  /** A generated unit without sockets is wired in one call, and no other socket changes. */
  lemma GeneratedUnitIsWired(c: Cluster, u: FunctionUnit, w: nat, sockets: map<string, Socket>, all: set<string>)
    requires Generated(c, u, w) && BusesExist(c, all) && NoSockets(u.name, w, sockets)
    ensures OpsValid(u.operations, 2 * w + 3) && |u.ports| == 2 * w + 3
    ensures var r := WireUnit(c, State(u.ports, sockets), u, 0, all);
            r.Some? && UnitWired(c, u, w, r.value.ports, r.value.sockets) && KeepsOthers(sockets, r.value.sockets, u.name, w)
  {
    var s := State(u.ports, sockets);
    GeneratedIsBare(c, u, w, sockets);
    ControlsReach(c, s, u.name, w, all);
    var s1 := ConnectControls(c, s, u.name, ControlsOf(w), all).value;
    DataReach(c, s1, u, w, all);
    var s2 := ConnectWires(c, s1, u.name, ControlsOf(w), all, AllWires(u.operations, 2 * w + 3, ControlsOf(w))).value;
    WireUnitIs(c, s, u, w, all, s1, s2);
    OnlyDataKeepsOthers(s1, s2, u.name, w);
    KeepsOthersTwice(sockets, s1.sockets, s2.sockets, u.name, w);
  }

  // ---------------------------------------------------------------------------------------
  // All units
  // ---------------------------------------------------------------------------------------

  /** Socket names tell both the unit and the port. */
  lemma UnitSocketsApart(a: string, p: nat, b: string, q: nat, w: nat)
    requires p <= 2 * w + 2 && q <= 2 * w + 2
    requires SocketName(a, PortName(w, p)) == SocketName(b, PortName(w, q))
    ensures a == b && p == q
  {
    var x, y := PortName(w, p), PortName(w, q);
    if |x| < |y| {
      ShorterSocket(a, x, b, y);
      Underscore(w, q, |y| - |x| - 1);
      FirstLetter(w, p);
      assert false;
    } else if |y| < |x| {
      ShorterSocket(b, y, a, x);
      Underscore(w, p, |x| - |y| - 1);
      FirstLetter(w, q);
      assert false;
    } else {
      assert a == SocketName(a, x)[..|a|] && b == SocketName(b, y)[..|b|];
      SocketNamesDiffer(a, w, p, q);
    }
  }

  lemma ShorterSocket(a: string, x: string, b: string, y: string)
    requires SocketName(a, x) == SocketName(b, y) && 0 < |x| < |y|
    ensures y[|y| - |x| - 1] == '_' && y[|y| - |x|] == x[0]
  {
    var s, t := SocketName(a, x), SocketName(b, y);
    assert s[|a|] == '_' && s[|a| + 1] == x[0];
    assert t[|b| + 1 + (|y| - |x| - 1)] == y[|y| - |x| - 1] && t[|b| + 1 + (|y| - |x|)] == y[|y| - |x|];
  }

  lemma FirstLetter(w: nat, p: nat)
    ensures PortName(w, p) != [] && (PortName(w, p)[0] == 'i' || PortName(w, p)[0] == 'o')
  {
  }

  lemma NoUnderscore(w: nat, p: nat, k: nat)
    requires IsData(w, p) && k < |PortName(w, p)|
    ensures PortName(w, p)[k] != '_'
  {
    var digits := if p % 2 == 1 then Decimal(p / 2 + 2) else Decimal(p / 2);
    var head := if p % 2 == 1 then "in" else "out";
    assert PortName(w, p) == head + digits;
    assert k >= |head| ==> PortName(w, p)[k] == digits[k - |head|];
  }

  /** An underscore in a port name is followed by an e. */
  lemma Underscore(w: nat, p: nat, k: nat)
    requires p <= 2 * w + 2 && k + 1 < |PortName(w, p)| && PortName(w, p)[k] == '_'
    ensures PortName(w, p)[k + 1] == 'e'
  {
    if IsData(w, p) {
      NoUnderscore(w, p, k);
    }
  }

  lemma WiredKept(c: Cluster, u: FunctionUnit, v: string, w: nat, ports: seq<UnitPort>,
                  before: map<string, Socket>, after: map<string, Socket>)
    requires OpsValid(u.operations, 2 * w + 3) && UnitWired(c, u, w, ports, before)
    requires u.name != v && KeepsOthers(before, after, v, w)
    ensures UnitWired(c, u, w, ports, after)
  {
    forall p: nat | p <= 2 * w + 2
      ensures var n := SocketName(u.name, PortName(w, p));
              (n in after <==> n in before) && (n in before ==> after[n] == before[n])
    {
      NameKept(u.name, v, w, p, before, after);
    }
    forall p: nat | IsData(w, p)
      ensures DataPortDone(c, u, w, State(ports, after), p)
    {
      assert DataPortDone(c, u, w, State(ports, before), p);
    }
  }

  lemma NameKept(u: string, v: string, w: nat, p: nat, before: map<string, Socket>, after: map<string, Socket>)
    requires p <= 2 * w + 2 && u != v && KeepsOthers(before, after, v, w)
    ensures var n := SocketName(u, PortName(w, p));
            (n in after <==> n in before) && (n in before ==> after[n] == before[n])
  {
    forall q: nat | q <= 2 * w + 2
      ensures SocketName(u, PortName(w, p)) != SocketName(v, PortName(w, q))
    {
      if SocketName(u, PortName(w, p)) == SocketName(v, PortName(w, q)) {
        UnitSocketsApart(u, p, v, q, w);
        assert false;
      }
    }
  }

  lemma NoSocketsKept(u: string, v: string, w: nat, before: map<string, Socket>, after: map<string, Socket>)
    requires u != v && KeepsOthers(before, after, v, w) && NoSockets(u, w, before)
    ensures NoSockets(u, w, after)
  {
    forall p: nat | p <= 2 * w + 2
      ensures SocketName(u, PortName(w, p)) !in after
    {
      NameKept(u, v, w, p, before, after);
    }
  }

  /** All unconnected memory units are generated ones, named apart and without sockets. */
  ghost predicate Start(c: Cluster, m: Machine, w: nat) {
    && Valid(m) && BusesExist(c, m.buses)
    && (forall i :: 0 <= i < |m.units| && Unconnected(m.units[i]) ==>
          Generated(c, m.units[i], w) && NoSockets(m.units[i].name, w, m.sockets))
    && (forall i, j :: 0 <= i < j < |m.units| && Unconnected(m.units[i]) && Unconnected(m.units[j]) ==>
          m.units[i].name != m.units[j].name)
  }

  function UnconnectedOf(m: Machine): set<nat> {
    set i: nat | i < |m.units| && Unconnected(m.units[i])
  }

  /** A unit is wired if it is among those done, and as it was otherwise. */
  ghost predicate UnitProgress(c: Cluster, m0: Machine, m: Machine, w: nat, isDone: bool, i: nat)
    requires i < |m0.units| == |m.units| && Valid(m0)
  {
    if isDone then
      && Unconnected(m0.units[i]) && Generated(c, m0.units[i], w)
      && m.units[i] == m0.units[i].(ports := m.units[i].ports)
      && UnitWired(c, m0.units[i], w, m.units[i].ports, m.sockets)
    else
      && m.units[i] == m0.units[i]
      && (Unconnected(m0.units[i]) ==> NoSockets(m0.units[i].name, w, m.sockets))
  }

  ghost predicate Progress(c: Cluster, m0: Machine, m: Machine, w: nat, finished: set<nat>)
    requires Valid(m0)
  {
    && |m.units| == |m0.units| && m.buses == m0.buses && Valid(m)
    && (forall i: nat :: i < |m0.units| ==> UnitProgress(c, m0, m, w, i in finished, i))
    && (forall n :: n in m0.sockets ==> n in m.sockets && m.sockets[n] == m0.sockets[n])
  }

  lemma ProgressUnconnected(c: Cluster, m0: Machine, m: Machine, w: nat, finished: set<nat>, i: nat)
    requires Valid(m0) && Progress(c, m0, m, w, finished) && i < |m.units|
    ensures Unconnected(m.units[i]) <==> Unconnected(m0.units[i]) && i !in finished
  {
    assert UnitProgress(c, m0, m, w, i in finished, i);
  }

  lemma {:induction false} ChosenTrigger(units: seq<FunctionUnit>, n: nat, w: nat)
    requires n <= |units| && Choose(units, n).Chosen? && Choose(units, n).index < |units|
    requires GeneratedPorts(w, units[Choose(units, n).index].ports)
    ensures Choose(units, n).trigger == 0
    decreases n
  {
    if Choose(units, n - 1).NoUnit? {
      var ports := units[n - 1].ports;
      ScanGenerated(w, ports, |ports|, Choose(units, n - 1).carried);
      assert ports[..|ports|] == ports;
    } else {
      ChosenTrigger(units, n - 1, w);
    }
  }

  lemma OtherUnitProgress(c: Cluster, m0: Machine, m: Machine, m1: Machine, w: nat, isDone: bool, i: nat, v: nat)
    requires Valid(m0) && v < |m0.units| == |m.units| == |m1.units| && i < |m.units| && i != v
    requires UnitProgress(c, m0, m, w, isDone, i) && m1.units[i] == m.units[i]
    requires Unconnected(m0.units[i]) ==> m0.units[i].name != m0.units[v].name
    requires KeepsOthers(m.sockets, m1.sockets, m0.units[v].name, w)
    ensures UnitProgress(c, m0, m1, w, isDone, i)
  {
    if isDone {
      WiredKept(c, m0.units[i], m0.units[v].name, w, m.units[i].ports, m.sockets, m1.sockets);
    } else if Unconnected(m0.units[i]) {
      NoSocketsKept(m0.units[i].name, m0.units[v].name, w, m.sockets, m1.sockets);
    }
  }

  lemma OldSocketsKept(m0: Machine, m: Machine, m1: Machine, v: string, w: nat)
    requires forall n :: n in m0.sockets ==> n in m.sockets && m.sockets[n] == m0.sockets[n]
    requires NoSockets(v, w, m0.sockets) && KeepsOthers(m.sockets, m1.sockets, v, w)
    ensures forall n :: n in m0.sockets ==> n in m1.sockets && m1.sockets[n] == m0.sockets[n]
  {
  }

  function Replaced(m: Machine, i: nat, s: State): Machine
    requires i < |m.units|
  {
    m.(units := m.units[i := m.units[i].(ports := s.ports)], sockets := s.sockets)
  }

  lemma RoundIs(c: Cluster, m: Machine, i: nat, t: int, s: State)
    requires c.lanes >= 2 && Valid(m) && Choose(m.units, |m.units|) == Chosen(i, t) && i < |m.units|
    requires WireUnit(c, State(m.units[i].ports, m.sockets), m.units[i], t, m.buses) == Some(s)
    ensures Round(c, m) == Again(Replaced(m, i, s))
  {
  }

  /** The chosen unit of a round is wired by it. */
  lemma RoundWires(c: Cluster, m: Machine, w: nat, i: nat, t: int) returns (s: State)
    requires Valid(m) && BusesExist(c, m.buses) && Choose(m.units, |m.units|) == Chosen(i, t)
    requires i < |m.units| && Generated(c, m.units[i], w) && NoSockets(m.units[i].name, w, m.sockets)
    ensures OpsValid(m.units[i].operations, 2 * w + 3)
    ensures Round(c, m) == Again(Replaced(m, i, s)) && UnitWired(c, m.units[i], w, s.ports, s.sockets)
    ensures KeepsOthers(m.sockets, s.sockets, m.units[i].name, w)
  {
    ChosenTrigger(m.units, |m.units|, w);
    GeneratedUnitIsWired(c, m.units[i], w, m.sockets, m.buses);
    s := WireUnit(c, State(m.units[i].ports, m.sockets), m.units[i], t, m.buses).value;
    RoundIs(c, m, i, t, s);
  }

  lemma OthersProgress(c: Cluster, m0: Machine, m: Machine, m1: Machine, w: nat, finished: set<nat>, i: nat)
    requires Start(c, m0, w) && Progress(c, m0, m, w, finished)
    requires i < |m0.units| == |m1.units| && Unconnected(m0.units[i])
    requires forall j :: 0 <= j < |m.units| && j != i ==> m1.units[j] == m.units[j]
    requires KeepsOthers(m.sockets, m1.sockets, m0.units[i].name, w)
    ensures forall j: nat :: j < |m0.units| && j != i ==> UnitProgress(c, m0, m1, w, j in finished, j)
  {
    forall j: nat | j < |m0.units| && j != i
      ensures UnitProgress(c, m0, m1, w, j in finished, j)
    {
      assert UnitProgress(c, m0, m, w, j in finished, j);
      OtherUnitProgress(c, m0, m, m1, w, j in finished, j, i);
    }
  }

  lemma ThisUnitProgress(c: Cluster, m0: Machine, m: Machine, w: nat, i: nat, s: State)
    requires Valid(m0) && i < |m0.units| == |m.units| && m.units[i] == m0.units[i]
    requires Unconnected(m0.units[i]) && Generated(c, m0.units[i], w) && OpsValid(m0.units[i].operations, 2 * w + 3)
    requires UnitWired(c, m0.units[i], w, s.ports, s.sockets)
    ensures UnitProgress(c, m0, Replaced(m, i, s), w, true, i)
  {
  }

  lemma ProgressStep(c: Cluster, m0: Machine, m: Machine, m1: Machine, w: nat, finished: set<nat>, i: nat)
    requires Start(c, m0, w) && Progress(c, m0, m, w, finished) && Valid(m1) && m1.buses == m.buses
    requires i < |m0.units| == |m1.units| && Unconnected(m0.units[i])
    requires forall j :: 0 <= j < |m.units| && j != i ==> m1.units[j] == m.units[j]
    requires KeepsOthers(m.sockets, m1.sockets, m0.units[i].name, w)
    requires UnitProgress(c, m0, m1, w, true, i)
    ensures Progress(c, m0, m1, w, finished + {i})
  {
    OthersProgress(c, m0, m, m1, w, finished, i);
    OldSocketsKept(m0, m, m1, m0.units[i].name, w);
    forall j: nat | j < |m0.units|
      ensures UnitProgress(c, m0, m1, w, j in finished + {i}, j)
    {
      assert j != i ==> UnitProgress(c, m0, m1, w, j in finished, j);
    }
  }

  /** Every call that finds a unit wires it completely and leaves all others alone. */
  lemma RoundFinishes(c: Cluster, m0: Machine, m: Machine, w: nat, finished: set<nat>) returns (i: nat)
    requires Start(c, m0, w) && Progress(c, m0, m, w, finished) && Choose(m.units, |m.units|).Chosen?
    ensures i < |m.units| && Unconnected(m.units[i]) && i !in finished
    ensures Round(c, m).Again? && Progress(c, m0, Round(c, m).machine, w, finished + {i})
  {
    ChooseFirst(m.units, |m.units|);
    i := Choose(m.units, |m.units|).index;
    ProgressUnconnected(c, m0, m, w, finished, i);
    assert UnitProgress(c, m0, m, w, false, i);
    var s := RoundWires(c, m, w, i, Choose(m.units, |m.units|).trigger);
    ThisUnitProgress(c, m0, m, w, i, s);
    RoundProgress(c, m);
    ProgressStep(c, m0, m, Replaced(m, i, s), w, finished, i);
  }

  lemma {:induction false} ConnectRest(c: Cluster, m0: Machine, m: Machine, w: nat, finished: set<nat>)
    requires Start(c, m0, w) && Progress(c, m0, m, w, finished) && finished <= UnconnectedOf(m0)
    ensures ConnectAll(c, m).Some? && Progress(c, m0, ConnectAll(c, m).value, w, UnconnectedOf(m0))
    decreases Missing(m, |m.units|)
  {
    match Choose(m.units, |m.units|)
    case NoUnit(_) =>
      ChooseFirst(m.units, |m.units|);
      forall i | i in UnconnectedOf(m0)
        ensures i in finished
      {
        ProgressUnconnected(c, m0, m, w, finished, i);
      }
      assert finished == UnconnectedOf(m0);
    case Chosen(_, _) =>
      var i := RoundFinishes(c, m0, m, w, finished);
      ProgressUnconnected(c, m0, m, w, finished, i);
      RoundProgress(c, m);
      ConnectRest(c, m0, Round(c, m).machine, w, finished + {i});
  }

  /** One call takes exactly one unit from the unconnected ones. */
  lemma RoundConnectsOne(c: Cluster, m: Machine, w: nat)
    requires Start(c, m, w) && Round(c, m).Again?
    ensures exists i: nat :: i in UnconnectedOf(m) && UnconnectedOf(Round(c, m).machine) == UnconnectedOf(m) - {i}
  {
    assert Progress(c, m, m, w, {});
    var i := RoundFinishes(c, m, m, w, {});
    var m1 := Round(c, m).machine;
    forall j: nat | j < |m.units|
      ensures j in UnconnectedOf(m1) <==> j in UnconnectedOf(m) - {i}
    {
      ProgressUnconnected(c, m, m1, w, {} + {i}, j);
    }
    assert UnconnectedOf(m1) == UnconnectedOf(m) - {i};
  }

  /**
   The loop ends without an exception, with every generated unit wired: each used data port is
   attached to exactly the buses of its operand's lane. Nothing else in the machine has changed.
   */
  lemma AllUnitsWired(c: Cluster, m: Machine, w: nat)
    requires Start(c, m, w)
    ensures ConnectAll(c, m).Some? && Progress(c, m, ConnectAll(c, m).value, w, UnconnectedOf(m))
  {
    ConnectRest(c, m, m, w, {});
  }

  /** Lanes do not share buses, so a data port reaches its lane and no other. */
  lemma OnlyItsLane(c: Cluster, lane: nat, other: nat, bus: string)
    requires bus in BusesOfLane(c, lane) && bus in BusesOfLane(c, other)
    ensures lane == other
  {
    var i :| 0 <= i < |c.nodeBuses| && BusesOfLane(c, lane)[i] == bus;
    var j :| 0 <= j < |c.nodeBuses| && BusesOfLane(c, other)[j] == bus;
    LaneBusInjective(c.nodeBuses[i], c.nodeBuses[j], lane, other);
  }
}
