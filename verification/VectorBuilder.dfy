/**
 The machine whose vector units are connected, changed in place (tce/explorer/ADFCombiner.cc:160-165
 and 705-939). A method that returns false stands for an exception or a failed assertion.
 */
module VectorBuilder {
  import opened Wrappers
  import opened ClusterRing
  import opened VectorWiring

  lemma ScanStep(ports: seq<UnitPort>, j: nat, trigger: int)
    requires j < |ports|
    ensures Scan(ports[..j + 1], trigger)
            == if ports[j].sockets != [] then (false, -1)
               else (true, if ports[j].triggering then j else Scan(ports[..j], trigger).1)
  {
    assert ports[..j + 1][..j] == ports[..j];
  }

  lemma AttachAllStep(attached: seq<string>, buses: seq<string>, i: nat)
    requires i < |buses|
    ensures AttachAll(attached, buses[..i + 1])
            == var rest := AttachAll(attached, buses[..i]); if buses[i] in rest then rest else rest + [buses[i]]
  {
    assert buses[..i + 1][..i] == buses[..i];
  }

  class Builder {
    var units: seq<FunctionUnit>
    var sockets: map<string, Socket>
    var buses: set<string>

    constructor (m: Machine)
      ensures View() == m
    {
      units, sockets, buses := m.units, m.sockets, m.buses;
    }

    function View(): Machine
      reads this
    {
      Machine(units, sockets, buses)
    }

    function StateOf(u: nat): State
      reads this
      requires u < |units|
    {
      State(units[u].ports, sockets)
    }

    /** Nothing but the ports of one unit and the sockets has changed. */
    twostate predicate OnlyUnit(u: nat)
      reads this
    {
      && u < |old(units)| == |units| && buses == old(buses)
      && units == old(units)[u := old(units)[u].(ports := units[u].ports)]
    }

    /** The search for an unconnected memory unit, and its trigger index. */
    method FindUnit() returns (found: int, trigger: int)
      ensures match Choose(units, |units|)
              case Chosen(i, t) => found == i && trigger == t
              case NoUnit(t) => found == -1
    {
      found, trigger := -1, -1;
      var i := 0;
      while i < |units|
        invariant 0 <= i <= |units| && found == -1 && Choose(units, i) == NoUnit(trigger)
      {
        var unconnected := false;
        var j := 0;
        ghost var carried := trigger;
        var ports := units[i].ports;
        while j < |ports|
          invariant 0 <= j <= |ports| && Scan(ports[..j], carried) == (unconnected, trigger)
        {
          ScanStep(ports, j, carried);
          if ports[j].sockets == [] {
            unconnected := true;
            if ports[j].triggering {
              trigger := j;
            }
          } else {
            unconnected := false;
            trigger := -1;
          }
          j := j + 1;
        }
        assert ports[..j] == ports;
        if unconnected && units[i].memory {
          found := i;
          ChosenStays(units, i + 1, |units|);
          return;
        }
        i := i + 1;
      }
    }

    lemma ChosenStays(all: seq<FunctionUnit>, n: nat, m: nat)
      requires n <= m <= |all| && Choose(all, n).Chosen?
      ensures Choose(all, m) == Choose(all, n)
      decreases m
    {
      if n < m {
        ChosenStays(all, n, m - 1);
      }
    }

    /** The buses attached to a socket after another list is attached, skipping those attached before. */
    method AttachBuses(start: seq<string>, list: seq<string>) returns (ok: bool, attached: seq<string>)
      ensures ok <==> AllIn(list, buses)
      ensures ok ==> attached == AttachAll(start, list)
    {
      ok, attached := true, start;
      var i := 0;
      while i < |list|
        invariant 0 <= i <= |list| && AllIn(list[..i], buses) && ok && attached == AttachAll(start, list[..i])
      {
        if list[i] !in buses {
          return false, attached;
        }
        AttachAllStep(start, list, i);
        if list[i] !in attached {
          attached := attached + [list[i]];
        }
        i := i + 1;
      }
      assert list[..i] == list;
    }

    /** Socket for a port, made unless it exists; then its buses and its direction. */
    method Connect(u: nat, p: nat, list: seq<string>, d: Direction) returns (ok: bool)
      requires u < |units| && p < |units[u].ports|
      modifies this
      ensures OnlyUnit(u) && |units[u].ports| == |old(units)[u].ports|
      ensures var r := ConnectPort(old(StateOf(u)), old(units)[u].name, p, list, old(buses), d);
              && (ok <==> r.Some?)
              && (ok ==> StateOf(u) == r.value)
    {
      var port, name := units[u].ports[p], SocketName(units[u].name, units[u].ports[p].name);
      if name !in sockets {
        sockets := sockets[name := Socket(Unknown, [])];
      }
      if !CanAttach(port, sockets, name) {
        return false;
      }
      var attached;
      ok, attached := AttachBuses(sockets[name].buses, list);
      if !ok || attached == [] || OtherHas(port, sockets, name, d) {
        return false;
      }
      if name !in port.sockets {
        var ports := units[u].ports[p := port.(sockets := port.sockets + [name])];
        units := units[u := units[u].(ports := ports)];
      }
      sockets := sockets[name := Socket(d, attached)];
    }

    /** The trigger and the extra ports: their sockets must be new. */
    method ConnectNew(u: nat, p: nat, list: seq<string>, d: Direction) returns (ok: bool)
      requires u < |units| && p < |units[u].ports|
      modifies this
      ensures OnlyUnit(u) && |units[u].ports| == |old(units)[u].ports|
      ensures var r := ConnectNewPort(old(StateOf(u)), old(units)[u].name, p, list, old(buses), d);
              && (ok <==> r.Some?)
              && (ok ==> StateOf(u) == r.value)
    {
      if SocketName(units[u].name, units[u].ports[p].name) in sockets {
        return false;
      }
      ok := Connect(u, p, list, d);
    }

    /** One list of operands of an operation, without the ports connected before. */
    method ConnectOperands(c: Cluster, u: nat, operands: seq<nat>, binding: map<nat, nat>, d: Direction, skip: set<nat>,
                           k: Controls) returns (ok: bool)
      requires c.lanes >= 2 && u < |units|
      requires forall i :: 0 <= i < |operands| ==> operands[i] in binding && binding[operands[i]] < |units[u].ports|
      modifies this
      ensures OnlyUnit(u) && |units[u].ports| == |old(units)[u].ports|
      ensures var r := ConnectWires(c, old(StateOf(u)), old(units)[u].name, k, old(buses), WiresOf(operands, binding, d, skip));
              && (ok <==> r.Some?)
              && (ok ==> StateOf(u) == r.value)
    {
      ok := true;
      ghost var s, prefix, all := StateOf(u), units[u].name, buses;
      var i := 0;
      while i < |operands|
        invariant 0 <= i <= |operands| && OnlyUnit(u) && |units[u].ports| == |old(units)[u].ports|
        invariant Wired(c, s, prefix, k, all, WiresOf(operands[..i], binding, d, skip), ok, StateOf(u))
      {
        var p := binding[operands[i]];
        ghost var wires := WiresOf(operands[..i], binding, d, skip);
        WiresStep(operands, binding, d, skip, i);
        assert wires + [] == wires;
        if p !in skip {
          ok := ok && p != k.trigger;
          if ok {
            ok := Connect(u, p, LaneBuses(c, operands[i]), d);
          }
          WireStep(c, s, prefix, k, all, wires, Wire(p, operands[i], d));
        }
        i := i + 1;
      }
      assert operands[..i] == operands;
    }

    /** All hardware operations of a unit. */
    method ConnectOperations(c: Cluster, u: nat, k: Controls) returns (ok: bool)
      requires c.lanes >= 2 && u < |units| && OpsValid(units[u].operations, |units[u].ports|)
      modifies this
      ensures OnlyUnit(u) && |units[u].ports| == |old(units)[u].ports|
      ensures var r := ConnectWires(c, old(StateOf(u)), old(units)[u].name, k, old(buses),
                                    AllWires(old(units)[u].operations, |old(units)[u].ports|, k));
              && (ok <==> r.Some?)
              && (ok ==> StateOf(u) == r.value)
    {
      ok := true;
      var ops, n := units[u].operations, |units[u].ports|;
      ghost var s, prefix, all := StateOf(u), units[u].name, buses;
      var j := 0;
      while j < |ops|
        invariant 0 <= j <= |ops| && OnlyUnit(u) && |units[u].ports| == n
        invariant Wired(c, s, prefix, k, all, AllWires(ops[..j], n, k), ok, StateOf(u))
      {
        ok := ConnectOperation(c, u, ops[j], k, s, AllWires(ops[..j], n, k), ok);
        assert ops[..j + 1][..j] == ops[..j];
        j := j + 1;
      }
      assert ops[..j] == ops;
    }

    /** Reads, then writes; nothing once something has failed. */
    method ConnectOperation(c: Cluster, u: nat, op: Op, k: Controls, ghost s: State, ghost wires: seq<Wire>, ok: bool)
        returns (ok': bool)
      requires c.lanes >= 2 && u < |units| && OpValid(op, |units[u].ports|)
      requires Wired(c, s, units[u].name, k, buses, wires, ok, StateOf(u))
      modifies this
      ensures OnlyUnit(u) && |units[u].ports| == |old(units)[u].ports|
      ensures Wired(c, s, units[u].name, k, buses, wires + OpWires(op, |units[u].ports|, k), ok', StateOf(u))
    {
      ghost var a := WiresOf(op.inputs, op.binding, Input, {k.trigger, k.inExtra});
      ghost var b := WiresOf(op.outputs, op.binding, Output, {k.outExtra});
      ok' := ConnectMore(c, u, op.inputs, op.binding, Input, {k.trigger, k.inExtra}, k, s, wires, ok);
      ok' := ConnectMore(c, u, op.outputs, op.binding, Output, {k.outExtra}, k, s, wires + a, ok');
      assert wires + a + b == wires + (a + b);
    }

    method ConnectMore(c: Cluster, u: nat, operands: seq<nat>, binding: map<nat, nat>, d: Direction, skip: set<nat>, k: Controls,
                       ghost s: State, ghost wires: seq<Wire>, ok: bool) returns (ok': bool)
      requires c.lanes >= 2 && u < |units|
      requires forall i :: 0 <= i < |operands| ==> operands[i] in binding && binding[operands[i]] < |units[u].ports|
      requires Wired(c, s, units[u].name, k, buses, wires, ok, StateOf(u))
      modifies this
      ensures OnlyUnit(u) && |units[u].ports| == |old(units)[u].ports|
      ensures Wired(c, s, units[u].name, k, buses, wires + WiresOf(operands, binding, d, skip), ok', StateOf(u))
    {
      WiresAppend(c, s, units[u].name, k, buses, wires, WiresOf(operands, binding, d, skip));
      ok' := ok;
      if ok' {
        ok' := ConnectOperands(c, u, operands, binding, d, skip, k);
      }
    }

    /** The trigger port and the two extra ports, at the buses of the extra machine. */
    method ConnectControlPorts(c: Cluster, u: nat, k: Controls) returns (ok: bool)
      requires u < |units| && k.trigger < |units[u].ports| && k.inExtra < |units[u].ports| && k.outExtra < |units[u].ports|
      modifies this
      ensures OnlyUnit(u) && |units[u].ports| == |old(units)[u].ports|
      ensures var r := ConnectControls(c, old(StateOf(u)), old(units)[u].name, k, old(buses));
              && (ok <==> r.Some?)
              && (ok ==> StateOf(u) == r.value)
    {
      ok := ConnectNew(u, k.trigger, c.extraBuses, Input);
      if ok {
        ok := ConnectNew(u, k.inExtra, c.extraBuses, Input);
      }
      if ok {
        ok := ConnectNew(u, k.outExtra, c.extraBuses, Output);
      }
    }

    /** connectVectorLSU: whether to call again, and whether it ended without an exception. */
    method ConnectVectorUnit(c: Cluster) returns (again: bool, ok: bool)
      requires c.lanes >= 2 && Valid(View())
      modifies this
      ensures match Round(c, old(View()))
              case NothingToDo => ok && !again && View() == old(View())
              case Failed => !ok
              case Again(m) => ok && again && View() == m
    {
      var u, trigger := FindUnit();
      if u == -1 {
        return false, true;
      }
      ChooseFirst(units, |units|);
      var inExtra, outExtra := PortNamed(units[u].ports, "in_extra2"), PortNamed(units[u].ports, "out_extra1");
      again := true;
      if trigger < 0 || trigger >= |units[u].ports| || inExtra == -1 || outExtra == -1 {
        return true, false;
      }
      var k := Controls(trigger, inExtra, outExtra);
      ok := ConnectControlPorts(c, u, k);
      if ok {
        ok := ConnectOperations(c, u, k);
      }
    }

    /** The driving loop. It ends for every machine: each call leaves fewer units without a socket. */
    method ConnectVectorUnits(c: Cluster) returns (ok: bool)
      requires c.lanes >= 2 && Valid(View())
      modifies this
      ensures ok <==> ConnectAll(c, old(View())).Some?
      ensures ok ==> View() == ConnectAll(c, old(View())).value
    {
      var again := true;
      ok := true;
      while ok && again
        invariant ok ==> Valid(View())
        invariant ok && again ==> ConnectAll(c, View()) == ConnectAll(c, old(View()))
        invariant ok && !again ==> ConnectAll(c, old(View())) == Some(View())
        invariant !ok ==> ConnectAll(c, old(View())).None?
        decreases ok && again, Missing(View(), |units|)
      {
        ghost var m := View();
        if Round(c, m).Again? {
          RoundProgress(c, m);
        }
        again, ok := ConnectVectorUnit(c);
      }
    }
  }

  /** The wires so far gave this state, or one of them could not be made. */
  ghost predicate Wired(c: Cluster, s: State, prefix: string, k: Controls, all: set<string>, wires: seq<Wire>, ok: bool, now: State)
    requires c.lanes >= 2
  {
    ConnectWires(c, s, prefix, k, all, wires) == if ok then Some(now) else None
  }

  lemma LastWire(a: seq<Wire>, b: seq<Wire>)
    requires b != []
    ensures a + b == (a + b[..|b| - 1]) + [b[|b| - 1]]
  {
  }

  lemma {:induction false} WiresAppend(c: Cluster, s: State, prefix: string, k: Controls, all: set<string>, a: seq<Wire>, b: seq<Wire>)
    requires c.lanes >= 2
    ensures ConnectWires(c, s, prefix, k, all, a + b)
            == match ConnectWires(c, s, prefix, k, all, a)
               case None => None
               case Some(s1) => ConnectWires(c, s1, prefix, k, all, b)
    decreases |b|
  {
    if b == [] {
      assert a + b == a;
    } else {
      var n := |b| - 1;
      WiresAppend(c, s, prefix, k, all, a, b[..n]);
      LastWire(a, b);
      WireStep(c, s, prefix, k, all, a + b[..n], b[n]);
    }
  }

  lemma WiresStep(operands: seq<nat>, binding: map<nat, nat>, d: Direction, skip: set<nat>, i: nat)
    requires i < |operands| && forall j :: 0 <= j < |operands| ==> operands[j] in binding
    ensures WiresOf(operands[..i + 1], binding, d, skip)
            == WiresOf(operands[..i], binding, d, skip)
               + if binding[operands[i]] in skip then [] else [Wire(binding[operands[i]], operands[i], d)]
  {
    assert operands[..i + 1][..i] == operands[..i];
  }

  lemma WireStep(c: Cluster, s: State, prefix: string, k: Controls, all: set<string>, wires: seq<Wire>, w: Wire)
    requires c.lanes >= 2
    ensures ConnectWires(c, s, prefix, k, all, wires + [w])
            == match ConnectWires(c, s, prefix, k, all, wires)
               case None => None
               case Some(s1) => ConnectWire(c, s1, prefix, k, all, w)
  {
    assert (wires + [w])[..|wires|] == wires;
  }
}
