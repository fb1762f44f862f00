/**
 The machine under construction, changed in place (tce/explorer/ADFCombiner.cc:514-699).
 */
module ClusterBuilder {
  import opened Wrappers
  import opened ClusterNames
  import opened ClusterRing
  import opened ClusterTopology

  /** All edges were made, or the first of them that could not be made failed; this is the machine then. */
  ghost predicate Reached(net: Net, c: Cluster, edges: seq<Edge>, ok: bool, view: Net) {
    && AreEdges(c, edges)
    && (ok <==> AddLinks(net, LinksOf(c, edges)).Ok?)
    && view == Farthest(net, LinksOf(c, edges))
  }

  lemma ReachedAppend(net: Net, c: Cluster, edges: seq<Edge>, ok: bool, view: Net, e: Edge, ok': bool, view': Net)
    requires Reached(net, c, edges, ok, view) && IsEdge(c, e)
    requires ok' <==> ok && AddLink(view, LinkOf(c, e)).Ok?
    requires view' == if ok' then AddLink(view, LinkOf(c, e)).value else view
    ensures Reached(net, c, edges + [e], ok', view')
  {
    var links := LinksOf(c, edges + [e]);
    assert links[..|edges|] == LinksOf(c, edges);
  }

  lemma {:induction false} FailedStays(net: Net, c: Cluster, edges: seq<Edge>, more: seq<Edge>, view: Net)
    requires Reached(net, c, edges, false, view) && AreEdges(c, more)
    ensures Reached(net, c, edges + more, false, view)
    decreases |more|
  {
    if more == [] {
      assert edges + more == edges;
    } else {
      var n := |more| - 1;
      FailedStays(net, c, edges, more[..n], view);
      ReachedAppend(net, c, edges + more[..n], false, view, more[n], false, view);
      assert edges + more[..n] + [more[n]] == edges + more;
    }
  }

  lemma ExtraEdgesStep(c: Cluster, i: nat, k: nat, edges: seq<Edge>)
    requires c.lanes >= 1 && i < |c.files| && k < |c.extras|
    ensures edges + ExtraEdges(c, i, k) + EndEdges(c, i, k) == edges + ExtraEdges(c, i, k + 1)
  {
  }

  lemma FindPortStep(ports: seq<Port>, k: nat, name: string)
    requires k < |ports|
    ensures FindPort(ports[..k + 1], name) == if ports[k].name == name then k else FindPort(ports[..k], name)
  {
    assert ports[..k + 1] == ports[..k] + [ports[k]];
    FindPortAppend(ports[..k], ports[k], name);
  }

  lemma EdgesStep(c: Cluster, i: nat)
    requires c.lanes >= 1 && i < |c.files|
    ensures Edges(c, i) + Neighbours(i, c.lanes - 1) + ExtraEdges(c, i, |c.extras|) == Edges(c, i + 1)
  {
  }

  lemma EndEdgesStep(c: Cluster, i: nat, k: nat, edges: seq<Edge>)
    requires c.lanes >= 1 && i < |c.files| && k < |c.extras|
    ensures edges + EndEdges(c, i, k)
            == if c.extras[k].width != c.files[i].width then edges
               else if c.lanes == 1 then edges + [ToExtra(i, 0, k)]
               else edges + [ToExtra(i, 0, k)] + [ToExtra(i, c.lanes - 1, k)]
  {
  }

  lemma StillBuilt(net: Net, c: Cluster, edges: seq<Edge>, view: Net, x: Node)
    requires Built(net, c) && Reached(net, c, edges, true, view) && IsNode(c, x)
    ensures NameOf(c, x) in view.files && view.files[NameOf(c, x)].width == WidthOf(c, x)
  {
    LinksKeepFiles(net, LinksOf(c, edges));
  }

  class Combiner {
    var buses: map<string, nat>
    var sockets: map<string, Socket>
    var files: map<string, RegisterFile>

    constructor (net: Net)
      ensures View() == net
    {
      buses, sockets, files := net.buses, net.sockets, net.files;
    }

    function View(): Net
      reads this
    {
      Net(buses, sockets, files)
    }

    /** createBus; false where it throws. */
    method AddBus(name: string, width: nat) returns (ok: bool)
      modifies this
      ensures ok <==> CreateBus(old(View()), name, width).Ok?
      ensures View() == if ok then CreateBus(old(View()), name, width).value else old(View())
    {
      ok := name !in buses;
      if ok {
        buses := buses[name := width];
      }
    }

    /** The search for both connect ports in one pass over the ports. */
    method FindConnectPorts(ports: seq<Port>, read: string, write: string) returns (r: int, w: int)
      ensures r == FindPort(ports, read) && w == FindPort(ports, write)
    {
      r, w := -1, -1;
      var k := 0;
      while k < |ports|
        invariant 0 <= k <= |ports|
        invariant r == FindPort(ports[..k], read) && w == FindPort(ports[..k], write)
      {
        FindPortStep(ports, k, read);
        FindPortStep(ports, k, write);
        if ports[k].name == read {
          r := k;
        }
        if ports[k].name == write {
          w := k;
        }
        k := k + 1;
      }
      assert ports[..k] == ports;
    }

    /** Attach a bus to a socket that is in the machine. */
    method AttachBusTo(name: string, bus: string, d: Direction)
      requires name in sockets
      modifies this`sockets
      ensures sockets == old(sockets)[name := AttachBus(old(sockets)[name], bus, d)]
    {
      var s := sockets[name];
      if bus !in s.buses {
        s := s.(buses := s.buses + [bus]);
        s := s.(direction := d);
      }
      sockets := sockets[name := s];
    }

    /** Both connect ports of a register file, made where they are missing. */
    method EnsurePorts(own: seq<Port>, read: string, write: string) returns (ports: seq<Port>, r: int, w: int)
      requires read != write
      ensures ports == WithPort(WithPort(own, read), write)
      ensures 0 <= r < |ports| && 0 <= w < |ports| && r == FindPort(ports, read) && w == FindPort(ports, write)
    {
      ports := own;
      r, w := FindConnectPorts(ports, read, write);
      FindPortAppend(own, Port(read, []), write);
      if r == -1 {
        r := |ports|;
        ports := ports + [Port(read, [])];
      }
      FindPortAppend(own, Port(read, []), read);
      ghost var half := ports;
      assert half == WithPort(own, read) && r == FindPort(half, read) && w == FindPort(half, write);
      FindPortAppend(half, Port(write, []), read);
      FindPortAppend(half, Port(write, []), write);
      if w == -1 {
        w := |ports|;
        ports := ports + [Port(write, [])];
      }
    }

    method EnsureSocket(name: string)
      modifies this`sockets
      ensures sockets == WithSocket(old(sockets), name)
    {
      if name !in sockets {
        sockets := sockets[name := Socket(Unknown, [])];
      }
    }

    /** Attach the socket to a port that has none of this direction. */
    method AttachSocketTo(ports: seq<Port>, k: nat, name: string, d: Direction) returns (after: seq<Port>)
      requires k < |ports| && k == FindPort(ports, name)
      ensures after == AttachPort(ports, sockets, name, d)
    {
      after := ports;
      if !HasSocket(sockets, ports[k], d) {
        after := ports[k := ports[k].(sockets := ports[k].sockets + [name])];
      }
    }

    /** createPortsAndSockets */
    method AddPortsAndSockets(file: string, bus: string)
      requires file in files
      modifies this
      ensures View() == CreatePortsAndSockets(old(View()), file, bus)
    {
      ConnectNamesDiffer(file, file);
      var read, write, rf := ReadName(file), WriteName(file), files[file];
      var ports, r, w := EnsurePorts(rf.ports, read, write);
      EnsureSocket(read);
      EnsureSocket(write);
      AttachedPortStays(ports, r, w, write, ports[r].sockets + [read]);
      ports := AttachSocketTo(ports, r, read, Output);
      AttachBusTo(read, bus, Output);
      ports := AttachSocketTo(ports, w, write, Input);
      AttachBusTo(write, bus, Input);
      files := files[file := rf.(ports := ports)];
    }

    lemma AttachedPortStays(ports: seq<Port>, r: int, w: int, name: string, to: seq<string>)
      requires 0 <= r < |ports| && FindPort(ports, name) == w
      ensures FindPort(ports[r := ports[r].(sockets := to)], name) == w
      decreases |ports|
    {
      var n, after := |ports| - 1, ports[r := ports[r].(sockets := to)];
      if ports[n].name != name {
        if r < n {
          assert after[..n] == ports[..n][r := ports[..n][r].(sockets := to)];
          AttachedPortStays(ports[..n], r, w, name, to);
        } else {
          assert after[..n] == ports[..n];
        }
      }
    }

    /** A connection bus between two register files, with a socket pair at each. */
    method Connect(name: string, first: string, second: string) returns (ok: bool)
      requires first in files && second in files
      modifies this
      ensures var l := Link(name, Max(old(files)[first].width, old(files)[second].width), first, second);
              && (ok <==> AddLink(old(View()), l).Ok?)
              && View() == if ok then AddLink(old(View()), l).value else old(View())
    {
      var width := Max(files[first].width, files[second].width);
      ok := AddBus(name, width);
      if ok {
        AddPortsAndSockets(first, name);
        AddPortsAndSockets(second, name);
      }
    }

    method ConnectEdge(c: Cluster, e: Edge, ok: bool, ghost net: Net, ghost edges: seq<Edge>) returns (ok': bool)
      requires IsEdge(c, e) && Built(net, c) && Reached(net, c, edges, ok, View())
      modifies this
      ensures Reached(net, c, edges + [e], ok', View())
    {
      ok' := ok;
      ghost var view := View();
      if ok {
        assert IsNode(c, Left(e)) && IsNode(c, Right(e));
        StillBuilt(net, c, edges, view, Left(e));
        StillBuilt(net, c, edges, view, Right(e));
        ok' := Connect(BusName(c, e), NameOf(c, Left(e)), NameOf(c, Right(e)));
      }
      ReachedAppend(net, c, edges, ok, view, e, ok', View());
    }

    /** Connections between neighbouring lanes of one register file. */
    method ConnectLanes(c: Cluster, i: nat, ok: bool, ghost net: Net, ghost edges: seq<Edge>) returns (ok': bool)
      requires Built(net, c) && i < |c.files| && Reached(net, c, edges, ok, View())
      modifies this
      ensures Reached(net, c, edges + Neighbours(i, c.lanes - 1), ok', View())
    {
      ok' := ok;
      var j := 0;
      assert edges + [] == edges;
      while j < c.lanes - 1
        invariant 0 <= j <= c.lanes - 1 && Reached(net, c, edges + Neighbours(i, j), ok', View())
      {
        ok' := ConnectEdge(c, Next(i, j), ok', net, edges + Neighbours(i, j));
        assert edges + Neighbours(i, j) + [Next(i, j)] == edges + Neighbours(i, j + 1);
        j := j + 1;
      }
    }

    /** Connections of the first and last lane to the extra register files. */
    method ConnectExtras(c: Cluster, i: nat, ok: bool, ghost net: Net, ghost edges: seq<Edge>) returns (ok': bool)
      requires Built(net, c) && i < |c.files| && Reached(net, c, edges, ok, View())
      modifies this
      ensures Reached(net, c, edges + ExtraEdges(c, i, |c.extras|), ok', View())
    {
      ok' := ok;
      var k := 0;
      assert edges + [] == edges;
      while k < |c.extras|
        invariant 0 <= k <= |c.extras| && Reached(net, c, edges + ExtraEdges(c, i, k), ok', View())
      {
        ok' := ConnectExtraIf(c, i, k, ok', net, edges + ExtraEdges(c, i, k));
        ExtraEdgesStep(c, i, k, edges);
        k := k + 1;
      }
    }

    /** One extra register file, unless the call has failed before. */
    method ConnectExtraIf(c: Cluster, i: nat, k: nat, ok: bool, ghost net: Net, ghost edges: seq<Edge>) returns (ok': bool)
      requires Built(net, c) && i < |c.files| && k < |c.extras| && Reached(net, c, edges, ok, View())
      modifies this
      ensures Reached(net, c, edges + EndEdges(c, i, k), ok', View())
    {
      ok' := ok;
      if ok {
        ok' := ConnectExtra(c, i, k, net, edges);
      } else {
        FailedStays(net, c, edges, EndEdges(c, i, k), View());
      }
    }

    /** One extra register file: joined to the first and the last lane, if those are two. */
    method ConnectExtra(c: Cluster, i: nat, k: nat, ghost net: Net, ghost edges: seq<Edge>) returns (ok: bool)
      requires Built(net, c) && i < |c.files| && k < |c.extras| && Reached(net, c, edges, true, View())
      modifies this
      ensures Reached(net, c, edges + EndEdges(c, i, k), ok, View())
    {
      ok := true;
      var first, last := LaneName(c.files[i].name, 0), LaneName(c.files[i].name, c.lanes - 1);
      var extra := ExtraName(c.extras[k].name);
      StillBuilt(net, c, edges, View(), Lane(i, 0));
      StillBuilt(net, c, edges, View(), Extra(k));
      EndEdgesStep(c, i, k, edges);
      if files[extra].width == files[first].width {
        ok := ConnectEdge(c, ToExtra(i, 0, k), ok, net, edges);
        NameOfInjective(c, Lane(i, 0), Lane(i, c.lanes - 1));
        if first != last {
          ok := ConnectEdge(c, ToExtra(i, c.lanes - 1, k), ok, net, edges + [ToExtra(i, 0, k)]);
        }
      }
    }

    /**
     connectRegisterFiles. Once a bus name is taken nothing more is done, and the links made before
     stay: `ok` stands for the exception that ends the call.
     */
    method ConnectRegisterFiles(c: Cluster) returns (ok: bool)
      requires Built(View(), c)
      modifies this
      ensures ok <==> AddLinks(old(View()), ClusterLinks(c)).Ok?
      ensures View() == Farthest(old(View()), ClusterLinks(c))
    {
      ok := true;
      ghost var net := View();
      var i := 0;
      while i < |c.files|
        invariant 0 <= i <= |c.files| && Reached(net, c, Edges(c, i), ok, View())
      {
        ok := ConnectLanes(c, i, ok, net, Edges(c, i));
        ok := ConnectExtras(c, i, ok, net, Edges(c, i) + Neighbours(i, c.lanes - 1));
        EdgesStep(c, i);
        i := i + 1;
      }
    }
  }
}
