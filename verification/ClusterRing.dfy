/**
 The ring of register files (tce/explorer/ADFCombiner.cc:514-699): which connection buses are
 made, and what each of them does to the machine.
 */
module ClusterRing {
  import opened Wrappers
  import opened ClusterNames

  // ---------------------------------------------------------------------------------------
  // Machine
  // ---------------------------------------------------------------------------------------

  datatype Direction = Unknown | Input | Output

  datatype Socket = Socket(direction: Direction, buses: seq<string>)

  /** A port and the names of the sockets attached to it. */
  datatype Port = Port(name: string, sockets: seq<string>)

  datatype RegisterFile = RegisterFile(width: nat, ports: seq<Port>)

  /** Buses by name with their widths, sockets and register files by name. */
  datatype Net = Net(buses: map<string, nat>, sockets: map<string, Socket>, files: map<string, RegisterFile>)

  datatype Error = ComponentAlreadyExists | InstanceNotFound

  function CreateBus(net: Net, name: string, width: nat): Result<Net, Error> {
    if name in net.buses then Err(ComponentAlreadyExists) else Ok(net.(buses := net.buses[name := width]))
  }

  /** The last port of this name, as the search loop finds it. */
  function FindPort(ports: seq<Port>, name: string): (k: int)
    ensures k == -1 || (0 <= k < |ports| && ports[k].name == name)
    ensures k == -1 ==> forall j :: 0 <= j < |ports| ==> ports[j].name != name
  {
    if ports == [] then -1
    else if ports[|ports| - 1].name == name then |ports| - 1
    else FindPort(ports[..|ports| - 1], name)
  }

  function WithPort(ports: seq<Port>, name: string): seq<Port> {
    if FindPort(ports, name) == -1 then ports + [Port(name, [])] else ports
  }

  function WithSocket(sockets: map<string, Socket>, name: string): map<string, Socket> {
    if name in sockets then sockets else sockets[name := Socket(Unknown, [])]
  }

  /** The port has a socket of this direction. */
  predicate HasSocket(sockets: map<string, Socket>, p: Port, d: Direction) {
    exists i :: 0 <= i < |p.sockets| && p.sockets[i] in sockets && sockets[p.sockets[i]].direction == d
  }

  /** Attach the socket unless the port already has one of this direction. */
  function AttachPort(ports: seq<Port>, sockets: map<string, Socket>, name: string, d: Direction): seq<Port> {
    var k := FindPort(ports, name);
    if k == -1 || HasSocket(sockets, ports[k], d) then ports
    else ports[k := ports[k].(sockets := ports[k].sockets + [name])]
  }

  /** Attach the bus unless it is attached, and then set the direction. */
  function AttachBus(s: Socket, bus: string, d: Direction): Socket {
    if bus in s.buses then s else Socket(d, s.buses + [bus])
  }

  /** The sockets r and w, created if there are none. */
  function BothSockets(sockets: map<string, Socket>, r: string, w: string): map<string, Socket> {
    WithSocket(WithSocket(sockets, r), w)
  }

  /** The bus attached to the named socket. */
  function WithBus(sockets: map<string, Socket>, name: string, bus: string, d: Direction): map<string, Socket>
    requires name in sockets
  {
    sockets[name := AttachBus(sockets[name], bus, d)]
  }

  /** createPortsAndSockets: one read and one write port for the file, each with its socket. */
  function CreatePortsAndSockets(net: Net, file: string, bus: string): Net
    requires file in net.files
  {
    var r, w, rf := ReadName(file), WriteName(file), net.files[file];
    var ports := WithPort(WithPort(rf.ports, r), w);
    var sockets := BothSockets(net.sockets, r, w);
    var ports1 := AttachPort(ports, sockets, r, Output);
    var sockets1 := WithBus(sockets, r, bus, Output);
    var ports2 := AttachPort(ports1, sockets1, w, Input);
    net.(sockets := WithBus(sockets1, w, bus, Input), files := net.files[file := rf.(ports := ports2)])
  }

  /** A connection bus and the two register files it joins. */
  datatype Link = Link(bus: string, width: nat, a: string, b: string)

  function AddLink(net: Net, l: Link): Result<Net, Error> {
    if l.a !in net.files || l.b !in net.files then Err(InstanceNotFound)
    else
      match CreateBus(net, l.bus, l.width)
      case Err(e) => Err(e)
      case Ok(n) => Ok(CreatePortsAndSockets(CreatePortsAndSockets(n, l.a, l.bus), l.b, l.bus))
  }

  function AddLinks(net: Net, links: seq<Link>): Result<Net, Error> {
    if links == [] then Ok(net)
    else
      match AddLinks(net, links[..|links| - 1])
      case Err(e) => Err(e)
      case Ok(n) => AddLink(n, links[|links| - 1])
  }

  /** The machine after the longest run of links that can be made. */
  function Farthest(net: Net, links: seq<Link>): Net {
    match AddLinks(net, links)
    case Ok(n) => n
    case Err(_) => if links == [] then net else Farthest(net, links[..|links| - 1])
  }

  lemma FarthestStep(net: Net, links: seq<Link>)
    requires AddLinks(net, links).Err?
    ensures links != [] && Farthest(net, links) == Farthest(net, links[..|links| - 1])
  {
  }

  /** All of the first n links are made, or the first one that cannot be made is the next. */
  lemma {:induction false} FarthestIsLongest(net: Net, links: seq<Link>, n: nat) returns (k: nat)
    requires n <= |links|
    ensures k <= n && AddLinks(net, links[..k]) == Ok(Farthest(net, links[..n]))
    ensures k < n ==> AddLinks(net, links[..k + 1]).Err?
    decreases n
  {
    if AddLinks(net, links[..n]).Ok? {
      k := n;
    } else {
      FarthestStep(net, links[..n]);
      assert links[..n][..n - 1] == links[..n - 1];
      k := FarthestIsLongest(net, links, n - 1);
    }
  }

  // ---------------------------------------------------------------------------------------
  // What the links leave behind
  // ---------------------------------------------------------------------------------------

  predicate Touches(l: Link, file: string) {
    l.a == file || l.b == file
  }

  /** The buses of a register file, in the order they were made. */
  function BusesOf(links: seq<Link>, file: string): seq<string> {
    if links == [] then []
    else
      var rest, l := BusesOf(links[..|links| - 1], file), links[|links| - 1];
      if Touches(l, file) then rest + [l.bus] else rest
  }

  /** Nothing in the machine carries a connect name yet, and the new buses are new and distinct. */
  ghost predicate NoClash(net: Net, links: seq<Link>) {
    && (forall f :: f in net.files ==>
          && ReadName(f) !in net.sockets && WriteName(f) !in net.sockets
          && FindPort(net.files[f].ports, ReadName(f)) == -1 && FindPort(net.files[f].ports, WriteName(f)) == -1)
    && (forall i :: 0 <= i < |links| ==>
          && links[i].bus !in net.buses && links[i].a in net.files && links[i].b in net.files && links[i].a != links[i].b)
    && (forall i, j :: 0 <= i < j < |links| ==> links[i].bus != links[j].bus)
  }

  /**
   The connections of one register file: none if it has no connection bus, otherwise exactly one
   read and one write port besides its own, and their two sockets attached to exactly its buses.
   */
  ghost predicate ConnectedBy(old': Net, net: Net, file: string, buses: seq<string>)
    requires file in old'.files
  {
    var r, w := ReadName(file), WriteName(file);
    && file in net.files
    && net.files[file].width == old'.files[file].width
    && if buses == [] then
         net.files[file] == old'.files[file] && r !in net.sockets && w !in net.sockets
       else
         && net.files[file].ports == old'.files[file].ports + [Port(r, [r]), Port(w, [w])]
         && r in net.sockets && net.sockets[r] == Socket(Output, buses)
         && w in net.sockets && net.sockets[w] == Socket(Input, buses)
  }

  /** All register files are connected by their buses; everything else is as it was. */
  ghost predicate Ring(old': Net, net: Net, links: seq<Link>) {
    && net.files.Keys == old'.files.Keys
    && (forall f :: f in old'.files ==> ConnectedBy(old', net, f, BusesOf(links, f)))
    && BusesAre(old', net, links)
    && (forall s :: s in old'.sockets ==> s in net.sockets && net.sockets[s] == old'.sockets[s])
  }

  lemma {:induction false} FindPortAppend(ports: seq<Port>, p: Port, name: string)
    ensures FindPort(ports + [p], name) == if p.name == name then |ports| else FindPort(ports, name)
  {
    assert (ports + [p])[..|ports|] == ports;
  }

  /** New ports are found at the end of the list. */
  lemma NewPorts(ports: seq<Port>, p: Port, q: Port)
    requires FindPort(ports, p.name) == -1 && FindPort(ports, q.name) == -1 && p.name != q.name
    ensures FindPort(ports + [p, q], p.name) == |ports| && FindPort(ports + [p, q], q.name) == |ports| + 1
    ensures p.sockets == [] && q.sockets == [] ==> WithPort(WithPort(ports, p.name), q.name) == ports + [p, q]
  {
    FindPortAppend(ports, p, p.name);
    FindPortAppend(ports, p, q.name);
    FindPortAppend(ports + [p], q, p.name);
    FindPortAppend(ports + [p], q, q.name);
    assert ports + [p] + [q] == ports + [p, q];
  }

  lemma AttachNew(ports: seq<Port>, k: nat, sockets: map<string, Socket>, name: string, d: Direction)
    requires k < |ports| && FindPort(ports, name) == k && ports[k] == Port(name, [])
    ensures AttachPort(ports, sockets, name, d) == ports[k := Port(name, [name])]
  {
    assert [] + [name] == [name];
  }

  lemma FirstPorts(ports: seq<Port>, r: string, w: string, sockets: map<string, Socket>, sockets1: map<string, Socket>)
    requires FindPort(ports, r) == -1 && FindPort(ports, w) == -1 && r != w
    ensures AttachPort(AttachPort(WithPort(WithPort(ports, r), w), sockets, r, Output), sockets1, w, Input)
            == ports + [Port(r, [r]), Port(w, [w])]
  {
    NewPorts(ports, Port(r, []), Port(w, []));
    var both := ports + [Port(r, []), Port(w, [])];
    AttachNew(both, |ports|, sockets, r, Output);
    NewPorts(ports, Port(r, [r]), Port(w, []));
    var half := ports + [Port(r, [r]), Port(w, [])];
    assert both[|ports| := Port(r, [r])] == half;
    AttachNew(half, |ports| + 1, sockets1, w, Input);
  }

  /** The two connect sockets of a file, attached to these buses. */
  function ConnectSockets(sockets: map<string, Socket>, r: string, w: string, buses: seq<string>): map<string, Socket> {
    sockets[r := Socket(Output, buses)][w := Socket(Input, buses)]
  }

  lemma FirstSockets(sockets: map<string, Socket>, r: string, w: string, bus: string)
    requires r !in sockets && w !in sockets && r != w
    ensures WithBus(WithBus(BothSockets(sockets, r, w), r, bus, Output), w, bus, Input)
            == ConnectSockets(sockets, r, w, [bus])
  {
    assert [] + [bus] == [bus];
  }

  /** The first link of a file creates its ports and sockets. */
  lemma FirstConnection(net: Net, file: string, bus: string, r: string, w: string)
    requires file in net.files && r == ReadName(file) && w == WriteName(file)
    requires r !in net.sockets && w !in net.sockets && r != w
    requires FindPort(net.files[file].ports, r) == -1 && FindPort(net.files[file].ports, w) == -1
    ensures CreatePortsAndSockets(net, file, bus)
            == net.(sockets := ConnectSockets(net.sockets, r, w, [bus]),
                    files := net.files[file := net.files[file].(ports := net.files[file].ports + [Port(r, [r]), Port(w, [w])])])
  {
    var sockets := BothSockets(net.sockets, r, w);
    FirstSockets(net.sockets, r, w, bus);
    FirstPorts(net.files[file].ports, r, w, sockets, WithBus(sockets, r, bus, Output));
  }

  lemma NextSockets(sockets: map<string, Socket>, r: string, w: string, buses: seq<string>, bus: string)
    requires r in sockets && sockets[r] == Socket(Output, buses) && w in sockets && sockets[w] == Socket(Input, buses)
    requires r != w && bus !in buses
    ensures BothSockets(sockets, r, w) == sockets
    ensures WithBus(WithBus(sockets, r, bus, Output), w, bus, Input) == ConnectSockets(sockets, r, w, buses + [bus])
  {
  }

  /** Ports with their sockets are found again and keep their sockets. */
  lemma NextPorts(own: seq<Port>, r: string, w: string, sockets: map<string, Socket>, sockets1: map<string, Socket>)
    requires r != w && r in sockets && sockets[r].direction == Output && w in sockets1 && sockets1[w].direction == Input
    ensures var ports := own + [Port(r, [r]), Port(w, [w])];
            AttachPort(AttachPort(WithPort(WithPort(ports, r), w), sockets, r, Output), sockets1, w, Input) == ports
  {
    var ports := own + [Port(r, [r]), Port(w, [w])];
    assert ports == own + [Port(r, [r])] + [Port(w, [w])];
    FindPortAppend(own, Port(r, [r]), r);
    FindPortAppend(own + [Port(r, [r])], Port(w, [w]), r);
    FindPortAppend(own + [Port(r, [r])], Port(w, [w]), w);
    assert ports[|own|].sockets[0] == r && ports[|own| + 1].sockets[0] == w;
    assert HasSocket(sockets, ports[|own|], Output);
    assert HasSocket(sockets1, ports[|own| + 1], Input);
  }

  /** Later links of a file reuse its ports and sockets. */
  lemma NextConnection(net: Net, file: string, own: seq<Port>, buses: seq<string>, bus: string, r: string, w: string)
    requires file in net.files && r == ReadName(file) && w == WriteName(file) && r != w && bus !in buses
    requires net.files[file].ports == own + [Port(r, [r]), Port(w, [w])]
    requires r in net.sockets && net.sockets[r] == Socket(Output, buses)
    requires w in net.sockets && net.sockets[w] == Socket(Input, buses)
    ensures CreatePortsAndSockets(net, file, bus) == net.(sockets := ConnectSockets(net.sockets, r, w, buses + [bus]))
  {
    NextSockets(net.sockets, r, w, buses, bus);
    NextPorts(own, r, w, net.sockets, WithBus(net.sockets, r, bus, Output));
    assert net.files[file := net.files[file]] == net.files;
  }

  /** Nothing but the ports of one file and its two connect sockets differs. */
  ghost predicate OnlyChanges(net: Net, after: Net, file: string) {
    && after.buses == net.buses && after.files.Keys == net.files.Keys
    && (forall f :: f in net.files && f != file ==> after.files[f] == net.files[f])
    && (forall s :: s != ReadName(file) && s != WriteName(file) ==>
          (s in after.sockets <==> s in net.sockets) && (s in net.sockets ==> after.sockets[s] == net.sockets[s]))
  }

  lemma ConnectChangesOnly(net: Net, file: string, rf: RegisterFile, buses: seq<string>)
    requires file in net.files
    ensures OnlyChanges(net, net.(sockets := ConnectSockets(net.sockets, ReadName(file), WriteName(file), buses),
                                  files := net.files[file := rf]), file)
  {
  }

  /** One connection of one file: its own part grows by the bus, nothing else changes. */
  lemma Connection(old': Net, net: Net, file: string, buses: seq<string>, bus: string)
    requires file in old'.files && ConnectedBy(old', net, file, buses) && bus !in buses
    requires FindPort(old'.files[file].ports, ReadName(file)) == -1 && FindPort(old'.files[file].ports, WriteName(file)) == -1
    ensures var after := CreatePortsAndSockets(net, file, bus);
            ConnectedBy(old', after, file, buses + [bus]) && OnlyChanges(net, after, file)
  {
    ConnectNamesDiffer(file, file);
    var r, w, after := ReadName(file), WriteName(file), CreatePortsAndSockets(net, file, bus);
    if buses == [] {
      FirstConnection(net, file, bus, r, w);
      FirstLink(old', net, after, file, bus, r, w);
      assert [] + [bus] == [bus];
    } else {
      NextConnection(net, file, old'.files[file].ports, buses, bus, r, w);
      NextLink(old', net, after, file, buses, bus, r, w);
    }
  }

  lemma FirstLink(old': Net, net: Net, after: Net, file: string, bus: string, r: string, w: string)
    requires file in old'.files && ConnectedBy(old', net, file, []) && r == ReadName(file) && w == WriteName(file) && r != w
    requires after == net.(sockets := ConnectSockets(net.sockets, r, w, [bus]),
                           files := net.files[file := net.files[file].(ports := net.files[file].ports + [Port(r, [r]), Port(w, [w])])])
    ensures ConnectedBy(old', after, file, [bus]) && OnlyChanges(net, after, file)
  {
    ConnectChangesOnly(net, file, after.files[file], [bus]);
  }

  lemma NextLink(old': Net, net: Net, after: Net, file: string, buses: seq<string>, bus: string, r: string, w: string)
    requires file in old'.files && ConnectedBy(old', net, file, buses) && r == ReadName(file) && w == WriteName(file) && r != w
    requires buses != [] && after == net.(sockets := ConnectSockets(net.sockets, r, w, buses + [bus]))
    ensures ConnectedBy(old', after, file, buses + [bus]) && OnlyChanges(net, after, file)
  {
    ConnectChangesOnly(net, file, net.files[file], buses + [bus]);
    assert net.files[file := net.files[file]] == net.files;
  }

  lemma OtherFilesKept(old': Net, net: Net, after: Net, file: string, f: string, buses: seq<string>)
    requires f in old'.files && f in net.files && ConnectedBy(old', net, f, buses) && f != file
    requires OnlyChanges(net, after, file)
    ensures ConnectedBy(old', after, f, buses)
  {
    ConnectNamesDiffer(f, file);
    ConnectNamesDiffer(file, f);
  }

  lemma {:induction false} BusesOfLinks(links: seq<Link>, file: string, bus: string)
    ensures bus in BusesOf(links, file) <==> exists i :: 0 <= i < |links| && Touches(links[i], file) && links[i].bus == bus
    decreases |links|
  {
    if links != [] {
      var n := |links| - 1;
      BusesOfLinks(links[..n], file, bus);
      if bus in BusesOf(links[..n], file) {
        var i :| 0 <= i < n && Touches(links[..n][i], file) && links[..n][i].bus == bus;
        assert links[i] == links[..n][i];
      }
      if Touches(links[n], file) && links[n].bus == bus {
        assert bus in BusesOf(links, file);
      }
      if i :| 0 <= i < |links| && Touches(links[i], file) && links[i].bus == bus {
        assert i < n ==> links[..n][i] == links[i];
      }
    }
  }

  lemma FreshBus(net: Net, links: seq<Link>, n: nat, file: string)
    requires n < |links| && NoClash(net, links)
    ensures links[n].bus !in BusesOf(links[..n], file)
  {
    BusesOfLinks(links[..n], file, links[n].bus);
  }

  /** All files connected by the buses `of` gives them. */
  ghost predicate AllConnected(old': Net, net: Net, of: map<string, seq<string>>) {
    && net.files.Keys == old'.files.Keys == of.Keys
    && forall f :: f in old'.files ==> ConnectedBy(old', net, f, of[f])
  }

  ghost predicate Unjoined(old': Net) {
    forall f :: f in old'.files ==>
      && ReadName(f) !in old'.sockets && WriteName(f) !in old'.sockets
      && FindPort(old'.files[f].ports, ReadName(f)) == -1 && FindPort(old'.files[f].ports, WriteName(f)) == -1
  }

  ghost predicate KeepsSockets(old': Net, net: Net) {
    forall s :: s in old'.sockets ==> s in net.sockets && net.sockets[s] == old'.sockets[s]
  }

  lemma KeptSockets(old': Net, net: Net, after: Net, file: string)
    requires Unjoined(old') && KeepsSockets(old', net) && OnlyChanges(net, after, file) && file in old'.files
    ensures KeepsSockets(old', after)
  {
  }

  lemma KeptConnections(old': Net, net: Net, after: Net, of: map<string, seq<string>>, file: string, buses: seq<string>)
    requires AllConnected(old', net, of) && OnlyChanges(net, after, file) && file in old'.files
    requires ConnectedBy(old', after, file, buses)
    ensures AllConnected(old', after, of[file := buses])
  {
    forall f | f in old'.files
      ensures ConnectedBy(old', after, f, of[file := buses][f])
    {
      if f != file {
        OtherFilesKept(old', net, after, file, f, of[f]);
      }
    }
  }

  lemma ConnectOne(old': Net, net: Net, of: map<string, seq<string>>, file: string, bus: string)
    requires Unjoined(old') && AllConnected(old', net, of) && KeepsSockets(old', net)
    requires file in old'.files && bus !in of[file]
    ensures var after := CreatePortsAndSockets(net, file, bus);
            && AllConnected(old', after, of[file := of[file] + [bus]]) && KeepsSockets(old', after)
            && after.buses == net.buses
  {
    var after := CreatePortsAndSockets(net, file, bus);
    Connection(old', net, file, of[file], bus);
    KeptSockets(old', net, after, file);
    KeptConnections(old', net, after, of, file, of[file] + [bus]);
  }

  function BusMap(old': Net, links: seq<Link>): map<string, seq<string>> {
    map f | f in old'.files :: BusesOf(links, f)
  }

  lemma BusMapStep(old': Net, links: seq<Link>, n: nat)
    requires n < |links| && links[n].a in old'.files && links[n].b in old'.files && links[n].a != links[n].b
    ensures var l, of := links[n], BusMap(old', links[..n]);
            var of1 := of[l.a := of[l.a] + [l.bus]];
            of1[l.b := of1[l.b] + [l.bus]] == BusMap(old', links[..n + 1])
  {
    assert links[..n + 1][..n] == links[..n];
  }

  /** The ring, with the buses of each file given by a map. */
  ghost predicate RingBy(old': Net, net: Net, links: seq<Link>) {
    && AllConnected(old', net, BusMap(old', links)) && KeepsSockets(old', net)
    && BusesAre(old', net, links)
  }

  lemma RingIsRingBy(old': Net, net: Net, links: seq<Link>)
    ensures Ring(old', net, links) <==> RingBy(old', net, links)
  {
    forall f | f in old'.files
      ensures BusMap(old', links)[f] == BusesOf(links, f)
    {
    }
  }

  function BusNames(links: seq<Link>): set<string> {
    set l | l in links :: l.bus
  }

  lemma BusNamesStep(links: seq<Link>, n: nat)
    requires n < |links|
    ensures BusNames(links[..n + 1]) == BusNames(links[..n]) + {links[n].bus}
  {
    assert links[..n + 1] == links[..n] + [links[n]];
  }

  lemma NewBus(old': Net, net: Net, links: seq<Link>, n: nat)
    requires n < |links| && NoClash(old', links)
    requires net.buses.Keys == old'.buses.Keys + BusNames(links[..n])
    ensures links[n].bus !in net.buses
  {
    forall l | l in links[..n]
      ensures l.bus != links[n].bus
    {
    }
  }

  /** The bus part of the ring. */
  ghost predicate BusesAre(old': Net, net: Net, links: seq<Link>) {
    && net.buses.Keys == old'.buses.Keys + BusNames(links)
    && (forall b :: b in old'.buses ==> net.buses[b] == old'.buses[b])
  }

  lemma AddedBus(old': Net, net: Net, links: seq<Link>, n: nat, after: Net)
    requires n < |links| && NoClash(old', links) && BusesAre(old', net, links[..n])
    requires after.buses == net.buses[links[n].bus := links[n].width]
    ensures links[n].bus !in net.buses && BusesAre(old', after, links[..n + 1])
  {
    NewBus(old', net, links, n);
    BusNamesStep(links, n);
  }

  lemma WithBusConnected(old': Net, net: Net, of: map<string, seq<string>>, bus: string, width: nat)
    requires AllConnected(old', net, of)
    ensures AllConnected(old', net.(buses := net.buses[bus := width]), of)
  {
    var n0 := net.(buses := net.buses[bus := width]);
    forall f | f in old'.files
      ensures ConnectedBy(old', n0, f, of[f])
    {
      assert ConnectedBy(old', net, f, of[f]);
    }
  }

  /** Both ends of a link are connected to its bus. */
  lemma ConnectBoth(old': Net, n0: Net, of: map<string, seq<string>>, l: Link)
    requires Unjoined(old') && AllConnected(old', n0, of) && KeepsSockets(old', n0)
    requires l.a in old'.files && l.b in old'.files && l.a != l.b && l.bus !in of[l.a] && l.bus !in of[l.b]
    ensures l.a in n0.files && l.b in n0.files
    ensures var mid := CreatePortsAndSockets(n0, l.a, l.bus);
            && l.b in mid.files
            && var after := CreatePortsAndSockets(mid, l.b, l.bus);
               var of1 := of[l.a := of[l.a] + [l.bus]];
               && AllConnected(old', after, of1[l.b := of1[l.b] + [l.bus]]) && KeepsSockets(old', after)
               && after.buses == n0.buses
  {
    ConnectOne(old', n0, of, l.a, l.bus);
    ConnectOne(old', CreatePortsAndSockets(n0, l.a, l.bus), of[l.a := of[l.a] + [l.bus]], l.b, l.bus);
  }

  lemma LinkEnds(net: Net, links: seq<Link>, n: nat)
    requires n < |links| && NoClash(net, links)
    ensures Unjoined(net) && links[n].a in net.files && links[n].b in net.files && links[n].a != links[n].b
  {
  }

  lemma LinkConnects(old': Net, n0: Net, links: seq<Link>, n: nat)
    requires n < |links| && Unjoined(old')
    requires var l := links[n]; l.a in old'.files && l.b in old'.files && l.a != l.b
    requires links[n].bus !in BusesOf(links[..n], links[n].a) && links[n].bus !in BusesOf(links[..n], links[n].b)
    requires AllConnected(old', n0, BusMap(old', links[..n])) && KeepsSockets(old', n0)
    ensures var l := links[n];
            && l.a in n0.files
            && var mid := CreatePortsAndSockets(n0, l.a, l.bus);
            && l.b in mid.files
            && var after := CreatePortsAndSockets(mid, l.b, l.bus);
               && AllConnected(old', after, BusMap(old', links[..n + 1])) && KeepsSockets(old', after)
               && after.buses == n0.buses
  {
    ConnectBoth(old', n0, BusMap(old', links[..n]), links[n]);
    BusMapStep(old', links, n);
  }

  lemma LinkStep(old': Net, net: Net, links: seq<Link>, n: nat)
    requires n < |links| && NoClash(old', links) && RingBy(old', net, links[..n])
    ensures var r := AddLink(net, links[n]); r.Ok? && RingBy(old', r.value, links[..n + 1])
  {
    var l, of := links[n], BusMap(old', links[..n]);
    var n0 := net.(buses := net.buses[l.bus := l.width]);
    LinkEnds(old', links, n);
    FreshBus(old', links, n, l.a);
    FreshBus(old', links, n, l.b);
    WithBusConnected(old', net, of, l.bus, l.width);
    LinkConnects(old', n0, links, n);
    AddedBus(old', net, links, n, CreatePortsAndSockets(CreatePortsAndSockets(n0, l.a, l.bus), l.b, l.bus));
  }

  lemma {:induction false} NoClashPrefix(net: Net, links: seq<Link>, n: nat)
    requires n <= |links| && NoClash(net, links)
    ensures NoClash(net, links[..n])
  {
  }

  /**
   Without name clashes all links are made, and every register file ends with exactly one read
   and one write connect port, whose sockets are attached to exactly the buses of its links.
   */
  lemma {:induction false} LinksMakeRing(net: Net, links: seq<Link>)
    requires NoClash(net, links)
    ensures AddLinks(net, links).Ok? && Ring(net, AddLinks(net, links).value, links)
    decreases |links|
  {
    RingIsRingBy(net, net, links);
    if links != [] {
      var n := |links| - 1;
      NoClashPrefix(net, links, n);
      LinksMakeRing(net, links[..n]);
      RingIsRingBy(net, AddLinks(net, links[..n]).value, links[..n]);
      LinkStep(net, AddLinks(net, links[..n]).value, links, n);
      assert links[..n + 1] == links;
      RingIsRingBy(net, AddLinks(net, links).value, links);
    }
  }

  /** Connecting adds buses and sockets only: register files stay, with their widths. */
  ghost predicate SameFiles(net: Net, after: Net) {
    && after.files.Keys == net.files.Keys
    && forall f :: f in net.files ==> after.files[f].width == net.files[f].width
  }

  lemma PortsKeepFiles(net: Net, file: string, bus: string)
    requires file in net.files
    ensures var after := CreatePortsAndSockets(net, file, bus); SameFiles(net, after) && after.buses == net.buses
  {
  }

  lemma LinkKeepsFiles(net: Net, l: Link)
    requires AddLink(net, l).Ok?
    ensures SameFiles(net, AddLink(net, l).value)
    ensures AddLink(net, l).value.buses == net.buses[l.bus := l.width]
  {
    var n := CreateBus(net, l.bus, l.width).value;
    PortsKeepFiles(n, l.a, l.bus);
    PortsKeepFiles(CreatePortsAndSockets(n, l.a, l.bus), l.b, l.bus);
  }

  lemma {:induction false} LinksKeepFiles(net: Net, links: seq<Link>)
    requires AddLinks(net, links).Ok?
    ensures SameFiles(net, AddLinks(net, links).value)
    ensures AddLinks(net, links).value.buses.Keys == net.buses.Keys + BusNames(links)
    decreases |links|
  {
    if links != [] {
      var n := |links| - 1;
      LinksKeepFiles(net, links[..n]);
      LinkKeepsFiles(AddLinks(net, links[..n]).value, links[n]);
      BusNamesStep(links, n);
      assert links[..n + 1] == links;
    }
  }

  /** The register files exist, and the bus names are new and differ from each other. */
  ghost predicate NewNames(net: Net, links: seq<Link>) {
    && (forall i :: 0 <= i < |links| ==> links[i].bus !in net.buses && links[i].a in net.files && links[i].b in net.files)
    && (forall i, j :: 0 <= i < j < |links| ==> links[i].bus != links[j].bus)
  }

  lemma NewNamesStep(net: Net, links: seq<Link>)
    requires links != []
    ensures var n := |links| - 1;
            NewNames(net, links)
            <==> (NewNames(net, links[..n]) && links[n].a in net.files && links[n].b in net.files
                  && links[n].bus !in net.buses.Keys + BusNames(links[..n]))
  {
    var n := |links| - 1;
    if links[n].bus !in BusNames(links[..n]) {
      forall i | 0 <= i < n
        ensures links[i].bus != links[n].bus
      {
        assert links[..n][i] == links[i];
        assert links[i].bus in BusNames(links[..n]);
      }
    }
  }

  /** The links are made exactly if every file exists and every bus name is new when it is used. */
  lemma {:induction false} LinksSucceedIff(net: Net, links: seq<Link>)
    ensures AddLinks(net, links).Ok? <==> NewNames(net, links)
    decreases |links|
  {
    if links != [] {
      var n := |links| - 1;
      LinksSucceedIff(net, links[..n]);
      NewNamesStep(net, links);
      if AddLinks(net, links[..n]).Ok? {
        LinksKeepFiles(net, links[..n]);
      }
    }
  }
}
