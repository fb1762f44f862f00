/**
 The ring of register files in names and widths (tce/explorer/ADFCombiner.cc:514-699): which bus
 joins two files, how wide it is, and at which ports and sockets it ends.
 */
module ClusterMeaning {
  import opened Wrappers
  import opened ClusterNames
  import opened ClusterRing
  import opened ClusterTopology

  /** The first n links have their buses, each as wide as its link. */
  ghost predicate HaveWidths(net: Net, links: seq<Link>, n: nat)
    requires n <= |links|
  {
    forall i :: 0 <= i < n ==> links[i].bus in net.buses && net.buses[links[i].bus] == links[i].width
  }

  lemma LinkBus(before: Net, l: Link, after: Net)
    requires AddLink(before, l) == Ok(after)
    ensures l.bus !in before.buses && after.buses == before.buses[l.bus := l.width]
  {
    LinkKeepsFiles(before, l);
  }

  /** A run of links that is made passes through the machine before its last link. */
  lemma LastLink(net: Net, links: seq<Link>, n: nat)
    requires 0 < n <= |links| && AddLinks(net, links[..n]).Ok?
    ensures AddLinks(net, links[..n - 1]).Ok?
    ensures AddLink(AddLinks(net, links[..n - 1]).value, links[n - 1]) == AddLinks(net, links[..n])
  {
    assert links[..n][..n - 1] == links[..n - 1];
  }

  ghost predicate SetsWidths(net: Net, links: seq<Link>, n: nat)
    requires n <= |links|
  {
    AddLinks(net, links[..n]).Ok? ==> HaveWidths(AddLinks(net, links[..n]).value, links, n)
  }

  lemma NextWidth(net: Net, links: seq<Link>, n: nat)
    requires 0 < n <= |links| && SetsWidths(net, links, n - 1)
    ensures SetsWidths(net, links, n)
  {
    if AddLinks(net, links[..n]).Ok? {
      LastLink(net, links, n);
      LinkBus(AddLinks(net, links[..n - 1]).value, links[n - 1], AddLinks(net, links[..n]).value);
    }
  }

  /** A link's bus gets the link's width. */
  lemma LinksSetWidths(net: Net, links: seq<Link>)
    ensures SetsWidths(net, links, |links|)
  {
    var n := 0;
    while n < |links|
      invariant n <= |links| && SetsWidths(net, links, n)
    {
      n := n + 1;
      NextWidth(net, links, n);
    }
  }

  /** The bus leaves the file by one read port and enters it by one write port, each with its socket. */
  ghost predicate EndsAt(net: Net, file: string, bus: string) {
    var r, w := file + "_connect_r", file + "_connect_w";
    && file in net.files && r in net.sockets && w in net.sockets
    && Port(r, [r]) in net.files[file].ports && Port(w, [w]) in net.files[file].ports
    && net.sockets[r].direction == Output && bus in net.sockets[r].buses
    && net.sockets[w].direction == Input && bus in net.sockets[w].buses
  }

  /** A bus of this width joins the two files in both directions. */
  ghost predicate JoinedBy(net: Net, a: string, b: string, bus: string, width: nat) {
    bus in net.buses && net.buses[bus] == width && EndsAt(net, a, bus) && EndsAt(net, b, bus)
  }

  lemma ConnectedEnds(net: Net, after: Net, file: string, buses: seq<string>, bus: string)
    requires file in net.files && ConnectedBy(net, after, file, buses) && bus in buses
    ensures EndsAt(after, file, bus)
  {
    var ports, r, w := after.files[file].ports, ReadName(file), WriteName(file);
    assert ports[|ports| - 2] == Port(r, [r]) && ports[|ports| - 1] == Port(w, [w]);
  }

  lemma LinkEndsAt(net: Net, after: Net, links: seq<Link>, i: nat, file: string)
    requires i < |links| && file in net.files && ConnectedBy(net, after, file, BusesOf(links, file))
    requires links[i].a == file || links[i].b == file
    ensures EndsAt(after, file, links[i].bus)
  {
    BusesOfLinks(links, file, links[i].bus);
    assert Touches(links[i], file);
    ConnectedEnds(net, after, file, BusesOf(links, file), links[i].bus);
  }

  lemma WidthAt(net: Net, after: Net, links: seq<Link>, i: nat)
    requires i < |links| && AddLinks(net, links) == Ok(after)
    ensures links[i].bus in after.buses && after.buses[links[i].bus] == links[i].width
  {
    LinksSetWidths(net, links);
    assert links[..|links|] == links;
  }

  lemma RingOf(net: Net, links: seq<Link>, after: Net)
    requires NoClash(net, links) && AddLinks(net, links) == Ok(after)
    ensures Ring(net, after, links)
  {
    LinksMakeRing(net, links);
  }

  /** A link joins its two files by its bus. */
  lemma LinkJoinsFiles(net: Net, after: Net, links: seq<Link>, i: nat)
    requires i < |links| && NoClash(net, links) && Ring(net, after, links) && AddLinks(net, links) == Ok(after)
    ensures JoinedBy(after, links[i].a, links[i].b, links[i].bus, links[i].width)
  {
    WidthAt(net, after, links, i);
    LinkEndsAt(net, after, links, i, links[i].a);
    LinkEndsAt(net, after, links, i, links[i].b);
  }

  /** Adjacent files have a link of their own. */
  lemma LinkOfPair(c: Cluster, x: Node, y: Node) returns (e: Edge)
    requires c.lanes >= 1 && IsNode(c, x) && IsNode(c, y) && Adjacent(c, x, y) && NamesApart(c) && x != y
    ensures IsEdge(c, e) && Joins(e, x, y) && LinkOf(c, e) in ClusterLinks(c)
  {
    var k := OneLink(c, x, y);
    e := Edges(c, |c.files|)[k];
    assert ClusterLinks(c)[k] == LinkOf(c, e);
  }

  lemma EdgeJoins(net: Net, after: Net, c: Cluster, e: Edge)
    requires Built(net, c) && NoNameClash(net, c) && AddLinks(net, ClusterLinks(c)) == Ok(after)
    requires IsEdge(c, e) && LinkOf(c, e) in ClusterLinks(c)
    ensures var l := LinkOf(c, e); JoinedBy(after, l.a, l.b, l.bus, l.width)
  {
    NoClashOfNames(net, c);
    var links, l := ClusterLinks(c), LinkOf(c, e);
    var i :| 0 <= i < |links| && links[i] == l;
    RingOf(net, links, after);
    LinkJoinsFiles(net, after, links, i);
  }

  lemma LaneLink(c: Cluster, f: nat, i: nat, a: string, b: string)
    requires f < |c.files| && i + 1 < c.lanes && a == Decimal(i) && b == Decimal(i + 1)
    ensures var name := c.files[f].name;
            LinkOf(c, Next(f, i)) == Link("connect_" + name + "_" + a + "_" + b, c.files[f].width,
                                          "L_" + a + "_" + name, "L_" + b + "_" + name)
  {
  }

  /** The same file of two neighbouring lanes is joined by a bus of the file's width. */
  lemma LanesAreJoined(net: Net, after: Net, c: Cluster, f: nat, i: nat, a: string, b: string)
    requires Built(net, c) && NoNameClash(net, c) && AddLinks(net, ClusterLinks(c)) == Ok(after)
    requires f < |c.files| && i + 1 < c.lanes && a == Decimal(i) && b == Decimal(i + 1)
    ensures var name := c.files[f].name;
            JoinedBy(after, "L_" + a + "_" + name, "L_" + b + "_" + name,
                     "connect_" + name + "_" + a + "_" + b, c.files[f].width)
  {
    LaneLink(c, f, i, a, b);
    var e := LinkOfPair(c, Lane(f, i), Lane(f, i + 1));
    assert e == Next(f, i);
    EdgeJoins(net, after, c, e);
  }

  lemma ExtraLink(c: Cluster, f: nat, i: nat, k: nat)
    requires f < |c.files| && i < c.lanes && k < |c.extras| && c.extras[k].width == c.files[f].width
    ensures var lane, extra := "L_" + Decimal(i) + "_" + c.files[f].name, "EX_" + c.extras[k].name;
            LinkOf(c, ToExtra(f, i, k)) == Link("connect_" + extra + "_" + lane, c.files[f].width, lane, extra)
  {
  }

  /** A file of the first or last lane is joined to every extra file of its width. */
  lemma ExtrasAreJoined(net: Net, after: Net, c: Cluster, f: nat, i: nat, k: nat)
    requires Built(net, c) && NoNameClash(net, c) && AddLinks(net, ClusterLinks(c)) == Ok(after)
    requires f < |c.files| && (i == 0 || i == c.lanes - 1)
    requires k < |c.extras| && c.extras[k].width == c.files[f].width
    ensures var lane, extra := "L_" + Decimal(i) + "_" + c.files[f].name, "EX_" + c.extras[k].name;
            JoinedBy(after, lane, extra, "connect_" + extra + "_" + lane, c.files[f].width)
  {
    ExtraLink(c, f, i, k);
    var e := LinkOfPair(c, Lane(f, i), Extra(k));
    assert e == ToExtra(f, i, k);
    EdgeJoins(net, after, c, e);
  }
}
