/**
 Which register files a clustered machine joins (tce/explorer/ADFCombiner.cc:514-597): every
 file of every lane with the same file of the next lane, and those of the first and the last lane
 with every extra file of the same width.
 */
module ClusterTopology {
  import opened ClusterNames
  import opened ClusterRing

  datatype File = File(name: string, width: nat)

  /** The register files of the node machine and of the extra machine, and the number of lanes. */
  datatype Cluster = Cluster(lanes: nat, files: seq<File>, extras: seq<File>)

  /** A register file of the finished machine: one file of one lane, or an extra one. */
  datatype Node = Lane(file: nat, lane: nat) | Extra(extra: nat)

  /** A connection: to the next lane, or of a lane with an extra file. */
  datatype Edge = Next(file: nat, lane: nat) | ToExtra(file: nat, lane: nat, extra: nat)

  predicate IsNode(c: Cluster, x: Node) {
    match x
    case Lane(f, i) => f < |c.files| && i < c.lanes
    case Extra(k) => k < |c.extras|
  }

  predicate IsEdge(c: Cluster, e: Edge) {
    match e
    case Next(f, i) => f < |c.files| && i + 1 < c.lanes
    case ToExtra(f, i, k) => f < |c.files| && i < c.lanes && k < |c.extras|
  }

  function NameOf(c: Cluster, x: Node): string
    requires IsNode(c, x)
  {
    match x
    case Lane(f, i) => LaneName(c.files[f].name, i)
    case Extra(k) => ExtraName(c.extras[k].name)
  }

  function Left(e: Edge): Node {
    Lane(e.file, e.lane)
  }

  function Right(e: Edge): Node {
    match e
    case Next(f, i) => Lane(f, i + 1)
    case ToExtra(_, _, k) => Extra(k)
  }

  function Max(a: nat, b: nat): nat {
    if a < b then b else a
  }

  function WidthOf(c: Cluster, x: Node): nat
    requires IsNode(c, x)
  {
    match x
    case Lane(f, _) => c.files[f].width
    case Extra(k) => c.extras[k].width
  }

  function BusName(c: Cluster, e: Edge): string
    requires IsEdge(c, e)
  {
    match e
    case Next(f, i) => "connect_" + c.files[f].name + "_" + Decimal(i) + "_" + Decimal(i + 1)
    case ToExtra(f, i, k) => "connect_" + ExtraName(c.extras[k].name) + "_" + LaneName(c.files[f].name, i)
  }

  function LinkOf(c: Cluster, e: Edge): Link
    requires IsEdge(c, e)
  {
    Link(BusName(c, e), Max(WidthOf(c, Left(e)), WidthOf(c, Right(e))), NameOf(c, Left(e)), NameOf(c, Right(e)))
  }

  /** Connections of the first n + 1 lanes of one file. */
  function Neighbours(file: nat, n: nat): seq<Edge> {
    if n == 0 then [] else Neighbours(file, n - 1) + [Next(file, n - 1)]
  }

  /** Connections of one file with one extra file: only once when there is only one lane. */
  function EndEdges(c: Cluster, file: nat, k: nat): seq<Edge>
    requires c.lanes >= 1 && file < |c.files| && k < |c.extras|
  {
    if c.extras[k].width != c.files[file].width then []
    else if c.lanes == 1 then [ToExtra(file, 0, k)]
    else [ToExtra(file, 0, k), ToExtra(file, c.lanes - 1, k)]
  }

  function ExtraEdges(c: Cluster, file: nat, k: nat): seq<Edge>
    requires c.lanes >= 1 && file < |c.files| && k <= |c.extras|
  {
    if k == 0 then [] else ExtraEdges(c, file, k - 1) + EndEdges(c, file, k - 1)
  }

  /** All connections of the first n files, in the order they are made. */
  function Edges(c: Cluster, n: nat): seq<Edge>
    requires c.lanes >= 1 && n <= |c.files|
  {
    if n == 0 then [] else Edges(c, n - 1) + FileEdges(c, n - 1)
  }

  /** Which pairs of register files are to be joined. */
  predicate Adjacent(c: Cluster, x: Node, y: Node)
    requires IsNode(c, x) && IsNode(c, y)
  {
    match (x, y)
    case (Lane(f, i), Lane(g, j)) => f == g && (i + 1 == j || j + 1 == i)
    case (Lane(f, i), Extra(k)) => (i == 0 || i == c.lanes - 1) && c.extras[k].width == c.files[f].width
    case (Extra(k), Lane(f, i)) => (i == 0 || i == c.lanes - 1) && c.extras[k].width == c.files[f].width
    case (Extra(_), Extra(_)) => false
  }

  predicate Joins(e: Edge, x: Node, y: Node) {
    (Left(e) == x && Right(e) == y) || (Left(e) == y && Right(e) == x)
  }

  /** How many of the first n connections join x and y. */
  function CountTo(edges: seq<Edge>, n: nat, x: Node, y: Node): nat
    requires n <= |edges|
  {
    if n == 0 then 0 else CountTo(edges, n - 1, x, y) + if Joins(edges[n - 1], x, y) then 1 else 0
  }

  function Count(edges: seq<Edge>, x: Node, y: Node): nat {
    CountTo(edges, |edges|, x, y)
  }

  lemma {:induction false} CountPrefix(a: seq<Edge>, b: seq<Edge>, n: nat, x: Node, y: Node)
    requires n <= |a|
    ensures CountTo(a + b, n, x, y) == CountTo(a, n, x, y)
    decreases n
  {
    if n > 0 {
      CountPrefix(a, b, n - 1, x, y);
    }
  }

  lemma {:induction false} CountSuffix(a: seq<Edge>, b: seq<Edge>, n: nat, x: Node, y: Node)
    requires n <= |b|
    ensures CountTo(a + b, |a| + n, x, y) == Count(a, x, y) + CountTo(b, n, x, y)
    decreases n
  {
    if n == 0 {
      CountPrefix(a, b, |a|, x, y);
    } else {
      CountSuffix(a, b, n - 1, x, y);
    }
  }

  lemma CountAppend(a: seq<Edge>, b: seq<Edge>, x: Node, y: Node)
    ensures Count(a + b, x, y) == Count(a, x, y) + Count(b, x, y)
  {
    CountSuffix(a, b, |b|, x, y);
  }

  lemma CountOne(e: Edge, x: Node, y: Node)
    ensures Count([e], x, y) == Bit(Joins(e, x, y))
  {
    assert CountTo([e], 0, x, y) == 0;
  }

  function Bit(b: bool): nat {
    if b then 1 else 0
  }

  /** The same file in neighbouring lanes, up to lane n. */
  predicate AreNext(file: nat, n: nat, x: Node, y: Node) {
    x.Lane? && y.Lane? && x.file == y.file == file && (x.lane + 1 == y.lane <= n || y.lane + 1 == x.lane <= n)
  }

  /** The file in the first or last lane, and an extra file of its width before number k. */
  predicate AreEnds(c: Cluster, file: nat, k: nat, x: Node, y: Node)
    requires IsNode(c, x) && IsNode(c, y)
  {
    Adjacent(c, x, y) && ((x.Extra? && x.extra < k && y.Lane? && y.file == file)
                          || (y.Extra? && y.extra < k && x.Lane? && x.file == file))
  }

  lemma {:induction false} CountNeighbours(file: nat, n: nat, x: Node, y: Node)
    ensures Count(Neighbours(file, n), x, y) == Bit(AreNext(file, n, x, y))
    decreases n
  {
    if n > 0 {
      CountNeighbours(file, n - 1, x, y);
      CountAppend(Neighbours(file, n - 1), [Next(file, n - 1)], x, y);
      CountOne(Next(file, n - 1), x, y);
    }
  }

  /** The file in the first or last lane, and extra file number k. */
  predicate AreEnd(c: Cluster, file: nat, k: nat, x: Node, y: Node)
    requires IsNode(c, x) && IsNode(c, y)
  {
    Adjacent(c, x, y) && ((x == Extra(k) && y.Lane? && y.file == file) || (y == Extra(k) && x.Lane? && x.file == file))
  }

  lemma EndsStep(c: Cluster, file: nat, k: nat, x: Node, y: Node)
    requires k > 0 && IsNode(c, x) && IsNode(c, y)
    ensures Bit(AreEnds(c, file, k, x, y)) == Bit(AreEnds(c, file, k - 1, x, y)) + Bit(AreEnd(c, file, k - 1, x, y))
  {
  }

  lemma CountEndEdges(c: Cluster, file: nat, k: nat, x: Node, y: Node)
    requires c.lanes >= 1 && file < |c.files| && k < |c.extras| && IsNode(c, x) && IsNode(c, y)
    ensures Count(EndEdges(c, file, k), x, y) == Bit(AreEnd(c, file, k, x, y))
  {
    var a, b := ToExtra(file, 0, k), ToExtra(file, c.lanes - 1, k);
    CountOne(a, x, y);
    CountOne(b, x, y);
    CountAppend([a], [b], x, y);
    assert [a] + [b] == [a, b];
  }

  /** Connections that join x and y, extra file by extra file. */
  function EndTotal(c: Cluster, file: nat, k: nat, x: Node, y: Node): nat
    requires c.lanes >= 1 && file < |c.files| && k <= |c.extras|
  {
    if k == 0 then 0 else EndTotal(c, file, k - 1, x, y) + Count(EndEdges(c, file, k - 1), x, y)
  }

  lemma {:induction false} CountIsEndTotal(c: Cluster, file: nat, k: nat, x: Node, y: Node)
    requires c.lanes >= 1 && file < |c.files| && k <= |c.extras|
    ensures Count(ExtraEdges(c, file, k), x, y) == EndTotal(c, file, k, x, y)
    decreases k
  {
    if k > 0 {
      CountIsEndTotal(c, file, k - 1, x, y);
      CountAppend(ExtraEdges(c, file, k - 1), EndEdges(c, file, k - 1), x, y);
    }
  }

  lemma {:induction false} CountExtraEdges(c: Cluster, file: nat, k: nat, x: Node, y: Node)
    requires c.lanes >= 1 && file < |c.files| && k <= |c.extras| && IsNode(c, x) && IsNode(c, y)
    ensures EndTotal(c, file, k, x, y) == Bit(AreEnds(c, file, k, x, y))
    decreases k
  {
    if k > 0 {
      CountExtraEdges(c, file, k - 1, x, y);
      CountEndEdges(c, file, k - 1, x, y);
      EndsStep(c, file, k, x, y);
    }
  }

  /** The file index of a pair: that of the lane end. */
  function FileOf(x: Node, y: Node): nat {
    if x.Lane? then x.file else if y.Lane? then y.file else 0
  }

  function FileEdges(c: Cluster, file: nat): seq<Edge>
    requires c.lanes >= 1 && file < |c.files|
  {
    Neighbours(file, c.lanes - 1) + ExtraEdges(c, file, |c.extras|)
  }

  /** Joined files of one file index: either neighbouring lanes, or an end and an extra file. */
  lemma AdjacentIff(c: Cluster, file: nat, x: Node, y: Node)
    requires c.lanes >= 1 && file < |c.files| && IsNode(c, x) && IsNode(c, y)
    ensures Bit(Adjacent(c, x, y) && FileOf(x, y) == file)
            == Bit(AreNext(file, c.lanes - 1, x, y)) + Bit(AreEnds(c, file, |c.extras|, x, y))
  {
  }

  lemma CountFileEdges(c: Cluster, file: nat, x: Node, y: Node)
    requires c.lanes >= 1 && file < |c.files| && IsNode(c, x) && IsNode(c, y)
    ensures Count(FileEdges(c, file), x, y) == Bit(Adjacent(c, x, y) && FileOf(x, y) == file)
  {
    CountNeighbours(file, c.lanes - 1, x, y);
    CountIsEndTotal(c, file, |c.extras|, x, y);
    CountExtraEdges(c, file, |c.extras|, x, y);
    CountAppend(Neighbours(file, c.lanes - 1), ExtraEdges(c, file, |c.extras|), x, y);
    AdjacentIff(c, file, x, y);
  }

  lemma OneMore(b: bool, f: nat, n: nat)
    requires n > 0
    ensures Bit(b && f < n) == Bit(b && f < n - 1) + Bit(b && f == n - 1)
  {
  }

  /** Connections that join x and y, file by file. */
  function Total(c: Cluster, n: nat, x: Node, y: Node): nat
    requires c.lanes >= 1 && n <= |c.files|
  {
    if n == 0 then 0 else Total(c, n - 1, x, y) + Count(FileEdges(c, n - 1), x, y)
  }

  lemma {:induction false} CountIsTotal(c: Cluster, n: nat, x: Node, y: Node)
    requires c.lanes >= 1 && n <= |c.files|
    ensures Count(Edges(c, n), x, y) == Total(c, n, x, y)
    decreases n
  {
    if n > 0 {
      CountIsTotal(c, n - 1, x, y);
      CountAppend(Edges(c, n - 1), FileEdges(c, n - 1), x, y);
    }
  }

  lemma {:induction false} TotalIs(c: Cluster, n: nat, x: Node, y: Node)
    requires c.lanes >= 1 && n <= |c.files| && IsNode(c, x) && IsNode(c, y)
    ensures Total(c, n, x, y) == Bit(Adjacent(c, x, y) && FileOf(x, y) < n)
    decreases n
  {
    if n > 0 {
      TotalIs(c, n - 1, x, y);
      CountFileEdges(c, n - 1, x, y);
      OneMore(Adjacent(c, x, y), FileOf(x, y), n);
    }
  }

  /** Two register files are joined by one connection if they are adjacent, and by none otherwise. */
  lemma CountEdges(c: Cluster, x: Node, y: Node)
    requires c.lanes >= 1 && IsNode(c, x) && IsNode(c, y)
    ensures Count(Edges(c, |c.files|), x, y) == Bit(Adjacent(c, x, y))
  {
    CountIsTotal(c, |c.files|, x, y);
    TotalIs(c, |c.files|, x, y);
  }

  ghost predicate AreEdges(c: Cluster, edges: seq<Edge>) {
    forall i :: 0 <= i < |edges| ==> IsEdge(c, edges[i])
  }

  lemma {:induction false} NeighboursAreEdges(c: Cluster, file: nat, n: nat)
    requires file < |c.files| && n < c.lanes
    ensures AreEdges(c, Neighbours(file, n))
    decreases n
  {
    if n > 0 {
      NeighboursAreEdges(c, file, n - 1);
    }
  }

  lemma {:induction false} ExtraEdgesAreEdges(c: Cluster, file: nat, k: nat)
    requires c.lanes >= 1 && file < |c.files| && k <= |c.extras|
    ensures AreEdges(c, ExtraEdges(c, file, k))
    decreases k
  {
    if k > 0 {
      ExtraEdgesAreEdges(c, file, k - 1);
    }
  }

  lemma {:induction false} EdgesAreEdges(c: Cluster, n: nat)
    requires c.lanes >= 1 && n <= |c.files|
    ensures AreEdges(c, Edges(c, n))
    decreases n
  {
    if n > 0 {
      EdgesAreEdges(c, n - 1);
      NeighboursAreEdges(c, n - 1, c.lanes - 1);
      ExtraEdgesAreEdges(c, n - 1, |c.extras|);
    }
  }

  function LinksOf(c: Cluster, edges: seq<Edge>): (links: seq<Link>)
    requires forall i :: 0 <= i < |edges| ==> IsEdge(c, edges[i])
    ensures |links| == |edges| && forall i :: 0 <= i < |edges| ==> links[i] == LinkOf(c, edges[i])
  {
    seq(|edges|, i requires 0 <= i < |edges| => LinkOf(c, edges[i]))
  }

  function ClusterLinks(c: Cluster): seq<Link>
    requires c.lanes >= 1
  {
    EdgesAreEdges(c, |c.files|);
    LinksOf(c, Edges(c, |c.files|))
  }

  // ---------------------------------------------------------------------------------------
  // From names back to register files
  // ---------------------------------------------------------------------------------------

  /** The machines being combined name their register files apart. */
  ghost predicate NamesApart(c: Cluster) {
    && (forall i, j :: 0 <= i < j < |c.files| ==> c.files[i].name != c.files[j].name)
    && (forall i, j :: 0 <= i < j < |c.extras| ==> c.extras[i].name != c.extras[j].name)
  }

  lemma NameOfInjective(c: Cluster, x: Node, y: Node)
    requires NamesApart(c) && IsNode(c, x) && IsNode(c, y)
    ensures NameOf(c, x) == NameOf(c, y) <==> x == y
  {
    if NameOf(c, x) == NameOf(c, y) {
      match (x, y)
      case (Lane(f, i), Lane(g, j)) => LaneNameInjective(c.files[f].name, i, c.files[g].name, j);
      case (Lane(f, i), Extra(k)) => LaneIsNotExtra(c.files[f].name, i, c.extras[k].name);
      case (Extra(k), Lane(f, i)) => LaneIsNotExtra(c.files[f].name, i, c.extras[k].name);
      case (Extra(k), Extra(m)) => ExtraNameInjective(c.extras[k].name, c.extras[m].name);
    }
  }

  /** The lane copies and the extra files are in the machine, with the widths of their originals. */
  ghost predicate Built(net: Net, c: Cluster) {
    && c.lanes >= 1 && NamesApart(c)
    && forall x: Node :: IsNode(c, x) ==> NameOf(c, x) in net.files && net.files[NameOf(c, x)].width == WidthOf(c, x)
  }

  /** No bus, socket or port of the machine has a connect name, and no two connect buses share one. */
  ghost predicate NoNameClash(net: Net, c: Cluster)
    requires c.lanes >= 1
  {
    && Unjoined(net)
    && (forall i :: 0 <= i < |ClusterLinks(c)| ==> ClusterLinks(c)[i].bus !in net.buses)
    && (forall i, j :: 0 <= i < j < |ClusterLinks(c)| ==> ClusterLinks(c)[i].bus != ClusterLinks(c)[j].bus)
  }

  lemma EdgeEnds(net: Net, c: Cluster, e: Edge)
    requires Built(net, c) && IsEdge(c, e)
    ensures LinkOf(c, e).a in net.files && LinkOf(c, e).b in net.files && LinkOf(c, e).a != LinkOf(c, e).b
  {
    assert IsNode(c, Left(e)) && IsNode(c, Right(e));
    NameOfInjective(c, Left(e), Right(e));
  }

  lemma NoClashOfNames(net: Net, c: Cluster)
    requires Built(net, c) && NoNameClash(net, c)
    ensures NoClash(net, ClusterLinks(c))
  {
    var edges := Edges(c, |c.files|);
    EdgesAreEdges(c, |c.files|);
    forall i | 0 <= i < |edges|
      ensures ClusterLinks(c)[i].a in net.files && ClusterLinks(c)[i].b in net.files
      ensures ClusterLinks(c)[i].a != ClusterLinks(c)[i].b
    {
      EdgeEnds(net, c, edges[i]);
    }
  }

  // ---------------------------------------------------------------------------------------
  // The finished ring
  // ---------------------------------------------------------------------------------------

  /** Buses over which a value can move from register file x to register file y by connect ports. */
  function Paths(net: Net, x: string, y: string): set<string> {
    if ReadName(x) !in net.sockets || WriteName(y) !in net.sockets then {}
    else set b | b in net.sockets[ReadName(x)].buses && b in net.sockets[WriteName(y)].buses
  }

  ghost predicate LinkJoins(l: Link, x: string, y: string) {
    Touches(l, x) && Touches(l, y)
  }

  lemma PathsAreBuses(old': Net, net: Net, x: string, y: string, links: seq<Link>)
    requires x in old'.files && y in old'.files
    requires ConnectedBy(old', net, x, BusesOf(links, x)) && ConnectedBy(old', net, y, BusesOf(links, y))
    ensures Paths(net, x, y) == set b | b in BusesOf(links, x) && b in BusesOf(links, y)
  {
  }

  /** With distinct bus names, a shared bus is a link between the two. */
  lemma SharedBusIsLink(links: seq<Link>, x: string, y: string, b: string)
    requires forall i, j :: 0 <= i < j < |links| ==> links[i].bus != links[j].bus
    ensures (b in BusesOf(links, x) && b in BusesOf(links, y))
            <==> exists i :: 0 <= i < |links| && LinkJoins(links[i], x, y) && links[i].bus == b
  {
    BusesOfLinks(links, x, b);
    BusesOfLinks(links, y, b);
    if b in BusesOf(links, x) && b in BusesOf(links, y) {
      var i :| 0 <= i < |links| && Touches(links[i], x) && links[i].bus == b;
      var j :| 0 <= j < |links| && Touches(links[j], y) && links[j].bus == b;
      assert i == j;
      assert LinkJoins(links[i], x, y);
    }
    if i :| 0 <= i < |links| && LinkJoins(links[i], x, y) && links[i].bus == b {
      assert Touches(links[i], x) && Touches(links[i], y);
    }
  }

  lemma LinkJoinsIff(c: Cluster, e: Edge, x: Node, y: Node)
    requires NamesApart(c) && IsEdge(c, e) && IsNode(c, x) && IsNode(c, y) && x != y
    ensures LinkJoins(LinkOf(c, e), NameOf(c, x), NameOf(c, y)) <==> Joins(e, x, y)
  {
    NameOfInjective(c, Left(e), x);
    NameOfInjective(c, Left(e), y);
    NameOfInjective(c, Right(e), x);
    NameOfInjective(c, Right(e), y);
  }

  lemma {:induction false} CountZero(edges: seq<Edge>, n: nat, x: Node, y: Node)
    requires n <= |edges| && CountTo(edges, n, x, y) == 0
    ensures forall i :: 0 <= i < n ==> !Joins(edges[i], x, y)
    decreases n
  {
    if n > 0 {
      CountZero(edges, n - 1, x, y);
    }
  }

  lemma {:induction false} CountIsOne(edges: seq<Edge>, n: nat, x: Node, y: Node) returns (k: nat)
    requires n <= |edges| && CountTo(edges, n, x, y) == 1
    ensures k < n && Joins(edges[k], x, y)
    ensures forall i :: 0 <= i < n && Joins(edges[i], x, y) ==> i == k
    decreases n
  {
    if Joins(edges[n - 1], x, y) {
      k := n - 1;
      CountZero(edges, n - 1, x, y);
    } else {
      k := CountIsOne(edges, n - 1, x, y);
    }
  }

  /** The paths between two register files, and the links that make them. */
  lemma PathIsLink(net: Net, after: Net, links: seq<Link>, x: string, y: string, b: string)
    requires NoClash(net, links) && Ring(net, after, links) && x in net.files && y in net.files
    ensures b in Paths(after, x, y) <==> exists i :: 0 <= i < |links| && LinkJoins(links[i], x, y) && links[i].bus == b
  {
    PathsAreBuses(net, after, x, y, links);
    SharedBusIsLink(links, x, y, b);
  }

  lemma NoPath(net: Net, after: Net, c: Cluster, x: Node, y: Node)
    requires Built(net, c) && NoNameClash(net, c) && Ring(net, after, ClusterLinks(c))
    requires IsNode(c, x) && IsNode(c, y) && x != y && !Adjacent(c, x, y)
    ensures Paths(after, NameOf(c, x), NameOf(c, y)) == {}
  {
    var edges, links := Edges(c, |c.files|), ClusterLinks(c);
    NoClashOfNames(net, c);
    EdgesAreEdges(c, |c.files|);
    CountEdges(c, x, y);
    CountZero(edges, |edges|, x, y);
    forall i | 0 <= i < |links|
      ensures !LinkJoins(links[i], NameOf(c, x), NameOf(c, y))
    {
      LinkJoinsIff(c, edges[i], x, y);
    }
    forall b
      ensures b !in Paths(after, NameOf(c, x), NameOf(c, y))
    {
      PathIsLink(net, after, links, NameOf(c, x), NameOf(c, y), b);
    }
  }

  lemma OneLink(c: Cluster, x: Node, y: Node) returns (k: nat)
    requires c.lanes >= 1 && NamesApart(c) && IsNode(c, x) && IsNode(c, y) && x != y && Adjacent(c, x, y)
    ensures k < |Edges(c, |c.files|)| == |ClusterLinks(c)| && AreEdges(c, Edges(c, |c.files|))
    ensures Joins(Edges(c, |c.files|)[k], x, y)
    ensures forall i :: 0 <= i < |ClusterLinks(c)| ==>
                      (LinkJoins(ClusterLinks(c)[i], NameOf(c, x), NameOf(c, y)) <==> i == k)
  {
    var edges, links := Edges(c, |c.files|), ClusterLinks(c);
    EdgesAreEdges(c, |c.files|);
    CountEdges(c, x, y);
    k := CountIsOne(edges, |edges|, x, y);
    forall i | 0 <= i < |links|
      ensures LinkJoins(links[i], NameOf(c, x), NameOf(c, y)) <==> i == k
    {
      LinkJoinsIff(c, edges[i], x, y);
    }
  }

  lemma OnlyPath(net: Net, after: Net, links: seq<Link>, k: nat, x: string, y: string)
    requires NoClash(net, links) && Ring(net, after, links) && x in net.files && y in net.files && k < |links|
    requires forall i :: 0 <= i < |links| ==> (LinkJoins(links[i], x, y) <==> i == k)
    ensures Paths(after, x, y) == {links[k].bus}
  {
    forall b
      ensures b in Paths(after, x, y) <==> b == links[k].bus
    {
      PathIsLink(net, after, links, x, y, b);
    }
  }

  lemma OnePath(net: Net, after: Net, c: Cluster, x: Node, y: Node) returns (e: Edge)
    requires Built(net, c) && NoNameClash(net, c) && Ring(net, after, ClusterLinks(c))
    requires IsNode(c, x) && IsNode(c, y) && x != y && Adjacent(c, x, y)
    ensures IsEdge(c, e) && Joins(e, x, y) && Paths(after, NameOf(c, x), NameOf(c, y)) == {BusName(c, e)}
  {
    NoClashOfNames(net, c);
    var k := OneLink(c, x, y);
    e := Edges(c, |c.files|)[k];
    OnlyPath(net, after, ClusterLinks(c), k, NameOf(c, x), NameOf(c, y));
  }

  /** The bus that joins two adjacent register files, from the name builders alone. */
  function Joint(c: Cluster, x: Node, y: Node): string
    requires IsNode(c, x) && IsNode(c, y) && Adjacent(c, x, y)
  {
    match (x, y)
    case (Lane(f, i), Lane(_, j)) => BusName(c, Next(f, if i < j then i else j))
    case (Lane(f, i), Extra(k)) => BusName(c, ToExtra(f, i, k))
    case (Extra(k), Lane(f, i)) => BusName(c, ToExtra(f, i, k))
    case (Extra(_), Extra(_)) => assert false; ""
  }

  lemma SharedInRing(net: Net, after: Net, c: Cluster, x: Node, y: Node)
    requires Built(net, c) && NoNameClash(net, c) && Ring(net, after, ClusterLinks(c)) && IsNode(c, x) && IsNode(c, y) && x != y
    ensures Paths(after, NameOf(c, x), NameOf(c, y)) == if Adjacent(c, x, y) then {Joint(c, x, y)} else {}
  {
    if Adjacent(c, x, y) {
      var e := OnePath(net, after, c, x, y);
      assert BusName(c, e) == Joint(c, x, y);
    } else {
      NoPath(net, after, c, x, y);
    }
  }

  /**
   The ring: any two register files share exactly one connect bus, in each direction, if they are
   the same file of neighbouring lanes, or one is of the first or last lane and the other is an
   extra file of equal width; and no connect bus otherwise.
   */
  lemma SharedBuses(net: Net, c: Cluster, x: Node, y: Node)
    requires Built(net, c) && NoNameClash(net, c) && IsNode(c, x) && IsNode(c, y) && x != y
    ensures AddLinks(net, ClusterLinks(c)).Ok?
    ensures var after := AddLinks(net, ClusterLinks(c)).value;
            Paths(after, NameOf(c, x), NameOf(c, y)) == if Adjacent(c, x, y) then {Joint(c, x, y)} else {}
  {
    NoClashOfNames(net, c);
    LinksMakeRing(net, ClusterLinks(c));
    SharedInRing(net, AddLinks(net, ClusterLinks(c)).value, c, x, y);
  }

  /** The bus carries values both ways between two register files. */
  ghost predicate Steps(net: Net, x: string, y: string, bus: string) {
    bus in Paths(net, x, y) && bus in Paths(net, y, x)
  }

  /** A walk over distinct connect buses, from one register file to the next and back. */
  ghost predicate Walk(net: Net, files: seq<string>, buses: seq<string>) {
    && |files| == |buses| + 1
    && (forall k :: 0 <= k < |buses| ==> Steps(net, files[k], files[k + 1], buses[k]))
    && (forall k, m :: 0 <= k < m < |buses| ==> buses[k] != buses[m])
  }

  function LaneFiles(c: Cluster, f: nat, i: nat, n: nat): (names: seq<string>)
    requires f < |c.files| && i + n < c.lanes
    ensures |names| == n + 1 && forall k :: 0 <= k <= n ==> names[k] == NameOf(c, Lane(f, i + k))
  {
    seq(n + 1, k requires 0 <= k < n + 1 => NameOf(c, Lane(f, i + k)))
  }

  function LaneBuses(c: Cluster, f: nat, i: nat, n: nat): (buses: seq<string>)
    requires f < |c.files| && i + n < c.lanes
    ensures |buses| == n && forall k :: 0 <= k < n ==> buses[k] == BusName(c, Next(f, i + k))
  {
    seq(n, k requires 0 <= k < n => BusName(c, Next(f, i + k)))
  }

  ghost predicate LaneSteps(after: Net, c: Cluster, f: nat, i: nat)
    requires f < |c.files| && i + 1 < c.lanes
  {
    Steps(after, NameOf(c, Lane(f, i)), NameOf(c, Lane(f, i + 1)), BusName(c, Next(f, i)))
  }

  ghost predicate SharesJoint(after: Net, c: Cluster, x: Node, y: Node)
    requires IsNode(c, x) && IsNode(c, y)
  {
    Paths(after, NameOf(c, x), NameOf(c, y)) == if Adjacent(c, x, y) then {Joint(c, x, y)} else {}
  }

  ghost predicate SharesJoints(after: Net, c: Cluster) {
    forall x: Node, y: Node :: IsNode(c, x) && IsNode(c, y) && x != y ==> SharesJoint(after, c, x, y)
  }

  lemma AllShared(net: Net, after: Net, c: Cluster)
    requires Built(net, c) && NoNameClash(net, c) && Ring(net, after, ClusterLinks(c))
    ensures SharesJoints(after, c)
  {
    forall x: Node, y: Node | IsNode(c, x) && IsNode(c, y) && x != y
      ensures SharesJoint(after, c, x, y)
    {
      SharedInRing(net, after, c, x, y);
    }
  }

  lemma NextLanes(after: Net, c: Cluster, f: nat, i: nat)
    requires SharesJoints(after, c) && f < |c.files| && i + 1 < c.lanes
    ensures LaneSteps(after, c, f, i)
  {
    assert SharesJoint(after, c, Lane(f, i), Lane(f, i + 1));
    assert SharesJoint(after, c, Lane(f, i + 1), Lane(f, i));
  }

  lemma LaneBusesDiffer(c: Cluster, f: nat, i: nat, n: nat)
    requires f < |c.files| && i + n < c.lanes
    ensures forall k, m :: 0 <= k < m < n ==> LaneBuses(c, f, i, n)[k] != LaneBuses(c, f, i, n)[m]
  {
    var buses := LaneBuses(c, f, i, n);
    forall k, m | 0 <= k < m < n
      ensures buses[k] != buses[m]
    {
      NextBusesDiffer(c, f, i + k, i + m);
    }
  }

  lemma NextBusesDiffer(c: Cluster, f: nat, i: nat, j: nat)
    requires f < |c.files| && i < j && j + 1 < c.lanes
    ensures BusName(c, Next(f, i)) != BusName(c, Next(f, j))
  {
    if BusName(c, Next(f, i)) == BusName(c, Next(f, j)) {
      NextBusInjective(c, f, i, j);
      assert false;
    }
  }

  lemma WalkAt(c: Cluster, f: nat, i: nat, n: nat, k: nat)
    requires f < |c.files| && i + n < c.lanes && k < n
    ensures var files, buses := LaneFiles(c, f, i, n), LaneBuses(c, f, i, n);
            && files[k] == NameOf(c, Lane(f, i + k)) && files[k + 1] == NameOf(c, Lane(f, i + k + 1))
            && buses[k] == BusName(c, Next(f, i + k))
  {
    assert i + (k + 1) == i + k + 1;
  }

  lemma StepsWalk(after: Net, c: Cluster, f: nat, i: nat, n: nat)
    requires f < |c.files| && i + n < c.lanes && forall j :: i <= j < i + n ==> LaneSteps(after, c, f, j)
    ensures Walk(after, LaneFiles(c, f, i, n), LaneBuses(c, f, i, n))
  {
    LaneBusesDiffer(c, f, i, n);
    forall k | 0 <= k < n
      ensures Steps(after, LaneFiles(c, f, i, n)[k], LaneFiles(c, f, i, n)[k + 1], LaneBuses(c, f, i, n)[k])
    {
      WalkAt(c, f, i, n, k);
      assert LaneSteps(after, c, f, i + k);
    }
  }

  lemma LanesWalk(after: Net, c: Cluster, f: nat, i: nat, n: nat)
    requires SharesJoints(after, c) && f < |c.files| && i + n < c.lanes
    ensures Walk(after, LaneFiles(c, f, i, n), LaneBuses(c, f, i, n))
  {
    forall j | i <= j < i + n
      ensures LaneSteps(after, c, f, j)
    {
      NextLanes(after, c, f, j);
    }
    StepsWalk(after, c, f, i, n);
  }

  /** Lanes i and i + n are joined by a chain of n connect buses through the lanes between them. */
  lemma LanesAreChained(net: Net, c: Cluster, f: nat, i: nat, n: nat)
    requires Built(net, c) && NoNameClash(net, c) && f < |c.files| && i + n < c.lanes
    ensures AddLinks(net, ClusterLinks(c)).Ok?
    ensures Walk(AddLinks(net, ClusterLinks(c)).value, LaneFiles(c, f, i, n), LaneBuses(c, f, i, n))
  {
    NoClashOfNames(net, c);
    LinksMakeRing(net, ClusterLinks(c));
    AllShared(net, AddLinks(net, ClusterLinks(c)).value, c);
    LanesWalk(AddLinks(net, ClusterLinks(c)).value, c, f, i, n);
  }

  lemma NextBusInjective(c: Cluster, f: nat, i: nat, j: nat)
    requires f < |c.files| && i + 1 < c.lanes && j + 1 < c.lanes
    requires BusName(c, Next(f, i)) == BusName(c, Next(f, j))
    ensures i == j
  {
    var p := "connect_" + c.files[f].name + "_";
    var a, b := Decimal(i) + "_" + Decimal(i + 1), Decimal(j) + "_" + Decimal(j + 1);
    assert BusName(c, Next(f, i)) == p + a && BusName(c, Next(f, j)) == p + b;
    assert (p + a)[|p|..] == a && (p + b)[|p|..] == b;
    DigitsEnd(Decimal(i), Decimal(j), Decimal(i + 1), Decimal(j + 1));
    DecimalInjective(i, j);
  }
}
