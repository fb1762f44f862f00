/**
 What an XML document says of a tree, and a tree of a document (tce/src/tools/XMLSerializer.cc:546-717),
 node by node and without the functions that convert them.
 */
module DomMeaning {
  import opened ObjectTree

  /** The map has exactly the names of the list, and of several with one name the last value. */
  ghost predicate HoldsAttributes(m: map<string, string>, s: seq<Attribute>) {
    && (forall n :: n in m <==> exists i :: 0 <= i < |s| && s[i].name == n)
    && (forall i :: 0 <= i < |s| && s[i].name in m && (forall j :: i < j < |s| ==> s[j].name != s[i].name) ==>
          m[s[i].name] == s[i].value)
  }

  lemma MapStep(s: seq<Attribute>, n: nat)
    requires 0 < n <= |s|
    ensures AsMap(s[..n]) == AsMap(s[..n - 1])[s[n - 1].name := s[n - 1].value]
  {
    assert s[..n][..n - 1] == s[..n - 1];
  }

  lemma {:induction false} LastOfName(s: seq<Attribute>, n: nat, i: nat)
    requires i < n <= |s| && forall j :: i < j < n ==> s[j].name != s[i].name
    ensures s[i].name in AsMap(s[..n]) && AsMap(s[..n])[s[i].name] == s[i].value
    decreases n
  {
    MapStep(s, n);
    if i < n - 1 {
      LastOfName(s, n - 1, i);
    }
  }

  lemma MapHolds(s: seq<Attribute>)
    ensures HoldsAttributes(AsMap(s), s)
  {
    forall i | 0 <= i < |s| && (forall j :: i < j < |s| ==> s[j].name != s[i].name)
      ensures AsMap(s)[s[i].name] == s[i].value
    {
      LastOfName(s, |s|, i);
      assert s[..|s|] == s;
    }
  }

  /** The element of a node: a leaf has its value as text, an inner node the elements of its children. */
  ghost predicate IsWritten(t: Tree, d: Dom)
    decreases t
  {
    && d.Element? && d.name == t.name && HoldsAttributes(d.attributes, t.attributes)
    && if t.children == [] then d.children == if t.value == "" then [] else [Text(t.value)]
       else |d.children| == |t.children| && forall i :: 0 <= i < |t.children| ==> IsWritten(t.children[i], d.children[i])
  }

  /** The root element has its value as a text before all other children, leaf or not. */
  ghost predicate IsWrittenRoot(t: Tree, d: Dom) {
    && d.Element? && d.name == t.name && HoldsAttributes(d.attributes, t.attributes)
    && var first := if t.value == "" then 0 else 1;
       && |d.children| == first + |t.children|
       && (t.value != "" ==> d.children[0] == Text(t.value))
       && forall i :: 0 <= i < |t.children| ==> IsWritten(t.children[i], d.children[first + i])
  }

  lemma {:induction false} DomIsWritten(t: Tree)
    ensures IsWritten(t, ToDom(t))
    decreases t
  {
    MapHolds(t.attributes);
    forall i | 0 <= i < |t.children|
      ensures IsWritten(t.children[i], ToDom(t.children[i]))
    {
      DomIsWritten(t.children[i]);
    }
  }

  /** The document of every tree. */
  lemma DocumentIsWritten(t: Tree)
    ensures IsWrittenRoot(t, ToDocument(t))
  {
    MapHolds(t.attributes);
    forall i | 0 <= i < |t.children|
      ensures IsWritten(t.children[i], ToDom(t.children[i]))
    {
      DomIsWritten(t.children[i]);
    }
  }

  /** These are the places of the child elements among the first n, in order. */
  ghost predicate ElementPlaces(ds: seq<Dom>, n: nat, places: seq<nat>) {
    && n <= |ds|
    && (forall i :: 0 <= i < |places| ==> places[i] < n && ds[places[i]].Element?)
    && (forall i, j :: 0 <= i < j < |places| ==> places[i] < places[j])
    && (forall k: nat :: k < n && ds[k].Element? ==> k in places)
  }

  lemma {:induction false} ElementsAt(ds: seq<Dom>, n: nat) returns (places: seq<nat>)
    requires n <= |ds|
    ensures ElementPlaces(ds, n, places) && |places| == |Elements(ds[..n])|
    ensures forall i :: 0 <= i < |places| ==> Elements(ds[..n])[i] == ds[places[i]]
    decreases n
  {
    if n == 0 {
      places := [];
    } else {
      var rest := ElementsAt(ds, n - 1);
      assert ds[..n][..n - 1] == ds[..n - 1];
      if ds[n - 1].Element? {
        places := rest + [n - 1];
        PlacesMore(ds, n - 1, rest);
      } else {
        places := rest;
      }
    }
  }

  lemma PlacesMore(ds: seq<Dom>, n: nat, places: seq<nat>)
    requires n < |ds| && ds[n].Element? && ElementPlaces(ds, n, places)
    ensures ElementPlaces(ds, n + 1, places + [n])
  {
    forall k: nat | k < n + 1 && ds[k].Element?
      ensures k in places + [n]
    {
      assert k in places || k == n;
    }
  }

  /**
   The tree read from an element: each attribute once, a child for each child element in order, and
   the value of the first child node if no child is an element.
   */
  ghost predicate IsRead(d: Dom, t: Tree)
    decreases d
  {
    && d.Element? && t.name == d.name
    && UniqueNames(t.attributes) && HoldsAttributes(d.attributes, t.attributes)
    && (exists places ::
          && ElementPlaces(d.children, |d.children|, places) && |t.children| == |places|
          && forall i :: 0 <= i < |places| && places[i] < |d.children| ==> IsRead(d.children[places[i]], t.children[i]))
    && t.value == ValueRead(d)
  }

  ghost function ValueRead(d: Dom): string
    requires d.Element?
  {
    if d.children != [] && forall k :: 0 <= k < |d.children| ==> d.children[k].Text? then d.children[0].value else ""
  }

  lemma NoElements(ds: seq<Dom>, places: seq<nat>)
    requires ElementPlaces(ds, |ds|, places)
    ensures places == [] <==> forall k :: 0 <= k < |ds| ==> ds[k].Text?
  {
    if places != [] {
      assert ds[places[0]].Element?;
    }
  }

  /** What is read from any element, with its attributes in any order. */
  lemma {:induction false} DomIsRead(d: Dom, order: set<string> -> seq<string>)
    requires d.Element? && IsOrder(order)
    ensures IsRead(d, FromDom(d, order))
    decreases d
  {
    var t := FromDom(d, order);
    ListedByOrder(d.attributes, order);
    MapHolds(t.attributes);
    var places := ElementsAt(d.children, |d.children|);
    assert d.children[..|d.children|] == d.children;
    NoElements(d.children, places);
    forall i | 0 <= i < |places|
      ensures IsRead(d.children[places[i]], t.children[i])
    {
      assert d.children[places[i]] in d.children;
      DomIsRead(d.children[places[i]], order);
    }
    PartsRead(d, t, places);
  }

  lemma {:induction false} PartsRead(d: Dom, t: Tree, places: seq<nat>)
    requires d.Element? && t.name == d.name && t.value == ValueRead(d)
    requires UniqueNames(t.attributes) && HoldsAttributes(d.attributes, t.attributes)
    requires ElementPlaces(d.children, |d.children|, places) && |t.children| == |places|
    requires forall i :: 0 <= i < |places| ==> IsRead(d.children[places[i]], t.children[i])
    ensures IsRead(d, t)
  {
  }
}
