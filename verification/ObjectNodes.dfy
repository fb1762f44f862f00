/**
 Object states as nodes changed in place (tce/src/tools/ObjectState.cc:62-71, 96-113, 359-418 and
 484-515), and the loops that build DOM trees from them (tce/src/tools/XMLSerializer.cc:546-717).
 */
module ObjectNodes {
  import opened ObjectTree

  lemma IndexStep(s: seq<Attribute>, k: nat, name: string)
    requires k < |s| && IndexOf(s[..k], name) == k
    ensures s[k].name == name ==> IndexOf(s[..k + 1], name) == k
    ensures s[k].name != name ==> IndexOf(s[..k + 1], name) == k + 1
  {
    assert s[..k + 1][..k] == s[..k];
  }

  lemma {:induction false} IndexStays(s: seq<Attribute>, k: nat, name: string)
    requires k <= |s| && IndexOf(s[..k], name) < k
    ensures IndexOf(s, name) == IndexOf(s[..k], name)
    decreases |s| - k
  {
    if k < |s| {
      assert s[..k + 1][..k] == s[..k];
      IndexStays(s, k + 1, name);
    } else {
      assert s[..k] == s;
    }
  }

  /** The search loop of the attribute functions. */
  method FindAttribute(s: seq<Attribute>, name: string) returns (k: nat)
    ensures k == IndexOf(s, name)
  {
    k := 0;
    while k < |s|
      invariant 0 <= k <= |s| && IndexOf(s[..k], name) == k
    {
      IndexStep(s, k, name);
      if s[k].name == name {
        IndexStays(s, k + 1, name);
        return;
      }
      k := k + 1;
    }
    assert s[..k] == s;
  }

  class Node {
    var name: string
    var value: string
    var attributes: seq<Attribute>
    var children: seq<Node>
    var parent: Node?

    constructor (n: string)
      ensures name == n && value == "" && attributes == [] && children == [] && parent == null
    {
      name, value, attributes, children, parent := n, "", [], [], null;
    }

    /** Within a set of nodes, this one is the root of the tree t. */
    ghost predicate Shows(t: Tree, nodes: set<Node>)
      reads this`name, this`value, this`attributes, this`children
      reads nodes`name, nodes`value, nodes`attributes, nodes`children
      decreases t
    {
      && this in nodes && name == t.name && value == t.value && attributes == t.attributes
      && |children| == |t.children|
      && forall i :: 0 <= i < |children| ==> children[i] in nodes && children[i].Shows(t.children[i], nodes)
    }

    /** setAttribute */
    method SetAttribute(key: string, to: string)
      modifies this`attributes
      ensures attributes == WithAttribute(old(attributes), key, to)
    {
      var k := FindAttribute(attributes, key);
      if k < |attributes| {
        attributes := attributes[k := Attribute(key, to)];
      } else {
        attributes := attributes + [Attribute(key, to)];
      }
    }

    /** addChild */
    method AddChild(child: Node)
      requires child != this
      modifies this`children, child`parent
      ensures children == old(children) + [child] && child.parent == this
    {
      children := children + [child];
      child.parent := this;
    }

    /** Its children know their parent, and are told apart. */
    ghost predicate Family()
      reads this, children
    {
      && (forall i :: 0 <= i < |children| ==> children[i].parent == this && children[i] != this)
      && (forall i, j :: 0 <= i < j < |children| ==> children[i] != children[j])
    }

    /**
     replaceChild: a child that has a parent is refused; otherwise it takes the place of the old one, and
     the old one leaves the list. If the old one is not a child, nothing happens.
     */
    method ReplaceChild(was: Node, child: Node) returns (ok: bool)
      requires Family() && child != this
      modifies this`children, child`parent, was`parent
      ensures Family()
      ensures ok <==> old(child.parent) == null
      ensures !ok ==> children == old(children) && child.parent == old(child.parent) && was.parent == old(was.parent)
      ensures ok && was !in old(children) ==> children == old(children) && child.parent == null && was.parent == old(was.parent)
      ensures ok && was in old(children) ==>
                exists i :: 0 <= i < |old(children)| && old(children)[i] == was && children == old(children)[i := child]
    {
      if child.parent != null {
        return false;
      }
      var it := 0;
      while it < |children|
        invariant 0 <= it <= |children| && children == old(children) && Family() && child.parent == null
        invariant was.parent == old(was.parent) && was !in children[..it]
      {
        if children[it] == was {
          assert was != child;
          children := children[..it + 1] + [child] + children[it + 1..];
          child.parent := this;
          children := children[..it] + children[it + 1..];
          was.parent := null;
          assert children == old(children)[it := child];
          return true;
        }
        it := it + 1;
      }
      return true;
    }

    /** operator!=, for nodes that show trees. */
    method NotEqual(other: Node, ghost a: Tree, ghost na: set<Node>, ghost b: Tree, ghost nb: set<Node>) returns (r: bool)
      requires Shows(a, na) && other.Shows(b, nb)
      ensures r <==> Differs(a, b)
      decreases a
    {
      if name != other.name || value != other.value || |children| != |other.children| || |attributes| != |other.attributes| {
        return true;
      }
      var i := 0;
      while i < |attributes|
        invariant 0 <= i <= |attributes|
        invariant forall j :: 0 <= j < i ==>
                                IndexOf(b.attributes, a.attributes[j].name) < |b.attributes|
                                && b.attributes[IndexOf(b.attributes, a.attributes[j].name)].value == a.attributes[j].value
      {
        var k := FindAttribute(other.attributes, attributes[i].name);
        if k == |other.attributes| || other.attributes[k].value != attributes[i].value {
          return true;
        }
        i := i + 1;
      }
      i := 0;
      while i < |children|
        invariant 0 <= i <= |children| && forall j :: 0 <= j < i ==> !Differs(a.children[j], b.children[j])
      {
        assert children[i].Shows(a.children[i], na) && other.children[i].Shows(b.children[i], nb);
        var d := children[i].NotEqual(other.children[i], a.children[i], na, b.children[i], nb);
        if d {
          return true;
        }
        i := i + 1;
      }
      return false;
    }

    /** The loop over the children: an element for each. */
    method CreateElements(ghost t: Tree, ghost nodes: set<Node>) returns (list: seq<Dom>)
      requires Shows(t, nodes)
      ensures list == ChildElements(t)
      decreases t, 0
    {
      list := [];
      var i := 0;
      while i < |children|
        invariant 0 <= i <= |children| && list == FirstElements(t, i)
      {
        assert children[i].Shows(t.children[i], nodes);
        var e := children[i].CreateDom(t.children[i], nodes);
        list := list + [e];
        i := i + 1;
      }
      AllElements(t, |t.children|);
    }

    /** createDOM */
    method CreateDom(ghost t: Tree, ghost nodes: set<Node>) returns (d: Dom)
      requires Shows(t, nodes)
      ensures d == ToDom(t)
      decreases t, 1
    {
      var table := SetAll(attributes);
      var list := [];
      if |children| == 0 && value != "" {
        list := list + [Text(value)];
      }
      var elements := CreateElements(t, nodes);
      list := list + elements;
      DomIs(t);
      d := Element(name, table, list);
    }

    /** createDOMDocument */
    method CreateDocument(ghost t: Tree, ghost nodes: set<Node>) returns (d: Dom)
      requires Shows(t, nodes)
      ensures d == ToDocument(t)
    {
      var table := SetAll(attributes);
      var list := [];
      if value != "" {
        list := list + [Text(value)];
      }
      var elements := CreateElements(t, nodes);
      list := list + elements;
      d := Element(name, table, list);
    }
  }

  /** The elements of the children, as a sequence. */
  function ChildElements(t: Tree): seq<Dom> {
    seq(|t.children|, i requires 0 <= i < |t.children| => ToDom(t.children[i]))
  }

  function FirstElements(t: Tree, n: nat): seq<Dom>
    requires n <= |t.children|
  {
    if n == 0 then [] else FirstElements(t, n - 1) + [ToDom(t.children[n - 1])]
  }

  lemma {:induction false} AllElements(t: Tree, n: nat)
    requires n <= |t.children|
    ensures FirstElements(t, n) == ChildElements(t)[..n]
    ensures n == |t.children| ==> FirstElements(t, n) == ChildElements(t)
    decreases n
  {
    if n > 0 {
      AllElements(t, n - 1);
    }
  }

  lemma DomIs(t: Tree)
    ensures ToDom(t) == Element(t.name, AsMap(t.attributes),
                                (if t.children == [] && t.value != "" then [Text(t.value)] else []) + ChildElements(t))
  {
    assert [] + ChildElements(t) == ChildElements(t);
    assert t.children == [] ==> [Text(t.value)] + ChildElements(t) == [Text(t.value)];
  }

  /** The attribute loop: each call of setAttribute on the element overrides earlier ones of the same name. */
  method SetAll(s: seq<Attribute>) returns (m: map<string, string>)
    ensures m == AsMap(s)
  {
    m := map[];
    var i := 0;
    while i < |s|
      invariant 0 <= i <= |s| && m == AsMap(s[..i])
    {
      assert s[..i + 1][..i] == s[..i];
      m := m[s[i].name := s[i].value];
      i := i + 1;
    }
    assert s[..i] == s;
  }

  /** A larger set of nodes shows the same tree. */
  lemma {:induction false} ShowsMore(n: Node, t: Tree, nodes: set<Node>, more: set<Node>)
    requires n.Shows(t, nodes) && nodes <= more
    ensures n.Shows(t, more)
    decreases t
  {
    forall i | 0 <= i < |n.children|
      ensures n.children[i].Shows(t.children[i], more)
    {
      ShowsMore(n.children[i], t.children[i], nodes, more);
    }
  }

  /** Every node of the set is the parent of its children. */
  ghost predicate Linked(nodes: set<Node>)
    reads nodes
  {
    forall n :: n in nodes ==> forall i :: 0 <= i < |n.children| ==> n.children[i] in nodes && n.children[i].parent == n
  }

  /**
   The copy constructor: the copy shows the same tree with new nodes only, so that later changes to
   either leave the other as it is.
   */
  method Copy(old': Node, ghost t: Tree, ghost nodes: set<Node>) returns (c: Node, ghost copies: set<Node>)
    requires old'.Shows(t, nodes)
    ensures fresh(copies) && c.Shows(t, copies) && Linked(copies) && c.parent == null
    decreases t
  {
    c := new Node(old'.name);
    c.value, c.attributes := old'.value, old'.attributes;
    ghost var below: set<Node> := {};
    var i := 0;
    while i < |old'.children|
      invariant 0 <= i <= |old'.children| == |t.children| && old'.Shows(t, nodes)
      invariant fresh(c) && fresh(below) && c !in below
      invariant c.name == t.name && c.value == t.value && c.attributes == t.attributes && c.parent == null
      invariant ChildrenShown(c, t, i, below)
    {
      assert old'.children[i].Shows(t.children[i], nodes);
      var child, sub := Copy(old'.children[i], t.children[i], nodes);
      MoreShown(c, t, i, below, child, sub);
      below := below + sub;
      AddCopy(c, child, t, i, below);
      i := i + 1;
    }
    copies := below + {c};
    CopyShown(c, t, below);
  }

  /** The first n children are shown by nodes below, which are linked among themselves. */
  ghost predicate ChildrenShown(c: Node, t: Tree, n: nat, below: set<Node>)
    reads c`children, below
  {
    && |c.children| == n <= |t.children| && Linked(below)
    && forall j :: 0 <= j < n ==>
                     c.children[j] in below && c.children[j].parent == c && c.children[j].Shows(t.children[j], below)
  }

  method AddCopy(c: Node, child: Node, ghost t: Tree, ghost n: nat, ghost below: set<Node>)
    requires ChildrenShown(c, t, n, below) && n < |t.children| && c !in below
    requires child.Shows(t.children[n], below) && child.parent == null
    modifies c`children, child`parent
    ensures ChildrenShown(c, t, n + 1, below)
  {
    c.AddChild(child);
  }

  lemma MoreShown(c: Node, t: Tree, n: nat, below: set<Node>, child: Node, sub: set<Node>)
    requires ChildrenShown(c, t, n, below) && n < |t.children| && child.Shows(t.children[n], sub) && Linked(sub)
    ensures ChildrenShown(c, t, n, below + sub) && child.Shows(t.children[n], below + sub)
  {
    ShowsMore(child, t.children[n], sub, below + sub);
    forall j | 0 <= j < n
      ensures c.children[j].Shows(t.children[j], below + sub)
    {
      ShowsMore(c.children[j], t.children[j], below, below + sub);
    }
  }

  lemma CopyShown(c: Node, t: Tree, below: set<Node>)
    requires ChildrenShown(c, t, |t.children|, below)
    requires c.name == t.name && c.value == t.value && c.attributes == t.attributes
    ensures c.Shows(t, below + {c}) && Linked(below + {c})
  {
    forall j | 0 <= j < |c.children|
      ensures c.children[j].Shows(t.children[j], below + {c})
    {
      ShowsMore(c.children[j], t.children[j], below, below + {c});
    }
  }

  lemma ElementsStep(ds: seq<Dom>, i: nat)
    requires i < |ds|
    ensures Elements(ds[..i + 1]) == if ds[i].Element? then Elements(ds[..i]) + [ds[i]] else Elements(ds[..i])
  {
    assert ds[..i + 1][..i] == ds[..i];
  }

  lemma {:induction false} ElementsPrefix(ds: seq<Dom>, i: nat)
    requires i <= |ds|
    ensures Elements(ds[..i]) <= Elements(ds)
    decreases |ds| - i
  {
    if i < |ds| {
      ElementsStep(ds, i);
      ElementsPrefix(ds, i + 1);
    } else {
      assert ds[..i] == ds;
    }
  }

  /** The k-th child state is read from the k-th child element. */
  lemma ReadChild(d: Dom, order: set<string> -> seq<string>, i: nat)
    requires d.Element? && IsOrder(order) && i < |d.children| && d.children[i].Element?
    ensures var k, t := |Elements(d.children[..i])|, FromDom(d, order);
            k < |t.children| && t.children[k] == FromDom(d.children[i], order) && d.children[i] in d.children
    ensures |Elements(d.children[..i + 1])| == |Elements(d.children[..i])| + 1
  {
    ElementsStep(d.children, i);
    ElementsPrefix(d.children, i + 1);
    var k, es := |Elements(d.children[..i])|, Elements(d.children);
    assert es[k] == Elements(d.children[..i + 1])[k] == d.children[i];
  }

  /** hasChildElementNodes */
  method HasChildElements(d: Dom) returns (found: bool)
    requires d.Element?
    ensures found <==> Elements(d.children) != []
  {
    var i := 0;
    while i < |d.children|
      invariant 0 <= i <= |d.children| && Elements(d.children[..i]) == []
    {
      ElementsStep(d.children, i);
      if d.children[i].Element? {
        ElementsPrefix(d.children, i + 1);
        return true;
      }
      i := i + 1;
    }
    assert d.children[..i] == d.children;
    return false;
  }

  lemma ListedStep(m: map<string, string>, names: seq<string>, i: nat)
    requires i < |names| && forall n :: n in names ==> n in m
    ensures Listed(m, names[..i + 1]) == WithAttribute(Listed(m, names[..i]), names[i], m[names[i]])
  {
    assert names[..i + 1][..i] == names[..i];
  }

  /** The attribute loop of createState, in the order in which the DOM lists the attributes. */
  method SetListed(c: Node, m: map<string, string>, names: seq<string>)
    requires c.attributes == [] && forall n :: n in names ==> n in m
    modifies c`attributes
    ensures c.attributes == Listed(m, names)
  {
    var i := 0;
    while i < |names|
      invariant 0 <= i <= |names| && c.attributes == Listed(m, names[..i])
    {
      ListedStep(m, names, i);
      c.SetAttribute(names[i], m[names[i]]);
      i := i + 1;
    }
    assert names[..i] == names;
  }

  /** The sibling loop of createState: a child state for each child element. */
  method CreateChildren(c: Node, d: Dom, order: set<string> -> seq<string>) returns (ghost below: set<Node>)
    requires d.Element? && IsOrder(order) && c.children == []
    modifies c`children
    ensures fresh(below) && c !in below
    ensures var t := FromDom(d, order); ChildrenShown(c, t, |t.children|, below)
    decreases d, 0
  {
    ghost var t := FromDom(d, order);
    below := {};
    var i := 0;
    while i < |d.children|
      invariant 0 <= i <= |d.children| && fresh(below) && c !in below
      invariant |Elements(d.children[..i])| <= |t.children| && ChildrenShown(c, t, |Elements(d.children[..i])|, below)
    {
      ElementsStep(d.children, i);
      if d.children[i].Element? {
        ghost var k := |Elements(d.children[..i])|;
        ReadChild(d, order, i);
        var child, sub := CreateState(d.children[i], order);
        MoreShown(c, t, k, below, child, sub);
        below := below + sub;
        AddCopy(c, child, t, k, below);
      }
      i := i + 1;
    }
    assert d.children[..i] == d.children;
  }

  /** createState: new nodes that show the tree read from the DOM node. */
  method CreateState(d: Dom, order: set<string> -> seq<string>) returns (c: Node, ghost made: set<Node>)
    requires d.Element? && IsOrder(order)
    ensures fresh(made) && c.Shows(FromDom(d, order), made) && Linked(made) && c.parent == null
    decreases d, 1
  {
    c := new Node(d.name);
    SetListed(c, d.attributes, order(d.attributes.Keys));
    ghost var below := CreateChildren(c, d, order);
    var inner := HasChildElements(d);
    if !inner && |d.children| > 0 {
      c.value := NodeValue(d.children[0]);
    }
    made := below + {c};
    CopyShown(c, FromDom(d, order), below);
  }
}
