/**
 Object state trees, their order-insensitive comparison (tce/src/tools/ObjectState.cc:96-113 and
 484-515), and the mapping to DOM trees and back (tce/src/tools/XMLSerializer.cc:546-717).
 */
module ObjectTree {

  datatype Attribute = Attribute(name: string, value: string)

  datatype Tree = Tree(name: string, value: string, attributes: seq<Attribute>, children: seq<Tree>)

  /** A DOM keeps the attributes of an element under their names. */
  datatype Dom = Element(name: string, attributes: map<string, string>, children: seq<Dom>) | Text(value: string)

  // ---------------------------------------------------------------------------------------
  // Attributes
  // ---------------------------------------------------------------------------------------

  /** Index of the first attribute of this name; the length if there is none. */
  function IndexOf(s: seq<Attribute>, name: string): (k: nat)
    ensures k <= |s| && (k < |s| ==> s[k].name == name) && forall i :: 0 <= i < k ==> s[i].name != name
  {
    if s == [] then 0
    else
      var n := |s| - 1;
      var k := IndexOf(s[..n], name);
      if k < n || s[n].name == name then k else n + 1
  }

  /** setAttribute: replaces in place, or appends. */
  function WithAttribute(s: seq<Attribute>, name: string, value: string): seq<Attribute> {
    var k := IndexOf(s, name);
    if k < |s| then s[k := Attribute(name, value)] else s + [Attribute(name, value)]
  }

  predicate UniqueNames(s: seq<Attribute>) {
    forall i, j :: 0 <= i < j < |s| ==> s[i].name != s[j].name
  }

  /** The attributes as a map; of several with one name, the last. */
  function AsMap(s: seq<Attribute>): (m: map<string, string>)
    ensures forall n :: n in m <==> exists i :: 0 <= i < |s| && s[i].name == n
  {
    if s == [] then map[]
    else
      var m := AsMap(s[..|s| - 1]);
      assert forall i :: 0 <= i < |s| - 1 ==> s[..|s| - 1][i] == s[i];
      m[s[|s| - 1].name := s[|s| - 1].value]
  }

  lemma AttributeSet(s: seq<Attribute>, name: string, value: string)
    requires UniqueNames(s)
    ensures UniqueNames(WithAttribute(s, name, value))
  {
  }

  lemma {:induction false} MapOfUnique(s: seq<Attribute>, i: nat)
    requires UniqueNames(s) && i < |s|
    ensures s[i].name in AsMap(s) && AsMap(s)[s[i].name] == s[i].value
    decreases |s|
  {
    if i < |s| - 1 {
      MapOfUnique(s[..|s| - 1], i);
    }
  }

  /** Setting an attribute changes that name and no other. */
  lemma SetChangesOne(s: seq<Attribute>, name: string, value: string)
    requires UniqueNames(s)
    ensures AsMap(WithAttribute(s, name, value)) == AsMap(s)[name := value]
  {
    var t := WithAttribute(s, name, value);
    AttributeSet(s, name, value);
    forall n
      ensures n in AsMap(t) <==> n in AsMap(s) || n == name
      ensures n in AsMap(t) ==> AsMap(t)[n] == if n == name then value else AsMap(s)[n]
    {
      SetOne(s, name, value, n);
    }
  }

  /** The first attribute of this name. */
  predicate IsFirst(s: seq<Attribute>, i: nat, name: string)
    requires i < |s|
  {
    s[i].name == name && forall j :: 0 <= j < i ==> s[j].name != name
  }

  /** A new name goes to the end; otherwise its first attribute alone changes, in its place. */
  lemma SetKeepsPlaces(s: seq<Attribute>, name: string, value: string)
    ensures var t := WithAttribute(s, name, value);
            && |t| >= |s|
            && (forall i :: 0 <= i < |s| ==> t[i] == if IsFirst(s, i, name) then Attribute(name, value) else s[i])
            && t[|s|..] == if name in Names(s) then [] else [Attribute(name, value)]
  {
    var k := IndexOf(s, name);
    assert k < |s| ==> IsFirst(s, k, name);
  }

  lemma SetOne(s: seq<Attribute>, name: string, value: string, n: string)
    requires UniqueNames(s)
    ensures var t := AsMap(WithAttribute(s, name, value));
            && (n in t <==> n in AsMap(s) || n == name)
            && (n in t ==> t[n] == if n == name then value else AsMap(s)[n])
  {
    var k, t := IndexOf(s, name), WithAttribute(s, name, value);
    AttributeSet(s, name, value);
    assert t[k] == Attribute(name, value);
    MapOfUnique(t, k);
    if n != name && n in AsMap(t) {
      var i :| 0 <= i < |t| && t[i].name == n;
      assert s[i] == t[i];
      MapOfUnique(t, i);
      MapOfUnique(s, i);
    }
    if n != name && n in AsMap(s) {
      var i :| 0 <= i < |s| && s[i].name == n;
      assert t[i].name == n;
    }
  }

  // ---------------------------------------------------------------------------------------
  // Comparison
  // ---------------------------------------------------------------------------------------

  /** Some attribute of the first list is missing in the second or has another value there. */
  predicate AttributesDiffer(a: seq<Attribute>, b: seq<Attribute>) {
    exists i :: 0 <= i < |a| && (IndexOf(b, a[i].name) == |b| || b[IndexOf(b, a[i].name)].value != a[i].value)
  }

  /** operator!= */
  predicate Differs(a: Tree, b: Tree)
    decreases a
  {
    || a.name != b.name || a.value != b.value || |a.children| != |b.children| || |a.attributes| != |b.attributes|
    || AttributesDiffer(a.attributes, b.attributes)
    || exists i :: 0 <= i < |a.children| && Differs(a.children[i], b.children[i])
  }

  ghost predicate Unique(t: Tree) {
    UniqueNames(t.attributes) && forall i :: 0 <= i < |t.children| ==> Unique(t.children[i])
  }

  /** A tree up to the order of attributes. */
  datatype Canon = Canon(name: string, value: string, attributes: map<string, string>, children: seq<Canon>)

  function CanonOf(t: Tree): Canon {
    Canon(t.name, t.value, AsMap(t.attributes), seq(|t.children|, i requires 0 <= i < |t.children| => CanonOf(t.children[i])))
  }

  function Names(s: seq<Attribute>): (r: set<string>)
    ensures forall n :: n in r <==> exists i :: 0 <= i < |s| && s[i].name == n
  {
    if s == [] then {}
    else
      assert forall i :: 0 <= i < |s| - 1 ==> s[..|s| - 1][i] == s[i];
      Names(s[..|s| - 1]) + {s[|s| - 1].name}
  }

  /** There are as many names as attributes exactly if they are unique. */
  lemma {:induction false} UniqueIffAsMany(s: seq<Attribute>)
    ensures |Names(s)| <= |s|
    ensures UniqueNames(s) <==> |Names(s)| == |s|
    decreases |s|
  {
    if s != [] {
      var n := |s| - 1;
      UniqueIffAsMany(s[..n]);
      if s[n].name !in Names(s[..n]) {
        UniqueStep(s);
      }
    }
  }

  lemma UniqueStep(s: seq<Attribute>)
    requires s != [] && s[|s| - 1].name !in Names(s[..|s| - 1])
    ensures UniqueNames(s) <==> UniqueNames(s[..|s| - 1])
  {
    var n := |s| - 1;
    if UniqueNames(s[..n]) {
      forall i, j | 0 <= i < j < |s|
        ensures s[i].name != s[j].name
      {
        assert s[..n][i] == s[i];
        if j < n {
          assert s[..n][j] == s[j];
        }
      }
    }
  }

  lemma SubsetOfSameSize(a: set<string>, b: set<string>)
    requires a <= b && |a| >= |b|
    ensures a == b
  {
    if a != b {
      var x :| x in b && x !in a;
      assert a <= b - {x};
      SubsetSize(a, b - {x});
    }
  }

  lemma {:induction false} SubsetSize(a: set<string>, b: set<string>)
    requires a <= b
    ensures |a| <= |b|
    decreases |a|
  {
    if a != {} {
      var x :| x in a;
      SubsetSize(a - {x}, b - {x});
    }
  }

  /** All attributes of a are found in b. */
  lemma FoundNames(a: seq<Attribute>, b: seq<Attribute>)
    requires !AttributesDiffer(a, b)
    ensures Names(a) <= Names(b)
  {
    forall n | n in Names(a)
      ensures n in Names(b)
    {
      var i :| 0 <= i < |a| && a[i].name == n;
      assert b[IndexOf(b, a[i].name)].name == n;
    }
  }

  lemma SameNames(a: seq<Attribute>, b: seq<Attribute>)
    requires UniqueNames(a) && |a| == |b| && !AttributesDiffer(a, b)
    ensures UniqueNames(b) && Names(a) == Names(b)
  {
    UniqueIffAsMany(a);
    UniqueIffAsMany(b);
    FoundNames(a, b);
    SubsetOfSameSize(Names(a), Names(b));
  }

  lemma EqualMaps(a: seq<Attribute>, b: seq<Attribute>)
    requires UniqueNames(a) && UniqueNames(b) && Names(a) == Names(b) && !AttributesDiffer(a, b)
    ensures AsMap(a) == AsMap(b)
  {
    forall n
      ensures n in AsMap(a) <==> n in AsMap(b)
      ensures n in AsMap(a) ==> AsMap(a)[n] == AsMap(b)[n]
    {
      assert n in AsMap(a) <==> n in Names(a);
      assert n in AsMap(b) <==> n in Names(b);
      if n in AsMap(a) {
        var i :| 0 <= i < |a| && a[i].name == n;
        MapOfUnique(a, i);
        MapOfUnique(b, IndexOf(b, n));
      }
    }
  }

  lemma NamesOfMap(s: seq<Attribute>)
    ensures Names(s) == AsMap(s).Keys
  {
    assert forall n :: n in Names(s) <==> n in AsMap(s);
  }

  lemma FoundInMap(b: seq<Attribute>, name: string)
    requires UniqueNames(b) && name in AsMap(b)
    ensures IndexOf(b, name) < |b| && b[IndexOf(b, name)].value == AsMap(b)[name]
  {
    var j :| 0 <= j < |b| && b[j].name == name;
    MapOfUnique(b, IndexOf(b, name));
  }

  lemma MapsEqual(a: seq<Attribute>, b: seq<Attribute>)
    requires UniqueNames(a) && UniqueNames(b) && AsMap(a) == AsMap(b)
    ensures |a| == |b| && !AttributesDiffer(a, b)
  {
    UniqueIffAsMany(a);
    UniqueIffAsMany(b);
    NamesOfMap(a);
    NamesOfMap(b);
    forall i | 0 <= i < |a|
      ensures IndexOf(b, a[i].name) < |b| && b[IndexOf(b, a[i].name)].value == a[i].value
    {
      MapOfUnique(a, i);
      FoundInMap(b, a[i].name);
    }
  }

  /** The comparison of attribute lists, whatever their order, is equality of the maps. */
  lemma AttributesEqualIff(a: seq<Attribute>, b: seq<Attribute>)
    requires UniqueNames(a)
    ensures |a| == |b| && !AttributesDiffer(a, b) <==> UniqueNames(b) && AsMap(a) == AsMap(b)
  {
    if |a| == |b| && !AttributesDiffer(a, b) {
      SameNames(a, b);
      EqualMaps(a, b);
    }
    if UniqueNames(b) && AsMap(a) == AsMap(b) {
      MapsEqual(a, b);
    }
  }

  lemma CanonChildren(t: Tree)
    ensures |CanonOf(t).children| == |t.children|
    ensures forall i :: 0 <= i < |t.children| ==> CanonOf(t).children[i] == CanonOf(t.children[i])
  {
  }

  ghost predicate UniqueChildren(t: Tree) {
    forall i :: 0 <= i < |t.children| ==> Unique(t.children[i])
  }

  ghost predicate SameCanonChildren(a: Tree, b: Tree) {
    |a.children| == |b.children| && forall i :: 0 <= i < |a.children| ==> CanonOf(a.children[i]) == CanonOf(b.children[i])
  }

  lemma SameCanon(a: Tree, b: Tree)
    ensures CanonOf(a) == CanonOf(b)
            <==> a.name == b.name && a.value == b.value && AsMap(a.attributes) == AsMap(b.attributes) && SameCanonChildren(a, b)
  {
    CanonChildren(a);
    CanonChildren(b);
    if SameCanonChildren(a, b) {
      assert CanonOf(a).children == CanonOf(b).children;
    }
  }

  predicate ChildrenDiffer(a: Tree, b: Tree)
    requires |a.children| == |b.children|
  {
    exists i :: 0 <= i < |a.children| && Differs(a.children[i], b.children[i])
  }

  /**
   On a tree with unique attribute names the comparison finds no difference exactly for the trees that
   are the same up to the order of attributes, and those have unique names themselves.
   */
  lemma {:induction false} EqualIff(a: Tree, b: Tree)
    requires Unique(a)
    ensures !Differs(a, b) <==> Unique(b) && CanonOf(a) == CanonOf(b)
    decreases a
  {
    AttributesEqualIff(a.attributes, b.attributes);
    SameCanon(a, b);
    if |a.children| == |b.children| {
      forall i | 0 <= i < |a.children|
        ensures !Differs(a.children[i], b.children[i])
                <==> Unique(b.children[i]) && CanonOf(a.children[i]) == CanonOf(b.children[i])
      {
        EqualIff(a.children[i], b.children[i]);
      }
      EqualChildren(a, b);
    }
  }

  lemma EqualChildren(a: Tree, b: Tree)
    requires |a.children| == |b.children|
    requires forall i :: 0 <= i < |a.children| ==>
                           (!Differs(a.children[i], b.children[i])
                            <==> Unique(b.children[i]) && CanonOf(a.children[i]) == CanonOf(b.children[i]))
    ensures !ChildrenDiffer(a, b) <==> UniqueChildren(b) && SameCanonChildren(a, b)
  {
  }

  lemma AttributesTransitive(a: seq<Attribute>, b: seq<Attribute>, c: seq<Attribute>)
    requires !AttributesDiffer(a, b) && !AttributesDiffer(b, c)
    ensures !AttributesDiffer(a, c)
  {
    forall i | 0 <= i < |a|
      ensures IndexOf(c, a[i].name) < |c| && c[IndexOf(c, a[i].name)].value == a[i].value
    {
      var k := IndexOf(b, a[i].name);
      assert b[k].name == a[i].name && b[k].value == a[i].value;
    }
  }

  /** The comparison is transitive on all trees. */
  lemma {:induction false} EqualityIsTransitive(a: Tree, b: Tree, c: Tree)
    requires !Differs(a, b) && !Differs(b, c)
    ensures !Differs(a, c)
    decreases a
  {
    AttributesTransitive(a.attributes, b.attributes, c.attributes);
    forall i | 0 <= i < |a.children|
      ensures !Differs(a.children[i], c.children[i])
    {
      EqualityIsTransitive(a.children[i], b.children[i], c.children[i]);
    }
  }

  /** It is reflexive and symmetric on trees with unique attribute names, so an equivalence there. */
  lemma EqualityOnUnique(a: Tree, b: Tree)
    requires Unique(a)
    ensures !Differs(a, a)
    ensures !Differs(a, b) ==> Unique(b) && !Differs(b, a)
  {
    EqualIff(a, a);
    EqualIff(a, b);
    if !Differs(a, b) {
      EqualIff(b, a);
    }
  }

  /** Attributes with one name have one value. */
  predicate ConsistentNames(s: seq<Attribute>) {
    forall i, j :: 0 <= i < j < |s| && s[i].name == s[j].name ==> s[i].value == s[j].value
  }

  predicate Consistent(t: Tree) {
    ConsistentNames(t.attributes) && forall i :: 0 <= i < |t.children| ==> Consistent(t.children[i])
  }

  lemma ConsistentIff(s: seq<Attribute>)
    ensures !AttributesDiffer(s, s) <==> ConsistentNames(s)
  {
    if !AttributesDiffer(s, s) {
      forall i, j | 0 <= i < j < |s| && s[i].name == s[j].name
        ensures s[i].value == s[j].value
      {
        assert s[IndexOf(s, s[i].name)].value == s[i].value;
        assert s[IndexOf(s, s[j].name)].value == s[j].value;
      }
    }
    if ConsistentNames(s) {
      forall i | 0 <= i < |s|
        ensures IndexOf(s, s[i].name) < |s| && s[IndexOf(s, s[i].name)].value == s[i].value
      {
      }
    }
  }

  /** Without unique names a tree equals itself exactly if attributes of one name have one value. */
  lemma {:induction false} ReflexiveIff(t: Tree)
    ensures !Differs(t, t) <==> Consistent(t)
    decreases t
  {
    ConsistentIff(t.attributes);
    forall i | 0 <= i < |t.children|
      ensures !Differs(t.children[i], t.children[i]) <==> Consistent(t.children[i])
    {
      ReflexiveIff(t.children[i]);
    }
  }

  /** A tree that equals any other gives one value to attributes of one name. */
  lemma {:induction false} EqualIsConsistent(a: Tree, b: Tree)
    requires !Differs(a, b)
    ensures Consistent(a)
    decreases a
  {
    forall i, j | 0 <= i < j < |a.attributes| && a.attributes[i].name == a.attributes[j].name
      ensures a.attributes[i].value == a.attributes[j].value
    {
      var k := IndexOf(b.attributes, a.attributes[i].name);
      assert b.attributes[k].value == a.attributes[i].value && b.attributes[k].value == a.attributes[j].value;
    }
    forall i | 0 <= i < |a.children|
      ensures Consistent(a.children[i])
    {
      EqualIsConsistent(a.children[i], b.children[i]);
    }
  }

  /** A name that is longer than all names of the list. */
  function FreshName(s: seq<Attribute>): (name: string)
    ensures forall i :: 0 <= i < |s| ==> |s[i].name| < |name|
  {
    if s == [] then ""
    else
      var n := |s| - 1;
      var rest := FreshName(s[..n]);
      assert forall i :: 0 <= i < n ==> s[..n][i] == s[i];
      if |s[n].name| < |rest| then rest else s[n].name + "x"
  }

  lemma FoundAt(t: seq<Attribute>, name: string, p: nat, value: string)
    requires p < |t| && t[p].name == name && forall q :: 0 <= q < |t| && t[q].name == name ==> t[q].value == value
    ensures IndexOf(t, name) < |t| && t[IndexOf(t, name)].value == value
  {
  }

  /** Renaming the later of two attributes with one name and one value: the old list is found in the new one. */
  lemma OldIsFound(s: seq<Attribute>, i: nat, j: nat, name: string)
    requires ConsistentNames(s) && i < j < |s| && s[i].name == s[j].name
    requires forall k :: 0 <= k < |s| ==> s[k].name != name
    ensures !AttributesDiffer(s, s[j := Attribute(name, s[j].value)])
  {
    var t := s[j := Attribute(name, s[j].value)];
    forall k | 0 <= k < |s|
      ensures IndexOf(t, s[k].name) < |t| && t[IndexOf(t, s[k].name)].value == s[k].value
    {
      var p := if k == j then i else k;
      assert t[p] == s[p];
      forall q | 0 <= q < |t| && t[q].name == s[k].name
        ensures t[q].value == s[k].value
      {
        assert t[q] == s[q];
      }
      FoundAt(t, s[k].name, p, s[k].value);
    }
  }

  lemma NewIsMissing(s: seq<Attribute>, j: nat, a: Attribute)
    requires j < |s| && forall k :: 0 <= k < |s| ==> s[k].name != a.name
    ensures AttributesDiffer(s[j := a], s)
  {
    assert s[j := a][j] == a && IndexOf(s, a.name) == |s|;
  }

  lemma OtherAttributes(a: Tree, attributes: seq<Attribute>)
    requires Consistent(a) && |attributes| == |a.attributes|
    requires !AttributesDiffer(a.attributes, attributes) && AttributesDiffer(attributes, a.attributes)
    ensures !Differs(a, a.(attributes := attributes)) && Differs(a.(attributes := attributes), a)
  {
    forall k | 0 <= k < |a.children|
      ensures !Differs(a.children[k], a.children[k])
    {
      ReflexiveIff(a.children[k]);
    }
  }

  lemma OtherChild(a: Tree, i: nat, child: Tree)
    requires Consistent(a) && i < |a.children| && !Differs(a.children[i], child) && Differs(child, a.children[i])
    ensures !Differs(a, a.(children := a.children[i := child])) && Differs(a.(children := a.children[i := child]), a)
  {
    var b := a.(children := a.children[i := child]);
    ConsistentIff(a.attributes);
    forall k | 0 <= k < |a.children|
      ensures !Differs(a.children[k], b.children[k])
    {
      ReflexiveIff(a.children[k]);
    }
    assert Differs(b.children[i], a.children[i]);
  }

  /** A consistent tree with a repeated name equals some tree that does not equal it. */
  lemma {:induction false} OneSided(a: Tree) returns (b: Tree)
    requires Consistent(a) && !Unique(a)
    ensures !Differs(a, b) && Differs(b, a)
    decreases a
  {
    if UniqueNames(a.attributes) {
      var i :| 0 <= i < |a.children| && !Unique(a.children[i]);
      var child := OneSided(a.children[i]);
      OtherChild(a, i, child);
      b := a.(children := a.children[i := child]);
    } else {
      var s := a.attributes;
      var i, j :| 0 <= i < j < |s| && s[i].name == s[j].name;
      var renamed := Attribute(FreshName(s), s[j].value);
      OldIsFound(s, i, j, renamed.name);
      NewIsMissing(s, j, renamed);
      OtherAttributes(a, s[j := renamed]);
      b := a.(attributes := s[j := renamed]);
    }
  }

  /**
   Equality with a can be turned round exactly if the names in a are unique, or if some name in it has
   two values, when a equals nothing.
   */
  lemma SymmetricIff(a: Tree)
    ensures (forall b :: !Differs(a, b) ==> !Differs(b, a)) <==> Unique(a) || !Consistent(a)
  {
    if Unique(a) {
      forall b | !Differs(a, b)
        ensures !Differs(b, a)
      {
        EqualityOnUnique(a, b);
      }
    } else if Consistent(a) {
      var b := OneSided(a);
      assert !Differs(a, b) && Differs(b, a);
    } else {
      forall b
        ensures Differs(a, b)
      {
        if !Differs(a, b) {
          EqualIsConsistent(a, b);
          assert false;
        }
      }
    }
  }

  /**
   A list with a repeated name cannot come from setAttribute, a copy or a DOM; it arises by writing a name
   through the pointer that attribute(int) returns. Here x is written over the second of two names.
   */
  lemma AsymmetricWithDuplicates()
    ensures var x, y := Attribute("x", "1"), Attribute("y", "1");
            var set' := WithAttribute(WithAttribute([], "x", "1"), "y", "1");
            var a, b := Tree("n", "", set'[1 := x], []), Tree("n", "", set', []);
            set' == [x, y] && !Differs(a, b) && Differs(b, a)
  {
    var x, y := Attribute("x", "1"), Attribute("y", "1");
    TwoNames(x, y);
    var p := [x, x];
    assert p[1 := y] == [x, y] && [x, y][1 := x] == p;
    OldIsFound(p, 0, 1, "y");
    NewIsMissing(p, 1, y);
    OtherAttributes(Tree("n", "", p, []), [x, y]);
  }

  lemma TwoNames(x: Attribute, y: Attribute)
    requires x.name != y.name
    ensures WithAttribute(WithAttribute([], x.name, x.value), y.name, y.value) == [x, y]
  {
    assert WithAttribute([], x.name, x.value) == [] + [x] == [x];
    var s := [x];
    assert s[..0] == [];
    assert s + [y] == [x, y];
  }

  // ---------------------------------------------------------------------------------------
  // DOM
  // ---------------------------------------------------------------------------------------

  /** createDOM: the value becomes a text node of an element without child elements. */
  function ToDom(t: Tree): Dom
    decreases t
  {
    var elements := seq(|t.children|, i requires 0 <= i < |t.children| => ToDom(t.children[i]));
    Element(t.name, AsMap(t.attributes), if t.children == [] && t.value != "" then [Text(t.value)] else elements)
  }

  /** createDOMDocument: the root writes its value even before child elements. */
  function ToDocument(t: Tree): Dom {
    var elements := seq(|t.children|, i requires 0 <= i < |t.children| => ToDom(t.children[i]));
    Element(t.name, AsMap(t.attributes), (if t.value != "" then [Text(t.value)] else []) + elements)
  }

  /** Attributes from a map, in the order in which the DOM happens to list them. */
  function Listed(m: map<string, string>, names: seq<string>): (s: seq<Attribute>)
    requires forall n :: n in names ==> n in m
  {
    if names == [] then []
    else WithAttribute(Listed(m, names[..|names| - 1]), names[|names| - 1], m[names[|names| - 1]])
  }

  /** An order of iteration: lists every set of names, each name once. */
  ghost predicate IsOrder(order: set<string> -> seq<string>) {
    forall s: set<string> ::
      && (forall n :: n in order(s) <==> n in s)
      && (forall i, j :: 0 <= i < j < |order(s)| ==> order(s)[i] != order(s)[j])
  }

  /** The child elements among the first n child nodes. */
  function Elements(ds: seq<Dom>): (es: seq<Dom>)
    ensures forall i :: 0 <= i < |es| ==> es[i].Element? && es[i] in ds
  {
    if ds == [] then []
    else if ds[|ds| - 1].Element? then Elements(ds[..|ds| - 1]) + [ds[|ds| - 1]]
    else Elements(ds[..|ds| - 1])
  }

  /** getNodeValue: elements have none. */
  function NodeValue(d: Dom): string {
    if d.Text? then d.value else ""
  }

  /** createState: only child elements are kept, and a value only if there are none. */
  function FromDom(d: Dom, order: set<string> -> seq<string>): (t: Tree)
    requires d.Element? && IsOrder(order)
    decreases d
  {
    var es := Elements(d.children);
    var children := seq(|es|, i requires 0 <= i < |es| => assert es[i] in d.children; FromDom(es[i], order));
    Tree(d.name, if es == [] && d.children != [] then NodeValue(d.children[0]) else "",
         Listed(d.attributes, order(d.attributes.Keys)), children)
  }

  /** The tree without the values of nodes that have children. */
  function Strip(t: Tree): Tree {
    Tree(t.name, if t.children == [] then t.value else "", t.attributes,
         seq(|t.children|, i requires 0 <= i < |t.children| => Strip(t.children[i])))
  }

  predicate ValuesOnLeaves(t: Tree) {
    (t.children != [] ==> t.value == "") && forall i :: 0 <= i < |t.children| ==> ValuesOnLeaves(t.children[i])
  }

  /** The part of a map under some names. */
  function Restricted(m: map<string, string>, names: seq<string>): map<string, string>
    requires forall n :: n in names ==> n in m
  {
    map n | n in names :: m[n]
  }

  lemma RestrictedStep(m: map<string, string>, names: seq<string>)
    requires names != [] && forall n :: n in names ==> n in m
    ensures var k := |names| - 1; Restricted(m, names) == Restricted(m, names[..k])[names[k] := m[names[k]]]
  {
    var k := |names| - 1;
    assert names == names[..k] + [names[k]];
  }

  lemma {:induction false} ListedIsMap(m: map<string, string>, names: seq<string>)
    requires forall n :: n in names ==> n in m
    ensures UniqueNames(Listed(m, names)) && AsMap(Listed(m, names)) == Restricted(m, names)
    decreases |names|
  {
    if names != [] {
      var k := |names| - 1;
      ListedIsMap(m, names[..k]);
      RestrictedStep(m, names);
      AttributeSet(Listed(m, names[..k]), names[k], m[names[k]]);
      SetChangesOne(Listed(m, names[..k]), names[k], m[names[k]]);
    }
  }

  lemma ListedByOrder(m: map<string, string>, order: set<string> -> seq<string>)
    requires IsOrder(order)
    ensures UniqueNames(Listed(m, order(m.Keys))) && AsMap(Listed(m, order(m.Keys))) == m
  {
    var names := order(m.Keys);
    assert forall n :: n in names <==> n in m.Keys;
    ListedIsMap(m, names);
    assert Restricted(m, names) == m;
  }

  /** Trees read from a DOM have unique attribute names. */
  lemma {:induction false} ReadIsUnique(d: Dom, order: set<string> -> seq<string>)
    requires d.Element? && IsOrder(order)
    ensures Unique(FromDom(d, order))
    decreases d
  {
    ListedByOrder(d.attributes, order);
    var es := Elements(d.children);
    forall i | 0 <= i < |es|
      ensures Unique(FromDom(d, order).children[i])
    {
      assert es[i] in d.children;
      ReadIsUnique(es[i], order);
    }
  }

  lemma {:induction false} ElementsOfAll(ds: seq<Dom>)
    requires forall i :: 0 <= i < |ds| ==> ds[i].Element?
    ensures Elements(ds) == ds
    decreases |ds|
  {
    if ds != [] {
      ElementsOfAll(ds[..|ds| - 1]);
    }
  }

  lemma {:induction false} ElementsAfterText(v: string, ds: seq<Dom>)
    requires forall i :: 0 <= i < |ds| ==> ds[i].Element?
    ensures Elements([Text(v)] + ds) == ds
    decreases |ds|
  {
    var all := [Text(v)] + ds;
    if ds == [] {
      assert all[..0] == [];
    } else {
      assert all[..|all| - 1] == [Text(v)] + ds[..|ds| - 1];
      ElementsAfterText(v, ds[..|ds| - 1]);
    }
  }

  lemma DomParts(t: Tree)
    ensures ToDom(t).Element? && ToDom(t).name == t.name && ToDom(t).attributes == AsMap(t.attributes)
    ensures var es := Elements(ToDom(t).children);
            |es| == |t.children| && forall i :: 0 <= i < |es| ==> es[i] == ToDom(t.children[i])
    ensures t.children == [] ==> ToDom(t).children == if t.value != "" then [Text(t.value)] else []
  {
    var elements := seq(|t.children|, i requires 0 <= i < |t.children| => ToDom(t.children[i]));
    ElementsOfAll(elements);
    ElementsAfterText(t.value, []);
    assert [Text(t.value)] + [] == [Text(t.value)];
  }

  lemma DocumentChildren(value: string, elements: seq<Dom>)
    requires forall i :: 0 <= i < |elements| ==> elements[i].Element?
    ensures var ds := (if value != "" then [Text(value)] else []) + elements;
            Elements(ds) == elements && (elements == [] ==> ds == if value != "" then [Text(value)] else [])
  {
    ElementsOfAll(elements);
    ElementsAfterText(value, elements);
    assert [] + elements == elements;
  }

  lemma DocumentParts(t: Tree)
    ensures ToDocument(t).Element? && ToDocument(t).name == t.name && ToDocument(t).attributes == AsMap(t.attributes)
    ensures var es := Elements(ToDocument(t).children);
            |es| == |t.children| && forall i :: 0 <= i < |es| ==> es[i] == ToDom(t.children[i])
    ensures t.children == [] ==> ToDocument(t).children == if t.value != "" then [Text(t.value)] else []
  {
    DocumentChildren(t.value, seq(|t.children|, i requires 0 <= i < |t.children| => ToDom(t.children[i])));
  }

  /** Reading back any DOM node whose parts are those of the tree. */
  lemma ReadParts(t: Tree, d: Dom, order: set<string> -> seq<string>)
    requires IsOrder(order) && d.Element? && d.name == t.name && d.attributes == AsMap(t.attributes)
    requires var es := Elements(d.children);
             |es| == |t.children| && forall i :: 0 <= i < |es| ==> es[i] == ToDom(t.children[i]) && es[i].Element?
    requires t.children == [] ==> d.children == if t.value != "" then [Text(t.value)] else []
    requires forall i :: 0 <= i < |t.children| ==>
                           ToDom(t.children[i]).Element?
                           && CanonOf(FromDom(ToDom(t.children[i]), order)) == CanonOf(Strip(t.children[i]))
    ensures CanonOf(FromDom(d, order)) == CanonOf(Strip(t))
  {
    var r, s := FromDom(d, order), Strip(t);
    ListedByOrder(d.attributes, order);
    assert r.value == s.value;
    forall i | 0 <= i < |r.children|
      ensures CanonOf(r.children[i]) == CanonOf(s.children[i])
    {
      assert r.children[i] == FromDom(ToDom(t.children[i]), order);
    }
    SameCanon(r, s);
  }

  lemma {:induction false} DomRoundTrip(t: Tree, order: set<string> -> seq<string>)
    requires IsOrder(order)
    ensures ToDom(t).Element? && CanonOf(FromDom(ToDom(t), order)) == CanonOf(Strip(t))
    decreases t
  {
    DomParts(t);
    forall i | 0 <= i < |t.children|
      ensures ToDom(t.children[i]).Element?
      ensures CanonOf(FromDom(ToDom(t.children[i]), order)) == CanonOf(Strip(t.children[i]))
    {
      DomRoundTrip(t.children[i], order);
    }
    ReadParts(t, ToDom(t), order);
  }

  /**
   Writing a tree as a DOM document and reading it back, with the attributes listed in any order, gives
   the tree without the values of inner nodes, up to the order of attributes.
   */
  lemma RoundTrip(t: Tree, order: set<string> -> seq<string>)
    requires IsOrder(order)
    ensures ToDocument(t).Element? && CanonOf(FromDom(ToDocument(t), order)) == CanonOf(Strip(t))
  {
    DocumentParts(t);
    forall i | 0 <= i < |t.children|
      ensures ToDom(t.children[i]).Element?
      ensures CanonOf(FromDom(ToDom(t.children[i]), order)) == CanonOf(Strip(t.children[i]))
    {
      DomRoundTrip(t.children[i], order);
    }
    ReadParts(t, ToDocument(t), order);
  }

  lemma {:induction false} StripIsIdentityIff(t: Tree)
    ensures CanonOf(Strip(t)) == CanonOf(t) <==> ValuesOnLeaves(t)
    decreases t
  {
    var s := Strip(t);
    SameCanon(s, t);
    forall i | 0 <= i < |t.children|
      ensures CanonOf(s.children[i]) == CanonOf(t.children[i]) <==> ValuesOnLeaves(t.children[i])
    {
      StripIsIdentityIff(t.children[i]);
    }
  }

  /**
   The comparison finds no difference between a tree and its round trip exactly for trees with unique
   attribute names that have values on leaves only.
   */
  lemma RoundTripEqualIff(t: Tree, order: set<string> -> seq<string>)
    requires IsOrder(order)
    ensures ToDocument(t).Element?
    ensures !Differs(FromDom(ToDocument(t), order), t) <==> Unique(t) && ValuesOnLeaves(t)
  {
    RoundTrip(t, order);
    ReadIsUnique(ToDocument(t), order);
    EqualIff(FromDom(ToDocument(t), order), t);
    StripIsIdentityIff(t);
  }
}
