/**
  The child list of a TinyXML node: linked both ways through the children's own fields. What the
  operations do is said of the sequence of children; what Clone does, of the whole tree under a node.
 */
module XmlDom {
  import T = XmlTree
  import C = XmlText

  datatype NodeType = Document | Element | Comment | Unknown | Text | Declaration

  //
  // Trees of nodes.
  //

  /** Which nodes a tree is made of. */
  datatype Layout = Layout(node: TiXmlNode, below: seq<Layout>)

  function Roots(ls: seq<Layout>): (r: seq<TiXmlNode>)
    ensures |r| == |ls| && forall i | 0 <= i < |ls| :: r[i] == ls[i].node
    ensures forall n | n in r :: n in Tops(ls)
  {
    if ls == [] then [] else [ls[0].node] + Roots(ls[1..])
  }

  function Tops(ls: seq<Layout>): set<TiXmlNode> {
    if ls == [] then {} else {ls[0].node} + Tops(ls[1..])
  }

  /** The nodes below the roots. */
  function Deep(ls: seq<Layout>): set<TiXmlNode>
    decreases ls, 0
  {
    if ls == [] then {} else Nodes(ls[0].below) + Deep(ls[1..])
  }

  function Nodes(ls: seq<Layout>): set<TiXmlNode>
    decreases ls, 1
  {
    Tops(ls) + Deep(ls)
  }

  lemma {:induction false} NodesAppend(ls: seq<Layout>, l: Layout)
    ensures Roots(ls + [l]) == Roots(ls) + [l.node]
    ensures Tops(ls + [l]) == Tops(ls) + {l.node}
    ensures Deep(ls + [l]) == Deep(ls) + Nodes(l.below)
  {
    hide Nodes;
    if ls == [] {
      assert [] + [l] == [l] && [l][1..] == [];
    } else {
      NodesAppend(ls[1..], l);
      assert (ls + [l])[1..] == ls[1..] + [l];
    }
  }

  /** The nodes of a layout are there if the layout is. */
  lemma {:induction false} Alive(ls: seq<Layout>)
    ensures forall n | n in Nodes(ls) :: allocated(n)
    decreases ls
  {
    if ls != [] {
      Alive(ls[0].below);
      Alive(ls[1..]);
      assert Nodes(ls) == {ls[0].node} + Nodes(ls[0].below) + Nodes(ls[1..]);
    }
  }

  /** What a tree shows to one who does not look at the identity of its nodes. */
  datatype Picture = Picture(kind: NodeType, value: string, attributes: seq<T.Attribute>, below: seq<Picture>)

  /** The nodes of a layout are linked up as it says, and show this picture. */
  ghost predicate Shows(l: Layout, p: Picture)
    reads l.node`value, l.node`attributes, l.node`firstChild, l.node`lastChild, l.node`children, Nodes(l.below)
    decreases l, 0
  {
    && l.node.kind == p.kind && l.node.value == p.value && l.node.attributes == p.attributes
    && l.node.children == Roots(l.below) && l.node.Valid() && AllShow(l.below, p.below)
  }

  ghost predicate AllShow(ls: seq<Layout>, ps: seq<Picture>)
    reads Tops(ls)`value, Tops(ls)`attributes, Tops(ls)`firstChild, Tops(ls)`lastChild, Tops(ls)`children, Deep(ls)
    decreases ls, 1
  {
    |ls| == |ps| && (ls == [] || (Shows(ls[0], ps[0]) && AllShow(ls[1..], ps[1..])))
  }

  lemma {:induction false} AllShowAppend(ls: seq<Layout>, ps: seq<Picture>, l: Layout, p: Picture)
    requires AllShow(ls, ps) && Shows(l, p)
    ensures AllShow(ls + [l], ps + [p])
  {
    hide Shows;
    if ls == [] {
      assert [] + [l] == [l] && [l][1..] == [] && [] + [p] == [p] && [p][1..] == [];
    } else {
      AllShowAppend(ls[1..], ps[1..], l, p);
      assert (ls + [l])[1..] == ls[1..] + [l] && (ps + [p])[1..] == ps[1..] + [p];
    }
  }

  lemma {:induction false} ShowsAt(ls: seq<Layout>, ps: seq<Picture>, i: nat)
    requires AllShow(ls, ps) && i < |ls|
    ensures |ls| == |ps| && Shows(ls[i], ps[i])
  {
    hide Shows, Nodes;
    if i > 0 { ShowsAt(ls[1..], ps[1..], i - 1); }
  }

  predicate HasChildren(kind: NodeType) {
    kind == Element || kind == Document
  }

  //
  // What Clone makes of attributes.
  //

  /** What SetAttribute makes of a list: the first attribute of that name gets the value, or one is added. */
  function SetIn(attributes: seq<T.Attribute>, a: T.Attribute): seq<T.Attribute> {
    if attributes == [] then [a]
    else if attributes[0].name == a.name then [a] + attributes[1..]
    else [attributes[0]] + SetIn(attributes[1..], a)
  }

  predicate Named(attributes: seq<T.Attribute>, name: string) {
    exists i | 0 <= i < |attributes| :: attributes[i].name == name
  }

  lemma {:induction false} SetInAt(attributes: seq<T.Attribute>, a: T.Attribute, k: nat)
    requires k <= |attributes| && (forall i | 0 <= i < k :: attributes[i].name != a.name) && (k < |attributes| ==> attributes[k].name == a.name)
    ensures SetIn(attributes, a) == if k < |attributes| then attributes[k := a] else attributes + [a]
    ensures k == |attributes| <==> !Named(attributes, a.name)
  {
    if k > 0 {
      SetInAt(attributes[1..], a, k - 1);
      assert attributes == [attributes[0]] + attributes[1..];
    }
  }

  /** A list is set attribute by attribute, through C strings. */
  function SetAll(attributes: seq<T.Attribute>): seq<T.Attribute> {
    if attributes == [] then [] else SetIn(SetAll(attributes[..|attributes| - 1]), Cut(attributes[|attributes| - 1]))
  }

  function Cut(a: T.Attribute): T.Attribute {
    T.Attribute(C.CStr(a.name), C.CStr(a.value))
  }

  function CopyAttributesOf(attributes: seq<T.Attribute>): seq<T.Attribute> {
    SetAll(T.Passed(attributes))
  }

  predicate DistinctNames(attributes: seq<T.Attribute>) {
    forall i, j | 0 <= i < j < |attributes| :: attributes[i].name != attributes[j].name
  }

  /** No zero byte, no empty attribute but the first, and no name twice. */
  predicate ProperAttributes(attributes: seq<T.Attribute>) {
    && (forall i | 0 <= i < |attributes| :: '\0' !in attributes[i].name && '\0' !in attributes[i].value)
    && (forall i | 1 <= i < |attributes| :: attributes[i] != T.NO_ATTRIBUTE)
    && DistinctNames(attributes)
  }

  function FirstNamed(attributes: seq<T.Attribute>, name: string): (k: nat)
    ensures k <= |attributes| && (forall i | 0 <= i < k :: attributes[i].name != name) && (k < |attributes| ==> attributes[k].name == name)
  {
    if attributes == [] || attributes[0].name == name then 0 else 1 + FirstNamed(attributes[1..], name)
  }

  /** As many as there were, if all are cut to different names; fewer if not. */
  lemma {:induction false} SetAllSize(attributes: seq<T.Attribute>)
    ensures |SetAll(attributes)| <= |attributes|
    ensures |SetAll(attributes)| == |attributes| ==> AllCut(SetAll(attributes), attributes)
    decreases |attributes|
  {
    if attributes != [] {
      var n := |attributes| - 1;
      var had, a := SetAll(attributes[..n]), Cut(attributes[n]);
      assert SetAll(attributes) == SetIn(had, a);
      SetAllSize(attributes[..n]);
      SetInAt(had, a, FirstNamed(had, a.name));
      hide *;
      if |SetIn(had, a)| == |attributes| { CutNext(had, attributes); }
    }
  }

  /** These are the others, cut, and of distinct names. */
  predicate AllCut(cut: seq<T.Attribute>, attributes: seq<T.Attribute>) {
    |cut| == |attributes| && DistinctNames(cut) && forall i | 0 <= i < |attributes| :: cut[i] == Cut(attributes[i])
  }

  lemma CutNext(had: seq<T.Attribute>, attributes: seq<T.Attribute>)
    requires attributes != [] && AllCut(had, attributes[..|attributes| - 1]) && !Named(had, Cut(attributes[|attributes| - 1]).name)
    ensures AllCut(had + [Cut(attributes[|attributes| - 1])], attributes)
  {
    hide Cut;
  }

  lemma {:induction false} SetAllProper(attributes: seq<T.Attribute>)
    requires ProperAttributes(attributes)
    ensures SetAll(attributes) == attributes
    decreases |attributes|
  {
    if attributes != [] {
      var n := |attributes| - 1;
      var init, a := attributes[..n], attributes[n];
      SetAllProper(init);
      C.CStrIff(a.name);
      C.CStrIff(a.value);
      assert Cut(a) == a;
      SetInAt(init, a, n);
      hide SetIn, Cut;
      assert attributes == init + [a];
    }
  }

  /** Exactly such lists are copied as they are. */
  lemma AttributesCopyIff(attributes: seq<T.Attribute>)
    ensures CopyAttributesOf(attributes) == attributes <==> ProperAttributes(attributes)
  {
    var passed := T.Passed(attributes);
    T.PassedIff(attributes);
    SetAllSize(passed);
    hide SetAll, T.Passed;
    if ProperAttributes(attributes) {
      SetAllProper(attributes);
    } else if CopyAttributesOf(attributes) == attributes {
      PassedSize(attributes);
      forall i | 0 <= i < |attributes| ensures '\0' !in attributes[i].name && '\0' !in attributes[i].value {
        assert attributes[i] == Cut(attributes[i]);
      }
    }
  }

  lemma PassedSize(attributes: seq<T.Attribute>)
    ensures |T.Passed(attributes)| <= |attributes|
    ensures |T.Passed(attributes)| == |attributes| ==> T.Passed(attributes) == attributes
  {
  }

  //
  // What Clone makes of trees.
  //

  /** Values are cut at a zero byte, and documents below the root are dropped, as LinkEndChild refuses them. */
  function Copy(p: Picture): Picture
    decreases p, 0
  {
    Picture(p.kind, C.CStr(p.value), if p.kind == Element then CopyAttributesOf(p.attributes) else [], if HasChildren(p.kind) then CopyAll(p.below) else [])
  }

  function CopyOne(p: Picture): seq<Picture>
    decreases p, 1
  {
    if p.kind == Document then [] else [Copy(p)]
  }

  function CopyAll(ps: seq<Picture>): (r: seq<Picture>)
    ensures |r| <= |ps|
    decreases ps, 0
  {
    if ps == [] then [] else CopyOne(ps[0]) + CopyAll(ps[1..])
  }

  lemma {:induction false} CopyAppend(ps: seq<Picture>, p: Picture)
    ensures CopyAll(ps + [p]) == CopyAll(ps) + CopyOne(p)
  {
    hide CopyOne;
    if ps == [] {
      assert [] + [p] == [p] && [p][1..] == [];
    } else {
      CopyAppend(ps[1..], p);
      assert (ps + [p])[1..] == ps[1..] + [p];
      assert CopyOne(ps[0]) + (CopyAll(ps[1..]) + CopyOne(p)) == (CopyOne(ps[0]) + CopyAll(ps[1..])) + CopyOne(p);
    }
  }

  /**
    Only elements have attributes, only elements and documents have nodes below, no document is below;
    no string has a zero byte, no attribute but the first is empty, and no name of attributes is there twice.
   */
  predicate Proper(p: Picture) {
    && '\0' !in p.value
    && (if p.kind == Element then ProperAttributes(p.attributes) else p.attributes == [])
    && (HasChildren(p.kind) || p.below == []) && AllProper(p.below)
  }

  predicate AllProper(ps: seq<Picture>) {
    ps == [] || (ps[0].kind != Document && Proper(ps[0]) && AllProper(ps[1..]))
  }

  /** Clone makes a true copy of proper trees, and of no others. */
  lemma {:induction false} CopyIff(p: Picture)
    ensures Copy(p) == p <==> Proper(p)
    decreases p
  {
    C.CStrIff(p.value);
    AttributesCopyIff(p.attributes);
    CopyAllIff(p.below);
    assert AllProper([]);
    hide C.CStr, CopyAttributesOf, ProperAttributes, CopyAll, AllProper;
  }

  lemma {:induction false} CopyAllIff(ps: seq<Picture>)
    ensures CopyAll(ps) == ps <==> AllProper(ps)
    decreases ps
  {
    if ps != [] {
      CopyIff(ps[0]);
      CopyAllIff(ps[1..]);
      hide Copy, Proper;
      if ps[0].kind != Document {
        assert CopyOne(ps[0]) == [Copy(ps[0])];
        assert CopyAll(ps)[0] == Copy(ps[0]) && CopyAll(ps)[1..] == CopyAll(ps[1..]);
      }
    }
  }

  /** An element with a document under it, which ReplaceChild can make: the copy has no children. */
  lemma DocumentIsDropped()
    ensures var p := Picture(Element, "e", [], [Picture(Document, "", [], [])]);
            Copy(p) == Picture(Element, "e", [], []) && !Proper(p)
  {
    var d := Picture(Document, "", [], []);
    var p := Picture(Element, "e", [], [d]);
    assert [d][1..] == [] && "e"[1..] == "";
    assert CopyAll([d]) == CopyOne(d) + CopyAll([]);
    CopyIff(p);
  }

  /** An empty attribute behind the first, which SetAttribute can make: the copy ends before it. */
  lemma EmptyAttributeEndsCopy()
    ensures var p := Picture(Element, "e", [T.Attribute("a", "1"), T.NO_ATTRIBUTE, T.Attribute("b", "2")], []);
            Copy(p) == Picture(Element, "e", [T.Attribute("a", "1")], []) && !Proper(p)
  {
    var a, b := T.Attribute("a", "1"), T.Attribute("b", "2");
    var attributes, p := [a, T.NO_ATTRIBUTE, b], Picture(Element, "e", [a, T.NO_ATTRIBUTE, b], []);
    assert T.PassCount(attributes, 0) == T.PassCount(attributes, 1) == 1;
    assert T.Passed(attributes) == [a] && [a][..0] == [];
    CutsNothing("a");
    CutsNothing("1");
    CutsNothing("e");
    assert SetAll([]) == [] && SetAll([a]) == SetIn([], a) == [a];
    CopyIff(p);
  }

  lemma CutsNothing(s: string)
    requires '\0' !in s
    ensures C.CStr(s) == s
  {
    C.CStrIff(s);
  }

  /** Two attributes of one name, which SetName can make: the copy has one of them. */
  lemma RepeatedNameMerges()
    ensures var p := Picture(Element, "e", [T.Attribute("a", "1"), T.Attribute("a", "2")], []);
            Copy(p) == Picture(Element, "e", [T.Attribute("a", "2")], []) && !Proper(p)
  {
    var a, b := T.Attribute("a", "1"), T.Attribute("a", "2");
    var p := Picture(Element, "e", [a, b], []);
    T.PassedIff([a, b]);
    CutsNothing("a");
    CutsNothing("1");
    CutsNothing("2");
    CutsNothing("e");
    assert [a, b][..1] == [a] && [a][..0] == [];
    assert SetAll([]) == [] && SetAll([a]) == SetIn([], a) == [a];
    assert SetAll([a, b]) == SetIn([a], b) == [b] + [];
    CopyIff(p);
  }

  /** A zero byte in the value, in the name of an attribute or in its value: the copy has what comes before it. */
  lemma ZeroByteCuts()
    ensures var p := Picture(Element, "e\0f", [T.Attribute("a\0b", "1\02")], []);
            Copy(p) == Picture(Element, "e", [T.Attribute("a", "1")], []) && !Proper(p)
  {
    var a := T.Attribute("a\0b", "1\02");
    var p := Picture(Element, "e\0f", [a], []);
    T.PassedIff([a]);
    CutAtSecond("e\0f");
    CutAtSecond("a\0b");
    CutAtSecond("1\02");
    assert [a][..0] == [];
    assert SetAll([]) == [] && SetAll([a]) == SetIn([], Cut(a)) == [Cut(a)];
    assert "e\0f"[1] == '\0';
    CopyIff(p);
  }

  lemma CutAtSecond(s: string)
    requires |s| == 3 && s[0] != '\0' && s[1] == '\0'
    ensures C.CStr(s) == [s[0]]
  {
    assert C.CStr(s[1..]) == "";
  }

  //
  // Lists of children.
  //

  function At(s: seq<TiXmlNode>, i: int): TiXmlNode? {
    if 0 <= i < |s| then s[i] else null
  }

  /** No node is in the list twice. */
  predicate Distinct(s: seq<TiXmlNode>) {
    forall i, j | 0 <= i < j < |s| :: s[i] != s[j]
  }

  lemma OnlyThere(s: seq<TiXmlNode>, k: int)
    requires Distinct(s)
    ensures 0 <= k < |s| ==> forall i | 0 <= i < |s| && i != k :: s[i] != s[k]
  {
  }

  lemma InsertedDistinct(s: seq<TiXmlNode>, k: nat, node: TiXmlNode)
    requires Distinct(s) && k <= |s| && node !in s
    ensures Distinct(s[..k] + [node] + s[k..])
  {
    var t := s[..k] + [node] + s[k..];
    assert forall i | 0 <= i < |t| :: t[i] == if i < k then s[i] else if i == k then node else s[i - 1];
  }

  class TiXmlNode {
    const kind: NodeType
    var value: string
    var attributes: seq<T.Attribute>
    var parent: TiXmlNode?
    var firstChild: TiXmlNode?
    var lastChild: TiXmlNode?
    var prev: TiXmlNode?
    var next: TiXmlNode?
    ghost var children: seq<TiXmlNode>

    constructor (kind: NodeType, value: string)
      ensures this.kind == kind && this.value == value && parent == null && prev == null && next == null
      ensures children == [] && attributes == [] && Valid()
    {
      this.kind, this.value, attributes := kind, value, [];
      parent, firstChild, lastChild, prev, next := null, null, null, null, null;
      children := [];
    }

    /** Child i, or null at either end. */
    ghost function Child(i: int): TiXmlNode?
      reads `children
    {
      At(children, i)
    }

    /** The fields of child i agree with its place. */
    ghost predicate Linked(i: nat)
      requires i < |children|
      reads `children, children[i]
    {
      children[i].parent == this && children[i].prev == Child(i - 1) && children[i].next == Child(i + 1)
    }

    /** A well-formed list: the ends, the links and the parents agree, and no node is in it twice. */
    ghost predicate Valid()
      reads `firstChild, `lastChild, `children, children
    {
      && firstChild == Child(0) && lastChild == Child(|children| - 1)
      && (forall i: nat | i < |children| :: Linked(i))
      && this !in children
      && Distinct(children)
    }

    /** A node that calls this one its parent is in the list. */
    ghost predicate Knows(node: TiXmlNode?)
      reads this, node
    {
      node != null && node.parent == this ==> node in children
    }

    /** Where a child is. */
    ghost function Place(node: TiXmlNode): (k: nat)
      requires node in children
      reads this
      ensures k < |children| && children[k] == node
    {
      var k: nat :| k < |children| && children[k] == node;
      k
    }

    /** Puts a node at the end; a document cannot be put anywhere. */
    method LinkEndChild(node: TiXmlNode) returns (linked: TiXmlNode?)
      requires Valid()
      requires node.parent == null || node.parent == this
      requires node !in children && node != this
      modifies this`firstChild, this`lastChild, this`children, node`parent, node`prev, node`next, children`next
      ensures Valid()
      ensures node.kind == Document ==> linked == null && children == old(children)
      ensures node.kind != Document ==> linked == node && children == old(children) + [node]
    {
      if node.kind == Document {
        return null;
      }
      label before:
      ghost var was := children;
      node.parent := this;
      node.prev := lastChild;
      node.next := null;
      if lastChild != null {
        lastChild.next := node;
      } else {
        firstChild := node;
      }
      lastChild := node;
      children := children + [node];
      forall i: nat | i < |children| ensures Linked(i) {
        assert i < |was| ==> old@before(Linked(i));
      }
      return node;
    }

    /** Gives the attribute of that name another value, or adds it at the end. */
    method SetAttribute(name: string, value: string)
      modifies `attributes
      ensures attributes == SetIn(old(attributes), T.Attribute(name, value))
      ensures DistinctNames(old(attributes)) ==> DistinctNames(attributes)
      ensures !Named(old(attributes), name) ==> attributes == old(attributes) + [T.Attribute(name, value)]
      ensures var k := FirstNamed(old(attributes), name);
              Named(old(attributes), name) ==> k < |old(attributes)| && attributes == old(attributes)[k := T.Attribute(name, value)]
    {
      var i := 0;
      while i < |attributes| && attributes[i].name != name
        invariant i <= |attributes| && forall j | 0 <= j < i :: attributes[j].name != name
      {
        i := i + 1;
      }
      SetInAt(attributes, T.Attribute(name, value), i);
      hide SetIn;
      attributes := if i < |attributes| then attributes[i := T.Attribute(name, value)] else attributes + [T.Attribute(name, value)];
    }

    /** The attributes of an element, by First and Next and through C strings. */
    method CopyAttributes(target: TiXmlNode)
      requires target.attributes == [] && target != this
      modifies target`attributes
      ensures target.attributes == CopyAttributesOf(attributes)
    {
      hide SetIn;
      ghost var passed := T.Passed(attributes);
      var i := 0;
      assert passed[..0] == [];
      while i < |attributes| && (i == 0 || attributes[i] != T.NO_ATTRIBUTE)
        invariant i <= |passed| && T.PassCount(attributes, i) == T.PassCount(attributes, 0)
        invariant target.attributes == SetAll(passed[..i])
      {
        target.SetAttribute(C.CStr(attributes[i].name), C.CStr(attributes[i].value));
        assert passed[..i + 1][..i] == passed[..i];
        i := i + 1;
      }
      assert passed[..i] == passed;
    }

    /** What hangs below this node, tree by tree. */
    ghost predicate Holds(ms: seq<Layout>, ps: seq<Picture>)
      reads `firstChild, `lastChild, `children, Nodes(ms)
    {
      this !in Nodes(ms) && Tops(ms) !! Deep(ms) && children == Roots(ms) && Valid() && AllShow(ms, ps)
    }

    lemma HoldsNothing()
      requires children == [] && Valid()
      ensures Holds([], []) && Nodes([]) == {}
    {
    }

    lemma KidsHeld(ms: seq<Layout>, ps: seq<Picture>)
      requires Holds(ms, ps)
      ensures forall i | 0 <= i < |children| :: children[i] in Nodes(ms)
    {
      hide Valid, AllShow, Deep;
    }

    /** Linking in a new tree touches nothing of the others but the links of their roots. */
    method LinkTree(node: TiXmlNode, ghost c: Layout, ghost q: Picture, ghost ms: seq<Layout>, ghost ps: seq<Picture>)
      returns (linked: TiXmlNode?)
      requires Holds(ms, ps) && c.node == node && node != this && node.parent == null && this !in Nodes(c.below)
      requires Shows(c, q) && node !in Nodes(ms) && node !in Nodes(c.below) && Nodes(c.below) !! Nodes(ms)
      modifies `firstChild, `lastChild, `children, node`parent, node`prev, node`next, children`next
      ensures linked == null <==> node.kind == Document
      ensures if node.kind == Document then Holds(ms, ps) else Holds(ms + [c], ps + [q])
    {
      Alive(ms);
      Alive(c.below);
      NodesAppend(ms, c);
      hide Shows, AllShow, Tops, Deep, Roots;
      linked := LinkEndChild(node);
      assert AllShow(ms, ps) && Shows(c, q);
      AllShowAppend(ms, ps, c, q);
    }

    method LinkCopy(node: TiXmlNode, ghost c: Layout, ghost q: Picture, ghost ms: seq<Layout>, ghost ps: seq<Picture>)
      returns (ghost more: seq<Layout>)
      requires Holds(ms, ps) && c.node == node && node != this && node.parent == null && this !in Nodes(c.below)
      requires Shows(c, Copy(q)) && node !in Nodes(ms) && node !in Nodes(c.below) && Nodes(c.below) !! Nodes(ms)
      modifies `firstChild, `lastChild, `children, node`parent, node`prev, node`next, children`next
      ensures Holds(more, ps + CopyOne(q)) && forall n | n in Nodes(more) :: n in Nodes(ms) || n == node || n in Nodes(c.below)
    {
      CopyOneOf(q);
      KindShown(c, Copy(q));
      NodesGrow(ms, c);
      assert ps + [] == ps;
      hide *;
      var linked := LinkTree(node, c, Copy(q), ms, ps);
      more := if linked == null then ms else ms + [c];
    }

    /** And nothing of a tree elsewhere. */
    method LinkBeside(node: TiXmlNode, ghost c: Layout, ghost q: Picture, ghost ms: seq<Layout>, ghost ps: seq<Picture>,
        ghost l: Layout, ghost p: Picture) returns (ghost more: seq<Layout>)
      requires Holds(ms, ps) && c.node == node && node != this && node.parent == null && this !in Nodes(c.below)
      requires Shows(c, Copy(q)) && node !in Nodes(ms) && node !in Nodes(c.below) && Nodes(c.below) !! Nodes(ms)
      requires Shows(l, p) && this !in Nodes([l]) && node !in Nodes([l]) && Nodes(ms) !! Nodes([l])
      modifies `firstChild, `lastChild, `children, node`parent, node`prev, node`next, children`next
      ensures Holds(more, ps + CopyOne(q)) && forall n | n in Nodes(more) :: n in Nodes(ms) || n == node || n in Nodes(c.below)
      ensures Shows(l, p)
    {
      Alive([l]);
      Alone(l);
      KidsHeld(ms, ps);
      hide *;
      more := LinkCopy(node, c, q, ms, ps);
    }

    /** A copy is made beside two other trees. */
    method CloneBeside(child: TiXmlNode, ghost d: Layout, ghost q: Picture, ghost ms: seq<Layout>, ghost ps: seq<Picture>,
        ghost l: Layout, ghost p: Picture) returns (node: TiXmlNode, ghost c: Layout)
      requires d.node == child && Shows(d, q) && Holds(ms, ps) && Shows(l, p)
      ensures c.node == node && node.parent == null && Shows(c, Copy(q)) && Holds(ms, ps) && Shows(l, p)
      ensures fresh(node) && fresh(Nodes(c.below)) && node !in Nodes(c.below)
      ensures node !in Nodes(ms) && Nodes(c.below) !! Nodes(ms) && node !in Nodes([l]) && this !in Nodes(c.below)
      decreases d, 4
    {
      Alive(ms);
      Alive([l]);
      Alone(l);
      hide *;
      node, c := child.Clone(d, q);
    }

    /** A copy of child i of another node is put at the end, unless it is a document. */
    method CopyChild(child: TiXmlNode, ghost l: Layout, ghost p: Picture, ghost i: nat, ghost ms: seq<Layout>)
      returns (ghost more: seq<Layout>)
      requires Shows(l, p) && i < |l.below| == |p.below| && l.below[i].node == child
      requires Holds(ms, CopyAll(p.below[..i])) && this !in Nodes([l]) && Nodes(ms) !! Nodes([l])
      modifies `firstChild, `lastChild, `children, children`next
      ensures Shows(l, p) && child.next == l.node.Child(i + 1)
      ensures Holds(more, CopyAll(p.below[..i + 1])) && forall n | n in Nodes(more) :: n in Nodes(ms) || fresh(n)
      decreases l, 0
    {
      ghost var ps := CopyAll(p.below[..i]);
      ChildOf(l, p, i);
      CopyNext(p.below, i);
      hide *;
      ghost var c;
      var copy;
      copy, c := CloneBeside(child, l.below[i], p.below[i], ms, ps, l, p);
      more := LinkBeside(copy, c, p.below[i], ms, ps, l, p);
      Walk(l, p, i);
    }

    static lemma Alone(l: Layout)
      ensures Nodes([l]) == {l.node} + Nodes(l.below)
    {
      assert [l][1..] == [] && Tops([]) == {} && Deep([]) == {};
    }

    static lemma NodesGrow(ls: seq<Layout>, l: Layout)
      ensures forall n | n in Nodes(ls + [l]) :: n in Nodes(ls) || n == l.node || n in Nodes(l.below)
    {
      NodesAppend(ls, l);
      hide Tops, Deep;
    }

    static lemma CopyOneOf(p: Picture)
      ensures CopyOne(p) == (if p.kind == Document then [] else [Copy(p)]) && Copy(p).kind == p.kind
    {
    }

    static lemma KindShown(l: Layout, p: Picture)
      requires Shows(l, p)
      ensures l.node.kind == p.kind
    {
    }

    /** The children of a node, one by one. */
    method CopyChildren(target: TiXmlNode, ghost l: Layout, ghost p: Picture) returns (ghost ms: seq<Layout>)
      requires l.node == this && Shows(l, p) && target.Holds([], []) && target !in Nodes([l])
      modifies target`firstChild, target`lastChild, target`children
      ensures target.Holds(ms, CopyAll(p.below)) && forall n | n in Nodes(ms) :: fresh(n)
      decreases l, 1
    {
      Walk(l, p, 0);
      Alive([l]);
      target.HoldsNothing();
      NothingCopied(p.below);
      hide *;
      ms := [];
      var child := firstChild;
      ghost var i := 0;
      while child != null
        invariant i <= |p.below| && child == Child(i) && Shows(l, p)
        invariant target.Holds(ms, CopyAll(p.below[..i])) && forall n | n in Nodes(ms) :: fresh(n)
        decreases |p.below| - i
      {
        Walk(l, p, i);
        target.KidsHeld(ms, CopyAll(p.below[..i]));
        assert fresh(target.children);
        ms := target.CopyChild(child, l, p, i, ms);
        child := child.next;
        i := i + 1;
      }
      Walk(l, p, i);
      assert p.below[..i] == p.below;
    }

    /** The list of children ends where the picture does. */
    static lemma Walk(l: Layout, p: Picture, i: nat)
      requires Shows(l, p) && i <= |p.below|
      ensures |l.below| == |p.below| && (l.node.Child(i) != null <==> i < |p.below|)
      ensures i < |p.below| ==> l.below[i].node == l.node.Child(i) && l.below[i].node.next == l.node.Child(i + 1)
      ensures l.node.firstChild == l.node.Child(0)
    {
      assert i < |l.node.children| ==> l.node.Linked(i);
      hide Tops, Deep;
    }

    static lemma ChildOf(l: Layout, p: Picture, i: nat)
      requires Shows(l, p) && i < |l.below|
      ensures i < |p.below| && Shows(l.below[i], p.below[i])
    {
      ShowsAt(l.below, p.below, i);
      hide AllShow, Tops, Deep;
    }

    static lemma NothingCopied(ps: seq<Picture>)
      ensures CopyAll(ps[..0]) == []
    {
    }

    static lemma CopyNext(ps: seq<Picture>, i: nat)
      requires i < |ps|
      ensures CopyAll(ps[..i + 1]) == CopyAll(ps[..i]) + CopyOne(ps[i])
    {
      CopyAppend(ps[..i], ps[i]);
      assert ps[..i + 1] == ps[..i] + [ps[i]];
    }

    /** Gives a new node the value, the attributes and copies of the children. */
    method CopyTo(target: TiXmlNode, ghost l: Layout, ghost p: Picture) returns (ghost m: Layout)
      requires l.node == this && Shows(l, p) && target != this && target !in Nodes(l.below)
      requires target.kind == kind && target.attributes == [] && target.children == [] && target.Valid()
      modifies target`value, target`attributes, target`firstChild, target`lastChild, target`children
      ensures m.node == target && target !in Nodes(m.below) && fresh(Nodes(m.below)) && Shows(m, Copy(p))
      decreases l, 2
    {
      Root(l, p);
      Alive([l]);
      Alone(l);
      target.HoldsNothing();
      hide *;
      ghost var ms := [];
      target.value := C.CStr(value);
      if kind == Element {
        CopyAttributes(target);
      }
      if HasChildren(kind) {
        ms := CopyChildren(target, l, p);
      }
      m := Layout(target, ms);
      target.Copied(ms, p);
    }

    static lemma Root(l: Layout, p: Picture)
      requires Shows(l, p)
      ensures l.node.kind == p.kind && l.node.value == p.value && l.node.attributes == p.attributes
    {
    }

    lemma Copied(ms: seq<Layout>, p: Picture)
      requires Holds(ms, if HasChildren(p.kind) then CopyAll(p.below) else [])
      requires kind == p.kind && value == C.CStr(p.value) && attributes == if p.kind == Element then CopyAttributesOf(p.attributes) else []
      ensures Shows(Layout(this, ms), Copy(p)) && this !in Nodes(ms)
    {
      hide AllShow, Tops, Deep, Roots, Valid, CopyAttributesOf, C.CStr;
    }

    /** A copy of the tree under a node. */
    method Clone(ghost l: Layout, ghost p: Picture) returns (node: TiXmlNode, ghost m: Layout)
      requires l.node == this && Shows(l, p)
      ensures m.node == node && node.parent == null && fresh(node) && fresh(Nodes(m.below)) && node !in Nodes(m.below)
      ensures Shows(m, Copy(p))
      decreases l, 3
    {
      Alive([l]);
      Alone(l);
      hide *;
      node := new TiXmlNode(kind, "");
      m := CopyTo(node, l, p);
    }

    /** Child i of the old list, when a node has been linked in at place k. */
    ghost predicate Shifted(was: seq<TiXmlNode>, k: nat, node: TiXmlNode, i: nat)
      requires i < |was|
      reads was[i]
    {
      && was[i].parent == this
      && was[i].prev == (if i == k then node else At(was, i - 1))
      && was[i].next == (if i + 1 == k then node else At(was, i + 1))
    }

    /** The links of a list into which a node has been put at place k. */
    lemma InsertedLinks(was: seq<TiXmlNode>, k: nat, node: TiXmlNode)
      requires k <= |was| && children == was[..k] + [node] + was[k..]
      requires forall i: nat | i < |was| :: Shifted(was, k, node, i)
      requires node.parent == this && node.prev == At(was, k - 1) && node.next == At(was, k)
      ensures forall i: nat | i < |children| :: Linked(i)
    {
      forall i: nat | i < |children| ensures Linked(i) {
        assert i < k ==> children[i] == was[i] && Shifted(was, k, node, i);
        assert i > k ==> children[i] == was[i - 1] && Shifted(was, k, node, i - 1);
      }
    }

    /** The links of InsertBeforeChild. */
    method LinkBefore(beforeThis: TiXmlNode, node: TiXmlNode)
      requires Valid() && beforeThis in children && node != this && node !in children
      modifies this`firstChild, this`children, children`prev, children`next, node`parent, node`prev, node`next
      ensures Valid()
      ensures var k := old(Place(beforeThis)); children == old(children)[..k] + [node] + old(children)[k..]
    {
      ghost var k, was := Place(beforeThis), children;
      assert Linked(k);
      assert k > 0 ==> Linked(k - 1);
      OnlyThere(was, k);
      if k > 0 { OnlyThere(was, k - 1); }
      hide Distinct;
      label before:
      node.parent := this;
      node.next := beforeThis;
      node.prev := beforeThis.prev;
      if beforeThis.prev != null {
        beforeThis.prev.next := node;
      } else {
        assert firstChild == beforeThis;
        firstChild := node;
      }
      beforeThis.prev := node;
      InsertedDistinct(was, k, node);
      children := was[..k] + [node] + was[k..];
      forall i: nat | i < |was| ensures Shifted(was, k, node, i) { assert old@before(Linked(i)); }
      InsertedLinks(was, k, node);
    }

    method LinkBeforeKept(beforeThis: TiXmlNode, node: TiXmlNode, ghost m: Layout, ghost p: Picture)
      requires Valid() && beforeThis in children && node != this && node !in children
      requires m.node == node && Shows(m, p) && this !in Nodes(m.below) && node !in Nodes(m.below)
      requires forall n | n in children :: n !in Nodes(m.below)
      modifies this`firstChild, this`children, children`prev, children`next, node`parent, node`prev, node`next
      ensures Valid() && Shows(m, p)
      ensures var k := old(Place(beforeThis)); children == old(children)[..k] + [node] + old(children)[k..]
    {
      Alive(m.below);
      hide *;
      LinkBefore(beforeThis, node);
    }

    /** A copy of a tree is made and linked in. */
    method CopyBefore(beforeThis: TiXmlNode, addThis: TiXmlNode, ghost l: Layout, ghost p: Picture) returns (node: TiXmlNode, ghost m: Layout)
      requires l.node == addThis && Shows(l, p) && Valid() && beforeThis in children
      modifies this`firstChild, this`children, children`prev, children`next
      ensures Valid() && m.node == node && fresh(node) && Shows(m, Copy(p))
      ensures var k := old(Place(beforeThis)); children == old(children)[..k] + [node] + old(children)[k..]
    {
      assert this !in children;
      hide *;
      node, m := addThis.Clone(l, p);
      LinkBeforeKept(beforeThis, node, m, Copy(p));
    }

    method InsertBeforeChild(beforeThis: TiXmlNode?, addThis: TiXmlNode, ghost l: Layout, ghost p: Picture) returns (node: TiXmlNode?, ghost m: Layout)
      requires l.node == addThis && Shows(l, p)
      requires Valid() && Knows(beforeThis)
      modifies this`firstChild, this`children, children`prev, children`next
      ensures Valid()
      ensures node == null <==> beforeThis == null || beforeThis.parent != this || addThis.kind == Document
      ensures node == null ==> children == old(children)
      ensures node != null ==> m.node == node && fresh(node) && Shows(m, Copy(p))
      ensures node != null ==> var k := old(Place(beforeThis)); children == old(children)[..k] + [node] + old(children)[k..]
    {
      if beforeThis == null || beforeThis.parent != this {
        return null, l;
      }
      if addThis.kind == Document {
        return null, l;
      }
      hide *;
      node, m := CopyBefore(beforeThis, addThis, l, p);
    }

    /** The links of InsertAfterChild. */
    method LinkAfter(afterThis: TiXmlNode, node: TiXmlNode)
      requires Valid() && afterThis in children && node != this && node !in children
      modifies this`lastChild, this`children, children`prev, children`next, node`parent, node`prev, node`next
      ensures Valid()
      ensures var k := old(Place(afterThis)); children == old(children)[..k + 1] + [node] + old(children)[k + 1..]
    {
      ghost var k, was := Place(afterThis), children;
      assert Linked(k);
      assert k + 1 < |was| ==> Linked(k + 1);
      OnlyThere(was, k);
      OnlyThere(was, k + 1);
      hide Distinct;
      label before:
      node.parent := this;
      node.prev := afterThis;
      node.next := afterThis.next;
      if afterThis.next != null {
        afterThis.next.prev := node;
      } else {
        assert lastChild == afterThis;
        lastChild := node;
      }
      afterThis.next := node;
      InsertedDistinct(was, k + 1, node);
      children := was[..k + 1] + [node] + was[k + 1..];
      ghost var at := k + 1;
      forall i: nat | i < |was| ensures Shifted(was, at, node, i) { assert old@before(Linked(i)); }
      InsertedLinks(was, at, node);
    }

    method LinkAfterKept(afterThis: TiXmlNode, node: TiXmlNode, ghost m: Layout, ghost p: Picture)
      requires Valid() && afterThis in children && node != this && node !in children
      requires m.node == node && Shows(m, p) && this !in Nodes(m.below) && node !in Nodes(m.below)
      requires forall n | n in children :: n !in Nodes(m.below)
      modifies this`lastChild, this`children, children`prev, children`next, node`parent, node`prev, node`next
      ensures Valid() && Shows(m, p)
      ensures var k := old(Place(afterThis)); children == old(children)[..k + 1] + [node] + old(children)[k + 1..]
    {
      Alive(m.below);
      hide *;
      LinkAfter(afterThis, node);
    }

    /** A copy of a tree is made and linked in. */
    method CopyAfter(afterThis: TiXmlNode, addThis: TiXmlNode, ghost l: Layout, ghost p: Picture) returns (node: TiXmlNode, ghost m: Layout)
      requires l.node == addThis && Shows(l, p) && Valid() && afterThis in children
      modifies this`lastChild, this`children, children`prev, children`next
      ensures Valid() && m.node == node && fresh(node) && Shows(m, Copy(p))
      ensures var k := old(Place(afterThis)); children == old(children)[..k + 1] + [node] + old(children)[k + 1..]
    {
      assert this !in children;
      hide *;
      node, m := addThis.Clone(l, p);
      LinkAfterKept(afterThis, node, m, Copy(p));
    }

    method InsertAfterChild(afterThis: TiXmlNode?, addThis: TiXmlNode, ghost l: Layout, ghost p: Picture) returns (node: TiXmlNode?, ghost m: Layout)
      requires l.node == addThis && Shows(l, p)
      requires Valid() && Knows(afterThis)
      modifies this`lastChild, this`children, children`prev, children`next
      ensures Valid()
      ensures node == null <==> afterThis == null || afterThis.parent != this || addThis.kind == Document
      ensures node == null ==> children == old(children)
      ensures node != null ==> m.node == node && fresh(node) && Shows(m, Copy(p))
      ensures node != null ==> var k := old(Place(afterThis)); children == old(children)[..k + 1] + [node] + old(children)[k + 1..]
    {
      if afterThis == null || afterThis.parent != this {
        return null, l;
      }
      if addThis.kind == Document {
        return null, l;
      }
      hide *;
      node, m := CopyAfter(afterThis, addThis, l, p);
    }

    /** The links of ReplaceChild. */
    method LinkInstead(replaceThis: TiXmlNode, node: TiXmlNode)
      requires Valid() && replaceThis in children && node != this && node !in children
      modifies this`firstChild, this`lastChild, this`children, children`prev, children`next, node`parent, node`prev, node`next
      ensures Valid()
      ensures var k := old(Place(replaceThis)); children == old(children)[k := node]
    {
      ghost var k, was := Place(replaceThis), children;
      assert Linked(k);
      assert k > 0 ==> Linked(k - 1);
      assert k + 1 < |was| ==> Linked(k + 1);
      label before:
      node.next := replaceThis.next;
      node.prev := replaceThis.prev;
      if replaceThis.next != null {
        replaceThis.next.prev := node;
      } else {
        lastChild := node;
      }
      if replaceThis.prev != null {
        replaceThis.prev.next := node;
      } else {
        firstChild := node;
      }
      node.parent := this;
      children := was[k := node];
      forall i: nat | i < |children| ensures Linked(i) {
        assert old@before(Linked(i));
      }
    }

    method LinkInsteadKept(replaceThis: TiXmlNode, node: TiXmlNode, ghost m: Layout, ghost p: Picture)
      requires Valid() && replaceThis in children && node != this && node !in children
      requires m.node == node && Shows(m, p) && this !in Nodes(m.below) && node !in Nodes(m.below)
      requires forall n | n in children :: n !in Nodes(m.below)
      modifies this`firstChild, this`lastChild, this`children, children`prev, children`next, node`parent, node`prev, node`next
      ensures Valid() && Shows(m, p)
      ensures var k := old(Place(replaceThis)); children == old(children)[k := node]
    {
      Alive(m.below);
      hide *;
      LinkInstead(replaceThis, node);
    }

    /** A copy of a tree is made and linked in. */
    method CopyInstead(replaceThis: TiXmlNode, withThis: TiXmlNode, ghost l: Layout, ghost p: Picture) returns (node: TiXmlNode, ghost m: Layout)
      requires l.node == withThis && Shows(l, p) && Valid() && replaceThis in children
      modifies this`firstChild, this`lastChild, this`children, children`prev, children`next
      ensures Valid() && m.node == node && fresh(node) && Shows(m, Copy(p))
      ensures var k := old(Place(replaceThis)); children == old(children)[k := node]
    {
      assert this !in children;
      hide *;
      node, m := withThis.Clone(l, p);
      LinkInsteadKept(replaceThis, node, m, Copy(p));
    }

    /** A copy of withThis takes the place of a child, which is deleted. The type of withThis is not looked at. */
    method ReplaceChild(replaceThis: TiXmlNode, withThis: TiXmlNode, ghost l: Layout, ghost p: Picture) returns (node: TiXmlNode?, ghost m: Layout)
      requires l.node == withThis && Shows(l, p)
      requires Valid() && Knows(replaceThis)
      modifies this`firstChild, this`lastChild, this`children, children`prev, children`next
      ensures Valid()
      ensures node == null <==> replaceThis.parent != this
      ensures node == null ==> children == old(children)
      ensures node != null ==> m.node == node && fresh(node) && Shows(m, Copy(p))
      ensures node != null ==> children == old(children)[old(Place(replaceThis)) := node]
    {
      if replaceThis.parent != this {
        return null, l;
      }
      hide *;
      node, m := CopyInstead(replaceThis, withThis, l, p);
    }

    /** Takes a child out of the list; it is deleted. */
    method RemoveChild(removeThis: TiXmlNode) returns (removed: bool)
      requires Valid() && Knows(removeThis)
      modifies this`firstChild, this`lastChild, this`children, children`prev, children`next
      ensures Valid()
      ensures removed <==> removeThis.parent == this
      ensures !removed ==> children == old(children)
      ensures removed ==> var k := old(Place(removeThis)); children == old(children)[..k] + old(children)[k + 1..]
    {
      if removeThis.parent != this {
        return false;
      }
      ghost var k, was := Place(removeThis), children;
      assert Linked(k);
      assert k > 0 ==> Linked(k - 1);
      assert k + 1 < |was| ==> Linked(k + 1);
      label before:
      if removeThis.next != null {
        removeThis.next.prev := removeThis.prev;
      } else {
        lastChild := removeThis.prev;
      }
      if removeThis.prev != null {
        removeThis.prev.next := removeThis.next;
      } else {
        firstChild := removeThis.next;
      }
      children := was[..k] + was[k + 1..];
      forall i: nat | i < |children| ensures Linked(i) {
        assert old@before(Linked(if i < k then i else i + 1));
      }
      return true;
    }

    /** Following next from the first child passes the children in order. */
    method NthChild(count: nat) returns (child: TiXmlNode?)
      requires Valid()
      ensures child == Child(count)
    {
      child := firstChild;
      var i := 0;
      while child != null && i < count
        invariant i <= count && child == Child(i)
        decreases count - i
      {
        assert Linked(i);
        child := child.next;
        i := i + 1;
      }
    }

    /** And following prev from the last one, in reverse. */
    method NthLast(count: nat) returns (child: TiXmlNode?)
      requires Valid()
      ensures child == Child(|children| - 1 - count)
    {
      child := lastChild;
      var i := 0;
      while child != null && i < count
        invariant i <= count && child == Child(|children| - 1 - i)
        decreases count - i
      {
        assert Linked(|children| - 1 - i);
        child := child.prev;
        i := i + 1;
      }
    }
  }
}
