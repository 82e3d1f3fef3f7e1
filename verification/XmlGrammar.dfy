/**
  What the parser accepts, as a relation between a text, what is in it and the part of the text that is
  left. None of the functions of the parser is named in it; each is proved to find just what stands in
  these relations.
 */
module XmlGrammar {
  import opened TextGrammar
  import opened XmlText
  import opened XmlTree

  //
  // Words.
  //

  /** White space, all there is, and then u. */
  predicate SpaceTo(t: string, u: string) {
    |u| <= |t| && u == t[|t| - |u|..] && Blank(t[..|t| - |u|]) && (u != "" ==> !IsSpace(u[0]))
  }

  /** A name, as long as can be, and then u. */
  predicate NameTo(t: string, name: string, u: string) {
    t == name + u && name != "" && NameStart(name[0]) && (forall i | 0 <= i < |name| :: NameChar(name[i])) && (u != "" ==> !NameChar(u[0]))
  }

  predicate IsQuote(c: char) {
    c == '\'' || c == '\"'
  }

  predicate EndsBare(c: char) {
    IsSpace(c) || c == '/' || c == '>'
  }

  /** A quoted value, or one without quotes up to white space or the end of the tag, and then u. */
  ghost predicate ValueTo(t: string, value: string, u: string) {
    && t != ""
    && if IsQuote(t[0]) then TextTo(t[1..], [t[0]], value, u, UnknownEncoding)
       else t == value + u && (forall i | 0 <= i < |value| :: !EndsBare(value[i]) && !IsQuote(value[i])) && (u != "" ==> EndsBare(u[0]))
  }

  /** name = value, with white space before each part. */
  ghost predicate AttributeTo(t: string, a: Attribute, u: string) {
    exists p, q, r, v ::
      SpaceTo(t, p) && NameTo(p, a.name, q) && SpaceTo(q, r) && r != "" && r[0] == '=' && SpaceTo(r[1..], v) && ValueTo(v, a.value, u)
  }

  //
  // Elements.
  //

  predicate DifferentNames(attributes: seq<Attribute>) {
    forall i, j | 0 <= i < j < |attributes| :: attributes[i].name != attributes[j].name
  }

  /** A tag up to its name. */
  ghost predicate TagNameTo(t: string, name: string, u: string) {
    exists p, m :: SpaceTo(t, p) && p != "" && p[0] == '<' && SpaceTo(p[1..], m) && NameTo(m, name, u)
  }

  /** A tag with its attributes, and, unless it is an empty tag, content and the end tag of the same name. */
  ghost predicate ElementTo(t: string, n: Node, u: string)
    decreases |t|, 0
  {
    && n.Element? && DifferentNames(n.attributes)
    && exists q :: TagNameTo(t, n.name, q) && |q| < |t| && TagTo(n.name, q, n.attributes, n.children, u)
  }

  ghost predicate TagTo(name: string, t: string, attributes: seq<Attribute>, children: seq<Node>, u: string)
    decreases |t|, 1
  {
    exists p :: SpaceTo(t, p) && p != "" &&
      if p[0] == '/' then attributes == [] && children == [] && p == "/>" + u
      else if p[0] == '>' then attributes == [] && exists e :: e == "</" + (name + (">" + u)) && ContentTo(p[1..], children, e)
      else attributes != [] && exists q :: AttributeTo(p, attributes[0], q) && |q| < |t| && TagTo(name, q, attributes[1..], children, u)
  }

  /** Elements and texts up to an end tag. A text begins where the last item ended; one that is blank is none. */
  ghost predicate ContentTo(t: string, nodes: seq<Node>, u: string)
    decreases |t|, 2
  {
    exists p :: SpaceTo(t, p) && p != "" &&
      if p[0] != '<' then
        exists text, r ::
          TextTo(t, "<", text, r, UnknownEncoding) && |r| + 1 < |t| &&
          if Blank(text) then ContentTo("<" + r, nodes, u)
          else nodes != [] && nodes[0] == Text(text) && ContentTo("<" + r, nodes[1..], u)
      else if |p| > 1 && p[1] == '/' then nodes == [] && u == p
      else nodes != [] && |p| > 1 && NameStart(p[1]) && exists r :: |r| < |t| && ElementTo(p, nodes[0], r) && ContentTo(r, nodes[1..], u)
  }

  /** Elements with white space between them, as far as they go. */
  ghost predicate ElementsTo(t: string, nodes: seq<Node>, u: string)
    decreases |t|
  {
    exists p :: SpaceTo(t, p) &&
      if p == "" || p[0] != '<' then nodes == [] && u == p
      else nodes != [] && |p| > 1 && NameStart(p[1]) && exists r :: |r| < |t| && ElementTo(p, nodes[0], r) && ElementsTo(r, nodes[1..], u)
  }

  /** A document has at least one, and no byte order mark. */
  ghost predicate DocumentTo(t: string, nodes: seq<Node>, u: string) {
    nodes != [] && !Starts(t, BYTE_ORDER_MARK) && ElementsTo(t, nodes, u)
  }

  //
  // The parser finds what stands in these relations.
  //

  lemma {:induction false} SkipsSpace(t: string)
    ensures SpaceTo(t, Skip(t))
  {
    if t != "" && IsSpace(t[0]) {
      SkipsSpace(t[1..]);
      var u := Skip(t);
      assert forall i | 1 <= i < |t| - |u| :: t[i] == t[1..][i - 1] && t[1..][..|t[1..]| - |u|][i - 1] == t[i];
    } else {
      assert t[0..] == t;
    }
  }

  /** There is only one such rest. */
  lemma SpaceOnce(t: string, u: string, v: string)
    requires SpaceTo(t, u) && SpaceTo(t, v)
    ensures u == v
  {
    hide IsSpace;
  }

  lemma SpaceIs(t: string, u: string)
    ensures SpaceTo(t, u) <==> u == Skip(t)
  {
    SkipsSpace(t);
    hide SpaceTo, Skip;
    if SpaceTo(t, u) { SpaceOnce(t, u, Skip(t)); }
  }

  lemma NameIs(t: string, name: string, u: string)
    ensures NameTo(t, name, u) <==> ReadName(t) == Parsed(name, u)
  {
    if NameTo(t, name, u) {
      NameReads(name, u);
    }
    if ReadName(t) == Parsed(name, u) {
      assert t == name + u;
    }
  }

  lemma {:induction false} BareIs(t: string, value: string, u: string)
    ensures Unquoted(t) == Parsed(value, u) <==>
              t == value + u && (forall i | 0 <= i < |value| :: !EndsBare(value[i]) && !IsQuote(value[i])) && (u != "" ==> EndsBare(u[0]))
  {
    if t == "" || EndsBare(t[0]) {
      assert value + u == t && value != "" ==> EndsBare(value[0]);
      if value == "" { assert value + u == u; }
    } else if IsQuote(t[0]) {
    } else {
      if value != "" && value[0] == t[0] {
        BareIs(t[1..], value[1..], u);
        assert value == [value[0]] + value[1..];
        assert t == value + u <==> t[1..] == value[1..] + u;
      }
    }
  }

  lemma ValueIs(t: string, value: string, u: string)
    requires t != ""
    ensures ValueTo(t, value, u) <==> ParseValue(t) == Parsed(value, u)
  {
    BareIs(t, value, u);
    if IsQuote(t[0]) { TextIs(t[1..], [t[0]], value, u, UnknownEncoding); }
    hide ReadText, TextTo, IsSpace, Unquoted;
  }

  lemma AttributeIs(t: string, a: Attribute, u: string)
    ensures AttributeTo(t, a, u) <==> ParseAttribute(t) == Parsed(a, u)
  {
    hide SpaceTo, NameTo, ValueTo, Skip, ReadName, ParseValue;
    SpaceIs(t, Skip(t));
    if AttributeTo(t, a, u) {
      var p, q, r, v :| SpaceTo(t, p) && NameTo(p, a.name, q) && SpaceTo(q, r) && r != "" && r[0] == '=' && SpaceTo(r[1..], v) && ValueTo(v, a.value, u);
      SpaceIs(t, p);
      NameIs(p, a.name, q);
      SpaceIs(q, r);
      SpaceIs(r[1..], v);
      SomeValue(v, a.value, u);
      ValueIs(v, a.value, u);
    }
    if ParseAttribute(t) == Parsed(a, u) {
      var p := Skip(t);
      var q := ReadName(p).rest;
      var r := Skip(q);
      var v := Skip(r[1..]);
      NameIs(p, a.name, q);
      SpaceIs(q, r);
      SpaceIs(r[1..], v);
      ValueIs(v, a.value, u);
    }
  }

  lemma SomeValue(v: string, value: string, u: string)
    requires ValueTo(v, value, u)
    ensures v != ""
  {
  }

  /** None of the names is that of an attribute that is there already. */
  predicate NewNames(had: seq<Attribute>, more: seq<Attribute>)
    decreases |more|
  {
    more == [] || (!Has(had, more[0].name) && NewNames(had + [more[0]], more[1..]))
  }

  lemma {:induction false} NewNamesDiffer(had: seq<Attribute>, more: seq<Attribute>)
    requires DifferentNames(had)
    ensures NewNames(had, more) <==> DifferentNames(had + more)
    decreases |more|
  {
    var all := had + more;
    if more == [] {
      assert all == had;
    } else {
      assert (had + [more[0]]) + more[1..] == all;
      if !Has(had, more[0].name) {
        NewNamesDiffer(had + [more[0]], more[1..]);
      } else {
        var i :| 0 <= i < |had| && had[i].name == more[0].name;
        assert all[i].name == all[|had|].name;
      }
    }
  }

  /** What ParseTag, with the attributes read before, comes to. */
  ghost predicate TagFound(name: string, had: seq<Attribute>, t: string, n: Node, u: string) {
    && n.Element? && n.name == name && had <= n.attributes && NewNames(had, n.attributes[|had|..])
    && TagTo(name, t, n.attributes[|had|..], n.children, u)
  }

  lemma OnlySkip(t: string)
    ensures SpaceTo(t, Skip(t)) && forall p | SpaceTo(t, p) :: p == Skip(t)
  {
    SpaceIs(t, Skip(t));
    forall p | SpaceTo(t, p) ensures p == Skip(t) { SpaceIs(t, p); }
  }

  /** The relation with the white space already passed. */
  ghost predicate TagAt(name: string, t: string, p: string, attributes: seq<Attribute>, children: seq<Node>, u: string)
    requires p != "" && |p| <= |t|
  {
    if p[0] == '/' then attributes == [] && children == [] && p == "/>" + u
    else if p[0] == '>' then attributes == [] && exists e :: e == "</" + (name + (">" + u)) && ContentTo(p[1..], children, e)
    else attributes != [] && exists q :: AttributeTo(p, attributes[0], q) && |q| < |t| && TagTo(name, q, attributes[1..], children, u)
  }

  lemma TagOf(name: string, t: string, attributes: seq<Attribute>, children: seq<Node>, u: string)
    ensures TagTo(name, t, attributes, children, u) <==> Skip(t) != "" && TagAt(name, t, Skip(t), attributes, children, u)
  {
    OnlySkip(t);
    hide SpaceTo, Skip, AttributeTo, ContentTo;
  }

  lemma NoTag(name: string, had: seq<Attribute>, t: string, n: Node, u: string)
    requires Skip(t) == ""
    ensures !TagFound(name, had, t, n, u) && ParseTag(name, had, t) == Failed
  {
    if n.Element? && had <= n.attributes { TagOf(name, t, n.attributes[|had|..], n.children, u); }
    hide Skip, TagTo;
  }

  lemma EmptyTagIs(name: string, had: seq<Attribute>, t: string, n: Node, u: string)
    requires Skip(t) != "" && Skip(t)[0] == '/'
    ensures TagFound(name, had, t, n, u) <==> ParseTag(name, had, t) == Parsed(n, u)
  {
    var p := Skip(t);
    if n.Element? && had <= n.attributes {
      TagOf(name, t, n.attributes[|had|..], n.children, u);
      assert n.attributes[|had|..] == [] <==> n.attributes == had;
    }
    assert |p| > 1 && p[1] == '>' ==> p == "/>" + p[2..];
    assert p == "/>" + u ==> p[2..] == u;
    hide Skip, TagTo;
  }

  lemma ContentTagOf(name: string, t: string, attributes: seq<Attribute>, children: seq<Node>, u: string, e: string)
    requires Skip(t) != "" && Skip(t)[0] == '>' && e == "</" + (name + (">" + u))
    ensures TagTo(name, t, attributes, children, u) <==> attributes == [] && ContentTo(Skip(t)[1..], children, e)
  {
    TagOf(name, t, attributes, children, u);
    hide Skip, TagTo, ContentTo, AttributeTo;
  }

  lemma FoundAll(had: seq<Attribute>, attributes: seq<Attribute>)
    requires had <= attributes
    ensures attributes[|had|..] == [] <==> attributes == had
    ensures NewNames(had, [])
  {
  }

  lemma ParseTagContent(name: string, had: seq<Attribute>, t: string, n: Node, u: string, e: string)
    requires Skip(t) != "" && Skip(t)[0] == '>' && n.Element? && e == "</" + (name + (">" + u))
    ensures ParseTag(name, had, t) == Parsed(n, u) <==>
              n.name == name && n.attributes == had && ReadValue([], Skip(t)[1..]) == Parsed(n.children, e)
  {
    var r := ReadValue([], Skip(t)[1..]);
    EndTagIs(name, u, e);
    if r.Parsed? { EndTagStarts(name, r.rest); }
    hide Skip, ReadValue, EndTag, Starts, ParseAttribute, Has;
  }

  lemma ContentTagIs(name: string, had: seq<Attribute>, t: string, n: Node, u: string, e: string)
    requires Skip(t) != "" && Skip(t)[0] == '>' && n.Element? && e == "</" + (name + (">" + u))
    requires ContentTo(Skip(t)[1..], n.children, e) <==> ReadValue([], Skip(t)[1..]) == Parsed(n.children, e)
    ensures TagFound(name, had, t, n, u) <==> ParseTag(name, had, t) == Parsed(n, u)
  {
    if had <= n.attributes {
      FoundAll(had, n.attributes);
      ContentTagOf(name, t, n.attributes[|had|..], n.children, u, e);
    }
    ParseTagContent(name, had, t, n, u, e);
    hide Skip, TagTo, ContentTo, ReadValue, NewNames, ParseTag;
  }

  lemma EndTagIs(name: string, u: string, e: string)
    requires e == "</" + (name + (">" + u))
    ensures Starts(e, EndTag(name)) && e[|EndTag(name)|..] == u
  {
    assert e == EndTag(name) + u;
  }

  lemma EndTagStarts(name: string, q: string)
    ensures Starts(q, EndTag(name)) ==> q == "</" + (name + (">" + q[|EndTag(name)|..]))
  {
    if Starts(q, EndTag(name)) {
      assert q == EndTag(name) + q[|EndTag(name)|..];
    }
  }

  lemma AttributeFirst(name: string, t: string, more: seq<Attribute>, children: seq<Node>, u: string, a: Attribute, q: string)
    requires Skip(t) != "" && Skip(t)[0] != '>' && Skip(t)[0] != '/' && ParseAttribute(Skip(t)) == Parsed(a, q)
    ensures TagTo(name, t, more, children, u) <==> more != [] && more[0] == a && TagTo(name, q, more[1..], children, u)
  {
    TagOf(name, t, more, children, u);
    AttributeIs(Skip(t), a, q);
    OneAttribute(Skip(t), a, q);
    hide Skip, TagTo, AttributeTo, ContentTo, ParseAttribute, SpaceTo;
  }

  lemma NextName(had: seq<Attribute>, all: seq<Attribute>, a: Attribute)
    ensures had <= all && |had| < |all| && all[|had|] == a && NewNames(had, all[|had|..]) <==>
              !Has(had, a.name) && had + [a] <= all && NewNames(had + [a], all[|had + [a]|..])
  {
    if had <= all && |had| < |all| {
      assert all[|had|..][0] == all[|had|] && all[|had|..][1..] == all[|had| + 1..];
      assert all[|had|] == a <==> had + [a] <= all;
    }
    hide Has;
  }

  lemma ParseTagAttribute(name: string, had: seq<Attribute>, t: string, a: Attribute, q: string)
    requires Skip(t) != "" && Skip(t)[0] != '>' && Skip(t)[0] != '/' && ParseAttribute(Skip(t)) == Parsed(a, q)
    ensures ParseTag(name, had, t) == if q == "" || Has(had, a.name) then Failed else ParseTag(name, had + [a], q)
  {
    hide Skip, ParseAttribute, Has;
  }

  lemma NextInPlace(had: seq<Attribute>, all: seq<Attribute>, a: Attribute)
    requires had <= all && |had| < |all|
    ensures all[|had|..][0] == all[|had|] && all[|had|..][1..] == all[|had + [a]|..]
    ensures had + [a] <= all <==> all[|had|] == a
  {
  }

  lemma FoundNext(name: string, had: seq<Attribute>, t: string, n: Node, u: string, a: Attribute, q: string)
    requires Skip(t) != "" && Skip(t)[0] != '>' && Skip(t)[0] != '/' && ParseAttribute(Skip(t)) == Parsed(a, q)
    ensures TagFound(name, had, t, n, u) <==> !Has(had, a.name) && TagFound(name, had + [a], q, n, u)
  {
    hide Skip, TagTo, ParseAttribute, NewNames, Has;
    if n.Element? {
      NextName(had, n.attributes, a);
      if had <= n.attributes {
        AttributeFirst(name, t, n.attributes[|had|..], n.children, u, a, q);
        if |had| < |n.attributes| { NextInPlace(had, n.attributes, a); }
      }
    }
  }

  lemma NextAttributeIs(name: string, had: seq<Attribute>, t: string, n: Node, u: string, a: Attribute, q: string)
    requires Skip(t) != "" && Skip(t)[0] != '>' && Skip(t)[0] != '/'
    requires ParseAttribute(Skip(t)) == Parsed(a, q)
    requires TagFound(name, had + [a], q, n, u) <==> ParseTag(name, had + [a], q) == Parsed(n, u)
    ensures TagFound(name, had, t, n, u) <==> ParseTag(name, had, t) == Parsed(n, u)
  {
    hide *;
    FoundNext(name, had, t, n, u, a, q);
    NoRest(q);
    if q == "" { NoTag(name, had + [a], q, n, u); }
    ParseTagAttribute(name, had, t, a, q);
  }

  lemma NoRest(q: string)
    ensures q == "" ==> Skip(q) == ""
  {
  }

  lemma OneAttribute(p: string, a: Attribute, q: string)
    requires ParseAttribute(p) == Parsed(a, q)
    ensures forall b, r | AttributeTo(p, b, r) :: b == a && r == q
  {
    hide AttributeTo, ParseAttribute;
    forall b, r | AttributeTo(p, b, r) ensures b == a && r == q { AttributeIs(p, b, r); }
  }

  lemma NoAttributeIs(name: string, had: seq<Attribute>, t: string, n: Node, u: string)
    requires Skip(t) != "" && Skip(t)[0] != '>' && Skip(t)[0] != '/' && !ParseAttribute(Skip(t)).Parsed?
    ensures !TagFound(name, had, t, n, u) && !ParseTag(name, had, t).Parsed?
  {
    forall b, r ensures !AttributeTo(Skip(t), b, r) { AttributeIs(Skip(t), b, r); }
    if n.Element? && had <= n.attributes {
      TagOf(name, t, n.attributes[|had|..], n.children, u);
    }
    hide Skip, TagTo, AttributeTo, ParseAttribute;
  }

  lemma {:induction false} TagIs(name: string, had: seq<Attribute>, t: string, n: Node, u: string)
    ensures TagFound(name, had, t, n, u) <==> ParseTag(name, had, t) == Parsed(n, u)
    decreases |t|, 1
  {
    hide *;
    if !n.Element? {
      NotElement(name, had, t, n, u);
    } else if Skip(t) == "" {
      NoTag(name, had, t, n, u);
    } else if Skip(t)[0] == '/' {
      EmptyTagIs(name, had, t, n, u);
    } else if Skip(t)[0] == '>' {
      var e := "</" + (name + (">" + u));
      var none: seq<Node> := [];
      ContentIs(none, Skip(t)[1..], n.children, e);
      assert n.children[|none|..] == n.children;
      ContentTagIs(name, had, t, n, u, e);
    } else {
      match ParseAttribute(Skip(t))
      case Parsed(a, q) =>
        TagIs(name, had + [a], q, n, u);
        NextAttributeIs(name, had, t, n, u, a, q);
      case _ => NoAttributeIs(name, had, t, n, u);
    }
  }

  lemma NotElement(name: string, had: seq<Attribute>, t: string, n: Node, u: string)
    requires !n.Element?
    ensures !TagFound(name, had, t, n, u) && ParseTag(name, had, t) != Parsed(n, u)
  {
    hide Skip;
  }

  /** The relation with the white space already passed. */
  ghost predicate ContentAt(t: string, p: string, nodes: seq<Node>, u: string)
    requires p != "" && |p| <= |t|
  {
    if p[0] != '<' then
      exists text, r ::
        ReadText(t, "<", UnknownEncoding) == Got(text, r) && |r| + 1 < |t| &&
        if Blank(text) then ContentTo("<" + r, nodes, u)
        else nodes != [] && nodes[0] == Text(text) && ContentTo("<" + r, nodes[1..], u)
    else if |p| > 1 && p[1] == '/' then nodes == [] && u == p
    else nodes != [] && |p| > 1 && NameStart(p[1]) && exists r :: |r| < |t| && ElementTo(p, nodes[0], r) && ContentTo(r, nodes[1..], u)
  }

  lemma TextsAre(t: string, endTag: string)
    requires endTag != ""
    ensures forall text, r :: TextTo(t, endTag, text, r, UnknownEncoding) <==> ReadText(t, endTag, UnknownEncoding) == Got(text, r)
  {
    hide *;
    forall text, r ensures TextTo(t, endTag, text, r, UnknownEncoding) <==> ReadText(t, endTag, UnknownEncoding) == Got(text, r) {
      TextIs(t, endTag, text, r, UnknownEncoding);
    }
  }

  lemma ContentOf(t: string, nodes: seq<Node>, u: string)
    ensures ContentTo(t, nodes, u) <==> Skip(t) != "" && ContentAt(t, Skip(t), nodes, u)
  {
    hide SpaceTo, Skip, ElementTo, ReadText, TextTo, Blank, NameStart, Starts, ReadValue, ParseElement;
    OnlySkip(t);
    TextsAre(t, "<");
  }

  lemma NoContent(had: seq<Node>, t: string, nodes: seq<Node>, u: string)
    requires Skip(t) == ""
    ensures !ContentTo(t, nodes, u) && ReadValue(had, t) == Failed
  {
    ContentOf(t, nodes, u);
    hide Skip, ContentTo;
  }

  lemma NextNode(had: seq<Node>, nodes: seq<Node>, n: Node)
    requires had <= nodes
    ensures nodes[|had|..] != [] && nodes[|had|..][0] == n <==> had + [n] <= nodes
    ensures |had| < |nodes| ==> nodes[|had|..][1..] == nodes[|had + [n]|..]
  {
    if |had| < |nodes| { assert nodes[|had|..][0] == nodes[|had|]; }
  }

  lemma TextFirst(t: string, nodes: seq<Node>, u: string, text: string, r: string)
    requires Skip(t) != "" && Skip(t)[0] != '<' && ReadText(t, "<", UnknownEncoding) == Got(text, r) && |r| + 1 < |t|
    ensures ContentTo(t, nodes, u) <==>
              if Blank(text) then ContentTo("<" + r, nodes, u)
              else nodes != [] && nodes[0] == Text(text) && ContentTo("<" + r, nodes[1..], u)
  {
    ContentOf(t, nodes, u);
    hide Skip, ContentTo, ElementTo, ReadText, Blank;
  }

  lemma ReadValueText(had: seq<Node>, t: string, text: string, r: string)
    requires Skip(t) != "" && Skip(t)[0] != '<' && ReadText(t, "<", UnknownEncoding) == Got(text, r)
    ensures ReadValue(had, t) == ReadValue(if Blank(text) then had else had + [Text(text)], "<" + r)
  {
    hide Skip, ReadText, Blank;
  }

  lemma LeadingTextIs(had: seq<Node>, t: string, nodes: seq<Node>, u: string, text: string, r: string)
    requires Skip(t) != "" && Skip(t)[0] != '<' && ReadText(t, "<", UnknownEncoding) == Got(text, r) && |r| + 1 < |t|
    requires var now := if Blank(text) then had else had + [Text(text)];
             now <= nodes && ContentTo("<" + r, nodes[|now|..], u) <==> ReadValue(now, "<" + r) == Parsed(nodes, u)
    ensures had <= nodes && ContentTo(t, nodes[|had|..], u) <==> ReadValue(had, t) == Parsed(nodes, u)
  {
    hide *;
    if had <= nodes {
      TextFirst(t, nodes[|had|..], u, text, r);
      NextNode(had, nodes, Text(text));
    }
    ReadValueText(had, t, text, r);
  }

  lemma NoTextIs(had: seq<Node>, t: string, nodes: seq<Node>, u: string)
    requires Skip(t) != "" && Skip(t)[0] != '<' && !ReadText(t, "<", UnknownEncoding).Got?
    ensures !ContentTo(t, nodes, u) && ReadValue(had, t) == Failed
  {
    ContentOf(t, nodes, u);
    hide Skip, ContentTo, ReadText, Blank;
  }

  lemma ContentEmpty(t: string, nodes: seq<Node>, u: string)
    requires |Skip(t)| > 1 && Skip(t)[0] == '<' && Skip(t)[1] == '/'
    ensures ContentTo(t, nodes, u) <==> nodes == [] && u == Skip(t)
  {
    hide ContentTo, ElementTo, Skip, Blank, NameStart, TextTo, ReadText, SpaceTo;
    ContentOf(t, nodes, u);
  }

  lemma ReadValueEnds(had: seq<Node>, t: string)
    requires Starts(Skip(t), "</")
    ensures |Skip(t)| > 1 && Skip(t)[0] == '<' && Skip(t)[1] == '/' && ReadValue(had, t) == Parsed(had, Skip(t))
  {
    assert Skip(t)[0] == "</"[0] && Skip(t)[1] == "</"[1];
    hide Skip;
  }

  lemma ContentEnds(had: seq<Node>, t: string, nodes: seq<Node>, u: string)
    requires Starts(Skip(t), "</")
    ensures had <= nodes && ContentTo(t, nodes[|had|..], u) <==> ReadValue(had, t) == Parsed(nodes, u)
  {
    hide *;
    ReadValueEnds(had, t);
    if had <= nodes {
      ContentEmpty(t, nodes[|had|..], u);
      assert nodes[|had|..] == [] <==> nodes == had;
    }
  }

  lemma NoSlash(p: string)
    requires |p| > 1 && p[0] == '<' && !Starts(p, "</")
    ensures p[1] != '/'
  {
    assert p[..2] == [p[0], p[1]];
  }

  lemma ChildFirst(t: string, nodes: seq<Node>, u: string, n: Node, r: string)
    requires Skip(t) != "" && Skip(t)[0] == '<' && !Starts(Skip(t), "</") && |Skip(t)| > 1 && NameStart(Skip(t)[1])
    requires |r| < |t| && forall m, q :: ElementTo(Skip(t), m, q) <==> m == n && q == r
    ensures ContentTo(t, nodes, u) <==> nodes != [] && nodes[0] == n && ContentTo(r, nodes[1..], u)
  {
    hide Skip, ContentTo, ElementTo, NameStart, ReadText, TextTo, SpaceTo, Blank, Starts;
    NoSlash(Skip(t));
    ContentOf(t, nodes, u);
  }

  lemma ReadValueChild(had: seq<Node>, t: string, n: Node, r: string)
    requires Skip(t) != "" && Skip(t)[0] == '<' && !Starts(Skip(t), "</") && |Skip(t)| > 1 && NameStart(Skip(t)[1])
    requires ParseElement(Skip(t)) == Parsed(n, r)
    ensures |r| < |t| && ReadValue(had, t) == ReadValue(had + [n], r)
  {
    hide Skip, ParseElement, NameStart;
  }

  lemma ChildIs(had: seq<Node>, t: string, nodes: seq<Node>, u: string, n: Node, r: string)
    requires Skip(t) != "" && Skip(t)[0] == '<' && !Starts(Skip(t), "</") && |Skip(t)| > 1 && NameStart(Skip(t)[1])
    requires ParseElement(Skip(t)) == Parsed(n, r)
    requires forall m, q :: ElementTo(Skip(t), m, q) <==> m == n && q == r
    requires had + [n] <= nodes && ContentTo(r, nodes[|had + [n]|..], u) <==> ReadValue(had + [n], r) == Parsed(nodes, u)
    ensures had <= nodes && ContentTo(t, nodes[|had|..], u) <==> ReadValue(had, t) == Parsed(nodes, u)
  {
    hide *;
    ReadValueChild(had, t, n, r);
    if had <= nodes {
      ChildFirst(t, nodes[|had|..], u, n, r);
      NextNode(had, nodes, n);
    }
  }

  lemma NoChildFirst(t: string, nodes: seq<Node>, u: string)
    requires Skip(t) != "" && Skip(t)[0] == '<' && !Starts(Skip(t), "</")
    requires |Skip(t)| > 1 && NameStart(Skip(t)[1]) ==> forall m, q :: !ElementTo(Skip(t), m, q)
    ensures !ContentTo(t, nodes, u)
  {
    hide Skip, ContentTo, ElementTo, NameStart, ReadText, TextTo, SpaceTo, Blank, Starts;
    if |Skip(t)| > 1 { NoSlash(Skip(t)); }
    ContentOf(t, nodes, u);
  }

  lemma NoChildIs(had: seq<Node>, t: string, nodes: seq<Node>, u: string)
    requires Skip(t) != "" && Skip(t)[0] == '<' && !Starts(Skip(t), "</")
    requires |Skip(t)| > 1 && NameStart(Skip(t)[1]) ==> !ParseElement(Skip(t)).Parsed? && forall m, q :: !ElementTo(Skip(t), m, q)
    ensures !ContentTo(t, nodes, u) && !ReadValue(had, t).Parsed?
  {
    hide Skip, ParseElement, NameStart, Starts, ElementTo, ContentTo;
    NoChildFirst(t, nodes, u);
  }

  lemma {:induction false} ContentIs(had: seq<Node>, t: string, nodes: seq<Node>, u: string)
    ensures had <= nodes && ContentTo(t, nodes[|had|..], u) <==> ReadValue(had, t) == Parsed(nodes, u)
    decreases |t|, 2
  {
    hide *;
    var p := Skip(t);
    if p == "" {
      if had <= nodes { NoContent(had, t, nodes[|had|..], u); } else { NoContent(had, t, [], u); }
    } else if p[0] != '<' {
      match ReadText(t, "<", UnknownEncoding)
      case Got(text, r) =>
        TextShrinks(t);
        ContentIs(if Blank(text) then had else had + [Text(text)], "<" + r, nodes, u);
        LeadingTextIs(had, t, nodes, u, text, r);
      case _ => if had <= nodes { NoTextIs(had, t, nodes[|had|..], u); } else { NoTextIs(had, t, [], u); }
    } else if Starts(p, "</") {
      ContentEnds(had, t, nodes, u);
    } else {
      forall m, q ensures ElementTo(p, m, q) <==> ParseElement(p) == Parsed(m, q) { ElementIs(p, m, q); }
      if |p| > 1 && NameStart(p[1]) && ParseElement(p).Parsed? {
        var n, r := ParseElement(p).value, ParseElement(p).rest;
        ContentIs(had + [n], r, nodes, u);
        ChildIs(had, t, nodes, u, n, r);
      } else {
        if had <= nodes { NoChildIs(had, t, nodes[|had|..], u); } else { NoChildIs(had, t, [], u); }
      }
    }
  }

  lemma OneName(m: string, name: string, q: string)
    requires ReadName(m) == Parsed(name, q)
    ensures NameTo(m, name, q) && forall other, r | NameTo(m, other, r) :: other == name && r == q
  {
    hide NameTo, ReadName;
    NameIs(m, name, q);
    forall other, r | NameTo(m, other, r) ensures other == name && r == q { NameIs(m, other, r); }
  }

  lemma ParseElementOf(t: string, name: string, q: string)
    requires Skip(t) != "" && Skip(t)[0] == '<' && ReadName(Skip(Skip(t)[1..])) == Parsed(name, q)
    ensures ParseElement(t) == ParseTag(name, [], q) && |q| < |t|
  {
    hide Skip, ReadName;
    NoRest(q);
  }

  lemma TagNameIs(t: string, name: string, q: string)
    requires Skip(t) != "" && Skip(t)[0] == '<' && ReadName(Skip(Skip(t)[1..])) == Parsed(name, q)
    ensures TagNameTo(t, name, q) && forall other, r | TagNameTo(t, other, r) :: other == name && r == q
  {
    var p := Skip(t);
    OnlySkip(t);
    OnlySkip(p[1..]);
    OneName(Skip(p[1..]), name, q);
    hide SpaceTo, NameTo, Skip, ReadName;
  }

  lemma NoTagName(t: string, name: string, q: string)
    requires Skip(t) != "" && Skip(t)[0] == '<' ==> !ReadName(Skip(Skip(t)[1..])).Parsed?
    ensures !TagNameTo(t, name, q)
  {
    OnlySkip(t);
    if Skip(t) != "" && Skip(t)[0] == '<' {
      OnlySkip(Skip(t)[1..]);
      NameIs(Skip(Skip(t)[1..]), name, q);
    }
    hide SpaceTo, NameTo, Skip, ReadName;
  }

  lemma ElementOf(t: string, n: Node, u: string, name: string, q: string)
    requires TagNameTo(t, name, q) && |q| < |t| && forall other, r | TagNameTo(t, other, r) :: other == name && r == q
    ensures ElementTo(t, n, u) <==> n.Element? && n.name == name && DifferentNames(n.attributes) && TagTo(name, q, n.attributes, n.children, u)
  {
    hide TagNameTo, DifferentNames, TagTo;
  }

  lemma NoElement(t: string, n: Node, u: string)
    requires Skip(t) != "" && Skip(t)[0] == '<' ==> !ReadName(Skip(Skip(t)[1..])).Parsed?
    ensures !ElementTo(t, n, u) && ParseElement(t) == Failed
  {
    if n.Element? {
      forall q ensures !TagNameTo(t, n.name, q) { NoTagName(t, n.name, q); }
    }
    hide TagNameTo, Skip, ReadName, DifferentNames, TagTo;
  }

  /** No attributes had been read before. */
  lemma TagFromStart(name: string, t: string, n: Node, u: string)
    ensures TagFound(name, [], t, n, u) <==>
              n.Element? && n.name == name && DifferentNames(n.attributes) && TagTo(name, t, n.attributes, n.children, u)
  {
    if n.Element? {
      var none: seq<Attribute> := [];
      assert n.attributes[|none|..] == n.attributes && none + n.attributes == n.attributes;
      NewNamesDiffer(none, n.attributes);
    }
    hide TagTo, DifferentNames, NewNames;
  }

  /**
    An element is read, and just up to u, exactly if one stands there: tag, attributes of different names,
    and the end of an empty tag or content and the end tag of the same name.
   */
  lemma {:induction false} ElementIs(t: string, n: Node, u: string)
    ensures ElementTo(t, n, u) <==> ParseElement(t) == Parsed(n, u)
    decreases |t|, 0
  {
    hide *;
    if Skip(t) != "" && Skip(t)[0] == '<' {
      match ReadName(Skip(Skip(t)[1..]))
      case Parsed(name, q) =>
        ParseElementOf(t, name, q);
        TagNameIs(t, name, q);
        ElementOf(t, n, u, name, q);
        TagIs(name, [], q, n, u);
        TagFromStart(name, q, n, u);
      case _ => NoElement(t, n, u);
    } else {
      NoElement(t, n, u);
    }
  }

  //
  // Documents.
  //

  lemma ElementsAre(p: string)
    ensures forall m, q :: ElementTo(p, m, q) <==> ParseElement(p) == Parsed(m, q)
  {
    hide *;
    forall m, q ensures ElementTo(p, m, q) <==> ParseElement(p) == Parsed(m, q) { ElementIs(p, m, q); }
  }

  lemma NoElements(t: string, nodes: seq<Node>, u: string)
    requires Skip(t) == "" || Skip(t)[0] != '<'
    ensures ElementsTo(t, nodes, u) <==> nodes == [] && u == Skip(t)
  {
    hide SpaceTo, Skip, ElementTo, NameStart;
    OnlySkip(t);
  }

  lemma FirstElement(t: string, nodes: seq<Node>, u: string, n: Node, r: string)
    requires |Skip(t)| > 1 && Skip(t)[0] == '<' && NameStart(Skip(t)[1])
    requires |r| < |t| && forall m, q :: ElementTo(Skip(t), m, q) <==> m == n && q == r
    ensures ElementsTo(t, nodes, u) <==> nodes != [] && nodes[0] == n && ElementsTo(r, nodes[1..], u)
  {
    hide SpaceTo, Skip, ElementTo, NameStart;
    OnlySkip(t);
  }

  lemma NoFirstElement(t: string, nodes: seq<Node>, u: string)
    requires Skip(t) != "" && Skip(t)[0] == '<'
    requires |Skip(t)| > 1 && NameStart(Skip(t)[1]) ==> forall m, q :: !ElementTo(Skip(t), m, q)
    ensures !ElementsTo(t, nodes, u)
  {
    hide SpaceTo, Skip, ElementTo, NameStart;
    OnlySkip(t);
  }

  lemma ParseDocumentEnds(had: seq<Node>, t: string)
    requires Skip(t) == "" || Skip(t)[0] != '<'
    ensures ParseDocument(had, t) == if had == [] then Failed else Parsed(had, Skip(t))
  {
    hide Skip;
  }

  lemma ParseDocumentNext(had: seq<Node>, t: string)
    requires Skip(t) != "" && Skip(t)[0] == '<'
    ensures var r := ParseElement(Skip(t));
            if |Skip(t)| > 1 && NameStart(Skip(t)[1]) && r.Parsed? then |r.rest| < |t| && ParseDocument(had, t) == ParseDocument(had + [r.value], r.rest)
            else !ParseDocument(had, t).Parsed?
  {
    hide Skip, ParseElement, NameStart;
  }

  lemma {:induction false} ElementsAfter(had: seq<Node>, t: string, nodes: seq<Node>, u: string)
    ensures nodes != [] && had <= nodes && ElementsTo(t, nodes[|had|..], u) <==> ParseDocument(had, t) == Parsed(nodes, u)
    decreases |t|
  {
    hide *;
    var p := Skip(t);
    if p == "" || p[0] != '<' {
      ParseDocumentEnds(had, t);
      if had <= nodes {
        NoElements(t, nodes[|had|..], u);
        assert nodes[|had|..] == [] <==> nodes == had;
      }
    } else {
      ParseDocumentNext(had, t);
      ElementsAre(p);
      if |p| > 1 && NameStart(p[1]) && ParseElement(p).Parsed? {
        var n, r := ParseElement(p).value, ParseElement(p).rest;
        ElementsAfter(had + [n], r, nodes, u);
        if had <= nodes {
          FirstElement(t, nodes[|had|..], u, n, r);
          NextNode(had, nodes, n);
        }
      } else if had <= nodes {
        NoFirstElement(t, nodes[|had|..], u);
      }
    }
  }

  lemma NoDocument(nodes: seq<Node>, u: string)
    ensures !DocumentTo("", nodes, u)
  {
    OnlySkip("");
    hide SpaceTo, Starts;
  }

  /** A document is read, and up to u, exactly if one stands there. */
  lemma DocumentIs(t: string, nodes: seq<Node>, u: string)
    ensures DocumentTo(t, nodes, u) <==> ParseAll(t) == Parsed(nodes, u)
  {
    hide ElementsTo, Starts, ParseDocument;
    if t == "" {
      NoDocument(nodes, u);
    } else {
      var none: seq<Node> := [];
      ElementsAfter(none, t, nodes, u);
      assert nodes[|none|..] == nodes;
    }
  }

  //
  // End tags of other elements.
  //

  /** Attributes and the end of a tag that is not empty. */
  ghost predicate OpenTo(t: string, attributes: seq<Attribute>, u: string)
    decreases |t|
  {
    exists p :: SpaceTo(t, p) && p != "" &&
      if p[0] == '>' then attributes == [] && u == p[1..]
      else p[0] != '/' && attributes != [] && exists q :: AttributeTo(p, attributes[0], q) && |q| < |t| && OpenTo(q, attributes[1..], u)
  }

  lemma OpenOf(t: string, attributes: seq<Attribute>, u: string) returns (q: string)
    requires OpenTo(t, attributes, u)
    ensures Skip(t) != ""
    ensures if Skip(t)[0] == '>' then u == Skip(t)[1..]
            else Skip(t)[0] != '/' && attributes != [] && AttributeTo(Skip(t), attributes[0], q) && |q| < |t| && OpenTo(q, attributes[1..], u)
  {
    hide SpaceTo, Skip, AttributeTo;
    OnlySkip(t);
    var p := Skip(t);
    q := "";
    if p[0] != '>' {
      q :| AttributeTo(p, attributes[0], q) && |q| < |t| && OpenTo(q, attributes[1..], u);
    }
  }

  lemma ParseTagMismatch(name: string, had: seq<Attribute>, t: string, children: seq<Node>, e: string)
    requires Skip(t) != "" && Skip(t)[0] == '>' && ReadValue([], Skip(t)[1..]) == Parsed(children, e) && !Starts(e, EndTag(name))
    ensures ParseTag(name, had, t) == Failed
  {
    hide Skip, ReadValue, EndTag, Starts;
  }

  lemma {:induction false} TagMismatch(name: string, had: seq<Attribute>, t: string, attributes: seq<Attribute>, v: string, children: seq<Node>, e: string)
    requires OpenTo(t, attributes, v) && ContentTo(v, children, e) && !Starts(e, "</" + (name + ">"))
    ensures ParseTag(name, had, t) == Failed
    decreases |t|
  {
    assert EndTag(name) == "</" + (name + ">");
    hide *;
    var q := OpenOf(t, attributes, v);
    if Skip(t)[0] == '>' {
      var none: seq<Node> := [];
      ContentIs(none, v, children, e);
      assert children[|none|..] == children;
      ParseTagMismatch(name, had, t, children, e);
    } else {
      AttributeIs(Skip(t), attributes[0], q);
      ParseTagAttribute(name, had, t, attributes[0], q);
      TagMismatch(name, had + [attributes[0]], q, attributes[1..], v, children, e);
    }
  }

  /** An element whose content ends in the end tag of another one is none. */
  lemma MismatchFails(t: string, name: string, q: string, attributes: seq<Attribute>, v: string, children: seq<Node>, e: string)
    requires TagNameTo(t, name, q) && OpenTo(q, attributes, v) && ContentTo(v, children, e) && !Starts(e, "</" + (name + ">"))
    ensures ParseElement(t) == Failed
  {
    hide *;
    TagMismatch(name, [], q, attributes, v, children, e);
    if Skip(t) != "" && Skip(t)[0] == '<' && ReadName(Skip(Skip(t)[1..])).Parsed? {
      var r := ReadName(Skip(Skip(t)[1..]));
      TagNameIs(t, r.value, r.rest);
      ParseElementOf(t, name, q);
    } else {
      NoTagName(t, name, q);
    }
  }

  lemma OneLetterName(c: char, u: string)
    requires 'a' <= c <= 'z' && u != "" && !NameChar(u[0])
    ensures ReadName([c] + u) == Parsed([c], u) && Skip([c] + u) == [c] + u && Skip(['<', c] + u) == ['<', c] + u
  {
    var t := [c] + u;
    assert t[1..] == u && t[..1] == [c];
    assert NameLength(u) == 0;
    assert NameLength(t) == 1;
  }

  lemma OneLetterTag(c: char, u: string)
    requires 'a' <= c <= 'z' && u != "" && !NameChar(u[0])
    ensures ParseElement(['<', c] + u) == ParseTag([c], [], u)
  {
    hide *;
    var t := ['<', c] + u;
    OneLetterName(c, u);
    assert t[1..] == [c] + u;
    ParseElementOf(t, [c], u);
  }

  lemma NoSpaceFirst(t: string)
    requires t != "" && !IsSpace(t[0])
    ensures Skip(t) == t
  {
  }

  lemma ParseTagFails(name: string, had: seq<Attribute>, t: string)
    requires Skip(t) != "" && Skip(t)[0] == '>' && ReadValue([], Skip(t)[1..]) == Failed
    ensures ParseTag(name, had, t) == Failed
  {
    hide Skip, ReadValue;
  }

  lemma ReadValueFails(had: seq<Node>, t: string)
    requires |Skip(t)| > 1 && Skip(t)[0] == '<' && !Starts(Skip(t), "</") && NameStart(Skip(t)[1]) && ParseElement(Skip(t)) == Failed
    ensures ReadValue(had, t) == Failed
  {
    hide Skip, ParseElement, NameStart, Starts;
  }

  lemma NoSpaces()
    ensures !IsSpace('<') && !IsSpace('>') && !NameChar('>') && NameStart('b')
  {
  }

  lemma AfterBracket(u: string)
    requires u != "" && u[0] == '<'
    ensures Skip(u) == u && Skip(">" + u) == ">" + u && (">" + u)[1..] == u && (">" + u)[0] == '>' && !NameChar('>')
  {
    NoSpaces();
    NoSpaceFirst(u);
    NoSpaceFirst(">" + u);
  }

  lemma EmptyMismatch(c: char, e: string)
    requires 'a' <= c <= 'z' && |e| > 1 && e[0] == '<' && Starts(e, "</") && !Starts(e, EndTag([c]))
    ensures ParseElement(['<', c] + (">" + e)) == Failed
  {
    hide *;
    AfterBracket(e);
    ReadValueEnds([], e);
    ParseTagMismatch([c], [], ">" + e, [], e);
    OneLetterTag(c, ">" + e);
  }

  lemma ChildFails(c: char, u: string)
    requires 'a' <= c <= 'z' && |u| > 1 && u[0] == '<' && !Starts(u, "</") && NameStart(u[1]) && ParseElement(u) == Failed
    ensures ParseElement(['<', c] + (">" + u)) == Failed
  {
    hide *;
    AfterBracket(u);
    ReadValueFails([], u);
    ParseTagFails([c], [], ">" + u);
    OneLetterTag(c, ">" + u);
  }

  lemma EndTagsDiffer()
    ensures Starts("</a>", "</") && !Starts("</a>", EndTag("b")) && !Starts("<b></a>", "</") && NameStart('b')
  {
    NoSpaces();
    assert EndTag("b")[2] == 'b';
    Differs("</a>", EndTag("b"), 2);
    Differs("<b></a>", "</", 1);
  }

  /** The end tag of the outer element is no end of the inner one. */
  lemma UnclosedChild()
    ensures ParseElement("<a><b></a>") == Failed
  {
    EndTagsDiffer();
    hide *;
    EmptyMismatch('b', "</a>");
    assert ['<', 'b'] + (">" + "</a>") == "<b></a>";
    ChildFails('a', "<b></a>");
    assert ['<', 'a'] + (">" + "<b></a>") == "<a><b></a>";
  }
}
