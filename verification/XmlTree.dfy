/**
  Names, attributes and elements of TinyXML: what the printer writes in stream mode and what the
  recursive-descent parser makes of it, byte by byte (the default, unknown encoding). Pointers that
  are null and pointers to the terminating zero are both the empty string: no caller tells them apart.
 */
module XmlTree {
  import opened XmlText

  datatype Attribute = Attribute(name: string, value: string)

  datatype Node = Element(name: string, attributes: seq<Attribute>, children: seq<Node>) | Text(value: string)

  /** What parsing comes to; Other where a node of another kind begins, which is not modelled. */
  datatype Parse<+T> = Failed | Other | Parsed(value: T, rest: string)

  //
  // Characters.
  //

  predicate IsSpace(c: char) {
    c == ' ' || 9 as char <= c <= 13 as char
  }

  predicate IsAlpha(c: char) {
    'a' <= c <= 'z' || 'A' <= c <= 'Z' || c >= 127 as char
  }

  predicate NameStart(c: char) {
    IsAlpha(c) || c == '_'
  }

  predicate NameChar(c: char) {
    IsAlpha(c) || '0' <= c <= '9' || c == '_' || c == '-' || c == '.' || c == ':'
  }

  function Skip(t: string): (r: string)
    ensures |r| <= |t|
    ensures r != "" ==> !IsSpace(r[0])
    ensures t != "" && !IsSpace(t[0]) ==> r == t
  {
    if t != "" && IsSpace(t[0]) then Skip(t[1..]) else t
  }

  function NameLength(t: string): (n: nat)
    ensures n <= |t|
    ensures forall i | 0 <= i < n :: NameChar(t[i])
    ensures n < |t| ==> !NameChar(t[n])
  {
    if t != "" && NameChar(t[0]) then 1 + NameLength(t[1..]) else 0
  }

  function ReadName(t: string): (r: Parse<string>)
    ensures r.Parsed? ==> |r.rest| < |t|
    ensures !r.Other?
  {
    if t != "" && NameStart(t[0]) then Parsed(t[..NameLength(t)], t[NameLength(t)..]) else Failed
  }

  predicate Blank(s: string) {
    forall i | 0 <= i < |s| :: IsSpace(s[i])
  }

  //
  // Attributes.
  //

  const NO_ATTRIBUTE := Attribute("", "")

  /**
    How far First and Next go from attribute i: Next takes an attribute whose name and value are both
    empty for the end of the list.
   */
  function PassCount(attributes: seq<Attribute>, i: nat): (n: nat)
    requires i <= |attributes|
    ensures i <= n <= |attributes|
    ensures n < |attributes| ==> n > 0 && attributes[n] == NO_ATTRIBUTE
    ensures forall k | i <= k < n && k > 0 :: attributes[k] != NO_ATTRIBUTE
    decreases |attributes| - i
  {
    if i == |attributes| || (i > 0 && attributes[i] == NO_ATTRIBUTE) then i else PassCount(attributes, i + 1)
  }

  /** The attributes that First and Next lead to. */
  function Passed(attributes: seq<Attribute>): seq<Attribute> {
    attributes[..PassCount(attributes, 0)]
  }

  /** These are all of them exactly if none but the first is empty. */
  lemma PassedIff(attributes: seq<Attribute>)
    ensures Passed(attributes) == attributes <==> forall i | 1 <= i < |attributes| :: attributes[i] != NO_ATTRIBUTE
  {
    var n := PassCount(attributes, 0);
    if n < |attributes| { assert attributes[n] == NO_ATTRIBUTE; }
  }

  /** Double quotes unless the value has one. */
  function Quote(value: string): string {
    if '\"' !in value then "\"" else "\'"
  }

  /** The quotes are in the value only if both kinds are. */
  lemma QuoteFits(value: string)
    ensures Quote(value) == "\"" || Quote(value) == "\'"
    ensures Quote(value)[0] in value <==> '\"' in value && '\'' in value
    ensures '\"' !in value && '\'' !in value ==> Quote(value) == "\""
  {
  }

  function Quoted(value: string): string {
    Quote(value) + (Encode(value) + Quote(value))
  }

  function PrintAttribute(a: Attribute): string {
    Encode(a.name) + ("=" + Quoted(a.value))
  }

  /** A value without quotes reaches to white space or the end of the tag; a quote in it is an error. */
  function Unquoted(t: string): (r: Parse<string>)
    ensures r.Parsed? ==> |r.rest| <= |t|
    ensures !r.Other?
  {
    if t == "" || IsSpace(t[0]) || t[0] == '/' || t[0] == '>' then Parsed("", t)
    else if t[0] == '\'' || t[0] == '\"' then Failed
    else
      var r := Unquoted(t[1..]);
      if r.Parsed? then Parsed([t[0]] + r.value, r.rest) else r
  }

  /** The value and how far it goes. A value with no closing quote takes the pointer past the zero: left out. */
  function Value(r: Read<string>): (v: Parse<string>)
    ensures v.Parsed? ==> r.Got? && v.rest == r.rest
  {
    match r
    case Got(v, rest) => Parsed(v, rest)
    case Null => Failed
    case Overrun => Other
  }

  function ParseValue(t: string): (r: Parse<string>)
    requires t != ""
    ensures r.Parsed? ==> |r.rest| <= |t|
  {
    if t[0] == '\'' then Value(ReadText(t[1..], "\'", UnknownEncoding))
    else if t[0] == '\"' then Value(ReadText(t[1..], "\"", UnknownEncoding))
    else Unquoted(t)
  }

  function ParseAttribute(t: string): (r: Parse<Attribute>)
    ensures r.Parsed? ==> |r.rest| < |t|
  {
    match ReadName(Skip(t))
    case Failed => Failed
    case Other => Other
    case Parsed(name, p) =>
      var q := Skip(p);
      if q == "" || q[0] != '=' then Failed
      else
        var v := Skip(q[1..]);
        if v == "" then Failed
        else match ParseValue(v)
          case Failed => Failed
          case Other => Other
          case Parsed(value, rest) => Parsed(Attribute(name, value), rest)
  }

  //
  // Elements.
  //

  function PrintAttributes(attributes: seq<Attribute>): string {
    if attributes == [] then "" else " " + (PrintAttribute(attributes[0]) + PrintAttributes(attributes[1..]))
  }

  function EndTag(name: string): string {
    "</" + (name + ">")
  }

  /** What the printer puts before each line, once for every level, and after it. In stream mode both are empty. */
  datatype Style = Style(indent: string, lineBreak: string)

  const STREAM := Style("", "")

  function Indents(style: Style, depth: nat): string {
    if depth == 0 then "" else style.indent + Indents(style, depth - 1)
  }

  /** The only child is a text, which is then printed without a line of its own. */
  predicate Simple(children: seq<Node>) {
    |children| == 1 && children[0].Text?
  }

  function Print(node: Node, depth: nat, style: Style): string
    decreases node, 1
  {
    match node
    case Text(value) => Indents(style, depth) + (Encode(value) + style.lineBreak)
    case Element(name, attributes, children) =>
      Indents(style, depth) + ("<" + (CStr(name) + (PrintAttributes(Passed(attributes)) + PrintContent(node, depth, style))))
  }

  /** The rest of an element after its attributes. */
  function PrintContent(node: Node, depth: nat, style: Style): string
    requires node.Element?
    decreases node, 0
  {
    var children := node.children;
    if children == [] then
      " />" + style.lineBreak
    else if Simple(children) then
      ">" + (Encode(children[0].value) + (EndTag(CStr(node.name)) + style.lineBreak))
    else
      ">" + (style.lineBreak + (PrintAll(children, depth + 1, style) + (Indents(style, depth) + (EndTag(CStr(node.name)) + style.lineBreak))))
  }

  function PrintAll(nodes: seq<Node>, depth: nat, style: Style): string
    decreases nodes, 2
  {
    if nodes == [] then "" else Print(nodes[0], depth, style) + PrintAll(nodes[1..], depth, style)
  }

  predicate Has(attributes: seq<Attribute>, name: string) {
    exists i | 0 <= i < |attributes| :: attributes[i].name == name
  }

  function ParseElement(t: string): (r: Parse<Node>)
    ensures r.Parsed? ==> |r.rest| < |t| && r.value.Element?
    decreases |t|, 0
  {
    var p := Skip(t);
    if p == "" || p[0] != '<' then Failed
    else match ReadName(Skip(p[1..]))
      case Failed => Failed
      case Other => Other
      case Parsed(name, q) => if q == "" then Failed else ParseTag(name, [], q)
  }

  /** Attributes, then the end of the tag, then for all but an empty tag the value and the end tag. */
  function ParseTag(name: string, attributes: seq<Attribute>, t: string): (r: Parse<Node>)
    ensures r.Parsed? ==> |r.rest| < |t| && r.value.Element?
    decreases |t|, 0
  {
    var p := Skip(t);
    if p == "" then Failed
    else if p[0] == '/' then
      if |p| < 2 || p[1] != '>' then Failed else Parsed(Element(name, attributes, []), p[2..])
    else if p[0] == '>' then
      match ReadValue([], p[1..])
      case Failed => Failed
      case Other => Other
      case Parsed(children, q) =>
        if Starts(q, EndTag(name)) then Parsed(Element(name, attributes, children), q[|EndTag(name)|..]) else Failed
    else
      match ParseAttribute(p)
      case Failed => Failed
      case Other => Other
      case Parsed(a, q) =>
        if q == "" || Has(attributes, a.name) then Failed else ParseTag(name, attributes + [a], q)
  }

  /** The children up to an end tag. Text that is all white space is dropped. */
  function ReadValue(nodes: seq<Node>, t: string): (r: Parse<seq<Node>>)
    ensures r.Parsed? ==> |r.rest| <= |t|
    decreases |t|, 1
  {
    var p := Skip(t);
    if p == "" then Failed
    else if p[0] != '<' then
      match ReadText(t, "<", UnknownEncoding)
      case Null => Failed
      case Overrun => Failed
      case Got(text, rest) =>
        TextShrinks(t);
        ReadValue(if Blank(text) then nodes else nodes + [Text(text)], "<" + rest)
    else if Starts(p, "</") then Parsed(nodes, p)
    else if |p| < 2 || !NameStart(p[1]) then Other
    else
      match ParseElement(p)
      case Failed => Failed
      case Other => Other
      case Parsed(node, rest) => ReadValue(nodes + [node], rest)
  }

  /** Reading a text takes at least one character before the delimiter. */
  lemma TextShrinks(t: string)
    requires Skip(t) != "" && Skip(t)[0] != '<'
    ensures var r := ReadText(t, "<", UnknownEncoding); r.Got? ==> |r.rest| + 1 < |t|
  {
    assert t != "" && t[0] != '<';
    assert !Starts(t, "<");
    hide GetChar, Starts;
  }

  //
  // What can be printed and read back.
  //

  predicate ValidName(name: string) {
    name != "" && NameStart(name[0]) && forall i | 0 <= i < |name| :: NameChar(name[i])
  }

  predicate ValidAttribute(a: Attribute) {
    ValidName(a.name) && HexFree(a.value)
  }

  predicate ValidAttributes(attributes: seq<Attribute>) {
    && (forall i | 0 <= i < |attributes| :: ValidAttribute(attributes[i]))
    && (forall i, j | 0 <= i < j < |attributes| :: attributes[i].name != attributes[j].name)
  }

  /** The parts of the print can be told apart: names are names, and no reference begins in a value. */
  predicate Sound(node: Node)
    decreases node
  {
    match node
    case Text(value) => HexFree(value)
    case Element(name, attributes, children) => ValidName(name) && ValidAttributes(attributes) && AllSound(children)
  }

  predicate AllSound(nodes: seq<Node>)
    decreases nodes
  {
    nodes == [] || (Sound(nodes[0]) && AllSound(nodes[1..]))
  }

  /** No text is blank, and no two texts follow one another. */
  predicate Canonical(node: Node)
    decreases node
  {
    match node
    case Text(value) => !Blank(value)
    case Element(_, _, children) => AllCanonical(children)
  }

  predicate AllCanonical(nodes: seq<Node>)
    decreases nodes
  {
    nodes == [] || (Canonical(nodes[0]) && AllCanonical(nodes[1..]) && !(|nodes| > 1 && nodes[0].Text? && nodes[1].Text?))
  }

  /** What a tree comes back as: texts that follow one another are one, and a blank one is none. */
  function Normal(node: Node): Node
    decreases node
  {
    match node
    case Text(_) => node
    case Element(name, attributes, children) => Element(name, attributes, NormalAll("", children))
  }

  /** The same for nodes that come after a text. */
  function NormalAll(text: string, nodes: seq<Node>): seq<Node>
    decreases nodes
  {
    if nodes == [] then Flush(text)
    else if nodes[0].Text? then NormalAll(text + nodes[0].value, nodes[1..])
    else Flush(text) + ([Normal(nodes[0])] + NormalAll("", nodes[1..]))
  }

  function Flush(text: string): seq<Node> {
    if Blank(text) then [] else [Text(text)]
  }

  lemma NormalText(text: string, nodes: seq<Node>)
    requires nodes != [] && nodes[0].Text?
    ensures NormalAll(text, nodes) == NormalAll(text + nodes[0].value, nodes[1..])
  {
  }

  lemma NormalEnd(text: string)
    ensures NormalAll(text, []) == Flush(text)
  {
  }

  lemma NormalIs(node: Node)
    requires node.Element?
    ensures Normal(node) == Element(node.name, node.attributes, NormalAll("", node.children))
  {
    hide NormalAll;
  }

  lemma NormalNone()
    ensures NormalAll("", []) == []
  {
  }

  lemma NothingToFlush()
    ensures Flush("") == []
  {
  }

  lemma NormalElement(text: string, nodes: seq<Node>)
    requires nodes != [] && nodes[0].Element?
    ensures NormalAll(text, nodes) == Flush(text) + ([Normal(nodes[0])] + NormalAll("", nodes[1..]))
  {
    hide Flush, Normal;
  }

  lemma {:induction false} NormalIsCanonical(text: string, nodes: seq<Node>)
    ensures AllCanonical(NormalAll(text, nodes))
    decreases nodes, 0
  {
    hide Blank;
    if nodes == [] {
      assert AllCanonical([]);
      if !Blank(text) { assert [Text(text)][1..] == []; }
    } else if nodes[0].Text? {
      NormalIsCanonical(text + nodes[0].value, nodes[1..]);
    } else {
      var rest := NormalAll("", nodes[1..]);
      NormalIsCanonical("", nodes[0].children);
      NormalIsCanonical("", nodes[1..]);
      hide NormalAll, AllCanonical;
      CanonicalFirst(Normal(nodes[0]), rest);
      if !Blank(text) { CanonicalText(text, [Normal(nodes[0])] + rest); }
      assert [] + ([Normal(nodes[0])] + rest) == [Normal(nodes[0])] + rest;
      NormalElement(text, nodes);
    }
  }

  lemma CanonicalFirst(node: Node, rest: seq<Node>)
    requires node.Element? && AllCanonical(node.children) && AllCanonical(rest)
    ensures AllCanonical([node] + rest)
  {
    assert ([node] + rest)[1..] == rest;
  }

  lemma CanonicalText(text: string, rest: seq<Node>)
    requires !Blank(text) && AllCanonical(rest) && rest != [] && rest[0].Element?
    ensures AllCanonical([Text(text)] + rest)
  {
    hide Blank;
    assert ([Text(text)] + rest)[1..] == rest;
  }

  lemma {:induction false} CanonicalIsNormal(text: string, nodes: seq<Node>)
    requires AllCanonical(nodes) && (text == "" || (!Blank(text) && (nodes != [] ==> nodes[0].Element?)))
    ensures NormalAll(text, nodes) == Flush(text) + nodes
    decreases nodes, 0
  {
    NothingToFlush();
    if nodes == [] {
      NormalEnd(text);
      hide *;
      assert Flush(text) + nodes == Flush(text);
    } else if nodes[0].Text? {
      var v, rest := nodes[0].value, nodes[1..];
      assert !Blank(v) && AllCanonical(rest) && (rest != [] ==> rest[0].Element?);
      assert Blank("") && Flush(v) == [nodes[0]];
      hide *;
      CanonicalIsNormal(v, rest);
      NormalText(text, nodes);
      assert "" + v == v;
      assert [nodes[0]] + rest == nodes && [] + nodes == nodes;
    } else {
      assert AllCanonical(nodes[0].children) && AllCanonical(nodes[1..]);
      hide *;
      CanonicalIsNormal("", nodes[0].children);
      CanonicalIsNormal("", nodes[1..]);
      NormalIs(nodes[0]);
      NormalElement(text, nodes);
      assert [] + nodes[0].children == nodes[0].children && [] + nodes[1..] == nodes[1..];
      assert [nodes[0]] + nodes[1..] == nodes;
    }
  }

  /** Exactly the trees without blank texts and without texts that follow one another come back as they are. */
  lemma CanonicalIff(nodes: seq<Node>)
    ensures NormalAll("", nodes) == nodes <==> AllCanonical(nodes)
  {
    NormalIsCanonical("", nodes);
    NothingToFlush();
    hide *;
    if AllCanonical(nodes) {
      CanonicalIsNormal("", nodes);
      assert [] + nodes == nodes;
    }
  }

  //
  // Printing and reading back.
  //

  /** A name ends where a character follows that is none of a name. */
  lemma {:induction false} NameEnds(name: string, more: string)
    requires (forall i | 0 <= i < |name| :: NameChar(name[i])) && (more != "" ==> !NameChar(more[0]))
    ensures NameLength(name + more) == |name|
  {
    if name == "" {
      assert name + more == more;
    } else {
      assert (name + more)[1..] == name[1..] + more;
      NameEnds(name[1..], more);
    }
  }

  lemma NameReads(name: string, more: string)
    requires ValidName(name) && (more != "" ==> !NameChar(more[0]))
    ensures ReadName(name + more) == Parsed(name, more)
  {
    NameEnds(name, more);
    assert (name + more)[..|name|] == name && (name + more)[|name|..] == more;
  }

  /** EncodeString leaves names alone. */
  lemma {:induction false} NameEncodes(name: string)
    requires forall i | 0 <= i < |name| :: NameChar(name[i])
    ensures Encode(name) == name
  {
    if name != "" {
      assert NameChar(name[0]);
      NameEncodes(name[1..]);
      EncodeFirst(name);
      assert Escape(name[0]) == [name[0]];
      hide Encode, Escape;
    }
  }

  lemma Around(q: string, e: string, more: string)
    requires |q| == 1
    ensures var t := (q + (e + q)) + more; t[0] == q[0] && t[1..] == e + (q + more)
  {
  }

  lemma After(a: string, b: string, c: string, d: string)
    ensures (a + (b + c)) + d == a + (b + (c + d))
  {
  }

  lemma ValueReads(value: string, more: string)
    requires HexFree(value)
    ensures var t := Quoted(value) + more; t != "" && !IsSpace(t[0]) && ParseValue(t) == Parsed(value, more)
  {
    BytesAreWhole(value, UnknownEncoding);
    ReadBack(value, Quote(value), more, UnknownEncoding);
    Around(Quote(value), Encode(value), more);
    hide Encode, ReadText, HexFree;
  }

  lemma ParseAttributeIs(t: string, name: string, v: string, value: string, rest: string)
    requires t != "" && !IsSpace(t[0]) && ReadName(t) == Parsed(name, "=" + v)
    requires v != "" && !IsSpace(v[0]) && ParseValue(v) == Parsed(value, rest)
    ensures ParseAttribute(t) == Parsed(Attribute(name, value), rest)
  {
    assert ("=" + v)[1..] == v;
    hide ReadName, ParseValue;
  }

  /** Parse undoes Print for an attribute, whichever quote was chosen. */
  lemma AttributeReads(a: Attribute, more: string)
    requires ValidAttribute(a)
    ensures ParseAttribute(PrintAttribute(a) + more) == Parsed(a, more)
    ensures PrintAttribute(a) != "" && NameStart(PrintAttribute(a)[0])
  {
    NameEncodes(a.name);
    var q := Quoted(a.value);
    ValueReads(a.value, more);
    NameReads(a.name, "=" + (q + more));
    After(a.name, "=", q, more);
    assert ValidName(a.name) && NameStart(a.name[0]) && PrintAttribute(a) == a.name + ("=" + q);
    hide *;
    var t := PrintAttribute(a) + more;
    assert t == a.name + ("=" + (q + more));
    assert t[0] == a.name[0] && a.name != "";
    StartIsNoSpace(t[0]);
    ParseAttributeIs(t, a.name, q + more, a.value, more);
  }

  lemma StartIsNoSpace(c: char)
    ensures NameStart(c) ==> !IsSpace(c) && c != '/' && c != '>' && c != '<'
  {
  }

  //
  // Elements.
  //

  /** What follows a name in a tag. */
  predicate EndsName(more: string) {
    more != "" && (more[0] == ' ' || more[0] == '>' || more[0] == '/')
  }

  lemma PrintAttributesEnds(attributes: seq<Attribute>, more: string)
    requires EndsName(more)
    ensures EndsName(PrintAttributes(attributes) + more) && PrintAttributes(attributes) + more != ""
  {
    if attributes != [] {
      var rest := PrintAttribute(attributes[0]) + PrintAttributes(attributes[1..]);
      assert (" " + rest)[0] == ' ';
    } else {
      assert "" + more == more;
    }
  }

  /** The printed attributes are read one after the other; then comes the end of the tag. */
  lemma {:induction false} AttributesRead(name: string, had: seq<Attribute>, attributes: seq<Attribute>, more: string)
    requires ValidAttributes(had + attributes) && EndsName(more)
    ensures ParseTag(name, had, PrintAttributes(attributes) + more) == ParseTag(name, had + attributes, more)
    decreases |attributes|
  {
    hide *;
    if attributes == [] {
      NoAttributes();
      assert "" + more == more && had + [] == had;
    } else {
      var a, others := attributes[0], attributes[1..];
      FirstAttribute(had, attributes);
      var rest := PrintAttributes(others) + more;
      PrintAttributesEnds(others, more);
      AttributeReads(a, rest);
      assert (had + [a]) + others == had + attributes;
      AttributesRead(name, had + [a], others, more);
      var t := PrintAttribute(a) + rest;
      assert t[0] == PrintAttribute(a)[0];
      TagStep(name, had, t, a, rest);
      After(" ", PrintAttribute(a), PrintAttributes(others), more);
    }
  }

  lemma NoAttributes()
    ensures PrintAttributes([]) == ""
  {
  }

  lemma FirstAttribute(had: seq<Attribute>, attributes: seq<Attribute>)
    requires ValidAttributes(had + attributes) && attributes != []
    ensures ValidAttribute(attributes[0]) && !Has(had, attributes[0].name)
    ensures PrintAttributes(attributes) == " " + (PrintAttribute(attributes[0]) + PrintAttributes(attributes[1..]))
  {
    assert (had + attributes)[|had|] == attributes[0];
    NotYet(had, attributes);
    hide PrintAttribute, Has;
  }

  lemma NotYet(had: seq<Attribute>, attributes: seq<Attribute>)
    requires ValidAttributes(had + attributes) && attributes != []
    ensures !Has(had, attributes[0].name)
  {
    forall i | 0 <= i < |had| ensures had[i].name != attributes[0].name {
      assert (had + attributes)[i].name != (had + attributes)[|had|].name;
    }
  }

  lemma TagStep(name: string, had: seq<Attribute>, t: string, a: Attribute, rest: string)
    requires t != "" && NameStart(t[0]) && ParseAttribute(t) == Parsed(a, rest) && rest != "" && !Has(had, a.name)
    ensures ParseTag(name, had, " " + t) == ParseTag(name, had + [a], rest)
  {
    assert Skip(" " + t) == t by { SkipSpace(t); }
    hide ParseAttribute, Has;
  }

  lemma SkipSpace(t: string)
    requires t == "" || !IsSpace(t[0])
    ensures Skip(" " + t) == t
  {
    assert (" " + t)[1..] == t;
  }

  /** Every element has only elements in it, or one text: line breaks and indents then add no text. */
  predicate Tidy(node: Node)
    decreases node
  {
    node.Element? ==> Simple(node.children) || (AllTidy(node.children) && forall i | 0 <= i < |node.children| :: node.children[i].Element?)
  }

  predicate AllTidy(nodes: seq<Node>)
    decreases nodes
  {
    nodes == [] || (Tidy(nodes[0]) && AllTidy(nodes[1..]))
  }

  predicate WhiteStyle(style: Style) {
    Blank(style.indent) && Blank(style.lineBreak)
  }

  /** The style loses nothing of these nodes. */
  predicate Fits(nodes: seq<Node>, style: Style) {
    style == STREAM || (WhiteStyle(style) && AllTidy(nodes) && forall i | 0 <= i < |nodes| :: nodes[i].Element?)
  }

  //
  // White space.
  //

  lemma {:induction false} SkipWhite(white: string, t: string)
    requires Blank(white)
    ensures Skip(white + t) == Skip(t)
  {
    if white == "" {
      assert white + t == t;
    } else {
      assert IsSpace(white[0]);
      assert (white + t)[1..] == white[1..] + t;
      SkipWhite(white[1..], t);
    }
  }

  lemma {:induction false} IndentsBlank(style: Style, depth: nat)
    requires WhiteStyle(style) || style == STREAM
    ensures Blank(Indents(style, depth))
  {
    if depth > 0 { IndentsBlank(style, depth - 1); }
  }

  lemma {:induction false} StreamIndents(depth: nat)
    ensures Indents(STREAM, depth) == ""
  {
    if depth > 0 { StreamIndents(depth - 1); }
  }

  lemma StreamWhite(style: Style, depth: nat)
    requires WhiteStyle(style) || style == STREAM
    ensures Blank(style.lineBreak) && (style == STREAM ==> Indents(style, depth) == "")
  {
    StreamIndents(depth);
    hide Indents;
  }

  lemma {:induction false} SkipTwice(t: string)
    ensures Skip(Skip(t)) == Skip(t)
  {
    if t != "" && IsSpace(t[0]) { SkipTwice(t[1..]); }
  }

  /** Where a tag comes next, white space before it is nothing to the reader of values. */
  lemma WhiteStep(nodes: seq<Node>, white: string, t: string)
    requires Blank(white) && Skip(t) != "" && Skip(t)[0] == '<'
    ensures ReadValue(nodes, white + t) == ReadValue(nodes, t)
  {
    SkipWhite(white, t);
    hide ParseElement, Skip, Starts, ReadText;
  }

  /** Nor to the reader of an element. */
  lemma WhiteElement(white: string, t: string)
    requires Blank(white)
    ensures ParseElement(white + t) == ParseElement(t) == ParseElement(Skip(t))
  {
    SkipWhite(white, t);
    SkipTwice(t);
    hide ParseTag, Skip;
  }

  //
  // One element.
  //

  lemma OpenTag(name: string, more: string)
    requires ValidName(name) && EndsName(more)
    ensures ParseElement("<" + (name + more)) == ParseTag(name, [], more)
  {
    var t := "<" + (name + more);
    NameReads(name, more);
    assert NameStart(name[0]) && t[1..] == name + more && (name + more)[0] == name[0];
    StartIsNoSpace(name[0]);
    hide ReadName, ParseTag, NameStart;
  }

  lemma EmptyTag(name: string, attributes: seq<Attribute>, more: string)
    ensures ParseTag(name, attributes, " />" + more) == Parsed(Element(name, attributes, []), more)
  {
    var t := "/>" + more;
    assert " />" + more == " " + t;
    SkipSpace(t);
    assert t[2..] == more;
  }

  lemma FullTag(name: string, attributes: seq<Attribute>, children: seq<Node>, t: string, more: string)
    requires ReadValue([], t) == Parsed(children, EndTag(name) + more)
    ensures ParseTag(name, attributes, ">" + t) == Parsed(Element(name, attributes, children), more)
  {
    assert (">" + t)[1..] == t;
    var e := EndTag(name);
    assert (e + more)[..|e|] == e && (e + more)[|e|..] == more;
    hide ReadValue, EndTag;
  }

  lemma EndTagIs(name: string, more: string)
    ensures EndTag(name) + more == "</" + ((name + ">") + more)
  {
  }

  lemma ContentEndsName(node: Node, depth: nat, style: Style, more: string)
    requires node.Element?
    ensures EndsName(PrintContent(node, depth, style) + more)
  {
    hide PrintAll, EndTag, Encode, Indents;
  }

  lemma Regroup(white: string, name: string, a: string, end: string, more: string)
    ensures (white + ("<" + (name + (a + end)))) + more == white + ("<" + (name + (a + (end + more))))
  {
    Assoc(a, end, more);
    Assoc(name, a + end, more);
    Assoc("<", name + (a + end), more);
    Assoc(white, "<" + (name + (a + end)), more);
  }

  lemma ElementParts(node: Node, style: Style)
    requires Sound(node) && node.Element? && Fits([node], style)
    ensures ValidName(node.name) && ValidAttributes(node.attributes) && AllSound(node.children)
    ensures Simple(node.children) || Fits(node.children, style)
    ensures style == STREAM || WhiteStyle(style)
  {
    hide Sound, AllSound, Encode, CStr;
    SoundParts(node);
    if style != STREAM { assert Tidy([node][0]); }
  }

  /** Nothing of a sound element is cut off in its print. */
  lemma SoundParts(node: Node)
    requires Sound(node) && node.Element?
    ensures ValidName(node.name) && ValidAttributes(node.attributes) && AllSound(node.children)
    ensures CStr(node.name) == node.name && Passed(node.attributes) == node.attributes
  {
    hide HexFree;
    assert ValidName(node.name) && ValidAttributes(node.attributes);
    NameIsCStr(node.name);
    NamesPass(node.attributes);
    hide ValidName, ValidAttributes, CStr, Passed;
  }

  lemma NameIsCStr(name: string)
    requires ValidName(name)
    ensures CStr(name) == name
  {
    assert !NameChar('\0');
    CStrIff(name);
    hide CStr, NameChar;
  }

  lemma NamesPass(attributes: seq<Attribute>)
    requires ValidAttributes(attributes)
    ensures Passed(attributes) == attributes
  {
    forall i | 0 <= i < |attributes| ensures attributes[i] != NO_ATTRIBUTE { assert ValidAttribute(attributes[i]); }
    PassedIff(attributes);
    hide Passed, ValidAttributes;
  }

  lemma PrintIs(node: Node, depth: nat, style: Style)
    requires node.Element?
    ensures Print(node, depth, style) ==
              Indents(style, depth) + ("<" + (CStr(node.name) + (PrintAttributes(Passed(node.attributes)) + PrintContent(node, depth, style))))
  {
    hide PrintContent, PrintAttributes, Indents, CStr, Passed;
  }

  lemma SoundPrintIs(node: Node, depth: nat, style: Style)
    requires Sound(node) && node.Element?
    ensures Print(node, depth, style) ==
              Indents(style, depth) + ("<" + (node.name + (PrintAttributes(node.attributes) + PrintContent(node, depth, style))))
  {
    PrintIs(node, depth, style);
    SoundParts(node);
    hide *;
  }

  /** Parsing what was printed rebuilds the element, in normal form, whatever follows it. */
  lemma {:induction false} ElementReads(node: Node, depth: nat, style: Style, more: string)
    requires Sound(node) && node.Element? && Fits([node], style)
    ensures ParseElement(Print(node, depth, style) + more) == Parsed(Normal(node), style.lineBreak + more)
    decreases node, 2
  {
    hide *;
    var Element(name, attributes, children) := node;
    ElementParts(node, style);
    var a, end, white := PrintAttributes(attributes), PrintContent(node, depth, style), Indents(style, depth);
    SoundPrintIs(node, depth, style);
    IndentsBlank(style, depth);
    ContentEndsName(node, depth, style, more);
    PrintAttributesEnds(attributes, end + more);
    OpenTag(name, a + (end + more));
    assert [] + attributes == attributes;
    AttributesRead(name, [], attributes, end + more);
    Regroup(white, name, a, end, more);
    WhiteElement(white, "<" + (name + (a + (end + more))));
    ContentReads(node, depth, style, more);
  }

  lemma {:induction false} ContentReads(node: Node, depth: nat, style: Style, more: string)
    requires Sound(node) && node.Element? && (Simple(node.children) || Fits(node.children, style))
    requires style == STREAM || WhiteStyle(style)
    ensures ParseTag(node.name, node.attributes, PrintContent(node, depth, style) + more) == Parsed(Normal(node), style.lineBreak + more)
    decreases node, 1
  {
    hide *;
    ContentIs(node, depth, style);
    SoundParts(node);
    NormalIs(node);
    if node.children == [] {
      EmptyTag(node.name, node.attributes, style.lineBreak + more);
      Assoc(" />", style.lineBreak, more);
      NormalNone();
    } else if Simple(node.children) {
      SimpleContent(node, style, more);
    } else {
      NestedContent(node, depth, style, more);
    }
  }

  lemma SimpleContent(node: Node, style: Style, more: string)
    requires node.Element? && AllSound(node.children) && Simple(node.children)
    ensures var t := ">" + (Encode(node.children[0].value) + (EndTag(node.name) + style.lineBreak));
            ParseTag(node.name, node.attributes, t + more) == Parsed(Element(node.name, node.attributes, NormalAll("", node.children)), style.lineBreak + more)
  {
    hide Encode, ParseTag, ReadValue, EndTag, AllSound, NormalAll;
    var end, lb, text := EndTag(node.name), style.lineBreak, Encode(node.children[0].value);
    SimpleReads(node.children, node.name, lb + more);
    FullTag(node.name, node.attributes, NormalAll("", node.children), text + (end + (lb + more)), lb + more);
    After(">", text, end + lb, more);
    Assoc(end, lb, more);
  }

  lemma {:induction false} NestedContent(node: Node, depth: nat, style: Style, more: string)
    requires node.Element? && AllSound(node.children) && Fits(node.children, style)
    requires style == STREAM || WhiteStyle(style)
    ensures var all, white, end, lb := PrintAll(node.children, depth + 1, style), Indents(style, depth), EndTag(node.name), style.lineBreak;
            ParseTag(node.name, node.attributes, (">" + (lb + (all + (white + (end + lb))))) + more) ==
              Parsed(Element(node.name, node.attributes, NormalAll("", node.children)), lb + more)
    decreases node, 0
  {
    hide *;
    var all, white, end, lb := PrintAll(node.children, depth + 1, style), Indents(style, depth), EndTag(node.name), style.lineBreak;
    EndTagIs(node.name, lb + more);
    IndentsBlank(style, depth);
    StreamWhite(style, depth);
    NoTexts();
    ChildrenRead([], [], node.children, depth + 1, style, white, (node.name + ">") + (lb + more));
    var after := all + (white + ("</" + ((node.name + ">") + (lb + more))));
    assert "" + after == after && [] + NormalAll("", node.children) == NormalAll("", node.children);
    FullTag(node.name, node.attributes, NormalAll("", node.children), lb + (all + (white + (end + (lb + more)))), lb + more);
    Nested(lb, all, white, end, more);
  }

  lemma Nested(lb: string, all: string, white: string, end: string, more: string)
    ensures (">" + (lb + (all + (white + (end + lb))))) + more == ">" + (lb + (all + (white + (end + (lb + more)))))
  {
    Assoc(end, lb, more);
    Assoc(white, end + lb, more);
    Assoc(all, white + (end + lb), more);
    Assoc(lb, all + (white + (end + lb)), more);
    Assoc(">", lb + (all + (white + (end + lb))), more);
  }

  lemma ContentIs(node: Node, depth: nat, style: Style)
    requires node.Element?
    ensures var children, lb, end := node.children, style.lineBreak, EndTag(CStr(node.name));
            PrintContent(node, depth, style) ==
              if children == [] then " />" + lb
              else if Simple(children) then ">" + (Encode(children[0].value) + (end + lb))
              else ">" + (lb + (PrintAll(children, depth + 1, style) + (Indents(style, depth) + (end + lb))))
  {
    hide Encode, PrintAll, Indents, EndTag, CStr;
  }

  //
  // Texts that follow one another.
  //

  predicate AllHexFree(texts: seq<string>) {
    forall i | 0 <= i < |texts| :: HexFree(texts[i])
  }

  function Run(texts: seq<string>): string {
    if texts == [] then "" else Run(texts[..|texts| - 1]) + Encode(texts[|texts| - 1])
  }

  function Joined(texts: seq<string>): string {
    if texts == [] then "" else Joined(texts[..|texts| - 1]) + texts[|texts| - 1]
  }

  lemma NoTexts()
    ensures Run([]) == "" && Joined([]) == "" && AllHexFree([])
  {
  }

  lemma MoreText(texts: seq<string>, text: string)
    ensures Run(texts + [text]) == Run(texts) + Encode(text) && Joined(texts + [text]) == Joined(texts) + text
    ensures AllHexFree(texts) && HexFree(text) ==> AllHexFree(texts + [text])
  {
    hide Encode, HexFree;
    assert (texts + [text])[..|texts|] == texts;
  }

  /** They are read as one text. */
  lemma {:induction false} RunReads(texts: seq<string>, after: string)
    requires AllHexFree(texts)
    ensures ReadText(Run(texts) + after, "<", UnknownEncoding) == Prefixed(Joined(texts), ReadText(after, "<", UnknownEncoding))
    decreases |texts|
  {
    hide Encode, HexFree, ReadText;
    if texts == [] {
      assert "" + after == after;
      PrefixedTwice("", "", ReadText(after, "<", UnknownEncoding));
    } else {
      var init, last := texts[..|texts| - 1], texts[|texts| - 1];
      RunReads(init, Encode(last) + after);
      Assoc(Run(init), Encode(last), after);
      BytesAreWhole(last, UnknownEncoding);
      ReadOn(last, after, "<", UnknownEncoding);
      PrefixedTwice(Joined(init), last, ReadText(after, "<", UnknownEncoding));
    }
  }

  lemma {:induction false} BlankEncoded(s: string)
    requires HexFree(s) && Blank(Encode(s))
    ensures Blank(s)
  {
    if s != "" {
      EncodeFirst(s);
      var rest := Encode(s[1..]);
      assert Encode(s) == Escape(s[0]) + rest;
      assert IsSpace(Encode(s)[0]);
      assert forall i | 0 <= i < |rest| :: rest[i] == Encode(s)[|Escape(s[0])| + i];
      BlankEncoded(s[1..]);
      EscapedSpace(s[0]);
      assert forall i | 1 <= i < |s| :: s[i] == s[1..][i - 1];
    }
  }

  lemma EscapedSpace(c: char)
    requires IsSpace(Escape(c)[0])
    ensures IsSpace(c)
  {
  }

  /** What is written for them opens no tag, and is white space only if they are. */
  lemma {:induction false} RunIsClean(texts: seq<string>)
    requires AllHexFree(texts)
    ensures '<' !in Run(texts) && (Blank(Run(texts)) ==> Blank(Joined(texts)))
    decreases |texts|
  {
    hide Encode, HexFree, IsSpace;
    if texts != [] {
      var init, last := texts[..|texts| - 1], texts[|texts| - 1];
      RunIsClean(init);
      EncodedIsClean(last);
      if Blank(Run(texts)) {
        assert forall i | 0 <= i < |Run(init)| :: Run(init)[i] == Run(texts)[i];
        assert forall i | 0 <= i < |Encode(last)| :: Encode(last)[i] == Run(texts)[|Run(init)| + i];
        BlankEncoded(last);
      }
    }
  }

  lemma {:induction false} SkipInto(a: string, b: string)
    requires !Blank(a)
    ensures Skip(a + b) == Skip(a) + b && Skip(a) != "" && Skip(a)[0] in a
  {
    if IsSpace(a[0]) {
      assert (a + b)[1..] == a[1..] + b;
      assert forall i | 1 <= i < |a| :: a[i] == a[1..][i - 1];
      SkipInto(a[1..], b);
    }
  }

  /** Up to the next tag they make one text, or none if that is blank. */
  lemma RunStep(had: seq<Node>, texts: seq<string>, rest: string)
    requires AllHexFree(texts) && rest != "" && rest[0] == '<'
    ensures ReadValue(had, Run(texts) + rest) == ReadValue(had + Flush(Joined(texts)), rest)
  {
    var run := Run(texts);
    RunIsClean(texts);
    if Blank(run) {
      SkipTag(rest);
      hide *;
      WhiteStep(had, run, rest);
      FlushBlank(Joined(texts));
      assert had + [] == had;
    } else {
      RunReads(texts, rest);
      BracketReads(rest);
      SkipInto(run, rest);
      hide *;
      PrefixGot(Joined(texts), "", rest[1..]);
      assert Joined(texts) + "" == Joined(texts) && "<" + rest[1..] == rest;
      ReadTextValue(had, run + rest, Joined(texts), rest);
    }
  }

  lemma FlushBlank(text: string)
    requires Blank(text)
    ensures Flush(text) == []
  {
  }

  lemma BracketReads(rest: string)
    requires rest != "" && rest[0] == '<'
    ensures ReadText(rest, "<", UnknownEncoding) == Got("", rest[1..])
  {
    assert rest[..1] == "<";
  }

  lemma ReadTextValue(had: seq<Node>, t: string, text: string, rest: string)
    requires Skip(t) != "" && Skip(t)[0] != '<' && rest != "" && "<" + rest[1..] == rest
    requires ReadText(t, "<", UnknownEncoding) == Got(text, rest[1..])
    ensures ReadValue(had, t) == ReadValue(had + Flush(text), rest)
  {
    assert had + [] == had;
    hide ReadText, Skip, Starts, Blank, ParseElement;
  }

  //
  // The children of an element.
  //

  lemma StopAtEndTag(had: seq<Node>, more: string)
    ensures ReadValue(had, "</" + more) == Parsed(had, "</" + more)
    ensures Skip("</" + more) == "</" + more
  {
    var t := "</" + more;
    assert t[0] == '<' && t[..2] == "</";
  }

  lemma SimpleReads(children: seq<Node>, name: string, more: string)
    requires Simple(children) && AllSound(children)
    ensures ReadValue([], Encode(children[0].value) + (EndTag(name) + more)) == Parsed(NormalAll("", children), EndTag(name) + more)
  {
    SimpleParts(children);
    hide *;
    EndTagIs(name, more);
    TextReads(children[0].value, EndTag(name) + more);
    StopAtEndTag(Flush(children[0].value), (name + ">") + more);
  }

  lemma SimpleParts(children: seq<Node>)
    requires Simple(children) && AllSound(children)
    ensures |children| == 1 && children[0].Text? && HexFree(children[0].value) && NormalAll("", children) == Flush(children[0].value)
  {
    hide HexFree, Flush;
    assert Sound(children[0]) && children[1..] == [];
    assert "" + children[0].value == children[0].value;
  }

  lemma TextReads(value: string, rest: string)
    requires HexFree(value) && rest != "" && rest[0] == '<'
    ensures ReadValue([], Encode(value) + rest) == ReadValue(Flush(value), rest)
  {
    hide *;
    NoTexts();
    MoreText([], value);
    assert [] + [value] == [value] && "" + Encode(value) == Encode(value) && "" + value == value;
    RunStep([], [value], rest);
    assert [] + Flush(value) == Flush(value);
  }

  lemma FirstParts(nodes: seq<Node>, style: Style)
    requires AllSound(nodes) && nodes != [] && Fits(nodes, style)
    ensures Sound(nodes[0]) && AllSound(nodes[1..]) && Fits(nodes[1..], style)
    ensures nodes[0].Element? ==> Fits([nodes[0]], style)
    ensures style == STREAM || WhiteStyle(style)
    ensures nodes[0].Text? ==> style == STREAM && HexFree(nodes[0].value)
  {
    hide Encode, HexFree, Blank;
    if style != STREAM {
      assert nodes[0].Element?;
      assert Tidy(nodes[0]) && AllTidy([]);
      assert [nodes[0]][1..] == [];
      assert AllTidy([nodes[0]]);
      assert forall i | 0 <= i < |nodes[1..]| :: nodes[1..][i] == nodes[i + 1];
    }
  }

  lemma PrintAllFirst(nodes: seq<Node>, depth: nat, style: Style)
    requires nodes != []
    ensures PrintAll(nodes, depth, style) == Print(nodes[0], depth, style) + PrintAll(nodes[1..], depth, style)
  {
    hide Print;
  }

  /** The children that follow some texts are read one after the other, up to the end tag. */
  lemma {:induction false} ChildrenRead(had: seq<Node>, texts: seq<string>, nodes: seq<Node>, depth: nat, style: Style, white: string, more: string)
    requires AllSound(nodes) && Fits(nodes, style) && AllHexFree(texts) && Blank(white) && Blank(style.lineBreak)
    requires if style == STREAM then white == "" else texts == []
    ensures ReadValue(had, style.lineBreak + (Run(texts) + (PrintAll(nodes, depth, style) + (white + ("</" + more))))) ==
              Parsed(had + NormalAll(Joined(texts), nodes), "</" + more)
    decreases nodes, 3
  {
    hide *;
    var lb, after := style.lineBreak, white + ("</" + more);
    if nodes == [] {
      NoNodes(depth, style);
      assert "" + after == after;
      ChildrenEnd(had, texts, style, white, more);
    } else {
      var node, others := nodes[0], nodes[1..];
      FirstParts(nodes, style);
      PrintAllFirst(nodes, depth, style);
      var all := PrintAll(others, depth, style);
      Assoc(Print(node, depth, style), all, after);
      if node.Element? {
        ElementReads(node, depth, style, all + after);
        ElementNext(had, texts, node, depth, style, all + after);
        var next := (had + Flush(Joined(texts))) + [Normal(node)];
        NoTexts();
        ChildrenRead(next, [], others, depth, style, white, more);
        assert "" + (all + after) == all + after;
        NormalElement(Joined(texts), nodes);
        Gather(had, Flush(Joined(texts)), [Normal(node)], NormalAll("", others));
      } else {
        StreamText(node.value, depth);
        MoreText(texts, node.value);
        Assoc(Run(texts), Encode(node.value), all + after);
        ChildrenRead(had, texts + [node.value], others, depth, style, white, more);
        NormalText(Joined(texts), nodes);
      }
    }
  }

  lemma Gather<T>(a: seq<T>, b: seq<T>, c: seq<T>, d: seq<T>)
    ensures ((a + b) + c) + d == a + (b + (c + d))
  {
  }

  lemma ChildrenEnd(had: seq<Node>, texts: seq<string>, style: Style, white: string, more: string)
    requires AllHexFree(texts) && Blank(white) && Blank(style.lineBreak) && if style == STREAM then white == "" else texts == []
    ensures ReadValue(had, style.lineBreak + (Run(texts) + (white + ("</" + more)))) == Parsed(had + NormalAll(Joined(texts), []), "</" + more)
  {
    hide *;
    var end := "</" + more;
    StopAtEndTag(had + Flush(Joined(texts)), more);
    NormalEnd(Joined(texts));
    RunStep(had, texts, end);
    if style == STREAM {
      StreamStyle();
      assert "" + end == end && "" + (Run(texts) + end) == Run(texts) + end;
    } else {
      NoTexts();
      assert "" + end == end && "" + (white + end) == white + end;
      SkipTag(end);
      WhiteStep(had, white, end);
      SkipWhite(white, end);
      WhiteStep(had, style.lineBreak, white + end);
    }
  }

  lemma StreamStyle()
    ensures STREAM.lineBreak == "" && STREAM.indent == ""
  {
  }

  /** The texts before an element, and the element. */
  lemma ElementNext(had: seq<Node>, texts: seq<string>, node: Node, depth: nat, style: Style, rest: string)
    requires node.Element? && Sound(node) && (style == STREAM || WhiteStyle(style)) && Blank(style.lineBreak)
    requires AllHexFree(texts) && (style == STREAM || texts == [])
    requires ParseElement(Print(node, depth, style) + rest) == Parsed(Normal(node), style.lineBreak + rest)
    ensures ReadValue(had, style.lineBreak + (Run(texts) + (Print(node, depth, style) + rest))) ==
              ReadValue((had + Flush(Joined(texts))) + [Normal(node)], style.lineBreak + rest)
  {
    hide *;
    var t := Print(node, depth, style) + rest;
    ElementStep(had + Flush(Joined(texts)), node, depth, style, rest);
    if style == STREAM {
      StreamStyle();
      ElementOpens(node, depth, rest);
      RunStep(had, texts, t);
      assert "" + (Run(texts) + t) == Run(texts) + t && "" + t == t;
    } else {
      NoTexts();
      NothingToFlush();
      assert "" + t == t && had + [] == had;
    }
  }

  lemma NoNodes(depth: nat, style: Style)
    ensures PrintAll([], depth, style) == ""
  {
  }

  lemma StreamText(value: string, depth: nat)
    ensures Print(Text(value), depth, STREAM) == Encode(value)
    ensures STREAM.lineBreak == ""
  {
    StreamIndents(depth);
    hide Encode, Indents;
    assert "" + (Encode(value) + "") == Encode(value);
  }

  /** An element shows as the beginning of a tag. */
  lemma TagShows(node: Node, depth: nat, style: Style, rest: string)
    requires node.Element? && (style == STREAM || WhiteStyle(style)) && Sound(node)
    ensures var p := Skip(Print(node, depth, style) + rest); |p| > 1 && p[0] == '<' && NameStart(p[1])
  {
    SoundPrintIs(node, depth, style);
    SoundParts(node);
    IndentsBlank(style, depth);
    assert ValidName(node.name) ==> node.name != "" && NameStart(node.name[0]);
    hide *;
    var inner := "<" + (node.name + (PrintAttributes(node.attributes) + PrintContent(node, depth, style)));
    Assoc(Indents(style, depth), inner, rest);
    SkipWhite(Indents(style, depth), inner + rest);
    assert (inner + rest)[0] == '<' && (inner + rest)[1] == node.name[0];
    SkipTag(inner + rest);
  }

  lemma SkipTag(t: string)
    requires t != "" && t[0] == '<'
    ensures Skip(t) == t
  {
  }

  /** In stream mode an element begins with an opening bracket. */
  lemma ElementOpens(node: Node, depth: nat, rest: string)
    requires node.Element?
    ensures var t := Print(node, depth, STREAM) + rest; t != "" && t[0] == '<'
  {
    StreamIndents(depth);
    PrintIs(node, depth, STREAM);
    hide *;
    var inner := "<" + (CStr(node.name) + (PrintAttributes(Passed(node.attributes)) + PrintContent(node, depth, STREAM)));
    assert ("" + inner)[0] == '<';
  }

  lemma ElementStep(had: seq<Node>, node: Node, depth: nat, style: Style, rest: string)
    requires node.Element? && Sound(node) && (style == STREAM || WhiteStyle(style)) && Blank(style.lineBreak)
    requires ParseElement(Print(node, depth, style) + rest) == Parsed(Normal(node), style.lineBreak + rest)
    ensures ReadValue(had, style.lineBreak + (Print(node, depth, style) + rest)) == ReadValue(had + [Normal(node)], style.lineBreak + rest)
  {
    var t := Print(node, depth, style) + rest;
    TagShows(node, depth, style, rest);
    WhiteStep(had, style.lineBreak, t);
    WhiteElement("", t);
    assert "" + t == t;
    StartIsNoSpace(Skip(t)[1]);
    Differs(Skip(t), "</", 1);
    hide ParseElement, Print, Sound, Normal, Skip, Starts, NameStart, Blank, WhiteStyle;
  }

  //
  // Documents.
  //

  const BYTE_ORDER_MARK: string := [0xef as char, 0xbb as char, 0xbf as char]

  /** Elements one after the other, with white space between them. */
  function ParseDocument(nodes: seq<Node>, t: string): (r: Parse<seq<Node>>)
    decreases |t|
  {
    var p := Skip(t);
    if p == "" then if nodes == [] then Failed else Parsed(nodes, "")
    else if p[0] != '<' then if nodes == [] then Failed else Parsed(nodes, p)
    else if |p| < 2 || !NameStart(p[1]) then Other
    else
      match ParseElement(p)
      case Failed => Failed
      case Other => Other
      case Parsed(node, rest) => ParseDocument(nodes + [node], rest)
  }

  /** TiXmlDocument::Parse; a byte order mark at the beginning would turn UTF-8 on, which is not modelled. */
  function ParseAll(t: string): Parse<seq<Node>> {
    if t == "" then Failed
    else if Starts(t, BYTE_ORDER_MARK) then Other
    else ParseDocument([], t)
  }

  lemma WhiteDocument(nodes: seq<Node>, white: string, t: string)
    requires Blank(white)
    ensures ParseDocument(nodes, white + t) == ParseDocument(nodes, t)
  {
    SkipWhite(white, t);
    hide ParseElement, Skip;
  }

  lemma {:induction false} DocumentReads(had: seq<Node>, nodes: seq<Node>, style: Style)
    requires AllSound(nodes) && Fits(nodes, style) && Blank(style.lineBreak)
    requires (forall i | 0 <= i < |nodes| :: nodes[i].Element?) && had + nodes != []
    ensures ParseDocument(had, PrintAll(nodes, 0, style)) == Parsed(had + NormalAll("", nodes), "")
    decreases |nodes|
  {
    hide *;
    if nodes == [] {
      NoMore(had, style);
      NormalNone();
      assert had + [] == had;
    } else {
      var node, others := nodes[0], nodes[1..];
      FirstParts(nodes, style);
      PrintAllFirst(nodes, 0, style);
      var rest := PrintAll(others, 0, style);
      ElementReads(node, 0, style, rest);
      assert forall i | 0 <= i < |others| :: others[i] == nodes[i + 1];
      DocumentReads(had + [Normal(node)], others, style);
      DocumentStep(had, node, style, rest);
      WhiteDocument(had + [Normal(node)], style.lineBreak, rest);
      NormalElement("", nodes);
      NothingToFlush();
      var normal := NormalAll("", others);
      assert (had + [Normal(node)]) + normal == had + ([] + ([Normal(node)] + normal));
    }
  }

  lemma NoMore(had: seq<Node>, style: Style)
    requires had != []
    ensures ParseDocument(had, PrintAll([], 0, style)) == Parsed(had, "")
  {
  }

  lemma DocumentStep(had: seq<Node>, node: Node, style: Style, rest: string)
    requires node.Element? && Sound(node) && (style == STREAM || WhiteStyle(style))
    requires ParseElement(Print(node, 0, style) + rest) == Parsed(Normal(node), style.lineBreak + rest)
    ensures ParseDocument(had, Print(node, 0, style) + rest) == ParseDocument(had + [Normal(node)], style.lineBreak + rest)
  {
    var t := Print(node, 0, style) + rest;
    TagShows(node, 0, style, rest);
    WhiteElement("", t);
    assert "" + t == t;
    hide ParseElement, Print, Sound, Normal, Skip, NameStart, WhiteStyle;
  }

  /**
    What a document of elements comes back as from its own print: any sound one from the stream form,
    and a tidy one also with any white space for indents and line breaks.
   */
  lemma DocumentNormalizes(nodes: seq<Node>, style: Style)
    requires AllSound(nodes) && (forall i | 0 <= i < |nodes| :: nodes[i].Element?) && nodes != []
    requires style == STREAM || (WhiteStyle(style) && AllTidy(nodes))
    ensures ParseAll(PrintAll(nodes, 0, style)) == Parsed(NormalAll("", nodes), "")
  {
    var node, t := nodes[0], PrintAll(nodes, 0, style);
    assert node.Element? && Fits(nodes, style) && Blank(style.lineBreak);
    PrintAllFirst(nodes, 0, style);
    PrintIs(node, 0, style);
    DocumentReads([], nodes, style);
    assert [] + nodes == nodes && [] + NormalAll("", nodes) == NormalAll("", nodes);
    hide *;
    var inner := "<" + (CStr(node.name) + (PrintAttributes(Passed(node.attributes)) + PrintContent(node, 0, style)));
    assert Indents(style, 0) == "" by { NoIndent(style); }
    assert ("" + inner)[0] == '<' && t[0] == '<';
    NoMark(t);
  }

  /** It is the same document exactly if no text is blank and no two texts follow one another. */
  lemma DocumentRoundTrip(nodes: seq<Node>, style: Style)
    requires AllSound(nodes) && (forall i | 0 <= i < |nodes| :: nodes[i].Element?) && nodes != []
    requires style == STREAM || (WhiteStyle(style) && AllTidy(nodes))
    ensures ParseAll(PrintAll(nodes, 0, style)) == Parsed(nodes, "") <==> AllCanonical(nodes)
  {
    hide *;
    DocumentNormalizes(nodes, style);
    CanonicalIff(nodes);
  }

  /** Two texts in one element come back as one. */
  lemma TextsMerge()
    ensures var nodes := [Element("a", [], [Text("b"), Text("c")])];
            ParseAll(PrintAll(nodes, 0, STREAM)) == Parsed([Element("a", [], [Text("bc")])], "")
  {
    var b, c, a: Node := Text("b"), Text("c"), Element("a", [], [Text("b"), Text("c")]);
    assert [b, c][1..] == [c] && [c][1..] == [] && [a][1..] == [];
    assert "b"[1..] == "" && "c"[1..] == "" && HexFree("") && HexFree("b") && HexFree("c");
    assert NameChar('a') && ValidName("a") && ValidAttributes([]);
    assert AllSound([]);
    assert Sound(c) && AllSound([c]);
    assert Sound(b) && AllSound([b, c]);
    assert Sound(a) && AllSound([a]);
    MergedTexts(a, b, c);
    hide *;
    DocumentNormalizes([a], STREAM);
  }

  lemma MergedTexts(a: Node, b: Node, c: Node)
    requires b == Text("b") && c == Text("c") && a == Element("a", [], [b, c])
    ensures NormalAll("", [a]) == [Element("a", [], [Text("bc")])]
  {
    hide *;
    NormalElement("", [a]);
    NothingToFlush();
    NormalNone();
    NormalIs(a);
    NormalText("", [b, c]);
    NormalText("b", [c]);
    NormalEnd("bc");
    NotBlank();
    assert [a][1..] == [] && [b, c][1..] == [c] && [c][1..] == [] && "" + "b" == "b" && "b" + "c" == "bc";
    assert [] + ([Normal(a)] + []) == [Normal(a)];
  }

  lemma NotBlank()
    ensures Flush("bc") == [Text("bc")]
  {
    assert !IsSpace("bc"[0]);
  }

  lemma NoIndent(style: Style)
    ensures Indents(style, 0) == ""
  {
  }

  lemma NoMark(t: string)
    requires t != "" && t[0] == '<'
    ensures ParseAll(t) == ParseDocument([], t)
  {
    Differs(t, BYTE_ORDER_MARK, 0);
    hide ParseDocument, Starts;
  }
}
