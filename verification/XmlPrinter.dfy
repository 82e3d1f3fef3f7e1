/** The visitor that prints: TiXmlPrinter, with its buffer, its depth and its mode. */
module XmlPrinter {
  import opened XmlText
  import opened XmlTree
  import opened XmlParser

  /** TiXmlAttribute::Print. */
  method AppendAttribute(a: Attribute, str0: string) returns (str: string)
    ensures str == str0 + PrintAttribute(a)
  {
    hide Encode;
    var n := EncodeString(a.name, "");
    var v := EncodeString(a.value, "");
    assert "" + Encode(a.name) == Encode(a.name) && "" + Encode(a.value) == Encode(a.value);
    str := str0;
    if '\"' !in a.value {
      str := str + n;
      str := str + "=\"";
      str := str + v;
      str := str + "\"";
    } else {
      str := str + n;
      str := str + "='";
      str := str + v;
      str := str + "'";
    }
    Pieces(str0, n, Quote(a.value), v);
  }

  lemma Pieces(s: string, n: string, q: string, v: string)
    ensures (((s + n) + ("=" + q)) + v) + q == s + (n + ("=" + (q + (v + q))))
  {
  }

  lemma {:induction false} IndentsNext(style: Style, i: nat)
    ensures Indents(style, i + 1) == Indents(style, i) + style.indent
  {
    if i == 0 {
      assert style.indent + "" == "" + style.indent;
    } else {
      IndentsNext(style, i - 1);
      Assoc(style.indent, Indents(style, i - 1), style.indent);
    }
  }

  lemma AttributesNext(buffer: string, attributes: seq<Attribute>, i: nat)
    requires i < |attributes|
    ensures buffer + PrintAttributes(attributes[i..]) == ((buffer + " ") + PrintAttribute(attributes[i])) + PrintAttributes(attributes[i + 1..])
  {
    hide PrintAttribute;
    var a, rest := PrintAttribute(attributes[i]), PrintAttributes(attributes[i + 1..]);
    assert attributes[i..][1..] == attributes[i + 1..];
    assert PrintAttributes(attributes[i..]) == " " + (a + rest);
    hide PrintAttributes;
    assert buffer + (" " + (a + rest)) == ((buffer + " ") + a) + rest;
  }

  //
  // What each visit adds.
  //

  function AfterAttributes(element: Node, style: Style): string
    requires element.Element?
  {
    if element.children == [] then " />" + style.lineBreak
    else if Simple(element.children) then ">"
    else ">" + style.lineBreak
  }

  function Opening(element: Node, depth: nat, style: Style): string
    requires element.Element?
  {
    Indents(style, depth) + ("<" + (CStr(element.name) + (PrintAttributes(Passed(element.attributes)) + AfterAttributes(element, style))))
  }

  function Closing(element: Node, depth: nat, style: Style): string
    requires element.Element?
  {
    if element.children == [] then ""
    else if Simple(element.children) then EndTag(CStr(element.name)) + style.lineBreak
    else Indents(style, depth) + (EndTag(CStr(element.name)) + style.lineBreak)
  }

  function ChildPrint(node: Node, simple: bool, depth: nat, style: Style): string {
    if simple && node.Text? then Encode(node.value) else Print(node, depth, style)
  }

  function Inside(nodes: seq<Node>, simple: bool, depth: nat, style: Style): string {
    if nodes == [] then ""
    else Inside(nodes[..|nodes| - 1], simple, depth, style) + ChildPrint(nodes[|nodes| - 1], simple, depth, style)
  }

  lemma InsideNext(nodes: seq<Node>, i: nat, simple: bool, depth: nat, style: Style)
    requires i < |nodes|
    ensures Inside(nodes[..i + 1], simple, depth, style) == Inside(nodes[..i], simple, depth, style) + ChildPrint(nodes[i], simple, depth, style)
  {
    hide ChildPrint;
    assert nodes[..i + 1][..i] == nodes[..i];
  }

  lemma NothingInside(nodes: seq<Node>, simple: bool, depth: nat, style: Style)
    ensures Inside(nodes[..0], simple, depth, style) == ""
  {
  }

  lemma {:induction false} PrintAllSnoc(nodes: seq<Node>, node: Node, depth: nat, style: Style)
    ensures PrintAll(nodes + [node], depth, style) == PrintAll(nodes, depth, style) + Print(node, depth, style)
  {
    hide *;
    PrintAllFirst(nodes + [node], depth, style);
    NoNodes(depth, style);
    if nodes == [] {
      assert ([] + [node])[1..] == [];
      assert Print(node, depth, style) + "" == "" + Print(node, depth, style);
    } else {
      PrintAllFirst(nodes, depth, style);
      PrintAllSnoc(nodes[1..], node, depth, style);
      assert (nodes + [node])[1..] == nodes[1..] + [node];
      Assoc(Print(nodes[0], depth, style), PrintAll(nodes[1..], depth, style), Print(node, depth, style));
    }
  }

  lemma {:induction false} InsideIsAll(nodes: seq<Node>, depth: nat, style: Style)
    ensures Inside(nodes, false, depth, style) == PrintAll(nodes, depth, style)
    decreases |nodes|
  {
    NoNodes(depth, style);
    if nodes != [] {
      var n := |nodes| - 1;
      assert nodes == nodes[..n] + [nodes[n]];
      PrintAllSnoc(nodes[..n], nodes[n], depth, style);
      hide PrintAll, Print;
      InsideIsAll(nodes[..n], depth, style);
    }
  }

  lemma InsideSimple(nodes: seq<Node>, depth: nat, style: Style)
    requires Simple(nodes)
    ensures Inside(nodes, true, depth, style) == Encode(nodes[0].value)
  {
    assert nodes[..0] == [];
    NothingInside(nodes, true, depth, style);
    hide Encode;
    assert "" + Encode(nodes[0].value) == Encode(nodes[0].value);
  }

  lemma ContentPieces(node: Node, depth: nat, style: Style)
    requires node.Element?
    ensures PrintContent(node, depth, style) ==
              AfterAttributes(node, style) + (Inside(node.children, Simple(node.children), depth + 1, style) + Closing(node, depth, style))
  {
    var children := node.children;
    ContentIs(node, depth, style);
    if children == [] {
      assert Inside([], Simple([]), depth + 1, style) == "";
      hide *;
      assert (" />" + style.lineBreak) + ("" + "") == " />" + style.lineBreak;
    } else if Simple(children) {
      InsideSimple(children, depth + 1, style);
      hide Inside, Encode, EndTag, PrintContent, CStr;
    } else {
      InsideIsAll(children, depth + 1, style);
      Assoc(">", style.lineBreak, Inside(children, false, depth + 1, style) + Closing(node, depth, style));
      hide Inside, PrintAll, EndTag, PrintContent, Indents, CStr;
    }
  }

  /** The visits of an element, its children and the element again add its print. */
  lemma WholeElement(start: string, node: Node, depth: nat, style: Style)
    requires node.Element?
    ensures ((start + Opening(node, depth, style)) + Inside(node.children, Simple(node.children), depth + 1, style)) + Closing(node, depth, style)
            == start + Print(node, depth, style)
  {
    PrintIs(node, depth, style);
    ContentPieces(node, depth, style);
    var white, name, a := Indents(style, depth), CStr(node.name), PrintAttributes(Passed(node.attributes));
    assert Opening(node, depth, style) == white + ("<" + (name + (a + AfterAttributes(node, style))));
    hide *;
    Bracket(start, white, name, a, AfterAttributes(node, style), Inside(node.children, Simple(node.children), depth + 1, style), Closing(node, depth, style));
  }

  lemma ChildIs(nodes: seq<Node>, i: nat, depth: nat, style: Style)
    ensures i < |nodes| && Simple(nodes) ==> nodes[i].Text? && ChildPrint(nodes[i], true, depth, style) == Encode(nodes[i].value)
    ensures i < |nodes| && !Simple(nodes) ==> ChildPrint(nodes[i], false, depth, style) == Print(nodes[i], depth, style)
    ensures nodes == [] ==> !Simple(nodes)
  {
    hide Encode, Print;
  }

  lemma Bracket(start: string, white: string, name: string, a: string, after: string, inside: string, closing: string)
    ensures ((start + (white + ("<" + (name + (a + after))))) + inside) + closing == start + (white + ("<" + (name + (a + (after + (inside + closing))))))
  {
    Assoc(start + (white + ("<" + (name + (a + after)))), inside, closing);
    Regroup(white, name, a, after, inside + closing);
    Assoc(start, white + ("<" + (name + (a + after))), inside + closing);
  }

  lemma OpeningPieces(s: string, white: string, name: string, a: string, after: string)
    ensures ((((s + white) + "<") + name) + a) + after == s + (white + ("<" + (name + (a + after))))
  {
    Assoc(((s + white) + "<") + name, a, after);
    Assoc((s + white) + "<", name, a + after);
    Assoc(s + white, "<", name + (a + after));
    Assoc(s, white, "<" + (name + (a + after)));
  }

  lemma ClosingPieces(s: string, white: string, name: string, lb: string)
    ensures (((s + "</") + name) + ">") + lb == s + (EndTag(name) + lb)
    ensures ((((s + white) + "</") + name) + ">") + lb == s + (white + (EndTag(name) + lb))
  {
    TagPieces(s, name, lb);
    TagPieces(s + white, name, lb);
    hide EndTag;
    Assoc(s, white, EndTag(name) + lb);
  }

  lemma TagPieces(s: string, name: string, lb: string)
    ensures (((s + "</") + name) + ">") + lb == s + (EndTag(name) + lb)
  {
    Assoc((s + "</") + name, ">", lb);
    Assoc(s + "</", name, ">" + lb);
    Assoc(s, "</", name + (">" + lb));
    Assoc(name, ">", lb);
    Assoc("</", name + ">", lb);
  }

  lemma TextPieces(s: string, white: string, e: string, lb: string)
    ensures ((s + white) + e) + lb == s + (white + (e + lb))
  {
  }

  class Printer {
    var depth: nat
    var simpleTextPrint: bool
    var buffer: string
    var style: Style

    constructor ()
      ensures depth == 0 && !simpleTextPrint && buffer == "" && style == Style("    ", "\n")
    {
      depth, simpleTextPrint, buffer, style := 0, false, "", Style("    ", "\n");
    }

    method SetStreamPrinting()
      modifies this`style
      ensures style == STREAM
    {
      style := STREAM;
    }

    method DoIndent()
      modifies this`buffer
      ensures buffer == old(buffer) + Indents(style, depth)
    {
      var i := 0;
      assert buffer + "" == buffer;
      while i < depth
        invariant i <= depth
        invariant buffer == old(buffer) + Indents(style, i)
      {
        IndentsNext(style, i);
        Assoc(old(buffer), Indents(style, i), style.indent);
        buffer := buffer + style.indent;
        i := i + 1;
      }
    }

    method DoLineBreak()
      modifies this`buffer
      ensures buffer == old(buffer) + style.lineBreak
    {
      buffer := buffer + style.lineBreak;
    }

    method VisitEnter(element: Node)
      requires element.Element?
      modifies this`buffer, this`depth, this`simpleTextPrint
      ensures depth == old(depth) + 1
      ensures simpleTextPrint == (old(simpleTextPrint) || Simple(element.children))
      ensures buffer == old(buffer) + Opening(element, old(depth), style)
    {
      hide PrintAttribute, PrintAttributes, Indents, CStr;
      DoIndent();
      buffer := buffer + "<";
      buffer := buffer + CStr(element.name);
      ghost var start := buffer;
      AddAttributes(element.attributes);
      ghost var printed := PrintAttributes(Passed(element.attributes));
      if element.children == [] {
        buffer := buffer + " />";
        DoLineBreak();
      } else {
        buffer := buffer + ">";
        if element.children[0].Text? && |element.children| == 1 {
          simpleTextPrint := true;
        } else {
          DoLineBreak();
        }
      }
      depth := depth + 1;
      assert buffer == (start + printed) + AfterAttributes(element, style);
      OpeningPieces(old(buffer), Indents(style, old(depth)), CStr(element.name), printed, AfterAttributes(element, style));
    }

    /** The loop of VisitEnter over the attributes, by First and Next. */
    method AddAttributes(attributes: seq<Attribute>)
      modifies this`buffer
      ensures buffer == old(buffer) + PrintAttributes(Passed(attributes))
    {
      hide PrintAttribute;
      ghost var passed := Passed(attributes);
      var i := 0;
      while i < |attributes| && (i == 0 || attributes[i] != NO_ATTRIBUTE)
        invariant i <= |passed| && PassCount(attributes, i) == PassCount(attributes, 0)
        invariant buffer + PrintAttributes(passed[i..]) == old(buffer) + PrintAttributes(passed)
      {
        AttributesNext(buffer, passed, i);
        buffer := buffer + " ";
        buffer := AppendAttribute(attributes[i], buffer);
        i := i + 1;
      }
      assert passed[i..] == [] && buffer + "" == buffer;
    }

    method VisitExit(element: Node)
      requires element.Element? && depth > 0 && (element.children != [] ==> simpleTextPrint == Simple(element.children))
      modifies this`buffer, this`depth, this`simpleTextPrint
      ensures depth == old(depth) - 1
      ensures simpleTextPrint == (old(simpleTextPrint) && element.children == [])
      ensures buffer == old(buffer) + Closing(element, depth, style)
    {
      hide Indents, CStr;
      depth := depth - 1;
      if element.children == [] {
      } else {
        if simpleTextPrint {
          simpleTextPrint := false;
        } else {
          DoIndent();
        }
        buffer := buffer + "</";
        buffer := buffer + CStr(element.name);
        buffer := buffer + ">";
        DoLineBreak();
      }
      ClosingPieces(old(buffer), Indents(style, depth), CStr(element.name), style.lineBreak);
      assert old(buffer) + "" == old(buffer);
    }

    method VisitText(value: string)
      modifies this`buffer
      ensures buffer == old(buffer) + if simpleTextPrint then Encode(value) else Print(Text(value), depth, style)
    {
      hide Indents, Encode;
      var str := EncodeString(value, "");
      assert "" + Encode(value) == Encode(value);
      if simpleTextPrint {
        buffer := buffer + str;
      } else {
        DoIndent();
        buffer := buffer + str;
        DoLineBreak();
        TextPieces(old(buffer), Indents(style, depth), Encode(value), style.lineBreak);
      }
    }

    /** Accept: visits the node and all under it. */
    method Accept(node: Node)
      requires node.Element? ==> !simpleTextPrint
      modifies this`buffer, this`depth, this`simpleTextPrint
      ensures depth == old(depth) && simpleTextPrint == old(simpleTextPrint)
      ensures node.Element? || !old(simpleTextPrint) ==> buffer == old(buffer) + Print(node, depth, style)
      ensures node.Text? && old(simpleTextPrint) ==> buffer == old(buffer) + Encode(node.value)
      decreases node
    {
      hide *;
      match node
      case Text(value) =>
        VisitText(value);
      case Element(_, _, children) =>
        VisitEnter(node);
        ghost var start := buffer;
        var i := 0;
        NothingInside(children, Simple(children), depth, style);
        ChildIs(children, 0, depth, style);
        assert start + "" == start;
        while i < |children|
          invariant i <= |children| && depth == old(depth) + 1 && simpleTextPrint == Simple(children)
          invariant buffer == start + Inside(children[..i], Simple(children), depth, style)
        {
          ChildIs(children, i, depth, style);
          InsideNext(children, i, Simple(children), depth, style);
          ghost var was := buffer;
          Accept(children[i]);
          assert buffer == was + ChildPrint(children[i], Simple(children), depth, style);
          Assoc(start, Inside(children[..i], Simple(children), depth, style), ChildPrint(children[i], Simple(children), depth, style));
          i := i + 1;
        }
        assert children[..i] == children;
        VisitExit(node);
        WholeElement(old(buffer), node, old(depth), style);
    }
  
    /** Accept of a document. */
    method AcceptDocument(nodes: seq<Node>)
      requires !simpleTextPrint
      modifies this`buffer, this`depth, this`simpleTextPrint
      ensures depth == old(depth) && !simpleTextPrint
      ensures buffer == old(buffer) + PrintAll(nodes, depth, style)
    {
      hide *;
      var i := 0;
      NoNodes(depth, style);
      assert buffer + "" == buffer && nodes[..0] == [];
      while i < |nodes|
        invariant i <= |nodes| && depth == old(depth) && !simpleTextPrint
        invariant buffer == old(buffer) + PrintAll(nodes[..i], depth, style)
      {
        Accept(nodes[i]);
        PrintAllSnoc(nodes[..i], nodes[i], depth, style);
        assert nodes[..i + 1] == nodes[..i] + [nodes[i]];
        Assoc(old(buffer), PrintAll(nodes[..i], depth, style), Print(nodes[i], depth, style));
        i := i + 1;
      }
      assert nodes[..i] == nodes;
    }
  }

  /**
    Printing a document, in stream mode or with the default indents, and parsing the print gives the
    document in normal form, which is the document itself exactly if it was in that form.
   */
  method PrintThenParse(nodes: seq<Node>, stream: bool) returns (text: string, parsed: Parse<seq<Node>>)
    requires AllSound(nodes) && (forall i | 0 <= i < |nodes| :: nodes[i].Element?) && nodes != []
    requires stream || AllTidy(nodes)
    ensures parsed == Parsed(NormalAll("", nodes), "")
    ensures parsed == Parsed(nodes, "") <==> AllCanonical(nodes)
  {
    var printer := new Printer();
    if stream {
      printer.SetStreamPrinting();
    }
    assert WhiteStyle(Style("    ", "\n"));
    DocumentNormalizes(nodes, printer.style);
    CanonicalIff(nodes);
    hide AllSound, AllTidy, AllCanonical, NormalAll, PrintAll, ParseAll;
    printer.AcceptDocument(nodes);
    text := printer.buffer;
    assert text == "" + PrintAll(nodes, 0, printer.style) == PrintAll(nodes, 0, printer.style);
    parsed := ParseDocumentAt(text);
  }

  lemma LetterIs(c: char)
    requires 'a' <= c <= 'z'
    ensures Encode([c]) == [c] && CStr([c]) == [c]
  {
    LastEncoded([c]);
    assert Escape(c) == [c];
    assert CStr([c][1..]) == "";
  }

  lemma NoAttributes()
    ensures Passed([]) == [] && PrintAttributes([]) == ""
  {
  }

  lemma OneAttribute(a: Attribute)
    ensures Passed([a]) == [a] && PrintAttributes([a]) == " " + PrintAttribute(a)
  {
    assert PassCount([a], 1) == 1;
    assert [a][1..] == [];
    hide PrintAttribute;
    assert PrintAttribute(a) + "" == PrintAttribute(a);
  }

  lemma LetterAttribute(name: char, value: char)
    requires 'a' <= name <= 'z' && 'a' <= value <= 'z'
    ensures PrintAttribute(Attribute([name], [value])) == [name, '=', '\"', value, '\"']
  {
    LetterIs(name);
    LetterIs(value);
    hide Encode;
  }

  lemma LetterElement(name: char, depth: nat, style: Style)
    requires 'a' <= name <= 'z'
    ensures Print(Element([name], [], []), depth, style) == Indents(style, depth) + (['<', name, ' ', '/', '>'] + style.lineBreak)
  {
    LetterIs(name);
    NoAttributes();
    hide Encode, CStr, Passed, PrintAttributes, Indents;
    assert "<" + ([name] + ("" + (" />" + style.lineBreak))) == ['<', name, ' ', '/', '>'] + style.lineBreak;
  }

  lemma LetterText(name: char, value: char, depth: nat, style: Style)
    requires 'a' <= name <= 'z' && 'a' <= value <= 'z'
    ensures Print(Element([name], [], [Text([value])]), depth, style) ==
              Indents(style, depth) + (['<', name, '>', value, '<', '/', name, '>'] + style.lineBreak)
  {
    LetterIs(name);
    LetterIs(value);
    NoAttributes();
    hide Encode, CStr, Passed, PrintAttributes, Indents;
    assert EndTag([name]) == ['<', '/', name, '>'];
    assert "<" + ([name] + ("" + (">" + ([value] + (EndTag([name]) + style.lineBreak))))) == ['<', name, '>', value, '<', '/', name, '>'] + style.lineBreak;
  }

  lemma TwoNodes(a: Node, b: Node, depth: nat, style: Style)
    ensures PrintAll([a, b], depth, style) == Print(a, depth, style) + Print(b, depth, style)
  {
    hide *;
    PrintAllFirst([a, b], depth, style);
    PrintAllFirst([b], depth, style);
    NoNodes(depth, style);
    assert [a, b][1..] == [b] && [b][1..] == [];
    assert Print(b, depth, style) + "" == Print(b, depth, style);
  }

  lemma NestedIs(element: Node, depth: nat, style: Style)
    requires element.Element? && element.children != [] && !Simple(element.children)
    ensures Print(element, depth, style) ==
              Indents(style, depth) + ("<" + (CStr(element.name) + (PrintAttributes(Passed(element.attributes)) +
              (">" + (style.lineBreak + (PrintAll(element.children, depth + 1, style) + (Indents(style, depth) + (EndTag(CStr(element.name)) + style.lineBreak))))))))
  {
    hide CStr, Passed, PrintAttributes, Indents, EndTag, PrintAll, Simple;
  }

  lemma DefaultIndents()
    ensures Indents(Style("    ", "\n"), 0) == "" && Indents(Style("    ", "\n"), 1) == "    "
  {
    IndentsNext(Style("    ", "\n"), 0);
  }

  lemma InLines(tag: string, attributes: string, d: string, e: string, end: string)
    ensures "" + ("<" + (tag + (attributes + (">" + ("\n" + ((d + e) + ("" + (end + "\n")))))))) == ("<" + tag + attributes + ">\n") + (d + (e + (end + "\n")))
  {
  }

  /** A print in the default style: four spaces for every level, a single text without a line of its own. */
  lemma SamplePrint()
    ensures var e := Element("a", [Attribute("b", "c")], [Element("d", [], []), Element("e", [], [Text("f")])]);
            Print(e, 0, Style("    ", "\n")) == "<a b=\"c\">\n" + ("    <d />\n" + ("    <e>f</e>\n" + "</a>\n"))
  {
    var style := Style("    ", "\n");
    var d, e: Node := Element("d", [], []), Element("e", [], [Text("f")]);
    var a: Node := Element("a", [Attribute("b", "c")], [d, e]);
    assert EndTag("a") == "</a>" && !Simple([d, e]);
    hide *;
    DefaultIndents();
    LetterElement('d', 1, style);
    LetterText('e', 'f', 1, style);
    assert "    " + (['<', 'd', ' ', '/', '>'] + "\n") == "    <d />\n";
    assert "    " + (['<', 'e', '>', 'f', '<', '/', 'e', '>'] + "\n") == "    <e>f</e>\n";
    LetterIs('a');
    LetterAttribute('b', 'c');
    OneAttribute(Attribute("b", "c"));
    NestedIs(a, 0, style);
    TwoNodes(d, e, 1, style);
    var attributes := " " + ['b', '=', '\"', 'c', '\"'];
    InLines("a", attributes, "    <d />\n", "    <e>f</e>\n", "</a>");
    assert "<" + "a" + attributes + ">\n" == "<a b=\"c\">\n" && "</a>" + "\n" == "</a>\n";
  }
}
