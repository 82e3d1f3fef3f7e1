/**
  The cursor-moving loops of the parser. A cursor is the string it points to; each method is proved
  to come to what XmlTree says parsing comes to.
 */
module XmlParser {
  import opened XmlText
  import opened XmlTree

  method SkipWhiteSpace(p0: string) returns (p: string)
    ensures p == Skip(p0)
  {
    p := p0;
    while p != "" && IsSpace(p[0])
      invariant Skip(p) == Skip(p0)
      decreases |p|
    {
      p := p[1..];
    }
  }

  method ReadNameAt(p0: string) returns (r: Parse<string>)
    ensures r == ReadName(p0)
  {
    if p0 == "" || !NameStart(p0[0]) {
      return Failed;
    }
    var p, length := p0, 0;
    while p != "" && NameChar(p[0])
      invariant length <= |p0| && p == p0[length..]
      invariant length + NameLength(p) == NameLength(p0)
      decreases |p|
    {
      p, length := p[1..], length + 1;
    }
    return Parsed(p0[..length], p);
  }

  function After(value: string, r: Parse<string>): Parse<string> {
    if r.Parsed? then Parsed(value + r.value, r.rest) else r
  }

  /** The loop that takes a value without quotes. */
  method ReadUnquoted(p0: string) returns (r: Parse<string>)
    ensures r == Unquoted(p0)
  {
    var p, value := p0, "";
    assert Unquoted(p0).Parsed? ==> "" + Unquoted(p0).value == Unquoted(p0).value;
    while p != "" && !IsSpace(p[0]) && p[0] != '/' && p[0] != '>'
      invariant Unquoted(p0) == After(value, Unquoted(p))
      decreases |p|
    {
      if p[0] == '\'' || p[0] == '\"' {
        return Failed;
      }
      if Unquoted(p[1..]).Parsed? { Assoc(value, [p[0]], Unquoted(p[1..]).value); }
      value := value + [p[0]];
      p := p[1..];
    }
    assert value + "" == value;
    return Parsed(value, p);
  }

  method ParseAttributeAt(p0: string) returns (r: Parse<Attribute>)
    ensures r == ParseAttribute(p0)
  {
    hide Skip, ReadName, Unquoted, ReadText;
    var p := SkipWhiteSpace(p0);
    var name := ReadNameAt(p);
    if !name.Parsed? {
      return Failed;
    }
    p := SkipWhiteSpace(name.rest);
    if p == "" || p[0] != '=' {
      return Failed;
    }
    p := SkipWhiteSpace(p[1..]);
    if p == "" {
      return Failed;
    }
    var value;
    if p[0] == '\'' {
      var text := ReadTextLoop(p[1..], "\'", UnknownEncoding);
      value := Value(text);
    } else if p[0] == '\"' {
      var text := ReadTextLoop(p[1..], "\"", UnknownEncoding);
      value := Value(text);
    } else {
      value := ReadUnquoted(p);
    }
    match value
    case Failed => return Failed;
    case Other => return Other;
    case Parsed(v, rest) => return Parsed(Attribute(name.value, v), rest);
  }

  /** Find of the attribute set. */
  method FindAttribute(attributes: seq<Attribute>, name: string) returns (found: bool)
    ensures found <==> Has(attributes, name)
  {
    var i := 0;
    while i < |attributes|
      invariant i <= |attributes|
      invariant forall j | 0 <= j < i :: attributes[j].name != name
    {
      if attributes[i].name == name {
        return true;
      }
      i := i + 1;
    }
    return false;
  }

  method ParseElementAt(p0: string) returns (r: Parse<Node>)
    ensures r == ParseElement(p0)
    decreases |p0|, 0
  {
    hide Skip, ReadName, ParseAttribute, ReadValue, Has, EndTag;
    var p := SkipWhiteSpace(p0);
    if p == "" || p[0] != '<' {
      return Failed;
    }
    p := SkipWhiteSpace(p[1..]);
    var name := ReadNameAt(p);
    if !name.Parsed? || name.rest == "" {
      return Failed;
    }
    p := name.rest;
    var endTag := EndTag(name.value);
    var attributes := [];
    while true
      invariant |p| < |p0| && ParseElement(p0) == ParseTag(name.value, attributes, p)
      decreases |p|
    {
      p := SkipWhiteSpace(p);
      if p == "" {
        return Failed;
      }
      if p[0] == '/' {
        p := p[1..];
        if p == "" || p[0] != '>' {
          return Failed;
        }
        return Parsed(Element(name.value, attributes, []), p[1..]);
      } else if p[0] == '>' {
        var value := ReadValueAt(p[1..]);
        match value
        case Failed => return Failed;
        case Other => return Other;
        case Parsed(children, q) =>
          var ends := StringEqual(q, endTag);
          if ends {
            return Parsed(Element(name.value, attributes, children), q[|endTag|..]);
          }
          return Failed;
      } else {
        var attribute := ParseAttributeAt(p);
        match attribute
        case Failed => return Failed;
        case Other => return Other;
        case Parsed(a, q) =>
          var found := FindAttribute(attributes, a.name);
          if q == "" || found {
            return Failed;
          }
          attributes := attributes + [a];
          p := q;
      }
    }
  }

  method IsBlank(s: string) returns (blank: bool)
    ensures blank <==> Blank(s)
  {
    var i := 0;
    while i < |s|
      invariant i <= |s|
      invariant forall j | 0 <= j < i :: IsSpace(s[j])
    {
      if !IsSpace(s[i]) {
        return false;
      }
      i := i + 1;
    }
    return true;
  }

  method ReadValueAt(p0: string) returns (r: Parse<seq<Node>>)
    ensures r == ReadValue([], p0)
    decreases |p0|, 1
  {
    hide Skip, ParseElement, Starts, ReadText, Blank, NameStart;
    var withWhiteSpace, nodes := p0, [];
    while true
      invariant |withWhiteSpace| <= |p0| && ReadValue([], p0) == ReadValue(nodes, withWhiteSpace)
      decreases |withWhiteSpace|
    {
      var p := SkipWhiteSpace(withWhiteSpace);
      if p == "" {
        return Failed;
      }
      if p[0] != '<' {
        var text := ReadTextLoop(withWhiteSpace, "<", UnknownEncoding);
        if !text.Got? {
          return Failed;
        }
        TextShrinks(withWhiteSpace);
        var blank := IsBlank(text.value);
        if !blank {
          nodes := nodes + [Text(text.value)];
        }
        withWhiteSpace := "<" + text.rest;
      } else {
        var ends := StringEqual(p, "</");
        if ends {
          return Parsed(nodes, p);
        }
        if |p| < 2 || !NameStart(p[1]) {
          return Other;
        }
        var child := ParseElementAt(p);
        match child
        case Failed => return Failed;
        case Other => return Other;
        case Parsed(node, rest) =>
          nodes := nodes + [node];
          withWhiteSpace := rest;
      }
    }
  }

  method ParseDocumentAt(p0: string) returns (r: Parse<seq<Node>>)
    ensures r == ParseAll(p0)
  {
    hide Skip, ParseElement, NameStart;
    if p0 == "" {
      return Failed;
    }
    var marked := StringEqual(p0, BYTE_ORDER_MARK);
    if marked {
      return Other;
    }
    hide Starts;
    var p, nodes := p0, [];
    while true
      invariant ParseDocument([], p0) == ParseDocument(nodes, p)
      decreases |p|
    {
      p := SkipWhiteSpace(p);
      if p == "" {
        return if nodes == [] then Failed else Parsed(nodes, "");
      }
      if p[0] != '<' {
        return if nodes == [] then Failed else Parsed(nodes, p);
      }
      if |p| < 2 || !NameStart(p[1]) {
        return Other;
      }
      var child := ParseElementAt(p);
      match child
      case Failed => return Failed;
      case Other => return Other;
      case Parsed(node, rest) =>
        nodes := nodes + [node];
        p := rest;
    }
  }
}
