/** Entity coding in UTF-8 mode: the characters of valid UTF-8 are whole, so which of those texts come back is known. */
module XmlUtf8 {
  import opened Utf8Core
  import opened Utf8Text
  import X = XmlText

  function Char(o: Octet): char {
    (o as int) as char
  }

  function Chars(s: seq<Octet>): (r: string)
    ensures |r| == |s| && forall i | 0 <= i < |s| :: r[i] == Char(s[i])
  {
    if s == [] then "" else [Char(s[0])] + Chars(s[1..])
  }

  lemma Order(o: Octet)
    ensures o < 0x80 <==> Char(o) < 0x80 as char
    ensures o < 0xc2 <==> Char(o) < 0xc2 as char
    ensures o < 0xe0 <==> Char(o) < 0xe0 as char
    ensures o < 0xf0 <==> Char(o) < 0xf0 as char
    ensures o < 0xf5 <==> Char(o) < 0xf5 as char
  {
  }

  lemma LeadTable(o: Octet)
    ensures (o < 0x80 ==> X.ByteTable(Char(o)) == 1)
    ensures (0xc2 <= o < 0xe0 ==> X.ByteTable(Char(o)) == 2)
    ensures (0xe0 <= o < 0xf0 ==> X.ByteTable(Char(o)) == 3)
    ensures (0xf0 <= o < 0xf5 ==> X.ByteTable(Char(o)) == 4)
    ensures (0x80 <= o < 0xc2 || o >= 0xf5 ==> X.ByteTable(Char(o)) == 1)
  {
    Order(o);
    hide Char;
  }

  lemma LeadRange(s: seq<Octet>)
    requires CharLength(s) > 0
    ensures var n := CharLength(s);
            (n == 1 ==> s[0] < 0x80) && (n == 2 ==> 0xc2 <= s[0] < 0xe0) && (n == 3 ==> 0xe0 <= s[0] < 0xf0) && (n == 4 ==> 0xf0 <= s[0] < 0xf5)
    ensures forall i | 1 <= i < CharLength(s) :: s[i] >= 0x80
  {
  }

  lemma CharIsWhole(s: seq<Octet>)
    requires CharLength(s) > 0
    ensures X.CharLength(Chars(s)[0], X.Utf8Encoding) == CharLength(s)
    ensures forall i | 1 <= i < CharLength(s) :: Chars(s)[i] >= 0x80 as char
  {
    LeadRange(s);
    LeadTable(s[0]);
    var n := CharLength(s);
    assert X.ByteTable(Char(s[0])) == n;
    hide CharLength, Char, X.ByteTable;
    forall i | 1 <= i < n ensures Chars(s)[i] >= 0x80 as char { Order(s[i]); }
  }

  lemma CharsFrom(s: seq<Octet>, n: nat)
    requires n <= |s|
    ensures Chars(s[n..]) == Chars(s)[n..]
  {
    hide Char;
  }

  lemma {:induction false} ValidIsWhole(s: seq<Octet>)
    requires ValidUtf8(s)
    ensures X.Whole(Chars(s), X.Utf8Encoding)
    decreases |s|
  {
    hide CharLength, Char, X.CharLength;
    if s != [] {
      CharIsWhole(s);
      CharsFrom(s, CharLength(s));
      ValidIsWhole(s[CharLength(s)..]);
    }
  }

  /** In UTF-8 mode, of the valid texts exactly those come back in which no hexadecimal reference begins. */
  lemma ValidComesBackIff(s: seq<Octet>, endTag: string, rest: string)
    requires ValidUtf8(s) && X.Delimiter(endTag)
    ensures X.ReadText(X.Encode(Chars(s)) + (endTag + rest), endTag, X.Utf8Encoding) == X.Got(Chars(s), rest) <==> X.HexFree(Chars(s))
  {
    ValidIsWhole(s);
    X.ComesBackIff(Chars(s), endTag, rest, X.Utf8Encoding);
  }

  //
  // References in UTF-8 mode.
  //

  lemma Word(cp: CodePoint)
    requires cp < 0x200000
    ensures cp as int < 0x200000 && (cp as int) as bv32 == cp
  {
  }

  lemma Below80(cp: CodePoint)
    ensures cp < 0x80 <==> cp as int < 0x80
  {
  }

  lemma Ascii(cp: CodePoint)
    requires cp < 0x80
    ensures Low8(cp) as int == cp as int
  {
  }

  lemma SameBytes(cp: CodePoint)
    ensures X.NextByte(cp) == Char(Trail0(cp)) && X.NextByte(cp >> 6) == Char(Trail6(cp)) && X.NextByte(cp >> 6 >> 6) == Char(Trail12(cp))
    ensures X.FirstByte(cp >> 6, 0xC0) == Char(Lead2(cp)) && X.FirstByte(cp >> 6 >> 6, 0xE0) == Char(Lead3(cp))
    ensures X.FirstByte(cp >> 6 >> 6 >> 6, 0xF0) == Char(Lead4(cp))
  {
  }

  lemma CharsOf2(a: Octet, b: Octet)
    ensures Chars([a, b]) == [Char(a), Char(b)]
  {
    hide Char, Chars;
  }

  lemma CharsOf3(a: Octet, b: Octet, c: Octet)
    ensures Chars([a, b, c]) == [Char(a), Char(b), Char(c)]
  {
    hide Char, Chars;
  }

  lemma CharsOf4(a: Octet, b: Octet, c: Octet, d: Octet)
    ensures Chars([a, b, c, d]) == [Char(a), Char(b), Char(c), Char(d)]
  {
    hide Char, Chars;
  }

  lemma Utf8OfIs(cp: CodePoint)
    requires 0x80 <= cp < 0x200000
    ensures X.Utf8Of(cp as int) == X.Bytes(cp)
  {
    Below80(cp);
    Word(cp);
    hide X.Bytes;
  }

  /** ConvertUTF32ToUTF8 writes what append of the UTF-8 library writes. */
  lemma Utf8OfIsEncode(cp: CodePoint)
    requires cp < 0x200000
    ensures X.Utf8Of(cp as int) == Chars(Encode(cp))
  {
    if cp < 0x80 {
      AsciiIs(cp);
    } else {
      Utf8OfIs(cp);
      SameBytes(cp);
      CharsOf2(Lead2(cp), Trail0(cp));
      CharsOf3(Lead3(cp), Trail6(cp), Trail0(cp));
      CharsOf4(Lead4(cp), Trail12(cp), Trail6(cp), Trail0(cp));
      hide Low8, Trail0, Trail6, Trail12, Lead2, Lead3, Lead4, X.NextByte, X.FirstByte, X.Utf8Of, Char, Chars;
    }
  }

  lemma AsciiIs(cp: CodePoint)
    requires cp < 0x80
    ensures X.Utf8Of(cp as int) == Chars(Encode(cp))
  {
    Ascii(cp);
    Below80(cp);
    hide Low8, Chars;
  }

  /** In UTF-8 mode a decimal reference to a scalar value is read as the UTF-8 of that value. */
  lemma DecimalReferenceIsCharacter(ds: string, ns: seq<nat>, cp: CodePoint, rest: string)
    requires X.Spells(ds, ns, 10) && IsCodePointValid(cp) && X.NumberOf(ns, 10) == cp as int
    ensures X.GetEntity("&#" + (ds + (";" + rest)), X.Utf8Encoding) == X.Got(Chars(Encode(cp)), rest)
  {
    Word(cp);
    Utf8OfIsEncode(cp);
    hide X.Spells, X.NumberOf, X.GetEntity, X.Utf8Of, Encode, Chars;
    X.DecimalReferenceReads(ds, ns, rest, X.Utf8Encoding);
  }

  /** And so is a hexadecimal one. */
  lemma HexReferenceIsCharacter(ds: string, ns: seq<nat>, cp: CodePoint, rest: string)
    requires X.Spells(ds, ns, 16) && IsCodePointValid(cp) && X.NumberOf(ns, 16) == cp as int
    ensures X.GetEntity("&#x" + (ds + (";" + rest)), X.Utf8Encoding) == X.Got(Chars(Encode(cp)), rest)
  {
    Word(cp);
    Utf8OfIsEncode(cp);
    hide X.Spells, X.NumberOf, X.GetEntity, X.Utf8Of, Encode, Chars;
    X.HexReferenceReads(ds, ns, rest, X.Utf8Encoding);
  }
}
