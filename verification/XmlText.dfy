/**
  Entity coding of TinyXML: EncodeString writes a value so that ReadText can read it back. A char is
  one byte; a pointer into a document is the string from there to the terminating zero.
 */
module XmlText {

  datatype Encoding = UnknownEncoding | Utf8Encoding | LegacyEncoding

  /** A null pointer; a pointer past the terminating zero; or what was read and where reading stopped. */
  datatype Read<+T> = Null | Overrun | Got(value: T, rest: string)

  /** The characters up to the first zero: what c_str() shows of a string. */
  function CStr(s: string): (r: string)
    ensures r <= s && '\0' !in r
    ensures |r| < |s| ==> s[|r|] == '\0'
  {
    if s == "" || s[0] == '\0' then "" else [s[0]] + CStr(s[1..])
  }

  lemma {:induction false} CStrIff(s: string)
    ensures CStr(s) == s <==> '\0' !in s
  {
    if CStr(s) != s { assert s[|CStr(s)|] == '\0'; }
  }

  //
  // Writing.
  //

  const HEX_DIGITS: string := "0123456789ABCDEF"

  function HexPair(c: char): (r: string)
    requires c < 32 as char
    ensures |r| == 2
  {
    [HEX_DIGITS[c as int / 16], HEX_DIGITS[c as int % 16]]
  }

  function Hex(c: char): string
    requires c < 32 as char
  {
    "&#x" + (HexPair(c) + ";")
  }

  function Escape(c: char): (r: string)
    ensures 1 <= |r| <= 6
  {
    if c == '&' then "&amp;"
    else if c == '<' then "&lt;"
    else if c == '>' then "&gt;"
    else if c == '\"' then "&quot;"
    else if c == '\'' then "&apos;"
    else if c < 32 as char then Hex(c)
    else [c]
  }

  /** A hexadecimal character reference begins here, or seems to. */
  predicate HexRef(s: string) {
    |s| > 2 && s[0] == '&' && s[1] == '#' && s[2] == 'x'
  }

  /** The next semicolon after the first character, or the last character. */
  function PassLength(s: string, i: nat): (n: nat)
    requires i < |s|
    ensures i <= n < |s|
    ensures n > i || i == |s| - 1
    ensures n < |s| - 1 ==> s[n] == ';'
    ensures forall k | i < k < n :: s[k] != ';'
    decreases |s| - i
  {
    if i == |s| - 1 then i
    else if s[i + 1] == ';' then i + 1
    else PassLength(s, i + 1)
  }

  /** What EncodeString writes. */
  function Encode(s: string): string {
    if s == "" then ""
    else if HexRef(s) then s[..PassLength(s, 0)] + Encode(s[PassLength(s, 0)..])
    else Escape(s[0]) + Encode(s[1..])
  }

  /** The loop that passes a reference through. */
  method PassThrough(str: string, i0: nat, outString0: string) returns (i: nat, outString: string)
    requires i0 < |str|
    ensures i == i0 + PassLength(str[i0..], 0) && outString == outString0 + str[i0..i]
  {
    i, outString := i0, outString0;
    assert str[i0..i0] == "";
    while i < |str| - 1
      invariant i0 <= i < |str|
      invariant outString == outString0 + str[i0..i]
      invariant PassLength(str[i0..], i - i0) == PassLength(str[i0..], 0)
    {
      assert str[i0..i + 1] == str[i0..i] + [str[i]];
      outString := outString + [str[i]];
      i := i + 1;
      if str[i] == ';' {
        break;
      }
    }
  }

  method EncodeString(str: string, outString0: string) returns (outString: string)
    ensures outString == outString0 + Encode(str)
  {
    hide Escape, HexRef, PassLength, Encode;
    assert Encode("") == "" by { EncodeNothing(); }
    outString := outString0;
    var i := 0;
    while i < |str|
      invariant i <= |str|
      invariant outString0 + Encode(str) == outString + Encode(str[i..])
    {
      ghost var before, start := outString, i;
      EncodeStep(str, start);
      var c := str[i];
      if c == '&' && i < |str| - 2 && str[i + 1] == '#' && str[i + 2] == 'x' {
        i, outString := PassThrough(str, i, outString);
        Assoc(before, str[start..i], Encode(str[i..]));
      } else {
        outString := outString + Escape(c);
        i := i + 1;
        Assoc(before, Escape(c), Encode(str[i..]));
      }
    }
    assert str[i..] == "" && outString + "" == outString;
  }

  lemma EncodeNothing()
    ensures Encode("") == ""
  {
  }

  lemma EncodeStep(s: string, i: nat)
    requires i < |s|
    ensures HexRef(s[i..]) <==> i < |s| - 2 && s[i] == '&' && s[i + 1] == '#' && s[i + 2] == 'x'
    ensures var n := PassLength(s[i..], 0);
            Encode(s[i..]) == if HexRef(s[i..]) then s[i..i + n] + Encode(s[i + n..]) else Escape(s[i]) + Encode(s[i + 1..])
  {
    hide Escape;
    var n := PassLength(s[i..], 0);
    assert s[i..][..n] == s[i..i + n] && s[i..][n..] == s[i + n..] && s[i..][1..] == s[i + 1..];
  }

  lemma Assoc(a: string, b: string, c: string)
    ensures a + (b + c) == (a + b) + c
  {
  }

  //
  // Reading.
  //

  /** Where the first c is, or the length. */
  function Find(t: string, c: char): (k: nat)
    ensures k <= |t|
    ensures k < |t| ==> t[k] == c
    ensures forall i | 0 <= i < k :: t[i] != c
  {
    if t == "" || t[0] == c then 0 else 1 + Find(t[1..], c)
  }

  const WORD: nat := 0x1_0000_0000
  const LONG: nat := 0x1_0000_0000_0000_0000

  function HexDigit(c: char): (d: int)
    ensures -1 <= d < 16
  {
    if '0' <= c <= '9' then c as int - '0' as int
    else if 'a' <= c <= 'f' then c as int - 'a' as int + 10
    else if 'A' <= c <= 'F' then c as int - 'A' as int + 10
    else -1
  }

  function DecDigit(c: char): (d: int)
    ensures -1 <= d < 10
  {
    if '0' <= c <= '9' then c as int - '0' as int else -1
  }

  /** The digits from the last one back to the mark; mult and the products are 32 bits wide, the sum 64. */
  function Digits(t: string, q: nat, mark: char, ucs: nat, mult: nat): (r: int)
    requires q < |t| && exists i :: 0 <= i <= q && t[i] == mark
    ensures r >= -1
    decreases q
  {
    if t[q] == mark then ucs
    else
      var d := if mark == 'x' then HexDigit(t[q]) else DecDigit(t[q]);
      if d < 0 then -1
      else Digits(t, q - 1, mark, (ucs + mult * d % WORD) % LONG, mult * (if mark == 'x' then 16 else 10) % WORD)
  }

  // ConvertUTF32ToUTF8, from the last byte to the first; a cast to char keeps the low eight bits.
  function LowByte(input: bv32): char { ((input & 0xff) as bv8 as int) as char }
  function NextByte(input: bv32): char { LowByte((input | 0x80) & 0xBF) }
  function FirstByte(input: bv32, mark: bv32): char { LowByte(input | mark) }

  function Bytes(input: bv32): (r: string)
    ensures |r| <= 4
  {
    if input < 0x800 then [FirstByte(input >> 6, 0xC0), NextByte(input)]
    else if input < 0x10000 then [FirstByte(input >> 6 >> 6, 0xE0), NextByte(input >> 6), NextByte(input)]
    else [FirstByte(input >> 6 >> 6 >> 6, 0xF0), NextByte(input >> 6 >> 6), NextByte(input >> 6), NextByte(input)]
  }

  function Utf8Of(ucs: nat): (r: string)
    ensures |r| <= 4
  {
    if ucs < 0x80 then [ucs as char]
    else if ucs < 0x200000 then Bytes(ucs as bv32)
    else ""
  }

  function Character(ucs: nat, e: Encoding): string {
    if e == Utf8Encoding then Utf8Of(ucs) else [(ucs % 256) as char]
  }

  predicate Starts(t: string, prefix: string) {
    |prefix| <= |t| && t[..|prefix|] == prefix
  }

  /** The entity at t, or nothing for an ampersand that begins none. */
  function GetEntity(t: string, e: Encoding): (r: Read<string>)
    requires t != ""
    ensures r.Got? ==> |r.rest| < |t| && r.rest == t[|t| - |r.rest|..]
    ensures !r.Overrun?
  {
    if |t| > 2 && t[1] == '#' then
      if t[2] == 'x' then
        var q := Find(t[3..], ';');
        if q == |t| - 3 then Null
        else
          var ucs := (assert t[2] == 'x'; Digits(t, q + 2, 'x', 0, 1));
          if ucs < 0 then Null else Got(Character(ucs, e), t[q + 4..])
      else
        var q := Find(t[2..], ';');
        if q == |t| - 2 then Null
        else
          var ucs := (assert t[1] == '#'; Digits(t, q + 1, '#', 0, 1));
          if ucs < 0 then Null else Got(Character(ucs, e), t[q + 3..])
    else if Starts(t, "&amp;") then Got("&", t[5..])
    else if Starts(t, "&lt;") then Got("<", t[4..])
    else if Starts(t, "&gt;") then Got(">", t[4..])
    else if Starts(t, "&quot;") then Got("\"", t[6..])
    else if Starts(t, "&apos;") then Got("\'", t[6..])
    else Got("", t[1..])
  }

  /** utf8ByteTable. */
  function ByteTable(c: char): (n: nat)
    ensures 1 <= n <= 4
  {
    if c < 0xc2 as char then 1
    else if c < 0xe0 as char then 2
    else if c < 0xf0 as char then 3
    else if c < 0xf5 as char then 4
    else 1
  }

  function CharLength(c: char, e: Encoding): (n: nat)
    ensures 1 <= n <= 4
  {
    if e == Utf8Encoding then ByteTable(c) else 1
  }

  function GetChar(t: string, e: Encoding): (r: Read<string>)
    requires t != ""
    ensures r.Got? ==> |r.rest| < |t| && r.rest == t[|t| - |r.rest|..]
  {
    var n := CharLength(t[0], e);
    if n == 1 then if t[0] == '&' then GetEntity(t, e) else Got([t[0]], t[1..])
    else if n <= |t| then Got(t[..n], t[n..])
    else Overrun
  }

  /** All up to the end tag, white space kept. An end tag that is missing takes the pointer past the zero. */
  function ReadText(t: string, endTag: string, e: Encoding): (r: Read<string>)
    requires endTag != ""
    ensures r.Got? ==> |r.rest| < |t|
    decreases |t|
  {
    if t == "" then Overrun
    else if Starts(t, endTag) then Got("", t[|endTag|..])
    else match GetChar(t, e)
      case Null => Null
      case Overrun => Overrun
      case Got(c, rest) =>
        Prefixed(c, ReadText(rest, endTag, e))
  }

  //
  // The loops of the parser.
  //

  method StringEqual(t: string, tag: string) returns (equal: bool)
    ensures equal <==> Starts(t, tag)
  {
    var i := 0;
    while i < |t| && i < |tag| && t[i] == tag[i]
      invariant i <= |t| && i <= |tag| && t[..i] == tag[..i]
    {
      i := i + 1;
    }
    equal := i == |tag|;
    if i < |t| && i < |tag| { Differs(t, tag, i); }
  }

  lemma Differs(t: string, tag: string, i: nat)
    requires i < |t| && i < |tag| && t[i] != tag[i]
    ensures !Starts(t, tag)
  {
    assert |tag| <= |t| ==> t[..|tag|][i] == t[i];
  }

  /** What is read when `text` has been read already. */
  function Prefixed(text: string, r: Read<string>): Read<string> {
    match r
    case Got(more, rest) => Got(text + more, rest)
    case _ => r
  }

  lemma PrefixedTwice(a: string, b: string, r: Read<string>)
    ensures Prefixed(a, Prefixed(b, r)) == Prefixed(a + b, r)
    ensures Prefixed("", r) == r
  {
    if r.Got? {
      Assoc(a, b, r.value);
      assert "" + r.value == r.value;
    }
  }

  /** The digit loop of GetEntity. */
  method ReadDigits(t: string, q0: nat, mark: char) returns (ucs: int)
    requires q0 < |t| && exists i :: 0 <= i <= q0 && t[i] == mark
    ensures ucs == Digits(t, q0, mark, 0, 1)
  {
    ucs := 0;
    var mult := 1;
    var q := q0;
    while t[q] != mark
      invariant q <= q0 && ucs >= 0 && mult >= 0 && exists i :: 0 <= i <= q && t[i] == mark
      invariant Digits(t, q, mark, ucs, mult) == Digits(t, q0, mark, 0, 1)
      decreases q
    {
      var d := if mark == 'x' then HexDigit(t[q]) else DecDigit(t[q]);
      if d < 0 {
        return -1;
      }
      ucs := (ucs + mult * d % WORD) % LONG;
      mult := mult * (if mark == 'x' then 16 else 10) % WORD;
      q := q - 1;
    }
  }

  const ENTITY: seq<(string, char)> := [("&amp;", '&'), ("&lt;", '<'), ("&gt;", '>'), ("&quot;", '\"'), ("&apos;", '\'')]

  /** The entity at p, by the digit loop or by the table. */
  method GetEntityAt(p: string, e: Encoding) returns (r: Read<string>)
    requires p != ""
    ensures r == GetEntity(p, e)
  {
    hide Digits, Character, Starts;
    if |p| > 2 && p[1] == '#' {
      var hex := p[2] == 'x';
      var from := if hex then 3 else 2;
      var delta := from + Find(p[from..], ';');
      if delta == |p| {
        return Null;
      }
      assert p[from - 1] == if hex then 'x' else '#';
      var ucs := ReadDigits(p, delta - 1, p[from - 1]);
      if ucs < 0 {
        return Null;
      }
      return Got(Character(ucs, e), p[delta + 1..]);
    }
    for i := 0 to |ENTITY|
      invariant forall k | 0 <= k < i :: !Starts(p, ENTITY[k].0)
    {
      if Starts(p, ENTITY[i].0) {
        StartsLength(p, ENTITY[i].0);
        EntityOfTable(p, i, e);
        return Got([ENTITY[i].1], p[|ENTITY[i].0|..]);
      }
    }
    NotInTable(p, e);
    return Got("", p[1..]);
  }

  lemma StartsLength(p: string, prefix: string)
    requires Starts(p, prefix)
    ensures |prefix| <= |p|
  {
  }

  lemma EntityOfTable(p: string, i: nat, e: Encoding)
    requires p != "" && !(|p| > 2 && p[1] == '#') && i < |ENTITY| && |ENTITY[i].0| <= |p|
    requires Starts(p, ENTITY[i].0) && forall k | 0 <= k < i :: !Starts(p, ENTITY[k].0)
    ensures GetEntity(p, e) == Got([ENTITY[i].1], p[|ENTITY[i].0|..])
  {
    hide Starts;
    assert i > 0 ==> !Starts(p, ENTITY[0].0);
    assert i > 1 ==> !Starts(p, ENTITY[1].0);
    assert i > 2 ==> !Starts(p, ENTITY[2].0);
    assert i > 3 ==> !Starts(p, ENTITY[3].0);
  }

  lemma NotInTable(p: string, e: Encoding)
    requires p != "" && !(|p| > 2 && p[1] == '#') && forall k | 0 <= k < |ENTITY| :: !Starts(p, ENTITY[k].0)
    ensures GetEntity(p, e) == Got("", p[1..])
  {
    hide Starts;
    assert !Starts(p, ENTITY[0].0) && !Starts(p, ENTITY[1].0) && !Starts(p, ENTITY[2].0) && !Starts(p, ENTITY[3].0) && !Starts(p, ENTITY[4].0);
  }

  /** The character at p, copied byte by byte. */
  method GetCharAt(p: string, e: Encoding) returns (r: Read<string>)
    requires p != ""
    ensures r == GetChar(p, e)
  {
    hide GetEntity, ByteTable;
    var length := CharLength(p[0], e);
    if length == 1 {
      if p[0] == '&' {
        r := GetEntityAt(p, e);
        return;
      }
      return Got([p[0]], p[1..]);
    }
    var value, i := "", 0;
    while i < |p| && i < length
      invariant i <= |p| && i <= length && value == p[..i]
    {
      value, i := value + [p[i]], i + 1;
    }
    return if i == length then Got(value, p[length..]) else Overrun;
  }

  method ReadTextLoop(t: string, endTag: string, e: Encoding) returns (r: Read<string>)
    requires endTag != ""
    ensures r == ReadText(t, endTag, e)
  {
    hide GetChar;
    var text, p := "", t;
    PrefixedTwice("", "", ReadText(t, endTag, e));
    while true
      invariant ReadText(t, endTag, e) == Prefixed(text, ReadText(p, endTag, e))
      decreases |p|
    {
      if p == "" {
        return Overrun;
      }
      var equal := StringEqual(p, endTag);
      if equal {
        assert text + "" == text;
        return Got(text, p[|endTag|..]);
      }
      var next := GetCharAt(p, e);
      match next
      case Null => return Null;
      case Overrun => return Overrun;
      case Got(c, rest) =>
        PrefixedTwice(text, c, ReadText(rest, endTag, e));
        text, p := text + c, rest;
    }
  }

  //
  // Reading back what was written.
  //

  /** No hexadecimal character reference begins anywhere in s. */
  predicate HexFree(s: string) {
    s == "" || (!HexRef(s) && HexFree(s[1..]))
  }

  /** A single character that EncodeString always escapes. */
  predicate Delimiter(endTag: string) {
    endTag == "<" || endTag == "\"" || endTag == "\'"
  }

  /** Every multi-byte character is whole, its further bytes above the ASCII range. */
  predicate Whole(s: string, e: Encoding) {
    s == "" ||
    (var n := CharLength(s[0], e);
     n <= |s| && (forall i | 1 <= i < n :: s[i] >= 0x80 as char) && Whole(s[n..], e))
  }

  lemma HexReads(c: char, rest: string, e: Encoding)
    requires c < 32 as char
    ensures GetEntity(Hex(c) + rest, e) == Got([c], rest)
  {
    hide *;
    ControlSpells(c);
    HexReferenceReads(HexPair(c), [c as int / 16, c as int % 16], rest, e);
    CharacterSize(c as int, e);
    HexIs(c, rest);
  }

  lemma ControlSpells(c: char)
    requires c < 32 as char
    ensures var ns := [c as int / 16, c as int % 16]; Spells(HexPair(c), ns, 16) && NumberOf(ns, 16) == c as int < WORD
  {
    var hi, lo := c as int / 16, c as int % 16;
    assert IsDigit(HEX_DIGITS[hi], hi, 16) && IsDigit(HEX_DIGITS[lo], lo, 16);
    TwoDigits(hi, lo, 16);
    hide IsDigit, NumberOf;
  }

  lemma HexIs(c: char, rest: string)
    requires c < 32 as char
    ensures Hex(c) + rest == "&#x" + (HexPair(c) + (";" + rest))
  {
    hide HexPair;
  }

  //
  // Numbers.
  //

  const SMALL_DIGITS: string := "0123456789abcdef"

  /** c is the digit n of this base, in lower or upper case. */
  predicate IsDigit(c: char, n: nat, base: nat) {
    n < base <= 16 && (c == SMALL_DIGITS[n] || c == HEX_DIGITS[n])
  }

  /** The digits of ds are the numbers of ns. */
  predicate Spells(ds: string, ns: seq<nat>, base: nat) {
    |ds| == |ns| && forall i | 0 <= i < |ds| :: IsDigit(ds[i], ns[i], base)
  }

  function NumberOf(ns: seq<nat>, base: nat): nat {
    if ns == [] then 0 else base * NumberOf(ns[..|ns| - 1], base) + ns[|ns| - 1]
  }

  predicate NoDigit(c: char, base: nat) {
    forall n: nat | n < 16 :: !IsDigit(c, n, base)
  }

  lemma HexDigitIs(c: char)
    ensures forall n: nat :: IsDigit(c, n, 16) ==> HexDigit(c) == n && c != 'x' && c != ';'
    ensures HexDigit(c) >= 0 ==> IsDigit(c, HexDigit(c), 16)
  {
    forall n: nat | IsDigit(c, n, 16) ensures HexDigit(c) == n && c != 'x' && c != ';' { HexDigits(n); }
  }

  lemma HexDigits(n: nat)
    requires n < 16
    ensures HexDigit(HEX_DIGITS[n]) == n == HexDigit(SMALL_DIGITS[n])
    ensures HEX_DIGITS[n] != 'x' && HEX_DIGITS[n] != ';' && SMALL_DIGITS[n] != 'x' && SMALL_DIGITS[n] != ';'
  {
  }

  lemma DecDigitIs(c: char)
    ensures forall n: nat :: IsDigit(c, n, 10) ==> DecDigit(c) == n && c != '#' && c != 'x' && c != ';'
    ensures DecDigit(c) >= 0 ==> IsDigit(c, DecDigit(c), 10)
  {
    forall n: nat | IsDigit(c, n, 10) ensures DecDigit(c) == n && c != '#' && c != 'x' && c != ';' { }
  }

  predicate MarkOf(mark: char, base: nat) {
    (mark == 'x' && base == 16) || (mark == '#' && base == 10)
  }

  /** The digit that is read at t[q], and what it is worth. */
  lemma DigitIs(c: char, n: nat, mark: char, base: nat)
    requires MarkOf(mark, base) && IsDigit(c, n, base)
    ensures c != mark && (if mark == 'x' then HexDigit(c) else DecDigit(c)) == n
  {
    HexDigitIs(c);
    DecDigitIs(c);
    hide HexDigit, DecDigit;
  }

  lemma TermFits(p: nat, d: nat)
    requires p * d < WORD
    ensures (p % WORD) * d % WORD == p * d
  {
    if d > 0 {
      Grows(p, d);
      Small(p, WORD);
      Small(p * d, WORD);
    } else {
      assert p * d == 0 && (p % WORD) * d == 0;
    }
  }

  lemma Grows(p: nat, d: nat)
    requires d > 0
    ensures p <= p * d
  {
  }

  lemma PowerWraps(p: nat, base: nat)
    ensures (p % WORD) * base % WORD == p * base % WORD
  {
    var q, r := p / WORD, p % WORD;
    assert p == WORD * q + r;
    Spread(q, r, base);
    Multiples(r * base, q * base);
  }

  lemma Spread(q: nat, r: nat, base: nat)
    ensures (WORD * q + r) * base == r * base + WORD * (q * base)
  {
  }

  lemma Multiples(x: nat, k: nat)
    ensures (x + WORD * k) % WORD == x % WORD
  {
    if k > 0 {
      Multiples(x, k - 1);
      assert x + WORD * k == (x + WORD * (k - 1)) + WORD;
    }
  }

  lemma Small(x: nat, m: nat)
    requires x < m
    ensures x % m == x
  {
  }

  lemma Horner(p: nat, base: nat, v: nat, d: nat)
    ensures p * (base * v + d) == (p * base) * v + p * d
  {
  }

  lemma SpellsLast(t: string, b: nat, q: nat, ns: seq<nat>, base: nat)
    requires b < q < |t| && ns != [] && Spells(t[b + 1..q + 1], ns, base)
    ensures |ns| == q - b && IsDigit(t[q], ns[|ns| - 1], base) && Spells(t[b + 1..q], ns[..|ns| - 1], base)
  {
    hide IsDigit;
    assert t[b + 1..q + 1][|ns| - 1] == t[q];
    assert t[b + 1..q] == t[b + 1..q + 1][..|ns| - 1];
  }

  function Times(a: nat, b: nat): nat { a * b }

  /** The last digit taken off, with its weight; none of the products wraps. */
  lemma NumberLast(ns: seq<nat>, base: nat, ucs: nat, p: nat)
    requires ns != [] && ucs + Times(p, NumberOf(ns, base)) < WORD
    ensures var init, d := ns[..|ns| - 1], ns[|ns| - 1];
            Times(p, NumberOf(ns, base)) == Times(Times(p, base), NumberOf(init, base)) + Times(p, d)
  {
    Horner(p, base, NumberOf(ns[..|ns| - 1], base), ns[|ns| - 1]);
  }

  lemma NoNumber(t: string, b: nat, q: nat, base: nat, p: nat)
    requires b <= q < |t| && Spells(t[b + 1..q + 1], [], base)
    ensures q == b && Times(p, NumberOf([], base)) == 0
  {
  }

  /** The digits from the last one back to the mark, with the sum and the factor so far: the number they write. */
  lemma {:induction false} DigitsAre(t: string, b: nat, q: nat, ns: seq<nat>, mark: char, base: nat, ucs: nat, p: nat)
    requires b <= q < |t| && t[b] == mark && MarkOf(mark, base) && Spells(t[b + 1..q + 1], ns, base)
    requires ucs + Times(p, NumberOf(ns, base)) < WORD
    ensures Digits(t, q, mark, ucs, p % WORD) == ucs + Times(p, NumberOf(ns, base))
    decreases |ns|
  {
    hide *;
    SpellsSize(t[b + 1..q + 1], ns, base);
    if ns == [] {
      NoNumber(t, b, q, base, p);
      DigitsEnd(t, q, mark, ucs, p % WORD);
    } else {
      var init, d := ns[..|ns| - 1], ns[|ns| - 1];
      SpellsLast(t, b, q, ns, base);
      NumberLast(ns, base, ucs, p);
      DigitIs(t[q], d, mark, base);
      DigitStep(t, b, q, mark, base, ucs, p, d);
      DigitsAre(t, b, q - 1, init, mark, base, ucs + Times(p, d), Times(p, base));
    }
  }

  lemma DigitsEnd(t: string, q: nat, mark: char, ucs: nat, mult: nat)
    requires q < |t| && t[q] == mark
    ensures Digits(t, q, mark, ucs, mult) == ucs
  {
  }

  lemma SpellsSize(ds: string, ns: seq<nat>, base: nat)
    requires Spells(ds, ns, base)
    ensures |ds| == |ns|
  {
  }

  lemma WordInLong(x: nat)
    requires x < WORD
    ensures x % LONG == x
  {
  }

  lemma DigitStep(t: string, b: nat, q: nat, mark: char, base: nat, ucs: nat, p: nat, d: nat)
    requires b < q < |t| && t[b] == mark && t[q] != mark && MarkOf(mark, base) && (if mark == 'x' then HexDigit(t[q]) else DecDigit(t[q])) == d
    requires ucs + Times(p, d) < WORD
    ensures Digits(t, q, mark, ucs, p % WORD) == Digits(t, q - 1, mark, ucs + Times(p, d), Times(p, base) % WORD)
  {
    TermFits(p, d);
    PowerWraps(p, base);
    WordInLong(ucs + Times(p, d));
    OneStep(t, b, q, mark, base, ucs, p % WORD, d);
    hide Digits, HexDigit, DecDigit;
  }

  lemma OneStep(t: string, b: nat, q: nat, mark: char, base: nat, ucs: nat, mult: nat, d: nat)
    requires b < q < |t| && t[b] == mark && t[q] != mark && MarkOf(mark, base) && (if mark == 'x' then HexDigit(t[q]) else DecDigit(t[q])) == d
    ensures Digits(t, q, mark, ucs, mult) == Digits(t, q - 1, mark, (ucs + mult * d % WORD) % LONG, mult * base % WORD)
  {
    hide HexDigit, DecDigit;
  }

  /** What is no digit makes the reference none. */
  lemma {:induction false} DigitsFail(t: string, b: nat, q: nat, i: nat, mark: char, base: nat, ucs: nat, mult: nat)
    requires b < i <= q < |t| && t[b] == mark && MarkOf(mark, base) && NoDigit(t[i], base) && forall k | b < k <= q :: t[k] != mark
    ensures Digits(t, q, mark, ucs, mult) == -1
    decreases q
  {
    hide HexDigit, DecDigit;
    if q == i {
      NoDigitIs(t[i], mark, base);
    } else {
      var d := if mark == 'x' then HexDigit(t[q]) else DecDigit(t[q]);
      if d >= 0 {
        DigitsFail(t, b, q - 1, i, mark, base, (ucs + mult * d % WORD) % LONG, mult * (if mark == 'x' then 16 else 10) % WORD);
      }
    }
  }

  lemma NoDigitIs(c: char, mark: char, base: nat)
    requires MarkOf(mark, base) && NoDigit(c, base)
    ensures (if mark == 'x' then HexDigit(c) else DecDigit(c)) < 0
  {
    HexDigitIs(c);
    DecDigitIs(c);
    hide HexDigit, DecDigit, IsDigit;
  }

  lemma NoSemicolon(ds: string, ns: seq<nat>, base: nat)
    requires Spells(ds, ns, base) && (base == 10 || base == 16)
    ensures forall i | 0 <= i < |ds| :: ds[i] != ';' && ds[i] != 'x' && ds[i] != '#'
  {
    forall i | 0 <= i < |ds| ensures ds[i] != ';' && ds[i] != 'x' && ds[i] != '#' {
      assert IsDigit(ds[i], ns[i], base);
      HexDigitIs(ds[i]);
      DecDigitIs(ds[i]);
      NoMark(ds[i], ns[i]);
    }
  }

  lemma NoMark(c: char, n: nat)
    requires n < 16 && (c == SMALL_DIGITS[n] || c == HEX_DIGITS[n])
    ensures c != '#' && c != 'x' && c != ';'
  {
  }

  lemma TwoDigits(hi: nat, lo: nat, base: nat)
    ensures NumberOf([hi, lo], base) == base * hi + lo
  {
    assert [hi, lo][..1] == [hi] && [hi][..0] == [];
    assert NumberOf([hi], base) == base * NumberOf([], base) + hi == hi;
  }

  /** A hexadecimal reference stands for the character of its number, as long as that fits 32 bits. */
  lemma HexReferenceReads(ds: string, ns: seq<nat>, rest: string, e: Encoding)
    requires Spells(ds, ns, 16) && NumberOf(ns, 16) < WORD
    ensures GetEntity("&#x" + (ds + (";" + rest)), e) == Got(Character(NumberOf(ns, 16), e), rest)
  {
    hide *;
    var t := "&#x" + (ds + (";" + rest));
    NoSemicolon(ds, ns, 16);
    Places("&#x", ds, rest, t);
    HexReference(t, ds, rest, e);
    One(NumberOf(ns, 16));
    assert t[3..3 + |ds|] == ds && t[2] == 'x';
    HexMark();
    DigitsAre(t, 2, |ds| + 2, ns, 'x', 16, 0, 1);
  }

  /** And a decimal one. */
  lemma DecimalReferenceReads(ds: string, ns: seq<nat>, rest: string, e: Encoding)
    requires Spells(ds, ns, 10) && NumberOf(ns, 10) < WORD
    ensures GetEntity("&#" + (ds + (";" + rest)), e) == Got(Character(NumberOf(ns, 10), e), rest)
  {
    hide *;
    var t := "&#" + (ds + (";" + rest));
    NoSemicolon(ds, ns, 10);
    Places("&#", ds, rest, t);
    DecimalReference(t, ds, rest, e);
    One(NumberOf(ns, 10));
    assert t[2..2 + |ds|] == ds && t[1] == '#';
    HexMark();
    DigitsAre(t, 1, |ds| + 1, ns, '#', 10, 0, 1);
  }

  lemma HexMark()
    ensures MarkOf('x', 16) && MarkOf('#', 10)
  {
  }

  lemma One(n: nat)
    ensures Times(1, n) == n && 1 % WORD == 1
  {
  }

  /** What GetEntity does with the characters between the mark and the first semicolon. */
  lemma HexReference(t: string, ds: string, rest: string, e: Encoding)
    requires t == "&#x" + (ds + (";" + rest)) && forall i | 0 <= i < |ds| :: ds[i] != ';'
    ensures |t| == |ds| + 4 + |rest| && t[2] == 'x'
    ensures GetEntity(t, e) == var ucs := Digits(t, |ds| + 2, 'x', 0, 1); if ucs < 0 then Null else Got(Character(ucs, e), rest)
  {
    Places("&#x", ds, rest, t);
    assert t[1] == '#' && t[2] == 'x';
    hide *;
    FindBefore(t[3..], ';', |ds|);
    HexStep(t, |ds|, e);
  }

  lemma HexStep(t: string, q: nat, e: Encoding)
    requires |t| > 3 + q && t[1] == '#' && t[2] == 'x' && Find(t[3..], ';') == q
    ensures GetEntity(t, e) == var ucs := Digits(t, q + 2, 'x', 0, 1); if ucs < 0 then Null else Got(Character(ucs, e), t[q + 4..])
  {
    hide Digits, Find, Character, Starts;
  }

  lemma DecimalReference(t: string, ds: string, rest: string, e: Encoding)
    requires t == "&#" + (ds + (";" + rest)) && (forall i | 0 <= i < |ds| :: ds[i] != ';') && (ds != "" ==> ds[0] != 'x')
    ensures |t| == |ds| + 3 + |rest| && t[1] == '#'
    ensures GetEntity(t, e) == var ucs := Digits(t, |ds| + 1, '#', 0, 1); if ucs < 0 then Null else Got(Character(ucs, e), rest)
  {
    Places("&#", ds, rest, t);
    assert t[1] == '#' && t[2] == t[2..][0] && t[2] != 'x';
    hide *;
    FindBefore(t[2..], ';', |ds|);
    DecimalStep(t, |ds|, e);
  }

  lemma DecimalStep(t: string, q: nat, e: Encoding)
    requires |t| > 2 + q && t[1] == '#' && t[2] != 'x' && Find(t[2..], ';') == q
    ensures GetEntity(t, e) == var ucs := Digits(t, q + 1, '#', 0, 1); if ucs < 0 then Null else Got(Character(ucs, e), t[q + 3..])
  {
    hide Digits, Find, Character, Starts;
  }

  lemma Places(mark: string, ds: string, rest: string, t: string)
    requires t == mark + (ds + (";" + rest))
    ensures |t| == |mark| + |ds| + 1 + |rest| && t[..|mark|] == mark
    ensures t[|mark|..|mark| + |ds|] == ds && t[|mark| + |ds|] == ';' && t[|mark| + |ds| + 1..] == rest
    ensures forall i | 0 <= i < |ds| :: t[|mark|..][i] == ds[i]
    ensures t[|mark|..][|ds|] == ';'
  {
  }

  /** Anything but digits up to the first semicolon makes a reference none, and so does no semicolon at all. */
  lemma ReferenceFails(hex: bool, ds: string, i: nat, rest: string, e: Encoding)
    requires ';' !in ds && i < |ds| && NoDigit(ds[i], if hex then 16 else 10)
    requires if hex then 'x' !in ds else ds[0] != 'x' && '#' !in ds
    ensures GetEntity((if hex then "&#x" else "&#") + (ds + (";" + rest)), e) == Null
  {
    hide *;
    HexMark();
    if hex {
      var t := "&#x" + (ds + (";" + rest));
      HexReference(t, ds, rest, e);
      InPlace("&#x", ds, rest, t);
      DigitsFail(t, 2, |ds| + 2, 3 + i, 'x', 16, 0, 1);
    } else {
      var t := "&#" + (ds + (";" + rest));
      DecimalReference(t, ds, rest, e);
      InPlace("&#", ds, rest, t);
      DigitsFail(t, 1, |ds| + 1, 2 + i, '#', 10, 0, 1);
    }
  }

  lemma InPlace(mark: string, ds: string, rest: string, t: string)
    requires t == mark + (ds + (";" + rest))
    ensures |t| > |mark| + |ds| && forall k | |mark| <= k < |mark| + |ds| :: t[k] == ds[k - |mark|]
  {
  }

  lemma NoSemicolonFails(t: string, e: Encoding)
    requires |t| > 2 && t[0] == '&' && t[1] == '#' && forall i | 2 <= i < |t| :: t[i] != ';'
    ensures GetEntity(t, e) == Null
  {
    hide Digits;
  }

  //
  // The predefined entities.
  //

  lemma AmpReads(rest: string, e: Encoding)
    ensures GetEntity("&amp;" + rest, e) == Got("&", rest)
  {
    Predefined("&amp;", rest);
  }

  lemma LtReads(rest: string, e: Encoding)
    ensures GetEntity("&lt;" + rest, e) == Got("<", rest)
  {
    Predefined("&lt;", rest);
    Differs("&lt;" + rest, "&amp;", 1);
    hide Starts;
  }

  lemma GtReads(rest: string, e: Encoding)
    ensures GetEntity("&gt;" + rest, e) == Got(">", rest)
  {
    Predefined("&gt;", rest);
    Differs("&gt;" + rest, "&amp;", 1);
    Differs("&gt;" + rest, "&lt;", 1);
    hide Starts;
  }

  lemma QuotReads(rest: string, e: Encoding)
    ensures GetEntity("&quot;" + rest, e) == Got("\"", rest)
  {
    Predefined("&quot;", rest);
    Differs("&quot;" + rest, "&amp;", 1);
    Differs("&quot;" + rest, "&lt;", 1);
    Differs("&quot;" + rest, "&gt;", 1);
    hide Starts;
  }

  lemma AposReads(rest: string, e: Encoding)
    ensures GetEntity("&apos;" + rest, e) == Got("\'", rest)
  {
    Predefined("&apos;", rest);
    Differs("&apos;" + rest, "&amp;", 2);
    Differs("&apos;" + rest, "&lt;", 1);
    Differs("&apos;" + rest, "&gt;", 1);
    Differs("&apos;" + rest, "&quot;", 1);
    hide Starts;
  }

  /** An escape is read as its character, whatever follows. */
  lemma EscapeReads(c: char, rest: string, e: Encoding)
    requires CharLength(c, e) == 1
    ensures GetChar(Escape(c) + rest, e) == Got([c], rest)
  {
    hide GetEntity, Hex;
    if c == '&' { AmpReads(rest, e); }
    else if c == '<' { LtReads(rest, e); }
    else if c == '>' { GtReads(rest, e); }
    else if c == '\"' { QuotReads(rest, e); }
    else if c == '\'' { AposReads(rest, e); }
    else if c < 32 as char { HexReads(c, rest, e); HexStarts(c); }
    else { assert ([c] + rest)[1..] == rest; }
  }

  lemma HexStarts(c: char)
    requires c < 32 as char
    ensures Hex(c)[..3] == "&#x" && Hex(c)[0] == '&'
  {
  }

  lemma Predefined(name: string, rest: string)
    requires |name| >= 4
    ensures Starts(name + rest, name) && (name + rest)[|name|..] == rest
    ensures forall i | 0 <= i < |name| :: (name + rest)[i] == name[i]
  {
  }

  lemma EscapeIsNoDelimiter(c: char, rest: string, endTag: string)
    requires Delimiter(endTag)
    ensures !Starts(Escape(c) + rest, endTag)
  {
    assert (Escape(c) + rest)[0] == Escape(c)[0];
  }

  lemma PlainFirst(s: string)
    requires s != "" && s[0] >= 0x80 as char
    ensures Encode(s) == [s[0]] + Encode(s[1..])
    ensures HexFree(s) <==> HexFree(s[1..])
  {
    assert !HexRef(s) && (HexFree(s) <==> HexFree(s[1..]));
    EncodeFirst(s);
    EscapePlain(s[0]);
    hide *;
  }

  lemma EscapePlain(c: char)
    requires c >= 0x80 as char
    ensures Escape(c) == [c]
  {
  }

  /** Bytes above the ASCII range are written as they are. */
  lemma {:induction false} EncodeHigh(s: string, n: nat)
    requires n <= |s| && forall i | 0 <= i < n :: s[i] >= 0x80 as char
    ensures Encode(s) == s[..n] + Encode(s[n..])
    ensures HexFree(s) <==> HexFree(s[n..])
  {
    hide Encode, HexFree;
    if n > 0 {
      PlainFirst(s);
      var u := s[1..];
      EncodeHigh(u, n - 1);
      assert u[n - 1..] == s[n..];
      assert [s[0]] + u[..n - 1] == s[..n];
      Assoc([s[0]], u[..n - 1], Encode(s[n..]));
    } else {
      assert s[0..] == s && s[..0] + Encode(s) == Encode(s);
    }
  }

  lemma EncodeFirst(s: string)
    requires s != "" && !HexRef(s)
    ensures Encode(s) == Escape(s[0]) + Encode(s[1..])
  {
  }

  /** One character of a text, then the rest of it. */
  lemma ReadStep(c: string, more: string, endTag: string, e: Encoding, t: string)
    requires endTag != "" && t != "" && !Starts(t, endTag) && GetChar(t, e) == Got(c, more)
    ensures ReadText(t, endTag, e) == Prefixed(c, ReadText(more, endTag, e))
  {
    hide GetChar;
  }

  lemma ReadEscaped(s: string, after: string, endTag: string, e: Encoding)
    requires s != "" && !HexRef(s) && CharLength(s[0], e) == 1 && Delimiter(endTag)
    ensures var t := Encode(s) + after;
            t != "" && !Starts(t, endTag) && GetChar(t, e) == Got([s[0]], Encode(s[1..]) + after)
  {
    var more := Encode(s[1..]) + after;
    EncodeFirst(s);
    Assoc(Escape(s[0]), Encode(s[1..]), after);
    EscapeReads(s[0], more, e);
    EscapeIsNoDelimiter(s[0], more, endTag);
    hide GetChar, Encode, Escape, Starts;
  }

  lemma ReadWhole(s: string, after: string, endTag: string, e: Encoding)
    requires s != "" && Whole(s, e) && CharLength(s[0], e) > 1 && Delimiter(endTag)
    ensures var t, n := Encode(s) + after, CharLength(s[0], e);
            t != "" && !Starts(t, endTag) && GetChar(t, e) == Got(s[..n], Encode(s[n..]) + after) && (HexFree(s) <==> HexFree(s[n..]))
  {
    var n, t := CharLength(s[0], e), Encode(s) + after;
    EncodeHigh(s, n);
    hide Encode, HexFree, GetEntity;
    Assoc(s[..n], Encode(s[n..]), after);
    assert t[0] == s[0] && t[..n] == s[..n] && t[n..] == Encode(s[n..]) + after;
    Differs(t, endTag, 0);
  }

  /** Reading goes through what was written for a text, whatever follows. */
  lemma {:induction false} ReadOn(s: string, after: string, endTag: string, e: Encoding)
    requires HexFree(s) && Whole(s, e) && Delimiter(endTag)
    ensures endTag != "" && ReadText(Encode(s) + after, endTag, e) == Prefixed(s, ReadText(after, endTag, e))
    decreases |s|
  {
    DelimiterIsSome(endTag);
    hide *;
    if s == "" {
      EncodeNothing();
      assert "" + after == after;
      PrefixedTwice("", "", ReadText(after, endTag, e));
    } else {
      var n := CharLength(s[0], e);
      var t, more := Encode(s) + after, Encode(s[n..]) + after;
      ReadFirst(s, after, endTag, e);
      ReadOn(s[n..], after, endTag, e);
      ReadStep(s[..n], more, endTag, e, t);
      InTwo(s, n, ReadText(after, endTag, e));
    }
  }

  lemma InTwo(s: string, n: nat, r: Read<string>)
    requires n <= |s|
    ensures Prefixed(s[..n], Prefixed(s[n..], r)) == Prefixed(s, r)
  {
    PrefixedTwice(s[..n], s[n..], r);
    assert s[..n] + s[n..] == s;
    hide Prefixed;
  }

  lemma DelimiterIsSome(endTag: string)
    requires Delimiter(endTag)
    ensures endTag != ""
  {
  }

  /**
    ReadText undoes EncodeString: it comes out with the original just past the delimiter. In UTF-8
    mode the characters of the text have to be whole.
   */
  lemma ReadBack(s: string, endTag: string, rest: string, e: Encoding)
    requires HexFree(s) && Whole(s, e) && Delimiter(endTag)
    ensures ReadText(Encode(s) + (endTag + rest), endTag, e) == Got(s, rest)
  {
    hide *;
    ReadOn(s, endTag + rest, endTag, e);
    ReadNothing(endTag, rest, e);
    EncodeNothing();
    assert "" + (endTag + rest) == endTag + rest;
    PrefixGot(s, "", rest);
    assert s + "" == s;
  }

  lemma ReadNothing(endTag: string, rest: string, e: Encoding)
    requires Delimiter(endTag)
    ensures ReadText(Encode("") + (endTag + rest), endTag, e) == Got("", rest)
  {
    var after := endTag + rest;
    assert Encode("") + after == after;
    assert after[..|endTag|] == endTag && after[|endTag|..] == rest;
  }

  /** The first character of a text comes back, and leaves the rest of what was written. */
  lemma ReadFirst(s: string, after: string, endTag: string, e: Encoding)
    requires s != "" && HexFree(s) && Whole(s, e) && Delimiter(endTag)
    ensures endTag != "" && 1 <= CharLength(s[0], e) <= |s|
    ensures var t, n := Encode(s) + after, CharLength(s[0], e);
            t != "" && !Starts(t, endTag) && GetChar(t, e) == Got(s[..n], Encode(s[n..]) + after) && HexFree(s[n..]) && Whole(s[n..], e)
  {
    var n := CharLength(s[0], e);
    assert n <= |s| && Whole(s[n..], e);
    if n == 1 {
      assert !HexRef(s) && HexFree(s[n..]);
      hide *;
      ReadEscaped(s, after, endTag, e);
      assert s[..1] == [s[0]];
    } else {
      hide *;
      ReadWhole(s, after, endTag, e);
    }
  }

  lemma PrefixGot(a: string, b: string, rest: string)
    ensures Prefixed(a, Got(b, rest)) == Got(a + b, rest)
  {
  }

  /** What is written for a text without references holds no delimiter, and nothing below the printable range. */
  lemma {:induction false} EncodedIsClean(s: string)
    requires HexFree(s)
    ensures forall c | c in Encode(s) :: c >= 32 as char && c != '<' && c != '>' && c != '\"' && c != '\''
  {
    if s != "" {
      EscapeIsClean(s[0]);
      hide Escape;
      EncodedIsClean(s[1..]);
    }
  }

  lemma EscapeIsClean(c: char)
    ensures forall d | d in Escape(c) :: d >= 32 as char && d != '<' && d != '>' && d != '\"' && d != '\''
  {
    if c < 32 as char {
      forall n: nat | n < 16 ensures '0' <= HEX_DIGITS[n] <= 'F' && HEX_DIGITS[n] != '<' && HEX_DIGITS[n] != '>' { }
    }
  }

  //
  // A text with a reference in it does not come back.
  //

  lemma CharacterSize(ucs: nat, e: Encoding)
    ensures |Character(ucs, e)| <= 4 && (ucs < 0x80 ==> Character(ucs, e) == [ucs as char])
  {
  }

  /** An entity is no shorter than the character it stands for, and ends at its first semicolon. */
  lemma EntityShrinks(t: string, e: Encoding)
    requires HexRef(t)
    ensures var r, j := GetChar(t, e), 3 + Find(t[3..], ';');
            r.Got? ==> j < |t| && r.rest == t[j + 1..] && Digits(t, j - 1, 'x', 0, 1) >= 0 &&
                       r.value == Character(Digits(t, j - 1, 'x', 0, 1), e) && |r.value| <= j
  {
    var j := 3 + Find(t[3..], ';');
    assert j == 3 ==> Digits(t, 2, 'x', 0, 1) == 0;
    if j < |t| && Digits(t, j - 1, 'x', 0, 1) >= 0 { CharacterSize(Digits(t, j - 1, 'x', 0, 1), e); }
    hide Digits, Character;
  }

  lemma FindBefore(t: string, c: char, k: nat)
    requires k < |t| && t[k] == c && forall i | 0 <= i < k :: t[i] != c
    ensures Find(t, c) == k
  {
  }

  lemma EscapeSemicolon(c: char)
    requires c != ';'
    ensures forall i | 0 <= i < |Escape(c)| - 1 :: Escape(c)[i] != ';'
  {
    if c < 32 as char {
      forall n: nat | n < 16 ensures HEX_DIGITS[n] != ';' { }
    }
  }

  lemma PassFacts(s: string)
    requires HexRef(s)
    ensures var n := PassLength(s, 0);
            2 <= n < |s| && (forall i | 0 < i < n :: s[i] != ';') && (s[n] == ';' || n == |s| - 1) && (s[n] == ';' ==> n > 2)
    ensures Encode(s) == s[..PassLength(s, 0)] + Encode(s[PassLength(s, 0)..])
  {
    assert PassLength(s, 0) != 1;
    hide PassLength;
  }

  /** A text with nothing to escape is written as it is. */
  lemma {:induction false} EncodeKeeps(s: string)
    requires forall i | 0 <= i < |s| :: s[i] >= 32 as char && s[i] !in "&<>\"'"
    ensures Encode(s) == s
  {
    EncodeNothing();
    if s != "" {
      PlainFirstIs(s[0]);
      EncodeFirst(s);
      EncodeKeeps(s[1..]);
      hide Encode, Escape;
      assert [s[0]] + s[1..] == s;
    }
  }

  lemma PlainFirstIs(c: char)
    requires c >= 32 as char && c !in "&<>\"'"
    ensures Escape(c) == [c] && c != '&'
  {
    var specials := "&<>\"'";
    assert c != specials[0] && c != specials[1] && c != specials[2] && c != specials[3] && c != specials[4];
  }

  lemma PassTo(s: string, n: nat)
    requires HexRef(s) && 2 < n < |s| && s[n] == ';' && forall i | 0 < i < n :: s[i] != ';'
    ensures Encode(s) == s[..n] + Encode(s[n..])
  {
    var k := PassLength(s, 0);
    PassFacts(s);
    hide PassLength, Encode, HexRef;
    assert k == n;
  }

  /** A reference is written as it is up to its semicolon, whatever is in it. */
  lemma ReferencePasses(a: string, b: string)
    requires HexRef(a) && ';' !in a
    ensures Encode(a + (";" + b)) == a + (";" + Encode(b))
  {
    var s := a + (";" + b);
    assert s[..|a|] == a && s[|a|..] == ";" + b && s[|a|] == ';' && (";" + b)[1..] == b;
    assert forall i | 0 <= i < |a| :: s[i] == a[i];
    PassTo(s, |a|);
    EncodeSemicolon(";" + b);
  }

  /** Without one, all but the last character of the text is. */
  lemma OpenReferencePasses(a: string)
    requires HexRef(a) && ';' !in a
    ensures Encode(a) == a[..|a| - 1] + Escape(a[|a| - 1])
  {
    var k := PassLength(a, 0);
    PassFacts(a);
    assert a[k..] == [a[|a| - 1]];
    LastEncoded(a[k..]);
    hide PassLength, Encode, HexRef, Escape;
  }

  lemma HexEncode(s: string, after: string)
    requires HexRef(s)
    ensures var n, t := PassLength(s, 0), Encode(s) + after;
            2 <= n < |s| && t == s[..n] + (Encode(s[n..]) + after) && HexRef(t) &&
            (forall i | 0 < i < n :: s[i] != ';') && (s[n] == ';' || n == |s| - 1) && (s[n] == ';' ==> n > 2)
  {
    var n := PassLength(s, 0);
    PassFacts(s);
    FirstOfX(s[n..], after);
    assert s[n..][0] == s[n];
    var u := Encode(s[n..]);
    hide *;
    Assoc(s[..n], u, after);
    Joined(s, n, u + after);
  }

  lemma Joined(s: string, n: nat, u: string)
    requires HexRef(s) && 2 <= n < |s| && (s[n] == 'x' ==> u != "" && u[0] == 'x')
    ensures HexRef(s[..n] + u)
  {
    assert n > 2 ==> (s[..n] + u)[2] == s[2];
  }

  lemma FirstOfX(s: string, after: string)
    requires s != ""
    ensures s[0] == 'x' ==> Encode(s) + after != "" && (Encode(s) + after)[0] == 'x'
  {
    if s[0] == 'x' {
      EncodeFirst(s);
      assert Escape('x') == "x";
      hide Encode, Escape;
    }
  }

  /** The reference has its semicolon: at most as many bytes as come before that, and on with what follows. */
  lemma ClosedShrinks(s: string, after: string, e: Encoding)
    requires HexRef(s) && s[PassLength(s, 0)] == ';'
    ensures var r, n := GetChar(Encode(s) + after, e), PassLength(s, 0);
            r.Got? ==> |r.value| <= n && r.rest == Encode(s[n + 1..]) + after
  {
    hide *;
    HexEncode(s, after);
    var t, n := Encode(s) + after, PassLength(s, 0);
    EntityShrinks(t, e);
    assert s[n..][0] == ';';
    EncodeSemicolon(s[n..]);
    assert s[n..][1..] == s[n + 1..];
    Assoc(";", Encode(s[n + 1..]), after);
    FirstSemicolon(s[..n], Encode(s[n + 1..]) + after, t);
  }

  lemma FirstSemicolon(a: string, u: string, t: string)
    requires t == a + (";" + u) && |a| > 2 && forall i | 0 < i < |a| :: a[i] != ';'
    ensures |t| > 3 && 3 + Find(t[3..], ';') == |a| && t[|a| + 1..] == u
  {
    hide Find;
    assert t[|a|] == ';';
    FindBefore(t[3..], ';', |a| - 3);
  }

  lemma EncodeSemicolon(s: string)
    requires s != "" && s[0] == ';'
    ensures Encode(s) == ";" + Encode(s[1..])
  {
    EncodeFirst(s);
    assert Escape(';') == ";";
    hide Encode, Escape;
  }

  /** It has none: the entity takes in the escape of the last character, or the delimiter and more. */
  lemma OpenShrinks(s: string, after: string, e: Encoding)
    requires HexRef(s) && s[PassLength(s, 0)] != ';'
    ensures var r := GetChar(Encode(s) + after, e);
            r.Got? ==> (r.rest == after && |r.value| < |s|) || |r.rest| < |after|
  {
    HexEncode(s, after);
    var t, n := Encode(s) + after, PassLength(s, 0);
    LastEncoded(s[n..]);
    assert s[n..][0] == s[n];
    assert n == 2 ==> Escape(s[n]) == "x" by { LastX(s); }
    hide *;
    LastShrinks(s[..n], s[n], after, t, e);
  }

  lemma LastX(s: string)
    requires HexRef(s)
    ensures Escape(s[2]) == "x"
  {
  }

  lemma LastShrinks(a: string, c: char, after: string, t: string, e: Encoding)
    requires t == a + (Escape(c) + after) && HexRef(t) && c != ';' && 2 <= |a| && (|a| == 2 ==> Escape(c) == "x")
    requires forall i | 0 < i < |a| :: a[i] != ';'
    ensures var r := GetChar(t, e); r.Got? ==> (r.rest == after && |r.value| <= |a|) || |r.rest| < |after|
  {
    var x, r, j := Escape(c), GetChar(t, e), 3 + Find(t[3..], ';');
    EntityShrinks(t, e);
    EscapeSemicolon(c);
    assert t[2] == 'x' && |t| > 2;
    hide *;
    OpenEnd(a, x, after, t);
    if r.Got? && j == |a| + |x| - 1 {
      Inner(a, x, after, t);
      assert t[j] == t[3..][j - 3] == ';';
      EscapeDigits(a, c, after, t);
      CharacterSize(c as int, e);
      assert t[j + 1..] == after;
    }
  }

  /** Where an escape ends in the first semicolon, there are no digits before that, or those of a control character. */
  lemma EscapeDigits(a: string, c: char, after: string, t: string)
    requires t == a + (Escape(c) + after) && 2 < |t| && t[2] == 'x' && 2 <= |a| && (|a| == 2 ==> Escape(c) == "x")
    requires var j := |a| + |Escape(c)| - 1; 3 <= j && t[j] == ';' && Digits(t, j - 1, 'x', 0, 1) >= 0
    requires c != ';'
    ensures |a| >= 3 && c < 32 as char && Digits(t, |a| + |Escape(c)| - 2, 'x', 0, 1) == c as int
  {
    hide *;
    var x := Escape(c);
    Inner(a, x, after, t);
    if c < 32 as char {
      HexPlaces(c);
      Middle(a, x, after, t);
      ControlDigits(t, |a| + 2, c);
    } else {
      NamePlaces(c);
      NoDigits(a, x, t);
    }
  }

  lemma Middle(a: string, x: string, after: string, t: string)
    requires t == a + (x + after) && |x| == 6
    ensures t[|a| + 2] == x[2] && t[|a| + 3..|a| + 5] == x[3..5]
  {
  }

  lemma ControlDigits(t: string, b: nat, c: char)
    requires c < 32 as char && b + 2 < |t| && t[b] == 'x' && t[b + 1..b + 3] == HexPair(c)
    ensures Digits(t, b + 2, 'x', 0, 1) == c as int
  {
    hide *;
    ControlSpells(c);
    One(c as int);
    HexMark();
    DigitsAre(t, b, b + 2, [c as int / 16, c as int % 16], 'x', 16, 0, 1);
  }

  lemma NoDigits(a: string, x: string, t: string)
    requires |a| + |x| <= |t| && (forall i | 0 <= i < |x| :: t[|a| + i] == x[i]) && 2 <= |a| && 2 < |t| && t[2] == 'x'
    requires (|x| == 1 && x[0] != ';') || (|x| > 1 && x[|x| - 2] != 'x' && HexDigit(x[|x| - 2]) < 0)
    ensures t[|a| + |x| - 1] != ';' || (|a| + |x| > 3 && Digits(t, |a| + |x| - 2, 'x', 0, 1) < 0)
  {
    hide HexDigit;
    if |x| == 1 {
      assert t[|a| + 0] == x[0];
    } else {
      var i := |x| - 2;
      assert t[|a| + i] == x[i];
    }
  }

  lemma Inner(a: string, x: string, after: string, t: string)
    requires t == a + (x + after)
    ensures |t| >= |a| + |x| && forall i | 0 <= i < |x| :: t[|a| + i] == x[i]
  {
  }

  lemma HexPlaces(c: char)
    requires c < 32 as char
    ensures var x := Escape(c); |x| == 6 && x[0] == '&' && x[2] == 'x' && x[3..5] == HexPair(c)
  {
    hide HexPair;
  }

  /** The names end in a letter that is no digit. */
  lemma NamePlaces(c: char)
    requires c >= 32 as char && c != ';'
    ensures var x := Escape(c); (|x| == 1 && x[0] != ';') || (|x| > 1 && x[|x| - 2] != 'x' && HexDigit(x[|x| - 2]) < 0)
  {
  }

  lemma LastEncoded(s: string)
    requires |s| == 1
    ensures Encode(s) == Escape(s[0])
  {
    EncodeFirst(s);
    EncodeNothing();
    assert s[1..] == "";
    assert Escape(s[0]) + "" == Escape(s[0]);
  }

  /** With no semicolon before the end of x, the first one is that end, or beyond it. */
  lemma OpenEnd(a: string, x: string, after: string, t: string)
    requires t == a + (x + after) && 2 <= |a| && |x| >= 1 && |t| >= 3
    requires forall i | 0 < i < |a| :: a[i] != ';'
    requires forall i | 0 <= i < |x| - 1 :: x[i] != ';'
    ensures var j := 3 + Find(t[3..], ';'); j < |t| ==> j == |a| + |x| - 1 || |t[j + 1..]| < |after|
  {
    hide Find;
    var j, m := 3 + Find(t[3..], ';'), |a| + |x|;
    forall i | 0 < i < m - 1 ensures t[i] != ';' { assert t[i] == if i < |a| then a[i] else x[i - |a|]; }
    if j < |t| { assert t[j] == t[3..][j - 3] == ';'; }
  }

  /** A text read from what was written for s is no longer than s, and shorter if a reference begins in s. */
  predicate Shrunk(s: string, r: Read<string>, rest: string) {
    r.Got? && r.rest == rest ==> |r.value| <= |s| && (HexFree(s) || |r.value| < |s|)
  }

  lemma {:induction false} Shrinks(s: string, endTag: string, rest: string, e: Encoding)
    requires Delimiter(endTag) && Whole(s, e)
    ensures Shrunk(s, ReadText(Encode(s) + (endTag + rest), endTag, e), rest)
    decreases |s|
  {
    hide *;
    var after, t := endTag + rest, Encode(s) + (endTag + rest);
    if s == "" {
      ReadNothing(endTag, rest, e);
      NothingShrunk(rest);
    } else {
      FirstIsNoDelimiter(s, after, endTag);
      var g := GetChar(t, e);
      if g.Got? {
        ReadStep(g.value, g.rest, endTag, e, t);
        if HexRef(s) && s[PassLength(s, 0)] != ';' {
          OpenShrinks(s, after, e);
          EndShrinks(g.value, s, endTag, rest, e, g.rest);
        } else {
          FirstShrinks(s, after, endTag, e);
          var n: nat :| TakenFrom(s, n, g, after, e);
          TakenFacts(s, n, g, after, e);
          Shrinks(s[n..], endTag, rest, e);
          PrefixShrinks(g.value, s, n, ReadText(Encode(s[n..]) + after, endTag, e), rest);
        }
      } else {
        ReadStops(t, endTag, rest, e, s);
      }
    }
  }

  lemma NothingShrunk(rest: string)
    ensures Shrunk("", Got("", rest), rest)
  {
  }

  lemma ReadStops(t: string, endTag: string, rest: string, e: Encoding, s: string)
    requires endTag != "" && t != "" && !Starts(t, endTag) && !GetChar(t, e).Got?
    ensures Shrunk(s, ReadText(t, endTag, e), rest)
  {
    hide GetChar, Starts, HexFree;
  }

  /** What was read first stands for the first n bytes of s; the rest is what was written for the others. */
  predicate TakenFrom(s: string, n: nat, g: Read<string>, after: string, e: Encoding) {
    1 <= n <= |s| && g.Got? && |g.value| <= n && g.rest == Encode(s[n..]) + after && Whole(s[n..], e) &&
    (HexFree(s[n..]) ==> HexFree(s) || |g.value| < n)
  }

  lemma TakenFacts(s: string, n: nat, g: Read<string>, after: string, e: Encoding)
    requires TakenFrom(s, n, g, after, e)
    ensures 1 <= n <= |s| && g.Got? && |g.value| <= n && g.rest == Encode(s[n..]) + after && Whole(s[n..], e)
    ensures HexFree(s[n..]) ==> HexFree(s) || |g.value| < n
  {
    hide Encode, Whole, HexFree;
  }

  lemma FirstShrinks(s: string, after: string, endTag: string, e: Encoding)
    requires s != "" && Whole(s, e) && Delimiter(endTag) && GetChar(Encode(s) + after, e).Got?
    requires HexRef(s) ==> s[PassLength(s, 0)] == ';'
    ensures exists n: nat :: TakenFrom(s, n, GetChar(Encode(s) + after, e), after, e)
  {
    hide *;
    var g := GetChar(Encode(s) + after, e);
    WholeFirst(s, e);
    if CharLength(s[0], e) > 1 {
      ReadWhole(s, after, endTag, e);
      Take(s, CharLength(s[0], e), g, after, e);
    } else if !HexRef(s) {
      ReadEscaped(s, after, endTag, e);
      Take(s, 1, g, after, e);
    } else {
      ClosedShrinks(s, after, e);
      WholeTail(s, PassLength(s, 0), e);
      Take(s, PassLength(s, 0) + 1, g, after, e);
    }
  }

  lemma WholeFirst(s: string, e: Encoding)
    requires s != "" && Whole(s, e)
    ensures var n := CharLength(s[0], e); 1 <= n <= |s| && Whole(s[n..], e)
    ensures !HexRef(s) ==> (HexFree(s) <==> HexFree(s[1..]))
  {
    hide CharLength, HexRef;
  }

  lemma Take(s: string, n: nat, g: Read<string>, after: string, e: Encoding)
    requires 1 <= n <= |s| && g.Got? && |g.value| <= n && g.rest == Encode(s[n..]) + after && Whole(s[n..], e)
    requires HexFree(s[n..]) ==> HexFree(s) || |g.value| < n
    ensures exists m: nat :: TakenFrom(s, m, g, after, e)
  {
    hide Encode, Whole, HexFree;
    assert TakenFrom(s, n, g, after, e);
  }

  /** An ASCII character ends a character, and another one begins behind it. */
  lemma {:induction false} WholeTail(s: string, k: nat, e: Encoding)
    requires Whole(s, e) && k < |s| && s[k] < 0x80 as char
    ensures Whole(s[k + 1..], e)
    decreases |s|
  {
    var n := CharLength(s[0], e);
    if k > 0 {
      assert n <= k;
      WholeTail(s[n..], k - n, e);
      assert s[n..][k - n + 1..] == s[k + 1..];
    }
  }

  lemma PrefixShrinks(c: string, s: string, n: nat, r: Read<string>, rest: string)
    requires n <= |s| && |c| <= n && Shrunk(s[n..], r, rest) && (HexFree(s[n..]) ==> HexFree(s) || |c| < n)
    ensures Shrunk(s, Prefixed(c, r), rest)
  {
    hide HexFree;
  }

  lemma EndShrinks(c: string, s: string, endTag: string, rest: string, e: Encoding, more: string)
    requires Delimiter(endTag) && ((more == endTag + rest && |c| < |s|) || |more| < |endTag + rest|)
    ensures endTag != "" && Shrunk(s, Prefixed(c, ReadText(more, endTag, e)), rest)
  {
    hide HexFree;
    if more == endTag + rest {
      ReadNothing(endTag, rest, e);
      EncodeNothing();
      assert "" + more == more;
      assert c + "" == c;
    }
  }

  lemma FirstIsNoDelimiter(s: string, after: string, endTag: string)
    requires s != "" && Delimiter(endTag)
    ensures endTag != "" && var t := Encode(s) + after; t != "" && !Starts(t, endTag)
  {
    if HexRef(s) {
      HexEncode(s, after);
      Differs(Encode(s) + after, endTag, 0);
    } else {
      EncodeFirst(s);
      Assoc(Escape(s[0]), Encode(s[1..]), after);
      EscapeIsNoDelimiter(s[0], Encode(s[1..]) + after, endTag);
    }
  }

  /** Outside UTF-8 mode every byte is a character. */
  lemma {:induction false} BytesAreWhole(s: string, e: Encoding)
    requires e != Utf8Encoding
    ensures Whole(s, e)
  {
    if s != "" { BytesAreWhole(s[1..], e); }
  }

  /** Of the texts of whole characters, exactly those in which no hexadecimal reference begins come back. */
  lemma ComesBackIff(s: string, endTag: string, rest: string, e: Encoding)
    requires Delimiter(endTag) && Whole(s, e)
    ensures ReadText(Encode(s) + (endTag + rest), endTag, e) == Got(s, rest) <==> HexFree(s)
  {
    if HexFree(s) {
      hide *;
      ReadBack(s, endTag, rest, e);
    } else {
      Shrinks(s, endTag, rest, e);
      hide Encode, HexFree, ReadText, Whole;
    }
  }

  /** The text "&#x41;" is written as it is, and read as "A". */
  lemma ReferenceIsLost(endTag: string, rest: string, e: Encoding)
    requires Delimiter(endTag)
    ensures ReadText(Encode("&#x41;") + (endTag + rest), endTag, e) != Got("&#x41;", rest)
  {
    var s := "&#x41;";
    assert HexRef(s);
    assert Whole(s, e) by { AsciiIsWhole(s, e); }
    ComesBackIff(s, endTag, rest, e);
    hide Encode, ReadText;
  }

  lemma {:induction false} AsciiIsWhole(s: string, e: Encoding)
    requires forall c | c in s :: c < 0x80 as char
    ensures Whole(s, e)
  {
    if s != "" {
      assert s[0] in s && CharLength(s[0], e) == 1;
      forall c | c in s[1..] ensures c in s { }
      AsciiIsWhole(s[1..], e);
    }
  }

  /** That is, in which "&#x" does not occur. */
  lemma {:induction false} HexFreeIs(s: string)
    ensures HexFree(s) <==> forall i | 0 <= i <= |s| :: !HexRef(s[i..])
  {
    if s != "" {
      HexFreeIs(s[1..]);
      assert s[0..] == s;
      forall i | 1 <= i <= |s| ensures s[i..] == s[1..][i - 1..] { }
      forall i | 0 <= i <= |s[1..]| ensures s[1..][i..] == s[i + 1..] { }
      hide HexRef;
    }
  }
}
