/**
  UTF-8 as in core.h, against the syntax of section 4 of RFC 3629. Octets, 16-bit units and code
  points are bit vectors of the source's widths, so that shifts and sums wrap as they do there. An
  iterator into a range is an offset into a sequence whose length is the end of the range.
 */
module Utf8Core {
  type Octet = bv8
  type Unit = bv16
  type CodePoint = bv32

  const LEAD_SURROGATE_MIN: CodePoint := 0xd800
  const LEAD_SURROGATE_MAX: CodePoint := 0xdbff
  const TRAIL_SURROGATE_MIN: CodePoint := 0xdc00
  const TRAIL_SURROGATE_MAX: CodePoint := 0xdfff
  const LEAD_OFFSET: CodePoint := 0xd7c0
  const CODE_POINT_MAX: CodePoint := 0x10ffff

  datatype UtfError = Ok | NotEnoughRoom | InvalidLead | IncompleteSequence | OverlongSequence | InvalidCodePoint

  predicate IsTrail(o: Octet) {
    o >> 6 == 0x2
  }

  predicate IsLeadSurrogate(cp: CodePoint) {
    LEAD_SURROGATE_MIN <= cp <= LEAD_SURROGATE_MAX
  }

  predicate IsTrailSurrogate(cp: CodePoint) {
    TRAIL_SURROGATE_MIN <= cp <= TRAIL_SURROGATE_MAX
  }

  predicate IsSurrogate(cp: CodePoint) {
    LEAD_SURROGATE_MIN <= cp <= TRAIL_SURROGATE_MAX
  }

  predicate IsCodePointValid(cp: CodePoint) {
    cp <= CODE_POINT_MAX && !IsSurrogate(cp)
  }

  function SequenceLength(lead: Octet): nat {
    if lead < 0x80 then 1
    else if lead >> 5 == 0x6 then 2
    else if lead >> 4 == 0xe then 3
    else if lead >> 3 == 0x1e then 4
    else 0
  }

  predicate IsOverlong(cp: CodePoint, length: nat) {
    if cp < 0x80 then length != 1
    else if cp < 0x800 then length != 2
    else if cp < 0x10000 then length != 3
    else false
  }

  //
  // The syntax of RFC 3629.
  //

  predicate Tail(o: Octet) { 0x80 <= o <= 0xBF }

  predicate Utf8_1(a: Octet) { a <= 0x7F }

  predicate Utf8_2(a: Octet, b: Octet) { 0xC2 <= a <= 0xDF && Tail(b) }

  predicate Utf8_3(a: Octet, b: Octet, c: Octet) {
    || (a == 0xE0 && 0xA0 <= b <= 0xBF && Tail(c))
    || (0xE1 <= a <= 0xEC && Tail(b) && Tail(c))
    || (a == 0xED && 0x80 <= b <= 0x9F && Tail(c))
    || (0xEE <= a <= 0xEF && Tail(b) && Tail(c))
  }

  predicate Utf8_4(a: Octet, b: Octet, c: Octet, d: Octet) {
    || (a == 0xF0 && 0x90 <= b <= 0xBF && Tail(c) && Tail(d))
    || (0xF1 <= a <= 0xF3 && Tail(b) && Tail(c) && Tail(d))
    || (a == 0xF4 && 0x80 <= b <= 0x8F && Tail(c) && Tail(d))
  }

  /** s is one UTF8-char of the RFC. */
  predicate IsChar(s: seq<Octet>) {
    || (|s| == 1 && Utf8_1(s[0]))
    || (|s| == 2 && Utf8_2(s[0], s[1]))
    || (|s| == 3 && Utf8_3(s[0], s[1], s[2]))
    || (|s| == 4 && Utf8_4(s[0], s[1], s[2], s[3]))
  }

  //
  // Decoding and encoding one sequence.
  //

  // Each of these is one assignment to code_point; the sums and shifts are those of 32-bit words.
  function First2(cp: CodePoint, o: Octet): CodePoint { ((cp << 6) & 0x7ff) + ((o as CodePoint) & 0x3f) }
  function First3(cp: CodePoint, o: Octet): CodePoint { ((cp << 12) & 0xffff) + (((o as CodePoint) << 6) & 0xfff) }
  function First4(cp: CodePoint, o: Octet): CodePoint { ((cp << 18) & 0x1fffff) + (((o as CodePoint) << 12) & 0x3ffff) }
  function Then6(cp: CodePoint, o: Octet): CodePoint { cp + (((o as CodePoint) << 6) & 0xfff) }
  function Then0(cp: CodePoint, o: Octet): CodePoint { cp + ((o as CodePoint) & 0x3f) }
  function Mask8(o: Octet): CodePoint { o as CodePoint }

  function Decode1(a: Octet): CodePoint { Mask8(a) }

  function Decode2(a: Octet, b: Octet): CodePoint { First2(Mask8(a), b) }

  function Decode3(a: Octet, b: Octet, c: Octet): CodePoint { Then0(First3(Mask8(a), b), c) }

  function Decode4(a: Octet, b: Octet, c: Octet, d: Octet): CodePoint { Then0(Then6(First4(Mask8(a), b), c), d) }

  /** A cast to an octet keeps the low eight bits. */
  function Low8(x: CodePoint): Octet { (x & 0xff) as Octet }

  function Trail0(cp: CodePoint): Octet { Low8((cp & 0x3f) | 0x80) }
  function Trail6(cp: CodePoint): Octet { Low8(((cp >> 6) & 0x3f) | 0x80) }
  function Trail12(cp: CodePoint): Octet { Low8(((cp >> 12) & 0x3f) | 0x80) }
  function Lead2(cp: CodePoint): Octet { Low8((cp >> 6) | 0xc0) }
  function Lead3(cp: CodePoint): Octet { Low8((cp >> 12) | 0xe0) }
  function Lead4(cp: CodePoint): Octet { Low8((cp >> 18) | 0xf0) }

  /** The octets that `append` writes for a code point. */
  function Encode(cp: CodePoint): (s: seq<Octet>)
    ensures 1 <= |s| <= 4
  {
    if cp < 0x80 then [Low8(cp)]
    else if cp < 0x800 then [Lead2(cp), Trail0(cp)]
    else if cp < 0x10000 then [Lead3(cp), Trail6(cp), Trail0(cp)]
    else [Lead4(cp), Trail12(cp), Trail6(cp), Trail0(cp)]
  }

  //
  // The masked sums put the bits of the octets side by side.
  //

  function Bits3(a: Octet, b: Octet, c: Octet): CodePoint {
    (((a as CodePoint) & 0xf) << 12) | (((b as CodePoint) & 0x3f) << 6) | ((c as CodePoint) & 0x3f)
  }

  function Bits4(a: Octet, b: Octet, c: Octet, d: Octet): CodePoint {
    (((a as CodePoint) & 0x7) << 18) | (((b as CodePoint) & 0x3f) << 12) | (((c as CodePoint) & 0x3f) << 6) | ((d as CodePoint) & 0x3f)
  }

  lemma Sum3(a: Octet, b: Octet, c: Octet)
    ensures Decode3(a, b, c) == Bits3(a, b, c)
  {
  }

  lemma Sum4(a: Octet, b: Octet, c: Octet, d: Octet)
    ensures Decode4(a, b, c, d) == Bits4(a, b, c, d)
  {
  }

  lemma Accept1(a: Octet)
    ensures Utf8_1(a) <==> SequenceLength(a) == 1
    ensures Utf8_1(a) ==> IsCodePointValid(Decode1(a)) && !IsOverlong(Decode1(a), 1)
    ensures Utf8_1(a) ==> Decode1(a) < 0x80 && Low8(Decode1(a)) == a
  {
  }

  lemma Accept2(a: Octet, b: Octet)
    ensures Utf8_2(a, b) <==>
              SequenceLength(a) == 2 && IsTrail(b) && IsCodePointValid(Decode2(a, b)) && !IsOverlong(Decode2(a, b), 2)
    ensures Utf8_2(a, b) ==>
              0x80 <= Decode2(a, b) < 0x800 && Lead2(Decode2(a, b)) == a && Trail0(Decode2(a, b)) == b
  {
  }

  lemma Lengths(a: Octet)
    ensures SequenceLength(a) == 3 <==> a >> 4 == 0xe
    ensures SequenceLength(a) == 4 <==> a >> 3 == 0x1e
  {
  }

  lemma Range3(a: Octet, b: Octet, c: Octet)
    requires a >> 4 == 0xe && IsTrail(b) && IsTrail(c)
    ensures Bits3(a, b, c) < 0x10000
    ensures Utf8_3(a, b, c) <==> IsCodePointValid(Bits3(a, b, c)) && 0x800 <= Bits3(a, b, c)
  {
  }

  lemma Syntax3(a: Octet, b: Octet, c: Octet)
    requires Utf8_3(a, b, c)
    ensures a >> 4 == 0xe && IsTrail(b) && IsTrail(c)
  {
  }

  lemma Bytes3(a: Octet, b: Octet, c: Octet)
    requires a >> 4 == 0xe && IsTrail(b) && IsTrail(c)
    ensures var cp := Bits3(a, b, c); Lead3(cp) == a && Trail6(cp) == b && Trail0(cp) == c
  {
  }

  lemma Accept3(a: Octet, b: Octet, c: Octet)
    ensures Utf8_3(a, b, c) <==>
              SequenceLength(a) == 3 && IsTrail(b) && IsTrail(c) && IsCodePointValid(Decode3(a, b, c)) && !IsOverlong(Decode3(a, b, c), 3)
    ensures Utf8_3(a, b, c) ==>
              var cp := Decode3(a, b, c);
              0x800 <= cp < 0x10000 && Lead3(cp) == a && Trail6(cp) == b && Trail0(cp) == c
  {
    Lengths(a);
    Sum3(a, b, c);
    if Utf8_3(a, b, c) { Syntax3(a, b, c); }
    if a >> 4 == 0xe && IsTrail(b) && IsTrail(c) {
      Range3(a, b, c);
      Bytes3(a, b, c);
    }
    hide SequenceLength, Decode3, Bits3, Utf8_3, IsTrail, Lead3, Trail6, Trail0, IsCodePointValid;
  }

  lemma Range4(a: Octet, b: Octet, c: Octet, d: Octet)
    requires a >> 3 == 0x1e && IsTrail(b) && IsTrail(c) && IsTrail(d)
    ensures Utf8_4(a, b, c, d) <==> IsCodePointValid(Bits4(a, b, c, d)) && 0x10000 <= Bits4(a, b, c, d)
  {
  }

  lemma Syntax4(a: Octet, b: Octet, c: Octet, d: Octet)
    requires Utf8_4(a, b, c, d)
    ensures a >> 3 == 0x1e && IsTrail(b) && IsTrail(c) && IsTrail(d)
  {
  }

  lemma Bytes4(a: Octet, b: Octet, c: Octet, d: Octet)
    requires a >> 3 == 0x1e && IsTrail(b) && IsTrail(c) && IsTrail(d)
    ensures var cp := Bits4(a, b, c, d); Lead4(cp) == a && Trail12(cp) == b && Trail6(cp) == c && Trail0(cp) == d
  {
  }

  lemma Accept4(a: Octet, b: Octet, c: Octet, d: Octet)
    ensures Utf8_4(a, b, c, d) <==>
              SequenceLength(a) == 4 && IsTrail(b) && IsTrail(c) && IsTrail(d) &&
              IsCodePointValid(Decode4(a, b, c, d)) && !IsOverlong(Decode4(a, b, c, d), 4)
    ensures Utf8_4(a, b, c, d) ==>
              var cp := Decode4(a, b, c, d);
              0x10000 <= cp && Lead4(cp) == a && Trail12(cp) == b && Trail6(cp) == c && Trail0(cp) == d
  {
    Lengths(a);
    Sum4(a, b, c, d);
    if Utf8_4(a, b, c, d) { Syntax4(a, b, c, d); }
    if a >> 3 == 0x1e && IsTrail(b) && IsTrail(c) && IsTrail(d) {
      Range4(a, b, c, d);
      Bytes4(a, b, c, d);
    }
    hide SequenceLength, Decode4, Bits4, Utf8_4, IsTrail, Lead4, Trail12, Trail6, Trail0, IsCodePointValid;
  }

  /** What `append` writes for a scalar value is a UTF8-char, and decodes to that value. */
  lemma Encode1Ok(cp: CodePoint)
    requires cp < 0x80
    ensures Utf8_1(Low8(cp)) && Decode1(Low8(cp)) == cp
  {
  }

  lemma Encode2Ok(cp: CodePoint)
    requires 0x80 <= cp < 0x800
    ensures Utf8_2(Lead2(cp), Trail0(cp)) && Decode2(Lead2(cp), Trail0(cp)) == cp
  {
  }

  lemma Encode3Ok(cp: CodePoint)
    requires 0x800 <= cp < 0x10000 && !IsSurrogate(cp)
    ensures Utf8_3(Lead3(cp), Trail6(cp), Trail0(cp)) && Decode3(Lead3(cp), Trail6(cp), Trail0(cp)) == cp
  {
    Sum3(Lead3(cp), Trail6(cp), Trail0(cp));
    hide Decode3;
  }

  lemma Encode4Ok(cp: CodePoint)
    requires 0x10000 <= cp <= CODE_POINT_MAX
    ensures Utf8_4(Lead4(cp), Trail12(cp), Trail6(cp), Trail0(cp))
    ensures Decode4(Lead4(cp), Trail12(cp), Trail6(cp), Trail0(cp)) == cp
  {
    Sum4(Lead4(cp), Trail12(cp), Trail6(cp), Trail0(cp));
    hide Decode4;
  }

  //
  // Sequences of octets.
  //

  /** The length of the UTF8-char that s begins with, or 0. */
  function CharLength(s: seq<Octet>): (n: nat)
    ensures n <= |s|
  {
    if |s| >= 1 && Utf8_1(s[0]) then 1
    else if |s| >= 2 && Utf8_2(s[0], s[1]) then 2
    else if |s| >= 3 && Utf8_3(s[0], s[1], s[2]) then 3
    else if |s| >= 4 && Utf8_4(s[0], s[1], s[2], s[3]) then 4
    else 0
  }

  function CharValue(s: seq<Octet>): CodePoint
    requires CharLength(s) > 0
  {
    var n := CharLength(s);
    if n == 1 then Decode1(s[0])
    else if n == 2 then Decode2(s[0], s[1])
    else if n == 3 then Decode3(s[0], s[1], s[2])
    else Decode4(s[0], s[1], s[2], s[3])
  }

  /** s has the lead of a longer sequence, and nothing but trail octets after it. */
  predicate Truncated(s: seq<Octet>) {
    0 < |s| < SequenceLength(s[0]) && forall i | 1 <= i < |s| :: IsTrail(s[i])
  }

  /** At most one of the four forms can begin with a given octet. */
  lemma LeadDecides(a: Octet)
    ensures Utf8_1(a) ==> SequenceLength(a) == 1
    ensures forall b :: Utf8_2(a, b) ==> SequenceLength(a) == 2
    ensures forall b, c :: Utf8_3(a, b, c) ==> SequenceLength(a) == 3
    ensures forall b, c, d :: Utf8_4(a, b, c, d) ==> SequenceLength(a) == 4
  {
    Accept1(a);
    forall b | Utf8_2(a, b) ensures SequenceLength(a) == 2 { Accept2(a, b); }
    forall b, c | Utf8_3(a, b, c) ensures SequenceLength(a) == 3 { Accept3(a, b, c); }
    forall b, c, d | Utf8_4(a, b, c, d) ensures SequenceLength(a) == 4 { Accept4(a, b, c, d); }
  }

  /** The form that s begins with is the one its first octet calls for. */
  lemma CharLengthIs(s: seq<Octet>)
    requires s != []
    ensures CharLength(s) > 0 ==> CharLength(s) == SequenceLength(s[0])
    ensures forall n | 0 < n <= |s| :: IsChar(s[..n]) <==> n == CharLength(s)
  {
    LeadDecides(s[0]);
    hide SequenceLength, Utf8_1, Utf8_2, Utf8_3, Utf8_4;
  }

  /** A UTF8-char decodes to a scalar value that encodes to it. */
  lemma CharDecodes(s: seq<Octet>)
    requires CharLength(s) > 0
    ensures IsCodePointValid(CharValue(s)) && Encode(CharValue(s)) == s[..CharLength(s)]
  {
    Accept1(s[0]);
    var n := CharLength(s);
    if n == 2 { Accept2(s[0], s[1]); }
    if n == 3 { Accept3(s[0], s[1], s[2]); }
    if n == 4 { Accept4(s[0], s[1], s[2], s[3]); }
    hide SequenceLength, Utf8_1, Utf8_2, Utf8_3, Utf8_4, Decode1, Decode2, Decode3, Decode4, IsCodePointValid, IsTrail;
    hide Low8, Lead2, Lead3, Lead4, Trail0, Trail6, Trail12, IsOverlong;
  }

  /** A scalar value encodes to a UTF8-char that decodes to it, whatever follows. */
  lemma CharEncodes(cp: CodePoint, rest: seq<Octet>)
    requires IsCodePointValid(cp)
    ensures CharLength(Encode(cp) + rest) == |Encode(cp)| && CharValue(Encode(cp) + rest) == cp
  {
    if cp < 0x80 { Encode1Ok(cp); }
    else if cp < 0x800 { Encode2Ok(cp); }
    else if cp < 0x10000 { Encode3Ok(cp); }
    else { Encode4Ok(cp); }
    LeadDecides(Encode(cp)[0]);
    hide SequenceLength, Utf8_1, Utf8_2, Utf8_3, Utf8_4, Decode1, Decode2, Decode3, Decode4, IsCodePointValid, IsTrail;
    hide Low8, Lead2, Lead3, Lead4, Trail0, Trail6, Trail12, IsOverlong, IsSurrogate;
  }

  //
  // The iterator functions.
  //

  method IncreaseSafely(s: seq<Octet>, it0: nat) returns (it: nat, err: UtfError)
    requires it0 < |s|
    ensures it == it0 + 1
    ensures err == if it == |s| then NotEnoughRoom else if IsTrail(s[it]) then Ok else IncompleteSequence
  {
    it := it0 + 1;
    if it == |s| {
      return it, NotEnoughRoom;
    }
    if !IsTrail(s[it]) {
      return it, IncompleteSequence;
    }
    return it, Ok;
  }

  /** How reading a sequence of n octets at it ends. */
  function Reading(s: seq<Octet>, it: nat, n: nat): (r: UtfError)
    requires it <= |s|
    ensures r == Ok ==> it < |s| && it + n <= |s| && forall i | it < i < it + n :: IsTrail(s[i])
    ensures r == NotEnoughRoom ==> it == |s| || (|s| < it + n && forall i | it < i < |s| :: IsTrail(s[i]))
    ensures r == IncompleteSequence ==> exists i :: it < i < it + n && i < |s| && !IsTrail(s[i])
    ensures r == Ok || r == NotEnoughRoom || r == IncompleteSequence
    decreases n
  {
    if it >= |s| then NotEnoughRoom
    else if n <= 1 then Ok
    else if it + 1 == |s| then NotEnoughRoom
    else if !IsTrail(s[it + 1]) then IncompleteSequence
    else Reading(s, it + 1, n - 1)
  }

  method GetSequence1(s: seq<Octet>, it0: nat) returns (it: nat, err: UtfError, cp: CodePoint)
    requires it0 <= |s|
    ensures err == Reading(s, it0, 1)
    ensures err == Ok ==> it == it0 < |s| && cp == Decode1(s[it0])
  {
    it, err, cp := it0, NotEnoughRoom, 0;
    if it == |s| {
      return;
    }
    cp := Mask8(s[it]);
    err := Ok;
  }

  method GetSequence2(s: seq<Octet>, it0: nat) returns (it: nat, err: UtfError, cp: CodePoint)
    requires it0 <= |s|
    ensures err == Reading(s, it0, 2)
    ensures err == Ok ==> it == it0 + 1 < |s| && cp == Decode2(s[it0], s[it0 + 1])
  {
    hide IsTrail, First2, First3, First4, Then6, Then0, Mask8;
    it, err, cp := it0, NotEnoughRoom, 0;
    if it == |s| {
      return;
    }
    cp := Mask8(s[it]);
    it, err := IncreaseSafely(s, it);
    if err != Ok {
      return;
    }
    cp := First2(cp, s[it]);
  }

  method GetSequence3(s: seq<Octet>, it0: nat) returns (it: nat, err: UtfError, cp: CodePoint)
    requires it0 <= |s|
    ensures err == Reading(s, it0, 3)
    ensures err == Ok ==> it == it0 + 2 < |s| && cp == Decode3(s[it0], s[it0 + 1], s[it0 + 2])
  {
    hide IsTrail, First2, First3, First4, Then6, Then0, Mask8;
    it, err, cp := it0, NotEnoughRoom, 0;
    if it == |s| {
      return;
    }
    cp := Mask8(s[it]);
    it, err := IncreaseSafely(s, it);
    if err != Ok {
      return;
    }
    cp := First3(cp, s[it]);
    it, err := IncreaseSafely(s, it);
    if err != Ok {
      return;
    }
    cp := Then0(cp, s[it]);
  }

  method GetSequence4(s: seq<Octet>, it0: nat) returns (it: nat, err: UtfError, cp: CodePoint)
    requires it0 <= |s|
    ensures err == Reading(s, it0, 4)
    ensures err == Ok ==> it == it0 + 3 < |s| && cp == Decode4(s[it0], s[it0 + 1], s[it0 + 2], s[it0 + 3])
  {
    hide IsTrail, First2, First3, First4, Then6, Then0, Mask8;
    it, err, cp := it0, NotEnoughRoom, 0;
    if it == |s| {
      return;
    }
    cp := Mask8(s[it]);
    it, err := IncreaseSafely(s, it);
    if err != Ok {
      return;
    }
    cp := First4(cp, s[it]);
    it, err := IncreaseSafely(s, it);
    if err != Ok {
      return;
    }
    cp := Then6(cp, s[it]);
    it, err := IncreaseSafely(s, it);
    if err != Ok {
      return;
    }
    cp := Then0(cp, s[it]);
  }

  function RawValue(s: seq<Octet>, it: nat, n: nat): CodePoint
    requires 1 <= n <= 4 && it + n <= |s|
  {
    if n == 1 then Decode1(s[it])
    else if n == 2 then Decode2(s[it], s[it + 1])
    else if n == 3 then Decode3(s[it], s[it + 1], s[it + 2])
    else Decode4(s[it], s[it + 1], s[it + 2], s[it + 3])
  }

  /** What validate_next answers at it. */
  function Verdict(s: seq<Octet>, it: nat): UtfError
    requires it < |s|
  {
    var n := SequenceLength(s[it]);
    if n == 0 then InvalidLead
    else if Reading(s, it, n) != Ok then Reading(s, it, n)
    else if !IsCodePointValid(RawValue(s, it, n)) then InvalidCodePoint
    else if IsOverlong(RawValue(s, it, n), n) then OverlongSequence
    else Ok
  }

  /** It is Ok just where a UTF8-char of the RFC begins, and the value read is the value of that. */
  lemma VerdictIsSyntax(s: seq<Octet>, it: nat)
    requires it < |s|
    ensures Verdict(s, it) == Ok <==> CharLength(s[it..]) > 0
    ensures Verdict(s, it) == Ok ==> CharLength(s[it..]) == SequenceLength(s[it]) && CharValue(s[it..]) == RawValue(s, it, SequenceLength(s[it]))
    ensures Verdict(s, it) == NotEnoughRoom <==> Truncated(s[it..])
  {
    var t := s[it..];
    var n := SequenceLength(s[it]);
    CharLengthIs(t);
    Accept1(t[0]);
    if |t| >= 2 { Accept2(t[0], t[1]); }
    if |t| >= 3 { Accept3(t[0], t[1], t[2]); }
    if |t| >= 4 { Accept4(t[0], t[1], t[2], t[3]); }
    hide SequenceLength, Utf8_1, Utf8_2, Utf8_3, Utf8_4, Decode1, Decode2, Decode3, Decode4, IsCodePointValid, IsTrail;
    hide Low8, Lead2, Lead3, Lead4, Trail0, Trail6, Trail12, IsOverlong, Reading;
    assert forall i | 0 <= i < |t| :: t[i] == s[it + i];
  }

  /** How many octets the lead of a sequence calls for; 0 for an octet that is no lead. */
  function Called(a: Octet): nat {
    if a <= 0x7F then 1 else if 0xC0 <= a <= 0xDF then 2 else if 0xE0 <= a <= 0xEF then 3 else if 0xF0 <= a <= 0xF7 then 4 else 0
  }

  /** All the octets called for are there, and are trail octets. */
  predicate Complete(t: seq<Octet>) {
    t != [] && 0 < Called(t[0]) <= |t| && forall i | 1 <= i < Called(t[0]) :: Tail(t[i])
  }

  /** The first octets of a surrogate, in three octets or four, or of a number beyond 0x10FFFF. */
  predicate NoScalar(t: seq<Octet>)
    requires |t| > 1
  {
    || (t[0] == 0xED && t[1] >= 0xA0) || (|t| > 2 && t[0] == 0xF0 && t[1] == 0x8D && t[2] >= 0xA0)
    || (t[0] == 0xF4 && t[1] >= 0x90) || t[0] > 0xF4
  }

  /** The first octets of a number that a shorter sequence would do for. */
  predicate TooLong(t: seq<Octet>)
    requires |t| > 1
  {
    t[0] == 0xC0 || t[0] == 0xC1 || (t[0] == 0xE0 && t[1] < 0xA0) || (t[0] == 0xF0 && t[1] < 0x90)
  }

  /** Whether the value of a complete sequence passes the last two tests. */
  lemma ValueByOctets(s: seq<Octet>, it: nat, t: seq<Octet>)
    requires it < |s| && t == s[it..] && Complete(t)
    ensures var n := Called(t[0]);
            && 1 <= n <= 4 && it + n <= |s|
            && (IsCodePointValid(RawValue(s, it, n)) <==> n == 1 || !NoScalar(t))
            && (IsOverlong(RawValue(s, it, n), n) <==> n > 1 && TooLong(t))
  {
    var n := Called(t[0]);
    RawIs(s, it, n);
    Begins(t, n);
    hide RawValue, IsCodePointValid, IsOverlong, NoScalar, TooLong, Decode1, Decode2, Decode3, Decode4, Tail;
    if n == 1 {
      OneByOctets(t[0]);
    } else if n == 2 {
      TwoByOctets(t[0], t[1]);
    } else if n == 3 {
      ThreeByOctets(t[0], t[1], t[2]);
    } else {
      FourByOctets(t[0], t[1], t[2], t[3]);
    }
  }

  /** What reading comes to, in the rest of the text. */
  lemma ReadingOfRest(s: seq<Octet>, it: nat, t: seq<Octet>)
    requires it < |s| && t == s[it..] && Called(t[0]) > 0
    ensures var r := Reading(s, it, Called(t[0]));
            && (r == Ok <==> Complete(t))
            && (r == NotEnoughRoom <==> |t| < Called(t[0]) && forall i | 1 <= i < |t| :: Tail(t[i]))
            && (r == IncompleteSequence <==> exists i :: 1 <= i < Called(t[0]) && i < |t| && !Tail(t[i]))
            && (r == Ok || r == NotEnoughRoom || r == IncompleteSequence)
  {
    var n := Called(t[0]);
    ReadingByOctets(s, it, n);
    hide Reading, Called, Tail;
    forall i | 0 <= i < |t| ensures t[i] == s[it + i] { }
    forall j | it <= j < |s| ensures s[j] == t[j - it] { }
  }

  /** Which of the answers it is, octet by octet. */
  lemma VerdictByOctets(s: seq<Octet>, it: nat)
    requires it < |s|
    ensures var t, v := s[it..], Verdict(s, it);
            (v == InvalidLead <==> Called(t[0]) == 0) &&
            (v == NotEnoughRoom <==> |t| < Called(t[0]) && forall i | 1 <= i < |t| :: Tail(t[i])) &&
            (v == IncompleteSequence <==> exists i :: 1 <= i < Called(t[0]) && i < |t| && !Tail(t[i])) &&
            (v == UtfError.InvalidCodePoint <==> Complete(t) && Called(t[0]) > 1 && NoScalar(t)) &&
            (v == OverlongSequence <==> Complete(t) && Called(t[0]) > 1 && TooLong(t) && !NoScalar(t))
  {
    var t := s[it..];
    CalledIs(t[0]);
    if Called(t[0]) > 0 { ReadingOfRest(s, it, t); }
    if Complete(t) { ValueByOctets(s, it, t); }
    hide SequenceLength, Reading, RawValue, IsCodePointValid, IsOverlong, Called, Tail, NoScalar, TooLong;
  }

  /** Only the first octets are looked at. */
  lemma Begins(t: seq<Octet>, n: nat)
    requires 1 <= n <= 4 && n <= |t| && Called(t[0]) == n
    ensures n == 2 ==> (NoScalar([t[0], t[1]]) <==> NoScalar(t)) && (TooLong([t[0], t[1]]) <==> TooLong(t))
    ensures n == 3 ==> (NoScalar([t[0], t[1], t[2]]) <==> NoScalar(t)) && (TooLong([t[0], t[1], t[2]]) <==> TooLong(t))
    ensures n == 4 ==> (NoScalar([t[0], t[1], t[2], t[3]]) <==> NoScalar(t)) && (TooLong([t[0], t[1], t[2], t[3]]) <==> TooLong(t))
  {
  }

  lemma RawIs(s: seq<Octet>, it: nat, n: nat)
    requires 1 <= n <= 4 && it + n <= |s|
    ensures var t := s[it..];
            RawValue(s, it, n) == if n == 1 then Decode1(t[0]) else if n == 2 then Decode2(t[0], t[1])
                                  else if n == 3 then Decode3(t[0], t[1], t[2]) else Decode4(t[0], t[1], t[2], t[3])
  {
    hide Decode1, Decode2, Decode3, Decode4;
  }

  lemma CalledIs(a: Octet)
    ensures SequenceLength(a) == Called(a)
  {
  }

  lemma TailIs(o: Octet)
    ensures IsTrail(o) <==> Tail(o)
  {
  }

  lemma {:induction false} ReadingByOctets(s: seq<Octet>, it: nat, n: nat)
    requires it < |s| && n > 0
    ensures Reading(s, it, n) == Ok <==> it + n <= |s| && forall i | it < i < it + n :: Tail(s[i])
    ensures Reading(s, it, n) == NotEnoughRoom <==> |s| < it + n && forall i | it < i < |s| :: Tail(s[i])
    ensures Reading(s, it, n) == IncompleteSequence <==> exists i :: it < i < it + n && i < |s| && !Tail(s[i])
    decreases n
  {
    hide IsTrail, Tail;
    if n > 1 && it + 1 < |s| {
      TailIs(s[it + 1]);
      ReadingByOctets(s, it + 1, n - 1);
    }
  }

  lemma OneByOctets(a: Octet)
    requires Called(a) == 1
    ensures IsCodePointValid(Decode1(a)) && !IsOverlong(Decode1(a), 1)
  {
  }

  lemma TwoByOctets(a: Octet, b: Octet)
    requires Called(a) == 2 && Tail(b)
    ensures IsCodePointValid(Decode2(a, b)) && (IsOverlong(Decode2(a, b), 2) <==> TooLong([a, b])) && !NoScalar([a, b])
  {
  }

  lemma ThreeByOctets(a: Octet, b: Octet, c: Octet)
    requires Called(a) == 3 && Tail(b) && Tail(c)
    ensures (IsCodePointValid(Decode3(a, b, c)) <==> !NoScalar([a, b, c])) && (IsOverlong(Decode3(a, b, c), 3) <==> TooLong([a, b, c]))
  {
    Sum3(a, b, c);
    hide Decode3;
  }

  lemma FourByOctets(a: Octet, b: Octet, c: Octet, d: Octet)
    requires Called(a) == 4 && Tail(b) && Tail(c) && Tail(d)
    ensures IsCodePointValid(Decode4(a, b, c, d)) <==> !NoScalar([a, b, c, d])
    ensures IsOverlong(Decode4(a, b, c, d), 4) <==> TooLong([a, b, c, d])
  {
    Sum4(a, b, c, d);
    hide Decode4;
  }

  /** Reads one code point at it0: past it when it is well formed, nowhere when it is not. */
  method ValidateNext(s: seq<Octet>, it0: nat, codePoint0: CodePoint) returns (it: nat, err: UtfError, codePoint: CodePoint)
    requires it0 < |s|
    ensures err == Verdict(s, it0)
    ensures err == Ok <==> CharLength(s[it0..]) > 0
    ensures it == it0 + CharLength(s[it0..]) <= |s|
    ensures codePoint == if err == Ok then CharValue(s[it0..]) else codePoint0
    ensures err == NotEnoughRoom <==> Truncated(s[it0..])
  {
    VerdictIsSyntax(s, it0);
    hide CharLength, CharValue, Truncated, IsCodePointValid, IsOverlong, SequenceLength;
    it, codePoint := it0, codePoint0;
    var cp := 0;
    var length := SequenceLength(s[it]);
    SequenceLengthBound(s[it]);
    if length == 0 {
      return it, InvalidLead, codePoint;
    } else if length == 1 {
      it, err, cp := GetSequence1(s, it);
    } else if length == 2 {
      it, err, cp := GetSequence2(s, it);
    } else if length == 3 {
      it, err, cp := GetSequence3(s, it);
    } else {
      it, err, cp := GetSequence4(s, it);
    }
    if err == Ok {
      if IsCodePointValid(cp) {
        if !IsOverlong(cp, length) {
          codePoint := cp;
          it := it + 1;
          return;
        } else {
          err := OverlongSequence;
        }
      } else {
        err := InvalidCodePoint;
      }
    }
    it := it0;
  }

  lemma SequenceLengthBound(o: Octet)
    ensures SequenceLength(o) <= 4
  {
  }
}
