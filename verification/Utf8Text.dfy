/**
  Whole texts: UTF-8 as a sequence of UTF8-chars, UTF-16 as in section 2 of RFC 2781, and the scalar
  values they stand for. The methods of checked.h and unchecked.h are specified by these functions.
 */
module Utf8Text {
  import opened Utf8Core

  //
  // UTF-8.
  //

  predicate Scalars(cps: seq<CodePoint>) {
    forall i | 0 <= i < |cps| :: IsCodePointValid(cps[i])
  }

  function EncodeAll(cps: seq<CodePoint>): seq<Octet> {
    if cps == [] then [] else Encode(cps[0]) + EncodeAll(cps[1..])
  }

  predicate ValidUtf8(s: seq<Octet>) {
    s == [] || (CharLength(s) > 0 && ValidUtf8(s[CharLength(s)..]))
  }

  /** Where the first position is at which no UTF8-char begins; |s| when there is none. */
  function InvalidAt(s: seq<Octet>): (k: nat)
    ensures k <= |s|
  {
    if CharLength(s) == 0 then 0 else CharLength(s) + InvalidAt(s[CharLength(s)..])
  }

  /** The values of the UTF8-chars up to there. */
  function DecodeAll(s: seq<Octet>): seq<CodePoint> {
    if CharLength(s) == 0 then [] else [CharValue(s)] + DecodeAll(s[CharLength(s)..])
  }

  lemma {:induction false} EncodeAllConcat(a: seq<CodePoint>, b: seq<CodePoint>)
    ensures EncodeAll(a + b) == EncodeAll(a) + EncodeAll(b)
  {
    hide Encode;
    if a == [] {
      assert a + b == b;
    } else {
      assert (a + b)[1..] == a[1..] + b;
      EncodeAllConcat(a[1..], b);
    }
  }

  lemma EncodeAllSnoc(cps: seq<CodePoint>, i: nat)
    requires i < |cps|
    ensures EncodeAll(cps[..i + 1]) == EncodeAll(cps[..i]) + Encode(cps[i])
  {
    hide Encode;
    assert cps[..i + 1] == cps[..i] + [cps[i]];
    EncodeAllConcat(cps[..i], [cps[i]]);
    assert EncodeAll([cps[i]]) == Encode(cps[i]) + EncodeAll([]);
  }

  /** Decoding undoes encoding. */
  lemma {:induction false} DecodeEncode(cps: seq<CodePoint>)
    requires Scalars(cps)
    ensures ValidUtf8(EncodeAll(cps)) && DecodeAll(EncodeAll(cps)) == cps
  {
    hide Encode, CharLength, CharValue, IsCodePointValid;
    if cps == [] {
      assert CharLength([]) == 0 by { NothingBegins(); }
    } else {
      CharEncodes(cps[0], EncodeAll(cps[1..]));
      DecodeEncode(cps[1..]);
      assert EncodeAll(cps)[|Encode(cps[0])|..] == EncodeAll(cps[1..]);
    }
  }

  lemma NothingBegins()
    ensures CharLength([]) == 0
  {
  }

  /** Encoding undoes decoding, up to the first invalid position. */
  lemma {:induction false} EncodeDecode(s: seq<Octet>)
    ensures Scalars(DecodeAll(s)) && EncodeAll(DecodeAll(s)) == s[..InvalidAt(s)]
    decreases |s|
  {
    hide Encode, CharLength, CharValue, IsCodePointValid;
    var n := CharLength(s);
    if n > 0 {
      CharDecodes(s);
      EncodeDecode(s[n..]);
      assert DecodeAll(s)[1..] == DecodeAll(s[n..]);
      assert s[..n] + s[n..][..InvalidAt(s[n..])] == s[..InvalidAt(s)];
    }
  }

  lemma {:induction false} ValidIsInvalidNowhere(s: seq<Octet>)
    ensures ValidUtf8(s) <==> InvalidAt(s) == |s|
    decreases |s|
  {
    NothingBegins();
    hide CharLength;
    if s != [] && CharLength(s) > 0 { ValidIsInvalidNowhere(s[CharLength(s)..]); }
  }

  ghost predicate IsEncoding(s: seq<Octet>, cps: seq<CodePoint>) {
    Scalars(cps) && EncodeAll(cps) == s
  }

  /** The valid texts are the encodings of sequences of scalar values. */
  lemma ValidIffEncoding(s: seq<Octet>)
    ensures ValidUtf8(s) <==> exists cps :: IsEncoding(s, cps)
    ensures ValidUtf8(s) ==> IsEncoding(s, DecodeAll(s))
  {
    hide ValidUtf8, EncodeAll, DecodeAll, Scalars, InvalidAt;
    if ValidUtf8(s) {
      ValidIsInvalidNowhere(s);
      EncodeDecode(s);
      assert s[..|s|] == s;
      assert IsEncoding(s, DecodeAll(s));
    }
    forall cps | IsEncoding(s, cps) ensures ValidUtf8(s) { DecodeEncode(cps); }
  }

  /** The part before the first invalid position is valid, and no longer beginning is. */
  lemma {:induction false} InvalidAtIsLongest(s: seq<Octet>, k: nat)
    requires k <= |s|
    ensures ValidUtf8(s[..InvalidAt(s)])
    ensures ValidUtf8(s[..k]) ==> k <= InvalidAt(s)
    decreases |s|
  {
    var n := CharLength(s);
    NothingBegins();
    assert CharLength(s[..k]) > 0 ==> CharLength(s[..k]) == n by { PrefixBegins(s, k); }
    if n > 0 {
      assert CharLength(s[..InvalidAt(s)]) == n by { PrefixBegins(s, InvalidAt(s)); }
      hide CharLength;
      InvalidAtIsLongest(s[n..], if n <= k then k - n else 0);
      assert s[..InvalidAt(s)][n..] == s[n..][..InvalidAt(s[n..])];
      assert n <= k ==> s[..k][n..] == s[n..][..k - n];
    }
    hide CharLength;
  }

  /** A UTF8-char is seen in any beginning of the text that holds all of it. */
  lemma PrefixBegins(s: seq<Octet>, k: nat)
    requires k <= |s|
    ensures CharLength(s[..k]) == if CharLength(s) <= k then CharLength(s) else 0
  {
    NothingBegins();
    if s != [] { LeadDecides(s[0]); }
    hide SequenceLength, Utf8_1, Utf8_2, Utf8_3, Utf8_4;
  }

  lemma PrefixValue(s: seq<Octet>, k: nat)
    requires 0 < CharLength(s) <= k <= |s|
    ensures CharLength(s[..k]) == CharLength(s) && CharValue(s[..k]) == CharValue(s)
  {
    PrefixBegins(s, k);
    hide Utf8_1, Utf8_2, Utf8_3, Utf8_4, Decode1, Decode2, Decode3, Decode4;
  }

  //
  // UTF-16.
  //

  const SURROGATE_OFFSET: CodePoint := 0x10000 - (LEAD_SURROGATE_MIN << 10) - TRAIL_SURROGATE_MIN

  function Low16(x: CodePoint): Unit { (x & 0xffff) as Unit }
  function Mask16(u: Unit): CodePoint { u as CodePoint }
  function Lead16(cp: CodePoint): Unit { Low16((cp >> 10) + LEAD_OFFSET) }
  function Trail16(cp: CodePoint): Unit { Low16((cp & 0x3ff) + TRAIL_SURROGATE_MIN) }
  function Join16(lead: CodePoint, trail: CodePoint): CodePoint { (lead << 10) + trail + SURROGATE_OFFSET }
  predicate LeadUnit(u: Unit) { IsLeadSurrogate(Mask16(u)) }
  predicate TrailUnit(u: Unit) { IsTrailSurrogate(Mask16(u)) }

  function Encode16(cp: CodePoint): (t: seq<Unit>)
    ensures 1 <= |t| <= 2
  {
    if cp > 0xffff then [Lead16(cp), Trail16(cp)] else [Low16(cp)]
  }

  lemma LeadBits(cp: CodePoint)
    requires 0x10000 <= cp <= CODE_POINT_MAX
    ensures Mask16(Lead16(cp)) == 0xD800 | ((cp - 0x10000) >> 10)
    ensures LeadUnit(Lead16(cp))
  {
  }

  lemma TrailBits(cp: CodePoint)
    requires 0x10000 <= cp <= CODE_POINT_MAX
    ensures Mask16(Trail16(cp)) == 0xDC00 | ((cp - 0x10000) & 0x3FF)
    ensures TrailUnit(Trail16(cp))
  {
  }

  lemma JoinBits(lead: CodePoint, trail: CodePoint)
    requires IsLeadSurrogate(lead) && IsTrailSurrogate(trail)
    ensures Join16(lead, trail) == (((lead & 0x3FF) << 10) | (trail & 0x3FF)) + 0x10000
  {
  }

  lemma JoinSplit(cp: CodePoint)
    requires 0x10000 <= cp <= CODE_POINT_MAX
    ensures var lead, trail := 0xD800 | ((cp - 0x10000) >> 10), 0xDC00 | ((cp - 0x10000) & 0x3FF);
            ((((lead & 0x3FF) << 10) | (trail & 0x3FF)) as CodePoint) + 0x10000 == cp
  {
  }

  lemma SplitJoin(lead: Unit, trail: Unit)
    requires LeadUnit(lead) && TrailUnit(trail)
    ensures var cp := (((Mask16(lead) & 0x3FF) << 10) | (Mask16(trail) & 0x3FF)) + 0x10000;
            0x10000 <= cp <= CODE_POINT_MAX && Lead16(cp) == lead && Trail16(cp) == trail
  {
  }

  /** Section 2.1 of RFC 2781: the ten high and ten low bits of cp - 0x10000 after 110110 and 110111. */
  lemma SurrogatesOfRfc2781(cp: CodePoint)
    requires 0x10000 <= cp <= CODE_POINT_MAX
    ensures Mask16(Lead16(cp)) == 0xD800 | ((cp - 0x10000) >> 10)
    ensures Mask16(Trail16(cp)) == 0xDC00 | ((cp - 0x10000) & 0x3FF)
    ensures LeadUnit(Lead16(cp)) && TrailUnit(Trail16(cp))
    ensures Join16(Mask16(Lead16(cp)), Mask16(Trail16(cp))) == cp
  {
    LeadBits(cp);
    TrailBits(cp);
    JoinSplit(cp);
    JoinBits(Mask16(Lead16(cp)), Mask16(Trail16(cp)));
    hide Lead16, Trail16, Mask16, Join16;
  }

  /** Section 2.2 of RFC 2781: a pair stands for its twenty low bits plus 0x10000. */
  lemma PairOfRfc2781(lead: Unit, trail: Unit)
    requires LeadUnit(lead) && TrailUnit(trail)
    ensures Join16(Mask16(lead), Mask16(trail)) == (((Mask16(lead) & 0x3FF) << 10) | (Mask16(trail) & 0x3FF)) + 0x10000
    ensures var cp := Join16(Mask16(lead), Mask16(trail));
            IsCodePointValid(cp) && cp > 0xffff && Lead16(cp) == lead && Trail16(cp) == trail
  {
    JoinBits(Mask16(lead), Mask16(trail));
    SplitJoin(lead, trail);
    hide Lead16, Trail16, Join16, Mask16;
  }

  lemma SingleUnit(u: Unit)
    requires !LeadUnit(u) && !TrailUnit(u)
    ensures IsCodePointValid(Mask16(u)) && Mask16(u) <= 0xffff && Low16(Mask16(u)) == u
  {
  }

  lemma SingleCodePoint(cp: CodePoint)
    requires IsCodePointValid(cp) && cp <= 0xffff
    ensures Mask16(Low16(cp)) == cp && !LeadUnit(Low16(cp)) && !TrailUnit(Low16(cp))
  {
  }

  lemma NotBoth(u: Unit)
    ensures !(LeadUnit(u) && TrailUnit(u))
  {
  }

  /** How many units the character that t begins with takes, or 0. */
  function UnitLength(t: seq<Unit>): (n: nat)
    ensures n <= |t|
  {
    if t == [] then 0
    else if LeadUnit(t[0]) then if |t| >= 2 && TrailUnit(t[1]) then 2 else 0
    else if TrailUnit(t[0]) then 0
    else 1
  }

  function UnitValue(t: seq<Unit>): CodePoint
    requires UnitLength(t) > 0
  {
    if UnitLength(t) == 2 then Join16(Mask16(t[0]), Mask16(t[1])) else Mask16(t[0])
  }

  function EncodeAll16(cps: seq<CodePoint>): seq<Unit> {
    if cps == [] then [] else Encode16(cps[0]) + EncodeAll16(cps[1..])
  }

  predicate ValidUtf16(t: seq<Unit>) {
    t == [] || (UnitLength(t) > 0 && ValidUtf16(t[UnitLength(t)..]))
  }

  function InvalidAt16(t: seq<Unit>): (k: nat)
    ensures k <= |t|
  {
    if UnitLength(t) == 0 then 0 else UnitLength(t) + InvalidAt16(t[UnitLength(t)..])
  }

  function DecodeAll16(t: seq<Unit>): seq<CodePoint> {
    if UnitLength(t) == 0 then [] else [UnitValue(t)] + DecodeAll16(t[UnitLength(t)..])
  }

  /** Unit i of t is half of a pair without the other half. */
  predicate Unpaired(t: seq<Unit>, i: nat)
    requires i < |t|
  {
    || (LeadUnit(t[i]) && !(i + 1 < |t| && TrailUnit(t[i + 1])))
    || (TrailUnit(t[i]) && !(0 < i && LeadUnit(t[i - 1])))
  }

  lemma UnitsDecode(t: seq<Unit>)
    requires UnitLength(t) > 0
    ensures IsCodePointValid(UnitValue(t)) && Encode16(UnitValue(t)) == t[..UnitLength(t)]
  {
    if UnitLength(t) == 2 { PairOfRfc2781(t[0], t[1]); } else { SingleUnit(t[0]); }
    hide LeadUnit, TrailUnit, Lead16, Trail16, Low16, Mask16, Join16, IsCodePointValid;
  }

  lemma UnitsEncode(cp: CodePoint, rest: seq<Unit>)
    requires IsCodePointValid(cp)
    ensures UnitLength(Encode16(cp) + rest) == |Encode16(cp)| && UnitValue(Encode16(cp) + rest) == cp
  {
    if cp > 0xffff { SurrogatesOfRfc2781(cp); } else { SingleCodePoint(cp); }
    hide LeadUnit, TrailUnit, Lead16, Trail16, Low16, Mask16, Join16, IsCodePointValid;
  }

  lemma {:induction false} DecodeEncode16(cps: seq<CodePoint>)
    requires Scalars(cps)
    ensures ValidUtf16(EncodeAll16(cps)) && DecodeAll16(EncodeAll16(cps)) == cps
  {
    if cps != [] {
      UnitsEncode(cps[0], EncodeAll16(cps[1..]));
      DecodeEncode16(cps[1..]);
      hide Encode16, UnitLength, UnitValue, IsCodePointValid;
      assert EncodeAll16(cps)[|Encode16(cps[0])|..] == EncodeAll16(cps[1..]);
    }
  }

  lemma {:induction false} EncodeDecode16(t: seq<Unit>)
    ensures Scalars(DecodeAll16(t)) && EncodeAll16(DecodeAll16(t)) == t[..InvalidAt16(t)]
    decreases |t|
  {
    hide LeadUnit, TrailUnit, Low16, Join16, Mask16;
    var n := UnitLength(t);
    if n > 0 {
      UnitsDecode(t);
      EncodeDecode16(t[n..]);
      hide Encode16, UnitLength, UnitValue, IsCodePointValid;
      assert DecodeAll16(t)[1..] == DecodeAll16(t[n..]);
      assert t[..n] + t[n..][..InvalidAt16(t[n..])] == t[..InvalidAt16(t)];
    }
  }

  lemma {:induction false} ValidIsInvalidNowhere16(t: seq<Unit>)
    ensures ValidUtf16(t) <==> InvalidAt16(t) == |t|
    decreases |t|
  {
    hide LeadUnit, TrailUnit;
    if UnitLength(t) > 0 { ValidIsInvalidNowhere16(t[UnitLength(t)..]); }
  }

  /** The text is valid just when no surrogate is unpaired. */
  lemma {:induction false} ValidIffPaired(t: seq<Unit>)
    ensures ValidUtf16(t) <==> forall i | 0 <= i < |t| :: !Unpaired(t, i)
    decreases |t|
  {
    var n := UnitLength(t);
    if n == 0 {
      if t != [] { assert Unpaired(t, 0); }
    } else {
      ValidIffPaired(t[n..]);
      forall i | 0 <= i < |t| ensures Unpaired(t, i) <==> i >= n && Unpaired(t[n..], i - n) { UnpairedLater(t, i); }
      hide LeadUnit, TrailUnit, UnitLength, Unpaired;
      forall i | 0 <= i < |t[n..]| ensures Unpaired(t[n..], i) ==> Unpaired(t, n + i) { assert Unpaired(t, n + i) <==> Unpaired(t[n..], i); }
    }
  }

  lemma UnpairedLater(t: seq<Unit>, i: nat)
    requires 0 < UnitLength(t) && i < |t|
    ensures var n := UnitLength(t); Unpaired(t, i) <==> i >= n && Unpaired(t[n..], i - n)
  {
    NotBoth(t[0]);
    if |t| > 1 { NotBoth(t[1]); }
    hide LeadUnit, TrailUnit;
  }

  //
  // One step of each.
  //

  lemma EncodeAll16Step(cp: CodePoint, cps: seq<CodePoint>)
    ensures EncodeAll16([cp] + cps) == Encode16(cp) + EncodeAll16(cps)
  {
    assert ([cp] + cps)[1..] == cps;
    hide Encode16;
  }

  lemma EncodeAllStep(cp: CodePoint, cps: seq<CodePoint>)
    ensures EncodeAll([cp] + cps) == Encode(cp) + EncodeAll(cps)
  {
    assert ([cp] + cps)[1..] == cps;
    hide Encode;
  }

  lemma EmptyText()
    ensures EncodeAll16([]) == [] && EncodeAll([]) == []
  {
  }

  lemma ReadStep16(t: seq<Unit>, it: nat)
    requires it <= |t|
    ensures var n := UnitLength(t[it..]);
            if n == 0 then DecodeAll16(t[it..]) == [] && InvalidAt16(t[it..]) == 0
            else DecodeAll16(t[it..]) == [UnitValue(t[it..])] + DecodeAll16(t[it + n..]) && InvalidAt16(t[it..]) == n + InvalidAt16(t[it + n..])
  {
    hide UnitLength, UnitValue;
  }

  /** One step of reading s from position it on. */
  lemma ReadStep(s: seq<Octet>, it: nat)
    requires it <= |s|
    ensures var n := CharLength(s[it..]);
            if n == 0 then DecodeAll(s[it..]) == [] && InvalidAt(s[it..]) == 0
            else DecodeAll(s[it..]) == [CharValue(s[it..])] + DecodeAll(s[it + n..]) && InvalidAt(s[it..]) == n + InvalidAt(s[it + n..])
    ensures it == |s| ==> CharLength(s[it..]) == 0
  {
    NothingBegins();
    hide CharLength, CharValue;
  }

  //
  // Backwards.
  //

  /** The last position before it that holds no trail octet, or -1. */
  function LeadBefore(s: seq<Octet>, it: nat): (j: int)
    requires it <= |s|
    ensures -1 <= j < it || j == -1
    ensures forall i | j < i < it :: IsTrail(s[i])
    ensures j >= 0 ==> !IsTrail(s[j])
  {
    if it == 0 then -1 else if IsTrail(s[it - 1]) then LeadBefore(s, it - 1) else it - 1
  }

  lemma LeadIsNoTrail(o: Octet)
    ensures SequenceLength(o) > 0 ==> !IsTrail(o)
  {
  }

  /** A UTF8-char is one octet that is no trail, and trails. */
  lemma CharShape(s: seq<Octet>)
    requires CharLength(s) > 0
    ensures !IsTrail(s[0]) && forall i | 0 < i < CharLength(s) :: IsTrail(s[i])
  {
    var n := CharLength(s);
    CharLengthIs(s);
    LeadIsNoTrail(s[0]);
    if n == 2 { Accept2(s[0], s[1]); }
    if n == 3 { Accept3(s[0], s[1], s[2]); }
    if n == 4 { Accept4(s[0], s[1], s[2], s[3]); }
    hide Utf8_1, Utf8_2, Utf8_3, Utf8_4, IsTrail, SequenceLength, Decode2, Decode3, Decode4, IsCodePointValid, IsOverlong;
  }

  lemma {:induction false} LeadBeforeIs(s: seq<Octet>, p: nat, it: nat)
    requires p < it <= |s| && !IsTrail(s[p]) && forall i | p < i < it :: IsTrail(s[i])
    ensures LeadBefore(s, it) == p
  {
    hide IsTrail;
    if it > p + 1 { LeadBeforeIs(s, p, it - 1); }
  }

  /** A UTF8-char of s ends at position it. */
  ghost predicate CharEndsAt(s: seq<Octet>, p: nat, it: nat)
    requires p < it <= |s|
  {
    CharLength(s[p..]) == it - p
  }

  /** Going back from the end of a UTF8-char finds its beginning and its value. */
  lemma BackOverChar(s: seq<Octet>, p: nat, it: nat)
    requires p < it <= |s| && CharEndsAt(s, p, it)
    ensures LeadBefore(s, it) == p
    ensures CharLength(s[..it][p..]) == it - p && CharValue(s[..it][p..]) == CharValue(s[p..])
  {
    CharShape(s[p..]);
    PrefixValue(s[p..], it - p);
    hide CharLength, CharValue, IsTrail;
    assert s[p..][..it - p] == s[..it][p..];
    assert forall i | p < i < it :: s[i] == s[p..][i - p];
    LeadBeforeIs(s, p, it);
  }
}
