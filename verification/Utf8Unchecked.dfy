/**
  The functions of unchecked.h. They validate nothing; on the texts they are meant for they do what
  the checked ones do, being proved against the same functions.
 */
module Utf8Unchecked {
  import opened Utf8Core
  import opened Utf8Text

  method Append(cp: CodePoint, result0: seq<Octet>) returns (result: seq<Octet>)
    ensures result == result0 + Encode(cp)
  {
    hide Lead2, Lead3, Lead4, Trail0, Trail6, Trail12, Low8;
    result := result0;
    if cp < 0x80 {
      result := result + [Low8(cp)];
    } else if cp < 0x800 {
      result := result + [Lead2(cp)];
      result := result + [Trail0(cp)];
    } else if cp < 0x10000 {
      result := result + [Lead3(cp)];
      result := result + [Trail6(cp)];
      result := result + [Trail0(cp)];
    } else {
      result := result + [Lead4(cp)];
      result := result + [Trail12(cp)];
      result := result + [Trail6(cp)];
      result := result + [Trail0(cp)];
    }
  }

  /** The octets read must exist; what they hold matters only for what is returned. */
  method Next(s: seq<Octet>, it0: nat) returns (it: nat, cp: CodePoint)
    requires it0 < |s| && it0 + SequenceLength(s[it0]) <= |s|
    ensures it == it0 + if SequenceLength(s[it0]) == 0 then 1 else SequenceLength(s[it0])
    ensures CharLength(s[it0..]) > 0 ==> it == it0 + CharLength(s[it0..]) && cp == CharValue(s[it0..])
  {
    SequenceLengthBound(s[it0]);
    CharLengthIs(s[it0..]);
    ValueAt(s, it0);
    hide CharLength, CharValue;
    hide First2, First3, First4, Then6, Then0, Mask8, Utf8_1, Utf8_2, Utf8_3, Utf8_4, IsTrail, SequenceLength;
    it := it0;
    cp := Mask8(s[it]);
    var length := SequenceLength(s[it]);
    match length {
    case 2 =>
      it := it + 1;
      cp := First2(cp, s[it]);
    case 3 =>
      it := it + 1;
      cp := First3(cp, s[it]);
      it := it + 1;
      cp := Then0(cp, s[it]);
    case 4 =>
      it := it + 1;
      cp := First4(cp, s[it]);
      it := it + 1;
      cp := Then6(cp, s[it]);
      it := it + 1;
      cp := Then0(cp, s[it]);
    case _ =>
    }
    it := it + 1;
  }

  lemma ValueAt(s: seq<Octet>, it: nat)
    requires it < |s| && CharLength(s[it..]) > 0 ==> CharLength(s[it..]) == SequenceLength(s[it])
    ensures it < |s| && CharLength(s[it..]) > 0 ==>
              var n := SequenceLength(s[it]);
              1 <= n <= 4 && it + n <= |s| && CharValue(s[it..]) == RawValue(s, it, n)
  {
    if it < |s| { SequenceLengthBound(s[it]); }
    hide SequenceLength, Decode1, Decode2, Decode3, Decode4, Utf8_1, Utf8_2, Utf8_3, Utf8_4;
  }

  /** One step of reading a valid text. */
  lemma Step(s: seq<Octet>, it: nat)
    requires it <= |s| && ValidUtf8(s[it..])
    ensures it < |s| ==>
              var n := CharLength(s[it..]);
              0 < n == SequenceLength(s[it]) && it + n <= |s| && ValidUtf8(s[it + n..]) &&
              DecodeAll(s[it..]) == [CharValue(s[it..])] + DecodeAll(s[it + n..])
    ensures it == |s| ==> DecodeAll(s[it..]) == []
  {
    NothingBegins();
    if it < |s| { CharLengthIs(s[it..]); }
    hide CharLength, CharValue, SequenceLength, IsChar;
  }

  method Distance(s: seq<Octet>) returns (dist: nat)
    requires ValidUtf8(s)
    ensures dist == |DecodeAll(s)|
  {
    hide CharLength, CharValue, SequenceLength, ValidUtf8, DecodeAll;
    var first := 0;
    dist := 0;
    while first < |s|
      invariant first <= |s| && ValidUtf8(s[first..])
      invariant dist + |DecodeAll(s[first..])| == |DecodeAll(s)|
    {
      Step(s, first);
      var cp;
      first, cp := Next(s, first);
      dist := dist + 1;
    }
    Step(s, |s|);
  }

  method Utf8To32(s: seq<Octet>, result0: seq<CodePoint>) returns (result: seq<CodePoint>)
    requires ValidUtf8(s)
    ensures result == result0 + DecodeAll(s)
  {
    hide CharLength, CharValue, SequenceLength, ValidUtf8, DecodeAll;
    result := result0;
    var start := 0;
    while start < |s|
      invariant start <= |s| && ValidUtf8(s[start..])
      invariant result0 + DecodeAll(s) == result + DecodeAll(s[start..])
    {
      Step(s, start);
      var cp;
      start, cp := Next(s, start);
      assert result + ([cp] + DecodeAll(s[start..])) == (result + [cp]) + DecodeAll(s[start..]);
      result := result + [cp];
    }
    Step(s, |s|);
  }

  method Utf32To8(cps: seq<CodePoint>, result0: seq<Octet>) returns (result: seq<Octet>)
    ensures result == result0 + EncodeAll(cps)
  {
    hide Encode;
    result := result0;
    var start := 0;
    while start != |cps|
      invariant start <= |cps| && result == result0 + EncodeAll(cps[..start])
      decreases |cps| - start
    {
      EncodeAllSnoc(cps, start);
      result := Append(cps[start], result);
      start := start + 1;
    }
    assert cps[..start] == cps;
  }

  method Utf8To16(s: seq<Octet>, result0: seq<Unit>) returns (result: seq<Unit>)
    requires ValidUtf8(s)
    ensures result == result0 + EncodeAll16(DecodeAll(s))
  {
    hide CharLength, CharValue, SequenceLength, ValidUtf8, DecodeAll, EncodeAll16, Lead16, Trail16, Low16;
    result := result0;
    var start := 0;
    while start < |s|
      invariant start <= |s| && ValidUtf8(s[start..])
      invariant result0 + EncodeAll16(DecodeAll(s)) == result + EncodeAll16(DecodeAll(s[start..]))
    {
      Step(s, start);
      var cp;
      start, cp := Next(s, start);
      EncodeAll16Step(cp, DecodeAll(s[start..]));
      ghost var rest := EncodeAll16(DecodeAll(s[start..]));
      assert result + (Encode16(cp) + rest) == (result + Encode16(cp)) + rest;
      if cp > 0xffff {
        result := result + [Lead16(cp)];
        result := result + [Trail16(cp)];
      } else {
        result := result + [Low16(cp)];
      }
    }
    Step(s, |s|);
    EmptyText();
  }

  method Utf16To8(t: seq<Unit>, result0: seq<Octet>) returns (result: seq<Octet>)
    requires ValidUtf16(t)
    ensures result == result0 + EncodeAll(DecodeAll16(t))
  {
    hide Encode, Join16, Mask16, IsLeadSurrogate, IsTrailSurrogate, DecodeAll16, EncodeAll, ValidUtf16;
    result := result0;
    var start := 0;
    while start != |t|
      invariant start <= |t| && ValidUtf16(t[start..])
      invariant result0 + EncodeAll(DecodeAll16(t)) == result + EncodeAll(DecodeAll16(t[start..]))
      decreases |t| - start
    {
      ReadStep16(t, start);
      ValidStep16(t, start);
      var cp := Mask16(t[start]);
      start := start + 1;
      if IsLeadSurrogate(cp) {
        var trailSurrogate := Mask16(t[start]);
        start := start + 1;
        cp := Join16(cp, trailSurrogate);
      }
      EncodeAllStep(cp, DecodeAll16(t[start..]));
      ghost var rest := EncodeAll(DecodeAll16(t[start..]));
      assert result + (Encode(cp) + rest) == (result + Encode(cp)) + rest;
      result := Append(cp, result);
    }
    ReadStep16(t, |t|);
    EmptyText();
  }

  lemma ValidStep16(t: seq<Unit>, it: nat)
    requires it < |t| && ValidUtf16(t[it..])
    ensures UnitLength(t[it..]) > 0 && ValidUtf16(t[it + UnitLength(t[it..])..])
  {
    hide UnitLength;
  }

  /** Runs off the beginning unless some octet before it0 is no trail. */
  method Prior(s: seq<Octet>, it0: nat) returns (it: nat, cp: CodePoint)
    requires it0 <= |s| && LeadBefore(s, it0) >= 0
    requires LeadBefore(s, it0) + SequenceLength(s[LeadBefore(s, it0)]) <= |s|
    ensures it == LeadBefore(s, it0) < it0
    ensures CharLength(s[it..]) > 0 ==> cp == CharValue(s[it..])
  {
    hide CharLength, CharValue, SequenceLength, IsTrail;
    it := it0 - 1;
    while IsTrail(s[it])
      invariant it < it0 && LeadBefore(s, it + 1) == LeadBefore(s, it0)
      decreases it
    {
      it := it - 1;
    }
    var temp := it;
    temp, cp := Next(s, temp);
  }

  /** On well-formed text the unchecked step back undoes the unchecked step forward. */
  method NextThenPrior(s: seq<Octet>, it0: nat) returns (there: nat, back: nat, forward: CodePoint, backward: CodePoint)
    requires it0 < |s| && CharLength(s[it0..]) > 0
    ensures there > it0 == back && forward == backward == CharValue(s[it0..])
  {
    CharLengthIs(s[it0..]);
    hide CharLength, CharValue, SequenceLength, IsChar, LeadBefore;
    there, forward := Next(s, it0);
    BackOverChar(s, it0, there);
    back, backward := Prior(s, there);
  }
}
