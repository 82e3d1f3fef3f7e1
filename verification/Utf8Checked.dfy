/**
  The checked functions of checked.h and the loops of core.h over a whole range. An output iterator
  is the sequence of what has been written through it; an exception leaves it as far as it got.
 */
module Utf8Checked {
  import opened Utf8Core
  import opened Utf8Text

  datatype Exception =
    | InvalidCodePointThrown(codePoint: CodePoint)
    | InvalidUtf8Thrown(octet: Octet)
    | InvalidUtf16Thrown(word: Unit)
    | NotEnoughRoomThrown

  datatype Outcome = Returned | Threw(exception: Exception)

  method Append(cp: CodePoint, result0: seq<Octet>) returns (result: seq<Octet>, outcome: Outcome)
    ensures outcome == if IsCodePointValid(cp) then Returned else Threw(InvalidCodePointThrown(cp))
    ensures result == if outcome == Returned then result0 + Encode(cp) else result0
  {
    hide Lead2, Lead3, Lead4, Trail0, Trail6, Trail12, Low8, IsCodePointValid;
    result := result0;
    if !IsCodePointValid(cp) {
      return result, Threw(InvalidCodePointThrown(cp));
    }
    if cp < 0x80 {
      result := result + [Low8(cp)];
    } else if cp < 0x800 {
      result := result + [Lead2(cp)];
      result := result + [Trail0(cp)];
    } else if cp < 0x10000 {
      result := result + [Lead3(cp)];
      result := result + [Trail6(cp)];
      result := result + [Trail0(cp)];
    } else {
      result := result + [Lead4(cp)];
      result := result + [Trail12(cp)];
      result := result + [Trail6(cp)];
      result := result + [Trail0(cp)];
    }
    outcome := Returned;
  }

  /** What next throws at a position where no UTF8-char begins. The code point read is not reported. */
  function Complaint(s: seq<Octet>, it: nat): Exception
    requires it < |s|
  {
    if Truncated(s[it..]) then NotEnoughRoomThrown
    else if Verdict(s, it) == UtfError.InvalidCodePoint then InvalidCodePointThrown(0)
    else InvalidUtf8Thrown(s[it])
  }

  /** Which exception it is, octet by octet, where no UTF8-char begins. */
  lemma ComplaintByOctets(s: seq<Octet>, it: nat)
    requires it < |s| && CharLength(s[it..]) == 0
    ensures var t := s[it..];
            (Complaint(s, it) == NotEnoughRoomThrown <==> |t| < Called(t[0]) && forall i | 1 <= i < |t| :: Tail(t[i])) &&
            (Complaint(s, it) == InvalidCodePointThrown(0) <==> Complete(t) && Called(t[0]) > 1 && NoScalar(t)) &&
            (Complaint(s, it) == InvalidUtf8Thrown(t[0]) <==>
               Called(t[0]) == 0 || (exists i :: 1 <= i < Called(t[0]) && i < |t| && !Tail(t[i])) || (Complete(t) && Called(t[0]) > 1 && !NoScalar(t)))
  {
    VerdictIsSyntax(s, it);
    VerdictByOctets(s, it);
    hide CharLength, Verdict, Truncated, Tail, Called, NoScalar, TooLong;
  }

  method Next(s: seq<Octet>, it0: nat) returns (it: nat, cp: CodePoint, outcome: Outcome)
    requires it0 < |s|
    ensures outcome == if CharLength(s[it0..]) > 0 then Returned else Threw(Complaint(s, it0))
    ensures it == it0 + CharLength(s[it0..]) <= |s|
    ensures outcome == Returned ==> cp == CharValue(s[it0..])
  {
    hide CharLength, CharValue, Truncated, Verdict;
    cp := 0;
    var err;
    it, err, cp := ValidateNext(s, it0, cp);
    match err
    case Ok => outcome := Returned;
    case NotEnoughRoom => outcome := Threw(NotEnoughRoomThrown);
    case InvalidLead => outcome := Threw(InvalidUtf8Thrown(s[it]));
    case IncompleteSequence => outcome := Threw(InvalidUtf8Thrown(s[it]));
    case OverlongSequence => outcome := Threw(InvalidUtf8Thrown(s[it]));
    case InvalidCodePoint => outcome := Threw(InvalidCodePointThrown(cp));
  }

  method PeekNext(s: seq<Octet>, it0: nat) returns (cp: CodePoint, outcome: Outcome)
    requires it0 < |s|
    ensures outcome == if CharLength(s[it0..]) > 0 then Returned else Threw(Complaint(s, it0))
    ensures outcome == Returned ==> cp == CharValue(s[it0..])
  {
    hide CharLength, CharValue, Complaint;
    var it := it0;
    it, cp, outcome := Next(s, it);
  }

  /** Next reads back what Append wrote. */
  method AppendThenNext(cp: CodePoint, result0: seq<Octet>, rest: seq<Octet>) returns (it: nat, read: CodePoint, outcome: Outcome)
    requires IsCodePointValid(cp)
    ensures outcome == Returned && read == cp && it == |result0 + Encode(cp)|
  {
    var result;
    result, outcome := Append(cp, result0);
    CharEncodes(cp, rest);
    hide CharLength, CharValue, Encode, IsCodePointValid;
    assert (result + rest)[|result0|..] == Encode(cp) + rest;
    it, read, outcome := Next(result + rest, |result0|);
  }

  /** Append writes back what Next read. */
  method NextThenAppend(s: seq<Octet>, it0: nat, result0: seq<Octet>) returns (it: nat, result: seq<Octet>, outcome: Outcome)
    requires it0 < |s|
    ensures it0 <= it <= |s| && result == result0 + s[it0..it]
    ensures outcome == Returned <==> CharLength(s[it0..]) > 0
  {
    var cp;
    it, cp, outcome := Next(s, it0);
    result := result0;
    hide CharLength, CharValue, Complaint;
    if outcome == Returned {
      CharDecodes(s[it0..]);
      hide Encode, IsCodePointValid;
      result, outcome := Append(cp, result);
    }
  }

  method FindInvalid(s: seq<Octet>) returns (result: nat)
    ensures result == InvalidAt(s)
  {
    hide CharLength, CharValue, Verdict, Truncated;
    result := 0;
    while result != |s|
      invariant result <= |s| && result + InvalidAt(s[result..]) == InvalidAt(s)
      decreases |s| - result
    {
      var err, ignored;
      result, err, ignored := ValidateNext(s, result, 0);
      if err != Ok {
        return;
      }
    }
  }

  method IsValid(s: seq<Octet>) returns (valid: bool)
    ensures valid <==> exists cps :: IsEncoding(s, cps)
  {
    var result := FindInvalid(s);
    ValidIffEncoding(s);
    ValidIsInvalidNowhere(s);
    hide InvalidAt, ValidUtf8, IsEncoding;
    valid := result == |s|;
  }

  /** How reading all of a text ends. */
  function Reads(s: seq<Octet>): Outcome {
    if InvalidAt(s) == |s| then Returned else Threw(Complaint(s, InvalidAt(s)))
  }

  lemma {:induction false} StopsAt(s: seq<Octet>)
    ensures InvalidAt(s) < |s| ==> CharLength(s[InvalidAt(s)..]) == 0
    decreases |s|
  {
    hide CharLength;
    if CharLength(s) > 0 { StopsAt(s[CharLength(s)..]); }
  }

  method Distance(s: seq<Octet>) returns (dist: nat, outcome: Outcome)
    ensures outcome == Reads(s)
    ensures dist == |DecodeAll(s)|
  {
    hide CharLength, CharValue, Complaint;
    var first := 0;
    dist := 0;
    while first < |s|
      invariant first <= |s| && first + InvalidAt(s[first..]) == InvalidAt(s)
      invariant dist + |DecodeAll(s[first..])| == |DecodeAll(s)|
    {
      var cp;
      first, cp, outcome := Next(s, first);
      if outcome != Returned {
        return;
      }
      dist := dist + 1;
    }
    NothingBegins();
    outcome := Returned;
  }

  method Utf8To32(s: seq<Octet>, result0: seq<CodePoint>) returns (result: seq<CodePoint>, outcome: Outcome)
    ensures outcome == Reads(s)
    ensures result == result0 + DecodeAll(s)
  {
    hide CharLength, CharValue, Complaint;
    hide DecodeAll, InvalidAt;
    result := result0;
    var start := 0;
    while start != |s|
      invariant start <= |s| && start + InvalidAt(s[start..]) == InvalidAt(s)
      invariant result0 + DecodeAll(s) == result + DecodeAll(s[start..])
      decreases |s| - start
    {
      ReadStep(s, start);
      var cp;
      start, cp, outcome := Next(s, start);
      if outcome != Returned {
        return;
      }
      assert result + ([cp] + DecodeAll(s[start..])) == (result + [cp]) + DecodeAll(s[start..]);
      result := result + [cp];
    }
    ReadStep(s, |s|);
    outcome := Returned;
  }

  method Utf32To8(cps: seq<CodePoint>, result0: seq<Octet>) returns (result: seq<Octet>, outcome: Outcome, ghost k: nat)
    ensures outcome == Returned <==> Scalars(cps)
    ensures k <= |cps| && Scalars(cps[..k]) && result == result0 + EncodeAll(cps[..k])
    ensures outcome == Returned ==> k == |cps|
    ensures outcome != Returned ==> k < |cps| && !IsCodePointValid(cps[k]) && outcome == Threw(InvalidCodePointThrown(cps[k]))
  {
    hide IsCodePointValid, Encode, EncodeAll;
    assert EncodeAll(cps[..0]) == [] by { EmptyText(); }
    result := result0;
    var start := 0;
    k := 0;
    while start != |cps|
      invariant start == k <= |cps| && Scalars(cps[..k])
      invariant result == result0 + EncodeAll(cps[..k])
      decreases |cps| - start
    {
      result, outcome := Append(cps[start], result);
      if outcome != Returned {
        return;
      }
      EncodeAllSnoc(cps, k);
      start, k := start + 1, k + 1;
    }
    assert cps[..k] == cps;
    outcome := Returned;
  }

  //
  // UTF-16.
  //

  method Utf8To16(s: seq<Octet>, result0: seq<Unit>) returns (result: seq<Unit>, outcome: Outcome)
    ensures outcome == Reads(s)
    ensures result == result0 + EncodeAll16(DecodeAll(s))
  {
    hide CharLength, CharValue, Complaint, Lead16, Trail16, Low16, DecodeAll, InvalidAt, EncodeAll16;
    result := result0;
    var start := 0;
    while start != |s|
      invariant start <= |s| && start + InvalidAt(s[start..]) == InvalidAt(s)
      invariant result0 + EncodeAll16(DecodeAll(s)) == result + EncodeAll16(DecodeAll(s[start..]))
      decreases |s| - start
    {
      ReadStep(s, start);
      var cp;
      start, cp, outcome := Next(s, start);
      if outcome != Returned {
        assert EncodeAll16([]) == [] by { EmptyText(); }
        return;
      }
      EncodeAll16Step(cp, DecodeAll(s[start..]));
      ghost var rest := EncodeAll16(DecodeAll(s[start..]));
      assert result + (Encode16(cp) + rest) == (result + Encode16(cp)) + rest;
      if cp > 0xffff {
        result := result + [Lead16(cp)];
        result := result + [Trail16(cp)];
      } else {
        result := result + [Low16(cp)];
      }
    }
    ReadStep(s, |s|);
    EmptyText();
    outcome := Returned;
  }

  /** How converting from UTF-16 ends: the throw names the unit that is no trail surrogate, or has no lead. */
  function Reads16(t: seq<Unit>): Outcome {
    var k := InvalidAt16(t);
    if k == |t| then Returned
    else if LeadUnit(t[k]) && k + 1 < |t| then Threw(InvalidUtf16Thrown(t[k + 1]))
    else Threw(InvalidUtf16Thrown(t[k]))
  }

  lemma SameUnit(u: Unit)
    ensures Low16(Mask16(u)) == u
  {
  }

  method Utf16To8(t: seq<Unit>, result0: seq<Octet>) returns (result: seq<Octet>, outcome: Outcome)
    ensures outcome == Reads16(t)
    ensures result == result0 + EncodeAll(DecodeAll16(t))
  {
    hide Encode, IsCodePointValid, Low16, Join16, Mask16, IsLeadSurrogate, IsTrailSurrogate, DecodeAll16, InvalidAt16, EncodeAll;
    result := result0;
    var start := 0;
    while start != |t|
      invariant start <= |t| && start + InvalidAt16(t[start..]) == InvalidAt16(t)
      invariant result0 + EncodeAll(DecodeAll16(t)) == result + EncodeAll(DecodeAll16(t[start..]))
      decreases |t| - start
    {
      ghost var here := start;
      ReadStep16(t, start);
      EmptyText();
      var cp := Mask16(t[start]);
      SameUnit(t[start]);
      start := start + 1;
      if IsLeadSurrogate(cp) {
        if start != |t| {
          var trailSurrogate := Mask16(t[start]);
          SameUnit(t[start]);
          start := start + 1;
          if IsTrailSurrogate(trailSurrogate) {
            cp := Join16(cp, trailSurrogate);
          } else {
            return result, Threw(InvalidUtf16Thrown(Low16(trailSurrogate)));
          }
        } else {
          return result, Threw(InvalidUtf16Thrown(Low16(cp)));
        }
      } else if IsTrailSurrogate(cp) {
        return result, Threw(InvalidUtf16Thrown(Low16(cp)));
      }
      UnitsDecode(t[here..]);
      EncodeAllStep(cp, DecodeAll16(t[start..]));
      ghost var rest := EncodeAll(DecodeAll16(t[start..]));
      assert result + (Encode(cp) + rest) == (result + Encode(cp)) + rest;
      result, outcome := Append(cp, result);
    }
    ReadStep16(t, |t|);
    EmptyText();
    outcome := Returned;
  }

  //
  // The conversions undo each other.
  //

  lemma Utf8ThroughUtf16(s: seq<Octet>)
    requires ValidUtf8(s)
    ensures var t := EncodeAll16(DecodeAll(s)); ValidUtf16(t) && EncodeAll(DecodeAll16(t)) == s
  {
    ValidIffEncoding(s);
    DecodeEncode16(DecodeAll(s));
    hide ValidUtf8, ValidUtf16, DecodeAll, EncodeAll, DecodeAll16, EncodeAll16, Scalars;
  }

  lemma Utf16ThroughUtf8(t: seq<Unit>)
    requires ValidUtf16(t)
    ensures var s := EncodeAll(DecodeAll16(t)); ValidUtf8(s) && EncodeAll16(DecodeAll(s)) == t
  {
    EncodeDecode16(t);
    ValidIsInvalidNowhere16(t);
    DecodeEncode(DecodeAll16(t));
    hide ValidUtf8, ValidUtf16, DecodeAll, EncodeAll, DecodeAll16, EncodeAll16, Scalars;
    assert t[..|t|] == t;
  }

  /** utf16to8 after utf8to16 gives back any valid text, and neither throws. */
  method ThereAndBack8(s: seq<Octet>) returns (t: seq<Unit>, back: seq<Octet>, outcome: Outcome)
    requires ValidUtf8(s)
    ensures outcome == Returned && back == s && forall i | 0 <= i < |t| :: !Unpaired(t, i)
  {
    Utf8ThroughUtf16(s);
    ValidIsInvalidNowhere(s);
    hide ValidUtf8, ValidUtf16, DecodeAll, EncodeAll, DecodeAll16, EncodeAll16, InvalidAt, InvalidAt16, Unpaired, Complaint, LeadUnit;
    t, outcome := Utf8To16(s, []);
    assert t == EncodeAll16(DecodeAll(s));
    ValidIsInvalidNowhere16(t);
    ValidIffPaired(t);
    back, outcome := Utf16To8(t, []);
    assert back == EncodeAll(DecodeAll16(t));
  }

  /** utf8to16 after utf16to8 gives back any text whose surrogates are paired; any other throws. */
  method ThereAndBack16(t: seq<Unit>) returns (s: seq<Octet>, back: seq<Unit>, outcome: Outcome)
    ensures outcome == Returned <==> forall i | 0 <= i < |t| :: !Unpaired(t, i)
    ensures outcome == Returned ==> back == t
    ensures outcome == Returned ==> exists cps :: IsEncoding(s, cps)
    ensures outcome != Returned ==> outcome.exception.InvalidUtf16Thrown?
  {
    ValidIsInvalidNowhere16(t);
    ValidIffPaired(t);
    hide ValidUtf8, ValidUtf16, DecodeAll, EncodeAll, DecodeAll16, EncodeAll16, InvalidAt, InvalidAt16, Unpaired, Complaint, LeadUnit, IsEncoding;
    back := [];
    s, outcome := Utf16To8(t, []);
    if outcome == Returned {
      assert s == EncodeAll(DecodeAll16(t));
      Utf16ThroughUtf8(t);
      ValidIsInvalidNowhere(s);
      ValidIffEncoding(s);
      back, outcome := Utf8To16(s, []);
      assert back == EncodeAll16(DecodeAll(s));
    }
  }

  //
  // Backwards.
  //

  method Prior(s: seq<Octet>, it0: nat) returns (it: nat, cp: CodePoint, outcome: Outcome)
    requires it0 <= |s|
    ensures it0 == 0 ==> it == 0 && outcome == Threw(NotEnoughRoomThrown)
    ensures it0 > 0 && LeadBefore(s, it0) < 0 ==> it == 0 && outcome == Threw(InvalidUtf8Thrown(s[0]))
    ensures LeadBefore(s, it0) >= 0 ==> it == LeadBefore(s, it0) < it0
    ensures LeadBefore(s, it0) >= 0 ==>
              outcome == if CharLength(s[..it0][it..]) > 0 then Returned else Threw(Complaint(s[..it0], it))
    ensures outcome == Returned ==> it0 > 0 && LeadBefore(s, it0) >= 0 && CharLength(s[..it0][it..]) > 0 && cp == CharValue(s[..it0][it..])
  {
    hide CharLength, CharValue, Complaint, IsTrail;
    it, cp := it0, 0;
    if it == 0 {
      return it, cp, Threw(NotEnoughRoomThrown);
    }
    var end := it;
    it := it - 1;
    while IsTrail(s[it])
      invariant it < it0 && LeadBefore(s, it + 1) == LeadBefore(s, it0)
      decreases it
    {
      if it == 0 {
        return it, cp, Threw(InvalidUtf8Thrown(s[it]));
      }
      it := it - 1;
    }
    cp, outcome := PeekNext(s[..end], it);
  }

  /** Prior undoes Next wherever Next succeeds. */
  method NextThenPrior(s: seq<Octet>, it0: nat) returns (there: nat, back: nat, forward: CodePoint, backward: CodePoint, outcome: Outcome)
    requires it0 < |s|
    ensures outcome == Returned <==> CharLength(s[it0..]) > 0
    ensures outcome == Returned ==> there > it0 == back && forward == backward
  {
    back, backward := it0, 0;
    there, forward, outcome := Next(s, it0);
    hide CharLength, CharValue, Complaint, LeadBefore;
    if outcome == Returned {
      BackOverChar(s, it0, there);
      back, backward, outcome := Prior(s, there);
    }
  }

  /** Some UTF8-char of s ends at position it. */
  ghost predicate SomeCharEnds(s: seq<Octet>, it: nat)
    requires it <= |s|
  {
    exists p | 0 <= p < it :: CharEndsAt(s, p, it)
  }

  /** The character that a returning Prior has read is one of the whole text as well, of the length its lead calls for. */
  lemma PriorReads(s: seq<Octet>, it: nat, j: nat)
    requires j < it <= |s| && CharLength(s[..it][j..]) > 0
    ensures CharLength(s[j..]) == CharLength(s[..it][j..]) == SequenceLength(s[j]) <= it - j
    ensures CharValue(s[j..]) == CharValue(s[..it][j..])
  {
    assert s[..it][j..] == s[j..][..it - j];
    PrefixBegins(s[j..], it - j);
    CharLengthIs(s[j..]);
    hide CharLength, CharValue, SequenceLength, IsChar;
    PrefixValue(s[j..], it - j);
  }

  /**
    Prior does not look whether the character it has read reaches to where it came from. When it
    returns, it was right to exactly if the lead calls for as many octets as it has gone back.
   */
  lemma PriorIsRight(s: seq<Octet>, it: nat)
    requires 0 < it <= |s| && LeadBefore(s, it) >= 0 && CharLength(s[..it][LeadBefore(s, it)..]) > 0
    ensures SomeCharEnds(s, it) <==> SequenceLength(s[LeadBefore(s, it)]) == it - LeadBefore(s, it)
  {
    var j := LeadBefore(s, it);
    PriorReads(s, it, j);
    hide CharLength, SequenceLength, LeadBefore;
    forall p | 0 <= p < it && CharEndsAt(s, p, it) ensures p == j { BackOverChar(s, p, it); }
    assert CharEndsAt(s, j, it) <==> SequenceLength(s[j]) == it - j;
  }

  /** It never throws where it should have returned. */
  lemma PriorReturns(s: seq<Octet>, it: nat)
    requires it <= |s| && SomeCharEnds(s, it)
    ensures LeadBefore(s, it) >= 0 && CharLength(s[..it][LeadBefore(s, it)..]) > 0
  {
    var p :| 0 <= p < it && CharEndsAt(s, p, it);
    BackOverChar(s, p, it);
    hide CharLength, LeadBefore;
  }

  /** Next reads again what a returning Prior has read; it leads back to the start exactly if Prior was right. */
  method PriorThenNext(s: seq<Octet>, it0: nat) returns (it: nat, there: nat, backward: CodePoint, forward: CodePoint, outcome: Outcome)
    requires it0 <= |s|
    ensures outcome == Returned <==> LeadBefore(s, it0) >= 0 && CharLength(s[..it0][LeadBefore(s, it0)..]) > 0
    ensures outcome == Returned ==> it == LeadBefore(s, it0) && it < there <= it0 && forward == backward
    ensures outcome == Returned ==> there == it + CharLength(s[it..]) && backward == CharValue(s[it..])
    ensures outcome == Returned ==> (there == it0 <==> SequenceLength(s[it]) == it0 - it)
    ensures SomeCharEnds(s, it0) <==> outcome == Returned && SequenceLength(s[it]) == it0 - it
  {
    it, backward, outcome := Prior(s, it0);
    there, forward := it, backward;
    if SomeCharEnds(s, it0) { PriorReturns(s, it0); }
    if outcome == Returned {
      PriorReads(s, it0, it);
      PriorIsRight(s, it0);
      hide *;
      there, forward, outcome := Next(s, it);
    }
  }

  /** After 'A' and a stray trail octet Prior returns 'A', although no character ends there. */
  method PriorSkipsStrayTrail() returns (it: nat, there: nat, cp: CodePoint, outcome: Outcome)
    ensures outcome == Returned && it == 0 && cp == 0x41 && there == 1
    ensures !SomeCharEnds([0x41, 0x80], 2)
  {
    var s: seq<Octet> := [0x41, 0x80];
    StrayTrail(s);
    PriorReads(s, 2, 0);
    hide CharLength, CharValue, SequenceLength, LeadBefore;
    var forward;
    it, there, cp, forward, outcome := PriorThenNext(s, 2);
  }

  lemma StrayTrail(s: seq<Octet>)
    requires s == [0x41, 0x80]
    ensures LeadBefore(s, 2) == 0 && CharLength(s[..2][0..]) == 1 && CharValue(s[..2][0..]) == 0x41 && SequenceLength(s[0]) == 1
  {
    assert IsTrail(s[1]) && !IsTrail(s[0]);
    LeadBeforeIs(s, 0, 2);
    assert s[..2][0..] == s;
  }
}
