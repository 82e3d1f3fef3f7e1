/** replace_invalid of checked.h. */
module Utf8Repair {
  import opened Utf8Core
  import opened Utf8Text
  import opened Utf8Checked

  /** How many trail octets s begins with. */
  function TrailRun(s: seq<Octet>): (n: nat)
    ensures n <= |s|
    ensures forall i | 0 <= i < n :: IsTrail(s[i])
    ensures n < |s| ==> !IsTrail(s[n])
  {
    if s == [] || !IsTrail(s[0]) then 0 else 1 + TrailRun(s[1..])
  }

  /** How far one replacement mark reaches. */
  function Skip(s: seq<Octet>): (n: nat)
    requires s != []
    ensures 1 <= n <= |s|
    ensures forall i | 1 <= i < n :: IsTrail(s[i])
  {
    if SequenceLength(s[0]) == 0 then 1 else 1 + TrailRun(s[1..])
  }

  /** What is written for s when `mark` is the replacement. */
  function Repair(s: seq<Octet>, mark: seq<Octet>): seq<Octet>
    decreases |s|
  {
    if s == [] then []
    else if CharLength(s) > 0 then s[..CharLength(s)] + Repair(s[CharLength(s)..], mark)
    else if Truncated(s) then []
    else mark + Repair(s[Skip(s)..], mark)
  }

  /** A truncated character is come upon. */
  predicate Stuck(s: seq<Octet>)
    decreases |s|
  {
    if s == [] then false
    else if CharLength(s) > 0 then Stuck(s[CharLength(s)..])
    else Truncated(s) || Stuck(s[Skip(s)..])
  }

  lemma RepairStep(s: seq<Octet>, mark: seq<Octet>, start: nat)
    requires start < |s|
    ensures var n := CharLength(s[start..]);
            if n > 0 then Repair(s[start..], mark) == s[start..start + n] + Repair(s[start + n..], mark) && (Stuck(s[start..]) <==> Stuck(s[start + n..]))
            else if Truncated(s[start..]) then Repair(s[start..], mark) == [] && Stuck(s[start..])
            else Repair(s[start..], mark) == mark + Repair(s[start + Skip(s[start..])..], mark) && (Stuck(s[start..]) <==> Stuck(s[start + Skip(s[start..])..]))
  {
    hide CharLength, Truncated, Skip;
    assert forall n | 0 <= n <= |s| - start :: s[start..][..n] == s[start..start + n];
  }

  lemma SkipIs(s: seq<Octet>, start: nat)
    requires start < |s|
    ensures Skip(s[start..]) == if Verdict(s, start) == InvalidLead then 1 else 1 + TrailRun(s[start + 1..])
  {
    hide TrailRun, Reading, IsCodePointValid, IsOverlong, RawValue;
    assert s[start..][1..] == s[start + 1..];
  }

  /** One turn of the loop of replace_invalid. */
  method RepairNext(s: seq<Octet>, start0: nat, out0: seq<Octet>, replacement: CodePoint)
    returns (start: nat, out: seq<Octet>, outcome: Outcome)
    requires start0 < |s|
    ensures start <= |s|
    ensures var n := CharLength(s[start0..]);
            if n > 0 then
              outcome == Returned && start == start0 + n && out == out0 + s[start0..start]
            else if Truncated(s[start0..]) then
              outcome == Threw(NotEnoughRoomThrown) && out == out0
            else if IsCodePointValid(replacement) then
              outcome == Returned && start == start0 + Skip(s[start0..]) && out == out0 + Encode(replacement)
            else
              outcome == Threw(InvalidCodePointThrown(replacement)) && out == out0
  {
    hide CharLength, Truncated, Verdict, Encode, IsCodePointValid, IsTrail, Skip, TrailRun;
    SkipIs(s, start0);
    out, outcome := out0, Returned;
    var err, ignored;
    start, err, ignored := ValidateNext(s, start0, 0);
    match err
    case Ok =>
      out := CopyRange(s, start0, start, out);
    case NotEnoughRoom =>
      outcome := Threw(NotEnoughRoomThrown);
    case InvalidLead =>
      out, outcome := Append(replacement, out);
      if outcome != Returned {
        return;
      }
      start := start + 1;
    case _ =>
      out, outcome := Append(replacement, out);
      if outcome != Returned {
        return;
      }
      start := SkipTrails(s, start + 1);
  }

  method ReplaceInvalid(s: seq<Octet>, out0: seq<Octet>, replacement: CodePoint) returns (out: seq<Octet>, outcome: Outcome)
    ensures IsCodePointValid(replacement) ==>
              out == out0 + Repair(s, Encode(replacement)) && outcome == if Stuck(s) then Threw(NotEnoughRoomThrown) else Returned
    ensures !IsCodePointValid(replacement) ==>
              out == out0 + s[..InvalidAt(s)] &&
              outcome == if InvalidAt(s) == |s| then Returned
                         else if Truncated(s[InvalidAt(s)..]) then Threw(NotEnoughRoomThrown)
                         else Threw(InvalidCodePointThrown(replacement))
  {
    hide CharLength, CharValue, Truncated, Encode, IsCodePointValid, Skip, Repair, Stuck, InvalidAt, DecodeAll;
    ghost var mark := Encode(replacement);
    out := out0;
    var start := 0;
    while start != |s|
      invariant start <= |s|
      invariant IsCodePointValid(replacement) ==> out0 + Repair(s, mark) == out + Repair(s[start..], mark) && (Stuck(s) <==> Stuck(s[start..]))
      invariant !IsCodePointValid(replacement) ==> start + InvalidAt(s[start..]) == InvalidAt(s) && out == out0 + s[..start]
      decreases |s| - start
    {
      RepairStep(s, mark, start);
      ReadStep(s, start);
      ghost var before := out;
      start, out, outcome := RepairNext(s, start, out, replacement);
      if outcome != Returned {
        return;
      }
      ghost var written := out[|before|..];
      assert out == before + written;
      assert before + (written + Repair(s[start..], mark)) == out + Repair(s[start..], mark);
    }
    EmptyRepair(mark);
    ReadStep(s, |s|);
    assert s[..|s|] == s;
    outcome := Returned;
  }

  lemma EmptyRepair(mark: seq<Octet>)
    ensures Repair([], mark) == [] && !Stuck([])
  {
  }

  /** The loop that copies an accepted character. */
  method CopyRange(s: seq<Octet>, first: nat, last: nat, out0: seq<Octet>) returns (out: seq<Octet>)
    requires first <= last <= |s|
    ensures out == out0 + s[first..last]
  {
    out := out0;
    var it := first;
    assert s[first..first] == [];
    while it != last
      invariant first <= it <= last && out == out0 + s[first..it]
      decreases last - it
    {
      out := out + [s[it]];
      it := it + 1;
    }
  }

  /** The loop that passes over the trail octets after a rejected one. */
  method SkipTrails(s: seq<Octet>, start0: nat) returns (start: nat)
    requires start0 <= |s|
    ensures start == start0 + TrailRun(s[start0..])
  {
    hide IsTrail;
    start := start0;
    while start != |s| && IsTrail(s[start])
      invariant start0 <= start <= |s| && start + TrailRun(s[start..]) == start0 + TrailRun(s[start0..])
      decreases |s| - start
    {
      assert s[start..][1..] == s[start + 1..];
      start := start + 1;
    }
  }

  //
  // What the repair is worth.
  //

  lemma {:induction false} ValidConcat(a: seq<Octet>, b: seq<Octet>)
    requires ValidUtf8(a) && ValidUtf8(b)
    ensures ValidUtf8(a + b)
    decreases |a|
  {
    hide CharLength;
    if a == [] {
      assert a + b == b;
    } else {
      var n := CharLength(a);
      assert (a + b)[..|a|] == a;
      PrefixBegins(a + b, |a|);
      ValidConcat(a[n..], b);
      assert (a + b)[n..] == a[n..] + b;
    }
  }

  lemma CharIsValid(s: seq<Octet>)
    requires CharLength(s) > 0
    ensures ValidUtf8(s[..CharLength(s)])
  {
    PrefixBegins(s, CharLength(s));
    hide CharLength;
    assert s[..CharLength(s)][CharLength(s)..] == [];
  }

  /** Whatever s is, what is written is valid UTF-8. */
  lemma {:induction false} RepairIsValid(s: seq<Octet>, mark: seq<Octet>)
    requires ValidUtf8(mark)
    ensures ValidUtf8(Repair(s, mark))
    decreases |s|
  {
    hide CharLength, Truncated, Skip, ValidUtf8;
    if s == [] || (CharLength(s) == 0 && Truncated(s)) {
      assert ValidUtf8([]) by { NothingInvalid(); }
    } else if CharLength(s) > 0 {
      CharIsValid(s);
      RepairIsValid(s[CharLength(s)..], mark);
      ValidConcat(s[..CharLength(s)], Repair(s[CharLength(s)..], mark));
    } else {
      RepairIsValid(s[Skip(s)..], mark);
      ValidConcat(mark, Repair(s[Skip(s)..], mark));
    }
  }

  lemma NothingInvalid()
    ensures ValidUtf8([])
  {
  }

  /** A valid text is left as it is. */
  lemma {:induction false} RepairKeepsValid(s: seq<Octet>, mark: seq<Octet>)
    requires ValidUtf8(s)
    ensures Repair(s, mark) == s && !Stuck(s)
    decreases |s|
  {
    hide CharLength, Truncated, Skip;
    if s != [] { RepairKeepsValid(s[CharLength(s)..], mark); }
  }

  /** Repairing twice is repairing once. */
  lemma RepairTwice(s: seq<Octet>, mark: seq<Octet>)
    requires ValidUtf8(mark)
    ensures Repair(Repair(s, mark), mark) == Repair(s, mark) && !Stuck(Repair(s, mark))
  {
    RepairIsValid(s, mark);
    RepairKeepsValid(Repair(s, mark), mark);
  }

  /** No sequence begins with that octet, so that a mark stands for it alone. */
  predicate Alone(o: Octet) {
    0x80 <= o < 0xc0 || o >= 0xf8
  }

  lemma {:induction false} RunOf(t: seq<Octet>, rest: seq<Octet>)
    requires (forall i | 0 <= i < |t| :: 0x80 <= t[i] < 0xc0) && (rest != [] ==> !(0x80 <= rest[0] < 0xc0))
    ensures TrailRun(t + rest) == |t|
  {
    if t == [] {
      assert t + rest == rest;
      if rest != [] { TrailRange(rest[0]); }
    } else {
      TrailRange(t[0]);
      RunOf(t[1..], rest);
      hide IsTrail;
      assert (t + rest)[1..] == t[1..] + rest;
    }
  }

  lemma TrailRange(o: Octet)
    ensures IsTrail(o) <==> 0x80 <= o < 0xc0
  {
  }

  lemma AloneIs(o: Octet)
    ensures Alone(o) <==> SequenceLength(o) == 0
  {
  }

  lemma BadIs(bad: seq<Octet>, rest: seq<Octet>)
    requires bad != [] && (forall i | 1 <= i < |bad| :: 0x80 <= bad[i] < 0xc0)
    requires if Alone(bad[0]) then |bad| == 1 else rest != [] ==> !(0x80 <= rest[0] < 0xc0)
    ensures Skip(bad + rest) == |bad|
  {
    AloneIs(bad[0]);
    hide Alone, SequenceLength, TrailRun;
    if !(SequenceLength(bad[0]) == 0) { RunOf(bad[1..], rest); }
    assert (bad + rest)[1..] == bad[1..] + rest;
  }

  lemma {:induction false} RepairAfter(valid: seq<Octet>, rest: seq<Octet>, mark: seq<Octet>)
    requires ValidUtf8(valid)
    ensures Repair(valid + rest, mark) == valid + Repair(rest, mark) && (Stuck(valid + rest) <==> Stuck(rest))
    decreases |valid|
  {
    hide CharLength, Skip, Truncated;
    if valid == [] {
      assert valid + rest == rest;
    } else {
      var n := CharLength(valid);
      assert (valid + rest)[..|valid|] == valid;
      PrefixBegins(valid + rest, |valid|);
      RepairAfter(valid[n..], rest, mark);
      assert (valid + rest)[n..] == valid[n..] + rest && (valid + rest)[..n] == valid[..n];
      assert valid[..n] + (valid[n..] + Repair(rest, mark)) == valid + Repair(rest, mark);
    }
  }

  /**
    Valid text is kept; then exactly one mark stands for an octet that begins no sequence, or for one that
    does and all trail octets after it, unless they are a character or the text ends inside one.
   */
  lemma OneMarkEach(valid: seq<Octet>, bad: seq<Octet>, rest: seq<Octet>, mark: seq<Octet>)
    requires ValidUtf8(valid) && bad != [] && forall i | 1 <= i < |bad| :: 0x80 <= bad[i] < 0xc0
    requires if Alone(bad[0]) then |bad| == 1 else rest != [] ==> !(0x80 <= rest[0] < 0xc0)
    requires CharLength(bad + rest) == 0 && !Truncated(bad + rest)
    ensures Repair(valid + (bad + rest), mark) == valid + (mark + Repair(rest, mark))
    ensures Stuck(valid + (bad + rest)) <==> Stuck(rest)
  {
    BadIs(bad, rest);
    assert (bad + rest)[|bad|..] == rest;
    RepairAfter(valid, bad + rest, mark);
    hide CharLength, Skip, Truncated, ValidUtf8, Alone;
  }

  /** Where the text ends inside a character, the valid text before it is all that is written. */
  lemma StuckAfter(valid: seq<Octet>, open: seq<Octet>, mark: seq<Octet>)
    requires ValidUtf8(valid) && open != [] && Truncated(open)
    ensures Repair(valid + open, mark) == valid && Stuck(valid + open)
  {
    RepairAfter(valid, open, mark);
    if CharLength(open) > 0 { CharNotTruncated(open); }
    hide CharLength, Truncated, ValidUtf8;
    assert valid + [] == valid;
  }

  /** The replacement, if it is a scalar value, makes a valid mark. */
  lemma MarkIsValid(replacement: CodePoint)
    requires IsCodePointValid(replacement)
    ensures ValidUtf8(Encode(replacement))
  {
    CharEncodes(replacement, []);
    hide Encode, CharLength, IsCodePointValid, CharValue;
    assert Encode(replacement) + [] == Encode(replacement);
    assert Encode(replacement)[|Encode(replacement)|..] == [];
  }

  /** The repair gives up exactly when the text ends inside a character. */
  lemma {:induction false} StuckIffTruncated(s: seq<Octet>)
    ensures Stuck(s) <==> exists j | 0 <= j < |s| :: Truncated(s[j..])
    decreases |s|
  {
    hide CharLength, Skip, Truncated;
    if s != [] {
      var n := if CharLength(s) > 0 then CharLength(s) else Skip(s);
      if CharLength(s) > 0 { CharNotTruncated(s); }
      StuckIffTruncated(s[n..]);
      forall j | 0 < j < n ensures !Truncated(s[j..]) {
        if CharLength(s) > 0 { CharShape(s); }
        TrailNotTruncated(s[j..]);
      }
      assert s[0..] == s;
      forall j | 0 <= j < |s[n..]| ensures s[n..][j..] == s[n + j..] { }
      forall j | n <= j < |s| ensures s[j..] == s[n..][j - n..] { }
    }
  }

  lemma TrailNotTruncated(s: seq<Octet>)
    requires s != [] && IsTrail(s[0])
    ensures !Truncated(s)
  {
    LeadIsNoTrail(s[0]);
    hide IsTrail, SequenceLength;
  }

  lemma CharNotTruncated(s: seq<Octet>)
    requires CharLength(s) > 0
    ensures !Truncated(s)
  {
    CharLengthIs(s);
    hide IsTrail, SequenceLength, CharLength;
  }
}
