/**
  The Thai cluster automaton of ctcc.h: it puts a space before every cluster of a text. The states are
  the numbers of the source; -1 means that the cluster is complete, 0 that a new one begins.
 */
module Ctcc {
  import opened Utf8Core
  import opened Utf8Text
  import opened Utf8Checked

  //
  // The character classes.
  //

  predicate Con(c: Unit) { 0xe01 <= c <= 0xe2e }

  predicate Fcon(c: Unit) {
    Con(c) && c != 0xe03 && c != 0xe05 && c != 0xe09 && c != 0xe0c && c != 0xe1c && c != 0xe1d && c != 0xe24 && c != 0xe26 && c != 0xe2b && c != 0xe2e
  }

  predicate Ton(c: Unit) { 0xe48 <= c <= 0xe4b }
  predicate Thd(c: Unit) { 0xe50 <= c <= 0xe59 }
  predicate Lad(c: Unit) { 0x30 <= c <= 0x39 }
  predicate Alp(c: Unit) { 0x41 <= c <= 0x5A || 0x61 <= c <= 0x7A }
  predicate Sym(c: Unit) { 0x21 <= c <= 0x2F || 0x3A <= c <= 0x40 || 0x5B <= c <= 0x60 || 0x7B <= c <= 0x7E }
  predicate Spa(c: Unit) { 0x2000 <= c <= 0x200B || c == 0x9 || c == 0x20 || c == 0xA0 || c == 0x202F || c == 0xFEFF }

  //
  // The automaton.
  //

  /** The switch: where state leads with c; 0 when c does not belong to the cluster. */
  function Switch(state: int, c: Unit): int {
    if state == -1 then 0
    else if state == 2121 then if c == 0xe22 then 21211 else 0
    else if state == 311 || state == 2111 || state == 215 || state == 21211 || state == 2122 || state == 21311 ||
            state == 2132 || state == 1121 || state == 111 || state == 411 then
      if c == 0xe30 then -1 else 0
    else if state == 2131 then if c == 0xe2D then 21311 else 0
    else if state == 112 then if c == 0xe27 then 1121 else if Fcon(c) then -1 else 0
    else if state == 211 then if c == 0xe32 then 2111 else if c == 0xe30 then -1 else 0
    else if state == 212 then if Ton(c) then 2121 else if c == 0xe22 then 2122 else 0
    else if state == 213 then if Ton(c) then 2131 else if c == 0xe2D then 2132 else 0
    else if state == 312 || state == 214 then if Fcon(c) then -1 else 0
    else if state == 11 then if c == 0xe27 then 111 else if Fcon(c) then -1 else if Ton(c) then 112 else 0
    else if state == 12 then if c == 0xe30 || c == 0xe32 || c == 0xe33 then -1 else 0
    else if state == 13 || state == 51 then if Ton(c) then -1 else 0
    else if state == 14 then if c == 0xe4C || Ton(c) then -1 else 0
    else if state == 21 then
      if Ton(c) then 211 else if c == 0xe35 then 212 else if c == 0xe37 then 213 else if c == 0xe47 then 214
      else if c == 0xe32 then 215 else if c == 0xe30 then -1 else 0
    else if state == 31 then if Ton(c) then 311 else if c == 0xe30 then -1 else if c == 0xe47 then 312 else 0
    else if state == 41 then if Ton(c) then 411 else if c == 0xe30 then -1 else 0
    else if state == 1 then
      if c == 0xe31 then 11 else if c == 0xe47 then -1 else if Ton(c) then 12
      else if c == 0xe30 || c == 0xe32 || c == 0xe33 then -1
      else if 0xe35 <= c <= 0xe39 then 13 else if c == 0xe34 then 14 else if c == 0xe4C then -1 else 0
    else if state == 2 then if Con(c) then 21 else 0
    else if state == 3 then if Con(c) then 31 else 0
    else if state == 4 then if Con(c) then 41 else 0
    else if state == 5 then if Con(c) then 51 else 0
    else if state == 6 then if !Thd(c) then 0 else 6
    else if state == 7 then if !Lad(c) then 0 else 7
    else if state == 8 then if !Alp(c) then 0 else 8
    else if state == 9 then if !Spa(c) then 0 else 9
    else state
  }

  /** The state in which a cluster begins with c. */
  function Begin(c: Unit): int {
    if Con(c) then 1
    else if c == 0xe40 then 2
    else if c == 0xe41 then 3
    else if c == 0xe42 then 4
    else if c == 0xe43 || c == 0xe44 then 5
    else if Thd(c) then 6
    else if Lad(c) then 7
    else if Alp(c) then 8
    else if Sym(c) then -1
    else if Spa(c) then 9
    else 0
  }

  function After(state: int, c: Unit): int {
    if Switch(state, c) == 0 then Begin(c) else Switch(state, c)
  }

  function StateAfter(s: seq<Unit>): int {
    if s == [] then 0 else After(StateAfter(s[..|s| - 1]), s[|s| - 1])
  }

  const SPACE: Unit := 0x20

  /** What the loop writes. */
  function Spaced(s: seq<Unit>): seq<Unit> {
    if s == [] then []
    else
      var most, c := s[..|s| - 1], s[|s| - 1];
      Spaced(most) + if Switch(StateAfter(most), c) == 0 then [SPACE, c] else [c]
  }

  method Segment(utf16: seq<Unit>) returns (output: seq<Unit>)
    ensures output == Spaced(utf16)
  {
    hide Switch, Begin;
    output := [];
    var state := 0;
    var i := 0;
    while i < |utf16|
      invariant i <= |utf16|
      invariant state == StateAfter(utf16[..i]) && output == Spaced(utf16[..i])
    {
      assert utf16[..i + 1][..i] == utf16[..i];
      var c := utf16[i];
      state := Switch(state, c);
      if state == 0 {
        state := Begin(c);
        output := output + [SPACE];
      }
      output := output + [c];
      i := i + 1;
    }
    assert utf16[..i] == utf16;
  }

  //
  // Clusters.
  //

  function Clusters(s: seq<Unit>): seq<seq<Unit>> {
    if s == [] then []
    else
      var most, c := s[..|s| - 1], s[|s| - 1];
      var ts := Clusters(most);
      if Switch(StateAfter(most), c) == 0 || ts == [] then ts + [[c]] else ts[..|ts| - 1] + [ts[|ts| - 1] + [c]]
  }

  function Join(ts: seq<seq<Unit>>): seq<Unit> {
    if ts == [] then [] else Join(ts[..|ts| - 1]) + ts[|ts| - 1]
  }

  function Render(ts: seq<seq<Unit>>): seq<Unit> {
    if ts == [] then [] else Render(ts[..|ts| - 1]) + ([SPACE] + ts[|ts| - 1])
  }

  /** The states a cluster can be in, with the most characters it has then. */
  function Level(state: int): nat {
    if state == -1 then 6
    else if state in {0, 1, 2, 3, 4, 5} then 1
    else if state in {11, 12, 13, 14, 21, 31, 41, 51} then 2
    else if state in {111, 112, 211, 212, 213, 214, 215, 311, 312, 411} then 3
    else if state in {1121, 2111, 2121, 2122, 2131, 2132} then 4
    else if state in {21211, 21311} then 5
    else 0
  }

  predicate InRun(c: Unit) { Thd(c) || Lad(c) || Alp(c) || Spa(c) }

  /** A cluster in that state: a run of one class, or a few characters of none of these. */
  predicate Shape(t: seq<Unit>, state: int) {
    t != [] &&
    if state == 6 then forall i | 0 <= i < |t| :: Thd(t[i])
    else if state == 7 then forall i | 0 <= i < |t| :: Lad(t[i])
    else if state == 8 then forall i | 0 <= i < |t| :: Alp(t[i])
    else if state == 9 then forall i | 0 <= i < |t| :: Spa(t[i])
    else |t| <= Level(state) && forall i | 0 <= i < |t| :: !InRun(t[i])
  }

  lemma BeginShape(c: Unit)
    ensures Shape([c], Begin(c))
  {
  }

  lemma StepLevel(state: int, c: Unit)
    requires Level(state) > 0 && Switch(state, c) != 0
    ensures state == -1 ==> false
    ensures Level(state) + 1 <= Level(Switch(state, c)) && Switch(state, c) !in {6, 7, 8, 9} && !InRun(c)
  {
  }

  lemma StepShape(t: seq<Unit>, state: int, c: Unit)
    requires Shape(t, state) && Switch(state, c) != 0
    ensures Shape(t + [c], Switch(state, c))
  {
    if state !in {6, 7, 8, 9} {
      StepLevel(state, c);
      hide Switch, Level, InRun;
    } else {
      hide Level, InRun, Thd, Lad, Alp, Spa;
    }
  }

  /** Thai digits, digits, letters and spaces. */
  function Kind(c: Unit): int {
    if Thd(c) then 6 else if Lad(c) then 7 else if Alp(c) then 8 else if Spa(c) then 9 else 0
  }

  lemma KindIs(c: Unit)
    ensures Kind(c) == 6 <==> Thd(c)
    ensures Kind(c) == 7 <==> Lad(c)
    ensures Kind(c) == 8 <==> Alp(c)
    ensures Kind(c) == 9 <==> Spa(c)
    ensures InRun(c) <==> Kind(c) != 0
  {
  }

  /** Cluster t is complete when c comes. */
  ghost predicate EndsBefore(t: seq<Unit>, c: Unit) {
    exists state :: Shape(t, state) && Switch(state, c) == 0
  }

  /** Cluster i is well formed, and ends before the next one. */
  ghost predicate ClusterOk(ts: seq<seq<Unit>>, i: nat)
    requires i < |ts|
  {
    ts[i] != [] && (exists state :: Shape(ts[i], state)) && (i + 1 < |ts| ==> ts[i + 1] != [] && EndsBefore(ts[i], ts[i + 1][0]))
  }

  ghost predicate AllOk(ts: seq<seq<Unit>>) {
    forall i: nat | i < |ts| :: ClusterOk(ts, i)
  }

  lemma JoinSnoc(ts: seq<seq<Unit>>, u: seq<Unit>)
    ensures Join(ts + [u]) == Join(ts) + u && Render(ts + [u]) == Render(ts) + ([SPACE] + u)
  {
    assert (ts + [u])[..|ts|] == ts;
  }

  lemma ClusterIs(ts: seq<seq<Unit>>, i: nat, state: int)
    requires i < |ts| && ts[i] != [] && Shape(ts[i], state)
    requires i + 1 < |ts| ==> ts[i + 1] != [] && Switch(state, ts[i + 1][0]) == 0
    ensures ClusterOk(ts, i)
  {
    hide Shape, Switch;
  }

  lemma ClusterSame(ts: seq<seq<Unit>>, us: seq<seq<Unit>>, i: nat)
    requires AllOk(ts) && i + 1 < |ts| && i + 1 < |us| && us[i] == ts[i] && (ts[i + 1] != [] ==> us[i + 1] != [] && us[i + 1][0] == ts[i + 1][0])
    ensures ClusterOk(us, i)
  {
    assert ClusterOk(ts, i);
    hide Shape, Switch;
  }

  lemma AllAre(ts: seq<seq<Unit>>)
    requires forall i: nat | i < |ts| :: ClusterOk(ts, i)
    ensures AllOk(ts)
  {
  }

  lemma AddCluster(ts: seq<seq<Unit>>, state: int, c: Unit)
    requires AllOk(ts) && (ts != [] ==> ts[|ts| - 1] != [] && Shape(ts[|ts| - 1], state) && Switch(state, c) == 0)
    ensures var us := ts + [[c]];
            AllOk(us) && Join(us) == Join(ts) + [c] && Render(us) == Render(ts) + [SPACE, c]
  {
    hide *;
    BeginShape(c);
    JoinSnoc(ts, [c]);
    assert [SPACE] + [c] == [SPACE, c];
    var us, n := ts + [[c]], |ts|;
    forall i: nat | i < n + 1 ensures ClusterOk(us, i) {
      if i == n { ClusterIs(us, n, Begin(c)); }
      else if i == n - 1 { ClusterIs(us, i, state); }
      else { ClusterSame(ts, us, i); }
    }
    AllAre(us);
  }

  lemma ExtendCluster(ts: seq<seq<Unit>>, state: int, c: Unit)
    requires AllOk(ts) && ts != [] && ts[|ts| - 1] != [] && Shape(ts[|ts| - 1], state) && Switch(state, c) != 0
    ensures var n := |ts| - 1;
            var us := ts[..n] + [ts[n] + [c]];
            AllOk(us) && Join(us) == Join(ts) + [c] && Render(us) == Render(ts) + [c] &&
            us[n] != [] && Shape(us[n], Switch(state, c))
  {
    hide *;
    var n := |ts| - 1;
    var us := ts[..n] + [ts[n] + [c]];
    StepShape(ts[n], state, c);
    assert ts[..n] + [ts[n]] == ts;
    JoinSnoc(ts[..n], ts[n]);
    JoinSnoc(ts[..n], ts[n] + [c]);
    forall i: nat | i < |us| ensures ClusterOk(us, i) {
      if i == n { ClusterIs(us, n, Switch(state, c)); } else { ClusterSame(ts, us, i); }
    }
    AllAre(us);
    assert Join(ts[..n]) + (ts[n] + [c]) == (Join(ts[..n]) + ts[n]) + [c];
    assert Render(ts[..n]) + ([SPACE] + (ts[n] + [c])) == (Render(ts[..n]) + ([SPACE] + ts[n])) + [c];
  }

  /** The clusters put together are the text, and with a space before each they are what is written. */
  lemma {:induction false} Segmented(s: seq<Unit>)
    ensures var ts := Clusters(s);
            Join(ts) == s && Render(ts) == Spaced(s) && AllOk(ts) &&
            (s == [] <==> ts == []) && (s != [] ==> ts[|ts| - 1] != [] && Shape(ts[|ts| - 1], StateAfter(s)))
    decreases |s|
  {
    hide *;
    if s == [] {
      NoClusters();
    } else {
      var most, c := s[..|s| - 1], s[|s| - 1];
      Segmented(most);
      assert most + [c] == s;
      LastStep(s);
      var ts, state := Clusters(most), StateAfter(most);
      BeginShape(c);
      if Switch(state, c) == 0 { AddCluster(ts, state, c); } else { ExtendCluster(ts, state, c); }
    }
  }

  lemma NoClusters()
    ensures Clusters([]) == [] && Join([]) == [] && Render([]) == [] && Spaced([]) == [] && AllOk([])
  {
  }

  lemma LastStep(s: seq<Unit>)
    requires s != [] && (s[..|s| - 1] != [] ==> Clusters(s[..|s| - 1]) != [])
    ensures var most, c := s[..|s| - 1], s[|s| - 1];
            var ts, next := Clusters(most), Switch(StateAfter(most), c);
            (Spaced(s) == Spaced(most) + if next == 0 then [SPACE, c] else [c]) &&
            StateAfter(s) == (if next == 0 then Begin(c) else next) &&
            (next != 0 ==> most != []) &&
            Clusters(s) == if next == 0 then ts + [[c]] else ts[..|ts| - 1] + [ts[|ts| - 1] + [c]]
  {
    var most, c := s[..|s| - 1], s[|s| - 1];
    if most == [] { assert StateAfter(most) == 0 && Switch(0, c) == 0; }
    hide Switch, Begin;
  }

  lemma ShapeKind(t: seq<Unit>, state: int)
    requires Shape(t, state)
    ensures Kind(t[0]) == 0 ==> |t| <= 6
    ensures Kind(t[0]) != 0 ==> state == Kind(t[0])
    ensures forall i | 0 <= i < |t| :: Kind(t[i]) == Kind(t[0])
  {
    forall i | 0 <= i < |t| ensures Kind(t[i]) == if state in {6, 7, 8, 9} then state else 0 { KindIs(t[i]); }
    assert Level(state) <= 6;
    hide Kind, InRun, Thd, Lad, Alp, Spa, Level;
  }

  lemma RunGoesOn(k: int, c: Unit)
    requires k in {6, 7, 8, 9}
    ensures Switch(k, c) == 0 <==> Kind(c) != k
  {
    KindIs(c);
    hide Kind, InRun, Thd, Lad, Alp, Spa;
  }

  /** A cluster that begins with no digit, letter or space has at most six characters, none of these kinds. */
  lemma ClustersAreShort(s: seq<Unit>, i: nat)
    requires i < |Clusters(s)|
    ensures var t := Clusters(s)[i];
            t != [] && (Kind(t[0]) == 0 ==> |t| <= 6 && forall j | 0 <= j < |t| :: Kind(t[j]) == 0)
  {
    Segmented(s);
    assert AllOk(Clusters(s)) && ClusterOk(Clusters(s), i);
    var state :| Shape(Clusters(s)[i], state);
    ShapeKind(Clusters(s)[i], state);
    hide Shape, Kind;
  }

  /** Digits, letters and spaces come in runs of one kind that are as long as can be. */
  lemma RunsAreMaximal(s: seq<Unit>, i: nat)
    requires i < |Clusters(s)|
    ensures var t := Clusters(s)[i];
            t != [] && (Kind(t[0]) != 0 ==> forall j | 0 <= j < |t| :: Kind(t[j]) == Kind(t[0]))
    ensures i + 1 < |Clusters(s)| ==>
              var t, u := Clusters(s)[i], Clusters(s)[i + 1];
              t != [] && u != [] && (Kind(t[|t| - 1]) != 0 ==> Kind(u[0]) != Kind(t[|t| - 1]))
  {
    Segmented(s);
    var ts := Clusters(s);
    assert AllOk(ts) && ClusterOk(ts, i);
    var t := ts[i];
    var any :| Shape(t, any);
    ShapeKind(t, any);
    if i + 1 < |ts| {
      var state :| Shape(t, state) && Switch(state, ts[i + 1][0]) == 0;
      ShapeKind(t, state);
      KindRange(t[0]);
      hide Shape, Kind, Switch;
      if Kind(t[0]) != 0 { RunGoesOn(Kind(t[0]), ts[i + 1][0]); }
    }
  }

  lemma KindRange(c: Unit)
    ensures Kind(c) in {0, 6, 7, 8, 9}
  {
  }

  //
  // The whole of tok.
  //

  method Tok(input: seq<Octet>) returns (utf8: seq<Octet>, outcome: Outcome)
    ensures outcome == if Reads(input) == Returned then Reads16(Spaced(EncodeAll16(DecodeAll(input)))) else Reads(input)
    ensures Reads(input) == Returned ==> utf8 == EncodeAll(DecodeAll16(Spaced(EncodeAll16(DecodeAll(input)))))
    ensures Reads(input) != Returned ==> utf8 == []
  {
    hide *;
    utf8 := [];
    var utf16;
    utf16, outcome := Utf8To16(input, []);
    assert [] + EncodeAll16(DecodeAll(input)) == EncodeAll16(DecodeAll(input));
    if outcome != Returned {
      return;
    }
    var output := Segment(utf16);
    utf8, outcome := Utf16To8(output, []);
    assert [] + EncodeAll(DecodeAll16(output)) == EncodeAll(DecodeAll16(output));
  }

  /** No unit is half of a surrogate pair. */
  predicate Plain(t: seq<Unit>) {
    forall i | 0 <= i < |t| :: !LeadUnit(t[i]) && !TrailUnit(t[i])
  }

  predicate Bmp(cps: seq<CodePoint>) {
    forall i | 0 <= i < |cps| :: cps[i] <= 0xffff
  }

  /** The states that are reached. */
  predicate Known(state: int) {
    Level(state) > 0 || state in {6, 7, 8, 9}
  }

  lemma SurrogateBegins(state: int, c: Unit)
    requires LeadUnit(c) && Known(state)
    ensures Switch(state, c) == 0 && Begin(c) == 0
  {
  }

  lemma ShapeKnown(t: seq<Unit>, state: int)
    requires Shape(t, state)
    ensures Known(state)
  {
  }

  lemma StateKnown(s: seq<Unit>)
    ensures Known(StateAfter(s))
  {
    hide *;
    Segmented(s);
    if s == [] {
      StartKnown();
    } else {
      ShapeKnown(Clusters(s)[|Clusters(s)| - 1], StateAfter(s));
    }
  }

  lemma StartKnown()
    ensures Known(StateAfter([]))
  {
  }

  /** A high surrogate that is written is followed by a space, or by nothing and then a space is to come. */
  ghost predicate Cut(s: seq<Unit>, j: nat)
    requires j < |Spaced(s)|
  {
    LeadUnit(Spaced(s)[j]) && if j + 1 < |Spaced(s)| then Spaced(s)[j + 1] == SPACE else StateAfter(s) == 0
  }

  ghost predicate HasCut(s: seq<Unit>) {
    exists j: nat :: j < |Spaced(s)| && Cut(s, j)
  }

  lemma {:induction false} LeadIsCut(s: seq<Unit>, i: nat)
    requires i < |s| && LeadUnit(s[i])
    ensures HasCut(s)
    decreases |s|
  {
    hide *;
    var most := s[..|s| - 1];
    if i == |s| - 1 {
      CutAtEnd(s);
    } else {
      LeadIsCut(most, i);
      CutStays(s);
    }
  }

  /** The last step, without the clusters. */
  lemma WriteStep(s: seq<Unit>)
    requires s != []
    ensures var most, c := s[..|s| - 1], s[|s| - 1];
            var next := Switch(StateAfter(most), c);
            (Spaced(s) == Spaced(most) + if next == 0 then [SPACE, c] else [c]) && StateAfter(s) == (if next == 0 then Begin(c) else next)
  {
    hide Switch, Begin;
  }

  lemma CutAtEnd(s: seq<Unit>)
    requires s != [] && LeadUnit(s[|s| - 1])
    ensures HasCut(s)
  {
    hide *;
    var most, c := s[..|s| - 1], s[|s| - 1];
    StateKnown(most);
    SurrogateBegins(StateAfter(most), c);
    WriteStep(s);
    IsCut(s, |Spaced(s)| - 1);
  }

  lemma IsCut(s: seq<Unit>, j: nat)
    requires j < |Spaced(s)| && LeadUnit(Spaced(s)[j])
    requires if j + 1 < |Spaced(s)| then Spaced(s)[j + 1] == SPACE else StateAfter(s) == 0
    ensures HasCut(s)
  {
    assert Cut(s, j);
  }

  lemma CutStays(s: seq<Unit>)
    requires s != [] && HasCut(s[..|s| - 1])
    ensures HasCut(s)
  {
    hide *;
    var most, c := s[..|s| - 1], s[|s| - 1];
    var j := CutOf(most);
    WriteStep(s);
    FromStart(c);
    assert Spaced(s)[j] == Spaced(most)[j];
    assert j + 1 < |Spaced(most)| ==> Spaced(s)[j + 1] == Spaced(most)[j + 1];
    IsCut(s, j);
  }

  lemma CutOf(s: seq<Unit>) returns (j: nat)
    requires HasCut(s)
    ensures j < |Spaced(s)| && LeadUnit(Spaced(s)[j])
    ensures if j + 1 < |Spaced(s)| then Spaced(s)[j + 1] == SPACE else StateAfter(s) == 0
  {
    j :| j < |Spaced(s)| && Cut(s, j);
    hide Spaced, LeadUnit, StateAfter;
  }

  lemma FromStart(c: Unit)
    ensures Switch(0, c) == 0
  {
  }

  lemma {:induction false} SpacedPlain(s: seq<Unit>)
    requires Plain(s)
    ensures Plain(Spaced(s))
    decreases |s|
  {
    if s != [] {
      SpacedPlain(s[..|s| - 1]);
      assert !LeadUnit(SPACE) && !TrailUnit(SPACE);
      hide LeadUnit, TrailUnit, Switch, StateAfter;
    }
  }

  lemma {:induction false} PlainIffBmp(cps: seq<CodePoint>)
    requires Scalars(cps)
    ensures Plain(EncodeAll16(cps)) <==> Bmp(cps)
    ensures !Bmp(cps) ==> exists i :: 0 <= i < |EncodeAll16(cps)| && LeadUnit(EncodeAll16(cps)[i])
  {
    if cps != [] {
      var cp, rest := cps[0], EncodeAll16(cps[1..]);
      PlainIffBmp(cps[1..]);
      if cp <= 0xffff { SingleCodePoint(cp); } else { SurrogatesOfRfc2781(cp); }
      hide LeadUnit, TrailUnit, Lead16, Trail16, Low16, Mask16, Join16, IsCodePointValid;
      var t := EncodeAll16(cps);
      assert t == Encode16(cp) + rest;
      if cp > 0xffff {
        assert LeadUnit(t[0]);
      } else {
        assert forall i | 0 <= i < |rest| :: t[i + 1] == rest[i];
        assert forall i | 0 < i < |t| :: t[i] == rest[i - 1];
      }
    }
  }

  /** On valid input, tok throws exactly when some character is outside the basic plane: its surrogates are put apart. */
  lemma TokThrowsIff(input: seq<Octet>)
    requires ValidUtf8(input)
    ensures Reads(input) == Returned
    ensures Reads16(Spaced(EncodeAll16(DecodeAll(input)))) == Returned <==> Bmp(DecodeAll(input))
  {
    ValidIsInvalidNowhere(input);
    EncodeDecode(input);
    var cps := DecodeAll(input);
    var t := EncodeAll16(cps);
    PlainIffBmp(cps);
    ValidIsInvalidNowhere16(Spaced(t));
    ValidIffPaired(Spaced(t));
    assert Reads16(Spaced(t)) == Returned <==> ValidUtf16(Spaced(t));
    hide ValidUtf8, ValidUtf16, InvalidAt, InvalidAt16, DecodeAll, EncodeAll16, Spaced, StateAfter, Reads16, Complaint, LeadUnit, TrailUnit;
    if Bmp(cps) {
      SpacedPlain(t);
      assert forall i | 0 <= i < |Spaced(t)| :: !Unpaired(Spaced(t), i);
    } else {
      var i :| 0 <= i < |t| && LeadUnit(t[i]);
      LeadIsCut(t, i);
      var j: nat :| j < |Spaced(t)| && Cut(t, j);
      SpaceIsNoTrail();
      assert Unpaired(Spaced(t), j);
    }
  }

  lemma SpaceIsNoTrail()
    ensures !TrailUnit(SPACE)
  {
  }

  ghost predicate SegmentationOf(ts: seq<seq<Unit>>, text: seq<Unit>, written: seq<Unit>) {
    Join(ts) == text && Render(ts) == written
  }

  /** The octets of U+1F600: its surrogates are put apart, and the text they make is refused. */
  lemma SupplementaryThrows()
    ensures var smile: seq<Octet> := [0xF0, 0x9F, 0x98, 0x80];
            ValidUtf8(smile) && Reads(smile) == Returned && Reads16(Spaced(EncodeAll16(DecodeAll(smile)))) != Returned
  {
    var cps: seq<CodePoint> := [0x1F600];
    assert Encode(0x1F600) == [0xF0, 0x9F, 0x98, 0x80];
    assert EncodeAll(cps[1..]) == [];
    var smile := EncodeAll(cps);
    assert smile == [0xF0, 0x9F, 0x98, 0x80];
    DecodeEncode(cps);
    TokThrowsIff(smile);
    hide ValidUtf8, DecodeAll, EncodeAll, Spaced, Reads, Reads16, EncodeAll16;
    assert DecodeAll(smile)[0] == 0x1F600;
  }

  /**
    For any octets, tok returns exactly if they are valid and every character is in the basic plane. Nothing
    is lost then: what it returns is the text in clusters, a space before each.
   */
  method TokReturnsIff(input: seq<Octet>) returns (utf8: seq<Octet>, outcome: Outcome, ghost ts: seq<seq<Unit>>)
    ensures outcome == Returned <==> ValidUtf8(input) && Bmp(DecodeAll(input))
    ensures outcome == Returned ==> ValidUtf8(utf8)
    ensures ts == Clusters(EncodeAll16(DecodeAll(input)))
    ensures outcome == Returned ==> SegmentationOf(ts, EncodeAll16(DecodeAll(input)), EncodeAll16(DecodeAll(utf8)))
  {
    hide *;
    ReadsIff(input);
    utf8, outcome := Tok(input);
    var t := EncodeAll16(DecodeAll(input));
    ts := Clusters(t);
    if Reads(input) == Returned {
      TokThrowsIff(input);
    }
    if outcome == Returned {
      Segmented(t);
      ReturnedIsValid(Spaced(t));
      Utf16ThroughUtf8(Spaced(t));
      IsSegmentation(ts, t, Spaced(t));
    }
  }

  lemma ReadsIff(input: seq<Octet>)
    ensures Reads(input) == Returned <==> ValidUtf8(input)
  {
    ValidIsInvalidNowhere(input);
  }

  lemma ReturnedIsValid(t: seq<Unit>)
    requires Reads16(t) == Returned
    ensures ValidUtf16(t)
  {
    ValidIsInvalidNowhere16(t);
  }

  lemma IsSegmentation(ts: seq<seq<Unit>>, text: seq<Unit>, written: seq<Unit>)
    requires Join(ts) == text && Render(ts) == written
    ensures SegmentationOf(ts, text, written)
  {
  }
}
