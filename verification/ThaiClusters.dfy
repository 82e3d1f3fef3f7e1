/**
  Which units make one Thai cluster, said by patterns of character classes and without the automaton:
  the clusters of a text are the one division of it in which every cluster goes on as long as it can.
 */
module ThaiClusters {
  import opened Utf8Core
  import opened Ctcc

  //
  // The patterns.
  //

  datatype Class = Only(u: Unit) | Consonant | Final | Tone | Vowel | Below | CutOrTone | Leading

  predicate In(c: Unit, k: Class) {
    match k
    case Only(u) => c == u
    case Consonant => Con(c)
    case Final => Fcon(c)
    case Tone => Ton(c)
    case Vowel => c == 0xe30 || c == 0xe32 || c == 0xe33
    case Below => 0xe35 <= c <= 0xe39
    case CutOrTone => c == 0xe4C || Ton(c)
    case Leading => c == 0xe43 || c == 0xe44
  }

  const PATTERNS: nat := 25

  function Pattern(k: nat): seq<Class> {
    if k == 0 then [Consonant, Only(0xe31), Only(0xe27), Only(0xe30)]
    else if k == 1 then [Consonant, Only(0xe31), Final]
    else if k == 2 then [Consonant, Only(0xe31), Tone, Only(0xe27), Only(0xe30)]
    else if k == 3 then [Consonant, Only(0xe31), Tone, Final]
    else if k == 4 then [Consonant, Only(0xe47)]
    else if k == 5 then [Consonant, Tone, Vowel]
    else if k == 6 then [Consonant, Vowel]
    else if k == 7 then [Consonant, Below, Tone]
    else if k == 8 then [Consonant, Only(0xe34), CutOrTone]
    else if k == 9 then [Consonant, Only(0xe4C)]
    else if k == 10 then [Only(0xe40), Consonant, Tone, Only(0xe32), Only(0xe30)]
    else if k == 11 then [Only(0xe40), Consonant, Tone, Only(0xe30)]
    else if k == 12 then [Only(0xe40), Consonant, Only(0xe35), Tone, Only(0xe22), Only(0xe30)]
    else if k == 13 then [Only(0xe40), Consonant, Only(0xe35), Only(0xe22), Only(0xe30)]
    else if k == 14 then [Only(0xe40), Consonant, Only(0xe37), Tone, Only(0xe2D), Only(0xe30)]
    else if k == 15 then [Only(0xe40), Consonant, Only(0xe37), Only(0xe2D), Only(0xe30)]
    else if k == 16 then [Only(0xe40), Consonant, Only(0xe47), Final]
    else if k == 17 then [Only(0xe40), Consonant, Only(0xe32), Only(0xe30)]
    else if k == 18 then [Only(0xe40), Consonant, Only(0xe30)]
    else if k == 19 then [Only(0xe41), Consonant, Tone, Only(0xe30)]
    else if k == 20 then [Only(0xe41), Consonant, Only(0xe30)]
    else if k == 21 then [Only(0xe41), Consonant, Only(0xe47), Final]
    else if k == 22 then [Only(0xe42), Consonant, Tone, Only(0xe30)]
    else if k == 23 then [Only(0xe42), Consonant, Only(0xe30)]
    else [Leading, Consonant, Tone]
  }

  /** t begins pattern k. */
  predicate Fits(t: seq<Unit>, k: nat) {
    |t| <= |Pattern(k)| && forall i | 0 <= i < |t| :: In(t[i], Pattern(k)[i])
  }

  /** Thai digits, digits, letters or spaces alone. */
  predicate IsRun(t: seq<Unit>) {
    t != [] && Kind(t[0]) != 0 && forall i | 0 <= i < |t| :: Kind(t[i]) == Kind(t[0])
  }

  /** These units belong together. */
  ghost predicate Together(t: seq<Unit>) {
    IsRun(t) || exists k :: 0 <= k < PATTERNS && Fits(t, k)
  }

  //
  // The automaton without its restart.
  //

  function Walk(t: seq<Unit>): int
    requires t != []
  {
    if |t| == 1 then Begin(t[0]) else Switch(Walk(t[..|t| - 1]), t[|t| - 1])
  }

  /** A pattern that begins with the units that lead to a state. */
  function PatternOf(state: int): nat {
    if state in {1, 11, 111} then 0
    else if state in {112, 1121} then 2
    else if state == 12 then 5
    else if state == 13 then 7
    else if state == 14 then 8
    else if state in {2, 21, 211, 2111} then 10
    else if state in {212, 2121, 21211} then 12
    else if state == 2122 then 13
    else if state in {213, 2131, 21311} then 14
    else if state == 2132 then 15
    else if state == 214 then 16
    else if state == 215 then 17
    else if state in {3, 31, 311} then 19
    else if state == 312 then 21
    else if state in {4, 41, 411} then 22
    else 24
  }

  /** How many units lead to it; 0 for the states that any number leads to. */
  function Units(state: int): nat {
    if state in {1, 2, 3, 4, 5} then 1
    else if state in {11, 12, 13, 14, 21, 31, 41, 51} then 2
    else if state in {111, 112, 211, 212, 213, 214, 215, 311, 312, 411} then 3
    else if state in {1121, 2111, 2121, 2122, 2131, 2132} then 4
    else if state in {21211, 21311} then 5
    else 0
  }

  /** The pattern that c completes. */
  function Completed(state: int, c: Unit): nat {
    if state == 111 then 0
    else if state == 11 then 1
    else if state == 1121 then 2
    else if state == 112 then 3
    else if state == 1 then if c == 0xe47 then 4 else if c == 0xe4C then 9 else 6
    else if state == 12 then 5
    else if state == 13 then 7
    else if state == 14 then 8
    else if state == 2111 then 10
    else if state == 211 then 11
    else if state == 21211 then 12
    else if state == 2122 then 13
    else if state == 21311 then 14
    else if state == 2132 then 15
    else if state == 214 then 16
    else if state == 215 then 17
    else if state == 21 then 18
    else if state == 311 then 19
    else if state == 31 then 20
    else if state == 312 then 21
    else if state == 411 then 22
    else if state == 41 then 23
    else 24
  }

  /** The first n classes of two patterns are the same. */
  predicate Shared(k: nat, l: nat, n: nat) {
    n <= |Pattern(k)| && n <= |Pattern(l)| && forall i | 0 <= i < n :: Pattern(k)[i] == Pattern(l)[i]
  }

  function NextPattern(state: int, c: Unit): nat {
    if Switch(state, c) == -1 then Completed(state, c) else PatternOf(Switch(state, c))
  }

  /** With c the units go on to begin the next pattern. */
  predicate GoesOn(state: int, c: Unit) {
    var k, n := NextPattern(state, c), Units(state);
    && k < PATTERNS && Shared(PatternOf(state), k, n) && n < |Pattern(k)| && In(c, Pattern(k)[n])
    && (Switch(state, c) == -1 || Units(Switch(state, c)) == n + 1)
  }

  lemma Step1(state: int, c: Unit)
    requires state == 1 && Switch(state, c) != 0
    ensures GoesOn(state, c)
  {
    hide Con, Fcon, Ton;
  }

  lemma Step11(state: int, c: Unit)
    requires state in {11, 111} && Switch(state, c) != 0
    ensures GoesOn(state, c)
  {
    hide Con, Fcon, Ton;
  }

  lemma Step112(state: int, c: Unit)
    requires state in {112, 1121} && Switch(state, c) != 0
    ensures GoesOn(state, c)
  {
    hide Con, Fcon, Ton;
  }

  lemma Step12(state: int, c: Unit)
    requires state in {12, 13, 14} && Switch(state, c) != 0
    ensures GoesOn(state, c)
  {
    hide Con, Fcon, Ton;
  }

  lemma Step2(state: int, c: Unit)
    requires state == 2 && Switch(state, c) != 0
    ensures GoesOn(state, c)
  {
    hide Con, Fcon, Ton;
  }

  lemma Step21Vowel(state: int, c: Unit)
    requires state == 21 && c in {0xe30, 0xe32, 0xe35}
    ensures GoesOn(state, c)
  {
    hide Con, Fcon, Ton;
  }

  lemma Step21Other(state: int, c: Unit)
    requires state == 21 && c !in {0xe30, 0xe32, 0xe35} && Switch(state, c) != 0
    ensures GoesOn(state, c)
  {
    hide Con, Fcon, Ton;
  }

  lemma Step21(state: int, c: Unit)
    requires state == 21 && Switch(state, c) != 0
    ensures GoesOn(state, c)
  {
    hide *;
    if c in {0xe30, 0xe32, 0xe35} { Step21Vowel(state, c); } else { Step21Other(state, c); }
  }

  lemma Step211(state: int, c: Unit)
    requires state in {211, 2111} && Switch(state, c) != 0
    ensures GoesOn(state, c)
  {
    hide Con, Fcon, Ton;
  }

  lemma Step212(state: int, c: Unit)
    requires state in {212, 2122} && Switch(state, c) != 0
    ensures GoesOn(state, c)
  {
    hide Con, Fcon, Ton;
  }

  lemma Step2121(state: int, c: Unit)
    requires state in {2121, 21211} && Switch(state, c) != 0
    ensures GoesOn(state, c)
  {
    hide Con, Fcon, Ton;
  }

  lemma Step213(state: int, c: Unit)
    requires state == 213 && Switch(state, c) != 0
    ensures GoesOn(state, c)
  {
    hide Con, Fcon, Ton;
  }

  lemma Step2131(state: int, c: Unit)
    requires state in {2131, 21311} && Switch(state, c) != 0
    ensures GoesOn(state, c)
  {
    hide Con, Fcon, Ton;
  }

  lemma Step2132(state: int, c: Unit)
    requires state == 2132 && Switch(state, c) != 0
    ensures GoesOn(state, c)
  {
    hide Con, Fcon, Ton;
  }

  lemma Step214(state: int, c: Unit)
    requires state == 214 && Switch(state, c) != 0
    ensures GoesOn(state, c)
  {
    hide Con, Fcon, Ton;
  }

  lemma Step215(state: int, c: Unit)
    requires state == 215 && Switch(state, c) != 0
    ensures GoesOn(state, c)
  {
    hide Con, Fcon, Ton;
  }

  lemma Step3(state: int, c: Unit)
    requires state == 3 && Switch(state, c) != 0
    ensures GoesOn(state, c)
  {
    hide Con, Fcon, Ton;
  }

  lemma Step31(state: int, c: Unit)
    requires state == 31 && Switch(state, c) != 0
    ensures GoesOn(state, c)
  {
    hide Con, Fcon, Ton;
  }

  lemma Step311(state: int, c: Unit)
    requires state in {311, 312} && Switch(state, c) != 0
    ensures GoesOn(state, c)
  {
    hide Con, Fcon, Ton;
  }

  lemma Step4(state: int, c: Unit)
    requires state == 4 && Switch(state, c) != 0
    ensures GoesOn(state, c)
  {
    hide Con, Fcon, Ton;
  }

  lemma Step411(state: int, c: Unit)
    requires state == 411 && Switch(state, c) != 0
    ensures GoesOn(state, c)
  {
    hide Con, Fcon, Ton;
  }

  lemma Step41(state: int, c: Unit)
    requires state == 41 && Switch(state, c) != 0
    ensures GoesOn(state, c)
  {
    hide Con, Fcon, Ton;
  }

  lemma Step5(state: int, c: Unit)
    requires state in {5, 51} && Switch(state, c) != 0
    ensures GoesOn(state, c)
  {
    hide Con, Fcon, Ton;
  }

  lemma StepGoesOn(state: int, c: Unit)
    requires Units(state) > 0 && Switch(state, c) != 0
    ensures GoesOn(state, c)
  {
    assert Units(state) > 0;
    hide Switch, GoesOn;
    if state == 1 { Step1(state, c); }
    else if state in {11, 111} { Step11(state, c); }
    else if state in {112, 1121} { Step112(state, c); }
    else if state in {12, 13, 14} { Step12(state, c); }
    else if state == 2 { Step2(state, c); }
    else if state == 21 { Step21(state, c); }
    else if state in {211, 2111} { Step211(state, c); }
    else if state in {212, 2122} { Step212(state, c); }
    else if state in {2121, 21211} { Step2121(state, c); }
    else if state == 213 { Step213(state, c); }
    else if state in {2131, 21311} { Step2131(state, c); }
    else if state == 2132 { Step2132(state, c); }
    else if state == 214 { Step214(state, c); }
    else if state == 215 { Step215(state, c); }
    else if state == 3 { Step3(state, c); }
    else if state == 31 { Step31(state, c); }
    else if state in {311, 312} { Step311(state, c); }
    else if state == 4 { Step4(state, c); }
    else if state == 41 { Step41(state, c); }
    else if state == 411 { Step411(state, c); }
    else if state in {5, 51} { Step5(state, c); }
  }

  /** The units t lead to that state. */
  ghost predicate WordOf(t: seq<Unit>, state: int)
    requires t != []
  {
    if state in {6, 7, 8, 9} then IsRun(t) && Kind(t[0]) == state
    else if Units(state) > 0 then |t| == Units(state) && Fits(t, PatternOf(state))
    else |t| == 1 || state == 0 || Together(t)
  }

  lemma BeginWord(c: Unit)
    ensures WordOf([c], Begin(c))
  {
    KindIs(c);
    hide Kind;
  }

  lemma FitsOn(t: seq<Unit>, k: nat, l: nat, c: Unit)
    requires Fits(t, k) && Shared(k, l, |t|) && |t| < |Pattern(l)| && In(c, Pattern(l)[|t|])
    ensures Fits(t + [c], l)
  {
    hide Pattern, In;
  }

  lemma RunOn(t: seq<Unit>, state: int, c: Unit)
    requires t != [] && IsRun(t) && Kind(t[0]) == state && state in {6, 7, 8, 9}
    ensures Switch(state, c) == if Kind(c) == state then state else 0
    ensures Kind(c) == state ==> IsRun(t + [c])
  {
    KindIs(c);
    hide Kind, Thd, Lad, Alp, Spa;
  }

  lemma Stops(state: int, c: Unit)
    requires state == -1 || state == 0
    ensures Switch(state, c) == 0
  {
  }

  lemma StatesOf(state: int)
    ensures Units(state) > 0 ==> state !in {-1, 0, 6, 7, 8, 9}
  {
  }

  lemma NextUnits(state: int, c: Unit)
    requires Units(state) > 0 && Switch(state, c) != 0
    ensures Switch(state, c) !in {6, 7, 8, 9} && (Switch(state, c) != -1 ==> Units(Switch(state, c)) > 0)
  {
    StepGoesOn(state, c);
    StatesOf(Switch(state, c));
    hide Switch, PatternOf, Pattern, In;
  }

  lemma StepWord(t: seq<Unit>, state: int, c: Unit)
    requires t != [] && WordOf(t, state) && Known(state) && Switch(state, c) != 0
    ensures WordOf(t + [c], Switch(state, c))
  {
    if state in {6, 7, 8, 9} {
      RunOn(t, state, c);
    } else if Units(state) > 0 {
      StepGoesOn(state, c);
      NextUnits(state, c);
      var next, k := Switch(state, c), NextPattern(state, c);
      assert next != -1 ==> k == PatternOf(next);
      hide Switch, Pattern, In, Completed, PatternOf, Units, IsRun;
      FitsOn(t, PatternOf(state), k, c);
    } else {
      KnownStops(state, c);
    }
  }

  lemma KnownStops(state: int, c: Unit)
    requires Known(state) && Units(state) == 0 && state !in {6, 7, 8, 9}
    ensures Switch(state, c) == 0
  {
    hide Units;
    OnlyTwo(state);
    Stops(state, c);
  }

  lemma OnlyTwo(state: int)
    requires Known(state) && Units(state) == 0 && state !in {6, 7, 8, 9}
    ensures state == -1 || state == 0
  {
  }

  lemma {:induction false} WalkIsWord(t: seq<Unit>)
    requires t != []
    ensures Known(Walk(t)) && WordOf(t, Walk(t))
    decreases |t|
  {
    if |t| == 1 {
      assert t == [t[0]];
      BeginWord(t[0]);
      BeginKnown(t[0]);
    } else {
      var most, c := t[..|t| - 1], t[|t| - 1];
      WalkIsWord(most);
      assert most + [c] == t;
      hide Switch, Known, WordOf;
      var state := Walk(most);
      SwitchKnown(state, c);
      if Switch(state, c) != 0 { StepWord(most, state, c); } else { DeadWord(t); }
    }
  }

  lemma DeadWord(t: seq<Unit>)
    requires t != []
    ensures WordOf(t, 0)
  {
  }

  lemma BeginKnown(c: Unit)
    ensures Known(Begin(c))
  {
  }

  lemma SwitchKnown(state: int, c: Unit)
    requires Known(state)
    ensures Known(Switch(state, c))
  {
    if Units(state) > 0 && Switch(state, c) != 0 {
      NextUnits(state, c);
      KnownUnits(Switch(state, c));
      hide Switch, Units, Known;
    } else if state in {6, 7, 8, 9} {
      hide Units;
    } else if Units(state) == 0 {
      KnownStops(state, c);
      hide Switch, Units;
    } else {
      hide Switch, Units;
    }
  }

  lemma KnownUnits(state: int)
    requires state == -1 || Units(state) > 0
    ensures Known(state)
  {
  }

  //
  // Back from the patterns to the states.
  //

  /** The states on the way through a pattern, up to the last unit but one. */
  function Path(k: nat): seq<int> {
    if k == 0 then [1, 11, 111]
    else if k == 1 then [1, 11]
    else if k == 2 then [1, 11, 112, 1121]
    else if k == 3 then [1, 11, 112]
    else if k == 4 then [1]
    else if k == 5 then [1, 12]
    else if k == 6 then [1]
    else if k == 7 then [1, 13]
    else if k == 8 then [1, 14]
    else if k == 9 then [1]
    else if k == 10 then [2, 21, 211, 2111]
    else if k == 11 then [2, 21, 211]
    else if k == 12 then [2, 21, 212, 2121, 21211]
    else if k == 13 then [2, 21, 212, 2122]
    else if k == 14 then [2, 21, 213, 2131, 21311]
    else if k == 15 then [2, 21, 213, 2132]
    else if k == 16 then [2, 21, 214]
    else if k == 17 then [2, 21, 215]
    else if k == 18 then [2, 21]
    else if k == 19 then [3, 31, 311]
    else if k == 20 then [3, 31]
    else if k == 21 then [3, 31, 312]
    else if k == 22 then [4, 41, 411]
    else if k == 23 then [4, 41]
    else [5, 51]
  }

  /** Each unit of a pattern leads on, and to the next state on the way if it is not the last. */
  predicate LeadsOn(k: nat, n: nat, c: Unit) {
    1 <= n < |Pattern(k)| == |Path(k)| + 1 && Switch(Path(k)[n - 1], c) != 0 && (n < |Path(k)| ==> Switch(Path(k)[n - 1], c) == Path(k)[n])
  }

  lemma Path0(k: nat, n: nat, c: Unit)
    requires k == 0 && 1 <= n < |Pattern(k)| && In(c, Pattern(k)[n])
    ensures LeadsOn(k, n, c)
  {
  }

  lemma Path1(k: nat, n: nat, c: Unit)
    requires k == 1 && 1 <= n < |Pattern(k)| && In(c, Pattern(k)[n])
    ensures LeadsOn(k, n, c)
  {
  }

  lemma Path2(k: nat, n: nat, c: Unit)
    requires k == 2 && 1 <= n < |Pattern(k)| && In(c, Pattern(k)[n])
    ensures LeadsOn(k, n, c)
  {
  }

  lemma Path3(k: nat, n: nat, c: Unit)
    requires k == 3 && 1 <= n < |Pattern(k)| && In(c, Pattern(k)[n])
    ensures LeadsOn(k, n, c)
  {
  }

  lemma Path4(k: nat, n: nat, c: Unit)
    requires k in {4, 5, 6} && 1 <= n < |Pattern(k)| && In(c, Pattern(k)[n])
    ensures LeadsOn(k, n, c)
  {
  }

  lemma Path7(k: nat, n: nat, c: Unit)
    requires k in {7, 8, 9} && 1 <= n < |Pattern(k)| && In(c, Pattern(k)[n])
    ensures LeadsOn(k, n, c)
  {
  }

  lemma Path10(k: nat, n: nat, c: Unit)
    requires k == 10 && 1 <= n < |Pattern(k)| && In(c, Pattern(k)[n])
    ensures LeadsOn(k, n, c)
  {
  }

  lemma Path11(k: nat, n: nat, c: Unit)
    requires k == 11 && 1 <= n < |Pattern(k)| && In(c, Pattern(k)[n])
    ensures LeadsOn(k, n, c)
  {
  }

  lemma Path12(k: nat, n: nat, c: Unit)
    requires k == 12 && 1 <= n < |Pattern(k)| && In(c, Pattern(k)[n])
    ensures LeadsOn(k, n, c)
  {
  }

  lemma Path13(k: nat, n: nat, c: Unit)
    requires k == 13 && 1 <= n < |Pattern(k)| && In(c, Pattern(k)[n])
    ensures LeadsOn(k, n, c)
  {
  }

  lemma Path14(k: nat, n: nat, c: Unit)
    requires k == 14 && 1 <= n < |Pattern(k)| && In(c, Pattern(k)[n])
    ensures LeadsOn(k, n, c)
  {
  }

  lemma Path15(k: nat, n: nat, c: Unit)
    requires k == 15 && 1 <= n < |Pattern(k)| && In(c, Pattern(k)[n])
    ensures LeadsOn(k, n, c)
  {
  }

  lemma Path16(k: nat, n: nat, c: Unit)
    requires k == 16 && 1 <= n < |Pattern(k)| && In(c, Pattern(k)[n])
    ensures LeadsOn(k, n, c)
  {
  }

  lemma Path17(k: nat, n: nat, c: Unit)
    requires k in {17, 18} && 1 <= n < |Pattern(k)| && In(c, Pattern(k)[n])
    ensures LeadsOn(k, n, c)
  {
  }

  lemma Path19(k: nat, n: nat, c: Unit)
    requires k == 19 && 1 <= n < |Pattern(k)| && In(c, Pattern(k)[n])
    ensures LeadsOn(k, n, c)
  {
  }

  lemma Path20(k: nat, n: nat, c: Unit)
    requires k == 20 && 1 <= n < |Pattern(k)| && In(c, Pattern(k)[n])
    ensures LeadsOn(k, n, c)
  {
  }

  lemma Path21(k: nat, n: nat, c: Unit)
    requires k == 21 && 1 <= n < |Pattern(k)| && In(c, Pattern(k)[n])
    ensures LeadsOn(k, n, c)
  {
  }

  lemma Path22(k: nat, n: nat, c: Unit)
    requires k in {22, 23} && 1 <= n < |Pattern(k)| && In(c, Pattern(k)[n])
    ensures LeadsOn(k, n, c)
  {
  }

  lemma Path24(k: nat, n: nat, c: Unit)
    requires k == 24 && 1 <= n < |Pattern(k)| && In(c, Pattern(k)[n])
    ensures LeadsOn(k, n, c)
  {
  }

  lemma PathLeadsOn(k: nat, n: nat, c: Unit)
    requires k < PATTERNS && 1 <= n < |Pattern(k)| && In(c, Pattern(k)[n])
    ensures LeadsOn(k, n, c)
  {
    assert k < 25;
    hide *;
    if k == 0 { Path0(k, n, c); }
    else if k == 1 { Path1(k, n, c); }
    else if k == 2 { Path2(k, n, c); }
    else if k == 3 { Path3(k, n, c); }
    else if k in {4, 5, 6} { Path4(k, n, c); }
    else if k in {7, 8, 9} { Path7(k, n, c); }
    else if k == 10 { Path10(k, n, c); }
    else if k == 11 { Path11(k, n, c); }
    else if k == 12 { Path12(k, n, c); }
    else if k == 13 { Path13(k, n, c); }
    else if k == 14 { Path14(k, n, c); }
    else if k == 15 { Path15(k, n, c); }
    else if k == 16 { Path16(k, n, c); }
    else if k in {17, 18} { Path17(k, n, c); }
    else if k == 19 { Path19(k, n, c); }
    else if k == 20 { Path20(k, n, c); }
    else if k == 21 { Path21(k, n, c); }
    else if k in {22, 23} { Path22(k, n, c); }
    else if k == 24 { Path24(k, n, c); }
  }

  lemma PathBegins(k: nat, c: Unit)
    requires k < PATTERNS && In(c, Pattern(k)[0])
    ensures |Pattern(k)| == |Path(k)| + 1 && |Path(k)| > 0 && Begin(c) == Path(k)[0]
  {
  }

  lemma {:induction false} FitsWalks(t: seq<Unit>, k: nat)
    requires t != [] && k < PATTERNS && Fits(t, k)
    ensures |Pattern(k)| == |Path(k)| + 1 && (|t| < |Pattern(k)| ==> Walk(t) == Path(k)[|t| - 1]) && Walk(t) != 0
    decreases |t|
  {
    assert In(t[0], Pattern(k)[0]);
    PathBegins(k, t[0]);
    if |t| == 1 {
      SomeState(k);
    } else {
      var most, c := t[..|t| - 1], t[|t| - 1];
      assert Fits(most, k) && In(c, Pattern(k)[|t| - 1]);
      FitsWalks(most, k);
      PathLeadsOn(k, |t| - 1, c);
      hide Pattern, Path, In, Switch, Begin;
    }
  }

  lemma SomeState(k: nat)
    requires k < PATTERNS
    ensures |Path(k)| > 0 && Path(k)[0] != 0
  {
  }

  lemma {:induction false} RunWalks(t: seq<Unit>)
    requires IsRun(t)
    ensures Walk(t) == Kind(t[0]) && Kind(t[0]) in {6, 7, 8, 9}
    decreases |t|
  {
    KindRange(t[0]);
    if |t| == 1 {
      BeginRun(t[0]);
    } else {
      var most, c := t[..|t| - 1], t[|t| - 1];
      RunWalks(most);
      RunOn(most, Kind(t[0]), c);
      hide Kind, Switch, Begin;
    }
  }

  lemma BeginRun(c: Unit)
    requires Kind(c) != 0
    ensures Begin(c) == Kind(c)
  {
  }

  /** More than one unit are led on by the automaton exactly if they belong together. */
  lemma WalkIff(t: seq<Unit>)
    requires |t| > 1
    ensures Walk(t) != 0 <==> Together(t)
  {
    WalkIsWord(t);
    hide Walk, Known, Switch, Begin, Fits, Pattern, Units, PatternOf;
    if IsRun(t) {
      RunWalks(t);
    } else if k :| 0 <= k < PATTERNS && Fits(t, k) {
      FitsWalks(t, k);
    }
    if Walk(t) != 0 && Units(Walk(t)) > 0 {
      PatternRange(Walk(t));
      assert Fits(t, PatternOf(Walk(t)));
    }
  }

  lemma PatternRange(state: int)
    ensures PatternOf(state) < PATTERNS
  {
  }

  //
  // The clusters.
  //

  /** The state at the end of a text is that of its last cluster. */
  ghost predicate Led(ts: seq<seq<Unit>>, i: nat)
    requires i < |ts|
  {
    ts[i] != [] && (|ts[i]| > 1 ==> Walk(ts[i]) != 0) && (i + 1 < |ts| ==> ts[i + 1] != [] && Switch(Walk(ts[i]), ts[i + 1][0]) == 0)
  }

  lemma LedAdded(ts: seq<seq<Unit>>, c: Unit)
    requires (forall i | 0 <= i < |ts| :: Led(ts, i)) && (ts != [] ==> ts[|ts| - 1] != [] && Switch(Walk(ts[|ts| - 1]), c) == 0)
    ensures forall i | 0 <= i < |ts| + 1 :: Led(ts + [[c]], i)
  {
    var us := ts + [[c]];
    hide Walk, Switch;
    forall i | 0 <= i < |us| ensures Led(us, i) {
      if i < |ts| { assert Led(ts, i); }
    }
  }

  lemma LedExtended(ts: seq<seq<Unit>>, c: Unit)
    requires (forall i | 0 <= i < |ts| :: Led(ts, i)) && ts != [] && ts[|ts| - 1] != [] && Switch(Walk(ts[|ts| - 1]), c) != 0
    ensures var us := ts[..|ts| - 1] + [ts[|ts| - 1] + [c]]; forall i | 0 <= i < |us| :: Led(us, i)
  {
    var n := |ts| - 1;
    var us := ts[..n] + [ts[n] + [c]];
    assert (ts[n] + [c])[..|ts[n]|] == ts[n];
    assert Walk(ts[n] + [c]) == Switch(Walk(ts[n]), c);
    hide Walk, Switch;
    forall i | 0 <= i < |us| ensures Led(us, i) {
      assert Led(ts, i);
    }
  }

  lemma {:induction false} ClustersLed(s: seq<Unit>)
    ensures var ts := Clusters(s);
            (s == [] <==> ts == []) && (forall i | 0 <= i < |ts| :: Led(ts, i)) && (s != [] ==> ts[|ts| - 1] != [] && StateAfter(s) == Walk(ts[|ts| - 1]))
    decreases |s|
  {
    hide *;
    Segmented(s);
    if s == [] {
      NoClusters();
    } else {
      var most, c := s[..|s| - 1], s[|s| - 1];
      Segmented(most);
      ClustersLed(most);
      LastStep(s);
      var ts, state := Clusters(most), StateAfter(most);
      if Switch(state, c) == 0 {
        if most == [] { StartSwitch(); }
        LedAdded(ts, c);
        WalkOne(c);
      } else {
        LedExtended(ts, c);
        WalkOn(ts[|ts| - 1], c);
      }
    }
  }

  lemma StartSwitch()
    ensures Clusters([]) == []
  {
  }

  lemma WalkOne(c: Unit)
    ensures Walk([c]) == Begin(c)
  {
  }

  lemma WalkOn(t: seq<Unit>, c: Unit)
    requires t != []
    ensures Walk(t + [c]) == Switch(Walk(t), c)
  {
    assert (t + [c])[..|t|] == t;
    hide Switch;
  }

  /** A division into clusters that go on as long as they can. */
  ghost predicate Greedy(ts: seq<seq<Unit>>) {
    forall i | 0 <= i < |ts| :: GreedyAt(ts, i)
  }

  ghost predicate GreedyAt(ts: seq<seq<Unit>>, i: nat)
    requires i < |ts|
  {
    ts[i] != [] && (|ts[i]| > 1 ==> Together(ts[i])) && (i + 1 < |ts| ==> ts[i + 1] != [] && !Together(ts[i] + [ts[i + 1][0]]))
  }

  /** Every cluster of more than one unit belongs together, and would not with the next unit. */
  lemma ClustersAreGreedy(s: seq<Unit>)
    ensures Greedy(Clusters(s)) && Join(Clusters(s)) == s
  {
    Segmented(s);
    ClustersLed(s);
    var ts := Clusters(s);
    hide *;
    forall i | 0 <= i < |ts| ensures GreedyAt(ts, i) {
      LedGreedy(ts, i);
    }
    AllGreedy(ts);
  }

  lemma AllGreedy(ts: seq<seq<Unit>>)
    requires forall i | 0 <= i < |ts| :: GreedyAt(ts, i)
    ensures Greedy(ts)
  {
  }

  lemma LedGreedy(ts: seq<seq<Unit>>, i: nat)
    requires i < |ts| && Led(ts, i)
    ensures GreedyAt(ts, i)
  {
    hide Walk, Switch, Together;
    if |ts[i]| > 1 { WalkIff(ts[i]); }
    if i + 1 < |ts| {
      WalkOn(ts[i], ts[i + 1][0]);
      WalkIff(ts[i] + [ts[i + 1][0]]);
    }
  }

  //
  // There is no other such division.
  //

  lemma TogetherBegins(t: seq<Unit>, n: nat)
    requires Together(t) && 1 <= n <= |t|
    ensures Together(t[..n])
  {
    if !IsRun(t) {
      var k :| 0 <= k < PATTERNS && Fits(t, k);
      hide Pattern, In, Kind;
      assert Fits(t[..n], k);
    } else {
      hide Kind, Fits;
      assert IsRun(t[..n]);
    }
  }

  lemma {:induction false} JoinFirst(ts: seq<seq<Unit>>)
    requires ts != []
    ensures Join(ts) == ts[0] + Join(ts[1..])
    decreases |ts|
  {
    hide *;
    var init, last := ts[..|ts| - 1], ts[|ts| - 1];
    assert ts == init + [last];
    JoinSnoc(init, last);
    NothingJoined();
    if |ts| == 1 {
      assert init == [] && ts[1..] == [];
    } else {
      JoinFirst(init);
      assert ts[1..] == init[1..] + [last];
      JoinSnoc(init[1..], last);
      InThree(ts[0], Join(init[1..]), last);
    }
  }

  lemma InThree(a: seq<Unit>, b: seq<Unit>, c: seq<Unit>)
    ensures (a + b) + c == a + (b + c)
  {
  }

  lemma SomeUnits(ts: seq<seq<Unit>>)
    requires ts != [] && Greedy(ts)
    ensures ts[0] != [] && Join(ts) == ts[0] + Join(ts[1..]) && Join(ts) != []
  {
    JoinFirst(ts);
    assert GreedyAt(ts, 0);
    hide Join, Together;
  }

  /** A first cluster cannot be shorter than another one of the same text. */
  lemma NotShorter(ts: seq<seq<Unit>>, us: seq<seq<Unit>>)
    requires ts != [] && us != [] && Greedy(ts) && Greedy(us) && Join(ts) == Join(us)
    ensures |ts[0]| >= |us[0]|
  {
    SomeUnits(ts);
    SomeUnits(us);
    assert GreedyAt(ts, 0) && GreedyAt(us, 0);
    var n, all := |ts[0]|, Join(ts);
    if n < |us[0]| {
      NextUnit(ts);
      hide *;
      Prefix(us[0], Join(us[1..]), all, n + 1);
      Prefix(ts[0], [ts[1][0]], ts[0] + [ts[1][0]], n + 1);
      TogetherBegins(us[0], n + 1);
    }
  }

  lemma NextUnit(ts: seq<seq<Unit>>)
    requires ts != [] && Greedy(ts) && |Join(ts)| > |ts[0]|
    ensures |ts| > 1 && ts[0] != [] && ts[1] != [] && Join(ts)[..|ts[0]| + 1] == ts[0] + [ts[1][0]] && !Together(ts[0] + [ts[1][0]])
  {
    hide *;
    SomeUnits(ts);
    NothingJoined();
    assert ts[1..] != [];
    GreedyRest(ts);
    SomeUnits(ts[1..]);
    NotTogether(ts);
    OneMore(ts[0], ts[1], Join(ts[1..][1..]), Join(ts));
  }

  lemma NothingJoined()
    ensures Join([]) == []
  {
  }

  lemma NotTogether(ts: seq<seq<Unit>>)
    requires |ts| > 1 && Greedy(ts) && ts[1] != []
    ensures !Together(ts[0] + [ts[1][0]])
  {
    hide Together;
    assert GreedyAt(ts, 0);
  }

  lemma OneMore(a: seq<Unit>, b: seq<Unit>, rest: seq<Unit>, all: seq<Unit>)
    requires all == a + (b + rest) && b != []
    ensures all[..|a| + 1] == a + [b[0]]
  {
  }

  lemma Prefix(a: seq<Unit>, b: seq<Unit>, all: seq<Unit>, n: nat)
    requires all == a + b && n <= |a| + |b|
    ensures n <= |a| ==> all[..n] == a[..n]
    ensures n == |all| ==> all[..n] == all
  {
  }

  lemma GreedyRest(ts: seq<seq<Unit>>)
    requires ts != [] && Greedy(ts)
    ensures Greedy(ts[1..])
  {
    hide Together;
    forall i | 0 <= i < |ts[1..]| ensures GreedyAt(ts[1..], i) { assert GreedyAt(ts, i + 1); }
  }

  /** The clusters are the only division of the text of which that holds. */
  lemma {:induction false} OnlyDivision(ts: seq<seq<Unit>>, us: seq<seq<Unit>>)
    requires Greedy(ts) && Greedy(us) && Join(ts) == Join(us)
    ensures ts == us
    decreases |ts|
  {
    if ts == [] || us == [] {
      if ts != [] { SomeUnits(ts); }
      if us != [] { SomeUnits(us); }
    } else {
      NotShorter(ts, us);
      NotShorter(us, ts);
      JoinFirst(ts);
      JoinFirst(us);
      GreedyRest(ts);
      GreedyRest(us);
      hide Greedy, Join;
      assert ts[0] == Join(ts)[..|ts[0]|] && us[0] == Join(us)[..|us[0]|];
      assert Join(ts[1..]) == Join(ts)[|ts[0]|..] && Join(us[1..]) == Join(us)[|us[0]|..];
      OnlyDivision(ts[1..], us[1..]);
      assert ts == [ts[0]] + ts[1..] && us == [us[0]] + us[1..];
    }
  }

  /** So what tok writes is fixed by the patterns: a space before each part of the one greedy division. */
  lemma SegmentationIsGreedy(s: seq<Unit>, ts: seq<seq<Unit>>)
    requires Greedy(ts) && Join(ts) == s
    ensures ts == Clusters(s) && Spaced(s) == Render(ts)
  {
    Segmented(s);
    ClustersAreGreedy(s);
    hide *;
    OnlyDivision(ts, Clusters(s));
  }

  /** A consonant and the vowel sign after it are not put apart. */
  lemma ConsonantAndVowel()
    ensures Spaced([0x0E01, 0x0E32]) == [SPACE, 0x0E01, 0x0E32]
  {
    var t: seq<Unit> := [0x0E01, 0x0E32];
    assert Fits(t, 6);
    assert t[..1] == [0x0E01] && t[..0] == [];
    assert Join([t]) == t && Render([t]) == [SPACE] + t by { JoinSnoc([], t); assert [] + [t] == [t]; }
    hide Kind, Switch, Begin, Spaced, Clusters;
    assert GreedyAt([t], 0);
    SegmentationIsGreedy(t, [t]);
  }
}
