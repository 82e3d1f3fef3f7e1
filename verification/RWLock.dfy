/**
  RWLock.cc as a monitor. A thread that holds the mutex runs alone until it returns or waits, so one
  such stretch is one step: entering a call, going once more round its loop after waking up, or an
  unlock. Which thread notify_one wakes is anyone's choice, and a sleeper may wake up without cause.

  The lock knows three counters only. What it is for is said of the crowd, the threads themselves. As
  the lock does not know its callers either, a Thread is one acquisition: a caller that locks again
  while it holds the lock is another Thread (see NestedDeadlockIff).
 */
module Monitor {
  type Thread = nat

  datatype Place = Reading | Writing | ReadAsleep | ReadWoken | WriteAsleep | WriteWoken

  /** Where the threads are that have business with the lock. */
  type Crowd = map<Thread, Place>

  function At(c: Crowd, p: Place): set<Thread> {
    set t | t in c && c[t] == p
  }

  function Count(c: Crowd, p: Place): nat {
    |At(c, p)|
  }

  function WaitingReaders(c: Crowd): nat { Count(c, ReadAsleep) + Count(c, ReadWoken) }
  function WaitingWriters(c: Crowd): nat { Count(c, WriteAsleep) + Count(c, WriteWoken) }
  function Holding(c: Crowd): nat { Count(c, Reading) + Count(c, Writing) }

  /** A reader may take the lock: no writer holds it and none waits for it. */
  predicate OpenToReaders(c: Crowd) {
    Count(c, Writing) == 0 && WaitingWriters(c) == 0
  }

  predicate OpenToWriters(c: Crowd) {
    Holding(c) == 0
  }

  datatype Step =
    | ReadLock(t: Thread)
    | ReadAgain(t: Thread)
    | ReadUnlock(t: Thread, chosen: Thread)
    | WriteLock(t: Thread)
    | WriteAgain(t: Thread)
    | WriteUnlock(t: Thread, chosen: Thread)
    | Spurious(t: Thread)

  predicate Is(c: Crowd, t: Thread, p: Place) {
    t in c && c[t] == p
  }

  predicate Enabled(c: Crowd, step: Step) {
    match step
    case ReadLock(t) => t !in c
    case ReadAgain(t) => Is(c, t, ReadWoken)
    case ReadUnlock(t, chosen) => Is(c, t, Reading) && (Count(c, WriteAsleep) > 0 ==> Is(c, chosen, WriteAsleep))
    case WriteLock(t) => t !in c
    case WriteAgain(t) => Is(c, t, WriteWoken)
    case WriteUnlock(t, chosen) => Is(c, t, Writing) && (Count(c, WriteAsleep) > 0 ==> Is(c, chosen, WriteAsleep))
    case Spurious(t) => Is(c, t, ReadAsleep) || Is(c, t, WriteAsleep)
  }

  /** `chosen` is the thread that notify_one picks, if any is asleep. */
  function NotifyOneWriter(c: Crowd, chosen: Thread): Crowd {
    if Is(c, chosen, WriteAsleep) then c[chosen := WriteWoken] else c
  }

  function NotifyAllReaders(c: Crowd): Crowd {
    map t | t in c :: if c[t] == ReadAsleep then ReadWoken else c[t]
  }

  /** Handing the lock on: to a writer if one waits and the lock is free, else to the readers. */
  function HandOn(c: Crowd, chosen: Thread): Crowd {
    if Holding(c) == 0 && WaitingWriters(c) > 0 then NotifyOneWriter(c, chosen)
    else if OpenToReaders(c) then NotifyAllReaders(c)
    else c
  }

  function Apply(c: Crowd, step: Step): Crowd
    requires Enabled(c, step)
  {
    match step
    case ReadLock(t) => c[t := if OpenToReaders(c) then Reading else ReadAsleep]
    case ReadAgain(t) => c[t := if OpenToReaders(c) then Reading else ReadAsleep]
    case ReadUnlock(t, chosen) => HandOn(c - {t}, chosen)
    case WriteLock(t) => c[t := if OpenToWriters(c) then Writing else WriteAsleep]
    case WriteAgain(t) => c[t := if OpenToWriters(c) then Writing else WriteAsleep]
    case WriteUnlock(t, chosen) => HandOn(c - {t}, chosen)
    case Spurious(t) => c[t := if c[t] == ReadAsleep then ReadWoken else WriteWoken]
  }

  //
  // Counting.
  //

  function One(b: bool): nat { if b then 1 else 0 }

  lemma Moved(c: Crowd, t: Thread, p: Place)
    ensures forall q :: Count(c[t := p], q) == Count(c, q) + One(q == p) - One(Is(c, t, q))
  {
    forall q ensures Count(c[t := p], q) == Count(c, q) + One(q == p) - One(Is(c, t, q)) {
      var rest := At(c, q) - {t};
      assert At(c[t := p], q) == if q == p then rest + {t} else rest;
      assert At(c, q) == if Is(c, t, q) then rest + {t} else rest;
    }
  }

  lemma Left(c: Crowd, t: Thread)
    requires t in c
    ensures forall q :: Count(c - {t}, q) == Count(c, q) - One(c[t] == q)
  {
    forall q ensures Count(c - {t}, q) == Count(c, q) - One(c[t] == q) {
      assert At(c - {t}, q) == At(c, q) - {t};
    }
  }

  lemma AllWoken(c: Crowd)
    ensures var d := NotifyAllReaders(c);
            Count(d, ReadAsleep) == 0 && Count(d, ReadWoken) == Count(c, ReadAsleep) + Count(c, ReadWoken) &&
            forall q | q != ReadAsleep && q != ReadWoken :: Count(d, q) == Count(c, q)
  {
    var d := NotifyAllReaders(c);
    assert At(d, ReadAsleep) == {};
    assert At(d, ReadWoken) == At(c, ReadAsleep) + At(c, ReadWoken);
    forall q | q != ReadAsleep && q != ReadWoken ensures Count(d, q) == Count(c, q) {
      assert At(d, q) == At(c, q);
    }
  }

  lemma SomeoneAt(c: Crowd, p: Place)
    ensures Count(c, p) > 0 <==> exists t :: Is(c, t, p)
  {
    if Count(c, p) > 0 {
      var t :| t in At(c, p);
      assert Is(c, t, p);
    }
    forall t | Is(c, t, p) ensures Count(c, p) > 0 { assert t in At(c, p); }
  }

  lemma Placed(c: Crowd, t: Thread)
    ensures t in c ==> Count(c, c[t]) > 0
  {
    if t in c { assert t in At(c, c[t]); }
  }

  //
  // Safety.
  //

  /** Readers and a writer exclude each other, and so do writers. */
  predicate Exclusive(c: Crowd) {
    Count(c, Writing) == 0 || (Count(c, Reading) == 0 && Count(c, Writing) == 1)
  }

  /** If a writer could go on, one of those that wait is awake; if the readers could, they all are. */
  predicate NoLostWakeup(c: Crowd) {
    && (OpenToWriters(c) && WaitingWriters(c) > 0 ==> Count(c, WriteWoken) > 0)
    && (OpenToReaders(c) ==> Count(c, ReadAsleep) == 0)
  }

  predicate Inv(c: Crowd) {
    Exclusive(c) && NoLostWakeup(c)
  }

  lemma HandOnKeeps(c: Crowd, chosen: Thread)
    requires Exclusive(c) && (Count(c, WriteAsleep) > 0 ==> Is(c, chosen, WriteAsleep))
    ensures Inv(HandOn(c, chosen))
  {
    AllWoken(c);
    Moved(c, chosen, WriteWoken);
    hide Count;
  }

  /** Whatever comes next, exclusion lasts and no wakeup is lost. */
  lemma StepKeepsInv(c: Crowd, step: Step)
    requires Inv(c) && Enabled(c, step)
    ensures Inv(Apply(c, step))
  {
    if step.ReadUnlock? || step.WriteUnlock? {
      Left(c, step.t);
      Placed(c, step.t);
      hide Count;
      HandOnKeeps(c - {step.t}, step.chosen);
    } else {
      Moved(c, step.t, Apply(c, step)[step.t]);
      Placed(c, step.t);
      hide Count;
    }
  }

  //
  // Runs.
  //

  ghost predicate Run(c: Crowd, steps: seq<Step>, d: Crowd)
    decreases |steps|
  {
    if steps == [] then c == d
    else Enabled(c, steps[0]) && Run(Apply(c, steps[0]), steps[1..], d)
  }

  lemma {:induction false} RunKeepsInv(c: Crowd, steps: seq<Step>, d: Crowd)
    requires Inv(c) && Run(c, steps, d)
    ensures Inv(d)
    decreases |steps|
  {
    hide Inv, Apply, Enabled;
    if steps != [] {
      StepKeepsInv(c, steps[0]);
      RunKeepsInv(Apply(c, steps[0]), steps[1..], d);
    }
  }

  lemma NobodyInv()
    ensures Inv(map[])
  {
    forall p: Place ensures At(map[], p) == {} { }
  }

  /** In every crowd that a run can lead to, exclusion holds and no wakeup is lost. */
  lemma Reachable(steps: seq<Step>, d: Crowd)
    requires Run(map[], steps, d)
    ensures Exclusive(d) && NoLostWakeup(d)
  {
    NobodyInv();
    RunKeepsInv(map[], steps, d);
  }

  predicate IsWriter(p: Place) {
    p == Writing || p == WriteAsleep || p == WriteWoken
  }

  /** Nobody wants to write. */
  predicate NoWriter(c: Crowd) {
    forall u | u in c :: !IsWriter(c[u])
  }

  /** Nobody has the lock. */
  predicate Unheld(c: Crowd) {
    forall u | u in c :: c[u] != Reading && c[u] != Writing
  }

  lemma OpenIff(c: Crowd)
    ensures OpenToReaders(c) <==> NoWriter(c)
    ensures OpenToWriters(c) <==> Unheld(c)
  {
    forall p ensures Count(c, p) > 0 <==> exists t :: Is(c, t, p) { SomeoneAt(c, p); }
    hide Count;
    if !NoWriter(c) {
      var u :| u in c && IsWriter(c[u]);
      assert Is(c, u, c[u]);
    }
    if !Unheld(c) {
      var u :| u in c && (c[u] == Reading || c[u] == Writing);
      assert Is(c, u, c[u]);
    }
  }

  /** Where thread u is after a step, said of the threads alone. */
  function Moves(c: Crowd, step: Step, u: Thread): Place
    requires u in c || u == step.t
    requires Enabled(c, step)
  {
    if u == step.t then
      match step
      case ReadLock(_) => if NoWriter(c) then Reading else ReadAsleep
      case ReadAgain(_) => if NoWriter(c) then Reading else ReadAsleep
      case WriteLock(_) => if Unheld(c) then Writing else WriteAsleep
      case WriteAgain(_) => if Unheld(c) then Writing else WriteAsleep
      case _ => if c[u] == ReadAsleep then ReadWoken else WriteWoken
    else if step.ReadUnlock? || step.WriteUnlock? then
      if u == step.chosen && c[u] == WriteAsleep && Unheld(c - {step.t}) then WriteWoken
      else if c[u] == ReadAsleep && NoWriter(c - {step.t}) then ReadWoken
      else c[u]
    else c[u]
  }

  /** Every thread is in d where a step takes it from c; the thread that gives the lock back is gone. */
  ghost predicate Follows(c: Crowd, step: Step, d: Crowd) {
    && Enabled(c, step)
    && (forall u :: u in d <==> if step.ReadUnlock? || step.WriteUnlock? then u in c && u != step.t else u in c || u == step.t)
    && forall u | u in d :: d[u] == Moves(c, step, u)
  }

  /**
    What every step does: any number of readers get the lock as long as no writer wants it, a writer gets
    it when nobody has it, and who gives it back wakes one writer if nobody else has it, or all readers if
    no writer is left. Nobody else moves.
   */
  lemma StepMoves(c: Crowd, step: Step)
    requires Enabled(c, step)
    ensures Follows(c, step, Apply(c, step))
  {
    OpenIff(c);
    if step.ReadUnlock? || step.WriteUnlock? {
      UnlockMoves(c - {step.t}, step.chosen);
    }
    hide Count, OpenToReaders, OpenToWriters, Holding, WaitingWriters, HandOn, NoWriter, Unheld;
  }

  lemma UnlockMoves(c: Crowd, chosen: Thread)
    ensures var d := HandOn(c, chosen);
            (forall u :: u in d <==> u in c) &&
            forall u | u in c :: d[u] == if u == chosen && c[u] == WriteAsleep && Unheld(c) then WriteWoken
                                         else if c[u] == ReadAsleep && NoWriter(c) then ReadWoken else c[u]
  {
    OpenIff(c);
    Placed(c, chosen);
    hide Count, NoWriter, Unheld;
    if chosen in c && c[chosen] == WriteAsleep { assert !NoWriter(c) by { assert IsWriter(c[chosen]); NotWithout(c, chosen); } }
  }

  lemma NotWithout(c: Crowd, u: Thread)
    requires u in c && IsWriter(c[u])
    ensures !NoWriter(c)
  {
  }

  /** No reader gets the lock while a writer waits for it or holds it. */
  lemma WritersFirst(c: Crowd, step: Step, t: Thread, u: Thread)
    requires Enabled(c, step) && !Is(c, t, Reading) && Is(Apply(c, step), t, Reading)
    ensures !Is(c, u, WriteAsleep) && !Is(c, u, WriteWoken) && !Is(c, u, Writing)
  {
    Placed(c, u);
    hide Count;
  }

  //
  // Progress.
  //

  /** Some thread gets in or out at once. */
  predicate Productive(c: Crowd, step: Step) {
    || (step.ReadAgain? && OpenToReaders(c))
    || (step.WriteAgain? && OpenToWriters(c))
    || step.ReadUnlock? || step.WriteUnlock?
  }

  ghost predicate CanProceed(c: Crowd) {
    exists step :: Enabled(c, step) && Productive(c, step)
  }

  /** There is no deadlock: while there is anyone, someone can get the lock or give it back. */
  lemma NoDeadlock(c: Crowd)
    requires Inv(c) && c != map[]
    ensures CanProceed(c)
  {
    var anyone :| anyone in c;
    Placed(c, anyone);
    forall p ensures Count(c, p) > 0 <==> exists t :: Is(c, t, p) { SomeoneAt(c, p); }
    var chosen :| Count(c, WriteAsleep) > 0 ==> Is(c, chosen, WriteAsleep);
    hide Count;
    if Holding(c) > 0 {
      if t :| Is(c, t, Reading) {
        assert Productive(c, ReadUnlock(t, chosen));
      } else {
        var t :| Is(c, t, Writing);
        assert Productive(c, WriteUnlock(t, chosen));
      }
    } else if WaitingWriters(c) > 0 {
      var t :| Is(c, t, WriteWoken);
      assert Productive(c, WriteAgain(t));
    } else {
      var t :| Is(c, t, ReadWoken);
      assert Productive(c, ReadAgain(t));
    }
  }

  //
  // Callers that lock again while they hold the lock.
  //

  predicate Holds(c: Crowd, t: Thread) {
    Is(c, t, Reading) || Is(c, t, Writing)
  }

  type Caller = nat

  /** Whose acquisitions they are. */
  type Owner = map<Thread, Caller>

  predicate Owned(c: Crowd, owner: Owner) {
    forall t | t in c :: t in owner
  }

  /** The caller of t waits in another call, and cannot give t back before. */
  predicate Busy(c: Crowd, owner: Owner, t: Thread)
    requires Owned(c, owner) && t in c
  {
    exists u :: u in c && !Holds(c, u) && owner[u] == owner[t]
  }

  ghost predicate CanProceedNested(c: Crowd, owner: Owner)
    requires Owned(c, owner)
  {
    exists step :: Enabled(c, step) && Productive(c, step) && (step.ReadUnlock? || step.WriteUnlock? ==> !Busy(c, owner, step.t))
  }

  /** Nobody who holds the lock can give it back, and a writer keeps the others from getting it. */
  predicate Stuck(c: Crowd, owner: Owner)
    requires Owned(c, owner)
  {
    Holding(c) > 0 && !OpenToReaders(c) && forall t | t in c && Holds(c, t) :: Busy(c, owner, t)
  }

  /** Whatever callers call again, there is a deadlock exactly if all that hold the lock wait themselves and a writer holds it or waits. */
  lemma NestedDeadlockIff(c: Crowd, owner: Owner)
    requires Inv(c) && c != map[] && Owned(c, owner)
    ensures !CanProceedNested(c, owner) <==> Stuck(c, owner)
  {
    forall p ensures Count(c, p) > 0 <==> exists t :: Is(c, t, p) { SomeoneAt(c, p); }
    var chosen :| Count(c, WriteAsleep) > 0 ==> Is(c, chosen, WriteAsleep);
    hide Count;
    if t :| t in c && Holds(c, t) && !Busy(c, owner, t) {
      var step := if c[t] == Reading then ReadUnlock(t, chosen) else WriteUnlock(t, chosen);
      assert Enabled(c, step) && Productive(c, step);
    } else if Holding(c) == 0 {
      NoDeadlock(c);
      NobodyHolds(c, owner);
    } else if OpenToReaders(c) {
      NestedReaderWakes(c, owner);
    }
  }

  lemma NobodyHolds(c: Crowd, owner: Owner)
    requires Owned(c, owner) && Holding(c) == 0 && CanProceed(c)
    ensures CanProceedNested(c, owner)
  {
    var step :| Enabled(c, step) && Productive(c, step);
    Placed(c, step.t);
    hide Count;
  }

  /** When no writer holds the lock or waits, a nested call that waits is awake and gets it. */
  lemma NestedReaderWakes(c: Crowd, owner: Owner)
    requires Inv(c) && Owned(c, owner) && OpenToReaders(c) && Holding(c) > 0
    requires forall t | t in c && Holds(c, t) :: Busy(c, owner, t)
    ensures CanProceedNested(c, owner)
  {
    SomeoneAt(c, Reading);
    var t :| Is(c, t, Reading);
    assert Holds(c, t);
    var u :| u in c && !Holds(c, u) && owner[u] == owner[t];
    Placed(c, u);
    hide Count;
    assert Enabled(c, ReadAgain(u)) && Productive(c, ReadAgain(u));
  }

  /** No caller gives back what it holds while it waits. */
  predicate Sequential(c: Crowd, owner: Owner, step: Step)
    requires Owned(c, owner) && Enabled(c, step)
  {
    step.ReadUnlock? || step.WriteUnlock? ==> !Busy(c, owner, step.t)
  }

  /** A deadlock lasts, whatever calls are still made and whoever wakes up without cause. */
  lemma StuckForGood(c: Crowd, owner: Owner, step: Step)
    requires Owned(c, owner) && Stuck(c, owner) && Enabled(c, step) && Sequential(c, owner, step) && step.t in owner
    ensures Owned(Apply(c, step), owner) && Stuck(Apply(c, step), owner)
  {
    var t := step.t;
    var p := Apply(c, step)[t];
    Moved(c, t, p);
    Placed(c, t);
    hide Count;
    var d := c[t := p];
    assert Apply(c, step) == d && p != Reading && p != Writing;
    forall h | h in d && Holds(d, h) ensures Busy(d, owner, h) {
      assert Holds(c, h) && Busy(c, owner, h);
      var u :| u in c && !Holds(c, u) && owner[u] == owner[h];
      assert u in d && !Holds(d, u);
    }
  }

  /** A reader, a writer that waits for it, and the reader again: nobody can go on. */
  lemma ReaderLocksAgain()
    ensures var steps, d, owner := [ReadLock(0), WriteLock(1), ReadLock(2)], map[0 := Reading, 1 := WriteAsleep, 2 := ReadAsleep], map[0 := 7, 1 := 8, 2 := 7];
            Run(map[], steps, d) && Owned(d, owner) && !CanProceedNested(d, owner)
  {
    var a: Crowd, b: Crowd, d: Crowd := map[0 := Reading], map[0 := Reading, 1 := WriteAsleep], map[0 := Reading, 1 := WriteAsleep, 2 := ReadAsleep];
    var owner: Owner := map[0 := 7, 1 := 8, 2 := 7];
    ThreeLocks(a, b, d);
    NobodyInv();
    hide Inv, Count, Apply, OpenToReaders;
    ThreeSteps(map[], ReadLock(0), a, WriteLock(1), b, ReadLock(2), d);
    hide Run, CanProceedNested;
    RunKeepsInv(map[], [ReadLock(0), WriteLock(1), ReadLock(2)], d);
    OneIsBusy(d, owner);
    hide *;
    NestedDeadlockIff(d, owner);
  }

  lemma OneIsBusy(d: Crowd, owner: Owner)
    requires d == map[0 := Reading, 1 := WriteAsleep, 2 := ReadAsleep] && owner == map[0 := 7, 1 := 8, 2 := 7]
    requires Holding(d) > 0 && !OpenToReaders(d)
    ensures d != map[] && Owned(d, owner) && Stuck(d, owner)
  {
    assert 0 in d && 2 in d && !Holds(d, 2) && owner[2] == owner[0];
    assert Busy(d, owner, 0);
    hide Count;
  }

  lemma ThreeSteps(c0: Crowd, s1: Step, c1: Crowd, s2: Step, c2: Crowd, s3: Step, c3: Crowd)
    requires Enabled(c0, s1) && Apply(c0, s1) == c1
    requires Enabled(c1, s2) && Apply(c1, s2) == c2
    requires Enabled(c2, s3) && Apply(c2, s3) == c3
    ensures Run(c0, [s1, s2, s3], c3)
  {
    hide Apply, Enabled;
    assert Run(c3, [], c3);
    assert [s3][1..] == [] && Run(c2, [s3], c3);
    assert [s2, s3][1..] == [s3] && Run(c1, [s2, s3], c3);
    assert [s1, s2, s3][1..] == [s2, s3];
  }

  lemma ThreeLocks(a: Crowd, b: Crowd, d: Crowd)
    requires a == map[0 := Reading] && b == a[1 := WriteAsleep] && d == b[2 := ReadAsleep]
    ensures Apply(map[], ReadLock(0)) == a && Apply(a, WriteLock(1)) == b && Apply(b, ReadLock(2)) == d
    ensures Holding(d) > 0 && !OpenToReaders(d)
  {
    var none: Crowd := map[];
    forall p: Place ensures Count(none, p) == 0 { assert At(none, p) == {}; }
    assert a == none[0 := Reading];
    Moved(none, 0, Reading);
    Moved(a, 1, WriteAsleep);
    Moved(b, 2, ReadAsleep);
    hide Count;
    assert Count(a, Reading) == 1 && Count(a, Writing) == 0 && WaitingWriters(a) == 0;
    assert Count(b, Reading) == 1 && Count(b, WriteAsleep) == 1 && Count(b, Writing) == 0;
    assert Count(d, Reading) == 1 && Count(d, WriteAsleep) == 1;
  }

  /** Neither a new call nor a wakeup without cause. */
  predicate Quiet(step: Step) {
    !step.ReadLock? && !step.WriteLock? && !step.Spurious?
  }

  /** What is still to be done: a waiting thread has to get in and out, a holding one only out. */
  function Work(c: Crowd): nat {
    2 * WaitingReaders(c) + 2 * WaitingWriters(c) + Holding(c)
  }

  function Awake(c: Crowd): nat {
    Count(c, ReadWoken) + Count(c, WriteWoken)
  }

  /** Handing on wakes threads, and does nothing else. */
  lemma HandOnCounts(c: Crowd, chosen: Thread)
    ensures var d := HandOn(c, chosen);
            Count(d, Reading) == Count(c, Reading) && Count(d, Writing) == Count(c, Writing) &&
            WaitingReaders(d) == WaitingReaders(c) && WaitingWriters(d) == WaitingWriters(c)
  {
    Moved(c, chosen, WriteWoken);
    AllWoken(c);
    hide Count, NotifyAllReaders;
  }

  lemma UnlockWork(c: Crowd, t: Thread)
    requires Is(c, t, Reading) || Is(c, t, Writing)
    ensures Work(c - {t}) < Work(c)
  {
    Left(c, t);
    Placed(c, t);
    hide Count;
  }

  /** A quiet step does some of the work, or puts one more thread to sleep. */
  lemma QuietStep(c: Crowd, step: Step)
    requires Inv(c) && Enabled(c, step) && Quiet(step)
    ensures var d := Apply(c, step);
            if Productive(c, step) then Work(d) < Work(c) else Work(d) == Work(c) && Awake(d) < Awake(c)
  {
    if step.ReadUnlock? || step.WriteUnlock? {
      UnlockWork(c, step.t);
      HandOnCounts(c - {step.t}, step.chosen);
      hide Count, Awake, HandOn;
    } else {
      Moved(c, step.t, Apply(c, step)[step.t]);
      hide Count;
    }
  }

  /** How many quiet steps there can be, if at most n threads wait. */
  function Bound(c: Crowd, n: nat): nat {
    (n + 1) * Work(c) + Awake(c)
  }

  lemma {:induction false} QuietRunsEnd(c: Crowd, steps: seq<Step>, d: Crowd, n: nat)
    requires Inv(c) && Run(c, steps, d) && (forall i | 0 <= i < |steps| :: Quiet(steps[i])) && Work(c) <= n
    ensures |steps| + Bound(d, n) <= Bound(c, n) && Inv(d)
    decreases |steps|
  {
    if steps != [] {
      QuietStep(c, steps[0]);
      StepKeepsInv(c, steps[0]);
      var e := Apply(c, steps[0]);
      assert Awake(e) <= Work(e);
      hide Inv, Apply, Enabled, Quiet, Work, Awake, Productive;
      QuietRunsEnd(e, steps[1..], d, n);
      Lexicographic(n, Work(c), Awake(c), Work(e), Awake(e));
    }
  }

  lemma Lexicographic(n: nat, w: nat, a: nat, w': nat, a': nat)
    requires a' <= n && (w' < w || (w' == w && a' < a))
    ensures (n + 1) * w' + a' < (n + 1) * w + a
  {
    if w' < w { Scaled(n + 1, w', w - 1); }
  }

  lemma Scaled(k: nat, x: int, y: int)
    requires x <= y
    ensures k * x <= k * y && k * (y + 1) == k * y + k
  {
  }

  /**
    Once no new call comes in, every run that goes on as long as it can serves everyone: it is of
    bounded length, and it stops only when all threads have had the lock and given it back.
   */
  lemma EveryoneIsServed(c: Crowd, steps: seq<Step>, d: Crowd)
    requires Inv(c) && Run(c, steps, d) && forall i | 0 <= i < |steps| :: Quiet(steps[i])
    ensures |steps| <= Bound(c, Work(c))
    ensures (forall step | Quiet(step) :: !Enabled(d, step)) ==> d == map[]
  {
    QuietRunsEnd(c, steps, d, Work(c));
    hide Inv, Run, Bound, Work, Apply, Enabled;
    if d != map[] {
      NoDeadlock(d);
      var step :| Enabled(d, step) && Productive(d, step);
      assert Quiet(step);
    }
  }

  //
  // The lock itself.
  //

  class RWLock {
    var holdFlag: int
    var readWaitCnt: int
    var writeWaitCnt: int
    ghost var crowd: Crowd

    /** The counters count the threads. */
    ghost predicate Counted()
      reads this
    {
      && holdFlag == Count(crowd, Reading) - Count(crowd, Writing)
      && readWaitCnt == WaitingReaders(crowd)
      && writeWaitCnt == WaitingWriters(crowd)
    }

    ghost predicate Valid()
      reads this
    {
      Inv(crowd) && Counted()
    }

    constructor ()
      ensures Valid() && crowd == map[]
    {
      holdFlag, readWaitCnt, writeWaitCnt := 0, 0, 0;
      crowd := map[];
      new;
      NobodyInv();
      forall p: Place ensures At(map[], p) == {} { }
    }

    /** ReadLock up to where it returns, or waits. */
    method ReadLock(t: Thread) returns (returned: bool)
      requires Valid() && t !in crowd
      modifies this
      ensures Valid() && crowd == Apply(old(crowd), Step.ReadLock(t)) && (returned <==> Is(crowd, t, Reading))
      ensures returned <==> NoWriter(old(crowd))
    {
      ghost var step := Step.ReadLock(t);
      OpenIff(crowd);
      StepKeepsInv(crowd, step);
      Moved(crowd, t, Apply(crowd, step)[t]);
      hide Count, NoWriter, Unheld;
      readWaitCnt := readWaitCnt + 1;
      if holdFlag >= 0 && writeWaitCnt == 0 {
        holdFlag := holdFlag + 1;
        readWaitCnt := readWaitCnt - 1;
        returned := true;
      } else {
        returned := false;
      }
      crowd := Apply(crowd, step);
    }

    /** Once more round the loop of ReadLock. */
    method ReadAgain(t: Thread) returns (returned: bool)
      requires Valid() && Is(crowd, t, ReadWoken)
      modifies this
      ensures Valid() && crowd == Apply(old(crowd), Step.ReadAgain(t)) && (returned <==> Is(crowd, t, Reading))
      ensures returned <==> NoWriter(old(crowd))
    {
      ghost var step := Step.ReadAgain(t);
      OpenIff(crowd);
      StepKeepsInv(crowd, step);
      Moved(crowd, t, Apply(crowd, step)[t]);
      hide Count, NoWriter, Unheld;
      if holdFlag >= 0 && writeWaitCnt == 0 {
        holdFlag := holdFlag + 1;
        readWaitCnt := readWaitCnt - 1;
        returned := true;
      } else {
        returned := false;
      }
      crowd := Apply(crowd, step);
    }

    method ReadUnlock(t: Thread, ghost chosen: Thread)
      requires Valid() && Enabled(crowd, Step.ReadUnlock(t, chosen))
      modifies this
      ensures Valid() && crowd == Apply(old(crowd), Step.ReadUnlock(t, chosen))
      ensures Follows(old(crowd), Step.ReadUnlock(t, chosen), crowd)
    {
      StepKeepsInv(crowd, Step.ReadUnlock(t, chosen));
      StepMoves(crowd, Step.ReadUnlock(t, chosen));
      Leaves(t);
      assert Apply(crowd, Step.ReadUnlock(t, chosen)) == HandOn(crowd - {t}, chosen);
      hide Apply, Enabled, Inv, Follows, Count, HandOn, NotifyOneWriter, NotifyAllReaders, WaitingReaders, WaitingWriters, Is;
      crowd := crowd - {t};
      holdFlag := holdFlag - 1;
      GiveOn(chosen);
      if holdFlag == 0 && writeWaitCnt > 0 {
        crowd := NotifyOneWriter(crowd, chosen);
      } else if holdFlag >= 0 && writeWaitCnt == 0 && readWaitCnt > 0 {
        crowd := NotifyAllReaders(crowd);
      }
    }

    /** One holder less. */
    lemma Leaves(t: Thread)
      requires Valid() && (Is(crowd, t, Reading) || Is(crowd, t, Writing))
      ensures var e := crowd - {t};
              (if crowd[t] == Reading then holdFlag > 0 && holdFlag - 1 == Count(e, Reading) - Count(e, Writing)
               else holdFlag == -1 && 0 == Count(e, Reading) - Count(e, Writing)) &&
              (Count(e, Writing) == 0 || Count(e, Reading) == 0) &&
              readWaitCnt == WaitingReaders(e) && writeWaitCnt == WaitingWriters(e)
    {
      Left(crowd, t);
      Placed(crowd, t);
      hide Count;
    }

    /** What the counters tell about handing on, and that they still count then. */
    lemma GiveOn(chosen: Thread)
      requires Counted() && (Count(crowd, Writing) == 0 || Count(crowd, Reading) == 0)
      ensures HandOn(crowd, chosen) ==
                if holdFlag == 0 && writeWaitCnt > 0 then NotifyOneWriter(crowd, chosen)
                else if holdFlag >= 0 && writeWaitCnt == 0 && readWaitCnt > 0 then NotifyAllReaders(crowd)
                else crowd
      ensures var d := HandOn(crowd, chosen);
              holdFlag == Count(d, Reading) - Count(d, Writing) && readWaitCnt == WaitingReaders(d) && writeWaitCnt == WaitingWriters(d)
    {
      HandOnCounts(crowd, chosen);
      NobodyAsleep(crowd);
      hide Count, NotifyAllReaders, NotifyOneWriter;
    }

    method WriteLock(t: Thread) returns (returned: bool)
      requires Valid() && t !in crowd
      modifies this
      ensures Valid() && crowd == Apply(old(crowd), Step.WriteLock(t)) && (returned <==> Is(crowd, t, Writing))
      ensures returned <==> Unheld(old(crowd))
    {
      ghost var step := Step.WriteLock(t);
      OpenIff(crowd);
      StepKeepsInv(crowd, step);
      Moved(crowd, t, Apply(crowd, step)[t]);
      hide Count, NoWriter, Unheld;
      writeWaitCnt := writeWaitCnt + 1;
      if holdFlag == 0 {
        holdFlag := holdFlag - 1;
        writeWaitCnt := writeWaitCnt - 1;
        returned := true;
      } else {
        returned := false;
      }
      crowd := Apply(crowd, step);
    }

    method WriteAgain(t: Thread) returns (returned: bool)
      requires Valid() && Is(crowd, t, WriteWoken)
      modifies this
      ensures Valid() && crowd == Apply(old(crowd), Step.WriteAgain(t)) && (returned <==> Is(crowd, t, Writing))
      ensures returned <==> Unheld(old(crowd))
    {
      ghost var step := Step.WriteAgain(t);
      OpenIff(crowd);
      StepKeepsInv(crowd, step);
      Moved(crowd, t, Apply(crowd, step)[t]);
      hide Count, NoWriter, Unheld;
      if holdFlag == 0 {
        holdFlag := holdFlag - 1;
        writeWaitCnt := writeWaitCnt - 1;
        returned := true;
      } else {
        returned := false;
      }
      crowd := Apply(crowd, step);
    }

    method WriteUnlock(t: Thread, ghost chosen: Thread)
      requires Valid() && Enabled(crowd, Step.WriteUnlock(t, chosen))
      modifies this
      ensures Valid() && crowd == Apply(old(crowd), Step.WriteUnlock(t, chosen))
      ensures Follows(old(crowd), Step.WriteUnlock(t, chosen), crowd)
    {
      StepKeepsInv(crowd, Step.WriteUnlock(t, chosen));
      StepMoves(crowd, Step.WriteUnlock(t, chosen));
      Leaves(t);
      assert Apply(crowd, Step.WriteUnlock(t, chosen)) == HandOn(crowd - {t}, chosen);
      hide Apply, Enabled, Inv, Follows, Count, HandOn, NotifyOneWriter, NotifyAllReaders, WaitingReaders, WaitingWriters, Is;
      crowd := crowd - {t};
      holdFlag := holdFlag + 1;
      GiveOn(chosen);
      if holdFlag == 0 && writeWaitCnt > 0 {
        crowd := NotifyOneWriter(crowd, chosen);
      } else if holdFlag == 0 && writeWaitCnt == 0 && readWaitCnt > 0 {
        crowd := NotifyAllReaders(crowd);
      }
    }
  }

  /** Notifying when none sleeps changes nothing. */
  lemma NobodyAsleep(c: Crowd)
    ensures Count(c, ReadAsleep) == 0 ==> NotifyAllReaders(c) == c
  {
    if Count(c, ReadAsleep) == 0 {
      forall t | t in c ensures c[t] != ReadAsleep { Placed(c, t); }
      assert NotifyAllReaders(c) == c;
    }
  }
}
