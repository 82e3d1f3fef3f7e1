/**
  The scheduler of UsrControlBlock as a state that its operations change, together with the tasks
  that are out with a translator. What is proved here about every run carries over to the classes of
  UsrControlBlock.dfy, whose methods are proved to make these steps.
 */
module Schedule {
  type TextId = string

  datatype Option<T> = None | Some(value: T)

  datatype Task = Task(text: TextId, cell: nat)

  /** One submitted text. `given` are the cells that were done before it was submitted. */
  datatype Block = Block(id: TextId, ready: bool, pending: set<nat>, size: nat, done: set<nat>, given: set<nat>)
  {
    function Cells(): set<nat> { Below(size) }

    predicate Eligible() { ready && pending != {} }
  }

  datatype State = State(blocks: seq<Block>, inFlight: set<Task>)

  datatype Op =
    | Submit(text: Block)
    | Cancel(id: TextId)
    | Suspend(id: TextId)
    | Rerun(id: TextId)
    | CreateTask
    | Success(task: Task)
    | Failed(task: Task)

  //
  // The operations.
  //

  function Below(n: nat): (s: set<nat>)
    ensures forall i: nat :: i in s <==> i < n
  {
    if n == 0 then {} else Below(n - 1) + {n - 1}
  }

  ghost predicate IsMin(s: set<nat>, m: nat) {
    m in s && forall x | x in s :: m <= x
  }

  lemma {:induction false} MinExists(s: set<nat>)
    requires s != {}
    ensures exists m :: IsMin(s, m)
  {
    var x :| x in s;
    var rest := s - {x};
    if rest == {} {
      assert s == {x};
      assert IsMin(s, x);
    } else {
      MinExists(rest);
      var m :| IsMin(rest, m);
      assert s == rest + {x};
      assert IsMin(s, if x < m then x else m);
    }
  }

  /** begin() of an ordered set. */
  ghost function Min(s: set<nat>): (m: nat)
    requires s != {}
    ensures IsMin(s, m)
  {
    MinExists(s);
    var m :| IsMin(s, m);
    m
  }

  /** The first block with that identifier, or the number of blocks. */
  function Find(blocks: seq<Block>, id: TextId): (k: nat)
    ensures k <= |blocks|
    ensures forall i | 0 <= i < k :: blocks[i].id != id
    ensures k < |blocks| ==> blocks[k].id == id
  {
    if blocks == [] then 0
    else if blocks[0].id == id then 0
    else 1 + Find(blocks[1..], id)
  }

  /** The first block that is ready and has work, or the number of blocks. */
  function Turn(blocks: seq<Block>): (k: nat)
    ensures k <= |blocks|
    ensures forall i | 0 <= i < k :: !blocks[i].Eligible()
    ensures k < |blocks| ==> blocks[k].Eligible()
  {
    if blocks == [] then 0
    else if blocks[0].Eligible() then 0
    else 1 + Turn(blocks[1..])
  }

  function Without(blocks: seq<Block>, k: nat): seq<Block>
    requires k < |blocks|
  {
    blocks[..k] + blocks[k + 1..]
  }

  ghost function Chosen(s: State): Option<Task> {
    var k := Turn(s.blocks);
    if k == |s.blocks| then None else Some(Task(s.blocks[k].id, Min(s.blocks[k].pending)))
  }

  /** The block whose turn it is gives a task and goes to the back, as do the blocks before it. */
  ghost function Create(s: State): State {
    var k := Turn(s.blocks);
    if k == |s.blocks| then s
    else
      var b := s.blocks[k];
      var cell := Min(b.pending);
      s.(blocks := s.blocks[k + 1..] + s.blocks[..k] + [b.(pending := b.pending - {cell})], inFlight := s.inFlight + {Task(b.id, cell)})
  }

  function Succeed(s: State, task: Task): State {
    var k := Find(s.blocks, task.text);
    var t := s.(inFlight := s.inFlight - {task});
    if k == |s.blocks| then t
    else
      var b := s.blocks[k].(done := s.blocks[k].done + {task.cell});
      t.(blocks := if b.done == b.Cells() then Without(s.blocks, k) else s.blocks[k := b])
  }

  function Fail(s: State, task: Task): State {
    var k := Find(s.blocks, task.text);
    var t := s.(inFlight := s.inFlight - {task});
    if k == |s.blocks| then t
    else t.(blocks := s.blocks[k := s.blocks[k].(pending := s.blocks[k].pending + {task.cell})])
  }

  function SetReady(s: State, id: TextId, ready: bool): State {
    var k := Find(s.blocks, id);
    if k == |s.blocks| then s else s.(blocks := s.blocks[k := s.blocks[k].(ready := ready)])
  }

  function Drop(s: State, id: TextId): State {
    var k := Find(s.blocks, id);
    if k == |s.blocks| then s else s.(blocks := Without(s.blocks, k))
  }

  /** A text with nothing left to do is not taken. */
  function Take(s: State, text: Block): State {
    if text.done == text.Cells() then s
    else s.(blocks := s.blocks + [text])
  }

  ghost function Apply(s: State, op: Op): State {
    match op
    case Submit(text) => Take(s, text)
    case Cancel(id) => Drop(s, id)
    case Suspend(id) => SetReady(s, id, false)
    case Rerun(id) => SetReady(s, id, true)
    case CreateTask => Create(s)
    case Success(task) => Succeed(s, task)
    case Failed(task) => Fail(s, task)
  }

  /** As a text is when it is submitted. */
  predicate New(text: Block) {
    text.ready && text.pending == text.Cells() && text.done <= text.Cells() && text.given == text.done
  }

  /** The cells of a text that are out. */
  function Flight(inFlight: set<Task>, id: TextId): set<nat> {
    set t | t in inFlight && t.text == id :: t.cell
  }

  /** The identifier belongs to no live text, and to no task that is out. */
  predicate Free(s: State, id: TextId) {
    (forall i | 0 <= i < |s.blocks| :: s.blocks[i].id != id) && Flight(s.inFlight, id) == {}
  }

  /** A text that is taken has a free identifier, and a task is resolved once. */
  predicate Allowed(s: State, op: Op) {
    match op
    case Submit(text) => New(text) && (text.done != text.Cells() ==> Free(s, text.id))
    case Success(task) => task in s.inFlight
    case Failed(task) => task in s.inFlight
    case _ => true
  }

  //
  // Work is conserved.
  //

  /** Every cell is pending, out or done; pending or out but not both, and done besides only if it was done to begin with. */
  predicate Conserved(b: Block, flight: set<nat>) {
    && b.pending !! flight
    && b.pending + flight + b.done == b.Cells()
    && (b.pending + flight) * b.done <= b.given <= b.done
    && b.done != b.Cells()
  }

  predicate BlockOk(s: State, i: nat)
    requires i < |s.blocks|
  {
    Conserved(s.blocks[i], Flight(s.inFlight, s.blocks[i].id))
  }

  predicate DistinctIds(blocks: seq<Block>) {
    forall i, j | 0 <= i < j < |blocks| :: blocks[i].id != blocks[j].id
  }

  predicate Inv(s: State) {
    && (forall i | 0 <= i < |s.blocks| :: BlockOk(s, i))
    && DistinctIds(s.blocks)
  }

  lemma FlightOther(inFlight: set<Task>, task: Task, id: TextId)
    requires task.text != id
    ensures Flight(inFlight + {task}, id) == Flight(inFlight, id) == Flight(inFlight - {task}, id)
  {
    assert forall t | t in inFlight :: t in inFlight + {task} && (t != task ==> t in inFlight - {task});
  }

  lemma FlightOwn(inFlight: set<Task>, task: Task)
    ensures Flight(inFlight + {task}, task.text) == Flight(inFlight, task.text) + {task.cell}
    ensures Flight(inFlight - {task}, task.text) == Flight(inFlight, task.text) - {task.cell}
    ensures task in inFlight <==> task.cell in Flight(inFlight, task.text)
  {
    assert forall t | t in inFlight :: t in inFlight + {task} && (t != task ==> t in inFlight - {task});
    assert task in inFlight + {task};
    assert forall t: Task :: t.text == task.text && t.cell == task.cell ==> t == task;
  }

  /** Blocks that one task does not concern are as they were. */
  lemma OthersOk(s: State, t: State, task: Task)
    requires Inv(s)
    requires t.inFlight == s.inFlight + {task} || t.inFlight == s.inFlight - {task} || t.inFlight == s.inFlight
    ensures forall i, j | 0 <= i < |s.blocks| && 0 <= j < |t.blocks| && s.blocks[i] == t.blocks[j] && s.blocks[i].id != task.text :: BlockOk(t, j)
  {
    forall i, j | 0 <= i < |s.blocks| && 0 <= j < |t.blocks| && s.blocks[i] == t.blocks[j] && s.blocks[i].id != task.text
      ensures BlockOk(t, j)
    {
      assert BlockOk(s, i);
      FlightOther(s.inFlight, task, s.blocks[i].id);
    }
  }

  lemma CreateKeeps(s: State)
    requires Inv(s)
    ensures Inv(Create(s))
  {
    var k := Turn(s.blocks);
    if k < |s.blocks| {
      var b, t := s.blocks[k], Create(s);
      var task := Task(b.id, Min(b.pending));
      assert BlockOk(s, k);
      FlightOwn(s.inFlight, task);
      hide Flight, BlockOk;
      OthersOk(s, t, task);
      var n := |t.blocks| - 1;
      assert BlockOk(t, n) by { hide *; CreatedOk(s, k); }
      forall j | 0 <= j < n ensures t.blocks[j] == s.blocks[if j < n - k then k + 1 + j else j - (n - k)] { }
      forall j | 0 <= j < |t.blocks| ensures BlockOk(t, j) { if j < n { var i := if j < n - k then k + 1 + j else j - (n - k); assert s.blocks[i] == t.blocks[j]; } }
    }
  }

  lemma CreatedOk(s: State, k: nat)
    requires Inv(s) && k == Turn(s.blocks) < |s.blocks|
    ensures BlockOk(Create(s), |s.blocks| - 1)
  {
    var b := s.blocks[k];
    assert BlockOk(s, k);
    FlightOwn(s.inFlight, Task(b.id, Min(b.pending)));
    hide Flight;
  }

  lemma SucceedKeeps(s: State, task: Task)
    requires Inv(s) && task in s.inFlight
    ensures Inv(Succeed(s, task))
  {
    var k, t := Find(s.blocks, task.text), Succeed(s, task);
    FlightOwn(s.inFlight, task);
    OthersOk(s, t, task);
    if k < |s.blocks| { assert BlockOk(s, k); }
    hide Flight;
    forall j | 0 <= j < |t.blocks| ensures BlockOk(t, j) {
      var i := if |t.blocks| < |s.blocks| && j >= k then j + 1 else j;
      if i != k { assert s.blocks[i] == t.blocks[j]; }
    }
  }

  lemma FailKeeps(s: State, task: Task)
    requires Inv(s) && task in s.inFlight
    ensures Inv(Fail(s, task))
  {
    var k, t := Find(s.blocks, task.text), Fail(s, task);
    FlightOwn(s.inFlight, task);
    OthersOk(s, t, task);
    if k < |s.blocks| { assert BlockOk(s, k); }
    hide Flight;
    forall j | 0 <= j < |t.blocks| ensures BlockOk(t, j) {
      if j != k { assert s.blocks[j] == t.blocks[j]; }
    }
  }

  /** A new text can be taken exactly if its identifier is free; what breaks otherwise is conservation itself. */
  lemma TakeKeepsIff(s: State, text: Block)
    requires Inv(s) && New(text) && text.done != text.Cells()
    ensures Inv(Take(s, text)) <==> Free(s, text.id)
  {
    var t, n := Take(s, text), |s.blocks|;
    assert Conserved(text, Flight(s.inFlight, text.id)) <==> Flight(s.inFlight, text.id) == {};
    hide Conserved, Flight;
    if Inv(t) {
      assert BlockOk(t, n);
      forall i | 0 <= i < n ensures s.blocks[i].id != text.id { assert t.blocks[i].id != t.blocks[n].id; }
    }
    if Free(s, text.id) {
      forall j | 0 <= j < |t.blocks| ensures BlockOk(t, j) {
        if j < n { assert BlockOk(s, j); }
      }
    }
  }

  lemma DropKeeps(s: State, id: TextId)
    requires Inv(s)
    ensures Inv(Drop(s, id))
  {
    var k, t := Find(s.blocks, id), Drop(s, id);
    forall j | 0 <= j < |t.blocks| ensures BlockOk(t, j) {
      assert BlockOk(s, if |t.blocks| < |s.blocks| && j >= k then j + 1 else j);
    }
  }

  lemma SetReadyKeeps(s: State, id: TextId, ready: bool)
    requires Inv(s)
    ensures Inv(SetReady(s, id, ready))
  {
    var t := SetReady(s, id, ready);
    forall j | 0 <= j < |t.blocks| ensures BlockOk(t, j) { assert BlockOk(s, j); }
  }

  /** No operation loses, repeats or invents work. */
  lemma OpKeeps(s: State, op: Op)
    requires Inv(s) && Allowed(s, op)
    ensures Inv(Apply(s, op))
  {
    match op
    case Submit(text) => if text.done != text.Cells() { TakeKeepsIff(s, text); }
    case Cancel(id) => DropKeeps(s, id);
    case Suspend(id) => SetReadyKeeps(s, id, false);
    case Rerun(id) => SetReadyKeeps(s, id, true);
    case CreateTask => CreateKeeps(s);
    case Success(task) => SucceedKeeps(s, task);
    case Failed(task) => FailKeeps(s, task);
  }

  ghost predicate Run(s: State, ops: seq<Op>, t: State)
    decreases |ops|
  {
    if ops == [] then s == t else Allowed(s, ops[0]) && Run(Apply(s, ops[0]), ops[1..], t)
  }

  lemma {:induction false} RunKeeps(s: State, ops: seq<Op>, t: State)
    requires Inv(s) && Run(s, ops, t)
    ensures Inv(t)
    decreases |ops|
  {
    hide Inv, Apply, Allowed;
    if ops != [] {
      OpKeeps(s, ops[0]);
      RunKeeps(Apply(s, ops[0]), ops[1..], t);
    }
  }

  /** In every state that can be reached, each cell of a live text that was not done before is in exactly one place. */
  lemma WorkIsConserved(ops: seq<Op>, s: State, i: nat, cell: nat)
    requires Run(State([], {}), ops, s) && i < |s.blocks|
    requires cell < s.blocks[i].size && cell !in s.blocks[i].given
    ensures var pending, out, done := cell in s.blocks[i].pending, Task(s.blocks[i].id, cell) in s.inFlight, cell in s.blocks[i].done;
            (pending || out || done) && !(pending && out) && !(pending && done) && !(out && done)
  {
    RunKeeps(State([], {}), ops, s);
    assert BlockOk(s, i);
    FlightOwn(s.inFlight, Task(s.blocks[i].id, cell));
    hide Flight;
    assert cell in s.blocks[i].Cells();
  }

  /** A task is given out for a cell that is not out already, nor done unless it was done before. */
  lemma NoCellTwice(s: State)
    requires Inv(s) && Chosen(s).Some?
    ensures var task, b := Chosen(s).value, s.blocks[Turn(s.blocks)];
            task !in s.inFlight && task.text == b.id && task.cell in b.pending && task.cell < b.size && b.ready &&
            (forall cell | cell in b.pending :: task.cell <= cell) &&
            (task.cell in b.done ==> task.cell in b.given)
  {
    var k := Turn(s.blocks);
    assert BlockOk(s, k);
    FlightOwn(s.inFlight, Chosen(s).value);
    hide Flight;
    assert Chosen(s).value.cell in s.blocks[k].Cells();
  }

  /** Success releases a text exactly when all its cells are done; none of its own work is then pending or out. */
  lemma ReleasedWhenDone(s: State, task: Task)
    requires Inv(s) && task in s.inFlight && Find(s.blocks, task.text) < |s.blocks|
    ensures var b, t := s.blocks[Find(s.blocks, task.text)], Succeed(s, task);
            var released := Find(t.blocks, task.text) == |t.blocks|;
            (released <==> forall cell | 0 <= cell < b.size :: cell in b.done || cell == task.cell) &&
            (released ==> b.pending + Flight(t.inFlight, b.id) <= b.given)
  {
    var k, t := Find(s.blocks, task.text), Succeed(s, task);
    var b := s.blocks[k];
    assert BlockOk(s, k);
    FlightOwn(s.inFlight, task);
    hide Flight;
    assert task.cell in b.Cells();
    if b.done + {task.cell} == b.Cells() {
      forall cell | 0 <= cell < b.size ensures cell in b.done || cell == task.cell { assert cell in b.Cells(); }
    } else {
      assert t.blocks[k].id == task.text;
      assert exists cell :: cell in b.Cells() && cell !in b.done + {task.cell};
    }
  }

  /** While a task is out with the identifier it is not free: the late answer releases a text whose cell still waits. */
  lemma ReusedIdReleasesEarly()
    ensures var text := Block("t", true, {0}, 1, {}, {});
            var s := Create(Take(State([], {}), text));
            var reused := Take(Drop(s, "t"), text);
            Task("t", 0) in reused.inFlight && !Free(Drop(s, "t"), "t") && reused.blocks == [text] && Succeed(reused, Task("t", 0)).blocks == []
  {
    var text := Block("t", true, {0}, 1, {}, {});
    assert 0 in text.Cells();
    var first := Take(State([], {}), text);
    assert first.blocks == [text];
    assert Turn(first.blocks) == 0;
    var s := Create(first);
    assert s.inFlight == {Task("t", Min({0}))};
    assert |s.blocks| == 1 && s.blocks[0].id == "t";
    FlightOwn(s.inFlight, Task("t", 0));
    var reused := Take(Drop(s, "t"), text);
    assert reused.blocks == [text];
    assert text.done + {0} == text.Cells();
  }

  /** The identifier of a text that is taken out is free as soon as the last task with it has come back. */
  lemma IdComesFree(s: State, task: Task)
    requires Inv(s) && Find(s.blocks, task.text) < |s.blocks| && task in s.inFlight
    ensures var t := Drop(s, task.text);
            !Free(t, task.text) &&
            (Free(Succeed(t, task), task.text) <==> Flight(s.inFlight, task.text) == {task.cell}) &&
            (Free(Fail(t, task), task.text) <==> Flight(s.inFlight, task.text) == {task.cell})
  {
    FlightOwn(s.inFlight, task);
    DroppedIsGone(s, task.text);
    hide BlockOk;
  }

  //
  // What each operation does, text by text.
  //

  /** What an operation makes of one live text; None where it is no longer live. */
  ghost function Becomes(s: State, op: Op, b: Block): Option<Block> {
    match op
    case Submit(_) => Some(b)
    case Cancel(id) => if b.id == id then None else Some(b)
    case Suspend(id) => Some(if b.id == id then b.(ready := false) else b)
    case Rerun(id) => Some(if b.id == id then b.(ready := true) else b)
    case CreateTask =>
      Some(if Chosen(s).Some? && Chosen(s).value.text == b.id then b.(pending := b.pending - {Chosen(s).value.cell}) else b)
    case Success(task) =>
      if b.id != task.text then Some(b)
      else if forall cell | 0 <= cell < b.size :: cell in b.done || cell == task.cell then None
      else Some(b.(done := b.done + {task.cell}))
    case Failed(task) => Some(if b.id == task.text then b.(pending := b.pending + {task.cell}) else b)
  }

  /** Exactly the texts that were live and remain so, and one that is newly taken, are live. */
  ghost predicate LiveAfter(s: State, op: Op, c: Block) {
    (op.Submit? && c == op.text && op.text.done != op.text.Cells()) || exists b :: b in s.blocks && Becomes(s, op, b) == Some(c)
  }

  lemma OpChanges(s: State, op: Op)
    requires Inv(s) && Allowed(s, op)
    ensures forall c :: c in Apply(s, op).blocks <==> LiveAfter(s, op, c)
    ensures Apply(s, op).inFlight ==
              match op
              case CreateTask => if Chosen(s).Some? then s.inFlight + {Chosen(s).value} else s.inFlight
              case Success(task) => s.inFlight - {task}
              case Failed(task) => s.inFlight - {task}
              case _ => s.inFlight
  {
    hide BlockOk;
    match op
    case Submit(text) =>
    case Cancel(id) => hide Chosen, Flight; DropChanges(s, id);
    case Suspend(id) => hide Chosen, Flight; ReadyChanges(s, id, false);
    case Rerun(id) => hide Chosen, Flight; ReadyChanges(s, id, true);
    case CreateTask => CreateChanges(s);
    case Success(task) => hide Chosen, Flight; SuccessChanges(s, task);
    case Failed(task) => hide Chosen, Flight; FailChanges(s, task);
  }

  /** With distinct identifiers, the block found is the one with the identifier. */
  lemma FoundIs(s: State, id: TextId)
    requires DistinctIds(s.blocks)
    ensures var k := Find(s.blocks, id); forall b | b in s.blocks :: b.id == id <==> k < |s.blocks| && b == s.blocks[k]
  {
  }

  lemma SetAt(s: State, k: nat, b: Block)
    requires k < |s.blocks| && DistinctIds(s.blocks)
    ensures forall c :: c in s.blocks[k := b] <==> c == b || (c in s.blocks && c != s.blocks[k])
  {
    var t := s.blocks[k := b];
    assert t[k] == b;
    forall c | c in s.blocks && c != s.blocks[k] ensures c in t {
      var i :| 0 <= i < |s.blocks| && s.blocks[i] == c;
      assert t[i] == c;
    }
  }

  lemma WithoutAt(s: State, k: nat)
    requires k < |s.blocks| && DistinctIds(s.blocks)
    ensures forall c :: c in Without(s.blocks, k) <==> c in s.blocks && c != s.blocks[k]
  {
    var t := Without(s.blocks, k);
    forall c | c in s.blocks && c != s.blocks[k] ensures c in t {
      var i :| 0 <= i < |s.blocks| && s.blocks[i] == c;
      assert t[if i < k then i else i - 1] == c;
    }
  }

  lemma DropChanges(s: State, id: TextId)
    requires DistinctIds(s.blocks)
    ensures forall c :: c in Drop(s, id).blocks <==> LiveAfter(s, Op.Cancel(id), c)
  {
    var k := Find(s.blocks, id);
    FoundIs(s, id);
    hide Find, DistinctIds, LiveAfter;
    if k < |s.blocks| {
      OneGoes(s, Op.Cancel(id), Drop(s, id), k);
    } else {
      NoneChanges(s, Op.Cancel(id), Drop(s, id));
    }
  }

  /** One block is changed, and no other. */
  lemma OneChanges(s: State, op: Op, t: State, k: nat, b: Block)
    requires k < |s.blocks| && t.blocks == s.blocks[k := b] && DistinctIds(s.blocks) && !op.Submit?
    requires forall c | c in s.blocks :: Becomes(s, op, c) == Some(if c == s.blocks[k] then b else c)
    ensures forall c :: c in t.blocks <==> LiveAfter(s, op, c)
  {
    SetAt(s, k, b);
    hide DistinctIds, Becomes;
    forall c ensures c in t.blocks <==> LiveAfter(s, op, c) {
      if c in s.blocks && c != s.blocks[k] { assert Becomes(s, op, c) == Some(c); }
      if c == b { assert Becomes(s, op, s.blocks[k]) == Some(b); }
    }
  }

  lemma NoneChanges(s: State, op: Op, t: State)
    requires t.blocks == s.blocks && !op.Submit? && forall c | c in s.blocks :: Becomes(s, op, c) == Some(c)
    ensures forall c :: c in t.blocks <==> LiveAfter(s, op, c)
  {
    hide Becomes;
    forall c | c in s.blocks ensures LiveAfter(s, op, c) { assert Becomes(s, op, c) == Some(c); }
  }

  lemma ReadyChanges(s: State, id: TextId, ready: bool)
    requires DistinctIds(s.blocks)
    ensures forall c :: c in SetReady(s, id, ready).blocks <==> LiveAfter(s, if ready then Rerun(id) else Op.Suspend(id), c)
  {
    var k, op := Find(s.blocks, id), if ready then Rerun(id) else Op.Suspend(id);
    FoundIs(s, id);
    hide Find, DistinctIds, LiveAfter;
    if k < |s.blocks| {
      OneChanges(s, op, SetReady(s, id, ready), k, s.blocks[k].(ready := ready));
    } else {
      NoneChanges(s, op, SetReady(s, id, ready));
    }
  }

  lemma FailChanges(s: State, task: Task)
    requires DistinctIds(s.blocks)
    ensures forall c :: c in Fail(s, task).blocks <==> LiveAfter(s, Failed(task), c)
  {
    var k := Find(s.blocks, task.text);
    FoundIs(s, task.text);
    hide Find, DistinctIds, LiveAfter;
    if k < |s.blocks| {
      OneChanges(s, Failed(task), Fail(s, task), k, s.blocks[k].(pending := s.blocks[k].pending + {task.cell}));
    } else {
      NoneChanges(s, Failed(task), Fail(s, task));
    }
  }

  lemma OneGoes(s: State, op: Op, t: State, k: nat)
    requires k < |s.blocks| && t.blocks == Without(s.blocks, k) && DistinctIds(s.blocks) && !op.Submit?
    requires forall c | c in s.blocks :: Becomes(s, op, c) == if c == s.blocks[k] then None else Some(c)
    ensures forall c :: c in t.blocks <==> LiveAfter(s, op, c)
  {
    WithoutAt(s, k);
    hide DistinctIds, Becomes, Without;
    forall c ensures c in t.blocks <==> LiveAfter(s, op, c) {
      if c in s.blocks && c != s.blocks[k] { assert Becomes(s, op, c) == Some(c); }
    }
  }

  lemma SuccessChanges(s: State, task: Task)
    requires Inv(s) && task in s.inFlight
    ensures forall c :: c in Succeed(s, task).blocks <==> LiveAfter(s, Success(task), c)
  {
    var k := Find(s.blocks, task.text);
    FoundIs(s, task.text);
    if k < |s.blocks| { ReleasedIf(s, task); }
    assert DistinctIds(s.blocks);
    hide Find, Inv, DistinctIds, LiveAfter, Below;
    if k == |s.blocks| {
      NoneChanges(s, Success(task), Succeed(s, task));
    } else if |Succeed(s, task).blocks| < |s.blocks| {
      OneGoes(s, Success(task), Succeed(s, task), k);
    } else {
      OneChanges(s, Success(task), Succeed(s, task), k, s.blocks[k].(done := s.blocks[k].done + {task.cell}));
    }
  }

  lemma ReleasedIf(s: State, task: Task)
    requires Inv(s) && task in s.inFlight && Find(s.blocks, task.text) < |s.blocks|
    ensures var b := s.blocks[Find(s.blocks, task.text)];
            b.done + {task.cell} == b.Cells() <==> forall cell | 0 <= cell < b.size :: cell in b.done || cell == task.cell
  {
    var k := Find(s.blocks, task.text);
    var b := s.blocks[k];
    assert BlockOk(s, k);
    FlightOwn(s.inFlight, task);
    hide Flight;
    assert task.cell in b.Cells();
    if b.done + {task.cell} == b.Cells() {
      forall cell | 0 <= cell < b.size ensures cell in b.done || cell == task.cell { assert cell in b.Cells(); }
    }
  }

  lemma CreateChanges(s: State)
    requires DistinctIds(s.blocks)
    ensures forall c :: c in Create(s).blocks <==> LiveAfter(s, CreateTask, c)
  {
    var k, t := Turn(s.blocks), Create(s);
    if k < |s.blocks| {
      var b := s.blocks[k];
      var given := b.(pending := b.pending - {Min(b.pending)});
      RotatedAt(s, k, given);
      assert forall c | c in s.blocks :: c.id == b.id <==> c == b;
      hide DistinctIds, Turn, Min;
      forall c ensures c in t.blocks <==> LiveAfter(s, CreateTask, c) {
        if c in s.blocks && c != b { assert Becomes(s, CreateTask, c) == Some(c); }
        assert b in s.blocks && Becomes(s, CreateTask, b) == Some(given);
      }
    } else {
      forall c ensures c in t.blocks <==> LiveAfter(s, CreateTask, c) {
        if c in s.blocks { assert Becomes(s, CreateTask, c) == Some(c); }
      }
    }
  }

  lemma RotatedAt(s: State, k: nat, b: Block)
    requires k < |s.blocks| && DistinctIds(s.blocks)
    ensures forall c :: c in s.blocks[k + 1..] + s.blocks[..k] + [b] <==> c == b || (c in s.blocks && c != s.blocks[k])
  {
    var t := s.blocks[k + 1..] + s.blocks[..k] + [b];
    assert t[|t| - 1] == b;
    forall c | c in s.blocks && c != s.blocks[k] ensures c in t {
      var i :| 0 <= i < |s.blocks| && s.blocks[i] == c;
      assert if i < k then s.blocks[..k][i] == c else s.blocks[k + 1..][i - k - 1] == c;
    }
  }

  function Ids(blocks: seq<Block>): (r: seq<TextId>)
    ensures |r| == |blocks| && forall i | 0 <= i < |blocks| :: r[i] == blocks[i].id
  {
    if blocks == [] then [] else [blocks[0].id] + Ids(blocks[1..])
  }

  /** One is taken out, the others keep their order. */
  ghost predicate TakenOut(was: seq<TextId>, id: TextId, now: seq<TextId>) {
    exists k :: 0 <= k < |was| && was[k] == id && now == was[..k] + was[k + 1..]
  }

  /** One goes to the back, and all before it go there in front of it. */
  ghost predicate TurnedTo(was: seq<TextId>, id: TextId, now: seq<TextId>) {
    exists k :: 0 <= k < |was| && was[k] == id && now == was[k + 1..] + was[..k + 1]
  }

  /** How an operation changes the order of the texts: none but CreateTask lets one pass another. */
  lemma OpOrder(s: State, op: Op)
    ensures var was, now := Ids(s.blocks), Ids(Apply(s, op).blocks);
            match op
            case Submit(text) => now == was + if text.done == text.Cells() then [] else [text.id]
            case Cancel(id) => if id in was then TakenOut(was, id, now) else now == was
            case CreateTask => if Chosen(s).Some? then TurnedTo(was, Chosen(s).value.text, now) else now == was
            case Success(task) => now == was || TakenOut(was, task.text, now)
            case _ => now == was
  {
    hide Find, Chosen, Create, Drop, Succeed, TakenOut, TurnedTo;
    match op
    case Submit(text) =>
    case Cancel(id) => DropOrder(s, id);
    case CreateTask => CreateOrder(s);
    case Success(task) => SuccessOrder(s, task);
    case Suspend(_) =>
    case Rerun(_) =>
    case Failed(_) =>
  }

  lemma DropOrder(s: State, id: TextId)
    ensures var was, now := Ids(s.blocks), Ids(Drop(s, id).blocks);
            if id in was then TakenOut(was, id, now) else now == was
  {
    var was, now, k := Ids(s.blocks), Ids(Drop(s, id).blocks), Find(s.blocks, id);
    hide Find, Ids;
    if k < |s.blocks| {
      assert was[k] == id && now == was[..k] + was[k + 1..];
    } else {
      assert forall i | 0 <= i < |was| :: was[i] != id;
    }
  }

  lemma SuccessOrder(s: State, task: Task)
    ensures var was, now := Ids(s.blocks), Ids(Succeed(s, task).blocks); now == was || TakenOut(was, task.text, now)
  {
    var was, now, k := Ids(s.blocks), Ids(Succeed(s, task).blocks), Find(s.blocks, task.text);
    hide Find, Ids, Below;
    if |now| < |was| {
      assert was[k] == task.text && now == was[..k] + was[k + 1..];
    } else {
      assert now == was;
    }
  }

  lemma CreateOrder(s: State)
    ensures var was, now := Ids(s.blocks), Ids(Create(s).blocks);
            if Chosen(s).Some? then TurnedTo(was, Chosen(s).value.text, now) else now == was
  {
    var was, now, k := Ids(s.blocks), Ids(Create(s).blocks), Turn(s.blocks);
    hide Turn, Ids, Min;
    if k < |s.blocks| { assert was[k] == Chosen(s).value.text && now == was[k + 1..] + was[..k + 1]; }
  }

  /** No live text of that name is ready. */
  predicate Asleep(s: State, id: TextId) {
    forall i | 0 <= i < |s.blocks| && s.blocks[i].id == id :: !s.blocks[i].ready
  }

  /** What makes a text ready: Rerun, or a new text of that name. */
  predicate Wakes(op: Op, id: TextId) {
    op == Rerun(id) || (op.Submit? && op.text.id == id && op.text.done != op.text.Cells())
  }

  lemma StaysAsleep(s: State, op: Op, id: TextId)
    requires Inv(s) && Allowed(s, op) && !Wakes(op, id) && (Asleep(s, id) || op == Op.Suspend(id))
    ensures Asleep(Apply(s, op), id)
  {
    OpChanges(s, op);
    var t := Apply(s, op);
    hide Apply, Inv, Allowed, Chosen;
    forall i | 0 <= i < |t.blocks| && t.blocks[i].id == id ensures !t.blocks[i].ready {
      assert t.blocks[i] in t.blocks && LiveAfter(s, op, t.blocks[i]);
    }
  }

  lemma AsleepIsNotServed(s: State, op: Op, id: TextId)
    requires Asleep(s, id)
    ensures !Serves(s, op, id)
  {
    hide Min;
  }

  /** Some operation of a run gives out a task of that text. */
  ghost predicate ServedIn(s: State, ops: seq<Op>, id: TextId)
    decreases |ops|
  {
    ops != [] && (Serves(s, ops[0], id) || ServedIn(Apply(s, ops[0]), ops[1..], id))
  }

  lemma {:induction false} AsleepThroughout(s: State, ops: seq<Op>, id: TextId, t: State)
    requires Inv(s) && Run(s, ops, t) && Asleep(s, id) && forall i | 0 <= i < |ops| :: !Wakes(ops[i], id)
    ensures !ServedIn(s, ops, id)
    decreases |ops|
  {
    hide Inv, Apply, Allowed, Asleep, Wakes, Serves;
    if ops != [] {
      AsleepIsNotServed(s, ops[0], id);
      OpKeeps(s, ops[0]);
      StaysAsleep(s, ops[0], id);
      assert forall i | 0 <= i < |ops[1..]| :: ops[1..][i] == ops[i + 1];
      AsleepThroughout(Apply(s, ops[0]), ops[1..], id, t);
    }
  }

  /** After Suspend no run gives out a task of the text, until it is run again or its name is used for a new one. */
  lemma SuspendStops(s: State, id: TextId, ops: seq<Op>, t: State)
    requires Inv(s) && Run(Apply(s, Op.Suspend(id)), ops, t) && forall i | 0 <= i < |ops| :: !Wakes(ops[i], id)
    ensures !ServedIn(Apply(s, Op.Suspend(id)), ops, id)
  {
    OpKeeps(s, Op.Suspend(id));
    StaysAsleep(s, Op.Suspend(id), id);
    hide *;
    AsleepThroughout(Apply(s, Op.Suspend(id)), ops, id, t);
  }

  /** After Rerun a live text that has work waits for its turn. */
  lemma RerunWaits(s: State, id: TextId)
    requires Inv(s) && Find(s.blocks, id) < |s.blocks|
    ensures Waits(Apply(s, Rerun(id)), id) <==> s.blocks[Find(s.blocks, id)].pending != {}
  {
    var k, t := Find(s.blocks, id), Apply(s, Rerun(id));
    assert t.blocks[k].id == id;
    FindIs(t.blocks, id, k);
    hide BlockOk;
  }

  //
  // Fairness.
  //

  /** There is no task exactly when no ready block has work, and then nothing moves. */
  lemma NoTaskNoWork(s: State)
    ensures Chosen(s) == None <==> forall i | 0 <= i < |s.blocks| :: !(s.blocks[i].ready && s.blocks[i].pending != {})
    ensures Chosen(s) == None ==> Create(s) == s
  {
    if Chosen(s) == None {
      forall i | 0 <= i < |s.blocks| ensures !(s.blocks[i].ready && s.blocks[i].pending != {}) { assert !s.blocks[i].Eligible(); }
    }
  }

  /** The text is live, ready and has work. */
  predicate Waits(s: State, id: TextId) {
    var k := Find(s.blocks, id);
    k < |s.blocks| && s.blocks[k].Eligible()
  }

  ghost predicate Serves(s: State, op: Op, id: TextId) {
    op.CreateTask? && Chosen(s).Some? && Chosen(s).value.text == id
  }

  lemma FindIs(blocks: seq<Block>, id: TextId, k: nat)
    requires k < |blocks| && blocks[k].id == id && forall i | 0 <= i < k :: blocks[i].id != id
    ensures Find(blocks, id) == k
  {
  }

  lemma CreateMovesForward(s: State, id: TextId)
    requires Waits(s, id) && (Chosen(s).Some? ==> Chosen(s).value.text != id)
    ensures Find(Create(s).blocks, id) + 1 <= Find(s.blocks, id)
  {
    var p, k, t := Find(s.blocks, id), Turn(s.blocks), Create(s);
    assert k <= p;
    assert t.blocks[p - k - 1].id == id;
  }

  lemma DropMovesForward(s: State, id: TextId, gone: nat)
    requires Inv(s) && Waits(s, id) && gone < |s.blocks|
    requires Find(Without(s.blocks, gone), id) < |s.blocks| - 1
    ensures Find(Without(s.blocks, gone), id) <= Find(s.blocks, id)
  {
    hide BlockOk;
    var p, rest := Find(s.blocks, id), Without(s.blocks, gone);
    if gone == p {
      DroppedIsGone(s, id);
    } else {
      assert rest[if gone < p then p - 1 else p].id == id;
    }
  }

  lemma ChangeStays(s: State, id: TextId, k: nat, b: Block)
    requires Waits(s, id) && k < |s.blocks| && b.id == s.blocks[k].id
    ensures Find(s.blocks[k := b], id) <= Find(s.blocks, id)
  {
    assert s.blocks[k := b][Find(s.blocks, id)].id == id;
  }

  /** No operation puts a waiting text back, and a task given to another moves it forward. */
  lemma OpMovesForward(s: State, op: Op, id: TextId)
    requires Inv(s) && Waits(s, id) && Waits(Apply(s, op), id) && !Serves(s, op, id)
    ensures Find(Apply(s, op).blocks, id) + (if op.CreateTask? then 1 else 0) <= Find(s.blocks, id)
  {
    hide Inv, Find, Create, Chosen, Waits, Succeed, Fail, SetReady, Drop, Take;
    match op
    case CreateTask => CreateMovesForward(s, id);
    case Submit(text) => TakeStays(s, id, text);
    case Cancel(gone) => DropStays(s, id, gone);
    case Suspend(other) => SetReadyStays(s, id, other, false);
    case Rerun(other) => SetReadyStays(s, id, other, true);
    case Success(task) => SucceedStays(s, id, task);
    case Failed(task) => FailStays(s, id, task);
  }

  lemma TakeStays(s: State, id: TextId, text: Block)
    requires Waits(s, id)
    ensures Find(Take(s, text).blocks, id) <= Find(s.blocks, id)
  {
    assert (s.blocks + [text])[Find(s.blocks, id)].id == id;
  }

  lemma DropStays(s: State, id: TextId, gone: TextId)
    requires Inv(s) && Waits(s, id) && Waits(Drop(s, gone), id)
    ensures Find(Drop(s, gone).blocks, id) <= Find(s.blocks, id)
  {
    hide Inv, Find;
    if Find(s.blocks, gone) < |s.blocks| { DropMovesForward(s, id, Find(s.blocks, gone)); }
  }

  lemma SetReadyStays(s: State, id: TextId, other: TextId, ready: bool)
    requires Waits(s, id)
    ensures Find(SetReady(s, other, ready).blocks, id) <= Find(s.blocks, id)
  {
    var k := Find(s.blocks, other);
    if k < |s.blocks| { ChangeStays(s, id, k, s.blocks[k].(ready := ready)); }
  }

  lemma FailStays(s: State, id: TextId, task: Task)
    requires Waits(s, id)
    ensures Find(Fail(s, task).blocks, id) <= Find(s.blocks, id)
  {
    var k := Find(s.blocks, task.text);
    if k < |s.blocks| { ChangeStays(s, id, k, s.blocks[k].(pending := s.blocks[k].pending + {task.cell})); }
  }

  lemma SucceedStays(s: State, id: TextId, task: Task)
    requires Inv(s) && Waits(s, id) && Waits(Succeed(s, task), id)
    ensures Find(Succeed(s, task).blocks, id) <= Find(s.blocks, id)
  {
    hide Inv, BlockOk;
    var k := Find(s.blocks, task.text);
    if k < |s.blocks| {
      if |Succeed(s, task).blocks| < |s.blocks| {
        DropMovesForward(s, id, k);
      } else {
        ChangeStays(s, id, k, s.blocks[k].(done := s.blocks[k].done + {task.cell}));
      }
    }
  }

  /** With distinct identifiers, a block that is taken out leaves none of its name behind. */
  lemma DroppedIsGone(s: State, id: TextId)
    requires Inv(s) && Find(s.blocks, id) < |s.blocks|
    ensures var rest := Without(s.blocks, Find(s.blocks, id)); Find(rest, id) == |rest|
  {
    hide BlockOk;
  }

  /** The text waits all along and none of the tasks given out is its own. */
  ghost predicate Neglected(s: State, ops: seq<Op>, id: TextId)
    decreases |ops|
  {
    Waits(s, id) && (ops != [] ==> Allowed(s, ops[0]) && !Serves(s, ops[0], id) && Neglected(Apply(s, ops[0]), ops[1..], id))
  }

  function Creates(ops: seq<Op>): nat {
    if ops == [] then 0 else (if ops[0].CreateTask? then 1 else 0) + Creates(ops[1..])
  }

  /** A text can be passed over only as often as there are blocks before it, whatever else goes on. */
  lemma {:induction false} Fairness(s: State, ops: seq<Op>, id: TextId)
    requires Inv(s) && Neglected(s, ops, id)
    ensures Creates(ops) <= Find(s.blocks, id)
    decreases |ops|
  {
    hide Inv, Apply, Allowed, Waits, Serves;
    if ops != [] {
      OpKeeps(s, ops[0]);
      OpMovesForward(s, ops[0], id);
      Fairness(Apply(s, ops[0]), ops[1..], id);
    }
  }
}
