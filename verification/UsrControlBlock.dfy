/**
  The objects of UsrControlBlock: a list of shared text blocks, each with its text and the set of its
  cells not yet given out. Every method is proved to make the step of Schedule that it is meant for.
 */
module UsrControl {
  import opened Schedule

  datatype Cell = Cell(isTrans: bool, tgt: string)

  datatype TextState = Ready | Suspended

  datatype Code = Succeeded | NoNeedTrans | NotFindText

  function DoneIn(cells: seq<Cell>): set<nat> {
    set i | 0 <= i < |cells| && cells[i].isTrans
  }

  /** The first result of a cell stays. */
  function Recorded(cells: seq<Cell>, i: nat, tgt: string): seq<Cell> {
    if i < |cells| && !cells[i].isTrans then cells[i := Cell(true, tgt)] else cells
  }

  lemma DoneSet(cells: seq<Cell>, i: nat, tgt: string)
    requires i < |cells|
    ensures DoneIn(cells[i := Cell(true, tgt)]) == DoneIn(cells) + {i}
  {
  }

  lemma {:induction false} BelowSize(n: nat)
    ensures |Below(n)| == n
  {
    if n > 0 { BelowSize(n - 1); }
  }

  /** All cells are done when as many are done as there are. */
  lemma AllDone(cells: seq<Cell>)
    ensures DoneIn(cells) <= Below(|cells|)
    ensures |DoneIn(cells)| <= |cells|
    ensures DoneIn(cells) == Below(|cells|) <==> |DoneIn(cells)| == |cells|
  {
    var rest := Below(|cells|) - DoneIn(cells);
    BelowSize(|cells|);
    assert Below(|cells|) == DoneIn(cells) + rest;
  }

  class TransText {
    const id: TextId
    var cells: seq<Cell>
    var transCnt: nat

    /** The count is that of the flags. */
    ghost predicate Counted()
      reads this
    {
      transCnt == |DoneIn(cells)|
    }

    predicate IsAllTrans()
      reads this
    {
      transCnt >= |cells|
    }

    method SetTransResult(cellId: nat, tgt: string) returns (isNew: bool)
      requires Counted() && cellId < |cells|
      modifies this
      ensures Counted()
      ensures isNew <==> !old(cells)[cellId].isTrans
      ensures cells == if isNew then old(cells)[cellId := Cell(true, tgt)] else old(cells)
      ensures cells == Recorded(old(cells), cellId, tgt)
      ensures DoneIn(cells) == old(DoneIn(cells)) + {cellId}
    {
      DoneSet(cells, cellId, tgt);
      if cells[cellId].isTrans {
        return false;
      }
      cells := cells[cellId := Cell(true, tgt)];
      transCnt := transCnt + 1;
      return true;
    }
  }

  class TextBlock {
    const text: TransText
    var textState: TextState
    var untrans: set<nat>
    /** The cells done before the text was submitted. */
    ghost const given: set<nat>

    constructor (text: TransText)
      ensures this.text == text && textState == Ready && untrans == Below(|text.cells|) && given == DoneIn(text.cells)
    {
      this.text := text;
      textState := Ready;
      untrans := {};
      given := DoneIn(text.cells);
      new;
      var i := 0;
      while i < |text.cells|
        invariant i <= |text.cells| && textState == Ready && untrans == Below(i)
      {
        untrans := untrans + {i};
        i := i + 1;
      }
    }

    ghost function View(): Block
      reads this, text
    {
      Block(text.id, textState == Ready, untrans, |text.cells|, DoneIn(text.cells), given)
    }

    /** Gives out the least cell that has not been given out, if any. */
    method GetUnTransSrc() returns (cell: Option<nat>)
      modifies this
      ensures textState == old(textState)
      ensures old(untrans) == {} ==> cell == None && untrans == {}
      ensures old(untrans) != {} ==> cell == Some(Min(old(untrans))) && untrans == old(untrans) - {Min(old(untrans))}
    {
      if |untrans| == 0 {
        return None;
      }
      MinExists(untrans);
      var idx :| idx in untrans && forall x | x in untrans :: idx <= x;
      MinIs(untrans, idx);
      untrans := untrans - {idx};
      return Some(idx);
    }

    method BackUnTransSrc(idx: nat)
      modifies this
      ensures textState == old(textState) && untrans == old(untrans) + {idx}
    {
      untrans := untrans + {idx};
    }
  }

  lemma MinIs(s: set<nat>, m: nat)
    requires IsMin(s, m)
    ensures s != {} && Min(s) == m
  {
    var other := Min(s);
    assert other <= m && m <= other;
  }

  function Texts(blocks: seq<TextBlock>): set<TransText> {
    set b | b in blocks :: b.text
  }

  /** A text as it is submitted. */
  ghost function NewBlock(text: TransText): Block
    reads text
  {
    Block(text.id, true, Below(|text.cells|), |text.cells|, DoneIn(text.cells), DoneIn(text.cells))
  }

  /** Block k of the list is what block k of the state says. */
  ghost predicate Shows(blocks: seq<TextBlock>, v: seq<Block>, k: nat)
    requires k < |blocks| == |v|
    reads blocks, Texts(blocks)
  {
    && blocks[k] in blocks && blocks[k].text in Texts(blocks)
    && blocks[k].View() == v[k] && blocks[k].text.Counted()
  }

  /** The list of blocks is the one that v says. */
  ghost predicate AllShow(blocks: seq<TextBlock>, v: seq<Block>)
    reads blocks, Texts(blocks)
  {
    |blocks| == |v| && forall j: nat | j < |blocks| :: Shows(blocks, v, j)
  }

  /** Block k and its text are not those of another place in the list. */
  lemma Different(blocks: seq<TextBlock>, v: seq<Block>, k: nat)
    requires k < |blocks| && DistinctIds(v) && AllShow(blocks, v)
    ensures forall j | 0 <= j < |blocks| && j != k :: blocks[j] != blocks[k] && blocks[j].text != blocks[k].text
  {
    forall j | 0 <= j < |blocks| && j != k ensures blocks[j].text != blocks[k].text {
      assert Shows(blocks, v, j) && Shows(blocks, v, k);
      assert v[j].id != v[k].id;
    }
  }

  function Moved<T>(s: seq<T>, k: nat): seq<T>
    requires k < |s|
  {
    s[k + 1..] + s[..k] + [s[k]]
  }

  lemma MovedShows(blocks: seq<TextBlock>, v: seq<Block>, k: nat)
    requires k < |blocks| && AllShow(blocks, v)
    ensures |v| == |blocks| && AllShow(Moved(blocks, k), Moved(v, k))
  {
    var n := |blocks| - 1;
    forall j: nat | j < |blocks| ensures Shows(Moved(blocks, k), Moved(v, k), j) {
      assert Shows(blocks, v, if j == n then k else if j < n - k then k + 1 + j else j - (n - k));
    }
  }

  lemma ErasedShows(blocks: seq<TextBlock>, v: seq<Block>, k: nat)
    requires k < |blocks| && AllShow(blocks, v)
    ensures |v| == |blocks| && AllShow(blocks[..k] + blocks[k + 1..], v[..k] + v[k + 1..])
  {
    var rest, others := blocks[..k] + blocks[k + 1..], v[..k] + v[k + 1..];
    forall j: nat | j < |rest| ensures Shows(rest, others, j) {
      assert Shows(blocks, v, if j < k then j else j + 1);
    }
  }

  /** Popping the front and pushing it at the back turns the list on by one. */
  lemma TurnedOn<T>(was: seq<T>, cnt: nat)
    requires cnt < |was|
    ensures var now := was[cnt..] + was[..cnt]; now[0] == was[cnt] && now[1..] + [now[0]] == was[cnt + 1..] + was[..cnt + 1] == Moved(was, cnt)
  {
  }

  lemma ShownText(blocks: seq<TextBlock>, v: seq<Block>, k: nat)
    requires k < |blocks| && AllShow(blocks, v)
    ensures |blocks| == |v| && blocks[k].text in Texts(blocks) && blocks[k].text.id == v[k].id
  {
    assert Shows(blocks, v, k);
  }

  lemma CreateNothing(s: State)
    requires forall i | 0 <= i < |s.blocks| :: !s.blocks[i].Eligible()
    ensures Create(s) == s && Chosen(s) == None
  {
  }

  lemma SucceedNowhere(s: State, task: Task)
    requires Find(s.blocks, task.text) == |s.blocks|
    ensures Succeed(s, task).blocks == s.blocks
  {
  }

  lemma SucceedAt(s: State, task: Task)
    requires Find(s.blocks, task.text) < |s.blocks|
    ensures var k := Find(s.blocks, task.text);
            var b := s.blocks[k].(done := s.blocks[k].done + {task.cell});
            var shown := s.blocks[k := b];
            b.id == task.text && Succeed(s, task).blocks == if b.done == b.Cells() then shown[..k] + shown[k + 1..] else shown
  {
  }

  lemma CreateAt(s: State, k: nat)
    requires k < |s.blocks| && s.blocks[k].Eligible() && forall i | 0 <= i < k :: !s.blocks[i].Eligible()
    ensures var b := s.blocks[k];
            var cell := Min(b.pending);
            Chosen(s) == Some(Task(b.id, cell)) && Create(s).blocks == Moved(s.blocks[k := b.(pending := b.pending - {cell})], k)
  {
    assert Turn(s.blocks) == k;
  }

  class UsrControlBlock {
    var blocks: seq<TextBlock>
    /** What the list shows, and the tasks that are out. */
    ghost var state: State

    ghost predicate Valid()
      reads this, blocks, Texts(blocks)
    {
      AllShow(blocks, state.blocks) && Inv(state)
    }

    constructor ()
      ensures Valid() && state == State([], {})
    {
      blocks, state := [], State([], {});
    }

    method FindTextBlock(id: TextId) returns (k: nat)
      requires Valid()
      ensures k == Find(state.blocks, id)
    {
      hide Inv;
      k := 0;
      while k < |blocks|
        invariant k <= |blocks|
        invariant forall i | 0 <= i < k :: state.blocks[i].id != id
      {
        assert Shows(blocks, state.blocks, k);
        if blocks[k].text.id == id {
          FindIs(state.blocks, id, k);
          return;
        }
        k := k + 1;
      }
    }

    method Submit(text: TransText) returns (code: Code)
      requires Valid()
      requires text.IsAllTrans() || (text.Counted() && Free(state, text.id))
      modifies this
      ensures Valid()
      ensures code == if text.IsAllTrans() then NoNeedTrans else Succeeded
      ensures code == NoNeedTrans ==> state == old(state)
      ensures code == Succeeded ==> state == Apply(old(state), Op.Submit(NewBlock(text))) && |state.blocks| == old(|state.blocks|) + 1
    {
      if text.IsAllTrans() {
        return NoNeedTrans;
      }
      AllDone(text.cells);
      OpKeeps(state, Op.Submit(NewBlock(text)));
      hide Inv, DoneIn, Below;
      label before:
      var block := new TextBlock(text);
      assert forall k: nat | k < |blocks| :: old@before(Shows(blocks, state.blocks, k));
      blocks := blocks + [block];
      state := Apply(state, Op.Submit(NewBlock(text)));
      forall k: nat | k < |blocks| ensures Shows(blocks, state.blocks, k) {
        assert k < |blocks| - 1 ==> old@before(Shows(blocks, state.blocks, k));
      }
      return Succeeded;
    }

    /** Takes block k out of the list. */
    method Erase(k: nat)
      requires Valid() && k < |blocks| && Inv(state.(blocks := Without(state.blocks, k)))
      modifies this
      ensures Valid() && state == old(state).(blocks := Without(old(state).blocks, k))
      ensures blocks == old(blocks)[..k] + old(blocks)[k + 1..]
    {
      hide Inv, DoneIn;
      ErasedShows(blocks, state.blocks, k);
      blocks := blocks[..k] + blocks[k + 1..];
      state := state.(blocks := Without(state.blocks, k));
    }

    method Cancel(id: TextId) returns (code: Code, text: TransText?)
      requires Valid()
      modifies this
      ensures Valid() && state == Apply(old(state), Op.Cancel(id))
      ensures code == if old(Find(state.blocks, id) < |state.blocks|) then Succeeded else NotFindText
      ensures if code == Succeeded then text != null && text.id == id && text in old(Texts(blocks)) else text == null
    {
      OpKeeps(state, Op.Cancel(id));
      hide Inv;
      var k := FindTextBlock(id);
      if k != |blocks| {
        assert Shows(blocks, state.blocks, k);
        text := blocks[k].text;
        Erase(k);
        return Succeeded, text;
      }
      return NotFindText, null;
    }
  
    /** Hands the text over: it is taken out of the list as by Cancel. */
    method GetTransText(id: TextId) returns (text: TransText?)
      requires Valid()
      modifies this
      ensures Valid() && state == Apply(old(state), Op.Cancel(id))
      ensures text != null <==> old(Find(state.blocks, id) < |state.blocks|)
      ensures text != null ==> text.id == id && text in old(Texts(blocks))
    {
      OpKeeps(state, Op.Cancel(id));
      hide Inv;
      var k := FindTextBlock(id);
      if k != |blocks| {
        assert Shows(blocks, state.blocks, k);
        text := blocks[k].text;
        Erase(k);
        return text;
      }
      return null;
    }

    method SetState(id: TextId, textState: TextState) returns (code: Code)
      requires Valid()
      modifies this, blocks
      ensures Valid() && state == SetReady(old(state), id, textState == Ready)
      ensures code == if old(Find(state.blocks, id) < |state.blocks|) then Succeeded else NotFindText
    {
      SetReadyKeeps(state, id, textState == Ready);
      var k := FindTextBlock(id);
      if k != |blocks| {
        Different(blocks, state.blocks, k);
        hide Inv, DoneIn;
        label before:
        blocks[k].textState := textState;
        state := SetReady(state, id, textState == Ready);
        forall j: nat | j < |blocks| ensures Shows(blocks, state.blocks, j) { assert old@before(Shows(blocks, state.blocks, j)); }
        return Succeeded;
      }
      return NotFindText;
    }

    method Suspend(id: TextId) returns (code: Code)
      requires Valid()
      modifies this, blocks
      ensures Valid() && state == Apply(old(state), Op.Suspend(id)) && Asleep(state, id)
      ensures code == if old(Find(state.blocks, id) < |state.blocks|) then Succeeded else NotFindText
    {
      StaysAsleep(state, Op.Suspend(id), id);
      hide Inv, Asleep;
      code := SetState(id, Suspended);
    }

    method Rerun(id: TextId) returns (code: Code)
      requires Valid()
      modifies this, blocks
      ensures Valid() && state == Apply(old(state), Op.Rerun(id))
      ensures code == if old(Find(state.blocks, id) < |state.blocks|) then Succeeded else NotFindText
      ensures var k := old(Find(state.blocks, id)); k < |old(state.blocks)| ==> (Waits(state, id) <==> old(state.blocks)[k].pending != {})
    {
      if Find(state.blocks, id) < |state.blocks| { RerunWaits(state, id); }
      hide Inv, Find, Waits;
      code := SetState(id, Ready);
    }

    method CreateTask() returns (task: Option<Task>)
      requires Valid()
      modifies this, blocks
      ensures Valid() && state == Create(old(state)) && task == Chosen(old(state))
    {
      OpKeeps(state, Op.CreateTask);
      ghost var was, v := blocks, state.blocks;
      assert DistinctIds(v) && Inv(Create(state)) && AllShow(was, v) && |was| == |v|;
      hide Inv, DoneIn, DistinctIds, Shows, AllShow, Below, Create, Chosen, Turn;
      var blockCnt := |blocks|;
      var cnt := 0;
      while cnt < blockCnt
        invariant cnt <= blockCnt == |was| == |v| && state == old(state)
        invariant blocks == was[cnt..] + was[..cnt]
        invariant AllShow(was, v)
        invariant forall k | 0 <= k < cnt :: !v[k].Eligible()
      {
        ghost var here := cnt;
        TurnedOn(was, here);
        cnt := cnt + 1;
        var block := blocks[0];
        blocks := blocks[1..] + [block];
        if v[here].Eligible() {
          CreateAt(state, here);
          state := Create(state);
        }
        var cell := Offer(block, was, v, here);
        if cell != None {
          MovedShows(was, v[here := block.View()], here);
          assert state.blocks == Moved(v[here := block.View()], here);
          return Some(Task(block.text.id, cell.value));
        }
        assert v[here := v[here]] == v;
      }
      assert was[blockCnt..] + was[..blockCnt] == was;
      CreateNothing(state);
      return None;
    }

    /** What CreateTask does with the block it has come to. */
    static method Offer(block: TextBlock, ghost was: seq<TextBlock>, ghost v: seq<Block>, ghost here: nat) returns (cell: Option<nat>)
      requires here < |was| && was[here] == block && DistinctIds(v) && AllShow(was, v)
      modifies block
      ensures AllShow(was, v[here := block.View()])
      ensures cell == if v[here].Eligible() then Some(Min(v[here].pending)) else None
      ensures block.View() == if cell == None then v[here] else v[here].(pending := v[here].pending - {cell.value})
    {
      hide DoneIn;
      assert Shows(was, v, here);
      Different(was, v, here);
      hide DistinctIds;
      cell := None;
      label before:
      if block.textState == Ready {
        cell := block.GetUnTransSrc();
      }
      ghost var after := v[here := block.View()];
      forall k: nat | k < |was| ensures Shows(was, after, k) { assert old@before(Shows(was, v, k)); }
    }

    method Failed(task: Task)
      requires Valid() && task in state.inFlight
      modifies this, blocks
      ensures Valid() && state == Fail(old(state), task)
    {
      FailKeeps(state, task);
      var k := FindTextBlock(task.text);
      if k == |blocks| {
        state := Fail(state, task);
        forall j: nat | j < |blocks| ensures Shows(blocks, state.blocks, j) { assert old(Shows(blocks, state.blocks, j)); }
        return;
      }
      Different(blocks, state.blocks, k);
      hide Inv, DoneIn;
      label before:
      blocks[k].BackUnTransSrc(task.cell);
      state := Fail(state, task);
      forall j: nat | j < |blocks| ensures Shows(blocks, state.blocks, j) { assert old@before(Shows(blocks, state.blocks, j)); }
    }
  
    /** SetTransResult of the block, and what the list shows then. */
    static method Record(block: TextBlock, cell: nat, tgt: string, ghost blocks: seq<TextBlock>, ghost v: seq<Block>, ghost k: nat)
      returns (ghost shown: seq<Block>)
      requires k < |blocks| && blocks[k] == block && DistinctIds(v) && AllShow(blocks, v) && cell < v[k].size
      modifies block.text
      ensures shown == v[k := v[k].(done := v[k].done + {cell})]
      ensures AllShow(blocks, shown)
      ensures block.text.IsAllTrans() <==> shown[k].done == shown[k].Cells()
      ensures block.text.cells == Recorded(old(block.text.cells), cell, tgt)
    {
      hide DoneIn;
      assert Shows(blocks, v, k);
      Different(blocks, v, k);
      hide DistinctIds;
      label before:
      var isNew := block.text.SetTransResult(cell, tgt);
      AllDone(block.text.cells);
      shown := v[k := block.View()];
      forall j: nat | j < |blocks| ensures Shows(blocks, shown, j) { assert old@before(Shows(blocks, v, j)); }
    }

    /** Records a result, and hands the text back when it was the last one. */
    method Success(task: Task, tgt: string) returns (text: TransText?)
      requires Valid() && task in state.inFlight
      modifies this, Texts(blocks)
      ensures Valid() && state == Succeed(old(state), task)
      ensures text == null <==> |state.blocks| == old(|state.blocks|)
      ensures text != null ==> text.id == task.text && text.IsAllTrans() && text in old(Texts(blocks))
      ensures var k := old(Find(state.blocks, task.text));
              forall x | x in old(Texts(blocks)) ::
                x.cells == if k < |old(blocks)| && x == old(blocks)[k].text then Recorded(old(x.cells), task.cell, tgt) else old(x.cells)
    {
      SucceedKeeps(state, task);
      var k := FindTextBlock(task.text);
      assert |state.blocks| == |blocks| && AllShow(blocks, state.blocks);
      hide Inv, DoneIn, DistinctIds, Shows, AllShow, Below, Succeed, Find, Recorded;
      if k == |blocks| {
        SucceedNowhere(state, task);
        state := Succeed(state, task);
        return null;
      }
      CellInText(state, k, task);
      text := RecordAt(k, task, tgt);
    }

    /** What Success does with the block it has found. */
    method RecordAt(k: nat, task: Task, tgt: string) returns (text: TransText?)
      requires k < |blocks| == |state.blocks| && k == Find(state.blocks, task.text) && task.cell < state.blocks[k].size
      requires Valid() && Inv(Succeed(state, task))
      modifies this, blocks[k].text
      ensures Valid() && state == Succeed(old(state), task)
      ensures text == null <==> |state.blocks| == old(|state.blocks|)
      ensures text != null ==> text.id == task.text && text.IsAllTrans() && text == old(blocks)[k].text
      ensures old(blocks)[k].text.cells == Recorded(old(blocks[k].text.cells), task.cell, tgt)
    {
      ghost var v := state.blocks;
      assert AllShow(blocks, v) && DistinctIds(v);
      hide Inv, DoneIn, DistinctIds, Shows, AllShow, Below, Succeed, Find, Recorded;
      SucceedAt(state, task);
      var block := blocks[k];
      ShownText(blocks, v, k);
      text := block.text;
      state := Succeed(state, task);
      ghost var shown := Record(block, task.cell, tgt, blocks, v, k);
      if text.IsAllTrans() {
        ErasedShows(blocks, shown, k);
        blocks := blocks[..k] + blocks[k + 1..];
        return text;
      } else {
        return null;
      }
    }
  }

  /** The cell of a task that is out is one of its text. */
  lemma CellInText(s: State, k: nat, task: Task)
    requires Inv(s) && k < |s.blocks| && s.blocks[k].id == task.text && task in s.inFlight
    ensures task.cell < s.blocks[k].size
  {
    assert BlockOk(s, k);
    FlightOwn(s.inFlight, task);
    hide Flight;
    assert task.cell in s.blocks[k].Cells();
  }
}
