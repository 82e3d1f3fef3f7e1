/**
  The Korean double-array trie (ArrayTrie.h, ArrayTrie.cpp). The two files are modelled by a sequence
  of cells and a sequence of bytes; the cell count of the header is the number of cells.

  A `char *` into a key is an offset into its word (the key and its terminating zero): the byte it
  points at is w[po], and the null pointer, which the source passes once the terminator is behind, is
  the offset |w|.
 */
module DoubleArray {
  import opened TrieTree
  import opened CellChain
  import opened TailFile
  import opened Relocation
  import opened WordOrder

  datatype Tail = Tail(tail: seq<int>, data: int)

  class ArrayTrie {
    var firEmpty: int
    var count: int
    var cells: seq<Elem>
    var bytes: seq<int>

    var words: seq<seq<int>> // m_words up to m_words_index

    ghost var reserved: set<int>
    ghost var path: map<int, Word>
    ghost var recs: map<int, Record>
    ghost var leaf: map<Word, int>
    ghost var contents: map<seq<int>, int>

    ghost function V(): View
      reads this
    {
      View(Occupied(cells), path, recs, leaf)
    }

    /** The allocator's part of the invariant. */
    ghost predicate Store()
      reads `firEmpty, `count, `cells, `reserved
    {
      && count == |cells|
      && Chain(cells, firEmpty, reserved)
      && cells[0].base == 0 && cells[0].check < 0
      && forall z | z in reserved :: FIRST_FREE <= z < |cells| && cells[z].check < 0
    }

    /** The whole invariant, but for the inner node `hollow`, which may have no children. */
    ghost predicate ValidExcept(hollow: int)
      reads this
    {
      Store() && reserved == {} && TreeExcept(V(), |cells|, hollow) && Stored(bytes, recs) && Means(V(), contents)
    }

    ghost predicate Valid()
      reads this
    {
      ValidExcept(0)
    }

    /** Where in the tail file the data of a stored word is. */
    ghost function DataAt(w: Word): int
      requires Words(V()) && w in leaf
      reads this
    {
      assert WordOk(V(), w);
      -V().occ[leaf[w]].base + |recs[-V().occ[leaf[w]].base].ext| + 1
    }

    /** A new trie: ten blocks of SETSIZE free cells, and a tail file of sixteen bytes. */
    constructor ()
      ensures Valid() && contents == map[]
    {
      firEmpty := FIRST_FREE;
      count := 10 * SETSIZE;
      cells := FreshCells(0, 10 * SETSIZE);
      bytes := seq(HEADER, i => 0);
      words := [];
      reserved, path, recs, leaf, contents := {}, map[0 := []], map[], map[], map[];
      new;
      InitialChain(10 * SETSIZE);
    }

    //
    // The free cells.
    //

    /** Takes the cell `index`, which is about to be written, off the chain if it is on it. */
    method CancelEmpty(index: int)
      requires Store() && reserved == {} && 0 <= index < |cells|
      modifies `firEmpty, `cells, `reserved
      ensures Store() && reserved == (if index < FIRST_FREE || cells[index].check >= 0 then {} else {index})
      ensures |cells| == old(|cells|) && Occupied(cells) == old(Occupied(cells))
      ensures cells[index] == old(cells[index])
    {
      if index < SETSIZE * 2 {
        return;
      }
      var elem := cells[index];
      if elem.check >= 0 {
        return;
      }
      assert IsFree(cells, reserved, index);
      if index < firEmpty {
        return;
      }
      if index == firEmpty {
        UnlinkFirst(cells, firEmpty, reserved);
        firEmpty := -elem.check;
        reserved := reserved + {index};
        return;
      }
      var i := index - 1;
      while i >= firEmpty
        invariant firEmpty - 1 <= i < index
        invariant forall z | i < z < index :: !IsFree(cells, reserved, z)
        invariant Store() && reserved == {} && cells == old(cells) && firEmpty == old(firEmpty)
      {
        var e := cells[i];
        if e.check < 0 {
          assert IsFree(cells, reserved, i) && LinkOk(cells, reserved, i);
          Unlink(cells, firEmpty, reserved, i, index);
          e := e.(check := elem.check);
          cells := cells[i := e];
          reserved := reserved + {index};
          return;
        }
        i := i - 1;
      }
      assert false;
    }

    /** Gives the cell `index` back. */
    method AddEmpty(index: int)
      requires Store() && 0 <= index < |cells| && index !in reserved
      modifies `firEmpty, `cells
      ensures Store() && |cells| == old(|cells|)
      ensures Occupied(cells) == old(Occupied(cells)) - {index}
      ensures index < FIRST_FREE ==> firEmpty == old(firEmpty)
    {
      var elem := cells[index];
      if index < SETSIZE * 2 {
        elem := elem.(check := -(index + 1));
        ghost var cells0 := cells;
        cells := cells[index := elem];
        ChainFrame(cells0, cells, firEmpty, reserved, reserved);
        return;
      }
      if elem.check < 0 {
        return;
      }
      if index < firEmpty {
        LinkFirst(cells, firEmpty, reserved, index);
        elem := elem.(check := -firEmpty);
        cells := cells[index := elem];
        firEmpty := index;
        return;
      }
      var pastEmp := firEmpty;
      assert IsFree(cells, reserved, pastEmp);
      var curEmp := -cells[pastEmp].check;
      assert LinkOk(cells, reserved, pastEmp);
      while curEmp < count && curEmp < index
        invariant Store() && cells == old(cells) && firEmpty == old(firEmpty)
        invariant IsFree(cells, reserved, pastEmp) && curEmp == -cells[pastEmp].check
        invariant pastEmp < index && LinkOk(cells, reserved, pastEmp)
        decreases count - curEmp
      {
        pastEmp := curEmp;
        curEmp := -cells[pastEmp].check;
        assert LinkOk(cells, reserved, pastEmp);
      }
      assert curEmp > index;
      Link(cells, firEmpty, reserved, pastEmp, index, curEmp);
      var e := cells[pastEmp];
      e := e.(check := -index);
      cells := cells[pastEmp := e];
      elem := elem.(check := -curEmp);
      cells := cells[index := elem];
    }

    /** Whether the labels n can live at the base that puts the first of them at curEmp. */
    method IsAvailable(curEmp: int, n: seq<int>) returns (ok: bool)
      requires Store() && FIRST_FREE <= curEmp && Labels(n) && Ascending(n)
      ensures ok <==> Vacant(cells, curEmp - n[0], n)
    {
      assert n[0] in n;
      if curEmp < n[0] {
        return false;
      }
      var base := curEmp - n[0];
      for i := 0 to |n|
        invariant forall c | c in n[..i] :: base + c < |cells| && cells[base + c].check < 0
      {
        assert n[i] in n && n[..i + 1] == n[..i] + [n[i]];
        if base + n[i] >= count {
          assert forall c | c in n :: c in n[..i] || c >= n[i];
          return true;
        } else if cells[base + n[i]].check >= 0 {
          return false;
        }
      }
      assert n[..|n|] == n;
      return true;
    }

    /** The file is extended until the window of `base` fits. */
    method Extend(base: int)
      requires Store() && 0 <= base <= |cells|
      modifies `count, `cells
      ensures Store() && |cells| == (if base + SETSIZE > old(|cells|) then base + SETSIZE else old(|cells|))
      ensures Occupied(cells) == old(Occupied(cells)) && old(cells) <= cells && firEmpty == old(firEmpty)
      ensures forall z | old(|cells|) <= z < |cells| :: cells[z].check < 0
    {
      if base + SETSIZE > count {
        var co := base + SETSIZE - count;
        Grow(cells, firEmpty, reserved, co);
        cells := cells + FreshCells(count, co);
        count := count + co;
      }
    }

    /** Unlinks the free cell curEmp, which follows pastEmp. */
    method Detach(pastEmp: int, curEmp: int)
      requires Store() && IsFree(cells, reserved, curEmp)
      requires Precedes(cells, firEmpty, reserved, pastEmp, curEmp)
      modifies `firEmpty, `cells, `reserved
      ensures Store() && reserved == old(reserved) + {curEmp}
      ensures |cells| == old(|cells|) && Occupied(cells) == old(Occupied(cells))
      ensures Precedes(cells, firEmpty, reserved, pastEmp, -old(cells[curEmp]).check)
      ensures forall z | z != curEmp && old(IsFree(cells, reserved, z)) :: IsFree(cells, reserved, z)
    {
      var check := cells[curEmp].check;
      if pastEmp >= 0 {
        assert LinkOk(cells, reserved, pastEmp);
        Unlink(cells, firEmpty, reserved, pastEmp, curEmp);
        cells := cells[pastEmp := cells[pastEmp].(check := check)];
      } else {
        UnlinkFirst(cells, firEmpty, reserved);
        firEmpty := -check;
      }
      reserved := reserved + {curEmp};
    }

    /** Unlinks the cells of the labels n at this base, walking the chain from curEmp0 on. */
    method DetachAll(curEmp0: int, pastEmp0: int, base: int, n: seq<int>)
      requires Store() && reserved == {} && Ascending(n)
      requires forall k {:trigger n[k]} | 0 <= k < |n| :: IsFree(cells, reserved, base + n[k])
      requires Precedes(cells, firEmpty, reserved, pastEmp0, curEmp0)
      requires n != [] && pastEmp0 < base + n[0]
      modifies `firEmpty, `cells, `reserved
      ensures Store() && reserved == CellSet(base, n)
      ensures |cells| == old(|cells|) && Occupied(cells) == old(Occupied(cells))
    {
      var curEmp, pastEmp := curEmp0, pastEmp0;
      var i := 0;
      while i < |n|
        invariant 0 <= i <= |n| && Store() && reserved == CellSet(base, n[..i])
        invariant |cells| == old(|cells|) && Occupied(cells) == old(Occupied(cells))
        invariant Precedes(cells, firEmpty, reserved, pastEmp, curEmp)
        invariant i < |n| ==> pastEmp < base + n[i]
        invariant forall k {:trigger n[k]} | i <= k < |n| :: IsFree(cells, reserved, base + n[k])
        decreases |n| - i, |cells| - curEmp
      {
        ChainStep(cells, firEmpty, reserved, pastEmp, curEmp);
        var check := cells[curEmp].check;
        assert LinkOk(cells, reserved, curEmp);
        if curEmp < base + n[i] {
          pastEmp := curEmp;
          curEmp := -check;
        } else if curEmp == base + n[i] {
          Detach(pastEmp, curEmp);
          assert n[..i + 1][..i] == n[..i];
          curEmp := -check;
          i := i + 1;
        } else {
          break;
        }
      }
      assert n[..|n|] == n;
    }

    /** Makes room for, and unlinks, the cells of the labels n, the first of which is curEmp. */
    method ModifyEmpty(curEmp: int, pastEmp: int, n: seq<int>)
      requires Store() && reserved == {} && Labels(n) && Ascending(n)
      requires FIRST_FREE <= curEmp <= |cells| && Vacant(cells, curEmp - n[0], n)
      requires Precedes(cells, firEmpty, reserved, pastEmp, curEmp)
      modifies `firEmpty, `count, `cells, `reserved
      ensures Store() && CellsOf(reserved, curEmp - n[0], n)
      ensures |cells| == (if curEmp - n[0] + SETSIZE > old(|cells|) then curEmp - n[0] + SETSIZE else old(|cells|))
      ensures Occupied(cells) == old(Occupied(cells))
    {
      var base := curEmp - n[0];
      assert n[0] in n;
      ChainStep(cells, firEmpty, reserved, pastEmp, curEmp);
      ghost var cells0 := cells;
      hide Chain, CellSet, Precedes, Occupied;
      Extend(base);
      VacantFree(cells0, cells, base, n);
      hide Vacant, Labels, Ascending, IsFree;
      DetachAll(curEmp, pastEmp, base, n);
      CellSetMembers(base, n);
    }

    /** The first free cell at which the labels n fit, or the end of the file, and the free cell before it. */
    method FindRoom(n: seq<int>) returns (found: bool, curEmp: int, pastEmp: int)
      requires Store() && Labels(n) && Ascending(n)
      ensures FIRST_FREE <= curEmp <= |cells| && Precedes(cells, firEmpty, reserved, pastEmp, curEmp)
      ensures Vacant(cells, curEmp - n[0], n) && (!found ==> curEmp == |cells|)
    {
      curEmp := firEmpty;
      pastEmp := -1;
      while curEmp < count
        invariant FIRST_FREE <= curEmp <= |cells| && Precedes(cells, firEmpty, reserved, pastEmp, curEmp)
        decreases count - curEmp
      {
        ChainStep(cells, firEmpty, reserved, pastEmp, curEmp);
        found := IsAvailable(curEmp, n);
        if found {
          return;
        }
        pastEmp := curEmp;
        curEmp := -cells[curEmp].check;
        assert LinkOk(cells, reserved, pastEmp);
      }
      AscendingFirst(n);
      found := false;
    }

    /** A base for the labels n: their cells were free and are now unlinked, and the window fits. */
    method GetNewSet(n0: seq<int>) returns (base: int)
      requires Store() && reserved == {} && Labels(n0) && Distinct(n0)
      modifies `firEmpty, `count, `cells, `reserved
      ensures Store() && reserved == CellSet(base, n0)
      ensures Occupied(cells) == old(Occupied(cells)) && old(|cells|) <= |cells|
      ensures SETSIZE < base && base + SETSIZE <= |cells|
      ensures forall c | c in n0 :: FIRST_FREE <= base + c < |cells| && base + c !in old(Occupied(cells))
    {
      var n := Sort(n0);
      assert n[0] in n;
      var found, curEmp, pastEmp := FindRoom(n);
      ModifyEmpty(curEmp, pastEmp, n);
      base := if found then curEmp - n[0] else count - SETSIZE;
      NewCells(cells, reserved, base, n, n0);
    }

    //
    // The tail file.
    //

    /** The record at pos: its C string ("" for a record without text), its data, and where the data is. */
    method TailOf(pos: int) returns (tail: Tail, dataPoin: int)
      requires Stored(bytes, recs) && pos in recs
      ensures tail.data == recs[pos].data
      ensures tail.tail == if recs[pos].ext == [] then [0] else recs[pos].ext
      ensures dataPoin == pos + |recs[pos].ext| + 1
    {
      ghost var r := recs[pos];
      assert StoredAt(bytes, pos, r);
      var end := if pos + BUFFER <= |bytes| then pos + BUFFER else |bytes|;
      var buf := bytes[pos..end];
      assert |Image(r)| <= BUFFER && pos + |Image(r)| <= end;
      assert buf[..|Image(r)|] == bytes[pos..pos + |Image(r)|];
      ReadBack(buf, r);
      var i := 0;
      while buf[i] != MARK
        invariant 0 <= i <= |r.ext|
        decreases |r.ext| - i
      {
        i := i + 1;
      }
      i := i + 1;
      tail := Tail(if i == 1 then [0] else CString(buf), DecodeInt(buf[i..i + 4]));
      dataPoin := pos + i;
    }

    /** Writes a record over the one at poin, or at the end of the file when poin is 0. */
    method AddTail(text: Word, data: int, poin: int) returns (pos: int)
      requires Stored(bytes, recs) && IsRecord(Record(text, data))
      requires poin == 0 || (poin in recs && |text| <= |recs[poin].ext|)
      modifies `bytes, `recs
      ensures Stored(bytes, recs) && recs == old(recs)[pos := Record(text, data)]
      ensures if poin == 0 then pos > 0 && pos !in old(recs) else pos == poin
    {
      var buff := text + [MARK] + EncodeInt(data);
      assert buff == Image(Record(text, data));
      if poin == 0 {
        pos := |bytes|;
        Append(bytes, recs, Record(text, data));
      } else {
        pos := poin;
        Overwrite(bytes, recs, pos, Record(text, data));
      }
      bytes := Written(bytes, pos, buff);
      recs := recs[pos := Record(text, data)];
    }

    //
    // Searching.
    //

    /** The end of a walk: what is left of w is compared with the record of the leaf baseIndex. */
    method SearchTail(w: Word, po: nat, baseIndex: int) returns (val: int, pp: seq<nat>, dataPoin: int)
      requires Valid() && IsInput(w) && po <= |w| && baseIndex in path && path[baseIndex] == w[..po]
      requires IsLeaf(V().occ, baseIndex)
      ensures val == Lookup(V(), w) && Marks(V(), w, po, pp)
      ensures val >= 0 <==> w in leaf
      ensures w in leaf ==> dataPoin == DataAt(w)
    {
      ghost var v := V();
      AtLeaf(v, |cells|, baseIndex, w, po);
      var base := cells[baseIndex].base;
      var tail;
      tail, dataPoin := TailOf(-base);
      assert StoredAt(bytes, -base, recs[-base]);
      var text := tail.tail[..|tail.tail| - 1];
      if po != |w| && text <= w[po..] {
        pp := [po + |text|];
      } else {
        pp := [];
      }
      LeafMarks(v, |cells|, baseIndex, w, po, text);
      if (po != |w| && tail.tail == w[po..]) || (po == |w| && tail.tail[0] == 0) {
        val := tail.data;
      } else {
        val := -1;
      }
    }

    /**
      Walks from node baseIndex0, reached by the first po0 bytes of w, as far as w leads. The list pp
      is what the source writes through its `pp` argument when it is given one.
     */
    method SubSearch(w: Word, po0: nat, baseIndex0: int, exist0: bool)
      returns (val: int, po: nat, baseIndex: int, exist: bool, pp: seq<nat>, dataPoin: int)
      requires Valid() && IsInput(w) && po0 <= |w| && baseIndex0 in path && path[baseIndex0] == w[..po0]
      ensures val == Lookup(V(), w)
      ensures po0 <= po <= |w| && baseIndex in path && path[baseIndex] == w[..po]
      ensures IsInner(V().occ, baseIndex0) ==> baseIndex == baseIndex0 || po0 < po
      ensures val < 0 && IsInner(V().occ, baseIndex) ==>
                po < |w| && var t := Slot(V().occ, baseIndex, w[po]);
                && 0 <= t < |cells| && (|w| > 1 ==> 0 < t) && !IsChild(V().occ, baseIndex, t) && exist == (cells[t].check >= 0)
      ensures Marks(V(), w, po0, pp)
      ensures val >= 0 <==> w in leaf
      ensures w in leaf ==> dataPoin == DataAt(w)
      decreases |w| - po0
    {
      assert (baseIndex0 == 0 || baseIndex0 in V().occ) && SETSIZE <= |cells|;
      hide TreeExcept, Means, Stored, Chain, Marks, IsInput;
      po, baseIndex, exist, pp, dataPoin := po0, baseIndex0, exist0, [], 0;
      var e := cells[baseIndex];
      var base := e.base;
      if base < 0 {
        val, pp, dataPoin := SearchTail(w, po, baseIndex);
      } else {
        ghost var v := V();
        AtInner(v, |cells|, baseIndex, w, po);
        if cells[base].check == baseIndex {
          pp := [po];
        }
        var i := w[po];
        var t := base + i;
        var elem := cells[t];
        exist := elem.check >= 0;
        var rest: seq<nat> := [];
        if elem.check == baseIndex {
          val, po, baseIndex, exist, rest, dataPoin := SubSearch(w, po + 1, t, exist);
        } else {
          val := -1;
        }
        InnerMarks(v, |cells|, baseIndex0, w, po0, rest);
        pp := pp + rest;
      }
    }

    //
    // Inserting.
    //

    method ModifyElem(index: int, elem: Elem)
      requires Store() && 0 < index < |cells| && elem.check >= 0
      requires index in reserved || cells[index].check >= 0 || index < FIRST_FREE
      modifies `cells, `reserved
      ensures Store() && |cells| == old(|cells|) && reserved == old(reserved) - {index}
      ensures Occupied(cells) == old(Occupied(cells))[index := elem]
    {
      WriteCell(cells, firEmpty, reserved, index, elem);
      cells := cells[index := elem];
      reserved := reserved - {index};
    }

    /** The cells and the record that change when the leaf p passes the first byte of its record on. */
    method SplitCells(p: int) returns (newIndex: int)
      requires Store() && reserved == {} && Stored(bytes, recs)
      requires LeafOk(V(), p) && recs[-V().occ[p].base].ext != [] && p != 0
      modifies `firEmpty, `count, `cells, `reserved, `bytes, `recs
      ensures Store() && reserved == {} && Stored(bytes, recs) && old(|cells|) <= |cells|
      ensures CanSplit(old(V()), |cells|, p, newIndex)
      ensures Occupied(cells) == WithSplit(old(V()), p, newIndex).occ
      ensures recs == WithSplit(old(V()), p, newIndex).recs
    {
      hide Chain, CellSet, Stored;
      var elem := cells[p];
      var base := elem.base;
      var c, data, text := FirstByte(-base);
      newIndex := GetNewSet([c]);
      assert c in [c];
      CellSetOne(newIndex, c);
      elem := elem.(base := newIndex);
      ModifyElem(p, elem);
      var pos := AddTail(text, data, -base);
      elem := Elem(-pos, p);
      hide Labels, Distinct;
      ModifyElem(newIndex + c, elem);
    }

    /** The first byte of the record at pos, its data, and what is left of its text. */
    method FirstByte(pos: int) returns (c: int, data: int, text: Word)
      requires Stored(bytes, recs) && pos in recs && recs[pos].ext != []
      ensures c == recs[pos].ext[0] && 0 <= c < SETSIZE && data == recs[pos].data && text == recs[pos].ext[1..]
      ensures IsRecord(Record(text, data)) && pos > 0
    {
      var tail, dp := TailOf(pos);
      assert StoredAt(bytes, pos, recs[pos]);
      c, data := tail.tail[0], tail.data;
      if tail.tail[0] == 0 {
        text := [];
      } else {
        text := tail.tail[1..];
      }
      assert text == recs[pos].ext[1..];
    }

    /** Takes up the view that the cells and the records now have, and the map it stands for. */
    ghost method Adopt(v: View, m: map<seq<int>, int>, hollow: int := 0)
      requires Store() && reserved == {} && Stored(bytes, recs)
      requires TreeExcept(v, |cells|, hollow) && Means(v, m) && v.occ == Occupied(cells) && v.recs == recs
      modifies `path, `leaf, `contents
      ensures ValidExcept(hollow) && contents == m && V() == v
    {
      hide TreeExcept, Means, Stored, Chain, Occupied;
      path, leaf, contents := v.path, v.leaf, m;
      assert V() == v;
    }

    /** A leaf whose record differs from the word to insert passes its first byte on to a new child. */
    method SplitTail(p: int)
      requires Valid() && p in path && LeafOk(V(), p) && recs[-V().occ[p].base].ext != []
      modifies this
      ensures Valid() && contents == old(contents)
      ensures p in path && path[p] == old(path[p]) && IsInner(V().occ, p)
    {
      ghost var v, n := V(), |cells|;
      var newIndex := SplitCells(p);
      SplitMeans(v, contents, n, |cells|, p, newIndex);
      hide TreeExcept, Means, Stored, Chain;
      Adopt(WithSplit(v, p, newIndex), contents);
    }

    /** The cell and the record that are written when the rest of w hangs from the unused cell t. */
    method FillCells(w: Word, data: int, po: nat, p: int, t: int) returns (pos: int)
      requires Store() && reserved == {} && Stored(bytes, recs) && IsWord(w) && 0 <= data <= INT_MAX
      requires po < |w| && 0 < t < |cells| && cells[t].check < 0 && 0 <= p
      modifies `firEmpty, `cells, `reserved, `bytes, `recs
      ensures Store() && reserved == {} && Stored(bytes, recs) && |cells| == old(|cells|)
      ensures pos > 0 && pos !in old(recs) && recs == old(recs)[pos := Record(w[po + 1..], data)]
      ensures Occupied(cells) == old(Occupied(cells))[t := Elem(-pos, p)]
    {
      var elem0 := Elem(0, p);
      if w[po] == 0 {
        assert w[po + 1..] == [];
        pos := AddTail([], data, 0);
      } else {
        pos := AddTail(w[po + 1..], data, 0);
      }
      elem0 := elem0.(base := -pos);
      CancelEmpty(t);
      ModifyElem(t, elem0);
    }

    /** The slot for the next byte of w is unused: it becomes the leaf of w. */
    method FillSlot(w: Word, data: int, po: nat, p: int)
      requires Valid() && IsWord(w) && 0 <= data <= INT_MAX && Chopped(w) !in contents
      requires po < |w| && p in path && path[p] == w[..po] && IsInner(V().occ, p)
      requires var t := Slot(V().occ, p, w[po]); 0 < t < |cells| && cells[t].check < 0
      modifies this
      ensures Valid() && contents == old(contents)[Chopped(w) := data]
    {
      hide TreeExcept, Means, Stored, IsWord;
      ghost var v := V();
      var base := cells[p].base;
      var t := base + w[po];
      var pos := FillCells(w, data, po, p, t);
      LeafMeans(v, contents, |cells|, p, w, po, pos, data);
      Adopt(WithLeaf(v, p, w[po], pos, Record(w[po + 1..], data)), contents[Chopped(w) := data]);
    }

    /** The labels of the children of checkVal in the window at base. */
    method GetAll(base: int, checkVal: int) returns (n: seq<int>)
      requires 0 <= base && base + SETSIZE <= |cells| && 0 <= checkVal
      ensures LabelsOf(Occupied(cells), checkVal, base, n)
    {
      n := [];
      for i := 0 to SETSIZE
        invariant Ascending(n) && forall c :: c in n <==> 0 <= c < i && cells[base + c].check == checkVal
      {
        if cells[base + i].check == checkVal {
          assert forall k | 0 <= k < |n| :: n[k] in n;
          n := n + [i];
        }
      }
    }

    /** The cells of the window at start that name t as their parent name t' instead. */
    method Reparent(start: int, t: int, t': int)
      requires Store() && 0 <= start && start + SETSIZE <= |cells| && 0 <= t && 0 <= t'
      requires forall x | x in Occupied(cells) && Occupied(cells)[x].check == t :: start <= x < start + SETSIZE
      modifies `cells
      ensures Store() && |cells| == old(|cells|) && Occupied(cells) == Reparented(old(Occupied(cells)), t, t')
    {
      hide Occupied;
      var ee := cells[start..start + SETSIZE];
      for j := 0 to SETSIZE
        invariant |ee| == SETSIZE
        invariant forall k | 0 <= k < SETSIZE ::
                    ee[k] == if k < j && cells[start + k].check == t then Elem(cells[start + k].base, t') else cells[start + k]
      {
        if ee[j].check == t {
          ee := ee[j := ee[j].(check := t')];
        }
      }
      ghost var cells0 := cells;
      cells := cells[..start] + ee + cells[start + SETSIZE..];
      ReparentedCells(cells0, cells, start, t, t');
      ChainFrame(cells0, cells, firEmpty, reserved, reserved);
    }

    /** Moves the child at t, and what its own children say of it, to the reserved cell t'. */
    method MoveChild(t: int, t': int) returns (elem0: Elem)
      requires Store() && t in Occupied(cells) && t' in reserved && 0 < t
      requires var e := Occupied(cells)[t];
               && e.check != t && (e.base >= 0 ==> e.base + SETSIZE <= |cells|)
               && forall x | x in Occupied(cells) && Occupied(cells)[x].check == t :: 0 <= e.base <= x < e.base + SETSIZE
      modifies `firEmpty, `cells, `reserved
      ensures Store() && |cells| == old(|cells|) && reserved == old(reserved) - {t'}
      ensures elem0 == old(Occupied(cells))[t] && Occupied(cells) == AfterMove(old(Occupied(cells)), t, t')
    {
      hide Chain;
      elem0 := cells[t];
      AddEmpty(t);
      ModifyElem(t', elem0);
      if elem0.base >= 0 {
        Reparent(elem0.base, t, t');
      }
    }

    /** The loop over the children of p. */
    method MoveAll(ghost v: View, ghost size: int, p: int, base: int, newIndex: int, n: seq<int>) returns (elem0: Elem)
      requires Store() && size <= |cells| && newIndex + SETSIZE <= |cells|
      requires |n| >= 2 && Plan(v, size, p, base, newIndex, n)
      requires HalfMoved(v, Occupied(cells), reserved, p, base, newIndex, n, 0)
      modifies `firEmpty, `cells, `reserved
      ensures Store() && |cells| == old(|cells|) && elem0.check == p
      ensures HalfMoved(v, Occupied(cells), reserved, p, base, newIndex, n, |n| - 1)
    {
      hide Plan, HalfMoved, Store, Occupied;
      elem0 := Elem(0, p);
      ghost var occ' := Occupied(cells);
      for i := 0 to |n| - 1
        invariant Store() && |cells| == old(|cells|) && elem0.check == p
        invariant occ' == Occupied(cells) && HalfMoved(v, occ', reserved, p, base, newIndex, n, i)
      {
        BeforeChild(v, size, occ', reserved, p, base, newIndex, n, i);
        AfterChild(v, size, occ', reserved, p, base, newIndex, n, i);
        elem0 := MoveChild(base + n[i], newIndex + n[i]);
        occ' := Occupied(cells);
      }
    }

    /**
      The cells that change when node p, whose children have the labels n less its last one, moves to
      a window with room for all of n. The reserved cell that is left is for the last label.
     */
    method RelocateCells(p: int, n: seq<int>) returns (newIndex: int, elem0: Elem)
      requires Store() && reserved == {} && Labels(n) && 0 < p < |cells|
      requires PlanNode(V(), |cells|, p, cells[p].base) && PlanChildren(V().occ, p, cells[p].base, n)
      modifies `firEmpty, `count, `cells, `reserved
      ensures Store() && reserved == {newIndex + n[|n| - 1]} && old(|cells|) <= |cells|
      ensures SETSIZE < newIndex && newIndex + SETSIZE <= |cells|
      ensures FullMove(old(V()), Occupied(cells), p, CellSet(old(cells[p].base), n[..|n| - 1]), old(cells[p].base), newIndex)
      ensures newIndex + n[|n| - 1] !in old(Occupied(cells)) && elem0.check == p
    {
      ghost var v, size := V(), |cells|;
      assert p in v.occ && v.occ[p] == cells[p];
      hide PlanNode, Labels, Chain, CellSet, IsMove, FullMove, HalfMoved;
      var elem := cells[p];
      var base := elem.base;
      newIndex := GetNewSet(n);
      PlanReady(v, size, p, base, newIndex, n);
      elem := elem.(base := newIndex);
      ModifyElem(p, elem);
      PlanStart(v, size, Occupied(cells), reserved, p, base, newIndex, n);
      assert n[|n| - 1] in n;
      elem0 := MoveAll(v, size, p, base, newIndex, n);
      LastChild(v, size, Occupied(cells), reserved, p, base, newIndex, n);
    }

    /** The cells and the record that are written when p has to move to take the rest of w. */
    method MoveAndFill(w: Word, data: int, po: nat, p: int, n: seq<int>) returns (newIndex: int, pos: int, ghost occ': map<int, Elem>)
      requires Store() && reserved == {} && Stored(bytes, recs) && IsWord(w) && 0 <= data <= INT_MAX && po < |w|
      requires Labels(n) && 0 < p < |cells| && |n| > 0 && n[|n| - 1] == w[po]
      requires PlanNode(V(), |cells|, p, cells[p].base) && PlanChildren(V().occ, p, cells[p].base, n)
      modifies `firEmpty, `count, `cells, `reserved, `bytes, `recs
      ensures Store() && reserved == {} && Stored(bytes, recs) && old(|cells|) <= |cells|
      ensures SETSIZE < newIndex && newIndex + SETSIZE <= |cells|
      ensures FullMove(old(V()), occ', p, CellSet(old(cells[p].base), n[..|n| - 1]), old(cells[p].base), newIndex)
      ensures newIndex + w[po] !in occ' && Occupied(cells) == occ'[newIndex + w[po] := Elem(-pos, p)]
      ensures pos > 0 && pos !in old(recs) && recs == old(recs)[pos := Record(w[po + 1..], data)]
    {
      hide Chain, FullMove, PlanNode, PlanChildren, Stored, Labels;
      var elem0;
      newIndex, elem0 := RelocateCells(p, n);
      occ' := Occupied(cells);
      assert newIndex + w[po] in reserved;
      if w[po] == 0 {
        assert w[po + 1..] == [];
        pos := AddTail([], data, 0);
      } else {
        pos := AddTail(w[po + 1..], data, 0);
      }
      elem0 := elem0.(base := -pos);
      ModifyElem(newIndex + n[|n| - 1], elem0);
    }

    /** Moves p, whose children have the labels n less its last, and hangs the rest of w from it. */
    method RelocateWith(w: Word, data: int, po: nat, p: int, n: seq<int>)
      requires Valid() && IsWord(w) && 0 <= data <= INT_MAX && Chopped(w) !in contents
      requires po < |w| && p in path && path[p] == w[..po] && 0 < p < |cells|
      requires Labels(n) && |n| > 0 && n[|n| - 1] == w[po]
      requires PlanNode(V(), |cells|, p, cells[p].base) && PlanChildren(V().occ, p, cells[p].base, n)
      modifies this
      ensures Valid() && contents == old(contents)[Chopped(w) := data]
    {
      ghost var v, size, base := V(), |cells|, cells[p].base;
      hide TreeExcept, Means, Stored, IsWord, Store, CellSet, FullMove, PlanNode, PlanChildren, Labels, Occupied;
      var newIndex, pos;
      ghost var occ';
      newIndex, pos, occ' := MoveAndFill(w, data, po, p, n);
      ghost var s := CellSet(base, n[..|n| - 1]);
      ghost var v2 := RelocateMeans(v, contents, size, |cells|, occ', p, s, base, newIndex, w, po, pos, data);
      Adopt(v2, contents[Chopped(w) := data]);
    }

    /** The slot for the next byte of w belongs to another node: p moves its children to make room. */
    method Relocate(w: Word, data: int, po: nat, p: int)
      requires Valid() && IsWord(w) && 0 <= data <= INT_MAX && Chopped(w) !in contents
      requires po < |w| && p in path && path[p] == w[..po] && p in V().occ && V().occ[p].base >= 0
      requires !IsChild(V().occ, p, Slot(V().occ, p, w[po]))
      modifies this
      ensures Valid() && contents == old(contents)[Chopped(w) := data]
    {
      ghost var v := V();
      assert p != 0 && cells[p] == v.occ[p] && 0 <= w[po] < SETSIZE && WindowOk(v.occ, v.path, |cells|, p);
      hide TreeExcept, Means, Stored, IsWord, Chain, LabelsOf, PlanNode, PlanChildren, Labels;
      var base := cells[p].base;
      var n := GetAll(base, p);
      LabelMeans(v.occ, p, base, n, w[po]);
      PlanOf(v, |cells|, p, n, w[po]);
      n := n + [w[po]];
      RelocateWith(w, data, po, p, n);
    }

    method SubInsert(w: Word, data: int, po0: nat, baseIndex0: int, exist0: bool) returns (exist: bool)
      requires Valid() && IsWord(w) && 0 <= data <= INT_MAX
      requires po0 <= |w| && baseIndex0 in path && path[baseIndex0] == w[..po0] && IsInner(V().occ, baseIndex0)
      modifies this
      ensures Valid()
      ensures contents == if Chopped(w) in old(contents) then old(contents) else old(contents)[Chopped(w) := data]
      decreases |w| - po0
    {
      var val, po, baseIndex, pp, dp;
      val, po, baseIndex, exist, pp, dp := SubSearch(w, po0, baseIndex0, exist0);
      assert Terminated(Chopped(w)) == w;
      if val >= 0 {
        return;
      }
      var elem := cells[baseIndex];
      var base := elem.base;
      if base < 0 {
        AtLeaf(V(), |cells|, baseIndex, w, po);
        assert po < |w|;
        SplitTail(baseIndex);
        exist := SubInsert(w, data, po, baseIndex, exist);
      } else if !exist {
        FillSlot(w, data, po, baseIndex);
      } else {
        if baseIndex == 0 {
          RootWindow(V(), |cells|, w[po]);
        }
        Relocate(w, data, po, baseIndex);
      }
    }

    /** Stores data under the key str unless the key is already there; an empty key is ignored. */
    method Insert(str: seq<int>, data: int)
      requires Valid() && (str == [] || IsKey(str)) && 0 <= data <= INT_MAX
      modifies this
      ensures Valid()
      ensures contents == if str == [] || str in old(contents) then old(contents) else old(contents)[str := data]
    {
      if str == [] {
        return;
      }
      var exist := false;
      RootNode();
      assert Chopped(Terminated(str)) == str;
      exist := SubInsert(Terminated(str), data, 0, 0, exist);
    }

    lemma RootNode()
      requires Valid()
      ensures 0 in path && path[0] == [] && IsInner(V().occ, 0)
    {
    }

    /** The data of the key str, or -1. */
    method Search(str: seq<int>) returns (val: int)
      requires Valid() && IsString(str)
      ensures val == if str in contents then contents[str] else -1
    {
      RootNode();
      var po, bi, ex, pp, dp;
      val, po, bi, ex, pp, dp := SubSearch(Terminated(str), 0, 0, false);
    }

    /** Overwrites the data of the key str if it is there. */
    method ModifyData(str: seq<int>, data: int)
      requires Valid() && IsString(str) && 0 <= data <= INT_MAX
      modifies this
      ensures Valid() && contents == if str in old(contents) then old(contents)[str := data] else old(contents)
    {
      RootNode();
      var d, po, bi, ex, pp, dataPoin;
      d, po, bi, ex, pp, dataPoin := SubSearch(Terminated(str), 0, 0, false);
      if d < 0 || d == data {
        assert str in contents ==> contents[str := data] == contents;
        return;
      }
      assert Chopped(Terminated(str)) == str;
      OverwriteData(Terminated(str), data, dataPoin);
    }

    method OverwriteData(ghost w: Word, data: int, dataPoin: int)
      requires Valid() && w in leaf && |w| > 0 && 0 <= data <= INT_MAX && dataPoin == DataAt(w)
      modifies this
      ensures Valid() && contents == old(contents)[Chopped(w) := data]
    {
      ghost var v := V();
      PatchMeans(v, contents, |cells|, w, data);
      assert LeafOk(v, leaf[w]);
      ghost var pos := -v.occ[leaf[w]].base;
      hide TreeExcept, Means, Store, Stored, IsWord, LeafOk, WordOk, Occupied;
      Patch(bytes, recs, pos, data);
      bytes := Written(bytes, dataPoin, EncodeInt(data));
      recs := recs[pos := Record(recs[pos].ext, data)];
      Adopt(WithData(v, w, data), contents[Chopped(w) := data]);
    }

    //
    // Removing.
    //

    /** Whether no cell of the window at first names checkIndex as its parent. */
    method IsEmptySet(first: int, checkIndex: int) returns (empty: bool)
      requires 0 <= first && first + SETSIZE <= |cells| && 0 <= checkIndex
      ensures empty <==> forall x | first <= x < first + SETSIZE :: !IsChild(Occupied(cells), checkIndex, x)
    {
      for i := 0 to SETSIZE
        invariant forall x | first <= x < first + i :: !IsChild(Occupied(cells), checkIndex, x)
      {
        if cells[first + i].check == checkIndex {
          assert IsChild(Occupied(cells), checkIndex, first + i);
          return false;
        }
      }
      return true;
    }

    /** The leaf x of the word w goes back to the free cells. */
    method RemoveLeaf(x: int, w: Word)
      requires Valid() && w in leaf && leaf[w] == x && IsWord(w) && 0 < x < |cells|
      modifies this
      ensures ValidExcept(old(cells[x].check)) && contents == old(contents) - {Chopped(w)}
      ensures |cells| == old(|cells|) && V().occ == old(V().occ) - {x} && path == old(path) - {x}
    {
      ghost var v, check := V(), cells[x].check;
      DropMeans(v, contents, |cells|, x, w);
      assert x in v.occ;
      hide TreeExcept, Means, Stored, IsWord;
      AddEmpty(x);
      Adopt(WithoutLeaf(v, x), contents - {Chopped(w)}, check);
    }

    /** If the removal below node p has left it without children, it goes back to the free cells as well. */
    method RemoveIfEmpty(p: int, base: int)
      requires ValidExcept(p) && IsInner(V().occ, p) && p in path && base == Slot(V().occ, p, 0)
      requires 0 <= p < |cells| && 0 <= base && base + SETSIZE <= |cells|
      modifies this
      ensures ValidExcept(if p == 0 then 0 else old(cells[p].check)) && contents == old(contents)
      ensures |cells| == old(|cells|)
      ensures V().occ == old(V().occ) - {p} || V().occ == old(V().occ)
      ensures path == old(path) - {p} || path == old(path)
      ensures p == 0 ==> V() == old(V())
    {
      ghost var v, check := V(), if p == 0 then 0 else cells[p].check;
      var empty := IsEmptySet(base, p);
      if empty {
        ChildlessWindow(v.occ, path, p);
        if p != 0 {
          NodeMeans(v, contents, |cells|, p);
          hide TreeExcept, Means, Stored;
          AddEmpty(p);
          Adopt(WithoutNode(v, p), contents, check);
        } else {
          assert 0 !in v.occ;
          hide TreeExcept, Means, Stored;
          AddEmpty(p);
          assert V().occ == v.occ;
        }
      } else {
        Refilled(v, |cells|, p, check);
      }
    }

    /** The end of a removal: the leaf baseIndex goes if its record is what is left of w. */
    method RemoveTail(w: Word, po: nat, baseIndex: int) returns (res: bool)
      requires Valid() && IsInput(w) && po <= |w| && baseIndex in path && path[baseIndex] == w[..po]
      requires IsLeaf(V().occ, baseIndex)
      modifies this
      ensures res == (w in old(leaf)) && |cells| == old(|cells|)
      ensures contents == if res then old(contents) - {Chopped(w)} else old(contents)
      ensures !res ==> Valid() && V() == old(V())
      ensures res ==> ValidExcept(old(cells[baseIndex].check))
      ensures res ==> V().occ == old(V().occ) - {baseIndex} && path == old(path) - {baseIndex}
    {
      AtLeaf(V(), |cells|, baseIndex, w, po);
      assert w in leaf ==> WordOk(V(), w);
      hide TreeExcept, Means, Stored, IsInput, IsWord;
      var base := cells[baseIndex].base;
      var tail, dp := TailOf(-base);
      if (po != |w| && tail.tail == w[po..]) || (po == |w| && tail.tail[0] == 0) {
        RemoveLeaf(baseIndex, w);
        res := true;
      } else {
        res := false;
      }
    }

    /** Removes w below node baseIndex, reached by its first po bytes; whether it was there. */
    method SubRemove(w: Word, po: nat, baseIndex: int) returns (res: bool)
      requires Valid() && IsInput(w) && po <= |w| && baseIndex in path && path[baseIndex] == w[..po]
      modifies this
      ensures res == (w in old(leaf)) && |cells| == old(|cells|)
      ensures contents == if res then old(contents) - {Chopped(w)} else old(contents)
      ensures !res ==> Valid()
      ensures res ==> ValidExcept(if baseIndex == 0 then 0 else old(V().occ)[baseIndex].check)
      ensures SameAbove(old(V()), V(), po)
      decreases |w| - po
    {
      ghost var v := V();
      assert (baseIndex == 0 || (baseIndex in v.occ && 0 < baseIndex < |cells|)) && SETSIZE <= |cells|;
      assert 0 !in v.occ && 0 in path && SameAbove(v, v, |w| + 1);
      SameAboveLess(v, v, |w| + 1, po);
      hide TreeExcept, Means, Stored, IsInput, SameAbove;
      var e := cells[baseIndex];
      var base := e.base;
      if base < 0 {
        res := RemoveTail(w, po, baseIndex);
        if res {
          SameAboveLess(v, v, |w| + 1, po + 1);
          SameAboveDrop(v, v, V(), po, baseIndex);
        }
      } else {
        AtInner(v, |cells|, baseIndex, w, po);
        var i := w[po];
        var t := base + i;
        var elem := cells[t];
        if elem.check == baseIndex {
          WindowFits(v, |cells|, baseIndex);
          res := SubRemove(w, po + 1, t);
          SameAboveLess(v, V(), po + 1, po);
          if !res {
            return;
          }
          AfterSubRemove(v, po, baseIndex, base);
        } else {
          res := false;
        }
      }
    }

    /** The step back up to node p after a removal below it. */
    method AfterSubRemove(ghost v: View, ghost po: nat, p: int, base: int)
      requires ValidExcept(p) && SameAbove(v, V(), po + 1) && SETSIZE <= |cells|
      requires p in v.path && |v.path[p]| == po && IsInner(v.occ, p) && base == Slot(v.occ, p, 0)
      requires 0 <= p < |cells| && 0 <= base && base + SETSIZE <= |cells|
      modifies this
      ensures ValidExcept(if p == 0 then 0 else v.occ[p].check) && contents == old(contents)
      ensures |cells| == old(|cells|) && SameAbove(v, V(), po)
    {
      ghost var v1 := V();
      assert p != 0 ==> p in v1.occ && v1.occ[p] == v.occ[p];
      assert p in v1.path && 0 !in v1.occ;
      SameAboveLess(v, v1, po + 1, po);
      hide TreeExcept, Means, Stored, SameAbove;
      RemoveIfEmpty(p, base);
      if p != 0 {
        SameAboveDrop(v, v1, V(), po, p);
      }
    }

    /** Forgets the key str; an empty key is ignored. */
    method Remove(str: seq<int>)
      requires Valid() && IsString(str)
      modifies this
      ensures Valid() && contents == old(contents) - {str}
    {
      if str == [] {
        assert [] in contents ==> WordOk(V(), Terminated([]));
        return;
      }
      RootNode();
      var res := SubRemove(Terminated(str), 0, 0);
      assert Chopped(Terminated(str)) == str;
    }

    //
    // Longest match and enumeration.
    //

    /** The entry search_longest makes for the stored prefix of length k. */
    ghost function MatchMark(str: seq<int>, k: int, getOffset: bool): int
      requires 1 <= k <= |str| && str[..k] in contents
      reads this
    {
      if getOffset then k else contents[str[..k]]
    }

    /** The k-th entry of n tells whether the first k bytes of str are a stored key. */
    ghost predicate MarkedAt(str: seq<int>, n: array<int>, getOffset: bool, k: int)
      requires 1 <= k <= n.Length
      reads this, n
    {
      n[k - 1] == if k <= |str| && str[..k] in contents then MatchMark(str, k, getOffset) else -1
    }

    /** The list pp of the stored prefixes of str, as an array of 300 pointers ended by a null one. */
    method Collect(pp: seq<nat>, str: seq<int>) returns (poins: array<nat>, i: nat)
      requires |pp| <= 300 && forall k | k in pp :: 0 < k
      ensures fresh(poins) && i == |pp| <= poins.Length && poins[..i] == pp
    {
      assert forall k | 0 <= k < |pp| :: pp[k] in pp;
      poins := new nat[300];
      forall j | 0 <= j < 300 {
        poins[j] := if j < |pp| then pp[j] else 0;
      }
      i := 0;
      while i < 300 && poins[i] != 0
        invariant 0 <= i <= |pp|
      {
        i := i + 1;
      }
    }

    /**
      Marks in n every prefix of str that is a stored key, with its length or with its data, and
      returns the length of the longest (0 when there is none). The source keeps the prefixes found
      in an array of 300 pointers.
     */
    method SearchLongest(str: seq<int>, n: array<int>, getOffset: bool) returns (maxLength: nat)
      requires Valid() && IsString(str) && forall k | 1 <= k <= |str| && str[..k] in contents :: k <= n.Length
      requires |set k | 1 <= k <= |str| && str[..k] in contents| <= 300
      modifies n
      ensures forall k | 1 <= k <= n.Length :: MarkedAt(str, n, getOffset, k)
      ensures maxLength <= |str| && (maxLength > 0 ==> str[..maxLength] in contents)
      ensures forall k | maxLength < k <= |str| :: str[..k] !in contents
    {
      for i := 0 to n.Length
        modifies n
        invariant forall k | 0 <= k < i :: n[k] == -1
      {
        n[i] := -1;
      }
      RootNode();
      var w := Terminated(str);
      var val, po, bi, ex, pp, dp;
      val, po, bi, ex, pp, dp := SubSearch(w, 0, 0, false);
      PrefixMarks(V(), contents, |cells|, str, pp);
      hide ValidExcept, IsInput;
      maxLength := MarkAll(str, n, getOffset, pp);
      forall k | 1 <= k <= n.Length ensures MarkedAt(str, n, getOffset, k) {
        assert k in pp <==> 1 <= k <= |str| && str[..k] in contents;
      }
      forall k | k in pp ensures k <= maxLength {
        var j :| 0 <= j < |pp| && pp[j] == k;
      }
      assert maxLength > 0 ==> maxLength in pp;
    }

    method MarkAll(str: seq<int>, n: array<int>, getOffset: bool, pp: seq<nat>) returns (maxLength: nat)
      requires Valid() && IsString(str) && |pp| <= 300
      requires forall k | k in pp :: 1 <= k <= |str| && k <= n.Length && str[..k] in contents
      requires forall k | 0 <= k < n.Length :: n[k] == -1
      modifies n
      ensures forall k | 1 <= k <= n.Length :: n[k - 1] == if k in pp then MatchMark(str, k, getOffset) else -1
      ensures maxLength == if pp == [] then 0 else pp[|pp| - 1]
    {
      hide ValidExcept, IsInput;
      var poins, i := Collect(pp, str);
      maxLength := 0;
      for j := 0 to i
        modifies n
        invariant poins[..i] == pp
        invariant maxLength == if j == 0 then 0 else pp[j - 1]
        invariant forall k | 1 <= k <= n.Length :: n[k - 1] == if k in pp[..j] && k in pp then MatchMark(str, k, getOffset) else -1
      {
        assert pp[j] in pp && pp[..j + 1] == pp[..j] + [pp[j]] && poins[j] == pp[j];
        var len := poins[j];
        maxLength := len;
        if getOffset {
          n[len - 1] := len;
        } else {
          PrefixIsString(str, len);
          n[len - 1] := Search(str[..len]);
        }
      }
      assert pp[..i] == pp;
    }

    /** Lists the keys below node p, whose path is prep, until wordsCount - 1 are listed in all. */
    method GetAllWordsSub(base: int, p: int, prep: seq<int>, wordsCount: int)
      requires Valid() && p in path && IsInner(V().occ, p) && base == Slot(V().occ, p, 0) && prep == path[p]
      modifies `words
      ensures old(words) <= words && (|words| <= |old(words)| || |words| <= wordsCount - 1)
      ensures Listing(V(), prep, SETSIZE, words[|old(words)|..], |words| >= wordsCount - 1)
      decreases MAX_KEY + 1 - |prep|, 1
    {
      ghost var v, words0 := V(), words;
      assert SETSIZE <= |cells|;
      WindowFits(v, |cells|, p);
      ListingEmpty(v, prep, |words| >= wordsCount - 1);
      assert words[|words0|..] == [];
      hide ValidExcept, Listing;
      for i := 0 to SETSIZE
        invariant words0 <= words && (|words| <= |words0| || |words| <= wordsCount - 1)
        invariant Listing(v, prep, i, words[|words0|..], |words| >= wordsCount - 1)
      {
        if |words| >= wordsCount - 1 {
          ListingStop(v, prep, i, SETSIZE, words[|words0|..]);
          return;
        }
        ghost var ks, words1 := words[|words0|..], words;
        GetSlot(base, p, i, prep, wordsCount, ks);
        assert words[|words0|..] == ks + words[|words1|..];
      }
    }

    /** Lists the keys below the slot for the label i, after the keys ks for the labels before it. */
    method GetSlot(base: int, p: int, i: int, prep: seq<int>, wordsCount: int, ghost ks: seq<seq<int>>)
      requires Valid() && p in path && IsInner(V().occ, p) && base == Slot(V().occ, p, 0) && prep == path[p]
      requires 0 <= i < SETSIZE && 0 <= base + i < |cells|
      requires |words| < wordsCount - 1 && Listing(V(), prep, i, ks, false)
      modifies `words
      ensures old(words) <= words && |words| <= wordsCount - 1
      ensures Listing(V(), prep, i + 1, ks + words[|old(words)|..], |words| >= wordsCount - 1)
      decreases MAX_KEY + 1 - |prep|, 0
    {
      ghost var v := V();
      var t := base + i;
      var elem := cells[t];
      if elem.base != 0 && elem.check == p {
        SlotChild(v, |cells|, p, i);
        assert Stored(bytes, recs) && IsChild(v.occ, p, t) && Tree(v, |cells|);
        hide ValidExcept, Listing;
        // writing the label 0 into the buffer ends the string it holds
        var prep' := if i == 0 then prep else prep + [i];
        if elem.base < 0 {
          var tail, dp := TailOf(-elem.base);
          var k := prep' + tail.tail[..|tail.tail| - 1];
          words := words + [k];
          assert words[|old(words)|..] == [k];
          LeafKey(v, |cells|, p, i, k, tail.tail);
          SlotLeaf(v, |cells|, p, i, ks, k, |words| >= wordsCount - 1);
        } else {
          GetAllWordsSub(elem.base, t, prep', wordsCount);
          SlotInner(v, |cells|, p, i, ks, words[|old(words)|..], |words| >= wordsCount - 1);
        }
      } else {
        if IsChild(v.occ, p, t) { SlotChild(v, |cells|, p, i); }
        assert ks + words[|old(words)|..] == ks;
        SlotUnused(v, |cells|, p, i, ks, |words| >= wordsCount - 1);
      }
    }

    /**
      Lists the stored keys. The source takes the header's key count as wordsCount, which does not
      always count the keys.
     */
    method GetAllWords(wordsCount: int)
      requires Valid()
      modifies `words
      ensures Valid() && Sorted(words)
      ensures forall k | k in words :: k in contents
      ensures forall k | k in contents :: k in words || forall u | u in words :: KeyLess(u, k)
      ensures |words| == if wordsCount <= 1 then 0 else if |contents| < wordsCount - 1 then |contents| else wordsCount - 1
    {
      words := [];
      RootNode();
      GetAllWordsSub(cells[0].base, 0, [], wordsCount);
      assert words[0..] == words;
      ListingSize(V(), contents, words, wordsCount);
    }
  }
  //
  // Whole runs.
  //

  datatype Op = PutNew(key: seq<int>, data: int) | Forget(key: seq<int>) | Change(key: seq<int>, data: int)

  predicate IsOp(op: Op) {
    && (if op.PutNew? then op.key == [] || IsKey(op.key) else IsString(op.key))
    && (op.Forget? || 0 <= op.data <= INT_MAX)
  }

  /** What an operation does to a plain map. */
  function Step(m: map<seq<int>, int>, op: Op): map<seq<int>, int> {
    match op
    case PutNew(k, d) => if k == [] || k in m then m else m[k := d]
    case Forget(k) => m - {k}
    case Change(k, d) => if k in m then m[k := d] else m
  }

  function Run(m: map<seq<int>, int>, ops: seq<Op>): map<seq<int>, int> {
    if ops == [] then m else Step(Run(m, ops[..|ops| - 1]), ops[|ops| - 1])
  }

  /** Any run of operations on a new trie leaves it standing for what the same run makes of an empty map. */
  method Perform(ops: seq<Op>) returns (t: ArrayTrie)
    requires forall i | 0 <= i < |ops| :: IsOp(ops[i])
    ensures fresh(t) && t.Valid() && t.contents == Run(map[], ops)
  {
    t := new ArrayTrie();
    assert ops[..0] == [];
    for i := 0 to |ops|
      invariant fresh(t) && t.Valid() && t.contents == Run(map[], ops[..i])
    {
      assert ops[..i + 1][..i] == ops[..i];
      match ops[i]
      case PutNew(k, d) => t.Insert(k, d);
      case Forget(k) => t.Remove(k);
      case Change(k, d) => t.ModifyData(k, d);
    }
    assert ops[..|ops|] == ops;
  }

  function Only(ops: seq<Op>, k: seq<int>): seq<Op> {
    if ops == [] then []
    else Only(ops[..|ops| - 1], k) + (if ops[|ops| - 1].key == k then [ops[|ops| - 1]] else [])
  }

  lemma {:induction false} RunOnly(ops: seq<Op>, k: seq<int>)
    ensures k in Run(map[], ops) <==> k in Run(map[], Only(ops, k))
    ensures k in Run(map[], ops) ==> Run(map[], ops)[k] == Run(map[], Only(ops, k))[k]
  {
    if ops != [] {
      var init, last := ops[..|ops| - 1], ops[|ops| - 1];
      RunOnly(init, k);
      if last.key == k {
        var only := Only(ops, k);
        assert only[..|only| - 1] == Only(init, k) && only[|only| - 1] == last;
      } else {
        assert Only(ops, k) == Only(init, k);
      }
    }
  }

  lemma {:induction false} OnlyAreOps(ops: seq<Op>, k: seq<int>)
    requires forall i | 0 <= i < |ops| :: IsOp(ops[i])
    ensures forall i | 0 <= i < |Only(ops, k)| :: IsOp(Only(ops, k)[i])
  {
    if ops != [] {
      OnlyAreOps(ops[..|ops| - 1], k);
      hide IsOp;
    }
  }

  /** A search after a run finds what it finds in a trie that went through the operations on that key alone. */
  method KeysAreIndependent(ops: seq<Op>, k: seq<int>) returns (val: int, alone: int)
    requires IsString(k) && forall i | 0 <= i < |ops| :: IsOp(ops[i])
    ensures val == alone == if k in Run(map[], ops) then Run(map[], ops)[k] else -1
  {
    OnlyAreOps(ops, k);
    RunOnly(ops, k);
    hide IsOp, Run, Only;
    var t := Perform(ops);
    val := t.Search(k);
    var u := Perform(Only(ops, k));
    alone := u.Search(k);
  }
}
