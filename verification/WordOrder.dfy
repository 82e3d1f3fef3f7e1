/**
  The order in which the trie is listed: that of strcmp on unsigned bytes, terminators included
  (ArrayTrie.cpp, getAllWords_sub).
 */
module WordOrder {
  import opened TrieTree

  /** a and b agree on their first k bytes, and then a has the smaller one. */
  ghost predicate LessAt(a: Word, b: Word, k: nat) {
    k < |a| && k < |b| && a[..k] == b[..k] && a[k] < b[k]
  }

  ghost predicate WordLess(a: Word, b: Word) {
    exists k: nat :: LessAt(a, b, k)
  }

  lemma WordLessIrreflexive(a: Word)
    ensures !WordLess(a, a)
  {
  }

  /** strcmp of two keys. */
  ghost predicate KeyLess(a: seq<int>, b: seq<int>) {
    WordLess(Terminated(a), Terminated(b))
  }

  ghost predicate Sorted(ks: seq<seq<int>>) {
    forall i, j | 0 <= i < j < |ks| :: KeyLess(ks[i], ks[j])
  }

  /** k is the key of a stored word that begins with pre and goes on with a byte below hi. */
  ghost predicate Under(v: View, pre: Word, hi: int, k: seq<int>) {
    var w := Terminated(k);
    w in v.leaf && |pre| < |w| && pre <= w && w[|pre|] < hi
  }

  /** The word w is listed, or the list is full and all that it has comes before w. */
  ghost predicate Settled(ks: seq<seq<int>>, full: bool, k: seq<int>) {
    k in ks || (full && forall u | u in ks :: KeyLess(u, k))
  }

  ghost predicate Covers(v: View, pre: Word, hi: int, ks: seq<seq<int>>, full: bool) {
    forall k {:trigger Under(v, pre, hi, k)} | Under(v, pre, hi, k) :: Settled(ks, full, k)
  }

  ghost predicate AllUnder(v: View, pre: Word, hi: int, ks: seq<seq<int>>) {
    forall k | k in ks :: Under(v, pre, hi, k)
  }

  /** ks lists, in order, the words below the node with path pre whose next byte is below hi, or as
      many of the first of them as were wanted. */
  ghost predicate Listing(v: View, pre: Word, hi: int, ks: seq<seq<int>>, full: bool) {
    AllUnder(v, pre, hi, ks) && Sorted(ks) && Covers(v, pre, hi, ks, full)
  }

  lemma LabelOrder(v: View, pre: Word, i: int, a: seq<int>, b: seq<int>)
    requires Under(v, pre, i, a) && pre <= Terminated(b) && |pre| < |Terminated(b)| && i <= Terminated(b)[|pre|]
    ensures KeyLess(a, b)
  {
    assert LessAt(Terminated(a), Terminated(b), |pre|);
  }

  lemma ListingEmpty(v: View, pre: Word, full: bool)
    requires Words(v)
    ensures Listing(v, pre, 0, [], full)
  {
    forall k ensures !Under(v, pre, 0, k) {
      assert Terminated(k) in v.leaf ==> WordOk(v, Terminated(k));
    }
  }

  /** A full list may stop: what it has comes before everything that is still to come. */
  lemma ListingStop(v: View, pre: Word, i: int, hi: int, ks: seq<seq<int>>)
    requires Listing(v, pre, i, ks, true) && i <= hi
    ensures Listing(v, pre, hi, ks, true)
  {
    forall k | Under(v, pre, hi, k) ensures Settled(ks, true, k) {
      if !Under(v, pre, i, k) {
        forall u | u in ks ensures KeyLess(u, k) {
          LabelOrder(v, pre, i, u, k);
        }
      }
    }
  }

  /** Nothing is stored under the label i. */
  lemma ListingSkip(v: View, pre: Word, i: int, ks: seq<seq<int>>, full: bool)
    requires Listing(v, pre, i, ks, full)
    requires forall w | w in v.leaf && |pre| < |w| && pre <= w :: w[|pre|] != i
    ensures Listing(v, pre, i + 1, ks, full)
  {
    forall k | Under(v, pre, i + 1, k) ensures Settled(ks, full, k) {
      assert Under(v, pre, i, k);
    }
  }

  lemma SortedAppend(v: View, pre: Word, i: int, a: seq<seq<int>>, b: seq<seq<int>>)
    requires AllUnder(v, pre, i, a) && Sorted(a) && Sorted(b)
    requires forall k | k in b :: |pre| < |Terminated(k)| && pre <= Terminated(k) && i <= Terminated(k)[|pre|]
    ensures Sorted(a + b)
  {
    var ks := a + b;
    forall x, y | 0 <= x < y < |ks| ensures KeyLess(ks[x], ks[y]) {
      if x < |a| <= y {
        assert a[x] in a && b[y - |a|] in b;
        LabelOrder(v, pre, i, a[x], b[y - |a|]);
      }
    }
  }

  /** An unfilled list goes on with what is listed under the label i. */
  lemma ListingAppend(v: View, pre: Word, i: int, a: seq<seq<int>>, b: seq<seq<int>>, full: bool)
    requires Listing(v, pre, i, a, false) && Sorted(b)
    requires forall k | k in b :: Terminated(k) in v.leaf && |pre| < |Terminated(k)| && pre <= Terminated(k) && Terminated(k)[|pre|] == i
    requires forall k | Under(v, pre, i + 1, k) && Terminated(k)[|pre|] == i :: Settled(b, full, k)
    ensures Listing(v, pre, i + 1, a + b, full)
  {
    SortedAppend(v, pre, i, a, b);
    forall k | Under(v, pre, i + 1, k) ensures Settled(a + b, full, k) {
      if Under(v, pre, i, k) {
        assert Settled(a, false, k);
      } else {
        assert Settled(b, full, k);
        forall u | u in a ensures KeyLess(u, k) {
          LabelOrder(v, pre, i, u, k);
        }
      }
    }
  }

  //
  // One slot of a node's window.
  //

  lemma SlotChild(v: View, n: int, p: int, i: int)
    requires Tree(v, n) && p in v.path && IsInner(v.occ, p) && IsChild(v.occ, p, Slot(v.occ, p, i))
    ensures var t := Slot(v.occ, p, i);
            && t in v.path && v.path[t] == v.path[p] + [i] && |v.path[t]| <= MAX_KEY + 1 && v.occ[t].base != 0
            && (v.occ[t].base < 0 ==> LeafOk(v, t))
            && (v.occ[t].base >= 0 ==> i != 0)
  {
    var t := Slot(v.occ, p, i);
    assert EdgeOk(v.occ, v.path, t);
    assert v.occ[t].base < 0 ==> IsLeaf(v.occ, t) && LeafOk(v, t);
    assert v.occ[t].base >= 0 ==> WindowOk(v.occ, v.path, n, t);
    assert v.path[t][|v.path[p]|] == i;
  }

  /** The key that is put together from the path of a leaf and its record. */
  lemma LeafKey(v: View, n: int, p: int, i: int, k: seq<int>, text: seq<int>)
    requires Tree(v, n) && p in v.path && IsInner(v.occ, p)
    requires var t := Slot(v.occ, p, i);
             IsChild(v.occ, p, t) && LeafOk(v, t) &&
             text == if v.recs[-v.occ[t].base].ext == [] then [0] else v.recs[-v.occ[t].base].ext
    requires k == (if i == 0 then v.path[p] else v.path[p] + [i]) + Chopped(text)
    ensures WordAt(v, Slot(v.occ, p, i)) == Terminated(k)
  {
    var t := Slot(v.occ, p, i);
    SlotChild(v, n, p, i);
    var w := WordAt(v, t);
    assert WordOk(v, w);
    if i == 0 {
      TerminalNode(v, n, 0, t);
    } else {
      LeafText(v, t);
      assert w[|w| - 1] == 0 && w[|v.path[p]|] == i;
    }
  }

  lemma SlotUnused(v: View, n: int, p: int, i: int, ks: seq<seq<int>>, full: bool)
    requires Tree(v, n) && p in v.path && IsInner(v.occ, p) && !IsChild(v.occ, p, Slot(v.occ, p, i))
    requires Listing(v, v.path[p], i, ks, full)
    ensures Listing(v, v.path[p], i + 1, ks, full)
  {
    forall w | w in v.leaf && |v.path[p]| < |w| && v.path[p] <= w ensures w[|v.path[p]|] != i {
      Reach(v, n, 0, p, w);
    }
    hide Listing, TreeExcept;
    ListingSkip(v, v.path[p], i, ks, full);
  }

  lemma SlotLeaf(v: View, n: int, p: int, i: int, ks: seq<seq<int>>, k: seq<int>, full: bool)
    requires Tree(v, n) && p in v.path && IsInner(v.occ, p)
    requires var t := Slot(v.occ, p, i); IsChild(v.occ, p, t) && LeafOk(v, t) && WordAt(v, t) == Terminated(k)
    requires Listing(v, v.path[p], i, ks, false)
    ensures Listing(v, v.path[p], i + 1, ks + [k], full)
  {
    var t := Slot(v.occ, p, i);
    var pre := v.path[p];
    assert EdgeOk(v.occ, v.path, t);
    assert v.path[t] <= Terminated(k);
    assert Terminated(k)[|pre|] == i;
    forall k' | Under(v, pre, i + 1, k') && Terminated(k')[|pre|] == i ensures Settled([k], full, k') {
      var w := Terminated(k');
      assert v.path[t] <= w;
      Reach(v, n, 0, t, w);
      assert WordOk(v, w);
      TerminatedInjective(k, k');
    }
    assert Sorted([k]);
    hide Listing, TreeExcept;
    ListingAppend(v, pre, i, ks, [k], full);
  }

  lemma SlotInner(v: View, n: int, p: int, i: int, ks: seq<seq<int>>, more: seq<seq<int>>, full: bool)
    requires Tree(v, n) && p in v.path && IsInner(v.occ, p)
    requires var t := Slot(v.occ, p, i); IsChild(v.occ, p, t) && t in v.path && v.occ[t].base >= 0
    requires Listing(v, v.path[p], i, ks, false)
    requires Listing(v, v.path[Slot(v.occ, p, i)], SETSIZE, more, full)
    ensures Listing(v, v.path[p], i + 1, ks + more, full)
  {
    var t := Slot(v.occ, p, i);
    var pre := v.path[p];
    assert EdgeOk(v.occ, v.path, t);
    forall k | k in more
      ensures Terminated(k) in v.leaf && |pre| < |Terminated(k)| && pre <= Terminated(k) && Terminated(k)[|pre|] == i
    {
      assert Under(v, v.path[t], SETSIZE, k);
    }
    forall k | Under(v, pre, i + 1, k) && Terminated(k)[|pre|] == i ensures Settled(more, full, k) {
      var w := Terminated(k);
      assert v.path[t] <= w;
      Reach(v, n, 0, t, w);
      assert WordOk(v, w);
      assert Under(v, v.path[t], SETSIZE, k);
    }
    hide TreeExcept;
    ListingAppend(v, pre, i, ks, more, full);
  }

  //
  // The whole list.
  //

  lemma SortedDistinct(ks: seq<seq<int>>)
    requires Sorted(ks)
    ensures forall i, j | 0 <= i < j < |ks| :: ks[i] != ks[j]
  {
    forall i, j | 0 <= i < j < |ks| ensures ks[i] != ks[j] {
      WordLessIrreflexive(Terminated(ks[i]));
    }
  }

  lemma {:induction false} DistinctSize(ks: seq<seq<int>>, s: set<seq<int>>)
    requires forall i, j | 0 <= i < j < |ks| :: ks[i] != ks[j]
    requires forall k | k in ks :: k in s
    ensures |ks| <= |s|
    ensures (forall k | k in s :: k in ks) ==> |ks| == |s|
  {
    if ks == [] {
      if s != {} { var k :| k in s; assert k !in ks; }
    } else {
      var k := ks[0];
      assert k in ks;
      assert forall x :: x in ks <==> x == k || x in ks[1..];
      DistinctSize(ks[1..], s - {k});
    }
  }

  /** How many keys a list of the first ones has. */
  lemma ListingSize(v: View, m: map<seq<int>, int>, ks: seq<seq<int>>, cap: int)
    requires Means(v, m) && Listing(v, [], SETSIZE, ks, |ks| >= cap - 1)
    requires |ks| <= if cap > 1 then cap - 1 else 0
    ensures forall k | k in ks :: k in m
    ensures forall k | k in m :: k in ks || forall u | u in ks :: KeyLess(u, k)
    ensures |ks| == if cap <= 1 then 0 else if |m| < cap - 1 then |m| else cap - 1
  {
    forall k | k in ks ensures k in m {
      assert Under(v, [], SETSIZE, k);
    }
    forall k | k in m ensures Settled(ks, |ks| >= cap - 1, k) {
      assert WordOk(v, Terminated(k));
      assert Under(v, [], SETSIZE, k);
    }
    SortedDistinct(ks);
    DistinctSize(ks, m.Keys);
    assert |m| == |m.Keys|;
  }
}
