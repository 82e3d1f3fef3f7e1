/**
  Asking the free cells of the double array for room for a set of labels, and moving the children of a
  node there one by one (ArrayTrie.cpp, getNewSet and the last branch of sub_insert).
 */
module Relocation {
  import opened TrieTree
  import opened CellChain

  ghost predicate Labels(n: seq<int>) {
    n != [] && forall c | c in n :: 0 <= c < SETSIZE
  }

  /** Every cell the labels n ask for at this base is unused, or beyond the end of the file. */
  ghost predicate Vacant(cells: seq<Elem>, base: int, n: seq<int>) {
    forall c | c in n :: 0 <= base + c && (base + c < |cells| ==> cells[base + c].check < 0)
  }

  /** s holds the cells of the labels n at this base. */
  ghost predicate CellsOf(s: set<int>, base: int, n: seq<int>) {
    forall z :: z in s <==> z - base in n
  }

  ghost function CellSet(base: int, n: seq<int>): set<int> {
    if n == [] then {} else CellSet(base, n[..|n| - 1]) + {base + n[|n| - 1]}
  }

  lemma CellSetOne(base: int, c: int)
    ensures CellSet(base, [c]) == {base + c}
  {
    assert [c][..0] == [];
  }

  lemma {:induction false} CellSetMembers(base: int, n: seq<int>)
    ensures CellsOf(CellSet(base, n), base, n)
  {
    if n != [] {
      CellSetMembers(base, n[..|n| - 1]);
      assert n == n[..|n| - 1] + [n[|n| - 1]];
    }
  }

  lemma NewCells(cells: seq<Elem>, reserved: set<int>, base: int, n: seq<int>, n': seq<int>)
    requires CellsOf(reserved, base, n) && forall c :: c in n <==> c in n'
    requires forall z | z in reserved :: FIRST_FREE <= z < |cells| && cells[z].check < 0
    ensures reserved == CellSet(base, n')
    ensures forall c | c in n' :: FIRST_FREE <= base + c < |cells| && base + c !in Occupied(cells)
  {
    forall c | c in n' ensures FIRST_FREE <= base + c < |cells| && base + c !in Occupied(cells) {
      assert base + c in reserved;
    }
    CellSetMembers(base, n');
    forall z ensures z in reserved <==> z in CellSet(base, n') {
      assert z in reserved <==> z - base in n;
    }
  }

  /** The i-th label of n: its cell at either base, before and after its turn. */
  lemma NthCell(b: int, nb: int, n: seq<int>, i: int)
    requires Distinct(n) && 0 <= i < |n|
    ensures b + n[i] !in CellSet(b, n[..i])
    ensures nb + n[i] in CellSet(nb, n) - CellSet(nb, n[..i])
    ensures CellSet(b, n[..i + 1]) == CellSet(b, n[..i]) + {b + n[i]}
    ensures CellSet(nb, n) - CellSet(nb, n[..i + 1]) == CellSet(nb, n) - CellSet(nb, n[..i]) - {nb + n[i]}
  {
    assert n[..i + 1][..i] == n[..i];
    CellSetMembers(b, n[..i]);
    CellSetMembers(nb, n[..i]);
    CellSetMembers(nb, n);
    assert n[i] in n;
    assert nb + n[i] in CellSet(nb, n) <==> nb + n[i] - nb in n;
  }

  /** Rewriting the check fields in one window, where every cell that names t as its parent lies. */
  lemma ReparentedCells(cells: seq<Elem>, cells': seq<Elem>, start: int, t: int, t': int)
    requires |cells'| == |cells| && 0 <= t && 0 <= t'
    requires forall x | 0 <= x < |cells| ::
      cells'[x] == if start <= x < start + SETSIZE && cells[x].check == t then Elem(cells[x].base, t') else cells[x]
    requires forall x | x in Occupied(cells) && Occupied(cells)[x].check == t :: start <= x < start + SETSIZE
    ensures Occupied(cells') == Reparented(Occupied(cells), t, t')
  {
    assert forall x | 0 <= x < |cells| && cells[x].check == t :: x in Occupied(cells) && Occupied(cells)[x].check == t;
    assert forall x | 0 <= x < |cells| :: (cells'[x].check >= 0) == (cells[x].check >= 0);
  }

  /** Once the file has been extended, vacant cells are free. */
  lemma VacantFree(cells0: seq<Elem>, cells: seq<Elem>, base: int, n: seq<int>)
    requires Vacant(cells0, base, n) && Labels(n) && Ascending(n) && FIRST_FREE <= base + n[0]
    requires cells0 <= cells && base + SETSIZE <= |cells|
    requires forall z | |cells0| <= z < |cells| :: cells[z].check < 0
    ensures forall k {:trigger n[k]} | 0 <= k < |n| :: IsFree(cells, {}, base + n[k])
  {
    forall k | 0 <= k < |n| ensures IsFree(cells, {}, base + n[k]) {
      assert n[k] in n;
      var z := base + n[k];
      assert z < |cells0| ==> cells[z] == cells0[z];
    }
  }

  lemma AscendingFirst(n: seq<int>)
    requires Ascending(n) && n != []
    ensures forall c | c in n :: n[0] <= c
  {
  }

  /** The node that relocates from base b. */
  ghost predicate PlanNode(v: View, size: int, p: int, b: int) {
    && Edges(v.occ, v.path) && Windows(v.occ, v.path, size)
    && p in v.occ && p in v.path && v.occ[p].base == b >= 0
  }

  /** The labels n less the last one are those of the children of p. */
  ghost predicate PlanChildren(occ: map<int, Elem>, p: int, b: int, n: seq<int>) {
    && Distinct(n) && |n| >= 2
    && (forall k {:trigger n[k]} | 0 <= k < |n| - 1 :: IsChild(occ, p, b + n[k]))
    && forall x {:trigger Covered(occ, p, b, n[..|n| - 1], x)} :: Covered(occ, p, b, n[..|n| - 1], x)
  }

  ghost predicate Covered(occ: map<int, Elem>, p: int, b: int, m: seq<int>, x: int) {
    IsChild(occ, p, x) ==> x - b in m
  }

  ghost predicate PlanTargets(occ: map<int, Elem>, nb: int, n: seq<int>) {
    nb > SETSIZE && forall k {:trigger n[k]} | 0 <= k < |n| :: 0 <= n[k] < SETSIZE && nb + n[k] !in occ
  }

  ghost predicate Plan(v: View, size: int, p: int, b: int, nb: int, n: seq<int>) {
    PlanNode(v, size, p, b) && PlanChildren(v.occ, p, b, n) && PlanTargets(v.occ, nb, n)
  }

  /** The first i children have moved. */
  ghost predicate HalfMoved(v: View, occ': map<int, Elem>, reserved: set<int>, p: int, b: int, nb: int, n: seq<int>, i: int)
  {
    && 0 <= i < |n|
    && IsMove(v.occ, occ', p, CellSet(b, n[..i]), b, nb)
    && reserved == CellSet(nb, n) - CellSet(nb, n[..i])
  }

  lemma PlanReady(v: View, size: int, p: int, b: int, nb: int, n: seq<int>)
    requires PlanNode(v, size, p, b) && PlanChildren(v.occ, p, b, n) && Labels(n) && nb > SETSIZE
    requires forall c | c in n :: nb + c !in v.occ
    ensures Plan(v, size, p, b, nb, n)
  {
    hide PlanNode, PlanChildren;
    assert forall k | 0 <= k < |n| :: n[k] in n;
  }

  lemma PlanStart(v: View, size: int, occ': map<int, Elem>, reserved: set<int>, p: int, b: int, nb: int, n: seq<int>)
    requires Plan(v, size, p, b, nb, n) && reserved == CellSet(nb, n)
    requires occ' == v.occ[p := Elem(nb, v.occ[p].check)]
    ensures HalfMoved(v, occ', reserved, p, b, nb, n, 0)
  {
    hide PlanTargets, Windows;
    MoveStart(v.occ, v.path, p, b, nb);
    assert n[..0] == [];
  }

  /** The child whose turn it is. */
  lemma NthChild(v: View, size: int, p: int, b: int, nb: int, n: seq<int>, i: int)
    requires Plan(v, size, p, b, nb, n) && 0 <= i < |n| - 1
    ensures var t := b + n[i];
            && IsChild(v.occ, p, t) && t != p && t > 0 && b != nb && nb + n[i] !in v.occ && nb + n[i] > 0
            && (v.occ[t].base >= 0 ==> v.occ[t].base + SETSIZE <= size)
  {
    var t := b + n[i];
    assert IsChild(v.occ, p, t);
    assert EdgeOk(v.occ, v.path, t) && EdgeOk(v.occ, v.path, p);
    assert v.occ[t].base >= 0 ==> WindowOk(v.occ, v.path, size, t);
  }

  lemma ParentStays(v: View, size: int, occ': map<int, Elem>, reserved: set<int>, p: int, b: int, nb: int, n: seq<int>, i: int)
    requires Plan(v, size, p, b, nb, n) && HalfMoved(v, occ', reserved, p, b, nb, n, i)
    ensures p !in CellSet(b, n[..i])
  {
    assert EdgeOk(v.occ, v.path, p);
    assert p in CellSet(b, n[..i]) ==> IsChild(v.occ, p, p);
  }

  lemma BeforeChild(v: View, size: int, occ': map<int, Elem>, reserved: set<int>, p: int, b: int, nb: int, n: seq<int>, i: int)
    requires Plan(v, size, p, b, nb, n) && HalfMoved(v, occ', reserved, p, b, nb, n, i) && i < |n| - 1
    ensures var t := b + n[i];
            && t in occ' && occ'[t] == v.occ[t] && t > 0 && v.occ[t].check == p != t
            && nb + n[i] in reserved
            && (v.occ[t].base >= 0 ==> v.occ[t].base + SETSIZE <= size)
            && forall x | x in occ' && occ'[x].check == t :: 0 <= v.occ[t].base <= x < v.occ[t].base + SETSIZE
  {
    var t := b + n[i];
    var s := CellSet(b, n[..i]);
    NthChild(v, size, p, b, nb, n, i);
    NthCell(b, nb, n, i);
    ParentStays(v, size, occ', reserved, p, b, nb, n, i);
    UnmovedElem(v.occ, occ', p, s, b, nb, t);
    hide PlanChildren, PlanTargets, IsMove, CellSet, Edges, Windows;
    forall x | x in occ' && occ'[x].check == t ensures 0 <= v.occ[t].base <= x < v.occ[t].base + SETSIZE {
      GrandchildrenInWindow(v, occ', p, s, b, nb, t, x);
    }
  }

  lemma AfterChild(v: View, size: int, occ': map<int, Elem>, reserved: set<int>, p: int, b: int, nb: int, n: seq<int>, i: int)
    requires Plan(v, size, p, b, nb, n) && HalfMoved(v, occ', reserved, p, b, nb, n, i) && i < |n| - 1
    ensures b + n[i] in occ'
    ensures HalfMoved(v, AfterMove(occ', b + n[i], nb + n[i]), reserved - {nb + n[i]}, p, b, nb, n, i + 1)
  {
    var t := b + n[i];
    var s := CellSet(b, n[..i]);
    NthChild(v, size, p, b, nb, n, i);
    NthCell(b, nb, n, i);
    ParentStays(v, size, occ', reserved, p, b, nb, n, i);
    hide PlanNode, PlanChildren, PlanTargets, IsMove, CellSet, AfterMove;
    MoveStep(v.occ, occ', p, s, b, nb, t);
  }

  lemma AllChildren(occ: map<int, Elem>, p: int, b: int, n: seq<int>)
    requires PlanChildren(occ, p, b, n)
    ensures forall x | IsChild(occ, p, x) :: x in CellSet(b, n[..|n| - 1])
  {
    var m := n[..|n| - 1];
    CellSetMembers(b, m);
    hide CellSet;
    forall x | IsChild(occ, p, x) ensures x in CellSet(b, m) {
      assert Covered(occ, p, b, m, x);
    }
  }

  lemma LastLabel(nb: int, n: seq<int>)
    requires Distinct(n) && n != []
    ensures CellSet(nb, n) - CellSet(nb, n[..|n| - 1]) == {nb + n[|n| - 1]}
  {
    NthCell(nb, nb, n, |n| - 1);
    assert n[..|n|] == n;
  }

  lemma LastChild(v: View, size: int, occ': map<int, Elem>, reserved: set<int>, p: int, b: int, nb: int, n: seq<int>)
    requires Plan(v, size, p, b, nb, n) && HalfMoved(v, occ', reserved, p, b, nb, n, |n| - 1)
    ensures FullMove(v, occ', p, CellSet(b, n[..|n| - 1]), b, nb)
    ensures reserved == {nb + n[|n| - 1]}
  {
    NthChild(v, size, p, b, nb, n, 0);
    AllChildren(v.occ, p, b, n);
    LastLabel(nb, n);
    assert nb > 0;
    hide IsMove, Edges, Windows, PlanTargets, PlanChildren, CellSet;
  }

  ghost predicate LabelsOf(occ: map<int, Elem>, p: int, b: int, n: seq<int>) {
    Ascending(n) && forall k :: k in n <==> 0 <= k < SETSIZE && IsChild(occ, p, b + k)
  }

  lemma LabelMeans(occ: map<int, Elem>, p: int, b: int, n: seq<int>, c: int)
    requires LabelsOf(occ, p, b, n) && 0 <= c < SETSIZE
    ensures c in n <==> IsChild(occ, p, b + c)
  {
  }

  lemma ChildLabel(v: View, p: int, n: seq<int>, x: int)
    requires Edges(v.occ, v.path) && p in v.occ && IsChild(v.occ, p, x) && LabelsOf(v.occ, p, v.occ[p].base, n)
    ensures x - v.occ[p].base in n
  {
    assert EdgeOk(v.occ, v.path, x);
    assert p != 0 && v.occ[p].base + (x - v.occ[p].base) == x;
  }

  lemma PlanChildrenOf(v: View, p: int, n: seq<int>, c: int)
    requires Edges(v.occ, v.path) && p in v.occ && HasChild(v.occ, p) && LabelsOf(v.occ, p, v.occ[p].base, n) && c !in n
    ensures PlanChildren(v.occ, p, v.occ[p].base, n + [c])
  {
    var b := v.occ[p].base;
    var x :| IsChild(v.occ, p, x);
    ChildLabel(v, p, n, x);
    var n' := n + [c];
    assert n'[..|n'| - 1] == n;
    forall k | 0 <= k < |n| ensures IsChild(v.occ, p, b + n[k]) && n[k] != c {
      assert n[k] in n;
    }
    hide EdgeOk, Edges;
    forall y ensures Covered(v.occ, p, b, n, y) {
      if IsChild(v.occ, p, y) { ChildLabel(v, p, n, y); }
    }
  }

  /** An inner node of a tree, the labels of its children, and one label that none of them has. */
  lemma PlanOf(v: View, size: int, p: int, n: seq<int>, c: int)
    requires Tree(v, size) && p in v.occ && p in v.path && v.occ[p].base >= 0 && 0 <= c < SETSIZE
    requires LabelsOf(v.occ, p, v.occ[p].base, n) && c !in n
    ensures PlanNode(v, size, p, v.occ[p].base) && PlanChildren(v.occ, p, v.occ[p].base, n + [c]) && Labels(n + [c])
  {
    assert p != 0 && HasChild(v.occ, p);
    PlanChildrenOf(v, p, n, c);
    assert forall k | k in n + [c] :: k in n || k == c;
    hide Leaves, Words, Owners, PlanChildren, Edges, Windows;
  }
}
