/**
  The logical tree inside the Korean double-array trie (ArrayTrie.cpp), seen through its occupied
  cells only. Free cells and their chain are the business of module CellChain.

  A key is stored as its bytes followed by the terminating zero byte (a `Word`). The edges from the
  root spell a prefix of the word and the record of the leaf, in the tail file, holds the rest.
 */
module TrieTree {
  type Word = seq<int>

  datatype Elem = Elem(base: int, check: int)
  datatype Record = Record(ext: Word, data: int)

  const SETSIZE := 256
  const MAX_KEY := 495 // the 500-byte tail buffer less the terminator, the 0x01 mark and the data
                       // leaves 494, and the first byte of a key is never part of a tail

  /**
    occ:  the cells whose check field is not negative (the root, cell 0, is not among them)
    path: the bytes spelled from the root to each occupied cell
    recs: the records written in the tail file, by position
    leaf: the cell at which each stored word ends
   */
  datatype View = View(occ: map<int, Elem>, path: map<int, Word>, recs: map<int, Record>, leaf: map<Word, int>)

  predicate IsWord(w: Word) {
    && 2 <= |w| <= MAX_KEY + 1
    && w[|w| - 1] == 0
    && forall i | 0 <= i < |w| - 1 :: 2 <= w[i] < SETSIZE
  }

  /** A C string and its terminator, which is what may be looked for. */
  predicate IsInput(w: Word) {
    && 1 <= |w|
    && w[|w| - 1] == 0
    && forall i | 0 <= i < |w| - 1 :: 1 <= w[i] < SETSIZE
  }

  ghost function Base(occ: map<int, Elem>, x: int): int
    requires x == 0 || x in occ
  {
    if x == 0 then 0 else occ[x].base
  }

  /** The cell at which the node p keeps its child for label c. */
  ghost function Slot(occ: map<int, Elem>, p: int, c: int): int
    requires p == 0 || p in occ
  {
    Base(occ, p) + c
  }

  ghost predicate IsLeaf(occ: map<int, Elem>, x: int) {
    x in occ && occ[x].base < 0
  }

  ghost predicate IsInner(occ: map<int, Elem>, x: int) {
    x == 0 || (x in occ && occ[x].base >= 0)
  }

  ghost predicate IsChild(occ: map<int, Elem>, p: int, x: int) {
    x in occ && occ[x].check == p
  }

  ghost predicate HasChild(occ: map<int, Elem>, p: int) {
    exists x :: IsChild(occ, p, x)
  }

  /** The word that ends at leaf x. */
  ghost function WordAt(v: View, x: int): Word
    requires IsLeaf(v.occ, x) && x in v.path && -v.occ[x].base in v.recs
  {
    v.path[x] + v.recs[-v.occ[x].base].ext
  }

  ghost predicate EdgeOk(occ: map<int, Elem>, path: map<int, Word>, x: int)
    requires x in occ
  {
    var p := occ[x].check;
    && x != 0 && x in path && p in path && IsInner(occ, p)
    && 0 <= x - Base(occ, p) < SETSIZE
    && path[x] == path[p] + [x - Base(occ, p)]
  }

  ghost predicate Edges(occ: map<int, Elem>, path: map<int, Word>) {
    && 0 !in occ
    && path.Keys == occ.Keys + {0}
    && path[0] == []
    && forall x {:trigger EdgeOk(occ, path, x)} | x in occ :: EdgeOk(occ, path, x)
  }

  ghost predicate WindowOk(occ: map<int, Elem>, path: map<int, Word>, n: int, x: int) {
    x in occ && x in path && SETSIZE < occ[x].base && occ[x].base + SETSIZE <= n && 0 !in path[x]
  }

  /** Every inner node other than the root has its whole window beyond the root's and below n. */
  ghost predicate Windows(occ: map<int, Elem>, path: map<int, Word>, n: int) {
    forall x {:trigger WindowOk(occ, path, n, x)} | x in occ && occ[x].base >= 0 :: WindowOk(occ, path, n, x)
  }

  /** Inner nodes have children; the node `hollow` is allowed to have none (0 exempts nobody). */
  ghost predicate Fruitful(occ: map<int, Elem>, hollow: int) {
    forall x {:trigger HasChild(occ, x)} | x in occ && occ[x].base >= 0 && x != hollow :: HasChild(occ, x)
  }

  ghost predicate Shallow(path: map<int, Word>) {
    forall x | x in path :: |path[x]| <= MAX_KEY + 1
  }

  ghost predicate LeafOk(v: View, x: int) {
    && IsLeaf(v.occ, x) && x in v.path && -v.occ[x].base in v.recs
    && WordAt(v, x) in v.leaf && v.leaf[WordAt(v, x)] == x
  }

  ghost predicate Leaves(v: View) {
    forall x {:trigger LeafOk(v, x)} | IsLeaf(v.occ, x) :: LeafOk(v, x)
  }

  /** No record belongs to two leaves. */
  ghost predicate Owners(occ: map<int, Elem>) {
    forall x, y {:trigger IsLeaf(occ, x), IsLeaf(occ, y)} | IsLeaf(occ, x) && IsLeaf(occ, y) && x != y ::
      occ[x].base != occ[y].base
  }

  ghost predicate WordOk(v: View, w: Word) {
    && w in v.leaf && IsWord(w) && IsLeaf(v.occ, v.leaf[w])
    && v.leaf[w] in v.path && -v.occ[v.leaf[w]].base in v.recs
    && WordAt(v, v.leaf[w]) == w
  }

  ghost predicate Words(v: View) {
    forall w {:trigger WordOk(v, w)} | w in v.leaf :: WordOk(v, w)
  }

  ghost predicate TreeExcept(v: View, n: int, hollow: int) {
    && Edges(v.occ, v.path)
    && Shallow(v.path)
    && Windows(v.occ, v.path, n)
    && Fruitful(v.occ, hollow)
    && Leaves(v)
    && Owners(v.occ)
    && Words(v)
  }

  ghost predicate Tree(v: View, n: int) {
    TreeExcept(v, n, 0)
  }

  ghost function DataOf(v: View, w: Word): int
    requires WordOk(v, w)
  {
    v.recs[-v.occ[v.leaf[w]].base].data
  }

  /** What the trie says of a word: its data, or -1. */
  ghost function Lookup(v: View, w: Word): int
    requires Words(v)
  {
    if w in v.leaf then assert WordOk(v, w); DataOf(v, w) else -1
  }

  /** The word of a key, and the key of a word. */
  function Terminated(k: seq<int>): Word {
    k + [0]
  }

  function Chopped(w: Word): seq<int>
    requires |w| > 0
  {
    w[..|w| - 1]
  }

  predicate IsKey(k: seq<int>) {
    IsWord(Terminated(k))
  }

  predicate IsString(k: seq<int>) {
    IsInput(Terminated(k))
  }

  /** m is the finite map from keys to data that the trie stands for. */
  ghost predicate Means(v: View, m: map<seq<int>, int>) {
    && Words(v)
    && (forall k {:trigger Terminated(k)} :: k in m <==> Terminated(k) in v.leaf)
    && forall k {:trigger m[k]} | k in m :: m[k] == Lookup(v, Terminated(k))
  }

  lemma TerminatedInjective(a: seq<int>, b: seq<int>)
    requires Terminated(a) == Terminated(b)
    ensures a == b
  {
    assert a == Chopped(Terminated(a)) && b == Chopped(Terminated(b));
  }

  lemma MeansSame(v: View, v': View, m: map<seq<int>, int>)
    requires Means(v, m) && Words(v') && v'.leaf.Keys == v.leaf.Keys
    requires forall u | u in v.leaf :: Lookup(v', u) == Lookup(v, u)
    ensures Means(v', m)
  {
  }

  lemma MeansAdd(v: View, v': View, m: map<seq<int>, int>, k: seq<int>, data: int)
    requires Means(v, m) && Words(v') && k !in m && v'.leaf.Keys == v.leaf.Keys + {Terminated(k)}
    requires forall u | u in v.leaf :: Lookup(v', u) == Lookup(v, u)
    requires Lookup(v', Terminated(k)) == data
    ensures Means(v', m[k := data])
  {
    forall k' ensures k' in m[k := data] <==> Terminated(k') in v'.leaf {
      if Terminated(k') == Terminated(k) { TerminatedInjective(k', k); }
    }
  }

  lemma MeansDrop(v: View, v': View, m: map<seq<int>, int>, k: seq<int>)
    requires Means(v, m) && Words(v') && v'.leaf.Keys == v.leaf.Keys - {Terminated(k)}
    requires forall u | u in v'.leaf :: Lookup(v', u) == Lookup(v, u)
    ensures Means(v', m - {k})
  {
    forall k' ensures k' in m - {k} <==> Terminated(k') in v'.leaf {
      if Terminated(k') == Terminated(k) { TerminatedInjective(k', k); }
    }
  }

  //
  // Finding words.
  //

  /** Every prefix of a node's path is the path of a node, and the next byte leads to a child of it. */
  lemma {:induction false} Ancestor(occ: map<int, Elem>, path: map<int, Word>, x: int, k: nat) returns (a: int)
    requires Edges(occ, path) && x in path && k <= |path[x]|
    ensures a in path && path[a] == path[x][..k]
    ensures k == |path[x]| ==> a == x
    ensures k < |path[x]| ==> IsInner(occ, a) && IsChild(occ, a, Slot(occ, a, path[x][k]))
    ensures k + 1 == |path[x]| ==> Slot(occ, a, path[x][k]) == x
    decreases |path[x]|
  {
    if k == |path[x]| {
      a := x;
    } else {
      assert EdgeOk(occ, path, x);
      var p := occ[x].check;
      assert path[p] == path[x][..|path[x]| - 1];
      a := Ancestor(occ, path, p, k);
      assert path[p][..k] == path[x][..k];
    }
  }

  lemma {:induction false} PathInjective(occ: map<int, Elem>, path: map<int, Word>, x: int, y: int)
    requires Edges(occ, path) && x in path && y in path && path[x] == path[y]
    ensures x == y
    decreases |path[x]|
  {
    assert x != 0 ==> EdgeOk(occ, path, x);
    assert y != 0 ==> EdgeOk(occ, path, y);
    if x != 0 && y != 0 {
      var l := |path[x]| - 1;
      assert path[occ[x].check] == path[x][..l] && path[occ[y].check] == path[y][..l];
      PathInjective(occ, path, occ[x].check, occ[y].check);
      assert path[x][l] == path[y][l];
    }
  }

  /** A stored word that begins with the path of node p runs on below p: to the child for its next
      byte when p is an inner node, and it ends at p when p is a leaf. */
  lemma Reach(v: View, n: int, hollow: int, p: int, w: Word)
    requires TreeExcept(v, n, hollow) && p in v.path && w in v.leaf && v.path[p] <= w
    ensures IsInner(v.occ, p) ==> |v.path[p]| < |w| && IsChild(v.occ, p, Slot(v.occ, p, w[|v.path[p]|]))
    ensures IsLeaf(v.occ, p) ==> v.leaf[w] == p
  {
    assert WordOk(v, w);
    var y := v.leaf[w];
    var k := |v.path[p]|;
    if k <= |v.path[y]| {
      var a := Ancestor(v.occ, v.path, y, k);
      assert v.path[a] == v.path[p];
      PathInjective(v.occ, v.path, a, p);
      if k < |v.path[y]| {
        assert v.path[y][k] == w[k];
      }
    } else {
      var a := Ancestor(v.occ, v.path, p, |v.path[y]|);
      assert v.path[a] == v.path[y];
      PathInjective(v.occ, v.path, a, y);
      assert false;
    }
  }

  /** A node whose path ends with the terminator is the leaf of that word. */
  lemma TerminalNode(v: View, n: int, hollow: int, p: int)
    requires TreeExcept(v, n, hollow) && p in v.path && |v.path[p]| > 0 && v.path[p][|v.path[p]| - 1] == 0
    ensures LeafOk(v, p) && v.recs[-v.occ[p].base].ext == [] && WordAt(v, p) == v.path[p]
  {
    assert 0 in v.path[p];
    assert v.occ[p].base >= 0 ==> WindowOk(v.occ, v.path, n, p);
    assert IsLeaf(v.occ, p) && LeafOk(v, p);
    var w := WordAt(v, p);
    assert WordOk(v, w);
    var k := |v.path[p]| - 1;
    assert w[k] == 0;
    assert k == |w| - 1;
    assert w == v.path[p];
  }

  /** Standing at a leaf with the first po bytes of w behind: w is stored iff the record holds the rest. */
  lemma AtLeaf(v: View, n: int, p: int, w: Word, po: nat)
    requires Tree(v, n) && IsLeaf(v.occ, p) && IsInput(w) && po <= |w| && p in v.path && v.path[p] == w[..po]
    ensures LeafOk(v, p)
    ensures w in v.leaf <==> v.recs[-v.occ[p].base].ext == w[po..]
    ensures w in v.leaf ==> v.leaf[w] == p
    ensures v.recs[-v.occ[p].base].ext == [] <==> po == |w|
  {
    assert LeafOk(v, p);
    var u := WordAt(v, p);
    var ext := v.recs[-v.occ[p].base].ext;
    assert WordOk(v, u);
    assert u == w[..po] + ext && w == w[..po] + w[po..];
    if w in v.leaf {
      Reach(v, n, 0, p, w);
      assert WordOk(v, w);
      assert ext == u[po..];
    }
    if po == |w| {
      assert v.path[p] == w;
      TerminalNode(v, n, 0, p);
    }
    assert ext == [] ==> u == w[..po] && po > 0 && w[po - 1] == 0;
  }

  /** Standing at an inner node: there is a next byte, and a stored word goes on to the child for it. */
  lemma AtInner(v: View, n: int, p: int, w: Word, po: nat)
    requires Tree(v, n) && SETSIZE <= n && IsInner(v.occ, p) && IsInput(w) && po <= |w| && p in v.path && v.path[p] == w[..po]
    ensures po < |w| && 0 <= Slot(v.occ, p, w[po]) < n && 0 <= Slot(v.occ, p, 0) < n
    ensures |w| > 1 ==> 0 != Slot(v.occ, p, w[po])
    ensures 0 !in v.occ
    ensures w in v.leaf ==> IsChild(v.occ, p, Slot(v.occ, p, w[po]))
    ensures IsChild(v.occ, p, Slot(v.occ, p, w[po])) ==>
              Slot(v.occ, p, w[po]) in v.path && v.path[Slot(v.occ, p, w[po])] == w[..po + 1]
  {
    if po == |w| {
      assert v.path[p] == w;
      TerminalNode(v, n, 0, p);
      assert false;
    }
    assert 0 <= w[po] < SETSIZE;
    assert p != 0 ==> WindowOk(v.occ, v.path, n, p);
    assert p == 0 ==> po == 0;
    var t := Slot(v.occ, p, w[po]);
    if w in v.leaf { Reach(v, n, 0, p, w); }
    if IsChild(v.occ, p, t) { assert EdgeOk(v.occ, v.path, t); }
  }

  /** Nobody but the root has cells in the root's window. */
  lemma RootWindow(v: View, n: int, t: int)
    requires Edges(v.occ, v.path) && Windows(v.occ, v.path, n) && t in v.occ && t < SETSIZE
    ensures IsChild(v.occ, 0, t)
  {
    assert EdgeOk(v.occ, v.path, t);
    assert v.occ[t].check != 0 ==> WindowOk(v.occ, v.path, n, v.occ[t].check);
  }

  /** pp lists, in increasing order, the k from `from` on for which the first k bytes of w are a stored key. */
  ghost predicate Marks(v: View, w: Word, from: int, pp: seq<nat>) {
    && (forall i, j | 0 <= i < j < |pp| :: pp[i] < pp[j])
    && (forall k | k in pp :: from <= k < |w|)
    && forall k: nat | from <= k < |w| :: k in pp <==> Terminated(w[..k]) in v.leaf
  }

  lemma MarksAtLeaf(v: View, n: int, p: int, w: Word, po: nat, k: nat)
    requires Tree(v, n) && IsLeaf(v.occ, p) && IsInput(w) && po <= k < |w| && p in v.path && v.path[p] == w[..po]
    ensures LeafOk(v, p)
    ensures Terminated(w[..k]) in v.leaf <==> v.recs[-v.occ[p].base].ext == w[po..k] + [0]
  {
    var u := Terminated(w[..k]);
    assert u[..po] == w[..po] && u[po..] == w[po..k] + [0];
    assert LeafOk(v, p);
    if u in v.leaf {
      assert WordOk(v, u);
      AtLeaf(v, n, p, u, po);
    }
    if v.recs[-v.occ[p].base].ext == w[po..k] + [0] {
      assert WordAt(v, p) == u;
    }
  }

  lemma MarksAtInner(v: View, n: int, p: int, w: Word, po: nat, k: nat)
    requires Tree(v, n) && IsInner(v.occ, p) && IsInput(w) && po <= k < |w| && p in v.path && v.path[p] == w[..po]
    ensures k == po ==> (Terminated(w[..k]) in v.leaf <==> IsChild(v.occ, p, Slot(v.occ, p, 0)))
    ensures k > po && Terminated(w[..k]) in v.leaf ==> IsChild(v.occ, p, Slot(v.occ, p, w[po]))
  {
    var u := Terminated(w[..k]);
    assert v.path[p] <= u;
    if u in v.leaf { Reach(v, n, 0, p, u); }
    var x := Slot(v.occ, p, 0);
    if k == po && IsChild(v.occ, p, x) {
      assert EdgeOk(v.occ, v.path, x);
      assert v.path[x] == u;
      TerminalNode(v, n, 0, x);
    }
  }

  lemma LeafMarks(v: View, n: int, p: int, w: Word, po: nat, text: Word)
    requires Tree(v, n) && IsLeaf(v.occ, p) && IsInput(w) && po <= |w| && p in v.path && v.path[p] == w[..po]
    requires LeafOk(v, p) && text == (if v.recs[-v.occ[p].base].ext == [] then [] else Chopped(v.recs[-v.occ[p].base].ext))
    ensures Marks(v, w, po, if po != |w| && text <= w[po..] then [po + |text|] else [])
  {
    var ext := v.recs[-v.occ[p].base].ext;
    var pp := if po != |w| && text <= w[po..] then [po + |text|] else [];
    AtLeaf(v, n, p, w, po);
    if po != |w| {
      LeafText(v, p);
      assert w[po..][|w| - 1 - po] == 0;
      assert text <= w[po..] ==> po + |text| < |w|;
      forall k | po <= k < |w| ensures k in pp <==> Terminated(w[..k]) in v.leaf {
        MarksAtLeaf(v, n, p, w, po, k);
        if ext == w[po..k] + [0] {
          assert Chopped(ext) == w[po..k];
          assert text <= w[po..];
        }
        if text <= w[po..] && k == po + |text| {
          assert w[po..k] == text;
        }
      }
    }
  }

  /** A record's text ends with its only zero. */
  lemma LeafText(v: View, p: int)
    requires Words(v) && LeafOk(v, p)
    ensures var ext := v.recs[-v.occ[p].base].ext;
            ext != [] ==> ext == Chopped(ext) + [0] && 0 !in Chopped(ext)
  {
    var ext := v.recs[-v.occ[p].base].ext;
    var w := WordAt(v, p);
    assert WordOk(v, w);
    forall i | 0 <= i < |ext| ensures ext[i] == w[|v.path[p]| + i] {}
  }

  lemma InnerMarks(v: View, n: int, p: int, w: Word, po: nat, rest: seq<nat>)
    requires Tree(v, n) && SETSIZE <= n && IsInner(v.occ, p) && IsInput(w) && po < |w| && p in v.path && v.path[p] == w[..po]
    requires if IsChild(v.occ, p, Slot(v.occ, p, w[po])) then Marks(v, w, po + 1, rest) else rest == []
    ensures Marks(v, w, po, (if IsChild(v.occ, p, Slot(v.occ, p, 0)) then [po] else []) + rest)
  {
    var here: seq<nat> := if IsChild(v.occ, p, Slot(v.occ, p, 0)) then [po] else [];
    hide TreeExcept, IsChild, IsInner, IsInput;
    forall k: nat | po <= k < |w| ensures k in here + rest <==> Terminated(w[..k]) in v.leaf {
      MarksAtInner(v, n, p, w, po, k);
    }
    forall k | k in here + rest ensures po <= k < |w| {
      if k !in here { assert k in rest; }
    }
    var pp := here + rest;
    forall i, j | 0 <= i < j < |pp| ensures pp[i] < pp[j] {
      if i < |here| { assert pp[j] == rest[j - |here|] && rest[j - |here|] in rest; }
    }
  }

  //
  // Changing the tree.
  //

  /** A word is kept when its leaf, wherever it is now, has the same path and the same record. */
  lemma KeptWord(v: View, v': View, u: Word)
    requires WordOk(v, u) && u in v'.leaf
    requires v'.leaf[u] in v'.occ && v'.leaf[u] in v'.path
    requires var x, y := v.leaf[u], v'.leaf[u];
             var pos := -v.occ[x].base;
             && v'.occ[y].base == v.occ[x].base && v'.path[y] == v.path[x]
             && pos in v'.recs && v'.recs[pos] == v.recs[pos]
    ensures WordOk(v', u)
    ensures DataOf(v', u) == DataOf(v, u)
  {
  }

  lemma KeptLeaf(v: View, v': View, x: int, y: int)
    requires LeafOk(v, x) && y in v'.occ && y in v'.path
    requires var pos := -v.occ[x].base;
             && v'.occ[y].base == v.occ[x].base && v'.path[y] == v.path[x]
             && pos in v'.recs && v'.recs[pos] == v.recs[pos]
    requires WordAt(v, x) in v'.leaf && v'.leaf[WordAt(v, x)] == y
    ensures LeafOk(v', y)
  {
  }

  /** The view after the cell t has become the leaf, with record r at pos, of the word path[p] + [c] + r.ext. */
  ghost function WithLeaf(v: View, p: int, c: int, pos: int, r: Record): View
    requires p in v.path && (p == 0 || p in v.occ)
  {
    var t := Slot(v.occ, p, c);
    View(v.occ[t := Elem(-pos, p)], v.path[t := v.path[p] + [c]], v.recs[pos := r],
         v.leaf[v.path[p] + [c] + r.ext := t])
  }

  lemma AddLeafEdges(v: View, n: int, p: int, c: int, pos: int, r: Record)
    requires Edges(v.occ, v.path) && p in v.path && IsInner(v.occ, p) && 0 <= c < SETSIZE
    requires Slot(v.occ, p, c) !in v.occ && Slot(v.occ, p, c) != 0 && pos > 0
    ensures Edges(WithLeaf(v, p, c, pos, r).occ, WithLeaf(v, p, c, pos, r).path)
  {
    var t := Slot(v.occ, p, c);
    var v' := WithLeaf(v, p, c, pos, r);
    forall x | x in v'.occ ensures EdgeOk(v'.occ, v'.path, x) {
      assert x != t ==> EdgeOk(v.occ, v.path, x);
    }
  }

  lemma AddLeafShape(v: View, n: int, p: int, c: int, pos: int, r: Record)
    requires Windows(v.occ, v.path, n) && Fruitful(v.occ, 0) && Owners(v.occ) && 0 !in v.occ
    requires p in v.path && IsInner(v.occ, p)
    requires Slot(v.occ, p, c) !in v.occ && Slot(v.occ, p, c) != 0
    requires pos > 0 && forall x | IsLeaf(v.occ, x) :: v.occ[x].base != -pos
    ensures var v' := WithLeaf(v, p, c, pos, r);
            Windows(v'.occ, v'.path, n) && Fruitful(v'.occ, 0) && Owners(v'.occ)
  {
    var t := Slot(v.occ, p, c);
    var v' := WithLeaf(v, p, c, pos, r);
    forall x | x in v'.occ && v'.occ[x].base >= 0
      ensures WindowOk(v'.occ, v'.path, n, x) && HasChild(v'.occ, x)
    {
      assert WindowOk(v.occ, v.path, n, x) && HasChild(v.occ, x);
      var y :| IsChild(v.occ, x, y);
      assert IsChild(v'.occ, x, y);
    }
    forall x, y | IsLeaf(v'.occ, x) && IsLeaf(v'.occ, y) && x != y ensures v'.occ[x].base != v'.occ[y].base {
      assert x != t ==> IsLeaf(v.occ, x);
      assert y != t ==> IsLeaf(v.occ, y);
    }
  }

  /** What WithLeaf keeps of a leaf. */
  lemma AddLeafKeeps(v: View, p: int, c: int, pos: int, r: Record, x: int)
    requires IsLeaf(v.occ, x) && LeafOk(v, x) && p in v.path && IsInner(v.occ, p)
    requires Slot(v.occ, p, c) !in v.occ && v.occ[x].base != -pos
    ensures var v' := WithLeaf(v, p, c, pos, r);
            && x in v'.occ && x in v'.path && v'.occ[x] == v.occ[x] && v'.path[x] == v.path[x]
            && -v.occ[x].base in v'.recs && v'.recs[-v.occ[x].base] == v.recs[-v.occ[x].base]
  {
  }

  lemma AddLeafNew(v: View, p: int, c: int, pos: int, r: Record)
    requires p in v.path && IsInner(v.occ, p) && pos > 0
    requires IsWord(v.path[p] + [c] + r.ext)
    ensures LeafOk(WithLeaf(v, p, c, pos, r), Slot(v.occ, p, c))
    ensures WordOk(WithLeaf(v, p, c, pos, r), v.path[p] + [c] + r.ext)
  {
    var v' := WithLeaf(v, p, c, pos, r);
    assert WordAt(v', Slot(v.occ, p, c)) == v.path[p] + [c] + r.ext;
  }

  lemma AddLeafWords(v: View, p: int, c: int, pos: int, r: Record)
    requires Leaves(v) && Words(v)
    requires p in v.path && IsInner(v.occ, p)
    requires Slot(v.occ, p, c) !in v.occ && Slot(v.occ, p, c) != 0
    requires pos > 0 && forall x | IsLeaf(v.occ, x) :: v.occ[x].base != -pos
    requires IsWord(v.path[p] + [c] + r.ext) && v.path[p] + [c] + r.ext !in v.leaf
    ensures Leaves(WithLeaf(v, p, c, pos, r)) && Words(WithLeaf(v, p, c, pos, r))
    ensures forall u | u in v.leaf :: Lookup(WithLeaf(v, p, c, pos, r), u) == Lookup(v, u)
  {
    hide IsWord;
    var w := v.path[p] + [c] + r.ext;
    var t := Slot(v.occ, p, c);
    var v' := WithLeaf(v, p, c, pos, r);
    AddLeafNew(v, p, c, pos, r);
    forall x | IsLeaf(v'.occ, x) ensures LeafOk(v', x) {
      if x != t {
        assert IsLeaf(v.occ, x) && LeafOk(v, x);
        AddLeafKeeps(v, p, c, pos, r, x);
        KeptLeaf(v, v', x, x);
      }
    }
    forall u | u in v.leaf
      ensures WordOk(v', u) && DataOf(v', u) == DataOf(v, u)
    {
      assert WordOk(v, u) && LeafOk(v, v.leaf[u]);
      AddLeafKeeps(v, p, c, pos, r, v.leaf[u]);
      KeptWord(v, v', u);
    }
  }

  lemma NobodysRecord(v: View, pos: int)
    requires Leaves(v) && pos !in v.recs
    ensures forall x | IsLeaf(v.occ, x) :: v.occ[x].base != -pos
  {
    forall x | IsLeaf(v.occ, x) ensures v.occ[x].base != -pos {
      assert LeafOk(v, x);
    }
  }

  /** Filling a free slot of an inner node adds one word and changes no other. */
  lemma AddLeaf(v: View, n: int, p: int, c: int, pos: int, r: Record)
    requires Tree(v, n) && p in v.path && IsInner(v.occ, p) && 0 <= c < SETSIZE
    requires Slot(v.occ, p, c) !in v.occ && Slot(v.occ, p, c) != 0
    requires pos > 0 && forall x | IsLeaf(v.occ, x) :: v.occ[x].base != -pos
    requires IsWord(v.path[p] + [c] + r.ext)
    ensures v.path[p] + [c] + r.ext !in v.leaf
    ensures Tree(WithLeaf(v, p, c, pos, r), n)
    ensures forall u | u in v.leaf :: Lookup(WithLeaf(v, p, c, pos, r), u) == Lookup(v, u)
    ensures Lookup(WithLeaf(v, p, c, pos, r), v.path[p] + [c] + r.ext) == r.data
  {
    var w := v.path[p] + [c] + r.ext;
    if w in v.leaf {
      assert v.path[p] <= w && w[|v.path[p]|] == c;
      Reach(v, n, 0, p, w);
      assert false;
    }
    AddLeafEdges(v, n, p, c, pos, r);
    AddLeafShape(v, n, p, c, pos, r);
    AddLeafWords(v, p, c, pos, r);
  }

  lemma WindowsGrow(v: View, m: int, n: int, hollow: int)
    requires TreeExcept(v, m, hollow) && m <= n
    ensures TreeExcept(v, n, hollow)
  {
    forall x | x in v.occ && v.occ[x].base >= 0 ensures WindowOk(v.occ, v.path, n, x) {
      assert WindowOk(v.occ, v.path, m, x);
    }
  }

  /** The view after leaf p has become an inner node with base nb: its record, one byte shorter, now
      belongs to the child for that byte. */
  ghost function WithSplit(v: View, p: int, nb: int): View
    requires LeafOk(v, p) && v.recs[-v.occ[p].base].ext != []
  {
    var pos := -v.occ[p].base;
    var r := v.recs[pos];
    var t := nb + r.ext[0];
    View(v.occ[p := Elem(nb, v.occ[p].check)][t := Elem(-pos, p)],
         v.path[t := v.path[p] + [r.ext[0]]],
         v.recs[pos := Record(r.ext[1..], r.data)],
         v.leaf[WordAt(v, p) := t])
  }

  ghost predicate CanSplit(v: View, n: int, p: int, nb: int) {
    && LeafOk(v, p) && v.recs[-v.occ[p].base].ext != []
    && SETSIZE < nb && nb + SETSIZE <= n
    && 0 <= v.recs[-v.occ[p].base].ext[0] < SETSIZE
    && nb + v.recs[-v.occ[p].base].ext[0] !in v.occ
  }

  lemma SplitEdges(v: View, n: int, p: int, nb: int)
    requires Edges(v.occ, v.path) && CanSplit(v, n, p, nb)
    ensures Edges(WithSplit(v, p, nb).occ, WithSplit(v, p, nb).path)
  {
    var v' := WithSplit(v, p, nb);
    var t := nb + v.recs[-v.occ[p].base].ext[0];
    forall x | x in v'.occ ensures EdgeOk(v'.occ, v'.path, x) {
      assert x != t ==> EdgeOk(v.occ, v.path, x);
      assert IsLeaf(v.occ, p);
    }
  }

  lemma SplitInner(v: View, n: int, p: int, nb: int)
    requires Windows(v.occ, v.path, n) && Fruitful(v.occ, 0) && 0 !in v.occ
    requires CanSplit(v, n, p, nb) && 0 !in v.path[p]
    ensures var v' := WithSplit(v, p, nb); Windows(v'.occ, v'.path, n) && Fruitful(v'.occ, 0)
  {
    var v' := WithSplit(v, p, nb);
    var t := nb + v.recs[-v.occ[p].base].ext[0];
    assert IsChild(v'.occ, p, t);
    forall x | x in v'.occ && v'.occ[x].base >= 0
      ensures WindowOk(v'.occ, v'.path, n, x) && HasChild(v'.occ, x)
    {
      if x != p {
        assert WindowOk(v.occ, v.path, n, x) && HasChild(v.occ, x);
        var y :| IsChild(v.occ, x, y);
        assert IsChild(v'.occ, x, y);
      }
    }
  }

  lemma SplitOwners(v: View, n: int, p: int, nb: int)
    requires Owners(v.occ) && CanSplit(v, n, p, nb)
    ensures Owners(WithSplit(v, p, nb).occ)
  {
    var v' := WithSplit(v, p, nb);
    var t := nb + v.recs[-v.occ[p].base].ext[0];
    forall x, y | IsLeaf(v'.occ, x) && IsLeaf(v'.occ, y) && x != y ensures v'.occ[x].base != v'.occ[y].base {
      assert x != t ==> IsLeaf(v.occ, x) && x != p;
      assert y != t ==> IsLeaf(v.occ, y) && y != p;
      assert IsLeaf(v.occ, p);
    }
  }

  /** What WithSplit keeps of another leaf. */
  lemma SplitKeeps(v: View, n: int, p: int, nb: int, x: int)
    requires Owners(v.occ) && CanSplit(v, n, p, nb) && IsLeaf(v.occ, x) && LeafOk(v, x) && x != p
    ensures var v' := WithSplit(v, p, nb);
            && x in v'.occ && x in v'.path && v'.occ[x] == v.occ[x] && v'.path[x] == v.path[x]
            && -v.occ[x].base in v'.recs && v'.recs[-v.occ[x].base] == v.recs[-v.occ[x].base]
            && (WordAt(v, x) != WordAt(v, p) ==> WordAt(v, x) in v'.leaf && v'.leaf[WordAt(v, x)] == x)
  {
    assert IsLeaf(v.occ, p);
  }

  lemma SplitNew(v: View, n: int, p: int, nb: int)
    requires CanSplit(v, n, p, nb) && WordOk(v, WordAt(v, p))
    ensures var v' := WithSplit(v, p, nb);
            && LeafOk(v', nb + v.recs[-v.occ[p].base].ext[0]) && WordOk(v', WordAt(v, p))
            && DataOf(v', WordAt(v, p)) == DataOf(v, WordAt(v, p))
  {
    var v' := WithSplit(v, p, nb);
    var t := nb + v.recs[-v.occ[p].base].ext[0];
    assert WordAt(v', t) == WordAt(v, p);
  }

  lemma SplitWord(v: View, n: int, p: int, nb: int, u: Word)
    requires Leaves(v) && Words(v) && Owners(v.occ) && CanSplit(v, n, p, nb) && u in v.leaf
    ensures var v' := WithSplit(v, p, nb);
            WordOk(v', u) && DataOf(v', u) == DataOf(v, u)
  {
    hide IsWord, Owners;
    assert WordOk(v, u);
    if v.leaf[u] == p {
      SplitNew(v, n, p, nb);
    } else {
      assert LeafOk(v, v.leaf[u]) && LeafOk(v, p);
      SplitKeeps(v, n, p, nb, v.leaf[u]);
      KeptWord(v, WithSplit(v, p, nb), u);
    }
  }

  lemma SplitWords(v: View, n: int, p: int, nb: int)
    requires Leaves(v) && Words(v) && Owners(v.occ)
    requires CanSplit(v, n, p, nb)
    ensures Leaves(WithSplit(v, p, nb)) && Words(WithSplit(v, p, nb))
    ensures WithSplit(v, p, nb).leaf.Keys == v.leaf.Keys
    ensures forall u | u in v.leaf :: Lookup(WithSplit(v, p, nb), u) == Lookup(v, u)
  {
    var v' := WithSplit(v, p, nb);
    assert WordOk(v, WordAt(v, p)) && v'.leaf.Keys == v.leaf.Keys;
    SplitLeaves(v, n, p, nb);
    hide CanSplit, WithSplit, WordAt, Owners, LeafOk, WordOk, DataOf, IsLeaf, Leaves;
    forall u | u in v.leaf
      ensures WordOk(v', u) && DataOf(v', u) == DataOf(v, u)
    {
      SplitWord(v, n, p, nb, u);
    }
  }

  lemma SplitLeaves(v: View, n: int, p: int, nb: int)
    requires Leaves(v) && Owners(v.occ) && CanSplit(v, n, p, nb) && WordOk(v, WordAt(v, p))
    ensures Leaves(WithSplit(v, p, nb))
  {
    hide IsWord, Owners;
    var v' := WithSplit(v, p, nb);
    SplitNew(v, n, p, nb);
    forall x | IsLeaf(v'.occ, x) ensures LeafOk(v', x) {
      if x != nb + v.recs[-v.occ[p].base].ext[0] {
        assert IsLeaf(v.occ, x) && LeafOk(v, x);
        SplitKeeps(v, n, p, nb, x);
        KeptLeaf(v, v', x, x);
      }
    }
  }

  /** Splitting a leaf stores the same words with the same data. */
  lemma SplitLeaf(v: View, n: int, p: int, nb: int)
    requires Tree(v, n) && CanSplit(v, n, p, nb)
    ensures Tree(WithSplit(v, p, nb), n)
    ensures WithSplit(v, p, nb).leaf.Keys == v.leaf.Keys
    ensures forall u | u in v.leaf :: Lookup(WithSplit(v, p, nb), u) == Lookup(v, u)
  {
    var w := WordAt(v, p);
    assert WordOk(v, w);
    assert forall i | 0 <= i < |v.path[p]| :: v.path[p][i] == w[i];
    SplitEdges(v, n, p, nb);
    SplitInner(v, n, p, nb);
    SplitOwners(v, n, p, nb);
    SplitWords(v, n, p, nb);
  }

  /** The view after leaf x has been given back to the free cells. */
  ghost function WithoutLeaf(v: View, x: int): View
    requires LeafOk(v, x)
  {
    View(v.occ - {x}, v.path - {x}, v.recs, v.leaf - {WordAt(v, x)})
  }

  lemma DropShape(occ: map<int, Elem>, path: map<int, Word>, n: int, hollow: int, x: int)
    requires Edges(occ, path) && Windows(occ, path, n) && Fruitful(occ, hollow) && Owners(occ)
    requires x in occ && !HasChild(occ, x) && (hollow == x || hollow == 0)
    ensures var occ', path' := occ - {x}, path - {x};
            && Edges(occ', path') && Windows(occ', path', n) && Fruitful(occ', occ[x].check) && Owners(occ')
  {
    var occ', path' := occ - {x}, path - {x};
    forall y | y in occ' ensures EdgeOk(occ', path', y) {
      assert EdgeOk(occ, path, y);
      assert occ[y].check == x ==> IsChild(occ, x, y);
    }
    forall y | y in occ' && occ'[y].base >= 0 ensures WindowOk(occ', path', n, y) {
      assert WindowOk(occ, path, n, y);
    }
    forall y | y in occ' && occ'[y].base >= 0 && y != occ[x].check ensures HasChild(occ', y) {
      assert HasChild(occ, y);
      var z :| IsChild(occ, y, z);
      assert IsChild(occ', y, z);
    }
    forall y, z | IsLeaf(occ', y) && IsLeaf(occ', z) && y != z ensures occ'[y].base != occ'[z].base {
      assert IsLeaf(occ, y) && IsLeaf(occ, z);
    }
  }

  lemma LeafChildless(occ: map<int, Elem>, path: map<int, Word>, x: int)
    requires Edges(occ, path) && IsLeaf(occ, x)
    ensures !HasChild(occ, x)
  {
    forall y ensures !IsChild(occ, x, y) {
      assert y in occ ==> EdgeOk(occ, path, y);
    }
  }

  /** Dropping a leaf forgets its word and no other; its parent may be left without children. */
  lemma DropLeaf(v: View, n: int, x: int)
    requires Tree(v, n) && IsLeaf(v.occ, x) && LeafOk(v, x)
    ensures TreeExcept(WithoutLeaf(v, x), n, v.occ[x].check)
    ensures forall u | u in WithoutLeaf(v, x).leaf :: u in v.leaf && Lookup(WithoutLeaf(v, x), u) == Lookup(v, u)
  {
    var v' := WithoutLeaf(v, x);
    LeafChildless(v.occ, v.path, x);
    DropShape(v.occ, v.path, n, 0, x);
    DropLeafWords(v, x);
  }

  lemma DropLeafWords(v: View, x: int)
    requires Leaves(v) && Words(v) && LeafOk(v, x) && v.path.Keys == v.occ.Keys + {0}
    requires 0 !in v.occ
    ensures Leaves(WithoutLeaf(v, x)) && Words(WithoutLeaf(v, x))
    ensures forall u | u in WithoutLeaf(v, x).leaf :: u in v.leaf && Lookup(WithoutLeaf(v, x), u) == Lookup(v, u)
  {
    var v' := WithoutLeaf(v, x);
    forall y | IsLeaf(v'.occ, y) ensures LeafOk(v', y) {
      assert IsLeaf(v.occ, y) && LeafOk(v, y);
      assert WordAt(v', y) == WordAt(v, y);
    }
    forall u | u in v'.leaf ensures WordOk(v', u) {
      assert WordOk(v, u);
      assert WordAt(v', v'.leaf[u]) == WordAt(v, v.leaf[u]);
    }
    forall u | u in v'.leaf ensures u in v.leaf && Lookup(v', u) == Lookup(v, u) {
      assert WordOk(v, u) && WordOk(v', u);
    }
  }

  /** The view after the childless inner node p has been given back to the free cells. */
  ghost function WithoutNode(v: View, p: int): View {
    v.(occ := v.occ - {p}, path := v.path - {p})
  }

  /** Dropping a childless inner node changes no word; its parent may be left without children. */
  lemma DropNode(v: View, n: int, p: int)
    requires TreeExcept(v, n, p) && p in v.occ && v.occ[p].base >= 0 && !HasChild(v.occ, p)
    ensures TreeExcept(WithoutNode(v, p), n, v.occ[p].check)
    ensures forall u | u in v.leaf :: Lookup(WithoutNode(v, p), u) == Lookup(v, u)
  {
    var v' := WithoutNode(v, p);
    DropShape(v.occ, v.path, n, p, p);
    forall y | IsLeaf(v'.occ, y) ensures LeafOk(v', y) {
      assert IsLeaf(v.occ, y) && LeafOk(v, y);
      assert WordAt(v', y) == WordAt(v, y);
    }
    forall u | u in v'.leaf ensures WordOk(v', u) {
      assert WordOk(v, u);
      assert WordAt(v', v'.leaf[u]) == WordAt(v, v.leaf[u]);
    }
    forall u | u in v.leaf ensures Lookup(v', u) == Lookup(v, u) {
      assert WordOk(v, u) && WordOk(v', u);
    }
  }

  lemma Refilled(v: View, n: int, p: int, q: int)
    requires TreeExcept(v, n, p) && (p == 0 || HasChild(v.occ, p))
    ensures TreeExcept(v, n, q)
  {
  }

  /** The children of a node are in its window. */
  lemma ChildlessWindow(occ: map<int, Elem>, path: map<int, Word>, p: int)
    requires Edges(occ, path) && IsInner(occ, p)
    requires forall x | Slot(occ, p, 0) <= x < Slot(occ, p, 0) + SETSIZE :: !IsChild(occ, p, x)
    ensures !HasChild(occ, p)
  {
    forall x ensures !IsChild(occ, p, x) {
      assert x in occ ==> EdgeOk(occ, path, x);
    }
  }

  lemma WindowFits(v: View, n: int, p: int)
    requires TreeExcept(v, n, 0) && IsInner(v.occ, p) && SETSIZE <= n
    ensures 0 <= Slot(v.occ, p, 0) && Slot(v.occ, p, 0) + SETSIZE <= n
  {
    assert p != 0 ==> WindowOk(v.occ, v.path, n, p);
  }

  //
  // Moving the children of a node to another window.
  //

  /** Where the cell x is found once the cells s have moved from the window b to the window nb. */
  ghost function Moved(s: set<int>, b: int, nb: int, x: int): int {
    if x in s then x - b + nb else x
  }

  ghost predicate MovedElem(occ: map<int, Elem>, occ': map<int, Elem>, p: int, s: set<int>, b: int, nb: int, x: int)
    requires x in occ
  {
    && Moved(s, b, nb, x) in occ'
    && occ'[Moved(s, b, nb, x)] == Elem(if x == p then nb else occ[x].base, Moved(s, b, nb, occ[x].check))
  }

  ghost function Shifted(s: set<int>, b: int, nb: int): set<int> {
    set x | x in s :: x - b + nb
  }

  ghost predicate FreshTargets(occ: map<int, Elem>, s: set<int>, b: int, nb: int) {
    forall x | x in s :: x in occ && x - b + nb !in occ && x - b + nb > 0
  }

  ghost predicate MovedElems(occ: map<int, Elem>, occ': map<int, Elem>, p: int, s: set<int>, b: int, nb: int) {
    forall x {:trigger MovedElem(occ, occ', p, s, b, nb, x)} | x in occ :: MovedElem(occ, occ', p, s, b, nb, x)
  }

  /** occ' is occ with node p based at nb and the cells s, children of p, moved there. */
  ghost predicate IsMove(occ: map<int, Elem>, occ': map<int, Elem>, p: int, s: set<int>, b: int, nb: int) {
    && (forall x | x in s :: IsChild(occ, p, x))
    && FreshTargets(occ, s, b, nb)
    && occ'.Keys == (occ.Keys - s) + Shifted(s, b, nb)
    && MovedElems(occ, occ', p, s, b, nb)
  }

  /** The cell that has moved to y. */
  ghost function Unmoved(s: set<int>, b: int, nb: int, y: int): int {
    if y - nb + b in s then y - nb + b else y
  }

  ghost function WithMove(v: View, occ': map<int, Elem>, s: set<int>, b: int, nb: int): View {
    View(occ', map y | y in occ'.Keys + {0} && Unmoved(s, b, nb, y) in v.path :: v.path[Unmoved(s, b, nb, y)], v.recs,
         map w | w in v.leaf :: Moved(s, b, nb, v.leaf[w]))
  }

  lemma UnmovedOf(occ: map<int, Elem>, occ': map<int, Elem>, p: int, s: set<int>, b: int, nb: int, y: int)
    requires IsMove(occ, occ', p, s, b, nb) && y in occ' && b != nb
    ensures Unmoved(s, b, nb, y) in occ && Moved(s, b, nb, Unmoved(s, b, nb, y)) == y
    ensures MovedElem(occ, occ', p, s, b, nb, Unmoved(s, b, nb, y))
  {
    if y - nb + b in s {
      assert IsChild(occ, p, y - nb + b);
    } else {
      assert y in occ && y !in s;
    }
  }

  lemma MovedBack(occ: map<int, Elem>, occ': map<int, Elem>, p: int, s: set<int>, b: int, nb: int, x: int)
    requires IsMove(occ, occ', p, s, b, nb) && x in occ && b != nb
    ensures Unmoved(s, b, nb, Moved(s, b, nb, x)) == x
  {
    if x !in s {
      assert x - nb + b in s ==> x !in occ;
    }
  }

  /** The cells that name t as their parent name t' instead. */
  ghost function Reparented(occ: map<int, Elem>, t: int, t': int): map<int, Elem> {
    map x | x in occ :: if occ[x].check == t then Elem(occ[x].base, t') else occ[x]
  }

  /** One more child, t, has moved. */
  ghost function AfterMove(occ: map<int, Elem>, t: int, t': int): map<int, Elem>
    requires t in occ
  {
    Reparented((occ - {t})[t' := occ[t]], t, t')
  }

  lemma MoveStart(occ: map<int, Elem>, path: map<int, Word>, p: int, b: int, nb: int)
    requires Edges(occ, path) && p in occ && occ[p].base == b
    ensures IsMove(occ, occ[p := Elem(nb, occ[p].check)], p, {}, b, nb)
  {
  }

  lemma MoveStepElem(occ: map<int, Elem>, occ': map<int, Elem>, p: int, s: set<int>, b: int, nb: int, t: int, x: int)
    requires x in occ && t in occ && t in occ' && t !in s && t != p && FreshTargets(occ, s, b, nb)
    requires t - b + nb !in occ
    requires MovedElem(occ, occ', p, s, b, nb, x) && MovedElem(occ, occ', p, s, b, nb, t)
    ensures MovedElem(occ, AfterMove(occ', t, t - b + nb), p, s + {t}, b, nb, x)
  {
  }

  lemma MoveStepElems(occ: map<int, Elem>, occ': map<int, Elem>, p: int, s: set<int>, b: int, nb: int, t: int)
    requires t in occ && t in occ' && t !in s && t != p && FreshTargets(occ, s, b, nb) && t - b + nb !in occ
    requires MovedElems(occ, occ', p, s, b, nb)
    ensures MovedElems(occ, AfterMove(occ', t, t - b + nb), p, s + {t}, b, nb)
  {
    hide FreshTargets, AfterMove, MovedElem;
    forall x | x in occ ensures MovedElem(occ, AfterMove(occ', t, t - b + nb), p, s + {t}, b, nb, x) {
      assert MovedElem(occ, occ', p, s, b, nb, x) && MovedElem(occ, occ', p, s, b, nb, t);
      MoveStepElem(occ, occ', p, s, b, nb, t, x);
    }
  }

  lemma MoveStepKeys(occ: map<int, Elem>, occ': map<int, Elem>, s: set<int>, b: int, nb: int, t: int)
    requires occ'.Keys == (occ.Keys - s) + Shifted(s, b, nb) && t in occ && t !in s && t in occ'
    requires FreshTargets(occ, s, b, nb)
    ensures AfterMove(occ', t, t - b + nb).Keys == (occ.Keys - (s + {t})) + Shifted(s + {t}, b, nb)
  {
    assert Shifted(s + {t}, b, nb) == Shifted(s, b, nb) + {t - b + nb};
    assert t !in Shifted(s, b, nb);
  }

  lemma UnmovedElem(occ: map<int, Elem>, occ': map<int, Elem>, p: int, s: set<int>, b: int, nb: int, t: int)
    requires IsMove(occ, occ', p, s, b, nb) && IsChild(occ, p, t) && t !in s && t != p && p !in s
    ensures t in occ' && occ'[t] == Elem(occ[t].base, p)
  {
    assert MovedElem(occ, occ', p, s, b, nb, t);
  }

  lemma MoveStep(occ: map<int, Elem>, occ': map<int, Elem>, p: int, s: set<int>, b: int, nb: int, t: int)
    requires IsMove(occ, occ', p, s, b, nb) && IsChild(occ, p, t) && t !in s && t != p && p !in s
    requires t - b + nb !in occ && t - b + nb > 0
    ensures t in occ' && occ'[t] == Elem(occ[t].base, p)
    ensures IsMove(occ, AfterMove(occ', t, t - b + nb), p, s + {t}, b, nb)
  {
    UnmovedElem(occ, occ', p, s, b, nb, t);
    assert FreshTargets(occ, s + {t}, b, nb);
    hide FreshTargets, MovedElems, AfterMove, Shifted;
    MoveStepKeys(occ, occ', s, b, nb, t);
    MoveStepElems(occ, occ', p, s, b, nb, t);
  }

  /** Whatever names the unmoved child t as its parent lies in its window. */
  lemma GrandchildrenInWindow(v: View, occ': map<int, Elem>, p: int, s: set<int>, b: int, nb: int, t: int, y: int)
    requires Edges(v.occ, v.path) && IsMove(v.occ, occ', p, s, b, nb) && b != nb
    requires t in v.occ && t !in s && t != p && y in occ' && occ'[y].check == t
    ensures v.occ[t].base >= 0 && v.occ[t].base <= y < v.occ[t].base + SETSIZE
  {
    UnmovedOf(v.occ, occ', p, s, b, nb, y);
    var x := Unmoved(s, b, nb, y);
    assert EdgeOk(v.occ, v.path, x);
    var q := v.occ[x].check;
    assert q in s ==> IsChild(v.occ, p, q);
    assert x in s ==> IsChild(v.occ, p, x);
  }

  ghost predicate FullMove(v: View, occ': map<int, Elem>, p: int, s: set<int>, b: int, nb: int) {
    && Edges(v.occ, v.path) && p in v.occ && v.occ[p].base == b >= 0 && b != nb && 0 <= nb
    && IsMove(v.occ, occ', p, s, b, nb)
    && (forall x | IsChild(v.occ, p, x) :: x in s)
  }

  lemma MoveRoot(v: View, occ': map<int, Elem>, p: int, s: set<int>, b: int, nb: int)
    requires FullMove(v, occ', p, s, b, nb)
    ensures p !in s && 0 !in s && Unmoved(s, b, nb, 0) == 0 && 0 !in occ'
  {
    assert EdgeOk(v.occ, v.path, p);
    assert p in s ==> IsChild(v.occ, p, p);
    assert 0 in s ==> IsChild(v.occ, p, 0);
    assert b - nb in s ==> (b - nb) - b + nb > 0;
  }

  /** Where the node x is found after the move, and what is found there. */
  lemma MovedAt(v: View, occ': map<int, Elem>, p: int, s: set<int>, b: int, nb: int, x: int)
    requires FullMove(v, occ', p, s, b, nb) && x in v.path
    ensures var y := Moved(s, b, nb, x);
            && y in WithMove(v, occ', s, b, nb).path && WithMove(v, occ', s, b, nb).path[y] == v.path[x]
            && (if x == 0 then y == 0 else
                y in occ' && y != 0 && x in v.occ &&
                occ'[y] == Elem(if x == p then nb else v.occ[x].base, Moved(s, b, nb, v.occ[x].check)))
  {
    MoveRoot(v, occ', p, s, b, nb);
    if x != 0 {
      assert MovedElem(v.occ, occ', p, s, b, nb, x);
      MovedBack(v.occ, occ', p, s, b, nb, x);
    }
  }

  lemma MovedFrom(v: View, occ': map<int, Elem>, p: int, s: set<int>, b: int, nb: int, y: int) returns (x: int)
    requires FullMove(v, occ', p, s, b, nb) && y in occ'
    ensures x in v.occ && x in v.path && Moved(s, b, nb, x) == y && (x in s <==> v.occ[x].check == p)
  {
    UnmovedOf(v.occ, occ', p, s, b, nb, y);
    x := Unmoved(s, b, nb, y);
    assert x in s <==> IsChild(v.occ, p, x);
  }

  lemma MoveKeys(v: View, occ': map<int, Elem>, p: int, s: set<int>, b: int, nb: int)
    requires FullMove(v, occ', p, s, b, nb)
    ensures var path' := WithMove(v, occ', s, b, nb).path; path'.Keys == occ'.Keys + {0} && path'[0] == []
  {
    MoveRoot(v, occ', p, s, b, nb);
    forall y | y in occ' ensures Unmoved(s, b, nb, y) in v.path {
      UnmovedOf(v.occ, occ', p, s, b, nb, y);
    }
  }

  lemma MoveShallow(v: View, occ': map<int, Elem>, s: set<int>, b: int, nb: int)
    requires Shallow(v.path)
    ensures Shallow(WithMove(v, occ', s, b, nb).path)
  {
  }

  lemma MoveEdges(v: View, occ': map<int, Elem>, p: int, s: set<int>, b: int, nb: int)
    requires FullMove(v, occ', p, s, b, nb)
    ensures Edges(occ', WithMove(v, occ', s, b, nb).path)
  {
    hide FullMove, WithMove, EdgeOk;
    MoveRoot(v, occ', p, s, b, nb);
    MoveKeys(v, occ', p, s, b, nb);
    var path' := WithMove(v, occ', s, b, nb).path;
    forall y | y in occ' ensures EdgeOk(occ', path', y) {
      MoveEdge(v, occ', p, s, b, nb, y);
    }
  }

  lemma MoveEdge(v: View, occ': map<int, Elem>, p: int, s: set<int>, b: int, nb: int, y: int)
    requires FullMove(v, occ', p, s, b, nb) && y in occ'
    ensures EdgeOk(occ', WithMove(v, occ', s, b, nb).path, y)
  {
    hide IsMove, WithMove;
    MoveRoot(v, occ', p, s, b, nb);
    var x := MovedFrom(v, occ', p, s, b, nb, y);
    assert EdgeOk(v.occ, v.path, x);
    var q := v.occ[x].check;
    MovedAt(v, occ', p, s, b, nb, x);
    MovedAt(v, occ', p, s, b, nb, q);
  }

  lemma MoveInner(v: View, n: int, occ': map<int, Elem>, p: int, s: set<int>, b: int, nb: int)
    requires FullMove(v, occ', p, s, b, nb) && Windows(v.occ, v.path, n) && Fruitful(v.occ, 0)
    requires SETSIZE < nb && nb + SETSIZE <= n
    ensures Windows(occ', WithMove(v, occ', s, b, nb).path, n) && Fruitful(occ', 0)
  {
    hide IsMove, WithMove;
    MoveRoot(v, occ', p, s, b, nb);
    forall y | y in occ' && occ'[y].base >= 0
      ensures WindowOk(occ', WithMove(v, occ', s, b, nb).path, n, y) && HasChild(occ', y)
    {
      var x := MovedFrom(v, occ', p, s, b, nb, y);
      MovedAt(v, occ', p, s, b, nb, x);
      assert WindowOk(v.occ, v.path, n, x) && HasChild(v.occ, x);
      var z :| IsChild(v.occ, x, z);
      MovedAt(v, occ', p, s, b, nb, z);
      assert IsChild(occ', y, Moved(s, b, nb, z));
    }
  }

  lemma MoveOwners(v: View, occ': map<int, Elem>, p: int, s: set<int>, b: int, nb: int)
    requires FullMove(v, occ', p, s, b, nb) && Owners(v.occ)
    ensures Owners(occ')
  {
    hide IsMove, WithMove;
    forall x, y | IsLeaf(occ', x) && IsLeaf(occ', y) && x != y ensures occ'[x].base != occ'[y].base {
      var x0 := MovedFrom(v, occ', p, s, b, nb, x);
      var y0 := MovedFrom(v, occ', p, s, b, nb, y);
      MovedAt(v, occ', p, s, b, nb, x0);
      MovedAt(v, occ', p, s, b, nb, y0);
      assert IsLeaf(v.occ, x0) && IsLeaf(v.occ, y0);
    }
  }

  lemma MoveLeaves(v: View, occ': map<int, Elem>, p: int, s: set<int>, b: int, nb: int)
    requires FullMove(v, occ', p, s, b, nb) && Leaves(v)
    ensures Leaves(WithMove(v, occ', s, b, nb))
  {
    hide IsMove;
    var v' := WithMove(v, occ', s, b, nb);
    forall y | IsLeaf(occ', y) ensures LeafOk(v', y) {
      var x := MovedFrom(v, occ', p, s, b, nb, y);
      MovedAt(v, occ', p, s, b, nb, x);
      assert IsLeaf(v.occ, x) && LeafOk(v, x);
      KeptLeaf(v, v', x, y);
    }
  }

  lemma MoveWords(v: View, occ': map<int, Elem>, p: int, s: set<int>, b: int, nb: int)
    requires FullMove(v, occ', p, s, b, nb) && Words(v)
    ensures var v' := WithMove(v, occ', s, b, nb);
            Words(v') && v'.leaf.Keys == v.leaf.Keys && forall u | u in v.leaf :: Lookup(v', u) == Lookup(v, u)
  {
    hide IsMove;
    var v' := WithMove(v, occ', s, b, nb);
    forall u | u in v.leaf
      ensures WordOk(v', u) && DataOf(v', u) == DataOf(v, u)
    {
      assert WordOk(v, u);
      MovedAt(v, occ', p, s, b, nb, v.leaf[u]);
      KeptWord(v, v', u);
    }
  }

  /** Node p itself stays where it is. */
  lemma MovePath(v: View, occ': map<int, Elem>, p: int, s: set<int>, b: int, nb: int)
    requires FullMove(v, occ', p, s, b, nb)
    ensures p in occ' && p in WithMove(v, occ', s, b, nb).path
    ensures WithMove(v, occ', s, b, nb).path[p] == v.path[p] && occ'[p] == Elem(nb, v.occ[p].check)
  {
    MoveRoot(v, occ', p, s, b, nb);
    MovedAt(v, occ', p, s, b, nb, p);
    var q := v.occ[p].check;
    assert EdgeOk(v.occ, v.path, p);
    assert q in s ==> IsChild(v.occ, p, q) && EdgeOk(v.occ, v.path, q);
  }

  /** Moving all the children of a node to a free window stores the same words with the same data. */
  lemma MoveChildren(v: View, n: int, occ': map<int, Elem>, p: int, s: set<int>, b: int, nb: int)
    requires Tree(v, n) && FullMove(v, occ', p, s, b, nb) && SETSIZE < nb && nb + SETSIZE <= n
    ensures Tree(WithMove(v, occ', s, b, nb), n)
    ensures WithMove(v, occ', s, b, nb).leaf.Keys == v.leaf.Keys
    ensures forall u | u in v.leaf :: Lookup(WithMove(v, occ', s, b, nb), u) == Lookup(v, u)
  {
    MoveEdges(v, occ', p, s, b, nb);
    MoveShallow(v, occ', s, b, nb);
    MoveInner(v, n, occ', p, s, b, nb);
    MoveOwners(v, occ', p, s, b, nb);
    MoveLeaves(v, occ', p, s, b, nb);
    MoveWords(v, occ', p, s, b, nb);
  }

  //
  // The three changes, together with what the trie stands for.
  //

  lemma SplitMeans(v: View, m: map<seq<int>, int>, n: int, n': int, p: int, nb: int)
    requires Tree(v, n) && n <= n' && CanSplit(v, n', p, nb) && Means(v, m)
    ensures Tree(WithSplit(v, p, nb), n') && Means(WithSplit(v, p, nb), m)
  {
    WindowsGrow(v, n, n', 0);
    SplitLeaf(v, n', p, nb);
    MeansSame(v, WithSplit(v, p, nb), m);
  }

  lemma LeafMeans(v: View, m: map<seq<int>, int>, n: int, p: int, w: Word, po: nat, pos: int, data: int)
    requires Tree(v, n) && Means(v, m) && IsWord(w) && Chopped(w) !in m
    requires po < |w| && p in v.path && v.path[p] == w[..po] && IsInner(v.occ, p)
    requires Slot(v.occ, p, w[po]) !in v.occ && Slot(v.occ, p, w[po]) != 0
    requires pos > 0 && pos !in v.recs
    ensures var v' := WithLeaf(v, p, w[po], pos, Record(w[po + 1..], data));
            Tree(v', n) && Means(v', m[Chopped(w) := data])
  {
    var r := Record(w[po + 1..], data);
    var v' := WithLeaf(v, p, w[po], pos, r);
    assert w == v.path[p] + [w[po]] + r.ext;
    assert Terminated(Chopped(w)) == w && 0 <= w[po] < SETSIZE;
    hide IsWord;
    NobodysRecord(v, pos);
    AddLeaf(v, n, p, w[po], pos, r);
    hide TreeExcept, Lookup;
    MeansAdd(v, v', m, Chopped(w), data);
  }

  lemma RelocateMeans(v: View, m: map<seq<int>, int>, n: int, n': int, occ': map<int, Elem>, p: int, s: set<int>, b: int, nb: int,
                      w: Word, po: nat, pos: int, data: int) returns (v2: View)
    requires Tree(v, n) && n <= n' && FullMove(v, occ', p, s, b, nb) && SETSIZE < nb && nb + SETSIZE <= n'
    requires Means(v, m) && IsWord(w) && Chopped(w) !in m
    requires po < |w| && p in v.path && v.path[p] == w[..po]
    requires nb + w[po] !in occ' && pos > 0 && pos !in v.recs
    ensures v2.occ == occ'[nb + w[po] := Elem(-pos, p)] && v2.recs == v.recs[pos := Record(w[po + 1..], data)]
    ensures Tree(v2, n') && Means(v2, m[Chopped(w) := data])
  {
    var v1 := WithMove(v, occ', s, b, nb);
    assert 0 <= w[po];
    MovePath(v, occ', p, s, b, nb);
    hide IsMove, IsWord;
    assert p != 0 by { MoveRoot(v, occ', p, s, b, nb); }
    WindowsGrow(v, n, n', 0);
    MoveChildren(v, n', occ', p, s, b, nb);
    MeansSame(v, v1, m);
    LeafMeans(v1, m, n', p, w, po, pos, data);
    v2 := WithLeaf(v1, p, w[po], pos, Record(w[po + 1..], data));
  }

  /** Removing a word: its leaf goes, and what the trie stands for loses its key. */
  lemma DropMeans(v: View, m: map<seq<int>, int>, n: int, x: int, w: Word)
    requires Tree(v, n) && Means(v, m) && w in v.leaf && v.leaf[w] == x && IsWord(w)
    ensures LeafOk(v, x) && WordAt(v, x) == w
    ensures TreeExcept(WithoutLeaf(v, x), n, v.occ[x].check) && Means(WithoutLeaf(v, x), m - {Chopped(w)})
  {
    assert WordOk(v, w) && LeafOk(v, x);
    assert Terminated(Chopped(w)) == w;
    hide IsWord;
    DropLeaf(v, n, x);
    hide TreeExcept;
    assert WithoutLeaf(v, x).leaf.Keys == v.leaf.Keys - {w};
    MeansDrop(v, WithoutLeaf(v, x), m, Chopped(w));
  }

  lemma NodeMeans(v: View, m: map<seq<int>, int>, n: int, p: int)
    requires TreeExcept(v, n, p) && Means(v, m) && p in v.occ && v.occ[p].base >= 0 && !HasChild(v.occ, p)
    ensures TreeExcept(WithoutNode(v, p), n, v.occ[p].check) && Means(WithoutNode(v, p), m)
  {
    DropNode(v, n, p);
    hide TreeExcept;
    MeansSame(v, WithoutNode(v, p), m);
  }

  /** The view after the record of a stored word has been given other data. */
  ghost function WithData(v: View, w: Word, data: int): View
    requires WordOk(v, w)
  {
    var pos := -v.occ[v.leaf[w]].base;
    v.(recs := v.recs[pos := Record(v.recs[pos].ext, data)])
  }

  lemma PatchLeaf(v: View, w: Word, data: int, x: int)
    requires WordOk(v, w) && LeafOk(v, x)
    ensures LeafOk(WithData(v, w, data), x)
  {
    assert WordAt(WithData(v, w, data), x) == WordAt(v, x);
  }

  lemma PatchWord(v: View, w: Word, data: int, u: Word)
    requires Owners(v.occ) && WordOk(v, w) && WordOk(v, u)
    ensures WordOk(WithData(v, w, data), u)
    ensures DataOf(WithData(v, w, data), u) == if u == w then data else DataOf(v, u)
  {
    assert WordAt(WithData(v, w, data), v.leaf[u]) == WordAt(v, v.leaf[u]);
  }

  lemma PatchLeaves(v: View, w: Word, data: int)
    requires Leaves(v) && WordOk(v, w)
    ensures Leaves(WithData(v, w, data))
  {
    var v' := WithData(v, w, data);
    hide WordOk, LeafOk;
    forall x | IsLeaf(v'.occ, x) ensures LeafOk(v', x) {
      assert IsLeaf(v.occ, x) && LeafOk(v, x);
      PatchLeaf(v, w, data, x);
    }
  }

  lemma PatchWords(v: View, w: Word, data: int)
    requires Words(v) && Owners(v.occ) && WordOk(v, w)
    ensures Words(WithData(v, w, data)) && WithData(v, w, data).leaf == v.leaf
    ensures forall u | u in v.leaf :: Lookup(WithData(v, w, data), u) == if u == w then data else Lookup(v, u)
  {
    var v' := WithData(v, w, data);
    assert v'.leaf == v.leaf;
    hide WordOk, DataOf, Owners, WithData;
    forall u | u in v.leaf ensures WordOk(v', u) && DataOf(v', u) == if u == w then data else DataOf(v, u) {
      assert WordOk(v, u);
      PatchWord(v, w, data, u);
    }
  }

  lemma PatchMeans(v: View, m: map<seq<int>, int>, n: int, w: Word, data: int)
    requires Tree(v, n) && Means(v, m) && w in v.leaf
    ensures WordOk(v, w) && |w| > 0
    ensures Tree(WithData(v, w, data), n) && Means(WithData(v, w, data), m[Chopped(w) := data])
  {
    assert WordOk(v, w) && Terminated(Chopped(w)) == w;
    PatchLeaves(v, w, data);
    PatchWords(v, w, data);
    hide Edges, Windows, Fruitful, Owners, WordOk, Leaves, Words, Lookup;
    forall k | Terminated(k) == w ensures k == Chopped(w) { TerminatedInjective(k, Chopped(w)); }
  }

  /** The nodes nearer to the root than k bytes are what they were. */
  ghost predicate SameAbove(v: View, v': View, k: int) {
    && 0 in v'.path
    && forall x | x in v.occ && x in v.path && |v.path[x]| < k ::
      x in v'.occ && v'.occ[x] == v.occ[x] && x in v'.path && v'.path[x] == v.path[x]
  }

  lemma SameAboveDrop(v: View, v': View, v'': View, k: int, x: int)
    requires SameAbove(v, v', k + 1) && x != 0 && x in v.path && |v.path[x]| >= k
    requires v''.occ == v'.occ - {x} || v''.occ == v'.occ
    requires v''.path == v'.path - {x} || v''.path == v'.path
    ensures SameAbove(v, v'', k)
  {
  }

  lemma SameAboveLess(v: View, v': View, k: int, l: int)
    requires SameAbove(v, v', k) && l <= k
    ensures SameAbove(v, v', l)
  {
  }

  //
  // Prefixes of a key.
  //

  lemma PrefixIsString(str: seq<int>, k: nat)
    requires IsString(str) && 1 <= k <= |str|
    ensures IsString(str[..k])
  {
    assert forall i | 0 <= i < k :: Terminated(str)[i] == str[i];
    assert forall i | 0 <= i < k :: Terminated(str[..k])[i] == str[i];
  }

  /** What SubSearch lists from the root are the lengths of the prefixes of str that are stored. */
  lemma PrefixMarks(v: View, m: map<seq<int>, int>, n: int, str: seq<int>, pp: seq<nat>)
    requires Tree(v, n) && Means(v, m) && IsString(str) && Marks(v, Terminated(str), 0, pp)
    ensures forall k :: k in pp <==> 1 <= k <= |str| && str[..k] in m
    ensures |pp| == |set k | 1 <= k <= |str| && str[..k] in m|
    ensures forall i, j | 0 <= i < j < |pp| :: pp[i] < pp[j]
  {
    var w := Terminated(str);
    forall k: nat | 0 <= k < |w| ensures k in pp <==> 1 <= k <= |str| && str[..k] in m {
      assert w[..k] == str[..k];
      if k == 0 {
        assert Terminated(w[..0]) in v.leaf ==> WordOk(v, Terminated(w[..0]));
      }
    }
    assert forall k | k in pp :: 0 <= k < |w|;
    AscendingSize(pp, set k | 1 <= k <= |str| && str[..k] in m);
  }

  lemma {:induction false} AscendingSize(pp: seq<nat>, s: set<int>)
    requires forall i, j | 0 <= i < j < |pp| :: pp[i] < pp[j]
    requires forall k :: k in pp <==> k in s
    ensures |pp| == |s|
  {
    if pp == [] {
      assert forall x | x in s :: x in pp;
    } else {
      var l := |pp| - 1;
      assert forall k :: k in pp[..l] <==> k in pp && k != pp[l] by {
        assert pp == pp[..l] + [pp[l]];
      }
      assert pp[l] in pp;
      AscendingSize(pp[..l], s - {pp[l]});
    }
  }
}
