/**
  The free cells of the double array (ArrayTrie.cpp): from cell FIRST_FREE on, every cell that is
  not in use has a negative check field, and minus that field is the index of the next free cell.
  Cells below FIRST_FREE are never on the chain; there a negative check only says "not in use".
 */
module CellChain {
  import opened TrieTree

  const FIRST_FREE := 2 * SETSIZE

  /** The cells in use, as TrieTree sees them. */
  function Occupied(cells: seq<Elem>): map<int, Elem> {
    map x | 0 <= x < |cells| && cells[x].check >= 0 :: cells[x]
  }

  /** On the chain: not in use, and not handed out by GetNewSet and still to be written. */
  ghost predicate IsFree(cells: seq<Elem>, reserved: set<int>, z: int) {
    FIRST_FREE <= z < |cells| && cells[z].check < 0 && z !in reserved
  }

  /** y is the first free cell from `from` on, or the number of cells when there is none. */
  ghost predicate NextFree(cells: seq<Elem>, reserved: set<int>, from: int, y: int) {
    && from <= y <= |cells|
    && (y == |cells| || IsFree(cells, reserved, y))
    && forall z | from <= z < y :: !IsFree(cells, reserved, z)
  }

  ghost predicate LinkOk(cells: seq<Elem>, reserved: set<int>, x: int) {
    IsFree(cells, reserved, x) && NextFree(cells, reserved, x + 1, -cells[x].check)
  }

  /** The free cells form one strictly ascending chain from first to the number of cells. */
  ghost predicate Chain(cells: seq<Elem>, first: int, reserved: set<int>) {
    && FIRST_FREE <= |cells|
    && NextFree(cells, reserved, FIRST_FREE, first)
    && forall x {:trigger LinkOk(cells, reserved, x)} | IsFree(cells, reserved, x) :: LinkOk(cells, reserved, x)
  }

  /** `past` is the free cell before `cur` on the chain, or -1 when `cur` is where the chain starts. */
  ghost predicate Precedes(cells: seq<Elem>, first: int, reserved: set<int>, past: int, cur: int) {
    if past == -1 then cur == first else IsFree(cells, reserved, past) && cur == -cells[past].check
  }

  lemma ChainStep(cells: seq<Elem>, first: int, reserved: set<int>, past: int, cur: int)
    requires Chain(cells, first, reserved) && Precedes(cells, first, reserved, past, cur)
    ensures past < cur && NextFree(cells, reserved, if past == -1 then FIRST_FREE else past + 1, cur)
  {
    if past != -1 { assert LinkOk(cells, reserved, past); }
  }

  /** The chain speaks of the free cells only. */
  lemma ChainFrame(cells: seq<Elem>, cells': seq<Elem>, first: int, reserved: set<int>, reserved': set<int>)
    requires Chain(cells, first, reserved) && |cells'| == |cells|
    requires forall z | FIRST_FREE <= z < |cells| :: IsFree(cells', reserved', z) == IsFree(cells, reserved, z)
    requires forall z | IsFree(cells, reserved, z) :: cells'[z].check == cells[z].check
    ensures Chain(cells', first, reserved')
  {
    forall x | IsFree(cells', reserved', x) ensures LinkOk(cells', reserved', x) {
      assert LinkOk(cells, reserved, x);
    }
  }

  /** Writing a cell in use, or one that was handed out, or one that is never on the chain. */
  lemma WriteCell(cells: seq<Elem>, first: int, reserved: set<int>, t: int, e: Elem)
    requires Chain(cells, first, reserved) && 0 <= t < |cells| && e.check >= 0
    requires t in reserved || cells[t].check >= 0 || t < FIRST_FREE
    ensures Chain(cells[t := e], first, reserved - {t})
    ensures Occupied(cells[t := e]) == Occupied(cells)[t := e]
  {
    ChainFrame(cells, cells[t := e], first, reserved, reserved - {t});
  }

  /** Taking the cell t, which follows past, off the chain. */
  lemma Unlink(cells: seq<Elem>, first: int, reserved: set<int>, past: int, t: int)
    requires Chain(cells, first, reserved) && IsFree(cells, reserved, t)
    requires past != -1 && Precedes(cells, first, reserved, past, t)
    ensures Chain(cells[past := Elem(cells[past].base, cells[t].check)], first, reserved + {t})
  {
    var cells' := cells[past := Elem(cells[past].base, cells[t].check)];
    var reserved' := reserved + {t};
    assert LinkOk(cells, reserved, past) && LinkOk(cells, reserved, t);
    assert forall z {:trigger IsFree(cells', reserved', z)} ::
      IsFree(cells', reserved', z) <==> z != t && IsFree(cells, reserved, z);
    forall x | IsFree(cells', reserved', x) ensures LinkOk(cells', reserved', x) {
      assert LinkOk(cells, reserved, x);
    }
  }

  lemma UnlinkFirst(cells: seq<Elem>, first: int, reserved: set<int>)
    requires Chain(cells, first, reserved) && first < |cells|
    ensures Chain(cells, -cells[first].check, reserved + {first})
  {
    var reserved' := reserved + {first};
    assert LinkOk(cells, reserved, first);
    assert forall z {:trigger IsFree(cells, reserved', z)} ::
      IsFree(cells, reserved', z) <==> z != first && IsFree(cells, reserved, z);
    forall x | IsFree(cells, reserved', x) ensures LinkOk(cells, reserved', x) {
      assert LinkOk(cells, reserved, x);
    }
  }

  /** Putting the cell t, in use until now, on the chain between past and cur. */
  lemma Link(cells: seq<Elem>, first: int, reserved: set<int>, past: int, t: int, cur: int)
    requires Chain(cells, first, reserved) && FIRST_FREE <= t < |cells| && cells[t].check >= 0 && t !in reserved
    requires past != -1 && Precedes(cells, first, reserved, past, cur) && past < t < cur
    ensures Chain(cells[past := Elem(cells[past].base, -t)][t := Elem(cells[t].base, -cur)], first, reserved)
  {
    var cells' := cells[past := Elem(cells[past].base, -t)][t := Elem(cells[t].base, -cur)];
    assert LinkOk(cells, reserved, past);
    assert forall z {:trigger IsFree(cells', reserved, z)} ::
      IsFree(cells', reserved, z) <==> z == t || IsFree(cells, reserved, z);
    forall x | IsFree(cells', reserved, x) ensures LinkOk(cells', reserved, x) {
      assert x != t ==> LinkOk(cells, reserved, x);
    }
  }

  lemma LinkFirst(cells: seq<Elem>, first: int, reserved: set<int>, t: int)
    requires Chain(cells, first, reserved) && FIRST_FREE <= t < |cells| && cells[t].check >= 0 && t !in reserved
    requires t < first
    ensures Chain(cells[t := Elem(cells[t].base, -first)], t, reserved)
  {
    var cells' := cells[t := Elem(cells[t].base, -first)];
    assert forall z {:trigger IsFree(cells', reserved, z)} ::
      IsFree(cells', reserved, z) <==> z == t || IsFree(cells, reserved, z);
    forall x | IsFree(cells', reserved, x) ensures LinkOk(cells', reserved, x) {
      assert x != t ==> LinkOk(cells, reserved, x);
    }
  }

  /** The cells the file is extended with: each free and linked to the next. */
  function FreshCells(from: int, howMany: nat): (s: seq<Elem>)
    ensures |s| == howMany && forall j | 0 <= j < howMany :: s[j] == Elem(0, -(from + j + 1))
  {
    seq(howMany, j requires 0 <= j < howMany => Elem(0, -(from + j + 1)))
  }

  lemma Grow(cells: seq<Elem>, first: int, reserved: set<int>, howMany: nat)
    requires Chain(cells, first, reserved)
    requires forall z | z in reserved :: z < |cells|
    ensures Chain(cells + FreshCells(|cells|, howMany), first, reserved)
    ensures Occupied(cells + FreshCells(|cells|, howMany)) == Occupied(cells)
  {
    var cells' := cells + FreshCells(|cells|, howMany);
    forall z | 0 <= z < |cells| ensures IsFree(cells', reserved, z) == IsFree(cells, reserved, z) && cells'[z] == cells[z] {}
    forall z | |cells| <= z < |cells'| ensures IsFree(cells', reserved, z) {}
    forall x | IsFree(cells', reserved, x) ensures LinkOk(cells', reserved, x) {
      if x < |cells| { assert LinkOk(cells, reserved, x); }
    }
  }

  lemma {:induction false} InitialChain(howMany: nat)
    requires FIRST_FREE <= howMany
    ensures Chain(FreshCells(0, howMany), FIRST_FREE, {}) && Occupied(FreshCells(0, howMany)) == map[]
  {
    var cells := FreshCells(0, howMany);
    forall x | IsFree(cells, {}, x) ensures LinkOk(cells, {}, x) {}
  }

  //
  // qsort of a few labels.
  //

  ghost predicate Ascending(n: seq<int>) {
    forall i, j | 0 <= i < j < |n| :: n[i] < n[j]
  }

  ghost predicate Distinct(n: seq<int>) {
    forall i, j | 0 <= i < j < |n| :: n[i] != n[j]
  }

  function Insert(n: seq<int>, x: int): (s: seq<int>)
    ensures |s| == |n| + 1 && (forall y :: y in s <==> y in n || y == x)
    ensures Ascending(n) && x !in n ==> Ascending(s)
  {
    if n == [] then [x]
    else if x <= n[0] then [x] + n
    else
      var rest := Insert(n[1..], x);
      assert forall y :: y in n <==> y == n[0] || y in n[1..];
      assert Ascending(n) && x !in n ==> Ascending([n[0]] + rest) by {
        assert forall k | 0 <= k < |rest| :: rest[k] in rest;
      }
      [n[0]] + rest
  }

  /** What the library's qsort makes of distinct numbers. */
  function Sort(n: seq<int>): (s: seq<int>)
    requires Distinct(n)
    ensures |s| == |n| && (forall y :: y in s <==> y in n)
    ensures Ascending(s)
  {
    if n == [] then []
    else
      assert forall y :: y in n <==> y == n[0] || y in n[1..];
      Insert(Sort(n[1..]), n[0])
  }
}
