/**
  The Japanese prefix index of TrieTree.cpp. A node holds its children in a vector and finds them by
  the bytes of one character; what was inserted under a key is kept beside the child. Nodes lie in
  their parent's vector, so that a node is a value. A char is one byte.
 */
module PrefixIndex {

  datatype TrieNode = TrieNode(info: seq<seq<string>>, node: seq<TrieNode>, nodeMap: map<string, nat>)

  const EMPTY := TrieNode([], [], map[])

  function WordLength(c: char): (n: nat)
    ensures 1 <= n <= 6
  {
    if c > 0xfb as char then 6
    else if c > 0xf7 as char then 5
    else if c > 0xef as char then 4
    else if c > 0xdf as char then 3
    else if c > 0x7f as char then 2
    else 1
  }

  /** The length that the first byte calls for; the zero after the end calls for 1. */
  function Len(t: string): (n: nat)
    ensures n >= 1
  {
    if t == "" then 1 else WordLength(t[0])
  }

  /** The bytes that substr takes. */
  function Now(t: string): string {
    if Len(t) <= |t| then t[..Len(t)] else t
  }

  /** A whole number of characters. */
  predicate WellFormed(t: string) {
    t == "" || (Len(t) <= |t| && WellFormed(t[Len(t)..]))
  }

  /** Every child has its place and its list, no two the same, and keys are single characters. */
  predicate NodeOk(n: TrieNode)
    decreases n
  {
    && |n.info| == |n.node|
    && (forall k | k in n.nodeMap :: KeyOk(n, k))
    && (forall k, l | k in n.nodeMap && l in n.nodeMap && k != l :: n.nodeMap[k] != n.nodeMap[l])
    && (forall i | 0 <= i < |n.node| :: NodeOk(n.node[i]))
  }

  predicate KeyOk(n: TrieNode, k: string)
    requires k in n.nodeMap
  {
    n.nodeMap[k] < |n.node| && k != "" && Len(k) == |k|
  }

  /** What a node holds under a key. */
  function InfosAt(n: TrieNode, q: string): seq<string>
    requires NodeOk(n)
    decreases |q|
  {
    if q == "" || Len(q) > |q| || Now(q) !in n.nodeMap then []
    else
      assert KeyOk(n, Now(q));
      var i := n.nodeMap[Now(q)];
      if Len(q) == |q| then n.info[i] else InfosAt(n.node[i], q[Len(q)..])
  }

  /** The node with a child for the first character. */
  function WithChild(n: TrieNode, now: string): TrieNode {
    if now in n.nodeMap then n
    else n.(nodeMap := n.nodeMap[now := |n.node|], node := n.node + [EMPTY], info := n.info + [[]])
  }

  lemma EmptyOk(q: string)
    ensures NodeOk(EMPTY) && InfosAt(EMPTY, q) == []
  {
  }

  lemma WithChildOk(n: TrieNode, now: string)
    requires NodeOk(n) && now != "" && Len(now) == |now|
    ensures var m := WithChild(n, now); NodeOk(m) && now in m.nodeMap && m.nodeMap[now] < |m.node| == |m.info|
  {
    EmptyOk("");
    var m := WithChild(n, now);
    forall k | k in n.nodeMap ensures KeyOk(m, k) { assert KeyOk(n, k); }
    assert KeyOk(m, now);
  }

  lemma WithChildInfos(n: TrieNode, now: string, q: string)
    requires NodeOk(n) && now != "" && Len(now) == |now|
    ensures NodeOk(WithChild(n, now)) && InfosAt(WithChild(n, now), q) == InfosAt(n, q)
  {
    WithChildOk(n, now);
    if Now(q) in n.nodeMap { assert KeyOk(n, Now(q)); }
    if q != "" && Len(q) < |q| { EmptyOk(q[Len(q)..]); }
  }

  /** insert_inner on the rest of the key. */
  function Insert(n: TrieNode, t: string, info: string): (m: TrieNode)
    requires NodeOk(n) && t != "" && WellFormed(t)
    ensures NodeOk(m)
    decreases |t|
  {
    NowIsKey(t);
    WithChildOk(n, Now(t));
    var c := WithChild(n, Now(t));
    var i := c.nodeMap[Now(t)];
    if Len(t) == |t| then
      UpdateOk(c, c.(info := c.info[i := c.info[i] + [info]]));
      c.(info := c.info[i := c.info[i] + [info]])
    else
      var child := Insert(c.node[i], t[Len(t)..], info);
      UpdateOk(c, c.(node := c.node[i := child]));
      c.(node := c.node[i := child])
  }

  lemma NowIsKey(t: string)
    requires t != "" && WellFormed(t)
    ensures Now(t) != "" && Len(Now(t)) == |Now(t)| == Len(t) && Now(t) + t[Len(t)..] == t
  {
  }

  lemma UpdateOk(n: TrieNode, m: TrieNode)
    requires NodeOk(n) && m.nodeMap == n.nodeMap && |m.node| == |n.node| && |m.info| == |n.info|
    requires forall i | 0 <= i < |m.node| :: NodeOk(m.node[i])
    ensures NodeOk(m)
  {
    forall k | k in m.nodeMap ensures KeyOk(m, k) { assert KeyOk(n, k); }
  }

  /** Inserting adds the info at the end of what its key has, and changes nothing else. */
  lemma {:induction false} InsertInfos(n: TrieNode, t: string, info: string, q: string)
    requires NodeOk(n) && t != "" && WellFormed(t)
    ensures InfosAt(Insert(n, t, info), q) == InfosAt(n, q) + if q == t then [info] else []
    decreases |t|
  {
    NowIsKey(t);
    WithChildOk(n, Now(t));
    WithChildInfos(n, Now(t), q);
    var c, m := WithChild(n, Now(t)), Insert(n, t, info);
    assert KeyOk(c, Now(t));
    if Len(t) < |t| {
      if q != "" && Len(q) < |q| && Now(q) == Now(t) {
        InsertInfos(c.node[c.nodeMap[Now(t)]], t[Len(t)..], info, q[Len(q)..]);
        SameStart(q, t);
      }
    }
    if q != "" && Len(q) <= |q| && Now(q) in c.nodeMap {
      assert KeyOk(c, Now(q));
    }
  }

  lemma SameStart(q: string, t: string)
    requires q != "" && t != "" && Len(q) <= |q| && Len(t) <= |t| && Now(q) == Now(t)
    ensures Len(q) == Len(t) && (q == t <==> q[Len(q)..] == t[Len(t)..])
  {
    assert q == Now(q) + q[Len(q)..] && t == Now(t) + t[Len(t)..];
    assert q[0] == Now(q)[0] && t[0] == Now(t)[0];
  }

  //
  // Querying.
  //

  /** The answers for one prefix. */
  function Tagged(prefix: string, infos: seq<string>): seq<string> {
    if infos == [] then [] else Tagged(prefix, infos[..|infos| - 1]) + [prefix + "\t" + infos[|infos| - 1]]
  }

  /** query_inner: `done` has been followed to this node, t is what is left. */
  function Query(n: TrieNode, done: string, t: string): seq<string>
    requires NodeOk(n)
    decreases |t|
  {
    if Now(t) !in n.nodeMap then []
    else
      assert KeyOk(n, Now(t));
      var i := n.nodeMap[Now(t)];
      FoundIsWhole(n, t);
      Tagged(done + Now(t), n.info[i]) + Query(n.node[i], done + Now(t), t[Len(t)..])
  }

  /** What is found is a whole character: the end of the string and a cut character are no keys. */
  lemma FoundIsWhole(n: TrieNode, t: string)
    requires NodeOk(n) && Now(t) in n.nodeMap
    ensures t != "" && Len(t) <= |t| && Now(t) == t[..Len(t)]
  {
    assert KeyOk(n, Now(t));
  }

  //
  // The log.
  //

  datatype Entry = Entry(key: string, info: string)

  /** The infos that were inserted under a key, in that order. */
  function Logged(log: seq<Entry>, key: string): seq<string> {
    if log == [] then []
    else Logged(log[..|log| - 1], key) + if log[|log| - 1].key == key then [log[|log| - 1].info] else []
  }

  /** Going through the log for every prefix of whole characters, in increasing length. */
  function LogQuery(log: seq<Entry>, done: string, t: string): seq<string>
    decreases |t|
  {
    if t == "" || Len(t) > |t| then []
    else Tagged(done + Now(t), Logged(log, done + Now(t))) + LogQuery(log, done + Now(t), t[Len(t)..])
  }

  /** The node holds what the log has under keys that begin with `done`. */
  ghost predicate Holds(n: TrieNode, log: seq<Entry>, done: string)
    requires NodeOk(n)
  {
    forall q | q != "" :: InfosAt(n, q) == Logged(log, done + q)
  }

  ghost predicate NothingUnder(log: seq<Entry>, done: string) {
    forall q | q != "" :: Logged(log, done + q) == []
  }

  lemma {:induction false} NoAnswers(log: seq<Entry>, done: string, t: string)
    requires t == "" || Len(t) > |t| || (Logged(log, done + Now(t)) == [] && NothingUnder(log, done + Now(t)))
    ensures LogQuery(log, done, t) == []
    decreases |t|
  {
    if t != "" && Len(t) <= |t| {
      var p, rest := done + Now(t), t[Len(t)..];
      forall q | q != "" && rest != "" && Len(rest) <= |rest| ensures Logged(log, (p + Now(rest)) + q) == [] {
        assert (p + Now(rest)) + q == p + (Now(rest) + q);
      }
      NoAnswers(log, p, rest);
    }
  }

  lemma ChildHolds(n: TrieNode, log: seq<Entry>, done: string, now: string)
    requires NodeOk(n) && Holds(n, log, done) && now != "" && Len(now) == |now|
    ensures now in n.nodeMap ==>
              n.nodeMap[now] < |n.node| == |n.info| && n.info[n.nodeMap[now]] == Logged(log, done + now) && Holds(n.node[n.nodeMap[now]], log, done + now)
    ensures now !in n.nodeMap ==> Logged(log, done + now) == [] && NothingUnder(log, done + now)
  {
    if now in n.nodeMap { assert KeyOk(n, now); }
    assert InfosAt(n, now) == Logged(log, done + now);
    assert Now(now) == now;
    forall q | q != "" ensures Logged(log, (done + now) + q) == InfosAt(n, now + q) && Now(now + q) == now && (now + q)[Len(now + q)..] == q {
      assert (done + now) + q == done + (now + q);
      assert (now + q)[0] == now[0];
      assert (now + q)[..|now|] == now;
    }
  }

  /** A query answers what going through the log would. */
  lemma {:induction false} QueryIsLog(n: TrieNode, log: seq<Entry>, done: string, t: string)
    requires NodeOk(n) && Holds(n, log, done)
    ensures Query(n, done, t) == LogQuery(log, done, t)
    decreases |t|
  {
    if t == "" || Len(t) > |t| {
      if Now(t) in n.nodeMap { FoundIsWhole(n, t); }
    } else {
      ChildHolds(n, log, done, Now(t));
      if Now(t) in n.nodeMap {
        QueryIsLog(n.node[n.nodeMap[Now(t)]], log, done + Now(t), t[Len(t)..]);
      } else {
        NoAnswers(log, done, t);
      }
    }
  }

  lemma InsertHolds(n: TrieNode, log: seq<Entry>, key: string, info: string)
    requires NodeOk(n) && Holds(n, log, "") && key != "" && WellFormed(key)
    ensures Holds(Insert(n, key, info), log + [Entry(key, info)], "")
  {
    hide Insert, InfosAt;
    var more := log + [Entry(key, info)];
    forall q | q != "" ensures InfosAt(Insert(n, key, info), q) == Logged(more, "" + q) {
      InsertInfos(n, key, info, q);
      assert more[..|log|] == log && "" + q == q;
    }
  }

  lemma EmptyHolds()
    ensures NodeOk(EMPTY) && Holds(EMPTY, [], "")
  {
    forall q | q != "" ensures InfosAt(EMPTY, q) == Logged([], "" + q) { EmptyOk(q); }
  }

  /** k is a prefix of t of at least one, and of whole, characters. */
  predicate PrefixOf(k: string, t: string)
    decreases |t|
  {
    t != "" && Len(t) <= |t| && Now(t) <= k && (k == Now(t) || PrefixOf(k[Len(t)..], t[Len(t)..]))
  }

  function Line(e: Entry): string {
    e.key + "\t" + e.info
  }

  lemma {:induction false} TaggedHas(prefix: string, infos: seq<string>, line: string)
    ensures line in Tagged(prefix, infos) <==> exists i | 0 <= i < |infos| :: line == prefix + "\t" + infos[i]
  {
    if infos != [] {
      TaggedHas(prefix, infos[..|infos| - 1], line);
      assert forall i | 0 <= i < |infos| - 1 :: infos[..|infos| - 1][i] == infos[i];
    }
  }

  lemma {:induction false} LoggedHas(log: seq<Entry>, key: string, info: string)
    ensures info in Logged(log, key) <==> Entry(key, info) in log
  {
    if log != [] {
      LoggedHas(log[..|log| - 1], key, info);
      assert log == log[..|log| - 1] + [log[|log| - 1]];
    }
  }

  /** The line stands for the entry, whose key is `done` and then a prefix of t. */
  predicate AnsweredBy(e: Entry, done: string, t: string, line: string) {
    Line(e) == line && done <= e.key && PrefixOf(e.key[|done|..], t)
  }

  predicate LineUnder(e: Entry, key: string, line: string) {
    Line(e) == line && e.key == key
  }

  lemma AnsweredStep(e: Entry, done: string, t: string, line: string)
    requires t != "" && Len(t) <= |t|
    ensures AnsweredBy(e, done, t, line) <==> LineUnder(e, done + Now(t), line) || AnsweredBy(e, done + Now(t), t[Len(t)..], line)
  {
    var key := e.key;
    if done <= key {
      var k := key[|done|..];
      assert key == done + k;
      if Now(t) <= k { assert k[Len(t)..] == key[|done + Now(t)|..] && done + Now(t) <= key; }
      if done + Now(t) <= key { assert k[..Len(t)] == Now(t); }
    }
    if key == done + Now(t) { assert key[|done|..] == Now(t); }
    hide Line;
  }

  lemma TaggedLines(log: seq<Entry>, p: string, line: string)
    ensures line in Tagged(p, Logged(log, p)) <==> exists e :: e in log && LineUnder(e, p, line)
  {
    var infos := Logged(log, p);
    TaggedHas(p, infos, line);
    hide Logged, Tagged;
    if i :| 0 <= i < |infos| && line == p + "\t" + infos[i] {
      LoggedHas(log, p, infos[i]);
      assert LineUnder(Entry(p, infos[i]), p, line);
    }
    if e :| e in log && LineUnder(e, p, line) {
      LoggedHas(log, p, e.info);
      assert e == Entry(p, e.info);
    }
  }

  /** A line is answered exactly if it stands for an entry whose key the string begins with. */
  lemma {:induction false} AnswersIff(log: seq<Entry>, done: string, t: string, line: string)
    ensures line in LogQuery(log, done, t) <==> exists e :: e in log && AnsweredBy(e, done, t, line)
    decreases |t|
  {
    if t != "" && Len(t) <= |t| {
      var p := done + Now(t);
      AnswersIff(log, p, t[Len(t)..], line);
      TaggedLines(log, p, line);
      forall e ensures AnsweredBy(e, done, t, line) <==> LineUnder(e, p, line) || AnsweredBy(e, p, t[Len(t)..], line) {
        AnsweredStep(e, done, t, line);
      }
      hide Logged, Tagged, AnsweredBy, LineUnder, Now, Len;
    }
  }

  //
  // The index.
  //

  method InsertInner(nowNode: TrieNode, strPos: nat, str: string, info: string) returns (after: TrieNode)
    requires NodeOk(nowNode) && strPos < |str| && WellFormed(str[strPos..])
    ensures after == Insert(nowNode, str[strPos..], info)
    decreases |str| - strPos
  {
    hide *;
    InsertStep(nowNode, str, strPos, info);
    var nowLen := WordLength(str[strPos]);
    var now := str[strPos..strPos + nowLen];
    after := nowNode;
    if now !in after.nodeMap {
      after := after.(nodeMap := after.nodeMap[now := |after.node|]);
      after := after.(node := after.node + [EMPTY]);
      after := after.(info := after.info + [[]]);
    }
    assert after == WithChild(nowNode, now) by { WithChildIs(nowNode, now); }
    var index := after.nodeMap[now];
    if strPos + nowLen == |str| {
      after := after.(info := after.info[index := after.info[index] + [info]]);
      return;
    }
    var child := InsertInner(after.node[index], strPos + nowLen, str, info);
    after := after.(node := after.node[index := child]);
  }

  lemma WithChildIs(n: TrieNode, now: string)
    ensures WithChild(n, now) == if now in n.nodeMap then n else TrieNode(n.info + [[]], n.node + [EMPTY], n.nodeMap[now := |n.node|])
  {
  }

  lemma InsertStep(n: TrieNode, str: string, pos: nat, info: string)
    requires NodeOk(n) && pos < |str| && WellFormed(str[pos..])
    ensures pos + WordLength(str[pos]) <= |str|
    ensures var len := WordLength(str[pos]);
            var now := str[pos..pos + len];
            var c := WithChild(n, now);
            now in c.nodeMap && c.nodeMap[now] < |c.node| == |c.info| && NodeOk(c.node[c.nodeMap[now]]) && WellFormed(str[pos + len..]) &&
            Insert(n, str[pos..], info) ==
              var i := c.nodeMap[now];
              if pos + len == |str| then c.(info := c.info[i := c.info[i] + [info]])
              else c.(node := c.node[i := Insert(c.node[i], str[pos + len..], info)])
  {
    hide *;
    var t := str[pos..];
    NowAt(str, pos);
    InsertIs(n, t, info);
    assert t[Len(t)..] == str[pos + Len(t)..];
  }

  lemma InsertIs(n: TrieNode, t: string, info: string)
    requires NodeOk(n) && t != "" && WellFormed(t)
    ensures Len(t) <= |t| && WellFormed(t[Len(t)..])
    ensures var c, now := WithChild(n, Now(t)), Now(t);
            now in c.nodeMap && c.nodeMap[now] < |c.node| == |c.info| && NodeOk(c.node[c.nodeMap[now]]) &&
            Insert(n, t, info) ==
              var i := c.nodeMap[now];
              if Len(t) == |t| then c.(info := c.info[i := c.info[i] + [info]])
              else c.(node := c.node[i := Insert(c.node[i], t[Len(t)..], info)])
  {
    NowIsKey(t);
    WithChildOk(n, Now(t));
    ChildOk(WithChild(n, Now(t)), Now(t));
    hide NodeOk, WithChild, Now;
  }

  method QueryInner(nowNode: TrieNode, strPos: nat, str: string, ans0: seq<string>) returns (ans: seq<string>)
    requires NodeOk(nowNode) && strPos <= |str|
    ensures ans == ans0 + Query(nowNode, str[..strPos], str[strPos..])
    decreases |str| - strPos
  {
    hide *;
    NowAt(str, strPos);
    ans := ans0;
    var nowLen := if strPos == |str| then 1 else WordLength(str[strPos]);
    var now := if strPos + nowLen <= |str| then str[strPos..strPos + nowLen] else str[strPos..];
    if now !in nowNode.nodeMap {
      NotFound(nowNode, str[..strPos], str[strPos..]);
      return;
    }
    QueryStep(nowNode, str, strPos);
    var index := nowNode.nodeMap[now];
    var sstr := str[..strPos + nowLen];
    ans := PushAll(sstr, nowNode.info[index], ans);
    ans := QueryInner(nowNode.node[index], strPos + nowLen, str, ans);
    Reassociate(ans0, Tagged(sstr, nowNode.info[index]), Query(nowNode.node[index], sstr, str[strPos + nowLen..]));
  }

  lemma Reassociate(a: seq<string>, b: seq<string>, c: seq<string>)
    ensures (a + b) + c == a + (b + c)
  {
  }

  lemma NowAt(str: string, pos: nat)
    requires pos <= |str|
    ensures var n := if pos == |str| then 1 else WordLength(str[pos]);
            Len(str[pos..]) == n && Now(str[pos..]) == if pos + n <= |str| then str[pos..pos + n] else str[pos..]
  {
  }

  lemma NotFound(n: TrieNode, done: string, t: string)
    requires NodeOk(n) && Now(t) !in n.nodeMap
    ensures Query(n, done, t) == []
  {
  }

  lemma ChildOk(n: TrieNode, k: string)
    requires NodeOk(n) && k in n.nodeMap
    ensures n.nodeMap[k] < |n.node| == |n.info| && NodeOk(n.node[n.nodeMap[k]])
  {
    assert KeyOk(n, k);
  }

  lemma QueryIs(n: TrieNode, done: string, t: string)
    requires NodeOk(n) && Now(t) in n.nodeMap
    ensures var i := n.nodeMap[Now(t)];
            i < |n.node| == |n.info| && NodeOk(n.node[i]) && Len(t) <= |t| &&
            Query(n, done, t) == Tagged(done + Now(t), n.info[i]) + Query(n.node[i], done + Now(t), t[Len(t)..])
  {
    ChildOk(n, Now(t));
    FoundIsWhole(n, t);
    hide NodeOk, Tagged, Now, Len;
  }

  lemma QueryStep(n: TrieNode, str: string, pos: nat)
    requires NodeOk(n) && pos <= |str| && Now(str[pos..]) in n.nodeMap
    ensures var t, i := str[pos..], n.nodeMap[Now(str[pos..])];
            i < |n.node| == |n.info| && NodeOk(n.node[i]) && pos + Len(t) <= |str| &&
            Query(n, str[..pos], t) == Tagged(str[..pos + Len(t)], n.info[i]) + Query(n.node[i], str[..pos + Len(t)], str[pos + Len(t)..])
  {
    hide *;
    var t := str[pos..];
    FoundIsWhole(n, t);
    QueryIs(n, str[..pos], t);
    assert str[..pos] + t[..Len(t)] == str[..pos + Len(t)] && t[Len(t)..] == str[pos + Len(t)..];
  }

  /** The loop that puts the infos of one prefix into the answer. */
  method PushAll(sstr: string, infos: seq<string>, ans0: seq<string>) returns (ans: seq<string>)
    ensures ans == ans0 + Tagged(sstr, infos)
  {
    ans := ans0;
    var i := 0;
    assert infos[..0] == [];
    while i < |infos|
      invariant i <= |infos| && ans == ans0 + Tagged(sstr, infos[..i])
    {
      assert infos[..i + 1][..i] == infos[..i];
      ans := ans + [sstr + "\t" + infos[i]];
      i := i + 1;
    }
    assert infos[..i] == infos;
  }

  class TrieTree {
    var trieHead: TrieNode
    /** Everything that was inserted. */
    ghost var log: seq<Entry>

    ghost predicate Valid()
      reads this
    {
      NodeOk(trieHead) && Holds(trieHead, log, "")
    }

    constructor ()
      ensures Valid() && log == []
    {
      trieHead, log := EMPTY, [];
      EmptyHolds();
    }

    method Insert(str: string, info: string)
      requires Valid() && str != "" && WellFormed(str)
      modifies this
      ensures Valid() && log == old(log) + [Entry(str, info)]
    {
      InsertHolds(trieHead, log, str, info);
      assert str[0..] == str;
      trieHead := InsertInner(trieHead, 0, str, info);
      log := log + [Entry(str, info)];
    }

    method Query(str: string) returns (ans: seq<string>)
      requires Valid()
      ensures ans == LogQuery(log, "", str)
    {
      QueryIsLog(trieHead, log, "", str);
      assert str[..0] == "" && str[0..] == str;
      ans := QueryInner(trieHead, 0, str, []);
    }
  }
}
