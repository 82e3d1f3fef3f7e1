/**
  The tail file of the Korean double-array trie (ArrayTrie.cpp), as raw bytes. A record is the rest of
  a word (its terminator included, or nothing when an edge has spelled the terminator), the mark 0x01,
  and the data as a four-byte little-endian integer.
 */
module TailFile {
  import opened TrieTree

  const HEADER := 16
  const MARK := 1
  const BUFFER := 500
  const INT_MAX := 0x7fff_ffff

  function EncodeInt(d: int): (b: seq<int>)
    ensures |b| == 4
  {
    [d % 256, d / 256 % 256, d / 0x1_0000 % 256, d / 0x100_0000 % 256]
  }

  function DecodeInt(b: seq<int>): int
    requires |b| == 4
  {
    b[0] + 256 * b[1] + 0x1_0000 * b[2] + 0x100_0000 * b[3]
  }

  lemma IntRoundTrip(d: int)
    requires 0 <= d <= INT_MAX
    ensures DecodeInt(EncodeInt(d)) == d
  {
    assert d / 0x100_0000 % 256 == d / 0x100_0000;
    assert d / 256 / 256 == d / 0x1_0000 && d / 0x1_0000 / 256 == d / 0x100_0000;
  }

  /** What a record may hold: nothing, or a C string with its terminator. */
  predicate IsText(t: Word) {
    t == [] || (|t| <= MAX_KEY && t[|t| - 1] == 0 && forall i | 0 <= i < |t| - 1 :: 2 <= t[i] < SETSIZE)
  }

  predicate IsRecord(r: Record) {
    IsText(r.ext) && 0 <= r.data <= INT_MAX
  }

  function Image(r: Record): seq<int> {
    r.ext + [MARK] + EncodeInt(r.data)
  }

  ghost predicate StoredAt(bytes: seq<int>, pos: int, r: Record) {
    && HEADER <= pos && pos + |Image(r)| <= |bytes|
    && bytes[pos..pos + |Image(r)|] == Image(r)
    && IsRecord(r)
  }

  /** Every record is in the file, and no two overlap. */
  ghost predicate Stored(bytes: seq<int>, recs: map<int, Record>) {
    && HEADER <= |bytes|
    && (forall p {:trigger StoredAt(bytes, p, recs[p])} | p in recs :: StoredAt(bytes, p, recs[p]))
    && forall p, q | p in recs && q in recs && p < q :: p + |Image(recs[p])| <= q
  }

  /** The file after the bytes `image` have been written at pos, where pos is inside the file or at its end. */
  function Written(bytes: seq<int>, pos: int, image: seq<int>): (r: seq<int>)
    requires 0 <= pos <= |bytes|
  {
    bytes[..pos] + image + (if pos + |image| <= |bytes| then bytes[pos + |image|..] else [])
  }

  lemma Append(bytes: seq<int>, recs: map<int, Record>, r: Record)
    requires Stored(bytes, recs) && IsRecord(r)
    ensures |bytes| !in recs && Stored(Written(bytes, |bytes|, Image(r)), recs[|bytes| := r])
  {
    var bytes' := Written(bytes, |bytes|, Image(r));
    var recs' := recs[|bytes| := r];
    assert |bytes| in recs ==> StoredAt(bytes, |bytes|, recs[|bytes|]);
    assert bytes'[|bytes|..|bytes| + |Image(r)|] == Image(r);
    forall p | p in recs' ensures StoredAt(bytes', p, recs'[p]) {
      if p != |bytes| {
        assert StoredAt(bytes, p, recs[p]);
        assert bytes'[p..p + |Image(recs[p])|] == bytes[p..p + |Image(recs[p])|];
      }
    }
    forall p, q | p in recs' && q in recs' && p < q ensures p + |Image(recs'[p])| <= q {
      assert p != |bytes| ==> StoredAt(bytes, p, recs[p]);
      assert q != |bytes| ==> StoredAt(bytes, q, recs[q]);
    }
  }

  /** Writing a record over a longer one (or one as long) leaves all the others alone. */
  lemma Overwrite(bytes: seq<int>, recs: map<int, Record>, pos: int, r: Record)
    requires Stored(bytes, recs) && IsRecord(r) && pos in recs && |r.ext| <= |recs[pos].ext|
    ensures 0 <= pos <= |bytes| && Stored(Written(bytes, pos, Image(r)), recs[pos := r])
  {
    assert StoredAt(bytes, pos, recs[pos]);
    var bytes' := Written(bytes, pos, Image(r));
    var recs' := recs[pos := r];
    assert |bytes'| == |bytes|;
    assert bytes'[pos..pos + |Image(r)|] == Image(r);
    forall p | p in recs' ensures StoredAt(bytes', p, recs'[p]) {
      if p != pos {
        assert StoredAt(bytes, p, recs[p]);
        var n := |Image(recs[p])|;
        assert if p < pos then p + n <= pos else pos + |Image(r)| <= p;
        assert bytes'[p..p + n] == bytes[p..p + n];
      }
    }
  }

  /** The C string at the head of a buffer, terminator included (the whole buffer if there is none). */
  function CString(buf: seq<int>): (s: seq<int>) {
    if buf == [] then [] else if buf[0] == 0 then [0] else [buf[0]] + CString(buf[1..])
  }

  lemma {:induction false} CStringOf(t: Word, rest: seq<int>)
    requires t != [] && t[|t| - 1] == 0 && forall i | 0 <= i < |t| - 1 :: t[i] != 0
    ensures CString(t + rest) == t
  {
    if |t| > 1 {
      assert (t + rest)[1..] == t[1..] + rest;
      CStringOf(t[1..], rest);
    } else {
      assert (t + rest)[0] == 0;
    }
  }

  /** Changing the data of a record in place. */
  lemma Patch(bytes: seq<int>, recs: map<int, Record>, pos: int, data: int)
    requires Stored(bytes, recs) && pos in recs && 0 <= data <= INT_MAX
    ensures var at := pos + |recs[pos].ext| + 1;
            && 0 <= at <= |bytes| && 0 <= pos <= |bytes|
            && Written(bytes, at, EncodeInt(data)) == Written(bytes, pos, Image(Record(recs[pos].ext, data)))
            && Stored(Written(bytes, at, EncodeInt(data)), recs[pos := Record(recs[pos].ext, data)])
  {
    var r := recs[pos];
    assert StoredAt(bytes, pos, r);
    var at := pos + |r.ext| + 1;
    var r' := Record(r.ext, data);
    assert bytes[pos..at] == Image(r)[..|r.ext| + 1] == r.ext + [MARK];
    assert Written(bytes, at, EncodeInt(data)) == Written(bytes, pos, Image(r')) by {
      assert bytes[..at] == bytes[..pos] + bytes[pos..at];
    }
    Overwrite(bytes, recs, pos, r');
  }

  /** What a buffer that begins with the image of a record shows. */
  lemma ReadBack(buf: seq<int>, r: Record)
    requires IsRecord(r) && Image(r) <= buf
    ensures var n := |r.ext|;
            && (forall i | 0 <= i < n :: buf[i] != MARK) && buf[n] == MARK
            && DecodeInt(buf[n + 1..n + 5]) == r.data
            && (n > 0 ==> CString(buf) == r.ext)
  {
    var n := |r.ext|;
    var rest := [MARK] + EncodeInt(r.data) + buf[n + 5..];
    assert buf == Image(r) + buf[n + 5..] == r.ext + rest;
    assert buf[n + 1..n + 5] == EncodeInt(r.data);
    IntRoundTrip(r.data);
    if n > 0 { CStringOf(r.ext, rest); }
  }
}
