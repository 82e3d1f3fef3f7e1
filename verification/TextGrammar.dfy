/**
  What ReadText accepts, in every encoding, as a relation between a text, the characters it stands for
  and the part that is left. The functions of the reader are not named in it; they are proved to find
  just what stands in it.
 */
module TextGrammar {
  import opened XmlText

  /** One of the five names. */
  predicate NamedTo(t: string, c: string, u: string) {
    exists k | 0 <= k < |ENTITY| :: t == ENTITY[k].0 + u && c == [ENTITY[k].1]
  }

  predicate HasName(t: string) {
    exists k | 0 <= k < |ENTITY| :: Starts(t, ENTITY[k].0)
  }

  /** The digits, each times its power of the base and cut to 32 bits, added up. */
  function Terms(ns: seq<nat>, base: nat, power: nat): nat
    decreases |ns|
  {
    if ns == [] then 0
    else Times(power, ns[|ns| - 1]) % WORD + Terms(ns[..|ns| - 1], base, Times(power, base))
  }

  /** What stands before the digits of a reference: up to the last x or number sign before the first semicolon. */
  predicate Marked(pre: string, mark: char, base: nat) {
    && |pre| >= 2 && pre[..2] == "&#" && ';' !in pre && pre[|pre| - 1] == mark
    && if HexRef(pre) then mark == 'x' && base == 16 else mark == '#' && base == 10
  }

  /** A character reference, its number cut to 64 bits. */
  ghost predicate ReferenceTo(t: string, c: string, u: string, e: Encoding) {
    exists pre, ds, ns, mark, base ::
      Marked(pre, mark, base) && Spells(ds, ns, base) && t == pre + (ds + (";" + u)) && c == Character(Terms(ns, base, 1) % LONG, e)
  }

  /** An entity; an ampersand that begins none stands for nothing at all. */
  ghost predicate EntityTo(t: string, c: string, u: string, e: Encoding) {
    if Starts(t, "&#") && |t| > 2 then ReferenceTo(t, c, u, e)
    else if HasName(t) then NamedTo(t, c, u)
    else t == "&" + u && c == ""
  }

  /** One character: an entity, or as many bytes as the first one calls for. */
  ghost predicate CharTo(t: string, c: string, u: string, e: Encoding) {
    && t != ""
    && if t[0] == '&' then EntityTo(t, c, u, e) else t == c + u && |c| == CharLength(t[0], e)
  }

  /** Characters up to the first place where the delimiter begins. */
  ghost predicate TextTo(t: string, endTag: string, text: string, u: string, e: Encoding)
    decreases |t|
  {
    if Starts(t, endTag) then text == "" && t == endTag + u
    else exists c, m, more :: CharTo(t, c, m, e) && |m| < |t| && text == c + more && TextTo(m, endTag, more, u, e)
  }

  //
  // References.
  //

  lemma TermsLast(ns: seq<nat>, base: nat, power: nat)
    requires ns != []
    ensures Terms(ns, base, power) == Times(power, ns[|ns| - 1]) % WORD + Terms(ns[..|ns| - 1], base, Times(power, base))
  {
  }

  lemma NoTerms(base: nat, power: nat)
    ensures Terms([], base, power) == 0
  {
  }

  lemma ProductWraps(p: nat, d: nat)
    ensures (p % WORD) * d % WORD == Times(p, d) % WORD
  {
    PowerWraps(p, d);
  }

  lemma SumWraps(ucs: nat, x: nat, y: nat)
    ensures ((ucs + x) % LONG + y) % LONG == (ucs + (x + y)) % LONG
  {
  }

  lemma DigitsNext(t: string, b: nat, q: nat, mark: char, base: nat, ucs: nat, p: nat, d: nat)
    requires b < q < |t| && t[b] == mark && t[q] != mark && MarkOf(mark, base) && (if mark == 'x' then HexDigit(t[q]) else DecDigit(t[q])) == d
    ensures Digits(t, q, mark, ucs, p % WORD) == Digits(t, q - 1, mark, (ucs + Times(p, d) % WORD) % LONG, Times(p, base) % WORD)
  {
    OneStep(t, b, q, mark, base, ucs, p % WORD, d);
    ProductWraps(p, d);
    ProductWraps(p, base);
    hide Digits, HexDigit, DecDigit, Times;
  }

  lemma {:induction false} DigitsAreTerms(t: string, b: nat, q: nat, ns: seq<nat>, mark: char, base: nat, ucs: nat, p: nat)
    requires b <= q < |t| && t[b] == mark && MarkOf(mark, base) && Spells(t[b + 1..q + 1], ns, base) && ucs < LONG
    ensures Digits(t, q, mark, ucs, p % WORD) == (ucs + Terms(ns, base, p)) % LONG
    decreases |ns|
  {
    hide *;
    SpellsSize(t[b + 1..q + 1], ns, base);
    if ns == [] {
      NoDigitsLeft(t, b, q, mark, base, ucs, p);
    } else {
      var init, d := ns[..|ns| - 1], ns[|ns| - 1];
      SpellsLast(t, b, q, ns, base);
      DigitIs(t[q], d, mark, base);
      DigitsNext(t, b, q, mark, base, ucs, p, d);
      DigitsAreTerms(t, b, q - 1, init, mark, base, Sum(ucs, p, d), Times(p, base));
      TermsSum(ns, base, ucs, p);
    }
  }

  function Sum(ucs: nat, p: nat, d: nat): (r: nat)
    ensures r == (ucs + Times(p, d) % WORD) % LONG < LONG
  {
    (ucs + Times(p, d) % WORD) % LONG
  }

  lemma NoDigitsLeft(t: string, b: nat, q: nat, mark: char, base: nat, ucs: nat, p: nat)
    requires b <= q < |t| && t[b] == mark && Spells(t[b + 1..q + 1], [], base) && ucs < LONG
    ensures Digits(t, q, mark, ucs, p % WORD) == (ucs + Terms([], base, p)) % LONG
  {
    NoNumber(t, b, q, base, p);
    DigitsEnd(t, q, mark, ucs, p % WORD);
    NoTerms(base, p);
    Small(ucs, LONG);
    hide Digits, Terms;
  }

  lemma TermsSum(ns: seq<nat>, base: nat, ucs: nat, p: nat)
    requires ns != []
    ensures var init, d := ns[..|ns| - 1], ns[|ns| - 1];
            (Sum(ucs, p, d) + Terms(init, base, Times(p, base))) % LONG == (ucs + Terms(ns, base, p)) % LONG
  {
    var init, d := ns[..|ns| - 1], ns[|ns| - 1];
    TermsLast(ns, base, p);
    SumWraps(ucs, Times(p, d) % WORD, Terms(init, base, Times(p, base)));
    hide Terms, Times;
  }

  /** Where digits are read, there are digits back to the last mark. */
  lemma {:induction false} DigitsSpell(t: string, q: nat, mark: char, base: nat, ucs: nat, mult: nat) returns (b: nat, ns: seq<nat>)
    requires q < |t| && (exists i :: 0 <= i <= q && t[i] == mark) && MarkOf(mark, base) && Digits(t, q, mark, ucs, mult) >= 0
    ensures b <= q && t[b] == mark && Spells(t[b + 1..q + 1], ns, base)
    ensures forall i | 0 <= i <= q && t[i] == mark :: i <= b
    decreases q
  {
    hide HexDigit, DecDigit, IsDigit;
    if t[q] == mark {
      b, ns := q, [];
    } else {
      var d := if mark == 'x' then HexDigit(t[q]) else DecDigit(t[q]);
      HexDigitIs(t[q]);
      DecDigitIs(t[q]);
      assert d >= 0 && IsDigit(t[q], d, base);
      var init;
      b, init := DigitsSpell(t, q - 1, mark, base, (ucs + mult * d % WORD) % LONG, mult * (if mark == 'x' then 16 else 10) % WORD);
      ns := init + [d];
      assert t[b + 1..q + 1] == t[b + 1..q] + [t[q]];
      SpellsMore(t[b + 1..q], init, t[q], d, base);
    }
  }

  lemma SpellsMore(ds: string, ns: seq<nat>, c: char, d: nat, base: nat)
    requires Spells(ds, ns, base) && IsDigit(c, d, base)
    ensures Spells(ds + [c], ns + [d], base)
  {
  }

  /** What GetEntity does with a reference whose first semicolon is at j. */
  lemma ReferenceStep(t: string, j: nat, hex: bool, e: Encoding)
    requires 2 <= j < |t| && t[0] == '&' && t[1] == '#' && t[j] == ';' && (forall i | 0 <= i < j :: t[i] != ';') && hex == (t[2] == 'x')
    ensures var ucs := if hex then Digits(t, j - 1, 'x', 0, 1) else (assert t[1] == '#'; Digits(t, j - 1, '#', 0, 1));
            GetEntity(t, e) == if ucs < 0 then Null else Got(Character(ucs, e), t[j + 1..])
  {
    hide *;
    if hex {
      forall i | 0 <= i < j - 3 ensures t[3..][i] != ';' { assert t[3..][i] == t[3 + i]; }
      FindBefore(t[3..], ';', j - 3);
      HexStep(t, j - 3, e);
    } else {
      forall i | 0 <= i < j - 2 ensures t[2..][i] != ';' { assert t[2..][i] == t[2 + i]; }
      FindBefore(t[2..], ';', j - 2);
      DecimalStep(t, j - 2, e);
    }
  }

  /** Where the parts of a reference are. */
  lemma ReferencePlaces(t: string, pre: string, ds: string, ns: seq<nat>, u: string, mark: char, base: nat)
    requires Marked(pre, mark, base) && Spells(ds, ns, base) && t == pre + (ds + (";" + u))
    ensures var j := |pre| + |ds|;
            && 2 <= j < |t| && t[0] == '&' && t[1] == '#' && t[j] == ';' && (forall i | 0 <= i < j :: t[i] != ';')
            && t[|pre| - 1] == mark && t[|pre|..j] == ds && t[j + 1..] == u && (t[2] == 'x' <==> HexRef(pre)) && MarkOf(mark, base)
  {
    NoSemicolon(ds, ns, base);
    Places(pre, ds, u, t);
    hide Spells;
    assert forall i | 0 <= i < |pre| :: t[i] == pre[i];
    assert forall i | 0 <= i < |ds| :: t[|pre| + i] == ds[i];
    assert pre[0] == pre[..2][0] && pre[1] == pre[..2][1];
  }

  /** The number between a mark and the first semicolon. */
  lemma NumberIs(t: string, b: nat, j: nat, ns: seq<nat>, mark: char, base: nat)
    requires b < j < |t| && t[b] == mark && MarkOf(mark, base) && Spells(t[b + 1..j], ns, base)
    ensures Digits(t, j - 1, mark, 0, 1) == Terms(ns, base, 1) % LONG >= 0
  {
    assert 0 < LONG;
    One(1);
    hide *;
    DigitsAreTerms(t, b, j - 1, ns, mark, base, 0, 1);
  }

  lemma ReadsAs(t: string, pre: string, ds: string, ns: seq<nat>, u: string, mark: char, base: nat, e: Encoding)
    requires Marked(pre, mark, base) && Spells(ds, ns, base) && t == pre + (ds + (";" + u))
    ensures t != "" && GetEntity(t, e) == Got(Character(Terms(ns, base, 1) % LONG, e), u)
  {
    var j, value := |pre| + |ds|, Terms(ns, base, 1) % LONG;
    MarkIs(pre, mark, base);
    hide *;
    ReferencePlaces(t, pre, ds, ns, u, mark, base);
    ReferenceStep(t, j, HexRef(pre), e);
    NumberIs(t, |pre| - 1, j, ns, mark, base);
  }

  lemma MarkIs(pre: string, mark: char, base: nat)
    requires Marked(pre, mark, base)
    ensures |pre| >= 2 && mark == if HexRef(pre) then 'x' else '#'
  {
  }

  lemma ReferenceReads(t: string, c: string, u: string, e: Encoding)
    requires t != "" && ReferenceTo(t, c, u, e)
    ensures GetEntity(t, e) == Got(c, u)
  {
    var pre, ds, ns, mark, base :|
      Marked(pre, mark, base) && Spells(ds, ns, base) && t == pre + (ds + (";" + u)) && c == Character(Terms(ns, base, 1) % LONG, e);
    hide *;
    ReadsAs(t, pre, ds, ns, u, mark, base, e);
  }

  lemma MarkedBefore(t: string, j: nat, b: nat, mark: char, base: nat)
    requires 2 <= j < |t| && t[0] == '&' && t[1] == '#' && (forall i | 0 <= i < j :: t[i] != ';')
    requires if t[2] == 'x' then mark == 'x' && base == 16 && b >= 2 else mark == '#' && base == 10 && b >= 1
    requires b < j && t[b] == mark
    ensures Marked(t[..b + 1], mark, base)
  {
    var pre := t[..b + 1];
    assert pre[..2] == "&#";
  }

  lemma InParts(t: string, b: nat, j: nat)
    requires b < j < |t| && t[j] == ';'
    ensures t == t[..b + 1] + (t[b + 1..j] + (";" + t[j + 1..]))
  {
  }

  lemma FirstSemicolonAt(t: string, e: Encoding) returns (j: nat)
    requires |t| > 2 && t[0] == '&' && t[1] == '#' && GetEntity(t, e).Got?
    ensures 2 <= j < |t| && t[j] == ';' && forall i | 0 <= i < j :: t[i] != ';'
  {
    j := 2 + Find(t[2..], ';');
    assert forall i | 2 <= i < j :: t[i] == t[2..][i - 2] != ';';
    hide *;
    if j == |t| { NoSemicolonFails(t, e); }
  }

  lemma ReadsReference(t: string, c: string, u: string, e: Encoding)
    requires |t| > 2 && t[0] == '&' && t[1] == '#' && GetEntity(t, e) == Got(c, u)
    ensures ReferenceTo(t, c, u, e)
  {
    hide *;
    var j := FirstSemicolonAt(t, e);
    var hex := t[2] == 'x';
    var mark, base := if hex then 'x' else '#', if hex then 16 else 10;
    ReferenceStep(t, j, hex, e);
    assert t[if hex then 2 else 1] == mark;
    HexMark();
    var b, ns := DigitsSpell(t, j - 1, mark, base, 0, 1);
    MarkedBefore(t, j, b, mark, base);
    NumberIs(t, b, j, ns, mark, base);
    InParts(t, b, j);
    ReferenceOf(t, c, u, e, t[..b + 1], t[b + 1..j], ns, mark, base);
  }

  lemma ReferenceOf(t: string, c: string, u: string, e: Encoding, pre: string, ds: string, ns: seq<nat>, mark: char, base: nat)
    requires Marked(pre, mark, base) && Spells(ds, ns, base) && t == pre + (ds + (";" + u)) && c == Character(Terms(ns, base, 1) % LONG, e)
    ensures ReferenceTo(t, c, u, e)
  {
    hide Marked, Spells, Character, Terms;
  }

  /** Where nothing is cut, that is the number that the digits write. */
  lemma {:induction false} TermsAreNumber(ns: seq<nat>, base: nat, p: nat)
    requires Times(p, NumberOf(ns, base)) < WORD
    ensures Terms(ns, base, p) == Times(p, NumberOf(ns, base))
    decreases |ns|
  {
    if ns != [] {
      NumberLast(ns, base, 0, p);
      TermsLast(ns, base, p);
      Small(Times(p, ns[|ns| - 1]), WORD);
      TermsAreNumber(ns[..|ns| - 1], base, Times(p, base));
    }
  }

  //
  // Entities, characters, texts.
  //

  lemma NamedReads(t: string, c: string, u: string, e: Encoding)
    requires NamedTo(t, c, u)
    ensures t != "" && GetEntity(t, e) == Got(c, u)
  {
    AmpReads(u, e);
    LtReads(u, e);
    GtReads(u, e);
    QuotReads(u, e);
    AposReads(u, e);
    hide GetEntity;
  }

  lemma ReadsNamed(t: string, e: Encoding)
    requires t != "" && HasName(t) && !(|t| > 2 && t[1] == '#')
    ensures GetEntity(t, e).Got? && NamedTo(t, GetEntity(t, e).value, GetEntity(t, e).rest)
  {
    var k :| 0 <= k < |ENTITY| && Starts(t, ENTITY[k].0) && forall i | 0 <= i < k :: !Starts(t, ENTITY[i].0);
    StartsLength(t, ENTITY[k].0);
    EntityOfTable(t, k, e);
    assert t == ENTITY[k].0 + t[|ENTITY[k].0|..];
    hide Starts, GetEntity;
  }

  lemma EntityIs(t: string, c: string, u: string, e: Encoding)
    requires t != "" && t[0] == '&'
    ensures EntityTo(t, c, u, e) <==> GetEntity(t, e) == Got(c, u)
  {
    TwoFirst(t);
    hide Starts, GetEntity, NamedTo, HasName, ReferenceTo;
    if |t| > 2 && t[1] == '#' {
      if ReferenceTo(t, c, u, e) { ReferenceReads(t, c, u, e); }
      if GetEntity(t, e) == Got(c, u) { ReadsReference(t, c, u, e); }
    } else if HasName(t) {
      ReadsNamed(t, e);
      if NamedTo(t, c, u) { NamedReads(t, c, u, e); }
    } else {
      NoName(t, e);
      assert t == [t[0]] + t[1..];
    }
  }

  lemma TwoFirst(t: string)
    requires t != "" && t[0] == '&'
    ensures Starts(t, "&#") <==> |t| > 1 && t[1] == '#'
  {
    if |t| > 1 { assert t[..2] == [t[0], t[1]]; }
  }

  lemma NoName(t: string, e: Encoding)
    requires t != "" && !HasName(t) && !(|t| > 2 && t[1] == '#')
    ensures GetEntity(t, e) == Got("", t[1..])
  {
    NotInTable(t, e);
  }

  lemma CharIs(t: string, c: string, u: string, e: Encoding)
    requires t != ""
    ensures CharTo(t, c, u, e) <==> GetChar(t, e) == Got(c, u)
  {
    if t[0] == '&' {
      EntityIs(t, c, u, e);
    }
    var n := CharLength(t[0], e);
    assert n <= |t| ==> t == t[..n] + t[n..];
    assert t == c + u && |c| == n ==> c == t[..n] && u == t[n..];
    assert t[..1] == [t[0]];
    hide EntityTo, GetEntity;
  }

  lemma OneChar(t: string, c: string, m: string, e: Encoding)
    requires t != "" && GetChar(t, e) == Got(c, m)
    ensures CharTo(t, c, m, e) && forall d, r | CharTo(t, d, r, e) :: d == c && r == m
  {
    hide CharTo, GetChar;
    CharIs(t, c, m, e);
    forall d, r | CharTo(t, d, r, e) ensures d == c && r == m { CharIs(t, d, r, e); }
  }

  lemma EndOf(t: string, endTag: string, text: string, u: string, e: Encoding)
    requires endTag != "" && Starts(t, endTag)
    ensures TextTo(t, endTag, text, u, e) <==> ReadText(t, endTag, e) == Got(text, u)
  {
    assert t == endTag + t[|endTag|..];
    hide CharTo, GetChar;
  }

  /** The relation with the first character taken off. */
  lemma TextAfter(t: string, endTag: string, text: string, u: string, e: Encoding, c: string, m: string)
    requires !Starts(t, endTag) && |m| < |t| && CharTo(t, c, m, e) && forall d, r | CharTo(t, d, r, e) :: d == c && r == m
    ensures TextTo(t, endTag, text, u, e) <==> c <= text && TextTo(m, endTag, text[|c|..], u, e)
  {
    hide CharTo, Starts;
    if TextTo(t, endTag, text, u, e) {
      var d, r, more :| CharTo(t, d, r, e) && |r| < |t| && text == d + more && TextTo(r, endTag, more, u, e);
      assert text[|c|..] == more;
    }
    if c <= text && TextTo(m, endTag, text[|c|..], u, e) {
      assert text == c + text[|c|..];
    }
  }

  lemma NoChar(t: string, endTag: string, text: string, u: string, e: Encoding)
    requires endTag != "" && !Starts(t, endTag) && (t != "" ==> !GetChar(t, e).Got?)
    ensures !TextTo(t, endTag, text, u, e) && !ReadText(t, endTag, e).Got?
  {
    forall d, r ensures !CharTo(t, d, r, e) { if t != "" { CharIs(t, d, r, e); } }
    hide CharTo, GetChar, Starts;
  }

  lemma PrefixedIs(c: string, r: Read<string>, text: string, u: string)
    ensures Prefixed(c, r) == Got(text, u) <==> c <= text && r == Got(text[|c|..], u)
  {
    if r.Got? {
      assert c + r.value == text ==> text[|c|..] == r.value;
      assert c <= text ==> c + text[|c|..] == text;
    }
  }

  lemma GetCharShrinks(t: string, e: Encoding)
    requires t != "" && GetChar(t, e).Got?
    ensures |GetChar(t, e).rest| < |t|
  {
    hide GetEntity;
  }

  /** ReadText finds a text, and stops just before u, exactly if it stands there. */
  lemma {:induction false} TextIs(t: string, endTag: string, text: string, u: string, e: Encoding)
    requires endTag != ""
    ensures TextTo(t, endTag, text, u, e) <==> ReadText(t, endTag, e) == Got(text, u)
    decreases |t|
  {
    hide *;
    if Starts(t, endTag) {
      EndOf(t, endTag, text, u, e);
    } else if t != "" && GetChar(t, e).Got? {
      var c, m := GetChar(t, e).value, GetChar(t, e).rest;
      GetCharShrinks(t, e);
      OneChar(t, c, m, e);
      TextAfter(t, endTag, text, u, e, c, m);
      ReadStep(c, m, endTag, e, t);
      PrefixedIs(c, ReadText(m, endTag, e), text, u);
      if c <= text { TextIs(m, endTag, text[|c|..], u, e); }
    } else {
      NoChar(t, endTag, text, u, e);
    }
  }
}
