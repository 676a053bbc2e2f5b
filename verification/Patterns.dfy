/** What a tokenised pattern accepts, element by element. */
module Patterns {

  datatype Elem =
    | Literal(text: string)
    | AnyChar
    | CommonChar
    | Set(ranges: seq<(char, char)>)
    | NegSet(ranges: seq<(char, char)>)
    | NumRange(from: int, to: int)
    | AnySeq
    | CommonSeq
    | End

  function Upper(c: char): char {
    if 'a' <= c <= 'z' then (c as int - 32) as char else c
  }

  predicate SameChar(a: char, b: char, cased: bool) {
    if cased then a == b else Upper(a) == Upper(b)
  }

  predicate SameText(a: string, b: string, cased: bool) {
    |a| == |b| && forall i :: 0 <= i < |a| ==> SameChar(a[i], b[i], cased)
  }

  predicate InRange(c: char, r: (char, char)) {
    r.0 <= c <= r.1
  }

  predicate InSet(c: char, ranges: seq<(char, char)>, cased: bool) {
    exists r :: r in ranges && InRange(if cased then c else Upper(c), r)
  }

  predicate IsDigit(c: char) {
    '0' <= c <= '9'
  }

  predicate AllDigits(s: string) {
    forall i :: 0 <= i < |s| ==> IsDigit(s[i])
  }

  function Number(s: string): nat
    requires AllDigits(s)
  {
    if s == "" then 0 else Number(s[..|s| - 1]) * 10 + (s[|s| - 1] as int - 48)
  }

  /** Unset bounds are negative. */
  predicate Between(n: nat, from: int, to: int) {
    (from < 0 || from <= n) && (to < 0 || n <= to)
  }

  /** Element e accepts p when `rest` follows. */
  predicate Takes(e: Elem, p: string, rest: string, cased: bool) {
    match e
    case Literal(text) => SameText(p, text, cased)
    case AnyChar => |p| == 1
    case CommonChar => |p| == 1 && p[0] != '.'
    case Set(ranges) => |p| == 1 && InSet(p[0], ranges, cased)
    case NegSet(ranges) => |p| == 1 && !InSet(p[0], ranges, cased)
    case NumRange(from, to) => p != "" && AllDigits(p) && (rest == "" || !IsDigit(rest[0]))
      && Between(Number(p), from, to)
    case AnySeq => true
    case CommonSeq => '.' !in p
    case End => p == "" && rest == ""
  }

  /** The elements from k on accept s if s can be cut into pieces accepted by one element each. */
  ghost predicate Accepts(pattern: seq<Elem>, k: nat, s: string, cased: bool)
    requires k <= |pattern|
    decreases |pattern| - k
  {
    if k == |pattern| then s == ""
    else
      exists n: int ::
        0 <= n <= |s| && Takes(pattern[k], s[..n], s[n..], cased) && Accepts(pattern, k + 1, s[n..], cased)
  }

  ghost predicate Cut(pattern: seq<Elem>, k: nat, s: string, cased: bool, n: int)
    requires k < |pattern|
  {
    0 <= n <= |s| && Takes(pattern[k], s[..n], s[n..], cased) && Accepts(pattern, k + 1, s[n..], cased)
  }

  lemma CutOf(pattern: seq<Elem>, k: nat, s: string, cased: bool) returns (n: int)
    requires k < |pattern| && Accepts(pattern, k, s, cased)
    ensures Cut(pattern, k, s, cased, n)
  {
    n :| 0 <= n <= |s| && Takes(pattern[k], s[..n], s[n..], cased) && Accepts(pattern, k + 1, s[n..], cased);
  }

  lemma CutAccepts(pattern: seq<Elem>, k: nat, s: string, cased: bool, n: int)
    requires k < |pattern| && Cut(pattern, k, s, cased, n)
    ensures Accepts(pattern, k, s, cased)
  {
  }

  /** Exactly the last element is End. */
  ghost predicate Ended(pattern: seq<Elem>) {
    && pattern != [] && pattern[|pattern| - 1] == End
    && forall k :: 0 <= k < |pattern| - 1 ==> pattern[k] != End
  }

  predicate EndsWith(s: string, ending: string) {
    |s| >= |ending| && s[|s| - |ending|..] == ending
  }

  ghost predicate EndsLike(s: string, ending: string, cased: bool) {
    |s| >= |ending| && SameText(s[|s| - |ending|..], ending, cased)
  }

  // ------------------------------------------------------------------ the shortcuts

  /** A pattern that ends in a literal only accepts lines that end in it. */
  lemma {:induction false} LastLiteral(pattern: seq<Elem>, k: nat, s: string, cased: bool)
    requires Ended(pattern) && k <= |pattern| - 2 && pattern[|pattern| - 2].Literal?
    requires Accepts(pattern, k, s, cased)
    ensures EndsLike(s, pattern[|pattern| - 2].text, cased)
    decreases |pattern| - k
  {
    var n := CutOf(pattern, k, s, cased);
    if k < |pattern| - 2 {
      LastLiteral(pattern, k + 1, s[n..], cased);
      EndOfEnd(s, n, pattern[|pattern| - 2].text, cased);
    } else {
      EndAccepts(pattern, s[n..], cased);
      assert s[..n] == s == s[|s| - |s|..];
    }
  }

  lemma EndOfEnd(s: string, n: nat, ending: string, cased: bool)
    requires n <= |s| && EndsLike(s[n..], ending, cased)
    ensures EndsLike(s, ending, cased)
  {
    assert s[n..][|s[n..]| - |ending|..] == s[|s| - |ending|..];
  }

  /** A final "**" accepts everything. */
  lemma FinalAnySeq(pattern: seq<Elem>, s: string, cased: bool)
    requires Ended(pattern) && |pattern| >= 2 && pattern[|pattern| - 2] == AnySeq
    ensures Accepts(pattern, |pattern| - 2, s, cased)
  {
    var k := |pattern| - 2;
    assert s[|s|..] == "" && s[..|s|] == s;
    EndAccepts(pattern, "", cased);
    CutAccepts(pattern, k, s, cased, |s|);
  }

  lemma EndAccepts(pattern: seq<Elem>, s: string, cased: bool)
    requires Ended(pattern)
    ensures Accepts(pattern, |pattern| - 1, s, cased) <==> s == ""
  {
    if s == "" {
      assert s[..0] == "" && s[0..] == "";
      CutAccepts(pattern, |pattern| - 1, s, cased, 0);
    } else {
      NoCut(pattern, |pattern| - 1, s, cased);
    }
  }

  /** A final "**" and literal accept exactly what ends in the literal. */
  lemma FinalLiteral(pattern: seq<Elem>, s: string, cased: bool)
    requires Ended(pattern) && |pattern| >= 3 && pattern[|pattern| - 3] == AnySeq && pattern[|pattern| - 2].Literal?
    ensures Accepts(pattern, |pattern| - 3, s, cased) <==> EndsLike(s, pattern[|pattern| - 2].text, cased)
  {
    var k, text := |pattern| - 3, pattern[|pattern| - 2].text;
    if Accepts(pattern, k, s, cased) { LastLiteral(pattern, k, s, cased); }
    if EndsLike(s, text, cased) {
      var n := |s| - |text|;
      var t := s[n..];
      assert t[..|t|] == t && t[|t|..] == "";
      EndAccepts(pattern, "", cased);
      CutAccepts(pattern, k + 1, t, cased, |t|);
      CutAccepts(pattern, k, s, cased, n);
    }
  }

  lemma EndsLikeCased(s: string, ending: string)
    ensures EndsLike(s, ending, true) <==> EndsWith(s, ending)
  {
    if EndsLike(s, ending, true) {
      var t := s[|s| - |ending|..];
      assert forall i :: 0 <= i < |t| ==> SameChar(t[i], ending[i], true);
    }
  }

  // ------------------------------------------------------------------ one element at a time

  /** An element that can only take one particular number of characters. */
  lemma OnlyCut(pattern: seq<Elem>, k: nat, s: string, cased: bool, n: nat)
    requires k < |pattern| && n <= |s|
    requires forall m :: 0 <= m <= |s| && Takes(pattern[k], s[..m], s[m..], cased) ==> m == n
    ensures Accepts(pattern, k, s, cased)
      <==> Takes(pattern[k], s[..n], s[n..], cased) && Accepts(pattern, k + 1, s[n..], cased)
  {
    if Accepts(pattern, k, s, cased) {
      var m := CutOf(pattern, k, s, cased);
    }
    if Takes(pattern[k], s[..n], s[n..], cased) && Accepts(pattern, k + 1, s[n..], cased) {
      CutAccepts(pattern, k, s, cased, n);
    }
  }

  lemma NoCut(pattern: seq<Elem>, k: nat, s: string, cased: bool)
    requires k < |pattern|
    requires forall m :: 0 <= m <= |s| ==> !Takes(pattern[k], s[..m], s[m..], cased)
    ensures !Accepts(pattern, k, s, cased)
  {
    if Accepts(pattern, k, s, cased) {
      var m := CutOf(pattern, k, s, cased);
    }
  }

  /** A sequence either takes nothing or a first character and then goes on as before. */
  lemma SequenceStep(pattern: seq<Elem>, k: nat, s: string, cased: bool)
    requires k < |pattern| && (pattern[k] == AnySeq || pattern[k] == CommonSeq)
    ensures Accepts(pattern, k, s, cased) <==>
      || Accepts(pattern, k + 1, s, cased)
      || (s != "" && (pattern[k] == CommonSeq ==> s[0] != '.') && Accepts(pattern, k, s[1..], cased))
  {
    if Accepts(pattern, k + 1, s, cased) {
      assert s[0..] == s && s[..0] == "";
      CutAccepts(pattern, k, s, cased, 0);
    }
    if s != "" && (pattern[k] == CommonSeq ==> s[0] != '.') && Accepts(pattern, k, s[1..], cased) {
      SequenceLonger(pattern, k, s, cased);
    }
    if Accepts(pattern, k, s, cased) {
      SequenceShorter(pattern, k, s, cased);
    }
  }

  lemma SequenceLonger(pattern: seq<Elem>, k: nat, s: string, cased: bool)
    requires k < |pattern| && (pattern[k] == AnySeq || pattern[k] == CommonSeq)
    requires s != "" && (pattern[k] == CommonSeq ==> s[0] != '.') && Accepts(pattern, k, s[1..], cased)
    ensures Accepts(pattern, k, s, cased)
  {
    var m := CutOf(pattern, k, s[1..], cased);
    CutInTail(s, m);
    CutAccepts(pattern, k, s, cased, m + 1);
  }

  lemma CutInTail(s: string, m: nat)
    requires m < |s|
    ensures s[1..][m..] == s[m + 1..] && s[..m + 1] == [s[0]] + s[1..][..m]
  {
  }

  lemma SequenceShorter(pattern: seq<Elem>, k: nat, s: string, cased: bool)
    requires k < |pattern| && (pattern[k] == AnySeq || pattern[k] == CommonSeq)
    requires Accepts(pattern, k, s, cased)
    ensures Accepts(pattern, k + 1, s, cased)
      || (s != "" && (pattern[k] == CommonSeq ==> s[0] != '.') && Accepts(pattern, k, s[1..], cased))
  {
    var m := CutOf(pattern, k, s, cased);
    if m == 0 {
      assert s[0..] == s;
    } else {
      CutInTail(s, m - 1);
      var head, tail := s[..m], s[1..][..m - 1];
      assert head == [s[0]] + tail;
      assert s[0] in head && forall c :: c in tail ==> c in head;
      CutAccepts(pattern, k, s[1..], cased, m - 1);
    }
  }

  // ------------------------------------------------------------------ lines that differ in case only

  predicate IsLetter(c: char) {
    'a' <= c <= 'z' || 'A' <= c <= 'Z'
  }

  function OtherCase(c: char): char {
    if 'a' <= c <= 'z' then (c as int - 32) as char
    else if 'A' <= c <= 'Z' then (c as int + 32) as char
    else c
  }

  lemma CaseTwins(a: char, b: char)
    ensures SameChar(a, b, false) <==> a == b || (IsLetter(b) && a == OtherCase(b))
  {
  }

  /** Elements do not tell such pieces apart when case is ignored. */
  lemma TakesBlind(e: Elem, p: string, rest: string, p2: string, rest2: string)
    requires SameText(p, p2, false) && SameText(rest, rest2, false)
    ensures Takes(e, p, rest, false) ==> Takes(e, p2, rest2, false)
  {
    forall i | 0 <= i < |p| ensures IsDigit(p[i]) || p2[i] == '.' ==> p[i] == p2[i] { CaseTwins(p[i], p2[i]); }
    if rest != "" { CaseTwins(rest[0], rest2[0]); }
    if e.NumRange? && AllDigits(p) { assert p == p2; }
    if e.CommonSeq? && '.' in p2 {
      var i :| 0 <= i < |p2| && p2[i] == '.';
      assert p[i] == '.';
    }
  }

  lemma {:induction false} AcceptsBlind(pattern: seq<Elem>, k: nat, s: string, t: string)
    requires k <= |pattern| && SameText(s, t, false)
    ensures Accepts(pattern, k, s, false) ==> Accepts(pattern, k, t, false)
    decreases |pattern| - k
  {
    if k < |pattern| && Accepts(pattern, k, s, false) {
      var n := CutOf(pattern, k, s, false);
      TakesBlind(pattern[k], s[..n], s[n..], t[..n], t[n..]);
      AcceptsBlind(pattern, k + 1, s[n..], t[n..]);
      CutAccepts(pattern, k, t, false, n);
    }
  }
}
