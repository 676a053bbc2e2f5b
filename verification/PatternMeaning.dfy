/** What patterns accept, from their text: each kind of wildcard by itself, and the usual combinations. */
module PatternMeaning {
  import opened Optional
  import opened PatternFill
  import opened PatternSyntax
  import opened PatternText
  import opened Patterns

  /** The text is a pattern, and the whole line matches it. */
  ghost predicate Fits(patt: string, line: string, dotted: bool, cased: bool) {
    var t := TokensFrom(patt, 0, [], dotted, cased);
    t.error == None && Accepts(Enclosed(t.elems, true), 0, line, cased)
  }

  lemma OneElem(e: Elem, line: string, cased: bool)
    requires e != End
    ensures Accepts([e, End], 0, line, cased) <==> Takes(e, line, "", cased)
  {
    var pattern := [e, End];
    assert Ended(pattern);
    assert line[..|line|] == line && line[|line|..] == "";
    EndAccepts(pattern, "", cased);
    if Takes(e, line, "", cased) { CutAccepts(pattern, 0, line, cased, |line|); }
    if Accepts(pattern, 0, line, cased) {
      var n := CutOf(pattern, 0, line, cased);
      EndAccepts(pattern, line[n..], cased);
    }
  }

  lemma PartsFit(parts: seq<Part>, line: string, dotted: bool, cased: bool)
    requires Proper(parts)
    ensures Fits(PatternOf(parts), line, dotted, cased)
      <==> Accepts(ElemsOf(parts, dotted, cased) + [End], 0, line, cased)
  {
    hide TokensFrom, PatternOf, ElemsOf, Proper, Accepts;
    TokensBack(parts, dotted, cased);
  }

  lemma OnePart(p: Part, line: string, dotted: bool, cased: bool)
    requires PartOk(p) && (p.Text? ==> p.indices == [])
    ensures Fits(PartText(p), line, dotted, cased) <==> Takes(PartElems(p, dotted, cased)[0], line, "", cased)
  {
    hide Fits, PartText, PartOk, Accepts, Takes;
    assert PatternOf([p]) == PartText(p) + PatternOf([]) == PartText(p);
    PartsFit([p], line, dotted, cased);
    var e := PartElems(p, dotted, cased)[0];
    assert ElemsOf([p], dotted, cased) + [End] == [e, End];
    OneElem(e, line, cased);
  }

  // ------------------------------------------------------------------ single wildcards

  /** "*" stops at dots if paths are dotted, and at nothing otherwise. */
  lemma StarFits(line: string, dotted: bool, cased: bool)
    ensures Fits("*", line, dotted, cased) <==> (dotted ==> '.' !in line)
  {
    hide Fits;
    OnePart(Star, line, dotted, cased);
  }

  /** "**" stops at nothing. */
  lemma StarStarFits(line: string, dotted: bool, cased: bool)
    ensures Fits("**", line, dotted, cased)
  {
    hide Fits;
    OnePart(StarStar, line, dotted, cased);
  }

  /** "?" is one character, of dotted paths not a dot. */
  lemma QuestionFits(line: string, dotted: bool, cased: bool)
    ensures Fits("?", line, dotted, cased) <==> |line| == 1 && (dotted ==> line[0] != '.')
  {
    hide Fits;
    OnePart(OneChar, line, dotted, cased);
  }

  // ------------------------------------------------------------------ sets

  predicate Covers(m: Member, c: char, cased: bool) {
    match m
    case Single(x) => SameChar(c, x, cased)
    case FromTo(lo, hi) => if cased then lo <= c <= hi else Upper(lo) <= Upper(c) <= Upper(hi)
  }

  lemma {:induction false} RangeAtMember(members: seq<Member>, k: nat, cased: bool)
    requires k < |members|
    ensures |MemberRanges(members, cased)| == |members|
    ensures MemberRanges(members, cased)[k] == MemberRange(members[k], cased)
  {
    if k > 0 {
      RangeAtMember(members[1..], k - 1, cased);
    } else if |members| > 1 {
      RangeAtMember(members[1..], 0, cased);
    }
  }

  lemma InMembers(c: char, members: seq<Member>, cased: bool)
    ensures InSet(c, MemberRanges(members, cased), cased)
      <==> exists k :: 0 <= k < |members| && Covers(members[k], c, cased)
  {
    var ranges, x := MemberRanges(members, cased), if cased then c else Upper(c);
    if k :| 0 <= k < |members| && Covers(members[k], c, cased) {
      RangeAtMember(members, k, cased);
      assert ranges[k] in ranges && InRange(x, ranges[k]);
    }
    if r :| r in ranges && InRange(x, r) {
      var k :| 0 <= k < |ranges| && ranges[k] == r;
      if members != [] { RangeAtMember(members, 0, cased); }
      RangeAtMember(members, k, cased);
      assert Covers(members[k], c, cased);
    }
  }

  /** A set in braces is one character that some member covers. */
  lemma SetFits(members: seq<Member>, line: string, dotted: bool, cased: bool)
    requires PartOk(OneOf(members))
    ensures Fits("{" + MembersText(members) + "}", line, dotted, cased)
      <==> |line| == 1 && exists k :: 0 <= k < |members| && Covers(members[k], line[0], cased)
  {
    hide Fits, PartOk, MembersText, InSet, Covers;
    OnePart(OneOf(members), line, dotted, cased);
    if |line| == 1 { InMembers(line[0], members, cased); }
  }

  /** With "^" in front it is one character that no member covers, a dot included. */
  lemma NegatedSetFits(members: seq<Member>, line: string, dotted: bool, cased: bool)
    requires PartOk(NoneOf(members))
    ensures Fits("{^" + MembersText(members) + "}", line, dotted, cased)
      <==> |line| == 1 && !exists k :: 0 <= k < |members| && Covers(members[k], line[0], cased)
  {
    hide Fits, PartOk, MembersText, InSet, Covers;
    OnePart(NoneOf(members), line, dotted, cased);
    if |line| == 1 { InMembers(line[0], members, cased); }
  }

  lemma AToZ()
    ensures MembersText([FromTo('a', 'z')]) == "a-z"
    ensures PartOk(OneOf([FromTo('a', 'z')])) && PartOk(NoneOf([FromTo('a', 'z')]))
  {
    assert MembersText([FromTo('a', 'z')]) == "a-z" + MembersText([]) == "a-z";
    assert DigitsEnd("a-z", 0) == 0;
  }

  /** Small letters; letters, when case does not matter. */
  lemma LetterFits(line: string, dotted: bool, cased: bool)
    ensures Fits("{a-z}", line, dotted, cased)
      <==> |line| == 1 && if cased then 'a' <= line[0] <= 'z' else IsLetter(line[0])
    ensures Fits("{^a-z}", line, dotted, cased)
      <==> |line| == 1 && if cased then !('a' <= line[0] <= 'z') else !IsLetter(line[0])
  {
    hide Fits, MembersText, MembersOk, PartOk;
    var members := [FromTo('a', 'z')];
    AToZ();
    SetFits(members, line, dotted, cased);
    NegatedSetFits(members, line, dotted, cased);
    assert "{" + "a-z" + "}" == "{a-z}" && "{^" + "a-z" + "}" == "{^a-z}";
    if |line| == 1 {
      var c := line[0];
      assert (exists k :: 0 <= k < |members| && Covers(members[k], c, cased)) <==> Covers(members[0], c, cased);
    }
  }

  // ------------------------------------------------------------------ numbers

  predicate Within(n: nat, from: Option<nat>, to: Option<nat>) {
    (from.Some? ==> from.value <= n) && (to.Some? ==> n <= to.value)
  }

  /** A number range in braces is digits whose number is within the bounds there are. */
  lemma NumbersFit(from: Option<nat>, to: Option<nat>, line: string, dotted: bool, cased: bool)
    ensures Fits("{" + BoundsText(from, to) + "}", line, dotted, cased)
      <==> line != "" && AllDigits(line) && Within(Number(line), from, to)
  {
    hide Fits, BoundsText, Number;
    OnePart(Numbers(from, to), line, dotted, cased);
  }

  /** A number written in decimal fits if and only if it is within the bounds, written in decimal themselves. */
  lemma NumberFits(lo: nat, hi: nat, n: nat, dotted: bool, cased: bool)
    ensures Fits("{" + Digits(lo) + ".." + Digits(hi) + "}", Digits(n), dotted, cased) <==> lo <= n <= hi
  {
    hide Fits, Digits, Number;
    DigitsWrite(n);
    assert "{" + Digits(lo) + ".." + Digits(hi) + "}" == "{" + BoundsText(Some(lo), Some(hi)) + "}";
    NumbersFit(Some(lo), Some(hi), Digits(n), dotted, cased);
  }

  lemma TenDigits(c: char)
    ensures IsDigit(c) <==> c in "0123456789"
  {
    assert IsDigit(c) ==> "0123456789"[c as int - '0' as int] == c;
  }

  lemma Decimal()
    ensures Digits(1902) == "1902" && Digits(0) == "0"
    ensures Number("0190") == 190
  {
    assert Digits(1) == "1" && Digits(19) == "19" && Digits(190) == "190";
    assert "0190"[..3] == "019" && "019"[..2] == "01" && "01"[..1] == "0" && "0"[..0] == "";
    assert Number("") == 0 && Number("0") == 0 && Number("01") == 1 && Number("019") == 19;
  }

  // ------------------------------------------------------------------ text

  /** A text as it is, or with a backslash before every character. */
  function AllPlain(s: string): seq<Letter> {
    if s == "" then [] else [AsIs(s[0])] + AllPlain(s[1..])
  }

  function AllQuoted(s: string): seq<Letter> {
    if s == "" then [] else [Escaped(s[0])] + AllQuoted(s[1..])
  }

  lemma {:induction false} PlainIsText(s: string)
    requires forall i :: 0 <= i < |s| ==> s[i] !in "?*{[\\"
    ensures Spelling(AllPlain(s)) == s == Chars(AllPlain(s)) && LettersOk(AllPlain(s))
    ensures forall k :: 0 <= k < |AllPlain(s)| ==> AllPlain(s)[k].c != '['
  {
    if s != "" {
      PlainIsText(s[1..]);
      var t := AllPlain(s);
      assert t[1..] == AllPlain(s[1..]) && s == [s[0]] + s[1..];
      forall k | 0 <= k < |t| ensures LetterOk(t, k) && t[k].c != '[' {
        if k > 0 { assert LetterOk(t[1..], k - 1) && t[k] == t[1..][k - 1]; }
      }
    }
  }

  lemma {:induction false} QuotedIsText(s: string)
    ensures Spelling(AllQuoted(s)) == Quote(s) && Chars(AllQuoted(s)) == s && LettersOk(AllQuoted(s))
    ensures forall k :: 0 <= k < |AllQuoted(s)| ==> AllQuoted(s)[k].Escaped?
  {
    if s != "" {
      QuotedIsText(s[1..]);
      var t := AllQuoted(s);
      assert t[1..] == AllQuoted(s[1..]) && s == [s[0]] + s[1..];
      forall k | 0 <= k < |t| ensures LetterOk(t, k) && t[k].Escaped? {
        if k > 0 { assert t[k] == t[1..][k - 1]; }
      }
    }
  }

  /** When case does not matter, every letter may be of either case, and nothing else may differ. */
  lemma TextFits(t: seq<Letter>, line: string, dotted: bool)
    requires t != [] && LettersOk(t)
    ensures Fits(Spelling(t), line, dotted, true) <==> line == Chars(t)
    ensures Fits(Spelling(t), line, dotted, false)
      <==> |line| == |t| && forall i :: 0 <= i < |t| ==>
             line[i] == Chars(t)[i] || (IsLetter(Chars(t)[i]) && line[i] == OtherCase(Chars(t)[i]))
  {
    hide Fits, Spelling, OtherCase, IsLetter, LettersOk, Chars;
    var s := Chars(t);
    assert PartText(Text(t, [])) == Spelling(t) + "" == Spelling(t);
    OnePart(Text(t, []), line, dotted, true);
    OnePart(Text(t, []), line, dotted, false);
    if |line| == |t| {
      forall i | 0 <= i < |t|
        ensures SameChar(line[i], s[i], false) <==> line[i] == s[i] || (IsLetter(s[i]) && line[i] == OtherCase(s[i]))
      {
        CaseTwins(line[i], s[i]);
      }
    }
  }

  // ------------------------------------------------------------------ combinations

  lemma LiteralAt(pattern: seq<Elem>, k: nat, t: string, rest: string)
    requires k < |pattern| && pattern[k] == Literal(t) && Accepts(pattern, k + 1, rest, true)
    ensures Accepts(pattern, k, t + rest, true)
  {
    var s := t + rest;
    assert s[..|t|] == t && s[|t|..] == rest;
    CutAccepts(pattern, k, s, true, |t|);
  }

  lemma LiteralOf(pattern: seq<Elem>, k: nat, t: string, s: string) returns (rest: string)
    requires k < |pattern| && pattern[k] == Literal(t) && Accepts(pattern, k, s, true)
    ensures s == t + rest && Accepts(pattern, k + 1, rest, true)
  {
    var n := CutOf(pattern, k, s, true);
    rest := s[n..];
    assert forall i :: 0 <= i < |t| ==> SameChar(s[..n][i], t[i], true);
    assert s[..n] == t && s == s[..n] + rest;
  }

  lemma Rebuilt(a: string, e: Elem, mid: string, b: string)
    requires e != End && Takes(e, mid, b, true)
    ensures Accepts([Literal(a), e, Literal(b), End], 0, a + mid + b, true)
  {
    hide Accepts, Takes;
    var pattern := [Literal(a), e, Literal(b), End];
    EndAccepts(pattern, "", true);
    LiteralAt(pattern, 2, b, "");
    assert b + "" == b;
    InFrontOf(pattern, 1, mid, b, true);
    LiteralAt(pattern, 0, a, mid + b);
    assert a + (mid + b) == a + mid + b;
  }

  lemma CutInThree(a: string, e: Elem, b: string, line: string) returns (mid: string)
    requires e != End && Accepts([Literal(a), e, Literal(b), End], 0, line, true)
    ensures Takes(e, mid, b, true) && line == a + mid + b
  {
    hide Accepts, Takes;
    var pattern := [Literal(a), e, Literal(b), End];
    var rest := LiteralOf(pattern, 0, a, line);
    var n := CutOf(pattern, 1, rest, true);
    var last := LiteralOf(pattern, 2, b, rest[n..]);
    EndAccepts(pattern, last, true);
    mid := rest[..n];
    assert rest == mid + rest[n..] && b + last == b;
  }

  /** "*" between two texts, as in "host*.app". */
  lemma StarBetween(front: seq<Letter>, back: seq<Letter>, line: string, dotted: bool)
    requires front != [] && back != [] && LettersOk(front) && LettersOk(back)
    ensures Fits(Spelling(front) + "*" + Spelling(back), line, dotted, true)
      <==> exists mid :: (dotted ==> '.' !in mid) && line == Chars(front) + mid + Chars(back)
  {
    hide Fits, Spelling, Accepts, LettersOk, Chars;
    var parts, e := [Text(front, []), Star, Text(back, [])], if dotted then CommonSeq else AnySeq;
    var a, b := Chars(front), Chars(back);
    assert PatternOf(parts) == Spelling(front) + "*" + Spelling(back) by {
      ThreeParts(parts, Spelling(front), "*", Spelling(back));
    }
    assert ElemsOf(parts, dotted, true) + [End] == [Literal(a), e, Literal(b), End] by {
      assert parts[1..] == [Star, Text(back, [])] && parts[1..][1..] == [Text(back, [])];
      assert ElemsOf([Text(back, [])], dotted, true) == [Literal(b)];
    }
    PartsFit(parts, line, dotted, true);
    if Accepts([Literal(a), e, Literal(b), End], 0, line, true) {
      var mid := CutInThree(a, e, b, line);
      assert (dotted ==> '.' !in mid) && line == Chars(front) + mid + Chars(back);
    }
    if mid :| (dotted ==> '.' !in mid) && line == Chars(front) + mid + Chars(back) {
      Rebuilt(a, e, mid, b);
      assert Accepts([Literal(a), e, Literal(b), End], 0, line, true);
    }
  }

  lemma ThreeParts(parts: seq<Part>, a: string, b: string, c: string)
    requires |parts| == 3 && PartText(parts[0]) == a && PartText(parts[1]) == b && PartText(parts[2]) == c
    ensures PatternOf(parts) == a + b + c
  {
    hide PartText;
    var two, one := parts[1..], parts[2..];
    assert two[1..] == one;
    assert PatternOf(one) == c + PatternOf(one[1..]) == c;
    assert PatternOf(two) == b + PatternOf(one);
  }

  /** A number range in brackets, as in "node[5..10].app". */
  lemma IndexFits(front: seq<Letter>, from: Option<nat>, to: Option<nat>, back: seq<Letter>, line: string, dotted: bool)
    requires LettersOk(front) && LettersOk(back)
    ensures Fits(Spelling(front) + "[" + BoundsText(from, to) + "]" + Spelling(back), line, dotted, true)
      <==> exists d :: && d != "" && AllDigits(d) && Within(Number(d), from, to)
                       && line == Chars(front) + "[" + d + "]" + Chars(back)
  {
    hide Fits, Spelling, Accepts, BoundsText, Number, LettersOk, Chars;
    var a, b := Chars(front) + "[", "]" + Chars(back);
    var part, e := Text(front, [Index(from, to, back)]), NumRange(BoundValue(from), BoundValue(to));
    IndexPart(front, from, to, back, dotted);
    assert Proper([part]) by { assert LettersOk([Index(from, to, back)][0].text); }
    PartsFit([part], line, dotted, true);
    if Accepts([Literal(a), e, Literal(b), End], 0, line, true) {
      var d := CutInThree(a, e, b, line);
      assert line == Chars(front) + "[" + d + "]" + Chars(back);
    }
    if d :| && d != "" && AllDigits(d) && Within(Number(d), from, to)
            && line == Chars(front) + "[" + d + "]" + Chars(back) {
      RangeBehindText(d, back, from, to);
      Rebuilt(a, e, d, b);
      assert line == a + d + b;
    }
  }

  lemma RangeBehindText(d: string, back: seq<Letter>, from: Option<nat>, to: Option<nat>)
    requires d != "" && AllDigits(d) && Within(Number(d), from, to)
    ensures Takes(NumRange(BoundValue(from), BoundValue(to)), d, "]" + Chars(back), true)
  {
    hide Number, Chars;
  }

  lemma IndexPart(front: seq<Letter>, from: Option<nat>, to: Option<nat>, back: seq<Letter>, dotted: bool)
    ensures var part := Text(front, [Index(from, to, back)]);
      && PatternOf([part]) == Spelling(front) + "[" + BoundsText(from, to) + "]" + Spelling(back)
      && ElemsOf([part], dotted, true) + [End]
           == [Literal(Chars(front) + "["), NumRange(BoundValue(from), BoundValue(to)), Literal("]" + Chars(back)), End]
  {
    hide Spelling, Chars, BoundsText, BoundValue;
    var indices := [Index(from, to, back)];
    var part, range := Text(front, indices), NumRange(BoundValue(from), BoundValue(to));
    assert IndicesText(indices[1..]) == "" && PatternOf([part][1..]) == "" && ElemsOf([part][1..], dotted, true) == [];
    assert IndicesText(indices) == "[" + BoundsText(from, to) + "]" + Spelling(back) + "";
    var elems := [Literal(Chars(front) + "["), range];
    assert TextElems("]" + Chars(back), indices[1..]) == [Literal("]" + Chars(back))];
    assert TextElems(Chars(front), indices) == elems + TextElems("]" + Chars(back), indices[1..]);
  }

  /** For instance: the texts may be written as they are. */
  lemma HostApp(line: string)
    ensures Fits("host*.app", line, true, true) <==> exists mid :: '.' !in mid && line == "host" + mid + ".app"
  {
    hide Fits, Spelling, Chars, AllPlain, LettersOk;
    PlainIsText("host");
    PlainIsText(".app");
    StarBetween(AllPlain("host"), AllPlain(".app"), line, true);
    assert "host" + "*" + ".app" == "host*.app";
  }

  lemma NodeApp(line: string)
    ensures Fits("node[5..10].app", line, true, true)
      <==> exists d :: d != "" && AllDigits(d) && 5 <= Number(d) <= 10 && line == "node[" + d + "].app"
  {
    hide Fits, Spelling, Chars, AllPlain, LettersOk, Number, AllDigits, BoundsText;
    PlainIsText("node");
    PlainIsText(".app");
    IndexFits(AllPlain("node"), Some(5), Some(10), AllPlain(".app"), line, true);
    FiveToTen();
    forall d: string ensures "node" + "[" + d + "]" + ".app" == "node[" + d + "].app" {
      assert "node" + "[" == "node[" && "]" + ".app" == "].app";
    }
  }

  lemma FiveToTen()
    ensures "node" + "[" + BoundsText(Some(5), Some(10)) + "]" + ".app" == "node[5..10].app"
  {
    assert Digits(1) == "1" && Digits(5) == "5" && Digits(10) == "10";
  }

  // ------------------------------------------------------------------ substring mode

  lemma {:induction false} SameSuffix(p: seq<Elem>, k: nat, q: seq<Elem>, l: nat, s: string, cased: bool)
    requires k <= |p| && l <= |q| && p[k..] == q[l..]
    ensures Accepts(p, k, s, cased) <==> Accepts(q, l, s, cased)
    decreases |p| - k
  {
    if k < |p| {
      assert p[k] == p[k..][0] == q[l..][0] == q[l] && p[k + 1..] == p[k..][1..] == q[l + 1..];
      forall n | 0 <= n <= |s| ensures Cut(p, k, s, cased, n) <==> Cut(q, l, s, cased, n) {
        SameSuffix(p, k + 1, q, l + 1, s[n..], cased);
      }
      if Accepts(p, k, s, cased) {
        var n := CutOf(p, k, s, cased);
        CutAccepts(q, l, s, cased, n);
      }
      if Accepts(q, l, s, cased) {
        var n := CutOf(q, l, s, cased);
        CutAccepts(p, k, s, cased, n);
      }
    }
  }

  /** What is accepted behind "**" is what is accepted behind some beginning of the line. */
  lemma AnywhereBehind(p: seq<Elem>, line: string, cased: bool)
    ensures Accepts([AnySeq] + p, 0, line, cased) <==> exists i: nat :: i <= |line| && Accepts(p, 0, line[i..], cased)
  {
    var q := [AnySeq] + p;
    if Accepts(q, 0, line, cased) {
      var n := CutOf(q, 0, line, cased);
      SameSuffix(q, 1, p, 0, line[n..], cased);
    }
    if i: nat :| i <= |line| && Accepts(p, 0, line[i..], cased) {
      SameSuffix(q, 1, p, 0, line[i..], cased);
      CutAccepts(q, 0, line, cased, i);
    }
  }

  /** A second "**" in front changes nothing. */
  lemma TwiceInFront(p: seq<Elem>, line: string, cased: bool)
    requires p != [] && p[0] == AnySeq
    ensures Accepts([AnySeq] + p, 0, line, cased) <==> Accepts(p, 0, line, cased)
  {
    var r := p[1..];
    assert p == [AnySeq] + r;
    AnywhereBehind(p, line, cased);
    AnywhereBehind(r, line, cased);
    if i: nat :| i <= |line| && Accepts(p, 0, line[i..], cased) {
      AnywhereBehind(r, line[i..], cased);
      var j: nat :| j <= |line[i..]| && Accepts(r, 0, line[i..][j..], cased);
      assert line[i..][j..] == line[i + j..];
    }
    if Accepts(p, 0, line, cased) { assert line[0..] == line; }
  }

  /** Nor does a second one at the end. */
  lemma {:induction false} TwiceAtEnd(elems: seq<Elem>, k: nat, s: string, cased: bool)
    requires elems != [] && elems[|elems| - 1] == AnySeq && NoEnd(elems) && k < |elems|
    ensures Accepts(elems + [AnySeq, End], k, s, cased) <==> Accepts(elems + [End], k, s, cased)
    decreases |elems| - k
  {
    var p, q := elems + [AnySeq, End], elems + [End];
    if k == |elems| - 1 {
      FinalAnySeq(q, s, cased);
      FinalAnySeq(p, s[|s|..], cased);
      assert s[..|s|] == s;
      CutAccepts(p, k, s, cased, |s|);
    } else {
      forall n | 0 <= n <= |s| ensures Cut(p, k, s, cased, n) <==> Cut(q, k, s, cased, n) {
        TwiceAtEnd(elems, k + 1, s[n..], cased);
      }
      if Accepts(p, k, s, cased) {
        var n := CutOf(p, k, s, cased);
        CutAccepts(q, k, s, cased, n);
      }
      if Accepts(q, k, s, cased) {
        var n := CutOf(q, k, s, cased);
        CutAccepts(p, k, s, cased, n);
      }
    }
  }

  /** In substring mode a line is accepted if and only if the elements accept some stretch of it: leaving out a "**"
      that is there already changes nothing. */
  lemma SubstringMode(elems: seq<Elem>, line: string, cased: bool)
    requires NoEnd(elems)
    ensures Accepts(Enclosed(elems, false), 0, line, cased)
      <==> exists i: nat :: i <= |line| && Accepts(elems + [AnySeq, End], 0, line[i..], cased)
  {
    hide Accepts;
    var both := elems + [AnySeq, End];
    AnywhereBehind(both, line, cased);
    if elems == [] {
      assert both == [AnySeq, End] && Enclosed(elems, false) == both;
      TwiceInFront(both, line, cased);
    } else {
      var back := if elems[|elems| - 1] == AnySeq then elems + [End] else both;
      forall i: nat | i <= |line| ensures Accepts(back, 0, line[i..], cased) <==> Accepts(both, 0, line[i..], cased) {
        if elems[|elems| - 1] == AnySeq { TwiceAtEnd(elems, 0, line[i..], cased); }
      }
      assert line[0..] == line;
      if elems[0] == AnySeq {
        assert Enclosed(elems, false) == back;
        TwiceInFront(both, line, cased);
      } else {
        assert Enclosed(elems, false) == [AnySeq] + back;
        AnywhereBehind(back, line, cased);
      }
    }
  }
}
