/** Patterns put together from parts: the text of the parts is cut into their elements again, and what each kind of
    part accepts. */
module PatternText {
  import opened Optional
  import opened PatternFill
  import opened PatternSyntax
  import opened Patterns

  // ------------------------------------------------------------------ parts and their text

  datatype Member = Single(c: char) | FromTo(lo: char, hi: char)

  /** A character of a text, as it is or behind a backslash. */
  datatype Letter = AsIs(c: char) | Escaped(c: char)

  /** A number range in brackets and the text behind it. */
  datatype Index = Index(from: Option<nat>, to: Option<nat>, text: seq<Letter>)

  datatype Part =
    | Text(first: seq<Letter>, indices: seq<Index>)
    | OneChar
    | OneOf(members: seq<Member>)
    | NoneOf(members: seq<Member>)
    | Numbers(from: Option<nat>, to: Option<nat>)
    | Star
    | StarStar

  function BoundText(b: Option<nat>): string {
    match b
    case None => ""
    case Some(n) => Digits(n)
  }

  function BoundsText(from: Option<nat>, to: Option<nat>): string {
    BoundText(from) + ".." + BoundText(to)
  }

  function MemberText(m: Member): string {
    match m
    case Single(c) => [c]
    case FromTo(lo, hi) => [lo, '-', hi]
  }

  function MembersText(members: seq<Member>): string {
    if members == [] then "" else MemberText(members[0]) + MembersText(members[1..])
  }

  function Spelled(l: Letter): string {
    match l
    case AsIs(c) => [c]
    case Escaped(c) => ['\\', c]
  }

  function Spelling(t: seq<Letter>): (s: string)
    ensures s == "" <==> t == []
  {
    if t == [] then "" else Spelled(t[0]) + Spelling(t[1..])
  }

  function IndicesText(indices: seq<Index>): string {
    if indices == [] then ""
    else
      var x := indices[0];
      "[" + BoundsText(x.from, x.to) + "]" + Spelling(x.text) + IndicesText(indices[1..])
  }

  function PartText(p: Part): string {
    match p
    case Text(first, indices) => Spelling(first) + IndicesText(indices)
    case OneChar => "?"
    case OneOf(members) => "{" + MembersText(members) + "}"
    case NoneOf(members) => "{^" + MembersText(members) + "}"
    case Numbers(from, to) => "{" + BoundsText(from, to) + "}"
    case Star => "*"
    case StarStar => "**"
  }

  function PatternOf(parts: seq<Part>): string {
    if parts == [] then "" else PartText(parts[0]) + PatternOf(parts[1..])
  }

  // ------------------------------------------------------------------ what can be written

  /** Two numbers, perhaps missing, with two dots between: in braces this is a number range and not a set. */
  predicate LikeNumbers(t: string) {
    var a := DigitsEnd(t, 0);
    a + 2 <= |t| && t[a] == '.' && t[a + 1] == '.' && DigitsEnd(t, a + 2) == |t|
  }

  /** A character in front of a "-" would begin a range, unless the "-" stands last. */
  predicate NoDash(members: seq<Member>, k: int)
    requires 0 <= k < |members| - 1
  {
    members[k].Single? && MemberText(members[k + 1])[0] == '-' ==>
      k + 1 == |members| - 1 && members[k + 1].Single?
  }

  /** A set that can be written: not empty, with "}" as its first character if at all. */
  predicate MembersOk(members: seq<Member>) {
    var t := MembersText(members);
    && members != [] && !LikeNumbers(t)
    && (forall k :: 0 < k < |t| ==> t[k] != '}')
    && (forall k :: 0 <= k < |members| - 1 ==> NoDash(members, k))
  }

  /** Without a backslash only what is not special, and behind a "[", with a backslash or not, nothing that could begin
      a number range. */
  predicate LetterOk(t: seq<Letter>, k: int)
    requires 0 <= k < |t|
  {
    && (t[k].AsIs? ==> t[k].c != '?' && t[k].c != '*' && t[k].c != '{' && t[k].c != '\\')
    && (t[k].c == '[' && k + 1 < |t| && t[k + 1].AsIs? ==> t[k + 1].c != '.' && !IsDigit(t[k + 1].c))
  }

  predicate LettersOk(t: seq<Letter>) {
    forall k :: 0 <= k < |t| ==> LetterOk(t, k)
  }

  predicate IndicesOk(indices: seq<Index>) {
    forall k :: 0 <= k < |indices| ==> LettersOk(indices[k].text)
  }

  predicate PartOk(p: Part) {
    match p
    case Text(first, indices) => (first != [] || indices != []) && LettersOk(first) && IndicesOk(indices)
    case OneOf(members) => MembersOk(members) && MembersText(members)[..1] != "^"
    case NoneOf(members) => MembersOk(members)
    case _ => true
  }

  predicate Neighbours(p: Part, q: Part) {
    !(p.Text? && q.Text?) && !(p.Star? && (q.Star? || q.StarStar?))
  }

  predicate Proper(parts: seq<Part>) {
    && (forall k :: 0 <= k < |parts| ==> PartOk(parts[k]))
    && (forall k :: 0 <= k < |parts| - 1 ==> Neighbours(parts[k], parts[k + 1]))
  }

  // ------------------------------------------------------------------ the elements they stand for

  function BoundValue(b: Option<nat>): int {
    match b
    case None => -1
    case Some(n) => n
  }

  function MemberRange(m: Member, cased: bool): (char, char) {
    match m
    case Single(c) => if cased then (c, c) else (Upper(c), Upper(c))
    case FromTo(lo, hi) => if cased then (lo, hi) else (Upper(lo), Upper(hi))
  }

  function MemberRanges(members: seq<Member>, cased: bool): seq<(char, char)> {
    if members == [] then [] else [MemberRange(members[0], cased)] + MemberRanges(members[1..], cased)
  }

  function Chars(t: seq<Letter>): (s: string)
    ensures |s| == |t|
  {
    if t == [] then "" else [t[0].c] + Chars(t[1..])
  }

  /** The brackets of the ranges belong to the texts around them. */
  function TextElems(text: string, indices: seq<Index>): seq<Elem>
    decreases |indices|
  {
    if indices == [] then [Literal(text)]
    else
      var x := indices[0];
      [Literal(text + "["), NumRange(BoundValue(x.from), BoundValue(x.to))]
      + TextElems("]" + Chars(x.text), indices[1..])
  }

  function PartElems(p: Part, dotted: bool, cased: bool): seq<Elem> {
    match p
    case Text(first, indices) => TextElems(Chars(first), indices)
    case OneChar => [if dotted then CommonChar else AnyChar]
    case OneOf(members) => [Set(MemberRanges(members, cased))]
    case NoneOf(members) => [NegSet(MemberRanges(members, cased))]
    case Numbers(from, to) => [NumRange(BoundValue(from), BoundValue(to))]
    case Star => [if dotted then CommonSeq else AnySeq]
    case StarStar => [AnySeq]
  }

  function ElemsOf(parts: seq<Part>, dotted: bool, cased: bool): seq<Elem> {
    if parts == [] then [] else PartElems(parts[0], dotted, cased) + ElemsOf(parts[1..], dotted, cased)
  }

  // ------------------------------------------------------------------ text at a place

  predicate Here(s: string, i: int, w: string) {
    0 <= i <= i + |w| <= |s| && s[i..i + |w|] == w
  }

  lemma HereBoth(s: string, i: nat, a: string, b: string)
    requires Here(s, i, a + b)
    ensures Here(s, i, a) && Here(s, i + |a|, b)
  {
    assert s[i..i + |a|] == (a + b)[..|a|] == a;
    assert s[i + |a|..i + |a| + |b|] == (a + b)[|a|..] == b;
  }

  lemma HereAt(s: string, i: nat, w: string, k: nat)
    requires Here(s, i, w) && k < |w|
    ensures i + k < |s| && s[i + k] == w[k]
  {
  }

  lemma HereFits(s: string, i: nat, w: string)
    requires Here(s, i, w)
    ensures i + |w| <= |s|
  {
  }

  // ------------------------------------------------------------------ number ranges

  lemma {:induction false} DigitsEndIs(s: string, i: nat, j: nat)
    requires i <= j <= |s| && AllDigits(s[i..j]) && (j < |s| ==> !IsDigit(s[j]))
    ensures DigitsEnd(s, i) == j
    decreases j - i
  {
    if i < j {
      assert s[i..j][0] == s[i] && s[i + 1..j] == s[i..j][1..];
      DigitsEndIs(s, i + 1, j);
    }
  }

  lemma BoundRead(s: string, i: nat, b: Option<nat>)
    requires Here(s, i, BoundText(b)) && !IsDigit(At(s, i + |BoundText(b)|))
    ensures var j := i + |BoundText(b)|; DigitsEnd(s, i) == j && Bound(s, i, j) == BoundValue(b)
  {
    hide Digits, Number, DigitsEnd;
    if b.Some? { DigitsWrite(b.value); }
    DigitsEndIs(s, i, i + |BoundText(b)|);
  }

  /** A number range in brackets or braces is read back. */
  lemma BoundsRead(s: string, i: nat, from: Option<nat>, to: Option<nat>, closing: char)
    requires i < |s| && Here(s, i + 1, BoundsText(from, to) + [closing]) && closing != '\0' && !IsDigit(closing)
    ensures RangeAt(s, i, closing)
         == Some(Span(BoundValue(from), BoundValue(to), i + 1 + |BoundsText(from, to)|))
  {
    hide Here, DigitsEnd, BoundText, Bound;
    var a := i + 1 + |BoundText(from)|;
    var b := a + 2 + |BoundText(to)|;
    BoundsHere(s, i + 1, from, to, closing);
    BoundRead(s, i + 1, from);
    BoundRead(s, a + 2, to);
  }

  lemma BoundsHere(s: string, i: nat, from: Option<nat>, to: Option<nat>, closing: char)
    requires Here(s, i, BoundsText(from, to) + [closing])
    ensures var a := i + |BoundText(from)|; var b := a + 2 + |BoundText(to)|;
      && b < |s| && s[a] == '.' && s[a + 1] == '.' && s[b] == closing
      && Here(s, i, BoundText(from)) && Here(s, a + 2, BoundText(to)) && b == i + |BoundsText(from, to)|
  {
    hide Here, BoundText;
    var a := i + |BoundText(from)|;
    HereBoth(s, i, BoundsText(from, to), [closing]);
    HereBoth(s, i, BoundText(from) + "..", BoundText(to));
    HereBoth(s, i, BoundText(from), "..");
    HereAt(s, a, "..", 0);
    HereAt(s, a, "..", 1);
    HereAt(s, a + 2 + |BoundText(to)|, [closing], 0);
  }

  // ------------------------------------------------------------------ text

  /** Where literal text ends. */
  predicate Halts(s: string, j: nat) {
    j >= |s| || s[j] == '?' || s[j] == '{' || s[j] == '*'
  }

  predicate Opens(s: string, j: nat) {
    j < |s| && s[j] == '[' && RangeAt(s, j, ']').Some?
  }

  /** A quoted "[" opens nothing: no dot or digit follows it. */
  lemma NothingOpens(s: string, j: nat)
    requires j < |s| && (j + 1 < |s| ==> !IsDigit(s[j + 1]) && s[j + 1] != '.')
    ensures !Opens(s, j)
  {
  }

  lemma {:induction false} LettersRun(s: string, i: nat, t: seq<Letter>, acc: string)
    requires LettersOk(t) && Here(s, i, Spelling(t)) && (Halts(s, i + |Spelling(t)|) || Opens(s, i + |Spelling(t)|))
    ensures var j := i + |Spelling(t)|;
      LiteralFrom(s, i, acc) == if Halts(s, j) then Piece(acc + Chars(t), j) else Piece(acc + Chars(t) + "[", j)
    decreases |t|
  {
    hide Here, RangeAt, Halts, Opens, LiteralFrom, LettersOk, Spelled, Spelling, Chars;
    if t == [] {
      NoLetters(s, i, t, acc);
    } else {
      LetterRead(s, i, t, acc);
      TailOk(t);
      LettersRun(s, i + |Spelled(t[0])|, t[1..], acc + [t[0].c]);
      FirstChar(t, acc);
    }
  }

  lemma FirstChar(t: seq<Letter>, acc: string)
    requires t != []
    ensures acc + [t[0].c] + Chars(t[1..]) == acc + Chars(t)
  {
  }

  lemma NoLetters(s: string, i: nat, t: seq<Letter>, acc: string)
    requires t == [] && Here(s, i, Spelling(t)) && (Halts(s, i) || Opens(s, i))
    ensures acc + Chars(t) == acc && Spelling(t) == ""
    ensures LiteralFrom(s, i, acc) == if Halts(s, i) then Piece(acc, i) else Piece(acc + "[", i)
  {
  }

  lemma TailOk(t: seq<Letter>)
    requires t != [] && LettersOk(t)
    ensures LettersOk(t[1..])
  {
    forall k | 0 <= k < |t[1..]| ensures LetterOk(t[1..], k) { assert LetterOk(t, k + 1); }
  }

  /** Behind a "[" of the text there is nothing that could begin a number range. */
  lemma BehindBracket(s: string, i: nat, t: seq<Letter>)
    requires t != [] && LetterOk(t, 0) && t[0].c == '[' && Here(s, i, Spelling(t[1..]))
    requires Halts(s, i + |Spelling(t[1..])|) || Opens(s, i + |Spelling(t[1..])|)
    ensures i <= |s| && (i < |s| ==> !IsDigit(s[i]) && s[i] != '.')
  {
    hide RangeAt, Here;
    HereFits(s, i, Spelling(t[1..]));
    if |t| > 1 { SpellingStarts(s, i, t[1..]); }
  }

  lemma SpellingStarts(s: string, i: nat, t: seq<Letter>)
    requires t != [] && Here(s, i, Spelling(t))
    ensures i < |s| && s[i] == if t[0].AsIs? then t[0].c else '\\'
  {
    HereBoth(s, i, Spelled(t[0]), Spelling(t[1..]));
    HereAt(s, i, Spelled(t[0]), 0);
  }

  lemma OneLetter(s: string, i: nat, l: Letter, acc: string)
    requires i + |Spelled(l)| <= |s| && s[i + |Spelled(l)| - 1] == l.c && (l.Escaped? ==> s[i] == '\\')
    requires l.AsIs? ==> l.c != '?' && l.c != '*' && l.c != '{' && l.c != '\\'
    requires !Opens(s, i + |Spelled(l)| - 1)
    ensures LiteralFrom(s, i, acc) == LiteralFrom(s, i + |Spelled(l)|, acc + [l.c])
  {
    hide RangeAt;
  }

  /** One letter is read into the literal. */
  lemma LetterRead(s: string, i: nat, t: seq<Letter>, acc: string)
    requires t != [] && LettersOk(t) && Here(s, i, Spelling(t))
    requires Halts(s, i + |Spelling(t)|) || Opens(s, i + |Spelling(t)|)
    ensures var i' := i + |Spelled(t[0])|;
      && Here(s, i', Spelling(t[1..])) && |Spelling(t)| == |Spelled(t[0])| + |Spelling(t[1..])|
      && LiteralFrom(s, i, acc) == LiteralFrom(s, i', acc + [t[0].c])
  {
    hide RangeAt, Here, LiteralFrom, Halts, IsDigit;
    var l := t[0];
    assert LetterOk(t, 0);
    HereBoth(s, i, Spelled(l), Spelling(t[1..]));
    HereAt(s, i, Spelled(l), 0);
    HereAt(s, i, Spelled(l), |Spelled(l)| - 1);
    if l.c == '[' {
      BehindBracket(s, i + |Spelled(l)|, t);
      NothingOpens(s, i + |Spelled(l)| - 1);
    }
    OneLetter(s, i, l, acc);
  }

  /** Behind a range the "]" is text, too. */
  lemma TextRun(s: string, i: nat, closing: string, t: seq<Letter>)
    requires LettersOk(t) && (closing == "" || closing == "]") && Here(s, i, closing + Spelling(t))
    requires var j := i + |closing| + |Spelling(t)|; Halts(s, j) || Opens(s, j)
    ensures var j := i + |closing| + |Spelling(t)|;
      LiteralFrom(s, i, "") == if Halts(s, j) then Piece(closing + Chars(t), j) else Piece(closing + Chars(t) + "[", j)
  {
    hide Here, Spelling, RangeAt, Halts;
    HereBoth(s, i, closing, Spelling(t));
    if closing == "]" {
      HereAt(s, i, closing, 0);
      assert "" + [s[i]] == closing;
    }
    LettersRun(s, i + |closing|, t, closing);
  }

  lemma TextStart(s: string, i: nat, closing: string, t: seq<Letter>, dotted: bool, cased: bool)
    requires LettersOk(t) && (closing == "" || closing == "]") && Here(s, i, closing + Spelling(t)) && i < |s|
    requires closing + Chars(t) != "" || s[i] == '['
    ensures TokenAt(s, i, false, dotted, cased) == LiteralToken(s, i)
  {
    hide RangeAt, LiteralFrom, LiteralToken, SetToken;
    if closing == "]" {
      HereAt(s, i, closing + Spelling(t), 0);
    } else if t != [] {
      assert closing + Spelling(t) == Spelling(t) && LetterOk(t, 0);
      SpellingStarts(s, i, t);
    }
  }

  /** The token where literal text stands. */
  lemma TextToken(s: string, i: nat, closing: string, t: seq<Letter>, dotted: bool, cased: bool)
    requires LettersOk(t) && (closing == "" || closing == "]") && Here(s, i, closing + Spelling(t)) && i < |s|
    requires var j := i + |closing| + |Spelling(t)|; Opens(s, j) || (Halts(s, j) && closing + Chars(t) != "")
    ensures var j := i + |closing| + |Spelling(t)|;
      TokenAt(s, i, false, dotted, cased)
        == Token(Literal(if Halts(s, j) then closing + Chars(t) else closing + Chars(t) + "["), j)
  {
    hide LiteralFrom, RangeAt, TokenAt, Here, Spelling, Halts;
    TextRun(s, i, closing, t);
    TextStart(s, i, closing, t, dotted, cased);
  }

  // ------------------------------------------------------------------ one token after the other

  lemma Step(s: string, i: nat, elems: seq<Elem>, dotted: bool, cased: bool, elem: Elem, next: nat)
    requires i < |s| && TokenAt(s, i, AfterLiteral(elems), dotted, cased) == Token(elem, next)
    ensures next <= |s|
    ensures TokensFrom(s, i, elems, dotted, cased) == TokensFrom(s, next, elems + [elem], dotted, cased)
  {
    TokenAdvances(s, i, AfterLiteral(elems), dotted, cased);
  }

  /** Where the first of the ranges begins and is closed. */
  lemma IndexHere(s: string, j: nat, indices: seq<Index>) returns (close: nat)
    requires indices != [] && Here(s, j, IndicesText(indices))
    ensures var x := indices[0];
      && j < |s| && s[j] == '['
      && RangeAt(s, j, ']') == Some(Span(BoundValue(x.from), BoundValue(x.to), close))
      && Here(s, close, "]" + Spelling(x.text) + IndicesText(indices[1..]))
      && close + |"]" + Spelling(x.text) + IndicesText(indices[1..])| == j + |IndicesText(indices)|
  {
    hide Here, RangeAt, BoundsText, Spelling;
    var x := indices[0];
    var bounds, behind := BoundsText(x.from, x.to), Spelling(x.text) + IndicesText(indices[1..]);
    close := j + 1 + |bounds|;
    assert IndicesText(indices) == "[" + (bounds + ("]" + behind));
    HereBoth(s, j, "[", bounds + ("]" + behind));
    HereAt(s, j, "[", 0);
    HereBoth(s, j + 1, bounds, "]" + behind);
    assert bounds + ("]" + behind) == (bounds + [']']) + behind;
    HereBoth(s, j + 1, bounds + [']'], behind);
    BoundsRead(s, j, x.from, x.to, ']');
    assert "]" + behind == "]" + Spelling(x.text) + IndicesText(indices[1..]);
  }

  lemma RangeToken(s: string, j: nat, elems: seq<Elem>, from: Option<nat>, to: Option<nat>, close: nat, dotted: bool,
                   cased: bool)
    requires j < |s| && s[j] == '[' && RangeAt(s, j, ']') == Some(Span(BoundValue(from), BoundValue(to), close))
    requires AfterLiteral(elems)
    ensures close <= |s| && TokensFrom(s, j, elems, dotted, cased)
         == TokensFrom(s, close, elems + [NumRange(BoundValue(from), BoundValue(to))], dotted, cased)
  {
    hide TokensFrom, RangeAt, LiteralToken, SetToken;
    Step(s, j, elems, dotted, cased, NumRange(BoundValue(from), BoundValue(to)), close);
  }

  /** Text and the range behind it are two elements. */
  lemma TextAndRange(s: string, i: nat, closing: string, t: seq<Letter>, indices: seq<Index>, elems: seq<Elem>,
                     dotted: bool, cased: bool) returns (close: nat)
    requires LettersOk(t) && IndicesOk(indices)
    requires (closing == "" || closing == "]") && Here(s, i, closing + Spelling(t) + IndicesText(indices))
    requires !AfterLiteral(elems) && indices != []
    ensures close <= |s| && Here(s, close, "]" + Spelling(indices[0].text) + IndicesText(indices[1..]))
    ensures close + |"]" + Spelling(indices[0].text) + IndicesText(indices[1..])|
         == i + |closing + Spelling(t) + IndicesText(indices)|
    ensures TokensFrom(s, i, elems, dotted, cased)
         == TokensFrom(s, close, elems + [Literal(closing + Chars(t) + "[")]
                         + [NumRange(BoundValue(indices[0].from), BoundValue(indices[0].to))], dotted, cased)
  {
    hide Spelling, TokenAt, TokensFrom, RangeAt, IndicesText, BoundValue, Here, LettersOk, Chars;
    var j := i + |closing| + |Spelling(t)|;
    HereBoth(s, i, closing + Spelling(t), IndicesText(indices));
    close := IndexHere(s, j, indices);
    TextToken(s, i, closing, t, dotted, cased);
    Step(s, i, elems, dotted, cased, Literal(closing + Chars(t) + "["), j);
    RangeToken(s, j, elems + [Literal(closing + Chars(t) + "[")], indices[0].from, indices[0].to, close, dotted, cased);
  }

  lemma TextElemsMore(elems: seq<Elem>, text: string, indices: seq<Index>)
    requires indices != []
    ensures var x := indices[0];
      elems + [Literal(text + "[")] + [NumRange(BoundValue(x.from), BoundValue(x.to))]
          + TextElems("]" + Chars(x.text), indices[1..])
        == elems + TextElems(text, indices)
  {
  }

  /** Text with number ranges in it, up to where it ends. */
  lemma {:induction false} TextTokens(s: string, i: nat, closing: string, t: seq<Letter>, indices: seq<Index>,
                                      elems: seq<Elem>, dotted: bool, cased: bool)
    requires LettersOk(t) && IndicesOk(indices)
    requires (closing == "" || closing == "]") && Here(s, i, closing + Spelling(t) + IndicesText(indices))
    requires !AfterLiteral(elems) && (closing + Chars(t) != "" || indices != [])
    requires Halts(s, i + |closing + Spelling(t) + IndicesText(indices)|)
    ensures TokensFrom(s, i, elems, dotted, cased)
         == TokensFrom(s, i + |closing + Spelling(t) + IndicesText(indices)|,
                       elems + TextElems(closing + Chars(t), indices), dotted, cased)
    decreases |indices|
  {
    hide Spelling, TokenAt, TokensFrom, RangeAt, BoundValue, Halts, LettersOk, Chars, Here, TextElems, IndicesText;
    hide AfterLiteral, IndicesOk;
    if indices == [] {
      NoIndices(closing + Spelling(t), closing + Chars(t), indices);
      TextAlone(s, i, closing, t, elems, dotted, cased);
    } else {
      FirstIndex(indices, elems, closing + Chars(t));
      var close := TextAndRange(s, i, closing, t, indices, elems, dotted, cased);
      var elems' := elems + [Literal(closing + Chars(t) + "[")]
                      + [NumRange(BoundValue(indices[0].from), BoundValue(indices[0].to))];
      TextTokens(s, close, "]", indices[0].text, indices[1..], elems', dotted, cased);
      TextElemsMore(elems, closing + Chars(t), indices);
    }
  }

  lemma NoIndices(w: string, text: string, indices: seq<Index>)
    requires indices == []
    ensures w + IndicesText(indices) == w && TextElems(text, indices) == [Literal(text)]
  {
  }

  lemma FirstIndex(indices: seq<Index>, elems: seq<Elem>, text: string)
    requires indices != [] && IndicesOk(indices)
    ensures LettersOk(indices[0].text) && IndicesOk(indices[1..])
    ensures var range := NumRange(BoundValue(indices[0].from), BoundValue(indices[0].to));
      !AfterLiteral(elems + [Literal(text + "[")] + [range])
  {
    hide LettersOk;
  }

  lemma TextAlone(s: string, i: nat, closing: string, t: seq<Letter>, elems: seq<Elem>, dotted: bool, cased: bool)
    requires LettersOk(t) && (closing == "" || closing == "]") && Here(s, i, closing + Spelling(t))
    requires closing + Chars(t) != ""
    requires !AfterLiteral(elems) && Halts(s, i + |closing + Spelling(t)|)
    ensures TokensFrom(s, i, elems, dotted, cased)
         == TokensFrom(s, i + |closing + Spelling(t)|, elems + [Literal(closing + Chars(t))], dotted, cased)
  {
    hide Spelling, TokenAt, TokensFrom, RangeAt, Halts, Here, LettersOk, Chars;
    HereFits(s, i, closing + Spelling(t));
    TextToken(s, i, closing, t, dotted, cased);
    Step(s, i, elems, dotted, cased, Literal(closing + Chars(t)), i + |closing| + |Spelling(t)|);
  }

  // ------------------------------------------------------------------ sets

  lemma MembersSplit(s: string, i: nat, members: seq<Member>)
    requires members != [] && Here(s, i, MembersText(members) + "}")
    ensures Here(s, i, MemberText(members[0])) && Here(s, i + |MemberText(members[0])|, MembersText(members[1..]) + "}")
    ensures |MembersText(members)| == |MemberText(members[0])| + |MembersText(members[1..])|
  {
    var m, rest := MemberText(members[0]), MembersText(members[1..]) + "}";
    assert MembersText(members) + "}" == m + rest;
    HereBoth(s, i, m, rest);
  }

  lemma MembersEnd(s: string, i: nat, members: seq<Member>)
    requires members == [] && Here(s, i, MembersText(members) + "}")
    ensures i < |s| && s[i] == '}'
  {
    assert MembersText(members) + "}" == "}";
    HereAt(s, i, "}", 0);
  }

  /** The character the members begin with, or the "}" behind them; and what is behind a single last one. */
  lemma MembersStart(s: string, i: nat, members: seq<Member>)
    requires Here(s, i, MembersText(members) + "}")
    ensures i < |s| && s[i] == if members == [] then '}' else MemberText(members[0])[0]
    ensures |members| == 1 && members[0].Single? ==> i + 1 < |s| && s[i + 1] == '}'
  {
    hide MembersText, Here;
    if members == [] {
      MembersEnd(s, i, members);
    } else {
      MembersSplit(s, i, members);
      HereAt(s, i, MemberText(members[0]), 0);
      if |members| == 1 && members[0].Single? { MembersEnd(s, i + 1, members[1..]); }
    }
  }

  /** One member is read. */
  lemma MemberRead(s: string, i: nat, sbeg: nat, members: seq<Member>, ranges: seq<(char, char)>, cased: bool)
    requires members != [] && Here(s, i, MembersText(members) + "}")
    requires i == sbeg || MemberText(members[0])[0] != '}'
    requires members[0].FromTo? ==> members[0].hi != '}'
    requires |members| > 1 ==> NoDash(members, 0)
    ensures var i' := i + |MemberText(members[0])|;
      && Here(s, i', MembersText(members[1..]) + "}")
      && SetFrom(s, i, sbeg, ranges, cased) == SetFrom(s, i', sbeg, ranges + [MemberRange(members[0], cased)], cased)
  {
    hide MembersText, Here, SetFrom;
    MembersSplit(s, i, members);
    var m := MemberText(members[0]);
    MembersStart(s, i + |m|, members[1..]);
    HereAt(s, i, m, 0);
    if members[0].FromTo? {
      HereAt(s, i, m, 1);
      HereAt(s, i, m, 2);
      RangeRead(s, i, sbeg, ranges, cased);
    } else {
      CharRead(s, i, sbeg, ranges, cased);
    }
  }

  lemma CharRead(s: string, i: nat, sbeg: nat, ranges: seq<(char, char)>, cased: bool)
    requires i < |s| && (i == sbeg || s[i] != '}')
    requires At(s, i + 1) != '-' || i + 2 >= |s| || s[i + 2] == '}'
    ensures SetFrom(s, i, sbeg, ranges, cased)
         == SetFrom(s, i + 1, sbeg, ranges + [MemberRange(Single(s[i]), cased)], cased)
  {
  }

  lemma RangeRead(s: string, i: nat, sbeg: nat, ranges: seq<(char, char)>, cased: bool)
    requires i + 2 < |s| && (i == sbeg || s[i] != '}') && s[i + 1] == '-' && s[i + 2] != '}'
    ensures SetFrom(s, i, sbeg, ranges, cased)
         == SetFrom(s, i + 3, sbeg, ranges + [MemberRange(FromTo(s[i], s[i + 2]), cased)], cased)
  {
  }

  /** No member but the first begins with "}", no range ends in one, and no "-" misleads. */
  predicate Readable(members: seq<Member>) {
    && (forall k :: 0 < k < |members| ==> MemberText(members[k])[0] != '}')
    && (forall k :: 0 <= k < |members| && members[k].FromTo? ==> members[k].hi != '}')
    && (forall k :: 0 <= k < |members| - 1 ==> NoDash(members, k))
  }

  lemma FirstReadable(members: seq<Member>)
    requires members != [] && Readable(members)
    ensures Readable(members[1..])
    ensures members[0].FromTo? ==> members[0].hi != '}'
    ensures |members| > 1 ==> NoDash(members, 0)
    ensures members[1..] == [] || MemberText(members[1..][0])[0] != '}'
  {
    forall k | 0 <= k < |members[1..]| - 1 ensures NoDash(members[1..], k) { assert NoDash(members, k + 1); }
  }

  lemma {:induction false} MembersRead(s: string, i: nat, sbeg: nat, members: seq<Member>, ranges: seq<(char, char)>,
                                       cased: bool)
    requires Here(s, i, MembersText(members) + "}") && Readable(members)
    requires i != sbeg ==> members == [] || MemberText(members[0])[0] != '}'
    requires i >= sbeg && (members == [] ==> i != sbeg)
    ensures SetFrom(s, i, sbeg, ranges, cased)
         == CharSet(ranges + MemberRanges(members, cased), i + |MembersText(members)| + 1)
    decreases |members|
  {
    hide MembersText, Here, MemberRange, MemberRanges, SetFrom, Readable, NoDash;
    if members == [] {
      MembersDone(s, i, sbeg, members, ranges, cased);
    } else {
      MembersSplit(s, i, members);
      FirstReadable(members);
      MemberRead(s, i, sbeg, members, ranges, cased);
      var i' := i + |MemberText(members[0])|;
      MembersRead(s, i', sbeg, members[1..], ranges + [MemberRange(members[0], cased)], cased);
      RangesMore(ranges, members, cased);
    }
  }

  lemma MembersDone(s: string, i: nat, sbeg: nat, members: seq<Member>, ranges: seq<(char, char)>, cased: bool)
    requires members == [] && Here(s, i, MembersText(members) + "}") && i != sbeg
    ensures SetFrom(s, i, sbeg, ranges, cased)
         == CharSet(ranges + MemberRanges(members, cased), i + |MembersText(members)| + 1)
  {
    MembersEnd(s, i, members);
    assert ranges + MemberRanges(members, cased) == ranges;
  }

  lemma RangesMore(ranges: seq<(char, char)>, members: seq<Member>, cased: bool)
    requires members != []
    ensures ranges + [MemberRange(members[0], cased)] + MemberRanges(members[1..], cased)
         == ranges + MemberRanges(members, cased)
  {
  }

  lemma {:induction false} MemberAt(members: seq<Member>, k: nat, j: nat) returns (p: nat)
    requires k < |members| && j < |MemberText(members[k])|
    ensures k + j <= p < |MembersText(members)| && MembersText(members)[p] == MemberText(members[k])[j]
    decreases k
  {
    if k == 0 {
      p := j;
    } else {
      var q := MemberAt(members[1..], k - 1, j);
      p := |MemberText(members[0])| + q;
    }
  }

  lemma OkIsReadable(members: seq<Member>)
    requires MembersOk(members)
    ensures Readable(members)
  {
    forall k | 0 < k < |members| ensures MemberText(members[k])[0] != '}' { var p := MemberAt(members, k, 0); }
    forall k | 0 <= k < |members| && members[k].FromTo? ensures members[k].hi != '}' {
      var p := MemberAt(members, k, 2);
    }
  }

  lemma {:induction false} SameDigitsEnd(s: string, i: nat, t: string, k: nat)
    requires Here(s, i, t + "}") && k <= |t|
    ensures DigitsEnd(s, i + k) == i + DigitsEnd(t, k)
    decreases |t| - k
  {
    HereAt(s, i, t + "}", k);
    if k < |t| && IsDigit(t[k]) { SameDigitsEnd(s, i, t, k + 1); }
  }

  /** What is not like two numbers is a set. */
  lemma NotRange(s: string, i: nat, t: string)
    requires i < |s| && Here(s, i + 1, t + "}") && !LikeNumbers(t)
    requires forall k :: 0 < k < |t| ==> t[k] != '}'
    ensures RangeAt(s, i, '}') == None
  {
    hide DigitsEnd;
    SameDigitsEnd(s, i + 1, t, 0);
    var a := DigitsEnd(t, 0);
    HereAt(s, i + 1, t + "}", a);
    if a < |t| { HereAt(s, i + 1, t + "}", a + 1); }
    if a + 2 <= |t| {
      SameDigitsEnd(s, i + 1, t, a + 2);
      HereAt(s, i + 1, t + "}", DigitsEnd(t, a + 2));
    }
  }

  /** The members of a set, behind its "{" or "{^". */
  lemma SetRead(s: string, sbeg: nat, members: seq<Member>, cased: bool)
    requires MembersOk(members) && Here(s, sbeg, MembersText(members) + "}")
    ensures SetFrom(s, sbeg, sbeg, [], cased)
         == CharSet(MemberRanges(members, cased), sbeg + |MembersText(members)| + 1)
  {
    hide MembersText, Here, SetFrom, Readable, MembersOk;
    OkIsReadable(members);
    NotEmpty(members);
    MembersRead(s, sbeg, sbeg, members, [], cased);
    assert [] + MemberRanges(members, cased) == MemberRanges(members, cased);
  }

  lemma NotEmpty(members: seq<Member>)
    requires MembersOk(members)
    ensures members != [] && MembersText(members) != ""
  {
    var p := MemberAt(members, 0, 0);
  }

  lemma BraceToken(s: string, i: nat, negated: bool, ranges: seq<(char, char)>, next: nat, afterLiteral: bool,
                   dotted: bool, cased: bool)
    requires i < |s| && s[i] == '{' && RangeAt(s, i, '}') == None && (negated <==> At(s, i + 1) == '^')
    requires var sbeg := if negated then i + 2 else i + 1;
      sbeg <= |s| && SetFrom(s, sbeg, sbeg, [], cased) == CharSet(ranges, next)
    ensures TokenAt(s, i, afterLiteral, dotted, cased) == Token(if negated then NegSet(ranges) else Set(ranges), next)
  {
    hide RangeAt, SetFrom, LiteralToken, At;
  }

  /** The text in the braces, and that it is that of a set. */
  lemma OneOfHere(s: string, i: nat, members: seq<Member>)
    requires PartOk(OneOf(members)) && Here(s, i, PartText(OneOf(members)))
    ensures MembersOk(members) && i + 1 < |s| && s[i] == '{' && s[i + 1] != '^' && RangeAt(s, i, '}') == None
    ensures Here(s, i + 1, MembersText(members) + "}") && |PartText(OneOf(members))| == |MembersText(members)| + 2
  {
    hide MembersText, RangeAt, LikeNumbers, NoDash, Here;
    var t := MembersText(members);
    assert PartText(OneOf(members)) == "{" + (t + "}");
    HereBoth(s, i, "{", t + "}");
    HereAt(s, i, "{", 0);
    NotRange(s, i, t);
    NotEmpty(members);
    HereAt(s, i + 1, t + "}", 0);
    assert t[..1] == [t[0]];
  }

  lemma NoneOfHere(s: string, i: nat, members: seq<Member>)
    requires PartOk(NoneOf(members)) && Here(s, i, PartText(NoneOf(members)))
    ensures MembersOk(members) && i + 1 < |s| && s[i] == '{' && s[i + 1] == '^' && RangeAt(s, i, '}') == None
    ensures Here(s, i + 2, MembersText(members) + "}") && |PartText(NoneOf(members))| == |MembersText(members)| + 3
  {
    hide MembersText, RangeAt, MembersOk, Here;
    var t := MembersText(members);
    assert PartText(NoneOf(members)) == "{^" + (t + "}");
    HereBoth(s, i, "{^", t + "}");
    HereAt(s, i, "{^", 0);
    HereAt(s, i, "{^", 1);
    CaretIsSet(s, i);
  }

  lemma OneOfToken(s: string, i: nat, members: seq<Member>, afterLiteral: bool, dotted: bool, cased: bool)
    requires PartOk(OneOf(members)) && Here(s, i, PartText(OneOf(members)))
    ensures i < |s| && TokenAt(s, i, afterLiteral, dotted, cased)
         == Token(Set(MemberRanges(members, cased)), i + |PartText(OneOf(members))|)
  {
    hide PartOk, PartText, MembersText, MembersOk, SetFrom, RangeAt, MemberRanges, TokenAt, Here;
    OneOfHere(s, i, members);
    HereFits(s, i + 1, MembersText(members) + "}");
    SetRead(s, i + 1, members, cased);
    BraceToken(s, i, false, MemberRanges(members, cased), i + |MembersText(members)| + 2, afterLiteral, dotted, cased);
  }

  lemma NoneOfToken(s: string, i: nat, members: seq<Member>, afterLiteral: bool, dotted: bool, cased: bool)
    requires PartOk(NoneOf(members)) && Here(s, i, PartText(NoneOf(members)))
    ensures i < |s| && TokenAt(s, i, afterLiteral, dotted, cased)
         == Token(NegSet(MemberRanges(members, cased)), i + |PartText(NoneOf(members))|)
  {
    hide PartOk, PartText, MembersText, MembersOk, SetFrom, RangeAt, MemberRanges, TokenAt, Here;
    NoneOfHere(s, i, members);
    HereFits(s, i + 2, MembersText(members) + "}");
    SetRead(s, i + 2, members, cased);
    BraceToken(s, i, true, MemberRanges(members, cased), i + |MembersText(members)| + 3, afterLiteral, dotted, cased);
  }

  lemma CaretIsSet(s: string, i: nat)
    requires i + 1 < |s| && s[i + 1] == '^'
    ensures RangeAt(s, i, '}') == None
  {
  }

  // ------------------------------------------------------------------ the other parts

  lemma NumbersToken(s: string, i: nat, from: Option<nat>, to: Option<nat>, afterLiteral: bool, dotted: bool,
                     cased: bool)
    requires Here(s, i, PartText(Numbers(from, to)))
    ensures i < |s| && TokenAt(s, i, afterLiteral, dotted, cased)
         == Token(NumRange(BoundValue(from), BoundValue(to)), i + |PartText(Numbers(from, to))|)
  {
    hide BoundsText, RangeAt, LiteralToken, SetToken;
    var t := BoundsText(from, to);
    assert PartText(Numbers(from, to)) == "{" + (t + ['}']);
    HereBoth(s, i, "{", t + ['}']);
    HereAt(s, i, "{", 0);
    BoundsRead(s, i, from, to, '}');
  }

  lemma ShortToken(s: string, i: nat, p: Part, afterLiteral: bool, dotted: bool, cased: bool)
    requires (p.OneChar? || p.Star? || p.StarStar?) && Here(s, i, PartText(p))
    requires p.Star? ==> At(s, i + 1) != '*'
    ensures i < |s| && TokenAt(s, i, afterLiteral, dotted, cased)
         == Token(PartElems(p, dotted, cased)[0], i + |PartText(p)|)
  {
    HereAt(s, i, PartText(p), 0);
    if p.StarStar? { HereAt(s, i, PartText(p), 1); }
  }

  // ------------------------------------------------------------------ all parts

  /** What may stand behind a part. */
  predicate Closes(s: string, p: Part, j: nat) {
    && (p.Text? ==> Halts(s, j))
    && (p.Star? ==> At(s, j) != '*')
  }

  lemma PartTokens(s: string, i: nat, p: Part, elems: seq<Elem>, dotted: bool, cased: bool)
    requires PartOk(p) && Here(s, i, PartText(p)) && Closes(s, p, i + |PartText(p)|)
    requires p.Text? ==> !AfterLiteral(elems)
    ensures TokensFrom(s, i, elems, dotted, cased)
         == TokensFrom(s, i + |PartText(p)|, elems + PartElems(p, dotted, cased), dotted, cased)
  {
    hide TokensFrom, TokenAt, Here, PartOk, Halts, PartText;
    var j := i + |PartText(p)|;
    match p
    case Text(first, indices) => TextPart(s, i, first, indices, elems, dotted, cased);
    case OneOf(members) =>
      OneOfToken(s, i, members, AfterLiteral(elems), dotted, cased);
      Step(s, i, elems, dotted, cased, Set(MemberRanges(members, cased)), j);
    case NoneOf(members) =>
      NoneOfToken(s, i, members, AfterLiteral(elems), dotted, cased);
      Step(s, i, elems, dotted, cased, NegSet(MemberRanges(members, cased)), j);
    case Numbers(from, to) =>
      NumbersToken(s, i, from, to, AfterLiteral(elems), dotted, cased);
      Step(s, i, elems, dotted, cased, NumRange(BoundValue(from), BoundValue(to)), j);
    case _ =>
      assert p.Star? ==> j == i + 1 by { StarLength(); }
      ShortToken(s, i, p, AfterLiteral(elems), dotted, cased);
      Step(s, i, elems, dotted, cased, PartElems(p, dotted, cased)[0], j);
  }

  lemma StarLength()
    ensures |PartText(Star)| == 1
  {
  }

  lemma TextPart(s: string, i: nat, first: seq<Letter>, indices: seq<Index>, elems: seq<Elem>, dotted: bool,
                 cased: bool)
    requires var p := Text(first, indices); PartOk(p) && Here(s, i, PartText(p)) && Halts(s, i + |PartText(p)|)
    requires !AfterLiteral(elems)
    ensures TokensFrom(s, i, elems, dotted, cased)
         == TokensFrom(s, i + |PartText(Text(first, indices))|, elems + TextElems(Chars(first), indices), dotted, cased)
  {
    hide TokensFrom, TokenAt, Here, Spelling, IndicesText;
    assert "" + Spelling(first) + IndicesText(indices) == PartText(Text(first, indices));
    assert "" + Chars(first) == Chars(first);
    TextTokens(s, i, "", first, indices, elems, dotted, cased);
  }

  /** What may stand behind the parts: nothing, or what cannot be part of the last of them. */
  predicate ClosesAll(s: string, parts: seq<Part>, j: nat) {
    j == |s| || (j < |s| && (s[j] == '{' || (s[j] == '\\' && (parts == [] || !parts[|parts| - 1].Text?))))
  }

  lemma TextStarts(first: seq<Letter>, indices: seq<Index>)
    requires (first != [] || indices != []) && LettersOk(first)
    ensures var w := Spelling(first) + IndicesText(indices); w != "" && w[0] !in "?{*"
  {
    if first != [] {
      assert LetterOk(first, 0);
      assert Spelling(first) == Spelled(first[0]) + Spelling(first[1..]);
    } else {
      hide BoundsText, Spelling;
      assert IndicesText(indices)[0] == '[';
    }
  }

  /** What a part begins with: text is told from all others. */
  lemma PartStarts(p: Part)
    requires PartOk(p)
    ensures PartText(p) != "" && (PartText(p)[0] in "?{*" <==> !p.Text?)
    ensures PartText(p)[0] == '*' <==> p.Star? || p.StarStar?
  {
    hide Spelling, IndicesText, MembersText, BoundsText, LettersOk, IndicesOk, MembersOk;
    if p.Text? { TextStarts(p.first, p.indices); }
  }

  lemma NextCloses(s: string, parts: seq<Part>, j: nat)
    requires parts != [] && Proper(parts) && Here(s, j, PatternOf(parts[1..]))
    requires ClosesAll(s, parts, j + |PatternOf(parts[1..])|)
    ensures Closes(s, parts[0], j) && ClosesAll(s, parts[1..], j + |PatternOf(parts[1..])|)
  {
    hide PartText, PartOk;
    if |parts| > 1 {
      PartStarts(parts[1]);
      assert Neighbours(parts[0], parts[1]);
      HereBoth(s, j, PartText(parts[1]), PatternOf(parts[1..][1..]));
      HereAt(s, j, PartText(parts[1]), 0);
    }
  }

  lemma TailProper(parts: seq<Part>)
    requires parts != [] && Proper(parts)
    ensures Proper(parts[1..]) && PartOk(parts[0])
    ensures parts[0].Text? && |parts| > 1 ==> !parts[1].Text?
  {
    hide PartOk;
    assert |parts| > 1 ==> Neighbours(parts[0], parts[1]);
    forall k | 0 <= k < |parts[1..]| - 1 ensures Neighbours(parts[1..][k], parts[1..][k + 1]) {
      assert Neighbours(parts[k + 1], parts[k + 2]);
    }
  }

  lemma LastElem(p: Part, elems: seq<Elem>, dotted: bool, cased: bool)
    requires !p.Text?
    ensures !AfterLiteral(elems + PartElems(p, dotted, cased))
  {
  }

  /** The text of parts is cut into their elements. */
  lemma {:induction false} PartsTokens(s: string, i: nat, parts: seq<Part>, elems: seq<Elem>, dotted: bool, cased: bool)
    requires Proper(parts) && Here(s, i, PatternOf(parts)) && ClosesAll(s, parts, i + |PatternOf(parts)|)
    requires AfterLiteral(elems) ==> parts == [] || !parts[0].Text?
    ensures TokensFrom(s, i, elems, dotted, cased)
         == TokensFrom(s, i + |PatternOf(parts)|, elems + ElemsOf(parts, dotted, cased), dotted, cased)
    decreases |parts|
  {
    hide Here, TokensFrom, PartText, PartElems, Proper, Closes, ClosesAll, AfterLiteral;
    if parts == [] {
      assert elems + ElemsOf(parts, dotted, cased) == elems;
    } else {
      var p, rest := parts[0], parts[1..];
      var j := i + |PartText(p)|;
      TailProper(parts);
      HereBoth(s, i, PartText(p), PatternOf(rest));
      NextCloses(s, parts, j);
      PartTokens(s, i, p, elems, dotted, cased);
      if !p.Text? { LastElem(p, elems, dotted, cased); }
      PartsTokens(s, j, rest, elems + PartElems(p, dotted, cased), dotted, cased);
      assert elems + PartElems(p, dotted, cased) + ElemsOf(rest, dotted, cased)
          == elems + ElemsOf(parts, dotted, cased);
    }
  }

  /** A pattern put together from parts is taken to pieces again: it is set without an error, and its elements are
      those of the parts. */
  lemma TokensBack(parts: seq<Part>, dotted: bool, cased: bool)
    requires Proper(parts)
    ensures TokensFrom(PatternOf(parts), 0, [], dotted, cased) == Tokens(ElemsOf(parts, dotted, cased), None)
  {
    hide TokenAt, PartText, PartElems, Proper;
    var s := PatternOf(parts);
    assert Here(s, 0, s);
    PartsTokens(s, 0, parts, [], dotted, cased);
    assert [] + ElemsOf(parts, dotted, cased) == ElemsOf(parts, dotted, cased);
  }

  // ------------------------------------------------------------------ errors

  lemma {:induction false} NeverClosed(s: string, i: nat, sbeg: nat, ranges: seq<(char, char)>, cased: bool)
    requires i <= |s| && forall k :: i <= k < |s| && k != sbeg ==> s[k] != '}'
    ensures SetFrom(s, i, sbeg, ranges, cased) == Unclosed
    decreases |s| - i
  {
    if i < |s| {
      if At(s, i + 1) == '-' && i + 2 < |s| && s[i + 2] != '}' {
        NeverClosed(s, i + 3, sbeg, ranges + [(Case(s[i], cased), Case(s[i + 2], cased))], cased);
      } else {
        NeverClosed(s, i + 1, sbeg, ranges + [(Case(s[i], cased), Case(s[i], cased))], cased);
      }
    }
  }

  lemma ErrorToken(s: string, i: nat, elems: seq<Elem>, dotted: bool, cased: bool, e: Error)
    requires i < |s| && TokenAt(s, i, AfterLiteral(elems), dotted, cased) == Bad(e)
    ensures TokensFrom(s, i, elems, dotted, cased) == Tokens(elems, Some(e))
  {
  }

  lemma TokensUpTo(parts: seq<Part>, c: char, t: string, dotted: bool, cased: bool)
    requires Proper(parts) && (c == '{' || (c == '\\' && (parts == [] || !parts[|parts| - 1].Text?)))
    ensures var s := PatternOf(parts) + [c] + t;
      TokensFrom(s, 0, [], dotted, cased)
        == TokensFrom(s, |PatternOf(parts)|, ElemsOf(parts, dotted, cased), dotted, cased)
  {
    hide TokenAt, TokensFrom, PartText, PartElems, Proper, PatternOf;
    var w := PatternOf(parts);
    var s := w + [c] + t;
    assert Here(s, 0, w) && s[|w|] == c;
    PartsTokens(s, 0, parts, [], dotted, cased);
    assert [] + ElemsOf(parts, dotted, cased) == ElemsOf(parts, dotted, cased);
  }

  /** A brace that is never closed is an error, wherever it stands. */
  lemma BraceError(parts: seq<Part>, t: string, dotted: bool, cased: bool)
    requires Proper(parts) && '}' !in t
    ensures TokensFrom(PatternOf(parts) + "{" + t, 0, [], dotted, cased)
         == Tokens(ElemsOf(parts, dotted, cased), Some(UnmatchedBrace))
  {
    hide TokenAt, TokensFrom, PartText, PartElems, Proper, PatternOf;
    var w, elems := PatternOf(parts), ElemsOf(parts, dotted, cased);
    var s := w + "{" + t;
    TokensUpTo(parts, '{', t, dotted, cased);
    assert s[|w| + 1..] == t;
    OpenBrace(s, |w|, AfterLiteral(elems), dotted, cased);
    ErrorToken(s, |w|, elems, dotted, cased, UnmatchedBrace);
  }

  lemma OpenBrace(s: string, i: nat, afterLiteral: bool, dotted: bool, cased: bool)
    requires i < |s| && s[i] == '{' && '}' !in s[i + 1..]
    ensures TokenAt(s, i, afterLiteral, dotted, cased) == Bad(UnmatchedBrace)
  {
    forall k | i < k < |s| ensures s[k] != '}' { assert s[k] == s[i + 1..][k - i - 1]; }
    var sbeg := if At(s, i + 1) == '^' then i + 2 else i + 1;
    NeverClosed(s, sbeg, sbeg, [], cased);
  }

  /** So is a backslash with nothing behind it. */
  lemma BackslashError(parts: seq<Part>, dotted: bool, cased: bool)
    requires Proper(parts) && (parts == [] || !parts[|parts| - 1].Text?)
    ensures TokensFrom(PatternOf(parts) + "\\", 0, [], dotted, cased)
         == Tokens(ElemsOf(parts, dotted, cased), Some(TrailingBackslash))
  {
    hide TokensFrom, PartText, PartElems, Proper, PatternOf;
    var w, elems := PatternOf(parts), ElemsOf(parts, dotted, cased);
    var s := w + "\\";
    assert w + "\\" + "" == s;
    TokensUpTo(parts, '\\', "", dotted, cased);
    ErrorToken(s, |w|, elems, dotted, cased, TrailingBackslash);
  }
}
