/** How a pattern string is cut into elements. */
module PatternSyntax {
  import opened Optional
  import opened Patterns

  /** The character at i, or the terminating NUL. */
  function At(s: string, i: nat): char {
    if i < |s| then s[i] else '\0'
  }

  // ------------------------------------------------------------------ numeric ranges

  function DigitsEnd(s: string, i: nat): (j: nat)
    requires i <= |s|
    ensures i <= j <= |s| && AllDigits(s[i..j])
    decreases |s| - i
  {
    if i < |s| && IsDigit(s[i]) then
      var j := DigitsEnd(s, i + 1);
      assert s[i..j] == [s[i]] + s[i + 1..j];
      j
    else i
  }

  /** A number, or -1 if there is no digit. */
  function Bound(s: string, i: nat, j: nat): int
    requires i <= j <= |s| && AllDigits(s[i..j])
  {
    if i == j then -1 else Number(s[i..j])
  }

  datatype Span = Span(from: int, to: int, close: nat)

  /** "[n..m]" or "{n..m}" with the opening bracket at i; either number may be missing. */
  function RangeAt(s: string, i: nat, closing: char): (r: Option<Span>)
    requires i < |s| && closing != '\0'
    ensures r.Some? ==> i < r.value.close < |s| && s[r.value.close] == closing
  {
    var a := DigitsEnd(s, i + 1);
    if At(s, a) != '.' || At(s, a + 1) != '.' then None
    else if a + 2 > |s| then None
    else
      var b := DigitsEnd(s, a + 2);
      if At(s, b) != closing then None
      else Some(Span(Bound(s, i + 1, a), Bound(s, a + 2, b), b))
  }

  // ------------------------------------------------------------------ literals and sets

  datatype Piece = Piece(text: string, next: nat) | Dangling

  /** Literal text from i on: up to a wildcard, or up to and including a "[" that opens a range.  A
      backslash takes the next character as it is, and must have one. */
  function LiteralFrom(s: string, i: nat, text: string): (p: Piece)
    requires i <= |s|
    ensures p.Piece? ==> i <= p.next <= |s|
    decreases |s| - i
  {
    if i == |s| || s[i] == '?' || s[i] == '{' || s[i] == '*' then Piece(text, i)
    else
      var j := if s[i] == '\\' then i + 1 else i;
      if j == |s| then Dangling
      else if s[j] == '[' && RangeAt(s, j, ']').Some? then Piece(text + [s[j]], j)
      else LiteralFrom(s, j + 1, text + [s[j]])
  }

  datatype CharSet = CharSet(ranges: seq<(char, char)>, next: nat) | Unclosed

  function Case(c: char, cased: bool): char {
    if cased then c else Upper(c)
  }

  /** Characters and ranges up to a "}" that is not the first character of the set, which starts at sbeg. */
  function SetFrom(s: string, i: nat, sbeg: nat, ranges: seq<(char, char)>, cased: bool): (r: CharSet)
    requires i <= |s|
    ensures r.CharSet? ==> i < r.next <= |s|
    decreases |s| - i
  {
    if i == |s| then Unclosed
    else if s[i] == '}' && i != sbeg then CharSet(ranges, i + 1)
    else if At(s, i + 1) == '-' && i + 2 < |s| && s[i + 2] != '}' then
      SetFrom(s, i + 3, sbeg, ranges + [(Case(s[i], cased), Case(s[i + 2], cased))], cased)
    else SetFrom(s, i + 1, sbeg, ranges + [(Case(s[i], cased), Case(s[i], cased))], cased)
  }

  // ------------------------------------------------------------------ elements

  datatype Error = UnmatchedBrace | TrailingBackslash

  datatype Token = Token(elem: Elem, next: nat) | Bad(error: Error)

  predicate AfterLiteral(elems: seq<Elem>) {
    elems != [] && elems[|elems| - 1].Literal?
  }

  function LiteralToken(s: string, i: nat): Token
    requires i <= |s|
  {
    match LiteralFrom(s, i, "")
    case Piece(text, next) => Token(Literal(text), next)
    case Dangling => Bad(TrailingBackslash)
  }

  function SetToken(s: string, i: nat, cased: bool): Token
    requires i < |s|
  {
    var negated := At(s, i + 1) == '^';
    var sbeg := if negated then i + 2 else i + 1;
    match SetFrom(s, sbeg, sbeg, [], cased)
    case CharSet(ranges, next) => Token(if negated then NegSet(ranges) else Set(ranges), next)
    case Unclosed => Bad(UnmatchedBrace)
  }

  /** The element at i; "[" opens a range only after literal text, which ends in that "[". */
  function TokenAt(s: string, i: nat, afterLiteral: bool, dotted: bool, cased: bool): Token
    requires i < |s|
  {
    match s[i]
    case '?' => Token(if dotted then CommonChar else AnyChar, i + 1)
    case '[' =>
      var r := RangeAt(s, i, ']');
      if afterLiteral && r.Some? then Token(NumRange(r.value.from, r.value.to), r.value.close)
      else LiteralToken(s, i)
    case '{' =>
      var r := RangeAt(s, i, '}');
      if r.Some? then Token(NumRange(r.value.from, r.value.to), r.value.close + 1)
      else SetToken(s, i, cased)
    case '*' =>
      if At(s, i + 1) == '*' then Token(AnySeq, i + 2)
      else Token(if dotted then CommonSeq else AnySeq, i + 1)
    case _ => LiteralToken(s, i)
  }

  /** Either input is used up, or a literal has ended just before its "[" opens a range. */
  lemma TokenAdvances(s: string, i: nat, afterLiteral: bool, dotted: bool, cased: bool)
    requires i < |s|
    ensures var t := TokenAt(s, i, afterLiteral, dotted, cased);
      t.Token? ==> t.elem != End && i <= t.next <= |s| && (t.next == i ==> !afterLiteral && t.elem.Literal?)
  {
    if s[i] == '{' && RangeAt(s, i, '}').None? && At(s, i + 1) == '^' {
      assert i + 2 <= |s|;
    }
  }

  datatype Tokens = Tokens(elems: seq<Elem>, error: Option<Error>)

  function TokensFrom(s: string, i: nat, elems: seq<Elem>, dotted: bool, cased: bool): Tokens
    requires i <= |s|
    decreases |s| - i, if AfterLiteral(elems) then 0 else 1
  {
    if i == |s| then Tokens(elems, None)
    else
      TokenAdvances(s, i, AfterLiteral(elems), dotted, cased);
      match TokenAt(s, i, AfterLiteral(elems), dotted, cased)
      case Bad(e) => Tokens(elems, Some(e))
      case Token(elem, next) => TokensFrom(s, next, elems + [elem], dotted, cased)
  }

  /** In substring mode the pattern is put between two "**", unless they are there already. */
  function Enclosed(elems: seq<Elem>, fullString: bool): (r: seq<Elem>)
  {
    if fullString then elems + [End]
    else
      var back := if elems == [] || elems[|elems| - 1] != AnySeq then elems + [AnySeq] else elems;
      (if back[0] != AnySeq then [AnySeq] + back else back) + [End]
  }

  // ------------------------------------------------------------------ properties

  ghost predicate NoEnd(elems: seq<Elem>) {
    forall k :: 0 <= k < |elems| ==> elems[k] != End
  }

  lemma {:induction false} TokensNoEnd(s: string, i: nat, elems: seq<Elem>, dotted: bool, cased: bool)
    requires i <= |s| && NoEnd(elems)
    ensures NoEnd(TokensFrom(s, i, elems, dotted, cased).elems)
    decreases |s| - i, if AfterLiteral(elems) then 0 else 1
  {
    if i < |s| {
      TokenAdvances(s, i, AfterLiteral(elems), dotted, cased);
      match TokenAt(s, i, AfterLiteral(elems), dotted, cased)
      case Bad(_) =>
      case Token(elem, next) => TokensNoEnd(s, next, elems + [elem], dotted, cased);
    }
  }

  /** What has been set is always fit for matching. */
  lemma EnclosedEnded(elems: seq<Elem>, fullString: bool)
    requires NoEnd(elems)
    ensures Ended(Enclosed(elems, fullString))
  {
  }

  /** No "?", "*", "\\" or "{", and no "..": what containsWildcards tests. */
  predicate Plain(s: string) {
    && (forall i :: 0 <= i < |s| ==> s[i] != '?' && s[i] != '*' && s[i] != '\\' && s[i] != '{')
    && (forall i :: 0 <= i < |s| - 1 ==> !(s[i] == '.' && s[i + 1] == '.'))
  }

  lemma {:induction false} PlainLiteral(s: string, i: nat, text: string)
    requires Plain(s) && i <= |s| && text == s[..i]
    ensures LiteralFrom(s, i, text) == Piece(s, |s|)
    decreases |s| - i
  {
    if i < |s| {
      assert s[..i + 1] == s[..i] + [s[i]];
      PlainLiteral(s, i + 1, text + [s[i]]);
    } else {
      assert s[..|s|] == s;
    }
  }

  /** A string without wildcards is one literal. */
  lemma PlainTokens(s: string, dotted: bool, cased: bool)
    requires Plain(s)
    ensures TokensFrom(s, 0, [], dotted, cased) == Tokens(if s == "" then [] else [Literal(s)], None)
  {
    if s != "" {
      PlainLiteral(s, 0, "");
      assert [] + [Literal(s)] == [Literal(s)];
    }
  }

  /** For a pattern without wildcards, matching is equality: what makes a plain comparison an option. */
  lemma PlainIsEquality(s: string, line: string, dotted: bool)
    requires Plain(s)
    ensures Accepts(Enclosed(TokensFrom(s, 0, [], dotted, true).elems, true), 0, line, true) <==> line == s
  {
    PlainTokens(s, dotted, true);
    LiteralIsEquality(s, line);
    EndAccepts([End], line, true);
    assert Enclosed([], true) == [End];
    assert Enclosed([Literal(s)], true) == [Literal(s), End];
  }

  lemma LiteralIsEquality(s: string, line: string)
    ensures Accepts([Literal(s), End], 0, line, true) <==> line == s
  {
    var pattern := [Literal(s), End];
    if Accepts(pattern, 0, line, true) {
      var n := CutOf(pattern, 0, line, true);
      EndAccepts(pattern, line[n..], true);
      assert line[..n] == line;
      assert forall i :: 0 <= i < |line| ==> SameChar(line[i], s[i], true);
    }
    if line == s {
      assert line[..|s|] == s && line[|s|..] == "";
      EndAccepts(pattern, "", true);
      CutAccepts(pattern, 0, line, true, |s|);
    }
  }

  ghost predicate OccursAt(s: string, line: string, i: int) {
    0 <= i <= |line| - |s| && line[i..i + |s|] == s
  }

  /** In substring mode, a pattern without wildcards matches the lines it occurs in. */
  lemma PlainIsSubstring(s: string, line: string, dotted: bool)
    requires Plain(s)
    ensures Accepts(Enclosed(TokensFrom(s, 0, [], dotted, true).elems, false), 0, line, true)
      <==> exists i :: OccursAt(s, line, i)
  {
    PlainTokens(s, dotted, true);
    if s == "" {
      assert Enclosed([], false) == [AnySeq, End];
      FinalAnySeq([AnySeq, End], line, true);
      assert OccursAt(s, line, 0);
    } else {
      assert Enclosed([Literal(s)], false) == [AnySeq, Literal(s), AnySeq, End];
      LiteralIsSubstring(s, line);
    }
  }

  lemma LiteralIsSubstring(s: string, line: string)
    ensures Accepts([AnySeq, Literal(s), AnySeq, End], 0, line, true) <==> exists i :: OccursAt(s, line, i)
  {
    var pattern := [AnySeq, Literal(s), AnySeq, End];
    if Accepts(pattern, 0, line, true) {
      var n := CutOf(pattern, 0, line, true);
      var m := CutOf(pattern, 1, line[n..], true);
      var piece := line[n..][..m];
      assert forall i :: 0 <= i < |s| ==> SameChar(piece[i], s[i], true);
      assert piece == s && line[n..n + m] == piece;
      assert OccursAt(s, line, n);
    }
    if exists i :: OccursAt(s, line, i) {
      var i :| OccursAt(s, line, i);
      assert line[i..][..|s|] == line[i..i + |s|] == s;
      FinalAnySeq(pattern, line[i..][|s|..], true);
      CutAccepts(pattern, 1, line[i..], true, |s|);
      CutAccepts(pattern, 0, line, true, i);
    }
  }

  // ------------------------------------------------------------------ quoting

  /** Every character behind a backslash. */
  function Quote(s: string): (q: string)
    ensures |q| == 2 * |s|
  {
    if s == "" then "" else ['\\', s[0]] + Quote(s[1..])
  }

  lemma {:induction false} QuoteAt(s: string, i: nat)
    requires i < |s|
    ensures Quote(s)[2 * i] == '\\' && Quote(s)[2 * i + 1] == s[i]
  {
    if i > 0 { QuoteAt(s[1..], i - 1); }
  }

  lemma {:induction false} QuotedLiteral(s: string, i: nat, text: string)
    requires i <= |s| && text == s[..i]
    ensures LiteralFrom(Quote(s), 2 * i, text) == Piece(s, |Quote(s)|)
    decreases |s| - i
  {
    if i < |s| {
      var q := Quote(s);
      QuoteAt(s, i);
      if i + 1 < |s| { QuoteAt(s, i + 1); }
      assert DigitsEnd(q, 2 * i + 2) == 2 * i + 2;
      assert s[..i + 1] == s[..i] + [s[i]];
      QuotedLiteral(s, i + 1, text + [s[i]]);
    } else {
      assert s[..|s|] == s;
    }
  }

  /** Quoting takes away every special meaning. */
  lemma QuotedIsEquality(s: string, line: string, dotted: bool)
    ensures Accepts(Enclosed(TokensFrom(Quote(s), 0, [], dotted, true).elems, true), 0, line, true) <==> line == s
  {
    if s == "" {
      EndAccepts([End], line, true);
      assert Enclosed([], true) == [End];
    } else {
      QuoteAt(s, 0);
      QuotedLiteral(s, 0, "");
      var none: seq<Elem> := [];
      assert none + [Literal(s)] == [Literal(s)];
      assert TokensFrom(Quote(s), 0, [], dotted, true).elems == [Literal(s)];
      assert Enclosed([Literal(s)], true) == [Literal(s), End];
      LiteralIsEquality(s, line);
    }
  }

  /** A single backslash does not take away that of a "[" followed by a range. */
  lemma BackslashBracket()
    ensures TokensFrom("\\[1..2]", 0, [], true, true).elems == [Literal("["), NumRange(1, 2), Literal("]")]
  {
    var s := "\\[1..2]";
    assert s[2..3] == "1" && s[5..6] == "2" && "1"[..0] == "" && "2"[..0] == "";
    assert DigitsEnd(s, 2) == 3 && DigitsEnd(s, 5) == 6;
    assert Number(s[2..3]) == 1 && Number(s[5..6]) == 2;
    assert RangeAt(s, 1, ']') == Some(Span(1, 2, 6));
    assert LiteralFrom(s, 0, "") == Piece("[", 1);
    assert LiteralFrom(s, 6, "") == Piece("]", 7);
    var one := [Literal("[")];
    assert TokensFrom(s, 0, [], true, true) == TokensFrom(s, 1, [] + [Literal("[")], true, true);
    assert [] + [Literal("[")] == one;
    assert TokenAt(s, 1, true, true, true) == Token(NumRange(1, 2), 6);
    assert TokensFrom(s, 1, one, true, true) == TokensFrom(s, 6, one + [NumRange(1, 2)], true, true);
  }
}
