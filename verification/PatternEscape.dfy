/** The usual way to escape a text, a backslash before every special character only, and exactly when it
    works: a backslash does not stop a "[" from opening a number range. */
module PatternEscape {
  import opened Lists
  import opened Optional
  import opened PatternSyntax
  import opened Patterns

  predicate Special(c: char) {
    c == '?' || c == '*' || c == '{' || c == '[' || c == '\\'
  }

  function Mark(c: char): string {
    if Special(c) then ['\\', c] else [c]
  }

  function Escape(s: string): string {
    if s == "" then "" else Escape(s[..|s| - 1]) + Mark(s[|s| - 1])
  }

  /** Where the text of s from i on begins in the escaped text. */
  function Pos(s: string, i: nat): nat
    requires i <= |s|
  {
    if i == 0 then 0 else Pos(s, i - 1) + |Mark(s[i - 1])|
  }

  ghost predicate RangeOpens(s: string, i: int) {
    0 <= i < |s| && s[i] == '[' && RangeAt(s, i, ']').Some?
  }

  /** The guard: no "[" of the text is followed by what would be a number range. */
  ghost predicate NoRange(s: string) {
    forall i :: 0 <= i < |s| ==> !RangeOpens(s, i)
  }

  // ------------------------------------------------------------------ places

  lemma {:induction false} EscapeAdds(a: string, b: string)
    ensures Escape(a + b) == Escape(a) + Escape(b)
  {
    if b == "" {
      assert a + b == a;
    } else {
      assert (a + b)[..|a + b| - 1] == a + b[..|b| - 1];
      EscapeAdds(a, b[..|b| - 1]);
    }
  }

  lemma {:induction false} PosIsLength(s: string, i: nat)
    requires i <= |s|
    ensures Pos(s, i) == |Escape(s[..i])|
  {
    if i > 0 {
      PosIsLength(s, i - 1);
      assert s[..i][..i - 1] == s[..i - 1];
    }
  }

  lemma PosNext(s: string, i: nat)
    requires i < |s|
    ensures Pos(s, i + 1) == Pos(s, i) + |Mark(s[i])| <= |Escape(s)|
    ensures Escape(s)[Pos(s, i)] == if Special(s[i]) then '\\' else s[i]
    ensures Escape(s)[Pos(s, i + 1) - 1] == s[i]
  {
    var a, b := s[..i], s[i + 1..];
    PosIsLength(s, i);
    assert s[..i + 1][..i] == a;
    assert s == s[..i + 1] + b;
    EscapeAdds(s[..i + 1], b);
  }

  lemma PosEnds(s: string)
    ensures Pos(s, 0) == 0 && Pos(s, |s|) == |Escape(s)|
  {
    PosIsLength(s, |s|);
    assert s[..|s|] == s;
  }

  /** Characters that need no backslash look the same at the place they move to. */
  lemma SameAt(s: string, i: nat, c: char)
    requires i <= |s| && !Special(c) && c != '\0'
    ensures Pos(s, i) <= |Escape(s)|
    ensures At(Escape(s), Pos(s, i)) == c <==> At(s, i) == c
    ensures At(s, i) == c ==> Pos(s, i + 1) == Pos(s, i) + 1
  {
    if i < |s| { PosNext(s, i); } else { PosEnds(s); }
  }

  lemma {:induction false} SameDigits(s: string, i: nat)
    requires i <= |s|
    ensures Pos(s, i) <= |Escape(s)|
    ensures DigitsEnd(Escape(s), Pos(s, i)) == Pos(s, DigitsEnd(s, i))
    decreases |s| - i
  {
    if i < |s| {
      PosNext(s, i);
      if IsDigit(s[i]) { SameDigits(s, i + 1); }
    } else {
      PosEnds(s);
    }
  }

  /** What follows the first number of a range. */
  lemma SameDots(s: string, a: nat)
    requires a <= |s|
    ensures Pos(s, a) <= |Escape(s)|
    ensures At(Escape(s), Pos(s, a)) == '.' && At(Escape(s), Pos(s, a) + 1) == '.'
      <==> At(s, a) == '.' && At(s, a + 1) == '.'
    ensures At(s, a) == '.' && At(s, a + 1) == '.' ==> a + 2 <= |s| && Pos(s, a + 2) == Pos(s, a) + 2
  {
    SameAt(s, a, '.');
    if At(s, a) == '.' { SameAt(s, a + 1, '.'); }
  }

  /** Where a range whose first number begins at i is closed, or -1. */
  ghost function CloseOf(s: string, i: nat): int
    requires i <= |s|
  {
    CloseAfter(s, DigitsEnd(s, i))
  }

  ghost function CloseAfter(s: string, a: nat): int {
    if At(s, a) == '.' && At(s, a + 1) == '.' then CloseBehind(s, a + 2) else -1
  }

  ghost function CloseBehind(s: string, i: nat): int
    requires i <= |s|
  {
    var b := DigitsEnd(s, i);
    if At(s, b) == ']' then b else -1
  }

  lemma SameCloseBehind(s: string, i: nat)
    requires i <= |s|
    ensures Pos(s, i) <= |Escape(s)| && CloseBehind(s, i) <= |s|
    ensures var c := CloseBehind(s, i); CloseBehind(Escape(s), Pos(s, i)) == if c >= 0 then Pos(s, c) else -1
  {
    SameDigits(s, i);
    SameAt(s, DigitsEnd(s, i), ']');
  }

  lemma CloseOfRange(s: string, i: nat)
    requires i < |s|
    ensures var r := RangeAt(s, i, ']');
      && (r.Some? <==> CloseOf(s, i + 1) >= 0)
      && (r.Some? ==> i < r.value.close < |s| && s[r.value.close] == ']' && r.value.close == CloseOf(s, i + 1))
  {
  }

  lemma SameCloseAfter(s: string, a: nat)
    requires a <= |s|
    ensures Pos(s, a) <= |Escape(s)| && CloseAfter(s, a) <= |s|
    ensures var c := CloseAfter(s, a); CloseAfter(Escape(s), Pos(s, a)) == if c >= 0 then Pos(s, c) else -1
  {
    SameDots(s, a);
    if At(s, a) == '.' && At(s, a + 1) == '.' { SameCloseBehind(s, a + 2); }
  }

  lemma SameCloseOf(s: string, i: nat)
    requires i <= |s|
    ensures Pos(s, i) <= |Escape(s)| && CloseOf(s, i) <= |s|
    ensures var c := CloseOf(s, i); CloseOf(Escape(s), Pos(s, i)) == if c >= 0 then Pos(s, c) else -1
  {
    SameDigits(s, i);
    SameCloseAfter(s, DigitsEnd(s, i));
  }

  /** A range is read from the escaped text exactly where one is read from the text itself. */
  lemma SameRange(s: string, i: nat, at: nat)
    requires i < |s| && at + 1 == Pos(s, i + 1) && at < |Escape(s)|
    ensures var r, q := RangeAt(s, i, ']'), RangeAt(Escape(s), at, ']');
      && (r.Some? <==> q.Some?)
      && (r.Some? ==> i < r.value.close < |s| && s[r.value.close] == ']' && q.value.close == Pos(s, r.value.close))
  {
    CloseOfRange(s, i);
    CloseOfRange(Escape(s), at);
    SameCloseOf(s, i + 1);
  }

  // ------------------------------------------------------------------ literals

  /** How a literal goes on at a backslash, and at what is not special. */
  lemma LiteralStep(e: string, p: nat, text: string)
    requires p < |e|
    ensures var opens := p + 1 < |e| && e[p + 1] == '[' && RangeAt(e, p + 1, ']').Some?;
      && (e[p] == '\\' && opens ==> LiteralFrom(e, p, text) == Piece(text + [e[p + 1]], p + 1))
      && (e[p] == '\\' && p + 1 < |e| && !opens ==> LiteralFrom(e, p, text) == LiteralFrom(e, p + 2, text + [e[p + 1]]))
    ensures !Special(e[p]) ==> LiteralFrom(e, p, text) == LiteralFrom(e, p + 1, text + [e[p]])
  {
  }

  /** One character of the text, with its backslash if it has one, is read into a literal. */
  lemma OneCharacter(s: string, i: nat, text: string)
    requires i < |s|
    ensures Pos(s, i) < |Escape(s)| && Pos(s, i + 1) <= |Escape(s)|
    ensures LiteralFrom(Escape(s), Pos(s, i), text)
         == if RangeOpens(s, i) then Piece(text + [s[i]], Pos(s, i + 1) - 1)
            else LiteralFrom(Escape(s), Pos(s, i + 1), text + [s[i]])
  {
    PosNext(s, i);
    SameRange(s, i, Pos(s, i + 1) - 1);
    LiteralStep(Escape(s), Pos(s, i), text);
  }

  /** Up to where the next range opens, if one does. */
  ghost predicate FirstRange(s: string, i: nat, f: nat) {
    && i <= f < |s| && RangeOpens(s, f)
    && forall j :: i <= j < f ==> !RangeOpens(s, j)
  }

  lemma {:induction false} LiteralToRange(s: string, start: nat, i: nat, f: nat)
    requires start <= i && FirstRange(s, i, f)
    ensures Pos(s, i) <= |Escape(s)|
    ensures LiteralFrom(Escape(s), Pos(s, i), s[start..i]) == Piece(s[start..f + 1], Pos(s, f + 1) - 1)
    decreases f - i
  {
    hide LiteralFrom, Escape;
    if i < f {
      assert !RangeOpens(s, i) && FirstRange(s, i + 1, f);
      NextCharacter(s, start, i);
      LiteralToRange(s, start, i + 1, f);
    } else {
      RangeCharacter(s, start, i);
    }
  }

  lemma NextCharacter(s: string, start: nat, i: nat)
    requires start <= i < |s| && !RangeOpens(s, i)
    ensures Pos(s, i) < |Escape(s)| && Pos(s, i + 1) <= |Escape(s)|
    ensures LiteralFrom(Escape(s), Pos(s, i), s[start..i]) == LiteralFrom(Escape(s), Pos(s, i + 1), s[start..i + 1])
  {
    SliceNext(s, start, i);
    OneCharacter(s, i, s[start..i]);
  }

  lemma RangeCharacter(s: string, start: nat, i: nat)
    requires start <= i < |s| && RangeOpens(s, i)
    ensures Pos(s, i) < |Escape(s)|
    ensures LiteralFrom(Escape(s), Pos(s, i), s[start..i]) == Piece(s[start..i + 1], Pos(s, i + 1) - 1)
  {
    SliceNext(s, start, i);
    OneCharacter(s, i, s[start..i]);
  }

  lemma {:induction false} LiteralToEnd(s: string, start: nat, i: nat)
    requires start <= i <= |s| && forall j :: i <= j < |s| ==> !RangeOpens(s, j)
    ensures Pos(s, i) <= |Escape(s)|
    ensures LiteralFrom(Escape(s), Pos(s, i), s[start..i]) == Piece(s[start..], |Escape(s)|)
    decreases |s| - i
  {
    if i < |s| {
      NextCharacter(s, start, i);
      LiteralToEnd(s, start, i + 1);
    } else {
      PosEnds(s);
      assert s[start..i] == s[start..];
    }
  }

  lemma {:induction false} NextRange(s: string, i: nat) returns (f: nat)
    requires i <= |s|
    ensures f <= |s|
    ensures f < |s| ==> FirstRange(s, i, f)
    ensures f == |s| ==> forall j :: i <= j < |s| ==> !RangeOpens(s, j)
    decreases |s| - i
  {
    if i == |s| || RangeOpens(s, i) { f := i; } else { f := NextRange(s, i + 1); }
  }

  // ------------------------------------------------------------------ all tokens

  /** At the place of a character the escaped text begins no wildcard. */
  lemma LiteralHere(s: string, i: nat, elems: seq<Elem>, dotted: bool)
    requires i < |s|
    ensures Pos(s, i) < |Escape(s)|
    ensures TokenAt(Escape(s), Pos(s, i), AfterLiteral(elems), dotted, true) == LiteralToken(Escape(s), Pos(s, i))
  {
    PosNext(s, i);
  }

  /** Tokens are only added. */
  lemma {:induction false} TokensExtend(s: string, i: nat, elems: seq<Elem>, dotted: bool, cased: bool)
    requires i <= |s|
    ensures elems <= TokensFrom(s, i, elems, dotted, cased).elems
    decreases |s| - i, if AfterLiteral(elems) then 0 else 1
  {
    if i < |s| {
      TokenAdvances(s, i, AfterLiteral(elems), dotted, cased);
      match TokenAt(s, i, AfterLiteral(elems), dotted, cased)
      case Bad(_) =>
      case Token(elem, next) => TokensExtend(s, next, elems + [elem], dotted, cased);
    }
  }

  lemma OneToken(e: string, i: nat, elems: seq<Elem>, dotted: bool, elem: Elem, next: nat)
    requires i < next <= |e| && TokenAt(e, i, AfterLiteral(elems), dotted, true) == Token(elem, next)
    ensures TokensFrom(e, i, elems, dotted, true) == TokensFrom(e, next, elems + [elem], dotted, true)
  {
    TokenAdvances(e, i, AfterLiteral(elems), dotted, true);
  }

  lemma LiteralUpTo(s: string, i: nat, f: nat, elems: seq<Elem>, dotted: bool)
    requires FirstRange(s, i, f)
    ensures Pos(s, i) < Pos(s, f + 1) - 1 <= |Escape(s)|
    ensures TokenAt(Escape(s), Pos(s, i), AfterLiteral(elems), dotted, true)
         == Token(Literal(s[i..f + 1]), Pos(s, f + 1) - 1)
  {
    hide Escape;
    LiteralHere(s, i, elems, dotted);
    assert s[i..i] == "";
    LiteralToRange(s, i, i, f);
    TokenAdvances(Escape(s), Pos(s, i), AfterLiteral(elems), dotted, true);
  }

  lemma RangeFollows(s: string, f: nat, dotted: bool) returns (range: Elem, close: nat)
    requires f < |s| && RangeOpens(s, f)
    ensures range.NumRange? && f < close < |s| && s[close] == ']' && RangeAt(s, f, ']').value.close == close
    ensures Pos(s, f + 1) - 1 < Pos(s, close) <= |Escape(s)|
    ensures TokenAt(Escape(s), Pos(s, f + 1) - 1, true, dotted, true) == Token(range, Pos(s, close))
  {
    hide CloseOf, CloseAfter, Escape;
    var e, at := Escape(s), Pos(s, f + 1) - 1;
    PosNext(s, f);
    SameRange(s, f, at);
    var q := RangeAt(e, at, ']').value;
    range, close := NumRange(q.from, q.to), RangeAt(s, f, ']').value.close;
    TokenAdvances(e, at, true, dotted, true);
  }

  /** The literal up to a "[" and the range that it opens. */
  lemma TwoTokens(s: string, i: nat, f: nat, elems: seq<Elem>, dotted: bool) returns (range: Elem, close: nat)
    requires FirstRange(s, i, f)
    ensures range.NumRange? && f < close < |s| && s[close] == ']' && RangeAt(s, f, ']').value.close == close
    ensures Pos(s, i) <= |Escape(s)| && Pos(s, close) <= |Escape(s)|
    ensures TokensFrom(Escape(s), Pos(s, i), elems, dotted, true)
         == TokensFrom(Escape(s), Pos(s, close), elems + [Literal(s[i..f + 1])] + [range], dotted, true)
  {
    hide TokensFrom, TokenAt, Escape, Pos;
    var e, literal := Escape(s), Literal(s[i..f + 1]);
    LiteralUpTo(s, i, f, elems, dotted);
    range, close := RangeFollows(s, f, dotted);
    OneToken(e, Pos(s, i), elems, dotted, literal, Pos(s, f + 1) - 1);
    assert AfterLiteral(elems + [literal]);
    OneToken(e, Pos(s, f + 1) - 1, elems + [literal], dotted, range, Pos(s, close));
  }

  lemma LastToken(s: string, i: nat, elems: seq<Elem>, dotted: bool)
    requires i < |s| && forall j :: i <= j < |s| ==> !RangeOpens(s, j)
    ensures Pos(s, i) <= |Escape(s)|
    ensures TokensFrom(Escape(s), Pos(s, i), elems, dotted, true) == Tokens(elems + [Literal(s[i..])], None)
  {
    LiteralHere(s, i, elems, dotted);
    assert s[i..i] == "";
    LiteralToEnd(s, i, i);
  }

  /** An escaped text is never in error. */
  lemma {:induction false} EscapedNoError(s: string, i: nat, elems: seq<Elem>, dotted: bool)
    requires i <= |s|
    ensures Pos(s, i) <= |Escape(s)|
    ensures TokensFrom(Escape(s), Pos(s, i), elems, dotted, true).error == None
    decreases |s| - i
  {
    PosEnds(s);
    if i < |s| {
      var f := NextRange(s, i);
      if f < |s| {
        var range, close := TwoTokens(s, i, f, elems, dotted);
        EscapedNoError(s, close, elems + [Literal(s[i..f + 1])] + [range], dotted);
      } else {
        LastToken(s, i, elems, dotted);
      }
    }
  }

  // ------------------------------------------------------------------ exactly when escaping works

  /** The pattern that the matcher makes of the escaped text. */
  ghost function Escaped(s: string, dotted: bool): seq<Elem> {
    Enclosed(TokensFrom(Escape(s), 0, [], dotted, true).elems, true)
  }

  lemma EscapedPlain(s: string, dotted: bool)
    requires NoRange(s) && s != ""
    ensures Escaped(s, dotted) == [Literal(s), End]
  {
    PosEnds(s);
    LastToken(s, 0, [], dotted);
    assert [] + [Literal(s[0..])] == [Literal(s)];
  }

  lemma EscapedRange(s: string, f: nat, dotted: bool)
    requires FirstRange(s, 0, f)
    ensures var p := Escaped(s, dotted);
      && |p| >= 4 && p[0] == Literal(s[..f + 1]) && p[1].NumRange?
      && p[2].Literal? && p[2].text != "" && p[2].text[0] == ']'
  {
    PosEnds(s);
    var none := [];
    var range, close := TwoTokens(s, 0, f, none, dotted);
    var two := none + [Literal(s[0..f + 1])] + [range];
    var third := ThirdToken(s, close, two, dotted);
    assert (two + [third])[0] == Literal(s[..f + 1]) && (two + [third])[1] == range && (two + [third])[2] == third;
  }

  /** The token at a "]" is a literal. */
  lemma ThirdToken(s: string, close: nat, elems: seq<Elem>, dotted: bool) returns (third: Elem)
    requires close < |s| && s[close] == ']'
    ensures Pos(s, close) <= |Escape(s)|
    ensures elems + [third] <= TokensFrom(Escape(s), Pos(s, close), elems, dotted, true).elems
    ensures third.Literal? && third.text != "" && third.text[0] == ']'
  {
    PosNext(s, close);
    EscapedNoError(s, close, elems, dotted);
    LiteralHere(s, close, elems, dotted);
    OneCharacter(s, close, "");
    LiteralGrows(Escape(s), Pos(s, close + 1), "" + [']']);
    var t := LiteralToken(Escape(s), Pos(s, close));
    assert t.Token?;
    third := t.elem;
    TokensExtend(Escape(s), t.next, elems + [third], dotted, true);
  }

  lemma {:induction false} LiteralGrows(s: string, i: nat, text: string)
    requires i <= |s|
    ensures LiteralFrom(s, i, text).Piece? ==> text <= LiteralFrom(s, i, text).text
    decreases |s| - i
  {
    if i < |s| {
      var j := if s[i] == '\\' then i + 1 else i;
      if j < |s| { LiteralGrows(s, j + 1, text + [s[j]]); }
    }
  }

  /** A pattern with a range in it does not even match the text it was made from. */
  lemma RangeRejects(s: string, f: nat, pattern: seq<Elem>)
    requires FirstRange(s, 0, f) && |pattern| >= 3
    requires pattern[0] == Literal(s[..f + 1]) && pattern[1].NumRange?
    requires pattern[2].Literal? && pattern[2].text != "" && pattern[2].text[0] == ']'
    ensures !Accepts(pattern, 0, s, true)
  {
    if Accepts(pattern, 0, s, true) {
      var n := CutOf(pattern, 0, s, true);
      assert n == f + 1;
      var t := s[n..];
      var m := CutOf(pattern, 1, t, true);
      var l := CutOf(pattern, 2, t[m..], true);
      assert t[m..][..l][0] == ']' == s[n + m];
      DigitsThenDots(s, f, m);
    }
  }

  /** Behind the digits after the "[" comes a dot, not a "]". */
  lemma DigitsThenDots(s: string, f: nat, m: nat)
    requires RangeOpens(s, f) && f + 1 + m < |s| && AllDigits(s[f + 1..][..m])
    ensures s[f + 1 + m] != ']'
  {
    DigitsReach(s, f + 1, m);
    var a := DigitsEnd(s, f + 1);
    if f + 1 + m < a { assert s[f + 1..a][m] == s[f + 1 + m]; }
  }

  lemma {:induction false} DigitsReach(s: string, i: nat, m: nat)
    requires i + m <= |s| && AllDigits(s[i..][..m])
    ensures DigitsEnd(s, i) >= i + m
    decreases m
  {
    if m > 0 {
      assert s[i..][..m][0] == s[i];
      assert s[i + 1..][..m - 1] == s[i..][..m][1..];
      DigitsReach(s, i + 1, m - 1);
    }
  }

  ghost predicate MatchesOnly(pattern: seq<Elem>, s: string) {
    forall line: string :: Accepts(pattern, 0, line, true) <==> line == s
  }

  /** The pattern made by escaping is never in error, and it matches the text and nothing else exactly when no
      "[" of the text is followed by what makes a number range; otherwise it does not match the text at all. */
  lemma EscapeWorksIff(s: string, dotted: bool)
    ensures TokensFrom(Escape(s), 0, [], dotted, true).error == None
    ensures MatchesOnly(Escaped(s, dotted), s) <==> NoRange(s)
    ensures Accepts(Escaped(s, dotted), 0, s, true) <==> NoRange(s)
  {
    PosEnds(s);
    EscapedNoError(s, 0, [], dotted);
    var f := NextRange(s, 0);
    if f < |s| {
      EscapedRange(s, f, dotted);
      RangeRejects(s, f, Escaped(s, dotted));
    } else {
      EscapedMatches(s, dotted);
    }
  }

  lemma EscapedMatches(s: string, dotted: bool)
    requires NoRange(s)
    ensures MatchesOnly(Escaped(s, dotted), s)
  {
    if s == "" {
      assert Escaped(s, dotted) == [End];
      forall line: string ensures Accepts([End], 0, line, true) <==> line == s { EndAccepts([End], line, true); }
    } else {
      EscapedPlain(s, dotted);
      forall line: string ensures Accepts([Literal(s), End], 0, line, true) <==> line == s {
        LiteralIsEquality(s, line);
      }
    }
  }
}
