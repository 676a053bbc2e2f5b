/** The glob matcher: a recursive search over elements with shortcuts for common patterns. */
module PatternMatcher {
  import opened Optional
  import opened PatternFill
  import opened PatternSyntax
  import opened Patterns

  class PatternMatcher {
    var pattern: seq<Elem>
    var isCaseSensitive: bool

    constructor ()
      ensures pattern == [] && !isCaseSensitive
    {
      pattern, isCaseSensitive := [], false;
    }

    // ---------------------------------------------------------------- setting the pattern

    method ParseNumRange(s: string, i: nat, closing: char) returns (r: Option<Span>)
      requires i < |s| && closing != '\0'
      ensures r == RangeAt(s, i, closing)
    {
      var lo: int, up: int := -1, -1;
      var j := SkipDigitsAt(s, i + 1);
      if j > i + 1 {
        lo := ToNumber(s[i + 1..j]);
      }
      if At(s, j) != '.' || At(s, j + 1) != '.' {
        return None;
      }
      var k := SkipDigitsAt(s, j + 2);
      if k > j + 2 {
        up := ToNumber(s[j + 2..k]);
      }
      if At(s, k) != closing {
        return None;
      }
      r := Some(Span(lo, up, k));
    }

    method SkipDigitsAt(s: string, i: nat) returns (j: nat)
      requires i <= |s|
      ensures j == DigitsEnd(s, i)
    {
      j := i;
      while j < |s| && IsDigit(s[j])
        invariant i <= j <= |s| && DigitsEnd(s, j) == DigitsEnd(s, i)
      {
        j := j + 1;
      }
    }

    method ParseLiteralString(s: string, i: nat) returns (p: Piece)
      requires i <= |s|
      ensures p == LiteralFrom(s, i, "")
    {
      var j, text := i, "";
      while j < |s| && s[j] != '?' && s[j] != '{' && s[j] != '*'
        invariant i <= j <= |s| && LiteralFrom(s, j, text) == LiteralFrom(s, i, "")
        decreases |s| - j
      {
        if s[j] == '\\' {
          j := j + 1;
          if j == |s| {
            return Dangling;
          }
        }
        text := text + [s[j]];
        if s[j] == '[' {
          var range := ParseNumRange(s, j, ']');
          if range.Some? {
            return Piece(text, j);
          }
        }
        j := j + 1;
      }
      p := Piece(text, j);
    }

    method ParseSet(s: string, i: nat) returns (t: Token)
      requires i < |s|
      ensures t == SetToken(s, i, isCaseSensitive)
    {
      var j, negated := i + 1, false;
      if At(s, j) == '^' {
        negated := true;
        j := j + 1;
      }
      var sbeg, ranges := j, [];
      while j < |s| && (s[j] != '}' || j == sbeg)
        invariant sbeg <= j <= |s|
        invariant SetFrom(s, j, sbeg, ranges, isCaseSensitive) == SetFrom(s, sbeg, sbeg, [], isCaseSensitive)
      {
        if At(s, j + 1) == '-' && j + 2 < |s| && s[j + 2] != '}' {
          ranges := ranges + [(Case(s[j], isCaseSensitive), Case(s[j + 2], isCaseSensitive))];
          j := j + 3;
        } else {
          ranges := ranges + [(Case(s[j], isCaseSensitive), Case(s[j], isCaseSensitive))];
          j := j + 1;
        }
      }
      if j == |s| {
        return Bad(UnmatchedBrace);
      }
      t := Token(if negated then NegSet(ranges) else Set(ranges), j + 1);
    }

    method NextToken(s: string, i: nat, afterLiteral: bool, dotted: bool) returns (t: Token)
      requires i < |s|
      ensures t == TokenAt(s, i, afterLiteral, dotted, isCaseSensitive)
    {
      match s[i] {
        case '?' => t := Token(if dotted then CommonChar else AnyChar, i + 1);
        case '[' =>
          var r := ParseNumRange(s, i, ']');
          if afterLiteral && r.Some? {
            t := Token(NumRange(r.value.from, r.value.to), r.value.close);
          } else {
            t := NextLiteral(s, i);
          }
        case '{' =>
          var r := ParseNumRange(s, i, '}');
          if r.Some? {
            t := Token(NumRange(r.value.from, r.value.to), r.value.close + 1);
          } else {
            t := ParseSet(s, i);
          }
        case '*' =>
          if At(s, i + 1) == '*' {
            t := Token(AnySeq, i + 2);
          } else {
            t := Token(if dotted then CommonSeq else AnySeq, i + 1);
          }
        case _ => t := NextLiteral(s, i);
      }
    }

    method NextLiteral(s: string, i: nat) returns (t: Token)
      requires i <= |s|
      ensures t == LiteralToken(s, i)
    {
      var p := ParseLiteralString(s, i);
      match p {
        case Piece(text, next) => t := Token(Literal(text), next);
        case Dangling => t := Bad(TrailingBackslash);
      }
    }

    /** An error stands for the exception on an unmatched brace, or for reading past a final backslash. */
    method SetPattern(patt: string, dottedPath: bool, fullString: bool, caseSensitive: bool)
      returns (error: Option<Error>)
      modifies this
      ensures isCaseSensitive == caseSensitive
      ensures var t := TokensFrom(patt, 0, [], dottedPath, caseSensitive);
        error == t.error && pattern == if error.None? then Enclosed(t.elems, fullString) else t.elems
      ensures error.None? ==> Ended(pattern)
    {
      pattern := [];
      isCaseSensitive := caseSensitive;
      ghost var all := TokensFrom(patt, 0, [], dottedPath, caseSensitive);
      TokensNoEnd(patt, 0, [], dottedPath, caseSensitive);
      var i := 0;
      while i < |patt|
        invariant 0 <= i <= |patt| && isCaseSensitive == caseSensitive
        invariant TokensFrom(patt, i, pattern, dottedPath, caseSensitive) == all
        decreases |patt| - i, if AfterLiteral(pattern) then 0 else 1
      {
        TokenAdvances(patt, i, AfterLiteral(pattern), dottedPath, caseSensitive);
        var t := NextToken(patt, i, AfterLiteral(pattern), dottedPath);
        if t.Bad? {
          return Some(t.error);
        }
        pattern := pattern + [t.elem];
        i := t.next;
      }
      EnclosedEnded(pattern, fullString);
      Enclose(fullString);
      error := None;
    }

    method Enclose(fullString: bool)
      modifies this`pattern
      ensures pattern == Enclosed(old(pattern), fullString)
    {
      if !fullString {
        if pattern == [] || pattern[|pattern| - 1] != AnySeq {
          pattern := pattern + [AnySeq];
        }
        if pattern[0] != AnySeq {
          pattern := [AnySeq] + pattern;
        }
      }
      pattern := pattern + [End];
    }

    // ---------------------------------------------------------------- matching

    method IsInSet(c: char, ranges: seq<(char, char)>) returns (r: bool)
      ensures r == InSet(c, ranges, isCaseSensitive)
    {
      var x := if isCaseSensitive then c else Upper(c);
      var i := 0;
      while i < |ranges|
        invariant 0 <= i <= |ranges|
        invariant forall j :: 0 <= j < i ==> !InRange(x, ranges[j])
      {
        if ranges[i].0 <= x && x <= ranges[i].1 {
          assert ranges[i] in ranges && InRange(x, ranges[i]);
          return true;
        }
        i := i + 1;
      }
      r := false;
    }

    /** strncmp or strncasecmp with the length of the literal */
    method StartsWith(s: string, text: string) returns (r: bool)
      ensures r == (|s| >= |text| && SameText(s[..|text|], text, isCaseSensitive))
    {
      var i := 0;
      while i < |text|
        invariant 0 <= i <= |text| && i <= |s|
        invariant forall j :: 0 <= j < i ==> SameChar(s[j], text[j], isCaseSensitive)
      {
        if i >= |s| || !SameChar(s[i], text[i], isCaseSensitive) {
          if i < |s| && |text| <= |s| { assert s[..|text|][i] == s[i]; }
          return false;
        }
        i := i + 1;
      }
      r := true;
    }

    /** The length of the digits s begins with. */
    method SkipDigits(s: string) returns (n: nat)
      ensures n <= |s| && AllDigits(s[..n]) && (n < |s| ==> !IsDigit(s[n]))
    {
      n := 0;
      while n < |s| && IsDigit(s[n])
        invariant 0 <= n <= |s| && AllDigits(s[..n])
      {
        n := n + 1;
      }
    }

    /** atol on digits */
    method ToNumber(s: string) returns (num: nat)
      requires AllDigits(s)
      ensures num == Number(s)
    {
      num := 0;
      var i := 0;
      while i < |s|
        invariant 0 <= i <= |s| && num == Number(s[..i])
      {
        assert s[..i + 1][..i] == s[..i];
        num := num * 10 + (s[i] as int - 48);
        i := i + 1;
      }
      assert s[..i] == s;
    }

    method TakeLiteral(s: string, k: nat) returns (ok: bool, n: nat)
      requires k < |pattern| && pattern[k].Literal?
      ensures ok ==>
          && n <= |s|
          && (Accepts(pattern, k, s, isCaseSensitive) <==> Accepts(pattern, k + 1, s[n..], isCaseSensitive))
      ensures !ok ==> !Accepts(pattern, k, s, isCaseSensitive)
    {
      ok := StartsWith(s, pattern[k].text);
      n := |pattern[k].text|;
      if ok {
        OnlyCut(pattern, k, s, isCaseSensitive, n);
      } else {
        NoCut(pattern, k, s, isCaseSensitive);
      }
    }

    /** Elements for a single character. */
    method TakeOne(s: string, k: nat) returns (ok: bool)
      requires k < |pattern|
      requires pattern[k] == AnyChar || pattern[k] == CommonChar || pattern[k].Set? || pattern[k].NegSet?
      ensures ok ==>
          && s != ""
          && (Accepts(pattern, k, s, isCaseSensitive) <==> Accepts(pattern, k + 1, s[1..], isCaseSensitive))
      ensures !ok ==> !Accepts(pattern, k, s, isCaseSensitive)
    {
      if s == "" {
        NoCut(pattern, k, s, isCaseSensitive);
        return false;
      }
      match pattern[k] {
        case AnyChar => ok := true;
        case CommonChar => ok := s[0] != '.';
        case Set(ranges) => ok := IsInSet(s[0], ranges);
        case NegSet(ranges) =>
          var inSet := IsInSet(s[0], ranges);
          ok := !inSet;
      }
      OnlyCut(pattern, k, s, isCaseSensitive, 1);
      assert s[..1] == [s[0]];
    }

    method TakeNumber(s: string, k: nat) returns (ok: bool, n: nat)
      requires k < |pattern| && pattern[k].NumRange?
      ensures ok ==>
          && n <= |s|
          && (Accepts(pattern, k, s, isCaseSensitive) <==> Accepts(pattern, k + 1, s[n..], isCaseSensitive))
      ensures !ok ==> !Accepts(pattern, k, s, isCaseSensitive)
    {
      n := SkipDigits(s);
      MaximalRun(pattern, k, s, isCaseSensitive, n);
      if n == 0 {
        return false, 0;
      }
      var num := ToNumber(s[..n]);
      ok := Between(num, pattern[k].from, pattern[k].to);
    }

    method DoMatch(s0: string, k0: nat) returns (r: bool)
      requires Ended(pattern) && k0 < |pattern|
      ensures r <==> Answer(pattern, k0, s0, isCaseSensitive)
      ensures isCaseSensitive || !TailShortcut(pattern) ==> (r <==> Accepts(pattern, k0, s0, isCaseSensitive))
      decreases |pattern| - k0, 1
    {
      AnswerCased(pattern, k0, s0, isCaseSensitive);
      var s, k := s0, k0;
      while true
        invariant k0 <= k < |pattern|
        invariant Answer(pattern, k0, s0, isCaseSensitive) <==> Answer(pattern, k, s, isCaseSensitive)
        decreases |pattern| - k
      {
        var ok, n := true, 1;
        match pattern[k] {
          case Literal(_) => ok, n := TakeLiteral(s, k);
          case NumRange(_, _) => ok, n := TakeNumber(s, k);
          case AnySeq =>
            r := MatchAnySeq(s, k);
            return;
          case CommonSeq =>
            r := TrySequence(s, k);
            return;
          case End =>
            EndAccepts(pattern, s, isCaseSensitive);
            return s == "";
          case _ => ok := TakeOne(s, k);
        }
        if !ok {
          return false;
        }
        AnswerStep(pattern, k, s, isCaseSensitive, n);
        s := s[n..];
        k := k + 1;
      }
    }

    /** "**", with shortcuts for when nothing or just a literal follows it. */
    method MatchAnySeq(s: string, k: nat) returns (r: bool)
      requires Ended(pattern) && k + 1 < |pattern| && pattern[k] == AnySeq
      ensures r <==> Answer(pattern, k, s, isCaseSensitive)
      decreases |pattern| - k, 0, 1
    {
      if k == |pattern| - 2 {
        FinalAnySeq(pattern, s, isCaseSensitive);
        return true;
      }
      if k == |pattern| - 3 && pattern[k + 1].Literal? {
        FinalLiteral(pattern, s, isCaseSensitive);
        return EndsWith(s, pattern[k + 1].text);
      }
      r := TrySequence(s, k);
    }

    /** Lets a sequence take more and more characters until the rest matches. */
    method TrySequence(s0: string, k: nat) returns (r: bool)
      requires Ended(pattern) && k + 1 < |pattern| && (pattern[k] == AnySeq || pattern[k] == CommonSeq)
      requires TailShortcut(pattern) ==> k != |pattern| - 3
      ensures r <==> Answer(pattern, k, s0, isCaseSensitive)
      decreases |pattern| - k, 0, 0
    {
      var s := s0;
      while true
        invariant Answer(pattern, k, s0, isCaseSensitive) <==> Answer(pattern, k, s, isCaseSensitive)
        decreases |s|
      {
        AnswerSequence(pattern, k, s, isCaseSensitive);
        var found := DoMatch(s, k + 1);
        if found {
          return true;
        }
        if s == "" || (pattern[k] == CommonSeq && s[0] == '.') {
          return false;
        }
        s := s[1..];
      }
    }

    /** Whether the line matches; before the search, in the case-sensitive mode, the last two characters
        are compared with those of a final literal. */
    method Matches(line: string) returns (r: bool)
      requires Ended(pattern)
      ensures r <==> Answer(pattern, 0, line, isCaseSensitive)
      ensures isCaseSensitive || !TailShortcut(pattern) ==> (r <==> Accepts(pattern, 0, line, isCaseSensitive))
    {
      if |pattern| >= 2 && isCaseSensitive {
        var e := pattern[|pattern| - 2];
        if e.Literal? {
          var pattLen, lineLen := |e.text|, |line|;
          if pattLen >= 2 && lineLen >= 2
             && (line[lineLen - 1] != e.text[pattLen - 1] || line[lineLen - 2] != e.text[pattLen - 2]) {
            LastTwo(pattern, line);
            return false;
          }
        }
      }
      r := DoMatch(line, 0);
    }
  }

  // ------------------------------------------------------------------ what the search answers

  /** Ends in "**" and a literal: the shortcut for it compares case-sensitively in every mode. */
  ghost predicate TailShortcut(pattern: seq<Elem>) {
    |pattern| >= 3 && pattern[|pattern| - 3] == AnySeq && pattern[|pattern| - 2].Literal?
  }

  /** What the search from element k on answers: a search that comes past the shortcut also wants the
      line to end in the literal as it is written. */
  ghost predicate Answer(pattern: seq<Elem>, k: nat, s: string, cased: bool)
    requires k <= |pattern|
  {
    && Accepts(pattern, k, s, cased)
    && (TailShortcut(pattern) && k <= |pattern| - 3 ==> EndsWith(s, pattern[|pattern| - 2].text))
  }

  /** What is accepted from an element before the shortcut on reaches back over the whole literal. */
  lemma SameTail(pattern: seq<Elem>, k: nat, s: string, cased: bool, n: nat)
    requires Ended(pattern) && TailShortcut(pattern) && k <= |pattern| - 3 && n <= |s|
    requires Accepts(pattern, k, s[n..], cased)
    ensures EndsWith(s[n..], pattern[|pattern| - 2].text) <==> EndsWith(s, pattern[|pattern| - 2].text)
  {
    var text := pattern[|pattern| - 2].text;
    LastLiteral(pattern, k, s[n..], cased);
    assert s[n..][|s| - n - |text|..] == s[|s| - |text|..];
  }

  lemma AnswerStep(pattern: seq<Elem>, k: nat, s: string, cased: bool, n: nat)
    requires Ended(pattern) && k + 1 < |pattern| && n <= |s|
    requires TailShortcut(pattern) ==> k != |pattern| - 3
    requires Accepts(pattern, k, s, cased) <==> Accepts(pattern, k + 1, s[n..], cased)
    ensures Answer(pattern, k, s, cased) <==> Answer(pattern, k + 1, s[n..], cased)
  {
    var t := s[n..];
    if Accepts(pattern, k + 1, t, cased) {
      if TailShortcut(pattern) && k < |pattern| - 3 { SameTail(pattern, k + 1, s, cased, n); }
    } else {
      assert !Answer(pattern, k, s, cased) && !Answer(pattern, k + 1, t, cased);
    }
  }

  lemma AnswerSequence(pattern: seq<Elem>, k: nat, s: string, cased: bool)
    requires Ended(pattern) && k + 1 < |pattern| && (pattern[k] == AnySeq || pattern[k] == CommonSeq)
    requires TailShortcut(pattern) ==> k != |pattern| - 3
    ensures Answer(pattern, k, s, cased) <==>
      || Answer(pattern, k + 1, s, cased)
      || (s != "" && (pattern[k] == CommonSeq ==> s[0] != '.') && Answer(pattern, k, s[1..], cased))
  {
    SequenceStep(pattern, k, s, cased);
    if TailShortcut(pattern) && k < |pattern| - 3 && s != "" && Accepts(pattern, k, s[1..], cased) {
      SameTail(pattern, k, s, cased, 1);
    }
  }

  /** In the case-sensitive mode the shortcut is right. */
  lemma AnswerCased(pattern: seq<Elem>, k: nat, s: string, cased: bool)
    requires Ended(pattern) && k < |pattern|
    ensures cased || !TailShortcut(pattern) ==> (Answer(pattern, k, s, cased) <==> Accepts(pattern, k, s, cased))
  {
    if cased && TailShortcut(pattern) && k <= |pattern| - 3 && Accepts(pattern, k, s, cased) {
      LastLiteral(pattern, k, s, cased);
      EndsLikeCased(s, pattern[|pattern| - 2].text);
    }
  }

  // ------------------------------------------------------------------ when the answer is right

  /** For one line: unless it is accepted and its end differs from the literal. */
  lemma AnswerRightIff(pattern: seq<Elem>, line: string, cased: bool)
    requires Ended(pattern) && TailShortcut(pattern)
    ensures (Answer(pattern, 0, line, cased) <==> Accepts(pattern, 0, line, cased))
       <==> !Accepts(pattern, 0, line, cased) || EndsWith(line, pattern[|pattern| - 2].text)
  {
  }

  predicate HasLetter(text: string) {
    exists i :: 0 <= i < |text| && IsLetter(text[i])
  }

  ghost predicate RightFor(pattern: seq<Elem>, line: string, cased: bool) {
    Answer(pattern, 0, line, cased) <==> Accepts(pattern, 0, line, cased)
  }

  /** For all lines: exactly when case counts, the shortcut does not apply, its literal has no letters, or
      the elements cannot be filled, so that no line is accepted anyway. */
  lemma AlwaysRightIff(pattern: seq<Elem>, cased: bool)
    requires Ended(pattern)
    ensures (forall line: string :: RightFor(pattern, line, cased))
       <==> cased || !TailShortcut(pattern) || !HasLetter(pattern[|pattern| - 2].text)
            || !Fillable(pattern, 0, cased, false)
  {
    FillableIff(pattern, cased);
    if cased || !TailShortcut(pattern) {
      forall line: string ensures RightFor(pattern, line, cased) { AnswerCased(pattern, 0, line, cased); }
    } else if !HasLetter(pattern[|pattern| - 2].text) {
      forall line: string ensures RightFor(pattern, line, cased) { RightWithoutLetters(pattern, line); }
    } else if Fillable(pattern, 0, cased, false) {
      var text := pattern[|pattern| - 2].text;
      var line: string :| Accepts(pattern, 0, line, cased);
      var i :| 0 <= i < |text| && IsLetter(text[i]);
      var wrong := OneIsWrong(pattern, line, i);
      assert !RightFor(pattern, wrong, cased);
    } else {
      forall line: string ensures RightFor(pattern, line, cased) { assert !Accepts(pattern, 0, line, cased); }
    }
  }

  lemma RightWithoutLetters(pattern: seq<Elem>, line: string)
    requires Ended(pattern) && TailShortcut(pattern) && !HasLetter(pattern[|pattern| - 2].text)
    ensures RightFor(pattern, line, false)
  {
    var text := pattern[|pattern| - 2].text;
    if Accepts(pattern, 0, line, false) {
      LastLiteral(pattern, 0, line, false);
      NoLetters(line[|line| - |text|..], text);
    }
  }

  lemma NoLetters(tail: string, text: string)
    requires SameText(tail, text, false) && !HasLetter(text)
    ensures tail == text
  {
    forall i | 0 <= i < |text| ensures tail[i] == text[i] { CaseTwins(tail[i], text[i]); }
  }

  /** An accepted line, or the same line with one letter of its end in the other case, gets the wrong answer. */
  lemma OneIsWrong(pattern: seq<Elem>, line: string, i: nat) returns (wrong: string)
    requires Ended(pattern) && TailShortcut(pattern) && Accepts(pattern, 0, line, false)
    requires i < |pattern[|pattern| - 2].text| && IsLetter(pattern[|pattern| - 2].text[i])
    ensures Accepts(pattern, 0, wrong, false) && !Answer(pattern, 0, wrong, false)
  {
    var text := pattern[|pattern| - 2].text;
    LastLiteral(pattern, 0, line, false);
    var at := |line| - |text| + i;
    if EndsWith(line, text) {
      wrong := line[at := OtherCase(text[i])];
      assert line[|line| - |text|..][i] == text[i];
      CaseTwins(line[at], wrong[at]);
      AcceptsBlind(pattern, 0, line, wrong);
      assert wrong[|line| - |text|..][i] != text[i];
    } else {
      wrong := line;
    }
  }

  /** "**a" does not find "A" when case is ignored. */
  lemma TailShortcutMisses(pattern: seq<Elem>, line: string)
    requires pattern == [AnySeq, Literal("a"), End] && line == "A"
    ensures Ended(pattern) && Accepts(pattern, 0, line, false) && !Answer(pattern, 0, line, false)
  {
    OneLetterEnding(pattern, line);
    OtherEnding(pattern, line);
  }

  lemma OneLetterEnding(pattern: seq<Elem>, line: string)
    requires pattern == [AnySeq, Literal("a"), End] && line == "A"
    ensures Ended(pattern) && TailShortcut(pattern) && |pattern| == 3
    ensures EndsLike(line, pattern[1].text, false) && !EndsWith(line, pattern[1].text)
  {
    assert line[0..] == line;
  }

  lemma OtherEnding(pattern: seq<Elem>, line: string)
    requires Ended(pattern) && TailShortcut(pattern) && |pattern| == 3
    requires EndsLike(line, pattern[1].text, false) && !EndsWith(line, pattern[1].text)
    ensures Accepts(pattern, 0, line, false) && !Answer(pattern, 0, line, false)
  {
    FinalLiteral(pattern, line, false);
  }

  /** Whether any of the special characters, or "..", occurs. */
  method ContainsWildcards(s: string) returns (r: bool)
    ensures r == !Plain(s)
  {
    var i := 0;
    while i < |s|
      invariant 0 <= i <= |s|
      invariant forall j :: 0 <= j < i ==> s[j] != '?' && s[j] != '*' && s[j] != '\\' && s[j] != '{'
      invariant forall j :: 0 <= j < i && j < |s| - 1 ==> !(s[j] == '.' && s[j + 1] == '.')
    {
      if s[i] == '?' || s[i] == '*' || s[i] == '\\' || s[i] == '{' || (s[i] == '.' && At(s, i + 1) == '.') {
        return true;
      }
      i := i + 1;
    }
    r := false;
  }

  lemma LastTwo(pattern: seq<Elem>, line: string)
    requires Ended(pattern) && |pattern| >= 2 && pattern[|pattern| - 2].Literal?
    requires var text := pattern[|pattern| - 2].text;
      |text| >= 2 && |line| >= 2 && (line[|line| - 1] != text[|text| - 1] || line[|line| - 2] != text[|text| - 2])
    ensures !Accepts(pattern, 0, line, true)
  {
    var text := pattern[|pattern| - 2].text;
    EqualEnds(line, text);
    if Accepts(pattern, 0, line, true) {
      LastLiteral(pattern, 0, line, true);
      EndsLikeCased(line, text);
    }
  }

  lemma EqualEnds(line: string, text: string)
    requires |text| >= 2 && |line| >= 2
    ensures EndsWith(line, text) ==> line[|line| - 1] == text[|text| - 1] && line[|line| - 2] == text[|text| - 2]
  {
    if |line| >= |text| {
      var tail := line[|line| - |text|..];
      assert tail[|text| - 1] == line[|line| - 1] && tail[|text| - 2] == line[|line| - 2];
    }
  }

  lemma NoLonger(s: string, m: nat, n: nat)
    requires m <= |s| && n <= |s| && (n < |s| ==> !IsDigit(s[n]))
    ensures AllDigits(s[..m]) ==> m <= n
  {
    if n < m { assert s[..m][n] == s[n]; }
  }

  /** Only the maximal run of digits can be taken for a number. */
  lemma MaximalRun(pattern: seq<Elem>, k: nat, s: string, cased: bool, n: nat)
    requires k < |pattern| && pattern[k].NumRange?
    requires n <= |s| && AllDigits(s[..n]) && (n < |s| ==> !IsDigit(s[n]))
    ensures n == 0 || !Between(Number(s[..n]), pattern[k].from, pattern[k].to) ==> !Accepts(pattern, k, s, cased)
    ensures n > 0 && Between(Number(s[..n]), pattern[k].from, pattern[k].to) ==>
      (Accepts(pattern, k, s, cased) <==> Accepts(pattern, k + 1, s[n..], cased))
  {
    forall m | 0 <= m <= |s| && Takes(pattern[k], s[..m], s[m..], cased) ensures m == n {
      NoLonger(s, m, n);
      NoLonger(s, n, m);
    }
    OnlyCut(pattern, k, s, cased, n);
  }
}
