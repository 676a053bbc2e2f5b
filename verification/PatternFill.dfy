/** Whether any line at all is accepted by a pattern: a test on its elements. */
module PatternFill {
  import opened Patterns

  /** Elements that take one character. */
  predicate TakesOne(e: Elem) {
    e.AnyChar? || e.CommonChar? || e.Set? || e.NegSet?
  }

  predicate CharFits(e: Elem, c: char, cased: bool, free: bool) {
    Takes(e, [c], "", cased) && (free ==> !IsDigit(c))
  }

  /** The elements from k on can be filled: no set is empty, no number range is empty, and no number is followed
      by what must begin with a digit. With `free` what they are filled with must not begin with a digit. */
  predicate Fillable(pattern: seq<Elem>, k: nat, cased: bool, free: bool)
    requires k <= |pattern|
    decreases |pattern| - k
  {
    if k == |pattern| then true
    else
      match pattern[k]
      case Literal(text) =>
        if text == "" then Fillable(pattern, k + 1, cased, free)
        else (free ==> !IsDigit(text[0])) && Fillable(pattern, k + 1, cased, false)
      case NumRange(from, to) => !free && (from < 0 || to < 0 || from <= to) && Fillable(pattern, k + 1, cased, true)
      case AnySeq | CommonSeq => Fillable(pattern, k + 1, cased, false)
      case End => true
      case _ => (exists c: char :: CharFits(pattern[k], c, cased, free)) && Fillable(pattern, k + 1, cased, false)
  }

  predicate Free(s: string, free: bool) {
    free ==> s == "" || !IsDigit(s[0])
  }

  /** A piece in front of a line that the other elements accept. */
  lemma InFrontOf(pattern: seq<Elem>, k: nat, p: string, rest: string, cased: bool)
    requires k < |pattern| && Takes(pattern[k], p, rest, cased) && Accepts(pattern, k + 1, rest, cased)
    ensures Accepts(pattern, k, p + rest, cased)
  {
    var s := p + rest;
    assert s[..|p|] == p && s[|p|..] == rest;
    CutAccepts(pattern, k, s, cased, |p|);
  }

  // ------------------------------------------------------------------ numbers

  function Digits(n: nat): string {
    (if n < 10 then "" else Digits(n / 10)) + [(n % 10 + 48) as char]
  }

  lemma {:induction false} DigitsWrite(n: nat)
    ensures Digits(n) != "" && AllDigits(Digits(n)) && Number(Digits(n)) == n
  {
    if n < 10 {
      DigitBehind("", n);
      assert "" + [(n % 10 + 48) as char] == Digits(n);
    } else {
      DigitsWrite(n / 10);
      DigitBehind(Digits(n / 10), n % 10);
    }
  }

  lemma DigitBehind(s: string, digit: nat)
    requires AllDigits(s) && digit < 10
    ensures var t := s + [(digit + 48) as char]; AllDigits(t) && Number(t) == Number(s) * 10 + digit
  {
    var t := s + [(digit + 48) as char];
    assert t[..|t| - 1] == s;
  }

  // ------------------------------------------------------------------ filling

  lemma {:induction false} Fill(pattern: seq<Elem>, k: nat, cased: bool, free: bool) returns (s: string)
    requires Ended(pattern) && k <= |pattern| && Fillable(pattern, k, cased, free)
    ensures Accepts(pattern, k, s, cased) && Free(s, free)
    decreases |pattern| - k
  {
    if k == |pattern| {
      s := "";
    } else if pattern[k].End? {
      s := "";
      EndAccepts(pattern, s, cased);
    } else if pattern[k].Literal? {
      var text := pattern[k].text;
      var rest := Fill(pattern, k + 1, cased, if text == "" then free else false);
      InFrontOf(pattern, k, text, rest, cased);
      s := text + rest;
    } else if pattern[k].NumRange? {
      var rest := Fill(pattern, k + 1, cased, true);
      s := FillNumber(pattern, k, rest, cased);
    } else if TakesOne(pattern[k]) {
      var c: char :| CharFits(pattern[k], c, cased, free);
      var rest := Fill(pattern, k + 1, cased, false);
      InFrontOf(pattern, k, [c], rest, cased);
      s := [c] + rest;
    } else {
      var rest := Fill(pattern, k + 1, cased, false);
      InFrontOf(pattern, k, "x", rest, cased);
      s := "x" + rest;
    }
  }

  lemma FillNumber(pattern: seq<Elem>, k: nat, rest: string, cased: bool) returns (s: string)
    requires k < |pattern| && pattern[k].NumRange? && Accepts(pattern, k + 1, rest, cased) && Free(rest, true)
    requires pattern[k].from < 0 || pattern[k].to < 0 || pattern[k].from <= pattern[k].to
    ensures Accepts(pattern, k, s, cased)
  {
    var n := if pattern[k].from < 0 then 0 else pattern[k].from;
    DigitsWrite(n);
    InFrontOf(pattern, k, Digits(n), rest, cased);
    s := Digits(n) + rest;
  }

  // ------------------------------------------------------------------ what is filled

  lemma {:induction false} Filled(pattern: seq<Elem>, k: nat, s: string, cased: bool, free: bool)
    requires Ended(pattern) && k <= |pattern| && Accepts(pattern, k, s, cased) && Free(s, free)
    ensures Fillable(pattern, k, cased, free)
    decreases |pattern| - k
  {
    if k < |pattern| && !pattern[k].End? {
      var n := CutOf(pattern, k, s, cased);
      var free' := FreeBehind(pattern, k, s, cased, free, n);
      Filled(pattern, k + 1, s[n..], cased, free');
    }
  }

  /** What the piece of element k says about that element, and about what follows. */
  lemma FreeBehind(pattern: seq<Elem>, k: nat, s: string, cased: bool, free: bool, n: int) returns (free': bool)
    requires Ended(pattern) && k < |pattern| && !pattern[k].End? && Cut(pattern, k, s, cased, n) && Free(s, free)
    ensures Free(s[n..], free')
    ensures Fillable(pattern, k + 1, cased, free') ==> Fillable(pattern, k, cased, free)
  {
    free' := false;
    if pattern[k].NumRange? {
      NumberFilled(pattern, k, s, cased, free, n);
      free' := true;
    } else if pattern[k].Literal? {
      if pattern[k].text == "" {
        assert s[n..] == s;
        free' := free;
      } else {
        LiteralFilled(pattern[k].text, s, n, cased);
      }
    } else if TakesOne(pattern[k]) {
      CharFilled(pattern[k], s, n, cased, free);
    }
  }

  lemma NumberFilled(pattern: seq<Elem>, k: nat, s: string, cased: bool, free: bool, n: int)
    requires k < |pattern| && pattern[k].NumRange? && Cut(pattern, k, s, cased, n) && Free(s, free)
    ensures !free && (pattern[k].from < 0 || pattern[k].to < 0 || pattern[k].from <= pattern[k].to)
    ensures Free(s[n..], true)
  {
    assert IsDigit(s[..n][0]);
  }

  lemma LiteralFilled(text: string, s: string, n: int, cased: bool)
    requires 0 <= n <= |s| && SameText(s[..n], text, cased) && text != ""
    ensures s != "" && (IsDigit(text[0]) ==> IsDigit(s[0]))
  {
    assert SameChar(s[..n][0], text[0], cased);
  }

  lemma CharFilled(e: Elem, s: string, n: int, cased: bool, free: bool)
    requires TakesOne(e) && 0 <= n <= |s| && Takes(e, s[..n], s[n..], cased) && Free(s, free)
    ensures exists c: char :: CharFits(e, c, cased, free)
  {
    assert s[..n] == [s[0]];
    assert CharFits(e, s[0], cased, free);
  }

  /** The test is right. */
  lemma FillableIff(pattern: seq<Elem>, cased: bool)
    requires Ended(pattern)
    ensures Fillable(pattern, 0, cased, false) <==> exists line: string :: Accepts(pattern, 0, line, cased)
  {
    if Fillable(pattern, 0, cased, false) {
      var line := Fill(pattern, 0, cased, false);
      assert Accepts(pattern, 0, line, cased);
    }
    if exists line: string :: Accepts(pattern, 0, line, cased) {
      var line: string :| Accepts(pattern, 0, line, cased);
      Filled(pattern, 0, line, cased, false);
    }
  }
}
