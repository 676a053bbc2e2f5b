/** The three notations that are read, the digits of each, and what is printed for digits above nine. */
module Int128Radix {
  import opened Int128Text
  import opened Optional
  import opened Words

  // ------------------------------------------------------------------ digits

  predicate Between(c: char, first: char, last: char) {
    first <= c <= last
  }

  /** The characters read as digits. The letter behind the last digit is among them, with the radix as its value:
      "a" in decimal and "g" in hexadecimal notation. */
  lemma DigitTable(c: char)
    ensures DigitValue(c, 8) == if Between(c, '0', '7') then Some(c as int - 48) else None
    ensures DigitValue(c, 10) == if Between(c, '0', '9') then Some(c as int - 48)
                                 else if c == 'a' || c == 'A' then Some(10) else None
    ensures DigitValue(c, 16) == if Between(c, '0', '9') then Some(c as int - 48)
                                 else if Between(c, 'a', 'g') then Some(c as int - 87)
                                 else if Between(c, 'A', 'G') then Some(c as int - 55) else None
  {
  }

  /** Only that letter is read although it is no digit of the notation. */
  lemma NoDigitIff(c: char, radix: nat)
    requires radix in {8, 10, 16} && DigitValue(c, radix).Some?
    ensures DigitValue(c, radix).value >= radix <==> radix >= 10 && (c as int == radix + 87 || c as int == radix + 55)
    ensures DigitValue(c, radix).value <= radix
  {
  }

  /** So "1a" is read as twenty. */
  lemma LetterInDecimal()
    ensures Parsed("1a") == 20
  {
    assert "1a"[1..] == "a" && "a"[1..] == "";
  }

  /** Digits above nine are printed as capital letters; the greatest digit of radix 37, the greatest that is
      accepted, has no letter. */
  lemma PrintedDigits(n: nat)
    requires n < 37
    ensures n <= 9 ==> DigitChar(n) == "0123456789"[n]
    ensures 10 <= n <= 35 ==> DigitChar(n) == "ABCDEFGHIJKLMNOPQRSTUVWXYZ"[n - 10]
    ensures n == 36 ==> DigitChar(n) == '['
  {
    if n > 9 { Letters(n); }
  }

  lemma Letters(n: nat)
    requires 10 <= n < 37
    ensures n <= 35 ==> DigitChar(n) == "ABCDEFGHIJKLMNOPQRSTUVWXYZ"[n - 10]
    ensures n == 36 ==> DigitChar(n) == '['
  {
    if n <= 22 {
      assert n <= 35 ==> "ABCDEFGHIJKLMNOPQRSTUVWXYZ"[n - 10] == (n + 55) as char;
    } else if n <= 35 {
      assert "ABCDEFGHIJKLMNOPQRSTUVWXYZ"[n - 10] == (n + 55) as char;
    }
  }

  /** What is printed of any number in any radix: a zero is printed before the radix is looked at. */
  lemma PrintedForms(v: int, radix: nat)
    requires 0 < v < H128
    ensures Printed(0, radix) == "0"
    ensures radix in {0, 1} || radix >= 38 ==> Printed(v, radix) == Printed(-v, radix) == "(invalid radix)"
    ensures 2 <= radix <= 37 ==>
      Printed(v, radix) == Text(v, radix) && Printed(-v, radix) == "-" + Text(v, radix)
  {
    assert 2 <= radix <= 37 ==> "" + Text(v, radix) == Text(v, radix);
  }

  /** The conversion to int that precedes a digit keeps the 32 lowest bits. */
  lemma LowHalf(x: int)
    ensures -0x8000_0000 <= S32(x) < 0x8000_0000 && (x - S32(x)) % 0x1_0000_0000 == 0
  {
    var q := (x + 0x8000_0000) / 0x1_0000_0000;
    assert x - S32(x) == q * 0x1_0000_0000;
  }

  // ------------------------------------------------------------------ reading what was written

  function Lower(c: char): char {
    if 'A' <= c <= 'Z' then (c as int + 32) as char else c
  }

  function LowerText(s: string): (t: string)
    ensures |t| == |s| && forall i :: 0 <= i < |s| ==> t[i] == Lower(s[i])
  {
    seq(|s|, i requires 0 <= i < |s| => Lower(s[i]))
  }

  /** What follows the number does not begin with a digit. */
  predicate Ends(rest: string, radix: nat) {
    rest == "" || DigitValue(rest[0], radix).None?
  }

  lemma {:induction false} DigitsStop(s: string, rest: string, radix: nat, acc: int)
    requires AllDigits(s, radix) && Ends(rest, radix)
    ensures Digits(s + rest, radix, acc) == Digits(s, radix, acc)
    decreases |s|
  {
    if s == "" {
      assert s + rest == rest;
    } else {
      assert (s + rest)[1..] == s[1..] + rest;
      DigitsStop(s[1..], rest, radix, acc * radix + DigitValue(s[0], radix).value);
    }
  }

  lemma DigitBack(n: nat, radix: nat)
    requires n < radix && radix in {8, 10, 16}
    ensures DigitValue(DigitChar(n), radix) == Some(n) && DigitValue(Lower(DigitChar(n)), radix) == Some(n)
    ensures n > 0 ==> DigitChar(n) != '0' && DigitChar(n) != '-'
  {
  }

  /** Digits in either case give the number. */
  lemma {:induction false} TextValue(v: nat, radix: nat)
    requires radix in {8, 10, 16}
    ensures AllDigits(Text(v, radix), radix) && Digits(Text(v, radix), radix, 0) == v
    ensures AllDigits(LowerText(Text(v, radix)), radix) && Digits(LowerText(Text(v, radix)), radix, 0) == v
    ensures v > 0 ==> Text(v, radix) != "" && Text(v, radix)[0] != '0' && Text(v, radix)[0] != '-'
    decreases v
  {
    if v > 0 {
      hide *;
      var q, n := LastOff(v, radix);
      DigitBack(n, radix);
      TextValue(q, radix);
      LastDigit(Text(q, radix), n, radix);
    } else {
      assert Text(0, radix) == "" && LowerText("") == "";
    }
  }

  /** The last digit and the number that the others write. */
  lemma LastOff(v: nat, radix: nat) returns (q: nat, n: nat)
    requires v > 0 && radix >= 2 && radix <= 37
    ensures q < v && n < radix && v == q * radix + n && Text(v, radix) == Text(q, radix) + [DigitChar(n)]
    ensures Text(q, radix) == "" ==> n > 0
  {
    Shrinks(v, radix);
    q, n := v / radix, v % radix;
    assert v == q * radix + n;
    if q > 0 { Shrinks(q, radix); }
  }

  lemma LastDigit(s: string, n: nat, radix: nat)
    requires n < radix && radix in {8, 10, 16} && AllDigits(s, radix) && AllDigits(LowerText(s), radix)
    ensures var t := s + [DigitChar(n)];
      && AllDigits(t, radix) && Digits(t, radix, 0) == Digits(s, radix, 0) * radix + n
      && AllDigits(LowerText(t), radix) && Digits(LowerText(t), radix, 0) == Digits(LowerText(s), radix, 0) * radix + n
  {
    hide Digits, DigitValue, DigitChar, Lower;
    DigitBack(n, radix);
    var c := DigitChar(n);
    DigitsAppend(s, c, radix, 0);
    DigitsAppend(LowerText(s), Lower(c), radix, 0);
    assert LowerText(s + [c]) == LowerText(s) + [Lower(c)];
  }

  /** The three notations: decimal, octal behind "0" and hexadecimal behind "0x", digits in either case, the sign in
      front, and anything behind that is no digit. */
  lemma NotationsRead(v: nat, rest: string)
    requires v > 0
    ensures Ends(rest, 16) ==> Parsed("0x" + Text(v, 16) + rest) == Parsed("0x" + LowerText(Text(v, 16)) + rest) == v
    ensures Ends(rest, 8) ==> Parsed("0" + Text(v, 8) + rest) == v
    ensures Ends(rest, 10) ==> Parsed(Text(v, 10) + rest) == v
  {
    TextValue(v, 16);
    TextValue(v, 8);
    TextValue(v, 10);
    if Ends(rest, 16) {
      HexadecimalRead(Text(v, 16), rest);
      HexadecimalRead(LowerText(Text(v, 16)), rest);
    }
    if Ends(rest, 8) { OctalRead(Text(v, 8), rest); }
    if Ends(rest, 10) { DigitsStop(Text(v, 10), rest, 10, 0); }
  }

  lemma HexadecimalRead(s: string, rest: string)
    requires AllDigits(s, 16) && Ends(rest, 16)
    ensures Parsed("0x" + s + rest) == Digits(s, 16, 0)
  {
    var t := "0x" + s + rest;
    assert t[0] == '0' && t[1] == 'x' && t[2..] == s + rest;
    DigitsStop(s, rest, 16, 0);
  }

  lemma OctalRead(s: string, rest: string)
    requires AllDigits(s, 8) && Ends(rest, 8) && s != ""
    ensures Parsed("0" + s + rest) == Digits(s, 8, 0)
  {
    var t := "0" + s + rest;
    assert t[0] == '0' && t[1] == s[0] && t[1..] == s + rest;
    DigitsStop(s, rest, 8, 0);
  }

  /** A minus sign in front of any text without one negates what is read. */
  lemma SignRead(s: string)
    requires s == "" || s[0] != '-'
    ensures Parsed("-" + s) == -Parsed(s)
  {
    assert ("-" + s)[1..] == s;
  }

  lemma LiteralsRead()
    ensures Parsed("0x10") == 16 && Parsed("010") == 8 && Parsed("10") == 10
    ensures Parsed("-0xfF") == -255
  {
    assert "10"[1..] == "0" && "0"[1..] == "" && "0x10"[2..] == "10" && "010"[1..] == "10";
    assert forall radix :: radix in {8, 10, 16} ==> Digits("10", radix, 0) == Digits("0", radix, 1) == radix;
    assert "-0xfF"[1..] == "0xfF" && "0xfF"[2..] == "fF" && "fF"[1..] == "F" && "F"[1..] == "";
    assert Digits("fF", 16, 0) == Digits("F", 16, 15) == Digits("", 16, 255);
  }
}
