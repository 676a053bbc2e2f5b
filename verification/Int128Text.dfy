/** Printing and parsing 128-bit numbers. */
module Int128Text {
  import opened Bits
  import opened Int128
  import opened LongDivision
  import opened Optional
  import opened Words

  function DigitChar(c: nat): char
    requires c < 37
  {
    if c > 9 then (c + 55) as char else (c + 48) as char
  }

  /** The digits of v, most significant first; none for zero. */
  function Text(v: nat, radix: nat): string
    requires 2 <= radix <= 37
  {
    if v == 0 then ""
    else
      Shrinks(v, radix);
      Text(v / radix, radix) + [DigitChar(v % radix)]
  }

  lemma Shrinks(v: nat, radix: nat)
    requires v > 0 && radix >= 2
    ensures 0 <= v / radix <= v / 2 < v && 0 <= v % radix < radix
  {
    var q, r := Divide(v, radix);
    if q < 0 { TimesGrows(q, -1, radix); }
    if q >= 0 { TimesGrows(2, radix, q); }
  }

  /** What is printed: the least number is the exception. */
  function Printed(v: int, radix: int): string {
    if v == 0 then "0"
    else if radix < 2 || radix > 37 then "(invalid radix)"
    else if v == -H128 then "-0"
    else (if v < 0 then "-" else "") + Text(Abs(v), radix)
  }

  method ToString(a: Int128, radix: nat) returns (s: string)
    requires a.Valid() && radix < 0x1_0000_0000
    ensures s == Printed(a.Value(), radix) && |s| <= 128
  {
    if a.IsZero() {
      return "0";
    }
    if radix < 2 || radix > 37 {
      return "(invalid radix)";
    }
    JoinRange(a.lo, a.hi);
    var zero := new Int128.Words(0, 0);
    var ii := Magnitude(a);
    if a.Value() == -H128 {
      LeastWords(a.lo, a.hi);
    }
    s := PrintDigits(ii, radix);
    if a.Less(zero) {
      s := ['-'] + s;
    }
  }

  /** The loop fills the buffer from its end; it never reaches the beginning. */
  method PrintDigits(a: Int128, radix: nat) returns (s: string)
    requires a.Valid() && a.Value() != 0 && 2 <= radix <= 37
    requires a.Value() > 0 || a.Value() == -H128
    ensures s == if a.Value() == -H128 then "0" else Text(a.Value(), radix)
    ensures 1 <= |s| <= 127
  {
    var ii := a;
    var aux := new Int128.FromWord(radix);
    var i := 255;
    s := "";
    Pow2Halves();
    JoinRange(a.lo, a.hi);
    while !ii.IsZero() && i != 0
      invariant ii.Valid() && aux.Valid() && aux.Value() == radix
      invariant a.Value() > 0 ==> Printing(a.Value(), radix, ii.Value(), s) && i == 255 - |s|
      invariant a.Value() == -H128 ==>
          (ii.Value() == -H128 && s == "" && i == 255) || (ii.Value() == 0 && s == "0" && i == 254)
      decreases i
    {
      ghost var v := ii.Value();
      JoinRange(ii.lo, ii.hi);
      var q, r := ii.Div(aux);
      var c := ToInt(r);
      if v == -H128 {
        LeastWords(r.lo, r.hi);
      } else {
        NextChar(a.Value(), radix, v, s, q.Value(), r.Value());
        SmallWords(r.lo, r.hi);
      }
      ii := q;
      i := i - 1;
      s := [DigitChar(c)] + s;
    }
  }

  /** s holds the last digits of the number, and v is what the others come to. */
  ghost predicate Printing(a: int, radix: nat, v: int, s: string)
    requires 2 <= radix <= 37
  {
    0 <= a && 0 <= v && Text(a, radix) == Text(v, radix) + s && |s| <= 127 && v < Pow2(127 - |s|)
  }

  lemma NextChar(a: int, radix: nat, v: int, s: string, q: int, r: int)
    requires 2 <= radix <= 37 && Printing(a, radix, v, s) && v > 0 && Truncated(v, radix, q, r)
    ensures 0 <= r < radix && Printing(a, radix, q, [DigitChar(r)] + s)
  {
    DigitOf(v, radix, q, r);
    OneDigitFewer(v, radix, 127 - |s|);
    assert Text(v, radix) + s == Text(q, radix) + ([DigitChar(r)] + s);
  }

  /** (int)lo */
  method ToInt(a: Int128) returns (c: int)
    requires a.Valid()
    ensures c == S32(a.lo)
  {
    c := S32(a.lo);
  }

  function S32(x: int): int {
    (x + 0x8000_0000) % 0x1_0000_0000 - 0x8000_0000
  }

  lemma LeastWords(lo: int, hi: int)
    requires Unsigned64(lo) && Signed64(hi) && Join(lo, hi) == -H128
    ensures lo == 0 && hi == -H64 && S32(lo) == 0
  {
  }

  lemma SmallWords(lo: int, hi: int)
    requires Unsigned64(lo) && Signed64(hi) && 0 <= Join(lo, hi) < 37
    ensures lo == Join(lo, hi) && hi == 0 && S32(lo) == lo
  {
    SmallS32(lo);
  }

  lemma SmallS32(x: int)
    requires 0 <= x < 37
    ensures S32(x) == x
  {
  }

  lemma DigitOf(v: int, radix: nat, q: int, r: int)
    requires v > 0 && 2 <= radix && Truncated(v, radix, q, r)
    ensures q == v / radix && r == v % radix && 0 <= r < radix && 0 <= q
  {
    Quotient(v, radix, q, r);
    Shrinks(v, radix);
  }

  lemma OneDigitFewer(v: int, radix: nat, n: nat)
    requires 0 < v < Pow2(n) && 2 <= radix
    ensures n > 0 && v / radix < Pow2(n - 1)
  {
    Shrinks(v, radix);
  }

  // ------------------------------------------------------------------ parsing

  function DigitValue(c: char, radix: nat): Option<nat> {
    var x := c as int;
    if '0' <= c <= '9' && x < 48 + radix then Some(x - 48)
    else if 97 <= x <= 97 + radix - 10 then Some(x - 97 + 10)
    else if 65 <= x <= 65 + radix - 10 then Some(x - 65 + 10)
    else None
  }

  /** Reads digits up to the first character that is none. */
  function Digits(s: string, radix: nat, acc: int): int {
    if s == "" then acc
    else
      match DigitValue(s[0], radix)
      case None => acc
      case Some(n) => Digits(s[1..], radix, acc * radix + n)
  }

  /** A leading 0 selects octal and a leading 0x hexadecimal digits. */
  function Unsigned(s: string): int {
    if s != "" && s[0] == '0' then
      if |s| > 1 && s[1] == 'x' then Digits(s[2..], 16, 0) else Digits(s[1..], 8, 0)
    else Digits(s, 10, 0)
  }

  function Parsed(s: string): int {
    if s != "" && s[0] == '-' then -Unsigned(s[1..]) else Unsigned(s)
  }

  // ------------------------------------------------------------------ round trip

  ghost predicate AllDigits(s: string, radix: nat) {
    forall i :: 0 <= i < |s| ==> DigitValue(s[i], radix).Some?
  }

  lemma {:induction false} DigitsAppend(s: string, c: char, radix: nat, acc: int)
    requires AllDigits(s, radix) && DigitValue(c, radix).Some?
    ensures Digits(s + [c], radix, acc) == Digits(s, radix, acc) * radix + DigitValue(c, radix).value
  {
    if s == "" {
      assert s + [c] == [c] && [c][1..] == "";
    } else {
      assert (s + [c])[1..] == s[1..] + [c];
      DigitsAppend(s[1..], c, radix, acc * radix + DigitValue(s[0], radix).value);
    }
  }

  lemma {:induction false} TextDigits(v: nat)
    ensures AllDigits(Text(v, 10), 10) && Digits(Text(v, 10), 10, 0) == v
    ensures v > 0 ==> Text(v, 10) != "" && Text(v, 10)[0] != '0' && Text(v, 10)[0] != '-'
  {
    if v > 0 {
      Shrinks(v, 10);
      TextDigits(v / 10);
      DigitsAppend(Text(v / 10, 10), DigitChar(v % 10), 10, 0);
    }
  }

  /** Parsing what was printed in decimal gives the number back, for every number but the least. */
  lemma RoundTripIff(v: int)
    requires Signed128(v)
    ensures Parsed(Printed(v, 10)) == v <==> v != -H128
  {
    var s := Printed(v, 10);
    if v == 0 {
      assert s[1..] == "";
    } else if v == -H128 {
      assert s[1..] == "0" && "0"[1..] == "";
    } else {
      TextDigits(Abs(v));
      if v < 0 { assert s[1..] == Text(Abs(v), 10); } else { assert s == Text(v, 10); }
    }
  }

  method Set(a: Int128, sz: string)
    modifies a
    requires forall i :: 0 <= i < |sz| ==> sz[i] != '\0'
    ensures a.Valid() && a.Value() == Wrap(Parsed(sz))
  {
    a.lo, a.hi := 0, 0;
    if |sz| == 0 {
      WrapSmall(0);
      return;
    }
    var radix, i, minus := 10, 0, false;
    if sz[0] == '-' {
      i := 1;
      minus := true;
    }
    if i < |sz| && sz[i] == '0' {
      radix := 8;
      i := i + 1;
      if i < |sz| && sz[i] == 'x' {
        radix := 16;
        i := i + 1;
      }
    }
    ghost var body := if minus then sz[1..] else sz;
    assert body != "" && body[0] == '0' && |body| > 1 ==> body[1..][0] == body[1];
    assert Unsigned(body) == Digits(sz[i..], radix, 0);
    ReadDigits(a, sz, i, radix);
    if minus {
      WrapMinus(Digits(sz[i..], radix, 0));
      var zero := new Int128.Words(0, 0);
      zero.SubtractAssign(a);
      a.lo, a.hi := zero.lo, zero.hi;
    }
  }

  method ReadDigits(a: Int128, sz: string, i0: nat, radix: nat)
    requires a.Valid() && a.Value() == 0 && i0 <= |sz| && radix in {8, 10, 16}
    modifies a
    ensures a.Valid() && a.Value() == Wrap(Digits(sz[i0..], radix, 0))
  {
    var i := i0;
    ghost var acc := 0;
    WrapSmall(0);
    while i < |sz|
      invariant i0 <= i <= |sz| && a.Valid() && a.Value() == Wrap(acc)
      invariant Digits(sz[i..], radix, acc) == Digits(sz[i0..], radix, 0)
    {
      var n := DigitValue(sz[i], radix);
      assert sz[i..][1..] == sz[i + 1..];
      if n == None {
        return;
      }
      var base := new Int128.FromWord(radix);
      a.MulAssign(base);
      WrapTimes(acc, radix);
      var digit := new Int128.FromWord(n.value);
      a.AddAssign(digit);
      WrapPlus(acc * radix, n.value);
      acc := acc * radix + n.value;
      i := i + 1;
    }
  }

  lemma WrapMinus(x: int)
    ensures Wrap(0 - Wrap(x)) == Wrap(-x)
  {
    WrapTimes(x, -1);
    assert Wrap(x) * -1 == 0 - Wrap(x);
  }
}
