/** Bits packed into bytes, first bit in the most significant place: what a byte vector stands for,
    what writing a bit or a byte at its end does to that, and what reading a byte finds there. */
module BitStreams {

  import opened Bits

  type Byte = x: int | 0 <= x < 256

  /** The lowest n binary digits of v, most significant first. */
  function BitsOf(v: int, n: nat): (s: seq<bool>)
    requires v >= 0
    ensures |s| == n
  {
    if n == 0 then [] else BitsOf(v / 2, n - 1) + [v % 2 == 1]
  }

  function ValueOf(s: seq<bool>): (v: int)
    ensures 0 <= v < Pow2(|s|)
  {
    if s == [] then 0 else 2 * ValueOf(s[..|s| - 1]) + (if s[|s| - 1] then 1 else 0)
  }

  /** All bits of a byte vector. */
  function Flatten(data: seq<Byte>): (s: seq<bool>)
    ensures |s| == 8 * |data|
  {
    if data == [] then [] else Flatten(data[..|data| - 1]) + BitsOf(data[|data| - 1], 8)
  }

  /** The bit sequence that the first `length` bits of a byte vector represent. */
  function Content(data: seq<Byte>, length: nat): (s: seq<bool>)
    requires length <= 8 * |data|
    ensures |s| == length
  {
    Flatten(data)[..length]
  }

  /** No byte more than needed, and the unused bits of the last one are zero. */
  ghost predicate Packed(data: seq<Byte>, length: nat) {
    && |data| == (length + 7) / 8
    && Clear(Flatten(data)[length..])
  }

  // ------------------------------------------------------------------ numbers and bits

  lemma {:induction false} ValueOfBits(v: int, n: nat)
    requires v >= 0
    ensures ValueOf(BitsOf(v, n)) == v % Pow2(n)
    decreases n
  {
    if n > 0 {
      HalfOf(v, n - 1);
      ValueOfBits(v / 2, n - 1);
      var s := BitsOf(v, n);
      assert s[..n - 1] == BitsOf(v / 2, n - 1);
    }
  }

  lemma {:induction false} BitsOfValue(s: seq<bool>)
    ensures BitsOf(ValueOf(s), |s|) == s
  {
    if s != [] {
      var front := s[..|s| - 1];
      BitsOfValue(front);
      var v := ValueOf(s);
      assert v / 2 == ValueOf(front) && (v % 2 == 1) == s[|s| - 1];
      assert s == front + [s[|s| - 1]];
    }
  }

  /** A number whose low n binary digits are cut off, and those digits. */
  lemma {:induction false} Split(v: int, m: nat, n: nat)
    requires v >= 0
    ensures v / Pow2(n) >= 0
    ensures BitsOf(v, m + n) == BitsOf(v / Pow2(n), m) + BitsOf(v % Pow2(n), n)
    decreases n
  {
    Nonnegative(v, n);
    if n > 0 {
      HalfOf(v, n - 1);
      Split(v / 2, m, n - 1);
      var low := v % Pow2(n);
      assert low / 2 == v / 2 % Pow2(n - 1) && low % 2 == v % 2;
      assert BitsOf(low, n) == BitsOf(v / 2 % Pow2(n - 1), n - 1) + [v % 2 == 1];
      assert BitsOf(v, m + n) == BitsOf(v / 2, m + n - 1) + [v % 2 == 1];
    } else {
      assert v / Pow2(0) == v;
      assert BitsOf(v % Pow2(0), 0) == [];
    }
  }

  lemma Nonnegative(v: int, n: nat)
    requires v >= 0
    ensures v / Pow2(n) >= 0
  {
    var p := Pow2(n);
    NonnegativeQuotient(v, p);
  }

  lemma NonnegativeQuotient(v: int, p: int)
    requires v >= 0 && p > 0
    ensures v / p >= 0
  {
    var q := v / p;
    assert v == q * p + v % p;
    if q < 0 { TimesGrows(q, -1, p); }
  }

  lemma Joined(x: int, m: nat, y: int, n: nat)
    requires x >= 0 && 0 <= y < Pow2(n)
    ensures x * Pow2(n) + y >= 0
    ensures BitsOf(x * Pow2(n) + y, m + n) == BitsOf(x, m) + BitsOf(y, n)
  {
    TimesGrows(0, x, Pow2(n));
    Quotient(x * Pow2(n) + y, Pow2(n), x, y);
    Split(x * Pow2(n) + y, m, n);
  }

  lemma SameBits(x: int, y: int, n: nat)
    requires 0 <= x < Pow2(n) && 0 <= y < Pow2(n)
    ensures BitsOf(x, n) == BitsOf(y, n) <==> x == y
  {
    ValueOfBits(x, n);
    ValueOfBits(y, n);
    Quotient(x, Pow2(n), 0, x);
    Quotient(y, Pow2(n), 0, y);
  }

  ghost predicate Clear(s: seq<bool>) {
    forall i :: 0 <= i < |s| ==> !s[i]
  }

  /** Zero is written with zeros only, and nothing else is. */
  lemma {:induction false} ZeroBits(v: int, n: nat)
    requires 0 <= v < Pow2(n)
    ensures v == 0 <==> Clear(BitsOf(v, n))
    decreases n
  {
    if n > 0 {
      ZeroBits(v / 2, n - 1);
      ClearEnd(BitsOf(v / 2, n - 1), v % 2 == 1);
    }
  }

  lemma ClearEnd(s: seq<bool>, last: bool)
    ensures Clear(s + [last]) <==> Clear(s) && !last
  {
    var t := s + [last];
    assert t[|s|] == last;
    if Clear(t) {
      forall i | 0 <= i < |s| ensures !s[i] { assert !t[i]; }
    }
  }

  // ------------------------------------------------------------------ bytes and bits

  lemma {:induction false} FlattenAdds(a: seq<Byte>, b: seq<Byte>)
    ensures Flatten(a + b) == Flatten(a) + Flatten(b)
  {
    hide BitsOf;
    if b == [] {
      assert a + b == a;
    } else {
      var front := b[..|b| - 1];
      FlattenAdds(a, front);
      assert (a + b)[..|a + b| - 1] == a + front;
    }
  }

  lemma FlattenOne(v: Byte)
    ensures Flatten([v]) == BitsOf(v, 8)
  {
    assert [v][..0] == [];
    assert Flatten([]) == [];
  }

  lemma FlattenByte(data: seq<Byte>, k: nat)
    requires k < |data|
    ensures Flatten(data)[8 * k..8 * k + 8] == BitsOf(data[k], 8)
  {
    assert data == data[..k] + [data[k]] + data[k + 1..];
    FlattenMiddle(data[..k], data[k], data[k + 1..]);
  }

  lemma FlattenMiddle(a: seq<Byte>, v: Byte, c: seq<Byte>)
    ensures Flatten(a + [v] + c) == Flatten(a) + BitsOf(v, 8) + Flatten(c)
  {
    FlattenAdds(a + [v], c);
    FlattenAdds(a, [v]);
    FlattenOne(v);
  }

  /** Whole bytes are determined by their bits. */
  lemma FlattenInjective(a: seq<Byte>, b: seq<Byte>)
    requires Flatten(a) == Flatten(b)
    ensures a == b
  {
    assert |a| == |b|;
    forall k | 0 <= k < |a| ensures a[k] == b[k] {
      FlattenByte(a, k);
      FlattenByte(b, k);
      Pow2Of8();
      SameBits(a[k], b[k], 8);
    }
  }

  lemma Pow2Of8()
    ensures Pow2(8) == 256
  {
    assert Pow2(4) == 16;
  }

  lemma Pow2Of24()
    ensures Pow2(8) == 0x100 && Pow2(16) == 0x1_0000 && Pow2(24) == 0x100_0000
  {
    Pow2Of8();
    Pow2Adds(8, 8);
    Pow2Adds(16, 8);
  }

  lemma Pow2Of56()
    ensures Pow2(32) == 0x1_0000_0000 && Pow2(40) == 0x100_0000_0000
    ensures Pow2(48) == 0x1_0000_0000_0000 && Pow2(56) == 0x100_0000_0000_0000
  {
    Pow2Of24();
    Pow2Adds(16, 16);
    Pow2Adds(32, 8);
    Pow2Adds(40, 8);
    Pow2Adds(48, 8);
  }

  lemma Pow2Eight(k: nat)
    requires k <= 8
    ensures Pow2(k) * Pow2(8 - k) == 256
  {
    Pow2Adds(k, 8 - k);
    Pow2Of8();
  }

  /** A partly used last byte: its used bits are its quotient, the unused ones are zero. */
  lemma LastByte(front: seq<Byte>, last: Byte, k: nat)
    requires 0 < k <= 8
    ensures var h := last / Pow2(8 - k);
      && 0 <= h < Pow2(k)
      && Content(front + [last], 8 * |front| + k) == Flatten(front) + BitsOf(h, k)
      && (Packed(front + [last], 8 * |front| + k) <==> last == h * Pow2(8 - k))
  {
    var h, low := last / Pow2(8 - k), last % Pow2(8 - k);
    UpperPart(last, k);
    Split(last, k, 8 - k);
    FlattenAdds(front, [last]);
    FlattenOne(last);
    ZeroBits(low, 8 - k);
    var all, tail := Flatten(front + [last]), BitsOf(low, 8 - k);
    var length := 8 * |front| + k;
    assert all == Flatten(front) + BitsOf(h, k) + tail;
    assert all[length..] == tail;
  }

  lemma UpperPart(v: Byte, k: nat)
    requires k <= 8
    ensures 0 <= v / Pow2(8 - k) < Pow2(k)
    ensures v == v / Pow2(8 - k) * Pow2(8 - k) + v % Pow2(8 - k)
  {
    Pow2Eight(k);
    var p, q := Pow2(8 - k), Pow2(k);
    var h := v / p;
    assert v == h * p + v % p;
    if h >= q { TimesGrows(q, h, p); }
  }

  // ------------------------------------------------------------------ writing a bit

  /** Setting one bit of the byte at an index, or not. */
  function BitSet(data: seq<Byte>, at: nat, weight: nat, value: bool): seq<Byte>
    requires at < |data| && weight < 8
  {
    if value then OrInByte(data[at], weight); data[at := Or(data[at], Pow2(weight))] else data
  }

  lemma OrInByte(v: Byte, weight: nat)
    requires weight < 8
    ensures Or(v, Pow2(weight)) < 256
  {
    Pow2Of8();
    Pow2Grows(weight, 8);
    OrBelow(v, Pow2(weight), 8);
  }

  /** A bit set in a byte whose lower part is free. */
  lemma BitAdded(h: nat, k: nat, value: bool)
    requires k < 8 && h < Pow2(k)
    ensures var b := h * Pow2(8 - k);
      && 0 <= b < 256
      && var c := if value then Or(b, Pow2(7 - k)) else b;
      && 0 <= c < 256
      && c == (2 * h + (if value then 1 else 0)) * Pow2(7 - k)
  {
    hide And, Or;
    var p, b := Pow2(7 - k), h * Pow2(8 - k);
    InByte(h, k);
    Halves(h, 0, p);
    Halves(h, 1, p);
    assert b == (2 * h) * p;
    Quotient(b, p, 2 * h, 0);
    OrBit(b, 7 - k);
    OrInByte(b, 7 - k);
    if value { assert b / p % 2 == 0; }
  }

  lemma InByte(h: nat, k: nat)
    requires k <= 8 && h < Pow2(k)
    ensures 0 <= h * Pow2(8 - k) && h * Pow2(8 - k) + Pow2(8 - k) <= 256
  {
    Pow2Eight(k);
    TimesGrows(0, h, Pow2(8 - k));
    TimesGrows(h + 1, Pow2(k), Pow2(8 - k));
  }

  /** The byte vector after a bit is written behind the first `length` bits. */
  function AfterBit(data: seq<Byte>, length: nat, value: bool): seq<Byte>
    requires |data| == (length + 7) / 8
  {
    var room := if length % 8 == 0 then data + [0] else data;
    BitSet(room, length / 8, 7 - length % 8, value)
  }

  lemma BitWritten(data: seq<Byte>, length: nat, value: bool)
    requires Packed(data, length)
    ensures Packed(AfterBit(data, length, value), length + 1)
    ensures Content(AfterBit(data, length, value), length + 1) == Content(data, length) + [value]
  {
    hide BitsOf;
    var k := length % 8;
    var front := data[..length / 8];
    var h: nat := UsedPart(data, length);
    var c := BitInByte(front, h, k, value);
    assert 8 * |front| + k == length;
    OneByteSet(data, length, value, c);
  }

  lemma OneByteSet(data: seq<Byte>, length: nat, value: bool, c: Byte)
    requires |data| == (length + 7) / 8
    requires var last := if length % 8 == 0 then 0 else data[length / 8];
      c == if value then Or(last, Pow2(7 - length % 8)) else last
    ensures AfterBit(data, length, value) == data[..length / 8] + [c]
  {
    var room := if length % 8 == 0 then data + [0] else data;
    assert room[length / 8 := c] == data[..length / 8] + [c];
    if !value { assert room[length / 8] == c; }
  }

  lemma BitInByte(front: seq<Byte>, h: nat, k: nat, value: bool) returns (c: Byte)
    requires k < 8 && h < Pow2(k)
    ensures h * Pow2(8 - k) >= 0
    ensures c == if value then Or(h * Pow2(8 - k), Pow2(7 - k)) else h * Pow2(8 - k)
    ensures Packed(front + [c], 8 * |front| + k + 1)
    ensures Content(front + [c], 8 * |front| + k + 1) == Flatten(front) + BitsOf(h, k) + [value]
  {
    hide *;
    BitAdded(h, k, value);
    c := if value then Or(h * Pow2(8 - k), Pow2(7 - k)) else h * Pow2(8 - k);
    UsedByte(front, c, 2 * h + (if value then 1 else 0), k + 1);
    NextBit(h, k, value);
  }

  /** A last byte that holds k digits in its upper part. */
  lemma UsedByte(front: seq<Byte>, last: Byte, h: nat, k: nat)
    requires 0 < k <= 8 && last == h * Pow2(8 - k)
    ensures Packed(front + [last], 8 * |front| + k)
    ensures Content(front + [last], 8 * |front| + k) == Flatten(front) + BitsOf(h, k)
  {
    Quotient(last, Pow2(8 - k), h, 0);
    LastByte(front, last, k);
  }

  lemma NextBit(h: nat, k: nat, value: bool)
    ensures BitsOf(2 * h + (if value then 1 else 0), k + 1) == BitsOf(h, k) + [value]
  {
  }

  /** The number that the used bits of the last byte write; all before it are whole bytes. */
  ghost function UsedPart(data: seq<Byte>, length: nat): (h: nat)
    requires Packed(data, length)
    ensures h < Pow2(length % 8)
    ensures Content(data, length) == Flatten(data[..length / 8]) + BitsOf(h, length % 8)
    ensures length % 8 != 0 ==> data[length / 8] == h * Pow2(8 - length % 8)
    ensures length % 8 == 0 ==> h == 0
  {
    var k := length % 8;
    if k == 0 then
      assert data == data[..length / 8];
      assert BitsOf(0, 0) == [];
      0
    else
      assert data == data[..length / 8] + [data[length / 8]];
      LastByte(data[..length / 8], data[length / 8], k);
      data[length / 8] / Pow2(8 - k)
  }

  // ------------------------------------------------------------------ writing a byte

  /** A byte distributed over the last byte, of which l1 bits are used, and a new one. */
  function SplitPut(data: seq<Byte>, l1: nat, value: Byte): (after: seq<Byte>)
    requires data != [] && 0 < l1 < 8
    ensures |after| == |data| + 1
  {
    var l2, last := 8 - l1, |data| - 1;
    ByteParts(data[last], value, l1);
    data[last := Or(data[last], And(value, 255 * Pow2(l2)) / Pow2(l2))] + [And(value, 255 / Pow2(l1)) * Pow2(l1)]
  }

  /** The byte vector after a byte is written behind the first `length` bits. */
  function AfterByte(data: seq<Byte>, length: nat, value: Byte): (after: seq<Byte>)
    requires |data| == (length + 7) / 8
    ensures |after| == |data| + 1
  {
    if length % 8 == 0 then data + [value] else SplitPut(data, length % 8, value)
  }

  lemma ByteParts(last: Byte, value: Byte, l1: nat)
    requires 0 < l1 < 8
    ensures var l2 := 8 - l1;
      && 255 * Pow2(l2) >= 0 && 255 / Pow2(l1) >= 0
      && And(value, 255 * Pow2(l2)) / Pow2(l2) == value / Pow2(l2) >= 0
      && Or(last, value / Pow2(l2)) < 256
      && And(value, 255 / Pow2(l1)) * Pow2(l1) == value % Pow2(l2) * Pow2(l1)
      && 0 <= value % Pow2(l2) * Pow2(l1) < 256
  {
    HighPart(value, l1);
    LowPart(value, l1);
    Pow2Of8();
    OrBelow(last, value / Pow2(8 - l1), 8);
  }

  lemma HighPart(value: Byte, l1: nat)
    requires 0 < l1 < 8
    ensures var q := Pow2(8 - l1);
      255 * q >= 0 && And(value, 255 * q) / q == value / q && 0 <= value / q < 256
  {
    hide *;
    var l2 := 8 - l1;
    var q := Pow2(l2);
    UpperPart(value, l1);
    Pow2Eight(l1);
    Pow2Of8();
    Pow2Adds(8, l2);
    Pow2Grows(8, 8 + l2);
    Pow2Grows(l1, 8);
    HighBits(value, l2, 8 + l2, 255 * q);
    Quotient(value - value % q, q, value / q, 0);
  }

  lemma LowPart(value: Byte, l1: nat)
    requires 0 < l1 < 8
    ensures var p, q := Pow2(l1), Pow2(8 - l1);
      255 / p >= 0 && And(value, 255 / p) == value % q && 0 <= value % q * p < 256
  {
    hide *;
    var p, q := Pow2(l1), Pow2(8 - l1);
    Pow2Eight(l1);
    TimesGrows(1, q, p);
    Quotient(255, p, q - 1, p - 1);
    AndMask(value, 8 - l1);
    TimesGrows(0, value % q, p);
    TimesGrows(value % q + 1, q, p);
  }

  /** Where the two shifts leave the lower eight bits of what they produce. */
  ghost function Shifted(value: Byte, p: int, q: int): int
    requires p > 0 && q > 0
  {
    value / q % q * p + value % q * p / q
  }

  /** Nowhere but at four do they come out as the byte. */
  lemma Scrambled(k: nat, value: Byte)
    requires 0 < k < 8 && k != 4 && value != 0
    ensures Shifted(value, Pow2(k), Pow2(8 - k)) != value
  {
    assert Pow2(1) == 2 && Pow2(7) == 128 by { Pow2Eight(1); }
    assert Pow2(2) == 4 && Pow2(6) == 64 by { Pow2Eight(2); }
    assert Pow2(3) == 8 && Pow2(5) == 32 by { Pow2Eight(3); }
    if k < 4 {
      ShiftedDown(value, Pow2(k), Pow2(8 - k));
    } else {
      ShiftedUp(value);
    }
  }

  lemma ShiftedDown(value: Byte, p: int, q: int)
    requires value > 0 && p > 0 && 4 * p <= q
    ensures Shifted(value, p, q) < value
  {
    hide Pow2, And, Or, BitsOf;
    var a, b := value / q, value % q;
    NonnegativeQuotient(value, q);
    assert value == a * q + b;
    Quarter(b, p, q);
    TimesGrows(4 * p, q, a);
    assert a * (4 * p) == 4 * (a * p);
    RemainderBelow(a, q);
    TimesGrows(a % q, a, p);
    assert Shifted(value, p, q) == a % q * p + b * p / q;
  }

  lemma RemainderBelow(a: nat, q: int)
    requires q > 0
    ensures 0 <= a % q <= a
  {
    NonnegativeQuotient(a, q);
    TimesGrows(0, a / q, q);
    assert a == a / q * q + a % q;
  }

  lemma Quarter(b: nat, p: int, q: int)
    requires p > 0 && 4 * p <= q
    ensures 4 * (b * p / q) <= b
  {
    var c := b * p / q;
    assert b * p == c * q + b * p % q;
    TimesGrows(4 * p, q, b);
    assert b * (4 * p) == 4 * (b * p);
    if 4 * c > b { TimesGrows(b + 1, 4 * c, q); }
  }

  lemma ShiftedUp(value: Byte)
    requires value > 0
    ensures Shifted(value, 32, 8) != value
    ensures Shifted(value, 64, 4) != value
    ensures Shifted(value, 128, 2) != value
  {
    assert Shifted(value, 32, 8) != value by {
      var a, b, d := value / 8 % 8, value % 8, value / 8 / 8;
      assert Shifted(value, 32, 8) == a * 32 + b * 4;
      NoneBut(a * 8 + b, d, 3, 64);
    }
    assert Shifted(value, 64, 4) != value by {
      var a, b, d := value / 4 % 4, value % 4, value / 4 / 4;
      assert Shifted(value, 64, 4) == a * 64 + b * 16;
      NoneBut(a * 4 + b, d, 15, 16);
    }
    assert Shifted(value, 128, 2) != value by {
      var a, b, d := value / 2 % 2, value % 2, value / 2 / 2;
      assert Shifted(value, 128, 2) == a * 128 + b * 64;
      NoneBut(a * 2 + b, d, 63, 4);
    }
  }

  /** An odd multiple of a number below a power of two is no multiple of that power. */
  lemma NoneBut(w: int, d: int, m: int, n: int)
    requires (m == 3 && n == 64) || (m == 15 && n == 16) || (m == 63 && n == 4)
    requires 0 <= w < n
    ensures m * w == n * d ==> w == 0
  {
  }

  /** The two bytes at the end of the vector after an unaligned write, read as one number. */
  ghost function TwoBytes(h: nat, value: Byte, p: int, q: int): int
    requires p > 0 && q > 0 && h * q >= 0 && value / q >= 0
  {
    Or(h * q, value / q) * p + value % q * p / q
  }

  /** They are the h in front and the byte exactly when the offset is four or the byte is zero. */
  lemma TwoBytesRight(h: nat, k: nat, value: Byte)
    requires 0 < k < 8 && h < Pow2(k)
    ensures var p, q := Pow2(k), Pow2(8 - k);
      && h * q >= 0 && value / q >= 0
      && (TwoBytes(h, value, p, q) == h * 256 + value <==> k == 4 || value == 0)
  {
    InByte(h, k);
    NonnegativeQuotient(value, Pow2(8 - k));
    if k == 4 {
      AtFour(h, value);
    } else if value == 0 {
      OfZero(h, k);
    } else {
      Elsewhere(h, k, value);
    }
  }

  lemma AtFour(h: nat, value: Byte)
    requires h < Pow2(4)
    ensures h * Pow2(4) >= 0 && value / Pow2(4) >= 0
    ensures TwoBytes(h, value, Pow2(4), Pow2(4)) == h * 256 + value
  {
    assert Pow2(4) == 16;
    Quotient(h * 16, 16, h, 0);
    OrDisjoint(value / 16, h * 16, 4);
    assert TwoBytes(h, value, 16, 16) == (h * 16 + value / 16) * 16 + value % 16 * 16 / 16;
  }

  lemma OfZero(h: nat, k: nat)
    requires 0 < k < 8 && h < Pow2(k)
    ensures h * Pow2(8 - k) >= 0 && 0 / Pow2(8 - k) >= 0
    ensures TwoBytes(h, 0, Pow2(k), Pow2(8 - k)) == h * 256
  {
    var p, q := Pow2(k), Pow2(8 - k);
    InByte(h, k);
    Pow2Eight(k);
    Quotient(0, q, 0, 0);
    assert Or(h * q, 0) == h * q;
    Regroup(h, q, p);
    assert 0 * p == 0;
  }

  lemma Regroup(h: int, q: int, p: int)
    ensures h * q * p == h * (p * q)
  {
  }

  lemma Elsewhere(h: nat, k: nat, value: Byte)
    requires 0 < k < 8 && h < Pow2(k) && k != 4 && value != 0
    ensures h * Pow2(8 - k) >= 0 && value / Pow2(8 - k) >= 0
    ensures TwoBytes(h, value, Pow2(k), Pow2(8 - k)) != h * 256 + value
  {
    var p, q := Pow2(k), Pow2(8 - k);
    InByte(h, k);
    Pow2Eight(k);
    NonnegativeQuotient(value, q);
    Quotient(h * q, q, h, 0);
    OrLow(h * q, value / q, 8 - k);
    Scrambled(k, value);
    BelowQuotient(value % q, p, q);
    LowEight(Or(h * q, value / q), p, q, value / q % q, value % q * p / q, h, value);
  }

  lemma BelowQuotient(x: int, p: int, q: int)
    requires p > 0 && q > 0 && 0 <= x < q
    ensures 0 <= x * p / q < p
  {
    TimesGrows(0, x, p);
    TimesGrows(x + 1, q, p);
    NonnegativeQuotient(x * p, q);
    var c := x * p / q;
    assert x * p == c * q + x * p % q;
    if c >= p { TimesGrows(p, c, q); }
  }

  lemma LowEight(b: int, p: int, q: int, low: int, rest: int, h: int, value: Byte)
    requires p > 0 && q > 0 && p * q == 256 && b % q == low && 0 <= rest < p
    requires low * p + rest != value
    ensures b * p + rest != h * 256 + value
  {
    var c := b / q;
    assert b == c * q + low;
    assert b * p == c * 256 + low * p by { assert c * q * p == c * (q * p); }
    TimesGrows(0, low, p);
    TimesGrows(low + 1, q, p);
  }

  /** Offsets at which the two shift amounts of an unaligned write are right. */
  predicate ByteSafe(length: nat) {
    length % 8 == 0 || length % 8 == 4
  }

  /** Writing a byte appends its bits exactly when the offset is safe or the byte is zero. */
  lemma ByteWritten(data: seq<Byte>, length: nat, value: Byte)
    requires Packed(data, length)
    ensures Content(AfterByte(data, length, value), length + 8) == Content(data, length) + BitsOf(value, 8)
       <==> ByteSafe(length) || value == 0
    ensures ByteSafe(length) || value == 0 ==> Packed(AfterByte(data, length, value), length + 8)
  {
    hide Pow2, And, Or, BitsOf;
    var k := length % 8;
    if k == 0 {
      assert length == 8 * |data|;
      AlignedByte(data, value);
    } else {
      var front, h := Ending(data, length);
      UnalignedByte(data, length, front, h, k, value);
    }
  }

  lemma Ending(data: seq<Byte>, length: nat) returns (front: seq<Byte>, h: nat)
    requires Packed(data, length) && length % 8 != 0
    ensures h < Pow2(length % 8) && 0 <= h * Pow2(8 - length % 8) < 256
    ensures data == front + [h * Pow2(8 - length % 8)] && length == 8 * |front| + length % 8
    ensures Content(data, length) == Flatten(front) + BitsOf(h, length % 8)
  {
    front, h := data[..length / 8], UsedPart(data, length);
    assert data == front + [data[length / 8]];
  }

  lemma AlignedByte(data: seq<Byte>, value: Byte)
    ensures Packed(data + [value], 8 * |data| + 8)
    ensures Content(data + [value], 8 * |data| + 8) == Content(data, 8 * |data|) + BitsOf(value, 8)
  {
    hide BitsOf;
    FlattenAdds(data, [value]);
    FlattenOne(value);
  }

  lemma UnalignedByte(data: seq<Byte>, length: nat, front: seq<Byte>, h: nat, k: nat, value: Byte)
    requires 0 < k < 8 && h < Pow2(k) && 0 <= h * Pow2(8 - k) < 256
    requires data == front + [h * Pow2(8 - k)] && length == 8 * |front| + k
    ensures var after := SplitPut(data, k, value);
      && (Content(after, length + 8) == Flatten(front) + BitsOf(h, k) + BitsOf(value, 8) <==> k == 4 || value == 0)
      && (k == 4 || value == 0 ==> Packed(after, length + 8))
  {
    var p, q := Pow2(k), Pow2(8 - k);
    ByteParts(h * q, value, k);
    BelowQuotient(value % q, p, q);
    var b1: Byte, b2: Byte := Or(h * q, value / q), value % q * p;
    TwoBytesPushed(front, h * q, k, value);
    TwoByteContent(front, b1, b2, k);
    TwoBytesRight(h, k, value);
    TwoNumbers(b1, b2 / q, h, k, value);
    SamePrefix(Flatten(front), BitsOf(b1, 8) + BitsOf(b2 / q, k), BitsOf(h, k), BitsOf(value, 8));
    if k == 4 || value == 0 { NoRemainder(value, k); }
  }

  lemma TwoBytesPushed(front: seq<Byte>, last: Byte, k: nat, value: Byte)
    requires 0 < k < 8
    ensures var p, q := Pow2(k), Pow2(8 - k);
      && value / q >= 0 && Or(last, value / q) < 256 && 0 <= value % q * p < 256
      && SplitPut(front + [last], k, value) == front + [Or(last, value / q)] + [value % q * p]
  {
    ByteParts(last, value, k);
    var data := front + [last];
    var b := Or(last, value / Pow2(8 - k));
    assert data[|front| := b] == front + [b];
  }

  lemma SamePrefix(f: seq<bool>, x: seq<bool>, y: seq<bool>, z: seq<bool>)
    ensures f + x == f + y + z <==> x == y + z
  {
    assert f + y + z == f + (y + z);
    assert (f + x)[|f|..] == x;
    assert (f + (y + z))[|f|..] == y + z;
  }

  lemma TwoByteContent(front: seq<Byte>, b1: Byte, b2: Byte, k: nat)
    requires 0 < k < 8
    ensures b2 / Pow2(8 - k) >= 0
    ensures Content(front + [b1] + [b2], 8 * |front| + k + 8)
         == Flatten(front) + (BitsOf(b1, 8) + BitsOf(b2 / Pow2(8 - k), k))
    ensures b2 == b2 / Pow2(8 - k) * Pow2(8 - k) ==> Packed(front + [b1] + [b2], 8 * |front| + k + 8)
  {
    LastByte(front + [b1], b2, k);
    FlattenAdds(front, [b1]);
    FlattenOne(b1);
    SamePrefix(Flatten(front), BitsOf(b1, 8) + BitsOf(b2 / Pow2(8 - k), k), BitsOf(b1, 8), BitsOf(b2 / Pow2(8 - k), k));
  }

  /** Two digit strings of the same length, compared by the numbers they write. */
  lemma TwoNumbers(b1: Byte, h2: nat, h: nat, k: nat, value: Byte)
    requires h < Pow2(k) && h2 < Pow2(k)
    ensures BitsOf(b1, 8) + BitsOf(h2, k) == BitsOf(h, k) + BitsOf(value, 8)
       <==> b1 * Pow2(k) + h2 == h * 256 + value
  {
    var x := LowDigits(b1, h2, k);
    var y := HighDigits(h, value, k);
    SameBits(x, y, 8 + k);
  }

  lemma LowDigits(b: Byte, h: nat, k: nat) returns (x: nat)
    requires h < Pow2(k)
    ensures x == b * Pow2(k) + h && x < Pow2(8 + k)
    ensures BitsOf(x, 8 + k) == BitsOf(b, 8) + BitsOf(h, k)
  {
    Joined(b, 8, h, k);
    Pow2Of8();
    Pow2Adds(8, k);
    TimesGrows(b + 1, 256, Pow2(k));
    x := b * Pow2(k) + h;
  }

  lemma HighDigits(h: nat, b: Byte, k: nat) returns (x: nat)
    requires h < Pow2(k)
    ensures x == h * 256 + b && x < Pow2(8 + k)
    ensures BitsOf(x, 8 + k) == BitsOf(h, k) + BitsOf(b, 8)
  {
    Pow2Of8();
    Joined(h, k, b, 8);
    Pow2Adds(8, k);
    x := h * 256 + b;
  }

  lemma NoRemainder(value: Byte, k: nat)
    requires 0 < k < 8 && (k == 4 || value == 0)
    ensures var p, q := Pow2(k), Pow2(8 - k);
      value % q * p == value % q * p / q * q
  {
    var p, q := Pow2(k), Pow2(8 - k);
    if value == 0 {
      Quotient(0, q, 0, 0);
      assert 0 * p == 0 && 0 * q == 0;
    } else {
      assert p == q;
      Quotient(value % q * q, q, value % q, 0);
    }
  }

  // ------------------------------------------------------------------ reading a byte

  /** The byte that is put together from the two bytes around a position. */
  function PairRead(a: Byte, b: Byte, l1: nat): (r: Byte)
    requires 0 < l1 < 8
  {
    ReadParts(a, b, l1);
    Or(a * Pow2(l1) % 256, b / Pow2(8 - l1))
  }

  function ByteRead(data: seq<Byte>, position: nat): (r: Byte)
    requires position + 8 <= 8 * |data|
  {
    if position % 8 == 0 then data[position / 8]
    else PairRead(data[position / 8], data[position / 8 + 1], position % 8)
  }

  lemma ReadParts(a: Byte, b: Byte, l1: nat)
    requires 0 < l1 < 8
    ensures var p, q := Pow2(l1), Pow2(8 - l1);
      && 0 <= b / q < p
      && a * p % 256 == a % q * p
      && Or(a * p % 256, b / q) == a % q * p + b / q < 256
  {
    var p, q := Pow2(l1), Pow2(8 - l1);
    UpperPart(b, l1);
    Pow2Eight(l1);
    ShiftedOut(a, p, q);
    Quotient(a % q * p, p, a % q, 0);
    OrDisjoint(b / q, a % q * p, l1);
  }

  lemma ShiftedOut(a: int, p: int, q: int)
    requires p > 0 && q > 0 && p * q == 256
    ensures a * p % 256 == a % q * p && 0 <= a % q * p <= 256 - p
  {
    var c, d := a / q, a % q;
    Distribute(c, d, p, q);
    TimesGrows(0, d, p);
    TimesGrows(d + 1, q, p);
    Quotient(a * p, 256, c, d * p);
  }

  lemma Distribute(c: int, d: int, p: int, q: int)
    ensures (c * q + d) * p == c * (p * q) + d * p
  {
    assert (c * q + d) * p == c * q * p + d * p;
    assert c * q * p == c * (p * q);
  }

  /** What is read are the next eight bits, at every position. */
  lemma ByteReadRight(data: seq<Byte>, position: nat)
    requires position + 8 <= 8 * |data|
    ensures BitsOf(ByteRead(data, position), 8) == Flatten(data)[position..position + 8]
  {
    var at, l1 := position / 8, position % 8;
    assert position == 8 * at + l1;
    if l1 == 0 {
      FlattenByte(data, at);
      assert position == 8 * at;
    } else {
      StraddlingByte(data, position, at, l1);
    }
  }

  lemma StraddlingByte(data: seq<Byte>, position: nat, at: nat, l1: nat)
    requires 0 < l1 < 8 && at + 1 < |data|
    requires position == 8 * at + l1 && at == position / 8 && l1 == position % 8
    ensures BitsOf(ByteRead(data, position), 8) == Flatten(data)[position..position + 8]
  {
    BytePair(data, at, l1);
  }

  lemma BytePair(data: seq<Byte>, at: nat, l1: nat)
    requires 0 < l1 < 8 && at + 1 < |data|
    ensures BitsOf(PairRead(data[at], data[at + 1], l1), 8) == Flatten(data)[8 * at + l1..8 * at + l1 + 8]
  {
    var x, y := BitsOf(data[at], 8), BitsOf(data[at + 1], 8);
    NeighbourBytes(data, at);
    Straddling(Flatten(data), 8 * at, l1, x, y);
    PairBits(data[at], data[at + 1], l1);
  }

  lemma NeighbourBytes(data: seq<Byte>, at: nat)
    requires at + 1 < |data|
    ensures Flatten(data)[8 * at..8 * at + 8] == BitsOf(data[at], 8)
    ensures Flatten(data)[8 * at + 8..8 * at + 16] == BitsOf(data[at + 1], 8)
  {
    FlattenByte(data, at);
    FlattenByte(data, at + 1);
    assert 8 * (at + 1) == 8 * at + 8;
  }

  lemma PairBits(a: Byte, b: Byte, l1: nat)
    requires 0 < l1 < 8
    ensures BitsOf(PairRead(a, b, l1), 8) == BitsOf(a, 8)[l1..] + BitsOf(b, 8)[..l1]
  {
    hide Pow2, And, Or, BitsOf;
    ReadParts(a, b, l1);
    Joined(a % Pow2(8 - l1), 8 - l1, b / Pow2(8 - l1), l1);
    LowerBits(a, l1);
    UpperBits(b, l1);
  }

  lemma LowerBits(a: Byte, l1: nat)
    requires l1 < 8
    ensures BitsOf(a % Pow2(8 - l1), 8 - l1) == BitsOf(a, 8)[l1..]
  {
    Split(a, l1, 8 - l1);
  }

  lemma UpperBits(b: Byte, l1: nat)
    requires l1 < 8
    ensures b / Pow2(8 - l1) >= 0
    ensures BitsOf(b / Pow2(8 - l1), l1) == BitsOf(b, 8)[..l1]
  {
    Split(b, l1, 8 - l1);
  }

  lemma Straddling(s: seq<bool>, at: nat, l1: nat, x: seq<bool>, y: seq<bool>)
    requires l1 < 8 && at + 16 <= |s| && s[at..at + 8] == x && s[at + 8..at + 16] == y
    ensures |x| == |y| == 8 && s[at + l1..at + l1 + 8] == x[l1..] + y[..l1]
  {
  }

  // ------------------------------------------------------------------ numbers of several bytes

  /** Big endian: most significant byte first. */
  function BeBytes(v: nat, n: nat): (s: seq<Byte>)
    ensures |s| == n
  {
    if n == 0 then [] else BeBytes(v / 256, n - 1) + [v % 256]
  }

  function BeValue(s: seq<Byte>): (v: nat) {
    if s == [] then 0 else BeValue(s[..|s| - 1]) * 256 + s[|s| - 1]
  }

  /** Little endian: least significant byte first. */
  function LeBytes(v: nat, n: nat): (s: seq<Byte>)
    ensures |s| == n
  {
    if n == 0 then [] else [v % 256] + LeBytes(v / 256, n - 1)
  }

  function LeValue(s: seq<Byte>): (v: nat) {
    if s == [] then 0 else s[0] + 256 * LeValue(s[1..])
  }

  /** The bytes of a number in big endian order hold its binary digits. */
  lemma {:induction false} BeBytesBits(v: nat, n: nat)
    ensures Flatten(BeBytes(v, n)) == BitsOf(v, 8 * n)
    decreases n
  {
    if n > 0 {
      BeBytesBits(v / 256, n - 1);
      Pow2Of8();
      Split(v, 8 * (n - 1), 8);
      var s := BeBytes(v, n);
      assert s[..n - 1] == BeBytes(v / 256, n - 1);
    }
  }

  lemma {:induction false} BeRoundTrip(v: nat, n: nat)
    ensures BeValue(BeBytes(v, n)) == v % Pow2(8 * n)
    decreases n
  {
    if n > 0 {
      BeRoundTrip(v / 256, n - 1);
      var s := BeBytes(v, n);
      assert s[..n - 1] == BeBytes(v / 256, n - 1);
      OneByteMore(v, n);
    } else {
      assert v % Pow2(0) == 0;
    }
  }

  lemma {:induction false} LeRoundTrip(v: nat, n: nat)
    ensures LeValue(LeBytes(v, n)) == v % Pow2(8 * n)
    decreases n
  {
    if n > 0 {
      LeRoundTrip(v / 256, n - 1);
      var s := LeBytes(v, n);
      assert s[1..] == LeBytes(v / 256, n - 1);
      OneByteMore(v, n);
    } else {
      assert v % Pow2(0) == 0;
    }
  }

  lemma OneByteMore(v: nat, n: nat)
    requires n > 0
    ensures v % Pow2(8 * n) == v / 256 % Pow2(8 * (n - 1)) * 256 + v % 256
  {
    var p := Pow2(8 * (n - 1));
    Pow2Of8();
    Pow2Adds(8, 8 * (n - 1));
    var q, r := v / 256 / p, v / 256 % p;
    assert v / 256 == q * p + r;
    assert q * (256 * p) == 256 * (q * p);
    Quotient(v, 256 * p, q, r * 256 + v % 256);
  }

  lemma {:induction false} BeBounded(s: seq<Byte>)
    ensures BeValue(s) < Pow2(8 * |s|)
    ensures BeBytes(BeValue(s), |s|) == s
  {
    if s != [] {
      BeBounded(s[..|s| - 1]);
      Pow2Of8();
      Pow2Adds(8, 8 * (|s| - 1));
      assert s == s[..|s| - 1] + [s[|s| - 1]];
    }
  }

  // ------------------------------------------------------------------ typed writes and reads

  /** One typed write: a bit, a number of some bits most significant first, a number of some bytes least
      significant byte first, or bytes. */
  datatype Item = Flag(on: bool) | Number(value: nat, width: nat) | Swapped(value: nat, bytes: nat)
          | Bytes(text: seq<Byte>)

  function Encoding(item: Item): (s: seq<bool>)
    ensures |s| == Width(item)
  {
    match item
    case Flag(on) => [on]
    case Number(value, width) => BitsOf(value, width)
    case Swapped(value, bytes) => Flatten(LeBytes(value, bytes))
    case Bytes(text) => Flatten(text)
  }

  function Width(item: Item): nat {
    match item
    case Flag(_) => 1
    case Number(_, width) => width
    case Swapped(_, bytes) => 8 * bytes
    case Bytes(text) => 8 * |text|
  }

  predicate Fits(item: Item) {
    match item
    case Flag(_) => true
    case Number(value, width) => value < Pow2(width)
    case Swapped(value, bytes) => value < Pow2(8 * bytes)
    case Bytes(_) => true
  }

  /** The read that belongs to a typed write. */
  function Decoding(shape: Item, s: seq<bool>): Item
    requires |s| == Width(shape)
  {
    match shape
    case Flag(_) => Flag(s[0])
    case Number(_, width) => Number(ValueOf(s), width)
    case Swapped(_, bytes) => Swapped(LeValue(BytesIn(s, bytes)), bytes)
    case Bytes(text) => Bytes(BytesIn(s, |text|))
  }

  /** The next byte of a bit sequence; nothing when it is not there completely. */
  function NextByte(s: seq<bool>): Byte {
    if |s| >= 8 then ByteOf(s[..8]) else 0
  }

  function ByteOf(s: seq<bool>): Byte
    requires |s| == 8
  {
    Pow2Of8();
    ValueOf(s)
  }

  function SkipBytes(s: seq<bool>, n: nat): seq<bool> {
    if |s| >= 8 * n then s[8 * n..] else []
  }

  function BytesIn(s: seq<bool>, n: nat): (bytes: seq<Byte>)
    ensures |bytes| == n
    decreases n
  {
    if n == 0 then [] else [NextByte(s)] + BytesIn(SkipBytes(s, 1), n - 1)
  }

  lemma {:induction false} ByteIsNext(s: seq<bool>, n: nat, k: nat)
    requires k < n
    ensures BytesIn(s, n)[k] == NextByte(SkipBytes(s, k))
    decreases k
  {
    hide NextByte, SkipBytes;
    if k > 0 {
      ByteIsNext(SkipBytes(s, 1), n - 1, k - 1);
      SkipsAdd(s, 1, k - 1);
    } else {
      SkipNothing(s);
    }
  }

  lemma SkipNothing(s: seq<bool>)
    ensures SkipBytes(s, 0) == s
  {
  }

  /** The k-th byte read is the k-th eight bits, or zero when these are not there completely. */
  lemma ByteInAt(s: seq<bool>, n: nat, k: nat)
    requires k < n
    ensures BytesIn(s, n)[k] == if 8 * k + 8 <= |s| then ByteOf(s[8 * k..8 * k + 8]) else 0
  {
    hide ByteOf, BytesIn;
    ByteIsNext(s, n, k);
    if 8 * k + 8 <= |s| { assert s[8 * k..][..8] == s[8 * k..8 * k + 8]; }
  }

  lemma {:induction false} BytesThere(bytes: seq<Byte>, rest: seq<bool>)
    ensures BytesIn(Flatten(bytes) + rest, |bytes|) == bytes
    ensures SkipBytes(Flatten(bytes) + rest, |bytes|) == rest
  {
    if bytes == [] {
      assert Flatten(bytes) + rest == rest;
    } else {
      var tail := Flatten(bytes[1..]) + rest;
      FlattenAdds([bytes[0]], bytes[1..]);
      FlattenOne(bytes[0]);
      assert bytes == [bytes[0]] + bytes[1..];
      assert Flatten(bytes) + rest == BitsOf(bytes[0], 8) + tail;
      ByteThere(bytes[0], tail);
      BytesThere(bytes[1..], rest);
      SkipsAdd(Flatten(bytes) + rest, 1, |bytes| - 1);
    }
  }

  lemma ByteThere(b: Byte, rest: seq<bool>)
    ensures NextByte(BitsOf(b, 8) + rest) == b
    ensures SkipBytes(BitsOf(b, 8) + rest, 1) == rest
  {
    hide BitsOf;
    var s := BitsOf(b, 8) + rest;
    assert s[..8] == BitsOf(b, 8) && s[8..] == rest;
    Pow2Of8();
    ValueOfBits(b, 8);
  }

  lemma SkipsAdd(s: seq<bool>, m: nat, n: nat)
    ensures SkipBytes(SkipBytes(s, m), n) == SkipBytes(s, m + n)
  {
  }

  function AllWritten(items: seq<Item>): seq<bool> {
    if items == [] then [] else Encoding(items[0]) + AllWritten(items[1..])
  }

  /** Reading with the same types one after the other, as long as the bits last. */
  function AllRead(shapes: seq<Item>, s: seq<bool>): seq<Item>
    decreases |shapes|
  {
    if shapes == [] || |s| < Width(shapes[0]) then []
    else [Decoding(shapes[0], s[..Width(shapes[0])])] + AllRead(shapes[1..], s[Width(shapes[0])..])
  }

  lemma DecodesEncoding(item: Item)
    requires Fits(item)
    ensures Decoding(item, Encoding(item)) == item
  {
    match item {
      case Flag(_) =>
      case Number(value, width) =>
        ValueOfBits(value, width);
        Quotient(value, Pow2(width), 0, value);
      case Swapped(value, bytes) =>
        BytesThere(LeBytes(value, bytes), []);
        assert Flatten(LeBytes(value, bytes)) + [] == Flatten(LeBytes(value, bytes));
        LeRoundTrip(value, bytes);
        Quotient(value, Pow2(8 * bytes), 0, value);
      case Bytes(text) =>
        BytesThere(text, []);
        assert Flatten(text) + [] == Flatten(text);
    }
  }

  /** Reading back any sequence of typed writes returns the same values, whatever follows. */
  lemma {:induction false} ReadBack(items: seq<Item>, rest: seq<bool>)
    requires forall i :: 0 <= i < |items| ==> Fits(items[i])
    ensures AllRead(items, AllWritten(items) + rest) == items
  {
    if items != [] {
      FirstWritten(items, rest);
      DecodesEncoding(items[0]);
      ReadBack(items[1..], rest);
    }
  }

  lemma FirstWritten(items: seq<Item>, rest: seq<bool>)
    requires items != []
    ensures var s, w := AllWritten(items) + rest, Width(items[0]);
      |s| >= w && s[..w] == Encoding(items[0]) && s[w..] == AllWritten(items[1..]) + rest
  {
    assert AllWritten(items) + rest == Encoding(items[0]) + (AllWritten(items[1..]) + rest);
  }

  /** The bytes found in a bit sequence hold its bits. */
  lemma {:induction false} BytesInBits(s: seq<bool>, n: nat)
    requires |s| >= 8 * n
    ensures Flatten(BytesIn(s, n)) == s[..8 * n]
    decreases n
  {
    hide ValueOf, BitsOf, Pow2;
    if n > 0 {
      var t := SkipBytes(s, 1);
      BytesInBits(t, n - 1);
      FlattenAdds([NextByte(s)], BytesIn(t, n - 1));
      FlattenOne(NextByte(s));
      BitsOfValue(s[..8]);
      assert s[..8 * n] == s[..8] + t[..8 * (n - 1)];
    }
  }

  /** Reading a number byte by byte, most significant first, is reading its bits. */
  lemma BeValueIn(s: seq<bool>, n: nat)
    requires |s| >= 8 * n
    ensures BeValue(BytesIn(s, n)) == ValueOf(s[..8 * n])
  {
    var bytes := BytesIn(s, n);
    var v := BeValue(bytes);
    BytesInBits(s, n);
    BeBounded(bytes);
    BeBytesBits(v, n);
    ValueOfBits(v, 8 * n);
    Quotient(v, Pow2(8 * n), 0, v);
  }

  /** Bytes found at the start of a bit sequence do not depend on what follows. */
  lemma {:induction false} BytesInFront(s: seq<bool>, n: nat)
    requires |s| >= 8 * n
    ensures BytesIn(s[..8 * n], n) == BytesIn(s, n)
  {
    BytesInBits(s, n);
    BytesThere(BytesIn(s, n), []);
    assert Flatten(BytesIn(s, n)) + [] == s[..8 * n];
  }

  lemma {:induction false} AllWrittenAdds(items: seq<Item>, item: Item)
    ensures AllWritten(items + [item]) == AllWritten(items) + Encoding(item)
  {
    if items == [] {
      assert [] + [item] == [item] && [item][1..] == [];
    } else {
      assert (items + [item])[1..] == items[1..] + [item];
      AllWrittenAdds(items[1..], item);
    }
  }
}
