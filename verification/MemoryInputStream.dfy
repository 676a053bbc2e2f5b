/** The stream that typed values are read from. */
module MemoryInputStreams {

  import opened BitStreams
  import opened Bits
  import opened Lists

  class MemoryInputStream {
    const data: seq<Byte>
    const length: nat
    var position: nat
    var isReadBeyondEnd: bool

    /** The bits that have not been read yet. */
    ghost var rest: seq<bool>

    ghost predicate Valid()
      reads this
    {
      && position <= length <= 8 * |data|
      && rest == Flatten(data)[position..length]
    }

    constructor (data: seq<Byte>, length: nat, position: nat)
      requires position <= length <= 8 * |data|
      ensures Valid() && !isReadBeyondEnd
      ensures this.data == data && this.length == length && this.position == position
      ensures rest == Content(data, length)[position..]
    {
      this.data, this.length, this.position := data, length, position;
      isReadBeyondEnd := false;
      rest := Flatten(data)[position..length];
    }

    method Seek(position: nat)
      requires Valid() && position <= length
      modifies this`position, this`rest
      ensures Valid() && this.position == position && rest == Content(data, length)[position..]
    {
      this.position := position;
      rest := Flatten(data)[position..length];
    }

    /** Beyond the end every bit reads as zero. */
    method ReadBit() returns (r: bool)
      requires Valid()
      modifies this`position, this`isReadBeyondEnd, this`rest
      ensures Valid() && r == FirstBit(old(rest)) && rest == SkipBits(old(rest), 1)
      ensures isReadBeyondEnd == ReadsBeyond(old(isReadBeyondEnd), |old(rest)|, 1)
    {
      if position == length {
        isReadBeyondEnd := true;
        return false;
      }
      var byteIndex := position / 8;
      var bitIndex := position % 8;
      var byte := data[byteIndex];
      BitThere(data, position);
      AndBit(byte, 7 - bitIndex);
      r := And(byte, Pow2(7 - bitIndex)) != 0;
      position := position + 1;
      rest := rest[1..];
    }

    /** A byte that is not there completely reads as zero and ends the stream. */
    method ReadByte() returns (r: Byte)
      requires Valid()
      modifies this`position, this`isReadBeyondEnd, this`rest
      ensures Valid() && r == NextByte(old(rest)) && rest == SkipBytes(old(rest), 1)
      ensures isReadBeyondEnd == ReadsBeyond(old(isReadBeyondEnd), |old(rest)|, 8)
    {
      if position + 8 > length {
        isReadBeyondEnd := true;
        position := length;
        rest := [];
        return 0;
      }
      ByteReadNext(data, position, length);
      r := GetByte();
      position := position + 8;
      rest := rest[8..];
    }

    method GetByte() returns (r: Byte)
      requires position + 8 <= 8 * |data|
      ensures r == ByteRead(data, position)
    {
      if position % 8 == 0 {
        r := data[position / 8];
      } else {
        var l1 := position % 8;
        var l2 := 8 - l1;
        ReadParts(data[position / 8], data[position / 8 + 1], l1);
        r := data[position / 8] * Pow2(l1) % 256;
        r := Or(r, data[position / 8 + 1] / Pow2(l2));
      }
    }

    method ReadUint2() returns (value: nat)
      requires Valid()
      modifies this`position, this`isReadBeyondEnd, this`rest
      ensures Valid() && value == ValueOf(Padded(old(rest), 2)) && rest == SkipBits(old(rest), 2)
      ensures isReadBeyondEnd == ReadsBeyond(old(isReadBeyondEnd), |old(rest)|, 2)
    {
      value := 0;
      var b1 := ReadBit();
      if b1 { value := Or(value, 2); }
      var b0 := ReadBit();
      if b0 { value := Or(value, 1); }
      FourBitsSet(false, false, b1, b0);
      TwoBitsRead(old(isReadBeyondEnd), old(rest));
    }

    method ReadUint4() returns (value: nat)
      requires Valid()
      modifies this`position, this`isReadBeyondEnd, this`rest
      ensures Valid() && value == ValueOf(Padded(old(rest), 4)) && rest == SkipBits(old(rest), 4)
      ensures isReadBeyondEnd == ReadsBeyond(old(isReadBeyondEnd), |old(rest)|, 4)
    {
      value := 0;
      var b3 := ReadBit();
      if b3 { value := Or(value, 8); }
      var b2 := ReadBit();
      if b2 { value := Or(value, 4); }
      var b1 := ReadBit();
      if b1 { value := Or(value, 2); }
      var b0 := ReadBit();
      if b0 { value := Or(value, 1); }
      FourBitsSet(b3, b2, b1, b0);
      FourBitsRead(old(isReadBeyondEnd), old(rest));
    }

    method ReadUint16Be() returns (value: nat)
      requires Valid()
      modifies this`position, this`isReadBeyondEnd, this`rest
      ensures Valid() && value == BeValue(BytesIn(old(rest), 2)) && rest == SkipBytes(old(rest), 2)
      ensures isReadBeyondEnd == ReadsBeyond(old(isReadBeyondEnd), |old(rest)|, 16)
    {
      value := 0;
      var b0 := ReadByte();
      value := Or(value, b0 as int * 0x100);
      var b1 := ReadByte();
      value := Or(value, b1);
      TwoOred(b0, b1);
      TwoBytesIn(old(isReadBeyondEnd), old(rest));
    }

    method ReadUint16Le() returns (value: nat)
      requires Valid()
      modifies this`position, this`isReadBeyondEnd, this`rest
      ensures Valid() && value == LeValue(BytesIn(old(rest), 2)) && rest == SkipBytes(old(rest), 2)
      ensures isReadBeyondEnd == ReadsBeyond(old(isReadBeyondEnd), |old(rest)|, 16)
    {
      value := 0;
      var b0 := ReadByte();
      value := Or(value, b0);
      var b1 := ReadByte();
      value := Or(value, b1 as int * 0x100);
      TwoOred(b1, b0);
      TwoBytesIn(old(isReadBeyondEnd), old(rest));
    }

    method ReadUint32Be() returns (value: nat)
      requires Valid()
      modifies this`position, this`isReadBeyondEnd, this`rest
      ensures Valid() && value == BeValue(BytesIn(old(rest), 4)) && rest == SkipBytes(old(rest), 4)
      ensures isReadBeyondEnd == ReadsBeyond(old(isReadBeyondEnd), |old(rest)|, 32)
    {
      value := 0;
      var b0 := ReadByte();
      value := Or(value, b0 as int * 0x100_0000);
      var b1 := ReadByte();
      value := Or(value, b1 as int * 0x1_0000);
      var b2 := ReadByte();
      value := Or(value, b2 as int * 0x100);
      var b3 := ReadByte();
      value := Or(value, b3);
      FourOred(b0, b1, b2, b3);
      FourBytesIn(old(isReadBeyondEnd), old(rest));
    }

    method ReadIpv4Address() returns (address: nat)
      requires Valid()
      modifies this`position, this`isReadBeyondEnd, this`rest
      ensures Valid() && address == BeValue(BytesIn(old(rest), 4)) && rest == SkipBytes(old(rest), 4)
      ensures isReadBeyondEnd == ReadsBeyond(old(isReadBeyondEnd), |old(rest)|, 32)
    {
      address := ReadUint32Be();
    }

    method ReadUint64Be() returns (value: nat)
      requires Valid()
      modifies this`position, this`isReadBeyondEnd, this`rest
      ensures Valid() && value == BeValue(BytesIn(old(rest), 8)) && rest == SkipBytes(old(rest), 8)
      ensures isReadBeyondEnd == ReadsBeyond(old(isReadBeyondEnd), |old(rest)|, 64)
    {
      value := 0;
      var b0 := ReadByte();
      value := Or(value, b0 as int * 0x100_0000_0000_0000);
      var b1 := ReadByte();
      value := Or(value, b1 as int * 0x1_0000_0000_0000);
      var b2 := ReadByte();
      value := Or(value, b2 as int * 0x100_0000_0000);
      var b3 := ReadByte();
      value := Or(value, b3 as int * 0x1_0000_0000);
      ghost var half, flag := rest, isReadBeyondEnd;
      FourBytesIn(old(isReadBeyondEnd), old(rest));
      var b4 := ReadByte();
      value := Or(value, b4 as int * 0x100_0000);
      var b5 := ReadByte();
      value := Or(value, b5 as int * 0x1_0000);
      var b6 := ReadByte();
      value := Or(value, b6 as int * 0x100);
      var b7 := ReadByte();
      value := Or(value, b7);
      FourBytesIn(flag, half);
      EightOred(b0, b1, b2, b3, b4, b5, b6, b7);
      BytesInTwice(old(isReadBeyondEnd), old(rest), 4);
    }

    method ReadMacAddress() returns (address: seq<Byte>)
      requires Valid()
      modifies this`position, this`isReadBeyondEnd, this`rest
      ensures Valid() && address == BytesIn(old(rest), 6) && rest == SkipBytes(old(rest), 6)
      ensures isReadBeyondEnd == ReadsBeyond(old(isReadBeyondEnd), |old(rest)|, 48)
    {
      address := [];
      var i := 0;
      while i < 6
        invariant i <= 6 && Valid()
        invariant address == BytesIn(old(rest), i) && rest == SkipBytes(old(rest), i)
        invariant isReadBeyondEnd == ReadsBeyond(old(isReadBeyondEnd), |old(rest)|, 8 * i)
      {
        var b := ReadByte();
        NextByteRead(old(isReadBeyondEnd), old(rest), i);
        address := address + [b];
        i := i + 1;
      }
    }

    /** As many whole bytes as are there, at most n; the source asserts that the position is byte aligned. */
    method ReadBytes(n: nat) returns (bytes: seq<Byte>)
      requires Valid() && position % 8 == 0 && length % 8 == 0
      modifies this`position, this`isReadBeyondEnd, this`rest
      ensures Valid()
      ensures |bytes| == Available(|old(rest)|, n)
      ensures bytes == BytesIn(old(rest), |bytes|) && rest == SkipBytes(old(rest), n)
      ensures isReadBeyondEnd == ReadsBeyond(old(isReadBeyondEnd), |old(rest)|, 8 * n)
    {
      var first, last := position / 8, length / 8;
      InWholeBytes(position, length, first, last, n);
      var count := n;
      if position + 8 * n > length {
        count := (length - position) / 8;
        isReadBeyondEnd := true;
      }
      bytes := data[first..first + count];
      WholeBytesRead(old(isReadBeyondEnd), data, first, last, n, count);
      position := position + 8 * count;
      rest := Flatten(data)[position..length];
    }

    /** The source shifts the int 1, which is defined for counts up to 31. */
    method ReadNBitsToUint64Be(n: nat) returns (ok: bool, num: nat)
      requires Valid() && (n <= 31 || n > 64)
      modifies this`position, this`isReadBeyondEnd, this`rest
      ensures Valid() && ok == (1 <= n <= 64)
      ensures ok ==> num == ValueOf(Padded(old(rest), n)) && rest == SkipBits(old(rest), n)
      ensures ok ==> isReadBeyondEnd == ReadsBeyond(old(isReadBeyondEnd), |old(rest)|, n)
      ensures !ok ==> rest == old(rest) && position == old(position) && isReadBeyondEnd == old(isReadBeyondEnd)
    {
      hide ValueOf, BitsOf, Pow2;
      num := 0;
      if n == 0 || n > 64 {
        return false, num;
      }
      var mul := Pow2(n - 1);
      var i := 0;
      assert mul == Weight(0, n);
      PartialEnds(old(rest), n);
      while i < n
        invariant i <= n && Valid()
        invariant num == Partial(old(rest), i, n)
        invariant rest == SkipBits(old(rest), i)
        invariant isReadBeyondEnd == ReadsBeyond(old(isReadBeyondEnd), |old(rest)|, i)
        invariant mul == Weight(i, n)
      {
        var bit := ReadBit();
        PartialNext(old(isReadBeyondEnd), old(rest), i, n);
        if bit {
          num := Or(num, mul);
        }
        mul := mul / 2;
        i := i + 1;
      }
      ok := true;
    }
  }

  /** The first n bits, zeros where there are none. */
  function Padded(s: seq<bool>, n: nat): (r: seq<bool>)
    ensures |r| == n
  {
    if n <= |s| then s[..n] else s + seq(n - |s|, _ => false)
  }

  function SkipBits(s: seq<bool>, n: nat): seq<bool> {
    if |s| >= n then s[n..] else []
  }

  lemma {:induction false} DigitAt(v: nat, n: nat, j: nat)
    requires j < n
    ensures v / Pow2(n - 1 - j) >= 0
    ensures BitsOf(v, n)[j] == (v / Pow2(n - 1 - j) % 2 == 1)
    decreases n
  {
    Nonnegative(v, n - 1 - j);
    if j == n - 1 {
      assert v / Pow2(0) == v;
    } else {
      DigitAt(v / 2, n - 1, j);
      HalfOf(v, n - 2 - j);
    }
  }

  lemma BitThere(data: seq<Byte>, position: nat)
    requires position < 8 * |data|
    ensures Flatten(data)[position] == (data[position / 8] / Pow2(7 - position % 8) % 2 == 1)
  {
    var at, j := position / 8, position % 8;
    assert position == 8 * at + j;
    FlattenByte(data, at);
    DigitAt(data[at], 8, j);
    assert Flatten(data)[position] == Flatten(data)[8 * at..8 * at + 8][j];
  }

  lemma ByteReadNext(data: seq<Byte>, position: nat, length: nat)
    requires position + 8 <= length <= 8 * |data|
    ensures ByteRead(data, position) == NextByte(Flatten(data)[position..length])
  {
    ByteReadRight(data, position);
    var s := Flatten(data)[position..length];
    assert s[..8] == Flatten(data)[position..position + 8];
    ByteFromBits(ByteRead(data, position), s);
  }

  lemma InWholeBytes(position: nat, length: nat, first: nat, last: nat, n: nat)
    requires position % 8 == 0 && length % 8 == 0 && first == position / 8 && last == length / 8
    requires position <= length
    ensures position == 8 * first && length == 8 * last && first <= last
    ensures position + 8 * n > length <==> first + n > last
    ensures (length - position) / 8 == last - first
  {
  }

  lemma TakenBytes(flag: bool, s: seq<bool>, left: nat, n: nat, count: nat)
    requires |s| == 8 * left && count == if n <= left then n else left
    ensures count == Available(|s|, n)
    ensures s[8 * count..] == SkipBytes(s, n)
    ensures (flag || n > left) == ReadsBeyond(flag, |s|, 8 * n)
  {
  }

  lemma WholeBytes(data: seq<Byte>, i: nat, j: nat, k: nat)
    requires i <= j <= k <= |data|
    ensures BytesIn(Flatten(data)[8 * i..8 * k], j - i) == data[i..j]
  {
    SlicedBytes(data, i, k);
    assert data[i..k] == data[i..j] + data[j..k];
    FlattenAdds(data[i..j], data[j..k]);
    BytesThere(data[i..j], Flatten(data[j..k]));
  }

  /** What reading whole bytes from a stream that ends with a whole byte comes to. */
  lemma WholeBytesRead(flag: bool, data: seq<Byte>, first: nat, last: nat, n: nat, count: nat)
    requires first <= last <= |data| && count == if n <= last - first then n else last - first
    ensures var s := Flatten(data)[8 * first..8 * last];
      && count == Available(|s|, n)
      && data[first..first + count] == BytesIn(s, count)
      && Flatten(data)[8 * first + 8 * count..8 * last] == SkipBytes(s, n)
      && (flag || n > last - first) == ReadsBeyond(flag, |s|, 8 * n)
  {
    var s := Flatten(data)[8 * first..8 * last];
    WholeBytes(data, first, first + count, last);
    TakenBytes(flag, s, last - first, n, count);
    assert s[8 * count..] == Flatten(data)[8 * first + 8 * count..8 * last];
  }

  lemma SlicedBytes(data: seq<Byte>, i: nat, k: nat)
    requires i <= k <= |data|
    ensures Flatten(data)[8 * i..8 * k] == Flatten(data[i..k])
  {
    hide *;
    ThreeParts(data, i, k);
    FlattenAdds(data[..i] + data[i..k], data[k..]);
    FlattenAdds(data[..i], data[i..k]);
    MiddlePart(Flatten(data[..i]), Flatten(data[i..k]), Flatten(data[k..]));
  }

  lemma MiddlePart(a: seq<bool>, b: seq<bool>, c: seq<bool>)
    ensures (a + b + c)[|a|..|a| + |b|] == b
  {
  }

  lemma ByteFromBits(b: Byte, s: seq<bool>)
    requires |s| >= 8 && s[..8] == BitsOf(b, 8)
    ensures NextByte(s) == b
  {
    hide BitsOf;
    Pow2Of8();
    ValueOfBits(b, 8);
  }

  /** Setting a bit below which, and at which, all is still zero. */
  lemma SetsBit(v: nat, k: nat, b: bool)
    requires v % Pow2(k + 1) == 0
    ensures var r := if b then Or(v, Pow2(k)) else v;
      r == v + (if b then Pow2(k) else 0) && r % Pow2(k) == 0
  {
    var p, q := Pow2(k), v / Pow2(k + 1);
    assert v == q * (2 * p);
    Halves(q, 0, p);
    Halves(q, 1, p);
    Quotient(v, p, 2 * q, 0);
    Quotient(v + p, p, 2 * q + 1, 0);
    OrBit(v, k);
    Twice(q);
  }

  lemma SmallPowers()
    ensures Pow2(0) == 1 && Pow2(1) == 2 && Pow2(2) == 4 && Pow2(3) == 8 && Pow2(4) == 16
  {
  }

  lemma FourBitsSet(b3: bool, b2: bool, b1: bool, b0: bool)
    ensures var v3 := if b3 then Or(0, 8) else 0;
      var v2 := if b2 then Or(v3, 4) else v3;
      var v1 := if b1 then Or(v2, 2) else v2;
      (if b0 then Or(v1, 1) else v1)
      == (if b3 then 8 else 0) + (if b2 then 4 else 0) + (if b1 then 2 else 0) + (if b0 then 1 else 0)
  {
    SmallPowers();
    var v3 := if b3 then Or(0, 8) else 0;
    SetsBit(0, 3, b3);
    var v2 := if b2 then Or(v3, 4) else v3;
    SetsBit(v3, 2, b2);
    var v1 := if b1 then Or(v2, 2) else v2;
    SetsBit(v2, 1, b1);
    SetsBit(v1, 0, b0);
  }

  lemma ValueOfAppended(s: seq<bool>, b: bool)
    ensures ValueOf(s + [b]) == 2 * ValueOf(s) + (if b then 1 else 0)
  {
    assert (s + [b])[..|s|] == s;
  }

  lemma BeAppended(s: seq<Byte>, b: Byte)
    ensures BeValue(s + [b]) == BeValue(s) * 256 + b
  {
    assert (s + [b])[..|s|] == s;
  }

  lemma BeValueOne(b: Byte)
    ensures BeValue([b]) == b && LeValue([b]) == b
  {
    assert [b] == [] + [b];
    BeAppended([], b);
    assert [b][1..] == [];
  }

  lemma TwoOred(hi: Byte, lo: Byte)
    ensures Or(0, hi as int * 0x100) == hi as int * 0x100 && Or(0, lo) == lo
    ensures Or(hi as int * 0x100, lo) == BeValue([hi, lo])
    ensures Or(lo, hi as int * 0x100) == LeValue([lo, hi])
  {
    Pow2Of8();
    var h := hi as int * 0x100;
    Quotient(h, 0x100, hi, 0);
    OrDisjoint(lo, h, 8);
    BeValueOne(hi);
    BeAppended([hi], lo);
    assert [hi, lo] == [hi] + [lo] && [lo, hi][1..] == [hi];
  }

  lemma AddsByte(v: nat, b: Byte, k: nat)
    requires v % Pow2(k + 8) == 0
    ensures Or(v, b as int * Pow2(k)) == v + b as int * Pow2(k)
    ensures (v + b as int * Pow2(k)) % Pow2(k) == 0
  {
    Pow2Of8();
    Pow2Adds(k, 8);
    PlaceOfByte(v, b, Pow2(k));
    OrDisjoint(b as int * Pow2(k), v, k + 8);
  }

  lemma PlaceOfByte(v: nat, b: Byte, p: int)
    requires p > 0 && p * 256 > 0 && v % (p * 256) == 0
    ensures 0 <= b as int * p < p * 256
    ensures (v + b as int * p) % p == 0
  {
    TimesGrows(0, b, p);
    TimesGrows(b + 1, 256, p);
    var q := v / (p * 256);
    assert v == q * (p * 256);
    assert q * (p * 256) == 256 * q * p;
    Quotient(v + b as int * p, p, 256 * q + b, 0);
  }

  lemma FourOred(b0: Byte, b1: Byte, b2: Byte, b3: Byte)
    ensures var v0 := Or(0, b0 as int * 0x100_0000);
      var v1 := Or(v0, b1 as int * 0x1_0000);
      var v2 := Or(v1, b2 as int * 0x100);
      Or(v2, b3) == BeValue([b0, b1, b2, b3])
  {
    LowerFourOred(0, b0, b1, b2, b3);
    BeFourBytes(b0, b1, b2, b3);
  }

  lemma BeFourBytes(b0: Byte, b1: Byte, b2: Byte, b3: Byte)
    ensures BeValue([b0, b1, b2, b3])
         == b0 as int * 0x100_0000 + b1 as int * 0x1_0000 + b2 as int * 0x100 + b3
  {
    BeAppendedFour([], b0, b1, b2, b3);
    assert [] + [b0, b1, b2, b3] == [b0, b1, b2, b3];
  }

  lemma EightOred(b0: Byte, b1: Byte, b2: Byte, b3: Byte, b4: Byte, b5: Byte, b6: Byte, b7: Byte)
    ensures var v0 := Or(0, b0 as int * 0x100_0000_0000_0000);
      var v1 := Or(v0, b1 as int * 0x1_0000_0000_0000);
      var v2 := Or(v1, b2 as int * 0x100_0000_0000);
      var v3 := Or(v2, b3 as int * 0x1_0000_0000);
      var v4 := Or(v3, b4 as int * 0x100_0000);
      var v5 := Or(v4, b5 as int * 0x1_0000);
      var v6 := Or(v5, b6 as int * 0x100);
      Or(v6, b7) == BeValue([b0, b1, b2, b3] + [b4, b5, b6, b7])
  {
    var high := UpperFourOred(b0, b1, b2, b3);
    LowerFourOred(high, b4, b5, b6, b7);
    BeFourBytes(b0, b1, b2, b3);
    BeAppendedFour([b0, b1, b2, b3], b4, b5, b6, b7);
  }

  /** A byte or-ed in below what is there, with the two powers of two spelt out. */
  lemma BytePlaced(v: nat, b: Byte, k: nat, upper: int, place: int) returns (r: nat)
    requires upper == Pow2(k + 8) && place == Pow2(k) && v % upper == 0
    ensures r == v + b as int * place && r % place == 0
    ensures b as int * place >= 0 && Or(v, b as int * place) == r
  {
    TimesGrows(0, b, place);
    AddsByte(v, b, k);
    r := v + b as int * place;
  }

  lemma UpperFourOred(b0: Byte, b1: Byte, b2: Byte, b3: Byte) returns (high: nat)
    ensures high == b0 as int * 0x100_0000 + b1 as int * 0x1_0000 + b2 as int * 0x100 + b3
    ensures var v0 := Or(0, b0 as int * 0x100_0000_0000_0000);
      var v1 := Or(v0, b1 as int * 0x1_0000_0000_0000);
      var v2 := Or(v1, b2 as int * 0x100_0000_0000);
      Or(v2, b3 as int * 0x1_0000_0000) == high * 0x1_0000_0000
  {
    Pow2Of56();
    Quotient(b0 as int * 0x100_0000_0000_0000, 0x100_0000_0000_0000, b0, 0);
    var v1 := BytePlaced(b0 as int * 0x100_0000_0000_0000, b1, 48, 0x100_0000_0000_0000, 0x1_0000_0000_0000);
    var v2 := BytePlaced(v1, b2, 40, 0x1_0000_0000_0000, 0x100_0000_0000);
    var v3 := BytePlaced(v2, b3, 32, 0x100_0000_0000, 0x1_0000_0000);
    high := b0 as int * 0x100_0000 + b1 as int * 0x1_0000 + b2 as int * 0x100 + b3;
  }

  lemma LowerFourOred(high: nat, b0: Byte, b1: Byte, b2: Byte, b3: Byte)
    ensures var v0 := Or(high * 0x1_0000_0000, b0 as int * 0x100_0000);
      var v1 := Or(v0, b1 as int * 0x1_0000);
      var v2 := Or(v1, b2 as int * 0x100);
      Or(v2, b3) == high * 0x1_0000_0000
                  + b0 as int * 0x100_0000 + b1 as int * 0x1_0000 + b2 as int * 0x100 + b3
  {
    hide And, Or;
    Pow2Of24();
    Pow2Of56();
    Quotient(high * 0x1_0000_0000, 0x1_0000_0000, high, 0);
    var v0 := BytePlaced(high * 0x1_0000_0000, b0, 24, 0x1_0000_0000, 0x100_0000);
    var v1 := BytePlaced(v0, b1, 16, 0x100_0000, 0x1_0000);
    var v2 := BytePlaced(v1, b2, 8, 0x1_0000, 0x100);
    assert Pow2(0) == 1;
    var v3 := BytePlaced(v2, b3, 0, 0x100, 1);
  }

  lemma BeAppendedFour(s: seq<Byte>, b0: Byte, b1: Byte, b2: Byte, b3: Byte)
    ensures BeValue(s + [b0, b1, b2, b3]) == BeValue(s) * 0x1_0000_0000
         + b0 as int * 0x100_0000 + b1 as int * 0x1_0000 + b2 as int * 0x100 + b3
  {
    BeAppended(s, b0);
    BeAppended(s + [b0], b1);
    BeAppended(s + [b0] + [b1], b2);
    BeAppended(s + [b0] + [b1] + [b2], b3);
    assert s + [b0, b1, b2, b3] == s + [b0] + [b1] + [b2] + [b3];
  }

  /** Reading so many bytes twice. */
  lemma BytesInTwice(flag: bool, s: seq<bool>, n: nat)
    ensures BytesIn(s, 2 * n) == BytesIn(s, n) + BytesIn(SkipBytes(s, n), n)
    ensures SkipBytes(SkipBytes(s, n), n) == SkipBytes(s, 2 * n)
    ensures ReadsBeyond(ReadsBeyond(flag, |s|, 8 * n), |SkipBytes(s, n)|, 8 * n) == ReadsBeyond(flag, |s|, 16 * n)
  {
    hide Pow2, And, Or, BitsOf;
    SkipsAdd(s, n, n);
    BytesInAdd(s, n, n);
  }

  lemma {:induction false} BytesInAdd(s: seq<bool>, m: nat, n: nat)
    ensures BytesIn(s, m + n) == BytesIn(s, m) + BytesIn(SkipBytes(s, m), n)
    decreases m
  {
    if m == 0 {
      assert SkipBytes(s, 0) == s;
    } else {
      var t := SkipBytes(s, 1);
      BytesInAdd(t, m - 1, n);
      SkipsAdd(s, 1, m - 1);
      BytesInFirst(s, m + n);
      BytesInFirst(s, m);
      Associates([NextByte(s)], BytesIn(t, m - 1), BytesIn(SkipBytes(s, m), n));
    }
  }

  lemma BytesInFirst(s: seq<bool>, n: nat)
    requires n > 0
    ensures BytesIn(s, n) == [NextByte(s)] + BytesIn(SkipBytes(s, 1), n - 1)
  {
  }

  lemma TwoBytesIn(flag: bool, s: seq<bool>)
    ensures BytesIn(s, 2) == [NextByte(s), NextByte(SkipBytes(s, 1))]
    ensures SkipBytes(SkipBytes(s, 1), 1) == SkipBytes(s, 2)
    ensures ReadsBeyond(ReadsBeyond(flag, |s|, 8), |SkipBytes(s, 1)|, 8) == ReadsBeyond(flag, |s|, 16)
  {
    SkipsAdd(s, 1, 1);
    BytesInNext(s, 0);
    BytesInNext(s, 1);
    assert SkipBytes(s, 0) == s;
  }

  lemma FourBytesIn(flag: bool, s: seq<bool>)
    ensures var s1, s2 := SkipBytes(s, 1), SkipBytes(SkipBytes(s, 1), 1);
      var s3 := SkipBytes(s2, 1);
      && BytesIn(s, 4) == [NextByte(s), NextByte(s1), NextByte(s2), NextByte(s3)]
      && SkipBytes(s3, 1) == SkipBytes(s, 4)
      && ReadsBeyond(ReadsBeyond(ReadsBeyond(ReadsBeyond(flag, |s|, 8), |s1|, 8), |s2|, 8), |s3|, 8)
         == ReadsBeyond(flag, |s|, 32)
  {
    TwoBytesIn(flag, s);
    TwoBytesIn(ReadsBeyond(flag, |s|, 16), SkipBytes(s, 2));
    BytesInTwice(flag, s, 2);
  }

  lemma BytesInNext(s: seq<bool>, n: nat)
    ensures BytesIn(s, n + 1) == BytesIn(s, n) + [NextByte(SkipBytes(s, n))]
  {
    var t := SkipBytes(s, n);
    BytesInAdd(s, n, 1);
    BytesInFirst(t, 1);
    assert BytesIn(SkipBytes(t, 1), 0) == [];
  }

  /** What reading one more byte comes to. */
  lemma NextByteRead(flag: bool, s: seq<bool>, n: nat)
    ensures var left := SkipBytes(s, n);
      && BytesIn(s, n + 1) == BytesIn(s, n) + [NextByte(left)]
      && SkipBytes(left, 1) == SkipBytes(s, n + 1)
      && ReadsBeyond(ReadsBeyond(flag, |s|, 8 * n), |left|, 8) == ReadsBeyond(flag, |s|, 8 * (n + 1))
  {
    BytesInNext(s, n);
    SkipsAdd(s, n, 1);
  }

  lemma NextPlace(v: nat, k: nat, bit: bool)
    ensures v * Pow2(k + 1) >= 0
    ensures (if bit then Or(v * Pow2(k + 1), Pow2(k)) else v * Pow2(k + 1)) == (2 * v + if bit then 1 else 0) * Pow2(k)
    ensures Pow2(k) / 2 == if k > 0 then Pow2(k - 1) else 0
  {
    var p := Pow2(k);
    Halves(v, 0, p);
    Halves(v, 1, p);
    TimesGrows(0, v, 2 * p);
    Quotient(v * (2 * p), p, 2 * v, 0);
    OrBit(v * (2 * p), k);
    assert 2 * v % 2 == 0;
  }

  /** The flag after n more bits were asked for when there were only some left. */
  predicate ReadsBeyond(flag: bool, left: nat, n: nat) {
    flag || left < n
  }

  /** How many of n bytes can be taken when so many bits are left. */
  function Available(left: nat, n: nat): nat {
    if 8 * n <= left then n else left / 8
  }

  /** What bit i of n is worth. */
  ghost function Weight(i: nat, n: nat): (w: nat) {
    if i < n then Pow2(n - 1 - i) else 0
  }

  /** The first i of n bits at their places. */
  ghost function Partial(s: seq<bool>, i: nat, n: nat): (v: nat)
    requires i <= n
  {
    TimesGrows(0, ValueOf(Padded(s, i)), Pow2(n - i));
    ValueOf(Padded(s, i)) * Pow2(n - i)
  }

  lemma PartialEnds(s: seq<bool>, n: nat)
    ensures Partial(s, 0, n) == 0 && Partial(s, n, n) == ValueOf(Padded(s, n)) && SkipBits(s, 0) == s
  {
    assert Padded(s, 0) == [] && Pow2(0) == 1;
    assert 0 * Pow2(n) == 0;
  }

  lemma PartialNext(flag: bool, s: seq<bool>, i: nat, n: nat)
    requires i < n
    ensures var left, mul := SkipBits(s, i), Weight(i, n);
      && Partial(s, i + 1, n) == (if FirstBit(left) then Or(Partial(s, i, n), mul) else Partial(s, i, n))
      && SkipBits(s, i + 1) == SkipBits(left, 1)
      && ReadsBeyond(ReadsBeyond(flag, |s|, i), |left|, 1) == ReadsBeyond(flag, |s|, i + 1)
      && mul / 2 == Weight(i + 1, n)
  {
    NextPlace(ValueOf(Padded(s, i)), n - 1 - i, FirstBit(SkipBits(s, i)));
    PaddedNext(s, i);
  }

  lemma PaddedNext(s: seq<bool>, i: nat)
    ensures var left := SkipBits(s, i);
      && Padded(s, i + 1) == Padded(s, i) + [FirstBit(left)]
      && ValueOf(Padded(s, i + 1)) == 2 * ValueOf(Padded(s, i)) + (if FirstBit(left) then 1 else 0)
      && SkipBits(s, i + 1) == SkipBits(left, 1)
  {
    var bit := FirstBit(SkipBits(s, i));
    assert Padded(s, i + 1) == Padded(s, i) + [bit];
    ValueOfAppended(Padded(s, i), bit);
  }

  /** What reading two bits one by one comes to. */
  lemma TwoBitsRead(flag: bool, s: seq<bool>)
    ensures var s1 := SkipBits(s, 1);
      && ValueOf(Padded(s, 2)) == (if FirstBit(s) then 2 else 0) + (if FirstBit(s1) then 1 else 0)
      && SkipBits(s1, 1) == SkipBits(s, 2)
      && ReadsBeyond(ReadsBeyond(flag, |s|, 1), |s1|, 1) == ReadsBeyond(flag, |s|, 2)
  {
    assert SkipBits(s, 0) == s && Padded(s, 0) == [];
    PaddedNext(s, 0);
    PaddedNext(s, 1);
  }

  /** What reading four bits one by one comes to. */
  lemma FourBitsRead(flag: bool, s: seq<bool>)
    ensures var s1, s2 := SkipBits(s, 1), SkipBits(SkipBits(s, 1), 1);
      var s3 := SkipBits(s2, 1);
      && ValueOf(Padded(s, 4)) == (if FirstBit(s) then 8 else 0) + (if FirstBit(s1) then 4 else 0)
                                  + (if FirstBit(s2) then 2 else 0) + (if FirstBit(s3) then 1 else 0)
      && SkipBits(s3, 1) == SkipBits(s, 4)
      && ReadsBeyond(ReadsBeyond(ReadsBeyond(ReadsBeyond(flag, |s|, 1), |s1|, 1), |s2|, 1), |s3|, 1)
         == ReadsBeyond(flag, |s|, 4)
  {
    TwoBitsRead(flag, s);
    PaddedNext(s, 2);
    PaddedNext(s, 3);
  }

  predicate FirstBit(s: seq<bool>) {
    |s| >= 1 && s[0]
  }
}
