/** The stream that typed values are appended to. */
module MemoryOutputStreams {

  import opened BitStreams
  import opened Bits
  import opened Lists

  class MemoryOutputStream {
    var data: seq<Byte>
    var length: nat

    /** All that was asked to be written so far. */
    ghost var bits: seq<bool>

    ghost predicate Sized()
      reads this
    {
      |data| == (length + 7) / 8 && |bits| == length
    }

    /** The bytes represent what was asked to be written. */
    ghost predicate Valid()
      reads this
    {
      Sized() && Packed(data, length) && Content(data, length) == bits
    }

    /** Bytes can be appended as well. */
    ghost predicate Ready()
      reads this
    {
      Valid() && ByteSafe(length)
    }

    constructor ()
      ensures Ready() && bits == [] && length == 0
    {
      data, length, bits := [], 0, [];
    }

    method WriteBit(value: bool)
      requires Valid()
      modifies this
      ensures Valid()
      ensures length == old(length) + 1 && bits == old(bits) + [value]
    {
      hide BitsOf;
      ghost var before := data;
      BitWritten(data, length, value);
      var byteIndex := length / 8;
      var bitIndex := length % 8;
      if bitIndex == 0 {
        data := data + [0];
      }
      if value {
        OrInByte(data[byteIndex], 7 - bitIndex);
        data := data[byteIndex := Or(data[byteIndex], Pow2(7 - bitIndex))];
      }
      assert data == AfterBit(before, length, value);
      length := length + 1;
      bits := bits + [value];
    }

    method WriteBitRepeatedly(value: bool, count: nat)
      requires Valid()
      modifies this
      ensures Valid()
      ensures length == old(length) + count && bits == old(bits) + seq(count, _ => value)
    {
      var i := 0;
      while i < count
        invariant i <= count
        invariant Valid()
        invariant length == old(length) + i && bits == old(bits) + seq(i, _ => value)
      {
        WriteBit(value);
        i := i + 1;
      }
    }

    method WriteBits(values: seq<bool>)
      requires Valid()
      modifies this
      ensures Valid()
      ensures length == old(length) + |values| && bits == old(bits) + values
    {
      var i := 0;
      while i < |values|
        invariant i <= |values|
        invariant Valid()
        invariant length == old(length) + i && bits == old(bits) + values[..i]
      {
        WriteBit(values[i]);
        i := i + 1;
      }
    }

    /** The bytes represent the byte just written if and only if the offset is safe or the byte is zero. */
    method WriteByte(value: Byte)
      requires Sized()
      modifies this
      ensures Sized() && length == old(length) + 8 && bits == old(bits) + BitsOf(value, 8)
      ensures old(Valid()) ==> (Valid() <==> ByteSafe(old(length)) || value == 0)
      ensures old(Ready()) ==> Ready()
    {
      PutByte(value);
      bits := bits + BitsOf(value, 8);
    }

    method PutByte(value: Byte)
      requires |data| == (length + 7) / 8
      modifies this`data, this`length
      ensures |data| == |old(data)| + 1 && length == old(length) + 8
      ensures Packed(old(data), old(length)) ==> Represents(value, old(data), old(length), data)
    {
      hide And;
      if Packed(data, length) { ByteRepresented(data, length, value); }
      if length % 8 == 0 {
        data := data + [value];
      } else {
        var l1 := length % 8;
        var l2 := 8 - l1;
        var last := |data| - 1;
        ByteParts(data[last], value, l1);
        data := data[last := Or(data[last], And(value, 0xFF * Pow2(l2)) / Pow2(l2))];
        data := data + [And(value, 0xFF / Pow2(l1)) * Pow2(l1)];
      }
      length := length + 8;
    }

    method WriteByteRepeatedly(value: Byte, count: nat)
      requires Sized()
      modifies this
      ensures Sized() && length == old(length) + 8 * count
      ensures bits == old(bits) + Flatten(seq(count, _ => value))
      ensures old(Ready()) ==> Ready()
    {
      var i := 0;
      assert bits == old(bits) + Flatten(seq(0, _ => value));
      while i < count
        invariant i <= count
        invariant Sized() && length == old(length) + 8 * i
        invariant bits == old(bits) + Flatten(seq(i, _ => value))
        invariant old(Ready()) ==> Ready()
      {
        WriteByte(value);
        Pushed(old(bits), seq(i, _ => value), value);
        assert seq(i, _ => value) + [value] == seq(i + 1, _ => value);
        i := i + 1;
      }
    }

    /** The source asserts that the stream is byte aligned. */
    method WriteBytes(bytes: seq<Byte>)
      requires Valid() && length % 8 == 0
      modifies this
      ensures Valid()
      ensures length == old(length) + 8 * |bytes| && bits == old(bits) + Flatten(bytes)
    {
      hide BitsOf, Flatten, Packed, Content;
      BytesAppended(data, length, bytes);
      data := data + bytes;
      length := length + 8 * |bytes|;
      bits := bits + Flatten(bytes);
    }

    method WriteUint2(value: Byte)
      requires Valid()
      modifies this
      ensures Valid()
      ensures length == old(length) + 2 && bits == old(bits) + Encoding(Number(value, 2))
    {
      SingleBits(value);
      WriteBit(And(value, 2) != 0);
      WriteBit(And(value, 1) != 0);
    }

    method WriteUint4(value: Byte)
      requires Valid()
      modifies this
      ensures Valid()
      ensures length == old(length) + 4 && bits == old(bits) + Encoding(Number(value, 4))
    {
      SingleBits(value);
      WriteBit(And(value, 8) != 0);
      WriteBit(And(value, 4) != 0);
      WriteBit(And(value, 2) != 0);
      WriteBit(And(value, 1) != 0);
      FourAppended(old(bits), And(value, 8) != 0, And(value, 4) != 0, And(value, 2) != 0, And(value, 1) != 0);
    }

    method WriteTwoBytes(b1: Byte, b0: Byte)
      requires Sized()
      modifies this
      ensures Sized() && length == old(length) + 16 && bits == old(bits) + (BitsOf(b1, 8) + BitsOf(b0, 8))
      ensures old(Valid()) && (ByteSafe(old(length)) || b1 == b0 == 0) ==> Valid()
      ensures old(Ready()) ==> Ready()
    {
      WriteByte(b1);
      WriteByte(b0);
      Associates(old(bits), BitsOf(b1, 8), BitsOf(b0, 8));
    }

    method WriteFourBytes(b3: Byte, b2: Byte, b1: Byte, b0: Byte)
      requires Sized()
      modifies this
      ensures Sized() && length == old(length) + 32
      ensures bits == old(bits) + (BitsOf(b3, 8) + BitsOf(b2, 8) + (BitsOf(b1, 8) + BitsOf(b0, 8)))
      ensures old(Valid()) && (ByteSafe(old(length)) || b3 == b2 == b1 == b0 == 0) ==> Valid()
      ensures old(Ready()) ==> Ready()
    {
      WriteTwoBytes(b3, b2);
      WriteTwoBytes(b1, b0);
      Associates(old(bits), BitsOf(b3, 8) + BitsOf(b2, 8), BitsOf(b1, 8) + BitsOf(b0, 8));
    }

    method WriteUint16Be(value: nat)
      requires Sized()
      modifies this
      ensures Sized() && length == old(length) + 16 && bits == old(bits) + Encoding(Number(value, 16))
      ensures old(Valid()) && (ByteSafe(old(length)) || value == 0) ==> Valid()
      ensures old(Ready()) ==> Ready()
    {
      var b1, b0 := TwoBytesOf(value);
      WriteTwoBytes(b1, b0);
    }

    method WriteUint16Le(value: nat)
      requires Sized()
      modifies this
      ensures Sized() && length == old(length) + 16 && bits == old(bits) + Encoding(Swapped(value, 2))
      ensures old(Valid()) && (ByteSafe(old(length)) || value == 0) ==> Valid()
      ensures old(Ready()) ==> Ready()
    {
      var b1, b0 := TwoBytesOf(value);
      WriteTwoBytes(b0, b1);
    }

    method WriteUint32Be(value: nat)
      requires Sized()
      modifies this
      ensures Sized() && length == old(length) + 32 && bits == old(bits) + Encoding(Number(value, 32))
      ensures old(Valid()) && (ByteSafe(old(length)) || value == 0) ==> Valid()
      ensures old(Ready()) ==> Ready()
    {
      var b3, b2, b1, b0 := FourBytesOf(value);
      WriteFourBytes(b3, b2, b1, b0);
    }

    method WriteUint64Be(value: nat)
      requires Sized()
      modifies this
      ensures Sized() && length == old(length) + 64 && bits == old(bits) + Encoding(Number(value, 64))
      ensures old(Valid()) && (ByteSafe(old(length)) || value == 0) ==> Valid()
      ensures old(Ready()) ==> Ready()
    {
      hide BitsOf;
      BeEight(value);
      var b7, b6, b5, b4 := FourBytesOf(value / 0x1_0000_0000);
      WriteFourBytes(b7, b6, b5, b4);
      var b3, b2, b1, b0 := FourBytesOf(value);
      WriteFourBytes(b3, b2, b1, b0);
      Associates(old(bits), BitsOf(value / 0x1_0000_0000, 32), BitsOf(value, 32));
    }

    /** A MAC address is its six address bytes. */
    method WriteMacAddress(address: seq<Byte>)
      requires Sized() && |address| == 6
      modifies this
      ensures Sized() && length == old(length) + 48 && bits == old(bits) + Flatten(address)
      ensures old(Valid()) && (ByteSafe(old(length)) || forall i :: 0 <= i < 6 ==> address[i] == 0) ==> Valid()
      ensures old(Ready()) ==> Ready()
    {
      hide BitsOf;
      var i := 0;
      assert bits == old(bits) + Flatten(address[..0]);
      while i < 6
        invariant i <= 6
        invariant Sized() && length == old(length) + 8 * i
        invariant bits == old(bits) + Flatten(address[..i])
        invariant old(Valid()) && (ByteSafe(old(length)) || forall i :: 0 <= i < 6 ==> address[i] == 0) ==> Valid()
        invariant old(Ready()) ==> Ready()
      {
        WriteByte(address[i]);
        Pushed(old(bits), address[..i], address[i]);
        assert address[..i] + [address[i]] == address[..i + 1];
        i := i + 1;
      }
      assert address[..6] == address;
    }

    method WriteIpv4Address(address: nat)
      requires Sized()
      modifies this
      ensures Sized() && length == old(length) + 32 && bits == old(bits) + Encoding(Number(address, 32))
      ensures old(Valid()) && (ByteSafe(old(length)) || address == 0) ==> Valid()
      ensures old(Ready()) ==> Ready()
    {
      WriteUint32Be(address);
    }

    /** The source shifts the int 1, which is defined for counts up to 31. */
    method WriteNBitsOfUint64Be(value: nat, n: nat) returns (ok: bool)
      requires Valid() && (n <= 31 || n > 64)
      modifies this
      ensures Valid() && ok == (1 <= n <= 64)
      ensures ok ==> length == old(length) + n && bits == old(bits) + Encoding(Number(value, n))
      ensures !ok ==> length == old(length) && bits == old(bits) && data == old(data)
    {
      hide TopBits, And, Flatten, Content, Packed, Clear;
      if n == 0 || n > 64 {
        return false;
      }
      var mul := Pow2(n - 1);
      var i := 0;
      TopBitsEnds(value, n);
      while i < n
        invariant i <= n && Valid() && length == old(length) + i
        invariant bits == old(bits) + TopBits(value, i, n)
        invariant mul == if i < n then Pow2(n - 1 - i) else 0
      {
        TopBitsNext(old(bits), value, i, n);
        WriteBit(And(value, mul) != 0);
        Halved(mul, n - 1 - i);
        mul := mul / 2;
        i := i + 1;
      }
      return true;
    }
  }

  lemma BytesAppended(data: seq<Byte>, length: nat, bytes: seq<Byte>)
    requires Packed(data, length) && length % 8 == 0
    ensures Packed(data + bytes, length + 8 * |bytes|)
    ensures Content(data + bytes, length + 8 * |bytes|) == Content(data, length) + Flatten(bytes)
  {
    hide BitsOf, Flatten;
    WholeBytesLength(|data|, length);
    FlattenAdds(data, bytes);
    AllOf(Flatten(data));
    AllOf(Flatten(data + bytes));
  }

  lemma WholeBytesLength(size: nat, length: nat)
    requires size == (length + 7) / 8 && length % 8 == 0
    ensures length == 8 * size
    ensures forall n: nat :: (length + 8 * n + 7) / 8 == size + n
  {
  }

  /** What becomes of the bytes when one is written: they hold what they held and the byte exactly when
      that can be. */
  ghost predicate Represents(value: Byte, data: seq<Byte>, length: nat, after: seq<Byte>)
    requires length <= 8 * |data| && |after| == |data| + 1
  {
    && (Content(after, length + 8) == Content(data, length) + BitsOf(value, 8) <==> ByteSafe(length) || value == 0)
    && (ByteSafe(length) || value == 0 ==> Packed(after, length + 8))
  }

  lemma ByteRepresented(data: seq<Byte>, length: nat, value: Byte)
    requires Packed(data, length)
    ensures Represents(value, data, length, AfterByte(data, length, value))
  {
    ByteWritten(data, length, value);
  }

  /** The upper i of the n lowest bits. */
  ghost function TopBits(v: nat, i: nat, n: nat): (s: seq<bool>)
    requires i <= n
    ensures |s| == i
  {
    Nonnegative(v, n - i);
    BitsOf(v / Pow2(n - i), i)
  }

  lemma TopBitsEnds(v: nat, n: nat)
    ensures TopBits(v, 0, n) == [] && TopBits(v, n, n) == BitsOf(v, n)
  {
    assert v / Pow2(0) == v;
  }

  lemma TopBitsNext(s: seq<bool>, v: nat, i: nat, n: nat)
    requires i < n
    ensures s + TopBits(v, i, n) + [And(v, Pow2(n - 1 - i)) != 0] == s + TopBits(v, i + 1, n)
  {
    AndBit(v, n - 1 - i);
    Nonnegative(v, n - 1 - i);
    ShiftOnce(v, n - 1 - i);
    Associates(s, TopBits(v, i, n), [And(v, Pow2(n - 1 - i)) != 0]);
  }

  lemma Halved(mul: int, k: nat)
    requires mul == Pow2(k)
    ensures mul / 2 == if k > 0 then Pow2(k - 1) else 0
  {
  }

  lemma Pushed(s: seq<bool>, bytes: seq<Byte>, b: Byte)
    ensures s + Flatten(bytes) + BitsOf(b, 8) == s + Flatten(bytes + [b])
  {
    FlattenAdds(bytes, [b]);
    FlattenOne(b);
  }

  lemma FourAppended(s: seq<bool>, b3: bool, b2: bool, b1: bool, b0: bool)
    ensures s + [b3] + [b2] + [b1] + [b0] == s + ([b3] + [b2] + [b1] + [b0])
  {
  }

  lemma SingleBits(value: Byte)
    ensures BitsOf(value, 2) == [And(value, 2) != 0] + [And(value, 1) != 0]
    ensures BitsOf(value, 4) == [And(value, 8) != 0] + [And(value, 4) != 0] + [And(value, 2) != 0]
      + [And(value, 1) != 0]
  {
    assert Pow2(0) == 1 && Pow2(1) == 2 && Pow2(2) == 4 && Pow2(3) == 8;
    AndBit(value, 0);
    AndBit(value, 1);
    AndBit(value, 2);
    AndBit(value, 3);
    assert BitsOf(value, 2) == BitsOf(value / 2, 1) + [value % 2 == 1];
    assert BitsOf(value / 2, 1) == [value / 2 % 2 == 1];
    assert BitsOf(value / 4, 2) == [value / 8 % 2 == 1] + [value / 4 % 2 == 1];
    assert BitsOf(value, 4) == BitsOf(value / 4, 2) + [value / 2 % 2 == 1] + [value % 2 == 1];
  }

  /** Only the lowest n digits matter. */
  lemma LowestDigits(v: nat, n: nat)
    ensures BitsOf(v % Pow2(n), n) == BitsOf(v, n)
  {
    Split(v, 0, n);
    assert BitsOf(v / Pow2(n), 0) == [];
  }

  lemma BeTwo(v: nat)
    ensures BitsOf(v, 16) == BitsOf(v / 0x100 % 256, 8) + BitsOf(v % 256, 8)
  {
    Pow2Of8();
    Split(v, 8, 8);
    LowestDigits(v / 0x100, 8);
  }

  lemma LeTwo(v: nat)
    ensures Flatten(LeBytes(v, 2)) == BitsOf(v % 256, 8) + BitsOf(v / 0x100 % 256, 8)
  {
    var a: Byte, b: Byte := v % 256, v / 256 % 256;
    assert LeBytes(v / 256, 1) == [b] + LeBytes(v / 256 / 256, 0);
    assert LeBytes(v, 2) == [a] + [b];
    FlattenAdds([a], [b]);
    FlattenOne(a);
    FlattenOne(b);
  }

  lemma BeFour(v: nat)
    ensures BitsOf(v, 32)
         == BitsOf(v / 0x100_0000 % 256, 8) + BitsOf(v / 0x1_0000 % 256, 8)
          + (BitsOf(v / 0x100 % 256, 8) + BitsOf(v % 256, 8))
  {
    Pow2Of24();
    Split(v, 16, 16);
    LowestDigits(v, 16);
    BeTwo(v);
    BeTwo(v / 0x1_0000);
    assert v / 0x1_0000 / 0x100 == v / 0x100_0000;
  }

  lemma BeEight(v: nat)
    ensures BitsOf(v, 64) == BitsOf(v / 0x1_0000_0000, 32) + BitsOf(v, 32)
  {
    Pow2Of56();
    Split(v, 32, 32);
    LowestDigits(v, 32);
  }

  /** The two lowest bytes of a number. */
  method TwoBytesOf(v: nat) returns (b1: Byte, b0: Byte)
    ensures BitsOf(v, 16) == BitsOf(b1, 8) + BitsOf(b0, 8)
    ensures Flatten(LeBytes(v, 2)) == BitsOf(b0, 8) + BitsOf(b1, 8)
    ensures v == 0 ==> b1 == b0 == 0
  {
    BeTwo(v);
    LeTwo(v);
    b1, b0 := v / 0x100 % 256, v % 256;
  }

  /** The four lowest bytes of a number. */
  method FourBytesOf(v: nat) returns (b3: Byte, b2: Byte, b1: Byte, b0: Byte)
    ensures BitsOf(v, 32) == BitsOf(b3, 8) + BitsOf(b2, 8) + (BitsOf(b1, 8) + BitsOf(b0, 8))
    ensures v == 0 ==> b3 == b2 == b1 == b0 == 0
  {
    hide *;
    BeFour(v);
    b3, b2, b1, b0 := v / 0x100_0000 % 256, v / 0x1_0000 % 256, v / 0x100 % 256, v % 256;
  }
}
