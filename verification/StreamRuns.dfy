/** Sequences of typed writes to an output stream and of typed reads from an input stream. */
module StreamRuns {

  import opened BitStreams
  import opened Bits
  import opened Lists
  import opened MemoryInputStreams
  import opened MemoryOutputStreams

  /** A value together with the function of the streams that writes it, and the one that reads it. */
  datatype Typed =
    | Bit(on: bool)
    | Uint2(value: Byte)
    | Uint4(value: Byte)
    | Uint8(value: Byte)
    | Uint16Be(number: nat)
    | Uint16Le(number: nat)
    | Uint32Be(number: nat)
    | Uint64Be(number: nat)
    | NBits(number: nat, n: nat)
    | MacAddress(bytes: seq<Byte>)
    | Ipv4Address(number: nat)

  function ItemOf(t: Typed): Item {
    match t
    case Bit(on) => Flag(on)
    case Uint2(value) => Number(value, 2)
    case Uint4(value) => Number(value, 4)
    case Uint8(value) => Number(value, 8)
    case Uint16Be(number) => Number(number, 16)
    case Uint16Le(number) => Swapped(number, 2)
    case Uint32Be(number) => Number(number, 32)
    case Uint64Be(number) => Number(number, 64)
    case NBits(number, n) => Number(number, n)
    case MacAddress(bytes) => Bytes(bytes)
    case Ipv4Address(number) => Number(number, 32)
  }

  function Items(ts: seq<Typed>): (items: seq<Item>)
    ensures |items| == |ts| && forall i :: 0 <= i < |ts| ==> items[i] == ItemOf(ts[i])
  {
    if ts == [] then [] else [ItemOf(ts[0])] + Items(ts[1..])
  }

  /** The counts for which the n-bit functions are defined, and the length of a MAC address. */
  predicate Allowed(t: Typed) {
    (t.NBits? ==> 1 <= t.n <= 31) && (t.MacAddress? ==> |t.bytes| == 6)
  }

  /** The value is one of its type. */
  predicate InType(t: Typed) {
    Allowed(t) && Fits(ItemOf(t))
  }

  predicate WritesBytes(t: Typed) {
    !(t.Bit? || t.Uint2? || t.Uint4? || t.NBits?)
  }

  /** All bytes that are written are zero. */
  predicate WritesZeros(t: Typed) {
    match t
    case Uint8(value) => value == 0
    case Uint16Be(number) => number == 0
    case Uint16Le(number) => number == 0
    case Uint32Be(number) => number == 0
    case Uint64Be(number) => number == 0
    case MacAddress(bytes) => forall i :: 0 <= i < |bytes| ==> bytes[i] == 0
    case Ipv4Address(number) => number == 0
    case _ => false
  }

  predicate SafeAt(length: nat, t: Typed) {
    WritesBytes(t) ==> ByteSafe(length) || WritesZeros(t)
  }

  /** Whole bytes other than zero are only written at safe offsets. */
  predicate SafeFrom(length: nat, ts: seq<Typed>)
    decreases |ts|
  {
    ts == [] || (SafeAt(length, ts[0]) && SafeFrom(length + Width(ItemOf(ts[0])), ts[1..]))
  }

  predicate SameType(a: Typed, b: Typed) {
    match a
    case Bit(_) => b.Bit?
    case Uint2(_) => b.Uint2?
    case Uint4(_) => b.Uint4?
    case Uint8(_) => b.Uint8?
    case Uint16Be(_) => b.Uint16Be?
    case Uint16Le(_) => b.Uint16Le?
    case Uint32Be(_) => b.Uint32Be?
    case Uint64Be(_) => b.Uint64Be?
    case NBits(_, n) => b.NBits?
    case MacAddress(_) => b.MacAddress?
    case Ipv4Address(_) => b.Ipv4Address?
  }

  lemma SameValue(a: Typed, b: Typed)
    requires SameType(a, b) && ItemOf(a) == ItemOf(b)
    ensures a == b
  {
  }

  // ------------------------------------------------------------------ writing

  method WriteTyped(stream: MemoryOutputStream, t: Typed)
    requires stream.Valid() && Allowed(t) && SafeAt(stream.length, t)
    modifies stream
    ensures stream.Valid() && stream.length == old(stream.length) + Width(ItemOf(t))
    ensures stream.bits == old(stream.bits) + Encoding(ItemOf(t))
  {
    hide BitsOf, Flatten, Packed, Content;
    match t {
      case Bit(on) => stream.WriteBit(on);
      case Uint2(value) => stream.WriteUint2(value);
      case Uint4(value) => stream.WriteUint4(value);
      case Uint8(value) => stream.WriteByte(value);
      case Uint16Be(number) => stream.WriteUint16Be(number);
      case Uint16Le(number) => stream.WriteUint16Le(number);
      case Uint32Be(number) => stream.WriteUint32Be(number);
      case Uint64Be(number) => stream.WriteUint64Be(number);
      case NBits(number, n) => var ok := stream.WriteNBitsOfUint64Be(number, n);
      case MacAddress(bytes) => stream.WriteMacAddress(bytes);
      case Ipv4Address(number) => stream.WriteIpv4Address(number);
    }
  }

  /** Any sequence of typed writes, with bytes other than zero at safe offsets, leaves exactly its bits, and bytes
      that represent them. */
  method WriteAll(stream: MemoryOutputStream, ts: seq<Typed>)
    requires stream.Valid() && SafeFrom(stream.length, ts)
    requires forall i :: 0 <= i < |ts| ==> Allowed(ts[i])
    modifies stream
    ensures stream.Valid() && stream.bits == old(stream.bits) + AllWritten(Items(ts))
  {
    hide BitsOf, Flatten, Packed, Content;
    var i := 0;
    assert ts[0..] == ts && Items(ts[..0]) == [];
    while i < |ts|
      invariant i <= |ts| && stream.Valid() && SafeFrom(stream.length, ts[i..])
      invariant stream.bits == old(stream.bits) + AllWritten(Items(ts[..i]))
    {
      assert ts[i..][0] == ts[i] && ts[i..][1..] == ts[i + 1..];
      WriteTyped(stream, ts[i]);
      NextWritten(old(stream.bits), ts, i);
      i := i + 1;
    }
    assert ts[..i] == ts;
  }

  lemma NextWritten(before: seq<bool>, ts: seq<Typed>, i: nat)
    requires i < |ts|
    ensures before + AllWritten(Items(ts[..i])) + Encoding(ItemOf(ts[i])) == before + AllWritten(Items(ts[..i + 1]))
  {
    assert Items(ts[..i + 1]) == Items(ts[..i]) + [ItemOf(ts[i])];
    AllWrittenAdds(Items(ts[..i]), ItemOf(ts[i]));
    Associates(before, AllWritten(Items(ts[..i])), Encoding(ItemOf(ts[i])));
  }

  // ------------------------------------------------------------------ reading

  function TotalWidth(ts: seq<Typed>): nat {
    if ts == [] then 0 else Width(ItemOf(ts[0])) + TotalWidth(ts[1..])
  }

  /** Behind what is still to be read there is the same as behind all that was to be read. */
  ghost predicate LeftOver(rest: seq<bool>, ts: seq<Typed>, s: seq<bool>, all: seq<Typed>) {
    && |rest| >= TotalWidth(ts) && |s| >= TotalWidth(all)
    && rest[TotalWidth(ts)..] == s[TotalWidth(all)..]
  }

  /** Reads a value of the type of shape, whose own value does not matter. */
  method ReadTyped(stream: MemoryInputStream, shape: Typed, width: nat) returns (t: Typed)
    requires stream.Valid() && Allowed(shape)
    requires width == Width(ItemOf(shape)) && |stream.rest| >= width
    modifies stream
    ensures stream.Valid() && stream.rest == old(stream.rest)[width..]
    ensures stream.isReadBeyondEnd == old(stream.isReadBeyondEnd)
    ensures SameType(shape, t) && ItemOf(t) == Decoding(ItemOf(shape), old(stream.rest)[..width])
  {
    match shape {
      case Bit(_) =>
        var on := stream.ReadBit();
        t := Bit(on);
      case Uint2(_) =>
        var v := stream.ReadUint2();
        SmallPowers();
        t := Uint2(v);
      case Uint4(_) =>
        var v := stream.ReadUint4();
        SmallPowers();
        t := Uint4(v);
      case Uint8(_) =>
        var v := stream.ReadByte();
        t := Uint8(v);
      case NBits(_, n) =>
        var ok, v := stream.ReadNBitsToUint64Be(n);
        t := NBits(v, n);
      case Uint16Le(_) =>
        NumbersIn(stream.rest, 2);
        var v := stream.ReadUint16Le();
        t := Uint16Le(v);
      case MacAddress(_) =>
        NumbersIn(stream.rest, 6);
        var bytes := stream.ReadMacAddress();
        t := MacAddress(bytes);
      case _ => t := ReadWide(stream, shape, width);
    }
  }

  /** The numbers of several bytes, most significant first. */
  method ReadWide(stream: MemoryInputStream, shape: Typed, width: nat) returns (t: Typed)
    requires stream.Valid() && (shape.Uint16Be? || shape.Uint32Be? || shape.Uint64Be? || shape.Ipv4Address?)
    requires width == Width(ItemOf(shape)) && |stream.rest| >= width
    modifies stream
    ensures stream.Valid() && stream.rest == old(stream.rest)[width..]
    ensures stream.isReadBeyondEnd == old(stream.isReadBeyondEnd)
    ensures SameType(shape, t) && ItemOf(t) == Decoding(ItemOf(shape), old(stream.rest)[..width])
  {
    match shape {
      case Uint16Be(_) =>
        NumbersIn(stream.rest, 2);
        var v := stream.ReadUint16Be();
        t := Uint16Be(v);
      case Uint32Be(_) =>
        NumbersIn(stream.rest, 4);
        var v := stream.ReadUint32Be();
        t := Uint32Be(v);
      case Uint64Be(_) =>
        NumbersIn(stream.rest, 8);
        var v := stream.ReadUint64Be();
        t := Uint64Be(v);
      case Ipv4Address(_) =>
        NumbersIn(stream.rest, 4);
        var v := stream.ReadIpv4Address();
        t := Ipv4Address(v);
    }
  }

  lemma NumbersIn(s: seq<bool>, n: nat)
    requires |s| >= 8 * n
    ensures BeValue(BytesIn(s, n)) == ValueOf(s[..8 * n]) && BytesIn(s[..8 * n], n) == BytesIn(s, n)
    ensures SkipBytes(s, n) == s[8 * n..]
  {
    BeValueIn(s, n);
    BytesInFront(s, n);
  }

  /** Any sequence of typed reads returns what the bits stand for and uses up exactly these bits. */
  method ReadAll(stream: MemoryInputStream, shapes: seq<Typed>) returns (ts: seq<Typed>)
    requires stream.Valid() && |stream.rest| >= TotalWidth(shapes)
    requires forall i :: 0 <= i < |shapes| ==> Allowed(shapes[i])
    modifies stream
    ensures stream.Valid() && stream.rest == old(stream.rest)[TotalWidth(shapes)..]
    ensures stream.isReadBeyondEnd == old(stream.isReadBeyondEnd)
    ensures Items(ts) == AllRead(Items(shapes), old(stream.rest))
    ensures |ts| == |shapes| && forall i :: 0 <= i < |ts| ==> SameType(shapes[i], ts[i])
  {
    ghost var s := stream.rest;
    ts := [];
    var i := 0;
    assert shapes[0..] == shapes && s[0..] == s;
    while i < |shapes|
      invariant i <= |shapes| && stream.Valid() && |ts| == i
      invariant stream.isReadBeyondEnd == old(stream.isReadBeyondEnd)
      invariant LeftOver(stream.rest, shapes[i..], s, shapes)
      invariant Items(ts) + AllRead(Items(shapes[i..]), stream.rest) == AllRead(Items(shapes), s)
      invariant forall j :: 0 <= j < i ==> SameType(shapes[j], ts[j])
    {
      NextRead(shapes, i, stream.rest);
      ghost var before := stream.rest;
      var t := ReadTyped(stream, shapes[i], Width(ItemOf(shapes[i])));
      OneMoreRead(ts, t, AllRead(Items(shapes[i..]), before), AllRead(Items(shapes[i + 1..]), stream.rest));
      ts := ts + [t];
      i := i + 1;
    }
    assert shapes[i..] == [];
    assert Items(ts) + AllRead(Items([]), stream.rest) == Items(ts);
  }

  lemma OneMoreRead(ts: seq<Typed>, t: Typed, here: seq<Item>, ahead: seq<Item>)
    requires here == [ItemOf(t)] + ahead
    ensures Items(ts + [t]) + ahead == Items(ts) + here
  {
    assert Items(ts + [t]) == Items(ts) + [ItemOf(t)];
  }

  lemma NextRead(shapes: seq<Typed>, i: nat, rest: seq<bool>)
    requires i < |shapes| && |rest| >= TotalWidth(shapes[i..])
    ensures var w := Width(ItemOf(shapes[i]));
      && w <= |rest| && TotalWidth(shapes[i..]) == w + TotalWidth(shapes[i + 1..])
      && rest[TotalWidth(shapes[i..])..] == rest[w..][TotalWidth(shapes[i + 1..])..]
      && AllRead(Items(shapes[i..]), rest)
         == [Decoding(ItemOf(shapes[i]), rest[..w])] + AllRead(Items(shapes[i + 1..]), rest[w..])
  {
    hide *;
    FirstOfRest(shapes, i);
    FirstRead(shapes[i], shapes[i + 1..], rest);
  }

  lemma FirstRead(first: Typed, others: seq<Typed>, rest: seq<bool>)
    ensures var w := Width(ItemOf(first));
      && TotalWidth([first] + others) == w + TotalWidth(others)
      && (|rest| >= w + TotalWidth(others) ==> rest[w + TotalWidth(others)..] == rest[w..][TotalWidth(others)..])
      && (|rest| >= w ==>
            AllRead(Items([first] + others), rest)
            == [Decoding(ItemOf(first), rest[..w])] + AllRead(Items(others), rest[w..]))
  {
    assert ([first] + others)[1..] == others;
    assert Items([first] + others) == [ItemOf(first)] + Items(others);
    assert ([ItemOf(first)] + Items(others))[1..] == Items(others);
  }

  // ------------------------------------------------------------------ writing, then reading

  /** What is written to a stream with any typed functions, bytes other than zero at safe offsets, is read back
      with the same types, to the last bit. */
  method WriteThenRead(ts: seq<Typed>) returns (back: seq<Typed>)
    requires forall i :: 0 <= i < |ts| ==> InType(ts[i])
    requires SafeFrom(0, ts)
    ensures back == ts
  {
    var output := new MemoryOutputStream();
    WriteAll(output, ts);
    AllWrittenWidth(ts);
    var input := new MemoryInputStream(output.data, output.length, 0);
    assert [] + AllWritten(Items(ts)) == AllWritten(Items(ts));
    assert input.rest == AllWritten(Items(ts));
    back := ReadAll(input, ts);
    ReadBack(Items(ts), []);
    assert AllWritten(Items(ts)) + [] == AllWritten(Items(ts));
    forall i | 0 <= i < |ts| ensures back[i] == ts[i] {
      assert Items(back)[i] == Items(ts)[i];
      SameValue(ts[i], back[i]);
    }
  }

  lemma {:induction false} AllWrittenWidth(ts: seq<Typed>)
    ensures |AllWritten(Items(ts))| == TotalWidth(ts)
  {
    if ts != [] {
      assert Items(ts)[1..] == Items(ts[1..]);
      AllWrittenWidth(ts[1..]);
    }
  }
}
