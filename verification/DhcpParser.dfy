/** Reading DHCP messages from a stream. */
module DhcpParser {

  import opened BitStreams
  import opened Bits
  import opened DhcpCodec
  import opened Lists
  import opened MemoryInputStreams

  /** The stream is at whole bytes and c is what is left of it. */
  ghost predicate Holds(stream: MemoryInputStream, c: seq<Byte>)
    reads stream
  {
    stream.Valid() && stream.length % 8 == 0 && stream.rest == Flatten(c)
  }

  lemma {:induction false} ReadsWindow(c: seq<Byte>, n: nat)
    ensures BytesIn(Flatten(c), n) == Window(c, 0, n)
    ensures SkipBytes(Flatten(c), n) == Flatten(Behind(c, n))
    decreases n
  {
    hide *;
    if n == 0 {
      NothingRead(c);
    } else {
      var d := Behind(c, 1);
      OneByteRead(c);
      ReadsWindow(d, n - 1);
      SkipsAdd(Flatten(c), 1, n - 1);
      BytesInFirst(Flatten(c), n);
      BehindTwice(c, 1, n - 1);
      WindowFirst(c, n);
    }
  }

  lemma NothingRead(c: seq<Byte>)
    ensures BytesIn(Flatten(c), 0) == Window(c, 0, 0)
    ensures SkipBytes(Flatten(c), 0) == Flatten(c) && Behind(c, 0) == c
  {
  }

  lemma OneByteRead(c: seq<Byte>)
    ensures NextByte(Flatten(c)) == ByteAt(c, 0)
    ensures SkipBytes(Flatten(c), 1) == Flatten(Behind(c, 1))
  {
    if c != [] {
      assert c == [c[0]] + c[1..];
      FlattenAdds([c[0]], c[1..]);
      FlattenOne(c[0]);
      ByteThere(c[0], Flatten(c[1..]));
    }
  }

  lemma WindowFirst(c: seq<Byte>, n: nat)
    requires n > 0
    ensures Window(c, 0, n) == [ByteAt(c, 0)] + Window(Behind(c, 1), 0, n - 1)
  {
    var l, r := Window(c, 0, n), [ByteAt(c, 0)] + Window(Behind(c, 1), 0, n - 1);
    forall k | 0 <= k < n ensures l[k] == r[k] {
      if k > 0 { assert ByteAt(Behind(c, 1), k - 1) == ByteAt(c, k); }
    }
    assert l == r;
  }

  lemma BehindTwice(c: seq<Byte>, m: nat, n: nat)
    ensures Behind(Behind(c, m), n) == Behind(c, m + n)
  {
  }

  /** The places of the fields, seen from the start of the message. */
  lemma FromHere(b: seq<Byte>, i: nat, n: nat)
    ensures Window(Behind(b, i), 0, n) == Window(b, i, n)
    ensures Behind(Behind(b, i), n) == Behind(b, i + n)
  {
    assert forall k :: 0 <= k < n ==> ByteAt(Behind(b, i), k) == ByteAt(b, i + k);
  }

  // ------------------------------------------------------------------ single reads, i bytes into b

  method GetByte(stream: MemoryInputStream, ghost b: seq<Byte>, ghost i: nat) returns (v: Byte)
    requires Holds(stream, Behind(b, i))
    modifies stream
    ensures v == ByteAt(b, i) && Holds(stream, Behind(b, i + 1))
  {
    v := stream.ReadByte();
    OneByteRead(Behind(b, i));
    BehindTwice(b, i, 1);
  }

  method GetHalfWord(stream: MemoryInputStream, ghost b: seq<Byte>, ghost i: nat) returns (v: Word16)
    requires Holds(stream, Behind(b, i))
    modifies stream
    ensures v == NumberAt(b, i, 2) && Holds(stream, Behind(b, i + 2))
  {
    ReadsWindow(Behind(b, i), 2);
    FromHere(b, i, 2);
    var w := stream.ReadUint16Be();
    assert w == NumberAt(b, i, 2);
    v := w;
  }

  method GetWord(stream: MemoryInputStream, ghost b: seq<Byte>, ghost i: nat) returns (v: Word32)
    requires Holds(stream, Behind(b, i))
    modifies stream
    ensures v == NumberAt(b, i, 4) && Holds(stream, Behind(b, i + 4))
  {
    ReadsWindow(Behind(b, i), 4);
    FromHere(b, i, 4);
    var w := stream.ReadUint32Be();
    assert w == NumberAt(b, i, 4);
    v := w;
  }

  method GetMac(stream: MemoryInputStream, ghost b: seq<Byte>, ghost i: nat) returns (mac: MacBytes)
    requires Holds(stream, Behind(b, i))
    modifies stream
    ensures mac == Window(b, i, 6) && Holds(stream, Behind(b, i + 6))
  {
    ReadsWindow(Behind(b, i), 6);
    FromHere(b, i, 6);
    mac := stream.ReadMacAddress();
  }

  /** A field of characters, byte by byte. */
  method GetText(stream: MemoryInputStream, size: nat, ghost b: seq<Byte>, ghost i: nat) returns (text: seq<Byte>)
    requires Holds(stream, Behind(b, i))
    modifies stream
    ensures text == Window(b, i, size) && Holds(stream, Behind(b, i + size))
  {
    ghost var s := stream.rest;
    text := [];
    var k := 0;
    while k < size
      invariant k <= size && stream.Valid()
      invariant text == BytesIn(s, k) && stream.rest == SkipBytes(s, k)
    {
      var c := stream.ReadByte();
      BytesInNext(s, k);
      SkipsAdd(s, k, 1);
      text := text + [c];
      k := k + 1;
    }
    ReadsWindow(Behind(b, i), size);
    FromHere(b, i, size);
  }

  method GetFlags(stream: MemoryInputStream, ghost b: seq<Byte>, ghost i: nat)
    returns (broadcast: bool, reserved: Word16)
    requires Holds(stream, Behind(b, i))
    modifies stream
    ensures broadcast == (NumberAt(b, i, 2) >= 0x8000) && reserved == NumberAt(b, i, 2) % 0x8000
    ensures Holds(stream, Behind(b, i + 2))
  {
    ghost var s := stream.rest;
    FlagsRead(b, i);
    broadcast := stream.ReadBit();
    var ok, n := stream.ReadNBitsToUint64Be(15);
    reserved := n;
  }

  lemma FlagsRead(b: seq<Byte>, i: nat)
    ensures var s, v := Flatten(Behind(b, i)), NumberAt(b, i, 2);
      && FirstBit(s) == (v >= 0x8000)
      && ValueOf(Padded(SkipBits(s, 1), 15)) == v % 0x8000
      && SkipBits(SkipBits(s, 1), 15) == Flatten(Behind(b, i + 2))
  {
    var c, v := Behind(b, i), NumberAt(b, i, 2);
    FromHere(b, i, 2);
    SixteenBits(c);
    TwoByteBits(Window(c, 0, 2));
    UpperBit(v);
    FirstOfSixteen(Flatten(c));
  }

  lemma TwoByteBits(w: seq<Byte>)
    requires |w| == 2
    ensures Flatten(w) == BitsOf(BeValue(w), 16)
  {
    BeBounded(w);
    BeBytesBits(BeValue(w), 2);
  }

  lemma FirstOfSixteen(s: seq<bool>)
    ensures Padded(s, 16)[0] == FirstBit(s) && Padded(s, 16)[1..] == Padded(SkipBits(s, 1), 15)
  {
  }

  /** Sixteen bits, with zeros behind the end, are those of the next two bytes. */
  lemma SixteenBits(c: seq<Byte>)
    ensures Padded(Flatten(c), 16) == Flatten(Window(c, 0, 2))
    ensures SkipBits(SkipBits(Flatten(c), 1), 15) == Flatten(Behind(c, 2))
  {
    if |c| >= 2 {
      assert c == c[..2] + c[2..] && Window(c, 0, 2) == c[..2];
      FlattenAdds(c[..2], c[2..]);
    } else {
      var zeros := Zeros(2 - |c|);
      assert Window(c, 0, 2) == c + zeros;
      FlattenAdds(c, zeros);
      ZerosFlat(2 - |c|);
    }
  }

  lemma {:induction false} ZerosFlat(n: nat)
    ensures Flatten(Zeros(n)) == seq(8 * n, _ => false)
  {
    if n > 0 {
      ZerosFlat(n - 1);
      assert Zeros(n)[..n - 1] == Zeros(n - 1);
      EightClear();
    }
  }

  lemma EightClear()
    ensures BitsOf(0, 8) == seq(8, _ => false)
  {
    assert BitsOf(0, 4) == [false, false, false, false];
  }

  lemma UpperBit(v: Word16)
    ensures BitsOf(v, 16)[0] == (v >= 0x8000) && ValueOf(BitsOf(v, 16)[1..]) == v % 0x8000
  {
    hide *;
    Pow2Of15();
    BitStreams.Split(v, 1, 15);
    ValueOfBits(v % 0x8000, 15);
    OneBit(v / 0x8000);
    HeadAndTail(v >= 0x8000, BitsOf(v % 0x8000, 15));
  }

  lemma Pow2Of15()
    ensures Pow2(15) == 0x8000
  {
    Pow2Of24();
    assert Pow2(16) == 2 * Pow2(15);
  }

  lemma OneBit(v: nat)
    requires v < 2
    ensures BitsOf(v, 1) == [v == 1]
  {
    assert BitsOf(v / 2, 0) == [];
  }

  // ------------------------------------------------------------------ fixed part

  method ReadFixedPart(stream: MemoryInputStream, ghost b: seq<Byte>) returns (m: Message)
    requires Holds(stream, b)
    modifies stream
    ensures m == FixedMessage(b, [], [], NO_OPTIONS) && Holds(stream, Behind(b, 44))
  {
    hide Behind, Window, ByteAt, Flatten, BitsOf;
    NothingRead(b);
    var op := GetByte(stream, b, 0);
    var htype := GetByte(stream, b, 1);
    var hlen := GetByte(stream, b, 2);
    var hops := GetByte(stream, b, 3);
    var xid := GetWord(stream, b, 4);
    var secs := GetHalfWord(stream, b, 8);
    var broadcast, reserved := GetFlags(stream, b, 10);
    var ciaddr, yiaddr, giaddr, chaddr := ReadAddresses(stream, b);
    m := Message(if op == 1 then BootRequest else BootReply, htype, hlen, hops, xid, secs, broadcast, reserved,
                 ciaddr, yiaddr, giaddr, chaddr, [], [], NO_OPTIONS);
  }

  /** siaddr and the end of chaddr are read and forgotten. */
  method ReadAddresses(stream: MemoryInputStream, ghost b: seq<Byte>)
    returns (ciaddr: Word32, yiaddr: Word32, giaddr: Word32, chaddr: MacBytes)
    requires Holds(stream, Behind(b, 12))
    modifies stream
    ensures ciaddr == NumberAt(b, 12, 4) && yiaddr == NumberAt(b, 16, 4) && giaddr == NumberAt(b, 24, 4)
    ensures chaddr == Window(b, 28, 6) && Holds(stream, Behind(b, 44))
  {
    ciaddr := GetWord(stream, b, 12);
    yiaddr := GetWord(stream, b, 16);
    var siaddr := GetWord(stream, b, 20);
    giaddr := GetWord(stream, b, 24);
    chaddr := GetMac(stream, b, 28);
    var p1 := GetByte(stream, b, 34);
    var p2 := GetByte(stream, b, 35);
    ReadsWindow(Behind(b, 36), 8);
    BehindTwice(b, 36, 8);
    var p := stream.ReadUint64Be();
  }

  // ------------------------------------------------------------------ options

  /** What reading the option at the start of c gives, behind its code. */
  ghost predicate OptionRead(c: seq<Byte>, o: Options, ok: bool, after: Options)
    requires c != []
  {
    var code, size := c[0], ByteAt(c, 1);
    && (ok <==> Accepts(code, size, ByteAt(c, 2)))
    && (ok ==> after == AppliedAt(c, o))
  }

  ghost function AppliedAt(c: seq<Byte>, o: Options): Options
    requires c != [] && Accepts(c[0], ByteAt(c, 1), ByteAt(c, 2))
  {
    SameKind(c);
    Applied(o, c[0], Window(c, 2, ByteAt(c, 1)))
  }

  lemma SameKind(c: seq<Byte>)
    requires c != []
    ensures var size := ByteAt(c, 1);
      Accepts(c[0], size, ByteAt(Window(c, 2, size), 0)) <==> Accepts(c[0], size, ByteAt(c, 2))
  {
  }

  method ReadNumberOption(stream: MemoryInputStream, code: Byte, size: Byte, o: Options, ghost c: seq<Byte>)
    returns (ok: bool, after: Options)
    requires c != [] && c[0] == code && IsNumber(code) && size == ByteAt(c, 1) && Holds(stream, Behind(c, 2))
    modifies stream
    ensures OptionRead(c, o, ok, after)
    ensures ok ==> Holds(stream, Behind(c, 2 + size))
  {
    if size != 4 {
      return false, o;
    }
    var v := GetWord(stream, c, 2);
    NumberOfWindow(c, 2);
    after := if code == REQUESTED_IP then o.(requestedIp := v)
             else if code == SUBNET_MASK then o.(subnetMask := v)
             else if code == SERVER_ID then o.(serverIdentifier := v)
             else if code == RENEWAL_TIME then o.(renewalTime := v)
             else if code == REBIND_TIME then o.(rebindingTime := v)
             else o.(leaseTime := v);
    ok := true;
  }

  lemma NumberOfWindow(c: seq<Byte>, i: nat)
    ensures NumberAt(Window(c, i, 4), 0, 4) == NumberAt(c, i, 4)
  {
    assert Window(Window(c, i, 4), 0, 4) == Window(c, i, 4);
  }

  method ReadAddressesOption(stream: MemoryInputStream, code: Byte, size: Byte, o: Options, ghost c: seq<Byte>)
    returns (ok: bool, after: Options)
    requires c != [] && c[0] == code && IsAddressList(code) && size == ByteAt(c, 1) && Holds(stream, Behind(c, 2))
    modifies stream
    ensures OptionRead(c, o, ok, after)
    ensures ok ==> Holds(stream, Behind(c, 2 + size))
  {
    if size % 4 != 0 {
      return false, o;
    }
    var list := ReadAddressList(stream, size / 4, c, 2);
    after := if code == ROUTER then o.(router := list)
             else if code == DNS then o.(dns := list)
             else o.(ntp := list);
    ok := true;
  }

  method ReadAddressList(stream: MemoryInputStream, dim: nat, ghost c: seq<Byte>, ghost i: nat)
    returns (list: seq<Word32>)
    requires Holds(stream, Behind(c, i))
    modifies stream
    ensures list == Addresses(Window(c, i, 4 * dim)) && Holds(stream, Behind(c, i + 4 * dim))
  {
    hide Window, Behind, ByteAt, Flatten;
    list := [];
    var k := 0;
    ghost var at: nat := i;
    assert FirstAddresses(c, i, 0) == [];
    while k < dim
      invariant k <= dim && at == i + 4 * k
      invariant list == FirstAddresses(c, i, k) && Holds(stream, Behind(c, at))
    {
      var address := GetWord(stream, c, at);
      NextOfAddresses(c, i, k);
      list := list + [address];
      k, at := k + 1, at + 4;
    }
  }

  ghost function FirstAddresses(c: seq<Byte>, i: nat, k: nat): seq<Word32> {
    Addresses(Window(c, i, 4 * k))
  }

  lemma NextOfAddresses(c: seq<Byte>, i: nat, k: nat)
    ensures FirstAddresses(c, i, k + 1) == FirstAddresses(c, i, k) + [NumberAt(c, i + 4 * k, 4)]
  {
    var w := Window(c, i, 4 * k);
    assert Window(c, i, 4 * (k + 1)) == w + Window(c, i + 4 * k, 4);
    AddressesEnd(w, Window(c, i + 4 * k, 4));
    NumberOfWindow(c, i + 4 * k);
  }

  lemma {:induction false} AddressesEnd(s: seq<Byte>, last: seq<Byte>)
    requires |s| % 4 == 0 && |last| == 4
    ensures Addresses(s + last) == Addresses(s) + [NumberAt(last, 0, 4)]
    decreases |s|
  {
    if s == [] {
      assert s + last == last;
      assert Addresses(last[4..]) == [];
    } else {
      assert (s + last)[4..] == s[4..] + last;
      assert Window(s + last, 0, 4) == Window(s, 0, 4);
      AddressesEnd(s[4..], last);
    }
  }

  method ReadTypeOption(stream: MemoryInputStream, size: Byte, o: Options, ghost c: seq<Byte>)
    returns (ok: bool, after: Options)
    requires c != [] && c[0] == DHCP_MSG_TYPE && size == ByteAt(c, 1) && Holds(stream, Behind(c, 2))
    modifies stream
    ensures OptionRead(c, o, ok, after)
    ensures ok ==> Holds(stream, Behind(c, 2 + size))
  {
    if size != 1 {
      return false, o;
    }
    var kind := GetByte(stream, c, 2);
    return true, o.(messageType := kind);
  }

  method ReadClientOption(stream: MemoryInputStream, size: Byte, o: Options, ghost c: seq<Byte>)
    returns (ok: bool, after: Options)
    requires c != [] && c[0] == CLIENT_ID && size == ByteAt(c, 1) && Holds(stream, Behind(c, 2))
    modifies stream
    ensures OptionRead(c, o, ok, after)
    ensures ok ==> Holds(stream, Behind(c, 2 + size))
  {
    var kind := GetByte(stream, c, 2);
    if size != 7 || kind != 1 {
      return false, o;
    }
    var mac := GetMac(stream, c, 3);
    assert Window(c, 2, 7)[1..] == Window(c, 3, 6);
    return true, o.(clientIdentifier := mac);
  }

  method ReadParameterOption(stream: MemoryInputStream, size: Byte, o: Options, ghost c: seq<Byte>)
    returns (after: Options)
    requires c != [] && c[0] == PARAM_LIST && size == ByteAt(c, 1) && Holds(stream, Behind(c, 2))
    modifies stream
    ensures OptionRead(c, o, true, after)
    ensures Holds(stream, Behind(c, 2 + size))
  {
    var list := GetText(stream, size, c, 2);
    after := o.(parameterRequestList := list);
  }

  /** When fewer bytes are left the name ends with them here; the source leaves the rest of its buffer
      as it happens to be, but then never returns. */
  method ReadHostNameOption(stream: MemoryInputStream, size: Byte, o: Options, ghost c: seq<Byte>)
    returns (after: Options)
    requires c != [] && c[0] == HOSTNAME && size == ByteAt(c, 1) && Holds(stream, Behind(c, 2))
    modifies stream
    ensures OptionRead(c, o, true, after)
    ensures Holds(stream, Behind(c, 2 + size))
  {
    var name := SkipOrTake(stream, size, c);
    after := o.(hostName := UpToZero(name));
  }

  /** The bytes of an option, as far as they are there. */
  method SkipOrTake(stream: MemoryInputStream, size: Byte, ghost c: seq<Byte>) returns (bytes: seq<Byte>)
    requires Holds(stream, Behind(c, 2))
    modifies stream
    ensures UpToZero(bytes) == UpToZero(Window(c, 2, size))
    ensures Holds(stream, Behind(c, 2 + size))
  {
    ghost var d := Behind(c, 2);
    AtWholeBytes(stream, d);
    bytes := stream.ReadBytes(size);
    ReadsWindow(d, size);
    ReadsWindow(d, |bytes|);
    FromHere(c, 2, size);
    TakenFrom(d, size, |bytes|);
  }

  lemma AtWholeBytes(stream: MemoryInputStream, d: seq<Byte>)
    requires Holds(stream, d)
    ensures stream.position % 8 == 0
  {
    assert |stream.rest| == stream.length - stream.position == 8 * |d|;
  }

  lemma TakenFrom(d: seq<Byte>, size: nat, count: nat)
    requires count == Available(8 * |d|, size)
    ensures UpToZero(Window(d, 0, count)) == UpToZero(Window(d, 0, size))
  {
    if count < size {
      assert count == |d|;
      assert Window(d, 0, size) == Window(d, 0, count) + Zeros(size - count);
      UpToZeroPadded(Window(d, 0, count), size - count);
    }
  }

  lemma {:induction false} UpToZeroPadded(s: seq<Byte>, n: nat)
    ensures UpToZero(s + Zeros(n)) == UpToZero(s)
  {
    if s == [] {
      assert s + Zeros(n) == Zeros(n);
    } else {
      assert (s + Zeros(n))[1..] == s[1..] + Zeros(n);
      UpToZeroPadded(s[1..], n);
    }
  }

  /** The switch over the option codes; an unknown option is skipped. */
  method ReadBody(stream: MemoryInputStream, code: Byte, size: Byte, o: Options, ghost c: seq<Byte>)
    returns (ok: bool, known: bool, after: Options)
    requires c != [] && c[0] == code && size == ByteAt(c, 1) && Holds(stream, Behind(c, 2))
    modifies stream
    ensures OptionRead(c, o, ok, after) && known == Known(code)
    ensures ok ==> Holds(stream, Behind(c, 2 + size))
  {
    ok, known := true, true;
    if IsNumber(code) {
      ok, after := ReadNumberOption(stream, code, size, o, c);
    } else if IsAddressList(code) {
      ok, after := ReadAddressesOption(stream, code, size, o, c);
    } else if code == DHCP_MSG_TYPE {
      ok, after := ReadTypeOption(stream, size, o, c);
    } else if code == CLIENT_ID {
      ok, after := ReadClientOption(stream, size, o, c);
    } else if code == PARAM_LIST {
      after := ReadParameterOption(stream, size, o, c);
    } else if code == HOSTNAME {
      after := ReadHostNameOption(stream, size, o, c);
    } else {
      var skipped := SkipOrTake(stream, size, c);
      known, after := false, o;
    }
  }

  // ------------------------------------------------------------------ the option loop

  /** The option at the start of c. */
  ghost function EntryAt(c: seq<Byte>): (e: Entry)
    requires c != []
    ensures Readable(e)
  {
    Entry(c[0], ByteAt(c, 1), Window(c, 2, ByteAt(c, 1)))
  }

  /** One round of the loop does one step of the specification. */
  lemma OneRound(c: seq<Byte>, p: Progress)
    requires c != [] && c[0] != END
    ensures var e := EntryAt(c);
      && (Accepted(e) <==> Accepts(c[0], ByteAt(c, 1), ByteAt(c, 2)))
      && DecodeOptions(c, p)
         == if Accepted(e) then DecodeOptions(Behind(c, 2 + ByteAt(c, 1)), Advanced(p, e)) else Refused
  {
    SameKind(c);
    var d := Behind(c, 2 + ByteAt(c, 1));
    SplitsReadable(c);
    SplitsReadable(d);
    assert SplitOptions(c).entries == [EntryAt(c)] + SplitOptions(d).entries;
    assert SplitOptions(c).entries[1..] == SplitOptions(d).entries;
  }

  /** When the bytes have run out, a round reads zeros, changes nothing but the counter and the mark, and
      leaves the loop where it was: the source never comes out of it. */
  lemma NoEndNoStop(p: Progress)
    ensures Accepts(ByteAt([], 0), ByteAt([], 1), ByteAt([], 2)) && ByteAt([], 0) != END
    ensures Advanced(p, Entry(ByteAt([], 0), ByteAt([], 1), [])) == Progress(p.options, true, p.length + 2)
    ensures Behind([], 2 + ByteAt([], 1)) == []
    ensures DecodeOptions([], p) == Endless
  {
    SplitsReadable([]);
  }

  datatype OptionsResult = OptionsDone(progress: Progress) | OptionsRefused | OptionsEndless

  method ReadOptions(stream: MemoryInputStream, start: Progress, ghost t: seq<Byte>) returns (r: OptionsResult)
    requires Holds(stream, t)
    modifies stream
    ensures match DecodeOptions(t, start) {
      case Parsed(o, incorrect, length, rest) =>
        r == OptionsDone(Progress(o, incorrect, length)) && Holds(stream, rest)
      case Refused => r == OptionsRefused
      case Overrun => false
      case Endless => r == OptionsEndless
    }
  {
    var p := start;
    ghost var c := t;
    var code, exhausted := ReadCode(stream, c);
    while code != END && !exhausted
      invariant Holds(stream, Behind(c, 1)) && code == ByteAt(c, 0) && (exhausted <==> c == [])
      invariant DecodeOptions(c, p) == DecodeOptions(t, start)
      decreases |c|
    {
      var ok, q := ReadRound(stream, code, p, c);
      if !ok {
        return OptionsRefused;
      }
      p, c := q, NextOption(c);
      code, exhausted := ReadCode(stream, c);
    }
    LastRound(c, p);
    if exhausted {
      return OptionsEndless;
    }
    return OptionsDone(Progress(p.options, p.incorrect, p.length + 1));
  }

  ghost function NextOption(c: seq<Byte>): (d: seq<Byte>)
    ensures c != [] ==> |d| < |c|
  {
    Behind(c, 2 + ByteAt(c, 1) as int)
  }

  method ReadCode(stream: MemoryInputStream, ghost c: seq<Byte>) returns (code: Byte, exhausted: bool)
    requires Holds(stream, c)
    modifies stream
    ensures code == ByteAt(c, 0) && (exhausted <==> c == []) && Holds(stream, Behind(c, 1))
  {
    assert Behind(c, 0) == c;
    AtEnd(stream, c);
    exhausted := stream.position == stream.length;
    code := GetByte(stream, c, 0);
  }

  method ReadRound(stream: MemoryInputStream, code: Byte, p: Progress, ghost c: seq<Byte>)
    returns (ok: bool, q: Progress)
    requires c != [] && code == c[0] != END && Holds(stream, Behind(c, 1))
    modifies stream
    ensures ok ==> DecodeOptions(c, p) == DecodeOptions(NextOption(c), q) && Holds(stream, NextOption(c))
    ensures !ok ==> DecodeOptions(c, p) == Refused
  {
    hide BitsOf, Flatten;
    OneRound(c, p);
    var size := GetByte(stream, c, 1);
    var accepted, known, o := ReadBody(stream, code, size, p.options, c);
    ok, q := accepted, Progress(o, p.incorrect || !known, p.length + 2 + size);
  }

  lemma AtEnd(stream: MemoryInputStream, c: seq<Byte>)
    requires Holds(stream, c)
    ensures stream.position == stream.length <==> c == []
  {
    assert |stream.rest| == stream.length - stream.position == 8 * |c|;
  }

  lemma LastRound(c: seq<Byte>, p: Progress)
    ensures c == [] ==> DecodeOptions(c, p) == Endless
    ensures c != [] && c[0] == END ==> DecodeOptions(c, p) == Parsed(p.options, p.incorrect, p.length + 1, Behind(c, 1))
  {
    SplitsReadable(c);
  }

  // ------------------------------------------------------------------ deserialize

  datatype ReadResult = Read(message: Message, incorrect: bool, length: nat) | AssertionFailed | FieldOverrun
          | NeverEnds

  method Deserialize(stream: MemoryInputStream, ghost b: seq<Byte>) returns (r: ReadResult)
    requires Holds(stream, b)
    modifies stream
    ensures match Decode(b) {
      case Parsed(m, incorrect, length, rest) => r == Read(m, incorrect, length) && Holds(stream, rest)
      case Refused => r == AssertionFailed
      case Overrun => r == FieldOverrun
      case Endless => r == NeverEnds
    }
  {
    var m := ReadFixedPart(stream, b);
    var sname := GetText(stream, 64, b, 44);
    if 0 !in sname {
      return FieldOverrun;
    }
    var file := GetText(stream, 128, b, 108);
    if 0 !in file {
      return FieldOverrun;
    }
    var cookie := GetText(stream, 4, b, 236);
    if cookie != COOKIE {
      return AssertionFailed;
    }
    var result := ReadOptions(stream, Progress(NO_OPTIONS, false, 236 + 4), Behind(b, 240));
    match result {
      case OptionsRefused => r := AssertionFailed;
      case OptionsEndless => r := NeverEnds;
      case OptionsDone(p) =>
        m := m.(sname := UpToZero(sname), file := UpToZero(file), options := p.options);
        r := Read(m, p.incorrect, p.length);
    }
  }
}
