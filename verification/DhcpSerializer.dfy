/** Writing DHCP messages to a stream and reading them from one. */
module DhcpSerializer {

  import opened BitStreams
  import opened Bits
  import opened DhcpCodec
  import opened DhcpRoundTrip
  import opened Lists
  import opened MemoryOutputStreams

  datatype WriteResult = Written | NameTooLong | FileTooLong | WrongLength

  /** What is in the stream afterwards, also when the message is refused on the way. */
  function Produced(m: Message): seq<Byte> {
    if |m.sname| > 64 then FixedPart(m)
    else if |m.file| > 128 then FixedPart(m) + StringField(m.sname, 64)
    else Encode(m)
  }

  /** The stream holds some bytes more than it did. */
  ghost predicate Extends(stream: MemoryOutputStream, before: seq<bool>, bytes: seq<Byte>)
    reads stream
  {
    stream.Ready() && stream.bits == before + Flatten(bytes)
  }

  lemma Appended(before: seq<bool>, a: seq<Byte>, b: seq<Byte>)
    ensures before + Flatten(a) + Flatten(b) == before + Flatten(a + b)
  {
    FlattenAdds(a, b);
  }

  lemma NothingYet(stream: MemoryOutputStream)
    requires stream.Ready()
    ensures Extends(stream, stream.bits, [])
  {
  }

  // ------------------------------------------------------------------ single writes, behind w bytes written before

  method PutByte(stream: MemoryOutputStream, b: Byte, ghost before: seq<bool>, ghost w: seq<Byte>)
    requires Extends(stream, before, w)
    modifies stream
    ensures Extends(stream, before, w + [b])
  {
    stream.WriteByte(b);
    FlattenOne(b);
    Appended(before, w, [b]);
  }

  method PutZeros(stream: MemoryOutputStream, count: nat, ghost before: seq<bool>, ghost w: seq<Byte>)
    requires Extends(stream, before, w)
    modifies stream
    ensures Extends(stream, before, w + Zeros(count))
  {
    stream.WriteByteRepeatedly(0, count);
    assert seq(count, _ => 0) == Zeros(count);
    Appended(before, w, Zeros(count));
  }

  method PutHalfWord(stream: MemoryOutputStream, v: Word16, ghost before: seq<bool>, ghost w: seq<Byte>)
    requires Extends(stream, before, w)
    modifies stream
    ensures Extends(stream, before, w + BeBytes(v, 2))
  {
    stream.WriteUint16Be(v);
    BeBytesBits(v, 2);
    Appended(before, w, BeBytes(v, 2));
  }

  method PutWord(stream: MemoryOutputStream, v: Word32, ghost before: seq<bool>, ghost w: seq<Byte>)
    requires Extends(stream, before, w)
    modifies stream
    ensures Extends(stream, before, w + BeBytes(v, 4))
  {
    stream.WriteUint32Be(v);
    BeBytesBits(v, 4);
    Appended(before, w, BeBytes(v, 4));
  }

  method PutMac(stream: MemoryOutputStream, mac: MacBytes, ghost before: seq<bool>, ghost w: seq<Byte>)
    requires Extends(stream, before, w)
    modifies stream
    ensures Extends(stream, before, w + mac)
  {
    stream.WriteMacAddress(mac);
    Appended(before, w, mac);
  }

  /** The broadcast bit and the fifteen reserved ones. */
  method PutFlags(stream: MemoryOutputStream, m: Message, ghost before: seq<bool>, ghost w: seq<Byte>)
    requires Extends(stream, before, w)
    modifies stream
    ensures Extends(stream, before, w + BeBytes(Flags(m), 2))
  {
    stream.WriteBit(m.broadcast);
    var ok := stream.WriteNBitsOfUint64Be(m.reserved, 15);
    SafeBehind(old(stream.length));
    FlagsAppended(before, w, m);
  }

  lemma FlagsAppended(before: seq<bool>, w: seq<Byte>, m: Message)
    ensures before + Flatten(w) + [m.broadcast] + Encoding(Number(m.reserved, 15))
         == before + Flatten(w + BeBytes(Flags(m), 2))
  {
    FlagBits(m);
    Associates(before + Flatten(w), [m.broadcast], BitsOf(m.reserved, 15));
    Appended(before, w, BeBytes(Flags(m), 2));
  }

  lemma SafeBehind(length: nat)
    ensures ByteSafe(length) ==> ByteSafe(length + 1 + 15)
  {
  }

  lemma FlagBits(m: Message)
    ensures Flatten(BeBytes(Flags(m), 2)) == [m.broadcast] + BitsOf(m.reserved, 15)
  {
    var top, low := if m.broadcast then 1 else 0, m.reserved % 0x8000;
    BeBytesBits(Flags(m), 2);
    HalfOfWord();
    Joined(top, 1, low, 15);
    LowestDigits(m.reserved, 15);
    OneBit(m.broadcast);
    assert top * 0x8000 + low == Flags(m);
  }

  lemma HalfOfWord()
    ensures Pow2(15) == 0x8000
  {
    Pow2Of24();
    assert Pow2(16) == 2 * Pow2(15);
  }

  lemma OneBit(b: bool)
    ensures BitsOf(if b then 1 else 0, 1) == [b]
  {
    assert BitsOf((if b then 1 else 0) / 2, 0) == [];
  }

  // ------------------------------------------------------------------ fixed part and strings

  method WriteFixedPart(stream: MemoryOutputStream, m: Message)
    requires stream.Ready()
    modifies stream
    ensures Extends(stream, old(stream.bits), FixedPart(m))
  {
    ghost var s := stream.bits;
    NothingYet(stream);
    PutByte(stream, OpByte(m.op), s, []);
    ghost var w: seq<Byte> := [OpByte(m.op)];
    PutByte(stream, ToByte(m.htype), s, w);
    w := w + [ToByte(m.htype)];
    PutByte(stream, ToByte(m.hlen), s, w);
    w := w + [ToByte(m.hlen)];
    PutByte(stream, ToByte(m.hops), s, w);
    w := w + [ToByte(m.hops)];
    PutWord(stream, m.xid, s, w);
    w := w + BeBytes(m.xid, 4);
    PutHalfWord(stream, m.secs % 0x1_0000, s, w);
    w := w + BeBytes(m.secs % 0x1_0000, 2);
    PutFlags(stream, m, s, w);
    w := w + BeBytes(Flags(m), 2);
    WriteAddresses(stream, m, s, w);
    FixedInOrder(m);
  }

  method WriteAddresses(stream: MemoryOutputStream, m: Message, ghost s: seq<bool>, ghost w0: seq<Byte>)
    requires Extends(stream, s, w0)
    modifies stream
    ensures Extends(stream, s, w0 + AddressPart(m))
  {
    ghost var w := w0;
    PutWord(stream, m.ciaddr, s, w);
    w := w + BeBytes(m.ciaddr, 4);
    PutWord(stream, m.yiaddr, s, w);
    w := w + BeBytes(m.yiaddr, 4);
    PutWord(stream, 0, s, w);
    w := w + BeBytes(0, 4);
    PutWord(stream, m.giaddr, s, w);
    w := w + BeBytes(m.giaddr, 4);
    PutMac(stream, m.chaddr, s, w);
    w := w + m.chaddr;
    PutByte(stream, 0, s, w);
    w := w + [0];
    PutByte(stream, 0, s, w);
    w := w + [0];
    stream.WriteUint64Be(0);
    BeBytesBits(0, 8);
    Appended(s, w, BeBytes(0, 8));
    AddressesInOrder(m, w0);
  }

  ghost function AddressPart(m: Message): seq<Byte> {
    BeBytes(m.ciaddr, 4) + BeBytes(m.yiaddr, 4) + Zeros(4) + BeBytes(m.giaddr, 4) + m.chaddr + Zeros(10)
  }

  lemma {:induction false} ZeroNumber(n: nat)
    ensures BeBytes(0, n) == Zeros(n)
  {
    if n > 0 { ZeroNumber(n - 1); }
  }

  lemma AddressesInOrder(m: Message, w: seq<Byte>)
    ensures w + BeBytes(m.ciaddr, 4) + BeBytes(m.yiaddr, 4) + BeBytes(0, 4) + BeBytes(m.giaddr, 4) + m.chaddr
            + [0] + [0] + BeBytes(0, 8)
         == w + AddressPart(m)
  {
    ZeroNumber(4);
    ZeroNumber(8);
    TenZeros();
    EightParts(w, BeBytes(m.ciaddr, 4), BeBytes(m.yiaddr, 4), Zeros(4), BeBytes(m.giaddr, 4), m.chaddr,
        [0] + [0] + Zeros(8));
    Associates(w + BeBytes(m.ciaddr, 4) + BeBytes(m.yiaddr, 4) + Zeros(4) + BeBytes(m.giaddr, 4) + m.chaddr + [0],
        [0], Zeros(8));
    Associates(w + BeBytes(m.ciaddr, 4) + BeBytes(m.yiaddr, 4) + Zeros(4) + BeBytes(m.giaddr, 4) + m.chaddr,
        [0], [0] + Zeros(8));
    Associates([0], [0], Zeros(8));
  }

  lemma TenZeros()
    ensures Zeros(10) == [0] + [0] + Zeros(8)
  {
  }

  lemma EightParts(w: seq<Byte>, a: seq<Byte>, b: seq<Byte>, c: seq<Byte>, d: seq<Byte>, e: seq<Byte>, f: seq<Byte>)
    ensures w + a + b + c + d + e + f == w + (a + b + c + d + e + f)
  {
  }

  lemma FixedInOrder(m: Message)
    ensures [OpByte(m.op)] + [ToByte(m.htype)] + [ToByte(m.hlen)] + [ToByte(m.hops)] + BeBytes(m.xid, 4)
            + BeBytes(m.secs % 0x1_0000, 2) + BeBytes(Flags(m), 2) + AddressPart(m)
         == FixedPart(m)
  {
  }

  method WriteStringField(stream: MemoryOutputStream, text: CString, size: nat)
    requires stream.Ready()
    modifies stream
    ensures Extends(stream, old(stream.bits), StringField(text, size))
  {
    ghost var s := stream.bits;
    NothingYet(stream);
    assert text[..0] == [];
    var e := 0;
    while e < |text|
      invariant e <= |text|
      invariant Extends(stream, s, text[..e])
    {
      PutByte(stream, text[e], s, text[..e]);
      assert text[..e] + [text[e]] == text[..e + 1];
      e := e + 1;
    }
    assert text[..e] == text;
    PutByte(stream, 0, s, text);
    PutZeros(stream, Padding(e, size), s, text + [0]);
  }

  // ------------------------------------------------------------------ options

  /** Adding to the 16-bit counter. */
  function Plus(length: Word16, n: nat): Word16 {
    (length + n) % 0x1_0000
  }

  lemma OneEntryWritten(w: seq<Byte>, length: Word16, es: seq<Entry>, code: Byte, size: Word16, sizeByte: Byte,
          payload: seq<Byte>)
    requires es == [Entry(code, size, payload)] && sizeByte == ToByte(size)
    ensures w + EntriesBytes(es) == w + [code] + [sizeByte] + payload
    ensures Counted(length, es) == Plus(length, 2 + size)
  {
    var e := es[0];
    assert es[1..] == [];
    assert EntriesBytes(es) == EntryBytes(e);
  }

  lemma NoEntryWritten(w: seq<Byte>, length: Word16)
    ensures w + EntriesBytes([]) == w && Counted(length, []) == length
  {
  }

  method WriteTypeOption(stream: MemoryOutputStream, o: Options, length: Word16, ghost before: seq<bool>,
          ghost w: seq<Byte>)
    returns (after: Word16)
    requires Extends(stream, before, w)
    modifies stream
    ensures Extends(stream, before, w + EntriesBytes(MessageTypeEntry(o)))
    ensures after == Counted(length, MessageTypeEntry(o))
  {
    after := length;
    if o.messageType != NO_TYPE {
      var kind := ToByte(o.messageType);
      PutByte(stream, DHCP_MSG_TYPE, before, w);
      PutByte(stream, 1, before, w + [DHCP_MSG_TYPE]);
      PutByte(stream, kind, before, w + [DHCP_MSG_TYPE] + [1]);
      after := Plus(length, 3);
      OneEntryWritten(w, length, MessageTypeEntry(o), DHCP_MSG_TYPE, 1, 1, [kind]);
    } else {
      NoEntryWritten(w, length);
    }
  }

  method WriteParameterOption(stream: MemoryOutputStream, o: Options, length: Word16, ghost before: seq<bool>,
          ghost w: seq<Byte>)
    returns (after: Word16)
    requires Extends(stream, before, w)
    modifies stream
    ensures Extends(stream, before, w + EntriesBytes(ParameterEntry(o)))
    ensures after == Counted(length, ParameterEntry(o))
  {
    var list := o.parameterRequestList;
    after := length;
    if |list| > 0 {
      var size: Word16 := |list| % 0x1_0000;
      PutByte(stream, PARAM_LIST, before, w);
      PutByte(stream, ToByte(size), before, w + [PARAM_LIST]);
      WriteParameters(stream, list, before, w + [PARAM_LIST] + [ToByte(size)]);
      after := Plus(length, 2 + size);
      OneEntryWritten(w, length, ParameterEntry(o), PARAM_LIST, size, ToByte(size), ToBytes(list));
    } else {
      NoEntryWritten(w, length);
    }
  }

  method WriteParameters(stream: MemoryOutputStream, list: seq<int>, ghost before: seq<bool>, ghost w: seq<Byte>)
    requires Extends(stream, before, w)
    modifies stream
    ensures Extends(stream, before, w + ToBytes(list))
  {
    ghost var all := ToBytes(list);
    assert w + all[..0] == w;
    var i := 0;
    while i < |list|
      invariant i <= |list|
      invariant Extends(stream, before, w + all[..i])
    {
      PutByte(stream, ToByte(list[i]), before, w + all[..i]);
      assert w + all[..i] + [all[i]] == w + all[..i + 1];
      i := i + 1;
    }
    assert all[..i] == all;
  }

  method WriteClientOption(stream: MemoryOutputStream, o: Options, length: Word16, ghost before: seq<bool>,
          ghost w: seq<Byte>)
    returns (after: Word16)
    requires Extends(stream, before, w)
    modifies stream
    ensures Extends(stream, before, w + EntriesBytes(ClientEntry(o)))
    ensures after == Counted(length, ClientEntry(o))
  {
    after := length;
    if o.clientIdentifier != NO_MAC {
      var mac := o.clientIdentifier;
      PutByte(stream, CLIENT_ID, before, w);
      PutByte(stream, 7, before, w + [CLIENT_ID]);
      WriteTypedMac(stream, mac, before, w + [CLIENT_ID] + [7]);
      after := Plus(length, 2 + 7);
      ClientWritten(w, length, o);
    } else {
      NoEntryWritten(w, length);
    }
  }

  lemma ClientWritten(w: seq<Byte>, length: Word16, o: Options)
    requires o.clientIdentifier != NO_MAC
    ensures w + EntriesBytes(ClientEntry(o)) == w + [CLIENT_ID] + [7] + ([1] + o.clientIdentifier)
    ensures Counted(length, ClientEntry(o)) == Plus(length, 2 + 7)
  {
    OneEntryWritten(w, length, ClientEntry(o), CLIENT_ID, 7, 7, [1] + o.clientIdentifier);
  }

  /** A MAC address behind the hardware type of Ethernet. */
  method WriteTypedMac(stream: MemoryOutputStream, mac: MacBytes, ghost before: seq<bool>, ghost w: seq<Byte>)
    requires Extends(stream, before, w)
    modifies stream
    ensures Extends(stream, before, w + ([1] + mac))
  {
    PutByte(stream, 1, before, w);
    PutMac(stream, mac, before, w + [1]);
    Associates(w, [1], mac);
  }

  /** An option that holds a number: written unless the number is zero. */
  method WriteNumberOption(stream: MemoryOutputStream, code: Byte, value: int, length: Word16,
                           ghost before: seq<bool>, ghost w: seq<Byte>)
    returns (after: Word16)
    requires Extends(stream, before, w)
    modifies stream
    ensures Extends(stream, before, w + EntriesBytes(NumberEntry(code, value)))
    ensures after == Counted(length, NumberEntry(code, value))
  {
    after := length;
    if value != 0 {
      var v: Word32 := value % 0x1_0000_0000;
      PutByte(stream, code, before, w);
      PutByte(stream, 4, before, w + [code]);
      PutWord(stream, v, before, w + [code] + [4]);
      after := Plus(length, 6);
      OneEntryWritten(w, length, NumberEntry(code, value), code, 4, 4, BeBytes(v, 4));
    } else {
      NoEntryWritten(w, length);
    }
  }

  /** An option that holds addresses: written unless there are none. */
  method WriteAddressesOption(stream: MemoryOutputStream, code: Byte, list: seq<Word32>, length: Word16,
                              ghost before: seq<bool>, ghost w: seq<Byte>)
    returns (after: Word16)
    requires Extends(stream, before, w)
    modifies stream
    ensures Extends(stream, before, w + EntriesBytes(AddressesEntry(code, list)))
    ensures after == Counted(length, AddressesEntry(code, list))
  {
    after := length;
    if |list| > 0 {
      var size: Word16 := 4 * |list| % 0x1_0000;
      PutByte(stream, code, before, w);
      PutByte(stream, ToByte(size), before, w + [code]);
      WriteAddressList(stream, list, before, w + [code] + [ToByte(size)]);
      after := Plus(length, 2 + size);
      OneEntryWritten(w, length, AddressesEntry(code, list), code, size, ToByte(size), AddressBytes(list));
    } else {
      NoEntryWritten(w, length);
    }
  }

  method WriteAddressList(stream: MemoryOutputStream, list: seq<Word32>, ghost before: seq<bool>, ghost w: seq<Byte>)
    requires Extends(stream, before, w)
    modifies stream
    ensures Extends(stream, before, w + AddressBytes(list))
  {
    assert w + AddressBytes(list[..0]) == w;
    var i := 0;
    while i < |list|
      invariant i <= |list|
      invariant Extends(stream, before, w + AddressBytes(list[..i]))
    {
      PutWord(stream, list[i], before, w + AddressBytes(list[..i]));
      NextAddress(list, i, w);
      i := i + 1;
    }
    assert list[..i] == list;
  }

  lemma {:induction false} AddressBytesAdd(a: seq<Word32>, b: seq<Word32>)
    ensures AddressBytes(a + b) == AddressBytes(a) + AddressBytes(b)
  {
    if a == [] {
      assert a + b == b;
    } else {
      assert (a + b)[1..] == a[1..] + b;
      AddressBytesAdd(a[1..], b);
    }
  }

  lemma NextAddress(list: seq<Word32>, i: nat, w: seq<Byte>)
    requires i < |list|
    ensures w + AddressBytes(list[..i]) + BeBytes(list[i], 4) == w + AddressBytes(list[..i + 1])
  {
    assert list[..i + 1] == list[..i] + [list[i]];
    AddressBytesAdd(list[..i], [list[i]]);
    assert [list[i]][1..] == [];
  }

  // ------------------------------------------------------------------ all options

  /** What was in the stream before the options, and where their length counter started. */
  datatype Log = Log(before: seq<bool>, written: seq<Byte>, start: Word16)

  /** Some options are written and counted. */
  ghost predicate Logged(stream: MemoryOutputStream, log: Log, es: seq<Entry>, length: Word16)
    reads stream
  {
    && Extends(stream, log.before, Upto(log, es))
    && length == Counted(log.start, es)
  }

  ghost function Upto(log: Log, es: seq<Entry>): seq<Byte> {
    log.written + EntriesBytes(es)
  }

  lemma OneMore(log: Log, es: seq<Entry>, part: seq<Entry>)
    ensures Upto(log, es) + EntriesBytes(part) == Upto(log, es + part)
    ensures Counted(Counted(log.start, es), part) == Counted(log.start, es + part)
  {
    EntriesBytesAdd(es, part);
    CountedInTurn(log.start, es, part);
  }

  lemma {:induction false} CountedInTurn(start: nat, es: seq<Entry>, part: seq<Entry>)
    ensures Counted(Counted(start, es), part) == Counted(start, es + part)
    decreases |es|
  {
    if es == [] {
      assert [] + part == part;
      CountedWraps(start, part);
    } else {
      assert (es + part)[1..] == es[1..] + part;
      CountedInTurn(start + 2 + es[0].size, es[1..], part);
    }
  }

  lemma {:induction false} CountedWraps(start: nat, es: seq<Entry>)
    ensures Counted(start % 0x1_0000, es) == Counted(start, es)
    decreases |es|
  {
    if es != [] {
      var n := 2 + es[0].size;
      CountedWraps(start + n, es[1..]);
      CountedWraps(start % 0x1_0000 + n, es[1..]);
      SameRemainder(n, start);
    }
  }

  lemma ThreeParts(es: seq<Entry>, a: seq<Entry>, b: seq<Entry>, c: seq<Entry>)
    ensures es + a + b + c == es + (a + b + c)
  {
  }

  lemma FourPartsJoined(es: seq<Entry>, a: seq<Entry>, b: seq<Entry>, c: seq<Entry>, d: seq<Entry>)
    ensures es + a + b + c + d == es + (a + b + c + d)
  {
  }

  /** The host name option is switched off in the source. */
  method WriteOptions(stream: MemoryOutputStream, o: Options, length: Word16, ghost log: Log)
    returns (after: Word16)
    requires Logged(stream, log, [], length)
    modifies stream
    ensures Logged(stream, log, Entries(o), after)
  {
    after := WriteFirstOptions(stream, o, length, log);
    after := WriteMiddleOptions(stream, o, after, log, FirstEntries(o));
    after := WriteLastOptions(stream, o, after, log, FirstEntries(o) + MiddleEntries(o));
  }

  method WriteFirstOptions(stream: MemoryOutputStream, o: Options, length: Word16, ghost log: Log)
    returns (after: Word16)
    requires Logged(stream, log, [], length)
    modifies stream
    ensures Logged(stream, log, FirstEntries(o), after)
  {
    ghost var a, b, c := MessageTypeEntry(o), ParameterEntry(o), ClientEntry(o);
    after := WriteTypeOption(stream, o, length, log.before, Upto(log, []));
    OneMore(log, [], a);
    assert [] + a == a;
    after := WriteParameterOption(stream, o, after, log.before, Upto(log, a));
    OneMore(log, a, b);
    after := WriteClientOption(stream, o, after, log.before, Upto(log, a + b));
    OneMore(log, a + b, c);
    ghost var d := a + b + c;
    after := WriteNumberOption(stream, REQUESTED_IP, o.requestedIp, after, log.before, Upto(log, d));
    OneMore(log, d, NumberEntry(REQUESTED_IP, o.requestedIp));
    d := d + NumberEntry(REQUESTED_IP, o.requestedIp);
    after := WriteNumberOption(stream, SUBNET_MASK, o.subnetMask, after, log.before, Upto(log, d));
    OneMore(log, d, NumberEntry(SUBNET_MASK, o.subnetMask));
  }

  method WriteMiddleOptions(stream: MemoryOutputStream, o: Options, length: Word16, ghost log: Log,
          ghost es: seq<Entry>)
    returns (after: Word16)
    requires Logged(stream, log, es, length)
    modifies stream
    ensures Logged(stream, log, es + MiddleEntries(o), after)
  {
    ghost var a, b, c := AddressesEntry(ROUTER, o.router), AddressesEntry(DNS, o.dns), AddressesEntry(NTP_SRV, o.ntp);
    after := WriteAddressesOption(stream, ROUTER, o.router, length, log.before, Upto(log, es));
    OneMore(log, es, a);
    after := WriteAddressesOption(stream, DNS, o.dns, after, log.before, Upto(log, es + a));
    OneMore(log, es + a, b);
    after := WriteAddressesOption(stream, NTP_SRV, o.ntp, after, log.before, Upto(log, es + a + b));
    OneMore(log, es + a + b, c);
    ThreeParts(es, a, b, c);
  }

  method WriteLastOptions(stream: MemoryOutputStream, o: Options, length: Word16, ghost log: Log, ghost es: seq<Entry>)
    returns (after: Word16)
    requires Logged(stream, log, es, length)
    modifies stream
    ensures Logged(stream, log, es + LastEntries(o), after)
  {
    ghost var a, b := NumberEntry(SERVER_ID, o.serverIdentifier), NumberEntry(RENEWAL_TIME, o.renewalTime);
    ghost var c, d := NumberEntry(REBIND_TIME, o.rebindingTime), NumberEntry(LEASE_TIME, o.leaseTime);
    after := WriteNumberOption(stream, SERVER_ID, o.serverIdentifier, length, log.before, Upto(log, es));
    OneMore(log, es, a);
    after := WriteNumberOption(stream, RENEWAL_TIME, o.renewalTime, after, log.before, Upto(log, es + a));
    OneMore(log, es + a, b);
    after := WriteNumberOption(stream, REBIND_TIME, o.rebindingTime, after, log.before, Upto(log, es + a + b));
    OneMore(log, es + a + b, c);
    after := WriteNumberOption(stream, LEASE_TIME, o.leaseTime, after, log.before, Upto(log, es + a + b + c));
    OneMore(log, es + a + b + c, d);
    FourPartsJoined(es, a, b, c, d);
  }

  // ------------------------------------------------------------------ serialize

  method Serialize(stream: MemoryOutputStream, m: Message, chunkLength: int) returns (result: WriteResult)
    requires stream.Ready()
    modifies stream
    ensures Extends(stream, old(stream.bits), Produced(m))
    ensures result == if |m.sname| > 64 then NameTooLong else if |m.file| > 128 then FileTooLong
                      else if chunkLength != Counter(m) then WrongLength else Written
  {
    ghost var s := stream.bits;
    var length: Word16 := 236;
    WriteFixedPart(stream, m);
    if |m.sname| > 64 {
      return NameTooLong;
    }
    ghost var mid := stream.bits;
    WriteStringField(stream, m.sname, 64);
    ghost var w := FixedPart(m) + StringField(m.sname, 64);
    Appended(s, FixedPart(m), StringField(m.sname, 64));
    if |m.file| > 128 {
      return FileTooLong;
    }
    WriteStringField(stream, m.file, 128);
    Appended(s, w, StringField(m.file, 128));
    w := w + StringField(m.file, 128);
    length := WriteCookieAndOptions(stream, m, s, w);
    assert w + COOKIE + EntriesBytes(Entries(m.options)) + [END] == Encode(m);
    result := if chunkLength != length then WrongLength else Written;
  }

  method WriteCookieAndOptions(stream: MemoryOutputStream, m: Message, ghost s: seq<bool>, ghost w: seq<Byte>)
    returns (length: Word16)
    requires Extends(stream, s, w)
    modifies stream
    ensures Extends(stream, s, w + COOKIE + EntriesBytes(Entries(m.options)) + [END])
    ensures length == Counter(m)
  {
    WriteCookie(stream, s, w);
    length := WriteOptionsAndEnd(stream, m.options, 236 + 4, s, w + COOKIE);
  }

  method WriteOptionsAndEnd(stream: MemoryOutputStream, o: Options, length: Word16, ghost s: seq<bool>,
          ghost w: seq<Byte>)
    returns (after: Word16)
    requires Extends(stream, s, w)
    modifies stream
    ensures Extends(stream, s, w + EntriesBytes(Entries(o)) + [END])
    ensures after == Plus(Counted(length, Entries(o)), 1)
  {
    ghost var log := Log(s, w, length);
    NoEntryWritten(w, length);
    var counted := WriteOptions(stream, o, length, log);
    assert counted == Counted(length, Entries(o));
    PutByte(stream, END, s, Upto(log, Entries(o)));
    after := Plus(counted, 1);
  }

  method WriteCookie(stream: MemoryOutputStream, ghost s: seq<bool>, ghost w: seq<Byte>)
    requires Extends(stream, s, w)
    modifies stream
    ensures Extends(stream, s, w + COOKIE)
  {
    WriteTwo(stream, 99, 130, s, w);
    WriteTwo(stream, 83, 99, s, w + [99, 130]);
    assert [99, 130] + [83, 99] == COOKIE;
    Associates(w, [99, 130], [83, 99]);
  }

  method WriteTwo(stream: MemoryOutputStream, b0: Byte, b1: Byte, ghost s: seq<bool>, ghost w: seq<Byte>)
    requires Extends(stream, s, w)
    modifies stream
    ensures Extends(stream, s, w + [b0, b1])
  {
    PutByte(stream, b0, s, w);
    PutByte(stream, b1, s, w + [b0]);
    assert w + [b0] + [b1] == w + [b0, b1];
  }

  /** What a stream that held nothing else holds after the serializer: its bytes are read back as the
      message, all of them, and the length counter is their number. */
  lemma WrittenIsRead(stream: MemoryOutputStream, m: Message)
    requires InLimits(m) && Extends(stream, [], Produced(m))
    ensures stream.data == Encode(m) && |stream.data| == Counter(m)
    ensures Decode(stream.data) == Parsed(m, false, |stream.data|, [])
  {
    assert [] + Flatten(Encode(m)) == Flatten(Encode(m));
    BytesHeld(stream.data, stream.length, Encode(m));
    RoundTripIff(m);
    InLimitsCounted(m);
  }

  lemma BytesHeld(data: seq<Byte>, length: nat, bytes: seq<Byte>)
    requires Packed(data, length) && Content(data, length) == Flatten(bytes)
    ensures data == bytes
  {
    assert length == 8 * |bytes|;
    assert Content(data, length) == Flatten(data);
    FlattenInjective(data, bytes);
  }
}
