/** The wire form of DHCP messages in plain numbers: every byte that is written, and what is made of the same bytes when
    they are read (section 2 of RFC 2131, and RFC 2132 for the options). */
module DhcpWire {
  import opened Bits
  import opened BitStreams
  import opened DhcpCodec
  import opened DhcpRoundTrip

  // ------------------------------------------------------------------ numbers

  /** A number of four bytes, most significant first. */
  function Octets(v: int): (s: seq<Byte>) {
    [v / 0x100_0000 % 256, v / 0x1_0000 % 256, v / 0x100 % 256, v % 256]
  }

  function TwoOctets(v: int): seq<Byte> {
    [v / 0x100 % 256, v % 256]
  }

  lemma FourBytes(v: nat)
    ensures BeBytes(v, 4) == Octets(v)
  {
    var a, b, c := v / 256, v / 256 / 256, v / 256 / 256 / 256;
    assert BeBytes(c, 1) == BeBytes(c / 256, 0) + [c % 256] == [c % 256];
    assert BeBytes(b, 2) == BeBytes(c, 1) + [b % 256];
    assert BeBytes(a, 3) == BeBytes(b, 2) + [a % 256];
    assert BeBytes(v, 4) == BeBytes(a, 3) + [v % 256];
    assert b == v / 0x1_0000 && c == v / 0x100_0000;
  }

  lemma TwoBytes(v: nat)
    ensures BeBytes(v, 2) == TwoOctets(v) && LeBytes(v, 2) == [v % 256, v / 0x100 % 256]
  {
    var a := v / 256;
    assert BeBytes(a, 1) == BeBytes(a / 256, 0) + [a % 256] == [a % 256];
    assert LeBytes(a, 1) == [a % 256] + LeBytes(a / 256, 0) == [a % 256];
  }

  /** More significant digits are not written. */
  lemma LowOctets(v: int)
    ensures Octets(v % 0x1_0000_0000) == Octets(v)
  {
    LowDigits(v, 0x100_0000, 1);
    LowDigits(v, 0x1_0000, 0x100);
    LowDigits(v, 0x100, 0x1_0000);
    LowDigits(v, 1, 0x100_0000);
  }

  lemma LowDigits(v: int, d: int, f: int)
    requires d > 0 && d * f == 0x100_0000
    ensures v / d % 256 == v % 0x1_0000_0000 / d % 256
  {
    var q, w := v / 0x1_0000_0000, v % 0x1_0000_0000;
    var a, b := w / d, w % d;
    var qf := q * f;
    assert v == (qf * 256 + a) * d + b by {
      assert w == a * d + b;
      assert q * 0x1_0000_0000 == q * (d * f) * 256 == qf * d * 256;
      assert (qf * 256 + a) * d == qf * d * 256 + a * d;
    }
    Quotient(v, d, qf * 256 + a, b);
    Quotient(qf * 256 + a, 256, qf + a / 256, a % 256);
  }

  lemma LowTwoOctets(v: int)
    ensures TwoOctets(v % 0x1_0000) == TwoOctets(v)
  {
    var q, w := v / 0x1_0000, v % 0x1_0000;
    assert v == q * 0x1_0000 + w;
    assert v / 0x100 == q * 0x100 + w / 0x100;
  }

  function FourDigits(a: int, b: int, c: int, d: int): int {
    a * 0x100_0000 + b * 0x1_0000 + c * 0x100 + d
  }

  function TwoDigits(a: int, b: int): int {
    a * 0x100 + b
  }

  lemma FourBytesValue(s: seq<Byte>)
    requires |s| == 4
    ensures BeValue(s) == FourDigits(s[0], s[1], s[2], s[3])
  {
    assert s[..3][..2] == s[..2] && s[..2][..1] == s[..1] && s[..1][..0] == [];
    assert BeValue(s[..1]) == s[0];
    assert BeValue(s[..2]) == TwoDigits(s[0], s[1]);
    assert BeValue(s[..3]) == BeValue(s[..2]) * 256 + s[2];
  }

  lemma TwoBytesValue(s: seq<Byte>)
    requires |s| == 2
    ensures BeValue(s) == TwoDigits(s[0], s[1]) && LeValue(s) == TwoDigits(s[1], s[0])
  {
    assert s[..1][..0] == [] && s[1..][1..] == [];
    assert BeValue(s[..1]) == s[0] && LeValue(s[1..]) == s[1];
  }

  /** The most significant bit of a byte comes first. */
  lemma BitOrder()
    ensures Flatten([0x93]) == [true, false, false, true, false, false, true, true]
    ensures BitsOf(6, 4) == [false, true, true, false]
  {
    assert BitsOf(2, 2) == [true, false] && BitsOf(9, 4) == BitsOf(2, 2) + [false, true];
    assert BitsOf(0x24, 6) == BitsOf(9, 4) + [false, false];
    assert BitsOf(0x93, 8) == BitsOf(0x24, 6) + [true, true];
    assert [0x93][..0] == [];
  }

  // ------------------------------------------------------------------ options, written

  /** Code, size and payload. */
  function Option(code: Byte, body: seq<Byte>): seq<Byte> {
    var head: seq<Byte> := [code, |body| % 256];
    head + body
  }

  function NumberOption(code: Byte, v: int): seq<Byte> {
    if v == 0 then [] else Option(code, Octets(v))
  }

  function AllOctets(list: seq<Word32>): (s: seq<Byte>)
    ensures |s| == 4 * |list|
  {
    if list == [] then [] else Octets(list[0]) + AllOctets(list[1..])
  }

  function ListOption(code: Byte, list: seq<Word32>): seq<Byte> {
    if list == [] then [] else Option(code, AllOctets(list))
  }

  function TypeOption(o: Options): seq<Byte> {
    if o.messageType == -1 then [] else Option(53, [o.messageType % 256])
  }

  function ParameterOption(list: seq<int>): seq<Byte> {
    if list == [] then [] else Option(55, seq<Byte>(|list|, i requires 0 <= i < |list| => list[i] % 256))
  }

  function ClientOption(mac: MacBytes): seq<Byte> {
    if mac == [0, 0, 0, 0, 0, 0] then [] else Option(61, [1] + mac)
  }

  function WireOptions(o: Options): seq<Byte> {
    TypeOption(o) + ParameterOption(o.parameterRequestList) + ClientOption(o.clientIdentifier)
    + NumberOption(50, o.requestedIp) + NumberOption(1, o.subnetMask)
    + (ListOption(3, o.router) + ListOption(6, o.dns) + ListOption(42, o.ntp))
    + (NumberOption(54, o.serverIdentifier) + NumberOption(58, o.renewalTime) + NumberOption(59, o.rebindingTime)
       + NumberOption(51, o.leaseTime))
  }

  lemma EntryIs(code: Byte, size: Word16, body: seq<Byte>)
    requires size % 256 == |body| % 256
    ensures EntriesBytes([Entry(code, size, body)]) == Option(code, body)
  {
    OneEntryBytes(Entry(code, size, body));
  }

  lemma SizeByte(n: nat)
    ensures n % 0x1_0000 % 256 == n % 256
  {
  }

  lemma OctetsAreFour(v: int)
    ensures |Octets(v)| == 4
  {
  }

  lemma NumberIs(code: Byte, v: int)
    ensures EntriesBytes(NumberEntry(code, v)) == NumberOption(code, v)
  {
    if v != 0 {
      hide Octets, EntriesBytes;
      FourBytes(v % 0x1_0000_0000);
      LowOctets(v);
      OctetsAreFour(v);
      EntryIs(code, 4, Octets(v));
    }
  }

  lemma {:induction false} AddressesAre(list: seq<Word32>)
    ensures AddressBytes(list) == AllOctets(list)
  {
    if list != [] {
      FourBytes(list[0]);
      AddressesAre(list[1..]);
    }
  }

  lemma ListIs(code: Byte, list: seq<Word32>)
    ensures EntriesBytes(AddressesEntry(code, list)) == ListOption(code, list)
  {
    if list != [] {
      hide EntriesBytes, AddressBytes, AllOctets;
      AddressesAre(list);
      SizeByte(4 * |list|);
      EntryIs(code, 4 * |list| % 0x1_0000, AllOctets(list));
    }
  }

  lemma TypeIs(o: Options)
    ensures EntriesBytes(MessageTypeEntry(o)) == TypeOption(o)
  {
    if o.messageType != -1 { EntryIs(53, 1, [o.messageType % 256]); }
  }

  lemma ParametersAre(o: Options)
    ensures EntriesBytes(ParameterEntry(o)) == ParameterOption(o.parameterRequestList)
  {
    var list := o.parameterRequestList;
    if list != [] {
      hide EntriesBytes;
      SizeByte(|list|);
      EntryIs(55, |list| % 0x1_0000, ToBytes(list));
    }
  }

  lemma ClientIs(o: Options)
    ensures EntriesBytes(ClientEntry(o)) == ClientOption(o.clientIdentifier)
  {
    if o.clientIdentifier != NO_MAC { EntryIs(61, 7, [1] + o.clientIdentifier); }
  }

  lemma ThreeMore(a: seq<Entry>, b: seq<Entry>, c: seq<Entry>)
    ensures EntriesBytes(a + b + c) == EntriesBytes(a) + EntriesBytes(b) + EntriesBytes(c)
  {
    EntriesBytesAdd(a, b);
    EntriesBytesAdd(a + b, c);
  }

  lemma FirstAre(o: Options)
    ensures EntriesBytes(FirstEntries(o))
         == TypeOption(o) + ParameterOption(o.parameterRequestList) + ClientOption(o.clientIdentifier)
            + NumberOption(50, o.requestedIp) + NumberOption(1, o.subnetMask)
  {
    hide EntriesBytes, TypeOption, ParameterOption, ClientOption, NumberOption;
    hide MessageTypeEntry, ParameterEntry, ClientEntry, NumberEntry;
    TypeIs(o);
    ParametersAre(o);
    ClientIs(o);
    NumberIs(50, o.requestedIp);
    NumberIs(1, o.subnetMask);
    var three := MessageTypeEntry(o) + ParameterEntry(o) + ClientEntry(o);
    ThreeMore(MessageTypeEntry(o), ParameterEntry(o), ClientEntry(o));
    ThreeMore(three, NumberEntry(50, o.requestedIp), NumberEntry(1, o.subnetMask));
  }

  lemma MiddleAre(o: Options)
    ensures EntriesBytes(MiddleEntries(o)) == ListOption(3, o.router) + ListOption(6, o.dns) + ListOption(42, o.ntp)
  {
    hide EntriesBytes, ListOption, AddressesEntry;
    ListIs(3, o.router);
    ListIs(6, o.dns);
    ListIs(42, o.ntp);
    ThreeMore(AddressesEntry(3, o.router), AddressesEntry(6, o.dns), AddressesEntry(42, o.ntp));
  }

  lemma LastAre(o: Options)
    ensures EntriesBytes(LastEntries(o))
         == NumberOption(54, o.serverIdentifier) + NumberOption(58, o.renewalTime) + NumberOption(59, o.rebindingTime)
            + NumberOption(51, o.leaseTime)
  {
    hide EntriesBytes, NumberOption, NumberEntry;
    NumberIs(54, o.serverIdentifier);
    NumberIs(58, o.renewalTime);
    NumberIs(59, o.rebindingTime);
    NumberIs(51, o.leaseTime);
    var a, b := NumberEntry(54, o.serverIdentifier), NumberEntry(58, o.renewalTime);
    var c := NumberEntry(59, o.rebindingTime);
    ThreeMore(a, b, c);
    EntriesBytesAdd(a + b + c, NumberEntry(51, o.leaseTime));
  }

  /** The options of a message, byte by byte. */
  lemma OptionsWritten(o: Options)
    ensures EntriesBytes(Entries(o)) == WireOptions(o)
  {
    hide EntriesBytes, FirstEntries, MiddleEntries, LastEntries;
    hide TypeOption, ParameterOption, ClientOption, NumberOption, ListOption;
    FirstAre(o);
    MiddleAre(o);
    LastAre(o);
    ThreeMore(FirstEntries(o), MiddleEntries(o), LastEntries(o));
  }

  // ------------------------------------------------------------------ the message, written

  function Header(m: Message): (s: seq<Byte>)
    ensures |s| == 44
  {
    var first: seq<Byte> := [if m.op == BootRequest then 1 else 2, m.htype % 256, m.hlen % 256, m.hops % 256];
    var flags := (if m.broadcast then 0x8000 else 0) + m.reserved % 0x8000;
    first + Octets(m.xid) + TwoOctets(m.secs) + TwoOctets(flags)
    + Octets(m.ciaddr) + Octets(m.yiaddr) + [0, 0, 0, 0] + Octets(m.giaddr)
    + m.chaddr + [0, 0, 0, 0, 0, 0, 0, 0, 0, 0]
  }

  lemma HeaderWritten(m: Message)
    ensures FixedPart(m) == Header(m)
  {
    hide Octets, TwoOctets, BeBytes;
    FourBytes(m.xid);
    FourBytes(m.ciaddr);
    FourBytes(m.yiaddr);
    FourBytes(m.giaddr);
    TwoBytes(m.secs % 0x1_0000);
    TwoBytes(Flags(m));
    LowTwoOctets(m.secs);
    assert Zeros(4) == [0, 0, 0, 0] && Zeros(10) == [0, 0, 0, 0, 0, 0, 0, 0, 0, 0];
  }

  /** A name that fits, filled up with zeros. */
  function Name(s: CString, size: nat): (r: seq<Byte>)
    requires |s| < size
    ensures |r| == size
  {
    s + seq<Byte>(size - |s|, _ => 0)
  }

  lemma NameWritten(s: CString, size: nat)
    requires |s| < size <= 128
    ensures StringField(s, size) == Name(s, size)
  {
    assert Padding(|s|, size) == size - |s| - 1;
  }

  /** All bytes of a message whose names fit: the header, the names from 44 and 108 on, the cookie at 236, the options
      in their order, and the end. */
  lemma Wire(m: Message)
    requires |m.sname| < 64 && |m.file| < 128
    ensures Encode(m)
         == Header(m) + Name(m.sname, 64) + Name(m.file, 128) + [99, 130, 83, 99] + WireOptions(m.options) + [255]
  {
    hide FixedPart, StringField, Header, Name, EntriesBytes, Entries, WireOptions;
    HeaderWritten(m);
    NameWritten(m.sname, 64);
    NameWritten(m.file, 128);
    OptionsWritten(m.options);
  }

  /** Where the first option of a message with a type stands. */
  lemma TypeAt240(m: Message)
    requires |m.sname| < 64 && |m.file| < 128 && 1 <= m.options.messageType <= 8
    ensures |Encode(m)| >= 243 && Encode(m)[236..240] == [99, 130, 83, 99]
    ensures Encode(m)[240..243] == [53, 1, m.options.messageType]
  {
    hide Header, Name, ParameterOption, ClientOption, NumberOption, ListOption, Encode;
    Wire(m);
    var front := Header(m) + Name(m.sname, 64) + Name(m.file, 128);
    var t, rest := TypeOption(m.options), WireOptions(m.options)[3..] + [255];
    assert t == [53, 1, m.options.messageType] && WireOptions(m.options)[..3] == t;
    assert Encode(m) == front + [99, 130, 83, 99] + t + rest;
  }

  // ------------------------------------------------------------------ options, read

  /** An option with any payload in front of other bytes. */
  function Written(code: Byte, body: seq<Byte>, rest: seq<Byte>): seq<Byte>
    requires |body| < 256
  {
    Option(code, body) + rest
  }

  lemma OptionStep(code: Byte, body: seq<Byte>, rest: seq<Byte>, p: Progress)
    requires |body| < 256 && code != 255
    ensures var e := Entry(code, |body|, body);
      DecodeOptions(Written(code, body, rest), p)
        == if Accepts(code, |body|, ByteAt(body, 0)) then DecodeOptions(rest, Advanced(p, e)) else Refused
  {
    hide Accepts;
    var e := Entry(code, |body|, body);
    OneOption(e, rest);
    assert EntryBytes(e) == Option(code, body);
    var es := SplitOptions(rest).entries;
    assert ([e] + es)[1..] == es;
  }

  /** The options of one byte, of characters, of bytes, and the client identifier. */
  lemma BytesRead(body: seq<Byte>, rest: seq<Byte>, p: Progress)
    requires |body| < 256
    ensures var next := p.length + 2 + |body|;
      && DecodeOptions(Written(53, body, rest), p)
           == (if |body| == 1 then DecodeOptions(rest, Progress(p.options.(messageType := body[0]), p.incorrect, next))
               else Refused)
      && DecodeOptions(Written(12, body, rest), p)
           == DecodeOptions(rest, Progress(p.options.(hostName := UpToZero(body)), p.incorrect, next))
      && DecodeOptions(Written(55, body, rest), p)
           == DecodeOptions(rest, Progress(p.options.(parameterRequestList := body), p.incorrect, next))
      && DecodeOptions(Written(61, body, rest), p)
           == (if |body| == 7 && body[0] == 1
               then DecodeOptions(rest, Progress(p.options.(clientIdentifier := body[1..]), p.incorrect, next))
               else Refused)
  {
    hide DecodeOptions, Written, UpToZero;
    OptionStep(53, body, rest, p);
    OptionStep(12, body, rest, p);
    OptionStep(55, body, rest, p);
    OptionStep(61, body, rest, p);
  }

  /** The field that a number is read into. */
  function WithNumberRead(o: Options, code: Byte, v: Word32): Options
    requires code in {50, 1, 54, 58, 59, 51}
  {
    match code
    case 50 => o.(requestedIp := v)
    case 1 => o.(subnetMask := v)
    case 54 => o.(serverIdentifier := v)
    case 58 => o.(renewalTime := v)
    case 59 => o.(rebindingTime := v)
    case _ => o.(leaseTime := v)
  }

  /** The options that hold one number: four bytes, or the message is refused. */
  lemma NumberRead(code: Byte, body: seq<Byte>, rest: seq<Byte>, p: Progress)
    requires |body| < 256 && code in {50, 1, 54, 58, 59, 51}
    ensures |body| != 4 ==> DecodeOptions(Written(code, body, rest), p) == Refused
    ensures |body| == 4 ==> var v := FourDigits(body[0], body[1], body[2], body[3]);
      && 0 <= v < 0x1_0000_0000
      && DecodeOptions(Written(code, body, rest), p)
           == DecodeOptions(rest, Progress(WithNumberRead(p.options, code, v), p.incorrect, p.length + 6))
  {
    hide DecodeOptions, Written;
    OptionStep(code, body, rest, p);
    if |body| == 4 {
      FourBytesValue(body);
      assert Window(body, 0, 4) == body;
    }
  }

  function WithListRead(o: Options, code: Byte, list: seq<Word32>): Options
    requires code in {3, 6, 42}
  {
    match code
    case 3 => o.(router := list)
    case 6 => o.(dns := list)
    case _ => o.(ntp := list)
  }

  /** The k-th address of some bytes. */
  lemma {:induction false} AddressRead(s: seq<Byte>, k: nat)
    requires 4 * k + 4 <= |s|
    ensures |Addresses(s)| == |s| / 4
    ensures Addresses(s)[k] == FourDigits(s[4 * k], s[4 * k + 1], s[4 * k + 2], s[4 * k + 3])
    decreases k
  {
    AddressCount(s);
    if k == 0 {
      assert Window(s, 0, 4) == s[..4];
      FourBytesValue(s[..4]);
    } else {
      AddressRead(s[4..], k - 1);
    }
  }

  /** The options that hold addresses: four bytes each, or the message is refused. */
  lemma ListRead(code: Byte, body: seq<Byte>, rest: seq<Byte>, p: Progress)
    requires |body| < 256 && code in {3, 6, 42}
    ensures DecodeOptions(Written(code, body, rest), p)
         == if |body| % 4 != 0 then Refused
            else DecodeOptions(rest, Progress(WithListRead(p.options, code, Addresses(body)), p.incorrect,
                                              p.length + 2 + |body|))
  {
    hide DecodeOptions, Written, Addresses;
    OptionStep(code, body, rest, p);
  }

  /** Any other option is skipped, but makes the message incorrect. */
  lemma OtherRead(code: Byte, body: seq<Byte>, rest: seq<Byte>, p: Progress)
    requires |body| < 256 && code !in {53, 12, 55, 61, 50, 1, 54, 58, 59, 51, 3, 6, 42, 255}
    ensures DecodeOptions(Written(code, body, rest), p)
         == DecodeOptions(rest, Progress(p.options, true, p.length + 2 + |body|))
  {
    hide DecodeOptions, Written;
    OptionStep(code, body, rest, p);
  }

  /** The end of the options, and bytes without it. */
  lemma EndRead(rest: seq<Byte>, p: Progress)
    ensures DecodeOptions([255] + rest, p) == Parsed(p.options, p.incorrect, p.length + 1, rest)
    ensures DecodeOptions([], p) == Endless
  {
    var b: seq<Byte> := [255] + rest;
    assert b[0] == 255 && b[1..] == rest;
  }

  // ------------------------------------------------------------------ the message, read

  /** A number of four bytes at its place. */
  predicate Holds(b: seq<Byte>, i: nat, v: int)
    requires i + 4 <= |b|
  {
    v == FourDigits(b[i], b[i + 1], b[i + 2], b[i + 3])
  }

  lemma {:induction false} WindowInside(b: seq<Byte>, i: nat, n: nat)
    requires i + n <= |b|
    ensures Window(b, i, n) == b[i..i + n]
  {
    forall k | 0 <= k < n ensures Window(b, i, n)[k] == b[i..i + n][k] { assert ByteAt(b, i + k) == b[i + k]; }
  }

  lemma FourAt(b: seq<Byte>, i: nat)
    requires i + 4 <= |b|
    ensures Holds(b, i, NumberAt(b, i, 4))
  {
    WindowInside(b, i, 4);
    FourBytesValue(b[i..i + 4]);
  }

  lemma TwoAt(b: seq<Byte>, i: nat)
    requires i + 2 <= |b|
    ensures NumberAt(b, i, 2) == TwoDigits(b[i], b[i + 1])
  {
    WindowInside(b, i, 2);
    TwoBytesValue(b[i..i + 2]);
  }

  /** The fields of the header, each from its place. */
  predicate HeaderAt(b: seq<Byte>, m: Message)
    requires |b| >= 240
  {
    && (m.op == BootRequest <==> b[0] == 1) && m.htype == b[1] && m.hlen == b[2] && m.hops == b[3]
    && Holds(b, 4, m.xid) && m.secs == TwoDigits(b[8], b[9])
    && (m.broadcast <==> b[10] >= 0x80) && m.reserved == TwoDigits(b[10] % 0x80, b[11])
    && Holds(b, 12, m.ciaddr) && Holds(b, 16, m.yiaddr) && Holds(b, 24, m.giaddr)
    && m.chaddr == b[28..34]
  }

  lemma FlagBits(x: Byte, y: Byte)
    ensures TwoDigits(x, y) >= 0x8000 <==> x >= 0x80
    ensures TwoDigits(x, y) % 0x8000 == TwoDigits(x % 0x80, y)
  {
    assert x >= 0x80 ==> x % 0x80 == x - 0x80;
  }

  lemma FieldsRead(b: seq<Byte>, sname: CString, file: CString, o: Options)
    requires |b| >= 240
    ensures HeaderAt(b, FixedMessage(b, sname, file, o))
  {
    hide NumberAt, Holds, Window, TwoDigits;
    FlagBits(b[10], b[11]);
    WindowInside(b, 28, 6);
    FourAt(b, 4);
    FourAt(b, 12);
    FourAt(b, 16);
    FourAt(b, 24);
    TwoAt(b, 8);
    TwoAt(b, 10);
  }

  /** What is read from the places of the header; and without the cookie nothing is. */
  lemma HeaderRead(b: seq<Byte>)
    requires |b| >= 240 && 0 in b[44..108] && 0 in b[108..236]
    ensures b[236..240] != [99, 130, 83, 99] ==> Decode(b) == Refused
    ensures Decode(b).Parsed? ==> var m := Decode(b).value;
      && HeaderAt(b, m) && m.sname == UpToZero(b[44..108]) && m.file == UpToZero(b[108..236])
      && DecodeOptions(b[240..], Progress(NO_OPTIONS, false, 240))
           == Parsed(m.options, Decode(b).incorrect, Decode(b).length, Decode(b).rest)
  {
    hide DecodeOptions, HeaderAt, UpToZero, Window;
    WindowInside(b, 44, 64);
    WindowInside(b, 108, 128);
    WindowInside(b, 236, 4);
    assert b[236..240] == [b[236], b[237], b[238], b[239]];
    if Decode(b).Parsed? {
      FieldsRead(b, UpToZero(b[44..108]), UpToZero(b[108..236]), Decode(b).value.options);
    }
  }
}
