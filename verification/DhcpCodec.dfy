/** The bytes of a DHCP message: what the serializer produces, what the parser makes of any bytes, and
    for which messages the one undoes the other. */
module DhcpCodec {

  import opened Bits
  import opened BitStreams

  type Word16 = x: int | 0 <= x < 0x1_0000
  type Word32 = x: int | 0 <= x < 0x1_0000_0000
  type MacBytes = s: seq<Byte> | |s| == 6 witness [0, 0, 0, 0, 0, 0]
  /** The characters of a C string, without the terminating zero. */
  type CString = s: seq<Byte> | 0 !in s witness []

  const NO_MAC: MacBytes := [0, 0, 0, 0, 0, 0]
  const NO_TYPE := -1

  const SUBNET_MASK: Byte := 1
  const ROUTER: Byte := 3
  const DNS: Byte := 6
  const HOSTNAME: Byte := 12
  const NTP_SRV: Byte := 42
  const REQUESTED_IP: Byte := 50
  const LEASE_TIME: Byte := 51
  const DHCP_MSG_TYPE: Byte := 53
  const SERVER_ID: Byte := 54
  const PARAM_LIST: Byte := 55
  const RENEWAL_TIME: Byte := 58
  const REBIND_TIME: Byte := 59
  const CLIENT_ID: Byte := 61
  const END: Byte := 255

  const COOKIE: seq<Byte> := [99, 130, 83, 99]

  /** Absent options have the values of NO_OPTIONS. Times are whole seconds. */
  datatype Options = Options(
    messageType: int, hostName: CString, parameterRequestList: seq<int>, clientIdentifier: MacBytes,
    requestedIp: Word32, subnetMask: Word32, router: seq<Word32>, dns: seq<Word32>, ntp: seq<Word32>,
    serverIdentifier: Word32, renewalTime: int, rebindingTime: int, leaseTime: int)

  const NO_OPTIONS := Options(NO_TYPE, [], [], NO_MAC, 0, 0, [], [], [], 0, 0, 0, 0)

  datatype Opcode = BootRequest | BootReply

  datatype Message = Message(
    op: Opcode, htype: int, hlen: int, hops: int, xid: Word32, secs: int, broadcast: bool, reserved: Word16,
    ciaddr: Word32, yiaddr: Word32, giaddr: Word32, chaddr: MacBytes, sname: CString, file: CString,
    options: Options)

  // ------------------------------------------------------------------ what is written

  function ToByte(x: int): Byte { x % 256 }

  function OpByte(op: Opcode): Byte { if op.BootRequest? then 1 else 2 }

  function Flags(m: Message): Word16 { (if m.broadcast then 0x8000 else 0) + m.reserved % 0x8000 }

  function Zeros(n: nat): (s: seq<Byte>)
    ensures |s| == n
  {
    seq<Byte>(n, _ => 0)
  }

  /** All up to the server name; siaddr and the end of chaddr are always zero. */
  function FixedPart(m: Message): (s: seq<Byte>)
    ensures |s| == 44
  {
    [OpByte(m.op), ToByte(m.htype), ToByte(m.hlen), ToByte(m.hops)]
    + BeBytes(m.xid, 4) + BeBytes(m.secs % 0x1_0000, 2) + BeBytes(Flags(m), 2)
    + BeBytes(m.ciaddr, 4) + BeBytes(m.yiaddr, 4) + Zeros(4) + BeBytes(m.giaddr, 4)
    + m.chaddr + Zeros(10)
  }

  /** How many zeros follow the terminating one: the count is an unsigned 64-bit difference. */
  function Padding(used: nat, size: nat): nat {
    (size - (used + 1)) % 0x1_0000_0000_0000_0000
  }

  /** A string in a field of fixed size. */
  function StringField(s: CString, size: nat): seq<Byte> {
    s + [0] + Zeros(Padding(|s|, size))
  }

  /** An option as written; the size is the 16-bit variable, of which one byte is written. */
  datatype Entry = Entry(code: Byte, size: Word16, payload: seq<Byte>)

  function AddressBytes(list: seq<Word32>): (s: seq<Byte>)
    ensures |s| == 4 * |list|
  {
    if list == [] then [] else BeBytes(list[0], 4) + AddressBytes(list[1..])
  }

  function ToBytes(list: seq<int>): (s: seq<Byte>)
    ensures |s| == |list|
  {
    seq<Byte>(|list|, i requires 0 <= i < |list| => ToByte(list[i]))
  }

  function MessageTypeEntry(o: Options): seq<Entry> {
    if o.messageType == NO_TYPE then [] else [Entry(DHCP_MSG_TYPE, 1, [ToByte(o.messageType)])]
  }

  function ParameterEntry(o: Options): seq<Entry> {
    var list := o.parameterRequestList;
    if list == [] then [] else [Entry(PARAM_LIST, |list| % 0x1_0000, ToBytes(list))]
  }

  function ClientEntry(o: Options): seq<Entry> {
    if o.clientIdentifier == NO_MAC then [] else [Entry(CLIENT_ID, 7, [1] + o.clientIdentifier)]
  }

  function NumberEntry(code: Byte, value: int): seq<Entry> {
    if value == 0 then [] else [Entry(code, 4, BeBytes(value % 0x1_0000_0000, 4))]
  }

  function AddressesEntry(code: Byte, list: seq<Word32>): seq<Entry> {
    if list == [] then [] else [Entry(code, 4 * |list| % 0x1_0000, AddressBytes(list))]
  }

  function FirstEntries(o: Options): seq<Entry> {
    MessageTypeEntry(o) + ParameterEntry(o) + ClientEntry(o)
    + NumberEntry(REQUESTED_IP, o.requestedIp) + NumberEntry(SUBNET_MASK, o.subnetMask)
  }

  function MiddleEntries(o: Options): seq<Entry> {
    AddressesEntry(ROUTER, o.router) + AddressesEntry(DNS, o.dns) + AddressesEntry(NTP_SRV, o.ntp)
  }

  function LastEntries(o: Options): seq<Entry> {
    NumberEntry(SERVER_ID, o.serverIdentifier) + NumberEntry(RENEWAL_TIME, o.renewalTime)
    + NumberEntry(REBIND_TIME, o.rebindingTime) + NumberEntry(LEASE_TIME, o.leaseTime)
  }

  /** The options in the order in which they are written. The host name is never among them. */
  function Entries(o: Options): seq<Entry> {
    FirstEntries(o) + MiddleEntries(o) + LastEntries(o)
  }

  function EntryBytes(e: Entry): seq<Byte> {
    var head: seq<Byte> := [e.code, ToByte(e.size)];
    head + e.payload
  }

  function EntriesBytes(es: seq<Entry>): seq<Byte> {
    if es == [] then [] else EntryBytes(es[0]) + EntriesBytes(es[1..])
  }

  function Encode(m: Message): seq<Byte> {
    FixedPart(m) + StringField(m.sname, 64) + StringField(m.file, 128) + COOKIE
    + EntriesBytes(Entries(m.options)) + [END]
  }

  /** The 16-bit counter that is compared with the chunk length at the end. */
  function Counted(start: nat, es: seq<Entry>): Word16
    decreases |es|
  {
    if es == [] then start % 0x1_0000 else Counted(start + 2 + es[0].size, es[1..])
  }

  function Counter(m: Message): Word16 {
    (Counted(236 + 4, Entries(m.options)) + 1) % 0x1_0000
  }

  // ------------------------------------------------------------------ what is read

  /** Bytes behind the end read as zero. */
  function ByteAt(b: seq<Byte>, i: nat): Byte {
    if i < |b| then b[i] else 0
  }

  function Window(b: seq<Byte>, i: nat, n: nat): (s: seq<Byte>)
    ensures |s| == n
  {
    seq<Byte>(n, k requires 0 <= k < n => ByteAt(b, i + k))
  }

  function Behind(b: seq<Byte>, n: nat): seq<Byte> {
    if n <= |b| then b[n..] else []
  }

  function NumberAt(b: seq<Byte>, i: nat, n: nat): (v: nat)
    requires n <= 4
    ensures v < 0x1_0000_0000
    ensures n <= 2 ==> v < 0x1_0000
  {
    BeSmall(Window(b, i, n));
    BeValue(Window(b, i, n))
  }

  /** The characters before the first zero. */
  function UpToZero(s: seq<Byte>): CString {
    if s == [] || s[0] == 0 then [] else [s[0]] + UpToZero(s[1..])
  }

  function Addresses(s: seq<Byte>): seq<Word32> {
    if |s| < 4 then [] else [NumberAt(s, 0, 4)] + Addresses(s[4..])
  }

  /** Options that hold one number of four bytes. */
  predicate IsNumber(code: Byte) {
    code == REQUESTED_IP || code == SUBNET_MASK || code == SERVER_ID
    || code == RENEWAL_TIME || code == REBIND_TIME || code == LEASE_TIME
  }

  predicate IsAddressList(code: Byte) {
    code == ROUTER || code == DNS || code == NTP_SRV
  }

  predicate Known(code: Byte) {
    code == DHCP_MSG_TYPE || code == HOSTNAME || code == PARAM_LIST || code == CLIENT_ID
    || IsNumber(code) || IsAddressList(code)
  }

  /** The assertions on the size of an option, and on the type byte of a client identifier. */
  predicate Accepts(code: Byte, size: Byte, kind: Byte) {
    if code == DHCP_MSG_TYPE then size == 1
    else if code == CLIENT_ID then size == 7 && kind == 1
    else if IsNumber(code) then size == 4
    else if IsAddressList(code) then size % 4 == 0
    else true
  }

  /** What reading an option does to the options read before. */
  function Applied(o: Options, code: Byte, body: seq<Byte>): Options
    requires |body| < 256 && Accepts(code, |body|, ByteAt(body, 0))
  {
    if code == DHCP_MSG_TYPE then o.(messageType := body[0])
    else if code == HOSTNAME then o.(hostName := UpToZero(body))
    else if code == PARAM_LIST then o.(parameterRequestList := body)
    else if code == CLIENT_ID then o.(clientIdentifier := body[1..])
    else if code == REQUESTED_IP then o.(requestedIp := NumberAt(body, 0, 4))
    else if code == SUBNET_MASK then o.(subnetMask := NumberAt(body, 0, 4))
    else if code == ROUTER then o.(router := Addresses(body))
    else if code == DNS then o.(dns := Addresses(body))
    else if code == NTP_SRV then o.(ntp := Addresses(body))
    else if code == SERVER_ID then o.(serverIdentifier := NumberAt(body, 0, 4))
    else if code == RENEWAL_TIME then o.(renewalTime := NumberAt(body, 0, 4))
    else if code == REBIND_TIME then o.(rebindingTime := NumberAt(body, 0, 4))
    else if code == LEASE_TIME then o.(leaseTime := NumberAt(body, 0, 4))
    else o
  }

  /** The options in some bytes; when they end without the end option, `ended` is false. */
  datatype OptionList = OptionList(entries: seq<Entry>, ended: bool, rest: seq<Byte>)

  function SplitOptions(b: seq<Byte>): OptionList
    decreases |b|
  {
    if b == [] then OptionList([], false, [])
    else if b[0] == END then OptionList([], true, b[1..])
    else
      var size := ByteAt(b, 1);
      var others := SplitOptions(Behind(b, 2 + size));
      OptionList([Entry(b[0], size, Window(b, 2, size))] + others.entries, others.ended, others.rest)
  }

  /** The variables of the option loop: the options, whether one was unknown, and the length so far. */
  datatype Progress = Progress(options: Options, incorrect: bool, length: nat)

  predicate Readable(e: Entry) {
    |e.payload| == e.size < 256
  }

  predicate Accepted(e: Entry)
    requires Readable(e)
  {
    Accepts(e.code, e.size, ByteAt(e.payload, 0))
  }

  function Advanced(p: Progress, e: Entry): Progress
    requires Readable(e) && Accepted(e)
  {
    Progress(Applied(p.options, e.code, e.payload), p.incorrect || !Known(e.code), p.length + 2 + e.size)
  }

  /** Endless: the bytes end without the end option, and the loop goes on reading zeros. Overrun: a
      string field without a zero, so that the copying goes on behind the field. */
  datatype Parse<T> = Parsed(value: T, incorrect: bool, length: nat, rest: seq<Byte>) | Refused | Overrun | Endless

  function Finished(es: seq<Entry>, ended: bool, rest: seq<Byte>, p: Progress): Parse<Options>
    requires forall i :: 0 <= i < |es| ==> Readable(es[i])
    decreases |es|
  {
    if es == [] then if ended then Parsed(p.options, p.incorrect, p.length + 1, rest) else Endless
    else if !Accepted(es[0]) then Refused
    else Finished(es[1..], ended, rest, Advanced(p, es[0]))
  }

  lemma {:induction false} SplitsReadable(b: seq<Byte>)
    ensures forall i :: 0 <= i < |SplitOptions(b).entries| ==> Readable(SplitOptions(b).entries[i])
    decreases |b|
  {
    if b != [] && b[0] != END {
      SplitsReadable(Behind(b, 2 + ByteAt(b, 1)));
    }
  }

  function DecodeOptions(b: seq<Byte>, p: Progress): Parse<Options> {
    SplitsReadable(b);
    var s := SplitOptions(b);
    Finished(s.entries, s.ended, s.rest, p)
  }

  function FixedMessage(b: seq<Byte>, sname: CString, file: CString, o: Options): Message {
    var flags := NumberAt(b, 10, 2);
    Message(if ByteAt(b, 0) == 1 then BootRequest else BootReply, ByteAt(b, 1), ByteAt(b, 2), ByteAt(b, 3),
            NumberAt(b, 4, 4), NumberAt(b, 8, 2), flags >= 0x8000, flags % 0x8000,
            NumberAt(b, 12, 4), NumberAt(b, 16, 4), NumberAt(b, 24, 4), Window(b, 28, 6), sname, file, o)
  }

  function Decode(b: seq<Byte>): Parse<Message> {
    var sname, file := Window(b, 44, 64), Window(b, 108, 128);
    if 0 !in sname || 0 !in file then Overrun
    else if Window(b, 236, 4) != COOKIE then Refused
    else
      match DecodeOptions(Behind(b, 240), Progress(NO_OPTIONS, false, 236 + 4))
      case Parsed(o, incorrect, length, rest) =>
        Parsed(FixedMessage(b, UpToZero(sname), UpToZero(file), o), incorrect, length, rest)
      case Refused => Refused
      case Overrun => Overrun
      case Endless => Endless
  }

  lemma BeSmall(s: seq<Byte>)
    requires |s| <= 4
    ensures BeValue(s) < 0x1_0000_0000
    ensures |s| <= 2 ==> BeValue(s) < 0x1_0000
  {
    BeBounded(s);
    Pow2Of24();
    Pow2Of56();
    if |s| < 4 { Pow2Grows(8 * |s|, 32); }
    if |s| < 2 { Pow2Grows(8 * |s|, 16); }
  }
}
