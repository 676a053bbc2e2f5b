/** Parsing undoes serializing: for which messages, and why for no others. */
module DhcpRoundTrip {

  import opened Bits
  import opened BitStreams
  import opened DhcpCodec

  ghost predicate OptionsFit(o: Options) {
    && (o.messageType == NO_TYPE || IsByte(o.messageType))
    && |o.parameterRequestList| <= 255
    && (forall i :: 0 <= i < |o.parameterRequestList| ==> IsByte(o.parameterRequestList[i]))
    && |o.router| <= 63 && |o.dns| <= 63 && |o.ntp| <= 63
    && IsWord(o.renewalTime) && IsWord(o.rebindingTime) && IsWord(o.leaseTime)
  }

  predicate IsByte(x: int) { 0 <= x < 256 }

  predicate IsWord(x: int) { 0 <= x < 0x1_0000_0000 }

  ghost predicate FixedFits(m: Message) {
    && IsByte(m.htype) && IsByte(m.hlen) && IsByte(m.hops) && 0 <= m.secs < 0x1_0000
    && m.reserved < 0x8000
  }

  /** Every field has a value that its place in the message can hold, and there is no host name. */
  ghost predicate InLimits(m: Message) {
    && FixedFits(m) && |m.sname| < 64 && |m.file| < 128
    && OptionsFit(m.options) && m.options.hostName == []
  }

  // ------------------------------------------------------------------ windows

  lemma WindowIn(a: seq<Byte>, w: seq<Byte>, c: seq<Byte>)
    ensures Window(a + w + c, |a|, |w|) == w
    ensures Behind(a + c, |a|) == c
  {
    var b := a + w + c;
    assert forall k :: 0 <= k < |w| ==> ByteAt(b, |a| + k) == w[k];
  }

  lemma NumberIn(b: seq<Byte>, i: nat, n: nat, v: int)
    requires n <= 4 && 0 <= v < Pow2(8 * n) && Window(b, i, n) == BeBytes(v, n)
    ensures NumberAt(b, i, n) == v
  {
    BeRoundTrip(v, n);
    Quotient(v, Pow2(8 * n), 0, v);
  }

  lemma WordIn(b: seq<Byte>, i: nat, v: Word32)
    requires Window(b, i, 4) == BeBytes(v, 4)
    ensures NumberAt(b, i, 4) == v
  {
    Pow2Of56();
    NumberIn(b, i, 4, v);
  }

  lemma HalfWordIn(b: seq<Byte>, i: nat, v: Word16)
    requires Window(b, i, 2) == BeBytes(v, 2)
    ensures NumberAt(b, i, 2) == v
  {
    Pow2Of24();
    NumberIn(b, i, 2, v);
  }

  // ------------------------------------------------------------------ fixed part

  /** Where the fields are. */
  lemma FieldPlaces(m: Message, tail: seq<Byte>)
    ensures var b := FixedPart(m) + tail;
      && Window(b, 0, 4) == [OpByte(m.op), ToByte(m.htype), ToByte(m.hlen), ToByte(m.hops)]
      && Window(b, 4, 4) == BeBytes(m.xid, 4)
      && Window(b, 8, 2) == BeBytes(m.secs % 0x1_0000, 2)
      && Window(b, 10, 2) == BeBytes(Flags(m), 2)
      && Window(b, 12, 4) == BeBytes(m.ciaddr, 4)
      && Window(b, 16, 4) == BeBytes(m.yiaddr, 4)
      && Window(b, 24, 4) == BeBytes(m.giaddr, 4)
      && Window(b, 28, 6) == m.chaddr
  {
    var p0: seq<Byte> := [OpByte(m.op), ToByte(m.htype), ToByte(m.hlen), ToByte(m.hops)];
    var p1, p2, p3 := BeBytes(m.xid, 4), BeBytes(m.secs % 0x1_0000, 2), BeBytes(Flags(m), 2);
    var p4, p5, p6, p7 := BeBytes(m.ciaddr, 4), BeBytes(m.yiaddr, 4), Zeros(4), BeBytes(m.giaddr, 4);
    var p8, p9 := m.chaddr, Zeros(10);
    var q := p4 + p5 + p6 + p7 + p8 + p9;
    assert FixedPart(m) + tail == (p0 + p1 + p2 + p3) + (q + tail);
    FirstTwelve(p0, p1, p2, p3, q + tail);
    NextFields(p0 + p1 + p2 + p3, p4, p5, p6, p7, p8, p9 + tail);
    assert q + tail == p4 + p5 + p6 + p7 + p8 + (p9 + tail);
  }

  lemma FirstTwelve(p0: seq<Byte>, p1: seq<Byte>, p2: seq<Byte>, p3: seq<Byte>, t: seq<Byte>)
    requires |p0| == 4 && |p1| == 4 && |p2| == 2 && |p3| == 2
    ensures var b := p0 + p1 + p2 + p3 + t;
      && Window(b, 0, 4) == p0 && Window(b, 4, 4) == p1 && Window(b, 8, 2) == p2 && Window(b, 10, 2) == p3
  {
    var b := p0 + p1 + p2 + p3 + t;
    assert b == [] + p0 + (p1 + p2 + p3 + t);
    WindowIn([], p0, p1 + p2 + p3 + t);
    assert b == p0 + p1 + (p2 + p3 + t);
    WindowIn(p0, p1, p2 + p3 + t);
    assert b == (p0 + p1) + p2 + (p3 + t);
    WindowIn(p0 + p1, p2, p3 + t);
    WindowIn(p0 + p1 + p2, p3, t);
  }

  lemma NextFields(a: seq<Byte>, p4: seq<Byte>, p5: seq<Byte>, p6: seq<Byte>, p7: seq<Byte>, p8: seq<Byte>,
          t: seq<Byte>)
    requires |a| == 12 && |p4| == |p5| == |p6| == |p7| == 4 && |p8| == 6
    ensures var b := a + (p4 + p5 + p6 + p7 + p8 + t);
      && Window(b, 12, 4) == p4 && Window(b, 16, 4) == p5 && Window(b, 24, 4) == p7 && Window(b, 28, 6) == p8
  {
    var b := a + (p4 + p5 + p6 + p7 + p8 + t);
    assert b == a + p4 + (p5 + p6 + p7 + p8 + t);
    WindowIn(a, p4, p5 + p6 + p7 + p8 + t);
    assert b == (a + p4) + p5 + (p6 + p7 + p8 + t);
    WindowIn(a + p4, p5, p6 + p7 + p8 + t);
    assert b == (a + p4 + p5 + p6) + p7 + (p8 + t);
    WindowIn(a + p4 + p5 + p6, p7, p8 + t);
    assert b == (a + p4 + p5 + p6 + p7) + p8 + t;
    WindowIn(a + p4 + p5 + p6 + p7, p8, t);
  }

  lemma FixedRoundTrip(m: Message, tail: seq<Byte>)
    requires FixedFits(m)
    ensures FixedMessage(FixedPart(m) + tail, m.sname, m.file, m.options) == m
  {
    var b := FixedPart(m) + tail;
    FieldPlaces(m, tail);
    FirstBytes(b, m);
    WordIn(b, 4, m.xid);
    assert m.secs % 0x1_0000 == m.secs;
    HalfWordIn(b, 8, m.secs);
    FlagsBack(b, m);
    WordIn(b, 12, m.ciaddr);
    WordIn(b, 16, m.yiaddr);
    WordIn(b, 24, m.giaddr);
  }

  lemma FirstBytes(b: seq<Byte>, m: Message)
    requires Window(b, 0, 4) == [OpByte(m.op), ToByte(m.htype), ToByte(m.hlen), ToByte(m.hops)] && FixedFits(m)
    ensures (if ByteAt(b, 0) == 1 then BootRequest else BootReply) == m.op
    ensures ByteAt(b, 1) == m.htype && ByteAt(b, 2) == m.hlen && ByteAt(b, 3) == m.hops
  {
    var w := Window(b, 0, 4);
    assert ByteAt(b, 0) == w[0] && ByteAt(b, 1) == w[1] && ByteAt(b, 2) == w[2] && ByteAt(b, 3) == w[3];
  }

  lemma FlagsBack(b: seq<Byte>, m: Message)
    requires Window(b, 10, 2) == BeBytes(Flags(m), 2) && m.reserved < 0x8000
    ensures (NumberAt(b, 10, 2) >= 0x8000) == m.broadcast && NumberAt(b, 10, 2) % 0x8000 == m.reserved
  {
    HalfWordIn(b, 10, Flags(m));
  }

  // ------------------------------------------------------------------ strings

  lemma {:induction false} UpToZeroAfter(s: CString, t: seq<Byte>)
    ensures UpToZero(s + [0] + t) == s
  {
    var all := s + [0] + t;
    if s != [] {
      assert s[0] in s;
      assert all[1..] == s[1..] + [0] + t;
      UpToZeroAfter(s[1..], t);
    }
  }

  lemma StringFieldFills(s: CString, size: nat)
    requires |s| < size <= 128
    ensures |StringField(s, size)| == size && 0 in StringField(s, size)
    ensures UpToZero(StringField(s, size)) == s
  {
    var field := StringField(s, size);
    assert Padding(|s|, size) == size - |s| - 1;
    assert field[|s|] == 0;
    UpToZeroAfter(s, Zeros(Padding(|s|, size)));
  }

  // ------------------------------------------------------------------ options

  ghost predicate Clean(e: Entry) {
    Readable(e) && Known(e.code) && Accepted(e)
  }

  ghost predicate AllClean(es: seq<Entry>) {
    forall i :: 0 <= i < |es| ==> Clean(es[i])
  }

  ghost function AppliedAll(o: Options, es: seq<Entry>): Options
    requires AllClean(es)
    decreases |es|
  {
    if es == [] then o else AppliedAll(Applied(o, es[0].code, es[0].payload), es[1..])
  }

  lemma {:induction false} AppliedInTurn(o: Options, a: seq<Entry>, b: seq<Entry>)
    requires AllClean(a) && AllClean(b)
    ensures AllClean(a + b)
    ensures AppliedAll(o, a + b) == AppliedAll(AppliedAll(o, a), b)
    decreases |a|
  {
    if a == [] {
      assert a + b == b;
    } else {
      assert (a + b)[1..] == a[1..] + b;
      AppliedInTurn(Applied(o, a[0].code, a[0].payload), a[1..], b);
    }
  }

  /** One option in front of others is taken off whole. */
  lemma OneOption(e: Entry, t: seq<Byte>)
    requires Readable(e)
    ensures var b := EntryBytes(e) + t;
      && |b| >= 2 && b[0] == e.code && ByteAt(b, 1) == e.size
      && Window(b, 2, e.size) == e.payload && Behind(b, 2 + e.size) == t
  {
    var b := EntryBytes(e) + t;
    var head: seq<Byte> := [e.code, ToByte(e.size)];
    assert b == head + e.payload + t;
    WindowIn(head, e.payload, t);
    WindowIn(head + e.payload, [], t);
  }

  /** The options that were written, and no more, are found again. */
  lemma {:induction false} SplitsBack(es: seq<Entry>, rest: seq<Byte>)
    requires AllClean(es)
    ensures SplitOptions(EntriesBytes(es) + [END] + rest) == OptionList(es, true, rest)
    decreases |es|
  {
    var b := EntriesBytes(es) + [END] + rest;
    if es == [] {
      assert b == [END] + rest;
      assert b[1..] == rest;
    } else {
      var e, t := es[0], EntriesBytes(es[1..]) + [END] + rest;
      assert b == EntryBytes(e) + t;
      assert Clean(e);
      OneOption(e, t);
      SplitsBack(es[1..], rest);
      assert [e] + es[1..] == es;
    }
  }

  lemma {:induction false} AllAccepted(es: seq<Entry>, rest: seq<Byte>, p: Progress)
    requires AllClean(es)
    ensures Finished(es, true, rest, p)
         == Parsed(AppliedAll(p.options, es), p.incorrect, p.length + |EntriesBytes(es)| + 1, rest)
    decreases |es|
  {
    if es != [] {
      assert Clean(es[0]);
      AllAccepted(es[1..], rest, Advanced(p, es[0]));
    }
  }

  lemma {:induction false} AddressesBack(list: seq<Word32>)
    ensures Addresses(AddressBytes(list)) == list
  {
    if list != [] {
      var first, others := BeBytes(list[0], 4), AddressBytes(list[1..]);
      var s := AddressBytes(list);
      WindowIn([], first, others);
      assert [] + first + others == s;
      WordIn(s, 0, list[0]);
      assert s[4..] == others;
      AddressesBack(list[1..]);
    }
  }

  lemma BytesBack(list: seq<int>)
    requires forall i :: 0 <= i < |list| ==> IsByte(list[i])
    ensures ToBytes(list) == list
  {
  }

  lemma NumberBack(v: Word32)
    ensures NumberAt(BeBytes(v, 4), 0, 4) == v
  {
    WindowIn([], BeBytes(v, 4), []);
    assert [] + BeBytes(v, 4) + [] == BeBytes(v, 4);
    WordIn(BeBytes(v, 4), 0, v);
  }

  // ------------------------------------------------------------------ each option comes back

  lemma OnePart(acc: Options, e: Entry)
    requires Clean(e)
    ensures AllClean([e]) && AppliedAll(acc, [e]) == Applied(acc, e.code, e.payload)
  {
    var after := Applied(acc, e.code, e.payload);
    assert [e][1..] == [];
    assert AllClean([]) && AppliedAll(after, []) == after;
  }

  lemma TypePart(acc: Options, o: Options)
    requires OptionsFit(o) && acc.messageType == NO_TYPE
    ensures AllClean(MessageTypeEntry(o))
    ensures AppliedAll(acc, MessageTypeEntry(o)) == acc.(messageType := o.messageType)
  {
    if o.messageType != NO_TYPE { OnePart(acc, MessageTypeEntry(o)[0]); }
  }

  lemma ParameterPart(acc: Options, o: Options)
    requires OptionsFit(o) && acc.parameterRequestList == []
    ensures AllClean(ParameterEntry(o))
    ensures AppliedAll(acc, ParameterEntry(o)) == acc.(parameterRequestList := o.parameterRequestList)
  {
    if o.parameterRequestList != [] {
      BytesBack(o.parameterRequestList);
      OnePart(acc, ParameterEntry(o)[0]);
    }
  }

  lemma ClientPart(acc: Options, o: Options)
    requires acc.clientIdentifier == NO_MAC
    ensures AllClean(ClientEntry(o))
    ensures AppliedAll(acc, ClientEntry(o)) == acc.(clientIdentifier := o.clientIdentifier)
  {
    if o.clientIdentifier != NO_MAC {
      var e := ClientEntry(o)[0];
      assert e.payload[1..] == o.clientIdentifier;
      OnePart(acc, e);
    }
  }

  ghost function WithNumber(o: Options, code: Byte, v: Word32): Options
    requires IsNumber(code)
  {
    if code == REQUESTED_IP then o.(requestedIp := v)
    else if code == SUBNET_MASK then o.(subnetMask := v)
    else if code == SERVER_ID then o.(serverIdentifier := v)
    else if code == RENEWAL_TIME then o.(renewalTime := v)
    else if code == REBIND_TIME then o.(rebindingTime := v)
    else o.(leaseTime := v)
  }

  lemma NumberPart(acc: Options, code: Byte, v: int)
    requires IsNumber(code) && IsWord(v) && WithNumber(acc, code, 0) == acc
    ensures AllClean(NumberEntry(code, v))
    ensures AppliedAll(acc, NumberEntry(code, v)) == WithNumber(acc, code, v)
  {
    hide BeBytes, BeValue, BitsOf;
    if v != 0 {
      var e := NumberEntry(code, v)[0];
      assert Clean(e);
      OnePart(acc, e);
      NumberApplied(acc, code, v);
    }
  }

  lemma NumberApplied(acc: Options, code: Byte, v: Word32)
    requires IsNumber(code)
    ensures Applied(acc, code, BeBytes(v, 4)) == WithNumber(acc, code, v)
  {
    NumberBack(v);
  }

  ghost function WithAddresses(o: Options, code: Byte, list: seq<Word32>): Options
    requires IsAddressList(code)
  {
    if code == ROUTER then o.(router := list)
    else if code == DNS then o.(dns := list)
    else o.(ntp := list)
  }

  lemma AddressesPart(acc: Options, code: Byte, list: seq<Word32>)
    requires IsAddressList(code) && |list| <= 63 && WithAddresses(acc, code, []) == acc
    ensures AllClean(AddressesEntry(code, list))
    ensures AppliedAll(acc, AddressesEntry(code, list)) == WithAddresses(acc, code, list)
  {
    if list != [] {
      AddressesBack(list);
      OnePart(acc, AddressesEntry(code, list)[0]);
    }
  }

  lemma FirstBack(o: Options)
    requires OptionsFit(o)
    ensures AllClean(FirstEntries(o))
    ensures AppliedAll(NO_OPTIONS, FirstEntries(o))
         == NO_OPTIONS.(messageType := o.messageType, parameterRequestList := o.parameterRequestList,
                        clientIdentifier := o.clientIdentifier, requestedIp := o.requestedIp,
                        subnetMask := o.subnetMask)
  {
    var a, b, c := MessageTypeEntry(o), ParameterEntry(o), ClientEntry(o);
    var d, e := NumberEntry(REQUESTED_IP, o.requestedIp), NumberEntry(SUBNET_MASK, o.subnetMask);
    TypePart(NO_OPTIONS, o);
    var r1 := NO_OPTIONS.(messageType := o.messageType);
    ParameterPart(r1, o);
    AppliedInTurn(NO_OPTIONS, a, b);
    var r2 := r1.(parameterRequestList := o.parameterRequestList);
    ClientPart(r2, o);
    AppliedInTurn(NO_OPTIONS, a + b, c);
    var r3 := r2.(clientIdentifier := o.clientIdentifier);
    NumberPart(r3, REQUESTED_IP, o.requestedIp);
    AppliedInTurn(NO_OPTIONS, a + b + c, d);
    NumberPart(r3.(requestedIp := o.requestedIp), SUBNET_MASK, o.subnetMask);
    AppliedInTurn(NO_OPTIONS, a + b + c + d, e);
  }

  lemma MiddleBack(acc: Options, o: Options)
    requires OptionsFit(o) && acc.router == [] && acc.dns == [] && acc.ntp == []
    ensures AllClean(MiddleEntries(o))
    ensures AppliedAll(acc, MiddleEntries(o)) == acc.(router := o.router, dns := o.dns, ntp := o.ntp)
  {
    var a, b, c := AddressesEntry(ROUTER, o.router), AddressesEntry(DNS, o.dns), AddressesEntry(NTP_SRV, o.ntp);
    AddressesPart(acc, ROUTER, o.router);
    AddressesPart(acc.(router := o.router), DNS, o.dns);
    AppliedInTurn(acc, a, b);
    AddressesPart(acc.(router := o.router, dns := o.dns), NTP_SRV, o.ntp);
    AppliedInTurn(acc, a + b, c);
  }

  lemma LastBack(acc: Options, o: Options)
    requires OptionsFit(o)
    requires acc == o.(serverIdentifier := 0, renewalTime := 0, rebindingTime := 0, leaseTime := 0)
    ensures AllClean(LastEntries(o))
    ensures AppliedAll(acc, LastEntries(o)) == o
  {
    var a, b := NumberEntry(SERVER_ID, o.serverIdentifier), NumberEntry(RENEWAL_TIME, o.renewalTime);
    var c, d := NumberEntry(REBIND_TIME, o.rebindingTime), NumberEntry(LEASE_TIME, o.leaseTime);
    NumberPart(acc, SERVER_ID, o.serverIdentifier);
    var r1 := acc.(serverIdentifier := o.serverIdentifier);
    NumberPart(r1, RENEWAL_TIME, o.renewalTime);
    AppliedInTurn(acc, a, b);
    var r2 := r1.(renewalTime := o.renewalTime);
    NumberPart(r2, REBIND_TIME, o.rebindingTime);
    AppliedInTurn(acc, a + b, c);
    NumberPart(r2.(rebindingTime := o.rebindingTime), LEASE_TIME, o.leaseTime);
    AppliedInTurn(acc, a + b + c, d);
  }

  lemma OptionsBack(o: Options)
    requires OptionsFit(o) && o.hostName == []
    ensures AllClean(Entries(o)) && AppliedAll(NO_OPTIONS, Entries(o)) == o
  {
    var a, b, c := FirstEntries(o), MiddleEntries(o), LastEntries(o);
    FirstBack(o);
    var r := AppliedAll(NO_OPTIONS, a);
    MiddleBack(r, o);
    AppliedInTurn(NO_OPTIONS, a, b);
    LastBack(r.(router := o.router, dns := o.dns, ntp := o.ntp), o);
    AppliedInTurn(NO_OPTIONS, a + b, c);
  }

  // ------------------------------------------------------------------ whole messages

  /** Where the parts of a message are when its strings fit. */
  lemma PartPlaces(m: Message, rest: seq<Byte>)
    requires |m.sname| < 64 && |m.file| < 128
    ensures var b := Encode(m) + rest;
      && Window(b, 44, 64) == StringField(m.sname, 64)
      && Window(b, 108, 128) == StringField(m.file, 128)
      && Window(b, 236, 4) == COOKIE
      && Behind(b, 240) == EntriesBytes(Entries(m.options)) + [END] + rest
      && |Encode(m)| == 240 + |EntriesBytes(Entries(m.options))| + 1
  {
    StringFieldFills(m.sname, 64);
    StringFieldFills(m.file, 128);
    FourParts(FixedPart(m), StringField(m.sname, 64), StringField(m.file, 128), COOKIE,
              EntriesBytes(Entries(m.options)) + [END] + rest);
    Reassociated(m, rest);
  }

  lemma FourParts(a: seq<Byte>, p: seq<Byte>, q: seq<Byte>, c: seq<Byte>, t: seq<Byte>)
    requires |a| == 44 && |p| == 64 && |q| == 128 && |c| == 4
    ensures var b := a + p + q + c + t;
      && Window(b, 44, 64) == p && Window(b, 108, 128) == q && Window(b, 236, 4) == c && Behind(b, 240) == t
  {
    var b := a + p + q + c + t;
    assert b == a + p + (q + c + t);
    WindowIn(a, p, q + c + t);
    assert b == (a + p) + q + (c + t);
    WindowIn(a + p, q, c + t);
    WindowIn(a + p + q, c, t);
    WindowIn(a + p + q + c, [], t);
  }

  lemma Reassociated(m: Message, rest: seq<Byte>)
    ensures Encode(m) + rest
         == FixedPart(m) + StringField(m.sname, 64) + StringField(m.file, 128) + COOKIE
          + (EntriesBytes(Entries(m.options)) + [END] + rest)
    ensures Encode(m) + rest
         == FixedPart(m) + (StringField(m.sname, 64) + StringField(m.file, 128) + COOKIE
          + (EntriesBytes(Entries(m.options)) + [END] + rest))
  {
    hide EntriesBytes, BeBytes, BitsOf;
  }

  /** Parsing what was written gives back the message, reports it correct, and consumes exactly what was
      written, whatever follows in the stream. */
  lemma RoundTrip(m: Message, rest: seq<Byte>)
    requires InLimits(m)
    ensures Decode(Encode(m) + rest) == Parsed(m, false, |Encode(m)|, rest)
  {
    var b, es := Encode(m) + rest, Entries(m.options);
    PartPlaces(m, rest);
    StringFieldFills(m.sname, 64);
    StringFieldFills(m.file, 128);
    OptionsBack(m.options);
    OptionsParsed(es, rest);
    Reassociated(m, rest);
    FixedRoundTrip(m, StringField(m.sname, 64) + StringField(m.file, 128) + COOKIE + (EntriesBytes(es) + [END] + rest));
  }

  lemma OptionsParsed(es: seq<Entry>, rest: seq<Byte>)
    requires AllClean(es)
    ensures DecodeOptions(EntriesBytes(es) + [END] + rest, Progress(NO_OPTIONS, false, 240))
         == Parsed(AppliedAll(NO_OPTIONS, es), false, 240 + |EntriesBytes(es)| + 1, rest)
  {
    SplitsBack(es, rest);
    AllAccepted(es, rest, Progress(NO_OPTIONS, false, 240));
  }

  // ------------------------------------------------------------------ nothing else comes back

  lemma AppliedFits(o: Options, code: Byte, body: seq<Byte>)
    requires OptionsFit(o) && |body| < 256 && Accepts(code, |body|, ByteAt(body, 0))
    ensures OptionsFit(Applied(o, code, body))
  {
    AddressCount(body);
  }

  lemma {:induction false} AddressCount(s: seq<Byte>)
    ensures |Addresses(s)| == |s| / 4
  {
    if |s| >= 4 { AddressCount(s[4..]); }
  }

  lemma {:induction false} FinishedFits(es: seq<Entry>, ended: bool, rest: seq<Byte>, p: Progress)
    requires forall i :: 0 <= i < |es| ==> Readable(es[i])
    requires OptionsFit(p.options)
    ensures var r := Finished(es, ended, rest, p); r.Parsed? ==> OptionsFit(r.value)
    decreases |es|
  {
    if es != [] && Accepted(es[0]) {
      AppliedFits(p.options, es[0].code, es[0].payload);
      FinishedFits(es[1..], ended, rest, Advanced(p, es[0]));
    }
  }

  lemma {:induction false} ZeroStops(s: seq<Byte>)
    requires 0 in s
    ensures |UpToZero(s)| < |s|
  {
    if s[0] != 0 { ZeroStops(s[1..]); }
  }

  /** Whatever the bytes, a message that comes out of them is in limits but for its host name. */
  lemma DecodedInLimits(b: seq<Byte>)
    ensures var r := Decode(b);
      r.Parsed? ==> FixedFits(r.value) && |r.value.sname| < 64 && |r.value.file| < 128 && OptionsFit(r.value.options)
  {
    var sname, file := Window(b, 44, 64), Window(b, 108, 128);
    if 0 in sname && 0 in file {
      ZeroStops(sname);
      ZeroStops(file);
      var t := Behind(b, 240);
      SplitsReadable(t);
      var s := SplitOptions(t);
      FinishedFits(s.entries, s.ended, s.rest, Progress(NO_OPTIONS, false, 240));
    }
  }

  /** Serializing and parsing gives back exactly the messages in limits. */
  lemma RoundTripIff(m: Message)
    ensures Decode(Encode(m)) == Parsed(m, false, |Encode(m)|, []) <==> InLimits(m)
  {
    NoOtherComesBack(m);
    if InLimits(m) {
      assert Encode(m) + [] == Encode(m);
      RoundTrip(m, []);
    }
  }

  lemma NoOtherComesBack(m: Message)
    ensures Decode(Encode(m)) == Parsed(m, false, |Encode(m)|, []) ==> InLimits(m)
  {
    var r := Decode(Encode(m));
    DecodedInLimits(Encode(m));
    if r == Parsed(m, false, |Encode(m)|, []) && m.options.hostName != [] {
      HostNameLost(m);
      assert false;
    }
  }

  lemma HostNameLost(m: Message)
    requires InLimits(WithoutHostName(m))
    ensures Decode(Encode(m)) == Parsed(WithoutHostName(m), false, |Encode(m)|, [])
  {
    assert Encode(WithoutHostName(m)) == Encode(m);
    assert Encode(m) + [] == Encode(m);
    RoundTrip(WithoutHostName(m), []);
  }

  function WithoutHostName(m: Message): Message {
    m.(options := m.options.(hostName := []))
  }

  /** A server name of 64 characters is let through, but the padding count wraps around. */
  lemma LongestNameLost(m: Message)
    requires |m.sname| == 64
    ensures |Encode(m)| > 0x1_0000_0000_0000_0000
    ensures !Decode(Encode(m)).Parsed? || Decode(Encode(m)).value != m
  {
    hide EntriesBytes, BeBytes, BitsOf;
    DecodedInLimits(Encode(m));
    assert Padding(64, 64) == 0xFFFF_FFFF_FFFF_FFFF;
    assert |StringField(m.sname, 64)| == 65 + 0xFFFF_FFFF_FFFF_FFFF;
  }

  // ------------------------------------------------------------------ the length counter

  ghost predicate Counts(es: seq<Entry>) {
    forall i :: 0 <= i < |es| ==> es[i].size == |es[i].payload| % 0x1_0000
  }

  lemma {:induction false} CountedBytes(start: nat, es: seq<Entry>)
    requires Counts(es)
    ensures Counted(start, es) == (start + |EntriesBytes(es)|) % 0x1_0000
    decreases |es|
  {
    if es != [] {
      CountedBytes(start + 2 + es[0].size, es[1..]);
      assert |EntriesBytes(es)| == 2 + |es[0].payload| + |EntriesBytes(es[1..])|;
      SameRemainder(start + 2 + |EntriesBytes(es[1..])|, |es[0].payload|);
    }
  }

  lemma SameRemainder(a: nat, b: nat)
    ensures (a + b % 0x1_0000) % 0x1_0000 == (a + b) % 0x1_0000
  {
  }

  lemma CountsSum(a: seq<Entry>, b: seq<Entry>)
    requires Counts(a) && Counts(b)
    ensures Counts(a + b)
  {
  }

  lemma FirstCount(o: Options)
    ensures Counts(FirstEntries(o))
  {
    var a, b, c := MessageTypeEntry(o), ParameterEntry(o), ClientEntry(o);
    CountsSum(a, b);
    CountsSum(a + b, c);
    CountsSum(a + b + c, NumberEntry(REQUESTED_IP, o.requestedIp));
    CountsSum(a + b + c + NumberEntry(REQUESTED_IP, o.requestedIp), NumberEntry(SUBNET_MASK, o.subnetMask));
  }

  lemma MiddleCount(o: Options)
    ensures Counts(MiddleEntries(o))
  {
    var a, b := AddressesEntry(ROUTER, o.router), AddressesEntry(DNS, o.dns);
    CountsSum(a, b);
    CountsSum(a + b, AddressesEntry(NTP_SRV, o.ntp));
  }

  lemma LastCount(o: Options)
    ensures Counts(LastEntries(o))
  {
    var a, b := NumberEntry(SERVER_ID, o.serverIdentifier), NumberEntry(RENEWAL_TIME, o.renewalTime);
    var c := NumberEntry(REBIND_TIME, o.rebindingTime);
    CountsSum(a, b);
    CountsSum(a + b, c);
    CountsSum(a + b + c, NumberEntry(LEASE_TIME, o.leaseTime));
  }

  lemma EntriesCount(o: Options)
    ensures Counts(Entries(o))
  {
    FirstCount(o);
    MiddleCount(o);
    LastCount(o);
    CountsSum(FirstEntries(o), MiddleEntries(o));
    CountsSum(FirstEntries(o) + MiddleEntries(o), LastEntries(o));
  }

  /** The counter is the number of bytes written, up to its width. */
  lemma CounterIsLength(m: Message)
    requires |m.sname| < 64 && |m.file| < 128
    ensures Counter(m) == |Encode(m)| % 0x1_0000
    ensures Counter(m) == |Encode(m)| <==> |Encode(m)| < 0x1_0000
  {
    hide *;
    EncodeLength(m);
    CounterBytes(m);
  }

  lemma EncodeLength(m: Message)
    requires |m.sname| < 64 && |m.file| < 128
    ensures |Encode(m)| == 240 + |EntriesBytes(Entries(m.options))| + 1
  {
    StringFieldFills(m.sname, 64);
    StringFieldFills(m.file, 128);
  }

  lemma CounterBytes(m: Message)
    ensures Counter(m) == (240 + |EntriesBytes(Entries(m.options))| + 1) % 0x1_0000
  {
    hide EntriesBytes, BeBytes, BitsOf;
    EntriesCount(m.options);
    CountedBytes(240, Entries(m.options));
    SameRemainder(1, 240 + |EntriesBytes(Entries(m.options))|);
  }

  /** A message in limits is far from overflowing it. */
  lemma InLimitsCounted(m: Message)
    requires InLimits(m)
    ensures Counter(m) == |Encode(m)| <= 1308
  {
    PartPlaces(m, []);
    EntriesShort(m.options);
    CounterIsLength(m);
  }

  lemma {:induction false} EntriesBytesAdd(a: seq<Entry>, b: seq<Entry>)
    ensures EntriesBytes(a + b) == EntriesBytes(a) + EntriesBytes(b)
    decreases |a|
  {
    if a == [] {
      assert a + b == b;
    } else {
      assert (a + b)[1..] == a[1..] + b;
      EntriesBytesAdd(a[1..], b);
    }
  }

  lemma OneEntryBytes(e: Entry)
    ensures |EntriesBytes([e])| == 2 + |e.payload| && |EntriesBytes([])| == 0
  {
    assert [e][1..] == [];
  }

  ghost predicate Short(es: seq<Entry>, n: nat) {
    |EntriesBytes(es)| <= n
  }

  lemma ShortSum(a: seq<Entry>, m: nat, b: seq<Entry>, n: nat)
    requires Short(a, m) && Short(b, n)
    ensures Short(a + b, m + n)
  {
    EntriesBytesAdd(a, b);
  }

  lemma NumberShort(code: Byte, v: int)
    ensures Short(NumberEntry(code, v), 6)
  {
    if v != 0 { OneEntryBytes(NumberEntry(code, v)[0]); }
  }

  lemma AddressesShort(code: Byte, list: seq<Word32>)
    requires |list| <= 63
    ensures Short(AddressesEntry(code, list), 254)
  {
    if list != [] { OneEntryBytes(AddressesEntry(code, list)[0]); }
  }

  lemma FirstShort(o: Options)
    requires OptionsFit(o)
    ensures Short(FirstEntries(o), 281)
  {
    var a, b, c := MessageTypeEntry(o), ParameterEntry(o), ClientEntry(o);
    if a != [] { OneEntryBytes(a[0]); }
    if b != [] { OneEntryBytes(b[0]); }
    if c != [] { OneEntryBytes(c[0]); }
    NumberShort(REQUESTED_IP, o.requestedIp);
    NumberShort(SUBNET_MASK, o.subnetMask);
    ShortSum(a, 3, b, 257);
    ShortSum(a + b, 260, c, 9);
    ShortSum(a + b + c, 269, NumberEntry(REQUESTED_IP, o.requestedIp), 6);
    ShortSum(a + b + c + NumberEntry(REQUESTED_IP, o.requestedIp), 275, NumberEntry(SUBNET_MASK, o.subnetMask), 6);
  }

  lemma EntriesShort(o: Options)
    requires OptionsFit(o)
    ensures Short(Entries(o), 1067)
  {
    FirstShort(o);
    var a, b, c := AddressesEntry(ROUTER, o.router), AddressesEntry(DNS, o.dns), AddressesEntry(NTP_SRV, o.ntp);
    AddressesShort(ROUTER, o.router);
    AddressesShort(DNS, o.dns);
    AddressesShort(NTP_SRV, o.ntp);
    ShortSum(a, 254, b, 254);
    ShortSum(a + b, 508, c, 254);
    ShortSum(FirstEntries(o), 281, MiddleEntries(o), 762);
    LastShort(o);
    ShortSum(FirstEntries(o) + MiddleEntries(o), 1043, LastEntries(o), 24);
  }

  lemma LastShort(o: Options)
    ensures Short(LastEntries(o), 24)
  {
    var a, b := NumberEntry(SERVER_ID, o.serverIdentifier), NumberEntry(RENEWAL_TIME, o.renewalTime);
    var c, d := NumberEntry(REBIND_TIME, o.rebindingTime), NumberEntry(LEASE_TIME, o.leaseTime);
    NumberShort(SERVER_ID, o.serverIdentifier);
    NumberShort(RENEWAL_TIME, o.renewalTime);
    NumberShort(REBIND_TIME, o.rebindingTime);
    NumberShort(LEASE_TIME, o.leaseTime);
    ShortSum(a, 6, b, 6);
    ShortSum(a + b, 12, c, 6);
    ShortSum(a + b + c, 18, d, 6);
  }
}
