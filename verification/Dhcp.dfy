/** Messages, leases and the single steps of DHCP server and client, as functions on values. */
module Dhcp {
  import opened Optional

  type Address = int
  type Mac = int
  type Time = int

  /** 0.0.0.0 */
  const UNSPECIFIED: Address := 0

  datatype Op = BootRequest | BootReply

  datatype MessageType = Discover | Offer | Request | Decline | Ack | Nak | Release | Inform

  /** The fields and options the two sides act on. */
  datatype Message = Message(op: Op, kind: MessageType, xid: int, ciaddr: Address, yiaddr: Address, chaddr: Mac,
                             requestedIp: Address, serverIdentifier: Address,
                             leaseTime: Time, renewalTime: Time, rebindTime: Time)

  // ------------------------------------------------------------------ server

  datatype Config = Config(serverAddress: Address, ipAddressStart: Address, maxNumOfClients: nat, leaseTime: nat,
                           networkSize: nat)

  datatype Entry = Entry(ip: Address, mac: Mac, xid: int, leaseTime: Time, leased: bool)

  type Leases = map<Address, Entry>

  /** A server that could be started: a specified address, and a pool of specified addresses. */
  predicate ConfigOk(cfg: Config) {
    cfg.serverAddress != UNSPECIFIED && cfg.ipAddressStart > 0 && cfg.networkSize > 0
  }

  predicate InPool(cfg: Config, a: Address) {
    cfg.ipAddressStart <= a < cfg.ipAddressStart + cfg.maxNumOfClients
  }

  predicate HasMac(leases: Leases, a: Address, mac: Mac) {
    a in leases && leases[a].mac == mac
  }

  /** The entry a search in address order finds first. */
  ghost predicate FirstWithMac(leases: Leases, mac: Mac, r: Option<Address>) {
    match r
    case None => forall a :: !HasMac(leases, a, mac)
    case Some(a) => HasMac(leases, a, mac) && forall b :: HasMac(leases, b, mac) ==> a <= b
  }

  lemma EmptyOrInhabited(s: set<Address>)
    ensures s == {} || exists x :: x in s
  {
    if forall x :: x !in s { assert s == {}; }
  }

  lemma {:induction false} LeastExists(s: set<Address>) returns (a: Address)
    requires s != {}
    ensures a in s && forall b :: b in s ==> a <= b
  {
    EmptyOrInhabited(s);
    var x :| x in s;
    if s - {x} == {} {
      a := x;
      assert forall b :: b in s ==> b == x || b in s - {x};
    } else {
      var y := LeastExists(s - {x});
      a := if x < y then x else y;
      assert forall b :: b in s ==> b == x || b in s - {x};
    }
  }

  lemma FirstWithMacExists(leases: Leases, mac: Mac)
    ensures exists r :: FirstWithMac(leases, mac, r)
  {
    var s := set a | a in leases && HasMac(leases, a, mac);
    if s == {} {
      assert FirstWithMac(leases, mac, None) by {
        forall a ensures !HasMac(leases, a, mac) { assert a !in s; }
      }
    } else {
      var a := LeastExists(s);
      assert FirstWithMac(leases, mac, Some(a)) by {
        forall b | HasMac(leases, b, mac) ensures a <= b { assert b in s; }
      }
    }
  }

  ghost function LeaseByMac(leases: Leases, mac: Mac): (r: Option<Address>)
    ensures FirstWithMac(leases, mac, r)
  {
    FirstWithMacExists(leases, mac);
    var r :| FirstWithMac(leases, mac, r);
    r
  }

  function NewEntry(a: Address): Entry {
    Entry(a, 0, -1, 0, false)
  }

  /** The first address of the pool, from the i-th on, without an entry or with one not leased. */
  function FirstFree(cfg: Config, leases: Leases, i: nat): (r: Option<Address>)
    ensures r.Some? ==> InPool(cfg, r.value) && (r.value in leases ==> !leases[r.value].leased)
    decreases cfg.maxNumOfClients - i
  {
    if i >= cfg.maxNumOfClients then None
    else
      var a := cfg.ipAddressStart + i;
      if a in leases && leases[a].leased then FirstFree(cfg, leases, i + 1) else Some(a)
  }

  /** The address offered to a MAC without a lease, if any, and the table with an entry for it.  A
      requested address is offered even if it is leased already, to whomever. */
  function AvailableLease(cfg: Config, leases: Leases, requested: Address): (Leases, Option<Address>) {
    if requested != UNSPECIFIED then
      if requested in leases && !leases[requested].leased then (leases, Some(requested))
      else (leases[requested := NewEntry(requested)], Some(requested))
    else
      match FirstFree(cfg, leases, 0)
      case None => (leases, None)
      case Some(a) => (if a in leases then leases else leases[a := NewEntry(a)], Some(a))
  }

  /** T1 and T2 are one half and seven eighths of the lease time, in whole seconds. */
  function Reply(cfg: Config, kind: MessageType, e: Entry, ciaddr: Address): Message {
    Message(BootReply, kind, e.xid, ciaddr, e.ip, e.mac, UNSPECIFIED, cfg.serverAddress,
            cfg.leaseTime, cfg.leaseTime / 2, cfg.leaseTime * 7 / 8)
  }

  function NakTo(cfg: Config, m: Message): Message {
    Message(BootReply, Nak, m.xid, UNSPECIFIED, UNSPECIFIED, m.chaddr, UNSPECIFIED, cfg.serverAddress, 0, 0, 0)
  }

  function Grant(e: Entry, m: Message, now: Time): Entry {
    e.(xid := m.xid, leaseTime := now, leased := true)
  }

  predicate SameNetwork(cfg: Config, a: Address, b: Address)
    requires cfg.networkSize > 0
  {
    a / cfg.networkSize == b / cfg.networkSize
  }

  ghost function ServerDiscover(cfg: Config, leases: Leases, m: Message, now: Time): (Leases, Option<Message>) {
    match LeaseByMac(leases, m.chaddr)
    case Some(a) =>
      var e := leases[a].(xid := m.xid, leaseTime := now);
      (leases[a := e], Some(Reply(cfg, Offer, e, UNSPECIFIED)))
    case None =>
      var (l, r) := AvailableLease(cfg, leases, m.requestedIp);
      match r
      case None => (leases, None)
      case Some(a) =>
        if a in l then
          var e := l[a].(mac := m.chaddr, xid := m.xid, leaseTime := now, leased := true);
          (l[a := e], Some(Reply(cfg, Offer, e, UNSPECIFIED)))
        else (l, None)
  }

  ghost function ServerRequest(cfg: Config, leases: Leases, m: Message, now: Time): (Leases, Option<Message>)
    requires ConfigOk(cfg)
  {
    if m.serverIdentifier == cfg.serverAddress then
      match LeaseByMac(leases, m.chaddr)
      case None => (leases, Some(NakTo(cfg, m)))
      case Some(a) =>
        if leases[a].ip != m.requestedIp then (leases, Some(NakTo(cfg, m)))
        else
          var e := Grant(leases[a], m, now);
          (leases[a := e], Some(Reply(cfg, Ack, e, e.ip)))
    else if m.ciaddr == UNSPECIFIED then
      if m.requestedIp !in leases then (leases, None)
      else if SameNetwork(cfg, m.requestedIp, leases[m.requestedIp].ip) then
        var e := Grant(leases[m.requestedIp], m, now);
        (leases[m.requestedIp := e], Some(Reply(cfg, Ack, e, e.ip)))
      else (leases, Some(NakTo(cfg, m)))
    else if m.ciaddr in leases then
      var e := Grant(leases[m.ciaddr], m, now);
      (leases[m.ciaddr := e], Some(Reply(cfg, Ack, e, e.ip)))
    else (leases, Some(NakTo(cfg, m)))
  }

  /** The table and the reply, if any, after a message. */
  ghost function ServerStep(cfg: Config, leases: Leases, m: Message, now: Time): (Leases, Option<Message>)
    requires ConfigOk(cfg)
  {
    if m.op == BootRequest && m.kind == Discover then ServerDiscover(cfg, leases, m, now)
    else if m.op == BootRequest && m.kind == Request then ServerRequest(cfg, leases, m, now)
    else (leases, None)
  }

  // ------------------------------------------------------------------ client

  datatype ClientState = IDLE | INIT | INIT_REBOOT | REBOOTING | SELECTING | REQUESTING | BOUND | RENEWING | REBINDING

  datatype TimerKind = START_DHCP | TIMEOUT | T1 | T2 | LEASE_TIMEOUT

  datatype Lease = Lease(ip: Address, mac: Mac, serverId: Address, leaseTime: Time, renewalTime: Time, rebindTime: Time)

  /** `ip` is the address configured on the interface.  Timers are absent or hold their expiry time;
      the WAIT_OFFER and WAIT_ACK timeouts share one timer and one reaction. */
  datatype Client = Client(state: ClientState, mac: Mac, xid: int, lease: Option<Lease>, ip: Address,
                           timerT1: Option<Time>, timerT2: Option<Time>, timerTo: Option<Time>,
                           leaseTimer: Option<Time>, responseTimeout: nat)

  datatype Outcome = Outcome(client: Client, sent: Option<Message>, error: bool)

  /** A lease is recorded whenever the client may refer to it. */
  predicate LeaseKnown(c: Client) {
    && (c.state in {REQUESTING, REBOOTING, BOUND, RENEWING, REBINDING} ==> c.lease.Some?)
    && (c.timerT1.Some? || c.timerT2.Some? ==> c.lease.Some?)
  }

  /** An offer names an address, unless a lease is on record anyway. */
  predicate Acceptable(c: Client, m: Message) {
    m.kind == Offer ==> m.yiaddr != UNSPECIFIED || c.lease.Some?
  }

  function Quiet(c: Client): Client {
    c.(timerT1 := None, timerT2 := None, timerTo := None, leaseTimer := None)
  }

  function DiscoverFrom(c: Client): Message {
    Message(BootRequest, Discover, c.xid, UNSPECIFIED, UNSPECIFIED, c.mac, UNSPECIFIED, UNSPECIFIED, 0, 0, 0)
  }

  /** The request of a client in one of the states in which it sends one (RFC 2131, table 4). */
  function RequestFrom(c: Client): Message
    requires c.lease.Some?
  {
    var l := c.lease.value;
    Message(BootRequest, Request, c.xid,
            if c.state == RENEWING || c.state == REBINDING then l.ip else UNSPECIFIED, UNSPECIFIED, c.mac,
            if c.state == INIT_REBOOT || c.state == REQUESTING then l.ip else UNSPECIFIED,
            if c.state == REQUESTING then l.serverId else UNSPECIFIED, 0, 0, 0)
  }

  function Restart(c: Client, now: Time, x: int): Outcome {
    var c' := Quiet(c).(xid := x, timerTo := Some(now + c.responseTimeout), state := SELECTING);
    Outcome(c', Some(DiscoverFrom(c')), false)
  }

  function Unbind(c: Client): Client {
    Quiet(c).(ip := UNSPECIFIED)
  }

  /** Enters a state and asks for the lease, waiting for the ACK. */
  function Ask(c: Client, s: ClientState, now: Time, x: int): Outcome
    requires c.lease.Some?
  {
    var c' := c.(state := s, xid := x, timerTo := Some(now + c.responseTimeout));
    Outcome(c', Some(RequestFrom(c')), false)
  }

  function Record(c: Client, m: Message): Client
    requires c.lease.Some?
  {
    if m.yiaddr == UNSPECIFIED then c
    else
      var l := c.lease.value.(leaseTime := m.leaseTime, renewalTime := m.renewalTime, rebindTime := m.rebindTime);
      c.(lease := Some(l))
  }

  function Bind(c: Client, m: Message, now: Time): Client
    requires c.lease.Some?
  {
    var c' := Record(c, m);
    var l := c'.lease.value;
    c'.(timerTo := None, timerT1 := Some(now + l.renewalTime), timerT2 := Some(now + l.rebindTime),
        leaseTimer := Some(now + l.leaseTime), ip := l.ip, state := BOUND)
  }

  function Offered(c: Client, m: Message): Client {
    if m.yiaddr == UNSPECIFIED then c
    else c.(lease := Some(Lease(m.yiaddr, c.mac, m.serverIdentifier, 0, 0, 0)))
  }

  /** A timer has expired (and so is no longer pending). */
  function ClientTimer(c0: Client, kind: TimerKind, now: Time, x: int): Outcome
    requires LeaseKnown(c0)
    requires kind == T1 ==> c0.timerT1.Some?
  {
    match kind
    case START_DHCP =>
      if c0.lease.Some? then
        var o := Ask(c0, INIT_REBOOT, now, x);
        o.(client := o.client.(state := REBOOTING))
      else Restart(c0, now, x)
    case TIMEOUT => Restart(c0.(timerTo := None), now, x)
    case T1 => Ask(c0.(timerT1 := None), RENEWING, now, x)
    case T2 =>
      if c0.state == RENEWING then Ask(Quiet(c0).(leaseTimer := c0.leaseTimer), REBINDING, now, x)
      else Outcome(c0.(timerT2 := None), None, true)
    case LEASE_TIMEOUT => Restart(Unbind(c0), now, x)
  }

  /** A message has arrived; x is the number drawn if one is sent in turn. */
  function ClientMessage(c: Client, m: Message, now: Time, x: int): Outcome
    requires LeaseKnown(c) && Acceptable(c, m)
  {
    if m.op != BootReply || m.xid != c.xid then Outcome(c, None, false)
    else
      match c.state
      case IDLE | INIT_REBOOT => Outcome(c, None, true)
      case INIT | BOUND => Outcome(c, None, false)
      case SELECTING =>
        if m.kind == Offer then Ask(Offered(c, m), REQUESTING, now, x) else Outcome(c, None, false)
      case REQUESTING =>
        if m.kind == Ack then Outcome(Bind(c, m, now), None, false)
        else if m.kind == Nak then Restart(c, now, x)
        else Outcome(c, None, false)
      case RENEWING | REBINDING | REBOOTING =>
        if m.kind == Ack then Outcome(Bind(c, m, now), None, false)
        else if m.kind == Nak then Restart(Unbind(c), now, x)
        else Outcome(c, None, false)
  }
}
