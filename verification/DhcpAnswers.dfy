/** What the client makes of each message and of each timer, field by field: its state, its lease, its address, its
    timers and the message it sends (table 4 of RFC 2131). */
module DhcpAnswers {
  import opened Dhcp
  import opened Optional

  // ------------------------------------------------------------------ the clients and messages that come about

  /** BOUND to a lease: its address configured, nothing awaited, and its three times counted from now. */
  function BoundTo(c: Client, l: Lease, now: Time): Client {
    Client(BOUND, c.mac, c.xid, Some(l), l.ip, Some(now + l.renewalTime), Some(now + l.rebindTime), None,
           Some(now + l.leaseTime), c.responseTimeout)
  }

  /** SELECTING with one timer only, and with address a still configured. */
  function Selecting(c: Client, a: Address, now: Time, x: int): Client {
    Client(SELECTING, c.mac, x, c.lease, a, None, None, Some(now + c.responseTimeout), None, c.responseTimeout)
  }

  function DiscoverOf(c: Client, x: int): Message {
    Message(BootRequest, Discover, x, UNSPECIFIED, UNSPECIFIED, c.mac, UNSPECIFIED, UNSPECIFIED, 0, 0, 0)
  }

  function RequestOf(c: Client, x: int, ciaddr: Address, requested: Address, server: Address): Message {
    Message(BootRequest, Request, x, ciaddr, UNSPECIFIED, c.mac, requested, server, 0, 0, 0)
  }

  predicate ForClient(c: Client, m: Message) {
    m.op == BootReply && m.xid == c.xid
  }

  /** The states in which a confirmation of the lease is awaited. */
  predicate AwaitsAck(c: Client) {
    c.state == REQUESTING || c.state == RENEWING || c.state == REBINDING || c.state == REBOOTING
  }

  // ------------------------------------------------------------------ messages

  /** An ACK binds the recorded lease, with the times of the message, in each of the four states. */
  lemma AckBinds(c: Client, m: Message, now: Time, x: int)
    requires LeaseKnown(c) && ForClient(c, m) && AwaitsAck(c) && m.kind == Ack
    ensures var l := c.lease.value;
      var l' := if m.yiaddr == UNSPECIFIED then l
        else Lease(l.ip, l.mac, l.serverId, m.leaseTime, m.renewalTime, m.rebindTime);
      ClientMessage(c, m, now, x) == Outcome(BoundTo(c, l', now), None, false)
  {
  }

  /** A NAK starts over with a DISCOVER; the address is taken from the interface except in REQUESTING. */
  lemma NakRestarts(c: Client, m: Message, now: Time, x: int)
    requires LeaseKnown(c) && ForClient(c, m) && AwaitsAck(c) && m.kind == Nak
    ensures var a := if c.state == REQUESTING then c.ip else UNSPECIFIED;
      ClientMessage(c, m, now, x) == Outcome(Selecting(c, a, now, x), Some(DiscoverOf(c, x)), false)
  {
  }

  /** An OFFER in SELECTING is recorded, with no times yet, and requested from the server that made it. */
  lemma OfferIsRequested(c: Client, m: Message, now: Time, x: int)
    requires LeaseKnown(c) && Acceptable(c, m) && ForClient(c, m) && c.state == SELECTING && m.kind == Offer
    ensures var l := if m.yiaddr == UNSPECIFIED then c.lease.value
        else Lease(m.yiaddr, c.mac, m.serverIdentifier, 0, 0, 0);
      ClientMessage(c, m, now, x) ==
        Outcome(Client(REQUESTING, c.mac, x, Some(l), c.ip, c.timerT1, c.timerT2, Some(now + c.responseTimeout),
                       c.leaseTimer, c.responseTimeout),
                Some(RequestOf(c, x, UNSPECIFIED, l.ip, l.serverId)), false)
  {
  }

  /** The client acts on a message if and only if it is an OFFER in SELECTING or an ACK or NAK awaited, with its own
      transaction id; it raises an error if and only if such a message meets a state it passes through only. */
  lemma ActsIff(c: Client, m: Message, now: Time, x: int)
    requires LeaseKnown(c) && Acceptable(c, m)
    ensures var o := ClientMessage(c, m, now, x);
      && (o.error <==> ForClient(c, m) && (c.state == IDLE || c.state == INIT_REBOOT))
      && (o.sent.Some? <==>
            && ForClient(c, m)
            && ((c.state == SELECTING && m.kind == Offer) || (AwaitsAck(c) && m.kind == Nak)))
      && (o.client.state != c.state <==>
            && ForClient(c, m)
            && ((c.state == SELECTING && m.kind == Offer) || (AwaitsAck(c) && (m.kind == Ack || m.kind == Nak))))
      && (o.client.state == c.state ==> o.client == c)
  {
    if ForClient(c, m) && AwaitsAck(c) && m.kind == Ack { AckBinds(c, m, now, x); }
    if ForClient(c, m) && AwaitsAck(c) && m.kind == Nak { NakRestarts(c, m, now, x); }
    if ForClient(c, m) && c.state == SELECTING && m.kind == Offer { OfferIsRequested(c, m, now, x); }
  }

  // ------------------------------------------------------------------ timers

  /** T1: the address is asked for again, in ciaddr, without naming a server; T2 and the lease go on. */
  lemma T1Renews(c: Client, now: Time, x: int)
    requires LeaseKnown(c) && c.timerT1.Some?
    ensures ClientTimer(c, T1, now, x) ==
      Outcome(Client(RENEWING, c.mac, x, c.lease, c.ip, None, c.timerT2, Some(now + c.responseTimeout), c.leaseTimer,
                     c.responseTimeout),
              Some(RequestOf(c, x, c.lease.value.ip, UNSPECIFIED, UNSPECIFIED)), false)
  {
  }

  /** T2: the same once more, the lease timer going on; an error in any state but RENEWING. */
  lemma T2Rebinds(c: Client, now: Time, x: int)
    requires LeaseKnown(c)
    ensures ClientTimer(c, T2, now, x) ==
      if c.state != RENEWING then Outcome(c.(timerT2 := None), None, true)
      else
        Outcome(Client(REBINDING, c.mac, x, c.lease, c.ip, None, None, Some(now + c.responseTimeout), c.leaseTimer,
                       c.responseTimeout),
                Some(RequestOf(c, x, c.lease.value.ip, UNSPECIFIED, UNSPECIFIED)), false)
  {
  }

  /** No answer in time: everything starts over, the address stays configured. */
  lemma TimeoutRestarts(c: Client, now: Time, x: int)
    requires LeaseKnown(c)
    ensures ClientTimer(c, TIMEOUT, now, x) == Outcome(Selecting(c, c.ip, now, x), Some(DiscoverOf(c, x)), false)
  {
  }

  /** The end of the lease: everything starts over without an address. */
  lemma LeaseEnds(c: Client, now: Time, x: int)
    requires LeaseKnown(c)
    ensures ClientTimer(c, LEASE_TIMEOUT, now, x) ==
      Outcome(Selecting(c, UNSPECIFIED, now, x), Some(DiscoverOf(c, x)), false)
  {
  }

  /** The start: with a lease on record its address is asked for in the option, naming no server, otherwise the client
      looks for servers. */
  lemma StartAsks(c: Client, now: Time, x: int)
    requires LeaseKnown(c)
    ensures ClientTimer(c, START_DHCP, now, x) ==
      if c.lease.None? then Outcome(Selecting(c, c.ip, now, x), Some(DiscoverOf(c, x)), false)
      else
        Outcome(Client(REBOOTING, c.mac, x, c.lease, c.ip, c.timerT1, c.timerT2, Some(now + c.responseTimeout),
                       c.leaseTimer, c.responseTimeout),
                Some(RequestOf(c, x, UNSPECIFIED, c.lease.value.ip, UNSPECIFIED)), false)
  {
  }
}
