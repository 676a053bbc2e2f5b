/** Which reply the server gives to which message, with what in it, and what it leaves in its table. */
module DhcpReplies {
  import opened Dhcp
  import opened DhcpProtocol
  import opened Optional

  // ------------------------------------------------------------------ replies

  /** A reply that names address a, for the client with this MAC, with the three times of a lease. */
  ghost predicate Names(cfg: Config, r: Message, kind: MessageType, a: Address, mac: Mac, xid: int) {
    && r.op == BootReply && r.kind == kind && r.xid == xid && r.chaddr == mac && r.yiaddr == a
    && r.serverIdentifier == cfg.serverAddress && r.requestedIp == UNSPECIFIED
    && TimesOf(cfg, r)
  }

  ghost predicate Acks(cfg: Config, r: Option<Message>, a: Address, mac: Mac, xid: int) {
    r.Some? && Names(cfg, r.value, Ack, a, mac, xid) && r.value.ciaddr == a
  }

  ghost predicate Offers(cfg: Config, r: Option<Message>, a: Address, mac: Mac, xid: int) {
    r.Some? && Names(cfg, r.value, Offer, a, mac, xid) && r.value.ciaddr == UNSPECIFIED
  }

  /** A NAK names no address and no times. */
  ghost predicate Refuses(cfg: Config, r: Option<Message>, m: Message) {
    r == Some(Message(BootReply, Nak, m.xid, UNSPECIFIED, UNSPECIFIED, m.chaddr, UNSPECIFIED, cfg.serverAddress,
                      0, 0, 0))
  }

  /** The entry for a is renewed at this time, for whom it was; no other entry changes. */
  ghost predicate Renewed(before: Leases, after: Leases, a: Address, m: Message, now: Time)
    requires a in before
  {
    after == before[a := Entry(before[a].ip, before[a].mac, m.xid, now, true)]
  }

  // ------------------------------------------------------------------ REQUEST

  /** A client that renews or rebinds (its address in ciaddr, no server named, section 4.3.2 of RFC 2131): an ACK
      for that address if and only if the table has it, otherwise a NAK. */
  lemma RenewalReply(cfg: Config, leases: Leases, m: Message, now: Time)
    requires ConfigOk(cfg) && TableOk(cfg, leases) && m.op == BootRequest && m.kind == Request
    requires m.serverIdentifier != cfg.serverAddress && m.ciaddr != UNSPECIFIED
    ensures var (leases', reply) := ServerStep(cfg, leases, m, now);
      && (m.ciaddr in leases ==>
            && Acks(cfg, reply, m.ciaddr, leases[m.ciaddr].mac, m.xid) && Renewed(leases, leases', m.ciaddr, m, now))
      && (m.ciaddr !in leases ==> Refuses(cfg, reply, m) && leases' == leases)
  {
    assert EntryOk(cfg, leases, m.ciaddr);
  }

  /** A client that has restarted with the address it remembers in the option: an ACK if and only if the table has
      the address, otherwise silence. A NAK for an address of another network is never sent. */
  lemma RebootReply(cfg: Config, leases: Leases, m: Message, now: Time)
    requires ConfigOk(cfg) && TableOk(cfg, leases) && m.op == BootRequest && m.kind == Request
    requires m.serverIdentifier != cfg.serverAddress && m.ciaddr == UNSPECIFIED
    ensures var (leases', reply) := ServerStep(cfg, leases, m, now);
      && (m.requestedIp in leases ==>
            && Acks(cfg, reply, m.requestedIp, leases[m.requestedIp].mac, m.xid)
            && Renewed(leases, leases', m.requestedIp, m, now))
      && (m.requestedIp !in leases ==> reply == None && leases' == leases)
  {
    assert EntryOk(cfg, leases, m.requestedIp);
  }

  /** The NAK of the source: an entry, which would have to be under the wrong address, for another network. */
  lemma WrongNetworkReply(cfg: Config, leases: Leases, m: Message, now: Time)
    requires ConfigOk(cfg) && m.op == BootRequest && m.kind == Request && m.requestedIp in leases
    requires m.serverIdentifier != cfg.serverAddress && m.ciaddr == UNSPECIFIED
    ensures var (leases', reply) := ServerStep(cfg, leases, m, now);
      var e := leases[m.requestedIp];
      if e.ip / cfg.networkSize == m.requestedIp / cfg.networkSize
      then Acks(cfg, reply, e.ip, e.mac, m.xid) && Renewed(leases, leases', m.requestedIp, m, now)
      else Refuses(cfg, reply, m) && leases' == leases
  {
  }

  /** A client that takes this server's offer: an ACK if and only if the address is recorded for its MAC, otherwise
      a NAK. */
  lemma SelectingReply(cfg: Config, leases: Leases, m: Message, now: Time)
    requires ConfigOk(cfg) && TableOk(cfg, leases) && m.op == BootRequest && m.kind == Request
    requires m.serverIdentifier == cfg.serverAddress
    ensures var (leases', reply) := ServerStep(cfg, leases, m, now);
      && (Owns(leases, m.requestedIp, m.chaddr) ==>
            && Acks(cfg, reply, m.requestedIp, m.chaddr, m.xid) && Renewed(leases, leases', m.requestedIp, m, now))
      && (!Owns(leases, m.requestedIp, m.chaddr) ==> Refuses(cfg, reply, m) && leases' == leases)
  {
    var r := LeaseByMac(leases, m.chaddr);
    if r.Some? { assert HasMac(leases, r.value, m.chaddr) && EntryOk(cfg, leases, r.value); }
    if Owns(leases, m.requestedIp, m.chaddr) {
      assert HasMac(leases, m.requestedIp, m.chaddr) && OnePerMac(leases, m.requestedIp, r.value);
    }
  }

  // ------------------------------------------------------------------ DISCOVER

  /** In the pool, and not leased. */
  ghost predicate Free(cfg: Config, leases: Leases, a: Address) {
    InPool(cfg, a) && !(a in leases && leases[a].leased)
  }

  lemma NoEntry(leases: Leases, mac: Mac)
    ensures (forall a :: !Owns(leases, a, mac)) ==> LeaseByMac(leases, mac) == None
  {
    var r := LeaseByMac(leases, mac);
    assert r.Some? ==> HasMac(leases, r.value, mac) && Owns(leases, r.value, mac);
  }

  lemma {:induction false} FirstFreeIsLeast(cfg: Config, leases: Leases, i: nat)
    requires i <= cfg.maxNumOfClients
    ensures var r := FirstFree(cfg, leases, i);
      && (r.Some? ==> Free(cfg, leases, r.value) && r.value >= cfg.ipAddressStart + i)
      && forall b :: Free(cfg, leases, b) && b >= cfg.ipAddressStart + i ==> r.Some? && r.value <= b
    decreases cfg.maxNumOfClients - i
  {
    if i < cfg.maxNumOfClients { FirstFreeIsLeast(cfg, leases, i + 1); }
  }

  /** The entry for an address that is given out for the first time, or again by request; one that is not leased is left
      as it is. All other entries stay. */
  lemma AvailableEntry(cfg: Config, leases: Leases, requested: Address)
    ensures var (leases', r) := AvailableLease(cfg, leases, requested);
      && (r.None? <==> requested == UNSPECIFIED && forall a :: !Free(cfg, leases, a))
      && (r.None? ==> leases' == leases)
      && (r.Some? ==>
            if r.value in leases && !leases[r.value].leased then leases' == leases
            else leases' == leases[r.value := Entry(r.value, 0, -1, 0, false)])
      && (r.Some? && requested != UNSPECIFIED ==> r.value == requested)
      && (r.Some? && requested == UNSPECIFIED ==>
            Free(cfg, leases, r.value) && forall a :: Free(cfg, leases, a) ==> r.value <= a)
  {
    FirstFreeIsLeast(cfg, leases, 0);
  }

  /** A MAC that has an entry is offered its address again. */
  lemma KnownClientReply(cfg: Config, leases: Leases, m: Message, now: Time, a: Address)
    requires ConfigOk(cfg) && TableOk(cfg, leases) && m.op == BootRequest && m.kind == Discover
    requires Owns(leases, a, m.chaddr)
    ensures var (leases', reply) := ServerStep(cfg, leases, m, now);
      Offers(cfg, reply, a, m.chaddr, m.xid) && Renewed(leases, leases', a, m, now)
  {
    var r := LeaseByMac(leases, m.chaddr);
    assert HasMac(leases, a, m.chaddr) && HasMac(leases, r.value, m.chaddr) && OnePerMac(leases, a, r.value);
    assert EntryOk(cfg, leases, a);
  }

  /** Any other is offered the least address of the pool that is free, with an entry of its own; if none is free
      there is no answer. */
  lemma NewClientReply(cfg: Config, leases: Leases, m: Message, now: Time)
    requires ConfigOk(cfg) && TableOk(cfg, leases) && m.op == BootRequest && m.kind == Discover
    requires (forall a :: !Owns(leases, a, m.chaddr)) && m.requestedIp == UNSPECIFIED
    ensures var (leases', reply) := ServerStep(cfg, leases, m, now);
      && (forall a :: Free(cfg, leases, a) && (forall b :: Free(cfg, leases, b) ==> a <= b) ==>
            Offers(cfg, reply, a, m.chaddr, m.xid) && leases' == leases[a := Entry(a, m.chaddr, m.xid, now, true)])
      && ((forall a :: !Free(cfg, leases, a)) ==> reply == None && leases' == leases)
      && (reply.Some? <==> exists a :: Free(cfg, leases, a))
  {
    NoEntry(leases, m.chaddr);
    FirstFreeIsLeast(cfg, leases, 0);
    var f := FirstFree(cfg, leases, 0);
    if f.Some? {
      assert Free(cfg, leases, f.value) && EntryOk(cfg, leases, f.value);
      var l := leases[f.value := NewEntry(f.value)];
      var e := l[f.value].(mac := m.chaddr, xid := m.xid, leaseTime := now, leased := true);
      assert l[f.value := e] == leases[f.value := e];
      forall a | Free(cfg, leases, a) && (forall b :: Free(cfg, leases, b) ==> a <= b) ensures a == f.value {
      }
    }
  }

  /** An address that is asked for is offered, whether it is in the pool or not and whoever has it. */
  lemma AskedForReply(cfg: Config, leases: Leases, m: Message, now: Time)
    requires ConfigOk(cfg) && TableOk(cfg, leases) && m.op == BootRequest && m.kind == Discover
    requires (forall a :: !Owns(leases, a, m.chaddr)) && m.requestedIp != UNSPECIFIED
    ensures var (leases', reply) := ServerStep(cfg, leases, m, now);
      && Offers(cfg, reply, m.requestedIp, m.chaddr, m.xid)
      && leases' == leases[m.requestedIp := Entry(m.requestedIp, m.chaddr, m.xid, now, true)]
  {
    NoEntry(leases, m.chaddr);
    assert EntryOk(cfg, leases, m.requestedIp);
    var l := leases[m.requestedIp := NewEntry(m.requestedIp)];
    var e := l[m.requestedIp].(mac := m.chaddr, xid := m.xid, leaseTime := now, leased := true);
    assert l[m.requestedIp := e] == leases[m.requestedIp := e];
  }

  // ------------------------------------------------------------------ anything else

  /** All other messages are dropped; and a DISCOVER is answered if and only if its sender has an entry, asks for an
      address, or some address of the pool is free. */
  lemma AnsweredIff(cfg: Config, leases: Leases, m: Message, now: Time)
    requires ConfigOk(cfg) && TableOk(cfg, leases)
    ensures var (leases', reply) := ServerStep(cfg, leases, m, now);
      && (m.op != BootRequest || (m.kind != Discover && m.kind != Request) ==> reply == None && leases' == leases)
      && (m.op == BootRequest && m.kind == Discover ==>
            (reply.Some? && reply.value.kind == Offer <==>
              (exists a :: Owns(leases, a, m.chaddr)) || m.requestedIp != UNSPECIFIED
                || exists a :: Free(cfg, leases, a)))
      && (m.op == BootRequest && m.kind == Discover && reply.Some? ==> reply.value.kind == Offer)
  {
    if m.op == BootRequest && m.kind == Discover {
      if a :| Owns(leases, a, m.chaddr) {
        KnownClientReply(cfg, leases, m, now, a);
      } else if m.requestedIp != UNSPECIFIED {
        AskedForReply(cfg, leases, m, now);
      } else {
        NewClientReply(cfg, leases, m, now);
        if a :| Free(cfg, leases, a) { FirstFreeIsLeast(cfg, leases, 0); }
      }
    }
  }
}
