/** The handshakes come to their end: whenever a client is waiting for an answer, what it sent last is on the network,
    and serving it and delivering the answer binds the lease. */
module DhcpRenewal {
  import opened Dhcp
  import opened DhcpAnswers
  import opened DhcpProtocol
  import opened DhcpReplies
  import opened Optional

  // ------------------------------------------------------------------ what a waiting client has sent

  /** The last message of a client that waits for an answer. */
  function LastSent(c: Client): Message
    requires AwaitsAck(c) ==> c.lease.Some?
  {
    match c.state
    case REQUESTING => RequestOf(c, c.xid, UNSPECIFIED, c.lease.value.ip, c.lease.value.serverId)
    case RENEWING | REBINDING => RequestOf(c, c.xid, c.lease.value.ip, UNSPECIFIED, UNSPECIFIED)
    case REBOOTING => RequestOf(c, c.xid, UNSPECIFIED, c.lease.value.ip, UNSPECIFIED)
    case _ => DiscoverOf(c, c.xid)
  }

  /** It is on the network, and the lease is one of this server. */
  ghost predicate Asking(cfg: Config, net: set<Message>, c: Client, up: bool) {
    && LeaseKnown(c)
    && (c.lease.Some? ==> c.lease.value.serverId == cfg.serverAddress)
    && (up && (c.state == SELECTING || AwaitsAck(c)) ==> LastSent(c) in net)
  }

  ghost predicate FromServer(cfg: Config, m: Message) {
    m.op == BootReply ==> m.serverIdentifier == cfg.serverAddress
  }

  ghost predicate AllAsking(cfg: Config, s: System) {
    && |s.up| == |s.clients|
    && (forall i :: 0 <= i < |s.clients| ==> Asking(cfg, s.net, s.clients[i], s.up[i]))
    && (forall m :: m in s.net ==> FromServer(cfg, m))
  }

  lemma MessageAsks(cfg: Config, s: System, i: int, m: Message, x: int)
    requires AllAsking(cfg, s) && 0 <= i < |s.clients| && s.up[i] && m in s.net && Acceptable(s.clients[i], m)
    ensures var o := ClientMessage(s.clients[i], m, s.now, x);
      && Asking(cfg, if o.sent.Some? then s.net + {o.sent.value} else s.net, o.client, true)
      && (o.sent.Some? ==> FromServer(cfg, o.sent.value))
  {
    var c := s.clients[i];
    assert Asking(cfg, s.net, c, s.up[i]) && FromServer(cfg, m);
    ActsIff(c, m, s.now, x);
    if ForClient(c, m) && AwaitsAck(c) && m.kind == Ack { AckBinds(c, m, s.now, x); }
    if ForClient(c, m) && AwaitsAck(c) && m.kind == Nak { NakRestarts(c, m, s.now, x); }
    if ForClient(c, m) && c.state == SELECTING && m.kind == Offer { OfferIsRequested(c, m, s.now, x); }
  }

  lemma EventAsks(cfg: Config, s: System, step: Step, i: int, x: int, o: Outcome)
    requires AllAsking(cfg, s) && Inv(cfg, s) && ClientEvent(s, step, i, x, o)
    ensures Asking(cfg, if o.sent.Some? then s.net + {o.sent.value} else s.net, o.client, true)
    ensures o.sent.Some? ==> FromServer(cfg, o.sent.value)
  {
    var c := s.clients[i];
    assert Asking(cfg, s.net, c, s.up[i]) && ClientOk(cfg, s.leases, s.owner, i, c, s.up[i]);
    match step
    case Deliver(_, m, _) => MessageAsks(cfg, s, i, m, x);
    case Expire(_, T1, _) => T1Renews(c, s.now, x);
    case Expire(_, T2, _) => T2Rebinds(c, s.now, x);
    case Expire(_, TIMEOUT, _) => TimeoutRestarts(c, s.now, x);
    case Expire(_, LEASE_TIMEOUT, _) => LeaseEnds(c, s.now, x);
    case Start(_, _) => StartAsks(c, s.now, x);
    case Associate(_, _) =>
  }

  lemma ReactAsks(cfg: Config, s: System, s': System, i: int, x: int, o: Outcome)
    requires AllAsking(cfg, s) && Reacts(s, s', i, x, o)
    requires Asking(cfg, if o.sent.Some? then s.net + {o.sent.value} else s.net, o.client, true)
    requires o.sent.Some? ==> FromServer(cfg, o.sent.value)
    ensures AllAsking(cfg, s') && s.net <= s'.net
  {
    forall j | 0 <= j < |s'.clients| ensures Asking(cfg, s'.net, s'.clients[j], s'.up[j]) {
      assert Asking(cfg, s.net, s.clients[j], s.up[j]);
    }
  }

  lemma StopAsks(cfg: Config, s: System, s': System, i: int)
    requires ConfigOk(cfg) && AllAsking(cfg, s) && Next(cfg, s, s', Stop(i))
    ensures AllAsking(cfg, s') && s.net <= s'.net
  {
    forall j | 0 <= j < |s'.clients| ensures Asking(cfg, s'.net, s'.clients[j], s'.up[j]) {
      assert Asking(cfg, s.net, s.clients[j], s.up[j]);
    }
  }

  lemma ServeAsks(cfg: Config, s: System, s': System, m: Message)
    requires ConfigOk(cfg) && AllAsking(cfg, s) && Next(cfg, s, s', Serve(m))
    ensures AllAsking(cfg, s') && s.net <= s'.net
  {
    forall j | 0 <= j < |s'.clients| ensures Asking(cfg, s'.net, s'.clients[j], s'.up[j]) {
      assert Asking(cfg, s.net, s.clients[j], s.up[j]);
    }
  }

  lemma NextAsks(cfg: Config, s: System, s': System, step: Step)
    requires ConfigOk(cfg) && AllAsking(cfg, s) && Inv(cfg, s) && Next(cfg, s, s', step)
    ensures AllAsking(cfg, s') && s.net <= s'.net
  {
    match step
    case Serve(m) => ServeAsks(cfg, s, s', m);
    case Stop(i) => StopAsks(cfg, s, s', i);
    case Wait(_) =>
    case _ =>
      var i, x, o :| ClientEvent(s, step, i, x, o) && Reacts(s, s', i, x, o);
      EventAsks(cfg, s, step, i, x, o);
      ReactAsks(cfg, s, s', i, x, o);
  }

  lemma {:induction false} RunAsks(cfg: Config, run: seq<System>, k: nat)
    requires ConfigOk(cfg) && Run(cfg, run) && k < |run|
    ensures AllAsking(cfg, run[k]) && Inv(cfg, run[k])
  {
    RunInv(cfg, run, k);
    if k == 0 {
      forall i | 0 <= i < |run[0].clients| ensures Asking(cfg, run[0].net, run[0].clients[i], run[0].up[i]) {
        assert NewClient(run[0].clients[i]);
      }
    } else {
      RunAsks(cfg, run, k - 1);
      var step := RunStep(cfg, run, k - 1);
      NextAsks(cfg, run[k - 1], run[k], step);
    }
  }

  // ------------------------------------------------------------------ the answer

  /** The confirmation of the address for this MAC. */
  function AckOf(cfg: Config, c: Client, a: Address): Message {
    Message(BootReply, Ack, c.xid, a, a, c.mac, UNSPECIFIED, cfg.serverAddress,
            cfg.leaseTime, cfg.leaseTime / 2, cfg.leaseTime * 7 / 8)
  }

  /** The table while the client waits: its address is recorded for its MAC, and the server confirms that. */
  lemma RequestIsAcked(cfg: Config, s: System, i: int)
    requires ConfigOk(cfg) && Inv(cfg, s) && AllAsking(cfg, s) && 0 <= i < |s.clients| && s.up[i]
    requires AwaitsAck(s.clients[i])
    ensures var c := s.clients[i];
      && c.lease.Some? && LastSent(c) in s.net
      && ServerStep(cfg, s.leases, LastSent(c), s.now).1 == Some(AckOf(cfg, c, c.lease.value.ip))
  {
    var c := s.clients[i];
    assert Asking(cfg, s.net, c, s.up[i]) && ClientOk(cfg, s.leases, s.owner, i, c, s.up[i]);
    var m := LastSent(c);
    match c.state
    case REQUESTING => SelectingReply(cfg, s.leases, m, s.now);
    case RENEWING | REBINDING => RenewalReply(cfg, s.leases, m, s.now);
    case REBOOTING => RebootReply(cfg, s.leases, m, s.now);
  }

  lemma {:induction false} NetGrows(cfg: Config, run: seq<System>, k: nat, n: nat)
    requires ConfigOk(cfg) && Run(cfg, run) && k <= n < |run|
    ensures run[k].net <= run[n].net && |run[k].clients| == |run[n].clients|
    ensures forall a, mac :: Owns(run[k].leases, a, mac) ==> Owns(run[n].leases, a, mac)
    ensures forall i :: 0 <= i < |run[k].clients| ==> run[k].clients[i].mac == run[n].clients[i].mac
    decreases n
  {
    if k < n {
      NetGrows(cfg, run, k, n - 1);
      var step := RunStep(cfg, run, n - 1);
      RunAsks(cfg, run, n - 1);
      NextAsks(cfg, run[n - 1], run[n], step);
      NextKeeps(cfg, run[n - 1], run[n], step);
      SameClients(cfg, run[n - 1], run[n], step);
    }
  }

  lemma SameClients(cfg: Config, s: System, s': System, step: Step)
    requires ConfigOk(cfg) && Inv(cfg, s) && Next(cfg, s, s', step)
    ensures |s.clients| == |s'.clients|
    ensures forall i :: 0 <= i < |s.clients| ==> s.clients[i].mac == s'.clients[i].mac
  {
    if !step.Serve? && !step.Stop? && !step.Wait? {
      var i, x, o :| ClientEvent(s, step, i, x, o) && Reacts(s, s', i, x, o);
      EventGood(cfg, s, step, i, x, o);
    }
  }

  // ------------------------------------------------------------------ what serving and delivering come to

  /** The lease with the times of this server. */
  function Granted(cfg: Config, c: Client): Lease
    requires c.lease.Some?
  {
    Lease(c.lease.value.ip, c.lease.value.mac, c.lease.value.serverId,
          cfg.leaseTime, cfg.leaseTime / 2, cfg.leaseTime * 7 / 8)
  }

  /** Serving what a client sent last puts the ACK for its address on the network.  Delivered at any later time to the
      client while it still waits under the same transaction id, it binds the lease of that address, to end a full
      lease time after the delivery. */
  lemma ServedIsBound(cfg: Config, run: seq<System>, k: nat, n: nat, i: int, x: int)
    requires ConfigOk(cfg) && Run(cfg, run) && k < n && n + 1 < |run|
    requires 0 <= i < |run[k].clients| && i < |run[k].up| && run[k].up[i] && AwaitsAck(run[k].clients[i])
    requires run[k].clients[i].lease.Some? && Next(cfg, run[k], run[k + 1], Serve(LastSent(run[k].clients[i])))
    requires i < |run[n].clients| && AwaitsAck(run[n].clients[i]) && run[n].clients[i].xid == run[k].clients[i].xid
    requires var r := AckOf(cfg, run[k].clients[i], run[k].clients[i].lease.value.ip);
      Next(cfg, run[n], run[n + 1], Deliver(i, r, x))
    ensures AckOf(cfg, run[k].clients[i], run[k].clients[i].lease.value.ip) in run[k + 1].net
    ensures |run[n + 1].clients| == |run[n].clients| && run[n].clients[i].lease.Some?
    ensures run[n + 1].clients[i] == BoundTo(run[n].clients[i], Granted(cfg, run[n].clients[i]), run[n].now)
    ensures run[n + 1].clients[i].ip == run[k].clients[i].lease.value.ip
  {
    RunAsks(cfg, run, k);
    RequestIsAcked(cfg, run[k], i);
    var c, r := run[k].clients[i], AckOf(cfg, run[k].clients[i], run[k].clients[i].lease.value.ip);
    RunAsks(cfg, run, n);
    BoundLater(cfg, run, k, n, i);
    var d := run[n].clients[i];
    AckBinds(d, r, run[n].now, x);
    var j, y, o :| ClientEvent(run[n], Deliver(i, r, x), j, y, o) && Reacts(run[n], run[n + 1], j, y, o);
  }

  /** The address cannot have become another one meanwhile: the MAC has only one entry. */
  lemma BoundLater(cfg: Config, run: seq<System>, k: nat, n: nat, i: int)
    requires ConfigOk(cfg) && Run(cfg, run) && k <= n < |run|
    requires 0 <= i < |run[k].clients| && i < |run[n].clients|
    requires run[k].clients[i].lease.Some? && run[n].clients[i].lease.Some?
    ensures run[k].clients[i].lease.value.ip == run[n].clients[i].lease.value.ip != UNSPECIFIED
  {
    RunAsks(cfg, run, k);
    RunAsks(cfg, run, n);
    NetGrows(cfg, run, k, n);
    var s, t := run[k], run[n];
    assert ClientOk(cfg, s.leases, s.owner, i, s.clients[i], s.up[i]);
    assert ClientOk(cfg, t.leases, t.owner, i, t.clients[i], t.up[i]);
    assert OnePerMac(t.leases, s.clients[i].lease.value.ip, t.clients[i].lease.value.ip);
  }

  // ------------------------------------------------------------------ the way to BOUND is always open

  lemma Extend(cfg: Config, run: seq<System>, s: System, step: Step)
    requires ConfigOk(cfg) && Run(cfg, run) && Next(cfg, run[|run| - 1], s, step)
    ensures Run(cfg, run + [s])
  {
    var run' := run + [s];
    forall k | 0 <= k < |run'| - 1 ensures GoesAt(cfg, run', k) {
      if k < |run| - 1 {
        assert GoesAt(cfg, run, k);
      } else {
        assert Goes(cfg, run[|run| - 1], s);
      }
    }
  }

  /** Client i is up, and the number x is not drawn yet. */
  predicate CanAct(s: System, i: int, x: int) {
    0 <= i < |s.clients| && i < |s.up| && s.up[i] && x !in s.owner
  }

  function Served(s: System, leases: Leases, r: Message): System {
    s.(leases := leases, net := s.net + {r})
  }

  /** A client that waits for an ACK can get it at once: two steps more and its lease is bound. */
  lemma CanBeAcked(cfg: Config, run: seq<System>, i: int, x: int) returns (run': seq<System>)
    requires ConfigOk(cfg) && Run(cfg, run)
    requires CanAct(run[|run| - 1], i, x) && AwaitsAck(run[|run| - 1].clients[i])
    ensures Run(cfg, run') && |run'| == |run| + 2 && run <= run'
    ensures var (s, s') := (run[|run| - 1], run'[|run'| - 1]);
      && |s'.clients| == |s.clients| && s.clients[i].lease.Some? && s'.now == s.now
      && s'.clients[i] == BoundTo(s.clients[i], Granted(cfg, s.clients[i]), s.now)
  {
    var s := run[|run| - 1];
    RunAsks(cfg, run, |run| - 1);
    RequestIsAcked(cfg, s, i);
    var c := s.clients[i];
    var r := AckOf(cfg, c, c.lease.value.ip);
    var s1 := Served(s, ServerStep(cfg, s.leases, LastSent(c), s.now).0, r);
    assert Next(cfg, s, s1, Serve(LastSent(c)));
    Extend(cfg, run, s1, Serve(LastSent(c)));
    BoundLater(cfg, run, |run| - 1, |run| - 1, i);
    AckBinds(c, r, s.now, x);
    var o := ClientMessage(c, r, s1.now, x);
    var s2 := s1.(clients := s1.clients[i := o.client], up := s1.up[i := true]);
    assert ClientEvent(s1, Deliver(i, r, x), i, x, o) && Reacts(s1, s2, i, x, o);
    Extend(cfg, run + [s1], s2, Deliver(i, r, x));
    run' := run + [s1] + [s2];
  }

  /** An address of its own, or one that is free, is left for this MAC. */
  ghost predicate AddressLeft(cfg: Config, leases: Leases, mac: Mac) {
    (exists a :: Owns(leases, a, mac)) || exists a :: Free(cfg, leases, a)
  }

  /** What a client that looks for a server is offered: the address it has, or the least free one, if there is one. */
  lemma DiscoverIsOffered(cfg: Config, s: System, i: int)
    requires ConfigOk(cfg) && Inv(cfg, s) && AllAsking(cfg, s) && 0 <= i < |s.clients| && s.up[i]
    requires s.clients[i].state == SELECTING
    requires AddressLeft(cfg, s.leases, s.clients[i].mac)
    ensures var c := s.clients[i];
      && LastSent(c) == DiscoverOf(c, c.xid) && LastSent(c) in s.net
      && var (leases, r) := ServerStep(cfg, s.leases, LastSent(c), s.now);
        && r.Some? && Offers(cfg, r, r.value.yiaddr, c.mac, c.xid) && r.value.yiaddr != UNSPECIFIED
        && Owns(leases, r.value.yiaddr, c.mac)
  {
    var c := s.clients[i];
    assert Asking(cfg, s.net, c, s.up[i]);
    var m := LastSent(c);
    DiscoverKeeps(cfg, s.leases, m, s.now);
    if a :| Owns(s.leases, a, c.mac) {
      KnownClientReply(cfg, s.leases, m, s.now, a);
    } else {
      NewClientReply(cfg, s.leases, m, s.now);
      FirstFreeIsLeast(cfg, s.leases, 0);
      var f := FirstFree(cfg, s.leases, 0).value;
      assert Offers(cfg, ServerStep(cfg, s.leases, m, s.now).1, f, c.mac, c.xid);
    }
  }

  lemma CanBeOffered(cfg: Config, run: seq<System>, i: int, x: int) returns (s1: System, s2: System)
    requires ConfigOk(cfg) && Run(cfg, run)
    requires CanAct(run[|run| - 1], i, x) && run[|run| - 1].clients[i].state == SELECTING
    requires AddressLeft(cfg, run[|run| - 1].leases, run[|run| - 1].clients[i].mac)
    ensures Run(cfg, run + [s1] + [s2])
    ensures s2.owner == run[|run| - 1].owner[x := i] && s2.now == run[|run| - 1].now
    ensures |s2.clients| == |run[|run| - 1].clients| && i < |s2.up| && s2.up[i] && s2.clients[i].state == REQUESTING
  {
    var s := run[|run| - 1];
    RunAsks(cfg, run, |run| - 1);
    DiscoverIsOffered(cfg, s, i);
    var c := s.clients[i];
    var (leases, r) := ServerStep(cfg, s.leases, LastSent(c), s.now);
    s1 := Served(s, leases, r.value);
    assert Next(cfg, s, s1, Serve(LastSent(c)));
    Extend(cfg, run, s1, Serve(LastSent(c)));
    assert Asking(cfg, s.net, c, s.up[i]);
    OfferIsRequested(c, r.value, s.now, x);
    var o := ClientMessage(c, r.value, s1.now, x);
    s2 := s1.(clients := s1.clients[i := o.client], up := s1.up[i := true], net := s1.net + {o.sent.value},
              owner := s1.owner[x := i]);
    assert ClientEvent(s1, Deliver(i, r.value, x), i, x, o) && Reacts(s1, s2, i, x, o);
    Extend(cfg, run + [s1], s2, Deliver(i, r.value, x));
  }

  /** A client that looks for a server can be bound in four steps if an address is left for it. */
  lemma CanBeServed(cfg: Config, run: seq<System>, i: int, x: int, y: int) returns (run': seq<System>)
    requires ConfigOk(cfg) && Run(cfg, run)
    requires CanAct(run[|run| - 1], i, x) && CanAct(run[|run| - 1], i, y) && x != y
    requires run[|run| - 1].clients[i].state == SELECTING
    requires AddressLeft(cfg, run[|run| - 1].leases, run[|run| - 1].clients[i].mac)
    ensures Run(cfg, run') && |run'| == |run| + 4 && run <= run'
    ensures var (s, s') := (run[|run| - 1], run'[|run'| - 1]);
      && |s'.clients| == |s.clients| && s'.now == s.now
      && s'.clients[i].state == BOUND && s'.clients[i].ip != UNSPECIFIED
      && s'.clients[i].leaseTimer == Some(s.now + cfg.leaseTime)
      && s'.clients[i].timerT1 == Some(s.now + cfg.leaseTime / 2)
      && s'.clients[i].timerT2 == Some(s.now + cfg.leaseTime * 7 / 8)
  {
    var s1, s2 := CanBeOffered(cfg, run, i, x);
    run' := CanBeAcked(cfg, run + [s1] + [s2], i, y);
    BoundLater(cfg, run', |run'| - 1, |run'| - 1, i);
  }
}
