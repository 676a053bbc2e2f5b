/** One server and any number of clients on a network that loses, repeats, reorders and broadcasts.

    Messages once sent stay in `net` and may be delivered at any later time, any number of times, or
    never, to the server and to every client.  Clients tell replies apart by transaction id only, so
    ids are drawn fresh; `owner` remembers who drew which. */
module DhcpProtocol {
  import opened Dhcp
  import opened Optional

  datatype System = System(leases: Leases, clients: seq<Client>, up: seq<bool>, net: set<Message>, owner: map<int, int>,
          now: Time)

  datatype Step =
    | Serve(m: Message)
    | Deliver(i: int, m: Message, x: int)
    | Expire(i: int, kind: TimerKind, x: int)
    | Start(i: int, x: int)
    | Stop(i: int)
    | Associate(i: int, x: int)
    | Wait(t: Time)

  // ------------------------------------------------------------------ transitions

  ghost predicate Initial(s: System) {
    && s.leases == map[] && s.net == {} && s.owner == map[]
    && |s.up| == |s.clients|
    && (forall i :: 0 <= i < |s.clients| ==> NewClient(s.clients[i]) && !s.up[i])
    && (forall i, j :: 0 <= i < |s.clients| && 0 <= j < |s.clients| ==> MacsDiffer(s, i, j))
  }

  ghost predicate NewClient(c: Client) {
    c == Client(IDLE, c.mac, 0, None, UNSPECIFIED, None, None, None, None, c.responseTimeout)
  }

  ghost predicate MacsDiffer(s: System, i: int, j: int)
    requires 0 <= i < |s.clients| && 0 <= j < |s.clients|
  {
    s.clients[i].mac == s.clients[j].mac ==> i == j
  }

  function TimerOf(c: Client, kind: TimerKind): Option<Time> {
    match kind
    case START_DHCP => None
    case TIMEOUT => c.timerTo
    case T1 => c.timerT1
    case T2 => c.timerT2
    case LEASE_TIMEOUT => c.leaseTimer
  }

  /** No timer of the client is due before time t. */
  predicate NothingBefore(c: Client, t: Time) {
    && (c.timerTo.Some? ==> t <= c.timerTo.value)
    && (c.timerT1.Some? ==> t <= c.timerT1.value)
    && (c.timerT2.Some? ==> t <= c.timerT2.value)
    && (c.leaseTimer.Some? ==> t <= c.leaseTimer.value)
  }

  /** What client i makes of an event; an error would end the simulation. */
  ghost predicate Reacts(s: System, s': System, i: int, x: int, o: Outcome) {
    && 0 <= i < |s.clients| && i < |s.up|
    && x !in s.owner
    && s' == s.(clients := s.clients[i := o.client], up := s.up[i := true],
                net := if o.sent.Some? then s.net + {o.sent.value} else s.net,
                owner := if o.sent.Some? then s.owner[x := i] else s.owner)
  }

  /** The client that step is about, and what it does there.  Timers expire when they are due, those
      due at the same time in the order they were set: T1 is always set just before T2. */
  ghost predicate ClientEvent(s: System, step: Step, i: int, x: int, o: Outcome) {
    && 0 <= i < |s.clients| && i < |s.up|
    && LeaseKnown(s.clients[i])
    && var c := s.clients[i];
      match step
      case Deliver(i', m, x') =>
        && i' == i && x' == x && m in s.net && s.up[i] && Acceptable(c, m)
        && o == ClientMessage(c, m, s.now, x)
      case Expire(i', kind, x') =>
        && i' == i && x' == x && kind != START_DHCP && TimerOf(c, kind) == Some(s.now) && NothingBefore(c, s.now)
        && (kind == T2 ==> c.timerT1 != Some(s.now))
        && s.up[i] && o == ClientTimer(c, kind, s.now, x)
      case Start(i', x') => i' == i && x' == x && !s.up[i] && o == ClientTimer(c, START_DHCP, s.now, x)
      case Associate(i', x') => i' == i && x' == x && s.up[i] && o == Restart(Unbind(c), s.now, x)
      case _ => false
  }

  ghost predicate Next(cfg: Config, s: System, s': System, step: Step)
    requires ConfigOk(cfg)
  {
    match step
    case Serve(m) =>
      && m in s.net
      && var (leases, reply) := ServerStep(cfg, s.leases, m, s.now);
        s' == s.(leases := leases, net := if reply.Some? then s.net + {reply.value} else s.net)
    case Stop(i) =>
      && 0 <= i < |s.clients| && i < |s.up|
      && s' == s.(clients := s.clients[i := Unbind(s.clients[i])], up := s.up[i := false])
    case Wait(t) =>
      && t >= s.now && (forall i :: 0 <= i < |s.clients| ==> NothingBefore(s.clients[i], t))
      && s' == s.(now := t)
    case _ => exists i, x, o :: ClientEvent(s, step, i, x, o) && Reacts(s, s', i, x, o)
  }

  // ------------------------------------------------------------------ the invariant

  ghost predicate Owns(leases: Leases, a: Address, mac: Mac) {
    a in leases && leases[a].mac == mac
  }

  ghost predicate EntryOk(cfg: Config, leases: Leases, a: Address) {
    a in leases ==> leases[a].ip == a && leases[a].leased && InPool(cfg, a)
  }

  ghost predicate OnePerMac(leases: Leases, a: Address, b: Address) {
    a in leases && b in leases && leases[a].mac == leases[b].mac ==> a == b
  }

  ghost predicate TableOk(cfg: Config, leases: Leases) {
    && (forall a :: EntryOk(cfg, leases, a))
    && (forall a, b :: OnePerMac(leases, a, b))
  }

  /** T1 is only pending in BOUND; T2 after T1 in BOUND, or in RENEWING; the lease ends after T2. */
  ghost predicate TimersOk(cfg: Config, c: Client) {
    && (c.timerT1.Some? ==> c.state == BOUND)
    && (c.timerT2.Some? ==>
          && c.leaseTimer.Some? && Before(cfg, c.timerT2.value, c.leaseTimer.value)
          && (|| c.state == RENEWING
              || (c.state == BOUND && c.timerT1.Some? && Before(cfg, c.timerT1.value, c.timerT2.value))))
  }

  /** Earlier, or for lease times below 3 s perhaps at the same time. */
  ghost predicate Before(cfg: Config, t: Time, t': Time) {
    t <= t' && (cfg.leaseTime >= 3 ==> t < t')
  }

  /** The lease timer runs in BOUND, RENEWING and REBINDING, for the address of the recorded lease. */
  ghost predicate CoverOk(c: Client, up: bool) {
    && (c.leaseTimer.Some? ==> c.lease.Some? && c.ip == c.lease.value.ip)
    && (up ==> (c.leaseTimer.Some? <==> c.state in {BOUND, RENEWING, REBINDING}))
    && (c.ip != UNSPECIFIED ==> up && c.state != REBOOTING)
  }

  ghost predicate ClientOk(cfg: Config, leases: Leases, owner: map<int, int>, i: int, c: Client, up: bool) {
    && LeaseKnown(c) && TimersOk(cfg, c) && CoverOk(c, up)
    && (c.lease.Some? ==> Owns(leases, c.lease.value.ip, c.mac) && c.lease.value.ip != UNSPECIFIED)
    && (c.ip != UNSPECIFIED ==> Owns(leases, c.ip, c.mac))
    && (up ==> c.state !in {IDLE, INIT, INIT_REBOOT} && c.xid in owner && owner[c.xid] == i)
    && (!up ==> Quiet(c) == c)
  }

  ghost predicate TimesOf(cfg: Config, m: Message) {
    m.leaseTime == cfg.leaseTime && m.renewalTime == cfg.leaseTime / 2 && m.rebindTime == cfg.leaseTime * 7 / 8
  }

  ghost predicate MessageOk(cfg: Config, leases: Leases, clients: seq<Client>, owner: map<int, int>, m: Message) {
    && m.xid in owner && 0 <= owner[m.xid] < |clients|
    && var mac := clients[owner[m.xid]].mac;
      match m.op
      case BootRequest =>
        && m.chaddr == mac
        && (m.kind == Discover ==> m.requestedIp == UNSPECIFIED)
        && (m.ciaddr != UNSPECIFIED ==> Owns(leases, m.ciaddr, mac))
        && (m.requestedIp != UNSPECIFIED ==> Owns(leases, m.requestedIp, mac))
      case BootReply =>
        && (m.kind == Offer || m.kind == Ack ==> m.yiaddr != UNSPECIFIED && Owns(leases, m.yiaddr, mac))
        && (m.kind == Ack ==> TimesOf(cfg, m))
  }

  ghost predicate Inv(cfg: Config, s: System) {
    && |s.up| == |s.clients|
    && TableOk(cfg, s.leases)
    && (forall i, j :: 0 <= i < |s.clients| && 0 <= j < |s.clients| ==> MacsDiffer(s, i, j))
    && (forall i :: 0 <= i < |s.clients| ==> ClientOk(cfg, s.leases, s.owner, i, s.clients[i], s.up[i]))
    && (forall m :: m in s.net ==> MessageOk(cfg, s.leases, s.clients, s.owner, m))
  }

  // ------------------------------------------------------------------ the server keeps it

  /** Entries stay, with the MAC they have. */
  ghost predicate Keeps(leases: Leases, leases': Leases) {
    forall a, mac :: Owns(leases, a, mac) ==> Owns(leases', a, mac)
  }

  lemma FreshEntry(cfg: Config, leases: Leases, m: Message, now: Time, a: Address)
    requires TableOk(cfg, leases) && InPool(cfg, a) && a !in leases
    requires forall b :: !HasMac(leases, b, m.chaddr)
    ensures var e := NewEntry(a).(mac := m.chaddr, xid := m.xid, leaseTime := now, leased := true);
      TableOk(cfg, leases[a := e]) && Keeps(leases, leases[a := e]) && Owns(leases[a := e], a, m.chaddr)
  {
    var e := NewEntry(a).(mac := m.chaddr, xid := m.xid, leaseTime := now, leased := true);
    var leases' := leases[a := e];
    forall b ensures EntryOk(cfg, leases', b) { assert EntryOk(cfg, leases, b); }
    forall b, c ensures OnePerMac(leases', b, c) {
      assert OnePerMac(leases, b, c) && !HasMac(leases, b, m.chaddr) && !HasMac(leases, c, m.chaddr);
    }
  }

  /** An entry is granted or offered again: only its transaction id and time change. */
  lemma SameEntry(cfg: Config, leases: Leases, a: Address, e: Entry)
    requires TableOk(cfg, leases) && a in leases
    requires e.ip == leases[a].ip && e.mac == leases[a].mac && e.leased
    ensures TableOk(cfg, leases[a := e]) && Keeps(leases, leases[a := e])
    ensures e.ip == a && InPool(cfg, a)
  {
    assert EntryOk(cfg, leases, a);
    var leases' := leases[a := e];
    forall b ensures EntryOk(cfg, leases', b) { assert EntryOk(cfg, leases, b); }
    forall b, c ensures OnePerMac(leases', b, c) { assert OnePerMac(leases, b, c); }
  }

  lemma DiscoverKeeps(cfg: Config, leases: Leases, m: Message, now: Time)
    requires ConfigOk(cfg) && TableOk(cfg, leases) && m.requestedIp == UNSPECIFIED
    ensures var (leases', reply) := ServerDiscover(cfg, leases, m, now);
      && TableOk(cfg, leases') && Keeps(leases, leases')
      && (reply.Some? ==>
            && reply.value.op == BootReply && reply.value.kind == Offer && reply.value.xid == m.xid
            && reply.value.yiaddr != UNSPECIFIED && Owns(leases', reply.value.yiaddr, m.chaddr))
  {
    match LeaseByMac(leases, m.chaddr)
    case Some(a) =>
      assert HasMac(leases, a, m.chaddr) && EntryOk(cfg, leases, a);
      SameEntry(cfg, leases, a, leases[a].(xid := m.xid, leaseTime := now));
    case None =>
      var r := FirstFree(cfg, leases, 0);
      if r.Some? {
        assert EntryOk(cfg, leases, r.value);
        FreshEntry(cfg, leases, m, now, r.value);
        var l := leases[r.value := NewEntry(r.value)];
        var e := l[r.value].(mac := m.chaddr, xid := m.xid, leaseTime := now, leased := true);
        assert l[r.value := e] == leases[r.value := e];
      }
  }

  lemma RequestKeeps(cfg: Config, leases: Leases, m: Message, now: Time)
    requires ConfigOk(cfg) && TableOk(cfg, leases)
    requires m.ciaddr != UNSPECIFIED ==> Owns(leases, m.ciaddr, m.chaddr)
    requires m.requestedIp != UNSPECIFIED ==> Owns(leases, m.requestedIp, m.chaddr)
    ensures var (leases', reply) := ServerRequest(cfg, leases, m, now);
      && TableOk(cfg, leases') && Keeps(leases, leases')
      && (reply.Some? ==>
            && reply.value.op == BootReply && reply.value.xid == m.xid
            && (reply.value.kind == Ack || reply.value.kind == Nak))
      && (reply.Some? && reply.value.kind == Ack ==>
            && reply.value.yiaddr != UNSPECIFIED && Owns(leases', reply.value.yiaddr, m.chaddr)
            && TimesOf(cfg, reply.value))
  {
    assert EntryOk(cfg, leases, UNSPECIFIED);
    if m.serverIdentifier == cfg.serverAddress {
      match LeaseByMac(leases, m.chaddr)
      case None =>
      case Some(a) =>
        assert HasMac(leases, a, m.chaddr);
        SameEntry(cfg, leases, a, Grant(leases[a], m, now));
    } else if m.ciaddr == UNSPECIFIED {
      if m.requestedIp in leases { SameEntry(cfg, leases, m.requestedIp, Grant(leases[m.requestedIp], m, now)); }
    } else {
      SameEntry(cfg, leases, m.ciaddr, Grant(leases[m.ciaddr], m, now));
    }
  }

  // ------------------------------------------------------------------ the clients keep it

  ghost function OwnerAfter(owner: map<int, int>, o: Outcome, i: int, x: int): map<int, int> {
    if o.sent.Some? then owner[x := i] else owner
  }

  /** Client i is fine after the event, no error is raised, and what it sends is fine. */
  ghost predicate Good(cfg: Config, leases: Leases, clients: seq<Client>, owner: map<int, int>, i: int, x: int,
          o: Outcome)
    requires 0 <= i < |clients|
  {
    var owner' := OwnerAfter(owner, o, i, x);
    && !o.error && o.client.mac == clients[i].mac
    && ClientOk(cfg, leases, owner', i, o.client, true)
    && (o.sent.Some? ==> MessageOk(cfg, leases, clients, owner', o.sent.value))
  }

  /** The three times in an ACK are in order, strictly from a lease time of 3 s on. */
  lemma TimesInOrder(cfg: Config)
    ensures cfg.leaseTime / 2 <= cfg.leaseTime * 7 / 8 <= cfg.leaseTime
    ensures cfg.leaseTime >= 3 <==> cfg.leaseTime / 2 < cfg.leaseTime * 7 / 8
    ensures cfg.leaseTime >= 1 <==> cfg.leaseTime * 7 / 8 < cfg.leaseTime
  {
  }

  lemma BindGood(cfg: Config, leases: Leases, clients: seq<Client>, owner: map<int, int>, i: int, x: int, m: Message,
          now: Time)
    requires 0 <= i < |clients| && ClientOk(cfg, leases, owner, i, clients[i], true) && clients[i].lease.Some?
    requires m.yiaddr != UNSPECIFIED && TimesOf(cfg, m)
    ensures Good(cfg, leases, clients, owner, i, x, Outcome(Bind(clients[i], m, now), None, false))
  {
    TimesInOrder(cfg);
  }

  lemma RestartGood(cfg: Config, leases: Leases, clients: seq<Client>, owner: map<int, int>, i: int, x: int, c: Client,
          now: Time)
    requires 0 <= i < |clients| && c.mac == clients[i].mac
    requires c.lease.Some? ==> Owns(leases, c.lease.value.ip, c.mac) && c.lease.value.ip != UNSPECIFIED
    requires c.ip != UNSPECIFIED ==> Owns(leases, c.ip, c.mac)
    ensures Good(cfg, leases, clients, owner, i, x, Restart(c, now, x))
  {
  }

  lemma MessageGood(cfg: Config, leases: Leases, clients: seq<Client>, owner: map<int, int>, i: int, x: int, m: Message,
          now: Time)
    requires 0 <= i < |clients| && ClientOk(cfg, leases, owner, i, clients[i], true)
    requires MessageOk(cfg, leases, clients, owner, m)
    ensures Acceptable(clients[i], m) || m.op == BootRequest
    ensures Acceptable(clients[i], m) ==> Good(cfg, leases, clients, owner, i, x, ClientMessage(clients[i], m, now, x))
  {
    var c := clients[i];
    if m.op == BootReply && m.xid == c.xid {
      if m.kind == Ack && c.state in {REQUESTING, RENEWING, REBINDING, REBOOTING} {
        BindGood(cfg, leases, clients, owner, i, x, m, now);
      } else if m.kind == Nak && c.state in {REQUESTING, RENEWING, REBINDING, REBOOTING} {
        RestartGood(cfg, leases, clients, owner, i, x, if c.state == REQUESTING then c else Unbind(c), now);
      }
    }
  }

  lemma TimerGood(cfg: Config, leases: Leases, clients: seq<Client>, owner: map<int, int>, i: int, x: int,
          kind: TimerKind, now: Time)
    requires 0 <= i < |clients| && ClientOk(cfg, leases, owner, i, clients[i], kind != START_DHCP)
    requires kind == START_DHCP ==> Quiet(clients[i]) == clients[i]
    requires kind != START_DHCP ==> TimerOf(clients[i], kind) == Some(now) && NothingBefore(clients[i], now)
    requires kind == T2 ==> clients[i].timerT1 != Some(now)
    ensures Good(cfg, leases, clients, owner, i, x, ClientTimer(clients[i], kind, now, x))
  {
    var c := clients[i];
    match kind
    case TIMEOUT => RestartGood(cfg, leases, clients, owner, i, x, c.(timerTo := None), now);
    case LEASE_TIMEOUT => RestartGood(cfg, leases, clients, owner, i, x, Unbind(c), now);
    case START_DHCP => if c.lease.None? { RestartGood(cfg, leases, clients, owner, i, x, c, now); }
    case _ =>
  }

  // ------------------------------------------------------------------ every step keeps it

  lemma InitialInv(cfg: Config, s: System)
    requires Initial(s)
    ensures Inv(cfg, s)
  {
    forall i | 0 <= i < |s.clients| ensures ClientOk(cfg, s.leases, s.owner, i, s.clients[i], s.up[i]) {
      assert NewClient(s.clients[i]);
    }
  }

  lemma ServeKeeps(cfg: Config, s: System, s': System, m: Message)
    requires ConfigOk(cfg) && Inv(cfg, s) && Next(cfg, s, s', Serve(m))
    ensures Inv(cfg, s') && Keeps(s.leases, s'.leases)
  {
    assert MessageOk(cfg, s.leases, s.clients, s.owner, m);
    if m.op == BootRequest && m.kind == Discover { DiscoverKeeps(cfg, s.leases, m, s.now); }
    if m.op == BootRequest && m.kind == Request { RequestKeeps(cfg, s.leases, m, s.now); }
    assert Keeps(s.leases, s'.leases);
    forall i | 0 <= i < |s'.clients| ensures ClientOk(cfg, s'.leases, s'.owner, i, s'.clients[i], s'.up[i]) {
      assert ClientOk(cfg, s.leases, s.owner, i, s.clients[i], s.up[i]);
    }
    forall k | k in s'.net ensures MessageOk(cfg, s'.leases, s'.clients, s'.owner, k) {
      assert k in s.net ==> MessageOk(cfg, s.leases, s.clients, s.owner, k);
    }
    forall i, j | 0 <= i < |s'.clients| && 0 <= j < |s'.clients| ensures MacsDiffer(s', i, j) {
      assert MacsDiffer(s, i, j);
    }
  }

  /** Whatever can happen at a client, it does not end in an error. */
  lemma EventGood(cfg: Config, s: System, step: Step, i: int, x: int, o: Outcome)
    requires Inv(cfg, s) && ClientEvent(s, step, i, x, o)
    ensures Good(cfg, s.leases, s.clients, s.owner, i, x, o)
  {
    assert ClientOk(cfg, s.leases, s.owner, i, s.clients[i], s.up[i]);
    match step
    case Deliver(_, m, _) =>
      assert MessageOk(cfg, s.leases, s.clients, s.owner, m);
      MessageGood(cfg, s.leases, s.clients, s.owner, i, x, m, s.now);
    case Expire(_, kind, _) => TimerGood(cfg, s.leases, s.clients, s.owner, i, x, kind, s.now);
    case Start(_, _) => TimerGood(cfg, s.leases, s.clients, s.owner, i, x, START_DHCP, s.now);
    case Associate(_, _) => RestartGood(cfg, s.leases, s.clients, s.owner, i, x, Unbind(s.clients[i]), s.now);
  }

  lemma ReactKeeps(cfg: Config, s: System, s': System, i: int, x: int, o: Outcome)
    requires Inv(cfg, s) && Reacts(s, s', i, x, o) && Good(cfg, s.leases, s.clients, s.owner, i, x, o)
    ensures Inv(cfg, s')
  {
    forall j | 0 <= j < |s'.clients| ensures ClientOk(cfg, s'.leases, s'.owner, j, s'.clients[j], s'.up[j]) {
      assert ClientOk(cfg, s.leases, s.owner, j, s.clients[j], s.up[j]);
    }
    forall m | m in s'.net ensures MessageOk(cfg, s'.leases, s'.clients, s'.owner, m) {
      assert m in s.net ==> MessageOk(cfg, s.leases, s.clients, s.owner, m);
    }
    forall j, k | 0 <= j < |s'.clients| && 0 <= k < |s'.clients| ensures MacsDiffer(s', j, k) {
      assert MacsDiffer(s, j, k);
    }
  }

  lemma StopKeeps(cfg: Config, s: System, s': System, i: int)
    requires ConfigOk(cfg) && Inv(cfg, s) && Next(cfg, s, s', Stop(i))
    ensures Inv(cfg, s')
  {
    forall j | 0 <= j < |s'.clients| ensures ClientOk(cfg, s'.leases, s'.owner, j, s'.clients[j], s'.up[j]) {
      assert ClientOk(cfg, s.leases, s.owner, j, s.clients[j], s.up[j]);
    }
    forall m | m in s'.net ensures MessageOk(cfg, s'.leases, s'.clients, s'.owner, m) {
      assert MessageOk(cfg, s.leases, s.clients, s.owner, m);
    }
    forall j, k | 0 <= j < |s'.clients| && 0 <= k < |s'.clients| ensures MacsDiffer(s', j, k) {
      assert MacsDiffer(s, j, k);
    }
  }

  /** The invariant is kept, and entries keep their owner. */
  lemma NextKeeps(cfg: Config, s: System, s': System, step: Step)
    requires ConfigOk(cfg) && Inv(cfg, s) && Next(cfg, s, s', step)
    ensures Inv(cfg, s') && Keeps(s.leases, s'.leases)
  {
    match step
    case Serve(m) => ServeKeeps(cfg, s, s', m);
    case Stop(i) => StopKeeps(cfg, s, s', i);
    case Wait(_) =>
      forall j, k | 0 <= j < |s'.clients| && 0 <= k < |s'.clients| ensures MacsDiffer(s', j, k) {
        assert MacsDiffer(s, j, k);
      }
    case _ =>
      var i, x, o :| ClientEvent(s, step, i, x, o) && Reacts(s, s', i, x, o);
      EventGood(cfg, s, step, i, x, o);
      ReactKeeps(cfg, s, s', i, x, o);
  }

  // ------------------------------------------------------------------ runs

  ghost predicate Goes(cfg: Config, s: System, s': System)
    requires ConfigOk(cfg)
  {
    exists step :: Next(cfg, s, s', step)
  }

  ghost predicate Run(cfg: Config, run: seq<System>)
    requires ConfigOk(cfg)
  {
    run != [] && Initial(run[0]) && forall k :: 0 <= k < |run| - 1 ==> GoesAt(cfg, run, k)
  }

  ghost predicate GoesAt(cfg: Config, run: seq<System>, k: int)
    requires ConfigOk(cfg) && 0 <= k < |run| - 1
  {
    Goes(cfg, run[k], run[k + 1])
  }

  lemma RunStep(cfg: Config, run: seq<System>, k: nat) returns (step: Step)
    requires ConfigOk(cfg) && Run(cfg, run) && k < |run| - 1
    ensures Next(cfg, run[k], run[k + 1], step)
  {
    assert GoesAt(cfg, run, k);
    step :| Next(cfg, run[k], run[k + 1], step);
  }

  lemma {:induction false} RunInv(cfg: Config, run: seq<System>, k: nat)
    requires ConfigOk(cfg) && Run(cfg, run) && k < |run|
    ensures Inv(cfg, run[k])
  {
    if k == 0 {
      InitialInv(cfg, run[0]);
    } else {
      RunInv(cfg, run, k - 1);
      var step := RunStep(cfg, run, k - 1);
      NextKeeps(cfg, run[k - 1], run[k], step);
    }
  }

  /** In every reachable state a configured address is recorded by the server for that client's MAC. */
  lemma ConfiguredIsLeased(cfg: Config, run: seq<System>, k: nat, i: int)
    requires ConfigOk(cfg) && Run(cfg, run) && k < |run| && 0 <= i < |run[k].clients|
    requires run[k].clients[i].ip != UNSPECIFIED
    ensures Owns(run[k].leases, run[k].clients[i].ip, run[k].clients[i].mac)
    ensures InPool(cfg, run[k].clients[i].ip)
  {
    RunInv(cfg, run, k);
    var s := run[k];
    assert ClientOk(cfg, s.leases, s.owner, i, s.clients[i], s.up[i]) && EntryOk(cfg, s.leases, s.clients[i].ip);
  }

  /** No two clients ever have the same address configured. */
  lemma NoSharedAddress(cfg: Config, run: seq<System>, k: nat, i: int, j: int)
    requires ConfigOk(cfg) && Run(cfg, run) && k < |run|
    requires 0 <= i < |run[k].clients| && 0 <= j < |run[k].clients| && i != j
    requires run[k].clients[i].ip != UNSPECIFIED
    ensures run[k].clients[i].ip != run[k].clients[j].ip
  {
    RunInv(cfg, run, k);
    ConfiguredIsLeased(cfg, run, k, i);
    if run[k].clients[j].ip != UNSPECIFIED { ConfiguredIsLeased(cfg, run, k, j); }
    assert MacsDiffer(run[k], i, j);
  }

  /** Each MAC has at most one entry, and every entry is for an address of the pool. */
  lemma OneEntryPerMac(cfg: Config, run: seq<System>, k: nat, a: Address, b: Address)
    requires ConfigOk(cfg) && Run(cfg, run) && k < |run|
    requires a in run[k].leases && b in run[k].leases && run[k].leases[a].mac == run[k].leases[b].mac
    ensures a == b && InPool(cfg, a)
  {
    RunInv(cfg, run, k);
    assert EntryOk(cfg, run[k].leases, a) && OnePerMac(run[k].leases, a, b);
  }

  /** Entries are never lost and never change owner. */
  lemma {:induction false} OwnerForever(cfg: Config, run: seq<System>, k: nat, n: nat, a: Address)
    requires ConfigOk(cfg) && Run(cfg, run) && k <= n < |run| && a in run[k].leases
    ensures Owns(run[n].leases, a, run[k].leases[a].mac)
    decreases n
  {
    if k == n {
    } else {
      OwnerForever(cfg, run, k, n - 1, a);
      RunKeeps(cfg, run, n - 1);
    }
  }

  lemma RunKeeps(cfg: Config, run: seq<System>, k: nat)
    requires ConfigOk(cfg) && Run(cfg, run) && k < |run| - 1
    ensures Keeps(run[k].leases, run[k + 1].leases)
  {
    RunInv(cfg, run, k);
    var step := RunStep(cfg, run, k);
    NextKeeps(cfg, run[k], run[k + 1], step);
  }

  /** "T2 occurred in wrong state" and "invalid client state" are never raised. */
  lemma NoErrors(cfg: Config, run: seq<System>, k: nat, step: Step, i: int, x: int, o: Outcome)
    requires ConfigOk(cfg) && Run(cfg, run) && k < |run|
    requires ClientEvent(run[k], step, i, x, o)
    ensures !o.error
  {
    RunInv(cfg, run, k);
    EventGood(cfg, run[k], step, i, x, o);
  }

  /** A pending T2 means BOUND with T1 pending before it, or RENEWING; and it precedes the lease's end. */
  lemma PendingT2(cfg: Config, run: seq<System>, k: nat, i: int)
    requires ConfigOk(cfg) && Run(cfg, run) && k < |run| && 0 <= i < |run[k].clients|
    requires run[k].clients[i].timerT2.Some? && cfg.leaseTime >= 3
    ensures var c := run[k].clients[i];
      && (c.state == RENEWING || (c.state == BOUND && c.timerT1.Some? && c.timerT1.value < c.timerT2.value))
      && c.leaseTimer.Some? && c.timerT2.value < c.leaseTimer.value
  {
    RunInv(cfg, run, k);
    var s := run[k];
    assert ClientOk(cfg, s.leases, s.owner, i, s.clients[i], s.up[i]);
  }

  /** While an address is configured the end of its lease is being waited for, except in SELECTING and REQUESTING. */
  lemma CoveredExcept(cfg: Config, run: seq<System>, k: nat, i: int)
    requires ConfigOk(cfg) && Run(cfg, run) && k < |run| && 0 <= i < |run[k].clients|
    requires run[k].clients[i].ip != UNSPECIFIED
    ensures var c := run[k].clients[i];
      && i < |run[k].up| && run[k].up[i]
      && (c.leaseTimer.None? <==> c.state == SELECTING || c.state == REQUESTING)
      && (c.leaseTimer.Some? ==> c.lease.Some? && c.lease.value.ip == c.ip)
  {
    RunInv(cfg, run, k);
    var s := run[k];
    assert ClientOk(cfg, s.leases, s.owner, i, s.clients[i], s.up[i]);
  }

  /** An address is configured and the end of its lease is being waited for. */
  ghost predicate Covered(c: Client) {
    c.ip != UNSPECIFIED && c.leaseTimer.Some?
  }

  /** What loses the lease timer but not the address is the response timeout, and nothing else. */
  lemma CoverLostIff(cfg: Config, run: seq<System>, k: nat, step: Step, i: int)
    requires ConfigOk(cfg) && Run(cfg, run) && k + 1 < |run| && Next(cfg, run[k], run[k + 1], step)
    requires 0 <= i < |run[k].clients| && Covered(run[k].clients[i])
    ensures |run[k + 1].clients| == |run[k].clients|
    ensures !Covered(run[k + 1].clients[i]) && run[k + 1].clients[i].ip != UNSPECIFIED
      <==> step.Expire? && step.i == i && step.kind == TIMEOUT
  {
    RunInv(cfg, run, k);
    var s, s' := run[k], run[k + 1];
    assert ClientOk(cfg, s.leases, s.owner, i, s.clients[i], s.up[i]);
    if !step.Serve? && !step.Stop? && !step.Wait? {
      var j, x, o :| ClientEvent(s, step, j, x, o) && Reacts(s, s', j, x, o);
      if j == i { CoverAfter(cfg, s, step, i, x, o); }
    }
  }

  lemma CoverAfter(cfg: Config, s: System, step: Step, i: int, x: int, o: Outcome)
    requires Inv(cfg, s) && ClientEvent(s, step, i, x, o) && Covered(s.clients[i])
    ensures !Covered(o.client) && o.client.ip != UNSPECIFIED <==> step.Expire? && step.kind == TIMEOUT
  {
    assert ClientOk(cfg, s.leases, s.owner, i, s.clients[i], s.up[i]);
    EventGood(cfg, s, step, i, x, o);
  }

  /** No message that may arrive in a reachable state is beyond what the client can handle. */
  lemma AlwaysAcceptable(cfg: Config, run: seq<System>, k: nat, i: int, m: Message)
    requires ConfigOk(cfg) && Run(cfg, run) && k < |run| && 0 <= i < |run[k].clients|
    requires m in run[k].net && m.op == BootReply
    ensures LeaseKnown(run[k].clients[i]) && Acceptable(run[k].clients[i], m)
  {
    RunInv(cfg, run, k);
    var s := run[k];
    assert ClientOk(cfg, s.leases, s.owner, i, s.clients[i], s.up[i])
      && MessageOk(cfg, s.leases, s.clients, s.owner, m);
  }

  /** A DISCOVER costs an owner its entry exactly when it comes from a MAC without an entry and names an
      address that is leased: the reason why the clients' DISCOVERs naming none matters. */
  lemma DiscoverSteals(cfg: Config, leases: Leases, m: Message, now: Time)
    requires ConfigOk(cfg) && TableOk(cfg, leases) && m.kind == Discover && m.op == BootRequest
    ensures !Keeps(leases, ServerStep(cfg, leases, m, now).0)
      <==> (forall a :: !HasMac(leases, a, m.chaddr)) && m.requestedIp != UNSPECIFIED && m.requestedIp in leases
  {
    var leases' := ServerStep(cfg, leases, m, now).0;
    var r := LeaseByMac(leases, m.chaddr);
    if r.Some? {
      assert HasMac(leases, r.value, m.chaddr);
    } else if m.requestedIp == UNSPECIFIED {
      DiscoverKeeps(cfg, leases, m, now);
    } else {
      assert EntryOk(cfg, leases, m.requestedIp);
      if m.requestedIp in leases {
        assert Owns(leases, m.requestedIp, leases[m.requestedIp].mac);
        assert !HasMac(leases, m.requestedIp, m.chaddr);
        assert leases'[m.requestedIp].mac == m.chaddr;
      }
    }
  }
}
