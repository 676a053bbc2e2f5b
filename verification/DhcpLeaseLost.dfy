/** A run at whose end a client has an address configured and no timer for the end of its lease. */
module DhcpLeaseLost {
  import opened Dhcp
  import opened DhcpProtocol
  import opened Optional

  /** One address to give away, for 8 s: T1 is at 4 s, T2 at 7 s. */
  const CONFIG: Config := Config(1, 10, 1, 8, 256)

  const MAC: Mac := 7

  const ADDRESS: Address := 10

  lemma Extended(run: seq<System>, s: System, step: Step) returns (longer: seq<System>)
    requires Run(CONFIG, run) && Next(CONFIG, run[|run| - 1], s, step)
    ensures longer == run + [s] && Run(CONFIG, longer)
  {
    longer := run + [s];
    forall k | 0 <= k < |longer| - 1 ensures GoesAt(CONFIG, longer, k) {
      if k < |run| - 1 { assert GoesAt(CONFIG, run, k); }
    }
  }

  lemma ClientActs(run: seq<System>, step: Step, x: int, o: Outcome) returns (longer: seq<System>)
    requires Run(CONFIG, run)
    requires var s := run[|run| - 1]; x !in s.owner && ClientEvent(s, step, 0, x, o)
    requires step.Deliver? || step.Expire? || step.Start?
    ensures Run(CONFIG, longer) && |longer| > 1
    ensures Reacts(run[|run| - 1], longer[|longer| - 1], 0, x, o)
  {
    var s := run[|run| - 1];
    var s' := s.(clients := s.clients[0 := o.client], up := s.up[0 := true],
                 net := if o.sent.Some? then s.net + {o.sent.value} else s.net,
                 owner := if o.sent.Some? then s.owner[x := 0] else s.owner);
    assert Reacts(s, s', 0, x, o);
    longer := Extended(run, s', step);
  }

  lemma ServerAnswers(run: seq<System>, m: Message) returns (longer: seq<System>)
    requires Run(CONFIG, run) && m in run[|run| - 1].net
    ensures Run(CONFIG, longer)
    ensures var s := run[|run| - 1];
      var (leases, reply) := ServerStep(CONFIG, s.leases, m, s.now);
      longer[|longer| - 1] == s.(leases := leases, net := if reply.Some? then s.net + {reply.value} else s.net)
  {
    var s := run[|run| - 1];
    var (leases, reply) := ServerStep(CONFIG, s.leases, m, s.now);
    longer := Extended(run, s.(leases := leases, net := if reply.Some? then s.net + {reply.value} else s.net),
        Serve(m));
  }

  /** The client asks for an address and is offered one. */
  lemma Offering() returns (run: seq<System>, offer: Message)
    ensures Run(CONFIG, run)
    ensures var s := run[|run| - 1];
      && s.clients == [Client(SELECTING, MAC, 100, None, UNSPECIFIED, None, None, Some(1), None, 1)]
      && s.up == [true] && s.owner == map[100 := 0] && s.now == 0 && offer in s.net
      && offer == Message(BootReply, Offer, 100, UNSPECIFIED, ADDRESS, MAC, UNSPECIFIED, 1, 8, 4, 7)
      && s.leases == map[ADDRESS := Entry(ADDRESS, MAC, 100, 0, true)]
  {
    var c := Client(IDLE, MAC, 0, None, UNSPECIFIED, None, None, None, None, 1);
    run := [System(map[], [c], [false], {}, map[], 0)];
    var o := ClientTimer(c, START_DHCP, 0, 100);
    run := ClientActs(run, Start(0, 100), 100, o);
    var s := run[|run| - 1];
    assert FirstWithMac(s.leases, MAC, LeaseByMac(s.leases, MAC));
    assert FirstFree(CONFIG, s.leases, 0) == Some(ADDRESS);
    run := ServerAnswers(run, o.sent.value);
    offer := Message(BootReply, Offer, 100, UNSPECIFIED, ADDRESS, MAC, UNSPECIFIED, 1, 8, 4, 7);
  }

  /** The client takes it and is told that it may. */
  lemma Granting() returns (run: seq<System>, ack: Message)
    ensures Run(CONFIG, run)
    ensures var s := run[|run| - 1];
      && s.clients == [Client(REQUESTING, MAC, 101, Some(Lease(ADDRESS, MAC, 1, 0, 0, 0)), UNSPECIFIED,
                              None, None, Some(1), None, 1)]
      && s.up == [true] && s.owner == map[100 := 0, 101 := 0] && s.now == 0 && ack in s.net
      && ack == Message(BootReply, Ack, 101, ADDRESS, ADDRESS, MAC, UNSPECIFIED, 1, 8, 4, 7)
      && s.leases == map[ADDRESS := Entry(ADDRESS, MAC, 101, 0, true)]
  {
    var offer;
    run, offer := Offering();
    var o := ClientMessage(run[|run| - 1].clients[0], offer, 0, 101);
    run := ClientActs(run, Deliver(0, offer, 101), 101, o);
    var s := run[|run| - 1];
    assert HasMac(s.leases, ADDRESS, MAC);
    assert FirstWithMac(s.leases, MAC, LeaseByMac(s.leases, MAC));
    run := ServerAnswers(run, o.sent.value);
    ack := Message(BootReply, Ack, 101, ADDRESS, ADDRESS, MAC, UNSPECIFIED, 1, 8, 4, 7);
  }

  /** It has the address, until T1 makes it ask again. */
  lemma Renewing() returns (run: seq<System>)
    ensures Run(CONFIG, run)
    ensures var s := run[|run| - 1];
      && s.clients == [Client(RENEWING, MAC, 103, Some(Lease(ADDRESS, MAC, 1, 8, 4, 7)), ADDRESS,
                              None, Some(7), Some(5), Some(8), 1)]
      && s.up == [true] && s.owner == map[100 := 0, 101 := 0, 103 := 0] && s.now == 4
      && s.leases == map[ADDRESS := Entry(ADDRESS, MAC, 101, 0, true)]
  {
    var ack;
    run, ack := Granting();
    var o := ClientMessage(run[|run| - 1].clients[0], ack, 0, 102);
    run := ClientActs(run, Deliver(0, ack, 102), 102, o);
    run := Extended(run, run[|run| - 1].(now := 4), Wait(4));
    o := ClientTimer(run[|run| - 1].clients[0], T1, 4, 103);
    run := ClientActs(run, Expire(0, T1, 103), 103, o);
  }

  /** No answer comes in time: the client starts again with the address configured and nothing to end it. */
  lemma LeaseTimerLost() returns (run: seq<System>)
    ensures Run(CONFIG, run) && |run[|run| - 1].clients| == 1
    ensures var c := run[|run| - 1].clients[0];
      c.ip == ADDRESS && c.state == SELECTING && c.leaseTimer.None? && c.timerT1.None? && c.timerT2.None?
  {
    run := Renewing();
    run := Extended(run, run[|run| - 1].(now := 5), Wait(5));
    var o := ClientTimer(run[|run| - 1].clients[0], TIMEOUT, 5, 104);
    run := ClientActs(run, Expire(0, TIMEOUT, 104), 104, o);
  }
}
