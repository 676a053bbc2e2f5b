/** The DHCP server with its table of leases, changed in place. */
module DhcpServer {
  import opened Dhcp
  import opened Optional

  class DhcpServer {
    const config: Config
    var leased: Leases
    var numReceived: nat

    constructor (config: Config)
      ensures this.config == config && leased == map[] && numReceived == 0
    {
      this.config := config;
      leased := map[];
      numReceived := 0;
    }

    /** Looks through the table in address order. */
    method GetLeaseByMac(mac: Mac) returns (r: Option<Address>)
      ensures r == LeaseByMac(leased, mac)
    {
      var rest := leased.Keys;
      r := None;
      while rest != {}
        invariant rest <= leased.Keys && r == None
        invariant forall a :: a in leased.Keys - rest ==> !HasMac(leased, a, mac)
        decreases |rest|
      {
        ghost var least := LeastExists(rest);
        var a :| a in rest && forall b :: b in rest ==> a <= b;
        if leased[a].mac == mac {
          assert forall b :: HasMac(leased, b, mac) ==> b in rest;
          FirstIsUnique(leased, mac, Some(a), LeaseByMac(leased, mac));
          return Some(a);
        }
        rest := rest - {a};
      }
      FirstIsUnique(leased, mac, None, LeaseByMac(leased, mac));
    }

    /** The entry for a requested address, or the first free one of the pool, made if it is missing. */
    method GetAvailableLease(requestedAddress: Address) returns (r: Option<Address>)
      modifies this`leased
      ensures (leased, r) == AvailableLease(config, old(leased), requestedAddress)
      ensures r.Some? ==> r.value in leased
    {
      if requestedAddress != UNSPECIFIED {
        if requestedAddress in leased && !leased[requestedAddress].leased {
          return Some(requestedAddress);
        }
        leased := leased[requestedAddress := NewEntry(requestedAddress)];
        return Some(requestedAddress);
      }
      var i := 0;
      while i < config.maxNumOfClients
        invariant 0 <= i <= config.maxNumOfClients && leased == old(leased)
        invariant FirstFree(config, leased, i) == FirstFree(config, leased, 0)
      {
        var ip := config.ipAddressStart + i;
        if ip in leased {
          if !leased[ip].leased {
            return Some(ip);
          }
        } else {
          leased := leased[ip := NewEntry(ip)];
          return Some(ip);
        }
        i := i + 1;
      }
      return None;
    }

    method SendOffer(a: Address, now: Time) returns (reply: Option<Message>)
      requires a in leased
      modifies this`leased
      ensures leased == old(leased)[a := old(leased)[a].(leaseTime := now)]
      ensures reply == Some(Reply(config, Offer, leased[a], UNSPECIFIED))
    {
      leased := leased[a := leased[a].(leaseTime := now)];
      reply := Some(Reply(config, Offer, leased[a], UNSPECIFIED));
    }

    /** Grants the lease a to the sender of m and confirms it. */
    method SendAck(a: Address, m: Message, now: Time) returns (reply: Option<Message>)
      requires a in leased
      modifies this`leased
      ensures leased == old(leased)[a := Grant(old(leased)[a], m, now)]
      ensures reply == Some(Reply(config, Ack, leased[a], leased[a].ip))
    {
      leased := leased[a := leased[a].(xid := m.xid)];
      leased := leased[a := leased[a].(leased := true)];
      leased := leased[a := leased[a].(leaseTime := now)];
      reply := Some(Reply(config, Ack, leased[a], leased[a].ip));
    }

    method HandleDiscover(m: Message, now: Time) returns (reply: Option<Message>)
      modifies this`leased
      ensures (leased, reply) == ServerDiscover(config, old(leased), m, now)
    {
      ghost var table := leased;
      var lease := GetLeaseByMac(m.chaddr);
      if lease == None {
        lease := GetAvailableLease(m.requestedIp);
        if lease == None {
          return None;
        }
        var a := lease.value;
        table := leased;
        leased := leased[a := leased[a].(mac := m.chaddr)];
        leased := leased[a := leased[a].(xid := m.xid)];
        leased := leased[a := leased[a].(leased := true)];
      } else {
        leased := leased[lease.value := leased[lease.value].(xid := m.xid)];
      }
      reply := SendOffer(lease.value, now);
      assert leased == table[lease.value := leased[lease.value]];
    }

    method HandleRequest(m: Message, now: Time) returns (reply: Option<Message>)
      requires ConfigOk(config)
      modifies this`leased
      ensures (leased, reply) == ServerRequest(config, old(leased), m, now)
    {
      if m.serverIdentifier == config.serverAddress {
        var lease := GetLeaseByMac(m.chaddr);
        if lease == None || leased[lease.value].ip != m.requestedIp {
          return Some(NakTo(config, m));
        }
        reply := SendAck(lease.value, m, now);
      } else if m.ciaddr == UNSPECIFIED {
        if m.requestedIp !in leased {
          return None;
        }
        if !SameNetwork(config, m.requestedIp, leased[m.requestedIp].ip) {
          return Some(NakTo(config, m));
        }
        reply := SendAck(m.requestedIp, m, now);
      } else if m.ciaddr in leased {
        reply := SendAck(m.ciaddr, m, now);
      } else {
        reply := Some(NakTo(config, m));
      }
    }

    method ProcessDhcpMessage(m: Message, now: Time) returns (reply: Option<Message>)
      requires ConfigOk(config)
      modifies this`leased, this`numReceived
      ensures (leased, reply) == ServerStep(config, old(leased), m, now)
      ensures numReceived == old(numReceived) + 1
    {
      reply := None;
      if m.op == BootRequest {
        if m.kind == Discover {
          reply := HandleDiscover(m, now);
        } else if m.kind == Request {
          reply := HandleRequest(m, now);
        }
      }
      numReceived := numReceived + 1;
    }
  }

  lemma FirstIsUnique(leases: Leases, mac: Mac, r: Option<Address>, r': Option<Address>)
    requires FirstWithMac(leases, mac, r) && FirstWithMac(leases, mac, r')
    ensures r == r'
  {
    if r.Some? { assert HasMac(leases, r.value, mac); }
    if r'.Some? { assert HasMac(leases, r'.value, mac); }
  }
}
