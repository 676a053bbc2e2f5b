/** The DHCP client: its state, the lease on record, the configured address and its timers. */
module DhcpClient {
  import opened Dhcp
  import opened Optional

  class DhcpClient {
    const macAddress: Mac
    const responseTimeout: nat
    var clientState: ClientState
    var xid: int
    var lease: Option<Lease>
    var ipAddress: Address
    var timerT1: Option<Time>
    var timerT2: Option<Time>
    var timerTo: Option<Time>
    var leaseTimer: Option<Time>

    constructor (mac: Mac, responseTimeout: nat)
      ensures Value() == Client(IDLE, mac, 0, None, UNSPECIFIED, None, None, None, None, responseTimeout)
    {
      macAddress, this.responseTimeout := mac, responseTimeout;
      clientState, xid, lease, ipAddress := IDLE, 0, None, UNSPECIFIED;
      timerT1, timerT2, timerTo, leaseTimer := None, None, None, None;
    }

    ghost function Value(): Client
      reads this
    {
      Client(clientState, macAddress, xid, lease, ipAddress, timerT1, timerT2, timerTo, leaseTimer, responseTimeout)
    }

    // The number drawn for a transmission and the current time are parameters.

    method CancelAll()
      modifies this`timerT1, this`timerT2, this`timerTo, this`leaseTimer
      ensures Value() == Quiet(old(Value()))
    {
      timerT1, timerT2, timerTo, leaseTimer := None, None, None, None;
    }

    method SendDiscover(x: int) returns (sent: Option<Message>)
      modifies this`xid
      ensures Value() == old(Value()).(xid := x) && sent == Some(DiscoverFrom(Value()))
    {
      xid := x;
      sent := Some(Message(BootRequest, Discover, xid, UNSPECIFIED, UNSPECIFIED, macAddress, UNSPECIFIED, UNSPECIFIED,
          0, 0, 0));
    }

    method SendRequest(x: int) returns (sent: Option<Message>)
      requires lease.Some? && clientState in {INIT_REBOOT, REQUESTING, RENEWING, REBINDING}
      modifies this`xid
      ensures Value() == old(Value()).(xid := x) && sent == Some(RequestFrom(Value()))
    {
      xid := x;
      var ciaddr, requestedIp, serverId := UNSPECIFIED, UNSPECIFIED, UNSPECIFIED;
      if clientState == INIT_REBOOT {
        requestedIp := lease.value.ip;
      } else if clientState == REQUESTING {
        serverId := lease.value.serverId;
        requestedIp := lease.value.ip;
      } else {
        ciaddr := lease.value.ip;
      }
      sent := Some(Message(BootRequest, Request, xid, ciaddr, UNSPECIFIED, macAddress, requestedIp, serverId, 0, 0, 0));
    }

    method ScheduleTimerTO(now: Time)
      modifies this`timerTo
      ensures Value() == old(Value()).(timerTo := Some(now + responseTimeout))
    {
      timerTo := Some(now + responseTimeout);
    }

    method InitClient(now: Time, x: int) returns (sent: Option<Message>)
      modifies this
      ensures Outcome(Value(), sent, false) == Restart(old(Value()), now, x)
    {
      CancelAll();
      sent := SendDiscover(x);
      ScheduleTimerTO(now);
      clientState := SELECTING;
    }

    method InitRebootedClient(now: Time, x: int) returns (sent: Option<Message>)
      requires lease.Some? && clientState == INIT_REBOOT
      modifies this
      ensures Value() == Ask(old(Value()), INIT_REBOOT, now, x).client.(state := REBOOTING)
      ensures sent == Ask(old(Value()), INIT_REBOOT, now, x).sent
    {
      sent := SendRequest(x);
      ScheduleTimerTO(now);
      clientState := REBOOTING;
    }

    method RecordOffer(m: Message)
      modifies this`lease
      ensures Value() == Offered(old(Value()), m)
    {
      if m.yiaddr != UNSPECIFIED {
        lease := Some(Lease(m.yiaddr, macAddress, m.serverIdentifier, 0, 0, 0));
      }
    }

    method RecordLease(m: Message)
      requires lease.Some?
      modifies this`lease
      ensures Value() == Record(old(Value()), m)
    {
      if m.yiaddr != UNSPECIFIED {
        lease := Some(lease.value.(leaseTime := m.leaseTime));
        lease := Some(lease.value.(renewalTime := m.renewalTime));
        lease := Some(lease.value.(rebindTime := m.rebindTime));
      }
    }

    method BindLease(now: Time)
      requires lease.Some?
      modifies this`ipAddress, this`leaseTimer
      ensures Value() == old(Value()).(ip := lease.value.ip, leaseTimer := Some(now + lease.value.leaseTime))
    {
      ipAddress := lease.value.ip;
      leaseTimer := Some(now + lease.value.leaseTime);
    }

    method UnbindLease()
      modifies this`timerT1, this`timerT2, this`timerTo, this`leaseTimer, this`ipAddress
      ensures Value() == Unbind(old(Value()))
    {
      CancelAll();
      ipAddress := UNSPECIFIED;
    }

    /** Records and binds the confirmed lease; the caller then enters BOUND. */
    method HandleDhcpAck(m: Message, now: Time)
      requires lease.Some?
      modifies this
      ensures Value().(state := BOUND) == Bind(old(Value()), m, now)
    {
      RecordLease(m);
      timerTo := None;
      timerT1 := Some(now + lease.value.renewalTime);
      timerT2 := Some(now + lease.value.rebindTime);
      BindLease(now);
    }

    method HandleTimer(kind: TimerKind, now: Time, x: int) returns (sent: Option<Message>, error: bool)
      requires LeaseKnown(Value()) && (kind == T1 ==> timerT1.Some?)
      modifies this
      ensures Outcome(Value(), sent, error) == ClientTimer(old(Value()), kind, now, x)
    {
      sent, error := None, false;
      match kind
      case START_DHCP =>
        if lease.Some? {
          clientState := INIT_REBOOT;
          sent := InitRebootedClient(now, x);
        } else {
          clientState := INIT;
          sent := InitClient(now, x);
        }
      case TIMEOUT =>
        timerTo := None;
        sent := InitClient(now, x);
      case T1 =>
        timerT1 := None;
        clientState := RENEWING;
        ScheduleTimerTO(now);
        sent := SendRequest(x);
      case T2 =>
        timerT2 := None;
        if clientState == RENEWING {
          clientState := REBINDING;
          timerT1 := None;
          timerTo := None;
          sent := SendRequest(x);
          ScheduleTimerTO(now);
        } else {
          error := true;
        }
      case LEASE_TIMEOUT =>
        leaseTimer := None;
        UnbindLease();
        clientState := INIT;
        sent := InitClient(now, x);
    }

    method HandleDhcpMessage(m: Message, now: Time, x: int) returns (sent: Option<Message>, error: bool)
      requires LeaseKnown(Value()) && Acceptable(Value(), m)
      modifies this
      ensures Outcome(Value(), sent, error) == ClientMessage(old(Value()), m, now, x)
    {
      sent, error := None, false;
      if m.op != BootReply || m.xid != xid {
        return;
      }
      match clientState
      case INIT =>
      case SELECTING =>
        if m.kind == Offer {
          ScheduleTimerTO(now);
          clientState := REQUESTING;
          RecordOffer(m);
          sent := SendRequest(x);
        }
      case REQUESTING =>
        if m.kind == Ack {
          HandleDhcpAck(m, now);
          clientState := BOUND;
        } else if m.kind == Nak {
          sent := InitClient(now, x);
        }
      case BOUND =>
      case RENEWING | REBINDING | REBOOTING =>
        if m.kind == Ack {
          HandleDhcpAck(m, now);
          clientState := BOUND;
        } else if m.kind == Nak {
          UnbindLease();
          sent := InitClient(now, x);
        }
      case _ => error := true;
    }
  }
}
