/** The member as the code keeps it: fields changed by timer and network callbacks. */
module FaultToleranceMember {
  import opened Common
  import opened FaultTolerance

  /** A packet read from the socket; one that is empty or cannot be parsed is passed over. */
  datatype Packet = Parsed(h: Heartbeat) | Unreadable

  function HeartbeatsOf(packets: seq<Packet>): seq<Heartbeat> {
    if packets == [] then []
    else
      var last := packets[|packets| - 1];
      HeartbeatsOf(packets[..|packets| - 1]) + if last.Parsed? then [last.h] else []
  }

  /** One packet more. */
  lemma OnePacketMore(m: Member, packets: seq<Packet>, n: nat)
    requires n < |packets|
    ensures var hs := HeartbeatsOf(packets[..n]);
      && (packets[n].Parsed? ==>
        && HeartbeatsOf(packets[..n + 1]) == hs + [packets[n].h]
        && Drained(m, hs + [packets[n].h]) == Heard(Drained(m, hs), packets[n].h)
        && (FoundHeartbeat(m, hs + [packets[n].h]) <==> FoundHeartbeat(m, hs) || Defers(Drained(m, hs), packets[n].h)))
      && (packets[n].Unreadable? ==> HeartbeatsOf(packets[..n + 1]) == hs)
  {
    var hs := HeartbeatsOf(packets[..n]);
    assert packets[..n + 1][..n] == packets[..n] && packets[..n + 1][n] == packets[n];
    if packets[n].Parsed? {
      assert (hs + [packets[n].h])[..|hs|] == hs;
    } else {
      assert hs + [] == hs;
    }
  }

  class FtMember {
    const group: string
    const weight: U32
    const pid: int
    /** Over the message bridge, heartbeats come one by one and there is no socket to read. */
    const bridge: bool
    const window: nat
    var ip: U32
    var state: FtState
    var incarnation: U32
    var next: U32
    var timer: bool
    var started: bool
    var tick: nat
    /** The counter that is shared by the timeout and the heartbeat code. */
    var found: nat
    /** Packets that wait in the receive buffer. */
    var buffer: seq<Packet>
    /** Heartbeats sent, and states reported to the application, so far. */
    var sent: seq<Heartbeat>
    var reported: seq<FtState>

    function Abs(): Member
      reads this
    {
      Member(bridge, group, weight, ip, pid, state, incarnation, next, timer, started)
    }

    /** What a timeout can read. */
    function Pending(): seq<Packet>
      reads this
    {
      if bridge then [] else buffer
    }

    constructor (bridge: bool, group: string, weight: U32, pid: int)
      ensures Abs() == New(bridge, group, weight, pid) && sent == [] && reported == []
      ensures this.bridge == bridge && buffer == []
      ensures window == 20
      ensures this.group == group && this.weight == weight && this.pid == pid
      ensures state == Unknown && incarnation == 0 && next == 0 && ip == 0 && !timer && !started
    {
      this.bridge, this.group, this.weight, this.pid, window := bridge, group, weight, pid, 20;
      ip, state, incarnation, next, timer, started, tick := 0, Unknown, 0, 0, false, false, 0;
      found, buffer, sent, reported := 0, [], [], [];
    }

    method Activate(address: U32)
      requires !started
      modifies this`ip, this`next, this`tick, this`timer, this`started
      ensures Abs() == Handled(old(Abs()), Input.Activate(address)).m
      ensures ip == address && next == 1 && timer && started
    {
      ip := address;
      next := 1;
      tick := 0;
      StartTimeoutTimer();
      started := true;
    }

    method StartTimeoutTimer()
      modifies this`timer
      ensures timer
    {
      if timer {
        ResetTimeoutTimer();
      } else {
        timer := true;
      }
    }

    method StopTimeoutTimer()
      modifies this`timer
      ensures !timer
    {
      if timer {
        timer := false;
      }
    }

    /** Starts the countdown again; the time itself is not modelled. */
    method ResetTimeoutTimer()
      ensures Abs() == old(Abs())
    {
    }

    method SendHeartbeat()
      modifies this`sent
      ensures sent == old(sent) + [Beat(Abs())]
    {
      var primary := if bridge then incarnation else Code(state);
      sent := sent + [Heartbeat(group, Credentials(weight, incarnation, ip, pid), primary)];
    }

    method InvokeStateChange(s: FtState)
      modifies this`incarnation, this`timer, this`state, this`sent, this`reported
      ensures Abs() == Changed(old(Abs()), s).m && sent == old(sent) + Changed(old(Abs()), s).sent
      ensures reported == old(reported) + if old(state) == s then [] else [s]
    {
      if state == s {
        return;
      }
      match s {
        case Active =>
          incarnation := next;
          SendHeartbeat();
          StopTimeoutTimer();
        case Standby | Unknown =>
          StartTimeoutTimer();
      }
      state := s;
      reported := reported + [s];
    }

    method CheckState(s: FtState)
      modifies this`incarnation, this`timer, this`state, this`sent, this`reported
      ensures Abs() == Changed(old(Abs()), s).m && sent == old(sent) + Changed(old(Abs()), s).sent
      ensures reported == old(reported) + if old(state) == s then [] else [s]
    {
      match (s, state)
      case (Standby, Standby) | (Active, Active) | (Unknown, Unknown) =>
      case _ =>
        InvokeStateChange(s);
    }

    /** 0 when the heartbeat's credentials are better than the member's own. */
    method BetterCredentials(c: Credentials) returns (r: int)
      ensures r == 0 || r == -1
      ensures r == 0 <==> Before(Ranks(Cred(Abs())), Ranks(c))
    {
      LessIsDictionaryOrder(Cred(Abs()), c);
      if c.weight > weight {
        return 0;
      } else if c.weight == weight && c.incarnation > incarnation {
        return 0;
      } else if c.weight == weight && c.incarnation == incarnation && c.ip > ip {
        return 0;
      } else if c.weight == weight && c.incarnation == incarnation && c.ip == ip && c.pid > pid {
        return 0;
      }
      return -1;
    }

    method CheckHeartbeat(h: Heartbeat)
      modifies this`next, this`incarnation, this`timer, this`state, this`sent, this`reported, this`found
      ensures Abs() == Handled(old(Abs()), Receive(h)).m && sent == old(sent)
      ensures found == old(found) + if Defers(old(Abs()), h) then 1 else 0
    {
      if h.group != group {
        return;
      }
      if h.cred.pid == pid && h.cred.ip == ip {
        return;
      }
      LessIsDictionaryOrder(Cred(Abs()), h.cred);
      var better := BetterCredentials(h.cred);
      if better == 0 {
        if h.cred.incarnation >= next {
          next := (h.cred.incarnation + 1) % 0x1_0000_0000;
        }
        CheckState(Standby);
        ResetTimeoutTimer();
        found := found + 1;
      }
    }

    /** 0 when something was read, even if it could not be parsed. */
    method ReceiveHeartbeat() returns (r: int)
      modifies this`next, this`incarnation, this`timer, this`state, this`sent, this`reported, this`found, this`buffer
      ensures sent == old(sent) && (r == 0 <==> old(Pending()) != [])
      ensures if r == 0
        then
          && buffer == old(buffer)[1..]
          && (old(buffer)[0].Parsed? ==>
            && Abs() == Heard(old(Abs()), old(buffer)[0].h)
            && found == old(found) + if Defers(old(Abs()), old(buffer)[0].h) then 1 else 0)
          && (old(buffer)[0].Unreadable? ==> Abs() == old(Abs()) && found == old(found))
        else buffer == old(buffer) && Abs() == old(Abs()) && found == old(found)
    {
      if bridge || buffer == [] {
        return -1;
      }
      var packet := buffer[0];
      buffer := buffer[1..];
      if packet.Unreadable? {
        return 0;
      }
      CheckHeartbeat(packet.h);
      return 0;
    }

    method HeartbeatTimerCb()
      modifies this`tick, this`sent
      ensures Abs() == Handled(old(Abs()), Tick).m && sent == old(sent) + Handled(old(Abs()), Tick).sent
      ensures Abs() == old(Abs()) && |sent| == |old(sent)| + 1 && tick == old(tick) + 1
    {
      tick := tick + 1;
      SendHeartbeat();
    }

    /** The socket is read until it is empty; with no heartbeat to defer to, the member goes active. */
    method TimeoutTimerCb()
      modifies this
      ensures var o := Handled(old(Abs()), Expire(HeartbeatsOf(old(Pending()))));
        Abs() == o.m && sent == old(sent) + o.sent
      ensures Pending() == []
    {
      found := 0;
      ghost var all := Pending();
      ghost var n: nat := 0;
      hide Drained;
      hide FoundHeartbeat;
      hide HeartbeatsOf;
      hide Heard;
      hide Defers;
      hide Changed;
      hide Handled;
      ExpiredIs(Abs(), HeartbeatsOf(all));
      NoneYet(Abs());
      assert all[..0] == [];
      var r := ReceiveHeartbeat();
      if r == 0 {
        OnePacketMore(old(Abs()), all, 0);
        n := 1;
      }
      while r == 0
        invariant n <= |all| && Pending() == all[n..] && (r == 0 || n == |all|)
        invariant Abs() == Drained(old(Abs()), HeartbeatsOf(all[..n])) && sent == old(sent)
        invariant found == 0 <==> !FoundHeartbeat(old(Abs()), HeartbeatsOf(all[..n]))
        decreases |all| - n, r == 0
      {
        if n < |all| {
          OnePacketMore(old(Abs()), all, n);
        }
        r := ReceiveHeartbeat();
        if r == 0 {
          n := n + 1;
        }
      }
      assert all[..n] == all;
      if found == 0 {
        CheckState(Active);
      }
    }

    lemma ExpiredIs(m: Member, buffer: seq<Heartbeat>)
      ensures Handled(m, Expire(buffer)) ==
        if FoundHeartbeat(m, buffer) then Outcome(Drained(m, buffer), []) else Changed(Drained(m, buffer), Active)
    {
    }

    lemma NoneYet(m: Member)
      ensures HeartbeatsOf([]) == [] && Drained(m, []) == m && !FoundHeartbeat(m, [])
    {
    }

    /** The socket has something to read: at most `window` packets are taken. */
    method IoCallback()
      modifies this
      ensures var n := if |old(Pending())| < window then |old(Pending())| else window;
        Abs() == Drained(old(Abs()), HeartbeatsOf(old(Pending())[..n])) && Pending() == old(Pending())[n..]
      ensures sent == old(sent)
    {
      ghost var all := Pending();
      hide Drained;
      hide HeartbeatsOf;
      hide Heard;
      NoneYet(Abs());
      assert all[..0] == [];
      var i, r := 0, 0;
      while i < window && r == 0
        invariant 0 <= i <= window && i <= |all| && sent == old(sent)
        invariant Pending() == all[i..] && Abs() == Drained(old(Abs()), HeartbeatsOf(all[..i]))
        invariant r != 0 ==> i == |all|
        decreases window - i, r == 0
      {
        if i < |all| {
          OnePacketMore(old(Abs()), all, i);
        }
        r := ReceiveHeartbeat();
        if r == 0 {
          i := i + 1;
        }
      }
    }
  }
}
