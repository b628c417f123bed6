/**
 The session as the engine runs it: fields updated in place, loops over the
 reorder buffer and the send window. Each method is proved to do what the
 function of `SessionSpec` says, and never to break `Valid`.
 */
module Session {
  import opened Words
  import opened Codec
  import opened Options
  import opened SessionSpec
  import opened SessionFacts

  class PTCPSession {
    var sent: u32
    var recv: u32
    var count: u32
    var id: u32
    var rmid: u32
    var pending: map<u32, Packet>
    var gapPackets: nat
    var gapSince: Option<nat>
    var lastProgress: nat
    var sentWindow: seq<Tracked>
    var allowGapSkip: bool

    ghost function State(): SessionState
      reads this
    {
      SessionState(sent, recv, count, id, rmid, pending, gapPackets, gapSince, lastProgress, sentWindow, allowGapSkip)
    }

    ghost predicate Valid()
      reads this
    {
      Consistent(State())
    }

    /** Adopt an authenticated session at its current counters. */
    constructor FromState(sent: u32, recv: u32, count: u32, id: u32, rmid: u32, now: nat)
      ensures Valid()
      ensures State() == SessionState(sent, recv, count, id, rmid, map[], 0, None, now, [], true)
    {
      this.sent, this.recv, this.count, this.id, this.rmid := sent, recv, count, id, rmid;
      pending := map[];
      gapPackets, gapSince := 0, None;
      lastProgress := now;
      sentWindow := [];
      allowGapSkip := true;
    }

    method SetAllowGapSkip(allow: bool)
      requires Valid()
      modifies this`allowGapSkip
      ensures Valid() && allowGapSkip == allow
    {
      allowGapSkip := allow;
    }

    method Send(body: Body, now: nat) returns (packet: Packet)
      requires Valid()
      modifies this
      ensures Valid()
      ensures packet == NextPacket(old(State()), body)
      ensures State() == Sent(old(State()), body, now)
    {
      hide Len, Low32, Consistent;
      ghost var before := State();
      var pid := if body.Sync? then 0x0002FFFF else WrapSub(0x0000FFFF, count);
      packet := Packet(sent, recv, pid, id, rmid, body);
      sent := Low32(sent + Len(body));
      id := Low32(id + 1);
      count := Low32(count + if body.Sync? || body.Empty? then 0 else 1);
      if Len(body) > 0 {
        if |sentWindow| >= MAX_SENT_WINDOW {
          sentWindow := sentWindow[1..];
        }
        sentWindow := sentWindow + [Tracked(packet, now, 0)];
      }
      SentConsistent(before, body, now);
    }

    method AcknowledgeSent(remoteRecv: u32)
      modifies this`sentWindow
      ensures sentWindow == Acknowledged(old(sentWindow), remoteRecv)
    {
      while |sentWindow| > 0
        invariant Acknowledged(sentWindow, remoteRecv) == Acknowledged(old(sentWindow), remoteRecv)
        decreases |sentWindow|
      {
        var packet := sentWindow[0].packet;
        var end := Low32(packet.sent + Len(packet.body));
        if end == remoteRecv || SequenceAfter(remoteRecv, end) {
          sentWindow := sentWindow[1..];
        } else {
          break;
        }
      }
    }

    /** The loop of `drain_contiguous`: take what starts at the receive offset. */
    method TakeContiguous() returns (ready: seq<Packet>)
      modifies this`recv, this`pending
      ensures Drain(ready, recv, pending) == DrainRun(old(recv), old(pending))
    {
      hide Len, Low32, DrainRun;
      ghost var whole := DrainRun(recv, pending);
      ready := [];
      while recv in pending
        invariant var left := DrainRun(recv, pending);
          whole == Drain(ready + left.ready, left.recv, left.pending)
        decreases |pending|
      {
        var packet := pending[recv];
        DrainRunStep(ready, recv, pending);
        pending := pending - {recv};
        recv := Low32(recv + Len(packet.body));
        ready := ready + [packet];
      }
      DrainRunEnds(recv, pending);
    }

    method DrainContiguous(now: nat) returns (ready: seq<Packet>)
      modifies this`recv, this`pending, this`lastProgress, this`gapPackets, this`gapSince
      ensures State() == Drained(old(State()), now).0
      ensures ready == Drained(old(State()), now).1
    {
      ready := TakeContiguous();
      if ready != [] {
        lastProgress := now;
      }
      if pending == map[] {
        gapPackets := 0;
        gapSince := None;
      } else {
        gapPackets := 1;
      }
    }

    method NearestPending() returns (next: Option<u32>)
      ensures next.Some? ==> IsNearest(next.value, recv, pending)
      ensures next.None? ==> forall k :: k in pending ==> !SequenceAfter(k, recv)
    {
      next := None;
      var todo := pending.Keys;
      while todo != {}
        invariant todo <= pending.Keys
        invariant next.None? ==> forall k :: k in pending && k !in todo ==> !SequenceAfter(k, recv)
        invariant next.Some? ==>
          && next.value in pending && next.value !in todo && SequenceAfter(next.value, recv)
          && forall k :: k in pending && k !in todo && SequenceAfter(k, recv) ==>
               WrapSub(next.value, recv) <= WrapSub(k, recv)
        decreases |todo|
      {
        var start :| start in todo;
        todo := todo - {start};
        if SequenceAfter(start, recv)
          && (next.None? || WrapSub(start, recv) < WrapSub(next.value, recv))
        {
          next := Some(start);
        }
      }
    }

    method BufferBeyondGap(packet: Packet, now: nat, gapTimeout: nat) returns (ready: seq<Packet>)
      requires SequenceAfter(packet.sent, recv)
      modifies this
      ensures State() == ReceivedBeyondGap(old(State()), packet, now, gapTimeout).0
      ensures ready == ReceivedBeyondGap(old(State()), packet, now, gapTimeout).1
    {
      hide Len, Low32, WrapSub, SequenceAfter, Drained;
      pending := pending[packet.sent := packet];
      gapPackets := gapPackets + 1;
      if gapSince.None? {
        gapSince := Some(now);
      }
      assert State() == Buffered(old(State()), packet, now);
      var videoPending := exists k | k in pending :: pending[k].body.Payload?;
      var safeToSkip := !packet.body.Payload? && !videoPending;
      var gapExpired := gapSince.Some? && Elapsed(now, gapSince.value) >= gapTimeout;
      if allowGapSkip && (safeToSkip || gapExpired)
        && (IsRecoveryCommand(packet) || gapPackets >= GAP_PACKET_LIMIT || gapExpired)
      {
        assert MaySkip(State(), packet, now, gapTimeout);
        assert packet.sent in pending;
        var nextStart := NearestPending();
        if nextStart.None? {
          return [];
        }
        NearestUnique(nextStart.value, Nearest(recv, pending), recv, pending);
        recv := nextStart.value;
        ready := DrainContiguous(now);
        return;
      }
      return [];
    }

    method Accept(packet: Packet, now: nat, gapTimeout: nat) returns (ready: seq<Packet>)
      modifies this
      ensures State() == Accepted(old(State()), packet, now, gapTimeout).0
      ensures ready == Accepted(old(State()), packet, now, gapTimeout).1
    {
      if Len(packet.body) == 0 {
        return [];
      }
      var packetStart := packet.sent;
      var packetEnd := Low32(packetStart + Len(packet.body));
      if packetStart != recv && !SequenceAfter(packetStart, recv) {
        return [];
      }
      if !SequenceAfter(packetEnd, recv) {
        return [];
      }
      if packetStart == recv {
        pending := pending[packetStart := packet];
        ready := DrainContiguous(now);
        return;
      }
      if packetStart in pending {
        return [];
      }
      ready := BufferBeyondGap(packet, now, gapTimeout);
    }

    method Recv(packet: Packet, now: nat, gapTimeout: nat) returns (ready: seq<Packet>)
      requires Valid()
      modifies this
      ensures Valid()
      ensures State() == Received(old(State()), packet, now, gapTimeout).0
      ensures ready == Received(old(State()), packet, now, gapTimeout).1
    {
      rmid := packet.lmid;
      AcknowledgeSent(packet.recv);
      assert State() == Heard(old(State()), packet);
      hide Consistent;
      ready := Accept(packet, now, gapTimeout);
      ReceivedConsistent(old(State()), packet, now, gapTimeout);
    }

    method HasRetransmissionStall(now: nat) returns (stalled: bool)
      ensures stalled <==> Stalled(State(), now)
    {
      stalled := false;
      for i := 0 to |sentWindow|
        invariant stalled <==> exists j :: 0 <= j < i && sentWindow[j].retries >= MAX_RETRANSMITS
                                         && Elapsed(now, lastProgress) >= STALL_GRACE
      {
        if sentWindow[i].retries >= MAX_RETRANSMITS && Elapsed(now, lastProgress) >= STALL_GRACE {
          stalled := true;
        }
      }
    }

    method DueRetransmissions(now: nat) returns (due: seq<Packet>)
      requires Valid()
      modifies this`sentWindow
      ensures Valid()
      ensures due == SessionSpec.Due(old(sentWindow), now)
      ensures State() == old(State()).(sentWindow := RetriedAll(old(sentWindow), now))
    {
      hide Consistent;
      due := [];
      ghost var before := sentWindow;
      for i := 0 to |sentWindow|
        invariant |sentWindow| == |before|
        invariant forall j :: 0 <= j < i ==> sentWindow[j] == Retried(before[j], now)
        invariant forall j :: i <= j < |before| ==> sentWindow[j] == before[j]
        invariant due == SessionSpec.Due(before[..i], now)
      {
        assert before[..i + 1][..i] == before[..i];
        var tracked := sentWindow[i];
        if tracked.retries < MAX_RETRANSMITS && Elapsed(now, tracked.lastSent) >= RETRANSMIT_AFTER {
          sentWindow := sentWindow[i := tracked.(lastSent := now, retries := tracked.retries + 1)];
          due := due + [tracked.packet];
        }
      }
      assert before[..|before|] == before;
      assert sentWindow == RetriedAll(before, now);
      RetriedConsistent(old(State()), now);
    }
  }
}
