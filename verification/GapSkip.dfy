/** The gap-skip policy, for sessions that allow it, fed by an honest sender. */
module GapSkip {
  import opened Words
  import opened Codec
  import opened Options
  import opened SessionSpec
  import opened SessionFacts
  import opened Stream
  import opened Reordering
  import opened Receiver

  /** The session gives up on a gap when `p` arrives. */
  ghost predicate GivesUp(s: SessionState, p: Packet, now: nat, gapTimeout: nat) {
    && Len(p.body) > 0 && Arriving(Heard(s, p), p) && p.sent != s.recv && p.sent !in s.pending
    && Skips(Heard(s, p), p, now, gapTimeout)
  }

  /** A skip goes to the nearest segment set aside, leaves none behind, hands it
      on together with the run after it, and moves strictly forward. */
  lemma SkipGoesToNearest(
      s: SessionState, p: Packet, now: nat, gapTimeout: nat, log: Log, base: nat, r: Reorder, i: nat)
    requires Refines(s, log, base, r) && EndNear(log, base, r.next, i)
    requires p.sent == log[i].packet.sent && p.body == log[i].packet.body
    requires GivesUp(s, p, now, gapTimeout)
    ensures var (s', ready) := Received(s, p, now, gapTimeout);
      var r' := Arrive(r, i, true); var nearest := Least(r.buffered + {i});
      && Refines(s', log, base, r')
      && r.next < nearest < r'.next <= |log|
      && (forall k :: k in r.buffered + {i} ==> nearest <= k && (k < r'.next || k in r'.buffered))
      && IsNearest(log[nearest].packet.sent, s.recv, s.pending[p.sent := p])
      && |ready| == r'.next - nearest
      && (forall k :: 0 <= k < |ready| ==> ready[k].body == log[nearest + k].packet.body)
  {
    hide LogOk, Low32, Bound, Wire, Holds, Accepted, MaySkip;
    var heard := Heard(s, p);
    AcceptedRefines(heard, p, now, gapTimeout, log, base, r, i);
    BeyondGap(heard, p, log, base, r, i);
    SkipDelivers(r, i);
    HoldsInsert(heard, p, log, base, r, i);
    RefinesNext(s, log, base, r);
    SegmentSize(log, base, Least(r.buffered + {i}));
    NearestIsLeast(Buffered(heard, p, now), log, base, r.next, r.buffered + {i});
    RefinesNext(Received(s, p, now, gapTimeout).0, log, base, Arrive(r, i, true));
  }

  lemma BeyondGap(s: SessionState, p: Packet, log: Log, base: nat, r: Reorder, i: nat)
    requires Refines(s, log, base, r) && EndNear(log, base, r.next, i)
    requires p.sent == log[i].packet.sent && p.body == log[i].packet.body
    requires Arriving(s, p) && p.sent != s.recv && p.sent !in s.pending
    ensures r.next < i && i !in r.buffered
    ensures SegmentEnd(log[i]) - Bound(log, base, r.next) < 0x8000_0000
  {
    hide LogOk, Low32, Bound, Len, Arriving;
    ArrivingExactly(s, p, log, base, r.next, i);
  }

  /** While the gap is younger than the timeout, a waiting payload forbids any
      skip: the receive offset stays where it is. */
  lemma NoSkipWhilePayloadWaits(s: SessionState, p: Packet, now: nat, gapTimeout: nat)
    requires p.sent != s.recv
    requires PayloadPending(s.pending) || p.body.Payload?
    requires s.gapSince.Some? ==> Elapsed(now, s.gapSince.value) < gapTimeout
    requires gapTimeout > 0
    ensures var (s', ready) := Received(s, p, now, gapTimeout); s'.recv == s.recv && ready == []
  {
    hide Drained, Arriving, Acknowledged;
    var heard := Heard(s, p);
    var buffered := Buffered(heard, p, now);
    if PayloadPending(s.pending) && p.sent !in s.pending {
      var k :| k in s.pending && s.pending[k].body.Payload?;
      assert k in buffered.pending && buffered.pending[k].body.Payload?;
    }
  }

  /** How long the gap has been waited for when something is set aside at `now`. */
  function Waited(s: SessionState, now: nat): nat {
    if s.gapSince.Some? && s.gapSince.value <= now then now - s.gapSince.value else 0
  }

  /** A new packet beyond the gap makes the session give up on it, and hand something on, if
      and only if skipping is allowed, no payload would be passed over unless the gap has
      lasted the timeout, and there is an occasion: a recovery command, the thirty-second
      packet, or the timeout. Otherwise it is set aside. */
  lemma SkipsExactly(s: SessionState, p: Packet, now: nat, gapTimeout: nat)
    requires Len(p.body) > 0 && p.sent !in s.pending
    requires SequenceAfter(p.sent, s.recv) && SequenceAfter(Low32(p.sent + Len(p.body)), s.recv)
    ensures var (s', ready) := Received(s, p, now, gapTimeout);
      var expired := Waited(s, now) >= gapTimeout;
      && (ready != [] <==>
            && s.allowGapSkip
            && ((!p.body.Payload? && forall k :: k in s.pending ==> !s.pending[k].body.Payload?) || expired)
            && (0x0100_0000 <= p.pid < 0x0200_0000 || s.gapPackets + 1 >= 32 || expired))
      && (ready == [] ==> s'.recv == s.recv && s'.pending == s.pending[p.sent := p])
  {
    hide Len, Low32, WrapSub, SequenceAfter, Drained, Acknowledged, PayloadPending;
    var heard := Heard(s, p);
    var buffered := Buffered(heard, p, now);
    NotAtStart(p.sent, s.recv);
    PayloadsIn(s.pending, p);
    if MaySkip(buffered, p, now, gapTimeout) {
      assert p.sent in buffered.pending;
      DrainedDelivers(buffered.(recv := Nearest(buffered.recv, buffered.pending)), now);
    }
  }

  lemma NotAtStart(a: u32, b: u32)
    requires SequenceAfter(a, b)
    ensures a != b
  {
  }

  lemma DrainedDelivers(s: SessionState, now: nat)
    requires s.recv in s.pending
    ensures Drained(s, now).1 != []
  {
  }

  lemma PayloadsIn(pending: map<u32, Packet>, p: Packet)
    requires p.sent !in pending
    ensures PayloadPending(pending[p.sent := p]) <==>
      p.body.Payload? || exists k :: k in pending && pending[k].body.Payload?
  {
    var more := pending[p.sent := p];
    if p.body.Payload? {
      assert p.sent in more && more[p.sent].body.Payload?;
    }
    if k :| k in pending && pending[k].body.Payload? {
      assert k in more && more[k].body.Payload?;
    }
  }

  /** What one packet does to the gap's clock and count: the clock starts when the buffer
      stops being empty and is never set again while it is not; the count is of packets set
      aside since something was last handed on, and of one more if that left a gap. */
  lemma GapAfter(s: SessionState, p: Packet, now: nat, gapTimeout: nat)
    requires Consistent(s)
    ensures var (s', ready) := Received(s, p, now, gapTimeout);
      && (s'.pending == map[] ==> s'.gapSince == None && s'.gapPackets == 0)
      && (s'.pending != map[] ==> s'.gapSince == if s.pending == map[] then Some(now) else s.gapSince)
      && (s'.pending != map[] && ready != [] ==> s'.gapPackets == 1)
      && (s'.pending != map[] && ready == [] ==>
            s'.gapPackets == s.gapPackets + if s'.pending == s.pending then 0 else 1)
  {
    hide Len, Low32, WrapSub, SequenceAfter, Arriving, Acknowledged, MaySkip;
    var heard := Heard(s, p);
    ReceivedConsistent(s, p, now, gapTimeout);
    if Len(p.body) > 0 && Arriving(heard, p) {
      if p.sent == s.recv {
        DrainedDelivers(heard.(pending := heard.pending[p.sent := p]), now);
        if s.pending == map[] {
          InOrderAlone(heard, p);
        }
      } else if p.sent !in s.pending {
        ArrivingAhead(heard, p);
        var buffered := Buffered(heard, p, now);
        assert p.sent in buffered.pending;
        var target := Nearest(buffered.recv, buffered.pending);
        DrainedDelivers(buffered.(recv := target), now);
        if s.pending == map[] {
          assert target == p.sent;
          InOrderAlone(heard.(recv := p.sent), p);
        }
        assert buffered.pending != s.pending;
      }
    }
  }

  lemma ArrivingAhead(s: SessionState, p: Packet)
    requires Arriving(s, p) && p.sent != s.recv
    ensures SequenceAfter(p.sent, s.recv)
  {
  }

  /** With nothing set aside a packet in order leaves nothing behind. */
  lemma InOrderAlone(s: SessionState, p: Packet)
    requires s.pending == map[] && p.sent == s.recv
    ensures DrainRun(s.recv, s.pending[p.sent := p]).pending == map[]
    ensures DrainRun(s.recv, s.pending[p.sent := p]).ready != []
  {
    var one := s.pending[p.sent := p];
    assert one - {p.sent} == map[];
  }
}
