/**
 The receiving half of a session, fed by one honest sender, does what the
 reorder buffer of `Reordering` does.
 */
module Receiver {
  import opened Words
  import opened Codec
  import opened SessionSpec
  import opened SessionFacts
  import opened Stream
  import opened Reordering

  /** The buffer holds exactly the segments `buffered`, each under its wire position. */
  ghost predicate Holds(recv: u32, pending: map<u32, Packet>, log: Log, base: nat, next: nat, buffered: set<nat>) {
    && LogOk(log, base) && next <= |log|
    && recv == Wire(log, base, next)
    && (forall i :: i in buffered ==> next <= i < |log| && SegmentEnd(log[i]) - Bound(log, base, next) < 0x8000_0000)
    && (forall i :: i in buffered ==>
          log[i].packet.sent in pending && pending[log[i].packet.sent].body == log[i].packet.body)
    && (forall k :: k in pending ==> exists i :: i in buffered && log[i].packet.sent == k)
  }

  /** The session's receiving half is at segment `r.next` with `r.buffered` set aside. */
  ghost predicate Refines(s: SessionState, log: Log, base: nat, r: Reorder) {
    Ahead(r) && Holds(s.recv, s.pending, log, base, r.next, r.buffered)
  }

  lemma RefinesNext(s: SessionState, log: Log, base: nat, r: Reorder)
    requires Refines(s, log, base, r)
    ensures r.next <= |log| && LogOk(log, base) && s.recv == Wire(log, base, r.next)
  {
  }

  lemma HoldsIndex(recv: u32, pending: map<u32, Packet>, log: Log, base: nat, next: nat, buffered: set<nat>, i: nat)
    requires Holds(recv, pending, log, base, next, buffered)
    requires i < |log| && next <= i && Bound(log, base, i) - Bound(log, base, next) < 0x8000_0000
    ensures log[i].packet.sent in pending <==> i in buffered
    ensures forall j :: j in buffered && log[j].packet.sent == log[i].packet.sent ==> j == i
  {
    hide Low32, LogOk, Len;
    forall j | j in buffered && log[j].packet.sent == log[i].packet.sent ensures j == i {
      SegmentSize(log, base, i);
      SegmentSize(log, base, j);
      BoundGrows(log, base, next, j);
      BoundGrows(log, base, j, j + 1);
      BoundGrows(log, base, next, i);
      WireOrder(log, base, i, j);
    }
  }

  lemma HoldsRemove(recv: u32, pending: map<u32, Packet>, log: Log, base: nat, next: nat, buffered: set<nat>)
    requires Holds(recv, pending, log, base, next, buffered) && next in buffered
    ensures recv in pending && pending[recv].body == log[next].packet.body
    ensures Holds(Low32(recv + Len(pending[recv].body)), pending - {recv}, log, base, next + 1, buffered - {next})
  {
    hide Low32, LogOk, Len;
    HoldsIndex(recv, pending, log, base, next, buffered, next);
    SegmentSize(log, base, next);
    WireNext(log, base, next);
    BoundGrows(log, base, next, next + 1);
  }

  lemma HoldsHole(recv: u32, pending: map<u32, Packet>, log: Log, base: nat, next: nat, buffered: set<nat>)
    requires Holds(recv, pending, log, base, next, buffered) && next !in buffered
    ensures recv !in pending
  {
    hide Low32, LogOk, Len;
    if recv in pending {
      var i :| i in buffered && log[i].packet.sent == recv;
      SegmentSize(log, base, i);
      BoundGrows(log, base, next, i);
      BoundGrows(log, base, i, i + 1);
      WireOrder(log, base, i, next);
    }
  }

  /** One delivery step, with the run it delivers. */
  ghost predicate Delivers(ready: seq<Packet>, log: Log, first: nat, next: nat) {
    && first <= next <= |log| && |ready| == next - first
    && forall k :: 0 <= k < |ready| ==> ready[k].body == log[first + k].packet.body
  }

  lemma DeliversCons(p: Packet, ready: seq<Packet>, log: Log, first: nat, next: nat)
    requires Delivers(ready, log, first + 1, next) && p.body == log[first].packet.body
    ensures Delivers([p] + ready, log, first, next)
  {
  }

  /** Draining takes out the contiguous run, in order, and nothing else. */
  lemma {:induction false} DrainRefines(
      recv: u32, pending: map<u32, Packet>, log: Log, base: nat, next: nat, buffered: set<nat>)
    requires Holds(recv, pending, log, base, next, buffered)
    ensures var d := DrainRun(recv, pending); var e := RunEnd(buffered, next);
      && Delivers(d.ready, log, next, e)
      && Holds(d.recv, d.pending, log, base, e, AfterRun(buffered, next))
    decreases |buffered|, 1
  {
    hide Low32, LogOk, Len;
    if next in buffered {
      DrainRefinesStep(recv, pending, log, base, next, buffered);
    } else {
      HoldsHole(recv, pending, log, base, next, buffered);
    }
  }

  lemma {:induction false} DrainRefinesStep(
      recv: u32, pending: map<u32, Packet>, log: Log, base: nat, next: nat, buffered: set<nat>)
    requires Holds(recv, pending, log, base, next, buffered) && next in buffered
    ensures var d := DrainRun(recv, pending); var e := RunEnd(buffered, next);
      && Delivers(d.ready, log, next, e)
      && Holds(d.recv, d.pending, log, base, e, AfterRun(buffered, next))
    decreases |buffered|, 0
  {
    hide *;
    HoldsRemove(recv, pending, log, base, next, buffered);
    RunEndStep(buffered, next);
    DrainRunStep([], recv, pending);
    var p := pending[recv];
    var recv', pending', buffered' := Low32(recv + Len(p.body)), pending - {recv}, buffered - {next};
    DrainRefines(recv', pending', log, base, next + 1, buffered');
    var d' := DrainRun(recv', pending');
    DeliversCons(p, d'.ready, log, next, RunEnd(buffered', next + 1));
    assert DrainRun(recv, pending) == Drain([p] + d'.ready, d'.recv, d'.pending);
  }

  lemma HoldsInsert(s: SessionState, p: Packet, log: Log, base: nat, r: Reorder, i: nat)
    requires Refines(s, log, base, r)
    requires r.next <= i < |log| && i !in r.buffered
    requires p.sent == log[i].packet.sent && p.body == log[i].packet.body
    requires SegmentEnd(log[i]) - Bound(log, base, r.next) < 0x8000_0000
    ensures p.sent !in s.pending
    ensures Holds(s.recv, s.pending[p.sent := p], log, base, r.next, r.buffered + {i})
  {
    hide Low32, LogOk, Len;
    BoundGrows(log, base, i, i + 1);
    HoldsIndex(s.recv, s.pending, log, base, r.next, r.buffered, i);
    var pending, buffered := s.pending[p.sent := p], r.buffered + {i};
    forall k | k in pending ensures exists j :: j in buffered && log[j].packet.sent == k {
      if k == p.sent {
        assert i in buffered;
      } else {
        var j :| j in r.buffered && log[j].packet.sent == k;
        assert j in buffered;
      }
    }
  }

  /** Arrivals the session can place: the start within 2^31 bytes of the receive offset. */
  ghost predicate StartNear(log: Log, base: nat, next: nat, i: nat) {
    && i < |log| && next <= |log|
    && -0x8000_0000 <= Bound(log, base, i) - Bound(log, base, next) < 0x8000_0000
  }

  /** The whole segment within that distance; the session then never drops a new one. */
  ghost predicate EndNear(log: Log, base: nat, next: nat, i: nat) {
    && StartNear(log, base, next, i)
    && SegmentEnd(log[i]) - Bound(log, base, next) < 0x8000_0000
  }

  lemma ArrivingExactly(s: SessionState, p: Packet, log: Log, base: nat, next: nat, i: nat)
    requires LogOk(log, base) && StartNear(log, base, next, i)
    requires s.recv == Wire(log, base, next)
    requires p.sent == log[i].packet.sent && p.body == log[i].packet.body
    ensures Arriving(s, p) <==> i >= next && EndNear(log, base, next, i)
    ensures (p.sent == s.recv <==> i == next) && (SequenceAfter(p.sent, s.recv) <==> i > next)
  {
    hide Low32, LogOk, Len;
    SegmentSize(log, base, i);
    WireOrder(log, base, i, next);
    WireNext(log, base, i);
    var x, y := Bound(log, base, i + 1), Bound(log, base, next);
    BoundGrows(log, base, i, i + 1);
    if i >= next {
      BoundGrows(log, base, next, i);
      SequenceAfterExactly(x, y);
    } else {
      BoundGrows(log, base, i + 1, next);
    }
  }

  ghost predicate Skips(s: SessionState, p: Packet, now: nat, gapTimeout: nat) {
    MaySkip(Buffered(s, p, now), p, now, gapTimeout)
  }

  lemma NearestIsLeast(s: SessionState, log: Log, base: nat, next: nat, buffered: set<nat>)
    requires Holds(s.recv, s.pending, log, base, next, buffered)
    requires buffered != {} && next !in buffered
    ensures IsNearest(Wire(log, base, Least(buffered)), s.recv, s.pending)
  {
    hide Low32, LogOk, Len;
    var m := Least(buffered);
    SegmentSize(log, base, m);
    BoundGrows(log, base, next, m);
    BoundGrows(log, base, m, m + 1);
    WireOrder(log, base, m, next);
    WireDistance(log, base, m, next);
    forall k | k in s.pending && SequenceAfter(k, s.recv)
      ensures WrapSub(Wire(log, base, m), s.recv) <= WrapSub(k, s.recv)
    {
      var i :| i in buffered && log[i].packet.sent == k;
      SegmentSize(log, base, i);
      BoundGrows(log, base, m, i);
      BoundGrows(log, base, i, i + 1);
      BoundGrows(log, base, next, i);
      WireDistance(log, base, i, next);
    }
  }

  lemma HoldsJump(s: SessionState, log: Log, base: nat, next: nat, buffered: set<nat>)
    requires Holds(s.recv, s.pending, log, base, next, buffered)
    requires buffered != {} && next !in buffered
    ensures var m := Least(buffered);
      m <= |log| && Holds(Wire(log, base, m), s.pending, log, base, m, buffered)
  {
    hide Low32, LogOk, Len;
    BoundGrows(log, base, next, Least(buffered));
    SegmentSize(log, base, Least(buffered));
  }

  lemma SkipRefines(buffered: SessionState, log: Log, base: nat, next: nat, b: set<nat>, now: nat)
    requires Holds(buffered.recv, buffered.pending, log, base, next, b) && b != {} && next !in b
    requires exists k :: k in buffered.pending && SequenceAfter(k, buffered.recv)
    ensures var (s', ready) := Drained(buffered.(recv := Nearest(buffered.recv, buffered.pending)), now);
      var r' := Settle(Least(b), b);
      && Holds(s'.recv, s'.pending, log, base, r'.next, r'.buffered)
      && Delivers(ready, log, Least(b), r'.next)
  {
    hide Low32, LogOk, Len;
    NearestIsLeast(buffered, log, base, next, b);
    NearestUnique(Nearest(buffered.recv, buffered.pending), Wire(log, base, Least(b)), buffered.recv, buffered.pending);
    HoldsJump(buffered, log, base, next, b);
    hide Holds;
    DrainRefines(Wire(log, base, Least(b)), buffered.pending, log, base, Least(b), b);
  }

  lemma BeyondGapRefines(s: SessionState, p: Packet, now: nat, gapTimeout: nat, log: Log, base: nat, r: Reorder, i: nat)
    requires Refines(s, log, base, r)
    requires EndNear(log, base, r.next, i) && r.next < i && i !in r.buffered
    requires p.sent == log[i].packet.sent && p.body == log[i].packet.body
    requires SequenceAfter(p.sent, s.recv)
    ensures var (s', ready) := ReceivedBeyondGap(s, p, now, gapTimeout);
      var skips := Skips(s, p, now, gapTimeout);
      && Refines(s', log, base, Arrive(r, i, skips))
      && Delivers(ready, log, DeliveryStart(r, i, skips), Arrive(r, i, skips).next)
  {
    hide Low32, LogOk, Len;
    var buffered := Buffered(s, p, now);
    HoldsInsert(s, p, log, base, r, i);
    ArriveAhead(r, i, Skips(s, p, now, gapTimeout));
    hide Holds, MaySkip;
    if MaySkip(buffered, p, now, gapTimeout) {
      assert p.sent in buffered.pending;
      SkipRefines(buffered, log, base, r.next, r.buffered + {i}, now);
    }
  }

  /** Accepting a nearby segment of an honest sender moves the reorder buffer one
      step and delivers exactly the segments the buffer released. */
  lemma AcceptedRefines(s: SessionState, p: Packet, now: nat, gapTimeout: nat, log: Log, base: nat, r: Reorder, i: nat)
    requires Refines(s, log, base, r) && StartNear(log, base, r.next, i)
    requires p.sent == log[i].packet.sent && p.body == log[i].packet.body
    ensures Arriving(s, p) <==> r.next <= i && EndNear(log, base, r.next, i)
    ensures var (s', ready) := Accepted(s, p, now, gapTimeout);
      var skips := Skips(s, p, now, gapTimeout);
      if EndNear(log, base, r.next, i) then
        Refines(s', log, base, Arrive(r, i, skips))
        && Delivers(ready, log, DeliveryStart(r, i, skips), Arrive(r, i, skips).next)
      else s' == s && ready == []
  {
    hide Low32, LogOk, Len;
    ArrivingExactly(s, p, log, base, r.next, i);
    SegmentSize(log, base, i);
    if Arriving(s, p) {
      BoundGrows(log, base, r.next, i);
      HoldsIndex(s.recv, s.pending, log, base, r.next, r.buffered, i);
      if i == r.next {
        assert i !in r.buffered;
        HoldsInsert(s, p, log, base, r, i);
        hide Holds;
        DrainRefines(s.recv, s.pending[p.sent := p], log, base, r.next, r.buffered + {i});
        ArriveAhead(r, i, Skips(s, p, now, gapTimeout));
      } else if i !in r.buffered {
        BeyondGapRefines(s, p, now, gapTimeout, log, base, r, i);
      }
    }
  }
}
