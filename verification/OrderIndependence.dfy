/**
 In strict mode only the set of segments that arrived matters: not their order,
 not how often each came, not when.
 */
module OrderIndependence {
  import opened Words
  import opened Codec
  import opened SessionSpec
  import opened SessionFacts
  import opened Stream
  import opened Reordering
  import opened Receiver

  /** A packet handed to the session, the segment it carries, and the time. */
  datatype Arrival = Arrival(packet: Packet, segment: nat, now: nat)

  function Segments(arrivals: seq<Arrival>): set<nat> {
    set k | 0 <= k < |arrivals| :: arrivals[k].segment
  }

  /** The session after a history of arrivals, and all it delivered. */
  ghost function ReceiveAll(s: SessionState, arrivals: seq<Arrival>, gapTimeout: nat): (SessionState, seq<Packet>) {
    if arrivals == [] then (s, [])
    else
      var last := arrivals[|arrivals| - 1];
      var (s', out) := ReceiveAll(s, arrivals[..|arrivals| - 1], gapTimeout);
      var (s'', ready) := Received(s', last.packet, last.now, gapTimeout);
      (s'', out + ready)
  }

  ghost function ArriveAll(r: Reorder, arrivals: seq<Arrival>): Reorder {
    if arrivals == [] then r
    else Arrive(ArriveAll(r, arrivals[..|arrivals| - 1]), arrivals[|arrivals| - 1].segment, false)
  }

  /** Every arrival is a true segment of the log and lies within 2^31 bytes of
      the receive offset of its moment. */
  ghost predicate Timely(r: Reorder, arrivals: seq<Arrival>, log: Log, base: nat) {
    forall k :: 0 <= k < |arrivals| ==>
      && EndNear(log, base, ArriveAll(r, arrivals[..k]).next, arrivals[k].segment)
      && arrivals[k].packet.sent == log[arrivals[k].segment].packet.sent
      && arrivals[k].packet.body == log[arrivals[k].segment].packet.body
  }

  lemma TimelyPrefix(r: Reorder, arrivals: seq<Arrival>, log: Log, base: nat)
    requires Timely(r, arrivals, log, base) && arrivals != []
    ensures Timely(r, arrivals[..|arrivals| - 1], log, base)
  {
    hide EndNear, ArriveAll;
    var before := arrivals[..|arrivals| - 1];
    forall k | 0 <= k < |before|
      ensures before[k] == arrivals[k] && before[..k] == arrivals[..k]
    {
    }
  }

  lemma DeliversJoin(out: seq<Packet>, ready: seq<Packet>, log: Log, a: nat, b: nat, c: nat)
    requires Delivers(out, log, a, b) && Delivers(ready, log, b, c)
    ensures Delivers(out + ready, log, a, c)
  {
  }

  /** The session tracks the buffer over any timely history. */
  lemma {:induction false} ReceiveAllRefines(
      s: SessionState, arrivals: seq<Arrival>, gapTimeout: nat, log: Log, base: nat, r: Reorder)
    requires Refines(s, log, base, r) && !s.allowGapSkip && Timely(r, arrivals, log, base)
    ensures var (s', out) := ReceiveAll(s, arrivals, gapTimeout); var r' := ArriveAll(r, arrivals);
      && Refines(s', log, base, r') && !s'.allowGapSkip && Delivers(out, log, r.next, r'.next)
  {
    hide LogOk, Low32, Bound, Wire, Len, Holds, Arrive, Accepted, EndNear, Delivers;
    if arrivals == [] {
      NothingDelivered(s, log, base, r);
    } else {
      var n := |arrivals| - 1;
      var last := arrivals[n];
      TimelyPrefix(r, arrivals, log, base);
      ReceiveAllRefines(s, arrivals[..n], gapTimeout, log, base, r);
      var (s', out) := ReceiveAll(s, arrivals[..n], gapTimeout);
      var r' := ArriveAll(r, arrivals[..n]);
      StrictStep(s', last, gapTimeout, log, base, r');
      var (s'', ready) := Received(s', last.packet, last.now, gapTimeout);
      DeliversJoin(out, ready, log, r.next, r'.next, Arrive(r', last.segment, false).next);
    }
  }

  lemma NothingDelivered(s: SessionState, log: Log, base: nat, r: Reorder)
    requires Refines(s, log, base, r)
    ensures Delivers([], log, r.next, r.next)
  {
  }

  lemma StrictStep(s: SessionState, a: Arrival, gapTimeout: nat, log: Log, base: nat, r: Reorder)
    requires Refines(s, log, base, r) && !s.allowGapSkip && EndNear(log, base, r.next, a.segment)
    requires a.packet.sent == log[a.segment].packet.sent && a.packet.body == log[a.segment].packet.body
    ensures var (s', ready) := Received(s, a.packet, a.now, gapTimeout); var r' := Arrive(r, a.segment, false);
      Refines(s', log, base, r') && !s'.allowGapSkip && Delivers(ready, log, r.next, r'.next)
  {
    hide LogOk, Low32, Bound, Wire, Len, Holds, Accepted, Delivers, Settle;
    AcceptedRefines(Heard(s, a.packet), a.packet, a.now, gapTimeout, log, base, r, a.segment);
    AcceptedKeepsSender(Heard(s, a.packet), a.packet, a.now, gapTimeout);
    if Skips(Heard(s, a.packet), a.packet, a.now, gapTimeout) {
      SkipNeeds(Buffered(Heard(s, a.packet), a.packet, a.now), a.packet, a.now, gapTimeout);
    }
  }

  /** The buffer is a view of the set of segments seen. */
  lemma {:induction false} ArriveAllViews(r: Reorder, arrivals: seq<Arrival>)
    requires Ahead(r)
    ensures Views(ArriveAll(r, arrivals), r.next, r.buffered + Segments(arrivals))
  {
    hide Views, Arrive;
    if arrivals == [] {
      ViewsAtStart(r);
      assert r.buffered + Segments(arrivals) == r.buffered;
    } else {
      var n := |arrivals| - 1;
      ArriveAllViews(r, arrivals[..n]);
      ArriveViews(ArriveAll(r, arrivals[..n]), r.next, r.buffered + Segments(arrivals[..n]), arrivals[n].segment);
      SegmentsSnoc(arrivals);
      assert r.buffered + Segments(arrivals) == r.buffered + Segments(arrivals[..n]) + {arrivals[n].segment};
    }
  }

  lemma ViewsAtStart(r: Reorder)
    requires Ahead(r)
    ensures Views(r, r.next, r.buffered)
  {
  }

  lemma SegmentsSnoc(arrivals: seq<Arrival>)
    requires arrivals != []
    ensures Segments(arrivals) == Segments(arrivals[..|arrivals| - 1]) + {arrivals[|arrivals| - 1].segment}
  {
    var n := |arrivals| - 1;
    forall x ensures x in Segments(arrivals) <==> x in Segments(arrivals[..n]) + {arrivals[n].segment} {
      if x in Segments(arrivals) {
        var k :| 0 <= k <= n && arrivals[k].segment == x;
        if k < n {
          assert arrivals[..n][k].segment == x;
        }
      }
    }
  }

  /** After any timely history the receive offset is the end of the longest
      contiguous run of segments seen, exactly the later ones are buffered, and
      the run, in order, is all that was delivered. */
  lemma BufferIsSetOfArrivals(
      s: SessionState, arrivals: seq<Arrival>, gapTimeout: nat, log: Log, base: nat, r: Reorder)
      returns (end: nat)
    requires Refines(s, log, base, r) && !s.allowGapSkip && Timely(r, arrivals, log, base)
    ensures var (s', out) := ReceiveAll(s, arrivals, gapTimeout);
      var seen := r.buffered + Segments(arrivals);
      && IsFrontier(seen, r.next, end) && end <= |log|
      && s'.recv == Wire(log, base, end)
      && Holds(s'.recv, s'.pending, log, base, end, Beyond(seen, end))
      && Delivers(out, log, r.next, end)
  {
    hide LogOk, Low32, Bound, Wire, Len, Holds, Arrive, Accepted, EndNear, Delivers, ReceiveAll;
    ReceiveAllRefines(s, arrivals, gapTimeout, log, base, r);
    ArriveAllViews(r, arrivals);
    end := ArriveAll(r, arrivals).next;
    RefinesNext(ReceiveAll(s, arrivals, gapTimeout).0, log, base, ArriveAll(r, arrivals));
  }

  lemma HoldsSame(
      recv: u32, one: map<u32, Packet>, two: map<u32, Packet>, log: Log, base: nat, next: nat, buffered: set<nat>)
    requires Holds(recv, one, log, base, next, buffered) && Holds(recv, two, log, base, next, buffered)
    ensures one.Keys == two.Keys
    ensures forall k :: k in one ==> one[k].body == two[k].body
  {
    hide LogOk, Low32, Bound, Wire, Len;
    forall k ensures k in one <==> k in two {
    }
    forall k | k in one ensures one[k].body == two[k].body {
      var i :| i in buffered && log[i].packet.sent == k;
    }
  }

  /** Two timely histories of the same segments end at the same offset, with
      the same segments buffered, having delivered the same bodies. */
  lemma SameSetSameResult(
      s: SessionState, one: seq<Arrival>, two: seq<Arrival>, gapTimeout: nat, log: Log, base: nat, r: Reorder)
    requires Refines(s, log, base, r) && !s.allowGapSkip
    requires Timely(r, one, log, base) && Timely(r, two, log, base)
    requires Segments(one) == Segments(two)
    ensures var (s1, out1) := ReceiveAll(s, one, gapTimeout); var (s2, out2) := ReceiveAll(s, two, gapTimeout);
      && s1.recv == s2.recv && s1.pending.Keys == s2.pending.Keys
      && (forall k :: k in s1.pending ==> s1.pending[k].body == s2.pending[k].body)
      && |out1| == |out2| && forall k :: 0 <= k < |out1| ==> out1[k].body == out2[k].body
  {
    hide Timely, ReceiveAll, LogOk, Len, Low32, Bound, Refines, Segments, IsFrontier, Holds;
    var e1 := BufferIsSetOfArrivals(s, one, gapTimeout, log, base, r);
    var e2 := BufferIsSetOfArrivals(s, two, gapTimeout, log, base, r);
    var seen := r.buffered + Segments(one);
    FrontierUnique(seen, r.next, e1, e2);
    var (s1, _) := ReceiveAll(s, one, gapTimeout);
    var (s2, _) := ReceiveAll(s, two, gapTimeout);
    HoldsSame(s1.recv, s1.pending, s2.pending, log, base, e1, Beyond(seen, e1));
  }
}
