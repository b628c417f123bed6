/**
 One round of retransmission repairs any loss: once every packet still in the
 window has been sent again and has arrived, in any order and any number of
 times, the receiver has caught up, and its next acknowledgement empties the
 window.
 */
module Resync {
  import opened Words
  import opened Codec
  import opened SessionSpec
  import opened SessionFacts
  import opened Stream
  import opened Reordering
  import opened Receiver
  import opened Sender
  import opened Network
  import opened OrderIndependence
  import opened Safety

  /** Datagrams of one batch, in the order and at the times they arrive. */
  datatype Timed = Timed(d: Datagram, now: nat)

  function Batch(ds: seq<Timed>): set<Datagram> {
    set k | 0 <= k < |ds| :: ds[k].d
  }

  /** The endpoint after all of them have been received. */
  ghost function ReceiveBatch(me: Endpoint, ds: seq<Timed>, gapTimeout: nat): Endpoint {
    if ds == [] then me
    else
      var last := ds[|ds| - 1];
      Arrived(ReceiveBatch(me, ds[..|ds| - 1], gapTimeout), last.d, last.now, gapTimeout)
  }

  function ToArrivals(ds: seq<Timed>): (r: seq<Arrival>)
    ensures |r| == |ds|
    ensures forall k :: 0 <= k < |ds| ==> r[k] == Arrival(ds[k].d.packet, ds[k].d.segment, ds[k].now)
  {
    seq(|ds|, k requires 0 <= k < |ds| => Arrival(ds[k].d.packet, ds[k].d.segment, ds[k].now))
  }

  lemma {:induction false} BatchSession(me: Endpoint, ds: seq<Timed>, gapTimeout: nat)
    requires forall k :: 0 <= k < |ds| ==> Readable(ds[k].d)
    ensures ReceiveBatch(me, ds, gapTimeout).session == ReceiveAll(me.session, ToArrivals(ds), gapTimeout).0
  {
    hide Received, Skips, Placed, Arrive, DeliveryStart, Range, Readable, ParsePacket;
    if ds != [] {
      var n := |ds| - 1;
      ReadableParses(ds[n].d);
      BatchSession(me, ds[..n], gapTimeout);
      assert ToArrivals(ds)[..n] == ToArrivals(ds[..n]);
    }
  }

  /** When the whole window is due, one timer pass sends all of it again. */
  ghost predicate AllDue(x: Endpoint, now: nat) {
    forall j :: 0 <= j < |x.session.sentWindow| ==> IsDue(x.session.sentWindow[j], now)
  }

  lemma {:induction false} DueIsWholeWindow(window: seq<Tracked>, now: nat)
    requires forall j :: 0 <= j < |window| ==> IsDue(window[j], now)
    ensures |Due(window, now)| == |window|
    ensures forall j :: 0 <= j < |window| ==> Due(window, now)[j] == window[j].packet
  {
    if window != [] {
      DueIsWholeWindow(window[..|window| - 1], now);
    }
  }

  lemma {:induction false} DueExactly(window: seq<Tracked>, now: nat, p: Packet)
    ensures p in Due(window, now) <==>
      exists j :: 0 <= j < |window| && IsDue(window[j], now) && window[j].packet == p
  {
    hide IsDue;
    if window != [] {
      var n := |window| - 1;
      DueExactly(window[..n], now, p);
      if j: nat :| j < n && IsDue(window[j], now) && window[j].packet == p {
        assert window[..n][j] == window[j];
      }
    }
  }

  /** The datagrams of a timer pass carry exactly the packets the session calls due. */
  lemma ResendingsAreDue(x: Endpoint, now: nat, p: Packet)
    requires Sends(x.session, x.log, x.base, x.greatestAck, x.evicted)
    ensures p in Due(x.session.sentWindow, now) <==> exists d :: d in Resendings(x, now) && d.packet == p
  {
    hide LogOk, Len, Low32, Bound, Wire, IsDue, Due;
    var window := x.session.sentWindow;
    DueExactly(window, now, p);
    if j: nat :| j < |window| && IsDue(window[j], now) && window[j].packet == p {
      assert Logged(x.log, First(x) + j) in Resendings(x, now);
    }
  }

  lemma BatchCoversWindow(x: Endpoint, now: nat, i: nat)
    requires Sends(x.session, x.log, x.base, x.greatestAck, x.evicted) && AllDue(x, now)
    requires First(x) <= i < |x.log|
    ensures Logged(x.log, i) in Resendings(x, now)
  {
    hide LogOk, Len, Low32, Bound, Wire;
    assert IsDue(x.session.sentWindow[i - First(x)], now);
  }

  lemma BatchIsWindow(x: Endpoint, now: nat, d: Datagram)
    requires Sends(x.session, x.log, x.base, x.greatestAck, x.evicted)
    requires d in Resendings(x, now)
    ensures First(x) <= d.segment < |x.log| && d == Logged(x.log, d.segment)
  {
  }

  /** Everything in the window is within reach of a receiver that is at or past
      the window's start. */
  lemma WindowInReach(x: Endpoint, next: nat, i: nat)
    requires Sends(x.session, x.log, x.base, x.greatestAck, x.evicted)
    requires First(x) <= next <= |x.log| && First(x) <= i < |x.log|
    ensures EndNear(x.log, x.base, next, i)
  {
    hide LogOk, Len, Low32, Bound, Wire, Tail;
    WindowSpan(x.session.sentWindow, x.log, x.base, First(x));
    BoundGrows(x.log, x.base, First(x), next);
    BoundGrows(x.log, x.base, next, |x.log|);
    BoundGrows(x.log, x.base, First(x), i);
    SegmentSize(x.log, x.base, i);
    BoundGrows(x.log, x.base, i + 1, |x.log|);
  }

  lemma BatchTimely(x: Endpoint, y: Endpoint, ds: seq<Timed>, now: nat)
    requires Linked(x, y) && First(x) <= y.rx.next
    requires Batch(ds) <= Resendings(x, now)
    ensures Timely(y.rx, ToArrivals(ds), x.log, x.base)
  {
    hide LogOk, Len, Low32, Bound, Tail, Holds, EmissionsOk, AcksOk, DeliveryOk, Range, EndNear, Resendings,
      ArriveAll, Wire;
    var arrivals := ToArrivals(ds);
    forall k | 0 <= k < |arrivals|
      ensures arrivals[k].segment < |x.log|
        && EndNear(x.log, x.base, ArriveAll(y.rx, arrivals[..k]).next, arrivals[k].segment)
        && arrivals[k].packet.sent == x.log[arrivals[k].segment].packet.sent
        && arrivals[k].packet.body == x.log[arrivals[k].segment].packet.body
    {
      assert ds[k].d in Batch(ds);
      BatchIsWindow(x, now, ds[k].d);
      SegmentSize(x.log, x.base, arrivals[k].segment);
      BatchBounds(x, y, ds, now, k);
      WindowInReach(x, ArriveAll(y.rx, arrivals[..k]).next, arrivals[k].segment);
    }
  }

  lemma {:induction false} BatchBounds(x: Endpoint, y: Endpoint, ds: seq<Timed>, now: nat, k: nat)
    requires Linked(x, y) && k <= |ds| && Batch(ds) <= Resendings(x, now)
    ensures var r := ArriveAll(y.rx, ToArrivals(ds)[..k]);
      && Ahead(r) && y.rx.next <= r.next <= |x.log|
      && forall i :: i in r.buffered ==> i < |x.log|
  {
    hide LogOk, Len, Low32, Bound, Tail, EmissionsOk, AcksOk, DeliveryOk, Range, Resendings, Wire, Arrive;
    if k > 0 {
      var arrivals := ToArrivals(ds);
      BatchBounds(x, y, ds, now, k - 1);
      assert arrivals[..k][..k - 1] == arrivals[..k - 1];
      assert ds[k - 1].d in Batch(ds);
      BatchIsWindow(x, now, ds[k - 1].d);
      ArriveStaysWithin(ArriveAll(y.rx, arrivals[..k - 1]), arrivals[k - 1].segment, |x.log|);
    }
  }

  lemma ArriveStaysWithin(r: Reorder, i: nat, n: nat)
    requires Ahead(r) && i < n && r.next <= n && forall k :: k in r.buffered ==> k < n
    ensures var r' := Arrive(r, i, false);
      Ahead(r') && r.next <= r'.next <= n && forall k :: k in r'.buffered ==> k < n
  {
    ArriveAhead(r, i, false);
    var b := r.buffered + {i};
    RunEndIsFrontier(b, r.next);
    if RunEnd(b, r.next) > n {
      assert n in b;
    }
  }

  lemma FrontierIsEnd(seen: set<nat>, from: nat, end: nat, n: nat)
    requires IsFrontier(seen, from, end) && from <= n && end <= n
    requires forall i :: from <= i < n ==> i in seen
    ensures end == n
  {
  }

  lemma HoldsNothing(recv: u32, pending: map<u32, Packet>, log: Log, base: nat, end: nat, buffered: set<nat>)
    requires Holds(recv, pending, log, base, end, buffered) && end == |log| && forall i :: i in buffered ==> i > end
    ensures pending == map[]
  {
    hide LogOk, Len, Low32, Bound, Wire;
    assert forall k :: k !in pending;
  }

  /** The round, in strict mode: from any reachable state in which the receiver is at
      most 2048 segments behind. */
  lemma RetransmissionResynchronises(x: Endpoint, y: Endpoint, ds: seq<Timed>, now: nat, gapTimeout: nat)
    requires Linked(x, y) && !y.session.allowGapSkip && |x.log| - y.rx.next <= 2048
    requires AllDue(x, now) && Batch(ds) == Resendings(x, now)
    ensures var y' := ReceiveBatch(y, ds, gapTimeout);
      && y'.session.recv == x.session.sent
      && y'.session.pending == map[]
  {
    hide Sends, EmissionsOk, AcksOk, DeliveryOk, Range, Holds, AllDue, Resendings, Timely, ReceiveAll, ReceiveBatch,
      IsFrontier, Batch, Segments, Wire, Delivers;
    FirstReached(x, y);
    BatchTimely(x, y, ds, now);
    var end := BufferIsSetOfArrivals(y.session, ToArrivals(ds), gapTimeout, x.log, x.base, y.rx);
    var seen := y.rx.buffered + Segments(ToArrivals(ds));
    RefinesNext(y.session, x.log, x.base, y.rx);
    forall i | y.rx.next <= i < |x.log| ensures i in seen {
      BatchCoversWindow(x, now, i);
      BatchSegments(ds, Logged(x.log, i));
    }
    FrontierIsEnd(seen, y.rx.next, end, |x.log|);
    forall k | 0 <= k < |ds| ensures Readable(ds[k].d) {
      BatchReadable(x, y, ds, now, k);
    }
    BatchSession(y, ds, gapTimeout);
    var s' := ReceiveAll(y.session, ToArrivals(ds), gapTimeout).0;
    HoldsNothing(s'.recv, s'.pending, x.log, x.base, end, Beyond(seen, end));
    SendsAtEnd(x);
  }

  lemma BatchReadable(x: Endpoint, y: Endpoint, ds: seq<Timed>, now: nat, k: nat)
    requires Linked(x, y) && Batch(ds) <= Resendings(x, now) && k < |ds|
    ensures Readable(ds[k].d)
  {
    hide Linked, Resendings, Readable;
    assert ds[k].d in Batch(ds);
    ResendingsAreOld(x, y, now);
    EmittedReadable(x, y, ds[k].d);
  }

  lemma FirstReached(x: Endpoint, y: Endpoint)
    requires Linked(x, y) && |x.log| - y.rx.next <= 2048
    ensures First(x) <= y.rx.next <= |x.log|
  {
    hide LogOk, Len, Low32, Bound, Wire, Tail, Refines, EmissionsOk, DeliveryOk, Range;
  }

  lemma BatchSegments(ds: seq<Timed>, d: Datagram)
    requires d in Batch(ds)
    ensures d.segment in Segments(ToArrivals(ds))
  {
    var k :| 0 <= k < |ds| && ds[k].d == d;
    assert ToArrivals(ds)[k].segment == d.segment;
  }

  lemma SendsAtEnd(x: Endpoint)
    requires Sends(x.session, x.log, x.base, x.greatestAck, x.evicted)
    ensures x.session.sent == Wire(x.log, x.base, |x.log|)
  {
  }

  /** Any packet carrying the caught-up receive offset empties the sender's window. */
  lemma CaughtUpAckEmptiesWindow(x: Endpoint, p: Packet)
    requires Sends(x.session, x.log, x.base, x.greatestAck, x.evicted)
    requires p.recv == x.session.sent
    ensures Heard(x.session, p).sentWindow == []
  {
    hide LogOk, Len, Low32, Bound, Wire;
    AcknowledgedSends(x.session, x.log, x.base, x.greatestAck, x.evicted, p, |x.log|);
  }

  /** After any run that left the receiver at most 2048 packets behind, however full
      the window once was: when all of it is due, one pass of the retransmission timer and
      one acknowledgement restore both ends: nothing missing, nothing buffered, nothing unacknowledged. */
  lemma ResynchroniseAfterAnyRun(
      sys: System, actions: seq<Action>, gapTimeout: nat, side: Side, ds: seq<Timed>, now: nat)
    requires Initial(sys) && Admissible(sys, actions, gapTimeout)
    requires !sys.At(side.Peer()).session.allowGapSkip
    requires |SentBodies(actions, side)| - Run(sys, actions, gapTimeout).At(side.Peer()).rx.next <= 2048
    requires AllDue(Run(sys, actions, gapTimeout).At(side), now)
    requires Batch(ds) == Resendings(Run(sys, actions, gapTimeout).At(side), now)
    ensures var after := Run(sys, actions, gapTimeout);
      var x := Resent(after.At(side), now);
      var y := ReceiveBatch(after.At(side.Peer()), ds, gapTimeout);
      && y.session.recv == x.session.sent && y.session.pending == map[]
      && Heard(x.session, NextPacket(y.session, Empty)).sentWindow == []
  {
    hide Initial, Admissible, SentBodies, AllDue, Batch, Resendings, Inv, Run, ReceiveBatch, Linked;
    var after := Run(sys, actions, gapTimeout);
    RunKeepsInv(sys, actions, gapTimeout);
    RunKeepsPolicy(sys, actions, gapTimeout);
    LinkedAt(after, side);
    LogIsWhatWasSent(sys, actions, gapTimeout, side);
    assert |after.At(side).log| == |LogBodies(after.At(side).log)|;
    var x, y := after.At(side), after.At(side.Peer());
    RetransmissionResynchronises(x, y, ds, now, gapTimeout);
    LinkedSends(x, y);
    RetriedSends(x.session, now, x.log, x.base, x.greatestAck, x.evicted);
    CaughtUpAckEmptiesWindow(Resent(x, now), NextPacket(ReceiveBatch(y, ds, gapTimeout).session, Empty));
  }

  lemma LinkedSends(x: Endpoint, y: Endpoint)
    requires Linked(x, y)
    ensures Sends(x.session, x.log, x.base, x.greatestAck, x.evicted)
  {
  }
}
