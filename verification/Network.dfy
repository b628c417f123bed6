/**
 Two sessions and a network between them that may lose, duplicate, delay and
 reorder every datagram. Nothing ever leaves `emitted`: a datagram may arrive
 any number of times, at any later moment, or never.

 The `log`, `base`, `rx`, `delivered`, `greatestAck` and `evicted` fields, and all of a
 datagram but its bytes, are bookkeeping of unbounded positions; what a session receives
 is what the bytes parse to.
 */
module Network {
  import opened Words
  import opened Codec
  import opened Options
  import opened SessionSpec
  import opened SessionFacts
  import opened Stream
  import opened Reordering
  import opened Receiver
  import opened Sender

  /** Bytes in flight; the packet they came from, the segment it starts at, and the peer
      segment it acknowledges up to. */
  datatype Datagram = Datagram(wire: bytes, packet: Packet, segment: nat, ack: nat)

  function OnWire(p: Packet, segment: nat, ack: nat): Datagram {
    Datagram(SerializePacket(p), p, segment, ack)
  }

  datatype Endpoint = Endpoint(
    session: SessionState,
    base: nat, log: Log, emitted: set<Datagram>, greatestAck: nat, evicted: nat,
    rx: Reorder, delivered: seq<nat>, output: seq<Packet>)

  datatype Side = Engine | Camera {
    function Peer(): Side {
      if this == Engine then Camera else Engine
    }
  }

  datatype System = System(engine: Endpoint, camera: Endpoint) {
    function At(side: Side): Endpoint {
      if side == Engine then engine else camera
    }

    function Put(side: Side, e: Endpoint): System {
      if side == Engine then this.(engine := e) else this.(camera := e)
    }
  }

  datatype Action =
    | Transmit(from: Side, body: Body, now: nat)
    | Retransmit(from: Side, now: nat)
    | Deliver(to: Side, d: Datagram, now: nat)
    | DeliverStale(to: Side, packet: Packet, start: int, ack: int, now: nat)

  function First(e: Endpoint): nat {
    Max(e.greatestAck, e.evicted)
  }

  function Range(a: nat, b: nat): seq<nat> {
    if a <= b then seq(b - a, k requires 0 <= k => a + k) else []
  }

  function Transmitted(me: Endpoint, body: Body, now: nat): Endpoint {
    me.(session := Sent(me.session, body, now),
        log := LogAfterSending(me.session, body, me.log, me.base, me.rx.next),
        evicted := EvictedBySending(me.session, body, First(me), me.evicted),
        emitted := me.emitted + {OnWire(NextPacket(me.session, body), |me.log|, me.rx.next)})
  }

  function Logged(log: Log, i: nat): Datagram
    requires i < |log|
  {
    OnWire(log[i].packet, i, log[i].ack)
  }

  /** The datagrams one pass of the retransmission timer puts on the wire. */
  function Resendings(me: Endpoint, now: nat): set<Datagram> {
    set j: nat | j < |me.session.sentWindow| && First(me) + j < |me.log| && IsDue(me.session.sentWindow[j], now)
      :: Logged(me.log, First(me) + j)
  }

  function Resent(me: Endpoint, now: nat): Endpoint {
    me.(session := me.session.(sentWindow := RetriedAll(me.session.sentWindow, now)),
        emitted := me.emitted + Resendings(me, now))
  }

  ghost predicate Placed(me: Endpoint, p: Packet) {
    Len(p.body) > 0 && Arriving(Heard(me.session, p), p)
  }

  ghost function Delivered(me: Endpoint, d: Datagram, now: nat, gapTimeout: nat): Endpoint {
    var (session, ready) := Received(me.session, d.packet, now, gapTimeout);
    var skips := Skips(Heard(me.session, d.packet), d.packet, now, gapTimeout);
    var heard := me.(session := session, greatestAck := Max(me.greatestAck, d.ack), output := me.output + ready);
    if Placed(me, d.packet) then
      var rx := Arrive(me.rx, d.segment, skips);
      heard.(rx := rx, delivered := me.delivered + Range(DeliveryStart(me.rx, d.segment, skips), rx.next))
    else heard
  }

  /** The datagram comes in: its bytes are parsed and the packet is received. A parser that
      panics ends the reader. */
  ghost function Arrived(me: Endpoint, d: Datagram, now: nat, gapTimeout: nat): Endpoint {
    match ParsePacket(d.wire)
    case Ok(p) => Delivered(me, d.(packet := p), now, gapTimeout)
    case Panicked => me
  }

  ghost function DeliveredStale(me: Endpoint, p: Packet, now: nat, gapTimeout: nat): Endpoint {
    var (session, ready) := Received(me.session, p, now, gapTimeout);
    me.(session := session, output := me.output + ready)
  }

  /** What the environment is assumed to respect: bodies are such as read back and fit a
      datagram, and what arrives is less than half the counter range old. */
  ghost predicate Enabled(sys: System, a: Action) {
    match a
    case Transmit(_, body, _) => Len(body) <= MAX_BODY && WireSafe(body)
    case Retransmit(_, _) => true
    case Deliver(to, d, _) =>
      var me, peer := sys.At(to), sys.At(to.Peer());
      && d in peer.emitted
      && (Len(d.packet.body) > 0 ==> StartNear(peer.log, peer.base, me.rx.next, d.segment))
      && AckNear(me.log, me.base, d.ack)
    case DeliverStale(to, p, start, ack, _) =>
      // Sent before this engine adopted the session: behind everything still open.
      var me, peer := sys.At(to), sys.At(to.Peer());
      && me.rx.next <= |peer.log|
      && p.sent == Low32(start) && p.recv == Low32(ack)
      && (Len(p.body) > 0 ==> 0 < Bound(peer.log, peer.base, me.rx.next) - start <= 0x8000_0000)
      && ack <= me.base && Bound(me.log, me.base, |me.log|) - ack <= 0x8000_0000
  }

  ghost function Step(sys: System, a: Action, gapTimeout: nat): System {
    match a
    case Transmit(from, body, now) => sys.Put(from, Transmitted(sys.At(from), body, now))
    case Retransmit(from, now) => sys.Put(from, Resent(sys.At(from), now))
    case Deliver(to, d, now) => sys.Put(to, Arrived(sys.At(to), d, now, gapTimeout))
    case DeliverStale(to, p, _, _, now) => sys.Put(to, DeliveredStale(sys.At(to), p, now, gapTimeout))
  }

  // ---- what every reachable state satisfies ----

  /** The bytes are those of the packet, and parse to it. */
  predicate Readable(d: Datagram) {
    d.wire == SerializePacket(d.packet) && WireSafe(d.packet.body)
  }

  lemma ReadableParses(d: Datagram)
    requires Readable(d)
    ensures ParsePacket(d.wire) == Ok(d.packet) && d.(packet := d.packet) == d
  {
    PacketRoundTrip(d.packet);
  }

  ghost predicate DataOk(d: Datagram, log: Log, base: nat) {
    && Readable(d)
    && d.segment <= |log|
    && d.packet.sent == Wire(log, base, d.segment)
    && (Len(d.packet.body) > 0 ==> d.segment < |log| && d.packet.body == log[d.segment].packet.body)
  }

  ghost predicate EmissionsOk(emitted: set<Datagram>, log: Log, base: nat) {
    && (forall d :: d in emitted ==> DataOk(d, log, base))
    && (forall i :: 0 <= i < |log| ==> Logged(log, i) in emitted)
  }

  ghost predicate AcksOk(emitted: set<Datagram>, log: Log, base: nat, next: nat) {
    next <= |log|
    && forall d :: d in emitted ==> d.ack <= next && d.packet.recv == Wire(log, base, d.ack)
  }

  /** The delivered segments, in strictly increasing order, are what was output. */
  ghost predicate DeliveryOk(delivered: seq<nat>, output: seq<Packet>, log: Log, next: nat) {
    && next <= |log| && |output| == |delivered|
    && (forall k :: 0 <= k < |delivered| ==> delivered[k] < next && output[k].body == log[delivered[k]].packet.body)
    && (forall j, k :: 0 <= j < k < |delivered| ==> delivered[j] < delivered[k])
  }

  /** Everything about the direction from `x` to `y`. */
  ghost predicate Linked(x: Endpoint, y: Endpoint) {
    && Sends(x.session, x.log, x.base, x.greatestAck, x.evicted)
    && Refines(y.session, x.log, x.base, y.rx)
    && EmissionsOk(x.emitted, x.log, x.base)
    && AcksOk(y.emitted, x.log, x.base, y.rx.next)
    && x.greatestAck <= y.rx.next
    && DeliveryOk(y.delivered, y.output, x.log, y.rx.next)
    && (!y.session.allowGapSkip ==> y.delivered == Range(0, y.rx.next))
  }

  ghost predicate Inv(sys: System) {
    Linked(sys.engine, sys.camera) && Linked(sys.camera, sys.engine)
  }

  ghost predicate InitialEndpoint(e: Endpoint, peerBase: nat) {
    && e.log == [] && e.emitted == {} && e.greatestAck == 0 && e.evicted == 0
    && e.rx == Reorder(0, {}) && e.delivered == [] && e.output == []
    && e.session.sent == Low32(e.base) && e.session.recv == Low32(peerBase)
    && e.session.pending == map[] && e.session.gapPackets == 0 && e.session.gapSince == None
    && e.session.sentWindow == []
  }

  ghost predicate Initial(sys: System) {
    InitialEndpoint(sys.engine, sys.camera.base) && InitialEndpoint(sys.camera, sys.engine.base)
  }

  lemma InitialInv(sys: System)
    requires Initial(sys)
    ensures Inv(sys)
  {
  }

  // ---- the sender's side of a transmission ----

  lemma HoldsExtend(
      recv: u32, pending: map<u32, Packet>, log: Log, base: nat, next: nat, buffered: set<nat>, s: Segment)
    requires Holds(recv, pending, log, base, next, buffered)
    requires s.start == Bound(log, base, |log|) && s.packet.sent == Low32(s.start) && 0 < Len(s.packet.body) <= MAX_BODY
    ensures Holds(recv, pending, log + [s], base, next, buffered)
  {
    hide LogOk, Low32, Len, Bound, Wire;
    LogAppend(log, base, s);
    forall i | i in buffered ensures (log + [s])[i] == log[i] {
    }
  }

  lemma EmissionsExtend(emitted: set<Datagram>, log: Log, base: nat, s: Segment)
    requires EmissionsOk(emitted, log, base) && LogOk(log, base)
    requires s.start == Bound(log, base, |log|) && s.packet.sent == Low32(s.start) && 0 < Len(s.packet.body) <= MAX_BODY
    requires WireSafe(s.packet.body)
    ensures EmissionsOk(emitted + {OnWire(s.packet, |log|, s.ack)}, log + [s], base)
  {
    hide LogOk, Low32, Len, Bound, Wire, WireSafe, SerializePacket;
    LogAppend(log, base, s);
    forall i | 0 <= i < |log| ensures Logged(log + [s], i) == Logged(log, i) {
    }
    WireNow(log, base, s);
  }

  lemma WireNow(log: Log, base: nat, s: Segment)
    requires s.start == Bound(log, base, |log|) && s.packet.sent == Low32(s.start)
    ensures Wire(log + [s], base, |log|) == s.packet.sent
  {
  }

  lemma EmissionsAfterTransmit(x: Endpoint, body: Body, now: nat)
    requires Sends(x.session, x.log, x.base, x.greatestAck, x.evicted)
    requires EmissionsOk(x.emitted, x.log, x.base) && Len(body) <= MAX_BODY && WireSafe(body)
    ensures var x' := Transmitted(x, body, now); EmissionsOk(x'.emitted, x'.log, x'.base)
  {
    hide LogOk, Low32, Len, Bound, Tail, WireSafe, SerializePacket;
    var p := NextPacket(x.session, body);
    if Len(body) > 0 {
      EmissionsExtend(x.emitted, x.log, x.base, Segment(Bound(x.log, x.base, |x.log|), p, x.rx.next));
    }
  }

  lemma PeerAfterTransmit(x: Endpoint, y: Endpoint, body: Body, now: nat)
    requires Linked(x, y) && Len(body) <= MAX_BODY
    ensures var x' := Transmitted(x, body, now);
      && Refines(y.session, x'.log, x'.base, y.rx)
      && AcksOk(y.emitted, x'.log, x'.base, y.rx.next)
      && DeliveryOk(y.delivered, y.output, x'.log, y.rx.next)
  {
    hide LogOk, Low32, Len, Bound, Tail, Holds, EmissionsOk;
    if Len(body) > 0 {
      var s := Segment(Bound(x.log, x.base, |x.log|), NextPacket(x.session, body), x.rx.next);
      HoldsExtend(y.session.recv, y.session.pending, x.log, x.base, y.rx.next, y.rx.buffered, s);
      LogAppend(x.log, x.base, s);
    }
  }

  lemma TransmitOut(x: Endpoint, y: Endpoint, body: Body, now: nat)
    requires Linked(x, y) && Len(body) <= MAX_BODY && WireSafe(body)
    ensures Linked(Transmitted(x, body, now), y)
  {
    hide WireSafe, SerializePacket, Sends, Refines, EmissionsOk, AcksOk, DeliveryOk, Sent, LogAfterSending, Range, Len;
    SentSends(x.session, body, now, x.log, x.base, x.greatestAck, x.evicted, x.rx.next);
    EmissionsAfterTransmit(x, body, now);
    PeerAfterTransmit(x, y, body, now);
  }

  lemma TransmitIn(x: Endpoint, y: Endpoint, body: Body, now: nat)
    requires Linked(y, x)
    ensures Linked(y, Transmitted(x, body, now))
  {
    hide LogOk, Low32, Len, Bound, EmissionsOk, DeliveryOk, Range, Sends;
  }

  // ---- retransmission ----

  /** A retransmission repeats a datagram already sent, old acknowledgement included. */
  lemma ResendingsAreOld(x: Endpoint, y: Endpoint, now: nat)
    requires Linked(x, y)
    ensures Resendings(x, now) <= x.emitted
  {
    hide LogOk, Low32, Len, Bound, DeliveryOk, Range, Sends, Refines, AcksOk;
  }

  lemma RetransmitOut(x: Endpoint, y: Endpoint, now: nat)
    requires Linked(x, y)
    ensures Linked(Resent(x, now), y)
  {
    hide LogOk, Low32, Len, Bound, DeliveryOk, Range, Sends, Refines, AcksOk, EmissionsOk;
    ResendingsAreOld(x, y, now);
    assert x.emitted + Resendings(x, now) == x.emitted;
    RetriedSends(x.session, now, x.log, x.base, x.greatestAck, x.evicted);
  }

  lemma RetransmitIn(x: Endpoint, y: Endpoint, now: nat)
    requires Linked(y, x) && Linked(x, y)
    ensures Linked(y, Resent(x, now))
  {
    hide LogOk, Low32, Len, Bound, DeliveryOk, Range, Sends, EmissionsOk, Holds;
    ResendingsAreOld(x, y, now);
    assert x.emitted + Resendings(x, now) == x.emitted;
  }

  // ---- delivery ----

  /** The receiving half after a delivery: what it did to the reorder buffer. */
  lemma DeliveredRefines(x: Endpoint, y: Endpoint, d: Datagram, now: nat, gapTimeout: nat)
    requires Refines(y.session, x.log, x.base, y.rx) && DataOk(d, x.log, x.base)
    requires Len(d.packet.body) > 0 ==> StartNear(x.log, x.base, y.rx.next, d.segment)
    ensures var y' := Delivered(y, d, now, gapTimeout);
      var ready := Received(y.session, d.packet, now, gapTimeout).1;
      var first := y'.rx.next - |ready|;
      && Refines(y'.session, x.log, x.base, y'.rx)
      && y.rx.next <= first && Delivers(ready, x.log, first, y'.rx.next)
      && y'.delivered == y.delivered + Range(first, y'.rx.next)
      && (!y.session.allowGapSkip ==> first == y.rx.next)
  {
    hide LogOk, Low32, Bound, Holds, Range, Drained, Nearest;
    var heard := Heard(y.session, d.packet);
    RefinesNext(y.session, x.log, x.base, y.rx);
    if Len(d.packet.body) == 0 {
      RangeEmpty(y.delivered, y.rx.next);
    } else {
      SegmentSize(x.log, x.base, d.segment);
      AcceptedRefines(heard, d.packet, now, gapTimeout, x.log, x.base, y.rx, d.segment);
      ArriveAhead(y.rx, d.segment, Skips(heard, d.packet, now, gapTimeout));
      RangeEmpty(y.delivered, y.rx.next);
    }
  }

  lemma RangeEmpty(delivered: seq<nat>, n: nat)
    ensures delivered + Range(n, n) == delivered
  {
  }

  lemma DeliveryExtends(
      delivered: seq<nat>, output: seq<Packet>, ready: seq<Packet>, log: Log, next: nat, first: nat, next': nat)
    requires DeliveryOk(delivered, output, log, next)
    requires next <= first && Delivers(ready, log, first, next')
    ensures DeliveryOk(delivered + Range(first, next'), output + ready, log, next')
  {
    var d', o', n := delivered + Range(first, next'), output + ready, |delivered|;
    assert |Range(first, next')| == |ready|;
    forall k | 0 <= k < |d'| ensures d'[k] < next' && o'[k].body == log[d'[k]].packet.body {
      if k >= n {
        assert d'[k] == first + (k - n) && o'[k] == ready[k - n];
      }
    }
  }

  lemma RangeJoins(a: nat, b: nat, c: nat)
    requires a <= b <= c
    ensures Range(a, b) + Range(b, c) == Range(a, c)
  {
  }

  lemma EmittedReadable(x: Endpoint, y: Endpoint, d: Datagram)
    requires Linked(x, y) && d in x.emitted
    ensures Readable(d)
  {
    hide LogOk, Low32, Bound, Holds, Range, Sends, DeliveryOk, Refines, Wire, AcksOk, Readable;
  }

  lemma DeliverIn(x: Endpoint, y: Endpoint, d: Datagram, now: nat, gapTimeout: nat)
    requires Linked(x, y) && d in x.emitted
    requires Len(d.packet.body) > 0 ==> StartNear(x.log, x.base, y.rx.next, d.segment)
    ensures Linked(x, Delivered(y, d, now, gapTimeout))
  {
    hide LogOk, Low32, Bound, Holds, Range, Drained, Nearest, Accepted, Sends, DeliveryOk, Refines, DataOk, Delivers,
      Wire;
    DeliveredRefines(x, y, d, now, gapTimeout);
    AcceptedKeepsSender(Heard(y.session, d.packet), d.packet, now, gapTimeout);
    var ready := Received(y.session, d.packet, now, gapTimeout).1;
    var y' := Delivered(y, d, now, gapTimeout);
    DeliveryExtends(y.delivered, y.output, ready, x.log, y.rx.next, y'.rx.next - |ready|, y'.rx.next);
    RefinesNext(y'.session, x.log, x.base, y'.rx);
    if !y.session.allowGapSkip {
      RangeJoins(0, y.rx.next, y'.rx.next);
    }
  }

  lemma DeliverOut(x: Endpoint, y: Endpoint, d: Datagram, now: nat, gapTimeout: nat)
    requires Linked(y, x) && d in x.emitted && AckNear(y.log, y.base, d.ack)
    ensures Linked(Delivered(y, d, now, gapTimeout), x)
  {
    hide LogOk, Low32, Bound, Holds, Range, Drained, Nearest, Accepted, DeliveryOk, Refines, EmissionsOk, Wire, Tail,
      AckNear;
    var heard := Heard(y.session, d.packet);
    AcknowledgedSends(y.session, y.log, y.base, y.greatestAck, y.evicted, d.packet, d.ack);
    AcceptedKeepsSender(heard, d.packet, now, gapTimeout);
  }

  // ---- datagrams from before the hand-over ----

  lemma StaleAckRemovesNothing(window: seq<Tracked>, log: Log, base: nat, first: nat, ack: int)
    requires LogOk(log, base) && Tail(window, log, first)
    requires ack <= base && Bound(log, base, |log|) - ack <= 0x8000_0000
    ensures Acknowledged(window, Low32(ack)) == window
  {
    hide LogOk, Low32, Bound, Wire, Len;
    if window != [] {
      SegmentSize(log, base, first);
      WireNext(log, base, first);
      BoundGrows(log, base, 0, first);
      BoundGrows(log, base, first + 1, |log|);
      BoundStart(log, base);
      SequenceAfterIsOrder(ack, Bound(log, base, first + 1));
      WireIsLow(log, base, first + 1);
    }
  }

  /** A datagram from before the hand-over changes nothing but `rmid`: it opens no
      gap, delivers nothing and discards nothing. */
  lemma StaleIsIgnored(x: Endpoint, y: Endpoint, p: Packet, start: int, ack: int, now: nat, gapTimeout: nat)
    requires Linked(x, y) && Linked(y, x)
    requires p.sent == Low32(start) && p.recv == Low32(ack)
    requires Len(p.body) > 0 ==> 0 < Bound(x.log, x.base, y.rx.next) - start <= 0x8000_0000
    requires ack <= y.base && Bound(y.log, y.base, |y.log|) - ack <= 0x8000_0000
    ensures DeliveredStale(y, p, now, gapTimeout) == y.(session := y.session.(rmid := p.lmid))
  {
    hide LogOk, Low32, Bound, Wire, Len, Drained, ReceivedBeyondGap, Holds, Tail, EmissionsOk, AcksOk, DeliveryOk,
      Range;
    StaleAckRemovesNothing(y.session.sentWindow, y.log, y.base, First(y), ack);
    RefinesNext(y.session, x.log, x.base, y.rx);
    if Len(p.body) > 0 {
      SequenceAfterIsOrder(start, Bound(x.log, x.base, y.rx.next));
      WireIsLow(x.log, x.base, y.rx.next);
    }
    assert y.output + [] == y.output;
  }

  lemma StaleKeeps(x: Endpoint, y: Endpoint, rmid: u32)
    requires Linked(x, y) && Linked(y, x)
    ensures var y' := y.(session := y.session.(rmid := rmid)); Linked(x, y') && Linked(y', x)
  {
    hide LogOk, Low32, Bound, Wire, Len, Holds, Tail, EmissionsOk, AcksOk, DeliveryOk, Range;
  }

  // ---- whole runs ----

  lemma StepKeepsInv(sys: System, a: Action, gapTimeout: nat)
    requires Inv(sys) && Enabled(sys, a)
    ensures Inv(Step(sys, a, gapTimeout))
  {
    hide Linked, Transmitted, Resent, Delivered, Bound, Low32, AckNear, StartNear, Len, WireSafe, Readable, ParsePacket;
    match a
    case Transmit(from, body, now) =>
      TransmitOut(sys.At(from), sys.At(from.Peer()), body, now);
      TransmitIn(sys.At(from), sys.At(from.Peer()), body, now);
    case Retransmit(from, now) =>
      RetransmitOut(sys.At(from), sys.At(from.Peer()), now);
      RetransmitIn(sys.At(from), sys.At(from.Peer()), now);
    case Deliver(to, d, now) =>
      EmittedReadable(sys.At(to.Peer()), sys.At(to), d);
      ReadableParses(d);
      DeliverIn(sys.At(to.Peer()), sys.At(to), d, now, gapTimeout);
      DeliverOut(sys.At(to.Peer()), sys.At(to), d, now, gapTimeout);
    case DeliverStale(to, p, start, ack, now) =>
      StaleIsIgnored(sys.At(to.Peer()), sys.At(to), p, start, ack, now, gapTimeout);
      StaleKeeps(sys.At(to.Peer()), sys.At(to), p.lmid);
  }

  /** The state after a run; the latest action is last. */
  ghost function Run(sys: System, actions: seq<Action>, gapTimeout: nat): System
  {
    if actions == [] then sys
    else Step(Run(sys, actions[..|actions| - 1], gapTimeout), actions[|actions| - 1], gapTimeout)
  }

  ghost predicate Admissible(sys: System, actions: seq<Action>, gapTimeout: nat)
  {
    forall k :: 0 <= k < |actions| ==> Enabled(Run(sys, actions[..k], gapTimeout), actions[k])
  }

  lemma {:induction false} RunKeepsInv(sys: System, actions: seq<Action>, gapTimeout: nat)
    requires Initial(sys) && Admissible(sys, actions, gapTimeout)
    ensures Inv(Run(sys, actions, gapTimeout))
  {
    hide Inv, Initial, Enabled, Step;
    if actions == [] {
      InitialInv(sys);
    } else {
      var n := |actions| - 1;
      var before := actions[..n];
      forall k | 0 <= k < |before| ensures Enabled(Run(sys, before[..k], gapTimeout), before[k]) {
        assert before[..k] == actions[..k];
      }
      RunKeepsInv(sys, before, gapTimeout);
      StepKeepsInv(Run(sys, before, gapTimeout), actions[n], gapTimeout);
    }
  }

  lemma {:induction false} RunKeepsPolicy(sys: System, actions: seq<Action>, gapTimeout: nat)
    ensures var after := Run(sys, actions, gapTimeout);
      && after.engine.session.allowGapSkip == sys.engine.session.allowGapSkip
      && after.camera.session.allowGapSkip == sys.camera.session.allowGapSkip
  {
    hide ParsePacket, Accepted, LogAfterSending, EvictedBySending, Resendings, Acknowledged, RetriedAll, Placed,
      Arrive, DeliveryStart;
    if actions != [] {
      var n := |actions| - 1;
      RunKeepsPolicy(sys, actions[..n], gapTimeout);
      var before, a := Run(sys, actions[..n], gapTimeout), actions[n];
      match a
      case Transmit(_, _, _) =>
      case Retransmit(_, _) =>
      case Deliver(to, d, now) =>
        var parsed := ParsePacket(d.wire);
        if parsed.Ok? {
          AcceptedKeepsSender(Heard(before.At(to).session, parsed.value), parsed.value, now, gapTimeout);
        }
      case DeliverStale(to, p, _, _, now) =>
        AcceptedKeepsSender(Heard(before.At(to).session, p), p, now, gapTimeout);
    }
  }
}
