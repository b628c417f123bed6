/** What the two-endpoint system guarantees over whole runs. */
module Safety {
  import opened Words
  import opened Codec
  import opened SessionSpec
  import opened SessionFacts
  import opened Stream
  import opened Reordering
  import opened Receiver
  import opened Sender
  import opened Network

  function Bodies(packets: seq<Packet>): (r: seq<Body>)
    ensures |r| == |packets| && forall k :: 0 <= k < |r| ==> r[k] == packets[k].body
  {
    seq(|packets|, k requires 0 <= k < |packets| => packets[k].body)
  }

  function LogBodies(log: Log): (r: seq<Body>)
    ensures |r| == |log| && forall k :: 0 <= k < |r| ==> r[k] == log[k].packet.body
  {
    seq(|log|, k requires 0 <= k < |log| => log[k].packet.body)
  }

  /** The non-empty bodies one side was asked to send, in order. */
  function SentBodies(actions: seq<Action>, side: Side): seq<Body> {
    if actions == [] then []
    else
      var last := actions[|actions| - 1];
      SentBodies(actions[..|actions| - 1], side)
        + (if last.Transmit? && last.from == side && Len(last.body) > 0 then [last.body] else [])
  }

  lemma StepLog(sys: System, a: Action, gapTimeout: nat, side: Side)
    ensures LogBodies(Step(sys, a, gapTimeout).At(side).log) == LogBodies(sys.At(side).log)
      + (if a.Transmit? && a.from == side && Len(a.body) > 0 then [a.body] else [])
    ensures Step(sys, a, gapTimeout).At(side).base == sys.At(side).base
  {
    hide Received, Sent, EvictedBySending, Resendings, RetriedAll, Placed, Arrive, DeliveryStart, Bound, Len;
  }

  lemma {:induction false} LogIsWhatWasSent(sys: System, actions: seq<Action>, gapTimeout: nat, side: Side)
    requires Initial(sys)
    ensures var after := Run(sys, actions, gapTimeout);
      LogBodies(after.At(side).log) == SentBodies(actions, side) && after.At(side).base == sys.At(side).base
  {
    hide Step, Len;
    if actions != [] {
      var n := |actions| - 1;
      LogIsWhatWasSent(sys, actions[..n], gapTimeout, side);
      StepLog(Run(sys, actions[..n], gapTimeout), actions[n], gapTimeout, side);
    }
  }

  lemma LinkedAt(sys: System, side: Side)
    requires Inv(sys)
    ensures Linked(sys.At(side), sys.At(side.Peer()))
  {
  }

  lemma RangeIsIdentity(n: nat)
    ensures |Range(0, n)| == n && forall k :: 0 <= k < n ==> Range(0, n)[k] == k
  {
  }

  lemma StrictOutput(x: Endpoint, y: Endpoint)
    requires Linked(x, y) && !y.session.allowGapSkip
    ensures y.rx.next <= |x.log| && Bodies(y.output) == LogBodies(x.log)[..y.rx.next]
  {
    hide Sends, Refines, EmissionsOk, AcksOk, Range;
    RangeIsIdentity(y.rx.next);
  }

  /** A reliable, ordered stream: whatever the network does, the bodies a strict
      session has handed on are a prefix of the bodies its peer sent. */
  lemma EndToEndSafety(sys: System, actions: seq<Action>, gapTimeout: nat, side: Side)
    requires Initial(sys) && Admissible(sys, actions, gapTimeout)
    requires !sys.At(side.Peer()).session.allowGapSkip
    ensures Bodies(Run(sys, actions, gapTimeout).At(side.Peer()).output) <= SentBodies(actions, side)
  {
    hide Admissible, Initial, Inv, Linked, Run, SentBodies;
    var after := Run(sys, actions, gapTimeout);
    RunKeepsInv(sys, actions, gapTimeout);
    RunKeepsPolicy(sys, actions, gapTimeout);
    LogIsWhatWasSent(sys, actions, gapTimeout, side);
    LinkedAt(after, side);
    StrictOutput(after.At(side), after.At(side.Peer()));
  }

  /** `at` picks out `part` from `whole` without going back. */
  ghost predicate IsSubsequence(part: seq<Body>, whole: seq<Body>, at: seq<nat>) {
    && |at| == |part|
    && (forall k :: 0 <= k < |at| ==> at[k] < |whole| && part[k] == whole[at[k]])
    && (forall j, k :: 0 <= j < k < |at| ==> at[j] < at[k])
  }

  /** With gap skipping allowed, what is handed on is still a subsequence of what
      was sent: nothing invented, repeated or reordered, and positions only grow. */
  lemma SkippingSafety(sys: System, actions: seq<Action>, gapTimeout: nat, side: Side)
    requires Initial(sys) && Admissible(sys, actions, gapTimeout)
    ensures var peer := Run(sys, actions, gapTimeout).At(side.Peer());
      IsSubsequence(Bodies(peer.output), SentBodies(actions, side), peer.delivered)
  {
    hide Admissible, Initial, Inv, Sends, Refines, EmissionsOk, AcksOk, Range;
    var after := Run(sys, actions, gapTimeout);
    RunKeepsInv(sys, actions, gapTimeout);
    LogIsWhatWasSent(sys, actions, gapTimeout, side);
    LinkedAt(after, side);
    var peer := after.At(side.Peer());
    forall k | 0 <= k < |peer.delivered|
      ensures peer.delivered[k] < |SentBodies(actions, side)|
        && Bodies(peer.output)[k] == SentBodies(actions, side)[peer.delivered[k]]
    {
    }
  }

  // ---- byte accounting ----

  /** Bytes the bodies occupy on the wire. */
  function WireBytes(bodies: seq<Body>): nat {
    if bodies == [] then 0
    else WireBytes(bodies[..|bodies| - 1]) + |SerializeBody(bodies[|bodies| - 1])|
  }

  lemma {:induction false} BoundIsBytes(log: Log, base: nat, i: nat)
    requires LogOk(log, base) && i <= |log|
    ensures Bound(log, base, i) == base + WireBytes(LogBodies(log)[..i])
    decreases i
  {
    hide Low32, Len, SerializeBody;
    if i == 0 {
      BoundStart(log, base);
    } else {
      BoundIsBytes(log, base, i - 1);
      SegmentSize(log, base, i - 1);
      var bodies := LogBodies(log)[..i];
      assert bodies[..i - 1] == LogBodies(log)[..i - 1];
      assert bodies[i - 1] == log[i - 1].packet.body;
    }
  }

  /** Both counters advance by exactly the body bytes: the sender's by all it
      sent, a strict receiver's by what it handed on, wrapping at 2^32. */
  lemma CountersCountBytes(sys: System, actions: seq<Action>, gapTimeout: nat, side: Side)
    requires Initial(sys) && Admissible(sys, actions, gapTimeout)
    ensures var after := Run(sys, actions, gapTimeout); var base := sys.At(side).base;
      && after.At(side).session.sent == Low32(base + WireBytes(SentBodies(actions, side)))
      && (!sys.At(side.Peer()).session.allowGapSkip ==>
            after.At(side.Peer()).session.recv == Low32(base + WireBytes(Bodies(after.At(side.Peer()).output))))
  {
    hide Admissible, Initial, Inv, Linked, Run, SentBodies, Low32, WireBytes;
    var after := Run(sys, actions, gapTimeout);
    RunKeepsInv(sys, actions, gapTimeout);
    RunKeepsPolicy(sys, actions, gapTimeout);
    LogIsWhatWasSent(sys, actions, gapTimeout, side);
    LinkedAt(after, side);
    CountersAt(after.At(side), after.At(side.Peer()));
    if !sys.At(side.Peer()).session.allowGapSkip {
      StrictOutput(after.At(side), after.At(side.Peer()));
    }
  }

  lemma CountersAt(x: Endpoint, y: Endpoint)
    requires Linked(x, y)
    ensures x.session.sent == Low32(x.base + WireBytes(LogBodies(x.log)))
    ensures y.rx.next <= |x.log|
    ensures y.session.recv == Low32(x.base + WireBytes(LogBodies(x.log)[..y.rx.next]))
  {
    hide LogOk, Holds, EmissionsOk, DeliveryOk, Range, Len, Low32, Bound, Tail, WireBytes, AcksOk;
    RefinesNext(y.session, x.log, x.base, y.rx);
    BoundIsBytes(x.log, x.base, |x.log|);
    BoundIsBytes(x.log, x.base, y.rx.next);
    assert LogBodies(x.log)[..|x.log|] == LogBodies(x.log);
  }

  // ---- message numbers ----

  function Messages(actions: seq<Action>, side: Side): nat {
    if actions == [] then 0
    else
      var last := actions[|actions| - 1];
      Messages(actions[..|actions| - 1], side) + if last.Transmit? && last.from == side then 1 else 0
  }

  /** Messages that are neither SYN nor empty acknowledgements. */
  function CountedMessages(actions: seq<Action>, side: Side): nat {
    if actions == [] then 0
    else
      var last := actions[|actions| - 1];
      CountedMessages(actions[..|actions| - 1], side)
        + if last.Transmit? && last.from == side && !last.body.Sync? && !last.body.Empty? then 1 else 0
  }

  /** The message id of the last datagram that reached a side, stale ones included. */
  function LastHeard(actions: seq<Action>, side: Side, initial: u32): u32 {
    if actions == [] then initial
    else
      match actions[|actions| - 1]
      case Deliver(to, d, _) =>
        if to == side then d.packet.lmid else LastHeard(actions[..|actions| - 1], side, initial)
      case DeliverStale(to, p, _, _, _) =>
        if to == side then p.lmid else LastHeard(actions[..|actions| - 1], side, initial)
      case _ => LastHeard(actions[..|actions| - 1], side, initial)
  }

  lemma AcceptedKeepsHeard(s: SessionState, p: Packet, now: nat, gapTimeout: nat)
    ensures Received(s, p, now, gapTimeout).0.rmid == p.lmid
    ensures var s' := Received(s, p, now, gapTimeout).0; s'.id == s.id && s'.count == s.count
  {
    hide DrainRun, Arriving, MaySkip, Acknowledged;
  }

  lemma AdmissibleBefore(sys: System, actions: seq<Action>, gapTimeout: nat)
    requires Initial(sys) && Admissible(sys, actions, gapTimeout) && actions != []
    ensures var n := |actions| - 1;
      && Admissible(sys, actions[..n], gapTimeout)
      && Inv(Run(sys, actions[..n], gapTimeout)) && Enabled(Run(sys, actions[..n], gapTimeout), actions[n])
  {
    hide Initial, Inv, Enabled, Run;
    var before := actions[..|actions| - 1];
    forall k | 0 <= k < |before| ensures Enabled(Run(sys, before[..k], gapTimeout), before[k]) {
      assert before[..k] == actions[..k];
    }
    RunKeepsInv(sys, before, gapTimeout);
  }

  /** A datagram that may be delivered arrives as it was sent. */
  lemma ArrivesAsSent(sys: System, a: Action, gapTimeout: nat)
    requires Inv(sys) && Enabled(sys, a) && a.Deliver?
    ensures Arrived(sys.At(a.to), a.d, a.now, gapTimeout) == Delivered(sys.At(a.to), a.d, a.now, gapTimeout)
  {
    hide Delivered, ParsePacket, Readable, Linked, StartNear, AckNear, Len;
    EmittedReadable(sys.At(a.to.Peer()), sys.At(a.to), a.d);
    ReadableParses(a.d);
  }

  lemma DeliveredFields(me: Endpoint, d: Datagram, now: nat, gapTimeout: nat)
    ensures var me' := Delivered(me, d, now, gapTimeout);
      && me'.session == Received(me.session, d.packet, now, gapTimeout).0
      && me'.greatestAck == Max(me.greatestAck, d.ack)
  {
    hide Received, Placed, Arrive, DeliveryStart, Skips;
  }

  lemma StepNumbers(sys: System, a: Action, gapTimeout: nat, side: Side)
    requires Inv(sys) && Enabled(sys, a)
    ensures var before, after := sys.At(side).session, Step(sys, a, gapTimeout).At(side).session;
      && after.id == Low32(before.id + if a.Transmit? && a.from == side then 1 else 0)
      && after.count == Low32(before.count
           + if a.Transmit? && a.from == side && !a.body.Sync? && !a.body.Empty? then 1 else 0)
      && after.rmid == if a.Deliver? && a.to == side then a.d.packet.lmid
                       else if a.DeliverStale? && a.to == side then a.packet.lmid else before.rmid
  {
    hide Received, Track, LogAfterSending, EvictedBySending, Resendings, RetriedAll, Placed, Arrive, DeliveryStart,
      Len, Inv, Enabled, Arrived, Delivered, Low32, OnWire, NextPacket, Logged;
    LowOfU32(sys.At(side).session.id);
    LowOfU32(sys.At(side).session.count);
    if a.Deliver? {
      ArrivesAsSent(sys, a, gapTimeout);
      DeliveredFields(sys.At(a.to), a.d, a.now, gapTimeout);
      AcceptedKeepsHeard(sys.At(a.to).session, a.d.packet, a.now, gapTimeout);
    } else if a.DeliverStale? {
      AcceptedKeepsHeard(sys.At(a.to).session, a.packet, a.now, gapTimeout);
    }
  }

  /** Every message takes the next id, every counted one the next packet number, and
      what is echoed is the id last heard. */
  lemma {:induction false} NumbersCountMessages(sys: System, actions: seq<Action>, gapTimeout: nat, side: Side)
    requires Initial(sys) && Admissible(sys, actions, gapTimeout)
    ensures var start, now := sys.At(side).session, Run(sys, actions, gapTimeout).At(side).session;
      && now.id == Low32(start.id + Messages(actions, side))
      && now.count == Low32(start.count + CountedMessages(actions, side))
      && now.rmid == LastHeard(actions, side, start.rmid)
  {
    hide Step, Low32, Initial, Admissible, Inv, Enabled;
    var start := sys.At(side).session;
    if actions == [] {
      LowOfU32(start.id);
      LowOfU32(start.count);
    } else {
      var n := |actions| - 1;
      var a, before := actions[n], Run(sys, actions[..n], gapTimeout);
      AdmissibleBefore(sys, actions, gapTimeout);
      NumbersCountMessages(sys, actions[..n], gapTimeout, side);
      StepNumbers(before, a, gapTimeout, side);
      LowAdd(start.id + Messages(actions[..n], side), if a.Transmit? && a.from == side then 1 else 0);
      LowAdd(start.count + CountedMessages(actions[..n], side),
        if a.Transmit? && a.from == side && !a.body.Sync? && !a.body.Empty? then 1 else 0);
    }
  }

  lemma LowOfU32(x: u32)
    ensures Low32(x) == x
  {
  }

  // ---- what a datagram says ----

  /** The packet that `body` travels in when a side sends it after `actions`: counted from
      what the side started with, `start`, and from what it did and heard since. */
  ghost predicate Says(
      p: Packet, body: Body, start: Endpoint, recv: u32, actions: seq<Action>, side: Side)
  {
    && p.body == body && p.recv == recv
    && p.sent == Low32(start.base + WireBytes(SentBodies(actions, side)))
    && p.lmid == Low32(start.session.id + Messages(actions, side))
    && p.rmid == LastHeard(actions, side, start.session.rmid)
    && p.pid == if body.Sync? then 0x0002FFFF
                else Low32(0xFFFF - (start.session.count + CountedMessages(actions, side)))
  }

  lemma DownFrom(x: int)
    ensures WrapSub(0xFFFF, Low32(x)) == Low32(0xFFFF - x)
  {
    LowOfU32(0xFFFF);
    WrapSubIsDistance(0xFFFF, x);
  }

  lemma EmissionParses(me: Endpoint, body: Body, now: nat)
    requires WireSafe(body)
    ensures exists d ::
      && Transmitted(me, body, now).emitted == me.emitted + {d}
      && ParsePacket(d.wire) == Ok(NextPacket(me.session, body))
  {
    hide Sent, LogAfterSending, EvictedBySending, NextPacket, ParsePacket, SerializePacket, WireSafe;
    var p := NextPacket(me.session, body);
    BodyOfNext(me.session, body);
    PacketRoundTrip(p);
    assert Transmitted(me, body, now).emitted == me.emitted + {OnWire(p, |me.log|, me.rx.next)};
  }

  lemma BodyOfNext(s: SessionState, body: Body)
    ensures NextPacket(s, body).body == body
  {
  }

  lemma NextSays(s: SessionState, body: Body)
    ensures var p := NextPacket(s, body);
      && p.body == body && p.sent == s.sent && p.recv == s.recv && p.lmid == s.id && p.rmid == s.rmid
      && p.pid == if body.Sync? then 0x0002FFFF else WrapSub(0xFFFF, s.count)
  {
  }

  /** After any run, what a send puts on the wire parses to a packet with the body sent, at
      the byte count so far, acknowledging the receive offset, under the next message id
      and packet number, and echoing the id last heard. */
  lemma DatagramSays(
      sys: System, actions: seq<Action>, gapTimeout: nat, side: Side, body: Body, now: nat)
    requires Initial(sys) && Admissible(sys, actions, gapTimeout) && WireSafe(body)
    ensures var before := Run(sys, actions, gapTimeout);
      var after := Step(before, Transmit(side, body, now), gapTimeout);
      exists d ::
        && after.At(side).emitted == before.At(side).emitted + {d}
        && ParsePacket(d.wire).Ok?
        && Says(ParsePacket(d.wire).value, body, sys.At(side), before.At(side).session.recv, actions, side)
  {
    hide Run, Initial, Admissible, Transmitted, NextPacket, ParsePacket, WireSafe, Low32, WireBytes, SentBodies,
      Messages, CountedMessages, LastHeard;
    var me, start := Run(sys, actions, gapTimeout).At(side), sys.At(side);
    CountersCountBytes(sys, actions, gapTimeout, side);
    NumbersCountMessages(sys, actions, gapTimeout, side);
    DownFrom(start.session.count + CountedMessages(actions, side));
    EmissionParses(me, body, now);
    NextSays(me.session, body);
    var d :| Transmitted(me, body, now).emitted == me.emitted + {d}
      && ParsePacket(d.wire) == Ok(NextPacket(me.session, body));
    assert Says(ParsePacket(d.wire).value, body, start, me.session.recv, actions, side);
  }

  // ---- the send window ----

  /** The greatest acknowledgement that has reached a side, however stale the later ones. */
  function GreatestAckHeard(actions: seq<Action>, side: Side): nat {
    if actions == [] then 0
    else
      var last := actions[|actions| - 1];
      var before := GreatestAckHeard(actions[..|actions| - 1], side);
      if last.Deliver? && last.to == side then Max(before, last.d.ack) else before
  }

  lemma StepAck(sys: System, a: Action, gapTimeout: nat, side: Side)
    requires Inv(sys) && Enabled(sys, a)
    ensures Step(sys, a, gapTimeout).At(side).greatestAck
      == if a.Deliver? && a.to == side then Max(sys.At(side).greatestAck, a.d.ack) else sys.At(side).greatestAck
  {
    hide Inv, Enabled, Arrived, Delivered, Received, Sent, LogAfterSending, EvictedBySending, Resendings, RetriedAll,
      Placed, Arrive, DeliveryStart;
    if a.Deliver? {
      ArrivesAsSent(sys, a, gapTimeout);
      DeliveredFields(sys.At(a.to), a.d, a.now, gapTimeout);
    }
  }

  lemma {:induction false} AckIsGreatestHeard(sys: System, actions: seq<Action>, gapTimeout: nat, side: Side)
    requires Initial(sys) && Admissible(sys, actions, gapTimeout)
    ensures Run(sys, actions, gapTimeout).At(side).greatestAck == GreatestAckHeard(actions, side)
  {
    hide Step, Admissible, Inv, Enabled;
    if actions != [] {
      var n := |actions| - 1;
      AdmissibleBefore(sys, actions, gapTimeout);
      AckIsGreatestHeard(sys, actions[..n], gapTimeout, side);
      StepAck(Run(sys, actions[..n], gapTimeout), actions[n], gapTimeout, side);
    }
  }

  /** The window of a side never overflows during the run. */
  ghost predicate NeverFull(sys: System, actions: seq<Action>, gapTimeout: nat, side: Side) {
    forall k :: 0 <= k < |actions| && actions[k].Transmit? && actions[k].from == side && Len(actions[k].body) > 0 ==>
      |Run(sys, actions[..k], gapTimeout).At(side).session.sentWindow| < MAX_SENT_WINDOW
  }

  lemma StepEvicted(sys: System, a: Action, gapTimeout: nat, side: Side)
    requires a.Transmit? && a.from == side && Len(a.body) > 0 ==>
      |sys.At(side).session.sentWindow| < MAX_SENT_WINDOW
    ensures Step(sys, a, gapTimeout).At(side).evicted == sys.At(side).evicted
  {
    hide Received, Sent, LogAfterSending, Resendings, RetriedAll, Placed, Arrive, DeliveryStart, Len;
  }

  lemma {:induction false} NothingEvicted(sys: System, actions: seq<Action>, gapTimeout: nat, side: Side)
    requires Initial(sys) && NeverFull(sys, actions, gapTimeout, side)
    ensures Run(sys, actions, gapTimeout).At(side).evicted == 0
  {
    hide Step, Len;
    if actions != [] {
      var n := |actions| - 1;
      forall k | 0 <= k < n
        && actions[..n][k].Transmit? && actions[..n][k].from == side && Len(actions[..n][k].body) > 0
        ensures |Run(sys, actions[..n][..k], gapTimeout).At(side).session.sentWindow| < MAX_SENT_WINDOW
      {
        assert actions[..n][..k] == actions[..k];
      }
      NothingEvicted(sys, actions[..n], gapTimeout, side);
      StepEvicted(Run(sys, actions[..n], gapTimeout), actions[n], gapTimeout, side);
    }
  }

  /** Consecutive window entries touch, and the last one ends at `sent`. */
  ghost predicate WindowContiguous(s: SessionState) {
    && (forall j, k :: 0 <= j < k < |s.sentWindow| && k <= j + 1 ==>
          End(s.sentWindow[j].packet) == s.sentWindow[k].packet.sent)
    && (s.sentWindow != [] ==> End(s.sentWindow[|s.sentWindow| - 1].packet) == s.sent)
  }

  lemma SendsContiguous(s: SessionState, log: Log, base: nat, greatestAck: nat, evicted: nat)
    requires Sends(s, log, base, greatestAck, evicted)
    ensures WindowContiguous(s)
  {
    hide Low32, Len, Bound, LogOk;
    var first := Max(greatestAck, evicted);
    forall j, k | 0 <= j < k < |s.sentWindow| && k <= j + 1
      ensures End(s.sentWindow[j].packet) == s.sentWindow[k].packet.sent
    {
      SegmentSize(log, base, first + j);
      SegmentSize(log, base, first + k);
      WireNext(log, base, first + j);
    }
    if s.sentWindow != [] {
      SegmentSize(log, base, |log| - 1);
      WireNext(log, base, |log| - 1);
    }
  }

  /** How many of `n` packets a full window has no room for. */
  function Excess(n: nat): nat {
    if n > 2048 then n - 2048 else 0
  }

  lemma FirstIsClosed(x: Endpoint)
    requires Sends(x.session, x.log, x.base, x.greatestAck, x.evicted)
    ensures First(x) == Max(x.greatestAck, Excess(|x.log|))
  {
    hide LogOk, Len, Low32, Bound, Wire;
  }

  /** After any run the window is exactly what was sent beyond the greatest
      acknowledgement heard, cut down to the latest 2048 packets: contiguous, ending
      at `sent`, and under 2^31 bytes. */
  lemma WindowExact(sys: System, actions: seq<Action>, gapTimeout: nat, side: Side)
    requires Initial(sys) && Admissible(sys, actions, gapTimeout)
    ensures var x := Run(sys, actions, gapTimeout).At(side);
      var first := Max(GreatestAckHeard(actions, side), Excess(|SentBodies(actions, side)|));
      && LogBodies(x.log) == SentBodies(actions, side)
      && Tail(x.session.sentWindow, x.log, first)
      && WindowContiguous(x.session)
      && |x.session.sentWindow| <= 2048
      && Bound(x.log, x.base, |x.log|) - Bound(x.log, x.base, first) < 0x8000_0000
      && (NeverFull(sys, actions, gapTimeout, side) ==> first == GreatestAckHeard(actions, side))
  {
    hide Admissible, Initial, Inv, LogOk, Refines, EmissionsOk, AcksOk, DeliveryOk, Range, Len, Low32, Bound, Tail,
      NeverFull, WindowContiguous, Excess;
    var after := Run(sys, actions, gapTimeout);
    RunKeepsInv(sys, actions, gapTimeout);
    LinkedAt(after, side);
    AckIsGreatestHeard(sys, actions, gapTimeout, side);
    LogIsWhatWasSent(sys, actions, gapTimeout, side);
    var x := after.At(side);
    assert |x.log| == |LogBodies(x.log)|;
    FirstIsClosed(x);
    SendsContiguous(x.session, x.log, x.base, x.greatestAck, x.evicted);
    WindowSpan(x.session.sentWindow, x.log, x.base, First(x));
    if NeverFull(sys, actions, gapTimeout, side) {
      NothingEvicted(sys, actions, gapTimeout, side);
    }
  }

  /** Segment `i` is still held for retransmission: it has its place in the window,
      which ends with the latest segment. */
  ghost predicate Retained(x: Endpoint, i: nat) {
    exists j :: 0 <= j < |x.session.sentWindow| && |x.log| - |x.session.sentWindow| + j == i
             && i < |x.log| && x.session.sentWindow[j].packet == x.log[i].packet
  }

  lemma RetainedWhen(x: Endpoint, i: nat)
    requires Sends(x.session, x.log, x.base, x.greatestAck, x.evicted) && i < |x.log|
    ensures Retained(x, i) <==> First(x) <= i
  {
    hide LogOk, Len, Low32, Bound, Wire;
    if First(x) <= i {
      var j := i - First(x);
      assert x.session.sentWindow[j].packet == x.log[First(x) + j].packet;
    }
  }

  /** No premature discard: a segment the peer has not consumed is held exactly if it
      is among the latest 2048 sent. Stale acknowledgements do no harm. */
  lemma NoPrematureDiscard(sys: System, actions: seq<Action>, gapTimeout: nat, side: Side, i: nat)
    requires Initial(sys) && Admissible(sys, actions, gapTimeout)
    requires Run(sys, actions, gapTimeout).At(side.Peer()).rx.next <= i < |SentBodies(actions, side)|
    ensures Retained(Run(sys, actions, gapTimeout).At(side), i)
        <==> |SentBodies(actions, side)| - i <= 2048
    ensures NeverFull(sys, actions, gapTimeout, side) ==> Retained(Run(sys, actions, gapTimeout).At(side), i)
  {
    hide Admissible, Initial, Inv, LogOk, Refines, EmissionsOk, DeliveryOk, Range, Len, Low32, Bound, NeverFull,
      Retained, Tail;
    var after := Run(sys, actions, gapTimeout);
    RunKeepsInv(sys, actions, gapTimeout);
    LinkedAt(after, side);
    LogIsWhatWasSent(sys, actions, gapTimeout, side);
    var x := after.At(side);
    assert |x.log| == |LogBodies(x.log)|;
    FirstIsClosed(x);
    RetainedWhen(x, i);
    if NeverFull(sys, actions, gapTimeout, side) {
      NothingEvicted(sys, actions, gapTimeout, side);
    }
  }

  /** `n` sends in a row, and nothing arrives. */
  function Burst(n: nat, side: Side, body: Body, now: nat): (r: seq<Action>)
    ensures |r| == n && forall k :: 0 <= k < n ==> r[k] == Transmit(side, body, now)
  {
    seq(n, _ => Transmit(side, body, now))
  }

  lemma {:induction false} BurstRun(sys: System, n: nat, side: Side, body: Body, now: nat, gapTimeout: nat)
    requires 0 < Len(body) <= MAX_BODY && WireSafe(body)
    ensures var actions := Burst(n, side, body, now);
      && Admissible(sys, actions, gapTimeout)
      && |SentBodies(actions, side)| == n
      && Run(sys, actions, gapTimeout).At(side.Peer()) == sys.At(side.Peer())
  {
    hide Transmitted, Len;
    var actions := Burst(n, side, body, now);
    if n > 0 {
      assert actions[..n - 1] == Burst(n - 1, side, body, now);
      BurstRun(sys, n - 1, side, body, now, gapTimeout);
    }
  }

  /** A burst of 2049 packets into silence loses the first: the peer still lacks it,
      the window does not hold it, and no later pass of the timer sends it again. */
  lemma OverflowDiscards(sys: System, side: Side, body: Body, now: nat, gapTimeout: nat)
    requires Initial(sys) && 0 < Len(body) <= MAX_BODY && WireSafe(body)
    ensures var actions := Burst(2049, side, body, now);
      var after := Run(sys, actions, gapTimeout);
      && Admissible(sys, actions, gapTimeout)
      && after.At(side.Peer()).rx.next == 0 && after.At(side.Peer()).output == []
      && !Retained(after.At(side), 0)
      && forall later, d :: d in Resendings(after.At(side), later) ==> d.segment > 0
  {
    hide Inv, Admissible, Run, Retained, SentBodies, LogOk, Refines, EmissionsOk, AcksOk, DeliveryOk, Range, Len,
      Low32, Bound, Tail;
    var actions := Burst(2049, side, body, now);
    var after := Run(sys, actions, gapTimeout);
    BurstRun(sys, 2049, side, body, now, gapTimeout);
    NoPrematureDiscard(sys, actions, gapTimeout, side, 0);
    RunKeepsInv(sys, actions, gapTimeout);
    LinkedAt(after, side);
    LogIsWhatWasSent(sys, actions, gapTimeout, side);
    assert |after.At(side).log| == |LogBodies(after.At(side).log)|;
    RetainedWhen(after.At(side), 0);
  }
}
