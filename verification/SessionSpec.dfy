/**
 What each `PTCPSession` operation does to the session, as functions on values.
 The class in `Session` is proved against these; the protocol theorems are
 proved about them. Time is passed in, in milliseconds.
 */
module SessionSpec {
  import opened Words
  import opened Codec
  import opened Options

  datatype Tracked = Tracked(packet: Packet, lastSent: nat, retries: nat)

  datatype SessionState = SessionState(
    sent: u32, recv: u32, count: u32, id: u32, rmid: u32,
    pending: map<u32, Packet>,
    gapPackets: nat, gapSince: Option<nat>, lastProgress: nat,
    sentWindow: seq<Tracked>,
    allowGapSkip: bool)

  const GAP_PACKET_LIMIT: nat := 32
  const RETRANSMIT_AFTER: nat := 600
  const MAX_RETRANSMITS: nat := 50
  const MAX_SENT_WINDOW: nat := 2048
  const STALL_GRACE: nat := 15_000

  /** Saturating, as `Instant::elapsed` is. */
  function Elapsed(now: nat, since: nat): nat {
    if now >= since then now - since else 0
  }

  function End(p: Packet): u32 {
    Low32(p.sent + Len(p.body))
  }

  // ---- sending ----

  function PacketId(body: Body, count: u32): u32 {
    if body.Sync? then 0x0002FFFF else WrapSub(0x0000FFFF, count)
  }

  function NextPacket(s: SessionState, body: Body): Packet {
    Packet(s.sent, s.recv, PacketId(body, s.count), s.id, s.rmid, body)
  }

  /** Remember one more unacknowledged packet, forgetting the oldest when full. */
  function Track(window: seq<Tracked>, p: Packet, now: nat): seq<Tracked> {
    (if |window| >= MAX_SENT_WINDOW then window[1..] else window) + [Tracked(p, now, 0)]
  }

  function Sent(s: SessionState, body: Body, now: nat): SessionState {
    s.(sent := Low32(s.sent + Len(body)),
       id := Low32(s.id + 1),
       count := Low32(s.count + if body.Sync? || body.Empty? then 0 else 1),
       sentWindow := if Len(body) > 0 then Track(s.sentWindow, NextPacket(s, body), now) else s.sentWindow)
  }

  // ---- acknowledgements and retransmission ----

  predicate Covers(ack: u32, p: Packet) {
    End(p) == ack || SequenceAfter(ack, End(p))
  }

  function Acknowledged(window: seq<Tracked>, ack: u32): seq<Tracked> {
    if window == [] || !Covers(ack, window[0].packet) then window
    else Acknowledged(window[1..], ack)
  }

  predicate IsDue(t: Tracked, now: nat) {
    t.retries < MAX_RETRANSMITS && Elapsed(now, t.lastSent) >= RETRANSMIT_AFTER
  }

  function Retried(t: Tracked, now: nat): Tracked {
    if IsDue(t, now) then t.(lastSent := now, retries := t.retries + 1) else t
  }

  function RetriedAll(window: seq<Tracked>, now: nat): (r: seq<Tracked>)
    ensures |r| == |window|
    ensures forall i :: 0 <= i < |window| ==> r[i] == Retried(window[i], now)
  {
    seq(|window|, i requires 0 <= i < |window| => Retried(window[i], now))
  }

  function Due(window: seq<Tracked>, now: nat): seq<Packet> {
    if window == [] then []
    else
      var last := window[|window| - 1];
      Due(window[..|window| - 1], now) + (if IsDue(last, now) then [last.packet] else [])
  }

  predicate Stalled(s: SessionState, now: nat) {
    exists i :: 0 <= i < |s.sentWindow| && s.sentWindow[i].retries >= MAX_RETRANSMITS
             && Elapsed(now, s.lastProgress) >= STALL_GRACE
  }

  // ---- receiving ----

  datatype Drain = Drain(ready: seq<Packet>, recv: u32, pending: map<u32, Packet>)

  /** Take buffered packets for as long as one starts at the receive offset. */
  function DrainRun(recv: u32, pending: map<u32, Packet>): Drain
    decreases |pending|
  {
    if recv !in pending then Drain([], recv, pending)
    else
      var p := pending[recv];
      var rest := pending - {recv};
      assert |rest| < |pending| by { DropShrinks(pending, recv); }
      var d := DrainRun(Low32(recv + Len(p.body)), rest);
      d.(ready := [p] + d.ready)
  }

  lemma DropShrinks<K, V>(m: map<K, V>, k: K)
    requires k in m
    ensures |m - {k}| == |m| - 1
  {
    assert (m - {k}).Keys == m.Keys - {k};
    assert |m.Keys - {k}| == |m.Keys| - 1;
    assert |m| == |m.Keys| && |m - {k}| == |(m - {k}).Keys|;
  }

  function Drained(s: SessionState, now: nat): (SessionState, seq<Packet>) {
    var d := DrainRun(s.recv, s.pending);
    (s.(recv := d.recv,
        pending := d.pending,
        lastProgress := if d.ready == [] then s.lastProgress else now,
        gapPackets := if d.pending == map[] then 0 else 1,
        gapSince := if d.pending == map[] then None else s.gapSince),
     d.ready)
  }

  predicate IsRecoveryCommand(p: Packet) {
    p.pid / 0x100_0000 == 0x01
  }

  predicate PayloadPending(pending: map<u32, Packet>) {
    exists k :: k in pending && pending[k].body.Payload?
  }

  predicate GapExpired(s: SessionState, now: nat, gapTimeout: nat) {
    s.gapSince.Some? && Elapsed(now, s.gapSince.value) >= gapTimeout
  }

  /** May the session give up on the missing bytes before `p`, just buffered? */
  predicate MaySkip(s: SessionState, p: Packet, now: nat, gapTimeout: nat) {
    var expired := GapExpired(s, now, gapTimeout);
    && s.allowGapSkip
    && ((!p.body.Payload? && !PayloadPending(s.pending)) || expired)
    && (IsRecoveryCommand(p) || s.gapPackets >= GAP_PACKET_LIMIT || expired)
  }

  /** `k` is the first buffered start ahead of the receive offset, going round the counter. */
  predicate IsNearest(k: u32, recv: u32, pending: map<u32, Packet>) {
    && k in pending && SequenceAfter(k, recv)
    && forall other :: other in pending && SequenceAfter(other, recv) ==> WrapSub(k, recv) <= WrapSub(other, recv)
  }

  lemma NearestUnique(a: u32, b: u32, recv: u32, pending: map<u32, Packet>)
    requires IsNearest(a, recv, pending) && IsNearest(b, recv, pending)
    ensures a == b
  {
    assert WrapSub(a, recv) == WrapSub(b, recv);
    assert (a - recv) - (b - recv) == a - b;
  }

  lemma NearestExists(keys: set<u32>, recv: u32, pending: map<u32, Packet>) returns (k: u32)
    requires keys <= pending.Keys && exists x :: x in keys && SequenceAfter(x, recv)
    ensures k in keys && SequenceAfter(k, recv)
    ensures forall x :: x in keys && SequenceAfter(x, recv) ==> WrapSub(k, recv) <= WrapSub(x, recv)
    decreases |keys|
  {
    k :| k in keys && SequenceAfter(k, recv);
    var rest := keys - {k};
    if exists x :: x in rest && SequenceAfter(x, recv) {
      var other := NearestExists(rest, recv, pending);
      if WrapSub(other, recv) < WrapSub(k, recv) {
        k := other;
      }
    }
  }

  ghost function Nearest(recv: u32, pending: map<u32, Packet>): (k: u32)
    requires exists x :: x in pending && SequenceAfter(x, recv)
    ensures IsNearest(k, recv, pending)
  {
    assert exists k :: IsNearest(k, recv, pending) by {
      var k := NearestExists(pending.Keys, recv, pending);
      assert IsNearest(k, recv, pending);
    }
    var k :| IsNearest(k, recv, pending);
    k
  }

  predicate Arriving(s: SessionState, p: Packet) {
    (p.sent == s.recv || SequenceAfter(p.sent, s.recv)) && SequenceAfter(End(p), s.recv)
  }

  /** Set aside a packet that lies beyond a gap. */
  function Buffered(s: SessionState, p: Packet, now: nat): SessionState {
    s.(pending := s.pending[p.sent := p],
       gapPackets := s.gapPackets + 1,
       gapSince := if s.gapSince.None? then Some(now) else s.gapSince)
  }

  /** A new packet beyond a gap: set it aside, and perhaps give up on the gap. */
  ghost function ReceivedBeyondGap(s: SessionState, p: Packet, now: nat, gapTimeout: nat): (SessionState, seq<Packet>)
    requires SequenceAfter(p.sent, s.recv)
  {
    var buffered := Buffered(s, p, now);
    if MaySkip(buffered, p, now, gapTimeout) then
      assert p.sent in buffered.pending;
      Drained(buffered.(recv := Nearest(buffered.recv, buffered.pending)), now)
    else (buffered, [])
  }

  function Heard(s: SessionState, p: Packet): SessionState {
    s.(rmid := p.lmid, sentWindow := Acknowledged(s.sentWindow, p.recv))
  }

  ghost function Accepted(s: SessionState, p: Packet, now: nat, gapTimeout: nat): (SessionState, seq<Packet>) {
    if Len(p.body) == 0 || !Arriving(s, p) then (s, [])
    else if p.sent == s.recv then Drained(s.(pending := s.pending[p.sent := p]), now)
    else if p.sent in s.pending then (s, [])
    else ReceivedBeyondGap(s, p, now, gapTimeout)
  }

  ghost function Received(s: SessionState, p: Packet, now: nat, gapTimeout: nat): (SessionState, seq<Packet>) {
    Accepted(Heard(s, p), p, now, gapTimeout)
  }
}
