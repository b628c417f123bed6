/**
 The sending half of a session: its window of unacknowledged packets is always
 the tail of what has been sent, from the greatest acknowledgement on.
 */
module Sender {
  import opened Words
  import opened Codec
  import opened SessionSpec
  import opened SessionFacts
  import opened Stream

  function Max(a: nat, b: nat): nat {
    if a >= b then a else b
  }

  /** The window is the log from segment `first` on. */
  ghost predicate Tail(window: seq<Tracked>, log: Log, first: nat) {
    && first + |window| == |log|
    && forall j :: 0 <= j < |window| ==> window[j].packet == log[first + j].packet
  }

  lemma TailSize(window: seq<Tracked>, log: Log, first: nat)
    requires Tail(window, log, first)
    ensures first + |window| == |log|
  {
  }

  /** The sending half: `greatestAck` segments acknowledged at most, `evicted`
      segments given up because the window was full. */
  ghost predicate Sends(s: SessionState, log: Log, base: nat, greatestAck: nat, evicted: nat) {
    && LogOk(log, base)
    && s.sent == Wire(log, base, |log|)
    && |s.sentWindow| <= MAX_SENT_WINDOW
    && Tail(s.sentWindow, log, Max(greatestAck, evicted))
    && (evicted > 0 ==> evicted + MAX_SENT_WINDOW <= |log|)
  }

  /** The window of a sender never spans 2^31 bytes. */
  lemma WindowSpan(window: seq<Tracked>, log: Log, base: nat, first: nat)
    requires LogOk(log, base) && Tail(window, log, first) && |window| <= MAX_SENT_WINDOW
    ensures Bound(log, base, |log|) - Bound(log, base, first) < 0x8000_0000
  {
    hide Low32, LogOk, Len, Bound;
    BoundGrows(log, base, first, |log|);
  }

  /** Acknowledgements compare truly while the acknowledged boundary is at most
      2^31 bytes behind the end of the log. */
  ghost predicate AckNear(log: Log, base: nat, k: nat) {
    k <= |log| && Bound(log, base, |log|) - Bound(log, base, k) <= 0x8000_0000
  }

  lemma CoversExactly(log: Log, base: nat, i: nat, k: nat)
    requires LogOk(log, base) && i < |log| && AckNear(log, base, k)
    requires Bound(log, base, |log|) - Bound(log, base, i) < 0x8000_0000
    ensures Covers(Wire(log, base, k), log[i].packet) <==> i < k
  {
    hide Low32, LogOk, Len, Bound;
    SegmentSize(log, base, i);
    WireNext(log, base, i);
    BoundGrows(log, base, i + 1, |log|);
    BoundGrows(log, base, k, |log|);
    WireOrder(log, base, k, i + 1);
  }

  /** An acknowledgement, current or stale, removes exactly the covered segments. */
  lemma {:induction false} AcknowledgedTail(window: seq<Tracked>, log: Log, base: nat, first: nat, k: nat)
    requires LogOk(log, base) && Tail(window, log, first) && |window| <= MAX_SENT_WINDOW
    requires AckNear(log, base, k)
    ensures Tail(Acknowledged(window, Wire(log, base, k)), log, Max(first, k))
    ensures |Acknowledged(window, Wire(log, base, k))| <= |window|
    decreases |window|
  {
    hide Low32, LogOk, Len, Bound, Wire;
    if window != [] {
      WindowSpan(window, log, base, first);
      CoversExactly(log, base, first, k);
      assert window[0].packet == log[first].packet;
      if first < k {
        AcknowledgedTail(window[1..], log, base, first + 1, k);
      }
    }
  }

  lemma AcknowledgedSends(s: SessionState, log: Log, base: nat, greatestAck: nat, evicted: nat, p: Packet, k: nat)
    requires Sends(s, log, base, greatestAck, evicted)
    requires AckNear(log, base, k) && p.recv == Wire(log, base, k)
    ensures Sends(Heard(s, p), log, base, Max(greatestAck, k), evicted)
  {
    hide Low32, LogOk, Len, Bound, Wire;
    AcknowledgedTail(s.sentWindow, log, base, Max(greatestAck, evicted), k);
    assert Max(Max(greatestAck, evicted), k) == Max(Max(greatestAck, k), evicted);
  }

  /** What has been given up once one more packet is tracked. */
  function EvictedBySending(s: SessionState, body: Body, first: nat, evicted: nat): nat {
    if Len(body) > 0 && |s.sentWindow| >= MAX_SENT_WINDOW then first + 1 else evicted
  }

  function LogAfterSending(s: SessionState, body: Body, log: Log, base: nat, ack: nat): Log {
    if Len(body) > 0 then log + [Segment(Bound(log, base, |log|), NextPacket(s, body), ack)] else log
  }

  lemma TrackTail(window: seq<Tracked>, log: Log, first: nat, seg: Segment, now: nat)
    requires Tail(window, log, first)
    ensures var tracked := Track(window, seg.packet, now);
      Tail(tracked, log + [seg], if |window| >= MAX_SENT_WINDOW then first + 1 else first)
  {
  }

  lemma SentSends(s: SessionState, body: Body, now: nat, log: Log, base: nat, greatestAck: nat, evicted: nat, ack: nat)
    requires Sends(s, log, base, greatestAck, evicted) && Len(body) <= MAX_BODY
    ensures var log' := LogAfterSending(s, body, log, base, ack);
      Sends(Sent(s, body, now), log', base, greatestAck, EvictedBySending(s, body, Max(greatestAck, evicted), evicted))
  {
    hide LogOk, Len, Low32, Bound, Tail;
    var seg := Segment(Bound(log, base, |log|), NextPacket(s, body), ack);
    TailSize(s.sentWindow, log, Max(greatestAck, evicted));
    if Len(body) > 0 {
      TrackTail(s.sentWindow, log, Max(greatestAck, evicted), seg, now);
      LogAppend(log, base, seg);
      LowAdd(Bound(log, base, |log|), Len(body));
    } else {
      LowAdd(Bound(log, base, |log|), 0);
    }
  }

  lemma RetriedSends(s: SessionState, now: nat, log: Log, base: nat, greatestAck: nat, evicted: nat)
    requires Sends(s, log, base, greatestAck, evicted)
    ensures Sends(s.(sentWindow := RetriedAll(s.sentWindow, now)), log, base, greatestAck, evicted)
  {
    hide LogOk, Len, Low32, Bound, Wire;
    var r := RetriedAll(s.sentWindow, now);
    forall j | 0 <= j < |r| ensures r[j].packet == s.sentWindow[j].packet {
      assert r[j] == Retried(s.sentWindow[j], now);
    }
  }
}
