/**
 One direction of a connection with its unbounded byte offsets: the packets a
 sender has numbered, in order, and where each one starts and ends.
 */
module Stream {
  import opened Words
  import opened Codec

  /** Largest body: a full payload and its header. */
  const MAX_BODY: nat := 0xFFFF + 12

  /** A numbered packet, its unbounded start offset, and how many of the peer's
      segments the sender had consumed when it was built. */
  datatype Segment = Segment(start: nat, packet: Packet, ack: nat)

  type Log = seq<Segment>

  function SegmentEnd(s: Segment): nat {
    s.start + Len(s.packet.body)
  }

  /** The unbounded offset of the boundary before segment `i`; the last one is
      where the next segment will start. */
  function Bound(log: Log, base: nat, i: nat): nat
    requires i <= |log|
  {
    if i < |log| then log[i].start else if |log| == 0 then base else SegmentEnd(log[|log| - 1])
  }

  /** The same boundary as the wire shows it. */
  function Wire(log: Log, base: nat, i: nat): u32
    requires i <= |log|
  {
    Low32(Bound(log, base, i))
  }

  /** The segments lie end to end from `base`, none is empty or oversized, and
      each carries the wire form of its start. */
  ghost predicate LogOk(log: Log, base: nat) {
    && (|log| > 0 ==> log[0].start == base)
    && (forall i :: 0 <= i < |log| ==>
          0 < Len(log[i].packet.body) <= MAX_BODY && log[i].packet.sent == Low32(log[i].start))
    && (forall i, j :: 0 <= i < j < |log| ==>
          SegmentEnd(log[i]) <= log[j].start && (j <= i + 1 ==> SegmentEnd(log[i]) == log[j].start))
  }

  lemma {:induction false} BoundGrows(log: Log, base: nat, i: nat, j: nat)
    requires LogOk(log, base) && i <= j <= |log|
    ensures Bound(log, base, i) + (j - i) <= Bound(log, base, j) <= Bound(log, base, i) + (j - i) * 65_547
    decreases j
  {
    if i < j {
      BoundGrows(log, base, i, j - 1);
      assert Bound(log, base, j) == SegmentEnd(log[j - 1]);
    }
  }

  lemma BoundStart(log: Log, base: nat)
    requires LogOk(log, base)
    ensures Bound(log, base, 0) == base
  {
  }

  lemma WireIsLow(log: Log, base: nat, i: nat)
    requires i <= |log|
    ensures Wire(log, base, i) == Low32(Bound(log, base, i))
  {
  }

  /** Wire positions of nearby boundaries compare as the boundaries do. */
  lemma WireOrder(log: Log, base: nat, i: nat, j: nat)
    requires LogOk(log, base) && i <= |log| && j <= |log|
    requires -0x8000_0000 <= Bound(log, base, i) - Bound(log, base, j) < 0x8000_0000
    ensures SequenceAfter(Wire(log, base, i), Wire(log, base, j)) <==> i > j
    ensures Wire(log, base, i) == Wire(log, base, j) <==> i == j
  {
    SequenceAfterIsOrder(Bound(log, base, i), Bound(log, base, j));
    if i < j {
      BoundGrows(log, base, i, j);
    } else {
      BoundGrows(log, base, j, i);
    }
  }

  /** Going forward, the wrapped distance is the true one. */
  lemma WireDistance(log: Log, base: nat, i: nat, j: nat)
    requires i <= |log| && j <= |log| && 0 <= Bound(log, base, i) - Bound(log, base, j) < 0x1_0000_0000
    ensures WrapSub(Wire(log, base, i), Wire(log, base, j)) == Bound(log, base, i) - Bound(log, base, j)
  {
    WrapSubIsDistance(Bound(log, base, i), Bound(log, base, j));
  }

  lemma SegmentSize(log: Log, base: nat, i: nat)
    requires LogOk(log, base) && i < |log|
    ensures 0 < Len(log[i].packet.body) == Bound(log, base, i + 1) - Bound(log, base, i) <= 65_547
    ensures SegmentEnd(log[i]) == Bound(log, base, i + 1)
    ensures log[i].packet.sent == Wire(log, base, i)
  {
  }

  lemma WireNext(log: Log, base: nat, i: nat)
    requires LogOk(log, base) && i < |log|
    ensures Low32(Wire(log, base, i) + Len(log[i].packet.body)) == Wire(log, base, i + 1)
  {
    LowAdd(Bound(log, base, i), Len(log[i].packet.body));
  }

  /** Numbering one more packet leaves every earlier boundary where it was. */
  lemma LogAppend(log: Log, base: nat, s: Segment)
    requires LogOk(log, base)
    requires s.start == Bound(log, base, |log|) && s.packet.sent == Low32(s.start)
    requires 0 < Len(s.packet.body) <= MAX_BODY
    ensures LogOk(log + [s], base)
    ensures forall i :: 0 <= i <= |log| ==> Bound(log + [s], base, i) == Bound(log, base, i)
    ensures forall i :: 0 <= i <= |log| ==> Wire(log + [s], base, i) == Wire(log, base, i)
    ensures Bound(log + [s], base, |log| + 1) == s.start + Len(s.packet.body)
  {
    hide Low32, Len;
    var longer := log + [s];
    assert forall i :: 0 <= i < |log| ==> longer[i] == log[i];
    forall i, j | 0 <= i < j < |longer|
      ensures SegmentEnd(longer[i]) <= longer[j].start && (j <= i + 1 ==> SegmentEnd(longer[i]) == longer[j].start)
    {
      if j == |log| && i < |log| - 1 {
        assert SegmentEnd(log[i]) <= log[|log| - 1].start;
      }
    }
  }
}
