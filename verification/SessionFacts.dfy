/** What every history of calls keeps true of a session, and facts about its loops. */
module SessionFacts {
  import opened Words
  import opened Codec
  import opened Options
  import opened SessionSpec

  /** Holds after any history of calls, whatever the peer sends. */
  ghost predicate Consistent(s: SessionState) {
    && s.recv !in s.pending
    && s.gapPackets <= |s.pending|
    && (s.pending != map[] <==> s.gapPackets > 0)
    && (s.pending != map[] <==> s.gapSince.Some?)
    && |s.sentWindow| <= MAX_SENT_WINDOW
    && forall i :: 0 <= i < |s.sentWindow| ==>
         s.sentWindow[i].retries <= MAX_RETRANSMITS && Len(s.sentWindow[i].packet.body) > 0
  }

  lemma {:induction false} AcknowledgedIsSuffix(window: seq<Tracked>, ack: u32)
    ensures var r := Acknowledged(window, ack);
      && |r| <= |window| && r == window[|window| - |r|..]
      && (forall i :: 0 <= i < |window| - |r| ==> Covers(ack, window[i].packet))
      && (r != [] ==> !Covers(ack, r[0].packet))
  {
    if window == [] || !Covers(ack, window[0].packet) {
    } else {
      AcknowledgedIsSuffix(window[1..], ack);
      var r := Acknowledged(window[1..], ack);
      assert window[1..][|window| - 1 - |r|..] == window[|window| - |r|..];
      forall i | 0 <= i < |window| - |r| ensures Covers(ack, window[i].packet) {
        if i > 0 {
          assert window[i] == window[1..][i - 1];
        }
      }
    }
  }

  /** The counter after the first `i` of `packets` have been taken from `recv` on. */
  function CounterAt(recv: u32, packets: seq<Packet>, i: nat): u32
    requires i <= |packets|
  {
    if i == 0 then recv else Low32(CounterAt(recv, packets, i - 1) + Len(packets[i - 1].body))
  }

  lemma {:induction false} CounterAtTail(recv: u32, p: Packet, rest: seq<Packet>, i: nat)
    requires i <= |rest|
    ensures CounterAt(recv, [p] + rest, i + 1) == CounterAt(Low32(recv + Len(p.body)), rest, i)
  {
    hide Len, Low32;
    if i > 0 {
      CounterAtTail(recv, p, rest, i - 1);
    }
  }

  /** The run drained is contiguous, comes out of the buffer, and stops at a hole. */
  lemma {:induction false} DrainRunStops(recv: u32, pending: map<u32, Packet>)
    ensures var d := DrainRun(recv, pending);
      && d.recv !in d.pending
      && d.pending.Keys <= pending.Keys
      && |d.pending| == |pending| - |d.ready|
      && (forall k :: k in d.pending ==> d.pending[k] == pending[k])
    decreases |pending|
  {
    if recv in pending {
      DropShrinks(pending, recv);
      DrainRunStops(Low32(recv + Len(pending[recv].body)), pending - {recv});
    }
  }

  /** The `i`-th packet drained is the entry the counter has then reached, and is removed. */
  ghost predicate TakesAt(recv: u32, pending: map<u32, Packet>, d: Drain, i: nat) {
    && i < |d.ready|
    && var k := CounterAt(recv, d.ready, i); k in pending && k !in d.pending && d.ready[i] == pending[k]
  }

  lemma TakesFirst(recv: u32, pending: map<u32, Packet>)
    requires recv in pending
    ensures TakesAt(recv, pending, DrainRun(recv, pending), 0)
    ensures CounterAt(recv, DrainRun(recv, pending).ready, 0) == recv
  {
    hide Len, Low32, DrainRun;
    DrainRunStep([], recv, pending);
    DrainRunStops(Low32(recv + Len(pending[recv].body)), pending - {recv});
  }

  lemma TakesLater(recv: u32, pending: map<u32, Packet>, i: nat)
    requires recv in pending
    requires var next, rest := Low32(recv + Len(pending[recv].body)), pending - {recv};
      TakesAt(next, rest, DrainRun(next, rest), i)
    ensures TakesAt(recv, pending, DrainRun(recv, pending), i + 1)
    ensures var next, rest := Low32(recv + Len(pending[recv].body)), pending - {recv};
      CounterAt(recv, DrainRun(recv, pending).ready, i + 1) == CounterAt(next, DrainRun(next, rest).ready, i)
  {
    hide Len, Low32, DrainRun, CounterAt;
    DrainRunStep([], recv, pending);
    CounterAtTail(recv, pending[recv], DrainRun(Low32(recv + Len(pending[recv].body)), pending - {recv}).ready, i);
  }

  /** The packets drained are exactly the entries removed, in the order in which the
      counter meets them; it ends where the receive offset ends. */
  lemma {:induction false} DrainRunTakes(recv: u32, pending: map<u32, Packet>)
    ensures var d := DrainRun(recv, pending);
      && d.recv == CounterAt(recv, d.ready, |d.ready|)
      && (forall i: nat :: i < |d.ready| ==> TakesAt(recv, pending, d, i))
      && (forall k :: k in pending && k !in d.pending ==>
            exists i: nat :: i < |d.ready| && TakesAt(recv, pending, d, i) && CounterAt(recv, d.ready, i) == k)
    decreases |pending|
  {
    hide Len, Low32, TakesAt, DrainRun, CounterAt;
    if recv !in pending {
      NothingDrained(recv, pending);
    } else {
      var next, rest := Low32(recv + Len(pending[recv].body)), pending - {recv};
      DrainRunStep([], recv, pending);
      DrainRunTakes(next, rest);
      TakesFirst(recv, pending);
      var d, tail := DrainRun(recv, pending), DrainRun(next, rest);
      CounterAtTail(recv, pending[recv], tail.ready, |tail.ready|);
      forall i: nat | i < |d.ready| ensures TakesAt(recv, pending, d, i) {
        if i > 0 {
          TakesLater(recv, pending, i - 1);
        }
      }
      forall k | k in pending && k !in d.pending
        ensures exists i: nat :: i < |d.ready| && TakesAt(recv, pending, d, i) && CounterAt(recv, d.ready, i) == k
      {
        if k != recv {
          var i: nat :| i < |tail.ready| && TakesAt(next, rest, tail, i) && CounterAt(next, tail.ready, i) == k;
          TakesLater(recv, pending, i);
        }
      }
    }
  }

  lemma NothingDrained(recv: u32, pending: map<u32, Packet>)
    requires recv !in pending
    ensures DrainRun(recv, pending) == Drain([], recv, pending) && CounterAt(recv, [], 0) == recv
  {
  }

  lemma DrainRunStep(before: seq<Packet>, recv: u32, pending: map<u32, Packet>)
    requires recv in pending
    ensures var d := DrainRun(Low32(recv + Len(pending[recv].body)), pending - {recv});
      DrainRun(recv, pending) == Drain([pending[recv]] + d.ready, d.recv, d.pending)
      && before + DrainRun(recv, pending).ready == before + [pending[recv]] + d.ready
    ensures |pending - {recv}| < |pending|
  {
    DropShrinks(pending, recv);
  }

  lemma DrainRunEnds(recv: u32, pending: map<u32, Packet>)
    requires recv !in pending
    ensures DrainRun(recv, pending) == Drain([], recv, pending)
  {
  }

  lemma EmptyMapSize<K, V>(m: map<K, V>)
    ensures |m| == 0 <==> m == map[]
  {
    assert |m| == |m.Keys|;
    if |m| == 0 {
      assert m.Keys == {};
    }
  }

  lemma DrainedConsistent(s: SessionState, now: nat)
    requires s.pending != map[] ==> s.gapSince.Some? || DrainRun(s.recv, s.pending).pending == map[]
    requires |s.sentWindow| <= MAX_SENT_WINDOW
    requires forall i :: 0 <= i < |s.sentWindow| ==>
      s.sentWindow[i].retries <= MAX_RETRANSMITS && Len(s.sentWindow[i].packet.body) > 0
    ensures Consistent(Drained(s, now).0)
  {
    DrainRunStops(s.recv, s.pending);
    EmptyMapSize(DrainRun(s.recv, s.pending).pending);
  }

  /** In a skip there is always a buffered packet to skip to: the engine's
      early return for "nothing ahead" is never taken. */
  lemma SkipTargetExists(s: SessionState, p: Packet, now: nat)
    requires Arriving(s, p) && p.sent != s.recv
    ensures exists k :: k in Buffered(s, p, now).pending && SequenceAfter(k, s.recv)
  {
    assert p.sent in Buffered(s, p, now).pending;
  }

  lemma InsertedSize<K, V>(m: map<K, V>, k: K, v: V)
    requires k !in m
    ensures |m[k := v]| == |m| + 1
  {
    assert m[k := v].Keys == m.Keys + {k};
    assert |m[k := v]| == |m[k := v].Keys| && |m| == |m.Keys|;
  }

  /** Receiving keeps the session consistent, whoever built the packet. */
  lemma ReceivedConsistent(s: SessionState, p: Packet, now: nat, gapTimeout: nat)
    requires Consistent(s)
    ensures Consistent(Received(s, p, now, gapTimeout).0)
  {
    hide Len, Low32;
    var heard := Heard(s, p);
    AcknowledgedIsSuffix(s.sentWindow, p.recv);
    if Len(p.body) == 0 || !Arriving(heard, p) {
    } else if p.sent == heard.recv {
      var s' := heard.(pending := heard.pending[p.sent := p]);
      if s.pending == map[] {
        InsertedSize(s.pending, p.sent, p);
        EmptyMapSize(s.pending);
        DrainRunStops(s'.recv, s'.pending);
        EmptyMapSize(DrainRun(s'.recv, s'.pending).pending);
      }
      DrainedConsistent(s', now);
    } else if p.sent in heard.pending {
    } else {
      var buffered := Buffered(heard, p, now);
      InsertedSize(heard.pending, p.sent, p);
      if MaySkip(buffered, p, now, gapTimeout) {
        assert p.sent in buffered.pending;
        DrainedConsistent(buffered.(recv := Nearest(buffered.recv, buffered.pending)), now);
      }
    }
  }

  lemma SentConsistent(s: SessionState, body: Body, now: nat)
    requires Consistent(s)
    ensures Consistent(Sent(s, body, now))
  {
  }

  lemma RetriedConsistent(s: SessionState, now: nat)
    requires Consistent(s)
    ensures Consistent(s.(sentWindow := RetriedAll(s.sentWindow, now)))
  {
    var r := RetriedAll(s.sentWindow, now);
    forall i | 0 <= i < |r|
      ensures r[i].retries <= MAX_RETRANSMITS && Len(r[i].packet.body) > 0
    {
      assert r[i] == Retried(s.sentWindow[i], now);
    }
  }

  /** Accepting a packet leaves the sending half and the gap policy alone. */
  lemma AcceptedKeepsSender(s: SessionState, p: Packet, now: nat, gapTimeout: nat)
    ensures var s' := Accepted(s, p, now, gapTimeout).0;
      && s'.sent == s.sent && s'.sentWindow == s.sentWindow && s'.allowGapSkip == s.allowGapSkip
      && s'.count == s.count && s'.id == s.id
  {
  }

  /** In strict mode nothing is ever skipped; otherwise nothing is skipped before
      the gap expires while any payload waits. */
  lemma SkipNeeds(s: SessionState, p: Packet, now: nat, gapTimeout: nat)
    requires MaySkip(s, p, now, gapTimeout)
    ensures s.allowGapSkip
    ensures GapExpired(s, now, gapTimeout) || !PayloadPending(s.pending)
  {
  }
}
