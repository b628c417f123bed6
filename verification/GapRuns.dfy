/** The gap-skip policy over whole runs: every hole in what was handed on has its excuse. */
module GapRuns {
  import opened Words
  import opened Options
  import opened Codec
  import opened SessionSpec
  import opened Stream
  import opened Reordering
  import opened Receiver
  import opened Sender
  import opened Network
  import opened SessionFacts
  import GapSkip
  import StallBound

  /** No payload waits beyond the gap, the packet just set aside included. */
  predicate NoPayloadWaits(s: SessionState) {
    !PayloadPending(s.pending)
  }

  /** With `d`, come in at `now`, the endpoint gives up on segment `n`: the policy allows
      it, and the gap has expired or no payload waits. */
  ghost predicate GivesUpOn(me: Endpoint, d: Datagram, now: nat, gapTimeout: nat, n: nat) {
    && ParsePacket(d.wire).Ok?
    && var p := ParsePacket(d.wire).value; var waiting := Buffered(Heard(me.session, p), p, now);
    && Placed(me, p) && me.rx.next <= n < DeliveryStart(me.rx, d.segment, true)
    && waiting.allowGapSkip && (GapExpired(waiting, now, gapTimeout) || NoPayloadWaits(waiting))
    && (IsRecoveryCommand(p) || waiting.gapPackets >= GAP_PACKET_LIMIT || GapExpired(waiting, now, gapTimeout))
  }

  lemma RangeHolds(a: nat, b: nat, n: nat)
    requires a <= n < b
    ensures n in Range(a, b)
  {
    assert Range(a, b)[n - a] == n;
  }

  lemma DeliveryExcused(me: Endpoint, d: Datagram, now: nat, gapTimeout: nat, n: nat)
    ensures var me' := Arrived(me, d, now, gapTimeout);
      && (forall k :: k in me.delivered ==> k in me'.delivered)
      && (me.rx.next <= n < me'.rx.next && n !in me'.delivered ==> GivesUpOn(me, d, now, gapTimeout, n))
  {
    hide Received, ParsePacket, Range, Settle, Len, Arriving, PayloadPending, GapExpired, IsRecoveryCommand;
    var parsed := ParsePacket(d.wire);
    if parsed.Ok? && Placed(me, parsed.value) {
      var p := parsed.value;
      var skips := Skips(Heard(me.session, p), p, now, gapTimeout);
      var next := Arrive(me.rx, d.segment, skips).next;
      if DeliveryStart(me.rx, d.segment, skips) <= n < next {
        RangeHolds(DeliveryStart(me.rx, d.segment, skips), next, n);
      }
    }
  }

  lemma OtherStepKeeps(sys: System, a: Action, gapTimeout: nat, side: Side)
    requires !(a.Deliver? && a.to == side)
    ensures var me, me' := sys.At(side), Step(sys, a, gapTimeout).At(side);
      me'.rx == me.rx && me'.delivered == me.delivered
  {
    hide Received, Sent, LogAfterSending, EvictedBySending, Resendings, RetriedAll, Arrived, OnWire, NextPacket;
  }

  /** Step `k` of the run gives up on segment `n`. */
  ghost predicate GivenUpAt(sys: System, actions: seq<Action>, gapTimeout: nat, side: Side, n: nat, k: nat) {
    && k < |actions| && actions[k].Deliver? && actions[k].to == side
    && GivesUpOn(Run(sys, actions[..k], gapTimeout).At(side), actions[k].d, actions[k].now, gapTimeout, n)
  }

  /** After any run every segment passed over was given up in some step of it, for a
      reason the policy knows. */
  lemma {:induction false} HolesAreExcused(sys: System, actions: seq<Action>, gapTimeout: nat, side: Side, n: nat)
    requires Initial(sys)
    requires var me := Run(sys, actions, gapTimeout).At(side); n < me.rx.next && n !in me.delivered
    ensures exists k: nat :: GivenUpAt(sys, actions, gapTimeout, side, n, k)
  {
    hide GivesUpOn, Arrived;
    if actions != [] {
      var m := |actions| - 1;
      var before, a := Run(sys, actions[..m], gapTimeout), actions[m];
      if a.Deliver? && a.to == side {
        DeliveryExcused(before.At(side), a.d, a.now, gapTimeout, n);
      } else {
        OtherStepKeeps(before, a, gapTimeout, side);
      }
      if n < before.At(side).rx.next {
        HolesAreExcused(sys, actions[..m], gapTimeout, side, n);
        var k: nat :| GivenUpAt(sys, actions[..m], gapTimeout, side, n, k);
        assert actions[..m][..k] == actions[..k] && actions[..m][k] == actions[k];
        assert GivenUpAt(sys, actions, gapTimeout, side, n, k);
      } else {
        assert GivenUpAt(sys, actions, gapTimeout, side, n, m);
      }
    }
  }

  // ---- the gap's clock ----

  /** The buffer is empty up to event `k` and never after it. */
  ghost predicate GapBegins(s: SessionState, events: seq<StallBound.Event>, gapTimeout: nat, k: nat) {
    && k < |events| && StallBound.History(s, events[..k], gapTimeout).pending == map[]
    && forall j :: k < j <= |events| ==> StallBound.History(s, events[..j], gapTimeout).pending != map[]
  }

  lemma ClockSteps(s: SessionState, e: StallBound.Event, gapTimeout: nat)
    requires Consistent(s)
    ensures var s' := StallBound.After(s, e, gapTimeout);
      && (s'.pending == map[] ==> s'.gapSince == None)
      && (s'.pending != map[] ==> s'.gapSince == if s.pending == map[] then Some(e.now) else s.gapSince)
  {
    hide Received, RetriedAll, Track, Len;
    if e.RecvEvent? {
      GapSkip.GapAfter(s, e.packet, e.now, gapTimeout);
    }
  }

  lemma GapNow(s: SessionState, events: seq<StallBound.Event>, gapTimeout: nat)
    requires events != [] && StallBound.History(s, events[..|events| - 1], gapTimeout).pending == map[]
    requires StallBound.History(s, events, gapTimeout).pending != map[]
    ensures GapBegins(s, events, gapTimeout, |events| - 1)
  {
    hide StallBound.History;
    assert events[..|events|] == events;
  }

  lemma GapGoesOn(s: SessionState, events: seq<StallBound.Event>, gapTimeout: nat, k: nat)
    requires events != [] && GapBegins(s, events[..|events| - 1], gapTimeout, k)
    requires StallBound.History(s, events, gapTimeout).pending != map[]
    ensures GapBegins(s, events, gapTimeout, k) && events[..|events| - 1][k] == events[k]
  {
    hide StallBound.History;
    var n := |events| - 1;
    assert events[..n][..k] == events[..k];
    forall j | k < j <= |events| ensures StallBound.History(s, events[..j], gapTimeout).pending != map[] {
      if j <= n {
        assert events[..n][..j] == events[..j];
      } else {
        assert events[..j] == events;
      }
    }
  }

  /** After any history, whatever the peer sends, the clock shows when the present gap
      began, and nothing if there is none. */
  lemma {:induction false} ClockShowsBeginning(
      s: SessionState, events: seq<StallBound.Event>, gapTimeout: nat, start: nat)
    requires StallBound.Adopted(s, start)
    ensures var h := StallBound.History(s, events, gapTimeout);
      if h.pending == map[] then h.gapSince == None
      else exists k: nat ::
        GapBegins(s, events, gapTimeout, k) && k < |events| && h.gapSince == Some(events[k].now)
  {
    hide Consistent, StallBound.After, GapBegins;
    if events != [] {
      var n := |events| - 1;
      var before, h := StallBound.History(s, events[..n], gapTimeout), StallBound.History(s, events, gapTimeout);
      StallBound.HistoryConsistent(s, events[..n], gapTimeout, start);
      ClockShowsBeginning(s, events[..n], gapTimeout, start);
      ClockSteps(before, events[n], gapTimeout);
      if h.pending != map[] {
        if before.pending == map[] {
          GapNow(s, events, gapTimeout);
        } else {
          var k: nat :| GapBegins(s, events[..n], gapTimeout, k) && k < n
            && before.gapSince == Some(events[..n][k].now);
          GapGoesOn(s, events, gapTimeout, k);
        }
      }
    }
  }
}
