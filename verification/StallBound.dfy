/**
 The stall verdict over whole histories of one session, whatever the peer does:
 it is only ever given about a packet that has gone unacknowledged for 30 seconds
 while nothing was handed on for 15.
 */
module StallBound {
  import opened Words
  import opened Codec
  import opened Options
  import opened SessionSpec
  import opened SessionFacts

  datatype Event =
    | SendEvent(body: Body, now: nat)
    | RecvEvent(packet: Packet, now: nat)
    | TimerEvent(now: nat)

  ghost function After(s: SessionState, e: Event, gapTimeout: nat): SessionState {
    match e
    case SendEvent(body, now) => Sent(s, body, now)
    case RecvEvent(packet, now) => Received(s, packet, now, gapTimeout).0
    case TimerEvent(now) => s.(sentWindow := RetriedAll(s.sentWindow, now))
  }

  ghost function History(s: SessionState, events: seq<Event>, gapTimeout: nat): SessionState {
    if events == [] then s
    else After(History(s, events[..|events| - 1], gapTimeout), events[|events| - 1], gapTimeout)
  }

  /** The events are in the order of a clock that starts at `start`. */
  ghost predicate Monotone(start: nat, events: seq<Event>) {
    && (forall k :: 0 <= k < |events| ==> start <= events[k].now)
    && (forall j, k :: 0 <= j < k < |events| ==> events[j].now <= events[k].now)
  }

  /** A session just adopted at time `start`. */
  ghost predicate Adopted(s: SessionState, start: nat) {
    s.pending == map[] && s.gapPackets == 0 && s.gapSince == None && s.sentWindow == [] && s.lastProgress == start
  }

  lemma AdoptedConsistent(s: SessionState, start: nat)
    requires Adopted(s, start)
    ensures Consistent(s)
  {
  }

  /** Every session history is consistent, even against a dishonest peer. */
  lemma {:induction false} HistoryConsistent(s: SessionState, events: seq<Event>, gapTimeout: nat, start: nat)
    requires Adopted(s, start)
    ensures Consistent(History(s, events, gapTimeout))
  {
    hide Consistent, Adopted, Received, Sent, RetriedAll;
    if events == [] {
      AdoptedConsistent(s, start);
    } else {
      var n := |events| - 1;
      HistoryConsistent(s, events[..n], gapTimeout, start);
      var before := History(s, events[..n], gapTimeout);
      match events[n]
      case SendEvent(body, now) => SentConsistent(before, body, now);
      case RecvEvent(packet, now) => ReceivedConsistent(before, packet, now, gapTimeout);
      case TimerEvent(now) => RetriedConsistent(before, now);
    }
  }

  /** Entry `t` was put in the window by sending event `k`, and each retry since
      waited the full interval. */
  ghost predicate BornAt(s: SessionState, events: seq<Event>, gapTimeout: nat, t: Tracked, k: nat) {
    && k < |events| && events[k].SendEvent? && Len(events[k].body) > 0
    && t.packet == NextPacket(History(s, events[..k], gapTimeout), events[k].body)
    && events[k].now + 600 * t.retries <= t.lastSent
  }

  ghost predicate Aged(s: SessionState, events: seq<Event>, gapTimeout: nat, t: Tracked, latest: nat) {
    t.lastSent <= latest && exists k: nat :: BornAt(s, events, gapTimeout, t, k)
  }

  ghost predicate WindowAged(s: SessionState, events: seq<Event>, gapTimeout: nat, window: seq<Tracked>, latest: nat) {
    forall j :: 0 <= j < |window| ==> Aged(s, events, gapTimeout, window[j], latest)
  }

  function Latest(events: seq<Event>, start: nat): nat {
    if events == [] then start else events[|events| - 1].now
  }

  lemma AgedLonger(s: SessionState, events: seq<Event>, gapTimeout: nat, window: seq<Tracked>, latest: nat, now: nat)
    requires events != [] && latest <= now
    requires WindowAged(s, events[..|events| - 1], gapTimeout, window, latest)
    ensures WindowAged(s, events, gapTimeout, window, now)
  {
    hide History, NextPacket, Len;
    var before := events[..|events| - 1];
    forall j | 0 <= j < |window| ensures Aged(s, events, gapTimeout, window[j], now) {
      assert Aged(s, before, gapTimeout, window[j], latest);
      var k: nat :| BornAt(s, before, gapTimeout, window[j], k);
      assert before[..k] == events[..k];
      assert BornAt(s, events, gapTimeout, window[j], k);
    }
  }

  lemma AgedAfterTimer(s: SessionState, events: seq<Event>, gapTimeout: nat, window: seq<Tracked>, now: nat)
    requires WindowAged(s, events, gapTimeout, window, now)
    ensures WindowAged(s, events, gapTimeout, RetriedAll(window, now), now)
  {
    hide History, NextPacket, Len;
    var r := RetriedAll(window, now);
    forall j | 0 <= j < |r| ensures Aged(s, events, gapTimeout, r[j], now) {
      assert Aged(s, events, gapTimeout, window[j], now);
      var k: nat :| BornAt(s, events, gapTimeout, window[j], k);
      assert r[j] == Retried(window[j], now);
      assert BornAt(s, events, gapTimeout, r[j], k);
    }
  }

  lemma AgedAfterSend(s: SessionState, events: seq<Event>, gapTimeout: nat, window: seq<Tracked>)
    requires events != [] && events[|events| - 1].SendEvent? && Len(events[|events| - 1].body) > 0
    requires WindowAged(s, events, gapTimeout, window, events[|events| - 1].now)
    ensures var n := |events| - 1;
      var p := NextPacket(History(s, events[..n], gapTimeout), events[n].body);
      WindowAged(s, events, gapTimeout, Track(window, p, events[n].now), events[n].now)
  {
    hide History, NextPacket, Len;
    var n := |events| - 1;
    var now := events[n].now;
    var newest := Tracked(NextPacket(History(s, events[..n], gapTimeout), events[n].body), now, 0);
    assert BornAt(s, events, gapTimeout, newest, n);
    var tracked := Track(window, newest.packet, now);
    forall j | 0 <= j < |tracked| ensures Aged(s, events, gapTimeout, tracked[j], now) {
      if j < |tracked| - 1 {
        assert tracked[j] in window;
      }
    }
  }

  lemma AgedAfterAck(s: SessionState, events: seq<Event>, gapTimeout: nat, window: seq<Tracked>, now: nat, ack: u32)
    requires WindowAged(s, events, gapTimeout, window, now)
    ensures WindowAged(s, events, gapTimeout, Acknowledged(window, ack), now)
  {
    hide Aged, Covers;
    AcknowledgedIsSuffix(window, ack);
    var r := Acknowledged(window, ack);
    forall j | 0 <= j < |r| ensures r[j] == window[|window| - |r| + j] {
    }
  }

  /** Whatever is in the window has an age of at least 600 ms a retry. */
  lemma {:induction false} HistoryAged(s: SessionState, events: seq<Event>, gapTimeout: nat, start: nat)
    requires Adopted(s, start) && Monotone(start, events)
    ensures WindowAged(s, events, gapTimeout, History(s, events, gapTimeout).sentWindow, Latest(events, start))
  {
    hide WindowAged, Accepted, Acknowledged, RetriedAll, Track, Len;
    if events == [] {
      NothingAged(s, gapTimeout, start);
    } else {
      var n := |events| - 1;
      var before := History(s, events[..n], gapTimeout);
      HistoryAged(s, events[..n], gapTimeout, start);
      var now := events[n].now;
      AgedLonger(s, events, gapTimeout, before.sentWindow, Latest(events[..n], start), now);
      match events[n]
      case SendEvent(body, _) =>
        if Len(body) > 0 {
          AgedAfterSend(s, events, gapTimeout, before.sentWindow);
        }
      case RecvEvent(packet, _) =>
        AgedAfterAck(s, events, gapTimeout, before.sentWindow, now, packet.recv);
        AcceptedKeepsSender(Heard(before, packet), packet, now, gapTimeout);
      case TimerEvent(_) =>
        AgedAfterTimer(s, events, gapTimeout, before.sentWindow, now);
    }
  }

  lemma NothingAged(s: SessionState, gapTimeout: nat, latest: nat)
    ensures WindowAged(s, [], gapTimeout, [], latest)
  {
  }

  /** Event `k` handed something on. */
  ghost predicate HandsOn(s: SessionState, events: seq<Event>, gapTimeout: nat, k: nat)
    requires k < |events|
  {
    events[k].RecvEvent?
    && Received(History(s, events[..k], gapTimeout), events[k].packet, events[k].now, gapTimeout).1 != []
  }

  lemma ReceivedProgress(s: SessionState, p: Packet, now: nat, gapTimeout: nat)
    ensures var (s', ready) := Received(s, p, now, gapTimeout);
      s'.lastProgress == if ready == [] then s.lastProgress else now
  {
    hide DrainRun, Arriving, MaySkip, Acknowledged;
  }

  lemma {:induction false} ProgressIsLatestHandOn(
      s: SessionState, events: seq<Event>, gapTimeout: nat, start: nat, k: nat)
    requires Monotone(start, events) && k < |events| && HandsOn(s, events, gapTimeout, k)
    ensures events[k].now <= History(s, events, gapTimeout).lastProgress
  {
    hide Received, Sent, RetriedAll;
    var n := |events| - 1;
    if k < n {
      assert events[..n][..k] == events[..k];
      ProgressIsLatestHandOn(s, events[..n], gapTimeout, start, k);
    }
    ProgressStep(History(s, events[..n], gapTimeout), events[n], gapTimeout);
  }

  lemma ProgressStep(s: SessionState, e: Event, gapTimeout: nat)
    ensures After(s, e, gapTimeout).lastProgress ==
      if e.RecvEvent? && Received(s, e.packet, e.now, gapTimeout).1 != [] then e.now else s.lastProgress
  {
    hide Received, RetriedAll, Track, Len;
    if e.RecvEvent? {
      ReceivedProgress(s, e.packet, e.now, gapTimeout);
    }
  }

  /** The verdict that makes the engine exit and reconnect. */
  lemma StallVerdict(s: SessionState, events: seq<Event>, gapTimeout: nat, start: nat, now: nat)
    requires Adopted(s, start) && Monotone(start, events) && Latest(events, start) <= now
    requires Stalled(History(s, events, gapTimeout), now)
    ensures var window := History(s, events, gapTimeout).sentWindow;
      exists j, k: nat ::
        0 <= j < |window| && BornAt(s, events, gapTimeout, window[j], k) && events[k].now + 30_000 <= now
    ensures forall k :: 0 <= k < |events| && HandsOn(s, events, gapTimeout, k) ==> events[k].now + 15_000 <= now
  {
    hide History, HandsOn;
    var after := History(s, events, gapTimeout);
    HistoryAged(s, events, gapTimeout, start);
    var j :| 0 <= j < |after.sentWindow| && after.sentWindow[j].retries >= MAX_RETRANSMITS
      && Elapsed(now, after.lastProgress) >= STALL_GRACE;
    assert Aged(s, events, gapTimeout, after.sentWindow[j], Latest(events, start));
    var k: nat :| BornAt(s, events, gapTimeout, after.sentWindow[j], k);
    forall m | 0 <= m < |events| && HandsOn(s, events, gapTimeout, m) ensures events[m].now + 15_000 <= now {
      ProgressIsLatestHandOn(s, events, gapTimeout, start, m);
    }
  }

  // ---- the verdict comes in time ----

  /** The last time the retransmission timer fired, or the start. */
  function LastTick(events: seq<Event>, start: nat): nat {
    if events == [] then start
    else if events[|events| - 1].TimerEvent? then events[|events| - 1].now
    else LastTick(events[..|events| - 1], start)
  }

  /** The timer keeps running: nothing happens more than `period` after it last fired. */
  ghost predicate Ticking(events: seq<Event>, start: nat, period: nat) {
    events == [] ||
    (&& events[|events| - 1].now <= LastTick(events[..|events| - 1], start) + period
     && Ticking(events[..|events| - 1], start, period))
  }

  /** Entry `t` was put in the window by sending event `k`, and no retry since came later
      than 600 ms and one period of the timer after the transmission before. */
  ghost predicate PromptSince(s: SessionState, events: seq<Event>, gapTimeout: nat, period: nat, t: Tracked, k: nat) {
    && k < |events| && events[k].SendEvent? && Len(events[k].body) > 0
    && t.packet == NextPacket(History(s, events[..k], gapTimeout), events[k].body)
    && t.lastSent <= events[k].now + (600 + period) * t.retries
  }

  /** And at the last tick it was not due. */
  ghost predicate Prompt(s: SessionState, events: seq<Event>, gapTimeout: nat, period: nat, t: Tracked, tick: nat) {
    && (t.retries >= MAX_RETRANSMITS || tick < t.lastSent + 600)
    && exists k: nat :: PromptSince(s, events, gapTimeout, period, t, k)
  }

  ghost predicate WindowPrompt(
      s: SessionState, events: seq<Event>, gapTimeout: nat, period: nat, window: seq<Tracked>, tick: nat)
  {
    forall j :: 0 <= j < |window| ==> Prompt(s, events, gapTimeout, period, window[j], tick)
  }

  lemma PromptLonger(s: SessionState, events: seq<Event>, gapTimeout: nat, period: nat, window: seq<Tracked>, tick: nat)
    requires events != [] && WindowPrompt(s, events[..|events| - 1], gapTimeout, period, window, tick)
    ensures WindowPrompt(s, events, gapTimeout, period, window, tick)
  {
    hide History, NextPacket, Len;
    var before := events[..|events| - 1];
    forall j | 0 <= j < |window| ensures Prompt(s, events, gapTimeout, period, window[j], tick) {
      assert Prompt(s, before, gapTimeout, period, window[j], tick);
      var k: nat :| PromptSince(s, before, gapTimeout, period, window[j], k);
      assert before[..k] == events[..k];
      assert PromptSince(s, events, gapTimeout, period, window[j], k);
    }
  }

  lemma PromptAfterTimer(
      s: SessionState, events: seq<Event>, gapTimeout: nat, period: nat, window: seq<Tracked>, tick: nat, now: nat)
    requires WindowPrompt(s, events, gapTimeout, period, window, tick) && tick <= now <= tick + period
    ensures WindowPrompt(s, events, gapTimeout, period, RetriedAll(window, now), now)
  {
    hide History, NextPacket, Len;
    var r := RetriedAll(window, now);
    forall j | 0 <= j < |r| ensures Prompt(s, events, gapTimeout, period, r[j], now) {
      var t := window[j];
      assert Prompt(s, events, gapTimeout, period, t, tick);
      var k: nat :| PromptSince(s, events, gapTimeout, period, t, k);
      assert r[j] == Retried(t, now);
      assert (600 + period) * (t.retries + 1) == (600 + period) * t.retries + (600 + period);
      assert PromptSince(s, events, gapTimeout, period, r[j], k);
    }
  }

  lemma PromptAfterSend(
      s: SessionState, events: seq<Event>, gapTimeout: nat, period: nat, window: seq<Tracked>, tick: nat)
    requires events != [] && events[|events| - 1].SendEvent? && Len(events[|events| - 1].body) > 0
    requires WindowPrompt(s, events, gapTimeout, period, window, tick) && tick <= events[|events| - 1].now
    ensures var n := |events| - 1;
      var p := NextPacket(History(s, events[..n], gapTimeout), events[n].body);
      WindowPrompt(s, events, gapTimeout, period, Track(window, p, events[n].now), tick)
  {
    hide History, NextPacket, Len;
    var n := |events| - 1;
    var now := events[n].now;
    var newest := Tracked(NextPacket(History(s, events[..n], gapTimeout), events[n].body), now, 0);
    assert PromptSince(s, events, gapTimeout, period, newest, n);
    var tracked := Track(window, newest.packet, now);
    forall j | 0 <= j < |tracked| ensures Prompt(s, events, gapTimeout, period, tracked[j], tick) {
      if j < |tracked| - 1 {
        assert tracked[j] in window;
      }
    }
  }

  lemma PromptAfterAck(
      s: SessionState, events: seq<Event>, gapTimeout: nat, period: nat, window: seq<Tracked>, tick: nat, ack: u32)
    requires WindowPrompt(s, events, gapTimeout, period, window, tick)
    ensures WindowPrompt(s, events, gapTimeout, period, Acknowledged(window, ack), tick)
  {
    hide Prompt, Covers;
    AcknowledgedIsSuffix(window, ack);
    var r := Acknowledged(window, ack);
    forall j | 0 <= j < |r| ensures r[j] == window[|window| - |r| + j] {
    }
  }

  lemma NothingPrompt(s: SessionState, gapTimeout: nat, period: nat, tick: nat)
    ensures WindowPrompt(s, [], gapTimeout, period, [], tick)
  {
  }

  lemma {:induction false} LastTickBounds(events: seq<Event>, start: nat)
    requires Monotone(start, events)
    ensures start <= LastTick(events, start) <= Latest(events, start)
  {
    if events != [] {
      LastTickBounds(events[..|events| - 1], start);
    }
  }

  /** While the timer runs, whatever is in the window is retried in time. */
  lemma {:induction false} HistoryPrompt(
      s: SessionState, events: seq<Event>, gapTimeout: nat, start: nat, period: nat)
    requires Adopted(s, start) && Monotone(start, events) && Ticking(events, start, period)
    ensures var window := History(s, events, gapTimeout).sentWindow;
      WindowPrompt(s, events, gapTimeout, period, window, LastTick(events, start))
  {
    hide WindowPrompt, Accepted, Acknowledged, RetriedAll, Track, Len;
    if events == [] {
      NothingPrompt(s, gapTimeout, period, start);
    } else {
      var n := |events| - 1;
      var before, tick := History(s, events[..n], gapTimeout), LastTick(events[..n], start);
      HistoryPrompt(s, events[..n], gapTimeout, start, period);
      LastTickBounds(events[..n], start);
      var now := events[n].now;
      PromptLonger(s, events, gapTimeout, period, before.sentWindow, tick);
      match events[n]
      case SendEvent(body, _) =>
        if Len(body) > 0 {
          PromptAfterSend(s, events, gapTimeout, period, before.sentWindow, tick);
        }
      case RecvEvent(packet, _) =>
        PromptAfterAck(s, events, gapTimeout, period, before.sentWindow, tick, packet.recv);
        AcceptedKeepsSender(Heard(before, packet), packet, now, gapTimeout);
      case TimerEvent(_) =>
        PromptAfterTimer(s, events, gapTimeout, period, before.sentWindow, tick, now);
    }
  }

  /** The progress time is the start or that of some hand-on. */
  lemma {:induction false} ProgressIsHandOn(s: SessionState, events: seq<Event>, gapTimeout: nat, start: nat)
    requires Adopted(s, start)
    ensures var progress := History(s, events, gapTimeout).lastProgress;
      || progress == start
      || exists k :: 0 <= k < |events| && HandsOn(s, events, gapTimeout, k) && events[k].now == progress
  {
    hide Received, Sent, RetriedAll;
    if events != [] {
      var n := |events| - 1;
      ProgressIsHandOn(s, events[..n], gapTimeout, start);
      ProgressStep(History(s, events[..n], gapTimeout), events[n], gapTimeout);
      var progress := History(s, events[..n], gapTimeout).lastProgress;
      if History(s, events, gapTimeout).lastProgress != progress {
        assert HandsOn(s, events, gapTimeout, n);
      } else if progress != start {
        var k :| 0 <= k < n && HandsOn(s, events[..n], gapTimeout, k) && events[..n][k].now == progress;
        assert events[..n][..k] == events[..k];
        assert HandsOn(s, events, gapTimeout, k);
      }
    }
  }

  /** Entry `t` was sent by event `k`, within the retry budget before `now`: fifty times
      600 ms and a period of the timer. */
  ghost predicate WithinBudget(
      s: SessionState, events: seq<Event>, gapTimeout: nat, period: nat, t: Tracked, now: nat, k: nat)
  {
    PromptSince(s, events, gapTimeout, period, t, k) && now < events[k].now + 50 * (600 + period)
  }

  ghost predicate Recent(s: SessionState, events: seq<Event>, gapTimeout: nat, period: nat, t: Tracked, now: nat) {
    exists k: nat :: WithinBudget(s, events, gapTimeout, period, t, now, k)
  }

  lemma PromptWithinBudget(
      s: SessionState, events: seq<Event>, gapTimeout: nat, period: nat, t: Tracked, tick: nat, now: nat)
    requires Prompt(s, events, gapTimeout, period, t, tick)
    requires t.retries < MAX_RETRANSMITS && now <= tick + period
    ensures Recent(s, events, gapTimeout, period, t, now)
  {
    hide History, NextPacket, Len;
    var k: nat :| PromptSince(s, events, gapTimeout, period, t, k);
    TimesAtMost(600 + period, t.retries);
    assert WithinBudget(s, events, gapTimeout, period, t, now, k);
  }

  lemma TimesAtMost(step: nat, n: nat)
    requires n <= 49
    ensures step * n <= step * 49
  {
  }

  /** While the timer runs and nothing has been handed on for 15 s, a verdict that has not
      come means that every packet still unacknowledged is within its retry budget. */
  lemma VerdictComes(s: SessionState, events: seq<Event>, gapTimeout: nat, start: nat, period: nat, now: nat)
    requires Adopted(s, start) && Monotone(start, events) && Ticking(events, start, period)
    requires Latest(events, start) <= now <= LastTick(events, start) + period
    requires start + 15_000 <= now
    requires forall k :: 0 <= k < |events| && HandsOn(s, events, gapTimeout, k) ==> events[k].now + 15_000 <= now
    requires !Stalled(History(s, events, gapTimeout), now)
    ensures var window := History(s, events, gapTimeout).sentWindow;
      forall j :: 0 <= j < |window| ==> Recent(s, events, gapTimeout, period, window[j], now)
  {
    hide History, HandsOn, Prompt, Recent, Ticking, Monotone, LastTick, Adopted;
    var after := History(s, events, gapTimeout);
    HistoryPrompt(s, events, gapTimeout, start, period);
    ProgressIsHandOn(s, events, gapTimeout, start);
    forall j | 0 <= j < |after.sentWindow|
      ensures Recent(s, events, gapTimeout, period, after.sentWindow[j], now)
    {
      assert after.sentWindow[j].retries < MAX_RETRANSMITS;
      PromptWithinBudget(s, events, gapTimeout, period, after.sentWindow[j], LastTick(events, start), now);
    }
  }
}
