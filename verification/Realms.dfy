/**
 Many TCP connections share one session: each is a realm, and the payloads handed
 on by the session are routed to the queue of the realm they name.
 */
module Realms {
  import opened Words
  import opened Codec
  import opened Options
  import opened SessionSpec
  import opened Network
  import opened Safety

  /** "CONN" and "DISC" */
  const CONN: bytes := [0x43, 0x4F, 0x4E, 0x4E]
  const DISC: bytes := [0x44, 0x49, 0x53, 0x43]

  /**
   The shared tables. A registration creates the next queue; `channels` says which
   queue a realm feeds, `waiting` which registration a CONN will release, `released`
   which have been, `dropped` which queues have lost their reader.
   */
  datatype Table = Table(
    channels: map<u32, nat>, waiting: map<u32, nat>,
    queues: seq<seq<bytes>>, released: set<nat>, dropped: set<nat>,
    onvifRealm: Option<u32>)

  const EMPTY_TABLE := Table(map[], map[], [], {}, {}, None)

  datatype Event =
    | Register(realm: u32)
    | OnvifBound(realm: u32)
    | BindFailed(realm: u32)
    | Forget(realm: u32)
    | DropReader(queue: nat)
    | Incoming(body: Body)

  /** What the reader of the session does with one body. */
  function Dispatch(t: Table, body: Body): Table {
    match body
    case Status(realm, status) =>
      if status == CONN then
        if realm in t.waiting then
          t.(released := t.released + {t.waiting[realm]}, waiting := t.waiting - {realm})
        else t
      else if status == DISC then
        t.(channels := t.channels - {realm}, waiting := t.waiting - {realm},
           onvifRealm := if t.onvifRealm == Some(realm) then None else t.onvifRealm)
      else t
    case Payload(realm, data) =>
      if realm in t.channels && t.channels[realm] < |t.queues| && t.channels[realm] !in t.dropped then
        var q := t.channels[realm];
        t.(queues := t.queues[q := t.queues[q] + [data]])
      else t
    case _ => t
  }

  function After(t: Table, e: Event): Table {
    match e
    case Register(realm) =>
      t.(channels := t.channels[realm := |t.queues|],
         waiting := t.waiting[realm := |t.queues|],
         queues := t.queues + [[]])
    case OnvifBound(realm) => t.(onvifRealm := Some(realm))
    case BindFailed(realm) => t.(channels := t.channels - {realm}, waiting := t.waiting - {realm})
    case Forget(realm) => t.(channels := t.channels - {realm})
    case DropReader(queue) => if queue < |t.queues| then t.(dropped := t.dropped + {queue}) else t
    case Incoming(body) => Dispatch(t, body)
  }

  function AfterAll(t: Table, events: seq<Event>): Table
    decreases |events|
  {
    if events == [] then t else AfterAll(After(t, events[0]), events[1..])
  }

  /** The payloads on one realm, in order. */
  function PayloadsOn(realm: u32, bodies: seq<Body>): seq<bytes> {
    if bodies == [] then []
    else
      (if bodies[0].Payload? && bodies[0].realm == realm then [bodies[0].data] else [])
        + PayloadsOn(realm, bodies[1..])
  }

  function IncomingBodies(events: seq<Event>): seq<Body> {
    if events == [] then []
    else (if events[0].Incoming? then [events[0].body] else []) + IncomingBodies(events[1..])
  }

  /** Events after which a realm no longer feeds queue `q`. */
  predicate Closes(e: Event, realm: u32, q: nat) {
    || e == Register(realm) || e == BindFailed(realm) || e == Forget(realm) || e == DropReader(q)
    || e == Incoming(Status(realm, DISC))
  }

  /** The events before the first one that closes the realm's feed. */
  function WhileOpen(events: seq<Event>, realm: u32, q: nat): (r: seq<Event>)
    ensures r <= events
  {
    if events == [] || Closes(events[0], realm, q) then []
    else [events[0]] + WhileOpen(events[1..], realm, q)
  }

  /** Realm `realm`, and no other, feeds queue `q`. */
  predicate Feeds(t: Table, realm: u32, q: nat) {
    && q < |t.queues| && q !in t.dropped
    && realm in t.channels && t.channels[realm] == q
    && forall other :: other in t.channels && t.channels[other] == q ==> other == realm
  }

  /** Nothing can reach queue `q` any more. */
  predicate Dead(t: Table, q: nat) {
    q < |t.queues| && (q in t.dropped || forall other :: other in t.channels ==> t.channels[other] != q)
  }

  predicate Numbered(t: Table) {
    && (forall realm :: realm in t.channels ==> t.channels[realm] < |t.queues|)
    && (forall q :: q in t.dropped ==> q < |t.queues|)
  }

  lemma {:induction false} AfterAllNumbered(t: Table, events: seq<Event>)
    requires Numbered(t)
    ensures Numbered(AfterAll(t, events)) && |t.queues| <= |AfterAll(t, events).queues|
    decreases |events|
  {
    if events != [] {
      AfterAllNumbered(After(t, events[0]), events[1..]);
    }
  }

  lemma {:induction false} DeadStays(t: Table, events: seq<Event>, q: nat)
    requires Dead(t, q)
    ensures q < |AfterAll(t, events).queues| && AfterAll(t, events).queues[q] == t.queues[q]
    decreases |events|
  {
    if events != [] {
      DeadStays(After(t, events[0]), events[1..], q);
    }
  }

  lemma CloseKills(t: Table, e: Event, realm: u32, q: nat)
    requires Feeds(t, realm, q) && Closes(e, realm, q)
    ensures Dead(After(t, e), q) && After(t, e).queues[q] == t.queues[q]
  {
  }

  lemma OpenFeeds(t: Table, e: Event, realm: u32, q: nat)
    requires Feeds(t, realm, q) && !Closes(e, realm, q)
    ensures Feeds(After(t, e), realm, q)
    ensures After(t, e).queues[q] == t.queues[q] + PayloadsOn(realm, IncomingBodies([e]))
  {
    assert IncomingBodies([e]) == if e.Incoming? then [e.body] else [];
    if e.Incoming? {
      assert [e.body][1..] == [];
      assert PayloadsOn(realm, [e.body]) == if e.body.Payload? && e.body.realm == realm then [e.body.data] else [];
    }
  }

  lemma Associate<T>(a: seq<T>, b: seq<T>, c: seq<T>)
    ensures a + (b + c) == (a + b) + c
  {
  }

  lemma {:induction false} PayloadsJoin(realm: u32, one: seq<Body>, two: seq<Body>)
    ensures PayloadsOn(realm, one + two) == PayloadsOn(realm, one) + PayloadsOn(realm, two)
  {
    if one == [] {
      assert one + two == two;
    } else {
      PayloadsJoin(realm, one[1..], two);
      assert (one + two)[1..] == one[1..] + two;
      var head := if one[0].Payload? && one[0].realm == realm then [one[0].data] else [];
      Associate(head, PayloadsOn(realm, one[1..]), PayloadsOn(realm, two));
    }
  }

  lemma {:induction false} IncomingJoin(one: seq<Event>, two: seq<Event>)
    ensures IncomingBodies(one + two) == IncomingBodies(one) + IncomingBodies(two)
  {
    if one == [] {
      assert one + two == two;
    } else {
      IncomingJoin(one[1..], two);
      assert (one + two)[1..] == one[1..] + two;
      var head := if one[0].Incoming? then [one[0].body] else [];
      Associate(head, IncomingBodies(one[1..]), IncomingBodies(two));
    }
  }

  /** A queue gathers exactly the payloads of its realm that arrive while it is open. */
  lemma {:induction false} QueueGathers(t: Table, events: seq<Event>, realm: u32, q: nat)
    requires Feeds(t, realm, q)
    ensures q < |AfterAll(t, events).queues|
    ensures AfterAll(t, events).queues[q]
         == t.queues[q] + PayloadsOn(realm, IncomingBodies(WhileOpen(events, realm, q)))
    decreases |events|
  {
    if events == [] {
    } else if Closes(events[0], realm, q) {
      CloseKills(t, events[0], realm, q);
      DeadStays(After(t, events[0]), events[1..], q);
    } else {
      OpenFeeds(t, events[0], realm, q);
      QueueGathers(After(t, events[0]), events[1..], realm, q);
      var rest := WhileOpen(events[1..], realm, q);
      IncomingJoin([events[0]], rest);
      PayloadsJoin(realm, IncomingBodies([events[0]]), IncomingBodies(rest));
    }
  }

  lemma {:induction false} AfterAllSplit(t: Table, one: seq<Event>, two: seq<Event>)
    ensures AfterAll(t, one + two) == AfterAll(AfterAll(t, one), two)
    decreases |one|
  {
    if one == [] {
      assert one + two == two;
    } else {
      AfterAllSplit(After(t, one[0]), one[1..], two);
      assert (one + two)[1..] == one[1..] + two;
    }
  }

  /** The queue that event `p` creates. */
  function QueueOf(events: seq<Event>, p: nat): nat
    requires p < |events|
  {
    |AfterAll(EMPTY_TABLE, events[..p]).queues|
  }

  /** For any interleaving of realms, the queue made by a registration holds
      exactly the payloads that came in on its realm from then until the realm was
      first closed. */
  lemma RegisteredQueueGathers(events: seq<Event>, p: nat, realm: u32)
    requires p < |events| && events[p] == Register(realm)
    ensures var q := QueueOf(events, p);
      && q < |AfterAll(EMPTY_TABLE, events).queues|
      && AfterAll(EMPTY_TABLE, events).queues[q]
           == PayloadsOn(realm, IncomingBodies(WhileOpen(events[p + 1..], realm, q)))
  {
    var before := AfterAll(EMPTY_TABLE, events[..p]);
    var q := |before.queues|;
    AfterAllNumbered(EMPTY_TABLE, events[..p]);
    assert events == events[..p] + ([events[p]] + events[p + 1..]);
    AfterAllSplit(EMPTY_TABLE, events[..p], [events[p]] + events[p + 1..]);
    var t := After(before, events[p]);
    assert ([events[p]] + events[p + 1..])[1..] == events[p + 1..];
    QueueGathers(t, events[p + 1..], realm, q);
  }

  lemma IncomingPrefix(one: seq<Event>, two: seq<Event>)
    requires one <= two
    ensures IncomingBodies(one) <= IncomingBodies(two)
  {
    assert two == one + two[|one|..];
    IncomingJoin(one, two[|one|..]);
  }

  lemma PayloadsPrefix(realm: u32, one: seq<Body>, two: seq<Body>)
    requires one <= two
    ensures PayloadsOn(realm, one) <= PayloadsOn(realm, two)
  {
    assert two == one + two[|one|..];
    PayloadsJoin(realm, one, two[|one|..]);
  }

  /** The realm is fresh when it is registered: nothing came in on it before. */
  predicate FreshAt(events: seq<Event>, p: nat, realm: u32)
    requires p < |events|
  {
    PayloadsOn(realm, IncomingBodies(events[..p])) == []
  }

  /** Fresh or not, the queue is the stretch of the realm's payloads that starts behind
      all that came in before the registration. */
  lemma QueueIsSlice(events: seq<Event>, p: nat, realm: u32)
    requires p < |events| && events[p] == Register(realm)
    ensures QueueOf(events, p) < |AfterAll(EMPTY_TABLE, events).queues|
    ensures PayloadsOn(realm, IncomingBodies(events[..p])) + AfterAll(EMPTY_TABLE, events).queues[QueueOf(events, p)]
         <= PayloadsOn(realm, IncomingBodies(events))
  {
    hide AfterAll, WhileOpen;
    var q := QueueOf(events, p);
    RegisteredQueueGathers(events, p, realm);
    var open, rest := WhileOpen(events[p + 1..], realm, q), events[p + 1..];
    assert open <= rest by { OpenIsPrefix(rest, realm, q); }
    IncomingPrefix(open, rest);
    PayloadsPrefix(realm, IncomingBodies(open), IncomingBodies(rest));
    assert events == events[..p] + ([events[p]] + rest);
    IncomingJoin(events[..p], [events[p]] + rest);
    assert ([events[p]] + rest)[1..] == rest;
    assert IncomingBodies([events[p]] + rest) == IncomingBodies(rest);
    PayloadsJoin(realm, IncomingBodies(events[..p]), IncomingBodies(rest));
    JoinKeepsPrefix(PayloadsOn(realm, IncomingBodies(events[..p])), PayloadsOn(realm, IncomingBodies(open)),
      PayloadsOn(realm, IncomingBodies(rest)));
  }

  lemma JoinKeepsPrefix<T>(a: seq<T>, b: seq<T>, c: seq<T>)
    requires b <= c
    ensures a + b <= a + c
  {
  }

  /** With a fresh realm id, the queue holds a prefix of all that came in on the realm. */
  lemma FreshQueueIsPrefix(events: seq<Event>, p: nat, realm: u32)
    requires p < |events| && events[p] == Register(realm) && FreshAt(events, p, realm)
    ensures QueueOf(events, p) < |AfterAll(EMPTY_TABLE, events).queues|
    ensures AfterAll(EMPTY_TABLE, events).queues[QueueOf(events, p)] <= PayloadsOn(realm, IncomingBodies(events))
  {
    hide AfterAll, PayloadsOn, QueueOf;
    QueueIsSlice(events, p, realm);
    var queue := AfterAll(EMPTY_TABLE, events).queues[QueueOf(events, p)];
    assert [] + queue == queue;
  }

  lemma OpenIsPrefix(events: seq<Event>, realm: u32, q: nat)
    ensures WhileOpen(events, realm, q) <= events
  {
  }

  /**
   End to end: let the reader have worked through some of what the strict session
   has handed on, interleaved in any way with clients coming and going. What the
   queue of a registration then holds is, in order and without repetition, a stretch of
   the payloads the camera was asked to send on that realm, whatever the network did:
   from their start if the realm id is fresh, otherwise from behind what came before.
   */
  lemma RealmStreamSafety(sys: System, actions: seq<Action>, gapTimeout: nat, events: seq<Event>, p: nat, realm: u32)
    requires Initial(sys) && Admissible(sys, actions, gapTimeout) && !sys.engine.session.allowGapSkip
    requires IncomingBodies(events) <= Bodies(Run(sys, actions, gapTimeout).engine.output)
    requires p < |events| && events[p] == Register(realm)
    ensures QueueOf(events, p) < |AfterAll(EMPTY_TABLE, events).queues|
    ensures var queue := AfterAll(EMPTY_TABLE, events).queues[QueueOf(events, p)];
      && PayloadsOn(realm, IncomingBodies(events[..p])) + queue <= PayloadsOn(realm, SentBodies(actions, Camera))
      && (FreshAt(events, p, realm) ==> queue <= PayloadsOn(realm, SentBodies(actions, Camera)))
  {
    hide Initial, Admissible, Run, AfterAll, PayloadsOn, IncomingBodies, SentBodies, QueueOf;
    EndToEndSafety(sys, actions, gapTimeout, Camera);
    QueueIsSlice(events, p, realm);
    PayloadsPrefix(realm, IncomingBodies(events), SentBodies(actions, Camera));
    var queue := AfterAll(EMPTY_TABLE, events).queues[QueueOf(events, p)];
    assert [] + queue == queue;
  }

  // ---- when the prefix claim holds ----

  function Registered(before: seq<Event>, realm: u32, later: seq<Event>): (events: seq<Event>)
    ensures |before| < |events| && events[|before|] == Register(realm) && events[..|before|] == before
  {
    before + ([Register(realm)] + later)
  }

  /** Registered after `before`, the realm's queue holds a prefix of the realm's stream,
      once `later` has happened. */
  ghost predicate PrefixClaim(before: seq<Event>, realm: u32, later: seq<Event>) {
    var events := Registered(before, realm, later);
    && QueueOf(events, |before|) < |AfterAll(EMPTY_TABLE, events).queues|
    && AfterAll(EMPTY_TABLE, events).queues[QueueOf(events, |before|)] <= PayloadsOn(realm, IncomingBodies(events))
  }

  /** The claim holds whatever happens later if and only if the realm id is fresh. */
  lemma PrefixIffFresh(before: seq<Event>, realm: u32)
    ensures (forall later :: PrefixClaim(before, realm, later)) <==> PayloadsOn(realm, IncomingBodies(before)) == []
  {
    hide PrefixClaim, AfterAll, QueueOf;
    if PayloadsOn(realm, IncomingBodies(before)) == [] {
      forall later ensures PrefixClaim(before, realm, later) {
        FreshClaim(before, realm, later);
      }
    } else {
      var data := PayloadsOn(realm, IncomingBodies(before))[0] + [0];
      ReusedRealmMissesTheStart(before, realm, data);
      assert !PrefixClaim(before, realm, [Incoming(Payload(realm, data))]);
    }
  }

  lemma FreshClaim(before: seq<Event>, realm: u32, later: seq<Event>)
    requires PayloadsOn(realm, IncomingBodies(before)) == []
    ensures PrefixClaim(before, realm, later)
  {
    hide AfterAll, QueueOf;
    FreshQueueIsPrefix(Registered(before, realm, later), |before|, realm);
  }

  /** On a reused realm id the next payload breaks the claim, unless it happens to equal
      the realm's very first. */
  lemma ReusedRealmMissesTheStart(before: seq<Event>, realm: u32, data: bytes)
    requires PayloadsOn(realm, IncomingBodies(before)) != []
    ensures PrefixClaim(before, realm, [Incoming(Payload(realm, data))])
        <==> data == PayloadsOn(realm, IncomingBodies(before))[0]
  {
    hide AfterAll;
    var body := Payload(realm, data);
    var later := [Incoming(body)];
    var events, p := Registered(before, realm, later), |before|;
    var q := QueueOf(events, p);
    RegisteredQueueGathers(events, p, realm);
    assert events[p + 1..] == later && later[1..] == [];
    assert WhileOpen(later, realm, q) == later && IncomingBodies(later) == [body];
    assert [body][1..] == [] && PayloadsOn(realm, [body]) == [data];
    QueueIsSlice(events, p, realm);
    assert AfterAll(EMPTY_TABLE, events).queues[q] == [data];
    assert PayloadsOn(realm, IncomingBodies(events))[0] == PayloadsOn(realm, IncomingBodies(before))[0];
  }

  // ---- who is told that the camera answered ----

  /** The camera's "CONN" on a realm. */
  predicate Answers(e: Event, realm: u32) {
    e == Incoming(Status(realm, [0x43, 0x4F, 0x4E, 0x4E]))
  }

  /** Events that take the waiter of a realm away: the id is registered again, its bind has
      failed, or the camera said "DISC". */
  predicate Withdraws(e: Event, realm: u32) {
    || e == Register(realm) || e == BindFailed(realm)
    || e == Incoming(Status(realm, [0x44, 0x49, 0x53, 0x43]))
  }

  /** The answer comes in while the waiter is still there. */
  predicate AnsweredInTime(events: seq<Event>, realm: u32) {
    events != [] &&
    (Answers(events[0], realm) || (!Withdraws(events[0], realm) && AnsweredInTime(events[1..], realm)))
  }

  /** The waiter of registration `q` is `realm`'s, and nobody else's. */
  predicate WaitsFor(t: Table, realm: u32, q: nat) {
    && q < |t.queues| && q !in t.released
    && realm in t.waiting && t.waiting[realm] == q
    && forall other :: other in t.waiting && t.waiting[other] == q ==> other == realm
  }

  /** Registration `q` has no waiter any more. */
  predicate Unwaited(t: Table, q: nat) {
    q < |t.queues| && forall other :: other in t.waiting ==> t.waiting[other] != q
  }

  lemma {:induction false} UnwaitedStays(t: Table, events: seq<Event>, q: nat)
    requires Unwaited(t, q)
    ensures q in AfterAll(t, events).released <==> q in t.released
    decreases |events|
  {
    if events != [] {
      UnwaitedStays(After(t, events[0]), events[1..], q);
    }
  }

  lemma AnswerReleases(t: Table, e: Event, realm: u32, q: nat)
    requires WaitsFor(t, realm, q)
    ensures var t' := After(t, e);
      && (Answers(e, realm) ==> Unwaited(t', q) && q in t'.released)
      && (Withdraws(e, realm) ==> Unwaited(t', q) && q !in t'.released)
      && (!Answers(e, realm) && !Withdraws(e, realm) ==> WaitsFor(t', realm, q))
  {
  }

  lemma {:induction false} WaiterReleased(t: Table, events: seq<Event>, realm: u32, q: nat)
    requires WaitsFor(t, realm, q)
    ensures q in AfterAll(t, events).released <==> AnsweredInTime(events, realm)
    decreases |events|
  {
    hide After, WaitsFor, Unwaited, Answers, Withdraws;
    if events == [] {
      WaiterIsOpen(t, realm, q);
    } else {
      AnswerReleases(t, events[0], realm, q);
      NotBoth(events[0], realm);
      if Answers(events[0], realm) || Withdraws(events[0], realm) {
        UnwaitedStays(After(t, events[0]), events[1..], q);
      } else {
        WaiterReleased(After(t, events[0]), events[1..], realm, q);
      }
    }
  }

  lemma WaiterIsOpen(t: Table, realm: u32, q: nat)
    requires WaitsFor(t, realm, q)
    ensures q !in t.released
  {
  }

  lemma NotBoth(e: Event, realm: u32)
    ensures !(Answers(e, realm) && Withdraws(e, realm))
  {
    var conn: bytes, disc: bytes := [0x43, 0x4F, 0x4E, 0x4E], [0x44, 0x49, 0x53, 0x43];
    assert conn[0] != disc[0];
  }

  /** The tables know only registrations that have been made. */
  predicate Bounded(t: Table) {
    && (forall realm :: realm in t.waiting ==> t.waiting[realm] < |t.queues|)
    && (forall q :: q in t.released ==> q < |t.queues|)
  }

  lemma {:induction false} AfterAllBounded(t: Table, events: seq<Event>)
    requires Bounded(t)
    ensures Bounded(AfterAll(t, events))
    decreases |events|
  {
    if events != [] {
      AfterAllBounded(After(t, events[0]), events[1..]);
    }
  }

  /** For every interleaving: the client registered by event `p` learns that its bind
      succeeded if and only if the camera answers on its realm after that, before the id is
      registered again, its bind fails, or the camera closes the realm. */
  lemma ReleasedExactly(events: seq<Event>, p: nat, realm: u32)
    requires p < |events| && events[p] == Register(realm)
    ensures QueueOf(events, p) in AfterAll(EMPTY_TABLE, events).released <==> AnsweredInTime(events[p + 1..], realm)
  {
    hide AnsweredInTime;
    var before := AfterAll(EMPTY_TABLE, events[..p]);
    AfterAllBounded(EMPTY_TABLE, events[..p]);
    var rest := events[p + 1..];
    assert events == events[..p] + ([events[p]] + rest);
    AfterAllSplit(EMPTY_TABLE, events[..p], [events[p]] + rest);
    assert ([events[p]] + rest)[1..] == rest;
    WaiterReleased(After(before, events[p]), rest, realm, |before.queues|);
  }

  // ---- the ONVIF realm ----

  /** The realm bound last for ONVIF, unless the camera has closed that realm since. */
  function BoundRealm(events: seq<Event>): Option<u32> {
    if events == [] then None
    else
      var before := BoundRealm(events[..|events| - 1]);
      match events[|events| - 1]
      case OnvifBound(realm) => Some(realm)
      case Incoming(Status(realm, status)) =>
        if status == [0x44, 0x49, 0x53, 0x43] && before == Some(realm) then None else before
      case _ => before
  }

  lemma AfterLastEvent(t: Table, events: seq<Event>)
    requires events != []
    ensures AfterAll(t, events) == After(AfterAll(t, events[..|events| - 1]), events[|events| - 1])
  {
    var last := [events[|events| - 1]];
    assert events == events[..|events| - 1] + last && last[1..] == [];
    AfterAllSplit(t, events[..|events| - 1], last);
  }

  lemma BindingSteps(t: Table, e: Event)
    ensures After(t, e).onvifRealm ==
      if e.OnvifBound? then Some(e.realm)
      else if e.Incoming? && e.body.Status? && e.body.status == [0x44, 0x49, 0x53, 0x43]
        && t.onvifRealm == Some(e.body.realm)
      then None
      else t.onvifRealm
  {
  }

  lemma {:induction false} OnvifRealmIsBound(events: seq<Event>)
    ensures AfterAll(EMPTY_TABLE, events).onvifRealm == BoundRealm(events)
    decreases |events|
  {
    hide AfterAll, After;
    if events == [] {
      NoEvents();
    } else {
      AfterLastEvent(EMPTY_TABLE, events);
      OnvifRealmIsBound(events[..|events| - 1]);
      BindingSteps(AfterAll(EMPTY_TABLE, events[..|events| - 1]), events[|events| - 1]);
    }
  }

  lemma NoEvents()
    ensures AfterAll(EMPTY_TABLE, []) == EMPTY_TABLE
  {
  }

  predicate Unbinds(e: Event, realm: u32) {
    e.OnvifBound? || e == Incoming(Status(realm, [0x44, 0x49, 0x53, 0x43]))
  }

  /** Event `k` binds the realm for ONVIF; nothing is bound after it, nor this realm closed. */
  predicate StaysBound(events: seq<Event>, realm: u32, k: nat) {
    && k < |events| && events[k] == OnvifBound(realm)
    && forall j :: k < j < |events| ==> !Unbinds(events[j], realm)
  }

  lemma {:induction false} BoundRealmStays(events: seq<Event>, realm: u32)
    ensures BoundRealm(events) == Some(realm) <==> exists k :: StaysBound(events, realm, k)
    decreases |events|
  {
    hide Unbinds;
    if events != [] {
      var n := |events| - 1;
      BoundRealmStays(events[..n], realm);
      UnbindsIs(events[n], realm);
      if k: nat :| StaysBound(events[..n], realm, k) && !Unbinds(events[n], realm) {
        assert events[..n][k] == events[k];
        assert StaysBound(events, realm, k);
      }
      if events[n] == OnvifBound(realm) {
        assert StaysBound(events, realm, n);
      }
      if k: nat :| StaysBound(events, realm, k) && k < n {
        assert StaysBound(events[..n], realm, k);
        assert !Unbinds(events[n], realm);
      }
    }
  }

  lemma UnbindsIs(e: Event, realm: u32)
    ensures Unbinds(e, realm) <==>
      || e.OnvifBound?
      || (e.Incoming? && e.body.Status? && e.body.status == [0x44, 0x49, 0x53, 0x43] && e.body.realm == realm)
  {
  }

  /** For every interleaving the ONVIF realm is the one bound last, unless the camera has
      closed that same realm since. */
  lemma OnvifRealmExactly(events: seq<Event>, realm: u32)
    ensures AfterAll(EMPTY_TABLE, events).onvifRealm == Some(realm) <==> exists k :: StaysBound(events, realm, k)
  {
    OnvifRealmIsBound(events);
    BoundRealmStays(events, realm);
  }
}
