/**
 What the manager brings about: which exits are answered by a restart, that the restart
 comes to a new live process, and what a start and a stop leave behind.
 */
module LifecycleRestarts {
  import opened Options
  import opened Lifecycle
  import opened LifecycleRuns
  import opened LifecycleManager

  /** State `s` is the one its service is served by, for the worker published for its camera. */
  predicate Serves(m: Manager, s: nat)
    requires s < |m.states| && m.states[s].worker < |m.workers|
  {
    var w := m.states[s].worker;
    && m.workers[w].camera in m.current && m.current[m.workers[w].camera] == w
    && m.states[s].service in m.workers[w].services && m.workers[w].services[m.states[s].service] == s
  }

  lemma ServesIs(m: Manager, s: nat)
    requires Inv(m) && s < |m.states|
    ensures m.states[s].worker < |m.workers|
    ensures Serves(m, s) <==> IsCurrent(m, m.states[s].worker) && IsRegistered(m, s)
  {
    hide Accounted, StageOk;
    WellFormedOf(m, s);
    if IsRegistered(m, s) {
      RegisteredUnderOwnService(m, s);
    }
  }

  /** The RTSP session that worker `w` serves is alive but still connecting. */
  predicate RtspStuck(m: Manager, w: nat) {
    && w < |m.workers| && Rtsp in m.workers[w].services && m.workers[w].services[Rtsp] < |m.states|
    && var r := m.workers[w].services[Rtsp]; m.states[r].status == Connecting && m.states[r].exit == None
  }

  // ---- which exits plan a restart ----

  /** A service that exits with 75, or with a transient failure, is set to connecting and a
      restart is planned; for ONVIF and 75 with RTSP's if that one is stuck. Any other exit
      plans nothing, and means stopped exactly for code 0. Nothing else changes. */
  lemma ExitPlans(m: Manager, s: nat, transient: bool)
    requires Inv(m) && Enabled(m, ReadEnd(s, transient))
    ensures m.states[s].worker < |m.workers| && m.states[s].exit.Some?
    ensures var m', state := Step(m, ReadEnd(s, transient)), m.states[s];
      var code := state.exit.value;
      && m' == m.(readers := m'.readers, states := m'.states)
      && m'.readers == m.readers[s := m'.readers[s]]
      && m'.states == m.states[s := state.(status := m'.states[s].status)]
      && (if !Serves(m, s) then m'.readers[s] == Finished && m'.states[s].status == state.status
          else if code == 75 then
            && m'.readers[s] == Restarting(state.service == Onvif && RtspStuck(m, state.worker))
            && m'.states[s].status == Connecting
          else if code != 0 && transient then m'.readers[s] == Restarting(false) && m'.states[s].status == Connecting
          else m'.readers[s] == Finished && m'.states[s].status == if code == 0 then Stopped else Failed)
  {
    hide Accounted, StageOk, IsRegistered, Filed;
    ServesIs(m, s);
    WellFormedOf(m, s);
    StuckIs(m, s);
    assert m.states[s := m.states[s]] == m.states;
  }

  lemma StuckIs(m: Manager, s: nat)
    requires Inv(m) && s < |m.states| && !Alive(m, s)
    ensures m.states[s].worker < |m.workers|
    ensures forall v :: v in m.workers[m.states[s].worker].services ==>
      m.workers[m.states[s].worker].services[v] < |m.states|
    ensures PeerStuck(m, s) <==> m.states[s].service == Onvif && RtspStuck(m, m.states[s].worker)
  {
    hide Accounted, StageOk;
    WellFormedOf(m, s);
  }

  // ---- a planned restart comes ----

  /** A live process, numbered `since` or later, is registered under service `v` of worker `w`,
      connecting and watched by a reader. */
  predicate ServedBy(m: Manager, w: nat, v: Service, since: nat) {
    && w < |m.workers| && v in m.workers[w].services
    && var s := m.workers[w].services[v];
    && since <= s < |m.states| && m.states[s] == ServiceState(w, v, Connecting, None)
    && s in m.readers && m.readers[s] == Reading
  }

  lemma StartServiceServes(m: Manager, w: nat, v: Service)
    requires WellFormed(m) && w < |m.workers|
    ensures var m' := StartService(m, w, v);
      && ServedBy(m', w, v, |m.states|)
      && m'.current == m.current && m'.workers[w].camera == m.workers[w].camera
      && forall u, since :: u != v && ServedBy(m, w, u, since) ==> ServedBy(m', w, u, since)
  {
  }

  lemma TerminatedServes(m: Manager, w: nat, v: Service, s: nat, since: nat)
    requires ServedBy(m, w, v, since) && s < |m.states| && m.states[s].service != v
    ensures ServedBy(Terminated(m, s), w, v, since)
  {
  }

  lemma PeerServes(m: Manager, w: nat, since: nat)
    requires Inv(m) && w < |m.workers| && IsCurrent(m, w) && Rtsp in m.workers[w].services && since <= |m.states|
    ensures m.workers[w].services[Rtsp] < |m.states|
    ensures ServedBy(RestartedPeer(m, w), w, Rtsp, since)
    ensures ServedBy(m, w, Onvif, since) ==> ServedBy(RestartedPeer(m, w), w, Onvif, since)
  {
    hide WellFormed, Filed, Accounted, StageOk, ServedBy, IsRegistered;
    RegisteredService(m, w, Rtsp);
    var r := m.workers[w].services[Rtsp];
    var dead := Terminated(m, r);
    TerminatedKeeps(m, r);
    if ServedBy(m, w, Onvif, since) {
      TerminatedServes(m, w, Onvif, r, since);
    }
    StartServiceServes(dead, w, Rtsp);
    ServedLonger(StartService(dead, w, Rtsp), w, Rtsp, |dead.states|, since);
  }

  lemma OwnServes(m: Manager, s: nat)
    requires Inv(m) && s < |m.states| && m.states[s].worker < |m.workers| && !Alive(m, s)
    requires m.workers[m.states[s].worker].camera !in m.operations
    ensures Inv(RestartedOwn(m, s))
    ensures IsCurrent(m, m.states[s].worker) && IsRegistered(m, s) ==>
      ServedBy(RestartedOwn(m, s), m.states[s].worker, m.states[s].service, |m.states|)
  {
    hide WellFormed, Filed, Accounted, StageOk, ServedBy, IsRegistered;
    var w, v := m.states[s].worker, m.states[s].service;
    if IsCurrent(m, w) && IsRegistered(m, s) {
      RegisteredUnderOwnService(m, s);
      StartServiceKeeps(m, w, v);
      StartServiceServes(m, w, v);
    }
  }

  /** The restart of a service that is still served by the dead state spawns a new process
      for it; and one for RTSP, if the peer is to be rebuilt with it. */
  lemma RestartServes(m: Manager, s: nat)
    requires Inv(m) && Enabled(m, Restart(s)) && m.states[s].worker < |m.workers|
    requires m.readers[s].peer ==> m.states[s].service == Onvif
    ensures var m', state := Step(m, Restart(s)), m.states[s];
      && (Serves(m, s) ==> ServedBy(m', state.worker, state.service, |m.states|))
      && (IsCurrent(m, state.worker) && m.readers[s].peer && Rtsp in m.workers[state.worker].services ==>
            ServedBy(m', state.worker, Rtsp, |m.states|))
  {
    hide WellFormed, Filed, Accounted, StageOk, ServedBy, IsRegistered, Serves, RestartedOwn, RestartedPeer;
    var w := m.states[s].worker;
    ServesIs(m, s);
    SetReaderKeeps(m, s, Finished);
    var m0 := SetReader(m, s, Finished);
    SameRegistration(m, m0, s);
    OwnServes(m0, s);
    OwnKeepsRtsp(m0, s);
    var own := RestartedOwn(m0, s);
    if m.readers[s].peer && IsCurrent(own, w) && Rtsp in own.workers[w].services {
      PeerServes(own, w, |m.states|);
    } else if m.readers[s].peer {
      NoPeerNoChange(own, w);
    }
  }

  lemma NoPeerNoChange(m: Manager, w: nat)
    requires Inv(m) && w < |m.workers| && !(IsCurrent(m, w) && Rtsp in m.workers[w].services)
    ensures Rtsp in m.workers[w].services ==> m.workers[w].services[Rtsp] < |m.states|
    ensures RestartedPeer(m, w) == m
  {
    hide Accounted, StageOk, Filed;
  }

  lemma ServedLonger(m: Manager, w: nat, v: Service, young: nat, since: nat)
    requires ServedBy(m, w, v, young) && since <= young
    ensures ServedBy(m, w, v, since)
  {
  }

  lemma RegisteredService(m: Manager, w: nat, v: Service)
    requires Inv(m) && w < |m.workers| && v in m.workers[w].services
    ensures var s := m.workers[w].services[v];
      s < |m.states| && m.states[s].service == v && m.states[s].worker == w
  {
  }

  lemma OwnKeepsRtsp(m: Manager, s: nat)
    requires Inv(m) && s < |m.states| && m.states[s].worker < |m.workers|
    ensures var own, w := RestartedOwn(m, s), m.states[s].worker;
      && own.current == m.current && |own.workers| == |m.workers| && |own.states| >= |m.states|
      && own.workers[w].camera == m.workers[w].camera
      && (Rtsp in m.workers[w].services ==> Rtsp in own.workers[w].services)
  {
    hide Accounted, StageOk, Filed, IsRegistered;
  }

  // ---- what lasts until then ----

  /** A process that has been spawned but not registered has no reader yet. */
  ghost predicate Unread(m: Manager, c: nat) {
    c in m.operations && m.operations[c].Spawned? ==> m.operations[c].state !in m.readers
  }

  ghost predicate SpawnedUnread(m: Manager) {
    forall c: nat :: Unread(m, c)
  }

  lemma OperationUnread(m: Manager, a: Action, c: nat)
    requires Inv(m) && Enabled(m, a) && Unread(m, c) && !ByThread(a) && !a.Restart? && !a.StartOnvif?
    ensures Unread(Step(m, a), c)
  {
    hide Accounted, ReadEnded, Restarted, OnvifStarted, ServiceStates;
    if a.RegisterFirst? {
      assert StageOk(m, a.camera);
      if c in m.operations {
        assert StageOk(m, c);
      }
    }
  }

  lemma ReadersGrow(m: Manager, w: nat, v: Service, c: nat)
    requires Inv(m) && w < |m.workers| && Unread(m, c)
    ensures Unread(StartService(m, w, v), c)
  {
    hide Accounted, StageOk, Filed;
  }

  lemma RestartUnread(m: Manager, s: nat, c: nat)
    requires Inv(m) && Enabled(m, Restart(s)) && Unread(m, c)
    ensures Unread(Step(m, Restart(s)), c)
  {
    hide WellFormed, Filed, Accounted, StageOk, IsRegistered, Unread;
    var w := m.states[s].worker;
    SetReaderKeeps(m, s, Finished);
    var m0 := SetReader(m, s, Finished);
    SameReaders(m, m0, c);
    OwnKeepsRtsp(m0, s);
    OwnServes(m0, s);
    if IsCurrent(m0, w) && IsRegistered(m0, s) {
      ReadersGrow(m0, w, m0.states[s].service, c);
    }
    var own := RestartedOwn(m0, s);
    if m.readers[s].peer && IsCurrent(own, w) && Rtsp in own.workers[w].services {
      WellFormedWorker(own, w, Rtsp);
      var r := own.workers[w].services[Rtsp];
      TerminatedKeeps(own, r);
      SameReaders(own, Terminated(own, r), c);
      ReadersGrow(Terminated(own, r), w, Rtsp, c);
    }
  }

  lemma SameReaders(m: Manager, m': Manager, c: nat)
    requires m'.operations == m.operations && m'.readers.Keys == m.readers.Keys && Unread(m, c)
    ensures Unread(m', c)
  {
    assert forall s :: s in m'.readers <==> s in m'.readers.Keys;
  }

  lemma OtherUnread(m: Manager, a: Action, c: nat)
    requires Inv(m) && Enabled(m, a) && Unread(m, c) && (ByThread(a) || a.StartOnvif?)
    ensures Unread(Step(m, a), c)
  {
    hide Accounted, StageOk, Filed, IsRegistered, PeerStuck;
    if a.StartOnvif? {
      DequeueKeeps(m, a.worker);
      var m0 := m.(onvifWaiting := m.onvifWaiting - {a.worker});
      ReadersGrow(m0, a.worker, Onvif, c);
    } else if a.ReadEnd? {
      ExitPlans(m, a.state, a.transient);
      assert a.state in m.readers;
    }
  }

  lemma StepKeepsUnread(m: Manager, a: Action)
    requires Inv(m) && SpawnedUnread(m) && Enabled(m, a)
    ensures SpawnedUnread(Step(m, a))
  {
    hide WellFormed, Filed, Accounted, StageOk, Unread, Step, Enabled;
    forall c: nat ensures Unread(Step(m, a), c) {
      assert Unread(m, c);
      if a.Restart? {
        RestartUnread(m, a.state, c);
      } else if ByThread(a) || a.StartOnvif? {
        OtherUnread(m, a, c);
      } else {
        OperationUnread(m, a, c);
      }
    }
  }

  lemma UnreadInitially()
    ensures SpawnedUnread(EMPTY_MANAGER)
  {
  }

  /** Nothing is forgotten: states keep their worker and service and stay dead once they are,
      workers keep their camera, and a service once registered is, from then on, served by
      that state or a later one. */
  predicate Grows(m: Manager, m': Manager) {
    && |m.states| <= |m'.states| && |m.workers| <= |m'.workers|
    && (forall s :: 0 <= s < |m.states| ==>
          && m'.states[s].worker == m.states[s].worker && m'.states[s].service == m.states[s].service
          && (m.states[s].exit.Some? ==> m'.states[s].exit == m.states[s].exit))
    && (forall w :: 0 <= w < |m.workers| ==>
          && m'.workers[w].camera == m.workers[w].camera
          && forall v :: v in m.workers[w].services ==>
               v in m'.workers[w].services && m.workers[w].services[v] <= m'.workers[w].services[v])
  }

  lemma GrowsOn(a: Manager, b: Manager, c: Manager)
    requires Grows(a, b) && Grows(b, c)
    ensures Grows(a, c)
  {
  }

  lemma StartServiceGrows(m: Manager, w: nat, v: Service)
    requires WellFormed(m) && w < |m.workers|
    ensures Grows(m, StartService(m, w, v))
  {
  }

  lemma TerminatedGrows(m: Manager, s: nat)
    requires s < |m.states|
    ensures Grows(m, Terminated(m, s))
  {
  }

  lemma RestartGrows(m: Manager, s: nat)
    requires Inv(m) && Enabled(m, Restart(s))
    ensures Grows(m, Step(m, Restart(s)))
  {
    hide WellFormed, Filed, Accounted, StageOk, IsRegistered, Grows;
    var w := m.states[s].worker;
    SetReaderKeeps(m, s, Finished);
    var m0 := SetReader(m, s, Finished);
    SameStatesGrow(m, m0);
    OwnServes(m0, s);
    OwnKeepsRtsp(m0, s);
    var own := RestartedOwn(m0, s);
    if IsCurrent(m0, w) && IsRegistered(m0, s) {
      StartServiceGrows(m0, w, m0.states[s].service);
    } else {
      SameStatesGrow(m0, own);
    }
    GrowsOn(m, m0, own);
    if m.readers[s].peer && IsCurrent(own, w) && Rtsp in own.workers[w].services {
      WellFormedWorker(own, w, Rtsp);
      var dead := Terminated(own, own.workers[w].services[Rtsp]);
      TerminatedKeeps(own, own.workers[w].services[Rtsp]);
      TerminatedGrows(own, own.workers[w].services[Rtsp]);
      StartServiceGrows(dead, w, Rtsp);
      GrowsOn(own, dead, StartService(dead, w, Rtsp));
      GrowsOn(m, own, StartService(dead, w, Rtsp));
    }
  }

  lemma SameStatesGrow(m: Manager, m': Manager)
    requires m'.states == m.states && m'.workers == m.workers
    ensures Grows(m, m')
  {
  }

  lemma OnvifGrows(m: Manager, w: nat)
    requires Inv(m) && Enabled(m, StartOnvif(w))
    ensures Grows(m, Step(m, StartOnvif(w)))
  {
    hide Filed, Accounted, StageOk, Grows;
    DequeueKeeps(m, w);
    var m0 := m.(onvifWaiting := m.onvifWaiting - {w});
    SameStatesGrow(m, m0);
    StartServiceGrows(m0, w, Onvif);
    GrowsOn(m, m0, StartService(m0, w, Onvif));
  }

  lemma ThreadGrows(m: Manager, a: Action)
    requires Inv(m) && Enabled(m, a) && ByThread(a)
    ensures Grows(m, Step(m, a))
  {
    hide WellFormed, Filed, Accounted, StageOk, IsRegistered, PeerStuck, ReadEnded;
    if a.ReadEnd? {
      ExitPlans(m, a.state, a.transient);
    }
  }

  lemma OperationGrows(m: Manager, a: Action)
    requires Inv(m) && Enabled(m, a) && !ByThread(a) && !a.Restart? && !a.StartOnvif?
    ensures Grows(m, Step(m, a))
  {
    hide Accounted, ReadEnded, Restarted, OnvifStarted, ServiceStates;
    if a.RegisterFirst? {
      assert StageOk(m, a.camera);
    }
  }

  lemma StepGrows(m: Manager, a: Action)
    requires Inv(m) && Enabled(m, a)
    ensures Grows(m, Step(m, a))
  {
    hide WellFormed, Filed, Accounted, StageOk, Grows, Step, Enabled;
    if a.Restart? {
      RestartGrows(m, a.state);
    } else if a.StartOnvif? {
      OnvifGrows(m, a.worker);
    } else if ByThread(a) {
      ThreadGrows(m, a);
    } else {
      OperationGrows(m, a);
    }
  }

  /** Reader `s` waits for its delay to be over. */
  predicate Waits(m: Manager, s: nat, peer: bool) {
    s in m.readers && m.readers[s] == Restarting(peer)
  }

  lemma StartServiceWaits(m: Manager, w: nat, v: Service, s: nat, peer: bool)
    requires WellFormed(m) && w < |m.workers| && Waits(m, s, peer)
    ensures Waits(StartService(m, w, v), s, peer)
  {
  }

  lemma RestartWaits(m: Manager, t: nat, s: nat, peer: bool)
    requires Inv(m) && Enabled(m, Restart(t)) && Waits(m, s, peer) && s != t
    ensures Waits(Step(m, Restart(t)), s, peer)
  {
    hide WellFormed, Filed, Accounted, StageOk, IsRegistered;
    var w := m.states[t].worker;
    SetReaderKeeps(m, t, Finished);
    var m0 := SetReader(m, t, Finished);
    OwnServes(m0, t);
    OwnKeepsRtsp(m0, t);
    if IsCurrent(m0, w) && IsRegistered(m0, t) {
      StartServiceWaits(m0, w, m0.states[t].service, s, peer);
    }
    var own := RestartedOwn(m0, t);
    if m.readers[t].peer && IsCurrent(own, w) && Rtsp in own.workers[w].services {
      WellFormedWorker(own, w, Rtsp);
      TerminatedKeeps(own, own.workers[w].services[Rtsp]);
      StartServiceWaits(Terminated(own, own.workers[w].services[Rtsp]), w, Rtsp, s, peer);
    }
  }

  lemma OtherWaits(m: Manager, a: Action, s: nat, peer: bool)
    requires Inv(m) && SpawnedUnread(m) && Enabled(m, a) && Waits(m, s, peer) && !a.Restart? && !a.ReadEnd?
    ensures Waits(Step(m, a), s, peer)
  {
    hide Filed, Accounted, StageOk, ReadEnded, Restarted, ServiceStates;
    if a.RegisterFirst? {
      assert Unread(m, a.camera);
    } else if a.StartOnvif? {
      DequeueKeeps(m, a.worker);
      StartServiceWaits(m.(onvifWaiting := m.onvifWaiting - {a.worker}), a.worker, Onvif, s, peer);
    }
  }

  lemma StepWaits(m: Manager, a: Action, s: nat, peer: bool)
    requires Inv(m) && SpawnedUnread(m) && Enabled(m, a) && Waits(m, s, peer) && a != Restart(s)
    ensures Waits(Step(m, a), s, peer)
  {
    hide Filed, Accounted, StageOk, SpawnedUnread, ReadEnded, Restarted, OnvifStarted, Popped, IsRegistered;
    if a.Restart? {
      RestartWaits(m, a.state, s, peer);
    } else if a.ReadEnd? {
      ExitPlans(m, a.state, a.transient);
    } else {
      OtherWaits(m, a, s, peer);
    }
  }

  /** All that the manager keeps over a run. */
  ghost predicate Sound(m: Manager) {
    Inv(m) && ReadersOk(m) && SpawnedUnread(m)
  }

  lemma SoundInitially()
    ensures Sound(EMPTY_MANAGER)
  {
    InitialInv();
    ReadersOkInitially();
    UnreadInitially();
  }

  lemma {:induction false} RunKeeps(m: Manager, actions: seq<Action>)
    requires Sound(m) && Legal(m, actions)
    ensures Sound(After(m, actions)) && Grows(m, After(m, actions))
    decreases |actions|
  {
    hide Inv, Enabled, Step, WellFormed, ReadersOk, SpawnedUnread, Grows;
    if actions == [] {
      SameStatesGrow(m, m);
    } else {
      var next := Step(m, actions[0]);
      StepKeepsInv(m, actions[0]);
      StepKeepsReaders(m, actions[0]);
      StepKeepsUnread(m, actions[0]);
      StepGrows(m, actions[0]);
      RunKeeps(next, actions[1..]);
      GrowsOn(m, next, After(next, actions[1..]));
    }
  }

  lemma {:induction false} RunWaits(m: Manager, actions: seq<Action>, s: nat, peer: bool)
    requires Sound(m) && Legal(m, actions) && Waits(m, s, peer) && Restart(s) !in actions
    ensures Waits(After(m, actions), s, peer)
    decreases |actions|
  {
    hide Inv, Enabled, Step, WellFormed, ReadersOk, SpawnedUnread, Waits;
    if actions != [] {
      StepKeepsInv(m, actions[0]);
      StepKeepsReaders(m, actions[0]);
      StepKeepsUnread(m, actions[0]);
      StepWaits(m, actions[0], s, peer);
      RunWaits(Step(m, actions[0]), actions[1..], s, peer);
    }
  }

  // ---- from the exit to the new process ----

  /** The manager after state `s` has been seen to be dead and `actions` have followed. */
  ghost function Later(m: Manager, s: nat, transient: bool, actions: seq<Action>): Manager
    requires WellFormed(m) && Enabled(m, ReadEnd(s, transient)) && Legal(Step(m, ReadEnd(s, transient)), actions)
  {
    After(Step(m, ReadEnd(s, transient)), actions)
  }

  /** The worker of state `s` is still the one published for its camera, whose lock is free. */
  predicate Undisturbed(m: Manager, w: nat) {
    w < |m.workers| && IsCurrent(m, w) && m.workers[w].camera !in m.operations
  }

  lemma LaterHolds(m: Manager, s: nat, transient: bool, actions: seq<Action>)
    requires Sound(m) && Enabled(m, ReadEnd(s, transient))
    requires WellFormed(m) && Legal(Step(m, ReadEnd(s, transient)), actions)
    ensures Sound(Later(m, s, transient, actions)) && Grows(m, Later(m, s, transient, actions))
  {
    hide Inv, Enabled, Step, WellFormed, ReadersOk, SpawnedUnread, Grows, Legal, After;
    var next := Step(m, ReadEnd(s, transient));
    StepKeepsInv(m, ReadEnd(s, transient));
    StepKeepsReaders(m, ReadEnd(s, transient));
    StepKeepsUnread(m, ReadEnd(s, transient));
    StepGrows(m, ReadEnd(s, transient));
    RunKeeps(next, actions);
    GrowsOn(m, next, After(next, actions));
  }

  lemma StillWaits(m: Manager, s: nat, transient: bool, actions: seq<Action>, peer: bool)
    requires Sound(m) && Enabled(m, ReadEnd(s, transient))
    requires WellFormed(m) && Legal(Step(m, ReadEnd(s, transient)), actions) && Restart(s) !in actions
    requires Waits(Step(m, ReadEnd(s, transient)), s, peer)
    ensures Waits(Later(m, s, transient, actions), s, peer)
  {
    hide Inv, Enabled, Step, WellFormed, ReadersOk, SpawnedUnread, Waits, Legal, After;
    StepKeepsInv(m, ReadEnd(s, transient));
    StepKeepsReaders(m, ReadEnd(s, transient));
    StepKeepsUnread(m, ReadEnd(s, transient));
    RunWaits(Step(m, ReadEnd(s, transient)), actions, s, peer);
  }

  lemma RestartPossible(m: Manager, m2: Manager, s: nat, peer: bool)
    requires Inv(m) && Inv(m2) && Grows(m, m2) && s < |m.states| && Waits(m2, s, peer)
    requires m.states[s].worker < |m.workers| && Undisturbed(m2, m.states[s].worker)
    ensures Enabled(m2, Restart(s)) && m2.states[s].worker == m.states[s].worker
  {
    hide Filed, Accounted, StageOk;
  }

  /** When a registered service of a published worker exits with 75, or fails transiently, and
      its camera is not stopped meanwhile, then the planned restart is still possible when the
      camera's lock is free, whatever else has happened; and with it a new live process is
      registered under the service, unless one had taken the dead one's place already. */
  lemma ExitIsRestarted(m: Manager, s: nat, transient: bool, actions: seq<Action>)
    requires Sound(m) && Enabled(m, ReadEnd(s, transient)) && m.states[s].worker < |m.workers| && Serves(m, s)
    requires m.states[s].exit == Some(75) || (m.states[s].exit != Some(0) && transient)
    requires WellFormed(m) && Legal(Step(m, ReadEnd(s, transient)), actions) && Restart(s) !in actions
    requires Undisturbed(Later(m, s, transient, actions), m.states[s].worker)
    ensures var m2 := Later(m, s, transient, actions);
      var w, v := m.states[s].worker, m.states[s].service;
      && WellFormed(m2) && Enabled(m2, Restart(s)) && w < |m2.workers| && v in m2.workers[w].services
      && (m2.workers[w].services[v] == s ==> ServedBy(Step(m2, Restart(s)), w, v, |m2.states|))
      && m2.workers[w].services[v] >= s
  {
    hide Inv, Enabled, Step, WellFormed, ReadersOk, SpawnedUnread, Legal, After, ServedBy, Later;
    ExitWaits(m, s, transient);
    var peer := Step(m, ReadEnd(s, transient)).readers[s].peer;
    var m2 := Later(m, s, transient, actions);
    LaterHolds(m, s, transient, actions);
    StillWaits(m, s, transient, actions, peer);
    RestartPossible(m, m2, s, peer);
    PeerIsOnvif(m2, s);
    RestartServes(m2, s);
  }

  lemma ExitWaits(m: Manager, s: nat, transient: bool)
    requires Inv(m) && Enabled(m, ReadEnd(s, transient)) && m.states[s].worker < |m.workers| && Serves(m, s)
    requires m.states[s].exit == Some(75) || (m.states[s].exit != Some(0) && transient)
    ensures WellFormed(m) && s < |m.states|
    ensures var m' := Step(m, ReadEnd(s, transient));
      && s in m'.readers && m'.readers[s].Restarting? && Waits(m', s, m'.readers[s].peer)
      && (m.states[s].exit == Some(75) && m.states[s].service == Onvif && RtspStuck(m, m.states[s].worker) ==>
            m'.readers[s].peer)
  {
    hide Filed, Accounted, StageOk, ReadEnded, RtspStuck;
    ExitPlans(m, s, transient);
  }

  lemma PeerIsOnvif(m: Manager, s: nat)
    requires Inv(m) && ReadersOk(m) && Enabled(m, Restart(s))
    ensures WellFormed(m) && s < |m.states| && m.states[s].worker < |m.workers|
    ensures m.readers[s].peer ==> m.states[s].service == Onvif
    ensures m.states[s].service == Onvif && IsCurrent(m, m.states[s].worker) ==> Serves(m, s)
  {
    hide Filed, Accounted, StageOk;
    assert ReaderOk(m, s);
    ServesIs(m, s);
  }

  /** When ONVIF exits with 75 while RTSP is alive but still connecting, the same restart
      brings a new live process to both, and RTSP's process of that moment is dead. */
  lemma PeerIsRestarted(m: Manager, s: nat, transient: bool, actions: seq<Action>)
    requires Sound(m) && Enabled(m, ReadEnd(s, transient)) && m.states[s].worker < |m.workers| && Serves(m, s)
    requires m.states[s].exit == Some(75) && m.states[s].service == Onvif && RtspStuck(m, m.states[s].worker)
    requires WellFormed(m) && Legal(Step(m, ReadEnd(s, transient)), actions) && Restart(s) !in actions
    requires Undisturbed(Later(m, s, transient, actions), m.states[s].worker)
    ensures var m2 := Later(m, s, transient, actions);
      var w, r := m.states[s].worker, m.workers[m.states[s].worker].services[Rtsp];
      && WellFormed(m2) && Enabled(m2, Restart(s))
      && var m3 := Step(m2, Restart(s));
         && ServedBy(m3, w, Onvif, |m2.states|) && ServedBy(m3, w, Rtsp, |m2.states|)
         && r < |m2.states| && r < |m3.states| && m3.states[r].exit.Some?
  {
    hide Inv, Enabled, Step, WellFormed, ReadersOk, SpawnedUnread, Legal, After, ServedBy, Later, Serves, RtspStuck,
      Grows;
    ExitWaits(m, s, transient);
    var m2 := Later(m, s, transient, actions);
    LaterHolds(m, s, transient, actions);
    StillWaits(m, s, transient, actions, true);
    RestartPossible(m, m2, s, true);
    PeerIsOnvif(m2, s);
    StuckStays(m, m2, s);
    RestartServes(m2, s);
    StepKeepsInv(m2, Restart(s));
    StepGrows(m2, Restart(s));
    ReplacedIsDead(m, m2, Step(m2, Restart(s)), m.states[s].worker);
  }

  lemma StuckStays(m: Manager, m2: Manager, s: nat)
    requires Inv(m) && Grows(m, m2) && s < |m.states| && RtspStuck(m, m.states[s].worker)
    ensures m.states[s].worker < |m2.workers| && Rtsp in m2.workers[m.states[s].worker].services
    ensures m2.states[s].service == m.states[s].service
  {
    hide Accounted, StageOk, WellFormed;
  }

  lemma ReplacedIsDead(m: Manager, m2: Manager, m3: Manager, w: nat)
    requires Inv(m) && Inv(m3) && Grows(m, m2) && Grows(m2, m3) && RtspStuck(m, w) && ServedBy(m3, w, Rtsp, |m2.states|)
    ensures var r := m.workers[w].services[Rtsp]; r < |m2.states| && r < |m3.states| && m3.states[r].exit.Some?
  {
    hide Accounted, StageOk;
    var r, spawned := m.workers[w].services[Rtsp], m3.workers[w].services[Rtsp];
    RegisteredService(m, w, Rtsp);
    GrowsOn(m, m2, m3);
    if m3.states[r].exit.None? {
      Exclusion(m3, r, spawned);
    }
  }

  // ---- starting and stopping ----

  /** The delayed start of ONVIF gives the published worker an ONVIF service with a new live
      process if it has none, and does nothing else to it or to any other. */
  lemma OnvifComes(m: Manager, w: nat)
    requires Inv(m) && Enabled(m, StartOnvif(w))
    ensures var m' := Step(m, StartOnvif(w));
      && (IsCurrent(m, w) && Onvif !in m.workers[w].services ==> ServedBy(m', w, Onvif, |m.states|))
      && (!IsCurrent(m, w) || Onvif in m.workers[w].services ==> m'.states == m.states && m'.workers == m.workers)
      && m'.current == m.current && w !in m'.onvifWaiting
  {
    hide Filed, Accounted, StageOk;
    DequeueKeeps(m, w);
    var m0 := m.(onvifWaiting := m.onvifWaiting - {w});
    StartServiceServes(m0, w, Onvif);
  }

  /** It stays due until it has come. */
  lemma OnvifStaysDue(m: Manager, a: Action, w: nat)
    requires Inv(m) && Enabled(m, a) && w in m.onvifWaiting && a != StartOnvif(w)
    ensures w in Step(m, a).onvifWaiting
  {
    hide Filed, Accounted, StageOk, IsRegistered, PeerStuck, ReadEnded, RestartedOwn, RestartedPeer;
    if a.ReadEnd? {
      ExitPlans(m, a.state, a.transient);
    } else if a.Restart? {
      RestartKeepsDue(m, a.state);
    }
  }

  lemma RestartKeepsDue(m: Manager, s: nat)
    requires Inv(m) && Enabled(m, Restart(s))
    ensures Step(m, Restart(s)).onvifWaiting == m.onvifWaiting
  {
    hide Accounted, StageOk, IsRegistered, Filed;
    WellFormedOf(m, s);
  }

  /** A stop takes the camera's worker out and leaves no process of it alive. */
  lemma StopGives(m: Manager, c: nat)
    requires Inv(m) && c !in m.operations
    ensures c in m.current ==> m.current[c] < |m.workers|
    ensures var m' := StoppedCamera(m, c);
      && Inv(m') && c !in m'.current
      && (forall s :: 0 <= s < |m'.states| && CameraOf(m', s) == c ==> m'.states[s].exit.Some?)
  {
    hide Legal, After, Filed, Accounted, StageOk;
    VictimsExist(m, c);
    var run := StopRun(m, c);
    RunKeepsInv(m, run);
    var m' := StoppedCamera(m, c);
    forall s | 0 <= s < |m'.states| && CameraOf(m', s) == c ensures m'.states[s].exit.Some? {
      StoppedMeansNoProcess(m', c, s);
    }
  }

  /** Processes of other cameras are not touched by it. */
  lemma StopSpares(m: Manager, c: nat, s: nat)
    requires Inv(m) && c !in m.operations && s < |m.states| && CameraOf(m, s) != c
    ensures c in m.current ==> m.current[c] < |m.workers|
    ensures StoppedCamera(m, c).states[s] == m.states[s]
  {
    hide Accounted, StageOk;
    VictimsExist(m, c);
  }

  /** A start publishes a fresh worker for the camera with a live RTSP process, watched by a
      reader, and no other process of the camera alive; ONVIF is due unless the vendor backend
      serves the camera. */
  lemma StartGives(m: Manager, c: nat, vendor: bool)
    requires Inv(m) && c !in m.operations
    ensures c in m.current ==> m.current[c] < |m.workers|
    ensures var m' := StartedCamera(StoppedCamera(m, c), c, vendor); var w, s := |m.workers|, |m.states|;
      && Inv(m') && m'.current == m.current[c := w]
      && w < |m'.workers| && m'.workers[w] == WorkerState(c, map[Rtsp := s])
      && ServedBy(m', w, Rtsp, s)
      && (w in m'.onvifWaiting <==> !vendor)
      && (forall t :: 0 <= t < |m'.states| && CameraOf(m', t) == c && t != s ==> m'.states[t].exit.Some?)
  {
    hide Legal, After, Filed, Accounted, StageOk, KilledStates;
    VictimsExist(m, c);
    var run := StartRun(m, c, vendor);
    RunKeepsInv(m, run);
    StopGives(m, c);
    var stopped := StoppedCamera(m, c);
    var m' := StartedCamera(stopped, c, vendor);
    assert stopped.current[c := |m.workers|] == m.current[c := |m.workers|];
    forall t | 0 <= t < |m'.states| && CameraOf(m', t) == c && t != |m.states| ensures m'.states[t].exit.Some? {
      assert m'.states[t] == stopped.states[t];
      WellFormedOf(stopped, t);
    }
  }
}
