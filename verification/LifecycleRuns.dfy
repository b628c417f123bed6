/** What the steps of the manager guarantee over every interleaving. */
module LifecycleRuns {
  import opened Options
  import opened Lifecycle

  /** Each action is possible when its turn comes. */
  ghost predicate Legal(m: Manager, actions: seq<Action>)
    decreases |actions|
  {
    actions == [] || (WellFormed(m) && Enabled(m, actions[0]) && Legal(Step(m, actions[0]), actions[1..]))
  }

  ghost function After(m: Manager, actions: seq<Action>): Manager
    requires Legal(m, actions)
    decreases |actions|
  {
    if actions == [] then m else After(Step(m, actions[0]), actions[1..])
  }

  lemma {:induction false} RunKeepsInv(m: Manager, actions: seq<Action>)
    requires Inv(m) && Legal(m, actions)
    ensures Inv(After(m, actions))
    decreases |actions|
  {
    hide Inv, Enabled, Step, WellFormed;
    if actions != [] {
      StepKeepsInv(m, actions[0]);
      RunKeepsInv(Step(m, actions[0]), actions[1..]);
    }
  }

  /** In every interleaving of starts, stops, exits and restarts there is never more
      than one live process for a camera and service. */
  lemma OneProcessPerService(actions: seq<Action>, s: nat, t: nat)
    requires Legal(EMPTY_MANAGER, actions)
    requires var m := After(EMPTY_MANAGER, actions);
      && WellFormed(m) && s < |m.states| && t < |m.states| && Alive(m, s) && Alive(m, t)
      && CameraOf(m, s) == CameraOf(m, t) && m.states[s].service == m.states[t].service
    ensures s == t
  {
    hide Legal, After;
    InitialInv();
    RunKeepsInv(EMPTY_MANAGER, actions);
    Exclusion(After(EMPTY_MANAGER, actions), s, t);
  }

  // ---- after a stop ----

  /** Stopped, or being stopped again with nothing left to do. */
  ghost predicate Idle(m: Manager, c: nat) {
    && c !in m.current
    && (c in m.operations ==> m.operations[c] == Acquired(false) || m.operations[c] == Stopping({}, false))
  }

  lemma StopReturns(m: Manager, c: nat)
    requires Inv(m) && Enabled(m, FinishStop(c))
    ensures Idle(Step(m, FinishStop(c)), c)
  {
    assert StageOk(m, c);
  }

  lemma RestartMovesNoLock(m: Manager, s: nat)
    requires Inv(m) && Enabled(m, Restart(s))
    ensures var m' := Step(m, Restart(s)); m'.current == m.current && m'.operations == m.operations
  {
    hide Accounted, StageOk, IsRegistered, Filed;
    WellFormedOf(m, s);
  }

  lemma IdleStays(m: Manager, a: Action, c: nat)
    requires Inv(m) && Enabled(m, a) && Idle(m, c) && a != Acquire(c, true)
    ensures Idle(Step(m, a), c)
  {
    hide Accounted, Filed, StageOk, PeerStuck, Restarted, IsRegistered;
    if a.Restart? {
      RestartMovesNoLock(m, a.state);
    }
  }

  lemma IdleHasNoProcess(m: Manager, c: nat, s: nat)
    requires Inv(m) && Idle(m, c) && s < |m.states| && CameraOf(m, s) == c
    ensures !Alive(m, s)
  {
    assert Alive(m, s) ==> Accounted(m, s);
  }

  lemma {:induction false} IdleRun(m: Manager, actions: seq<Action>, c: nat)
    requires Inv(m) && Legal(m, actions) && Idle(m, c)
    requires Acquire(c, true) !in actions
    ensures Idle(After(m, actions), c) && Inv(After(m, actions))
    decreases |actions|
  {
    hide Inv, Enabled, Step, WellFormed, Idle;
    if actions != [] {
      StepKeepsInv(m, actions[0]);
      IdleStays(m, actions[0], c);
      assert Acquire(c, true) !in actions[1..];
      IdleRun(Step(m, actions[0]), actions[1..], c);
    }
  }

  /** Once `stop` has returned no process of the camera lives, whatever threads are
      still around, until somebody starts the camera again. */
  lemma StoppedUntilStarted(m: Manager, actions: seq<Action>, c: nat, s: nat)
    requires Inv(m) && Enabled(m, FinishStop(c))
    requires Legal(Step(m, FinishStop(c)), actions) && Acquire(c, true) !in actions
    requires var after := After(Step(m, FinishStop(c)), actions);
      WellFormed(after) && s < |after.states| && CameraOf(after, s) == c
    ensures !Alive(After(Step(m, FinishStop(c)), actions), s)
  {
    hide Legal, After, Idle, Step, Enabled;
    StopReturns(m, c);
    StepKeepsInv(m, FinishStop(c));
    IdleRun(Step(m, FinishStop(c)), actions, c);
    IdleHasNoProcess(After(Step(m, FinishStop(c)), actions), c, s);
  }

  // ---- superseded workers ----

  /** Worker `w` has been replaced or stopped, and has only its first `n` states. */
  ghost predicate Superseded(m: Manager, w: nat, n: nat) {
    && w < |m.workers| && !IsCurrent(m, w)
    && forall s :: n <= s < |m.states| ==> m.states[s].worker != w
  }

  lemma StartServiceSpares(m: Manager, x: nat, v: Service, w: nat, n: nat)
    requires WellFormed(m) && x < |m.workers| && IsCurrent(m, x) && Superseded(m, w, n)
    ensures Superseded(StartService(m, x, v), w, n)
  {
    hide WellFormed;
  }

  lemma RestartSpares(m: Manager, s: nat, w: nat, n: nat)
    requires Inv(m) && Enabled(m, Restart(s)) && Superseded(m, w, n)
    ensures Superseded(Step(m, Restart(s)), w, n)
  {
    hide WellFormed, Filed, Accounted, StageOk;
    var x := m.states[s].worker;
    SetReaderKeeps(m, s, Finished);
    var m0 := SetReader(m, s, Finished);
    if IsCurrent(m0, x) && IsRegistered(m0, s) {
      StartServiceSpares(m0, x, m0.states[s].service, w, n);
      RegisteredUnderOwnService(m0, s);
      StartServiceKeeps(m0, x, m0.states[s].service);
    }
    var own := RestartedOwn(m0, s);
    if m.readers[s].peer && IsCurrent(own, x) && Rtsp in own.workers[x].services {
      WellFormedWorker(own, x, Rtsp);
      TerminatedKeeps(own, own.workers[x].services[Rtsp]);
      StartServiceSpares(Terminated(own, own.workers[x].services[Rtsp]), x, Rtsp, w, n);
    }
  }

  lemma OnvifSpares(m: Manager, x: nat, w: nat, n: nat)
    requires Inv(m) && Enabled(m, StartOnvif(x)) && Superseded(m, w, n)
    ensures Superseded(Step(m, StartOnvif(x)), w, n)
  {
    hide Filed, Accounted, StageOk;
    if IsCurrent(m, x) {
      StartServiceSpares(m.(onvifWaiting := m.onvifWaiting - {x}), x, Onvif, w, n);
    }
  }

  predicate ByThread(a: Action) {
    a.Exit? || a.Report? || a.ReadEnd?
  }

  lemma ThreadSpares(m: Manager, a: Action, w: nat, n: nat)
    requires Inv(m) && Enabled(m, a) && Superseded(m, w, n) && ByThread(a)
    ensures Superseded(Step(m, a), w, n)
  {
    hide Accounted, Filed, StageOk, PeerStuck, IsRegistered;
  }

  lemma OperationSpares(m: Manager, a: Action, w: nat, n: nat)
    requires Inv(m) && Enabled(m, a) && Superseded(m, w, n) && !ByThread(a) && !a.Restart? && !a.StartOnvif?
    ensures Superseded(Step(m, a), w, n)
  {
    hide Accounted, ReadEnded, Restarted, OnvifStarted, ServiceStates;
    if a.SpawnFirst? || a.RegisterFirst? || a.FinishStart? {
      assert StageOk(m, a.camera);
    }
  }

  lemma SupersededStays(m: Manager, a: Action, w: nat, n: nat)
    requires Inv(m) && Enabled(m, a) && Superseded(m, w, n)
    ensures Superseded(Step(m, a), w, n)
  {
    hide Inv, Superseded, Step;
    if a.Restart? {
      RestartSpares(m, a.state, w, n);
    } else if a.StartOnvif? {
      OnvifSpares(m, a.worker, w, n);
    } else if ByThread(a) {
      ThreadSpares(m, a, w, n);
    } else {
      OperationSpares(m, a, w, n);
    }
  }

  /** A superseded worker never starts another process. */
  lemma SupersededNeverSpawns(m: Manager, actions: seq<Action>, w: nat)
    requires Inv(m) && Legal(m, actions) && w < |m.workers| && !IsCurrent(m, w)
    ensures Superseded(After(m, actions), w, |m.states|)
  {
    SupersededRun(m, actions, w, |m.states|);
  }

  lemma {:induction false} SupersededRun(m: Manager, actions: seq<Action>, w: nat, n: nat)
    requires Inv(m) && Legal(m, actions) && Superseded(m, w, n)
    ensures Superseded(After(m, actions), w, n)
    decreases |actions|
  {
    hide Inv, Enabled, Step, WellFormed, Superseded;
    if actions != [] {
      StepKeepsInv(m, actions[0]);
      SupersededStays(m, actions[0], w, n);
      SupersededRun(Step(m, actions[0]), actions[1..], w, n);
    }
  }

  // ---- replaced states ----

  /** Only an ONVIF reader plans to rebuild its peer, and while its worker is current
      it is still the registered one. */
  ghost predicate ReaderOk(m: Manager, s: nat) {
    s in m.readers && s < |m.states| && m.readers[s].Restarting? && m.states[s].worker < |m.workers| ==>
      && (m.readers[s].peer ==> m.states[s].service == Onvif)
      && (m.states[s].service == Onvif && IsCurrent(m, m.states[s].worker) ==> IsRegistered(m, s))
  }

  ghost predicate ReadersOk(m: Manager) {
    forall s: nat :: ReaderOk(m, s)
  }

  lemma ReadersOkInitially()
    ensures ReadersOk(EMPTY_MANAGER)
  {
  }

  /** A new process for `v` leaves a waiting reader alone unless it takes its place. */
  lemma StartServiceReader(m: Manager, x: nat, v: Service, t: nat)
    requires Inv(m) && x < |m.workers| && ReaderOk(m, t)
    requires v == Onvif && t < |m.states| && m.states[t].worker == x && m.states[t].service == Onvif && t in m.readers
      ==> !m.readers[t].Restarting?
    ensures ReaderOk(StartService(m, x, v), t)
  {
    hide Accounted, StageOk;
    if t < |m.states| && m.states[t].worker < |m.workers| && IsRegistered(m, t) {
      RegisteredUnderOwnService(m, t);
      var m' := StartService(m, x, v);
      if m.states[t].service == Onvif && (m.states[t].worker != x || v == Rtsp) {
        assert m'.workers[m.states[t].worker].services[Onvif] == t;
      }
    }
  }

  /** Two waiting ONVIF readers of one current worker are the same. */
  lemma OneOnvifReader(m: Manager, s: nat, t: nat)
    requires Inv(m) && ReaderOk(m, t) && s < |m.states| && t < |m.states|
    requires IsRegistered(m, s) && m.states[s].service == Onvif && IsCurrent(m, m.states[s].worker)
    requires t in m.readers && m.readers[t].Restarting?
    requires m.states[t].worker == m.states[s].worker && m.states[t].service == Onvif
    ensures s == t
  {
    RegisteredUnderOwnService(m, s);
    RegisteredUnderOwnService(m, t);
  }

  lemma RestartReader(m: Manager, s: nat, t: nat)
    requires Inv(m) && Enabled(m, Restart(s)) && ReaderOk(m, t)
    ensures ReaderOk(Step(m, Restart(s)), t)
  {
    hide WellFormed, Filed, Accounted, StageOk;
    var x := m.states[s].worker;
    SetReaderKeeps(m, s, Finished);
    var m0 := SetReader(m, s, Finished);
    assert ReaderOk(m0, t);
    if IsCurrent(m0, x) && IsRegistered(m0, s) {
      RegisteredUnderOwnService(m0, s);
      OwnRestartReader(m0, s, t);
      StartServiceKeeps(m0, x, m0.states[s].service);
    }
    var own := RestartedOwn(m0, s);
    assert ReaderOk(own, t);
    if m.readers[s].peer && IsCurrent(own, x) && Rtsp in own.workers[x].services {
      WellFormedWorker(own, x, Rtsp);
      TerminatedKeeps(own, own.workers[x].services[Rtsp]);
      assert ReaderOk(Terminated(own, own.workers[x].services[Rtsp]), t);
      StartServiceReader(Terminated(own, own.workers[x].services[Rtsp]), x, Rtsp, t);
    }
  }

  lemma OwnRestartReader(m: Manager, s: nat, t: nat)
    requires Inv(m) && ReaderOk(m, t) && s < |m.states| && s in m.readers && m.readers[s].Finished?
    requires m.states[s].worker < |m.workers| && IsCurrent(m, m.states[s].worker) && IsRegistered(m, s)
    ensures ReaderOk(StartService(m, m.states[s].worker, m.states[s].service), t)
  {
    hide ReaderOk, Inv, IsRegistered, IsCurrent;
    if m.states[s].service == Onvif && t < |m.states| && m.states[t].worker == m.states[s].worker && t in m.readers
       && m.readers[t].Restarting? && m.states[t].service == Onvif {
      OneOnvifReader(m, s, t);
    } else {
      StartServiceReader(m, m.states[s].worker, m.states[s].service, t);
    }
  }

  lemma OnvifReader(m: Manager, x: nat, t: nat)
    requires Inv(m) && Enabled(m, StartOnvif(x)) && ReaderOk(m, t)
    ensures ReaderOk(Step(m, StartOnvif(x)), t)
  {
    hide Accounted, StageOk;
    DequeueKeeps(m, x);
    var m' := m.(onvifWaiting := m.onvifWaiting - {x});
    assert ReaderOk(m', t);
    if IsCurrent(m, x) && Onvif !in m.workers[x].services {
      if t < |m.states| && m.states[t].worker == x && IsRegistered(m, t) {
        RegisteredUnderOwnService(m, t);
      }
      StartServiceReader(m', x, Onvif, t);
    }
  }

  lemma ThreadReader(m: Manager, a: Action, t: nat)
    requires Inv(m) && Enabled(m, a) && ReaderOk(m, t) && ByThread(a)
    ensures ReaderOk(Step(m, a), t)
  {
    hide Accounted, Filed, StageOk, ReadEnded;
    if a.ReadEnd? {
      ReadEndReader(m, a.state, a.transient, t);
    }
  }

  lemma ReadEndReader(m: Manager, s: nat, transient: bool, t: nat)
    requires Inv(m) && Enabled(m, ReadEnd(s, transient)) && ReaderOk(m, t)
    ensures ReaderOk(Step(m, ReadEnd(s, transient)), t)
  {
    hide WellFormed, Accounted, Filed, StageOk, PeerStuck, IsRegistered;
    StuckPeerIsOnvif(m, s);
    var m' := Step(m, ReadEnd(s, transient));
    assert m'.workers == m.workers && m'.current == m.current;
    if t < |m.states| && m.states[t].worker < |m.workers| {
      SameRegistration(m, m', t);
    }
  }

  lemma SameRegistration(m: Manager, m': Manager, t: nat)
    requires t < |m.states| && t < |m'.states| && m.states[t].worker == m'.states[t].worker < |m.workers|
    requires m.workers == m'.workers
    ensures IsRegistered(m, t) == IsRegistered(m', t)
  {
  }

  lemma StuckPeerIsOnvif(m: Manager, s: nat)
    requires Inv(m) && s < |m.states|
    ensures m.states[s].worker < |m.workers|
    ensures forall v :: v in m.workers[m.states[s].worker].services ==>
      m.workers[m.states[s].worker].services[v] < |m.states|
    ensures PeerStuck(m, s) ==> m.states[s].service == Onvif
  {
    hide Accounted, StageOk;
    WellFormedOf(m, s);
  }

  lemma OperationReader(m: Manager, a: Action, t: nat)
    requires Inv(m) && Enabled(m, a) && ReaderOk(m, t) && !ByThread(a) && !a.Restart? && !a.StartOnvif?
    ensures ReaderOk(Step(m, a), t)
  {
    hide Accounted, ReadEnded, Restarted, OnvifStarted, ServiceStates;
    if a.RegisterFirst? {
      assert StageOk(m, a.camera);
    }
  }

  lemma StepKeepsReaders(m: Manager, a: Action)
    requires Inv(m) && ReadersOk(m) && Enabled(m, a)
    ensures ReadersOk(Step(m, a))
  {
    hide WellFormed, Filed, Accounted, StageOk, ReaderOk, Step, Enabled;
    forall t: nat ensures ReaderOk(Step(m, a), t) {
      assert ReaderOk(m, t);
      if a.Restart? {
        RestartReader(m, a.state, t);
      } else if a.StartOnvif? {
        OnvifReader(m, a.worker, t);
      } else if ByThread(a) {
        ThreadReader(m, a, t);
      } else {
        OperationReader(m, a, t);
      }
    }
  }

  lemma {:induction false} RunKeepsReaders(m: Manager, actions: seq<Action>)
    requires Inv(m) && ReadersOk(m) && Legal(m, actions)
    ensures ReadersOk(After(m, actions)) && Inv(After(m, actions))
    decreases |actions|
  {
    hide Inv, Enabled, Step, WellFormed, ReadersOk;
    if actions != [] {
      StepKeepsInv(m, actions[0]);
      StepKeepsReaders(m, actions[0]);
      RunKeepsReaders(Step(m, actions[0]), actions[1..]);
    }
  }

  lemma ReplacedSpawnsNothing(m: Manager, s: nat)
    requires Inv(m) && ReaderOk(m, s) && Enabled(m, Restart(s))
    requires !IsCurrent(m, m.states[s].worker) || !IsRegistered(m, s)
    ensures Step(m, Restart(s)).states == m.states && Step(m, Restart(s)).workers == m.workers
  {
    hide Accounted;
  }

  /** Whatever happened before: a reader whose state has been replaced meanwhile, or
      whose worker is gone, spawns nothing and kills nothing when its delay is over. */
  lemma ReplacedNeverSpawns(actions: seq<Action>, s: nat)
    requires Legal(EMPTY_MANAGER, actions)
    requires var m := After(EMPTY_MANAGER, actions);
      && WellFormed(m) && Enabled(m, Restart(s))
      && (!IsCurrent(m, m.states[s].worker) || !IsRegistered(m, s))
    ensures var m := After(EMPTY_MANAGER, actions);
      Step(m, Restart(s)).states == m.states && Step(m, Restart(s)).workers == m.workers
  {
    hide Legal, After, Inv, ReaderOk, WellFormed, Enabled, Step;
    InitialInv();
    ReadersOkInitially();
    RunKeepsReaders(EMPTY_MANAGER, actions);
    ReplacedSpawnsNothing(After(EMPTY_MANAGER, actions), s);
  }
}
