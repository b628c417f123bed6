/**
 The worker manager: starting, stopping and restarting the upstream processes of
 each camera, as the steps its threads take between lock operations.

 A section that holds the camera's lifecycle lock and the manager lock throughout is
 one step; `start` and `stop`, which hold only the lifecycle lock most of the way,
 are several. A process is named by its service state. Termination is assumed to
 succeed.
 */
module Lifecycle {
  import opened Options

  datatype Service = Rtsp | Onvif

  datatype Status = Connecting | Online | Stopped | Failed

  datatype WorkerState = WorkerState(camera: nat, services: map<Service, nat>)

  /** `exit` is None while the process lives. */
  datatype ServiceState = ServiceState(worker: nat, service: Service, status: Status, exit: Option<int>)

  /** The thread that reads a process's output: reading, waiting to restart it
      (and perhaps the RTSP peer), or done. */
  datatype Reader = Reading | Restarting(peer: bool) | Finished

  /** Who holds a camera's lifecycle lock, and how far it has come. */
  datatype Operation =
    | Acquired(thenStart: bool)
    | Stopping(remaining: set<nat>, thenStart: bool)
    | Starting(worker: nat)
    | Spawned(worker: nat, state: nat)
    | Registered(worker: nat)

  datatype Manager = Manager(
    current: map<nat, nat>,
    workers: seq<WorkerState>,
    states: seq<ServiceState>,
    readers: map<nat, Reader>,
    operations: map<nat, Operation>,
    onvifWaiting: set<nat>)

  const EMPTY_MANAGER := Manager(map[], [], [], map[], map[], {})

  datatype Action =
    | Acquire(camera: nat, thenStart: bool)
    | Pop(camera: nat)
    | Terminate(camera: nat, state: nat)
    | FinishStop(camera: nat)
    | Publish(camera: nat)
    | SpawnFirst(camera: nat)
    | RegisterFirst(camera: nat)
    | FinishStart(camera: nat, vendor: bool)
    | StartOnvif(worker: nat)
    | Exit(state: nat, code: int)
    | Report(state: nat, status: Status)
    | ReadEnd(state: nat, transient: bool)
    | Restart(state: nat)

  // ---- the steps ----

  /** Every name in use denotes something. */
  ghost predicate WellFormed(m: Manager) {
    && (forall c :: c in m.current ==> m.current[c] < |m.workers|)
    && (forall s :: 0 <= s < |m.states| ==> m.states[s].worker < |m.workers|)
    && (forall w, v :: 0 <= w < |m.workers| && v in m.workers[w].services ==> m.workers[w].services[v] < |m.states|)
    && (forall s :: s in m.readers ==> s < |m.states|)
    && (forall w :: w in m.onvifWaiting ==> w < |m.workers|)
    && (forall c :: c in m.operations ==>
          match m.operations[c]
          case Acquired(_) => true
          case Stopping(remaining, _) => forall s :: s in remaining ==> s < |m.states|
          case Starting(w) => w < |m.workers|
          case Spawned(w, s) => w < |m.workers| && s < |m.states|
          case Registered(w) => w < |m.workers|)
  }

  function CameraOf(m: Manager, s: nat): nat
    requires s < |m.states| && m.states[s].worker < |m.workers|
  {
    m.workers[m.states[s].worker].camera
  }

  predicate IsCurrent(m: Manager, w: nat)
    requires w < |m.workers|
  {
    m.workers[w].camera in m.current && m.current[m.workers[w].camera] == w
  }

  predicate Alive(m: Manager, s: nat)
    requires s < |m.states|
  {
    m.states[s].exit.None?
  }

  /** `Popen`: the process lives, nothing points to it yet. */
  function SpawnProcess(m: Manager, w: nat, v: Service): Manager {
    m.(states := m.states + [ServiceState(w, v, Connecting, None)])
  }

  function RegisterState(m: Manager, w: nat, v: Service, s: nat): Manager
    requires w < |m.workers|
  {
    m.(workers := m.workers[w := m.workers[w].(services := m.workers[w].services[v := s])],
       readers := m.readers[s := Reading])
  }

  function StartService(m: Manager, w: nat, v: Service): Manager
    requires w < |m.workers|
  {
    RegisterState(SpawnProcess(m, w, v), w, v, |m.states|)
  }

  function Terminated(m: Manager, s: nat): Manager
    requires s < |m.states|
  {
    if Alive(m, s) then m.(states := m.states[s := m.states[s].(exit := Some(-15))]) else m
  }

  /** The state is one its worker lists, under whatever service. */
  predicate IsRegistered(m: Manager, s: nat)
    requires s < |m.states| && m.states[s].worker < |m.workers|
  {
    exists v :: v in m.workers[m.states[s].worker].services && m.workers[m.states[s].worker].services[v] == s
  }

  function SetReader(m: Manager, s: nat, r: Reader): Manager {
    m.(readers := m.readers[s := r])
  }

  function SetStatus(m: Manager, s: nat, status: Status): Manager
    requires s < |m.states|
  {
    m.(states := m.states[s := m.states[s].(status := status)])
  }

  /** Should the RTSP session be rebuilt with a dead ONVIF one? */
  predicate PeerStuck(m: Manager, s: nat)
    requires s < |m.states| && m.states[s].worker < |m.workers|
    requires forall v :: v in m.workers[m.states[s].worker].services ==>
      m.workers[m.states[s].worker].services[v] < |m.states|
  {
    var services := m.workers[m.states[s].worker].services;
    && m.states[s].service == Onvif
    && Rtsp in services && services[Rtsp] != s
    && m.states[services[Rtsp]].status == Connecting && Alive(m, services[Rtsp])
  }

  /** A reader sees its process gone and decides what to do. */
  function ReadEnded(m: Manager, s: nat, transient: bool): Manager
    requires s < |m.states| && m.states[s].worker < |m.workers| && !Alive(m, s)
    requires forall v :: v in m.workers[m.states[s].worker].services ==>
      m.workers[m.states[s].worker].services[v] < |m.states|
  {
    var code := m.states[s].exit.value;
    if !IsCurrent(m, m.states[s].worker) || !IsRegistered(m, s) then SetReader(m, s, Finished)
    else if code == 75 then SetReader(SetStatus(m, s, Connecting), s, Restarting(PeerStuck(m, s)))
    else if code != 0 && transient then SetReader(SetStatus(m, s, Connecting), s, Restarting(false))
    else SetReader(SetStatus(m, s, if code == 0 then Stopped else Failed), s, Finished)
  }

  /** The first half of a restart: the reader's own service. */
  function RestartedOwn(m: Manager, s: nat): Manager
    requires s < |m.states| && m.states[s].worker < |m.workers|
  {
    if IsCurrent(m, m.states[s].worker) && IsRegistered(m, s)
    then StartService(m, m.states[s].worker, m.states[s].service)
    else m
  }

  /** The second half: the stuck RTSP peer of worker `w`. */
  function RestartedPeer(m: Manager, w: nat): Manager
    requires w < |m.workers|
    requires Rtsp in m.workers[w].services ==> m.workers[w].services[Rtsp] < |m.states|
  {
    if IsCurrent(m, w) && Rtsp in m.workers[w].services
    then StartService(Terminated(m, m.workers[w].services[Rtsp]), w, Rtsp)
    else m
  }

  function Restarted(m: Manager, s: nat, peer: bool): Manager
    requires s < |m.states| && m.states[s].worker < |m.workers|
    requires forall v :: v in m.workers[m.states[s].worker].services ==>
      m.workers[m.states[s].worker].services[v] < |m.states|
  {
    var own := RestartedOwn(SetReader(m, s, Finished), s);
    if peer then RestartedPeer(own, m.states[s].worker) else own
  }

  function OnvifStarted(m: Manager, w: nat): Manager
    requires w < |m.workers|
  {
    var m' := m.(onvifWaiting := m.onvifWaiting - {w});
    if IsCurrent(m, w) && Onvif !in m.workers[w].services then StartService(m', w, Onvif) else m'
  }

  function ServiceStates(w: WorkerState): set<nat> {
    set v | v in w.services :: w.services[v]
  }

  function Popped(m: Manager, c: nat): Manager
    requires c in m.operations && m.operations[c].Acquired?
    requires c in m.current ==> m.current[c] < |m.workers|
  {
    var remaining := if c in m.current then ServiceStates(m.workers[m.current[c]]) else {};
    m.(current := m.current - {c},
       operations := m.operations[c := Stopping(remaining, m.operations[c].thenStart)])
  }

  ghost predicate Enabled(m: Manager, a: Action) {
    match a
    case Acquire(c, _) => c !in m.operations
    case Pop(c) => c in m.operations && m.operations[c].Acquired?
    case Terminate(c, s) => c in m.operations && m.operations[c].Stopping? && s in m.operations[c].remaining
    // A start for an unsupported vendor gives up here as well.
    case FinishStop(c) => c in m.operations && m.operations[c].Stopping? && m.operations[c].remaining == {}
    case Publish(c) =>
      c in m.operations && m.operations[c].Stopping? && m.operations[c].remaining == {} && m.operations[c].thenStart
    case SpawnFirst(c) => c in m.operations && m.operations[c].Starting?
    case RegisterFirst(c) => c in m.operations && m.operations[c].Spawned?
    case FinishStart(c, _) => c in m.operations && m.operations[c].Registered?
    case StartOnvif(w) => w in m.onvifWaiting && w < |m.workers| && m.workers[w].camera !in m.operations
    case Exit(s, _) => s < |m.states| && Alive(m, s)
    case Report(s, _) => s < |m.states|
    case ReadEnd(s, _) => s < |m.states| && s in m.readers && m.readers[s].Reading? && !Alive(m, s)
    case Restart(s) =>
      && s < |m.states| && s in m.readers && m.readers[s].Restarting?
      && m.states[s].worker < |m.workers| && CameraOf(m, s) !in m.operations
  }

  function Step(m: Manager, a: Action): Manager
    requires WellFormed(m) && Enabled(m, a)
  {
    match a
    case Acquire(c, thenStart) => m.(operations := m.operations[c := Acquired(thenStart)])
    case Pop(c) => Popped(m, c)
    case Terminate(c, s) =>
      var op := m.operations[c];
      Terminated(m, s).(operations := m.operations[c := op.(remaining := op.remaining - {s})])
    case FinishStop(c) => m.(operations := m.operations - {c})
    case Publish(c) =>
      m.(current := m.current[c := |m.workers|], workers := m.workers + [WorkerState(c, map[])],
         operations := m.operations[c := Starting(|m.workers|)])
    case SpawnFirst(c) =>
      SpawnProcess(m, m.operations[c].worker, Rtsp)
        .(operations := m.operations[c := Spawned(m.operations[c].worker, |m.states|)])
    case RegisterFirst(c) =>
      RegisterState(m, m.operations[c].worker, Rtsp, m.operations[c].state)
        .(operations := m.operations[c := Registered(m.operations[c].worker)])
    case FinishStart(c, vendor) =>
      m.(operations := m.operations - {c},
         onvifWaiting := m.onvifWaiting + if vendor then {} else {m.operations[c].worker})
    case StartOnvif(w) => OnvifStarted(m, w)
    case Exit(s, code) => m.(states := m.states[s := m.states[s].(exit := Some(code))])
    case Report(s, status) => SetStatus(m, s, status)
    case ReadEnd(s, transient) => ReadEnded(m, s, transient)
    case Restart(s) => Restarted(m, s, m.readers[s].peer)
  }

  // ---- what holds between any two steps ----

  /** A registered state belongs where it is registered; a current worker to its camera. */
  ghost predicate Filed(m: Manager) {
    && (forall w, v :: 0 <= w < |m.workers| && v in m.workers[w].services ==>
          var s := m.workers[w].services[v]; s < |m.states| && m.states[s].worker == w && m.states[s].service == v)
    && (forall c :: c in m.current ==> m.current[c] < |m.workers| && m.workers[m.current[c]].camera == c)
  }

  /** Where a live process may be: in its service of the current worker, about to be
      terminated by a stop, or just spawned by a start. */
  ghost predicate Accounted(m: Manager, s: nat)
    requires s < |m.states| && m.states[s].worker < |m.workers|
  {
    var w, v, c := m.states[s].worker, m.states[s].service, CameraOf(m, s);
    || (IsCurrent(m, w) && v in m.workers[w].services && m.workers[w].services[v] == s)
    || (c in m.operations && m.operations[c].Stopping? && s in m.operations[c].remaining)
    || (c in m.operations && m.operations[c] == Spawned(w, s))
  }

  /** What each stage of an operation has reached. */
  ghost predicate StageOk(m: Manager, c: nat)
    requires c in m.operations
  {
    match m.operations[c]
    case Acquired(_) => true
    case Stopping(remaining, _) =>
      && c !in m.current
      && forall s, t ::
           (s in remaining && t in remaining && s < |m.states| && t < |m.states| && s != t)
             ==> m.states[s].service != m.states[t].service
    case Starting(w) => c in m.current && m.current[c] == w && w < |m.workers| && m.workers[w].services == map[]
    case Spawned(w, s) =>
      && c in m.current && m.current[c] == w && w < |m.workers| && m.workers[w].services == map[]
      && s < |m.states| && m.states[s].worker == w && m.states[s].service == Rtsp
    case Registered(w) => c in m.current && m.current[c] == w
  }

  ghost predicate Inv(m: Manager) {
    && WellFormed(m) && Filed(m)
    && (forall s :: 0 <= s < |m.states| && Alive(m, s) ==> Accounted(m, s))
    && (forall c :: c in m.operations ==> StageOk(m, c))
    && (forall s :: s in m.readers && !m.readers[s].Reading? ==> !Alive(m, s))
  }

  /** At most one process lives per camera and service. */
  lemma Exclusion(m: Manager, s: nat, t: nat)
    requires Inv(m) && s < |m.states| && t < |m.states| && Alive(m, s) && Alive(m, t)
    requires CameraOf(m, s) == CameraOf(m, t) && m.states[s].service == m.states[t].service
    ensures s == t
  {
    assert Accounted(m, s) && Accounted(m, t);
    var c := CameraOf(m, s);
    if c in m.operations {
      assert StageOk(m, c);
    }
  }

  /** With no operation under way and no worker, no process of the camera lives. */
  lemma StoppedMeansNoProcess(m: Manager, c: nat, s: nat)
    requires Inv(m) && c !in m.current && c !in m.operations
    requires s < |m.states| && CameraOf(m, s) == c
    ensures !Alive(m, s)
  {
    assert Alive(m, s) ==> Accounted(m, s);
  }

  lemma InitialInv()
    ensures Inv(EMPTY_MANAGER)
  {
  }

  // ---- every step keeps it ----

  lemma StartServiceFiled(m: Manager, w: nat, v: Service)
    requires WellFormed(m) && Filed(m) && w < |m.workers|
    ensures WellFormed(StartService(m, w, v)) && Filed(StartService(m, w, v))
  {
  }

  lemma StartServiceAccounted(m: Manager, w: nat, v: Service, s: nat)
    requires Inv(m) && w < |m.workers| && IsCurrent(m, w)
    requires v in m.workers[w].services ==> !Alive(m, m.workers[w].services[v])
    requires s <= |m.states| && Alive(StartService(m, w, v), s)
    requires WellFormed(StartService(m, w, v))
    ensures Accounted(StartService(m, w, v), s)
  {
    if s < |m.states| {
      assert Alive(m, s) && Accounted(m, s);
    }
  }

  /** Starting a service is safe once its previous process, if any, is dead. */
  lemma StartServiceKeeps(m: Manager, w: nat, v: Service)
    requires Inv(m) && w < |m.workers| && IsCurrent(m, w) && m.workers[w].camera !in m.operations
    requires v in m.workers[w].services ==> !Alive(m, m.workers[w].services[v])
    ensures Inv(StartService(m, w, v))
  {
    hide WellFormed, Filed, Accounted;
    var m' := StartService(m, w, v);
    StartServiceFiled(m, w, v);
    forall s | 0 <= s < |m'.states| && Alive(m', s) ensures m'.states[s].worker < |m'.workers| && Accounted(m', s) {
      StartServiceAccounted(m, w, v, s);
      WorkerOf(m', s);
    }
    forall c | c in m'.operations ensures StageOk(m', c) {
      StartServiceStages(m, w, v, c);
    }
  }

  lemma StartServiceStages(m: Manager, w: nat, v: Service, c: nat)
    requires Inv(m) && w < |m.workers| && m.workers[w].camera !in m.operations && c in m.operations
    ensures StageOk(StartService(m, w, v), c)
  {
    assert StageOk(m, c);
  }

  lemma WorkerOf(m: Manager, s: nat)
    requires WellFormed(m) && s < |m.states|
    ensures m.states[s].worker < |m.workers|
  {
  }

  lemma TerminatedKeeps(m: Manager, s: nat)
    requires Inv(m) && s < |m.states|
    ensures Inv(Terminated(m, s)) && !Alive(Terminated(m, s), s)
  {
    var m' := Terminated(m, s);
    forall t | 0 <= t < |m'.states| && Alive(m', t) ensures Accounted(m', t) {
      assert Alive(m, t) && Accounted(m, t);
    }
    forall c | c in m'.operations ensures StageOk(m', c) {
      assert StageOk(m, c);
    }
  }

  lemma SetStatusKeeps(m: Manager, s: nat, status: Status)
    requires Inv(m) && s < |m.states|
    ensures Inv(SetStatus(m, s, status))
  {
    var m' := SetStatus(m, s, status);
    forall t | 0 <= t < |m'.states| && Alive(m', t) ensures Accounted(m', t) {
      assert Alive(m, t) && Accounted(m, t);
    }
    forall c | c in m'.operations ensures StageOk(m', c) {
      assert StageOk(m, c);
    }
  }

  lemma SetReaderKeeps(m: Manager, s: nat, r: Reader)
    requires Inv(m) && s < |m.states| && !Alive(m, s)
    ensures Inv(SetReader(m, s, r))
  {
    var m' := SetReader(m, s, r);
    forall t | 0 <= t < |m'.states| && Alive(m', t) ensures Accounted(m', t) {
      assert Accounted(m, t);
    }
    forall c | c in m'.operations ensures StageOk(m', c) {
      assert StageOk(m, c);
    }
  }

  lemma PopKeeps(m: Manager, c: nat)
    requires Inv(m) && Enabled(m, Pop(c))
    ensures Inv(Popped(m, c))
  {
    var m' := Popped(m, c);
    forall s | 0 <= s < |m'.states| && Alive(m', s) ensures Accounted(m', s) {
      assert Accounted(m, s);
    }
    forall d | d in m'.operations ensures StageOk(m', d) {
      if d != c {
        assert StageOk(m, d);
      }
    }
  }

  /** The operation need not wait for a state that is dead. */
  lemma DropKeeps(m: Manager, c: nat, s: nat)
    requires Inv(m) && c in m.operations && m.operations[c].Stopping? && s < |m.states| && !Alive(m, s)
    ensures var op := m.operations[c];
      Inv(m.(operations := m.operations[c := op.(remaining := op.remaining - {s})]))
  {
    var op := m.operations[c];
    var m' := m.(operations := m.operations[c := op.(remaining := op.remaining - {s})]);
    forall t | 0 <= t < |m'.states| && Alive(m', t) ensures Accounted(m', t) {
      assert Accounted(m, t);
    }
    forall d | d in m'.operations ensures StageOk(m', d) {
      assert StageOk(m, d);
    }
  }

  lemma TerminateKeeps(m: Manager, c: nat, s: nat)
    requires Inv(m) && Enabled(m, Terminate(c, s))
    ensures Inv(Step(m, Terminate(c, s)))
  {
    hide Filed, Accounted, StageOk;
    TerminatedKeeps(m, s);
    DropKeeps(Terminated(m, s), c, s);
  }

  lemma FinishKeeps(m: Manager, a: Action)
    requires Inv(m) && Enabled(m, a) && (a.Acquire? || a.FinishStop? || a.FinishStart?)
    ensures Inv(Step(m, a))
  {
    var m' := Step(m, a);
    if a.FinishStart? {
      assert StageOk(m, a.camera);
    }
    forall s | 0 <= s < |m'.states| && Alive(m', s) ensures Accounted(m', s) {
      assert Accounted(m, s);
    }
    forall d | d in m'.operations ensures StageOk(m', d) {
      assert d in m.operations ==> StageOk(m, d);
    }
  }

  lemma PublishFiles(m: Manager, c: nat)
    requires Inv(m) && Enabled(m, Publish(c))
    ensures WellFormed(Step(m, Publish(c))) && Filed(Step(m, Publish(c)))
    ensures forall s :: 0 <= s < |m.states| ==> m.states[s].worker < |m.workers|
    ensures forall d :: d in m.current ==> m.current[d] < |m.workers|
  {
    hide Accounted, StageOk;
  }

  lemma PublishKeeps(m: Manager, c: nat)
    requires Inv(m) && Enabled(m, Publish(c))
    ensures Inv(Step(m, Publish(c)))
  {
    hide WellFormed, Filed;
    var m' := Step(m, Publish(c));
    PublishFiles(m, c);
    assert StageOk(m, c);
    assert m'.workers[..|m.workers|] == m.workers;
    forall s | 0 <= s < |m'.states| && Alive(m', s) ensures Accounted(m', s) {
      assert Accounted(m, s);
    }
    forall d | d in m'.operations ensures StageOk(m', d) {
      if d != c {
        assert StageOk(m, d);
      }
    }
  }

  lemma SpawnFirstKeeps(m: Manager, c: nat)
    requires Inv(m) && Enabled(m, SpawnFirst(c))
    ensures Inv(Step(m, SpawnFirst(c)))
  {
    var m' := Step(m, SpawnFirst(c));
    assert StageOk(m, c);
    assert m'.states[..|m.states|] == m.states;
    forall s | 0 <= s < |m'.states| && Alive(m', s) ensures Accounted(m', s) {
      if s < |m.states| {
        assert Alive(m, s) && Accounted(m, s);
      }
    }
    forall d | d in m'.operations ensures StageOk(m', d) {
      if d != c {
        assert StageOk(m, d);
      }
    }
  }

  lemma RegisterFirstKeeps(m: Manager, c: nat)
    requires Inv(m) && Enabled(m, RegisterFirst(c))
    ensures Inv(Step(m, RegisterFirst(c)))
  {
    var m' := Step(m, RegisterFirst(c));
    assert StageOk(m, c);
    forall s | 0 <= s < |m'.states| && Alive(m', s) ensures Accounted(m', s) {
      assert Alive(m, s) && Accounted(m, s);
    }
    forall d | d in m'.operations ensures StageOk(m', d) {
      if d != c {
        assert StageOk(m, d);
      }
    }
  }

  lemma DequeueKeeps(m: Manager, w: nat)
    requires Inv(m)
    ensures Inv(m.(onvifWaiting := m.onvifWaiting - {w}))
  {
    var m' := m.(onvifWaiting := m.onvifWaiting - {w});
    forall s | 0 <= s < |m'.states| && Alive(m', s) ensures Accounted(m', s) {
      assert Accounted(m, s);
    }
    forall d | d in m'.operations ensures StageOk(m', d) {
      assert StageOk(m, d);
    }
  }

  lemma OnvifKeeps(m: Manager, w: nat)
    requires Inv(m) && Enabled(m, StartOnvif(w))
    ensures Inv(OnvifStarted(m, w))
  {
    hide Inv;
    DequeueKeeps(m, w);
    if IsCurrent(m, w) && Onvif !in m.workers[w].services {
      StartServiceKeeps(m.(onvifWaiting := m.onvifWaiting - {w}), w, Onvif);
    }
  }

  lemma ExitKeeps(m: Manager, s: nat, code: int)
    requires Inv(m) && Enabled(m, Exit(s, code))
    ensures Inv(Step(m, Exit(s, code)))
  {
    var m' := Step(m, Exit(s, code));
    forall t | 0 <= t < |m'.states| && Alive(m', t) ensures Accounted(m', t) {
      assert Alive(m, t) && Accounted(m, t);
    }
    forall c | c in m'.operations ensures StageOk(m', c) {
      assert StageOk(m, c);
    }
  }

  lemma ReadEndKeeps(m: Manager, s: nat, transient: bool)
    requires Inv(m) && Enabled(m, ReadEnd(s, transient))
    ensures Inv(ReadEnded(m, s, transient))
  {
    hide Inv, WellFormed, Filed;
    WellFormedOf(m, s);
    var code := m.states[s].exit.value;
    if !IsCurrent(m, m.states[s].worker) || !IsRegistered(m, s) {
      SetReaderKeeps(m, s, Finished);
    } else if code == 75 {
      SetStatusKeeps(m, s, Connecting);
      SetReaderKeeps(SetStatus(m, s, Connecting), s, Restarting(PeerStuck(m, s)));
    } else if code != 0 && transient {
      SetStatusKeeps(m, s, Connecting);
      SetReaderKeeps(SetStatus(m, s, Connecting), s, Restarting(false));
    } else {
      var status := if code == 0 then Stopped else Failed;
      SetStatusKeeps(m, s, status);
      SetReaderKeeps(SetStatus(m, s, status), s, Finished);
    }
  }

  lemma WellFormedOf(m: Manager, s: nat)
    requires Inv(m) && s < |m.states|
    ensures m.states[s].worker < |m.workers|
    ensures forall v :: v in m.workers[m.states[s].worker].services ==>
      m.workers[m.states[s].worker].services[v] < |m.states|
  {
  }

  lemma RegisteredUnderOwnService(m: Manager, s: nat)
    requires Inv(m) && s < |m.states| && IsRegistered(m, s)
    ensures var services := m.workers[m.states[s].worker].services;
      m.states[s].service in services && services[m.states[s].service] == s
  {
  }

  lemma RestartKeeps(m: Manager, s: nat)
    requires Inv(m) && Enabled(m, Restart(s))
    ensures Inv(Step(m, Restart(s)))
  {
    hide WellFormed, Filed, Accounted, StageOk;
    var w := m.states[s].worker;
    SetReaderKeeps(m, s, Finished);
    var m0 := SetReader(m, s, Finished);
    if IsCurrent(m0, w) && IsRegistered(m0, s) {
      RegisteredUnderOwnService(m0, s);
      StartServiceKeeps(m0, w, m0.states[s].service);
    }
    var own := RestartedOwn(m0, s);
    if m.readers[s].peer && IsCurrent(own, w) && Rtsp in own.workers[w].services {
      WellFormedWorker(own, w, Rtsp);
      TerminatedKeeps(own, own.workers[w].services[Rtsp]);
      StartServiceKeeps(Terminated(own, own.workers[w].services[Rtsp]), w, Rtsp);
    }
  }

  lemma WellFormedWorker(m: Manager, w: nat, v: Service)
    requires Inv(m) && w < |m.workers| && v in m.workers[w].services
    ensures m.workers[w].services[v] < |m.states|
  {
  }

  lemma StepKeepsInv(m: Manager, a: Action)
    requires Inv(m) && Enabled(m, a)
    ensures Inv(Step(m, a))
  {
    hide WellFormed, Filed, Accounted, StageOk, Popped, Restarted, ReadEnded, OnvifStarted, SetStatus;
    match a
    case Acquire(_, _) => FinishKeeps(m, a);
    case Pop(c) => PopKeeps(m, c);
    case Terminate(c, s) => TerminateKeeps(m, c, s);
    case FinishStop(_) => FinishKeeps(m, a);
    case Publish(c) => PublishKeeps(m, c);
    case SpawnFirst(c) => SpawnFirstKeeps(m, c);
    case RegisterFirst(c) => RegisterFirstKeeps(m, c);
    case FinishStart(_, _) => FinishKeeps(m, a);
    case StartOnvif(w) => OnvifKeeps(m, w);
    case Exit(s, code) => ExitKeeps(m, s, code);
    case Report(s, status) => SetStatusKeeps(m, s, status);
    case ReadEnd(s, transient) => ReadEndKeeps(m, s, transient);
    case Restart(s) => RestartKeeps(m, s);
  }
}
