/**
 The manager itself: the methods of `P2PManager` over its fields, each against the
 steps of `Lifecycle`. A method here runs alone; what threads may do between the
 steps of a `start` or a `stop` is the business of `LifecycleRuns`.
 */
module LifecycleManager {
  import opened Options
  import opened Lifecycle
  import opened LifecycleRuns

  // ---- whole operations as runs ----

  lemma {:induction false} RunsJoin(m: Manager, a: seq<Action>, b: seq<Action>)
    requires Legal(m, a) && Legal(After(m, a), b)
    ensures Legal(m, a + b) && After(m, a + b) == After(After(m, a), b)
    decreases |a|
  {
    hide Enabled, Step, WellFormed;
    if a == [] {
      assert a + b == b;
    } else {
      RunsJoin(Step(m, a[0]), a[1..], b);
      assert (a + b)[0] == a[0] && (a + b)[1..] == a[1..] + b;
    }
  }

  lemma OneStep(m: Manager, a: Action)
    requires WellFormed(m) && Enabled(m, a)
    ensures Legal(m, [a]) && After(m, [a]) == Step(m, a)
  {
    hide Enabled, Step, WellFormed;
    assert [a][1..] == [];
  }

  function KilledStates(states: seq<ServiceState>, victims: set<nat>): (r: seq<ServiceState>)
    ensures |r| == |states|
  {
    seq(|states|, i requires 0 <= i < |states| =>
      if i in victims && states[i].exit.None? then states[i].(exit := Some(-15)) else states[i])
  }

  /** The states a stop of camera `c` has to terminate. */
  function Victims(m: Manager, c: nat): set<nat>
    requires c in m.current ==> m.current[c] < |m.workers|
  {
    if c in m.current then ServiceStates(m.workers[m.current[c]]) else {}
  }

  function StoppedCamera(m: Manager, c: nat): Manager
    requires c in m.current ==> m.current[c] < |m.workers|
  {
    m.(current := m.current - {c}, states := KilledStates(m.states, Victims(m, c)))
  }

  /** A fresh worker whose RTSP process runs; the ONVIF thread waits unless the vendor
      backend serves the camera. */
  function StartedCamera(m: Manager, c: nat, vendor: bool): Manager {
    var w := |m.workers|;
    var published := m.(current := m.current[c := w], workers := m.workers + [WorkerState(c, map[])]);
    var started := StartService(published, w, Rtsp);
    started.(onvifWaiting := started.onvifWaiting + if vendor then {} else {w})
  }

  lemma KillOne(m: Manager, s: nat, victims: set<nat>)
    requires s in victims && s < |m.states|
    ensures KilledStates(Terminated(m, s).states, victims - {s}) == KilledStates(m.states, victims)
  {
  }

  function WithOperation(m: Manager, c: nat, op: Operation): Manager {
    m.(operations := m.operations[c := op])
  }

  /** Terminating what a stop has popped, one process after the other, kills them all. */
  lemma {:induction false} KillRun(
      m: Manager, c: nat, remaining: set<nat>, thenStart: bool) returns (actions: seq<Action>)
    requires Inv(m) && c in m.operations && m.operations[c] == Stopping(remaining, thenStart)
    ensures Legal(m, actions)
    ensures After(m, actions)
      == WithOperation(m.(states := KilledStates(m.states, remaining)), c, Stopping({}, thenStart))
    decreases |remaining|
  {
    hide Filed, Accounted, StageOk, KilledStates;
    if remaining == {} {
      actions := [];
      NothingKilled(m.states);
      assert m.operations[c := m.operations[c]] == m.operations;
    } else {
      var s :| s in remaining;
      var next := Step(m, Terminate(c, s));
      StepKeepsInv(m, Terminate(c, s));
      var rest := KillRun(next, c, remaining - {s}, thenStart);
      OneStep(m, Terminate(c, s));
      RunsJoin(m, [Terminate(c, s)], rest);
      actions := [Terminate(c, s)] + rest;
      KillOne(m, s, remaining);
      assert next.operations[c := Stopping({}, thenStart)] == m.operations[c := Stopping({}, thenStart)];
    }
  }

  lemma NothingKilled(states: seq<ServiceState>)
    ensures KilledStates(states, {}) == states
  {
  }

  lemma StopHalf(m: Manager, c: nat, thenStart: bool) returns (actions: seq<Action>)
    requires Inv(m) && c !in m.operations
    ensures Legal(m, actions)
    ensures After(m, actions) == WithOperation(StoppedCamera(m, c), c, Stopping({}, thenStart))
  {
    hide Filed, Accounted, StageOk, KilledStates, Legal, After;
    var acquired := Step(m, Acquire(c, thenStart));
    OneStep(m, Acquire(c, thenStart));
    StepKeepsInv(m, Acquire(c, thenStart));
    var popped := Step(acquired, Pop(c));
    OneStep(acquired, Pop(c));
    StepKeepsInv(acquired, Pop(c));
    RunsJoin(m, [Acquire(c, thenStart)], [Pop(c)]);
    var kills := KillRun(popped, c, Victims(m, c), thenStart);
    actions := [Acquire(c, thenStart)] + [Pop(c)] + kills;
    RunsJoin(m, [Acquire(c, thenStart)] + [Pop(c)], kills);
    assert popped.operations[c := Stopping({}, thenStart)] == m.operations[c := Stopping({}, thenStart)];
  }

  /** An uninterrupted `stop` is a run of its steps. */
  lemma StopRun(m: Manager, c: nat) returns (actions: seq<Action>)
    requires Inv(m) && c !in m.operations
    ensures Legal(m, actions) && After(m, actions) == StoppedCamera(m, c)
  {
    hide Filed, Accounted, StageOk, Legal, After, KilledStates;
    var half := StopHalf(m, c, false);
    var m1 := After(m, half);
    RunKeepsInv(m, half);
    OneStep(m1, FinishStop(c));
    RunsJoin(m, half, [FinishStop(c)]);
    actions := half + [FinishStop(c)];
    assert m.operations[c := Stopping({}, false)] - {c} == m.operations;
  }

  lemma Extended(m: Manager, actions: seq<Action>, a: Action)
    requires Inv(m) && Legal(m, actions)
    requires WellFormed(After(m, actions)) && Enabled(After(m, actions), a)
    ensures Legal(m, actions + [a]) && After(m, actions + [a]) == Step(After(m, actions), a)
    ensures Inv(After(m, actions + [a]))
  {
    hide Inv, Legal, After, WellFormed, Enabled, Step;
    RunKeepsInv(m, actions);
    OneStep(After(m, actions), a);
    RunsJoin(m, actions, [a]);
    RunKeepsInv(m, actions + [a]);
  }

  lemma VictimsExist(m: Manager, c: nat)
    requires Inv(m)
    ensures WellFormed(m) && (c in m.current ==> m.current[c] < |m.workers|)
    ensures forall s :: s in Victims(m, c) ==> s < |m.states|
  {
  }

  /** The worker of camera `c` as `start` publishes it, its RTSP process spawned but
      not yet registered. */
  function PublishedCamera(m: Manager, c: nat): Manager {
    SpawnProcess(m.(current := m.current[c := |m.workers|], workers := m.workers + [WorkerState(c, map[])]),
                 |m.workers|, Rtsp)
  }

  lemma PublishRun(m: Manager, actions: seq<Action>, c: nat) returns (all: seq<Action>)
    requires Inv(m) && Legal(m, actions) && Inv(After(m, actions))
    requires c in After(m, actions).operations && After(m, actions).operations[c] == Stopping({}, true)
    ensures Legal(m, all) && Inv(After(m, all))
    ensures var m0 := After(m, actions);
      After(m, all) == WithOperation(PublishedCamera(m0, c), c, Spawned(|m0.workers|, |m0.states|))
  {
    hide Filed, Accounted, StageOk, Legal, After;
    Extended(m, actions, Publish(c));
    Extended(m, actions + [Publish(c)], SpawnFirst(c));
    all := actions + [Publish(c)] + [SpawnFirst(c)];
    var m0 := After(m, actions);
    assert After(m, all).operations == m0.operations[c := Spawned(|m0.workers|, |m0.states|)];
  }

  lemma StartHalf(m: Manager, actions: seq<Action>, c: nat, vendor: bool) returns (all: seq<Action>)
    requires Inv(m) && Legal(m, actions) && Inv(After(m, actions))
    requires c in After(m, actions).operations && After(m, actions).operations[c] == Stopping({}, true)
    ensures Legal(m, all)
    ensures var m0 := After(m, actions);
      After(m, all) == StartedCamera(m0.(operations := m0.operations - {c}), c, vendor)
  {
    hide Filed, Accounted, StageOk, Legal, After;
    var spawned := PublishRun(m, actions, c);
    Extended(m, spawned, RegisterFirst(c));
    Extended(m, spawned + [RegisterFirst(c)], FinishStart(c, vendor));
    all := spawned + [RegisterFirst(c)] + [FinishStart(c, vendor)];
    assert After(m, all).operations == After(m, actions).operations - {c};
  }

  /** An uninterrupted `start` is a run of its steps. */
  lemma StartRun(m: Manager, c: nat, vendor: bool) returns (actions: seq<Action>)
    requires Inv(m) && c !in m.operations
    ensures Legal(m, actions) && After(m, actions) == StartedCamera(StoppedCamera(m, c), c, vendor)
  {
    hide Filed, Accounted, StageOk, Legal, After, KilledStates, StartedCamera;
    var half := StopHalf(m, c, true);
    RunKeepsInv(m, half);
    actions := StartHalf(m, half, c, vendor);
    assert m.operations[c := Stopping({}, true)] - {c} == m.operations;
  }

  lemma RegisteredIsValue(m: Manager, s: nat)
    requires Inv(m) && s < |m.states|
    ensures WellFormed(m) && m.states[s].worker < |m.workers|
    ensures IsRegistered(m, s) <==> s in m.workers[m.states[s].worker].services.Values
  {
  }

  // ---- the object ----

  class P2PManager {
    var current: map<nat, nat>
    var workers: seq<WorkerState>
    var states: seq<ServiceState>
    var readers: map<nat, Reader>
    var onvifWaiting: set<nat>

    ghost function Value(): Manager
      reads this
    {
      Manager(current, workers, states, readers, map[], onvifWaiting)
    }

    constructor ()
      ensures Value() == EMPTY_MANAGER
    {
      current, workers, states, readers, onvifWaiting := map[], [], [], map[], {};
    }

    /** `_terminate_process_group` */
    method TerminateProcessGroup(s: nat)
      requires s < |states|
      modifies this`states
      ensures Value() == Terminated(old(Value()), s)
    {
      if states[s].exit.Some? {
        return;
      }
      states := states[s := states[s].(exit := Some(-15))];
    }

    /** `_start_service` and `_start_vendor_service`: spawn, register, watch. */
    method StartService(w: nat, v: Service)
      requires w < |workers|
      modifies this
      ensures Value() == Lifecycle.StartService(old(Value()), w, v)
    {
      var s := |states|;
      states := states + [ServiceState(w, v, Connecting, None)];
      workers := workers[w := workers[w].(services := workers[w].services[v := s])];
      readers := readers[s := Reading];
    }

    method TerminateAll(victims: set<nat>)
      requires forall s :: s in victims ==> s < |states|
      modifies this`states
      ensures states == KilledStates(old(states), victims)
    {
      var remaining := victims;
      while remaining != {}
        invariant remaining <= victims && |states| == |old(states)|
        invariant states == KilledStates(old(states), victims - remaining)
      {
        var s :| s in remaining;
        TerminateProcessGroup(s);
        remaining := remaining - {s};
      }
      assert victims - {} == victims;
    }

    /** `_stop_locked` */
    method Stop(c: nat)
      requires Inv(Value())
      modifies this`current, this`states
      ensures Inv(Value()) && Value() == StoppedCamera(old(Value()), c)
    {
      hide Inv, Legal, After, KilledStates;
      ghost var run := StopRun(Value(), c);
      RunKeepsInv(Value(), run);
      VictimsExist(Value(), c);
      if c !in current {
        NothingKilled(states);
        assert current - {c} == current;
        return;
      }
      var worker := current[c];
      current := current - {c};
      TerminateAll(ServiceStates(workers[worker]));
    }

    /** `start`: the worker, or None for an unsupported vendor. */
    method Start(c: nat, supported: bool, vendor: bool) returns (worker: Option<nat>)
      requires Inv(Value())
      modifies this
      ensures Inv(Value())
      ensures worker == if supported then Some(|old(workers)|) else None
      ensures Value() ==
        if supported then StartedCamera(StoppedCamera(old(Value()), c), c, vendor) else StoppedCamera(old(Value()), c)
    {
      hide Inv, Legal, After, KilledStates, Filed, Accounted;
      VictimsExist(Value(), c);
      ghost var run := StartRun(Value(), c, vendor);
      RunKeepsInv(Value(), run);
      Stop(c);
      if !supported {
        return None;
      }
      var w := |workers|;
      current := current[c := w];
      workers := workers + [WorkerState(c, map[])];
      StartService(w, Rtsp);
      if !vendor {
        onvifWaiting := onvifWaiting + {w};
      }
      assert Value() == StartedCamera(StoppedCamera(old(Value()), c), c, vendor);
      return Some(w);
    }

    /** The last section of `_start_onvif_after_rtsp`, for worker `w`. */
    method StartOnvifAfterRtsp(w: nat)
      requires Inv(Value()) && w in onvifWaiting && w < |workers|
      modifies this
      ensures Inv(Value()) && Value() == Step(old(Value()), StartOnvif(w))
    {
      StepKeepsInv(Value(), StartOnvif(w));
      onvifWaiting := onvifWaiting - {w};
      var c := workers[w].camera;
      if c !in current || current[c] != w {
        return;
      }
      if Onvif !in workers[w].services {
        StartService(w, Onvif);
      }
    }

    /** The section of `_read_output` that follows the end of a process's output. */
    method ReadOutputEnded(s: nat, transient: bool)
      requires Inv(Value()) && Enabled(Value(), ReadEnd(s, transient))
      modifies this`states, this`readers
      ensures Inv(Value()) && Value() == Step(old(Value()), ReadEnd(s, transient))
    {
      hide Inv, WellFormed, IsRegistered;
      StepKeepsInv(Value(), ReadEnd(s, transient));
      WellFormedOf(Value(), s);
      RegisteredIsValue(Value(), s);
      var w, code := states[s].worker, states[s].exit.value;
      var c, services := workers[w].camera, workers[w].services;
      var next := Finished;
      if c in current && current[c] == w && s in services.Values {
        if code == 75 {
          states := states[s := states[s].(status := Connecting)];
          var peer := false;
          if states[s].service == Onvif && Rtsp in services && services[Rtsp] != s {
            peer := states[services[Rtsp]].status == Connecting && states[services[Rtsp]].exit.None?;
          }
          next := Restarting(peer);
        } else if code != 0 && transient {
          states := states[s := states[s].(status := Connecting)];
          next := Restarting(false);
        } else {
          states := states[s := states[s].(status := if code == 0 then Stopped else Failed)];
        }
      }
      readers := readers[s := next];
    }

    /** The section of `_read_output` that follows its delay. */
    method RestartService(s: nat)
      requires Inv(Value()) && Enabled(Value(), Restart(s))
      modifies this
      ensures Inv(Value()) && Value() == Step(old(Value()), Restart(s))
    {
      StepKeepsInv(Value(), Restart(s));
      var w, peer := states[s].worker, readers[s].peer;
      var c := workers[w].camera;
      readers := readers[s := Finished];
      if c in current && current[c] == w && s in workers[w].services.Values {
        StartService(w, states[s].service);
      }
      if peer && c in current && current[c] == w && Rtsp in workers[w].services {
        TerminateProcessGroup(workers[w].services[Rtsp]);
        StartService(w, Rtsp);
      }
    }
  }
}
