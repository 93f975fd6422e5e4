/**
 * The per-installation lock and the shutdown drain (src/runtime/create-app.ts): sync and admin
 * reprovision bodies share the set `running`, and `stop` refuses new syncs, waits for the bodies in
 * flight up to a deadline, and closes the store.
 */
module AppLocks {
  import opened Wrappers

  datatype Kind = Sync | Reprovision

  /** A body in flight, or one that has returned, found no context, or thrown. */
  datatype Task = Task(id: int, kind: Kind, active: bool)

  datatype Store = Open | ClosedDrained | ClosedOnDeadline

  datatype State = State(
    running: set<int>,
    tasks: seq<Task>,
    stopping: bool,
    serving: bool,
    deadline: Option<int>,
    store: Store,
    now: int)

  datatype Event =
    | RunSync(id: int)
    | RunReprovision(id: int)
    | BodyEnds(task: nat)
    | Stop
    | ServersStopped
    | StartDrain(timeout: nat)
    | PollDrain
    | Elapse(ms: nat)

  predicate Enabled(s: State, e: Event) {
    match e
    case RunSync(_) => true
    // The reprovision action is only reachable through the HTTP servers.
    case RunReprovision(_) => s.serving
    case BodyEnds(t) => t < |s.tasks| && s.tasks[t].active
    case Stop => !s.stopping
    case ServersStopped => s.stopping && s.serving
    case StartDrain(_) => s.stopping && !s.serving && s.deadline.None? && s.store.Open?
    case PollDrain => s.deadline.Some? && s.store.Open?
    case Elapse(_) => true
  }

  /** Claims the lock and starts a body, unless the installation is busy. */
  function Begin(s: State, id: int, kind: Kind): State {
    if id in s.running then s.(tasks := s.tasks + [Task(id, kind, false)])
    else s.(running := s.running + {id}, tasks := s.tasks + [Task(id, kind, true)])
  }

  function Apply(s: State, e: Event): State
    requires Enabled(s, e)
  {
    match e
    case RunSync(id) => if s.stopping then s.(tasks := s.tasks + [Task(id, Sync, false)]) else Begin(s, id, Sync)
    case RunReprovision(id) => Begin(s, id, Reprovision)
    case BodyEnds(t) =>
      s.(tasks := s.tasks[t := s.tasks[t].(active := false)], running := s.running - {s.tasks[t].id})
    case Stop => s.(stopping := true)
    case ServersStopped => s.(serving := false)
    case StartDrain(timeout) =>
      if s.running == {} then s.(store := ClosedDrained) else s.(deadline := Some(s.now + timeout))
    case PollDrain =>
      if s.running == {} then s.(store := ClosedDrained)
      else if s.now >= s.deadline.value then s.(store := ClosedOnDeadline)
      else s
    case Elapse(ms) => s.(now := s.now + ms)
  }

  const START := State({}, [], false, true, None, Open, 0)

  ghost predicate IsRun(run: seq<Event>)
    decreases |run|, 0
  {
    run == [] || (IsRun(run[..|run| - 1]) && Enabled(Reached(run[..|run| - 1]), run[|run| - 1]))
  }

  ghost function Reached(run: seq<Event>): State
    requires IsRun(run)
    decreases |run|, 1
  {
    if run == [] then START else Apply(Reached(run[..|run| - 1]), run[|run| - 1])
  }

  predicate IsActive(s: State, t: nat, id: int) {
    t < |s.tasks| && s.tasks[t].active && s.tasks[t].id == id
  }

  /** `running` holds exactly the installations with a body in flight, and each has one. */
  ghost predicate LockExact(s: State) {
    && (forall id :: id in s.running ==> exists t :: IsActive(s, t, id))
    && (forall t, id :: IsActive(s, t, id) ==> id in s.running)
    && (forall t, u, id :: IsActive(s, t, id) && IsActive(s, u, id) ==> t == u)
  }

  /** The store is closed only with nobody in flight, or once the deadline has passed. */
  ghost predicate ClosedProperly(s: State) {
    && (s.store.ClosedDrained? ==> s.running == {})
    && (s.store.ClosedOnDeadline? ==> s.deadline.Some? && s.now >= s.deadline.value)
    && (!s.store.Open? || s.deadline.Some? ==> s.stopping && !s.serving)
    && (!s.serving ==> s.stopping)
  }

  lemma StepKeepsLocks(s: State, e: Event)
    requires LockExact(s) && ClosedProperly(s) && Enabled(s, e)
    ensures LockExact(Apply(s, e)) && ClosedProperly(Apply(s, e))
  {
    var after := Apply(s, e);
    var n: nat := |s.tasks|;
    match e {
      case BodyEnds(t) =>
        assert IsActive(s, t, s.tasks[t].id);
        forall id | id in after.running ensures exists u :: IsActive(after, u, id) {
          var u :| IsActive(s, u, id);
          assert IsActive(after, u, id);
        }
        forall u, id | IsActive(after, u, id) ensures IsActive(s, u, id) && u != t {
        }
      case _ =>
        forall id | id in after.running ensures exists u :: IsActive(after, u, id) {
          if id in s.running {
            var u :| IsActive(s, u, id);
            assert IsActive(after, u, id);
          }
          assert id in s.running || IsActive(after, n, id);
        }
        forall u: nat, id | IsActive(after, u, id) && u < |s.tasks| ensures IsActive(s, u, id) {
        }
    }
  }

  /**
   * In every reachable state, on every exit path: at most one sync or reprovision body runs per
   * installation, `running` is exact, and the store is closed only after a drain or its deadline.
   */
  lemma {:induction false} LocksHold(run: seq<Event>)
    requires IsRun(run)
    ensures LockExact(Reached(run)) && ClosedProperly(Reached(run))
  {
    if run != [] {
      LocksHold(run[..|run| - 1]);
      StepKeepsLocks(Reached(run[..|run| - 1]), run[|run| - 1]);
    }
  }

  // ---- Shutdown ----------------------------------------------------------------------------------

  ghost predicate IsContinuation(s: State, run: seq<Event>)
    decreases |run|
  {
    run == [] || (Enabled(s, run[0]) && IsContinuation(Apply(s, run[0]), run[1..]))
  }

  ghost function Continued(s: State, run: seq<Event>): State
    requires IsContinuation(s, run)
    decreases |run|
  {
    if run == [] then s else Continued(Apply(s, run[0]), run[1..])
  }

  /** Once `stop` has been called no sync body starts: those in flight later were in flight then. */
  lemma {:induction false} NoSyncStartsWhileStopping(s: State, run: seq<Event>, t: nat)
    requires s.stopping && IsContinuation(s, run)
    requires t < |Continued(s, run).tasks|
    requires Continued(s, run).tasks[t].active && Continued(s, run).tasks[t].kind == Sync
    ensures Continued(s, run).stopping
    ensures t < |s.tasks| && s.tasks[t].active && s.tasks[t].kind == Sync
    decreases |run|
  {
    if run != [] {
      NoSyncStartsWhileStopping(Apply(s, run[0]), run[1..], t);
    }
  }

  /** After a drain that found nobody in flight, no body ever runs against the closed store. */
  lemma {:induction false} DrainedStaysDrained(s: State, run: seq<Event>)
    requires LockExact(s) && ClosedProperly(s) && s.store.ClosedDrained? && IsContinuation(s, run)
    ensures var after := Continued(s, run);
            after.store.ClosedDrained? && forall t :: 0 <= t < |after.tasks| ==> !after.tasks[t].active
    decreases |run|
  {
    if run == [] {
      forall t | 0 <= t < |s.tasks| ensures !s.tasks[t].active {
        assert s.tasks[t].active ==> IsActive(s, t, s.tasks[t].id);
      }
    } else {
      StepKeepsLocks(s, run[0]);
      DrainedStaysDrained(Apply(s, run[0]), run[1..]);
    }
  }

  // ---- What goes on --------------------------------------------------------------------------------

  /** The last task of a state started a body for the installation. */
  predicate JustStarted(s: State, id: int, kind: Kind) {
    s.tasks != [] && s.tasks[|s.tasks| - 1] == Task(id, kind, true) && id in s.running
  }

  /**
   * In every reachable state a sync starts exactly if the app is not stopping and no body runs for the
   * installation; a reprovision is refused only for such a body. What is refused leaves the rest alone.
   */
  lemma StartsExactlyWhenIdle(run: seq<Event>, id: int)
    requires IsRun(run)
    ensures var s := Reached(run);
            && (JustStarted(Apply(s, RunSync(id)), id, Sync) <==>
                  !s.stopping && forall t: nat :: !IsActive(s, t, id))
            && (s.serving ==>
                  (JustStarted(Apply(s, RunReprovision(id)), id, Reprovision) <==>
                     forall t: nat :: !IsActive(s, t, id)))
            && (!JustStarted(Apply(s, RunSync(id)), id, Sync) ==>
                  Apply(s, RunSync(id)).running == s.running)
  {
    LocksHold(run);
    var s := Reached(run);
    assert id in s.running <==> exists t: nat :: IsActive(s, t, id);
  }

  /** A body that ends, however it ends, frees its installation and no other. */
  lemma EndFreesItsInstallation(run: seq<Event>, t: nat)
    requires IsRun(run) && Enabled(Reached(run), BodyEnds(t))
    ensures var s, after := Reached(run), Apply(Reached(run), BodyEnds(t));
            && after.running == s.running - {s.tasks[t].id} && s.tasks[t].id in s.running
            && forall u: nat :: !IsActive(after, u, s.tasks[t].id)
  {
    LocksHold(run);
    StepKeepsLocks(Reached(run), BodyEnds(t));
    assert IsActive(Reached(run), t, Reached(run).tasks[t].id);
  }

  /**
   * Shutdown ends: once `stop` was called and the servers have stopped, the drain closes the store at
   * once if nobody is in flight, otherwise at the first look that finds nobody, or that is made when the
   * time is over.
   */
  lemma ShutdownEnds(s: State, timeout: nat, look: State)
    requires Enabled(s, StartDrain(timeout))
    ensures s.running == {} ==> Apply(s, StartDrain(timeout)).store == ClosedDrained
    ensures s.running != {} ==> Apply(s, StartDrain(timeout)) == s.(deadline := Some(s.now + timeout))
    ensures Enabled(look, PollDrain) ==>
              (Apply(look, PollDrain).store.Open? <==> look.running != {} && look.now < look.deadline.value)
  {
  }

  /** `stop` is heard: from then on the app is stopping, and a sync asked for is not started. */
  lemma StopIsHeard(s: State, id: int)
    requires Enabled(s, Stop)
    ensures Apply(s, Stop) == s.(stopping := true)
    ensures !JustStarted(Apply(Apply(s, Stop), RunSync(id)), id, Sync)
  {
  }

  /** A shutdown never gets stuck: after `stop`, until the store is closed, its next step can be taken. */
  lemma ShutdownGoesOn(s: State, timeout: nat)
    requires s.stopping && s.store.Open?
    ensures s.serving ==> Enabled(s, ServersStopped) && Apply(s, ServersStopped) == s.(serving := false)
    ensures !s.serving && s.deadline.None? ==> Enabled(s, StartDrain(timeout))
    ensures s.deadline.Some? ==> Enabled(s, PollDrain)
    ensures Enabled(s, Elapse(timeout)) && Apply(s, Elapse(timeout)).now == s.now + timeout
  {
  }
}
