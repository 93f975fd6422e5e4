/**
 * `mapWithConcurrency` (src/sync/concurrency.ts): a fixed crew of workers that share one cursor over
 * the items. Every `await` lets any other worker go on, so a run is a schedule of worker numbers:
 * the one scheduled either takes the next index or has its call settled.
 */
module Concurrency {
  import opened Wrappers

  datatype Worker = Idle | Busy(index: nat) | Finished | Crashed

  datatype Call = Call(worker: nat, index: nat)

  /** `calls` records which worker was handed which index, in order. */
  datatype State<O> = State(cursor: nat, results: seq<Option<O>>, workers: seq<Worker>, calls: seq<Call>)

  /** What is mapped: the items, and the function, whose promise may reject. */
  datatype Work<!I, O, E> = Work(items: seq<I>, fn: (I, nat) -> Result<O, E>)

  function Crew(n: nat, limit: nat): nat {
    if limit <= n then limit else n
  }

  function Start<O>(n: nat, limit: nat): State<O> {
    State(0, seq(n, i => None), seq(Crew(n, limit), i => Idle), [])
  }

  predicate CanStep<O>(s: State<O>, w: nat) {
    w < |s.workers| && (s.workers[w].Idle? || s.workers[w].Busy?)
  }

  function Take<I, O, E>(work: Work<I, O, E>, s: State<O>, w: nat): State<O>
    requires w < |s.workers|
  {
    if s.cursor < |work.items| then
      State(s.cursor + 1, s.results, s.workers[w := Busy(s.cursor)], s.calls + [Call(w, s.cursor)])
    else
      s.(cursor := s.cursor + 1, workers := s.workers[w := Finished])
  }

  function Settle<I, O, E>(work: Work<I, O, E>, s: State<O>, w: nat): State<O>
    requires w < |s.workers| && s.workers[w].Busy?
    requires s.workers[w].index < |work.items| <= |s.results|
  {
    var i := s.workers[w].index;
    match work.fn(work.items[i], i)
    case Success(v) => s.(results := s.results[i := Some(v)], workers := s.workers[w := Idle])
    case Failure(_) => s.(workers := s.workers[w := Crashed])
  }

  function Step<I, O, E>(work: Work<I, O, E>, s: State<O>, w: nat): State<O>
    requires Sized(work, s) && CanStep(s, w)
  {
    if s.workers[w].Idle? then Take(work, s, w) else Settle(work, s, w)
  }

  /** One slot per item, and no worker on an index past the end. */
  predicate Sized<I, O, E>(work: Work<I, O, E>, s: State<O>) {
    && |s.results| == |work.items|
    && forall w :: 0 <= w < |s.workers| && s.workers[w].Busy? ==> s.workers[w].index < |work.items|
  }

  // ---- The invariant ---------------------------------------------------------------------------

  function Taken<I, O, E>(work: Work<I, O, E>, s: State<O>): nat {
    if s.cursor <= |work.items| then s.cursor else |work.items|
  }

  /** The worker that was handed the index is still on it, or failed on it. */
  ghost predicate Pending<I, O, E>(work: Work<I, O, E>, s: State<O>, i: nat)
    requires i < |s.calls| && i < |work.items|
  {
    var w := s.calls[i].worker;
    && w < |s.workers|
    && (s.workers[w] == Busy(i) || (s.workers[w].Crashed? && work.fn(work.items[i], i).Failure?))
  }

  ghost predicate Valid<I, O, E>(work: Work<I, O, E>, s: State<O>) {
    && Sized(work, s)
    && |s.calls| == Taken(work, s)
    && (forall i :: 0 <= i < |s.calls| ==> s.calls[i].index == i)
    && (forall i :: 0 <= i < |work.items| ==> ResultValid(work, s, i))
    && (forall w :: 0 <= w < |s.workers| ==> WorkerValid(work, s, w))
  }

  ghost predicate ResultValid<I, O, E>(work: Work<I, O, E>, s: State<O>, i: nat)
    requires i < |work.items| == |s.results|
  {
    match s.results[i]
    case Some(v) => i < |s.calls| && work.fn(work.items[i], i) == Success(v)
    case None => i < |s.calls| ==> Pending(work, s, i)
  }

  ghost predicate WorkerValid<I, O, E>(work: Work<I, O, E>, s: State<O>, w: nat)
    requires w < |s.workers| && |work.items| == |s.results|
  {
    match s.workers[w]
    case Idle => true
    case Busy(i) => i < |s.calls| && i < |work.items| && s.calls[i].worker == w && s.results[i].None?
    case Finished => s.cursor > |work.items|
    case Crashed => exists i :: 0 <= i < |work.items| && i < |s.calls| && work.fn(work.items[i], i).Failure?
  }

  lemma StepValid<I, O, E>(work: Work<I, O, E>, s: State<O>, w: nat)
    requires Valid(work, s) && CanStep(s, w)
    ensures Valid(work, Step(work, s, w))
  {
    var t := Step(work, s, w);
    assert WorkerValid(work, s, w);
    if s.cursor < |work.items| {
      assert ResultValid(work, s, s.cursor);
    }
    forall i | 0 <= i < |work.items| ensures ResultValid(work, t, i) {
      assert ResultValid(work, s, i);
    }
    forall v | 0 <= v < |t.workers| ensures WorkerValid(work, t, v) {
      assert WorkerValid(work, s, v);
      if t.workers[v].Busy? && v != w {
        assert s.calls[t.workers[v].index].worker == v;
      }
    }
  }

  // ---- Every schedule --------------------------------------------------------------------------

  ghost predicate IsSchedule<I, O, E>(work: Work<I, O, E>, s: State<O>, schedule: seq<nat>)
    decreases |schedule|
  {
    Sized(work, s) &&
    (schedule == [] || (CanStep(s, schedule[0]) && IsSchedule(work, Step(work, s, schedule[0]), schedule[1..])))
  }

  ghost function Reached<I, O, E>(work: Work<I, O, E>, s: State<O>, schedule: seq<nat>): State<O>
    requires IsSchedule(work, s, schedule)
    decreases |schedule|
  {
    if schedule == [] then s else Reached(work, Step(work, s, schedule[0]), schedule[1..])
  }

  lemma StartValid<I, O, E>(work: Work<I, O, E>, limit: nat)
    ensures Valid(work, Start<O>(|work.items|, limit))
  {
  }

  ghost function InFlight<O>(s: State<O>): set<int> {
    set w | 0 <= w < |s.workers| && s.workers[w].Busy?
  }

  /** How many more steps a state allows at most. */
  function Weight(worker: Worker): nat {
    match worker
    case Idle => 1
    case Busy(_) => 2
    case _ => 0
  }

  function Weights(workers: seq<Worker>): nat {
    if workers == [] then 0 else Weights(workers[..|workers| - 1]) + Weight(workers[|workers| - 1])
  }

  function Budget<I, O, E>(work: Work<I, O, E>, s: State<O>): nat {
    Weights(s.workers) + 2 * (|work.items| - Taken(work, s))
  }

  lemma {:induction false} WeightsUpdate(workers: seq<Worker>, w: nat, worker: Worker)
    requires w < |workers|
    ensures Weights(workers[w := worker]) == Weights(workers) - Weight(workers[w]) + Weight(worker)
  {
    var n := |workers| - 1;
    if w < n {
      assert workers[w := worker][..n] == workers[..n][w := worker];
      WeightsUpdate(workers[..n], w, worker);
    } else {
      assert workers[w := worker][..n] == workers[..n];
    }
  }

  lemma StepSpendsBudget<I, O, E>(work: Work<I, O, E>, s: State<O>, w: nat)
    requires Sized(work, s) && CanStep(s, w)
    ensures Budget(work, Step(work, s, w)) < Budget(work, s)
  {
    WeightsUpdate(s.workers, w, Step(work, s, w).workers[w]);
  }

  lemma {:induction false} ReachedValid<I, O, E>(work: Work<I, O, E>, s: State<O>, schedule: seq<nat>)
    requires Valid(work, s) && IsSchedule(work, s, schedule)
    ensures Valid(work, Reached(work, s, schedule))
    ensures |Reached(work, s, schedule).workers| == |s.workers|
    ensures |schedule| + Budget(work, Reached(work, s, schedule)) <= Budget(work, s)
    decreases |schedule|
  {
    if schedule != [] {
      StepValid(work, s, schedule[0]);
      StepSpendsBudget(work, s, schedule[0]);
      ReachedValid(work, Step(work, s, schedule[0]), schedule[1..]);
    }
  }

  lemma {:induction false} FreshCrew(workers: seq<Worker>)
    requires forall w :: 0 <= w < |workers| ==> workers[w].Idle?
    ensures Weights(workers) == |workers|
  {
    if workers != [] {
      FreshCrew(workers[..|workers| - 1]);
    }
  }

  lemma {:induction false} AtMost(s: set<int>, n: nat)
    requires forall w :: w in s ==> 0 <= w < n
    ensures |s| <= n
  {
    if n > 0 {
      AtMost(s - {n - 1}, n - 1);
    } else {
      assert forall w :: w !in s;
    }
  }

  /**
   * Under every interleaving: the indices are handed out in order, each to one worker; never more
   * than min(limit, n) calls are in flight; and every run ends within 2n + min(limit, n) steps.
   */
  lemma EveryScheduleIsBounded<I, O, E>(work: Work<I, O, E>, limit: nat, schedule: seq<nat>)
    requires IsSchedule(work, Start<O>(|work.items|, limit), schedule)
    ensures var n := |work.items|;
            var s := Reached(work, Start<O>(n, limit), schedule);
            && |s.calls| <= n
            && (forall i :: 0 <= i < |s.calls| ==> s.calls[i].index == i)
            && |InFlight(s)| <= limit && |InFlight(s)| <= n
            && |schedule| <= 2 * n + limit && |schedule| <= 3 * n
  {
    var n := |work.items|;
    var start := Start<O>(n, limit);
    StartValid(work, limit);
    ReachedValid(work, start, schedule);
    FreshCrew(start.workers);
    AtMost(InFlight(Reached(work, start, schedule)), Crew(n, limit));
  }

  /** The first n workers have each taken the index of their number. */
  ghost predicate FirstBusy<O>(s: State<O>, n: nat) {
    && n <= |s.workers| && s.cursor == n
    && (forall w :: 0 <= w < n ==> s.workers[w] == Busy(w))
    && (forall w :: n <= w < |s.workers| ==> s.workers[w].Idle?)
  }

  lemma {:induction false} OneAfterAnother<I, O, E>(work: Work<I, O, E>, s: State<O>, n: nat, m: nat)
    returns (schedule: seq<nat>)
    requires Sized(work, s) && FirstBusy(s, n) && n <= m <= |s.workers| && m <= |work.items|
    ensures IsSchedule(work, s, schedule) && |schedule| == m - n
    ensures FirstBusy(Reached(work, s, schedule), m)
    decreases m - n
  {
    if n == m {
      schedule := [];
    } else {
      var next := Step(work, s, n);
      assert Sized(work, next) && FirstBusy(next, n + 1);
      var rest := OneAfterAnother(work, next, n + 1, m);
      schedule := [n] + rest;
      assert schedule[1..] == rest;
    }
  }

  function Below(n: nat): (r: set<int>)
    ensures |r| == n && forall w :: w in r <==> 0 <= w < n
  {
    if n == 0 then {} else Below(n - 1) + {n - 1}
  }

  lemma BusyCount<O>(s: State<O>, n: nat)
    requires FirstBusy(s, n)
    ensures |InFlight(s)| == n
  {
    assert InFlight(s) == Below(n);
  }

  /** And the limit is used: some interleaving has min(limit, n) calls in flight at once. */
  lemma TheLimitIsReached<I, O, E>(work: Work<I, O, E>, limit: nat) returns (schedule: seq<nat>)
    ensures IsSchedule(work, Start<O>(|work.items|, limit), schedule)
    ensures |InFlight(Reached(work, Start<O>(|work.items|, limit), schedule))| ==
            if limit <= |work.items| then limit else |work.items|
  {
    var m: nat := if limit <= |work.items| then limit else |work.items|;
    var start := Start<O>(|work.items|, limit);
    schedule := OneAfterAnother(work, start, 0, m);
    BusyCount(Reached(work, start, schedule), m);
  }

  ghost predicate Over<O>(s: State<O>) {
    forall w :: 0 <= w < |s.workers| ==> !CanStep(s, w)
  }

  ghost predicate AllSucceed<I, O, E>(work: Work<I, O, E>) {
    forall i :: 0 <= i < |work.items| ==> work.fn(work.items[i], i).Success?
  }

  ghost predicate SomeoneCrashed<O>(s: State<O>) {
    exists w :: 0 <= w < |s.workers| && s.workers[w].Crashed?
  }

  /** When the run is over: nobody crashed exactly when no call fails, and then the results are complete. */
  lemma OverIsComplete<I, O, E>(work: Work<I, O, E>, s: State<O>)
    requires Valid(work, s) && Over(s) && (|s.workers| > 0 || work.items == [])
    ensures SomeoneCrashed(s) <==> !AllSucceed(work)
    ensures AllSucceed(work) ==>
              forall i :: 0 <= i < |work.items| ==>
                s.results[i].Some? && work.fn(work.items[i], i) == Success(s.results[i].value)
  {
    forall w | 0 <= w < |s.workers| ensures WorkerValid(work, s, w) && !CanStep(s, w) {
    }
    if SomeoneCrashed(s) {
      var w :| 0 <= w < |s.workers| && s.workers[w].Crashed?;
      assert WorkerValid(work, s, w);
    } else if |s.workers| > 0 {
      assert WorkerValid(work, s, 0);
      forall i | 0 <= i < |work.items|
        ensures s.results[i].Some? && work.fn(work.items[i], i) == Success(s.results[i].value)
      {
        assert ResultValid(work, s, i);
        assert s.results[i].None? ==> Pending(work, s, i) && !CanStep(s, s.calls[i].worker);
      }
    }
  }

  lemma EveryScheduleIsCorrect<I, O, E>(work: Work<I, O, E>, limit: nat, schedule: seq<nat>)
    requires limit >= 1 && IsSchedule(work, Start<O>(|work.items|, limit), schedule)
    requires Over(Reached(work, Start<O>(|work.items|, limit), schedule))
    ensures var s := Reached(work, Start<O>(|work.items|, limit), schedule);
            && (SomeoneCrashed(s) <==> !AllSucceed(work))
            && |s.results| == |work.items|
            && (AllSucceed(work) ==>
                  forall i :: 0 <= i < |work.items| ==>
                    s.results[i].Some? && work.fn(work.items[i], i) == Success(s.results[i].value))
  {
    StartValid(work, limit);
    ReachedValid(work, Start<O>(|work.items|, limit), schedule);
    OverIsComplete(work, Reached(work, Start<O>(|work.items|, limit), schedule));
  }

  // ---- The first failure ---------------------------------------------------------------------------

  /** The index whose call fails if this worker goes on. */
  function Failing<I, O, E>(work: Work<I, O, E>, s: State<O>, w: nat): Option<nat>
    requires Sized(work, s) && CanStep(s, w)
  {
    if s.workers[w].Busy? && work.fn(work.items[s.workers[w].index], s.workers[w].index).Failure?
    then Some(s.workers[w].index) else None
  }

  /** The index of the first call of a schedule to fail: the one whose rejection the caller sees. */
  ghost function FirstFailure<I, O, E>(work: Work<I, O, E>, s: State<O>, schedule: seq<nat>): Option<nat>
    requires IsSchedule(work, s, schedule)
    decreases |schedule|
  {
    if schedule == [] then None
    else if Failing(work, s, schedule[0]).Some? then Failing(work, s, schedule[0])
    else FirstFailure(work, Step(work, s, schedule[0]), schedule[1..])
  }

  lemma {:induction false} ScheduleOneMore<I, O, E>(work: Work<I, O, E>, s: State<O>, schedule: seq<nat>, w: nat)
    requires Valid(work, s) && IsSchedule(work, s, schedule) && CanStep(Reached(work, s, schedule), w)
    ensures Sized(work, Reached(work, s, schedule))
    ensures IsSchedule(work, s, schedule + [w])
    ensures Reached(work, s, schedule + [w]) == Step(work, Reached(work, s, schedule), w)
    ensures FirstFailure(work, s, schedule + [w]) ==
            if FirstFailure(work, s, schedule).Some? then FirstFailure(work, s, schedule)
            else Failing(work, Reached(work, s, schedule), w)
    decreases |schedule|
  {
    var longer := schedule + [w];
    if schedule == [] {
      assert longer[1..] == [];
      StepValid(work, s, w);
    } else {
      assert longer[1..] == schedule[1..] + [w];
      StepValid(work, s, schedule[0]);
      ScheduleOneMore(work, Step(work, s, schedule[0]), schedule[1..], w);
    }
  }

  // ---- The function as the source runs it ---------------------------------------------------------

  /**
   * `mapWithConcurrency`, with the shared cursor and the results array updated in place. Which
   * worker goes on is left open at every turn of the loop, so the contract holds of every interleaving.
   */
  method MapWithConcurrency<I, O, E>(work: Work<I, O, E>, limit: int)
    returns (out: Option<Result<seq<O>, nat>>, ghost schedule: seq<nat>)
    ensures out.None? <==> limit < 1
    ensures limit >= 1 ==> (out.value.Success? <==> AllSucceed(work))
    ensures limit >= 1 && out.value.Success? ==>
              && |out.value.value| == |work.items|
              && forall i :: 0 <= i < |work.items| ==> work.fn(work.items[i], i) == Success(out.value.value[i])
    ensures limit >= 1 && out.value.Failure? ==>
              out.value.error < |work.items| && work.fn(work.items[out.value.error], out.value.error).Failure?
    ensures limit >= 1 ==>
              var start := Start<O>(|work.items|, limit);
              && IsSchedule(work, start, schedule) && Over(Reached(work, start, schedule))
              && FirstFailure(work, start, schedule) == if out.value.Failure? then Some(out.value.error) else None
  {
    schedule := [];
    if limit < 1 {
      return None, [];
    }
    var n := |work.items|;
    var results := new Option<O>[n](i => None);
    var cursor := 0;
    var workers := seq(Crew(n, limit), i => Idle);
    var rejected: Option<nat> := None;
    ghost var start := Start<O>(n, limit);
    ghost var s := start;
    StartValid(work, limit);
    while exists w :: 0 <= w < |workers| && (workers[w].Idle? || workers[w].Busy?)
      invariant Valid(work, s) && |s.workers| == Crew(n, limit)
      invariant s.cursor == cursor && s.workers == workers && s.results == results[..]
      invariant IsSchedule(work, start, schedule) && Reached(work, start, schedule) == s
      invariant FirstFailure(work, start, schedule) == rejected
      invariant rejected.Some? <==> SomeoneCrashed(s)
      invariant rejected.Some? ==> rejected.value < n && work.fn(work.items[rejected.value], rejected.value).Failure?
      decreases Budget(work, s)
    {
      var w :| 0 <= w < |workers| && (workers[w].Idle? || workers[w].Busy?);
      ScheduleOneMore(work, start, schedule, w);
      StepValid(work, s, w);
      StepSpendsBudget(work, s, w);
      CrashesOnFailure(work, s, w);
      ghost var t := Step(work, s, w);
      if workers[w].Idle? {
        var index := cursor;
        cursor := cursor + 1;
        workers := workers[w := if index >= n then Finished else Busy(index)];
      } else {
        var index := workers[w].index;
        match work.fn(work.items[index], index) {
          case Success(v) =>
            results[index] := Some(v);
            workers := workers[w := Idle];
          case Failure(_) =>
            workers := workers[w := Crashed];
            if rejected.None? {
              rejected := Some(index);
            }
        }
      }
      s, schedule := t, schedule + [w];
    }
    OverIsComplete(work, s);
    if rejected.Some? {
      return Some(Failure(rejected.value)), schedule;
    }
    return Some(Success(seq(n, i requires 0 <= i < n && results[i].Some? reads results => results[i].value))), schedule;
  }

  /** A step makes a worker crash exactly when its call fails. */
  lemma CrashesOnFailure<I, O, E>(work: Work<I, O, E>, s: State<O>, w: nat)
    requires Sized(work, s) && CanStep(s, w)
    ensures SomeoneCrashed(Step(work, s, w)) <==> SomeoneCrashed(s) || Failing(work, s, w).Some?
  {
    var t := Step(work, s, w);
    assert forall v :: 0 <= v < |s.workers| && v != w ==> t.workers[v] == s.workers[v];
    assert Failing(work, s, w).Some? ==> t.workers[w].Crashed?;
    if SomeoneCrashed(s) {
      var v :| 0 <= v < |s.workers| && s.workers[v].Crashed?;
      assert t.workers[v].Crashed?;
    }
  }
}
