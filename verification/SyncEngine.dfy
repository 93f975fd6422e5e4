/**
 * The sync engine (src/sync/engine.ts): the window of a step-source, the backoff skip, the cursor
 * that moves only on a clean run, and the failure counter. Instants and durations are milliseconds.
 */
module SyncEngine {
  import opened Wrappers

  const MINUTE := 60_000
  const DAY := 24 * 60 * MINUTE
  const MAX_BACKOFF := DAY

  function Pow2(n: nat): (p: nat)
    ensures p >= 1
  {
    if n == 0 then 1 else 2 * Pow2(n - 1)
  }

  function BackoffWindow(failures: int): nat {
    if failures <= 0 then 0
    else
      var wait := MINUTE * Pow2(failures - 1);
      if wait <= MAX_BACKOFF then wait else MAX_BACKOFF
  }

  datatype Policy = Strict | Always | MaxRatio(ratio: real)

  predicate RejectsTolerated(policy: Policy, rejected: int, items: int) {
    match policy
    case Strict => false
    case Always => true
    case MaxRatio(ratio) =>
      var attempted := items + rejected;
      attempted <= 0 || rejected as real / attempted as real <= ratio
  }

  // ---- One step-source ------------------------------------------------------------------------

  /** The `updated_at` column: absent, not a timestamp, or an instant. */
  datatype Stamp = Absent | Unreadable | At(ms: int)

  datatype RowStatus = Ok | Error

  datatype CursorRow = CursorRow(
    lastSyncedAt: Option<int>,
    lastStatus: RowStatus,
    items: int,
    consecutiveFailures: nat,
    updatedAt: Stamp)

  /** Options of a run; the start of a backfill window is calendar arithmetic, kept abstract. */
  datatype Options = Options(full: bool, overlap: int, backfillStart: int -> int)

  datatype Window = Window(since: int, until: int)

  function ComputeWindow(lastSyncedAt: Option<int>, now: int, opts: Options): (w: Window)
    ensures w.until == now
  {
    if opts.full || lastSyncedAt.None? then Window(opts.backfillStart(now), now)
    else Window(lastSyncedAt.value - (if opts.overlap > 0 then opts.overlap else 0), now)
  }

  /** An event of the partner's system: when it happened, and when a read first shows it. */
  datatype Event = Event(id: int, at: int, visibleAt: int)

  /** What a step did: it throws, or it returns its result. Either way it may have pushed. */
  datatype StepRun =
    | Threw(pushed: set<Event>, refused: set<Event>, rejected: nat)
    | Returned(pushed: set<Event>, refused: set<Event>, rejected: nat,
               items: int, errors: nat, advanceTo: Option<int>)
  {
    function Items(): int {
      if Threw? then 0 else items
    }

    function Errors(): nat {
      if Threw? then 1 else errors
    }

    function Bound(): Option<int> {
      if Threw? then None else advanceTo
    }
  }

  /** One attempt at a step-source: three readings of the clock, the options, what the step does. */
  datatype Tick = Tick(
    checkedAt: int,
    startedAt: int,
    finishedAt: int,
    policy: Policy,
    opts: Options,
    run: StepRun)

  datatype Verdict = Skipped | Advanced(to: int) | Held | Idle

  function Failures(row: Option<CursorRow>): nat {
    if row.Some? then row.value.consecutiveFailures else 0
  }

  function LastSynced(row: Option<CursorRow>): Option<int> {
    if row.Some? then row.value.lastSyncedAt else None
  }

  predicate InBackoff(row: Option<CursorRow>, now: int, opts: Options) {
    && !opts.full
    && Failures(row) > 0
    && match row.value.updatedAt
       case Absent => false
       case Unreadable => now < 0
       case At(ms) => now < ms + BackoffWindow(Failures(row))
  }

  predicate BlockedByRejects(tick: Tick) {
    tick.run.rejected > 0 && !RejectsTolerated(tick.policy, tick.run.rejected, tick.run.Items())
  }

  /** The golden rule: the cursor moves on a clean, bounded, unblocked run, never past the window. */
  function Decide(row: Option<CursorRow>, tick: Tick): Verdict {
    if InBackoff(row, tick.checkedAt, tick.opts) then Skipped
    else if tick.run.Errors() == 0 && tick.run.Bound().Some? && !BlockedByRejects(tick) then
      var to := tick.run.Bound().value;
      Advanced(if to > tick.startedAt then tick.startedAt else to)
    else if tick.run.Errors() > 0 || BlockedByRejects(tick) then Held
    else Idle
  }

  function NextRow(row: Option<CursorRow>, tick: Tick): Option<CursorRow> {
    match Decide(row, tick)
    case Skipped => row
    case Idle => row
    case Advanced(to) => Some(CursorRow(Some(to), Ok, tick.run.Items(), 0, At(tick.finishedAt)))
    case Held =>
      Some(CursorRow(LastSynced(row), Error, tick.run.Items(), Failures(row) + 1, At(tick.finishedAt)))
  }

  /** The cursor row after a sequence of attempts. */
  function After(row: Option<CursorRow>, ticks: seq<Tick>): Option<CursorRow> {
    if ticks == [] then row
    else NextRow(After(row, ticks[..|ticks| - 1]), ticks[|ticks| - 1])
  }

  // ---- A run over all steps and sources --------------------------------------------------------

  /** An entity name or a source key; the empty source key stands for the global scope. */
  datatype Label = Label(text: string)

  datatype Key = Key(entity: Label, sourceKey: Label)

  datatype Scope = Global | PerSource

  /** What `sources()` yields: it may not be declared, and it may throw. */
  datatype Sources = Undeclared | Throws | Keys(keys: seq<Label>)

  /** What `enabled(settings)` answers; it may throw too. */
  datatype Enabled = Yes | No | Failing

  datatype Step = Step(entity: Label, scope: Scope, enabled: Enabled, sources: Sources)

  /** The source keys of one step; none when they cannot be listed. */
  function SourceKeys(step: Step): Option<seq<Label>> {
    if step.scope == Global then Some([Label("")])
    else match step.sources
         case Undeclared => None
         case Throws => None
         case Keys(keys) => Some(keys)
  }

  predicate Fatal(step: Step) {
    step.enabled.Failing? || (step.enabled.Yes? && step.scope == PerSource && step.sources.Throws?)
  }

  function KeysOf(step: Step): seq<Key> {
    if !step.enabled.Yes? || SourceKeys(step).None? then []
    else
      var keys := SourceKeys(step).value;
      seq(|keys|, i requires 0 <= i < |keys| => Key(step.entity, keys[i]))
  }

  /** The step-sources of a run in the order they are tried; a throwing `enabled()` or `sources()` ends the run. */
  function Plan(steps: seq<Step>): seq<Key> {
    if steps == [] || Fatal(steps[0]) then []
    else KeysOf(steps[0]) + Plan(steps[1..])
  }

  predicate Aborts(steps: seq<Step>) {
    exists i :: 0 <= i < |steps| && Fatal(steps[i])
  }

  type Cursors = map<Key, CursorRow>

  function Get(cursors: Cursors, key: Key): Option<CursorRow> {
    if key in cursors then Some(cursors[key]) else None
  }

  function Put(cursors: Cursors, key: Key, row: Option<CursorRow>): Cursors {
    if row.Some? then cursors[key := row.value] else cursors - {key}
  }

  /** One attempt at one step-source. */
  datatype Job = Job(key: Key, tick: Tick)

  function Jobs(keys: seq<Key>, ticks: seq<Tick>): (jobs: seq<Job>)
    requires |keys| == |ticks|
    ensures |jobs| == |keys|
  {
    seq(|keys|, i requires 0 <= i < |keys| => Job(keys[i], ticks[i]))
  }

  const MOVE: (Cursors, Job) -> Cursors :=
    (cursors: Cursors, job: Job) => Put(cursors, job.key, NextRow(Get(cursors, job.key), job.tick))

  const REPORT: (Cursors, Job) -> StepSummary :=
    (cursors: Cursors, job: Job) => Summary(job.key, Decide(Get(cursors, job.key), job.tick), job.tick)

  /** The state after the jobs, done one after another. */
  function Fold<S, J>(move: (S, J) -> S, s: S, jobs: seq<J>): S {
    if jobs == [] then s else move(Fold(move, s, jobs[..|jobs| - 1]), jobs[|jobs| - 1])
  }

  /** One report per job, each on the state as the job found it. */
  function Reports<S, J, R>(move: (S, J) -> S, report: (S, J) -> R, s: S, jobs: seq<J>): (out: seq<R>)
    ensures |out| == |jobs|
  {
    if jobs == [] then []
    else
      var before := jobs[..|jobs| - 1];
      Reports(move, report, s, before) + [report(Fold(move, s, before), jobs[|jobs| - 1])]
  }

  lemma OneMore<S, J, R>(move: (S, J) -> S, report: (S, J) -> R, s: S, jobs: seq<J>, job: J)
    ensures var before := Fold(move, s, jobs);
            && Fold(move, s, jobs + [job]) == move(before, job)
            && Reports(move, report, s, jobs + [job]) == Reports(move, report, s, jobs) + [report(before, job)]
  {
    assert (jobs + [job])[..|jobs|] == jobs;
  }

  datatype StepSummary = StepSummary(
    key: Key, items: int, rejected: int, errors: nat, advanced: bool, skippedBackoff: bool)

  function Summary(key: Key, verdict: Verdict, tick: Tick): StepSummary {
    if verdict == Skipped then StepSummary(key, 0, 0, 0, false, true)
    else
      var errors := tick.run.Errors() + if BlockedByRejects(tick) then 1 else 0;
      StepSummary(key, tick.run.Items(), tick.run.rejected, errors, verdict.Advanced?, false)
  }

  function ErrorCount(summaries: seq<StepSummary>): nat {
    if summaries == [] then 0 else ErrorCount(summaries[..|summaries| - 1]) + summaries[|summaries| - 1].errors
  }

  /** A step whose sources cannot be listed counts as one error of the run. */
  function Misconfigured(steps: seq<Step>): nat {
    if steps == [] then 0
    else
      var last := steps[|steps| - 1];
      Misconfigured(steps[..|steps| - 1]) + if last.enabled.Yes? && SourceKeys(last).None? then 1 else 0
  }

  datatype RunStatus = RunOk | Partial | Failed

  /** The stored cursors of one installation, and the run that moves them. */
  class Engine {
    var cursors: Cursors

    constructor (cursors: Cursors)
      ensures this.cursors == cursors
    {
      this.cursors := cursors;
    }

    /** `runOneSource`. */
    method RunOneSource(key: Key, tick: Tick) returns (summary: StepSummary)
      modifies this
      ensures cursors == MOVE(old(cursors), Job(key, tick))
      ensures summary == REPORT(old(cursors), Job(key, tick))
    {
      var cursor := Get(cursors, key);
      assert Put(cursors, key, cursor) == cursors;
      var failures := Failures(cursor);
      if InBackoff(cursor, tick.checkedAt, tick.opts) {
        return StepSummary(key, 0, 0, 0, false, true);
      }
      var blocked := BlockedByRejects(tick);
      var advanced := tick.run.Errors() == 0 && tick.run.Bound().Some? && !blocked;
      var errors := tick.run.Errors();
      if blocked {
        errors := errors + 1;
      }
      if advanced {
        var to := tick.run.Bound().value;
        var clamped := if to > tick.startedAt then tick.startedAt else to;
        cursors := cursors[key := CursorRow(Some(clamped), Ok, tick.run.Items(), 0, At(tick.finishedAt))];
      } else if errors > 0 {
        cursors := cursors[key := CursorRow(LastSynced(cursor), Error, tick.run.Items(), failures + 1,
                                            At(tick.finishedAt))];
      }
      summary := StepSummary(key, tick.run.Items(), tick.run.rejected, errors, advanced, false);
    }

    /** The loop over the sources of one step, which pushes onto the summaries of the run. */
    method RunSources(
        keys: seq<Key>, ticks: seq<Tick>, earlier: seq<StepSummary>, ghost start: Cursors, ghost done: seq<Job>)
      returns (summaries: seq<StepSummary>)
      requires |keys| == |ticks|
      requires cursors == Fold(MOVE, start, done) && earlier == Reports(MOVE, REPORT, start, done)
      modifies this
      ensures cursors == Fold(MOVE, start, done + Jobs(keys, ticks))
      ensures summaries == Reports(MOVE, REPORT, start, done + Jobs(keys, ticks))
    {
      summaries := earlier;
      ghost var jobs := Jobs(keys, ticks);
      assert done + jobs[..0] == done;
      for k := 0 to |keys|
        invariant cursors == Fold(MOVE, start, done + jobs[..k])
        invariant summaries == Reports(MOVE, REPORT, start, done + jobs[..k])
      {
        JobOneMore(start, done, jobs, k);
        var summary := RunOneSource(keys[k], ticks[k]);
        summaries := summaries + [summary];
      }
      assert jobs[..|keys|] == jobs;
    }

    /** `runIntegrationSync`: the ticks are the attempts in the order they are made. */
    method RunIntegrationSync(steps: seq<Step>, ticks: seq<Tick>)
      returns (status: RunStatus, summaries: seq<StepSummary>)
      requires |ticks| == |Plan(steps)|
      modifies this
      ensures cursors == Fold(MOVE, old(cursors), Jobs(Plan(steps), ticks))
      ensures summaries == Reports(MOVE, REPORT, old(cursors), Jobs(Plan(steps), ticks))
      ensures status == Failed <==> Aborts(steps)
      ensures status == RunOk <==> !Aborts(steps) && ErrorCount(summaries) + Misconfigured(steps) == 0
    {
      summaries := [];
      var misconfigured := 0;
      var left := ticks;
      ghost var done: seq<Job> := [];
      for i := 0 to |steps|
        invariant |left| == |Plan(steps[i..])|
        invariant Jobs(Plan(steps), ticks) == done + Jobs(Plan(steps[i..]), left)
        invariant cursors == Fold(MOVE, old(cursors), done)
        invariant summaries == Reports(MOVE, REPORT, old(cursors), done)
        invariant forall j :: 0 <= j < i ==> !Fatal(steps[j])
        invariant misconfigured == Misconfigured(steps[..i])
      {
        var step := steps[i];
        assert steps[i..][1..] == steps[i + 1..] && steps[..i + 1][..i] == steps[..i];
        if Fatal(step) {
          assert Jobs(Plan(steps[i..]), left) == [] && done + [] == done;
          return Failed, summaries;
        }
        if step.enabled.Yes? && SourceKeys(step).None? {
          misconfigured := misconfigured + 1;
        }
        var keys := KeysOf(step);
        var now, later := left[..|keys|], left[|keys|..];
        PlanStep(steps, i, left, done);
        summaries := RunSources(keys, now, summaries, old(cursors), done);
        done, left := done + Jobs(keys, now), later;
      }
      assert Jobs([], left) == [] && done + [] == done && steps[..|steps|] == steps;
      status := if ErrorCount(summaries) + misconfigured > 0 then Partial else RunOk;
    }
  }

  lemma JobOneMore(start: Cursors, done: seq<Job>, jobs: seq<Job>, k: nat)
    requires k < |jobs|
    ensures var now := Fold(MOVE, start, done + jobs[..k]);
            && Fold(MOVE, start, done + jobs[..k + 1]) == MOVE(now, jobs[k])
            && Reports(MOVE, REPORT, start, done + jobs[..k + 1]) ==
               Reports(MOVE, REPORT, start, done + jobs[..k]) + [REPORT(now, jobs[k])]
  {
    assert done + jobs[..k + 1] == (done + jobs[..k]) + [jobs[k]];
    OneMore(MOVE, REPORT, start, done + jobs[..k], jobs[k]);
  }

  /** The jobs of the remaining steps are those of the next step, then the rest. */
  lemma PlanStep(steps: seq<Step>, i: nat, ticks: seq<Tick>, done: seq<Job>)
    requires i < |steps| && |ticks| == |Plan(steps[i..])| && !Fatal(steps[i])
    ensures var keys := KeysOf(steps[i]);
            && |keys| <= |ticks| && |ticks| - |keys| == |Plan(steps[i + 1..])|
            && done + Jobs(Plan(steps[i..]), ticks) ==
               (done + Jobs(keys, ticks[..|keys|])) + Jobs(Plan(steps[i + 1..]), ticks[|keys|..])
  {
    assert steps[i..][1..] == steps[i + 1..];
  }

  // ---- Each cursor sees only its own attempts ----------------------------------------------------

  /** The attempts made at one step-source, in order. */
  function Attempts(jobs: seq<Job>, key: Key): seq<Tick> {
    if jobs == [] then []
    else
      var before := Attempts(jobs[..|jobs| - 1], key);
      var last := jobs[|jobs| - 1];
      if last.key == key then before + [last.tick] else before
  }

  /**
   * Over any number of runs, the row of a cursor is what its own attempts alone make of it: what
   * happens to the other entities and sources has no effect on it.
   */
  lemma {:induction false} CursorsAreIndependent(cursors: Cursors, jobs: seq<Job>, key: Key)
    ensures Get(Fold(MOVE, cursors, jobs), key) == After(Get(cursors, key), Attempts(jobs, key))
  {
    if jobs != [] {
      var n := |jobs| - 1;
      CursorsAreIndependent(cursors, jobs[..n], key);
      var before := Attempts(jobs[..n], key);
      assert (before + [jobs[n].tick])[..|before|] == before;
    }
  }
}
