/**
 * The rules of the sync engine (src/sync/engine.ts) as its documentation puts them: when an attempt is
 * skipped, advances or is held, where its window starts, what it writes, and which sources a run tries.
 */
module SyncRules {
  import opened Wrappers
  import opened SyncEngine

  // ---- Advance, hold, skip -------------------------------------------------------------------------

  /** The attempt ended without an error and with a bound. */
  predicate CleanWithBound(tick: Tick) {
    tick.run.Returned? && tick.run.errors == 0 && tick.run.advanceTo.Some?
  }

  /** What is rejected stays within the policy: none under `Strict`, at most the ratio of all attempted. */
  predicate WithinPolicy(policy: Policy, rejected: nat, items: int) {
    || rejected == 0
    || policy.Always?
    || (policy.MaxRatio? && (items + rejected <= 0 || rejected as real <= policy.ratio * (items + rejected) as real))
  }

  lemma RatioAsProduct(a: real, b: real, r: real)
    requires b > 0.0
    ensures a / b <= r <==> a <= r * b
  {
    assert a / b * b == a;
    if a / b <= r {
      LessTimes(a / b, r, b);
    }
    if a <= r * b {
      LessTimes(r, a / b, b);
    }
  }

  lemma LessTimes(x: real, y: real, b: real)
    requires b > 0.0
    ensures x <= y ==> x * b <= y * b
    ensures x < y ==> x * b < y * b
  {
    if x < y {
      assert (y - x) * b > 0.0;
    }
  }

  /**
   * An attempt that is not skipped advances if and only if it ended clean with a bound and what was
   * rejected stays within the step's policy. It moves to its bound, or to its start if that is earlier.
   */
  lemma AdvancesExactlyWhen(row: Option<CursorRow>, tick: Tick)
    requires !Decide(row, tick).Skipped?
    ensures Decide(row, tick).Advanced? <==>
            CleanWithBound(tick) && WithinPolicy(tick.policy, tick.run.rejected, tick.run.Items())
    ensures Decide(row, tick).Advanced? ==>
              var bound := tick.run.advanceTo.value;
              Decide(row, tick).to == if bound <= tick.startedAt then bound else tick.startedAt
  {
    if tick.policy.MaxRatio? && tick.run.Items() + tick.run.rejected > 0 {
      RatioAsProduct(tick.run.rejected as real, (tick.run.Items() + tick.run.rejected) as real, tick.policy.ratio);
    }
  }

  /** A strict step never advances over a reject: it is held, and the failure counted. */
  lemma StrictHoldsOnRejects(row: Option<CursorRow>, tick: Tick)
    requires tick.policy == Strict && tick.run.rejected > 0 && !Decide(row, tick).Skipped?
    ensures Decide(row, tick).Held?
    ensures NextRow(row, tick).Some? && LastSynced(NextRow(row, tick)) == LastSynced(row)
    ensures Failures(NextRow(row, tick)) == Failures(row) + 1
  {
  }

  /** Under a ratio, with something attempted, rejects hold an otherwise clean attempt exactly above it. */
  lemma RatioHoldsExactlyAbove(row: Option<CursorRow>, tick: Tick)
    requires tick.policy.MaxRatio? && CleanWithBound(tick) && !Decide(row, tick).Skipped?
    requires tick.run.items + tick.run.rejected > 0
    ensures Decide(row, tick).Advanced? <==>
            tick.run.rejected == 0 ||
            tick.run.rejected as real <= tick.policy.ratio * (tick.run.items + tick.run.rejected) as real
    ensures !Decide(row, tick).Advanced? ==> Decide(row, tick).Held?
  {
    AdvancesExactlyWhen(row, tick);
  }

  /**
   * Of the others, an attempt that threw, reported errors or was rejected more than its policy allows is
   * held; a clean one without a bound is idle.
   */
  lemma HeldExactlyWhen(row: Option<CursorRow>, tick: Tick)
    requires !Decide(row, tick).Skipped?
    ensures Decide(row, tick).Held? <==>
            || tick.run.Threw? || tick.run.errors > 0
            || !WithinPolicy(tick.policy, tick.run.rejected, tick.run.Items())
  {
    AdvancesExactlyWhen(row, tick);
    if tick.policy.MaxRatio? && tick.run.Items() + tick.run.rejected > 0 {
      RatioAsProduct(tick.run.rejected as real, (tick.run.Items() + tick.run.rejected) as real, tick.policy.ratio);
    }
  }

  /** The wait after k failures: 2^(k-1) minutes, at most 24 hours. */
  function Wait(k: nat): nat
    requires k > 0
  {
    if 60_000 * Pow2(k - 1) < 86_400_000 then 60_000 * Pow2(k - 1) else 86_400_000
  }

  lemma Waits()
    ensures Wait(1) == 60_000 && Wait(2) == 120_000 && Wait(3) == 240_000
    ensures Wait(11) == 61_440_000 && Wait(12) == 86_400_000
  {
    assert Pow2(5) == 32;
    assert Pow2(10) == 1024;
    assert Pow2(11) == 2048;
  }

  /**
   * After a failure recorded at `failed.finishedAt` the next incremental attempt is skipped if and only
   * if it is made before the wait is over; a full one never is.
   */
  lemma SkippedExactlyWhileWaiting(row: Option<CursorRow>, failed: Tick, next: Tick)
    requires Decide(row, failed).Held?
    ensures var after := NextRow(row, failed);
            Decide(after, next).Skipped? <==>
            !next.opts.full && next.checkedAt < failed.finishedAt + Wait(Failures(row) + 1)
  {
  }

  /** Full attempts, and attempts at a cursor without failures, are always made. */
  lemma NeverSkipped(row: Option<CursorRow>, tick: Tick)
    requires tick.opts.full || row.None? || row.value.consecutiveFailures == 0
    ensures !Decide(row, tick).Skipped?
  {
  }

  /**
   * Whatever row is found, an incremental attempt is skipped exactly if the row counts failures and its
   * stamp plus the wait lies ahead; without a stamp it never is, and one that cannot be read counts as the
   * epoch itself.
   */
  lemma SkippedExactlyWhen(row: CursorRow, tick: Tick)
    requires !tick.opts.full && row.consecutiveFailures > 0
    ensures Decide(Some(row), tick).Skipped? <==>
            || (row.updatedAt.At? && tick.checkedAt < row.updatedAt.ms + Wait(row.consecutiveFailures))
            || (row.updatedAt == Unreadable && tick.checkedAt < 0)
  {
  }

  /** No failures, no wait; otherwise the wait that was defined. */
  lemma BackoffIsTheWait(failures: int)
    ensures BackoffWindow(failures) == if failures > 0 then Wait(failures) else 0
  {
  }

  // ---- Windows and rows ----------------------------------------------------------------------------

  /**
   * A full window starts where the backfill does, whatever the cursor; so does the first one; any other
   * starts at the cursor, less a positive overlap. Every window ends when the attempt starts.
   */
  lemma WindowStarts(cursor: Option<int>, now: int, opts: Options)
    ensures ComputeWindow(cursor, now, opts).until == now
    ensures opts.full || cursor.None? ==> ComputeWindow(cursor, now, opts).since == opts.backfillStart(now)
    ensures !opts.full && cursor.Some? && opts.overlap >= 0 ==>
              ComputeWindow(cursor, now, opts).since + opts.overlap == cursor.value
    ensures !opts.full && cursor.Some? && opts.overlap < 0 ==>
              ComputeWindow(cursor, now, opts).since == cursor.value
  {
  }

  predicate Writes(row: Option<CursorRow>, ticks: seq<Tick>, i: nat)
    requires i < |ticks|
  {
    var v := Decide(After(row, ticks[..i]), ticks[i]);
    v.Advanced? || v.Held?
  }

  /**
   * The row tells of the last attempt that wrote it: its items, none if it threw, its end, and whether
   * it advanced.
   */
  lemma {:induction false} RowIsOfTheLastWrite(row: Option<CursorRow>, ticks: seq<Tick>, i: nat)
    requires i < |ticks| && Writes(row, ticks, i) && forall j: nat :: i < j < |ticks| ==> !Writes(row, ticks, j)
    ensures var last := After(row, ticks);
            && last.Some?
            && last.value.items == (if ticks[i].run.Threw? then 0 else ticks[i].run.items)
            && last.value.updatedAt == At(ticks[i].finishedAt)
            && (last.value.lastStatus == Ok <==> Decide(After(row, ticks[..i]), ticks[i]).Advanced?)
  {
    var n: nat := |ticks| - 1;
    var init := ticks[..n];
    if i < n {
      forall j: nat | j < n ensures Writes(row, init, j) == Writes(row, ticks, j) {
        assert init[..j] == ticks[..j];
      }
      assert init[..i] == ticks[..i];
      RowIsOfTheLastWrite(row, init, i);
      assert !Writes(row, ticks, n);
    }
  }

  // ---- Which sources a run tries -------------------------------------------------------------------

  /** Asking the step throws: its `enabled()`, or the `sources()` it is asked for. */
  predicate AskingThrows(step: Step) {
    step.enabled == Failing || (step.enabled == Yes && step.scope == PerSource && step.sources == Throws)
  }

  /** The source is one of the step's: the empty key of a global step, or one that `sources()` lists. */
  predicate IsSourceOf(step: Step, key: Key) {
    && step.enabled == Yes && key.entity == step.entity
    && match step.scope
       case Global => key.sourceKey == Label("")
       case PerSource => step.sources.Keys? && key.sourceKey in step.sources.keys
  }

  /** A run tries exactly the sources of the enabled steps before the first one that throws when asked. */
  lemma {:induction false} TriedExactly(steps: seq<Step>, key: Key)
    ensures key in Plan(steps) <==>
            exists i :: 0 <= i < |steps| && IsSourceOf(steps[i], key) &&
                        forall j :: 0 <= j <= i ==> !AskingThrows(steps[j])
  {
    if steps != [] {
      StepKeys(steps[0], key);
      TriedExactly(steps[1..], key);
      if AskingThrows(steps[0]) {
      } else if key in KeysOf(steps[0]) {
        assert IsSourceOf(steps[0], key);
      } else {
        TriedLater(steps, key);
      }
    }
  }

  lemma StepKeys(step: Step, key: Key)
    ensures Fatal(step) <==> AskingThrows(step)
    ensures key in KeysOf(step) <==> IsSourceOf(step, key)
  {
    if IsSourceOf(step, key) && step.scope == PerSource {
      var k :| 0 <= k < |step.sources.keys| && step.sources.keys[k] == key.sourceKey;
      assert KeysOf(step)[k] == key;
    } else if IsSourceOf(step, key) {
      assert KeysOf(step)[0] == key;
    }
  }

  predicate TriedAt(steps: seq<Step>, key: Key, i: int)
    requires 0 <= i < |steps|
  {
    IsSourceOf(steps[i], key) && forall j :: 0 <= j <= i ==> !AskingThrows(steps[j])
  }

  lemma TriedLater(steps: seq<Step>, key: Key)
    requires steps != [] && !AskingThrows(steps[0]) && !IsSourceOf(steps[0], key)
    ensures (exists i :: 0 <= i < |steps[1..]| && TriedAt(steps[1..], key, i)) <==>
            (exists i :: 0 <= i < |steps| && TriedAt(steps, key, i))
  {
    var rest := steps[1..];
    assert forall j :: 0 <= j < |rest| ==> rest[j] == steps[j + 1];
    if i :| 0 <= i < |rest| && TriedAt(rest, key, i) {
      forall j | 0 <= j <= i + 1 ensures !AskingThrows(steps[j]) {
        assert j > 0 ==> !AskingThrows(rest[j - 1]);
      }
      assert TriedAt(steps, key, i + 1);
    } else if i :| 0 <= i < |steps| && TriedAt(steps, key, i) {
      assert i > 0;
      assert TriedAt(rest, key, i - 1);
    }
  }

  /** Steps are tried in their order, and the sources of a step in the order it lists them. */
  lemma {:induction false} TriedInOrder(before: seq<Step>, step: Step, after: seq<Step>)
    requires forall i :: 0 <= i < |before| ==> !AskingThrows(before[i])
    ensures Plan(before + [step] + after) == Plan(before) + Plan([step] + after)
    ensures step.enabled == Yes && step.scope == PerSource && step.sources.Keys? ==>
              && |Plan([step])| == |step.sources.keys|
              && forall k :: 0 <= k < |step.sources.keys| ==> Plan([step])[k].sourceKey == step.sources.keys[k]
  {
    if before == [] {
      assert before + [step] + after == [step] + after;
      assert [step][1..] == [];
    } else {
      assert !AskingThrows(before[0]) && before[1..] + [step] + after == (before + [step] + after)[1..];
      TriedInOrder(before[1..], step, after);
    }
  }

  /** A run fails if and only if asking some step throws. */
  lemma FailsExactlyWhenAskingThrows(steps: seq<Step>)
    ensures Aborts(steps) <==> exists i :: 0 <= i < |steps| && AskingThrows(steps[i])
  {
    assert forall i :: 0 <= i < |steps| ==> (Fatal(steps[i]) <==> AskingThrows(steps[i]));
  }

  /** Otherwise the errors that come from no attempt are those of enabled per-source steps without `sources`. */
  lemma {:induction false} MisconfiguredExactly(steps: seq<Step>)
    requires forall i :: 0 <= i < |steps| ==> !AskingThrows(steps[i])
    ensures Misconfigured(steps) ==
            |set i | 0 <= i < |steps| && steps[i].enabled == Yes && steps[i].scope == PerSource &&
                     steps[i].sources == Undeclared|
  {
    var bad := set i | 0 <= i < |steps| && steps[i].enabled == Yes && steps[i].scope == PerSource &&
                       steps[i].sources == Undeclared;
    if steps == [] {
      assert bad == {};
    } else {
      var n := |steps| - 1;
      var init := steps[..n];
      MisconfiguredExactly(init);
      var were := set i | 0 <= i < |init| && init[i].enabled == Yes && init[i].scope == PerSource &&
                          init[i].sources == Undeclared;
      assert !AskingThrows(steps[n]);
      assert bad == were + if steps[n].enabled == Yes && steps[n].scope == PerSource && steps[n].sources == Undeclared
                           then {n} else {};
    }
  }

  // ---- What a summary says -------------------------------------------------------------------------

  /**
   * A skipped source is reported with nothing done. Any other with its items and rejects; its errors are
   * those of the step, or one for a throw, and one more if rejects exceed the policy; and it is reported
   * as advanced exactly when its cursor row then stands without failures at the verdict's bound.
   */
  lemma SummaryTells(cursors: Cursors, job: Job)
    ensures var s, row, tick := REPORT(cursors, job), Get(cursors, job.key), job.tick;
            && s.key == job.key
            && (s.skippedBackoff <==> Decide(row, tick).Skipped?)
            && (s.advanced <==> Decide(row, tick).Advanced?)
            && (s.skippedBackoff ==> s.items == 0 && s.rejected == 0 && s.errors == 0)
            && (!s.skippedBackoff ==>
                  && s.items == (if tick.run.Threw? then 0 else tick.run.items)
                  && s.rejected == tick.run.rejected
                  && s.errors == (if tick.run.Threw? then 1 else tick.run.errors) +
                                 (if WithinPolicy(tick.policy, tick.run.rejected, s.items) then 0 else 1))
  {
    var tick := job.tick;
    if tick.policy.MaxRatio? && tick.run.Items() + tick.run.rejected > 0 {
      RatioAsProduct(tick.run.rejected as real, (tick.run.Items() + tick.run.rejected) as real, tick.policy.ratio);
    }
  }
}
