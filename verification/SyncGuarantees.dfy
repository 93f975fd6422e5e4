/**
 * What the sync engine guarantees over any sequence of attempts at one cursor: nothing at or before
 * the cursor is lost, the failure counter counts, and the backoff spaces the failures out.
 */
module SyncGuarantees {
  import opened Wrappers
  import opened SyncEngine

  // ---- Attempts in their history ----------------------------------------------------------------

  function RowBefore(ticks: seq<Tick>, i: nat): Option<CursorRow>
    requires i <= |ticks|
  {
    After(None, ticks[..i])
  }

  function VerdictAt(ticks: seq<Tick>, i: nat): Verdict
    requires i < |ticks|
  {
    Decide(RowBefore(ticks, i), ticks[i])
  }

  function WindowAt(ticks: seq<Tick>, i: nat): Window
    requires i < |ticks|
  {
    ComputeWindow(LastSynced(RowBefore(ticks, i)), ticks[i].startedAt, ticks[i].opts)
  }

  lemma PrefixAgrees(ticks: seq<Tick>, n: nat)
    requires n <= |ticks|
    ensures forall i :: 0 <= i <= n ==> RowBefore(ticks[..n], i) == RowBefore(ticks, i)
    ensures forall i :: 0 <= i < n ==> VerdictAt(ticks[..n], i) == VerdictAt(ticks, i)
    ensures forall i :: 0 <= i < n ==> WindowAt(ticks[..n], i) == WindowAt(ticks, i)
  {
    forall i | 0 <= i <= n ensures ticks[..n][..i] == ticks[..i] {
    }
  }

  // ---- Sources, steps and what is accounted for --------------------------------------------------

  /** Every event shows up within `lag` of happening. */
  ghost predicate Lagging(source: set<Event>, lag: nat) {
    forall e :: e in source ==> e.visibleAt <= e.at + lag
  }

  /**
   * A step that returns clean with a bound has dealt with every event of its window, up to the
   * bound, that was visible when it started; what the API refused went through the reject sink.
   */
  ghost predicate Honest(source: set<Event>, w: Window, run: StepRun) {
    && (run.refused != {} ==> run.rejected > 0)
    && (run.Errors() == 0 && run.Bound().Some? ==>
          forall e ::
            e in source && w.since <= e.at <= run.Bound().value && e.at <= w.until && e.visibleAt <= w.until ==>
              e in run.pushed || e in run.refused)
  }

  ghost predicate HonestAt(source: set<Event>, ticks: seq<Tick>, i: nat)
    requires i < |ticks|
  {
    VerdictAt(ticks, i).Skipped? || Honest(source, WindowAt(ticks, i), ticks[i].run)
  }

  /** Every step that was run was honest. */
  ghost predicate HonestRun(source: set<Event>, ticks: seq<Tick>) {
    forall i: nat :: i < |ticks| ==> HonestAt(source, ticks, i)
  }

  /** The event was pushed, or was a reject that a run tolerated when it advanced. */
  ghost predicate AccountedFor(ticks: seq<Tick>, e: Event) {
    exists k :: 0 <= k < |ticks| && DealtWithAt(ticks, k, e)
  }

  ghost predicate DealtWithAt(ticks: seq<Tick>, k: nat, e: Event)
    requires k < |ticks|
  {
    && !VerdictAt(ticks, k).Skipped?
    && (e in ticks[k].run.pushed ||
        (e in ticks[k].run.refused && VerdictAt(ticks, k).Advanced? &&
         RejectsTolerated(ticks[k].policy, ticks[k].run.rejected, ticks[k].run.Items())))
  }

  predicate AdvancesAt(ticks: seq<Tick>, i: nat) {
    i < |ticks| && VerdictAt(ticks, i).Advanced?
  }

  /** The cursor an advance leaves. */
  function CursorAt(ticks: seq<Tick>, i: nat): int
    requires AdvancesAt(ticks, i)
  {
    VerdictAt(ticks, i).to
  }

  ghost predicate FirstAdvance(ticks: seq<Tick>, i: nat) {
    AdvancesAt(ticks, i) && forall j: nat :: j < i ==> !AdvancesAt(ticks, j)
  }

  ghost predicate LastAdvance(ticks: seq<Tick>, i: nat) {
    AdvancesAt(ticks, i) && forall j: nat :: i < j ==> !AdvancesAt(ticks, j)
  }

  lemma PrefixLastAdvance(ticks: seq<Tick>, n: nat, b: nat)
    requires b < n <= |ticks| && AdvancesAt(ticks, b) && forall j: nat :: b < j < n ==> !AdvancesAt(ticks, j)
    ensures LastAdvance(ticks[..n], b)
    ensures CursorAt(ticks[..n], b) == CursorAt(ticks, b)
  {
    PrefixAgrees(ticks, n);
    forall j: nat | b < j ensures !AdvancesAt(ticks[..n], j) {
      assert j < n ==> !AdvancesAt(ticks, j);
    }
  }

  /** The cursor is the bound of the last advance, and never past the start of that attempt. */
  lemma {:induction false} CursorIsLastAdvance(ticks: seq<Tick>, last: nat)
    requires LastAdvance(ticks, last)
    ensures LastSynced(After(None, ticks)) == Some(CursorAt(ticks, last))
    ensures CursorAt(ticks, last) <= ticks[last].startedAt
  {
    var n: nat := |ticks| - 1;
    if last < n {
      assert !AdvancesAt(ticks, n);
      PrefixLastAdvance(ticks, n, last);
      CursorIsLastAdvance(ticks[..n], last);
    }
  }

  // ---- Which instants are kept --------------------------------------------------------------------

  function Min(a: int, b: int): int {
    if a <= b then a else b
  }

  /** The advance read the instant, late enough to see what became visible by `v`. */
  predicate Covers(ticks: seq<Tick>, i: nat, t: int, v: int) {
    && AdvancesAt(ticks, i)
    && WindowAt(ticks, i).since <= t <= CursorAt(ticks, i)
    && v <= ticks[i].startedAt
  }

  /** Some advance read the instant after the last event that happened then had become visible. */
  ghost predicate Covered(ticks: seq<Tick>, t: int, asOf: int, lag: nat) {
    CoveredBy(ticks, t, Min(t + lag, asOf))
  }

  ghost predicate CoveredBy(ticks: seq<Tick>, t: int, v: int) {
    exists i: nat :: Covers(ticks, i, t, v)
  }

  lemma CoveredIsAccountedFor(source: set<Event>, lag: nat, ticks: seq<Tick>, e: Event, asOf: int)
    requires Lagging(source, lag) && HonestRun(source, ticks)
    requires e in source && e.visibleAt <= asOf && Covered(ticks, e.at, asOf, lag)
    ensures AccountedFor(ticks, e)
  {
    var i: nat :| Covers(ticks, i, e.at, Min(e.at + lag, asOf));
    assert HonestAt(source, ticks, i);
    assert DealtWithAt(ticks, i, e);
  }

  /** What an attempt pushed and what the API refused of it. */
  datatype Pushes = Pushes(pushed: set<Event>, refused: set<Event>)

  function WithPushes(run: StepRun, p: Pushes): StepRun {
    match run
    case Threw(_, _, rejected) => Threw(p.pushed, p.refused, rejected)
    case Returned(_, _, rejected, items, errors, to) => Returned(p.pushed, p.refused, rejected, items, errors, to)
  }

  /** The same attempts, with other events pushed and refused. */
  function Replayed(ticks: seq<Tick>, how: seq<Pushes>): (r: seq<Tick>)
    requires |how| == |ticks|
    ensures |r| == |ticks|
    ensures forall i :: 0 <= i < |ticks| ==> r[i] == ticks[i].(run := WithPushes(ticks[i].run, how[i]))
  {
    seq(|ticks|, i requires 0 <= i < |ticks| => ticks[i].(run := WithPushes(ticks[i].run, how[i])))
  }

  /** The engine decides without looking at the events. */
  lemma {:induction false} ReplayedAlike(ticks: seq<Tick>, how: seq<Pushes>, i: nat)
    requires |how| == |ticks| && i <= |ticks|
    ensures RowBefore(Replayed(ticks, how), i) == RowBefore(ticks, i)
    ensures i < |ticks| ==> VerdictAt(Replayed(ticks, how), i) == VerdictAt(ticks, i)
    ensures i < |ticks| ==> WindowAt(Replayed(ticks, how), i) == WindowAt(ticks, i)
  {
    if i > 0 {
      ReplayedAlike(ticks, how, i - 1);
      assert ticks[..i][..i - 1] == ticks[..i - 1];
      assert Replayed(ticks, how)[..i][..i - 1] == Replayed(ticks, how)[..i - 1];
    }
  }

  /**
   * Whatever the source with this lag and whatever the honest steps pushed, an event of the instant
   * that was visible by `asOf` is accounted for.
   */
  ghost predicate AlwaysKept(ticks: seq<Tick>, t: int, asOf: int, lag: nat) {
    forall source: set<Event>, how: seq<Pushes>, e: Event ::
      |how| == |ticks| && Lagging(source, lag) && HonestRun(source, Replayed(ticks, how)) &&
      e in source && e.at == t && e.visibleAt <= asOf ==>
        AccountedFor(Replayed(ticks, how), e)
  }

  lemma CoveredIsKept(ticks: seq<Tick>, t: int, asOf: int, lag: nat)
    requires Covered(ticks, t, asOf, lag)
    ensures AlwaysKept(ticks, t, asOf, lag)
  {
    forall source: set<Event>, how: seq<Pushes>, e: Event |
      |how| == |ticks| && Lagging(source, lag) && HonestRun(source, Replayed(ticks, how)) &&
      e in source && e.at == t && e.visibleAt <= asOf
      ensures AccountedFor(Replayed(ticks, how), e)
    {
      var i: nat :| Covers(ticks, i, t, Min(t + lag, asOf));
      ReplayedAlike(ticks, how, i);
      assert Covers(Replayed(ticks, how), i, t, Min(t + lag, asOf));
      CoveredIsAccountedFor(source, lag, Replayed(ticks, how), e, asOf);
    }
  }

  /** Nothing is pushed, and the event is refused wherever rejects hold the cursor back anyway. */
  function Withheld(ticks: seq<Tick>, e: Event): (how: seq<Pushes>)
    ensures |how| == |ticks|
    ensures forall i :: 0 <= i < |ticks| ==> how[i] == Pushes({}, if BlockedByRejects(ticks[i]) then {e} else {})
  {
    seq(|ticks|, i requires 0 <= i < |ticks| => Pushes({}, if BlockedByRejects(ticks[i]) then {e} else {}))
  }

  lemma UncoveredCanBeLost(ticks: seq<Tick>, t: int, asOf: int, lag: nat)
    requires !Covered(ticks, t, asOf, lag)
    ensures !AlwaysKept(ticks, t, asOf, lag)
  {
    var late := Event(0, t, Min(t + lag, asOf));
    var how := Withheld(ticks, late);
    var other := Replayed(ticks, how);
    forall i: nat | i < |ticks| ensures HonestAt({late}, other, i) && !DealtWithAt(other, i, late) {
      ReplayedAlike(ticks, how, i);
      assert !Covers(ticks, i, t, late.visibleAt);
    }
    assert Lagging({late}, lag) && HonestRun({late}, other) && !AccountedFor(other, late);
  }

  /**
   * Exactly which instants are safe: those that some advance read after all their events had become
   * visible. A clean attempt that rejects hold back does not count, for the API may have refused the
   * event; nor does one that failed or returned no bound.
   */
  lemma KeptExactlyWhenCovered(ticks: seq<Tick>, t: int, asOf: int, lag: nat)
    ensures AlwaysKept(ticks, t, asOf, lag) <==> Covered(ticks, t, asOf, lag)
  {
    if Covered(ticks, t, asOf, lag) {
      CoveredIsKept(ticks, t, asOf, lag);
    } else {
      UncoveredCanBeLost(ticks, t, asOf, lag);
    }
  }

  // ---- When an advance is safe -------------------------------------------------------------------

  /** The last instant an advance to `to` leaves unread. */
  function Edge(w: Window, to: int): int {
    Min(w.since - 1, to)
  }

  /**
   * The last unread instant is out of the promise, or an earlier advance, from `from` on, had reached
   * it and started late enough to see all that has become visible since.
   */
  ghost predicate SafeAt(ticks: seq<Tick>, from: nat, i: nat, floor: int, lag: nat)
    requires AdvancesAt(ticks, i)
  {
    var edge := Edge(WindowAt(ticks, i), CursorAt(ticks, i));
    edge < floor || ReachedEarlier(ticks, from, i, edge, Min(edge + lag, ticks[i].startedAt))
  }

  ghost predicate ReachedEarlier(ticks: seq<Tick>, from: nat, i: nat, t: int, v: int) {
    exists b: nat :: from <= b < i && Reaches(ticks, b, t, v)
  }

  predicate Reaches(ticks: seq<Tick>, b: nat, t: int, v: int) {
    AdvancesAt(ticks, b) && t <= CursorAt(ticks, b) && v <= ticks[b].startedAt
  }

  /** Every advance from `from` on is safe. */
  ghost predicate AllSafe(ticks: seq<Tick>, from: nat, floor: int, lag: nat) {
    forall i: nat :: from <= i && AdvancesAt(ticks, i) ==> SafeAt(ticks, from, i, floor, lag)
  }

  lemma {:induction false} SafeAdvancesCover(ticks: seq<Tick>, from: nat, i: nat, floor: int, lag: nat, t: int)
    returns (j: nat)
    requires AdvancesAt(ticks, from) && WindowAt(ticks, from).since <= floor
    requires AllSafe(ticks, from, floor, lag)
    requires from <= i && AdvancesAt(ticks, i) && floor <= t <= CursorAt(ticks, i)
    ensures j <= i && Covers(ticks, j, t, Min(t + lag, ticks[i].startedAt))
    decreases i
  {
    if WindowAt(ticks, i).since <= t {
      j := i;
    } else {
      var edge := Edge(WindowAt(ticks, i), CursorAt(ticks, i));
      assert SafeAt(ticks, from, i, floor, lag);
      var b: nat :| from <= b < i && Reaches(ticks, b, edge, Min(edge + lag, ticks[i].startedAt));
      j := SafeAdvancesCover(ticks, from, b, floor, lag, t);
    }
  }

  /**
   * After any sequence of attempts -- failed, held, skipped, clean -- every event at or before the
   * cursor that was visible at the last advance, and not older than the window of some advance from
   * which on all were safe, was pushed or was a tolerated reject.
   */
  lemma NoLoss(source: set<Event>, lag: nat, ticks: seq<Tick>, from: nat, last: nat, e: Event)
    requires Lagging(source, lag) && HonestRun(source, ticks)
    requires AdvancesAt(ticks, from) && from <= last && LastAdvance(ticks, last)
    requires AllSafe(ticks, from, WindowAt(ticks, from).since, lag)
    requires e in source && WindowAt(ticks, from).since <= e.at <= CursorAt(ticks, last)
    requires e.visibleAt <= ticks[last].startedAt
    ensures AccountedFor(ticks, e)
  {
    var j := SafeAdvancesCover(ticks, from, last, WindowAt(ticks, from).since, lag, e.at);
    CoveredIsAccountedFor(source, lag, ticks, e, ticks[last].startedAt);
  }

  /** The same for any cursor of an installation, whatever else the runs did in between. */
  lemma NoLossForEveryCursor(
      source: set<Event>, lag: nat, jobs: seq<Job>, key: Key, from: nat, last: nat, e: Event)
    requires var ticks := Attempts(jobs, key);
             && Lagging(source, lag) && HonestRun(source, ticks)
             && AdvancesAt(ticks, from) && from <= last && LastAdvance(ticks, last)
             && AllSafe(ticks, from, WindowAt(ticks, from).since, lag)
             && e.visibleAt <= ticks[last].startedAt
    requires LastSynced(Get(Fold(MOVE, map[], jobs), key)).Some?
    requires e in source
    requires WindowAt(Attempts(jobs, key), from).since <= e.at <= LastSynced(Get(Fold(MOVE, map[], jobs), key)).value
    ensures AccountedFor(Attempts(jobs, key), e)
  {
    CursorsAreIndependent(map[], jobs, key);
    CursorIsLastAdvance(Attempts(jobs, key), last);
    NoLoss(source, lag, Attempts(jobs, key), from, last, e);
  }

  /** Right after the i-th attempt, nothing from the floor up to its cursor can have been lost. */
  ghost predicate CompleteAfter(ticks: seq<Tick>, i: nat, floor: int, lag: nat)
    requires AdvancesAt(ticks, i)
  {
    KeptFrom(ticks[..i + 1], floor, CursorAt(ticks, i), ticks[i].startedAt, lag)
  }

  ghost predicate KeptFrom(ticks: seq<Tick>, floor: int, to: int, asOf: int, lag: nat) {
    forall t :: floor <= t <= to ==> AlwaysKept(ticks, t, asOf, lag)
  }

  /**
   * No advance of a sequence of attempts can have lost anything since the first one's window, whatever
   * the source and the pushes, if and only if every advance is safe.
   */
  lemma CompleteExactlyWhenSafe(ticks: seq<Tick>, first: nat, lag: nat)
    requires FirstAdvance(ticks, first)
    ensures var floor := WindowAt(ticks, first).since;
            (forall i: nat :: AdvancesAt(ticks, i) ==> CompleteAfter(ticks, i, floor, lag)) <==>
            AllSafe(ticks, first, floor, lag)
  {
    var floor := WindowAt(ticks, first).since;
    if AllSafe(ticks, first, floor, lag) {
      forall i: nat | AdvancesAt(ticks, i) ensures CompleteAfter(ticks, i, floor, lag) {
        SafeIsComplete(ticks, first, i, floor, lag);
      }
    } else {
      var i: nat :| first <= i && AdvancesAt(ticks, i) && !SafeAt(ticks, first, i, floor, lag);
      UnsafeIsIncomplete(ticks, first, i, floor, lag);
    }
  }

  lemma PrefixCovers(ticks: seq<Tick>, n: nat, i: nat, t: int, v: int)
    requires i < n <= |ticks|
    ensures Covers(ticks[..n], i, t, v) <==> Covers(ticks, i, t, v)
  {
    PrefixAgrees(ticks, n);
  }

  lemma SafeIsComplete(ticks: seq<Tick>, first: nat, i: nat, floor: int, lag: nat)
    requires FirstAdvance(ticks, first) && WindowAt(ticks, first).since <= floor
    requires AllSafe(ticks, first, floor, lag) && AdvancesAt(ticks, i)
    ensures CompleteAfter(ticks, i, floor, lag)
  {
    var done, asOf := ticks[..i + 1], ticks[i].startedAt;
    forall t | floor <= t <= CursorAt(ticks, i) ensures AlwaysKept(done, t, asOf, lag) {
      assert i >= first;
      var j := SafeAdvancesCover(ticks, first, i, floor, lag, t);
      PrefixCovers(ticks, i + 1, j, t, Min(t + lag, asOf));
      CoveredIsKept(done, t, asOf, lag);
    }
  }

  lemma UnsafeIsIncomplete(ticks: seq<Tick>, first: nat, i: nat, floor: int, lag: nat)
    requires FirstAdvance(ticks, first) && AdvancesAt(ticks, i) && !SafeAt(ticks, first, i, floor, lag)
    ensures !CompleteAfter(ticks, i, floor, lag)
  {
    var edge := Edge(WindowAt(ticks, i), CursorAt(ticks, i));
    var v := Min(edge + lag, ticks[i].startedAt);
    var done := ticks[..i + 1];
    forall b: nat ensures !Covers(done, b, edge, v) {
      if b <= i {
        PrefixCovers(ticks, i + 1, b, edge, v);
        assert AdvancesAt(ticks, b) ==> first <= b;
        assert first <= b < i ==> !Reaches(ticks, b, edge, v);
      }
    }
    UncoveredCanBeLost(done, edge, ticks[i].startedAt, lag);
  }

  // ---- Conditions on one advance and the one before it -------------------------------------------

  ghost predicate Consecutive(ticks: seq<Tick>, b: nat, i: nat) {
    b < i && AdvancesAt(ticks, b) && AdvancesAt(ticks, i) && forall j: nat :: b < j < i ==> !AdvancesAt(ticks, j)
  }

  /** The unread edge of a window, judged by the cursor and the start of the advance before. */
  predicate WindowIsSafe(floor: int, cursor: int, asOf: int, w: Window, to: int, lag: nat) {
    Edge(w, to) < floor || (Edge(w, to) <= cursor && Min(Edge(w, to) + lag, w.until) <= asOf)
  }

  ghost predicate PairsAreSafe(ticks: seq<Tick>, from: nat, floor: int, lag: nat) {
    forall b: nat, i: nat :: from <= b && Consecutive(ticks, b, i) ==>
      WindowIsSafe(floor, CursorAt(ticks, b), ticks[b].startedAt, WindowAt(ticks, i), CursorAt(ticks, i), lag)
  }

  lemma {:induction false} AdvanceBefore(ticks: seq<Tick>, from: nat, i: nat, n: nat) returns (b: nat)
    requires AdvancesAt(ticks, from) && AdvancesAt(ticks, i) && from < n <= i
    requires forall j: nat :: n <= j < i ==> !AdvancesAt(ticks, j)
    ensures from <= b && Consecutive(ticks, b, i)
  {
    if AdvancesAt(ticks, n - 1) {
      b := n - 1;
    } else {
      b := AdvanceBefore(ticks, from, i, n - 1);
    }
  }

  /** It is enough that each advance is safe against the one just before it. */
  lemma SafePairsAreEnough(ticks: seq<Tick>, from: nat, floor: int, lag: nat)
    requires AdvancesAt(ticks, from) && WindowAt(ticks, from).since <= floor && PairsAreSafe(ticks, from, floor, lag)
    ensures AllSafe(ticks, from, floor, lag)
  {
    forall i: nat | from <= i && AdvancesAt(ticks, i) ensures SafeAt(ticks, from, i, floor, lag) {
      if i > from {
        var b := AdvanceBefore(ticks, from, i, i);
        SafeAgainst(ticks, from, b, i, floor, lag);
      }
    }
  }

  lemma SafeAgainst(ticks: seq<Tick>, from: nat, b: nat, i: nat, floor: int, lag: nat)
    requires from <= b < i && AdvancesAt(ticks, b) && AdvancesAt(ticks, i)
    requires WindowIsSafe(
               floor, CursorAt(ticks, b), ticks[b].startedAt, WindowAt(ticks, i), CursorAt(ticks, i), lag)
    ensures SafeAt(ticks, from, i, floor, lag)
  {
    var edge := Edge(WindowAt(ticks, i), CursorAt(ticks, i));
    assert edge < floor || Reaches(ticks, b, edge, Min(edge + lag, ticks[i].startedAt));
  }

  /**
   * With a clock and cursors that do not go back, that is also necessary: an advance loses nothing if
   * and only if its window is safe against the cursor it found.
   */
  lemma PairsAreSafeExactlyWhenComplete(ticks: seq<Tick>, first: nat, lag: nat)
    requires FirstAdvance(ticks, first) && Forward(ticks)
    ensures var floor := WindowAt(ticks, first).since;
            (forall i: nat :: AdvancesAt(ticks, i) ==> CompleteAfter(ticks, i, floor, lag)) <==>
            PairsAreSafe(ticks, first, floor, lag)
  {
    var floor := WindowAt(ticks, first).since;
    CompleteExactlyWhenSafe(ticks, first, lag);
    if PairsAreSafe(ticks, first, floor, lag) {
      SafePairsAreEnough(ticks, first, floor, lag);
    } else if AllSafe(ticks, first, floor, lag) {
      forall b: nat, i: nat | first <= b && Consecutive(ticks, b, i)
        ensures WindowIsSafe(floor, CursorAt(ticks, b), ticks[b].startedAt, WindowAt(ticks, i), CursorAt(ticks, i), lag)
      {
        SafePair(ticks, first, b, i, floor, lag);
      }
    }
  }

  ghost predicate Forward(ticks: seq<Tick>) {
    forall b: nat, i: nat :: b <= i ==> InOrder(ticks, b, i)
  }

  predicate InOrder(ticks: seq<Tick>, b: nat, i: nat) {
    AdvancesAt(ticks, b) && AdvancesAt(ticks, i) ==>
      ticks[b].startedAt <= ticks[i].startedAt && CursorAt(ticks, b) <= CursorAt(ticks, i)
  }

  lemma SafePair(ticks: seq<Tick>, first: nat, b: nat, i: nat, floor: int, lag: nat)
    requires Forward(ticks) && Consecutive(ticks, b, i) && SafeAt(ticks, first, i, floor, lag)
    ensures WindowIsSafe(floor, CursorAt(ticks, b), ticks[b].startedAt, WindowAt(ticks, i), CursorAt(ticks, i), lag)
  {
    var edge := Edge(WindowAt(ticks, i), CursorAt(ticks, i));
    if edge >= floor {
      var c: nat :| first <= c < i && Reaches(ticks, c, edge, Min(edge + lag, ticks[i].startedAt));
      assert c <= b && InOrder(ticks, c, b);
    }
  }

  /** Reading back by the lag is always enough. */
  lemma ReadingBackIsSafe(floor: int, cursor: int, asOf: int, w: Window, to: int, lag: nat)
    requires cursor <= asOf && w.since <= cursor - lag
    ensures WindowIsSafe(floor, cursor, asOf, w, to, lag)
  {
  }

  /** So is a bound that stays the lag behind the clock, without any reading back. */
  lemma BoundBehindTheClockIsSafe(floor: int, cursor: int, asOf: int, w: Window, to: int, lag: nat)
    requires cursor + lag <= asOf && w.since <= cursor
    ensures WindowIsSafe(floor, cursor, asOf, w, to, lag)
  {
  }

  /** An attempt that advances reads back at least `lag` before the cursor it found. */
  ghost predicate ReadsBack(ticks: seq<Tick>, i: nat, lag: nat)
    requires i < |ticks|
  {
    var last := LastSynced(RowBefore(ticks, i));
    VerdictAt(ticks, i).Advanced? && last.Some? ==> WindowAt(ticks, i).since <= last.value - lag
  }

  /** An incremental attempt reads back far enough exactly when the overlap covers the lag. */
  lemma IncrementalReadsBack(ticks: seq<Tick>, i: nat, lag: nat)
    requires i < |ticks| && !ticks[i].opts.full && LastSynced(RowBefore(ticks, i)).Some?
    requires VerdictAt(ticks, i).Advanced?
    ensures ReadsBack(ticks, i, lag) <==> lag <= ticks[i].opts.overlap || lag == 0
  {
  }

  /** If every attempt reads back by the lag, every advance is safe. */
  lemma ReadingBackSuffices(ticks: seq<Tick>, from: nat, lag: nat)
    requires AdvancesAt(ticks, from)
    requires forall i :: 0 <= i < |ticks| ==> ReadsBack(ticks, i, lag)
    ensures AllSafe(ticks, from, WindowAt(ticks, from).since, lag)
  {
    var floor := WindowAt(ticks, from).since;
    forall b: nat, i: nat | from <= b && Consecutive(ticks, b, i)
      ensures WindowIsSafe(floor, CursorAt(ticks, b), ticks[b].startedAt, WindowAt(ticks, i), CursorAt(ticks, i), lag)
    {
      PrefixLastAdvance(ticks, i, b);
      CursorIsLastAdvance(ticks[..i], b);
      assert ReadsBack(ticks, i, lag);
    }
    SafePairsAreEnough(ticks, from, floor, lag);
  }

  const FIRST_TO_100 := Tick(100, 100, 100, Strict, Options(false, 0, now => 0), Returned({}, {}, 0, 0, 0, Some(100)))
  const FULL_FROM_100 :=
    Tick(200, 200, 200, Strict, Options(true, 0, now => 100), Returned({}, {}, 0, 0, 0, Some(200)))

  /**
   * A full run that starts on the cursor itself can lose an event that shows up late: here one of
   * instant 99, visible from 101 on, between a first advance to 100 and a full run over [100, 200].
   */
  lemma StartingAtTheCursorIsNotEnough()
    ensures var ticks, e := [FIRST_TO_100, FULL_FROM_100], Event(1, 99, 101);
            && Lagging({e}, 2) && HonestRun({e}, ticks)
            && LastSynced(RowBefore(ticks, 1)) == Some(100) && WindowAt(ticks, 1) == Window(100, 200)
            && FirstAdvance(ticks, 0) && LastAdvance(ticks, 1) && LastSynced(After(None, ticks)) == Some(200)
            && !AccountedFor(ticks, e)
  {
    var ticks, e := [FIRST_TO_100, FULL_FROM_100], Event(1, 99, 101);
    assert ticks[..0] == [] && ticks[..1] == [FIRST_TO_100] && ticks[..2] == ticks && [FIRST_TO_100][..0] == [];
    assert After(None, [FIRST_TO_100]) == Some(CursorRow(Some(100), Ok, 0, 0, At(100)));
    assert VerdictAt(ticks, 0) == Advanced(100) && VerdictAt(ticks, 1) == Advanced(200);
    assert HonestAt({e}, ticks, 0) && HonestAt({e}, ticks, 1);
    assert !DealtWithAt(ticks, 0, e) && !DealtWithAt(ticks, 1, e);
  }

  // ---- The first backfill ------------------------------------------------------------------------

  /**
   * An instant at or before the cursor is kept, once all advances after one that reached back to it are
   * safe, if and only if some advance did reach back to it.
   */
  lemma KeptExactlyWhenReached(ticks: seq<Tick>, last: nat, t: int, lag: nat)
    requires LastAdvance(ticks, last) && t <= CursorAt(ticks, last)
    requires forall k: nat :: AdvancesAt(ticks, k) && WindowAt(ticks, k).since <= t ==> AllSafe(ticks, k, t, lag)
    ensures AlwaysKept(ticks, t, ticks[last].startedAt, lag) <==>
            exists k: nat :: AdvancesAt(ticks, k) && WindowAt(ticks, k).since <= t
  {
    KeptExactlyWhenCovered(ticks, t, ticks[last].startedAt, lag);
    if k: nat :| AdvancesAt(ticks, k) && WindowAt(ticks, k).since <= t {
      var j := SafeAdvancesCover(ticks, k, last, t, lag, t);
    }
  }

  /** Up to the first advance every window is a backfill window. */
  lemma {:induction false} BackfillUntilFirstAdvance(ticks: seq<Tick>, first: nat, i: nat)
    requires FirstAdvance(ticks, first) && i <= first
    ensures LastSynced(RowBefore(ticks, i)).None?
    ensures WindowAt(ticks, i).since == ticks[i].opts.backfillStart(ticks[i].startedAt)
  {
    if i > 0 {
      BackfillUntilFirstAdvance(ticks, first, i - 1);
      assert !AdvancesAt(ticks, i - 1);
      assert ticks[..i][..i - 1] == ticks[..i - 1];
    }
  }

  /**
   * The start of the very first window survives until the first advance if and only if the backfill
   * start has not moved past it meanwhile. With a fixed number of days it moves with the clock, so a
   * first backfill that fails is not replayed from where it began.
   */
  lemma FirstStartSurvivesExactlyWhen(ticks: seq<Tick>, first: nat, lag: nat)
    requires FirstAdvance(ticks, first) && WindowAt(ticks, 0).since <= CursorAt(ticks, first)
    ensures AlwaysKept(ticks[..first + 1], WindowAt(ticks, 0).since, ticks[first].startedAt, lag) <==>
            ticks[first].opts.backfillStart(ticks[first].startedAt) <=
            ticks[0].opts.backfillStart(ticks[0].startedAt)
  {
    var t, asOf := WindowAt(ticks, 0).since, ticks[first].startedAt;
    BackfillUntilFirstAdvance(ticks, first, 0);
    BackfillUntilFirstAdvance(ticks, first, first);
    KeptExactlyWhenCovered(ticks[..first + 1], t, asOf, lag);
    var done, v := ticks[..first + 1], Min(t + lag, asOf);
    forall i: nat ensures Covers(done, i, t, v) <==> i == first && WindowAt(ticks, first).since <= t {
      if i <= first {
        PrefixCovers(ticks, first + 1, i, t, v);
      }
    }
    assert Covered(done, t, asOf, lag) <==> Covers(done, first, t, v);
  }

  const SLIDING := Options(false, 0, now => now - 5)
  const FAILED_FIRST := Tick(10, 10, 10, Strict, SLIDING, Threw({}, {}, 0))
  const CLEAN_SECOND := Tick(100_000, 100_000, 100_000, Strict, SLIDING, Returned({}, {}, 0, 0, 0, Some(100_000)))

  /** Such a loss: an event of the failed first window lies before the cursor and was never dealt with. */
  lemma FailedFirstBackfillSlides()
    ensures var ticks, e := [FAILED_FIRST, CLEAN_SECOND], Event(1, 6, 6);
            && HonestRun({e}, ticks) && Lagging({e}, 0)
            && WindowAt(ticks, 0) == Window(5, 10)
            && FirstAdvance(ticks, 1) && LastAdvance(ticks, 1)
            && LastSynced(After(None, ticks)) == Some(100_000)
            && !AccountedFor(ticks, e)
  {
    var ticks, e := [FAILED_FIRST, CLEAN_SECOND], Event(1, 6, 6);
    assert ticks[..0] == [] && ticks[..1] == [FAILED_FIRST] && ticks[..2] == ticks;
    assert [FAILED_FIRST][..0] == [];
    assert After(None, [FAILED_FIRST]) == Some(CursorRow(None, Error, 0, 1, At(10)));
    assert BackoffWindow(1) == MINUTE;
    assert VerdictAt(ticks, 0) == Held && VerdictAt(ticks, 1) == Advanced(100_000);
    assert HonestAt({e}, ticks, 0) && HonestAt({e}, ticks, 1);
    assert !DealtWithAt(ticks, 0, e) && !DealtWithAt(ticks, 1, e);
  }

  // ---- The failure counter -----------------------------------------------------------------------

  /** The failed or held attempts after the last advance. */
  ghost function HeldSinceAdvance(ticks: seq<Tick>): set<int> {
    set i |
      0 <= i < |ticks| && VerdictAt(ticks, i).Held? && forall j :: i < j < |ticks| ==> !VerdictAt(ticks, j).Advanced?
  }

  /** The counter is their number, and the row reads 'ok' exactly when there are none. */
  lemma {:induction false} CounterCountsHeldSinceAdvance(ticks: seq<Tick>)
    ensures Failures(After(None, ticks)) == |HeldSinceAdvance(ticks)|
    ensures After(None, ticks).Some? ==>
              (After(None, ticks).value.lastStatus == Ok <==> HeldSinceAdvance(ticks) == {})
  {
    if ticks != [] {
      var n := |ticks| - 1;
      var init := ticks[..n];
      CounterCountsHeldSinceAdvance(init);
      HeldOneMore(ticks);
      assert RowBefore(ticks, n) == After(None, init);
    }
  }

  lemma HeldMembers(ticks: seq<Tick>, i: int)
    requires ticks != []
    ensures var n := |ticks| - 1;
            i in HeldSinceAdvance(ticks) <==>
            !VerdictAt(ticks, n).Advanced? &&
            (i in HeldSinceAdvance(ticks[..n]) || (i == n && VerdictAt(ticks, n).Held?))
  {
    var n := |ticks| - 1;
    PrefixAgrees(ticks, n);
    if i in HeldSinceAdvance(ticks[..n]) && !VerdictAt(ticks, n).Advanced? {
      assert forall j :: i < j < |ticks| ==> !VerdictAt(ticks, j).Advanced?;
    }
  }

  lemma HeldOneMore(ticks: seq<Tick>)
    requires ticks != []
    ensures var n := |ticks| - 1;
            var before, after := HeldSinceAdvance(ticks[..n]), HeldSinceAdvance(ticks);
            match VerdictAt(ticks, n)
            case Advanced(_) => after == {}
            case Held => after == before + {n} && |after| == |before| + 1
            case _ => after == before
  {
    var n := |ticks| - 1;
    var before, after := HeldSinceAdvance(ticks[..n]), HeldSinceAdvance(ticks);
    forall i ensures i in after <==>
                     !VerdictAt(ticks, n).Advanced? && (i in before || (i == n && VerdictAt(ticks, n).Held?)) {
      HeldMembers(ticks, i);
    }
    assert n !in before;
    if VerdictAt(ticks, n).Held? {
      assert after == before + {n};
    }
  }

  /**
   * Over any attempts none of which advances, the cursor stays where it was; if none is held back
   * either, the whole row does, however many were skipped or ended clean without a bound.
   */
  lemma {:induction false} OnlyAdvancesMoveTheCursor(row: Option<CursorRow>, ticks: seq<Tick>)
    requires forall i: nat :: i < |ticks| ==> !DecideAt(row, ticks, i).Advanced?
    ensures LastSynced(After(row, ticks)) == LastSynced(row)
    ensures Failures(After(row, ticks)) >= Failures(row)
    ensures if forall i: nat :: i < |ticks| ==> !DecideAt(row, ticks, i).Held? then After(row, ticks) == row
            else Failures(After(row, ticks)) > Failures(row)
  {
    if ticks != [] {
      var n: nat := |ticks| - 1;
      var init := ticks[..n];
      forall i: nat | i < n ensures DecideAt(row, init, i) == DecideAt(row, ticks, i) {
        assert init[..i] == ticks[..i];
      }
      OnlyAdvancesMoveTheCursor(row, init);
      assert DecideAt(row, ticks, n) == Decide(After(row, init), ticks[n]);
      if forall i: nat :: i < n ==> !DecideAt(row, init, i).Held? {
        assert forall i: nat :: i < n ==> !DecideAt(row, ticks, i).Held?;
      } else {
        var i: nat :| i < n && DecideAt(row, init, i).Held?;
        assert DecideAt(row, ticks, i).Held?;
      }
    }
  }

  // ---- The backoff -------------------------------------------------------------------------------

  lemma {:induction false} Pow2Grows(m: nat, n: nat)
    requires m <= n
    ensures Pow2(m) <= Pow2(n)
    decreases n - m
  {
    if m < n {
      Pow2Grows(m + 1, n);
    }
  }

  lemma Pow2Eleven()
    ensures Pow2(10) == 1024 && Pow2(11) == 2048
  {
    assert Pow2(5) == 32;
    assert Pow2(8) == 256;
  }

  /** The least time that n failures in a row can span. */
  function Span(n: nat): int
    requires n >= 1
  {
    if n <= 12 then (Pow2(n - 1) - 1) * MINUTE else (Pow2(11) - 1) * MINUTE + (n - 12) * DAY
  }

  /** The waits between consecutive failures add up to the span. */
  lemma SpanStep(n: nat)
    requires n >= 1
    ensures Span(n + 1) == Span(n) + BackoffWindow(n)
  {
    Pow2Eleven();
    if n <= 11 {
      Pow2Grows(n - 1, 10);
    } else {
      Pow2Grows(11, n - 1);
    }
  }

  function DecideAt(row: Option<CursorRow>, ticks: seq<Tick>, i: nat): Verdict
    requires i < |ticks|
  {
    Decide(After(row, ticks[..i]), ticks[i])
  }

  /**
   * From a cursor without failures, n incremental failures in a row -- however many attempts were
   * skipped in between -- span at least 2^(n-1) - 1 minutes for n <= 12, and 24 hours more for
   * each one after that.
   */
  lemma {:induction false} FailuresAreSpacedOut(row: Option<CursorRow>, ticks: seq<Tick>, first: nat)
    requires Failures(row) == 0
    requires forall i :: 0 <= i < |ticks| ==> !ticks[i].opts.full && ticks[i].checkedAt <= ticks[i].finishedAt
    requires forall i :: 0 <= i < |ticks| ==> !DecideAt(row, ticks, i).Advanced?
    requires first < |ticks| && DecideAt(row, ticks, first).Held?
    requires forall i :: 0 <= i < first ==> !DecideAt(row, ticks, i).Held?
    ensures var last := After(row, ticks);
            && Failures(last) >= 1
            && last.value.updatedAt.At?
            && last.value.updatedAt.ms - ticks[first].finishedAt >= Span(Failures(last))
    decreases |ticks|
  {
    var n := |ticks| - 1;
    var init := ticks[..n];
    forall i | 0 <= i < n ensures DecideAt(row, init, i) == DecideAt(row, ticks, i) {
      assert init[..i] == ticks[..i];
    }
    assert DecideAt(row, ticks, n) == Decide(After(row, init), ticks[n]);
    assert After(row, ticks) == NextRow(After(row, init), ticks[n]);
    if first == n {
      NoFailuresYet(row, init);
      assert Pow2(0) == 1;
    } else {
      FailuresAreSpacedOut(row, init, first);
      OneMoreFailure(After(row, init), ticks[n], ticks[first].finishedAt);
    }
  }

  lemma OneMoreFailure(row: Option<CursorRow>, tick: Tick, start: int)
    requires Failures(row) >= 1 && row.value.updatedAt.At?
    requires row.value.updatedAt.ms - start >= Span(Failures(row))
    requires !tick.opts.full && tick.checkedAt <= tick.finishedAt && !Decide(row, tick).Advanced?
    ensures var last := NextRow(row, tick);
            && Failures(last) >= 1
            && last.value.updatedAt.At?
            && last.value.updatedAt.ms - start >= Span(Failures(last))
  {
    SpanStep(Failures(row));
  }

  lemma {:induction false} NoFailuresYet(row: Option<CursorRow>, ticks: seq<Tick>)
    requires Failures(row) == 0
    requires forall i :: 0 <= i < |ticks| ==> !DecideAt(row, ticks, i).Advanced?
    requires forall i :: 0 <= i < |ticks| ==> !DecideAt(row, ticks, i).Held?
    ensures After(row, ticks) == row
  {
    if ticks != [] {
      var init := ticks[..|ticks| - 1];
      forall i | 0 <= i < |init| ensures DecideAt(row, init, i) == DecideAt(row, ticks, i) {
        assert init[..i] == ticks[..i];
      }
      NoFailuresYet(row, init);
      assert DecideAt(row, ticks, |init|) == Decide(After(row, init), ticks[|init|]);
    }
  }

  // ---- The reject policy -------------------------------------------------------------------------

  /** `true` is the ratio 1, as documented: with real counts neither ever holds a cursor. */
  lemma AlwaysIsRatioOne(rejected: int, items: int)
    requires rejected >= 0 && items >= 0
    ensures RejectsTolerated(Always, rejected, items) == RejectsTolerated(MaxRatio(1.0), rejected, items)
  {
    if items + rejected > 0 {
      RatioAtMostOne(rejected as real, (items + rejected) as real);
    }
  }

  lemma RatioAtMostOne(a: real, b: real)
    requires 0.0 <= a <= b && b > 0.0
    ensures a / b <= 1.0
  {
    assert a == (a / b) * b;
    assert (a / b - 1.0) * b <= 0.0;
  }

  // ---- What a run reports ------------------------------------------------------------------------

  function VerdictOf(cursors: Cursors, jobs: seq<Job>, i: nat): Verdict
    requires i < |jobs|
  {
    Decide(Get(Fold(MOVE, cursors, jobs[..i]), jobs[i].key), jobs[i].tick)
  }

  ghost predicate NoneHeld(cursors: Cursors, jobs: seq<Job>) {
    forall i: nat :: i < |jobs| ==> !VerdictOf(cursors, jobs, i).Held?
  }

  /**
   * The summaries of a run hold no error exactly when no cursor was held back, so a run that reports
   * success has raised no failure counter.
   */
  lemma {:induction false} NoErrorExactlyWhenNoneHeld(cursors: Cursors, jobs: seq<Job>)
    ensures ErrorCount(Reports(MOVE, REPORT, cursors, jobs)) == 0 <==> NoneHeld(cursors, jobs)
  {
    if jobs != [] {
      NoErrorExactlyWhenNoneHeld(cursors, jobs[..|jobs| - 1]);
      NoneHeldOneMore(cursors, jobs);
      LastErrors(cursors, jobs);
    }
  }

  lemma EarlierVerdict(cursors: Cursors, jobs: seq<Job>, i: nat)
    requires i < |jobs| - 1
    ensures VerdictOf(cursors, jobs[..|jobs| - 1], i) == VerdictOf(cursors, jobs, i)
  {
    assert jobs[..|jobs| - 1][..i] == jobs[..i];
  }

  lemma NoneHeldOneMore(cursors: Cursors, jobs: seq<Job>)
    requires jobs != []
    ensures NoneHeld(cursors, jobs) <==>
            NoneHeld(cursors, jobs[..|jobs| - 1]) && !VerdictOf(cursors, jobs, |jobs| - 1).Held?
  {
    var init := jobs[..|jobs| - 1];
    forall i: nat | i < |init| ensures VerdictOf(cursors, init, i) == VerdictOf(cursors, jobs, i) {
      EarlierVerdict(cursors, jobs, i);
    }
    if !NoneHeld(cursors, jobs) {
      var i: nat :| i < |jobs| && VerdictOf(cursors, jobs, i).Held?;
      assert i < |init| ==> VerdictOf(cursors, init, i).Held?;
    } else {
      forall i: nat | i < |init| ensures !VerdictOf(cursors, init, i).Held? {
        assert !VerdictOf(cursors, jobs, i).Held?;
      }
    }
  }

  lemma LastErrors(cursors: Cursors, jobs: seq<Job>)
    requires jobs != []
    ensures var n: nat := |jobs| - 1;
            var before := ErrorCount(Reports(MOVE, REPORT, cursors, jobs[..n]));
            ErrorCount(Reports(MOVE, REPORT, cursors, jobs)) == before <==> !VerdictOf(cursors, jobs, n).Held?
    ensures ErrorCount(Reports(MOVE, REPORT, cursors, jobs)) >=
            ErrorCount(Reports(MOVE, REPORT, cursors, jobs[..|jobs| - 1]))
  {
    var n: nat := |jobs| - 1;
    var earlier := Reports(MOVE, REPORT, cursors, jobs[..n]);
    var last := REPORT(Fold(MOVE, cursors, jobs[..n]), jobs[n]);
    assert Reports(MOVE, REPORT, cursors, jobs) == earlier + [last];
    assert (earlier + [last])[..|earlier|] == earlier;
  }
}
