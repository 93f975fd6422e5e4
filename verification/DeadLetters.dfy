/**
 * The dead-letter budget of a sync run (src/sync/engine.ts, `recordRejects`): reports of rejected
 * items are written concurrently, and each write suspends its loop. The budget is taken before a
 * write is awaited, so no interleaving can exceed it.
 */
module DeadLetters {
  const CAP := 500

  /** A report being written: how many of its items come after the write in flight. */
  datatype Writer = Writing(left: nat) | Stopped

  datatype State = State(remaining: nat, issued: nat, writers: seq<Writer>)

  /** A push reports rejected items; a write succeeds; a write fails, which ends its report. */
  datatype Event = Report(items: nat) | Stored(writer: nat) | StoreFailed(writer: nat)

  predicate Enabled(s: State, e: Event) {
    match e
    case Report(_) => true
    case Stored(w) => w < |s.writers| && s.writers[w].Writing?
    case StoreFailed(w) => w < |s.writers| && s.writers[w].Writing?
  }

  /** The loop up to its next write: it stops for want of items or of budget. */
  function Resume(s: State, items: nat): (State, Writer) {
    if items == 0 || s.remaining == 0 then (s, Stopped)
    else (s.(remaining := s.remaining - 1, issued := s.issued + 1), Writing(items - 1))
  }

  function Apply(s: State, e: Event): State
    requires Enabled(s, e)
  {
    match e
    case Report(items) =>
      var (next, writer) := Resume(s, items);
      next.(writers := s.writers + [writer])
    case Stored(w) =>
      var (next, writer) := Resume(s, s.writers[w].left);
      next.(writers := s.writers[w := writer])
    case StoreFailed(w) =>
      s.(writers := s.writers[w := Stopped])
  }

  const START := State(CAP, 0, [])

  ghost predicate IsRun(events: seq<Event>)
    decreases |events|, 0
  {
    events == [] || (IsRun(events[..|events| - 1]) && Enabled(Reached(events[..|events| - 1]), events[|events| - 1]))
  }

  ghost function Reached(events: seq<Event>): State
    requires IsRun(events)
    decreases |events|, 1
  {
    if events == [] then START
    else Apply(Reached(events[..|events| - 1]), events[|events| - 1])
  }

  function Reported(events: seq<Event>): nat {
    if events == [] then 0
    else
      Reported(events[..|events| - 1]) +
      match events[|events| - 1]
      case Report(items) => items
      case _ => 0
  }

  function Left(writers: seq<Writer>): nat {
    if writers == [] then 0
    else
      Left(writers[..|writers| - 1]) +
      match writers[|writers| - 1]
      case Writing(left) => left
      case Stopped => 0
  }

  ghost predicate Quiet(s: State) {
    forall w :: 0 <= w < |s.writers| ==> s.writers[w].Stopped?
  }

  /** Under every interleaving, and whatever the store does, at most 500 writes are issued. */
  lemma {:induction false} NeverOverBudget(events: seq<Event>)
    requires IsRun(events)
    ensures Reached(events).issued <= 500 && Reached(events).remaining + Reached(events).issued == 500
    ensures Reached(events).issued <= Reported(events)
  {
    WritesAreCounted(events);
  }

  lemma {:induction false} LeftUpdate(writers: seq<Writer>, w: nat, writer: Writer)
    requires w < |writers|
    ensures Left(writers[w := writer]) ==
            Left(writers) - (if writers[w].Writing? then writers[w].left else 0) +
            (if writer.Writing? then writer.left else 0)
  {
    var n := |writers| - 1;
    var updated := writers[w := writer];
    if w < n {
      assert updated[..n] == writers[..n][w := writer];
      LeftUpdate(writers[..n], w, writer);
    } else {
      assert updated[..n] == writers[..n];
    }
  }

  lemma {:induction false} WritesAreCounted(events: seq<Event>)
    requires IsRun(events)
    ensures var s := Reached(events);
            && s.remaining + s.issued == CAP
            && s.issued + Left(s.writers) <= Reported(events)
            && ((forall i :: 0 <= i < |events| ==> !events[i].StoreFailed?) && s.remaining > 0 ==>
                  s.issued + Left(s.writers) == Reported(events))
  {
    if events != [] {
      var init, e := events[..|events| - 1], events[|events| - 1];
      WritesAreCounted(init);
      var s := Reached(init);
      match e {
        case Report(items) =>
          assert Reached(events).writers[..|s.writers|] == s.writers;
        case Stored(w) =>
          LeftUpdate(s.writers, w, Resume(s, s.writers[w].left).1);
        case StoreFailed(w) =>
          LeftUpdate(s.writers, w, Stopped);
          assert events[|events| - 1].StoreFailed?;
      }
    }
  }

  lemma {:induction false} QuietHasNothingLeft(writers: seq<Writer>)
    requires forall w :: 0 <= w < |writers| ==> writers[w].Stopped?
    ensures Left(writers) == 0
  {
    if writers != [] {
      QuietHasNothingLeft(writers[..|writers| - 1]);
    }
  }

  /** If no write fails, exactly min(500, reported) items are recorded once the writers are done. */
  lemma RecordsAllThatFit(events: seq<Event>)
    requires IsRun(events) && Quiet(Reached(events))
    requires forall i :: 0 <= i < |events| ==> !events[i].StoreFailed?
    ensures Reached(events).issued == if Reported(events) <= 500 then Reported(events) else 500
  {
    WritesAreCounted(events);
    QuietHasNothingLeft(Reached(events).writers);
  }

  /** A report whose write failed, or that is through, issues nothing more, whatever the others do. */
  lemma {:induction false} StoppedStaysStopped(events: seq<Event>, more: seq<Event>, w: nat)
    requires IsRun(events + more) && IsRun(events)
    requires w < |Reached(events).writers| && Reached(events).writers[w].Stopped?
    ensures w < |Reached(events + more).writers| && Reached(events + more).writers[w].Stopped?
    decreases |more|
  {
    if more == [] {
      assert events + more == events;
    } else {
      var n := |more| - 1;
      assert (events + more)[..|events + more| - 1] == events + more[..n];
      StoppedStaysStopped(events, more[..n], w);
    }
  }

  /** A failed write stops its own report and no other, and gives nothing back to the budget. */
  lemma FailureStopsItsReport(s: State, w: nat)
    requires Enabled(s, StoreFailed(w))
    ensures var after := Apply(s, StoreFailed(w));
            && after.writers == s.writers[w := Stopped]
            && after.remaining == s.remaining && after.issued == s.issued
  {
  }

  /** A report can come at any time, and starts writing if it has an item and the budget something left. */
  lemma ReportsAreTaken(s: State, items: nat)
    ensures Enabled(s, Report(items))
    ensures var after := Apply(s, Report(items));
            if items > 0 && s.remaining > 0 then
              after == State(s.remaining - 1, s.issued + 1, s.writers + [Writing(items - 1)])
            else
              after == s.(writers := s.writers + [Stopped])
  {
  }

  /** A write in flight ends well or in failure, and no other can. */
  lemma WritesInFlightEnd(s: State, w: nat)
    ensures Enabled(s, Stored(w)) <==> w < |s.writers| && s.writers[w].Writing?
    ensures Enabled(s, StoreFailed(w)) <==> w < |s.writers| && s.writers[w].Writing?
  {
  }
}
