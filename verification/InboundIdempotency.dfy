/**
 * The idempotency protocol of inbound calls (src/lifecycle/inbound.ts) on one key of one
 * installation: look for a finished row, build the context, claim, run the handler, record the
 * outcome. The claim is an insert followed, on conflict, by a read, and every await lets other
 * calls on. Rows are not purged here.
 */
module InboundIdempotency {
  import opened Wrappers

  datatype RowStatus = Received | Done | Failed

  datatype Answer = Completed | Replayed | NoContext | InternalError

  datatype Phase =
    | Finding
    | Building
    | Claiming
    | Looking
    | Executing
    | Finishing(ok: bool)
    | Answered(answer: Answer)

  /** How the handler came to run: on the fresh claim, or as a retry with the failures recorded by then. */
  datatype Admission = Fresh | Retry(failuresBefore: nat)

  datatype State = State(
    row: Option<RowStatus>,
    calls: seq<Phase>,
    admissions: seq<Admission>,
    failures: nat,
    successes: nat)

  datatype Event =
    | Arrive
    | Find(call: nat)
    | Build(call: nat, ok: bool)
    | Insert(call: nat)
    | Look(call: nat)
    | HandlerEnds(call: nat, ok: bool)
    | Finish(call: nat)

  predicate Enabled(s: State, e: Event) {
    match e
    case Arrive => true
    case Find(c) => c < |s.calls| && s.calls[c].Finding?
    case Build(c, _) => c < |s.calls| && s.calls[c].Building?
    case Insert(c) => c < |s.calls| && s.calls[c].Claiming?
    case Look(c) => c < |s.calls| && s.calls[c].Looking? && s.row.Some?
    case HandlerEnds(c, _) => c < |s.calls| && s.calls[c].Executing?
    case Finish(c) => c < |s.calls| && s.calls[c].Finishing?
  }

  function Move(s: State, c: nat, phase: Phase): State
    requires c < |s.calls|
  {
    s.(calls := s.calls[c := phase])
  }

  function Apply(s: State, e: Event): State
    requires Enabled(s, e)
  {
    match e
    case Arrive => s.(calls := s.calls + [Finding])
    case Find(c) => Move(s, c, if s.row == Some(Done) then Answered(Replayed) else Building)
    case Build(c, ok) => Move(s, c, if ok then Claiming else Answered(NoContext))
    case Insert(c) =>
      if s.row.None? then Move(s, c, Executing).(row := Some(Received), admissions := s.admissions + [Fresh])
      else Move(s, c, Looking)
    case Look(c) =>
      if s.row == Some(Failed) then Move(s, c, Executing).(admissions := s.admissions + [Retry(s.failures)])
      else Move(s, c, Answered(Replayed))
    case HandlerEnds(c, ok) => Move(s, c, Finishing(ok))
    case Finish(c) =>
      if s.calls[c].ok then Move(s, c, Answered(Completed)).(row := Some(Done), successes := s.successes + 1)
      else Move(s, c, Answered(InternalError)).(row := Some(Failed), failures := s.failures + 1)
  }

  const START := State(None, [], [], 0, 0)

  ghost predicate IsRun(run: seq<Event>)
    decreases |run|, 0
  {
    run == [] || (IsRun(run[..|run| - 1]) && Enabled(Reached(run[..|run| - 1]), run[|run| - 1]))
  }

  ghost function Reached(run: seq<Event>): State
    requires IsRun(run)
    decreases |run|, 1
  {
    if run == [] then START else Apply(Reached(run[..|run| - 1]), run[|run| - 1])
  }

  /** The handler has been admitted and its outcome is not recorded yet. */
  predicate Active(phase: Phase) {
    phase.Executing? || phase.Finishing?
  }

  function InFlight(calls: seq<Phase>): nat {
    if calls == [] then 0
    else InFlight(calls[..|calls| - 1]) + if Active(calls[|calls| - 1]) then 1 else 0
  }

  lemma {:induction false} InFlightMove(calls: seq<Phase>, c: nat, phase: Phase)
    requires c < |calls|
    ensures InFlight(calls[c := phase]) ==
            InFlight(calls) - (if Active(calls[c]) then 1 else 0) + (if Active(phase) then 1 else 0)
  {
    var n := |calls| - 1;
    if c < n {
      assert calls[c := phase][..n] == calls[..n][c := phase];
      InFlightMove(calls[..n], c, phase);
    } else {
      assert calls[c := phase][..n] == calls[..n];
    }
  }

  // ---- Every interleaving ------------------------------------------------------------------------

  ghost predicate Valid(s: State) {
    && |s.admissions| == s.failures + s.successes + InFlight(s.calls)
    && (s.row.None? <==> s.admissions == [])
    && (forall i :: 0 <= i < |s.admissions| ==> (s.admissions[i].Fresh? <==> i == 0))
    && (forall i :: 0 < i < |s.admissions| ==> 1 <= s.admissions[i].failuresBefore <= s.failures)
    && (s.row == Some(Failed) ==> s.failures >= 1)
    && (s.row == Some(Done) ==> s.successes >= 1)
    && (s.row == Some(Received) ==> s.failures == 0 && s.successes == 0)
    && (s.failures == 0 ==> |s.admissions| <= 1)
    && (forall c :: 0 <= c < |s.calls| && s.calls[c].Looking? ==> s.row.Some?)
  }

  lemma ArriveValid(s: State)
    requires Valid(s)
    ensures Valid(Apply(s, Arrive))
  {
    assert (s.calls + [Finding])[..|s.calls|] == s.calls;
  }

  /** A step up to the read of the row, which may admit the handler. */
  lemma AdmissionValid(s: State, e: Event)
    requires Valid(s) && Enabled(s, e) && (e.Find? || e.Build? || e.Insert? || e.Look?)
    ensures Valid(Apply(s, e))
  {
    InFlightMove(s.calls, e.call, Apply(s, e).calls[e.call]);
  }

  /** A step of an admitted handler, up to the record of its outcome. */
  lemma OutcomeValid(s: State, e: Event)
    requires Valid(s) && Enabled(s, e) && (e.HandlerEnds? || e.Finish?)
    ensures Valid(Apply(s, e))
  {
    InFlightMove(s.calls, e.call, Apply(s, e).calls[e.call]);
  }

  lemma StepValid(s: State, e: Event)
    requires Valid(s) && Enabled(s, e)
    ensures Valid(Apply(s, e))
  {
    if e.Arrive? {
      ArriveValid(s);
    } else if e.HandlerEnds? || e.Finish? {
      OutcomeValid(s, e);
    } else {
      AdmissionValid(s, e);
    }
  }

  lemma {:induction false} RunValid(run: seq<Event>)
    requires IsRun(run)
    ensures Valid(Reached(run))
  {
    if run != [] {
      RunValid(run[..|run| - 1]);
      StepValid(Reached(run[..|run| - 1]), run[|run| - 1]);
    }
  }

  /**
   * Under every interleaving the handler is admitted only by the single fresh claim or after a
   * recorded failure; it runs at most once until the first failure; and executions are exactly the
   * failures, the successes and the handlers still in flight.
   */
  lemma AdmittedOnceOrAfterFailure(run: seq<Event>)
    requires IsRun(run)
    ensures ProperlyAdmitted(Reached(run))
  {
    RunValid(run);
    ValidAdmissions(Reached(run));
  }

  ghost predicate ProperlyAdmitted(s: State) {
    && (forall i :: 0 <= i < |s.admissions| ==>
          if i == 0 then s.admissions[i].Fresh? else s.admissions[i].Retry? && s.admissions[i].failuresBefore >= 1)
    && (s.failures == 0 ==> |s.admissions| <= 1)
    && |s.admissions| == s.failures + s.successes + InFlight(s.calls)
  }

  lemma ValidAdmissions(s: State)
    requires Valid(s)
    ensures ProperlyAdmitted(s)
  {
  }

  // ---- Once done, always done ----------------------------------------------------------------------

  /** The row is 'done' and no handler is in flight. */
  predicate Settled(s: State) {
    s.row == Some(Done) && forall c :: 0 <= c < |s.calls| ==> !Active(s.calls[c])
  }

  ghost predicate IsContinuation(s: State, run: seq<Event>)
    decreases |run|
  {
    run == [] || (Enabled(s, run[0]) && IsContinuation(Apply(s, run[0]), run[1..]))
  }

  ghost function Continued(s: State, run: seq<Event>): State
    requires IsContinuation(s, run)
    decreases |run|
  {
    if run == [] then s else Continued(Apply(s, run[0]), run[1..])
  }

  /** From a settled state no continuation, however many calls it holds, runs the handler again. */
  lemma {:induction false} SettledStaysSettled(s: State, run: seq<Event>)
    requires Settled(s) && IsContinuation(s, run)
    ensures Settled(Continued(s, run)) && Continued(s, run).admissions == s.admissions
    decreases |run|
  {
    if run != [] {
      SettledStaysSettled(Apply(s, run[0]), run[1..]);
    }
  }

  // ---- One call at a time --------------------------------------------------------------------------

  predicate AllAnswered(s: State) {
    forall c :: 0 <= c < |s.calls| ==> s.calls[c].Answered?
  }

  /** A call arrives only when every earlier one has been answered. */
  ghost predicate OneAtATime(run: seq<Event>)
    requires IsRun(run)
  {
    run == [] ||
    (OneAtATime(run[..|run| - 1]) && (run[|run| - 1].Arrive? ==> AllAnswered(Reached(run[..|run| - 1]))))
  }

  /** Only the latest call can be open; while its handler is in flight nothing has succeeded. */
  ghost predicate Sequential(s: State) {
    && (forall c :: 0 <= c < |s.calls| - 1 ==> s.calls[c].Answered?)
    && s.successes <= 1
    && (s.successes == 1 ==> Settled(s))
  }

  lemma {:induction false} SequentialRun(run: seq<Event>)
    requires IsRun(run) && OneAtATime(run)
    ensures Sequential(Reached(run))
  {
    if run != [] {
      SequentialRun(run[..|run| - 1]);
      RunValid(run[..|run| - 1]);
      var s, e := Reached(run[..|run| - 1]), run[|run| - 1];
      if e.Finish? {
        assert e.call == |s.calls| - 1 && Active(s.calls[e.call]);
        assert s.successes == 0;
      }
    }
  }

  lemma {:induction false} AnsweredMeansIdle(calls: seq<Phase>)
    requires forall c :: 0 <= c < |calls| ==> calls[c].Answered?
    ensures InFlight(calls) == 0
  {
    if calls != [] {
      AnsweredMeansIdle(calls[..|calls| - 1]);
    }
  }

  /** One call at a time: between calls, executions are the failures plus at most one success. */
  lemma ExecutionsAreFailuresPlusOneSuccess(run: seq<Event>)
    requires IsRun(run) && OneAtATime(run) && AllAnswered(Reached(run))
    ensures FailuresPlusOneSuccess(Reached(run))
  {
    RunValid(run);
    SequentialRun(run);
    IdleCounts(Reached(run));
  }

  predicate FailuresPlusOneSuccess(s: State) {
    |s.admissions| == s.failures + s.successes && s.successes <= 1
  }

  lemma IdleCounts(s: State)
    requires Valid(s) && Sequential(s) && AllAnswered(s)
    ensures FailuresPlusOneSuccess(s)
  {
    AnsweredMeansIdle(s.calls);
  }

  // ---- Retries do not exclude each other -------------------------------------------------------------

  lemma Extend(run: seq<Event>, e: Event)
    requires IsRun(run) && Enabled(Reached(run), e)
    ensures IsRun(run + [e]) && Reached(run + [e]) == Apply(Reached(run), e)
  {
    assert (run + [e])[..|run|] == run;
  }

  lemma FirstCallFails() returns (run: seq<Event>)
    ensures IsRun(run)
    ensures Reached(run) == State(Some(Failed), [Answered(InternalError)], [Fresh], 1, 0)
  {
    run := [];
    Extend(run, Arrive);
    run := run + [Arrive];
    Extend(run, Find(0));
    run := run + [Find(0)];
    Extend(run, Build(0, true));
    run := run + [Build(0, true)];
    Extend(run, Insert(0));
    run := run + [Insert(0)];
    Extend(run, HandlerEnds(0, false));
    run := run + [HandlerEnds(0, false)];
    Extend(run, Finish(0));
    run := run + [Finish(0)];
  }

  /** A call brought up to its read of the row, in a state where the row is 'failed'. */
  lemma BringToLook(earlier: seq<Event>, calls: seq<Phase>) returns (run: seq<Event>)
    requires IsRun(earlier) && Reached(earlier) == State(Some(Failed), calls, [Fresh], 1, 0)
    ensures IsRun(run) && Reached(run) == State(Some(Failed), calls + [Looking], [Fresh], 1, 0)
  {
    var c := |calls|;
    run := earlier;
    Extend(run, Arrive);
    run := run + [Arrive];
    Extend(run, Find(c));
    run := run + [Find(c)];
    assert Reached(run).calls == calls + [Building];
    Extend(run, Build(c, true));
    run := run + [Build(c, true)];
    assert Reached(run).calls == calls + [Claiming];
    Extend(run, Insert(c));
    run := run + [Insert(c)];
    assert Reached(run).calls == calls + [Looking];
  }

  /** Two retries of a failed row can both be admitted, and both succeed. */
  lemma TwoRetriesBothSucceed() returns (run: seq<Event>)
    ensures IsRun(run) && Reached(run).successes == 2
  {
    run := FirstCallFails();
    run := BringToLook(run, [Answered(InternalError)]);
    run := BringToLook(run, [Answered(InternalError), Looking]);
    assert Reached(run).calls == [Answered(InternalError), Looking, Looking];
    Extend(run, Look(1));
    run := run + [Look(1)];
    Extend(run, Look(2));
    run := run + [Look(2)];
    assert Reached(run).calls == [Answered(InternalError), Executing, Executing];
    Extend(run, HandlerEnds(1, true));
    run := run + [HandlerEnds(1, true)];
    Extend(run, HandlerEnds(2, true));
    run := run + [HandlerEnds(2, true)];
    assert Reached(run).calls == [Answered(InternalError), Finishing(true), Finishing(true)];
    Extend(run, Finish(1));
    run := run + [Finish(1)];
    Extend(run, Finish(2));
    run := run + [Finish(2)];
  }

  // ---- Exactly when two handlers can overlap ---------------------------------------------------------

  /** No handler ends in failure along the way. */
  predicate NoHandlerFails(run: seq<Event>) {
    forall i :: 0 <= i < |run| ==> !(run[i].HandlerEnds? && !run[i].ok)
  }

  ghost predicate Overlaps(s: State, run: seq<Event>) {
    IsContinuation(s, run) && NoHandlerFails(run) && InFlight(Continued(s, run).calls) >= 2
  }

  /** The row is not 'failed', nothing in flight will make it so, and at most one handler runs. */
  ghost predicate Exclusive(s: State) {
    && s.row != Some(Failed)
    && (forall c :: 0 <= c < |s.calls| ==> s.calls[c] != Finishing(false))
    && InFlight(s.calls) <= 1
  }

  lemma ArriveExclusive(s: State)
    requires Exclusive(s)
    ensures Exclusive(Apply(s, Arrive))
  {
    assert (s.calls + [Finding])[..|s.calls|] == s.calls;
  }

  lemma StepExclusive(s: State, e: Event)
    requires Valid(s) && Exclusive(s) && Enabled(s, e) && !(e.HandlerEnds? && !e.ok)
    ensures Exclusive(Apply(s, e))
  {
    if e.Arrive? {
      ArriveExclusive(s);
    } else {
      InFlightMove(s.calls, e.call, Apply(s, e).calls[e.call]);
      assert e.Finish? ==> s.calls[e.call] != Finishing(false);
    }
  }

  lemma {:induction false} ExclusiveRun(s: State, run: seq<Event>)
    requires Valid(s) && Exclusive(s) && IsContinuation(s, run) && NoHandlerFails(run)
    ensures Exclusive(Continued(s, run))
    decreases |run|
  {
    if run != [] {
      assert !(run[0].HandlerEnds? && !run[0].ok);
      assert NoHandlerFails(run[1..]) by {
        assert forall i :: 0 <= i < |run| - 1 ==> run[1..][i] == run[i + 1];
      }
      StepValid(s, run[0]);
      StepExclusive(s, run[0]);
      ExclusiveRun(Apply(s, run[0]), run[1..]);
    }
  }

  /** The steps of a new call up to its read of the row. */
  function ToLook(c: nat): seq<Event> {
    [Arrive, Find(c), Build(c, true), Insert(c)]
  }

  lemma {:induction false} ContinuedFurther(s: State, a: seq<Event>, b: seq<Event>)
    requires IsContinuation(s, a) && IsContinuation(Continued(s, a), b)
    ensures IsContinuation(s, a + b) && Continued(s, a + b) == Continued(Continued(s, a), b)
    decreases |a|
  {
    if a == [] {
      assert a + b == b;
    } else {
      assert (a + b)[1..] == a[1..] + b;
      ContinuedFurther(Apply(s, a[0]), a[1..], b);
    }
  }

  /** On a 'failed' row a new call gets as far as reading it, and changes nothing else. */
  lemma NewCallLooks(s: State)
    requires s.row == Some(Failed)
    ensures IsContinuation(s, ToLook(|s.calls|))
    ensures Continued(s, ToLook(|s.calls|)) == s.(calls := s.calls + [Looking])
  {
    var c: nat := |s.calls|;
    var s1 := s.(calls := s.calls + [Finding]);
    var s2 := s.(calls := s.calls + [Building]);
    var s3 := s.(calls := s.calls + [Claiming]);
    var s4 := s.(calls := s.calls + [Looking]);
    assert Apply(s, Arrive) == s1;
    assert s1.calls[c := Building] == s2.calls && Apply(s1, Find(c)) == s2;
    assert s2.calls[c := Claiming] == s3.calls && Apply(s2, Build(c, true)) == s3;
    assert s3.calls[c := Looking] == s4.calls && Apply(s3, Insert(c)) == s4;
    var run := ToLook(c);
    assert run[1..] == [Find(c), Build(c, true), Insert(c)] && run[1..][1..] == [Build(c, true), Insert(c)];
    assert run[1..][1..][1..] == [Insert(c)] && run[1..][1..][1..][1..] == [];
    assert IsContinuation(s4, []) && Continued(s4, []) == s4;
    assert IsContinuation(s3, [Insert(c)]) && Continued(s3, [Insert(c)]) == s4;
    assert IsContinuation(s2, [Build(c, true), Insert(c)]) && Continued(s2, [Build(c, true), Insert(c)]) == s4;
  }

  /** Two readers of a 'failed' row are both admitted. */
  lemma BothAdmitted(s: State, c: nat)
    requires s.row == Some(Failed) && c + 2 == |s.calls| && s.calls[c].Looking? && s.calls[c + 1].Looking?
    ensures IsContinuation(s, [Look(c), Look(c + 1)])
    ensures InFlight(Continued(s, [Look(c), Look(c + 1)]).calls) == InFlight(s.calls) + 2
  {
    var run := [Look(c), Look(c + 1)];
    var s1 := Apply(s, Look(c));
    var s2 := Apply(s1, Look(c + 1));
    assert run[1..] == [Look(c + 1)] && run[1..][1..] == [];
    assert IsContinuation(s2, []) && Continued(s2, []) == s2;
    assert IsContinuation(s1, [Look(c + 1)]) && Continued(s1, [Look(c + 1)]) == s2;
    InFlightMove(s.calls, c, Executing);
    InFlightMove(s1.calls, c + 1, Executing);
  }

  lemma FailedRowOverlaps(s: State) returns (run: seq<Event>)
    requires s.row == Some(Failed)
    ensures Overlaps(s, run)
  {
    var c: nat := |s.calls|;
    NewCallLooks(s);
    var s1 := Continued(s, ToLook(c));
    NewCallLooks(s1);
    ContinuedFurther(s, ToLook(c), ToLook(c + 1));
    var s2 := Continued(s1, ToLook(c + 1));
    BothAdmitted(s2, c);
    ContinuedFurther(s, ToLook(c) + ToLook(c + 1), [Look(c), Look(c + 1)]);
    run := ToLook(c) + ToLook(c + 1) + [Look(c), Look(c + 1)];
  }

  /** Once a failed outcome is recorded, the row reads 'failed' and two new calls can overlap. */
  lemma FailedOutcomeOverlaps(s: State, c: nat) returns (run: seq<Event>)
    requires c < |s.calls| && s.calls[c] == Finishing(false)
    ensures Overlaps(s, run)
  {
    var after := Apply(s, Finish(c));
    var more := FailedRowOverlaps(after);
    assert [Finish(c)][1..] == [];
    assert IsContinuation(after, []) && Continued(after, []) == after;
    ContinuedFurther(s, [Finish(c)], more);
    run := [Finish(c)] + more;
  }

  /** Two handlers can come to run at once without another failure. */
  ghost predicate CanOverlap(s: State) {
    exists more :: Overlaps(s, more)
  }

  lemma ExclusiveNeverOverlaps(s: State)
    requires Valid(s) && Exclusive(s)
    ensures !CanOverlap(s)
  {
    forall more | IsContinuation(s, more) && NoHandlerFails(more) ensures InFlight(Continued(s, more).calls) <= 1 {
      ExclusiveRun(s, more);
    }
  }

  lemma NotExclusiveOverlaps(s: State)
    requires !Exclusive(s)
    ensures CanOverlap(s)
  {
    if s.row == Some(Failed) {
      var run := FailedRowOverlaps(s);
    } else if InFlight(s.calls) >= 2 {
      assert Overlaps(s, []);
    } else {
      var c: nat :| c < |s.calls| && s.calls[c] == Finishing(false);
      var run := FailedOutcomeOverlaps(s, c);
    }
  }

  /** Two handlers can overlap in exactly the states that are not exclusive. */
  ghost predicate OverlapDecided(s: State) {
    CanOverlap(s) <==> !Exclusive(s)
  }

  lemma ValidOverlap(s: State)
    requires Valid(s)
    ensures OverlapDecided(s)
    ensures InFlight(s.calls) == 0 ==> (Exclusive(s) <==> s.row != Some(Failed))
  {
    if Exclusive(s) {
      ExclusiveNeverOverlaps(s);
    } else {
      NotExclusiveOverlaps(s);
    }
    if s.row != Some(Failed) && InFlight(s.calls) == 0 {
      IdleIsExclusive(s);
    }
  }

  /**
   * From any reachable state, further calls can have two handlers run at once without another failure if
   * and only if the state is not exclusive: the row reads 'failed', or a failure is about to be recorded
   * in it, or two handlers run already.
   */
  lemma OverlapExactlyWhenNotExclusive(run: seq<Event>)
    requires IsRun(run)
    ensures OverlapDecided(Reached(run))
  {
    RunValid(run);
    ValidOverlap(Reached(run));
  }

  /** With no handler in flight that is what the row reads: 'failed', and nothing else. */
  lemma OverlapExactlyWhenFailed(run: seq<Event>)
    requires IsRun(run) && InFlight(Reached(run).calls) == 0
    ensures CanOverlap(Reached(run)) <==> Reached(run).row == Some(Failed)
  {
    RunValid(run);
    ValidOverlap(Reached(run));
  }

  lemma IdleIsExclusive(s: State)
    requires s.row != Some(Failed) && InFlight(s.calls) == 0
    ensures Exclusive(s)
  {
    forall c | 0 <= c < |s.calls| ensures s.calls[c] != Finishing(false) {
      ActiveIsCounted(s.calls, c);
    }
  }

  lemma {:induction false} ActiveIsCounted(calls: seq<Phase>, c: nat)
    requires c < |calls|
    ensures Active(calls[c]) ==> InFlight(calls) >= 1
  {
    if c < |calls| - 1 {
      ActiveIsCounted(calls[..|calls| - 1], c);
    }
  }

  // ---- What callers are told -------------------------------------------------------------------------

  function Told(calls: seq<Phase>, answer: Answer): nat {
    if calls == [] then 0
    else Told(calls[..|calls| - 1], answer) + if calls[|calls| - 1] == Answered(answer) then 1 else 0
  }

  lemma {:induction false} ToldMove(calls: seq<Phase>, c: nat, phase: Phase, answer: Answer)
    requires c < |calls|
    ensures Told(calls[c := phase], answer) ==
            Told(calls, answer) - (if calls[c] == Answered(answer) then 1 else 0) +
            (if phase == Answered(answer) then 1 else 0)
  {
    var n := |calls| - 1;
    if c < n {
      assert calls[c := phase][..n] == calls[..n][c := phase];
      ToldMove(calls[..n], c, phase, answer);
    } else {
      assert calls[c := phase][..n] == calls[..n];
    }
  }

  ghost predicate TruthTold(s: State) {
    Told(s.calls, Completed) == s.successes && Told(s.calls, InternalError) == s.failures
  }

  lemma StepTellsTheTruth(s: State, e: Event)
    requires Enabled(s, e) && TruthTold(s)
    ensures TruthTold(Apply(s, e))
  {
    if e.Arrive? {
      assert (s.calls + [Finding])[..|s.calls|] == s.calls;
    } else {
      var phase := Apply(s, e).calls[e.call];
      ToldMove(s.calls, e.call, phase, Completed);
      ToldMove(s.calls, e.call, phase, InternalError);
    }
  }

  /**
   * Under every interleaving exactly the calls whose handler succeeded are told so, and exactly those
   * whose handler failed are told of an internal error; the others ran nothing.
   */
  lemma {:induction false} CallersAreToldTheTruth(run: seq<Event>)
    requires IsRun(run)
    ensures TruthTold(Reached(run))
  {
    if run != [] {
      CallersAreToldTheTruth(run[..|run| - 1]);
      StepTellsTheTruth(Reached(run[..|run| - 1]), run[|run| - 1]);
    }
  }

  /** A finished key answers at once, without building anything; any other is built for first. */
  lemma FinishedKeyAnswersAtOnce(s: State, c: nat)
    requires Enabled(s, Find(c))
    ensures Apply(s, Find(c)).calls[c] == if s.row == Some(Done) then Answered(Replayed) else Building
    ensures Apply(s, Find(c)).row == s.row && Apply(s, Find(c)).admissions == s.admissions
  {
  }

  /** Without a context nothing is claimed: the key is as open to a later call as it was. */
  lemma NoContextClaimsNothing(s: State, c: nat)
    requires Enabled(s, Build(c, false))
    ensures Apply(s, Build(c, false)) == s.(calls := s.calls[c := Answered(NoContext)])
  {
  }

  /** A claim of a key without a row runs the handler on a fresh one; otherwise the row is read first. */
  lemma FreshClaimRuns(s: State, c: nat)
    requires Enabled(s, Insert(c))
    ensures Apply(s, Insert(c)).calls[c] == if s.row.None? then Executing else Looking
    ensures Apply(s, Insert(c)).row == if s.row.None? then Some(Received) else s.row
  {
  }

  /** Of the rows read, a failed one lets the handler run again; a running or finished one answers. */
  lemma FailedRowRunsAgain(s: State, c: nat)
    requires Enabled(s, Look(c))
    ensures Apply(s, Look(c)).calls[c] == if s.row == Some(Failed) then Executing else Answered(Replayed)
    ensures Apply(s, Look(c)).row == s.row
  {
  }
}
