/**
 * The anti-replay protocol of lifecycle webhooks (src/lifecycle/dispatcher.ts): a signature is
 * claimed before its webhook is processed and released if processing fails, while a retention sweep
 * drops old claims. Calls interleave at every await.
 */
module WebhookDedup {
  /**
   * Milliseconds: how long after its timestamp a signature still verifies, how far its timestamp may
   * lie ahead, how long a verified call may take to claim, and the retention (0 switches it off).
   */
  datatype Params = Params(tolerance: nat, skew: nat, delay: nat, retention: nat)

  /** A claim key: a signature on an installation, with the timestamp it binds. */
  datatype Sig = Sig(id: int, sentAt: int)

  datatype Phase = Verified(sig: Sig, at: int) | Processing(sig: Sig) | Releasing(sig: Sig) | Ended

  /** `seen` is the claim table with creation times; `done` counts the webhooks processed to success. */
  datatype State = State(now: int, seen: map<Sig, int>, calls: seq<Phase>, done: multiset<Sig>)

  datatype Event =
    | Deliver(sig: Sig)
    | Claim(call: nat)
    | Succeed(call: nat)
    | Fail(call: nat)
    | Release(call: nat)
    | Purge
    | Elapse(ms: nat)

  predicate SignatureOk(p: Params, now: int, sig: Sig) {
    sig.sentAt - p.skew <= now <= sig.sentAt + p.tolerance
  }

  predicate Enabled(p: Params, s: State, e: Event) {
    match e
    case Deliver(sig) => SignatureOk(p, s.now, sig)
    case Claim(c) => c < |s.calls| && s.calls[c].Verified? && s.now <= s.calls[c].at + p.delay
    case Succeed(c) => c < |s.calls| && s.calls[c].Processing?
    case Fail(c) => c < |s.calls| && s.calls[c].Processing?
    case Release(c) => c < |s.calls| && s.calls[c].Releasing?
    case Purge => p.retention > 0
    case Elapse(_) => true
  }

  function Apply(p: Params, s: State, e: Event): State
    requires Enabled(p, s, e)
  {
    match e
    case Deliver(sig) => s.(calls := s.calls + [Verified(sig, s.now)])
    case Claim(c) =>
      var sig := s.calls[c].sig;
      if sig in s.seen then s.(calls := s.calls[c := Ended])
      else s.(seen := s.seen[sig := s.now], calls := s.calls[c := Processing(sig)])
    case Succeed(c) => s.(calls := s.calls[c := Ended], done := s.done + multiset{s.calls[c].sig})
    case Fail(c) => s.(calls := s.calls[c := Releasing(s.calls[c].sig)])
    case Release(c) => s.(calls := s.calls[c := Ended], seen := s.seen - {s.calls[c].sig})
    case Purge => s.(seen := map sig | sig in s.seen && s.seen[sig] >= s.now - p.retention :: s.seen[sig])
    case Elapse(ms) => s.(now := s.now + ms)
  }

  const START := State(0, map[], [], multiset{})

  ghost predicate IsRun(p: Params, run: seq<Event>)
    decreases |run|, 0
  {
    run == [] || (IsRun(p, run[..|run| - 1]) && Enabled(p, Reached(p, run[..|run| - 1]), run[|run| - 1]))
  }

  ghost function Reached(p: Params, run: seq<Event>): State
    requires IsRun(p, run)
    decreases |run|, 1
  {
    if run == [] then START else Apply(p, Reached(p, run[..|run| - 1]), run[|run| - 1])
  }

  // ---- Safety ------------------------------------------------------------------------------------

  /** The call has claimed the signature and has not given it up. */
  predicate Holds(s: State, c: nat, sig: Sig) {
    c < |s.calls| && (s.calls[c] == Processing(sig) || s.calls[c] == Releasing(sig))
  }

  /** No call that could still claim the signature can exist. */
  predicate Expired(p: Params, s: State, sig: Sig) {
    s.now > sig.sentAt + p.tolerance + p.delay
  }

  /** One signature has at most one call working on it, and succeeds at most once. */
  ghost predicate Safe(s: State) {
    && (forall c, d, sig :: Holds(s, c, sig) && Holds(s, d, sig) ==> c == d)
    && (forall sig :: s.done[sig] <= 1)
    && (forall c, sig :: Holds(s, c, sig) ==> s.done[sig] == 0)
  }

  ghost predicate Valid(p: Params, s: State) {
    && Safe(s)
    && (forall c, sig :: Holds(s, c, sig) ==> sig in s.seen || Expired(p, s, sig))
    && (forall sig :: sig in s.done ==> sig in s.seen || Expired(p, s, sig))
    && (forall sig :: sig in s.seen ==> s.seen[sig] >= sig.sentAt - p.skew)
    && (forall c :: 0 <= c < |s.calls| && s.calls[c].Verified? ==>
          s.calls[c].at <= s.now && SignatureOk(p, s.calls[c].at, s.calls[c].sig))
  }

  /** A claim outlives every delivery of its signature. */
  predicate RetentionSuffices(p: Params) {
    p.retention == 0 || p.retention >= p.tolerance + p.skew + p.delay
  }

  lemma DeliverValid(p: Params, s: State, sig: Sig)
    requires Valid(p, s) && Enabled(p, s, Deliver(sig))
    ensures Valid(p, Apply(p, s, Deliver(sig)))
  {
    var t := Apply(p, s, Deliver(sig));
    forall c, g | Holds(t, c, g) ensures Holds(s, c, g) {
    }
  }

  /** A granted claim is of a signature nobody holds and that has not succeeded. */
  lemma ClaimValid(p: Params, s: State, c: nat)
    requires Valid(p, s) && Enabled(p, s, Claim(c))
    ensures Valid(p, Apply(p, s, Claim(c)))
  {
    var t, sig := Apply(p, s, Claim(c)), s.calls[c].sig;
    assert !Expired(p, s, sig);
    assert sig !in s.seen ==> s.done[sig] == 0;
    forall d, g | Holds(t, d, g) ensures Holds(s, d, g) || (d == c && g == sig && sig !in s.seen) {
    }
  }

  /** The call that leaves a signature was its only holder. */
  lemma LeaveValid(p: Params, s: State, e: Event)
    requires Valid(p, s) && Enabled(p, s, e) && (e.Succeed? || e.Release?)
    ensures Valid(p, Apply(p, s, e))
  {
    var t, c := Apply(p, s, e), e.call;
    assert Holds(s, c, s.calls[c].sig);
    forall d, g | Holds(t, d, g) ensures Holds(s, d, g) && d != c {
    }
  }

  lemma FailValid(p: Params, s: State, c: nat)
    requires Valid(p, s) && Enabled(p, s, Fail(c))
    ensures Valid(p, Apply(p, s, Fail(c)))
  {
    var t := Apply(p, s, Fail(c));
    assert Holds(s, c, s.calls[c].sig);
    forall d, g | Holds(t, d, g) ensures Holds(s, d, g) {
    }
  }

  /** The sweep drops only claims of signatures that no call can claim any more. */
  lemma PurgeValid(p: Params, s: State)
    requires RetentionSuffices(p) && Valid(p, s) && Enabled(p, s, Purge)
    ensures Valid(p, Apply(p, s, Purge))
  {
    var t := Apply(p, s, Purge);
    forall d, g | Holds(t, d, g) ensures Holds(s, d, g) {
    }
    forall g | g in s.seen && g !in t.seen ensures Expired(p, t, g) {
    }
  }

  lemma ElapseValid(p: Params, s: State, ms: nat)
    requires Valid(p, s)
    ensures Valid(p, Apply(p, s, Elapse(ms)))
  {
    var t := Apply(p, s, Elapse(ms));
    forall d, g | Holds(t, d, g) ensures Holds(s, d, g) {
    }
  }

  lemma StepValid(p: Params, s: State, e: Event)
    requires RetentionSuffices(p) && Valid(p, s) && Enabled(p, s, e)
    ensures Valid(p, Apply(p, s, e))
  {
    match e
    case Deliver(sig) => DeliverValid(p, s, sig);
    case Claim(c) => ClaimValid(p, s, c);
    case Succeed(_) => LeaveValid(p, s, e);
    case Fail(c) => FailValid(p, s, c);
    case Release(_) => LeaveValid(p, s, e);
    case Purge => PurgeValid(p, s);
    case Elapse(ms) => ElapseValid(p, s, ms);
  }

  lemma {:induction false} RunValid(p: Params, run: seq<Event>)
    requires RetentionSuffices(p) && IsRun(p, run)
    ensures Valid(p, Reached(p, run))
  {
    if run != [] {
      RunValid(p, run[..|run| - 1]);
      StepValid(p, Reached(p, run[..|run| - 1]), run[|run| - 1]);
    }
  }

  // ---- The exact condition -------------------------------------------------------------------------

  ghost predicate AlwaysSafe(p: Params) {
    forall run :: IsRun(p, run) ==> Safe(Reached(p, run))
  }

  /** One more event of a run. */
  lemma Extend(p: Params, run: seq<Event>, e: Event)
    requires IsRun(p, run) && Enabled(p, Reached(p, run), e)
    ensures IsRun(p, run + [e]) && Reached(p, run + [e]) == Apply(p, Reached(p, run), e)
  {
    assert (run + [e])[..|run|] == run;
  }

  lemma FirstSuccess(p: Params, sig: Sig) returns (run: seq<Event>)
    requires SignatureOk(p, 0, sig)
    ensures IsRun(p, run) && Reached(p, run) == State(0, map[sig := 0], [Ended], multiset{sig})
  {
    Extend(p, [], Deliver(sig));
    run := [] + [Deliver(sig)];
    assert Reached(p, run) == State(0, map[], [Verified(sig, 0)], multiset{});
    Extend(p, run, Claim(0));
    run := run + [Claim(0)];
    assert Reached(p, run) == State(0, map[sig := 0], [Processing(sig)], multiset{});
    Extend(p, run, Succeed(0));
    run := run + [Succeed(0)];
  }

  /** With a shorter retention a webhook is delivered early, swept, delivered late, and runs twice. */
  lemma ShortRetentionRunsTwice(p: Params) returns (run: seq<Event>)
    requires !RetentionSuffices(p)
    ensures IsRun(p, run) && !Safe(Reached(p, run))
  {
    var sig, later := Sig(0, p.skew), p.skew + p.tolerance;
    run := FirstSuccess(p, sig);
    Extend(p, run, Elapse(later));
    run := run + [Elapse(later)];
    Extend(p, run, Deliver(sig));
    run := run + [Deliver(sig)];
    assert Reached(p, run) == State(later, map[sig := 0], [Ended, Verified(sig, later)], multiset{sig});
    run := SecondSuccess(p, run, sig, later);
  }

  lemma SecondSuccess(p: Params, earlier: seq<Event>, sig: Sig, later: int) returns (run: seq<Event>)
    requires !RetentionSuffices(p) && later == p.skew + p.tolerance
    requires IsRun(p, earlier)
    requires Reached(p, earlier) == State(later, map[sig := 0], [Ended, Verified(sig, later)], multiset{sig})
    ensures IsRun(p, run) && !Safe(Reached(p, run))
  {
    Extend(p, earlier, Elapse(p.delay));
    run := earlier + [Elapse(p.delay)];
    Extend(p, run, Purge);
    run := run + [Purge];
    assert Reached(p, run) == State(later + p.delay, map[], [Ended, Verified(sig, later)], multiset{sig});
    Extend(p, run, Claim(1));
    run := run + [Claim(1)];
    assert Reached(p, run).calls == [Ended, Processing(sig)];
    Extend(p, run, Succeed(1));
    run := run + [Succeed(1)];
    assert Reached(p, run).done[sig] == 2;
  }

  /**
   * Under every interleaving of deliveries, releases and sweeps, one signature has at most one call
   * processing it and is processed to success at most once -- exactly when the retention is off or
   * at least the tolerance, the allowed clock skew and the time a verified call may take to claim.
   */
  lemma SafeExactlyWhenRetentionSuffices(p: Params)
    ensures AlwaysSafe(p) <==> RetentionSuffices(p)
  {
    if RetentionSuffices(p) {
      forall run | IsRun(p, run) ensures Safe(Reached(p, run)) {
        RunValid(p, run);
      }
    } else {
      var run := ShortRetentionRunsTwice(p);
    }
  }

  /** A release lets a resend through: the next claim of the signature is granted. */
  lemma {:induction false} ReleasedCanBeRetried(p: Params, run: seq<Event>, c: nat, d: nat)
    requires RetentionSuffices(p) && IsRun(p, run)
    requires Enabled(p, Reached(p, run), Release(c))
    requires d != c && Enabled(p, Reached(p, run), Claim(d))
    requires Reached(p, run).calls[d].sig == Reached(p, run).calls[c].sig
    ensures IsRun(p, run + [Release(c)] + [Claim(d)])
    ensures Holds(Reached(p, run + [Release(c)] + [Claim(d)]), d, Reached(p, run).calls[c].sig)
    ensures Safe(Reached(p, run + [Release(c)] + [Claim(d)]))
  {
    Extend(p, run, Release(c));
    Extend(p, run + [Release(c)], Claim(d));
    RunValid(p, run + [Release(c)] + [Claim(d)]);
  }

  /**
   * A webhook whose processing fails gives its signature up: once released, a resend that verifies is
   * granted the claim and processed, and one that comes before the release is not.
   */
  lemma FailureIsRetried(p: Params, run: seq<Event>, c: nat, d: nat)
    requires RetentionSuffices(p) && IsRun(p, run) && Enabled(p, Reached(p, run), Fail(c))
    requires d != c && Enabled(p, Reached(p, run), Claim(d))
    requires Reached(p, run).calls[d].sig == Reached(p, run).calls[c].sig
    ensures IsRun(p, run + [Fail(c)] + [Release(c)] + [Claim(d)])
    ensures Holds(Reached(p, run + [Fail(c)] + [Release(c)] + [Claim(d)]), d, Reached(p, run).calls[c].sig)
    ensures Apply(p, Reached(p, run), Claim(d)).calls[d] == Ended
  {
    RunValid(p, run);
    var s := Reached(p, run);
    assert Holds(s, c, s.calls[c].sig);
    Extend(p, run, Fail(c));
    ReleasedCanBeRetried(p, run + [Fail(c)], c, d);
  }

  /** Of the calls of one signature only a success counts as processed, and it keeps the claim. */
  lemma SuccessKeepsTheClaim(p: Params, s: State, c: nat)
    requires Enabled(p, s, Succeed(c))
    ensures var after, sig := Apply(p, s, Succeed(c)), s.calls[c].sig;
            after.seen == s.seen && after.done[sig] == s.done[sig] + 1 && after.calls[c] == Ended
  {
  }

  /** The sweep drops the claims that are older than the retention and no others. */
  lemma SweepDropsExactlyTheOld(p: Params, s: State, sig: Sig)
    requires p.retention > 0 && sig in s.seen
    ensures sig in Apply(p, s, Purge).seen <==> s.now - s.seen[sig] <= p.retention
    ensures sig in Apply(p, s, Purge).seen ==> Apply(p, s, Purge).seen[sig] == s.seen[sig]
  {
  }
}
