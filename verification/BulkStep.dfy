/**
 * The bulk step (src/integration/define-bulk-step.ts): a stream is mapped item by item and pushed in
 * batches; the cursor bound is returned only if nothing threw.
 */
module BulkStep {
  import opened Wrappers
  import Paginate
  import SyncEngine
  import SyncGuarantees

  /** What `map` makes of a raw item: a record, nothing (null or undefined), or an exception. */
  datatype Mapped<+Rec> = Record(rec: Rec) | Dropped | Failing

  /** The bound of a clean run: the end of the window, an override that may be null, or one that throws. */
  datatype Advance = ToWindowEnd | Overridden(bound: Option<int>) | Throwing

  /**
   * One run: the configured batch size, what the stream yields, `map` by position and item, whether
   * `push` throws by number and batch, and where a clean run advances to.
   */
  datatype Job<!Raw, !Rec> = Job(
    configuredSize: Option<int>,
    stream: Paginate.Stream<Raw>,
    shape: (nat, Raw) -> Mapped<Rec>,
    pushThrows: (nat, seq<Rec>) -> bool,
    advance: Advance,
    until: int)

  /** What `run` does: it returns its result, or lets an exception of `advanceTo` through. */
  datatype Outcome = Returned(items: nat, errors: nat, bound: Option<int>) | Raised

  function BatchSize(configured: Option<int>): (size: nat)
    ensures size >= 1
  {
    var wanted := if configured.Some? then configured.value else 500;
    if wanted > 1 then wanted else 1
  }

  method Run<Raw, Rec>(job: Job<Raw, Rec>) returns (outcome: Outcome, pushed: seq<seq<Rec>>)
    ensures pushed == Pushed(job)
    ensures outcome == Report(job)
  {
    var size := BatchSize(job.configuredSize);
    var raws := job.stream.items;
    var items := 0;
    var batch: seq<Rec> := [];
    pushed := [];
    for i := 0 to |raws|
      invariant |batch| < size && items == |Paginate.Flatten(pushed)|
      invariant Records(job, 0) == Paginate.Flatten(pushed) + batch + Records(job, i)
      invariant SourceThrows(job, 0) == SourceThrows(job, i)
      invariant AllPushed(job, size, pushed)
    {
      ghost var had := batch;
      var mapped := job.shape(i, raws[i]);
      if mapped.Failing? {
        AttemptsFrom(job, size, pushed, batch, []);
        return Returned(items, 1, None), pushed;
      }
      if mapped.Record? {
        batch := batch + [mapped.rec];
        RecordTaken(job, i, Paginate.Flatten(pushed), had, mapped.rec);
        if |batch| >= size {
          AttemptsFrom(job, size, pushed, batch, Records(job, i + 1));
          if job.pushThrows(|pushed|, batch) {
            return Returned(items, 1, None), pushed;
          }
          Paginate.FlattenOneMore(pushed, batch);
          items := items + |batch|;
          pushed := pushed + [batch];
          batch := [];
        }
      }
    }
    LastAttempt(job, size, pushed, batch);
    if |batch| > 0 && !job.stream.failed {
      if job.pushThrows(|pushed|, batch) {
        return Returned(items, 1, None), pushed;
      }
      Paginate.FlattenOneMore(pushed, batch);
      items := items + |batch|;
      pushed := pushed + [batch];
    }
    if job.stream.failed {
      return Returned(items, 1, None), pushed;
    }
    match job.advance {
      case ToWindowEnd => outcome := Returned(items, 0, Some(job.until));
      case Overridden(bound) => outcome := Returned(items, 0, bound);
      case Throwing => outcome := Raised;
    }
  }

  // ---- What a run means ------------------------------------------------------------------------------

  /** The records of the items from position `i` on, up to an item `map` throws on. */
  function Records<Raw, Rec>(job: Job<Raw, Rec>, i: nat): seq<Rec>
    requires i <= |job.stream.items|
    decreases |job.stream.items| - i
  {
    if i == |job.stream.items| then []
    else
      match job.shape(i, job.stream.items[i])
      case Failing => []
      case Dropped => Records(job, i + 1)
      case Record(rec) => [rec] + Records(job, i + 1)
  }

  lemma RecordTaken<Raw, Rec>(job: Job<Raw, Rec>, i: nat, flat: seq<Rec>, had: seq<Rec>, rec: Rec)
    requires i < |job.stream.items| && job.shape(i, job.stream.items[i]) == Record(rec)
    ensures flat + had + Records(job, i) == flat + (had + [rec]) + Records(job, i + 1)
  {
    assert had + ([rec] + Records(job, i + 1)) == had + [rec] + Records(job, i + 1);
  }

  /** Whether reading or mapping throws from position `i` on. */
  predicate SourceThrows<Raw, Rec>(job: Job<Raw, Rec>, i: nat)
    requires i <= |job.stream.items|
    decreases |job.stream.items| - i
  {
    if i == |job.stream.items| then job.stream.failed
    else job.shape(i, job.stream.items[i]).Failing? || SourceThrows(job, i + 1)
  }

  /** Records cut into batches of a size; what is left over is a last batch, unless the source throws. */
  function Chunks<Rec>(records: seq<Rec>, size: nat, flushed: bool): seq<seq<Rec>>
    requires size >= 1
    decreases |records|
  {
    if |records| >= size then [records[..size]] + Chunks(records[size..], size, flushed)
    else if flushed && records != [] then [records]
    else []
  }

  function Attempts<Raw, Rec>(job: Job<Raw, Rec>): seq<seq<Rec>> {
    Chunks(Records(job, 0), BatchSize(job.configuredSize), !SourceThrows(job, 0))
  }

  /** The number of batches pushed, from number `n` on, before a push throws. */
  function Accepted<Rec>(batches: seq<seq<Rec>>, throws: (nat, seq<Rec>) -> bool, n: nat): (k: nat)
    requires n <= |batches|
    ensures n <= k <= |batches|
    ensures forall j: nat :: n <= j < k ==> !throws(j, batches[j])
    ensures k < |batches| ==> throws(k, batches[k])
    decreases |batches| - n
  {
    if n < |batches| && !throws(n, batches[n]) then Accepted(batches, throws, n + 1) else n
  }

  function Pushed<Raw, Rec>(job: Job<Raw, Rec>): seq<seq<Rec>> {
    var batches := Attempts(job);
    batches[..Accepted(batches, job.pushThrows, 0)]
  }

  predicate Throws<Raw, Rec>(job: Job<Raw, Rec>) {
    SourceThrows(job, 0) || Accepted(Attempts(job), job.pushThrows, 0) < |Attempts(job)|
  }

  function Report<Raw, Rec>(job: Job<Raw, Rec>): Outcome {
    var items := |Paginate.Flatten(Pushed(job))|;
    if Throws(job) then Returned(items, 1, None)
    else
      match job.advance
      case ToWindowEnd => Returned(items, 0, Some(job.until))
      case Overridden(bound) => Returned(items, 0, bound)
      case Throwing => Raised
  }

  ghost predicate AllPushed<Raw, Rec>(job: Job<Raw, Rec>, size: nat, pushed: seq<seq<Rec>>) {
    && (forall j :: 0 <= j < |pushed| ==> |pushed[j]| == size)
    && (forall j: nat :: j < |pushed| ==> !job.pushThrows(j, pushed[j]))
  }

  lemma {:induction false} ChunksAfter<Rec>(full: seq<seq<Rec>>, rest: seq<Rec>, size: nat, flushed: bool)
    requires size >= 1 && forall j :: 0 <= j < |full| ==> |full[j]| == size
    ensures Chunks(Paginate.Flatten(full) + rest, size, flushed) == full + Chunks(rest, size, flushed)
  {
    var all := Paginate.Flatten(full) + rest;
    if full == [] {
      assert all == rest;
    } else {
      assert all[..size] == full[0] && all[size..] == Paginate.Flatten(full[1..]) + rest;
      ChunksAfter(full[1..], rest, size, flushed);
      assert full == [full[0]] + full[1..];
    }
  }

  /** Halfway through a run, the batches still to come are those of the batch at hand and what follows. */
  lemma AttemptsFrom<Raw, Rec>(
      job: Job<Raw, Rec>, size: nat, pushed: seq<seq<Rec>>, batch: seq<Rec>, later: seq<Rec>)
    requires size == BatchSize(job.configuredSize) && |batch| <= size
    requires AllPushed(job, size, pushed)
    requires Records(job, 0) == Paginate.Flatten(pushed) + batch + later
    requires |batch| == size || later == []
    ensures var rest := Chunks(batch + later, size, !SourceThrows(job, 0));
            && Attempts(job) == pushed + rest
            && Accepted(Attempts(job), job.pushThrows, 0) >= |pushed|
            && (|batch| == size ==> rest[0] == batch)
            && (rest == [] || job.pushThrows(|pushed|, rest[0]) ==> Pushed(job) == pushed)
  {
    assert Paginate.Flatten(pushed) + batch + later == Paginate.Flatten(pushed) + (batch + later);
    ChunksAfter(pushed, batch + later, size, !SourceThrows(job, 0));
    var rest := Chunks(batch + later, size, !SourceThrows(job, 0));
    var k := Accepted(pushed + rest, job.pushThrows, 0);
    assert forall j: nat :: j < |pushed| ==> (pushed + rest)[j] == pushed[j];
    assert (pushed + rest)[..|pushed|] == pushed;
  }

  /** What is left when the stream has ended: the last, partial batch, unless reading failed. */
  lemma LastAttempt<Raw, Rec>(job: Job<Raw, Rec>, size: nat, pushed: seq<seq<Rec>>, batch: seq<Rec>)
    requires size == BatchSize(job.configuredSize) && |batch| < size && AllPushed(job, size, pushed)
    requires Records(job, 0) == Paginate.Flatten(pushed) + batch
    ensures if SourceThrows(job, 0) || batch == [] then
              Pushed(job) == pushed && Attempts(job) == pushed
            else
              && Attempts(job) == pushed + [batch]
              && Pushed(job) == if job.pushThrows(|pushed|, batch) then pushed else pushed + [batch]
  {
    assert batch + [] == batch && Paginate.Flatten(pushed) + batch + [] == Paginate.Flatten(pushed) + batch;
    AttemptsFrom(job, size, pushed, batch, []);
    if !SourceThrows(job, 0) && batch != [] {
      assert Chunks(batch, size, true) == [batch];
      if !job.pushThrows(|pushed|, batch) {
        AllAccepted(job, pushed + [batch]);
      }
    }
  }

  lemma AllAccepted<Raw, Rec>(job: Job<Raw, Rec>, pushed: seq<seq<Rec>>)
    requires pushed == Attempts(job) && forall j: nat :: j < |pushed| ==> !job.pushThrows(j, pushed[j])
    ensures Pushed(job) == pushed
  {
    assert Accepted(pushed, job.pushThrows, 0) == |pushed|;
  }

  // ---- Batches -------------------------------------------------------------------------------------

  /** Every batch but the last holds exactly `size` records, and the last at least one and at most that. */
  ghost predicate WellBatched<Rec>(batches: seq<seq<Rec>>, size: nat) {
    && (forall j :: 0 <= j < |batches| - 1 ==> |batches[j]| == size)
    && (batches != [] ==> 1 <= |batches[|batches| - 1]| <= size)
  }

  lemma OneBatchMore<Rec>(first: seq<Rec>, later: seq<seq<Rec>>, size: nat)
    requires |first| == size >= 1 && WellBatched(later, size)
    ensures WellBatched([first] + later, size)
    ensures Paginate.Flatten([first] + later) == first + Paginate.Flatten(later)
  {
    var all := [first] + later;
    assert all[1..] == later;
    assert forall j :: 1 <= j < |all| ==> all[j] == later[j - 1];
  }

  lemma {:induction false} ChunksAreWellBatched<Rec>(records: seq<Rec>, size: nat, flushed: bool)
    requires size >= 1
    ensures WellBatched(Chunks(records, size, flushed), size)
    ensures Paginate.Flatten(Chunks(records, size, flushed)) <= records
    ensures flushed ==> Paginate.Flatten(Chunks(records, size, flushed)) == records
    ensures !flushed ==> |records| - |Paginate.Flatten(Chunks(records, size, flushed))| < size
  {
    if |records| >= size {
      var later := Chunks(records[size..], size, flushed);
      ChunksAreWellBatched(records[size..], size, flushed);
      assert records == records[..size] + records[size..];
      OneBatchMore(records[..size], later, size);
    } else if flushed && records != [] {
      assert [records][1..] == [];
    }
  }

  /** There is one way only to batch records so. */
  lemma {:induction false} BatchesAreUnique<Rec>(batches: seq<seq<Rec>>, size: nat)
    requires size >= 1 && WellBatched(batches, size)
    ensures batches == Chunks(Paginate.Flatten(batches), size, true)
  {
    if batches != [] {
      var first, later := batches[0], batches[1..];
      var all := Paginate.Flatten(batches);
      assert WellBatched(later, size) by {
        assert forall j :: 0 <= j < |later| ==> later[j] == batches[j + 1];
      }
      BatchesAreUnique(later, size);
      if later != [] {
        assert all[..size] == first && all[size..] == Paginate.Flatten(later);
      } else {
        assert all == first && batches == [first];
      }
    }
  }

  // ---- Clean runs and failed ones ------------------------------------------------------------------

  /** The non-null records of a prefix of the stream, by `map` alone. */
  function Kept<Raw, Rec>(shape: (nat, Raw) -> Mapped<Rec>, raws: seq<Raw>): seq<Rec> {
    if raws == [] then []
    else
      var n: nat := |raws| - 1;
      Kept(shape, raws[..n]) + match shape(n, raws[n]) case Record(rec) => [rec] case _ => []
  }

  ghost predicate MapsAll<Raw, Rec>(job: Job<Raw, Rec>) {
    forall i: nat :: i < |job.stream.items| ==> !job.shape(i, job.stream.items[i]).Failing?
  }

  lemma {:induction false} RecordsFrom<Raw, Rec>(job: Job<Raw, Rec>, i: nat)
    requires i <= |job.stream.items|
    requires !SourceThrows(job, i)
    ensures Kept(job.shape, job.stream.items) == Kept(job.shape, job.stream.items[..i]) + Records(job, i)
    ensures !job.stream.failed
    ensures forall k: nat :: i <= k < |job.stream.items| ==> !job.shape(k, job.stream.items[k]).Failing?
    decreases |job.stream.items| - i
  {
    var raws := job.stream.items;
    if i == |raws| {
      assert raws[..i] == raws;
    } else {
      RecordsFrom(job, i + 1);
      assert raws[..i + 1][..i] == raws[..i];
    }
  }

  lemma {:induction false} NothingThrows<Raw, Rec>(job: Job<Raw, Rec>, i: nat)
    requires i <= |job.stream.items| && MapsAll(job) && !job.stream.failed
    ensures !SourceThrows(job, i)
    decreases |job.stream.items| - i
  {
    if i < |job.stream.items| {
      NothingThrows(job, i + 1);
    }
  }

  /**
   * A clean run pushes the mapped, null-filtered stream, all of it and in order, in batches that are
   * full but for the last, and counts every record. It is clean exactly when the stream ends, `map`
   * throws on no item and `push` on no batch.
   */
  lemma CleanRunPushesEverything<Raw, Rec>(job: Job<Raw, Rec>)
    ensures var pushed, size := Pushed(job), BatchSize(job.configuredSize);
            !Throws(job) ==>
              && Paginate.Flatten(pushed) == Kept(job.shape, job.stream.items)
              && WellBatched(pushed, size)
    ensures !Throws(job) <==>
              !job.stream.failed && MapsAll(job) &&
              forall j: nat :: j < |Attempts(job)| ==> !job.pushThrows(j, Attempts(job)[j])
  {
    if !SourceThrows(job, 0) {
      RecordsFrom(job, 0);
      assert job.stream.items[..0] == [] && Attempts(job)[..|Attempts(job)|] == Attempts(job);
      ChunksAreWellBatched(Records(job, 0), BatchSize(job.configuredSize), true);
    } else if MapsAll(job) && !job.stream.failed {
      NothingThrows(job, 0);
    }
  }

  /**
   * Whatever throws, the pushed batches are a prefix of those of the stream, `items` counts the records
   * of the completed pushes and no others, one error is reported, and no bound is returned.
   */
  lemma FailedRunHoldsTheCursor<Raw, Rec>(job: Job<Raw, Rec>)
    ensures Throws(job) ==> Report(job) == Returned(|Paginate.Flatten(Pushed(job))|, 1, None)
    ensures Report(job).Returned? && Report(job).bound.Some? ==>
              Report(job).errors == 0 && Paginate.Flatten(Pushed(job)) == Kept(job.shape, job.stream.items)
    ensures Paginate.Flatten(Pushed(job)) <= Records(job, 0)
    ensures forall j :: 0 <= j < |Pushed(job)| - 1 ==> |Pushed(job)[j]| == BatchSize(job.configuredSize)
  {
    CleanRunPushesEverything(job);
    PushedIsPrefix(job);
  }

  lemma PushedIsPrefix<Raw, Rec>(job: Job<Raw, Rec>)
    ensures Paginate.Flatten(Pushed(job)) <= Records(job, 0)
    ensures forall j :: 0 <= j < |Pushed(job)| - 1 ==> |Pushed(job)[j]| == BatchSize(job.configuredSize)
  {
    var all, k := Attempts(job), Accepted(Attempts(job), job.pushThrows, 0);
    ChunksAreWellBatched(Records(job, 0), BatchSize(job.configuredSize), !SourceThrows(job, 0));
    FlattenedPrefix(all, k);
  }

  lemma FlattenedPrefix<Rec>(batches: seq<seq<Rec>>, k: nat)
    requires k <= |batches|
    ensures Paginate.Flatten(batches[..k]) <= Paginate.Flatten(batches)
  {
    assert batches == batches[..k] + batches[k..];
    Paginate.FlattenConcat(batches[..k], batches[k..]);
  }

  // ---- Fed by pages, and feeding the engine --------------------------------------------------------

  /**
   * A step that streams pages and returns a bound has pushed the records of every page up to the last
   * one; more than MAX_PAGES of them, or a rejected fetch, and there is no bound.
   */
  lemma BoundMeansEveryPage<Raw, Rec>(
      job: Job<Raw, Rec>, fetch: int -> Paginate.Fetch<Raw>, start: int, pageSize: Option<int>, pages: seq<seq<Raw>>)
    requires Paginate.IsWalk(fetch, start, pageSize, Paginate.Stream(pages, job.stream.failed))
    requires job.stream.items == Paginate.Flatten(pages)
    ensures Report(job).Returned? && Report(job).bound.Some? ==>
              && Paginate.Flatten(Pushed(job)) == Kept(job.shape, Paginate.Flatten(pages))
              && exists k: nat :: Paginate.EndsWithin(fetch, start, pageSize, k)
  {
    FailedRunHoldsTheCursor(job);
    CleanRunPushesEverything(job);
    Paginate.EndsWellExactlyWhen(fetch, start, pageSize, Paginate.Stream(pages, job.stream.failed));
  }

  type Event = SyncEngine.Event

  /** The stream shows every event of the window that is visible at its end, and `map` sends each on. */
  ghost predicate StreamsWindow(job: Job<Event, Event>, source: set<Event>, w: SyncEngine.Window) {
    && (!job.stream.failed ==>
          forall e :: e in source && w.since <= e.at <= w.until && e.visibleAt <= w.until ==> e in job.stream.items)
    && forall i: nat :: i < |job.stream.items| ==>
         job.shape(i, job.stream.items[i]).Failing? ||
         job.shape(i, job.stream.items[i]) == Record(job.stream.items[i])
  }

  /** What the engine sees of a run whose pushes were answered with some refused records. */
  function SeenByEngine(job: Job<Event, Event>, refused: set<Event>, rejected: nat): SyncEngine.StepRun {
    var sent := Paginate.Flatten(Pushed(job));
    var pushed := (set i | 0 <= i < |sent| :: sent[i]) - refused;
    match Report(job)
    case Returned(items, errors, bound) => SyncEngine.Returned(pushed, refused, rejected, items, errors, bound)
    case Raised => SyncEngine.Threw(pushed, refused, rejected)
  }

  /**
   * A bulk step meets what the engine's guarantee asks of a step: wherever it stops, it never returns
   * a bound over an event it did not send.
   */
  lemma BulkStepIsHonest(
      job: Job<Event, Event>, source: set<Event>, w: SyncEngine.Window, refused: set<Event>, rejected: nat)
    requires StreamsWindow(job, source, w)
    requires refused != {} ==> rejected > 0
    ensures SyncGuarantees.Honest(source, w, SeenByEngine(job, refused, rejected))
  {
    FailedRunHoldsTheCursor(job);
    CleanRunPushesEverything(job);
    if Report(job).Returned? && Report(job).bound.Some? {
      KeptIsAll(job.shape, job.stream.items);
    }
  }

  lemma {:induction false} KeptIsAll(shape: (nat, Event) -> Mapped<Event>, raws: seq<Event>)
    requires forall i: nat :: i < |raws| ==> shape(i, raws[i]) == Record(raws[i])
    ensures Kept(shape, raws) == raws
  {
    if raws != [] {
      var n: nat := |raws| - 1;
      KeptIsAll(shape, raws[..n]);
      assert shape(n, raws[n]) == Record(raws[n]);
    }
  }

  /** The engine counts as pushed what was sent in a completed push and not refused, and nothing else. */
  lemma PushedAreSentAndAccepted(job: Job<Event, Event>, refused: set<Event>, rejected: nat, e: Event)
    ensures var run := SeenByEngine(job, refused, rejected);
            && (e in run.pushed <==> e in Paginate.Flatten(Pushed(job)) && e !in refused)
            && run.refused == refused && run.rejected == rejected
  {
    if e in Paginate.Flatten(Pushed(job)) {
      var i :| 0 <= i < |Paginate.Flatten(Pushed(job))| && Paginate.Flatten(Pushed(job))[i] == e;
    }
  }

  /** Five hundred by default, and never less than one. */
  lemma BatchSizes(n: int)
    ensures BatchSize(None) == 500
    ensures n >= 1 ==> BatchSize(Some(n)) == n
    ensures n < 1 ==> BatchSize(Some(n)) == 1
  {
  }

  predicate Accepts<Raw, Rec>(job: Job<Raw, Rec>, n: nat, batch: seq<Rec>) {
    !job.pushThrows(n, batch)
  }

  /**
   * What a clean run returns: the number of the records it kept, no error, and the bound, which is the
   * end of the window unless the step overrides it.
   */
  lemma CleanRunReturnsItsBound<Raw, Rec>(job: Job<Raw, Rec>)
    requires !job.stream.failed && MapsAll(job)
    requires forall n: nat, batch: seq<Rec> :: Accepts(job, n, batch)
    ensures job.advance == ToWindowEnd ==>
              Report(job) == Returned(|Kept(job.shape, job.stream.items)|, 0, Some(job.until))
    ensures job.advance.Overridden? ==>
              Report(job) == Returned(|Kept(job.shape, job.stream.items)|, 0, job.advance.bound)
    ensures job.advance == Throwing ==> Report(job) == Raised
  {
    CleanRunPushesEverything(job);
    forall j: nat | j < |Attempts(job)| ensures !job.pushThrows(j, Attempts(job)[j]) {
      assert Accepts(job, j, Attempts(job)[j]);
    }
  }
}
