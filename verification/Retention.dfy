/**
 * The retention purges and rolling-window counts (src/store/sqlite/stores.ts, src/store/repositories.ts):
 * text comparisons in the table, instants in the reference.
 */
module Retention {
  import opened Calendar
  import opened StoreTime

  /** A stored row of the webhook log, stamped with text. */
  datatype Row = Row(id: nat, createdAt: string, signatureOk: bool)

  /** The same row as time sees it. */
  datatype Moment = Moment(id: nat, at: int, signatureOk: bool)

  /** What happens to a log table: a row written, or a purge of all rows older than so many days. */
  datatype Event = Insert(id: nat, signatureOk: bool, now: int) | Purge(days: int, now: int)

  const DAY_MS := 86_400_000
  const HOUR_MS := 3_600_000

  function NotBefore(rows: seq<Row>, cutoff: string): (kept: seq<Row>)
    ensures |kept| <= |rows|
  {
    if rows == [] then []
    else
      var rest := NotBefore(rows[..|rows| - 1], cutoff);
      var last := rows[|rows| - 1];
      if TextLess(last.createdAt, cutoff) then rest else rest + [last]
  }

  /** How many rows were refused. */
  function RefusedRows(rows: seq<Row>): nat {
    if rows == [] then 0
    else RefusedRows(rows[..|rows| - 1]) + if rows[|rows| - 1].signatureOk then 0 else 1
  }

  function RefusedMoments(rows: seq<Moment>): nat {
    |set i | 0 <= i < |rows| && !rows[i].signatureOk|
  }

  /** A way to write instants and to read them, and the instants it is good for. */
  datatype Format = Format(stamp: int -> string, read: string -> int, era: int -> bool) {
    /** `isoDaysAgo`. */
    function DaysAgo(days: int, now: int): string {
      stamp(now - days * 86_400_000)
    }

    /** `isoHoursAgo`. */
    function HoursAgo(hours: int, now: int): string {
      stamp(now - hours * 3_600_000)
    }
  }

  const ISO := Format(NowIso, InstantOfText, InEra)

  /** The instant a stamp is read as. */
  function InstantOfText(s: string): int {
    var t := ParseStoreTimestamp(s);
    if t.Some? then t.value else 0
  }

  /** Texts sort as their instants do, and read back as them. */
  ghost predicate Faithful(f: Format) {
    && (forall t, u :: f.era(t) && f.era(u) ==> (TextLess(f.stamp(t), f.stamp(u)) <==> t < u))
    && (forall t :: f.era(t) ==> f.read(f.stamp(t)) == t)
  }

  lemma StoreFormatIsFaithful()
    ensures Faithful(ISO)
  {
    forall t, u | InEra(t) && InEra(u) ensures TextLess(NowIso(t), NowIso(u)) <==> t < u {
      StampsCompareAsInstants(t, u);
    }
    forall t | InEra(t) ensures InstantOfText(NowIso(t)) == t {
      StampsAreReadBack(t);
    }
  }

  /** The webhook log of a store that stamps its rows in a given format. */
  class LogTable {
    const f: Format
    var rows: seq<Row>

    constructor (f: Format)
      ensures this.f == f && rows == []
    {
      this.f := f;
      rows := [];
    }

    /** An INSERT stamped by the store clock. */
    method Append(id: nat, signatureOk: bool, now: int)
      modifies this
      ensures rows == old(rows) + [Row(id, f.stamp(now), signatureOk)]
    {
      rows := rows + [Row(id, f.stamp(now), signatureOk)];
    }

    /** `purgeCreatedBefore`: the DELETE, row by row, and the number of rows deleted. */
    method PurgeCreatedBefore(cutoff: string) returns (changes: nat)
      modifies this
      ensures rows == NotBefore(old(rows), cutoff)
      ensures changes == |old(rows)| - |rows|
    {
      var kept: seq<Row> := [];
      changes := 0;
      for i := 0 to |rows|
        invariant kept == NotBefore(rows[..i], cutoff)
        invariant changes == i - |kept|
      {
        assert rows[..i + 1][..i] == rows[..i];
        if TextLess(rows[i].createdAt, cutoff) {
          changes := changes + 1;
        } else {
          kept := kept + [rows[i]];
        }
      }
      assert rows[..|rows|] == rows;
      rows := kept;
    }

    /** `countSince` of the store: the rows from a cutoff on, and the refused ones among them. */
    method CountCreatedSince(since: string) returns (total: nat, refused: nat)
      ensures total == |NotBefore(rows, since)| && refused == RefusedRows(NotBefore(rows, since))
    {
      total, refused := 0, 0;
      for i := 0 to |rows|
        invariant total == |NotBefore(rows[..i], since)|
        invariant refused == RefusedRows(NotBefore(rows[..i], since))
      {
        assert rows[..i + 1][..i] == rows[..i];
        if !TextLess(rows[i].createdAt, since) {
          RefusedOneMore(NotBefore(rows[..i], since), rows[i]);
          total := total + 1;
          refused := refused + if rows[i].signatureOk then 0 else 1;
        }
      }
      assert rows[..|rows|] == rows;
    }

    /**
     * `purgeOlderThan` of the facade: of stamped rows, what is left are those whose instant is not before
     * the cutoff instant, and the result is the number of the others.
     */
    method PurgeOlderThan(days: int, now: int) returns (changes: nat)
      modifies this
      ensures rows == NotBefore(old(rows), f.stamp(now - days * DAY_MS))
      ensures changes == |old(rows)| - |rows|
      ensures Faithful(f) && Stamped(old(rows), f) && f.era(now - days * DAY_MS) ==>
                && Stamped(rows, f)
                && InstantsOf(rows, f) == Since(InstantsOf(old(rows), f), now - days * DAY_MS)
    {
      changes := PurgeCreatedBefore(f.DaysAgo(days, now));
      PurgeByInstant(old(rows), now - days * DAY_MS, f);
    }

    /**
     * `countSince` of the facade: how many stamped rows are of an instant not before so many hours ago,
     * and how many of those were refused.
     */
    method CountSince(hours: int, now: int) returns (total: nat, refused: nat)
      ensures Faithful(f) && Stamped(rows, f) && f.era(now - hours * HOUR_MS) ==>
                && total == |Since(InstantsOf(rows, f), now - hours * HOUR_MS)|
                && refused == RefusedMoments(Since(InstantsOf(rows, f), now - hours * HOUR_MS))
    {
      total, refused := CountCreatedSince(f.HoursAgo(hours, now));
      PurgeByInstant(rows, now - hours * HOUR_MS, f);
    }

    method Handle(e: Event)
      modifies this
      ensures rows == Step(old(rows), e, f)
    {
      match e
      case Insert(id, signatureOk, now) => Append(id, signatureOk, now);
      case Purge(days, now) => var _ := PurgeOlderThan(days, now);
    }
  }

  // ---- Stamps as instants ------------------------------------------------------------------------------

  /** A text the clock can have written, in the format's era. */
  ghost predicate IsStamp(s: string, f: Format) {
    f.era(f.read(s)) && f.stamp(f.read(s)) == s
  }

  ghost predicate Stamped(rows: seq<Row>, f: Format) {
    forall i :: 0 <= i < |rows| ==> IsStamp(rows[i].createdAt, f)
  }

  function InstantsOf(rows: seq<Row>, f: Format): (r: seq<Moment>)
    ensures |r| == |rows|
    ensures forall i :: 0 <= i < |rows| ==>
              r[i] == Moment(rows[i].id, f.read(rows[i].createdAt), rows[i].signatureOk)
  {
    seq(|rows|, i requires 0 <= i < |rows| => Moment(rows[i].id, f.read(rows[i].createdAt), rows[i].signatureOk))
  }

  /** What is kept of the rows is what the reference keeps of their instants, and counts alike. */
  ghost predicate FilteredAt(rows: seq<Row>, kept: seq<Row>, cutoff: int, f: Format) {
    && Stamped(kept, f)
    && InstantsOf(kept, f) == Since(InstantsOf(rows, f), cutoff)
    && RefusedRows(kept) == RefusedMoments(InstantsOf(kept, f))
  }

  lemma {:induction false} FilterByInstant(rows: seq<Row>, cutoff: int, f: Format)
    requires Faithful(f) && Stamped(rows, f) && f.era(cutoff)
    ensures FilteredAt(rows, NotBefore(rows, f.stamp(cutoff)), cutoff, f)
  {
    if rows != [] {
      var front, last := rows[..|rows| - 1], rows[|rows| - 1];
      FilterByInstant(front, cutoff, f);
      assert IsStamp(last.createdAt, f);
      StampsCompare(last.createdAt, cutoff, f);
      FilterOneMore(rows, NotBefore(front, f.stamp(cutoff)), cutoff, f);
    }
  }

  lemma FilterOneMore(rows: seq<Row>, kept: seq<Row>, cutoff: int, f: Format)
    requires rows != [] && IsStamp(rows[|rows| - 1].createdAt, f)
    requires FilteredAt(rows[..|rows| - 1], kept, cutoff, f)
    ensures var last := rows[|rows| - 1];
            FilteredAt(rows, if f.read(last.createdAt) < cutoff then kept else kept + [last], cutoff, f)
  {
    assert InstantsOf(rows, f)[..|rows| - 1] == InstantsOf(rows[..|rows| - 1], f);
    OneKeptMore(kept, rows[|rows| - 1], f);
  }

  lemma StampsCompare(s: string, cutoff: int, f: Format)
    requires Faithful(f) && IsStamp(s, f) && f.era(cutoff)
    ensures TextLess(s, f.stamp(cutoff)) <==> f.read(s) < cutoff
  {
    assert TextLess(f.stamp(f.read(s)), f.stamp(cutoff)) <==> f.read(s) < cutoff;
  }

  lemma OneKeptMore(kept: seq<Row>, last: Row, f: Format)
    requires RefusedRows(kept) == RefusedMoments(InstantsOf(kept, f))
    ensures InstantsOf(kept + [last], f) ==
            InstantsOf(kept, f) + [Moment(last.id, f.read(last.createdAt), last.signatureOk)]
    ensures RefusedRows(kept + [last]) == RefusedMoments(InstantsOf(kept + [last], f))
  {
    var moment := Moment(last.id, f.read(last.createdAt), last.signatureOk);
    assert InstantsOf(kept + [last], f) == InstantsOf(kept, f) + [moment];
    RefusedOneMore(kept, last);
    RefusedMomentMore(InstantsOf(kept, f), moment);
  }

  lemma RefusedMomentMore(rows: seq<Moment>, last: Moment)
    ensures RefusedMoments(rows + [last]) == RefusedMoments(rows) + if last.signatureOk then 0 else 1
  {
    var all := rows + [last];
    var were := set i | 0 <= i < |rows| && !rows[i].signatureOk;
    var are := set i | 0 <= i < |all| && !all[i].signatureOk;
    assert are == if last.signatureOk then were else were + {|rows|};
  }

  lemma RefusedOneMore(rows: seq<Row>, row: Row)
    ensures RefusedRows(rows + [row]) == RefusedRows(rows) + if row.signatureOk then 0 else 1
  {
    assert (rows + [row])[..|rows|] == rows;
  }

  /** Comparing texts keeps exactly the rows that comparing instants keeps. */
  lemma PurgeByInstant(rows: seq<Row>, cutoff: int, f: Format)
    ensures Faithful(f) && Stamped(rows, f) && f.era(cutoff) ==>
              FilteredAt(rows, NotBefore(rows, f.stamp(cutoff)), cutoff, f)
  {
    if Faithful(f) && Stamped(rows, f) && f.era(cutoff) {
      FilterByInstant(rows, cutoff, f);
    }
  }

  // ---- The table against time ------------------------------------------------------------------------

  function Step(rows: seq<Row>, e: Event, f: Format): seq<Row> {
    match e
    case Insert(id, ok, now) => rows + [Row(id, f.stamp(now), ok)]
    case Purge(days, now) => NotBefore(rows, f.stamp(now - days * DAY_MS))
  }

  function Stored(run: seq<Event>, f: Format): seq<Row> {
    if run == [] then [] else Step(Stored(run[..|run| - 1], f), run[|run| - 1], f)
  }

  /** The reference: rows hold instants, and a purge removes those before its cutoff instant. */
  function Since(rows: seq<Moment>, cutoff: int): seq<Moment> {
    if rows == [] then []
    else
      var rest := Since(rows[..|rows| - 1], cutoff);
      var last := rows[|rows| - 1];
      if last.at < cutoff then rest else rest + [last]
  }

  function MeantStep(rows: seq<Moment>, e: Event): seq<Moment> {
    match e
    case Insert(id, ok, now) => rows + [Moment(id, now, ok)]
    case Purge(days, now) => Since(rows, now - days * DAY_MS)
  }

  function Meant(run: seq<Event>): seq<Moment> {
    if run == [] then [] else MeantStep(Meant(run[..|run| - 1]), run[|run| - 1])
  }

  /** The instants an event writes or compares with. */
  predicate EventWithin(e: Event, f: Format) {
    match e
    case Insert(_, _, now) => f.era(now)
    case Purge(days, now) => f.era(now - days * DAY_MS)
  }

  lemma StepFollowsTime(rows: seq<Row>, e: Event, f: Format)
    requires Faithful(f) && Stamped(rows, f) && EventWithin(e, f)
    ensures Stamped(Step(rows, e, f), f)
    ensures InstantsOf(Step(rows, e, f), f) == MeantStep(InstantsOf(rows, f), e)
  {
    match e
    case Insert(_, _, now) => assert f.read(f.stamp(now)) == now;
    case Purge(days, now) => FilterByInstant(rows, now - days * DAY_MS, f);
  }

  lemma {:induction false} RowsFollowTime(run: seq<Event>, f: Format)
    requires Faithful(f) && forall i :: 0 <= i < |run| ==> EventWithin(run[i], f)
    ensures Stamped(Stored(run, f), f) && InstantsOf(Stored(run, f), f) == Meant(run)
  {
    if run != [] {
      var front, e := run[..|run| - 1], run[|run| - 1];
      RowsFollowTime(front, f);
      StepFollowsTime(Stored(front, f), e, f);
    }
  }

  /**
   * Over any run of writes and purges in four-digit years the table holds exactly the rows that purging
   * by instant would leave, in the same order.
   */
  lemma TableFollowsTime(run: seq<Event>)
    requires forall i :: 0 <= i < |run| ==> EventWithin(run[i], ISO)
    ensures Stamped(Stored(run, ISO), ISO) && InstantsOf(Stored(run, ISO), ISO) == Meant(run)
  {
    StoreFormatIsFaithful();
    RowsFollowTime(run, ISO);
  }

  /** No row survives a purge that is older than the cutoff, and none that is not is lost. */
  lemma {:induction false} SinceIsExact(rows: seq<Moment>, cutoff: int, m: Moment)
    ensures multiset(Since(rows, cutoff))[m] == if m.at < cutoff then 0 else multiset(rows)[m]
  {
    if rows != [] {
      SinceIsExact(rows[..|rows| - 1], cutoff, m);
      assert rows == rows[..|rows| - 1] + [rows[|rows| - 1]];
    }
  }

  // ---- Rows of the older format ----------------------------------------------------------------------

  /** A row in the legacy format counts as older than a cutoff as soon as its date is not later. */
  lemma LegacyComparesByDate(a: Civil, b: Civil)
    requires Valid(a) && Valid(b) && FourDigitYear(a) && FourDigitYear(b)
    ensures TextLess(Legacy(a), Iso(b)) <==> !DateBefore(b, a)
  {
    Widths();
    var u, v := " " + Clock(a), "T" + (Clock(b) + ("." + (Pad(b.milli, 3) + "Z")));
    assert u[0] == ' ' && v[0] == 'T';
    DateOrder(a, b, u, v);
    FieldOrder(a.year, b.year, 4, Date(a) + u, Date(b) + v);
  }

  /**
   * Such a comparison goes wrong exactly on the calendar day of the cutoff, for the rows written no
   * earlier than it: those a purge deletes too early and a rolling count leaves out.
   */
  lemma LegacyIsMisjudgedExactlyOnTheCutoffDay(a: Civil, b: Civil)
    requires Valid(a) && Valid(b) && FourDigitYear(a) && FourDigitYear(b)
    ensures (TextLess(Legacy(a), Iso(b)) <==> Instant(a) < Instant(b)) <==>
            !(SameDate(a, b) && !TimeBefore(a, b))
  {
    LegacyComparesByDate(a, b);
    InstantsFollowFields(a, b);
  }
}
