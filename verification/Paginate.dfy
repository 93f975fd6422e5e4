/**
 * Streaming pagination (src/sync/paginate.ts). A stream is what a consumer that reads to the end is
 * given: the values yielded, and whether the generator then throws instead of ending.
 */
module Paginate {
  import opened Wrappers

  const MAX_PAGES := 100_000

  /** What `fetchPage` answers: rows, something that is not an array, or a rejection. */
  datatype Fetch<+T> = Rows(rows: seq<T>) | NotAnArray | Rejected

  datatype Stream<+T> = Stream(items: seq<T>, failed: bool)

  predicate IsShort<T>(rows: seq<T>, pageSize: Option<int>) {
    pageSize.Some? && |rows| < pageSize.value
  }

  /** `streamPages`; each page number is fetched at most once, so the answers are a function of it. */
  method StreamPages<T>(fetch: int -> Fetch<T>, startPage: Option<int>, pageSize: Option<int>)
    returns (pages: Stream<seq<T>>)
    ensures IsWalk(fetch, if startPage.Some? then startPage.value else 1, pageSize, pages)
  {
    var start := Start(startPage);
    var page := start;
    var yielded: seq<seq<T>> := [];
    while true
      invariant page == start + |yielded| && |yielded| <= MAX_PAGES
      invariant AllPassedOn(fetch, start, pageSize, yielded)
      decreases MAX_PAGES - |yielded|
    {
      if page - start >= MAX_PAGES {
        return Stream(yielded, true);
      }
      var answer := fetch(page);
      if answer.Rejected? {
        return Stream(yielded, true);
      }
      if answer.NotAnArray? || |answer.rows| == 0 {
        return Stream(yielded, false);
      }
      var before := yielded;
      yielded := yielded + [answer.rows];
      AllPassedOnMore(fetch, start, pageSize, before, answer.rows);
      if IsShort(answer.rows, pageSize) {
        return Stream(yielded, false);
      }
      page := page + 1;
    }
  }

  /** `paginate`: the same walk, row by row. */
  method PaginateItems<T>(fetch: int -> Fetch<T>, startPage: Option<int>, pageSize: Option<int>)
    returns (stream: Stream<T>, ghost pages: seq<seq<T>>)
    ensures IsWalk(fetch, if startPage.Some? then startPage.value else 1, pageSize, Stream(pages, stream.failed))
    ensures stream.items == Flatten(pages)
  {
    var start := Start(startPage);
    var page := start;
    var items: seq<T> := [];
    pages := [];
    while true
      invariant page == start + |pages| && |pages| <= MAX_PAGES
      invariant items == Flatten(pages)
      invariant AllPassedOn(fetch, start, pageSize, pages)
      decreases MAX_PAGES - |pages|
    {
      if page - start >= MAX_PAGES {
        return Stream(items, true), pages;
      }
      var answer := fetch(page);
      if answer.Rejected? {
        return Stream(items, true), pages;
      }
      if answer.NotAnArray? || |answer.rows| == 0 {
        return Stream(items, false), pages;
      }
      ghost var before := pages;
      items := YieldRows(items, answer.rows);
      pages := pages + [answer.rows];
      FlattenOneMore(before, answer.rows);
      AllPassedOnMore(fetch, start, pageSize, before, answer.rows);
      if IsShort(answer.rows, pageSize) {
        return Stream(items, false), pages;
      }
      page := page + 1;
    }
  }

  /** The inner loop: the rows of one page, one at a time. */
  method YieldRows<T>(yielded: seq<T>, rows: seq<T>) returns (items: seq<T>)
    ensures items == yielded + rows
  {
    items := yielded;
    for r := 0 to |rows|
      invariant items == yielded + rows[..r]
    {
      items := items + [rows[r]];
    }
  }

  function Start(startPage: Option<int>): int {
    if startPage.Some? then startPage.value else 1
  }

  function Flatten<T>(pages: seq<seq<T>>): seq<T> {
    if pages == [] then [] else pages[0] + Flatten(pages[1..])
  }

  lemma {:induction false} FlattenConcat<T>(a: seq<seq<T>>, b: seq<seq<T>>)
    ensures Flatten(a + b) == Flatten(a) + Flatten(b)
  {
    if a == [] {
      assert a + b == b;
    } else {
      assert (a + b)[1..] == a[1..] + b;
      FlattenConcat(a[1..], b);
    }
  }

  lemma FlattenOneMore<T>(pages: seq<seq<T>>, page: seq<T>)
    ensures Flatten(pages + [page]) == Flatten(pages) + page
  {
    FlattenConcat(pages, [page]);
    assert [page][1..] == [] && Flatten([page]) == page + Flatten<T>([]);
  }

  // ---- What a walk is --------------------------------------------------------------------------------

  /** A page that was yielded and did not end the stream. */
  predicate PassedOn<T(==)>(fetch: int -> Fetch<T>, start: int, pageSize: Option<int>, k: int, rows: seq<T>) {
    IsPage(fetch, start + k, rows) && !IsShort(rows, pageSize)
  }

  ghost predicate AllPassedOn<T>(fetch: int -> Fetch<T>, start: int, pageSize: Option<int>, pages: seq<seq<T>>) {
    forall k :: 0 <= k < |pages| ==> PassedOn(fetch, start, pageSize, k, pages[k])
  }

  /** One page more: the earlier ones were passed on, and so was it unless it is short. */
  lemma AllPassedOnMore<T>(
      fetch: int -> Fetch<T>, start: int, pageSize: Option<int>, pages: seq<seq<T>>, rows: seq<T>)
    requires AllPassedOn(fetch, start, pageSize, pages) && IsPage(fetch, start + |pages|, rows)
    ensures forall k :: 0 <= k < |pages| ==> PassedOn(fetch, start, pageSize, k, (pages + [rows])[k])
    ensures !IsShort(rows, pageSize) ==> AllPassedOn(fetch, start, pageSize, pages + [rows])
  {
  }

  predicate IsPage<T(==)>(fetch: int -> Fetch<T>, page: int, rows: seq<T>) {
    fetch(page) == Rows(rows) && rows != []
  }

  /** The answers that end a walk by themselves: no rows, or a rejection. */
  predicate EndsAt<T(==)>(fetch: int -> Fetch<T>, page: int, failed: bool) {
    match fetch(page)
    case Rejected => failed
    case NotAnArray => !failed
    case Rows(rows) => rows == [] && !failed
  }

  /**
   * The pages yielded are the answers from the start page on, all but the last of them full; what
   * comes next ends the stream: a short page, an empty answer, a rejection, or the page limit.
   */
  ghost predicate IsWalk<T>(fetch: int -> Fetch<T>, start: int, pageSize: Option<int>, pages: Stream<seq<T>>) {
    var n := |pages.items|;
    && n <= MAX_PAGES
    && (forall k :: 0 <= k < n - 1 ==> PassedOn(fetch, start, pageSize, k, pages.items[k]))
    && (n > 0 ==> IsPage(fetch, start + n - 1, pages.items[n - 1]))
    && if n > 0 && IsShort(pages.items[n - 1], pageSize) then !pages.failed
       else if n == MAX_PAGES then pages.failed
       else EndsAt(fetch, start + n, pages.failed)
  }

  /** There is exactly one walk: the two generators see the same pages and fail together. */
  lemma WalkIsUnique<T>(
      fetch: int -> Fetch<T>, start: int, pageSize: Option<int>, a: Stream<seq<T>>, b: Stream<seq<T>>)
    requires IsWalk(fetch, start, pageSize, a) && IsWalk(fetch, start, pageSize, b)
    ensures a == b
  {
    NoLongerWalk(fetch, start, pageSize, a, b);
    NoLongerWalk(fetch, start, pageSize, b, a);
    PagesAreAnswers(fetch, start, pageSize, a);
    PagesAreAnswers(fetch, start, pageSize, b);
    forall k | 0 <= k < |a.items| ensures a.items[k] == b.items[k] {
      assert fetch(start + k) == Rows(a.items[k]);
    }
  }

  lemma NoLongerWalk<T>(
      fetch: int -> Fetch<T>, start: int, pageSize: Option<int>, a: Stream<seq<T>>, b: Stream<seq<T>>)
    requires IsWalk(fetch, start, pageSize, a) && IsWalk(fetch, start, pageSize, b)
    ensures |b.items| <= |a.items|
  {
    PagesAreAnswers(fetch, start, pageSize, a);
    PagesAreAnswers(fetch, start, pageSize, b);
    WalkStopsThere(fetch, start, pageSize, a);
  }

  /** After the last page of a walk there is none: the limit is reached, no rows come, or it was short. */
  lemma WalkStopsThere<T>(fetch: int -> Fetch<T>, start: int, pageSize: Option<int>, pages: Stream<seq<T>>)
    requires IsWalk(fetch, start, pageSize, pages)
    ensures var n := |pages.items|;
            n == MAX_PAGES || !HasRows(fetch, start, n) || (n > 0 && !GoesOn(fetch, start, pageSize, n - 1))
  {
  }

  predicate HasRows<T(==)>(fetch: int -> Fetch<T>, start: int, k: int) {
    fetch(start + k).Rows? && fetch(start + k).rows != []
  }

  lemma PagesAreAnswers<T>(fetch: int -> Fetch<T>, start: int, pageSize: Option<int>, pages: Stream<seq<T>>)
    requires IsWalk(fetch, start, pageSize, pages)
    ensures forall k :: 0 <= k < |pages.items| ==> fetch(start + k) == Rows(pages.items[k]) && pages.items[k] != []
    ensures forall k :: 0 <= k < |pages.items| - 1 ==> !IsShort(pages.items[k], pageSize)
    ensures forall k :: 0 <= k < |pages.items| ==> HasRows(fetch, start, k)
    ensures forall k :: 0 <= k < |pages.items| - 1 ==> GoesOn(fetch, start, pageSize, k)
  {
    forall k | 0 <= k < |pages.items| - 1 ensures GoesOn(fetch, start, pageSize, k) {
      assert PassedOn(fetch, start, pageSize, k, pages.items[k]);
    }
    forall k | 0 <= k < |pages.items| - 1
      ensures fetch(start + k) == Rows(pages.items[k]) && pages.items[k] != []
      ensures !IsShort(pages.items[k], pageSize)
    {
      assert PassedOn(fetch, start, pageSize, k, pages.items[k]);
    }
    forall k | 0 <= k < |pages.items| ensures HasRows(fetch, start, k) {
      assert fetch(start + k) == Rows(pages.items[k]) && pages.items[k] != [];
    }
  }

  /** The answer at a page that leaves the walk going. */
  predicate GoesOn<T(==)>(fetch: int -> Fetch<T>, start: int, pageSize: Option<int>, k: int) {
    match fetch(start + k)
    case Rows(rows) => rows != [] && !IsShort(rows, pageSize)
    case _ => false
  }

  /** The first page, of at most MAX_PAGES, that does not leave the walk going; it is not a rejection. */
  ghost predicate EndsWithin<T>(fetch: int -> Fetch<T>, start: int, pageSize: Option<int>, k: nat) {
    && k < 100_000
    && (forall j :: 0 <= j < k ==> GoesOn(fetch, start, pageSize, j))
    && !GoesOn(fetch, start, pageSize, k) && !fetch(start + k).Rejected?
  }

  /**
   * A walk ends well exactly when one of the first MAX_PAGES answers is a last page, with no rejection
   * before it. MAX_PAGES full pages are an error even if nothing comes after them.
   */
  lemma EndsWellExactlyWhen<T>(
      fetch: int -> Fetch<T>, start: int, pageSize: Option<int>, pages: Stream<seq<T>>)
    requires IsWalk(fetch, start, pageSize, pages)
    ensures !pages.failed <==> exists k: nat :: EndsWithin(fetch, start, pageSize, k)
  {
    var n := |pages.items|;
    PagesAreAnswers(fetch, start, pageSize, pages);
    forall j | 0 <= j < n && (j < n - 1 || !IsShort(pages.items[j], pageSize))
      ensures GoesOn(fetch, start, pageSize, j)
    {
      assert fetch(start + j) == Rows(pages.items[j]);
    }
    assert n < MAX_PAGES && pages.failed ==> !GoesOn(fetch, start, pageSize, n);
    if !pages.failed {
      if n > 0 && IsShort(pages.items[n - 1], pageSize) {
        assert EndsWithin(fetch, start, pageSize, n - 1);
      } else {
        assert EndsWithin(fetch, start, pageSize, n);
      }
    }
  }

  /**
   * A page ends the walk for its length only if it holds fewer rows than the page size asked for: so all
   * pages but the last hold at least that many, and without a page size none ends it.
   */
  lemma ShortPagesEndTheWalk<T>(fetch: int -> Fetch<T>, start: int, pageSize: Option<int>, pages: Stream<seq<T>>)
    requires IsWalk(fetch, start, pageSize, pages)
    ensures forall k :: 0 <= k < |pages.items| - 1 && pageSize.Some? ==> |pages.items[k]| >= pageSize.value
    ensures var n := |pages.items|;
            n > 0 && pageSize.Some? && |pages.items[n - 1]| < pageSize.value ==> !pages.failed
    ensures var n := |pages.items|;
            (n == 0 || pageSize.None? || |pages.items[n - 1]| >= pageSize.value) && n < 100_000 ==>
              match fetch(start + n)
              case Rejected => pages.failed
              case NotAnArray => !pages.failed
              case Rows(rows) => rows == [] && !pages.failed
  {
    PagesAreAnswers(fetch, start, pageSize, pages);
  }
}
