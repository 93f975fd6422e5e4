/**
 * The keyed token bucket (src/runtime/rate-limiter.ts): one bucket per key in an insertion-ordered
 * map of at most `maxKeys` entries. Time is in milliseconds; tokens are reals.
 */
module RateLimiter {
  import opened Wrappers

  datatype Limits = Limits(capacity: real, refillPerSec: real, maxKeys: int)

  datatype Bucket = Bucket(tokens: real, last: int)

  // ---- One bucket --------------------------------------------------------------------------------

  /** What flows in during `ms` milliseconds. */
  function Inflow(l: Limits, ms: int): real {
    ms as real / 1000.0 * l.refillPerSec
  }

  function Refill(l: Limits, b: Bucket, t: int): Bucket {
    var tokens := b.tokens + Inflow(l, t - b.last);
    Bucket(if tokens < l.capacity then tokens else l.capacity, t)
  }

  /** A call on a bucket, which starts full if there is none yet. */
  function Take(l: Limits, known: Option<Bucket>, t: int): (Bucket, bool) {
    var b := Refill(l, if known.Some? then known.value else Bucket(l.capacity, t), t);
    if b.tokens < 1.0 then (b, false) else (b.(tokens := b.tokens - 1.0), true)
  }

  // ---- The map -----------------------------------------------------------------------------------

  /** The entries of the map and the order in which their keys were inserted. */
  datatype State<!K> = State(order: seq<K>, buckets: map<K, Bucket>)

  ghost predicate WellFormed<K>(s: State<K>) {
    && (forall k :: k in s.order ==> k in s.buckets)
    && (forall k :: k in s.buckets ==> k in s.order)
    && Distinct(s.order)
  }

  ghost predicate Distinct<K>(keys: seq<K>) {
    forall i, j :: 0 <= i < j < |keys| ==> keys[i] != keys[j]
  }

  function Without<K(==)>(keys: seq<K>, k: K): seq<K> {
    if keys == [] then []
    else
      var n := |keys| - 1;
      if keys[n] == k then Without(keys[..n], k) else Without(keys[..n], k) + [keys[n]]
  }

  function Remove<K(==)>(s: State<K>, k: K): State<K> {
    State(Without(s.order, k), s.buckets - {k})
  }

  function RemoveAll<K(==)>(s: State<K>, keys: seq<K>): State<K> {
    if keys == [] then s else Remove(RemoveAll(s, keys[..|keys| - 1]), keys[|keys| - 1])
  }

  function Lookup<K>(s: State<K>, k: K): Option<Bucket> {
    if k in s.buckets then Some(s.buckets[k]) else None
  }

  function Store<K(==)>(s: State<K>, k: K, b: Bucket): State<K> {
    State(if k in s.buckets then s.order else s.order + [k], s.buckets[k := b])
  }

  /** The first pass of an eviction: full buckets go, until there is room. */
  function Prune<K(==)>(l: Limits, s: State<K>, keys: seq<K>): State<K>
    decreases |keys|
  {
    if keys == [] then s
    else
      var b := Lookup(s, keys[0]);
      var next := if b.Some? && b.value.tokens >= l.capacity then Remove(s, keys[0]) else s;
      if |next.order| < l.maxKeys then next else Prune(l, next, keys[1..])
  }

  function LastSeen<K>(s: State<K>, k: K): int {
    if k in s.buckets then s.buckets[k].last else 0
  }

  function Insert<K>(s: State<K>, sorted: seq<K>, k: K): (r: seq<K>)
    ensures |r| == |sorted| + 1
  {
    if sorted == [] then [k]
    else
      var n := |sorted| - 1;
      if LastSeen(s, sorted[n]) <= LastSeen(s, k) then sorted + [k] else Insert(s, sorted[..n], k) + [sorted[n]]
  }

  /** The keys sorted by when they were last seen; the sort is stable. */
  function SortByLastSeen<K>(s: State<K>, keys: seq<K>): (sorted: seq<K>)
    ensures |sorted| == |keys|
  {
    if keys == [] then [] else Insert(s, SortByLastSeen(s, keys[..|keys| - 1]), keys[|keys| - 1])
  }

  /** The second pass: the least recently seen keys go, as many as exceed the room for one more. */
  function DropOldest<K(==)>(l: Limits, s: State<K>): State<K> {
    var sorted := SortByLastSeen(s, s.order);
    var excess := |s.order| - l.maxKeys + 1;
    if excess <= 0 then s else RemoveAll(s, sorted[..if excess < |sorted| then excess else |sorted|])
  }

  /** `evict`. */
  function Evict<K(==)>(l: Limits, s: State<K>): State<K> {
    DropOldest(l, Prune(l, s, s.order))
  }

  function Room<K(==)>(l: Limits, s: State<K>, key: K): State<K> {
    if key !in s.buckets && |s.order| >= l.maxKeys then Evict(l, s) else s
  }

  /** One call of the limiter. */
  function Allow<K(==)>(l: Limits, s: State<K>, key: K, t: int): (State<K>, bool) {
    var room := Room(l, s, key);
    var (b, ok) := Take(l, Lookup(s, key), t);
    (Store(room, key, b), ok)
  }

  /** The limiter as the source builds it: a map updated in place. */
  class Limiter<!K(==)> {
    const limits: Limits
    var order: seq<K>
    var buckets: map<K, Bucket>

    constructor (limits: Limits)
      ensures this.limits == limits && View() == State([], map[])
    {
      this.limits := limits;
      order, buckets := [], map[];
    }

    ghost function View(): State<K>
      reads this
    {
      State(order, buckets)
    }

    method Delete(k: K)
      modifies this
      ensures View() == Remove(old(View()), k)
    {
      order := Without(order, k);
      buckets := buckets - {k};
    }

    method EvictKeys()
      modifies this
      ensures View() == Evict(limits, old(View()))
    {
      var keys := order;
      var i := 0;
      while i < |keys|
        invariant 0 <= i <= |keys|
        invariant Prune(limits, old(View()), keys) == Prune(limits, View(), keys[i..])
      {
        assert keys[i..][1..] == keys[i + 1..];
        var k := keys[i];
        if k in buckets && buckets[k].tokens >= limits.capacity {
          Delete(k);
        }
        if |order| < limits.maxKeys {
          return;
        }
        i := i + 1;
      }
      if |order| < limits.maxKeys {
        return;
      }
      DropOldestKeys();
    }

    /** The second pass. */
    method DropOldestKeys()
      modifies this
      ensures View() == DropOldest(limits, old(View()))
    {
      var entries := SortByLastSeen(State(order, buckets), order);
      var toRemove := |order| - limits.maxKeys + 1;
      var i := 0;
      while i < toRemove && i < |entries|
        invariant 0 <= i <= |entries| && (i <= toRemove || i == 0)
        invariant View() == RemoveAll(old(View()), entries[..i])
      {
        assert entries[..i + 1][..i] == entries[..i];
        Delete(entries[i]);
        i := i + 1;
      }
    }

    /** The function the limiter returns; `t` is the reading of the clock. */
    method Call(key: K, t: int) returns (ok: bool)
      modifies this
      ensures (View(), ok) == Allow(limits, old(View()), key, t)
    {
      var existing := if key in buckets then Some(buckets[key]) else None;
      if key !in buckets && |order| >= limits.maxKeys {
        EvictKeys();
      }
      var b := if existing.Some? then existing.value else Bucket(limits.capacity, t);
      b := Refill(limits, b, t);
      if b.tokens < 1.0 {
        ok := false;
      } else {
        b := b.(tokens := b.tokens - 1.0);
        ok := true;
      }
      if key !in buckets {
        order := order + [key];
      }
      buckets := buckets[key := b];
    }
  }

  // ---- The map stays bounded -----------------------------------------------------------------------

  /** A list of distinct keys is a shorter one and a key that is not on it. */
  lemma SplitLast<K>(keys: seq<K>)
    requires keys != []
    ensures forall x :: x in keys ==> x in keys[..|keys| - 1] || x == keys[|keys| - 1]
    ensures forall x :: x in keys[..|keys| - 1] ==> x in keys
    ensures Distinct(keys) ==> Distinct(keys[..|keys| - 1]) && keys[|keys| - 1] !in keys[..|keys| - 1]
  {
    assert keys == keys[..|keys| - 1] + [keys[|keys| - 1]];
  }

  lemma {:induction false} WithoutSpec<K>(keys: seq<K>, k: K)
    requires Distinct(keys)
    ensures var r := Without(keys, k);
            && |r| == |keys| - (if k in keys then 1 else 0)
            && (forall x :: x in r ==> x in keys && x != k)
            && (forall x :: x in keys && x != k ==> x in r)
            && Distinct(r)
  {
    if keys != [] {
      var n := |keys| - 1;
      WithoutSpec(keys[..n], k);
      SplitLast(keys);
    }
  }

  lemma RemoveWellFormed<K>(s: State<K>, k: K)
    requires WellFormed(s)
    ensures WellFormed(Remove(s, k))
    ensures |Remove(s, k).order| == |s.order| - if k in s.order then 1 else 0
  {
    WithoutSpec(s.order, k);
    var r := Remove(s, k);
    forall x | x in r.order ensures x in r.buckets {
      assert x in s.order;
    }
    forall x | x in r.buckets ensures x in r.order {
      assert x in s.order;
    }
  }

  function KeySet<K(==)>(keys: seq<K>): set<K> {
    set k | k in keys
  }

  lemma KeySetOneMore<K>(keys: seq<K>)
    requires keys != []
    ensures KeySet(keys) == KeySet(keys[..|keys| - 1]) + {keys[|keys| - 1]}
  {
    SplitLast(keys);
  }

  lemma {:induction false} RemoveAllWellFormed<K>(s: State<K>, keys: seq<K>)
    requires WellFormed(s)
    requires Distinct(keys)
    requires forall k :: k in keys ==> k in s.order
    ensures WellFormed(RemoveAll(s, keys))
    ensures |RemoveAll(s, keys).order| == |s.order| - |keys|
    ensures RemoveAll(s, keys).buckets == s.buckets - KeySet(keys)
  {
    if keys != [] {
      var n := |keys| - 1;
      RemoveAllWellFormed(s, keys[..n]);
      RemoveWellFormed(RemoveAll(s, keys[..n]), keys[n]);
      assert keys[n] in s.order && keys[n] !in keys[..n];
      KeySetOneMore(keys);
    }
  }

  lemma {:induction false} PruneWellFormed<K>(l: Limits, s: State<K>, keys: seq<K>)
    requires WellFormed(s)
    ensures WellFormed(Prune(l, s, keys))
    ensures |Prune(l, s, keys).order| <= |s.order|
    decreases |keys|
  {
    if keys != [] {
      RemoveWellFormed(s, keys[0]);
      var b := Lookup(s, keys[0]);
      var next := if b.Some? && b.value.tokens >= l.capacity then Remove(s, keys[0]) else s;
      PruneWellFormed(l, next, keys[1..]);
    }
  }

  lemma {:induction false} InsertSpec<K>(s: State<K>, sorted: seq<K>, k: K)
    requires Distinct(sorted)
    requires k !in sorted
    ensures var r := Insert(s, sorted, k);
            && (forall x :: x in r ==> x in sorted || x == k)
            && (forall x :: x in sorted ==> x in r)
            && k in r
            && Distinct(r)
  {
    if sorted != [] {
      var n := |sorted| - 1;
      SplitLast(sorted);
      InsertSpec(s, sorted[..n], k);
    }
  }

  lemma {:induction false} SortSpec<K>(s: State<K>, keys: seq<K>)
    requires Distinct(keys)
    ensures var r := SortByLastSeen(s, keys);
            && (forall x :: x in r ==> x in keys)
            && (forall x :: x in keys ==> x in r)
            && Distinct(r)
  {
    if keys != [] {
      var n := |keys| - 1;
      SplitLast(keys);
      SortSpec(s, keys[..n]);
      InsertSpec(s, SortByLastSeen(s, keys[..n]), keys[n]);
    }
  }

  lemma PrefixSpec<K>(sorted: seq<K>, keys: seq<K>, n: nat)
    requires n <= |sorted| && Distinct(sorted) && forall k :: k in sorted ==> k in keys
    ensures Distinct(sorted[..n]) && forall k :: k in sorted[..n] ==> k in keys
  {
    forall k | k in sorted[..n] ensures k in keys {
      assert k in sorted;
    }
  }

  lemma DropMakesRoom<K>(l: Limits, s: State<K>)
    requires WellFormed(s) && l.maxKeys >= 1
    ensures WellFormed(DropOldest(l, s)) && |DropOldest(l, s).order| < l.maxKeys
  {
    var excess := |s.order| - l.maxKeys + 1;
    if excess > 0 {
      SortSpec(s, s.order);
      PrefixSpec(SortByLastSeen(s, s.order), s.order, excess);
      RemoveAllWellFormed(s, SortByLastSeen(s, s.order)[..excess]);
    }
  }

  /** Whatever the capacity, an eviction leaves room for one more key. */
  lemma EvictMakesRoom<K>(l: Limits, s: State<K>)
    requires WellFormed(s) && l.maxKeys >= 1
    ensures WellFormed(Evict(l, s)) && |Evict(l, s).order| < l.maxKeys
  {
    PruneWellFormed(l, s, s.order);
    DropMakesRoom(l, Prune(l, s, s.order));
  }

  lemma AllowStaysBounded<K>(l: Limits, s: State<K>, key: K, t: int)
    requires WellFormed(s) && |s.order| <= l.maxKeys && l.maxKeys >= 1
    ensures WellFormed(Allow(l, s, key, t).0) && |Allow(l, s, key, t).0.order| <= l.maxKeys
  {
    if key !in s.buckets && |s.order| >= l.maxKeys {
      EvictMakesRoom(l, s);
    }
    EvictKeepsAbsent(l, s, key);
  }

  lemma {:induction false} PruneKeepsAbsent<K>(l: Limits, s: State<K>, keys: seq<K>, key: K)
    requires key !in s.buckets
    ensures key !in Prune(l, s, keys).buckets
    decreases |keys|
  {
    if keys != [] {
      var b := Lookup(s, keys[0]);
      var next := if b.Some? && b.value.tokens >= l.capacity then Remove(s, keys[0]) else s;
      PruneKeepsAbsent(l, next, keys[1..], key);
    }
  }

  lemma {:induction false} RemoveAllKeepsAbsent<K>(s: State<K>, keys: seq<K>, key: K)
    requires key !in s.buckets
    ensures key !in RemoveAll(s, keys).buckets
  {
    if keys != [] {
      RemoveAllKeepsAbsent(s, keys[..|keys| - 1], key);
    }
  }

  lemma EvictKeepsAbsent<K>(l: Limits, s: State<K>, key: K)
    ensures key !in s.buckets ==> key !in Evict(l, s).buckets
  {
    if key !in s.buckets {
      PruneKeepsAbsent(l, s, s.order, key);
      var pruned := Prune(l, s, s.order);
      var sorted := SortByLastSeen(pruned, pruned.order);
      var excess := |pruned.order| - l.maxKeys + 1;
      if excess > 0 {
        RemoveAllKeepsAbsent(pruned, sorted[..if excess < |sorted| then excess else |sorted|], key);
      }
    }
  }

  // ---- What an eviction drops ----------------------------------------------------------------------

  /** No bucket is full: every one has been called, and a call takes a token or finds less than one. */
  ghost predicate NoneFull<K>(l: Limits, s: State<K>) {
    forall k :: k in s.buckets ==> s.buckets[k].tokens < l.capacity
  }

  lemma {:induction false} NothingToPrune<K>(l: Limits, s: State<K>, keys: seq<K>)
    requires NoneFull(l, s) && |s.order| >= l.maxKeys
    ensures Prune(l, s, keys) == s
    decreases |keys|
  {
    if keys != [] {
      NothingToPrune(l, s, keys[1..]);
    }
  }

  /** The least recently seen key, the earliest inserted if several were seen at the same instant. */
  ghost predicate IsOldest<K>(s: State<K>, keys: seq<K>, k: K) {
    exists i :: 0 <= i < |keys| && keys[i] == k && OldestAt(s, keys, i)
  }

  ghost predicate OldestAt<K>(s: State<K>, keys: seq<K>, i: int)
    requires 0 <= i < |keys|
  {
    && (forall j :: 0 <= j < i ==> LastSeen(s, keys[i]) < LastSeen(s, keys[j]))
    && (forall j :: i < j < |keys| ==> LastSeen(s, keys[i]) <= LastSeen(s, keys[j]))
  }

  ghost predicate Sorted<K>(s: State<K>, keys: seq<K>) {
    forall i, j :: 0 <= i < j < |keys| ==> LastSeen(s, keys[i]) <= LastSeen(s, keys[j])
  }

  lemma {:induction false} InsertSorted<K>(s: State<K>, sorted: seq<K>, k: K)
    requires Sorted(s, sorted)
    ensures Sorted(s, Insert(s, sorted, k))
    ensures sorted != [] ==> Insert(s, sorted, k)[0] == if LastSeen(s, k) < LastSeen(s, sorted[0]) then k else sorted[0]
    ensures forall x :: x in Insert(s, sorted, k) ==> x in sorted || x == k
  {
    if sorted != [] {
      var n := |sorted| - 1;
      if LastSeen(s, sorted[n]) > LastSeen(s, k) {
        InsertSorted(s, sorted[..n], k);
        var r := Insert(s, sorted[..n], k);
        forall x | x in r ensures LastSeen(s, x) <= LastSeen(s, sorted[n]) {
        }
        forall i | 0 <= i < |r| ensures LastSeen(s, r[i]) <= LastSeen(s, sorted[n]) {
          assert r[i] in r;
        }
      }
    }
  }

  lemma {:induction false} SortIsSorted<K>(s: State<K>, keys: seq<K>)
    ensures Sorted(s, SortByLastSeen(s, keys))
  {
    if keys != [] {
      SortIsSorted(s, keys[..|keys| - 1]);
      InsertSorted(s, SortByLastSeen(s, keys[..|keys| - 1]), keys[|keys| - 1]);
    }
  }

  /** The head of the sorted keys, by the head of all but the last and the last. */
  lemma SortedHead<K>(s: State<K>, keys: seq<K>)
    requires |keys| >= 2
    ensures var head, last := SortByLastSeen(s, keys[..|keys| - 1])[0], keys[|keys| - 1];
            SortByLastSeen(s, keys)[0] == if LastSeen(s, last) < LastSeen(s, head) then last else head
  {
    var init := keys[..|keys| - 1];
    SortIsSorted(s, init);
    InsertSorted(s, SortByLastSeen(s, init), keys[|keys| - 1]);
  }

  lemma OldestOneMore<K>(s: State<K>, keys: seq<K>, i: nat)
    requires i < |keys| - 1 && OldestAt(s, keys[..|keys| - 1], i)
    ensures OldestAt(s, keys, if LastSeen(s, keys[|keys| - 1]) < LastSeen(s, keys[i]) then |keys| - 1 else i)
  {
    var init := keys[..|keys| - 1];
    assert forall j :: 0 <= j < |init| ==> keys[j] == init[j];
    assert forall j :: 0 <= j < |init| ==> LastSeen(s, keys[i]) <= LastSeen(s, keys[j]);
  }

  lemma {:induction false} SortedHeadIsOldest<K>(s: State<K>, keys: seq<K>) returns (i: nat)
    requires keys != []
    ensures i < |keys| && keys[i] == SortByLastSeen(s, keys)[0] && OldestAt(s, keys, i)
  {
    var n := |keys| - 1;
    if n == 0 {
      assert SortByLastSeen(s, keys[..n]) == [];
      i := 0;
    } else {
      i := SortedHeadIsOldest(s, keys[..n]);
      SortedHead(s, keys);
      OldestOneMore(s, keys, i);
      if LastSeen(s, keys[n]) < LastSeen(s, keys[i]) {
        i := n;
      }
    }
  }

  /**
   * In a full map without full buckets the first pass removes nothing, and the eviction drops
   * exactly one key: the least recently seen one. Every other bucket is untouched.
   */
  lemma EvictDropsTheOldest<K>(l: Limits, s: State<K>) returns (oldest: K)
    requires WellFormed(s) && NoneFull(l, s) && |s.order| == l.maxKeys >= 1
    ensures IsOldest(s, s.order, oldest) && oldest in s.buckets
    ensures Evict(l, s).buckets == s.buckets - {oldest}
  {
    NothingToPrune(l, s, s.order);
    var i := SortedHeadIsOldest(s, s.order);
    var sorted := SortByLastSeen(s, s.order);
    oldest := sorted[0];
    assert sorted[..1] == [oldest] && [oldest][..0] == [];
    assert RemoveAll(s, []) == s;
  }

  lemma TakeNeverFull(l: Limits, known: Option<Bucket>, t: int)
    requires l.capacity >= 1.0
    ensures Take(l, known, t).0.tokens < l.capacity
  {
  }

  lemma {:induction false} PruneOnlyRemoves<K>(l: Limits, s: State<K>, keys: seq<K>)
    ensures forall k :: k in Prune(l, s, keys).buckets ==>
              k in s.buckets && Prune(l, s, keys).buckets[k] == s.buckets[k]
    decreases |keys|
  {
    if keys != [] {
      var b := Lookup(s, keys[0]);
      var next := if b.Some? && b.value.tokens >= l.capacity then Remove(s, keys[0]) else s;
      PruneOnlyRemoves(l, next, keys[1..]);
    }
  }

  lemma {:induction false} RemoveAllOnlyRemoves<K>(s: State<K>, keys: seq<K>)
    ensures forall k :: k in RemoveAll(s, keys).buckets ==>
              k in s.buckets && RemoveAll(s, keys).buckets[k] == s.buckets[k]
  {
    if keys != [] {
      RemoveAllOnlyRemoves(s, keys[..|keys| - 1]);
    }
  }

  /** An eviction changes no bucket it keeps. */
  lemma EvictOnlyRemoves<K>(l: Limits, s: State<K>)
    ensures forall k :: k in Evict(l, s).buckets ==> k in s.buckets && Evict(l, s).buckets[k] == s.buckets[k]
  {
    PruneOnlyRemoves(l, s, s.order);
    var pruned := Prune(l, s, s.order);
    var sorted := SortByLastSeen(pruned, pruned.order);
    var excess := |pruned.order| - l.maxKeys + 1;
    if excess > 0 {
      RemoveAllOnlyRemoves(pruned, sorted[..if excess < |sorted| then excess else |sorted|]);
    }
  }

  // ---- Runs of the limiter -------------------------------------------------------------------------

  datatype Request<K> = Request(key: K, t: int)

  function After<K(==)>(l: Limits, s: State<K>, calls: seq<Request<K>>): State<K> {
    if calls == [] then s
    else
      var last := calls[|calls| - 1];
      Allow(l, After(l, s, calls[..|calls| - 1]), last.key, last.t).0
  }

  /** The answer to the i-th call. */
  function Answer<K(==)>(l: Limits, s: State<K>, calls: seq<Request<K>>, i: nat): bool
    requires i < |calls|
  {
    Allow(l, After(l, s, calls[..i]), calls[i].key, calls[i].t).1
  }

  /** In every reachable state the map is within its bound, and, for capacity >= 1, no bucket is full. */
  lemma {:induction false} ReachableIsBounded<K>(l: Limits, calls: seq<Request<K>>)
    requires l.maxKeys >= 1
    ensures var s := After(l, State([], map[]), calls);
            && WellFormed(s)
            && |s.order| <= l.maxKeys && |s.buckets| == |s.order|
            && (l.capacity >= 1.0 ==> NoneFull(l, s))
  {
    if calls != [] {
      var init, last := calls[..|calls| - 1], calls[|calls| - 1];
      ReachableIsBounded(l, init);
      var s := After(l, State([], map[]), init);
      AllowStaysBounded(l, s, last.key, last.t);
      EvictOnlyRemoves(l, s);
      if l.capacity >= 1.0 {
        TakeNeverFull(l, Lookup(s, last.key), last.t);
      }
    }
    SizeOfWellFormed(After(l, State([], map[]), calls));
  }

  lemma {:induction false} DistinctSize<K>(keys: seq<K>)
    requires Distinct(keys)
    ensures |KeySet(keys)| == |keys|
  {
    if keys != [] {
      var n := |keys| - 1;
      DistinctSize(keys[..n]);
      KeySetOneMore(keys);
    }
  }

  lemma SizeOfWellFormed<K>(s: State<K>)
    requires WellFormed(s)
    ensures |s.buckets| == |s.order|
  {
    DistinctSize(s.order);
    assert s.buckets.Keys == KeySet(s.order);
  }

  // ---- The rate bound ------------------------------------------------------------------------------

  /** A bucket on its own: the state after calls at the given times, and how many were allowed. */
  function OwnBucket(l: Limits, known: Option<Bucket>, times: seq<int>): (Option<Bucket>, nat) {
    if times == [] then (known, 0)
    else
      var (before, n) := OwnBucket(l, known, times[..|times| - 1]);
      var (b, ok) := Take(l, before, times[|times| - 1]);
      (Some(b), if ok then n + 1 else n)
  }

  ghost predicate NonDecreasing(times: seq<int>) {
    forall i, j :: 0 <= i <= j < |times| ==> times[i] <= times[j]
  }

  lemma InflowAdds(l: Limits, a: int, b: int)
    ensures Inflow(l, a) + Inflow(l, b) == Inflow(l, a + b)
  {
    assert (a + b) as real == a as real + b as real;
    assert (a as real / 1000.0 + b as real / 1000.0) * l.refillPerSec ==
           a as real / 1000.0 * l.refillPerSec + b as real / 1000.0 * l.refillPerSec;
  }

  lemma InflowGrows(l: Limits, a: int, b: int)
    requires a <= b && l.refillPerSec >= 0.0
    ensures Inflow(l, a) <= Inflow(l, b)
  {
    InflowAdds(l, a, b - a);
    assert (b - a) as real / 1000.0 >= 0.0;
    assert Inflow(l, b - a) >= 0.0;
  }

  /** Spent tokens plus those left never exceed a full bucket plus what flowed in since `from`. */
  lemma {:induction false} OwnBucketIsAmortised(l: Limits, known: Option<Bucket>, times: seq<int>, from: int)
    requires l.refillPerSec >= 0.0 && NonDecreasing(times)
    requires times != [] ==> from <= times[0]
    ensures var (b, n) := OwnBucket(l, known, times);
            times != [] ==>
              && b.Some? && b.value.last == times[|times| - 1]
              && b.value.tokens + n as real <= l.capacity + Inflow(l, b.value.last - from)
  {
    if times != [] {
      var m := |times| - 1;
      OwnBucketIsAmortised(l, known, times[..m], from);
      var (before, n) := OwnBucket(l, known, times[..m]);
      var t := times[m];
      if m == 0 {
        InflowGrows(l, 0, t - from);
      } else {
        InflowAdds(l, t - before.value.last, before.value.last - from);
      }
    }
  }

  /** The times of the calls on one key. */
  function TimesOf<K(==)>(calls: seq<Request<K>>, k: K): seq<int> {
    if calls == [] then []
    else
      var n := |calls| - 1;
      if calls[n].key == k then TimesOf(calls[..n], k) + [calls[n].t] else TimesOf(calls[..n], k)
  }

  function AllowedOn<K(==)>(l: Limits, s: State<K>, calls: seq<Request<K>>, k: K): nat {
    if calls == [] then 0
    else
      var n := |calls| - 1;
      AllowedOn(l, s, calls[..n], k) +
      if calls[n].key == k && Answer(l, s, calls, n) then 1 else 0
  }

  /** No call evicts the key's bucket. */
  ghost predicate NeverEvicted<K>(l: Limits, s: State<K>, calls: seq<Request<K>>, k: K) {
    forall i :: 0 <= i < |calls| ==> KeptBy(l, s, calls, k, i)
  }

  /** One call as one key sees it: a call on it is a take; another leaves its bucket, if it leaves it there. */
  lemma CallOnKey<K>(l: Limits, s: State<K>, key: K, t: int, k: K)
    ensures k == key ==> Allow(l, s, key, t).1 == Take(l, Lookup(s, k), t).1
    ensures k == key ==> Lookup(Allow(l, s, key, t).0, k) == Some(Take(l, Lookup(s, k), t).0)
    ensures k != key && (k in s.buckets ==> k in Allow(l, s, key, t).0.buckets) ==>
              Lookup(Allow(l, s, key, t).0, k) == Lookup(s, k)
  {
    EvictOnlyRemoves(l, s);
    EvictKeepsAbsent(l, s, k);
  }

  /** What one call more makes of a key's bucket, if it stays, and of its count. */
  lemma BucketOneMore<K>(l: Limits, s: State<K>, calls: seq<Request<K>>, k: K)
    requires calls != []
    requires k in After(l, s, calls[..|calls| - 1]).buckets ==> k in After(l, s, calls).buckets
    ensures var before, last := Lookup(After(l, s, calls[..|calls| - 1]), k), calls[|calls| - 1];
            Lookup(After(l, s, calls), k) == if last.key == k then Some(Take(l, before, last.t).0) else before
  {
    var last := calls[|calls| - 1];
    CallOnKey(l, After(l, s, calls[..|calls| - 1]), last.key, last.t, k);
  }

  lemma AllowedOneMore<K>(l: Limits, s: State<K>, calls: seq<Request<K>>, k: K)
    requires calls != []
    ensures var init, last := calls[..|calls| - 1], calls[|calls| - 1];
            AllowedOn(l, s, calls, k) ==
            AllowedOn(l, s, init, k) +
            if last.key == k && Take(l, Lookup(After(l, s, init), k), last.t).1 then 1 else 0
  {
    var last := calls[|calls| - 1];
    CallOnKey(l, After(l, s, calls[..|calls| - 1]), last.key, last.t, k);
  }

  lemma OwnOneMore(l: Limits, known: Option<Bucket>, times: seq<int>, t: int)
    ensures var (before, n) := OwnBucket(l, known, times);
            var (b, ok) := Take(l, before, t);
            OwnBucket(l, known, times + [t]) == (Some(b), if ok then n + 1 else n)
  {
    assert (times + [t])[..|times|] == times;
  }

  /** The i-th call does not evict the key. */
  ghost predicate KeptBy<K>(l: Limits, s: State<K>, calls: seq<Request<K>>, k: K, i: int)
    requires 0 <= i < |calls|
  {
    k in After(l, s, calls[..i]).buckets ==> k in After(l, s, calls[..i + 1]).buckets
  }

  lemma KeptByPrefix<K>(l: Limits, s: State<K>, calls: seq<Request<K>>, k: K, i: int)
    requires 0 <= i < |calls| - 1
    ensures KeptBy(l, s, calls[..|calls| - 1], k, i) <==> KeptBy(l, s, calls, k, i)
  {
    var init := calls[..|calls| - 1];
    assert init[..i] == calls[..i] && init[..i + 1] == calls[..i + 1];
  }

  lemma NeverEvictedBefore<K>(l: Limits, s: State<K>, calls: seq<Request<K>>, k: K)
    requires calls != [] && NeverEvicted(l, s, calls, k)
    ensures NeverEvicted(l, s, calls[..|calls| - 1], k)
    ensures k in After(l, s, calls[..|calls| - 1]).buckets ==> k in After(l, s, calls).buckets
  {
    var n := |calls| - 1;
    assert KeptBy(l, s, calls, k, n) && calls[..n + 1] == calls;
    forall i | 0 <= i < n ensures KeptBy(l, s, calls[..n], k, i) {
      assert KeptBy(l, s, calls, k, i);
      KeptByPrefix(l, s, calls, k, i);
    }
  }

  /** Between evictions a key's bucket behaves as if it were alone. */
  lemma {:induction false} KeyOnItsOwn<K>(l: Limits, s: State<K>, calls: seq<Request<K>>, k: K)
    requires NeverEvicted(l, s, calls, k)
    ensures OwnBucket(l, Lookup(s, k), TimesOf(calls, k)) ==
            (Lookup(After(l, s, calls), k), AllowedOn(l, s, calls, k))
  {
    if calls != [] {
      NeverEvictedBefore(l, s, calls, k);
      KeyOnItsOwn(l, s, calls[..|calls| - 1], k);
      BucketOneMore(l, s, calls, k);
      AllowedOneMore(l, s, calls, k);
      if calls[|calls| - 1].key == k {
        OwnOneMore(l, Lookup(s, k), TimesOf(calls[..|calls| - 1], k), calls[|calls| - 1].t);
      }
    }
  }

  lemma {:induction false} TimesOfNonDecreasing<K>(calls: seq<Request<K>>, k: K, from: int, to: int)
    requires forall i, j :: 0 <= i <= j < |calls| ==> calls[i].t <= calls[j].t
    requires forall i :: 0 <= i < |calls| ==> from <= calls[i].t <= to
    ensures NonDecreasing(TimesOf(calls, k))
    ensures forall i :: 0 <= i < |TimesOf(calls, k)| ==> from <= TimesOf(calls, k)[i] <= to
    ensures calls != [] ==> forall i :: 0 <= i < |TimesOf(calls, k)| ==> TimesOf(calls, k)[i] <= calls[|calls| - 1].t
  {
    if calls != [] {
      TimesOfNonDecreasing(calls[..|calls| - 1], k, from, to);
    }
  }

  /**
   * With a clock that does not go back, in any stretch of calls between `from` and `to` in which
   * its bucket is not evicted, a key is allowed at most capacity + refillPerSec * (to - from) / 1000 times.
   */
  lemma RateIsBounded<K>(l: Limits, s: State<K>, calls: seq<Request<K>>, k: K, from: int, to: int)
    requires l.refillPerSec >= 0.0 && l.capacity >= 0.0 && from <= to
    requires forall i, j :: 0 <= i <= j < |calls| ==> calls[i].t <= calls[j].t
    requires forall i :: 0 <= i < |calls| ==> from <= calls[i].t <= to
    requires forall key :: key in s.buckets ==> s.buckets[key].tokens >= 0.0 && s.buckets[key].last <= from
    requires NeverEvicted(l, s, calls, k)
    ensures AllowedOn(l, s, calls, k) as real <= l.capacity + Inflow(l, to - from)
  {
    KeyOnItsOwn(l, s, calls, k);
    TimesOfNonDecreasing(calls, k, from, to);
    OwnBucketRate(l, Lookup(s, k), TimesOf(calls, k), from, to);
  }

  lemma OwnBucketRate(l: Limits, known: Option<Bucket>, times: seq<int>, from: int, to: int)
    requires l.refillPerSec >= 0.0 && l.capacity >= 0.0 && from <= to && NonDecreasing(times)
    requires forall i :: 0 <= i < |times| ==> from <= times[i] <= to
    requires known.Some? ==> known.value.tokens >= 0.0 && known.value.last <= from
    ensures OwnBucket(l, known, times).1 as real <= l.capacity + Inflow(l, to - from)
  {
    if times == [] {
      InflowGrows(l, 0, to - from);
    } else {
      OwnBucketIsAmortised(l, known, times, from);
      TokensStayPositive(l, known, times);
      InflowGrows(l, times[|times| - 1] - from, to - from);
    }
  }

  lemma {:induction false} TokensStayPositive(l: Limits, known: Option<Bucket>, times: seq<int>)
    requires l.refillPerSec >= 0.0 && l.capacity >= 0.0 && NonDecreasing(times)
    requires known.Some? ==> known.value.tokens >= 0.0 && (times != [] ==> known.value.last <= times[0])
    ensures OwnBucket(l, known, times).0.Some? ==> OwnBucket(l, known, times).0.value.tokens >= 0.0
    ensures times != [] ==>
              OwnBucket(l, known, times).0.Some? && OwnBucket(l, known, times).0.value.last == times[|times| - 1]
  {
    if times != [] {
      var m := |times| - 1;
      TokensStayPositive(l, known, times[..m]);
      var before := OwnBucket(l, known, times[..m]).0;
      if before.Some? {
        InflowGrows(l, 0, times[m] - before.value.last);
      }
    }
  }

  /** In a run from the start every bucket holds at least nothing and was last seen at an earlier call. */
  lemma {:induction false} ReachableBuckets<K>(l: Limits, calls: seq<Request<K>>, now: int)
    requires l.refillPerSec >= 0.0 && l.capacity >= 0.0
    requires forall i, j :: 0 <= i <= j < |calls| ==> calls[i].t <= calls[j].t
    requires forall i :: 0 <= i < |calls| ==> calls[i].t <= now
    ensures Seasoned(After(l, State([], map[]), calls), now)
  {
    if calls != [] {
      var init, last := calls[..|calls| - 1], calls[|calls| - 1];
      ReachableBuckets(l, init, last.t);
      var s := After(l, State([], map[]), init);
      EvictOnlyRemoves(l, s);
      TakeSeasoned(l, Lookup(s, last.key), last.t);
    }
  }

  ghost predicate Seasoned<K>(s: State<K>, now: int) {
    forall key :: key in s.buckets ==> s.buckets[key].tokens >= 0.0 && s.buckets[key].last <= now
  }

  lemma TakeSeasoned(l: Limits, known: Option<Bucket>, t: int)
    requires l.refillPerSec >= 0.0 && l.capacity >= 0.0
    requires known.Some? ==> known.value.tokens >= 0.0 && known.value.last <= t
    ensures Take(l, known, t).0.tokens >= 0.0 && Take(l, known, t).0.last == t
  {
    InflowGrows(l, 0, if known.Some? then t - known.value.last else 0);
  }

  /** The calls are made in order, none before `from` and none after `to`. */
  ghost predicate WellTimed<K>(calls: seq<Request<K>>, from: int, to: int) {
    && (forall i, j :: 0 <= i <= j < |calls| ==> calls[i].t <= calls[j].t)
    && (forall i :: 0 <= i < |calls| ==> from <= calls[i].t <= to)
  }

  lemma StretchBegins<K>(l: Limits, calls: seq<Request<K>>, from: int, now: int)
    requires l.refillPerSec >= 0.0 && l.capacity >= 0.0 && WellTimed(calls, from, now)
    ensures Seasoned(After(l, State([], map[]), calls), now)
  {
    ReachableBuckets(l, calls, now);
  }

  lemma StretchIsBounded<K>(l: Limits, s: State<K>, calls: seq<Request<K>>, k: K, from: int, to: int)
    requires l.refillPerSec >= 0.0 && l.capacity >= 0.0 && from <= to && Seasoned(s, from)
    requires WellTimed(calls, from, to) && NeverEvicted(l, s, calls, k)
    ensures AllowedOn(l, s, calls, k) as real <= l.capacity + Inflow(l, to - from)
  {
    RateIsBounded(l, s, calls, k, from, to);
  }

  /**
   * The bound on every stretch of every run from the empty limiter: whatever calls came before, as long
   * as the clock does not go back.
   */
  lemma EveryIntervalIsBounded<K>(
      l: Limits, before: seq<Request<K>>, stretch: seq<Request<K>>, k: K, start: int, from: int, to: int)
    requires l.refillPerSec >= 0.0 && l.capacity >= 0.0 && from <= to
    requires WellTimed(before, start, from) && WellTimed(stretch, from, to)
    requires NeverEvicted(l, After(l, State([], map[]), before), stretch, k)
    ensures AllowedOn(l, After(l, State([], map[]), before), stretch, k) as real <= l.capacity + Inflow(l, to - from)
  {
    StretchBegins(l, before, start, from);
    StretchIsBounded(l, After(l, State([], map[]), before), stretch, k, from, to);
  }

  // ---- Few keys: as if unbounded -------------------------------------------------------------------

  /** Unbounded independent buckets, one per key. */
  function Independent<K(==)>(l: Limits, calls: seq<Request<K>>): map<K, Bucket> {
    if calls == [] then map[]
    else
      var before := Independent(l, calls[..|calls| - 1]);
      var last := calls[|calls| - 1];
      before[last.key := Take(l, if last.key in before then Some(before[last.key]) else None, last.t).0]
  }

  function IndependentAnswer<K(==)>(l: Limits, calls: seq<Request<K>>, i: nat): bool
    requires i < |calls|
  {
    var before := Independent(l, calls[..i]);
    Take(l, if calls[i].key in before then Some(before[calls[i].key]) else None, calls[i].t).1
  }

  lemma {:induction false} FewKeysKeepBuckets<K>(l: Limits, calls: seq<Request<K>>, keys: set<K>)
    requires l.maxKeys >= 1 && |keys| <= l.maxKeys
    requires forall i :: 0 <= i < |calls| ==> calls[i].key in keys
    ensures After(l, State([], map[]), calls).buckets == Independent(l, calls)
    ensures Independent(l, calls).Keys <= keys
  {
    if calls != [] {
      var n := |calls| - 1;
      FewKeysKeepBuckets(l, calls[..n], keys);
      ReachableIsBounded(l, calls[..n]);
      NoEvictionForFewKeys(l, After(l, State([], map[]), calls[..n]), calls[n].key, keys);
    }
  }

  /** While at most maxKeys distinct keys are in use, nothing is evicted and each key is on its own. */
  lemma FewKeysAreIndependent<K>(l: Limits, calls: seq<Request<K>>, keys: set<K>)
    requires l.maxKeys >= 1 && |keys| <= l.maxKeys
    requires forall i :: 0 <= i < |calls| ==> calls[i].key in keys
    ensures After(l, State([], map[]), calls).buckets == Independent(l, calls)
    ensures forall i :: 0 <= i < |calls| ==> Answer(l, State([], map[]), calls, i) == IndependentAnswer(l, calls, i)
  {
    FewKeysKeepBuckets(l, calls, keys);
    forall i | 0 <= i < |calls| ensures Answer(l, State([], map[]), calls, i) == IndependentAnswer(l, calls, i) {
      FewKeysKeepBuckets(l, calls[..i], keys);
      CallOnKey(l, After(l, State([], map[]), calls[..i]), calls[i].key, calls[i].t, calls[i].key);
    }
  }

  lemma NoEvictionForFewKeys<K>(l: Limits, s: State<K>, key: K, keys: set<K>)
    requires s.buckets.Keys <= keys && key in keys && |keys| <= l.maxKeys && |s.buckets| == |s.order|
    ensures Room(l, s, key) == s
  {
    if key !in s.buckets {
      SmallerSet(s.buckets.Keys + {key}, keys);
    }
  }

  lemma {:induction false} SmallerSet<K>(a: set<K>, b: set<K>)
    requires a <= b
    ensures |a| <= |b|
  {
    if a != {} {
      var x :| x in a;
      SmallerSet(a - {x}, b - {x});
    }
  }

  // ---- What a bucket grants ------------------------------------------------------------------------

  /**
   * A call is refused exactly if the bucket, with what has flowed in since it was last seen but no more
   * than its capacity, is short of one token; otherwise it takes one. A new bucket is full.
   */
  lemma GrantedExactlyWhen(l: Limits, b: Bucket, t: int)
    ensures var flowed := b.tokens + Inflow(l, t - b.last);
            var tokens := if flowed < l.capacity then flowed else l.capacity;
            Take(l, Some(b), t) == if tokens >= 1.0 then (Bucket(tokens - 1.0, t), true) else (Bucket(tokens, t), false)
    ensures l.capacity >= 1.0 ==> Take(l, None, t) == (Bucket(l.capacity - 1.0, t), true)
    ensures l.capacity < 1.0 ==> Take(l, None, t) == (Bucket(l.capacity, t), false)
  {
    FreshTake(l, t);
  }

  /** A second brings refillPerSec tokens, a thousandth of it a thousandth of them, and intervals add up. */
  lemma SecondBringsTheRate(l: Limits, a: int, b: int)
    ensures Inflow(l, 1000) == l.refillPerSec && Inflow(l, 0) == 0.0
    ensures Inflow(l, a) + Inflow(l, b) == Inflow(l, a + b)
  {
    InflowAdds(l, a, b);
    assert 1000 as real / 1000.0 == 1.0;
  }

  ghost predicate AllAt(times: seq<int>, t: int) {
    forall i :: 0 <= i < |times| ==> times[i] == t
  }

  /** Of calls made at one instant on a fresh key, as many are allowed as the capacity holds whole tokens. */
  lemma {:induction false} BurstIsTheCapacity(l: Limits, times: seq<int>, t: int)
    requires l.capacity >= 0.0 && AllAt(times, t) && times != []
    ensures var (b, n) := OwnBucket(l, None, times);
            && b == Some(Bucket(l.capacity - n as real, t))
            && (|times| as real <= l.capacity ==> n == |times|)
            && (|times| as real > l.capacity ==> l.capacity - 1.0 < n as real <= l.capacity)
  {
    var m := |times| - 1;
    var init := times[..m];
    assert times[m] == t && times == init + [t];
    OwnOneMore(l, None, init, t);
    if m == 0 {
      assert OwnBucket(l, None, init) == (None, 0);
      FreshTake(l, t);
    } else {
      BurstIsTheCapacity(l, init, t);
      var (b, n) := OwnBucket(l, None, init);
      SameInstantTake(l, b.value);
    }
  }

  lemma FreshTake(l: Limits, t: int)
    ensures Take(l, None, t) ==
            if l.capacity >= 1.0 then (Bucket(l.capacity - 1.0, t), true) else (Bucket(l.capacity, t), false)
  {
    SecondBringsTheRate(l, 0, 0);
  }

  lemma SameInstantTake(l: Limits, b: Bucket)
    requires b.tokens <= l.capacity
    ensures Take(l, Some(b), b.last) ==
            if b.tokens >= 1.0 then (Bucket(b.tokens - 1.0, b.last), true) else (b, false)
  {
    SecondBringsTheRate(l, 0, 0);
  }

  // ---- The first pass ------------------------------------------------------------------------------

  /** The first of the keys, in this order, whose bucket is full. */
  ghost predicate FirstFull<K>(l: Limits, s: State<K>, keys: seq<K>, i: nat) {
    && i < |keys| && keys[i] in s.buckets && s.buckets[keys[i]].tokens >= l.capacity
    && forall j :: 0 <= j < i ==> keys[j] in s.buckets && s.buckets[keys[j]].tokens < l.capacity
  }

  lemma {:induction false} PruneTakesTheFirstFull<K>(l: Limits, s: State<K>, keys: seq<K>, i: nat)
    requires WellFormed(s) && |s.order| == l.maxKeys && FirstFull(l, s, keys, i)
    ensures Prune(l, s, keys) == Remove(s, keys[i])
    decreases |keys|
  {
    RemoveWellFormed(s, keys[0]);
    if i > 0 {
      assert FirstFull(l, s, keys[1..], i - 1) by {
        assert forall j :: 0 <= j < i - 1 ==> keys[1..][j] == keys[j + 1];
      }
      PruneTakesTheFirstFull(l, s, keys[1..], i - 1);
    }
  }

  /** In a full map a full bucket goes before any other: the first inserted of them, and nothing else. */
  lemma EvictPrefersFullBuckets<K>(l: Limits, s: State<K>, i: nat)
    requires WellFormed(s) && |s.order| == l.maxKeys && FirstFull(l, s, s.order, i)
    ensures Evict(l, s).buckets == s.buckets - {s.order[i]}
  {
    PruneTakesTheFirstFull(l, s, s.order, i);
    RemoveWellFormed(s, s.order[i]);
    assert s.order[i] in s.order;
  }
}
