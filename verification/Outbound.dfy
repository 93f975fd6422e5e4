/** The outbound gate (src/runtime/outbound.ts): poll the token bucket until it grants a token. */
module Outbound {
  import opened Wrappers
  import opened RateLimiter

  function Ceil(x: real): int {
    -(-x).Floor
  }

  /** What the key's bucket holds when the gate is first tried. */
  function TokensAt<K>(l: Limits, s: State<K>, key: K, t: int): real {
    Refill(l, if key in s.buckets then s.buckets[key] else Bucket(l.capacity, t), t).tokens
  }

  lemma RateIsPositive(l: Limits, pollMs: int)
    requires l.refillPerSec > 0.0 && pollMs > 0
    ensures RatePerPoll(l, pollMs) > 0.0
  {
  }

  /** How often the gate can sleep before a bucket with these tokens grants one. */
  function MaxPolls(l: Limits, tokens: real, pollMs: int): int
    requires l.refillPerSec > 0.0 && pollMs > 0
  {
    RateIsPositive(l, pollMs);
    if tokens >= 1.0 then 0 else Ceil((1.0 - tokens) * 1000.0 / RatePerPoll(l, pollMs))
  }

  /** The least time that n sleeps take. */
  function Slept(n: nat, pollMs: int): int {
    if n == 0 then 0 else Slept(n - 1, pollMs) + pollMs
  }

  lemma {:induction false} SleptIsProduct(n: nat, pollMs: int)
    ensures Slept(n, pollMs) == n * pollMs
  {
    if n > 0 {
      SleptIsProduct(n - 1, pollMs);
    }
  }

  /** Whoever is still short of a token after n polls has slept fewer than `bound` times. */
  ghost predicate Bounds(l: Limits, tokens: real, pollMs: int, bound: int) {
    forall n: nat, ms: int {:trigger Slept(n, pollMs), Inflow(l, ms)} ::
      ms >= Slept(n, pollMs) && tokens + Inflow(l, ms) < 1.0 ==> n + 1 <= bound
  }

  /** If what flowed in over n polls is still short of a token, n is below the bound. */
  lemma StillShort(l: Limits, tokens: real, pollMs: int, n: nat, ms: int)
    requires l.refillPerSec > 0.0 && pollMs > 0 && ms >= Slept(n, pollMs)
    requires tokens + Inflow(l, ms) < 1.0
    ensures n + 1 <= MaxPolls(l, tokens, pollMs)
  {
    SleptIsProduct(n, pollMs);
    InflowGrows(l, n * pollMs, ms);
    InflowGrows(l, 0, n * pollMs);
    InflowOfPolls(l, n, pollMs);
    PollsAreShort(n as real, (1.0 - tokens) * 1000.0, RatePerPoll(l, pollMs));
    assert tokens < 1.0;
  }

  /** A thousand times what flows in during one poll. */
  function RatePerPoll(l: Limits, pollMs: int): real {
    l.refillPerSec * pollMs as real
  }

  lemma InflowOfPolls(l: Limits, n: nat, pollMs: int)
    ensures Inflow(l, n * pollMs) * 1000.0 == n as real * RatePerPoll(l, pollMs)
  {
    assert (n * pollMs) as real == n as real * pollMs as real;
  }

  lemma PollsAreShort(n: real, missing: real, rate: real)
    requires rate > 0.0 && n * rate < missing
    ensures n < missing / rate
  {
    assert missing / rate * rate == missing;
    BelowQuotient(n, missing / rate, rate);
  }

  lemma BelowQuotient(a: real, x: real, rate: real)
    requires rate > 0.0 && a * rate < x * rate
    ensures a < x
  {
    assert (x - a) * rate > 0.0;
  }

  /** The i-th sleep advances the clock by at least the poll interval. */
  ghost predicate SleepsFor(now: nat -> int, pollMs: int, i: nat) {
    now(i) + pollMs <= now(i + 1)
  }

  /** One attempt, as the key's bucket sees it. */
  method TryTake<K(==)>(limiter: Limiter<K>, key: K, t: int) returns (granted: bool)
    modifies limiter
    ensures key in limiter.buckets
    ensures (limiter.buckets[key], granted) == Take(limiter.limits, old(Lookup(limiter.View(), key)), t)
  {
    ghost var before := limiter.View();
    granted := limiter.Call(key, t);
    CallOnKey(limiter.limits, before, key, t, key);
  }

  /** A refused attempt leaves all the tokens there are, and they are short of one. */
  lemma RefusedAgain(l: Limits, tokens: real, b: Bucket, t: int, start: int)
    requires l.capacity >= 1.0 && b.tokens == tokens + Inflow(l, b.last - start)
    requires !Take(l, Some(b), t).1
    ensures Take(l, Some(b), t).0 == Bucket(tokens + Inflow(l, t - start), t)
    ensures tokens + Inflow(l, t - start) < 1.0
  {
    InflowAdds(l, t - b.last, b.last - start);
  }

  /** A call on another key leaves the key's bucket as it is, or evicts it. */
  lemma OtherKeyCall<K>(l: Limits, s: State<K>, other: Request<K>, key: K)
    requires other.key != key
    ensures Lookup(Allow(l, s, other.key, other.t).0, key) == Lookup(s, key) ||
            Lookup(Allow(l, s, other.key, other.t).0, key).None?
  {
    CallOnKey(l, s, other.key, other.t, key);
  }

  /** What a sleep lets in: any calls of the limiter on other keys. */
  method LetOthersIn<K(==)>(limiter: Limiter<K>, key: K, others: seq<Request<K>>)
    requires forall i :: 0 <= i < |others| ==> others[i].key != key
    modifies limiter
    ensures Lookup(limiter.View(), key) == old(Lookup(limiter.View(), key)) || Lookup(limiter.View(), key).None?
  {
    for i := 0 to |others|
      invariant Lookup(limiter.View(), key) == old(Lookup(limiter.View(), key)) ||
                Lookup(limiter.View(), key).None?
    {
      ghost var before := limiter.View();
      var _ := limiter.Call(others[i].key, others[i].t);
      OtherKeyCall(limiter.limits, before, others[i], key);
    }
  }

  /** The calls let in by the i-th sleep are on other keys. */
  ghost predicate OnOtherKeys<K>(others: nat -> seq<Request<K>>, key: K, i: nat) {
    forall n :: 0 <= n < |others(i)| ==> others(i)[n].key != key
  }

  /** An evicted bucket starts full again, so the next attempt is granted. */
  lemma FreshBucketGrants(l: Limits, t: int)
    requires l.capacity >= 1.0
    ensures Take(l, None, t) == (Bucket(l.capacity - 1.0, t), true)
  {
  }

  /**
   * The gate of `makeOutboundLimiter` when no other caller uses its key: `now(i)` is the clock at the
   * i-th attempt, every sleep lasts at least `pollMs`, and the i-th one lets `others(i)` in. The loop
   * ends, within the bound, at the first attempt that finds a token or an evicted bucket.
   */
  method AwaitToken<K(==)>(
      limiter: Limiter<K>, key: K, now: nat -> int, others: nat -> seq<Request<K>>, pollMs: int)
    returns (polls: nat)
    requires limiter.limits.refillPerSec > 0.0 && limiter.limits.capacity >= 1.0 && pollMs > 0
    requires forall i: nat :: SleepsFor(now, pollMs, i)
    requires forall i: nat :: OnOtherKeys(others, key, i)
    modifies limiter
    ensures polls <= MaxPolls(limiter.limits, TokensAt(limiter.limits, old(limiter.View()), key, now(0)), pollMs)
    ensures key in limiter.buckets && limiter.buckets[key].last == now(polls)
    ensures limiter.buckets[key].tokens >= 0.0
    ensures polls > 0 ==>
              TokensAt(limiter.limits, old(limiter.View()), key, now(0)) +
              Inflow(limiter.limits, now(polls - 1) - now(0)) < 1.0
  {
    ghost var l := limiter.limits;
    ghost var tokens := TokensAt(l, limiter.View(), key, now(0));
    ghost var bound := MaxPolls(l, tokens, pollMs);
    forall n: nat, ms: int | ms >= Slept(n, pollMs) && tokens + Inflow(l, ms) < 1.0 ensures n + 1 <= bound {
      StillShort(l, tokens, pollMs, n, ms);
    }
    assert Inflow(l, 0) == 0.0;
    var granted := TryTake(limiter, key, now(0));
    polls := 0;
    if !granted {
      polls := Poll(limiter, key, now, others, pollMs, tokens, bound);
    }
  }

  /** The loop of the gate, from a first refusal on. */
  method Poll<K(==)>(
      limiter: Limiter<K>, key: K, now: nat -> int, others: nat -> seq<Request<K>>, pollMs: int,
      ghost tokens: real, ghost bound: int)
    returns (polls: nat)
    requires limiter.limits.refillPerSec >= 0.0 && limiter.limits.capacity >= 1.0 && pollMs > 0
    requires forall i: nat :: SleepsFor(now, pollMs, i)
    requires forall i: nat :: OnOtherKeys(others, key, i)
    requires key in limiter.buckets && limiter.buckets[key] == Bucket(tokens, now(0)) && tokens < 1.0
    requires Bounds(limiter.limits, tokens, pollMs, bound)
    modifies limiter
    ensures 0 < polls <= bound
    ensures key in limiter.buckets && limiter.buckets[key].last == now(polls)
    ensures limiter.buckets[key].tokens >= 0.0
    ensures tokens + Inflow(limiter.limits, now(polls - 1) - now(0)) < 1.0
  {
    ghost var l := limiter.limits;
    ghost var b := limiter.buckets[key];
    var granted := false;
    polls := 0;
    assert Slept(0, pollMs) == 0 && Inflow(l, now(0) - now(0)) == 0.0;
    while !granted
      invariant key in limiter.buckets && b == limiter.buckets[key] && b.last == now(polls)
      invariant now(polls) - now(0) >= Slept(polls, pollMs)
      invariant if granted then b.tokens >= 0.0 else b.tokens == tokens + Inflow(l, b.last - now(0)) < 1.0
      invariant polls > 0 ==> tokens + Inflow(l, now(polls - 1) - now(0)) < 1.0
      invariant granted ==> polls > 0
      invariant polls <= bound
      decreases !granted, bound - polls
    {
      assert SleepsFor(now, pollMs, polls) && OnOtherKeys(others, key, polls);
      LetOthersIn(limiter, key, others(polls));
      FreshBucketGrants(l, now(polls + 1));
      polls := polls + 1;
      granted := TryTake(limiter, key, now(polls));
      if !granted {
        RefusedAgain(l, tokens, b, now(polls), now(0));
      }
      b := limiter.buckets[key];
    }
  }

  lemma CeilIsLeast(x: real)
    ensures Ceil(x) as real - 1.0 < x <= Ceil(x) as real
  {
  }

  lemma QuotientBounds(n: real, missing: real, rate: real)
    requires rate > 0.0
    ensures missing / rate <= n ==> missing <= n * rate
    ensures n < missing / rate ==> n * rate < missing
  {
    assert missing / rate * rate == missing;
    if missing / rate <= n {
      assert (n - missing / rate) * rate >= 0.0;
    }
    if n < missing / rate {
      assert (missing / rate - n) * rate > 0.0;
    }
  }

  /**
   * The bound is as low as it can be: none if there is a token, and otherwise the least number of polls
   * over which enough flows in to make up a whole one.
   */
  lemma MaxPollsIsLeast(l: Limits, tokens: real, pollMs: int, n: nat)
    requires l.refillPerSec > 0.0 && pollMs > 0 && n == MaxPolls(l, tokens, pollMs)
    ensures tokens >= 1.0 ==> n == 0
    ensures tokens < 1.0 ==> n > 0 && tokens + Inflow(l, n * pollMs) >= 1.0
    ensures tokens < 1.0 ==> tokens + Inflow(l, (n - 1) * pollMs) < 1.0
  {
    if tokens < 1.0 {
      RateIsPositive(l, pollMs);
      var missing, rate := (1.0 - tokens) * 1000.0, RatePerPoll(l, pollMs);
      CeilIsLeast(missing / rate);
      PositiveQuotient(missing, rate);
      QuotientBounds(n as real, missing, rate);
      QuotientBounds((n - 1) as real, missing, rate);
      InflowOfPolls(l, n, pollMs);
      InflowOfPolls(l, n - 1, pollMs);
    }
  }

  lemma PositiveQuotient(a: real, b: real)
    requires a > 0.0 && b > 0.0
    ensures a / b > 0.0
  {
    assert a / b * b == a;
    if a / b <= 0.0 {
      ProductSign(a / b, b);
    }
  }

  lemma ProductSign(a: real, b: real)
    requires a <= 0.0 && b > 0.0
    ensures a * b <= 0.0
  {
  }
}
