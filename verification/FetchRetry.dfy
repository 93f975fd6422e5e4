/**
 * Outbound calls with retry (src/runtime/outbound.ts): `fetchWithRetry` and the delays between its
 * attempts. Delays are real milliseconds; the answers of the partner and the jitter are given by
 * attempt number.
 */
module FetchRetry {
  import opened Wrappers

  /** What `doFetch` comes to: a response, with its parsed Retry-After in milliseconds, or no response. */
  datatype Answer = Response(status: int, retryAfter: Option<real>) | NetworkError

  datatype Options = Options(maxAttempts: int, baseDelay: real, maxDelay: real, retryOnStatus: int -> bool)

  function Attempts(o: Options): (n: nat)
    ensures n >= 1
  {
    if o.maxAttempts > 1 then o.maxAttempts else 1
  }

  predicate Retriable(o: Options, a: Answer) {
    a.NetworkError? || o.retryOnStatus(a.status)
  }

  function Min(a: real, b: real): real {
    if a <= b then a else b
  }

  function Doubled(base: real, n: nat): real {
    if n == 0 then base else 2.0 * Doubled(base, n - 1)
  }

  /** `backoffDelayMs`: the server's own delay if it sent one, else a random part of a doubling one. */
  function Delay(o: Options, attempt: nat, random: real, retryAfter: Option<real>): real {
    if retryAfter.Some? then Min(retryAfter.value, o.maxDelay)
    else Part(random, Min(Doubled(o.baseDelay, attempt), o.maxDelay))
  }

  /** The jitter: a random part of a delay, in whole milliseconds. */
  function Part(random: real, whole: real): real {
    (random * whole).Floor as real
  }

  function DelayAfter(o: Options, answers: nat -> Answer, random: nat -> real, k: nat): real {
    var a := answers(k);
    Delay(o, k, random(k), if a.Response? then a.retryAfter else None)
  }

  /** `fetchWithRetry`: the number of the attempt whose outcome the caller gets, and what was slept. */
  method FetchWithRetry(o: Options, answers: nat -> Answer, random: nat -> real)
    returns (last: nat, slept: seq<real>)
    ensures last == 0 || last < o.maxAttempts
    ensures forall j: nat :: j < last ==> answers(j).NetworkError? || o.retryOnStatus(answers(j).status)
    ensures answers(last).NetworkError? || o.retryOnStatus(answers(last).status) ==> last + 1 >= o.maxAttempts
    ensures |slept| == last && forall j: nat :: j < last ==> slept[j] == DelayAfter(o, answers, random, j)
  {
    var maxAttempts := Attempts(o);
    slept := [];
    last := 0;
    while last < maxAttempts - 1
      invariant last <= maxAttempts - 1
      invariant forall j: nat :: j < last ==> Retriable(o, answers(j))
      invariant |slept| == last && forall j: nat :: j < last ==> slept[j] == DelayAfter(o, answers, random, j)
    {
      var a := answers(last);
      match a {
        case Response(status, retryAfter) =>
          if !o.retryOnStatus(status) {
            return;
          }
          slept := slept + [Delay(o, last, random(last), retryAfter)];
        case NetworkError =>
          slept := slept + [Delay(o, last, random(last), None)];
      }
      last := last + 1;
    }
  }

  // ---- How long it waits -----------------------------------------------------------------------------

  ghost predicate Sound(o: Options, answers: nat -> Answer, random: nat -> real) {
    && o.baseDelay >= 0.0 && o.maxDelay >= 0.0
    && (forall k: nat :: 0.0 <= random(k) < 1.0)
    && (forall k: nat :: answers(k).Response? && answers(k).retryAfter.Some? ==> answers(k).retryAfter.value >= 0.0)
  }

  lemma {:induction false} DoubledIsPositive(base: real, n: nat)
    requires base >= 0.0
    ensures Doubled(base, n) >= 0.0
  {
    if n > 0 {
      DoubledIsPositive(base, n - 1);
    }
  }

  lemma ProductIsPositive(a: real, b: real)
    requires a >= 0.0 && b >= 0.0
    ensures a * b >= 0.0
  {
  }

  lemma PartIsBelow(random: real, whole: real)
    requires 0.0 <= random < 1.0 && whole >= 0.0
    ensures 0.0 <= Part(random, whole) <= whole
  {
    ProductIsPositive(random, whole);
    ProductIsPositive(1.0 - random, whole);
    assert (1.0 - random) * whole == whole - random * whole;
  }

  lemma JitterIsCapped(o: Options, attempt: nat, random: real)
    requires o.baseDelay >= 0.0 && o.maxDelay >= 0.0 && 0.0 <= random < 1.0
    ensures 0.0 <= Delay(o, attempt, random, None) <= Min(Doubled(o.baseDelay, attempt), o.maxDelay)
  {
    DoubledIsPositive(o.baseDelay, attempt);
    PartIsBelow(random, Min(Doubled(o.baseDelay, attempt), o.maxDelay));
  }

  /**
   * No single delay is negative or above the cap; without a Retry-After it is also below the doubling
   * schedule, and with one it waits that out exactly when it is within the cap.
   */
  lemma DelayIsCapped(o: Options, answers: nat -> Answer, random: nat -> real, k: nat)
    requires Sound(o, answers, random)
    ensures 0.0 <= DelayAfter(o, answers, random, k) <= o.maxDelay
    ensures answers(k).NetworkError? || answers(k).retryAfter.None? ==>
              DelayAfter(o, answers, random, k) <= Doubled(o.baseDelay, k)
    ensures answers(k).Response? && answers(k).retryAfter.Some? ==>
              (DelayAfter(o, answers, random, k) >= answers(k).retryAfter.value <==>
               answers(k).retryAfter.value <= o.maxDelay)
  {
    JitterIsCapped(o, k, random(k));
  }

  function Total(o: Options, answers: nat -> Answer, random: nat -> real, n: nat): real {
    if n == 0 then 0.0 else Total(o, answers, random, n - 1) + DelayAfter(o, answers, random, n - 1)
  }

  ghost predicate Undirected(answers: nat -> Answer, n: nat) {
    forall k: nat :: k < n ==> answers(k).NetworkError? || answers(k).retryAfter.None?
  }

  /** The cap, n times over. */
  function Caps(cap: real, n: nat): real {
    if n == 0 then 0.0 else Caps(cap, n - 1) + cap
  }

  lemma {:induction false} CapsIsProduct(cap: real, n: nat)
    ensures Caps(cap, n) == n as real * cap
  {
    if n > 0 {
      CapsIsProduct(cap, n - 1);
      OneMoreTime((n - 1) as real, cap);
      assert n as real == (n - 1) as real + 1.0;
    }
  }

  lemma OneMoreTime(a: real, cap: real)
    ensures (a + 1.0) * cap == a * cap + cap
  {
  }

  lemma {:induction false} TotalIsCapped(o: Options, answers: nat -> Answer, random: nat -> real, n: nat)
    requires Sound(o, answers, random)
    ensures 0.0 <= Total(o, answers, random, n) <= Caps(o.maxDelay, n)
  {
    if n > 0 {
      TotalIsCapped(o, answers, random, n - 1);
      DelayIsCapped(o, answers, random, n - 1);
    }
  }

  lemma {:induction false} TotalIsScheduled(o: Options, answers: nat -> Answer, random: nat -> real, n: nat)
    requires Sound(o, answers, random) && Undirected(answers, n)
    ensures Total(o, answers, random, n) <= Doubled(o.baseDelay, n) - o.baseDelay
  {
    if n > 0 {
      TotalIsScheduled(o, answers, random, n - 1);
      DelayIsCapped(o, answers, random, n - 1);
    }
  }

  /**
   * All the waiting before the n-th retry: at most n caps, and, unless the server directed a wait, at
   * most the doubling schedule summed up, base * (2^n - 1).
   */
  lemma TotalIsBounded(o: Options, answers: nat -> Answer, random: nat -> real, n: nat)
    requires Sound(o, answers, random)
    ensures 0.0 <= Total(o, answers, random, n) <= Caps(o.maxDelay, n)
    ensures Undirected(answers, n) ==> Total(o, answers, random, n) <= Doubled(o.baseDelay, n) - o.baseDelay
  {
    TotalIsCapped(o, answers, random, n);
    if Undirected(answers, n) {
      TotalIsScheduled(o, answers, random, n);
    }
  }

  /** The jitter is the whole milliseconds of the random part, so no more than one millisecond less. */
  lemma JitterIsTheRandomPart(o: Options, answers: nat -> Answer, random: nat -> real, k: nat)
    requires answers(k).NetworkError? || answers(k).retryAfter.None?
    ensures var whole := Min(Doubled(o.baseDelay, k), o.maxDelay);
            random(k) * whole - 1.0 < DelayAfter(o, answers, random, k) <= random(k) * whole
  {
  }

  /** The schedule doubles from the base delay: after three retries it has come to eight times the base. */
  lemma Doubles(base: real, n: nat)
    ensures Doubled(base, 0) == base && Doubled(base, n + 1) == Doubled(base, n) + Doubled(base, n)
    ensures Doubled(base, 3) == 8.0 * base
  {
    assert Doubled(base, 1) == 2.0 * base;
  }
}
