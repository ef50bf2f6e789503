/** The token bucket of routing/dht.c that limits how many requests are answered. */
module RateLimiter {
  const MAX_TOKENS := 400
  const RATE := 100

  datatype Bucket = Bucket(tokens: int, time: int)

  predicate Ok(b: Bucket) { 0 <= b.tokens <= MAX_TOKENS }

  /** The bucket as a request at time `now` finds it: refilled if it was empty. */
  function Refilled(b: Bucket, now: int): Bucket {
    if b.tokens == 0 then
      Bucket(if RATE * (now - b.time) <= MAX_TOKENS then RATE * (now - b.time) else MAX_TOKENS, now)
    else b
  }

  predicate Admits(b: Bucket, now: int) { Refilled(b, now).tokens != 0 }

  function After(b: Bucket, now: int): Bucket {
    var r := Refilled(b, now);
    if r.tokens == 0 then r else r.(tokens := r.tokens - 1)
  }

  function AfterAll(b: Bucket, times: seq<int>): Bucket
    decreases |times|
  {
    if times == [] then b else AfterAll(After(b, times[0]), times[1..])
  }

  /** How many of the requests at `times` within [t1, t2] are admitted. */
  function Admitted(b: Bucket, times: seq<int>, t1: int, t2: int): nat
    decreases |times|
  {
    if times == [] then 0
    else
      (if Admits(b, times[0]) && t1 <= times[0] <= t2 then 1 else 0)
      + Admitted(After(b, times[0]), times[1..], t1, t2)
  }

  /** The clock never goes back. */
  predicate Clock(start: int, times: seq<int>) {
    && (forall i :: 0 <= i < |times| ==> start <= times[i])
    && (forall i, j :: 0 <= i < j < |times| ==> times[i] <= times[j])
  }

  /**
   The tokens that a bucket can hand out within [t1, t2] once it is `now`: those it holds, one
   refill for the time before the window, and what the window itself brings.
   */
  function Budget(b: Bucket, now: int, t1: int, t2: int): int {
    if now > t2 then 0
    else if now < t1 then 2 * MAX_TOKENS + RATE * (t2 - t1)
    else if b.time < t1 then b.tokens + MAX_TOKENS + RATE * (t2 - t1)
    else b.tokens + RATE * (t2 - b.time)
  }

  lemma {:induction false} OkAlways(b: Bucket, times: seq<int>)
    requires Ok(b) && Clock(b.time, times)
    ensures Ok(AfterAll(b, times)) && AfterAll(b, times).time >= b.time
    decreases |times|
  {
    if times != [] { OkAlways(After(b, times[0]), times[1..]); }
  }

  lemma {:induction false} WithinBudget(b: Bucket, times: seq<int>, start: int, t1: int, t2: int)
    requires Ok(b) && b.time <= start && Clock(start, times) && t1 <= t2
    ensures Admitted(b, times, t1, t2) <= Budget(b, start, t1, t2)
    decreases |times|
  {
    if times != [] {
      var now := times[0];
      WithinBudget(After(b, now), times[1..], now, t1, t2);
    }
  }

  /** From the start, at most 400 requests and then 100 a second. */
  lemma AdmittedSinceStart(start: int, now: int, times: seq<int>)
    requires Clock(start, times) && start <= now
    ensures Admitted(Bucket(MAX_TOKENS, start), times, start, now) <= 400 + 100 * (now - start)
  {
    WithinBudget(Bucket(MAX_TOKENS, start), times, start, start, now);
  }

  /** In any window of any run, at most 800 requests and then 100 a second. */
  lemma AdmittedInWindow(start: int, times: seq<int>, t1: int, t2: int)
    requires Clock(start, times) && t1 <= t2
    ensures Admitted(Bucket(MAX_TOKENS, start), times, t1, t2) <= 800 + 100 * (t2 - t1)
  {
    WithinBudget(Bucket(MAX_TOKENS, start), times, start, t1, t2);
  }

  lemma {:induction false} BurstIsAdmitted(b: Bucket, now: int, n: nat)
    requires Ok(b) && n <= b.tokens
    ensures Admitted(b, seq(n, _ => now), now, now) == n
    ensures AfterAll(b, seq(n, _ => now)) == b.(tokens := b.tokens - n)
    decreases n
  {
    if n > 0 {
      assert seq(n, _ => now)[1..] == seq(n - 1, _ => now);
      BurstIsAdmitted(b.(tokens := b.tokens - 1), now, n - 1);
    }
  }

  lemma {:induction false} AdmittedInParts(b: Bucket, x: seq<int>, y: seq<int>, t1: int, t2: int)
    ensures Admitted(b, x + y, t1, t2) == Admitted(b, x, t1, t2) + Admitted(AfterAll(b, x), y, t1, t2)
    decreases |x|
  {
    if x == [] {
      assert x + y == y;
    } else {
      assert (x + y)[1..] == x[1..] + y;
      AdmittedInParts(After(b, x[0]), x[1..], y, t1, t2);
    }
  }

  /** The window bound is met: 800 requests in one instant, four quiet seconds after the start. */
  lemma WindowBoundIsMet(start: int)
    ensures Clock(start, seq(800, _ => start + 4))
    ensures Admitted(Bucket(MAX_TOKENS, start), seq(800, _ => start + 4), start + 4, start + 4) == 800
  {
    var b, now := Bucket(MAX_TOKENS, start), start + 4;
    var half, rest := seq(400, _ => now), seq(399, _ => now);
    assert seq(800, _ => now) == half + half && half[1..] == rest;
    BurstIsAdmitted(b, now, 400);
    BurstIsAdmitted(Bucket(MAX_TOKENS - 1, now), now, 399);
    AdmittedInParts(b, half, half, now, now);
    assert After(Bucket(0, start), now) == Bucket(MAX_TOKENS - 1, now);
  }

  /** Of `n` requests in one instant just those are admitted for which there are tokens, or a refill for the time since the last one. */
  lemma {:induction false} BurstExactly(b: Bucket, now: int, n: nat)
    requires Ok(b) && b.time <= now
    ensures var refill := if 100 * (now - b.time) <= 400 then 100 * (now - b.time) else 400;
            Admitted(b, seq(n, _ => now), now, now) == if n <= b.tokens + refill then n else b.tokens + refill
    decreases n
  {
    if n > 0 {
      assert seq(n, _ => now)[1..] == seq(n - 1, _ => now);
      BurstExactly(After(b, now), now, n - 1);
    }
  }

  /** Requests that leave a second between them are all admitted. */
  lemma {:induction false} SpacedAreAdmitted(b: Bucket, times: seq<int>, t1: int, t2: int)
    requires Ok(b) && forall i :: 0 <= i < |times| ==> t1 <= times[i] <= t2
    requires (times != [] ==> b.time < times[0]) && forall i :: 0 <= i < |times| - 1 ==> times[i] < times[i + 1]
    ensures Admitted(b, times, t1, t2) == |times|
    decreases |times|
  {
    if times != [] { SpacedAreAdmitted(After(b, times[0]), times[1..], t1, t2); }
  }

  class Limiter {
    var tokenBucketTime: int
    var tokenBucketTokens: int

    ghost function State(): Bucket
      reads this
    {
      Bucket(tokenBucketTokens, tokenBucketTime)
    }

    constructor (now: int)
      ensures State() == Bucket(MAX_TOKENS, now)
    {
      tokenBucketTime, tokenBucketTokens := now, MAX_TOKENS;
    }

    /** `token_bucket`. */
    method TokenBucket(now: int) returns (ok: bool)
      requires Ok(State()) && tokenBucketTime <= now
      modifies this
      ensures ok == Admits(old(State()), now) && State() == After(old(State()), now)
      ensures Ok(State()) && tokenBucketTime <= now
    {
      if tokenBucketTokens == 0 {
        tokenBucketTokens := if MAX_TOKENS < RATE * (now - tokenBucketTime) then MAX_TOKENS else RATE * (now - tokenBucketTime);
        tokenBucketTime := now;
      }
      if tokenBucketTokens == 0 { return false; }
      tokenBucketTokens := tokenBucketTokens - 1;
      return true;
    }
  }
}
