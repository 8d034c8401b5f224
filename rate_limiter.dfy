/**
 A continuous token bucket with lazy refill. Tokens accumulate at
 `bucketSize / windowSecs` per second up to `bucketSize`; every allowed send
 consumes one whole token. Arithmetic is exact (real numbers), not IEEE floats.
 */
module RateLimiting {

  /** The fixed parameters of a bucket: its size and the seconds it takes to refill from empty. */
  datatype Config = Config(bucketSize: real, windowSecs: real)

  /** The mutable part of a bucket: tokens present and the clock time of the last evaluation. */
  datatype Bucket = Bucket(available: real, lastTick: real)

  /** The bucket invariant: never negative, never above the bucket size. */
  predicate InBounds(c: Config, s: Bucket) {
    0.0 <= s.available <= c.bucketSize
  }

  /**
   Tokens that accrue over `elapsed` seconds, before the cap: `bucketSize`
   tokens per `windowSecs` seconds, never negative over a non-negative interval.
   */
  function Accrual(c: Config, elapsed: real): (r: real)
    requires c.windowSecs > 0.0
    ensures r * c.windowSecs == elapsed * c.bucketSize
    ensures 0.0 <= elapsed && 0.0 <= c.bucketSize ==> 0.0 <= r
  {
    elapsed * c.bucketSize / c.windowSecs
  }

  /** Tokens after `elapsed` seconds of refill, capped at the bucket size. */
  function Refill(c: Config, available: real, elapsed: real): (r: real)
    requires c.windowSecs > 0.0
    ensures r <= c.bucketSize
    ensures r <= available + Accrual(c, elapsed)
    ensures r == c.bucketSize || r == available + Accrual(c, elapsed)
  {
    var a := available + Accrual(c, elapsed);
    if a > c.bucketSize then c.bucketSize else a
  }

  /** No time passing accrues nothing. */
  lemma NoAccrualAtOneInstant(c: Config, t: real)
    requires c.windowSecs > 0.0
    ensures Accrual(c, t - t) == 0.0
  {
  }

  /** Refilling a bucket that is in bounds, over a non-negative interval, keeps it in bounds. */
  lemma RefillInBounds(c: Config, available: real, elapsed: real)
    requires c.windowSecs > 0.0
    requires 0.0 <= available <= c.bucketSize && 0.0 <= elapsed
    ensures available <= Refill(c, available, elapsed)
    ensures 0.0 <= Refill(c, available, elapsed) <= c.bucketSize
  {
    assert 0.0 <= elapsed * c.bucketSize;
    assert 0.0 <= Accrual(c, elapsed);
  }

  /**
   One evaluation at clock time `now`: refill, move the tick to `now`, and
   allow (consuming one token) exactly when at least one token is present.
   */
  function Decide(c: Config, s: Bucket, now: real): (r: (bool, Bucket))
    requires c.windowSecs > 0.0
    ensures r.1.lastTick == now
    ensures r.0 <==> 1.0 <= Refill(c, s.available, now - s.lastTick)
    ensures r.0 ==> r.1.available == Refill(c, s.available, now - s.lastTick) - 1.0
    ensures !r.0 ==> r.1.available == Refill(c, s.available, now - s.lastTick) < 1.0
  {
    var a := Refill(c, s.available, now - s.lastTick);
    if a < 1.0 then (false, Bucket(a, now)) else (true, Bucket(a - 1.0, now))
  }

  /** An evaluation at a clock time no earlier than the last tick keeps the bucket in bounds. */
  lemma DecideKeepsBounds(c: Config, s: Bucket, now: real)
    requires c.windowSecs > 0.0
    requires InBounds(c, s) && s.lastTick <= now
    ensures InBounds(c, Decide(c, s, now).1)
  {
    RefillInBounds(c, s.available, now - s.lastTick);
  }

  /** Consecutive evaluations at the clock times `times`: the answers, and the final bucket. */
  function Run(c: Config, s: Bucket, times: seq<real>): (r: (seq<bool>, Bucket))
    requires c.windowSecs > 0.0
    ensures |r.0| == |times|
    ensures r.1.lastTick == if |times| == 0 then s.lastTick else times[|times| - 1]
    decreases |times|
  {
    if |times| == 0 then ([], s)
    else
      var (ok, next) := Decide(c, s, times[0]);
      var (rest, last) := Run(c, next, times[1..]);
      ([ok] + rest, last)
  }

  /** The number of allowed answers. */
  function CountAllowed(results: seq<bool>): (n: nat)
    ensures n <= |results|
  {
    if |results| == 0 then 0
    else (if results[0] then 1 else 0) + CountAllowed(results[1..])
  }

  /** Times that never go back before `start` and never decrease, as a monotonic clock gives. */
  predicate Monotone(start: real, times: seq<real>) {
    (forall i :: 0 <= i < |times| ==> start <= times[i]) &&
    (forall i, j :: 0 <= i < j < |times| ==> times[i] <= times[j])
  }

  /** Accruals over consecutive intervals add up. */
  lemma AccrualAdds(c: Config, x: real, y: real)
    requires c.windowSecs > 0.0
    ensures Accrual(c, x) + Accrual(c, y) == Accrual(c, x + y)
  {
  }

  /** Evaluations at a monotonic clock keep the bucket in bounds. */
  lemma {:induction false} RunInBounds(c: Config, s: Bucket, times: seq<real>)
    requires c.windowSecs > 0.0
    requires InBounds(c, s) && Monotone(s.lastTick, times)
    ensures InBounds(c, Run(c, s, times).1)
    decreases |times|
  {
    if |times| > 0 {
      var next := Decide(c, s, times[0]).1;
      DecideKeepsBounds(c, s, times[0]);
      assert Monotone(next.lastTick, times[1..]);
      RunInBounds(c, next, times[1..]);
    }
  }

  /**
   Token conservation: whatever the clock readings, the sends allowed plus the
   tokens left never exceed the tokens at the start plus the refill over the
   whole span (the cap only ever throws tokens away).
   */
  lemma {:induction false} AllowedPlusLeftWithinRefill(c: Config, s: Bucket, times: seq<real>)
    requires c.windowSecs > 0.0
    ensures var r := Run(c, s, times);
      CountAllowed(r.0) as real + r.1.available
        <= s.available + Accrual(c, r.1.lastTick - s.lastTick)
    decreases |times|
  {
    if |times| > 0 {
      var (ok, next) := Decide(c, s, times[0]);
      var (rest, last) := Run(c, next, times[1..]);
      AllowedPlusLeftWithinRefill(c, next, times[1..]);
      assert CountAllowed(rest) as real + last.available <= next.available + Accrual(c, last.lastTick - times[0]);
      assert (if ok then 1.0 else 0.0) + next.available <= s.available + Accrual(c, times[0] - s.lastTick);
      AccrualAdds(c, times[0] - s.lastTick, last.lastTick - times[0]);
      assert (times[0] - s.lastTick) + (last.lastTick - times[0]) == last.lastTick - s.lastTick;
      assert Run(c, s, times) == ([ok] + rest, last);
      assert ([ok] + rest)[1..] == rest;
      assert CountAllowed([ok] + rest) == (if ok then 1 else 0) + CountAllowed(rest);
    }
  }

  /**
   The rate limit itself: starting from a bucket in bounds, over a monotonic
   clock, the number of allowed sends is at most the bucket size plus the
   refill over the elapsed time.
   */
  lemma AllowedWithinBudget(c: Config, s: Bucket, times: seq<real>)
    requires c.windowSecs > 0.0
    requires InBounds(c, s) && Monotone(s.lastTick, times)
    ensures var r := Run(c, s, times);
      CountAllowed(r.0) as real
        <= c.bucketSize + Accrual(c, r.1.lastTick - s.lastTick)
  {
    AllowedPlusLeftWithinRefill(c, s, times);
    RunInBounds(c, s, times);
  }

  /** `n` readings of the same clock time `t`. */
  function Instant(t: real, n: nat): (r: seq<real>)
    ensures |r| == n && forall i :: 0 <= i < n ==> r[i] == t
  {
    seq(n, _ => t)
  }

  /** `n` allowed answers. */
  function Allowed(n: nat): (r: seq<bool>)
    ensures |r| == n && forall i :: 0 <= i < n ==> r[i]
  {
    seq(n, _ => true)
  }

  /**
   With no time passing, a bucket holding `j` whole tokens allows exactly `j`
   calls, refuses the next one, and is left empty.
   */
  lemma {:induction false} DrainAtOneInstant(c: Config, j: nat, t: real)
    requires c.windowSecs > 0.0 && 0.0 <= j as real <= c.bucketSize
    ensures Run(c, Bucket(j as real, t), Instant(t, j + 1)).0 == Allowed(j) + [false]
    ensures Run(c, Bucket(j as real, t), Instant(t, j + 1)).1 == Bucket(0.0, t)
    decreases j
  {
    var times := Instant(t, j + 1);
    assert times[1..] == Instant(t, j);
    NoAccrualAtOneInstant(c, t);
    if j == 0 {
      assert Decide(c, Bucket(0.0, t), t) == (false, Bucket(0.0, t));
    } else {
      assert Decide(c, Bucket(j as real, t), t) == (true, Bucket((j - 1) as real, t));
      DrainAtOneInstant(c, j - 1, t);
      assert Instant(t, j) == Instant(t, (j - 1) + 1);
      assert Allowed(j) == [true] + Allowed(j - 1);
    }
  }

  /**
   A full bucket of `n` tokens allows exactly `n` calls at one instant and
   refuses the next one.
   */
  lemma FullBucketBurst(c: Config, n: nat, t: real)
    requires c.windowSecs > 0.0 && c.bucketSize == n as real
    ensures Run(c, Bucket(c.bucketSize, t), Instant(t, n + 1)).0 == Allowed(n) + [false]
    ensures Run(c, Bucket(c.bucketSize, t), Instant(t, n + 1)).1 == Bucket(0.0, t)
  {
    DrainAtOneInstant(c, n, t);
  }

  /**
   From an empty bucket, one call is allowed again once `windowSecs / bucketSize`
   seconds have passed, and none before.
   */
  lemma RefillOneToken(c: Config, t: real, dt: real)
    requires c.windowSecs > 0.0 && c.bucketSize >= 1.0 && 0.0 <= dt
    ensures Decide(c, Bucket(0.0, t), t + dt).0 <==> c.windowSecs / c.bucketSize <= dt
  {
    var b, w := c.bucketSize, c.windowSecs;
    assert (t + dt) - t == dt;
    assert (w / b) * b == w;
    if w / b <= dt {
      assert dt * b >= (w / b) * b;
      assert Accrual(c, dt) >= 1.0;
    } else {
      assert dt * b < w;
      assert dt * b / w == (dt * b) * (1.0 / w);
      assert w * (1.0 / w) == 1.0;
      assert (dt * b) * (1.0 / w) < w * (1.0 / w);
      assert Accrual(c, dt) < 1.0;
    }
  }

  /**
   The sender's own limiter (10 tokens per 5 seconds), full at time `t`:
   10 calls at `t` are allowed, the 11th is refused, and a call half a second
   later is allowed.
   */
  lemma SenderLimiterScenario(t: real)
    ensures Run(Config(10.0, 5.0), Bucket(10.0, t), Instant(t, 11)).0 == Allowed(10) + [false]
    ensures Decide(Config(10.0, 5.0), Run(Config(10.0, 5.0), Bucket(10.0, t), Instant(t, 11)).1, t + 0.5).0
  {
    FullBucketBurst(Config(10.0, 5.0), 10, t);
    RefillOneToken(Config(10.0, 5.0), t, 0.5);
  }

  class RateLimiter {
    const bucketSize: real
    const windowSecs: real
    var lastTick: real
    var available: real

    /** The fixed parameters of this limiter. */
    function Cfg(): Config {
      Config(bucketSize, windowSecs)
    }

    /** The mutable state of this limiter. */
    ghost function State(): Bucket
      reads this
    {
      Bucket(available, lastTick)
    }

    ghost predicate Valid()
      reads this
    {
      windowSecs > 0.0 && InBounds(Cfg(), State())
    }

    /** A full bucket, ticked at the clock time `now`. */
    constructor (bucketSize: real, windowSecs: real, now: real)
      requires windowSecs > 0.0 && 0.0 <= bucketSize
      ensures this.bucketSize == bucketSize && this.windowSecs == windowSecs
      ensures State() == Bucket(bucketSize, now)
      ensures Valid()
    {
      this.bucketSize := bucketSize;
      this.windowSecs := windowSecs;
      lastTick := now;
      available := bucketSize;
    }

    /**
     Refill lazily up to clock time `now`, then allow (consuming one token)
     exactly when a whole token is present.
     */
    method IsAllowed(now: real) returns (allowed: bool)
      requires windowSecs > 0.0
      modifies this
      ensures (allowed, State()) == Decide(Cfg(), old(State()), now)
      ensures old(Valid()) && old(lastTick) <= now ==> Valid()
    {
      if Valid() && lastTick <= now {
        DecideKeepsBounds(Cfg(), State(), now);
      }
      var passed := now - lastTick;
      lastTick := now;
      available := available + passed * bucketSize / windowSecs;
      assert available == old(available) + Accrual(Cfg(), now - old(lastTick));
      if available > bucketSize {
        available := bucketSize;
      }
      if available < 1.0 {
        return false;
      }
      available := available - 1.0;
      return true;
    }
  }
}
