/**
 * A token-bucket rate limiter: each user has a bucket that starts full with `capacity`
 * tokens and gains `refillRatePerSecond` tokens per whole elapsed second, never beyond
 * `capacity`; a request is admitted when a token is there to spend. The time of a
 * request is the `now` parameter. The token count is a `double` in Java but only ever
 * holds whole numbers, so it is an `int` here.
 */
module TokenBucket {
  import opened Wrappers
  import opened JavaLang

  /** The contents of a user's `Bucket` object. */
  datatype BucketState = BucketState(tokens: int, lastRefilledTimeMs: int64)

  /** The answer to one request and the user's bucket after it. */
  datatype Decision = Decision(allowed: bool, bucket: BucketState)

  /** The tokens `refill` offers: whole elapsed seconds (`long` division) times the rate, in `long` arithmetic. */
  function TokensToAdd(b: BucketState, now: int64, refillRatePerSecond: int32): (r: int)
    ensures IsLong(r)
  {
    Wrap64(Div(Wrap64(now - b.lastRefilledTimeMs), 1000) * refillRatePerSecond)
  }

  /**
   * `refill`: a positive number of tokens to add tops the bucket up, capped at `capacity`,
   * and moves the refill time to `now`; otherwise the bucket is left as it is.
   */
  function Refill(b: BucketState, now: int64, capacity: int32, refillRatePerSecond: int32): (r: BucketState)
    ensures TokensToAdd(b, now, refillRatePerSecond) <= 0 ==> r == b
    ensures TokensToAdd(b, now, refillRatePerSecond) > 0 ==>
      r.lastRefilledTimeMs == now && r.tokens <= capacity && (r.tokens == capacity || r.tokens > b.tokens)
  {
    var add := TokensToAdd(b, now, refillRatePerSecond);
    if add > 0 then BucketState(Min(capacity, b.tokens + add), now) else b
  }

  function Min(a: int, b: int): int {
    if a < b then a else b
  }

  /**
   * Without `long` overflow, `refill` adds the rate for every whole second since the last
   * refill, capped at `capacity`, and leaves the bucket alone when that adds nothing.
   */
  lemma RefillByElapsed(b: BucketState, now: int64, capacity: int32, refillRatePerSecond: int32)
    requires 0 <= now - b.lastRefilledTimeMs
    requires IsLong(now - b.lastRefilledTimeMs) && IsLong((now - b.lastRefilledTimeMs) / 1000 * refillRatePerSecond)
    ensures var added := (now - b.lastRefilledTimeMs) / 1000 * refillRatePerSecond;
      Refill(b, now, capacity, refillRatePerSecond)
        == if added > 0 then BucketState(Min(capacity, b.tokens + added), now) else b
  {
    var elapsed := now - b.lastRefilledTimeMs;
    assert Wrap64(elapsed) == elapsed;
    assert Div(elapsed, 1000) == elapsed / 1000;
  }

  /** The bucket `computeIfAbsent` creates for a new user: full, refilled at `now`. */
  function NewBucket(now: int64, capacity: int32): BucketState {
    BucketState(capacity, now)
  }

  /** `allow`: refill, then spend one token if there is one; a refused request spends nothing. */
  function Decide(b: Option<BucketState>, now: int64, capacity: int32, refillRatePerSecond: int32): (r: Decision)
    ensures var refilled := Refill(if b.Some? then b.value else NewBucket(now, capacity), now, capacity, refillRatePerSecond);
      && (r.allowed <==> refilled.tokens >= 1)
      && r.bucket.lastRefilledTimeMs == refilled.lastRefilledTimeMs
      && r.bucket.tokens == if r.allowed then refilled.tokens - 1 else refilled.tokens
  {
    var refilled := Refill(if b.Some? then b.value else NewBucket(now, capacity), now, capacity, refillRatePerSecond);
    if refilled.tokens >= 1 then Decision(true, refilled.(tokens := refilled.tokens - 1)) else Decision(false, refilled)
  }

  /** The tokens lie in [0, capacity]; with a negative capacity the bucket is stuck at `capacity`. */
  predicate InRange(b: BucketState, capacity: int32) {
    (if capacity < 0 then capacity as int else 0) <= b.tokens <= capacity
  }

  /** Every request keeps the tokens in range. */
  lemma DecideKeepsInRange(b: Option<BucketState>, now: int64, capacity: int32, refillRatePerSecond: int32)
    requires b.Some? ==> InRange(b.value, capacity)
    ensures InRange(Decide(b, now, capacity, refillRatePerSecond).bucket, capacity)
  {
  }

  /** Refilling never takes tokens away from a bucket within its capacity. */
  lemma RefillNeverDrains(b: BucketState, now: int64, capacity: int32, refillRatePerSecond: int32)
    requires b.tokens <= capacity
    ensures Refill(b, now, capacity, refillRatePerSecond).tokens >= b.tokens
  {
  }

  /** The answers to `n` successive requests of one user at the same time `now`. */
  function Burst(b: Option<BucketState>, n: nat, now: int64, capacity: int32, refillRatePerSecond: int32): (r: seq<bool>)
    ensures |r| == n
    decreases n
  {
    if n == 0 then []
    else
      var d := Decide(b, now, capacity, refillRatePerSecond);
      [d.allowed] + Burst(Some(d.bucket), n - 1, now, capacity, refillRatePerSecond)
  }

  /** A bucket refilled at `now` gains nothing more at `now`: its `t` tokens serve exactly the next `t` requests. */
  lemma {:induction false} BurstDrains(t: int, n: nat, now: int64, capacity: int32, refillRatePerSecond: int32)
    ensures Burst(Some(BucketState(t, now)), n, now, capacity, refillRatePerSecond) == seq(n, i => i < t)
    decreases n
  {
    if n > 0 {
      assert TokensToAdd(BucketState(t, now), now, refillRatePerSecond) == 0;
      if t >= 1 {
        BurstDrains(t - 1, n - 1, now, capacity, refillRatePerSecond);
      } else {
        BurstDrains(t, n - 1, now, capacity, refillRatePerSecond);
      }
    }
  }

  /** A request at the instant of the last refill gets no new token: one is spent if there is one. */
  lemma DecideSameInstant(t: int, now: int64, capacity: int32, refillRatePerSecond: int32)
    ensures Decide(Some(BucketState(t, now)), now, capacity, refillRatePerSecond) ==
      if t >= 1 then Decision(true, BucketState(t - 1, now)) else Decision(false, BucketState(t, now))
  {
    assert TokensToAdd(BucketState(t, now), now, refillRatePerSecond) == 0;
  }

  /** A new user's first request spends one token of a full bucket. */
  lemma DecideFresh(now: int64, capacity: int32, refillRatePerSecond: int32)
    ensures Decide(None, now, capacity, refillRatePerSecond) ==
      if capacity >= 1 then Decision(true, BucketState(capacity - 1, now)) else Decision(false, BucketState(capacity, now))
  {
    DecideSameInstant(capacity, now, capacity, refillRatePerSecond);
  }

  /** A new user sending `n` requests at one instant has exactly the first `capacity` of them admitted. */
  lemma FreshBurst(n: nat, now: int64, capacity: int32, refillRatePerSecond: int32)
    ensures Burst(None, n, now, capacity, refillRatePerSecond) == seq(n, i => i < capacity)
  {
    BurstDrains(capacity, n, now, capacity, refillRatePerSecond);
    assert Burst(None, n, now, capacity, refillRatePerSecond) == Burst(Some(NewBucket(now, capacity)), n, now, capacity, refillRatePerSecond);
  }

  class TokenBucketLimiter {
    const capacity: int32
    const refillRatePerSecond: int32
    /** Each user's `Bucket`, held by value: no bucket object is shared between users. */
    var userBucket: map<string, BucketState>

    /** Every bucket's tokens are in range. */
    ghost predicate Valid()
      reads this
    {
      forall u :: u in userBucket ==> InRange(userBucket[u], capacity)
    }

    constructor(capacity: int32, refillRatePerSecond: int32)
      ensures Valid() && userBucket == map[]
      ensures this.capacity == capacity && this.refillRatePerSecond == refillRatePerSecond
    {
      this.capacity := capacity;
      this.refillRatePerSecond := refillRatePerSecond;
      userBucket := map[];
    }

    /** `allow`: decides the request by `Decide`; only this user's bucket changes, and it is created if missing. */
    method Allow(userId: string, now: int64) returns (allowed: bool)
      requires Valid()
      modifies this
      ensures Valid()
      ensures var d := Decide(if userId in old(userBucket) then Some(old(userBucket)[userId]) else None, now, capacity, refillRatePerSecond);
        allowed == d.allowed && userBucket == old(userBucket)[userId := d.bucket]
    {
      if userId !in userBucket {
        userBucket := userBucket[userId := NewBucket(now, capacity)];
      }
      var b := userBucket[userId];
      var add := Wrap64(Div(Wrap64(now - b.lastRefilledTimeMs), 1000) * refillRatePerSecond);
      if add > 0 {
        b := BucketState(Min(capacity, b.tokens + add), now);
      }
      if b.tokens >= 1 {
        b := b.(tokens := b.tokens - 1);
        allowed := true;
      } else {
        allowed := false;
      }
      userBucket := userBucket[userId := b];
    }
  }

  /** `Instant.EPOCH.toEpochMilli()`, the clock `allow` reads as written: always 0. */
  const EpochMillis: int64 := 0

  /** `allow` as written, with its clock stuck at the epoch. */
  method AllowAtEpoch(limiter: TokenBucketLimiter, userId: string) returns (allowed: bool)
    requires limiter.Valid()
    modifies limiter
    ensures limiter.Valid()
    ensures var d := Decide(if userId in old(limiter.userBucket) then Some(old(limiter.userBucket)[userId]) else None, EpochMillis, limiter.capacity, limiter.refillRatePerSecond);
      allowed == d.allowed && limiter.userBucket == old(limiter.userBucket)[userId := d.bucket]
  {
    allowed := limiter.Allow(userId, EpochMillis);
  }

  /**
   * The demonstration run as written: 5 tokens, 2 per second; a burst of six passes five
   * times, and since the clock never moves nothing is refilled, so the four calls after
   * the 2.5-second wait are refused.
   */
  method EpochDemo() returns (burst: seq<bool>, afterWait: seq<bool>)
    ensures burst == [true, true, true, true, true, false]
    ensures afterWait == [false, false, false, false]
  {
    var limiter := new TokenBucketLimiter(5, 2);
    DecideFresh(0, 5, 2);
    var r1 := AllowAtEpoch(limiter, "ashwath");
    DecideSameInstant(4, 0, 5, 2);
    var r2 := AllowAtEpoch(limiter, "ashwath");
    DecideSameInstant(3, 0, 5, 2);
    var r3 := AllowAtEpoch(limiter, "ashwath");
    DecideSameInstant(2, 0, 5, 2);
    var r4 := AllowAtEpoch(limiter, "ashwath");
    DecideSameInstant(1, 0, 5, 2);
    var r5 := AllowAtEpoch(limiter, "ashwath");
    DecideSameInstant(0, 0, 5, 2);
    var r6 := AllowAtEpoch(limiter, "ashwath");
    burst := [r1, r2, r3, r4, r5, r6];
    var r7 := AllowAtEpoch(limiter, "ashwath");
    var r8 := AllowAtEpoch(limiter, "ashwath");
    var r9 := AllowAtEpoch(limiter, "ashwath");
    var r10 := AllowAtEpoch(limiter, "ashwath");
    afterWait := [r7, r8, r9, r10];
  }

  /** After an empty bucket waits 2.5 seconds at 2 tokens per second, the next request finds 4 tokens and spends one. */
  lemma WaitRefills()
    ensures Decide(Some(BucketState(0, 0)), 2500, 5, 2) == Decision(true, BucketState(3, 2500))
  {
    assert Wrap64(2500 - 0) == 2500;
    assert Div(2500, 1000) == 2;
    assert TokensToAdd(BucketState(0, 0), 2500, 2) == 4;
  }

  /**
   * The demonstration run with a clock that advances: 2.5 seconds are two whole seconds,
   * so four tokens come back and the four calls after the wait pass.
   */
  method Demo() returns (burst: seq<bool>, afterWait: seq<bool>)
    ensures burst == [true, true, true, true, true, false]
    ensures afterWait == [true, true, true, true]
  {
    var limiter := new TokenBucketLimiter(5, 2);
    DecideFresh(0, 5, 2);
    var r1 := limiter.Allow("ashwath", 0);
    DecideSameInstant(4, 0, 5, 2);
    var r2 := limiter.Allow("ashwath", 0);
    DecideSameInstant(3, 0, 5, 2);
    var r3 := limiter.Allow("ashwath", 0);
    DecideSameInstant(2, 0, 5, 2);
    var r4 := limiter.Allow("ashwath", 0);
    DecideSameInstant(1, 0, 5, 2);
    var r5 := limiter.Allow("ashwath", 0);
    DecideSameInstant(0, 0, 5, 2);
    var r6 := limiter.Allow("ashwath", 0);
    burst := [r1, r2, r3, r4, r5, r6];
    WaitRefills();
    var r7 := limiter.Allow("ashwath", 2500);
    DecideSameInstant(3, 2500, 5, 2);
    var r8 := limiter.Allow("ashwath", 2500);
    DecideSameInstant(2, 2500, 5, 2);
    var r9 := limiter.Allow("ashwath", 2500);
    DecideSameInstant(1, 2500, 5, 2);
    var r10 := limiter.Allow("ashwath", 2500);
    afterWait := [r7, r8, r9, r10];
  }
}
