/**
 * A fixed-window rate limiter: each user has a window that opens at the user's first
 * request and admits at most `maxRequests` requests until `windowSizeMs` milliseconds
 * have passed since it opened; the next request after that opens a new window. The
 * time of a request is the `now` parameter.
 */
module FixedWindow {
  import opened Wrappers
  import opened JavaLang

  /** The contents of a user's `Window` object. */
  datatype WindowState = WindowState(windowStart: int64, count: int32)

  /** The answer to one request and the user's window after it. */
  datatype Decision = Decision(allowed: bool, window: WindowState)

  /** The window has run its course: `now - windowStart >= windowSizeMs` in `long` arithmetic. */
  predicate Expired(w: WindowState, now: int64, windowSizeMs: int64) {
    Wrap64(now - w.windowStart) >= windowSizeMs
  }

  /**
   * `allow`: no window or an expired one opens a fresh window holding this request;
   * otherwise the request is admitted and counted while the count is below the limit,
   * and refused with the window untouched once it is not.
   */
  function Decide(w: Option<WindowState>, now: int64, maxRequests: int32, windowSizeMs: int64): (r: Decision)
    requires w.Some? ==> 1 <= w.value.count
    ensures r.allowed <==> w.None? || Expired(w.value, now, windowSizeMs) || w.value.count < maxRequests
    ensures !r.allowed ==> w.Some? && r.window == w.value
    ensures r.allowed ==> r.window.count == 1 || (w.Some? && r.window.count == w.value.count + 1)
  {
    if w.None? || Expired(w.value, now, windowSizeMs) then Decision(true, WindowState(now, 1))
    else if w.value.count < maxRequests then Decision(true, w.value.(count := w.value.count + 1))
    else Decision(false, w.value)
  }

  /** The count of a window is at least 1 and at most the limit (or 1 when the limit is below 1). */
  predicate Bounded(w: WindowState, maxRequests: int32) {
    1 <= w.count <= if maxRequests < 1 then 1 else maxRequests
  }

  /** Every request keeps the window within its bound. */
  lemma DecideKeepsBounded(w: Option<WindowState>, now: int64, maxRequests: int32, windowSizeMs: int64)
    requires w.Some? ==> Bounded(w.value, maxRequests)
    ensures Bounded(Decide(w, now, maxRequests, windowSizeMs).window, maxRequests)
  {
  }

  /** The answers to `n` successive requests of one user at the same time `now`. */
  function Burst(w: Option<WindowState>, n: nat, now: int64, maxRequests: int32, windowSizeMs: int64): (r: seq<bool>)
    requires w.Some? ==> 1 <= w.value.count
    ensures |r| == n
    decreases n
  {
    if n == 0 then []
    else
      var d := Decide(w, now, maxRequests, windowSizeMs);
      [d.allowed] + Burst(Some(d.window), n - 1, now, maxRequests, windowSizeMs)
  }

  /** Inside a window opened at `now` that already holds `c` requests, the next request is the `c + 1`-th. */
  lemma {:induction false} BurstInWindow(c: int32, n: nat, now: int64, maxRequests: int32, windowSizeMs: int64)
    requires 0 < windowSizeMs && 1 <= c
    ensures Burst(Some(WindowState(now, c)), n, now, maxRequests, windowSizeMs) == seq(n, i => c + i < maxRequests)
    decreases n
  {
    if n > 0 {
      var w := WindowState(now, c);
      assert !Expired(w, now, windowSizeMs);
      if c < maxRequests {
        BurstInWindow(c + 1, n - 1, now, maxRequests, windowSizeMs);
      } else {
        BurstInWindow(c, n - 1, now, maxRequests, windowSizeMs);
      }
    }
  }

  /**
   * A new user sending `n` requests at one instant has exactly the first `maxRequests`
   * of them admitted (the first one always, even when the limit is below 1).
   */
  lemma {:induction false} FreshBurst(n: nat, now: int64, maxRequests: int32, windowSizeMs: int64)
    requires 0 < windowSizeMs
    ensures Burst(None, n, now, maxRequests, windowSizeMs) == seq(n, i => i == 0 || i < maxRequests)
  {
    if n > 0 {
      BurstInWindow(1, n - 1, now, maxRequests, windowSizeMs);
    }
  }

  class FixedWindowRateLimiter {
    const maxRequests: int32
    const windowSizeMs: int64
    /** Each user's `Window`, held by value: no window object is shared between users. */
    var userWindows: map<string, WindowState>

    /** Every window is within its bound. */
    ghost predicate Valid()
      reads this
    {
      forall u :: u in userWindows ==> Bounded(userWindows[u], maxRequests)
    }

    /** The window length is `windowSizeSeconds * 1000L`, which cannot overflow a `long`. */
    constructor(maxRequests: int32, windowSizeSeconds: int32)
      ensures Valid() && userWindows == map[]
      ensures this.maxRequests == maxRequests && windowSizeMs == windowSizeSeconds * 1000
    {
      this.maxRequests := maxRequests;
      windowSizeMs := windowSizeSeconds * 1000;
      userWindows := map[];
    }

    /** `allow`: decides the request by `Decide`; only this user's window changes. */
    method Allow(userId: string, now: int64) returns (allowed: bool)
      requires Valid()
      modifies this
      ensures Valid()
      ensures var d := Decide(if userId in old(userWindows) then Some(old(userWindows)[userId]) else None, now, maxRequests, windowSizeMs);
        allowed == d.allowed && userWindows == old(userWindows)[userId := d.window]
    {
      if userId !in userWindows || Wrap64(now - userWindows[userId].windowStart) >= windowSizeMs {
        userWindows := userWindows[userId := WindowState(now, 1)];
        return true;
      }
      var w := userWindows[userId];
      if w.count < maxRequests {
        userWindows := userWindows[userId := w.(count := w.count + 1)];
        return true;
      }
      assert userWindows == userWindows[userId := w];
      return false;
    }
  }

  /** `Instant.EPOCH.toEpochMilli()`, the clock `allow` reads as written: always 0. */
  const EpochMillis: int64 := 0

  /** `allow` as written, with its clock stuck at the epoch. */
  method AllowAtEpoch(limiter: FixedWindowRateLimiter, userId: string) returns (allowed: bool)
    requires limiter.Valid()
    modifies limiter
    ensures limiter.Valid()
    ensures var d := Decide(if userId in old(limiter.userWindows) then Some(old(limiter.userWindows)[userId]) else None, EpochMillis, limiter.maxRequests, limiter.windowSizeMs);
      allowed == d.allowed && limiter.userWindows == old(limiter.userWindows)[userId := d.window]
  {
    allowed := limiter.Allow(userId, EpochMillis);
  }

  /**
   * The demonstration run as written: 3 requests per 5 seconds; three calls pass, the
   * fourth is refused, and since the clock never moves the window never resets, so the
   * three calls after the six-second wait are refused too.
   */
  method EpochDemo() returns (first: seq<bool>, fourth: bool, afterWait: seq<bool>)
    ensures first == [true, true, true] && !fourth
    ensures afterWait == [false, false, false]
  {
    var limiter := new FixedWindowRateLimiter(3, 5);
    var a1 := AllowAtEpoch(limiter, "ashwath");
    assert limiter.userWindows == map["ashwath" := WindowState(0, 1)];
    var a2 := AllowAtEpoch(limiter, "ashwath");
    assert limiter.userWindows == map["ashwath" := WindowState(0, 2)];
    var a3 := AllowAtEpoch(limiter, "ashwath");
    assert limiter.userWindows == map["ashwath" := WindowState(0, 3)];
    first := [a1, a2, a3];
    fourth := AllowAtEpoch(limiter, "ashwath");
    assert limiter.userWindows == map["ashwath" := WindowState(0, 3)];
    var a5 := AllowAtEpoch(limiter, "ashwath");
    assert limiter.userWindows == map["ashwath" := WindowState(0, 3)];
    var a6 := AllowAtEpoch(limiter, "ashwath");
    assert limiter.userWindows == map["ashwath" := WindowState(0, 3)];
    var a7 := AllowAtEpoch(limiter, "ashwath");
    afterWait := [a5, a6, a7];
  }

  /**
   * The demonstration run with a clock that advances: after the six-second wait a new
   * window opens and the next three calls pass.
   */
  method Demo() returns (first: seq<bool>, fourth: bool, afterWait: seq<bool>)
    ensures first == [true, true, true] && !fourth
    ensures afterWait == [true, true, true]
  {
    var limiter := new FixedWindowRateLimiter(3, 5);
    var a1 := limiter.Allow("ashwath", 0);
    assert limiter.userWindows == map["ashwath" := WindowState(0, 1)];
    var a2 := limiter.Allow("ashwath", 0);
    assert limiter.userWindows == map["ashwath" := WindowState(0, 2)];
    var a3 := limiter.Allow("ashwath", 0);
    assert limiter.userWindows == map["ashwath" := WindowState(0, 3)];
    first := [a1, a2, a3];
    fourth := limiter.Allow("ashwath", 0);
    assert limiter.userWindows == map["ashwath" := WindowState(0, 3)];
    var a5 := limiter.Allow("ashwath", 6000);
    assert limiter.userWindows == map["ashwath" := WindowState(6000, 1)];
    var a6 := limiter.Allow("ashwath", 6000);
    assert limiter.userWindows == map["ashwath" := WindowState(6000, 2)];
    var a7 := limiter.Allow("ashwath", 6000);
    afterWait := [a5, a6, a7];
  }
}
