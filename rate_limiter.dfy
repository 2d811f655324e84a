/**
  The request governor of the download client: a sliding-window admission
  controller (per-minute and per-hour limits over a bounded log of admission
  times) with a minimum spacing between requests and an exponential backoff
  after consecutive errors. `time.time()` and `time.sleep()` are a `Clock`
  object that the caller passes in.
 */
module RateLimiting {
  import opened Wrappers
  import opened SlidingWindow

  /** Ceiling on the backoff wait, in seconds (`max_backoff = 300`). */
  const MaxBackoff: real := 300.0

  /**
    Exponent from which `2**k` no longer converts to a binary64 float: Python
    raises `OverflowError` for every integer of 2^1024 or more.
   */
  const FloatExponentLimit: nat := 1024

  function Pow2(k: nat): (p: nat)
    ensures p >= 1
  {
    if k == 0 then 1 else 2 * Pow2(k - 1)
  }

  /** `min_delay` doubled `k` times, that is `min_delay * 2**k`, kept free of multiplication by a variable. */
  function Doubled(minDelay: real, k: nat): real {
    if k == 0 then minDelay else 2.0 * Doubled(minDelay, k - 1)
  }

  lemma {:induction false} DoubledIsProduct(minDelay: real, k: nat)
    ensures Doubled(minDelay, k) == minDelay * Pow2(k) as real
  {
    if k > 0 {
      DoubledIsProduct(minDelay, k - 1);
    }
  }

  lemma {:induction false} DoubledMonotone(minDelay: real, j: nat, k: nat)
    requires minDelay >= 0.0 && j <= k
    ensures 0.0 <= Doubled(minDelay, j) <= Doubled(minDelay, k)
  {
    if j < k {
      DoubledMonotone(minDelay, j, k - 1);
    } else if j > 0 {
      DoubledMonotone(minDelay, j - 1, j - 1);
    }
  }

  /** `min(min_delay * 2**k, max_backoff)` in exact arithmetic. */
  function Backoff(minDelay: real, k: nat): real {
    var raw := Doubled(minDelay, k);
    if MaxBackoff < raw then MaxBackoff else raw
  }

  /** The backoff never exceeds the ceiling, is never negative, and is the plain product below it. */
  lemma BackoffBounds(minDelay: real, k: nat)
    requires minDelay >= 0.0
    ensures 0.0 <= Backoff(minDelay, k) <= MaxBackoff
    ensures minDelay * Pow2(k) as real <= MaxBackoff ==> Backoff(minDelay, k) == minDelay * Pow2(k) as real
    ensures minDelay * Pow2(k) as real >= MaxBackoff ==> Backoff(minDelay, k) == MaxBackoff
  {
    DoubledMonotone(minDelay, k, k);
    DoubledIsProduct(minDelay, k);
  }

  /** More consecutive errors never shorten the backoff. */
  lemma BackoffMonotone(minDelay: real, j: nat, k: nat)
    requires minDelay >= 0.0 && j <= k
    ensures Backoff(minDelay, j) <= Backoff(minDelay, k)
  {
    DoubledMonotone(minDelay, j, k);
  }

  /** With the client's 2 s minimum delay, eight or more errors hit the 300 s ceiling. */
  lemma BackoffSaturates(k: nat)
    requires k >= 8
    ensures Backoff(2.0, k) == MaxBackoff
  {
    assert Doubled(2.0, 8) == 512.0;
    DoubledMonotone(2.0, 8, k);
  }

  /**
    The backoff as the source computes it with Python floats: the product
    `min_delay * (2**k)` converts `2**k` to a float before `min` applies the
    ceiling, so from 1024 consecutive errors on `wait()` raises
    `OverflowError` (modelled as `None`) instead of waiting 300 s.
   */
  function BackoffAsWritten(minDelay: real, k: nat): (r: Option<real>)
  {
    if k >= FloatExponentLimit then None else Some(Backoff(minDelay, k))
  }

  /** The input that shows the overflow: 1024 errors with the client's 2 s delay. */
  lemma BackoffOverflowFinding()
    ensures BackoffAsWritten(2.0, 1024) == None
    ensures Backoff(2.0, 1024) == MaxBackoff
    ensures BackoffAsWritten(2.0, 1023) == Some(MaxBackoff)
  {
    BackoffSaturates(1024);
    BackoffSaturates(1023);
  }

  /**
    A monotonic wall clock. Sleeping for `d` seconds leaves the clock at least
    `d` seconds later; every proof below relies on that contract only, so it
    also holds when the process oversleeps.
   */
  class Clock {
    var now: real

    constructor (start: real)
      ensures now == start
    {
      now := start;
    }

    /** `time.sleep(d)`; a negative argument raises `ValueError` in Python. */
    method Sleep(d: real)
      requires d >= 0.0
      modifies this
      ensures now >= old(now) + d
    {
      now := now + d;
    }
  }

  /** The snapshot returned by `get_stats`. */
  datatype Stats = Stats(
    requestsLastMinute: nat,
    requestsLastHour: nat,
    consecutiveErrors: nat,
    totalRequests: nat)

  class RateLimiter {
    const requestsPerMinute: nat
    const requestsPerHour: nat
    const minDelay: real

    /** Admission times, oldest first, at most `requestsPerHour` of them. */
    var requestTimes: seq<real>
    var lastRequestTime: real
    var consecutiveErrors: nat

    /**
      The governor's invariant: the log is bounded, in admission order and
      not newer than the last admission, and measured at the last admission
      neither window holds more entries than its limit.
     */
    ghost predicate Valid()
      reads this
    {
      && requestsPerMinute >= 1
      && minDelay >= 0.0
      && |requestTimes| <= requestsPerHour
      && Sorted(requestTimes)
      && (forall i :: 0 <= i < |requestTimes| ==> requestTimes[i] <= lastRequestTime)
      && (|requestTimes| > 0 ==> requestTimes[|requestTimes| - 1] == lastRequestTime)
      && CountAfter(requestTimes, lastRequestTime - MinuteWindow) <= requestsPerMinute
      && CountAfter(requestTimes, lastRequestTime - HourWindow) <= requestsPerHour
    }

    constructor (requestsPerMinute: nat := 30, requestsPerHour: nat := 500, minDelay: real := 2.0)
      requires requestsPerMinute >= 1 && minDelay >= 0.0
      ensures Valid()
      ensures this.requestsPerMinute == requestsPerMinute
      ensures this.requestsPerHour == requestsPerHour
      ensures this.minDelay == minDelay
      ensures requestTimes == [] && lastRequestTime == 0.0 && consecutiveErrors == 0
    {
      this.requestsPerMinute := requestsPerMinute;
      this.requestsPerHour := requestsPerHour;
      this.minDelay := minDelay;
      requestTimes := [];
      lastRequestTime := 0.0;
      consecutiveErrors := 0;
    }

    /**
      `wait()`: sleeps through the four checks in order (spacing, minute
      window, hour window, backoff), then records the admission time.
      `clock.now >= lastRequestTime` is the monotonic clock: the last
      admission was read from the same clock.
     */
    method Wait(clock: Clock)
      requires Valid()
      requires clock.now >= lastRequestTime
      modifies this, clock
      ensures Valid()
      ensures clock.now >= old(clock.now)
      ensures lastRequestTime == clock.now
      ensures requestTimes == BoundedAppend(old(requestTimes), clock.now, requestsPerHour)
      ensures consecutiveErrors == old(consecutiveErrors)
      ensures clock.now >= old(lastRequestTime) + minDelay
                           + (if consecutiveErrors > 0 then Backoff(minDelay, consecutiveErrors) else 0.0)
      ensures CountAfter(requestTimes, clock.now - MinuteWindow) <= requestsPerMinute
      ensures CountAfter(requestTimes, clock.now - HourWindow) <= requestsPerHour
      ensures |old(requestTimes)| == requestsPerHour > 0 ==> clock.now - old(requestTimes)[0] >= HourWindow
      ensures consecutiveErrors > 0 ==> clock.now >= old(clock.now) + Backoff(minDelay, consecutiveErrors)
      ensures consecutiveErrors > 0 ==>
        && CountAfter(old(requestTimes), clock.now - Backoff(minDelay, consecutiveErrors) - MinuteWindow) < requestsPerMinute
        && (requestsPerHour > 0 ==>
              CountAfter(old(requestTimes), clock.now - Backoff(minDelay, consecutiveErrors) - HourWindow) < requestsPerHour)
      ensures && old(clock.now) - old(lastRequestTime) >= minDelay
              && consecutiveErrors == 0
              && CountAfter(old(requestTimes), old(clock.now) - MinuteWindow) < requestsPerMinute
              && CountAfter(old(requestTimes), old(clock.now) - HourWindow) < requestsPerHour
              ==> clock.now == old(clock.now)
    {
      SleepUntilAdmissible(clock);
      var currentTime := clock.now;
      Record(currentTime);
    }

    /**
      The four checks of `wait()` before the admission is recorded: afterwards
      the spacing and the backoff have elapsed and both windows have room; a
      full log's oldest entry, the one the append will evict, is an hour old.
      The backoff is slept on top of the other waits, from a time at which
      both windows already had room, and nothing is slept when no check fires.
     */
    method SleepUntilAdmissible(clock: Clock)
      requires Valid()
      requires clock.now >= lastRequestTime
      modifies clock
      ensures clock.now >= old(clock.now)
      ensures clock.now >= lastRequestTime + minDelay
                           + (if consecutiveErrors > 0 then Backoff(minDelay, consecutiveErrors) else 0.0)
      ensures CountAfter(requestTimes, clock.now - MinuteWindow) < requestsPerMinute
      ensures requestsPerHour > 0 ==> CountAfter(requestTimes, clock.now - HourWindow) < requestsPerHour
      ensures |requestTimes| == requestsPerHour > 0 ==> clock.now - requestTimes[0] >= HourWindow
      ensures consecutiveErrors > 0 ==> clock.now >= old(clock.now) + Backoff(minDelay, consecutiveErrors)
      ensures consecutiveErrors > 0 ==>
        && CountAfter(requestTimes, clock.now - Backoff(minDelay, consecutiveErrors) - MinuteWindow) < requestsPerMinute
        && (requestsPerHour > 0 ==>
              CountAfter(requestTimes, clock.now - Backoff(minDelay, consecutiveErrors) - HourWindow) < requestsPerHour)
      ensures && old(clock.now) - lastRequestTime >= minDelay
              && consecutiveErrors == 0
              && CountAfter(requestTimes, old(clock.now) - MinuteWindow) < requestsPerMinute
              && CountAfter(requestTimes, old(clock.now) - HourWindow) < requestsPerHour
              ==> clock.now == old(clock.now)
    {
      ghost var log := requestTimes;
      SleepForSpacing(clock);
      CountAfterAntitone(log, lastRequestTime - MinuteWindow, clock.now - MinuteWindow);
      SleepForWindowsThenBackoff(clock);
      if |log| == requestsPerHour > 0 {
        OldestOutside(log, clock.now - HourWindow);
      }
    }

    /**
      The two window checks followed by the error backoff: the backoff is
      slept from a time at which both windows already have room, so the
      windows still have room when it ends.
    */
    method SleepForWindowsThenBackoff(clock: Clock)
      requires minDelay >= 0.0 && requestsPerMinute >= 1 && |requestTimes| <= requestsPerHour
      requires forall i :: 0 <= i < |requestTimes| ==> requestTimes[i] <= clock.now
      requires CountAfter(requestTimes, clock.now - MinuteWindow) <= requestsPerMinute
      modifies clock
      ensures clock.now >= old(clock.now)
      ensures CountAfter(requestTimes, clock.now - MinuteWindow) < requestsPerMinute
      ensures requestsPerHour > 0 ==> CountAfter(requestTimes, clock.now - HourWindow) < requestsPerHour
      ensures consecutiveErrors > 0 ==> clock.now >= old(clock.now) + Backoff(minDelay, consecutiveErrors)
      ensures consecutiveErrors > 0 ==>
        && CountAfter(requestTimes, clock.now - Backoff(minDelay, consecutiveErrors) - MinuteWindow) < requestsPerMinute
        && (requestsPerHour > 0 ==>
              CountAfter(requestTimes, clock.now - Backoff(minDelay, consecutiveErrors) - HourWindow) < requestsPerHour)
      ensures && consecutiveErrors == 0
              && CountAfter(requestTimes, old(clock.now) - MinuteWindow) < requestsPerMinute
              && CountAfter(requestTimes, old(clock.now) - HourWindow) < requestsPerHour
              ==> clock.now == old(clock.now)
    {
      var log := requestTimes;
      SleepForWindows(clock);
      ghost var clearedAt := clock.now;
      SleepForBackoff(clock);
      RoomPersists(log, clearedAt, clock.now, requestsPerMinute, requestsPerHour);
      if consecutiveErrors > 0 {
        RoomPersists(log, clearedAt, clock.now - Backoff(minDelay, consecutiveErrors), requestsPerMinute, requestsPerHour);
      }
    }

    /** The per-minute and then the per-hour check: afterwards both windows have room. */
    method SleepForWindows(clock: Clock)
      requires requestsPerMinute >= 1 && |requestTimes| <= requestsPerHour
      requires forall i :: 0 <= i < |requestTimes| ==> requestTimes[i] <= clock.now
      requires CountAfter(requestTimes, clock.now - MinuteWindow) <= requestsPerMinute
      modifies clock
      ensures clock.now >= old(clock.now)
      ensures CountAfter(requestTimes, clock.now - MinuteWindow) < requestsPerMinute
      ensures requestsPerHour > 0 ==> CountAfter(requestTimes, clock.now - HourWindow) < requestsPerHour
      ensures && CountAfter(requestTimes, old(clock.now) - MinuteWindow) < requestsPerMinute
              && CountAfter(requestTimes, old(clock.now) - HourWindow) < requestsPerHour
              ==> clock.now == old(clock.now)
    {
      var log := requestTimes;
      SleepForWindow(clock, log, MinuteWindow, requestsPerMinute);
      ghost var minuteClearedAt := clock.now;
      SleepForWindow(clock, log, HourWindow, requestsPerHour);
      CountAfterAntitone(log, minuteClearedAt - MinuteWindow, clock.now - MinuteWindow);
    }

    /** The minimum-spacing check: sleeps out what is left of `minDelay` since the last admission. */
    method SleepForSpacing(clock: Clock)
      modifies clock
      ensures clock.now >= old(clock.now)
      ensures clock.now >= lastRequestTime + minDelay
      ensures old(clock.now) - lastRequestTime >= minDelay ==> clock.now == old(clock.now)
    {
      var currentTime := clock.now;
      var timeSinceLast := currentTime - lastRequestTime;
      if timeSinceLast < minDelay {
        clock.Sleep(minDelay - timeSinceLast);
      }
    }

    /**
      One windowed check (the per-minute and the per-hour blocks differ only
      in `window` and `limit`): when `limit` or more logged entries are newer
      than `now - window`, sleep until the oldest of them has left the window,
      plus the slack second. `log` is the request log as read at the check.
     */
    method SleepForWindow(clock: Clock, log: seq<real>, window: real, limit: nat)
      requires forall i :: 0 <= i < |log| ==> log[i] <= clock.now
      requires CountAfter(log, clock.now - window) <= limit
      modifies clock
      ensures clock.now >= old(clock.now)
      ensures CountAfter(log, old(clock.now) - window) < limit ==> clock.now == old(clock.now)
      ensures CountAfter(log, old(clock.now) - window) >= limit ==>
        clock.now >= old(clock.now) + ExpiryWait(log, old(clock.now), window)
      ensures limit > 0 ==> CountAfter(log, clock.now - window) < limit
    {
      var currentTime := clock.now;
      var windowStart := currentTime - window;
      var recentRequests := CountAfter(log, windowStart);
      if recentRequests >= limit {
        var waitTime := ExpiryWait(log, currentTime, window);
        ExpiryWaitBounds(log, currentTime, window);
        clock.Sleep(waitTime);
        if limit > 0 {
          ExpiryWaitClears(log, currentTime, window, clock.now);
        }
      }
    }

    /** The backoff check: after `k > 0` consecutive errors, sleep `Backoff(minDelay, k)`. */
    method SleepForBackoff(clock: Clock)
      requires minDelay >= 0.0
      modifies clock
      ensures clock.now >= old(clock.now)
      ensures consecutiveErrors == 0 ==> clock.now == old(clock.now)
      ensures consecutiveErrors > 0 ==> clock.now >= old(clock.now) + Backoff(minDelay, consecutiveErrors)
    {
      if consecutiveErrors > 0 {
        var backoff := Backoff(minDelay, consecutiveErrors);
        BackoffBounds(minDelay, consecutiveErrors);
        clock.Sleep(backoff);
      }
    }

    /** Records an admission at `now`: a bounded append to the log and the new last-request time. */
    method Record(now: real)
      requires Valid() && now >= lastRequestTime
      requires CountAfter(requestTimes, now - MinuteWindow) < requestsPerMinute
      modifies this
      ensures Valid()
      ensures lastRequestTime == now
      ensures requestTimes == BoundedAppend(old(requestTimes), now, requestsPerHour)
      ensures consecutiveErrors == old(consecutiveErrors)
      ensures CountAfter(requestTimes, now - MinuteWindow) <= requestsPerMinute
    {
      BoundedAppendCount(requestTimes, now, requestsPerHour, now - MinuteWindow);
      BoundedAppendSorted(requestTimes, now, requestsPerHour);
      requestTimes := BoundedAppend(requestTimes, now, requestsPerHour);
      lastRequestTime := now;
    }

    /** `record_success()`: clears the error streak and touches nothing else. */
    method RecordSuccess()
      requires Valid()
      modifies this
      ensures Valid()
      ensures consecutiveErrors == 0
      ensures requestTimes == old(requestTimes) && lastRequestTime == old(lastRequestTime)
    {
      consecutiveErrors := 0;
    }

    /** `record_error()`: one more error, with no cap on the counter itself. */
    method RecordError()
      requires Valid()
      modifies this
      ensures Valid()
      ensures consecutiveErrors == old(consecutiveErrors) + 1
      ensures requestTimes == old(requestTimes) && lastRequestTime == old(lastRequestTime)
    {
      consecutiveErrors := consecutiveErrors + 1;
    }

    /** `get_stats()`: counts the log at the clock's time and changes nothing. */
    method GetStats(clock: Clock) returns (stats: Stats)
      requires Valid()
      ensures stats.requestsLastMinute == CountAfter(requestTimes, clock.now - MinuteWindow)
      ensures stats.requestsLastHour == CountAfter(requestTimes, clock.now - HourWindow)
      ensures stats.consecutiveErrors == consecutiveErrors
      ensures stats.totalRequests == |requestTimes|
      ensures stats.requestsLastMinute <= stats.requestsLastHour <= stats.totalRequests <= requestsPerHour
    {
      var currentTime := clock.now;
      var oneMinuteAgo := currentTime - MinuteWindow;
      var oneHourAgo := currentTime - HourWindow;
      CountAfterAntitone(requestTimes, oneHourAgo, oneMinuteAgo);
      stats := Stats(
        CountAfter(requestTimes, oneMinuteAgo),
        CountAfter(requestTimes, oneHourAgo),
        consecutiveErrors,
        |requestTimes|);
    }

    /**
      What the windowed count means for the retained log: any
      `requestsPerMinute + 1` consecutive admissions ending at the last one
      lie at least a minute apart.
     */
    lemma MinuteSpan()
      requires Valid() && |requestTimes| > requestsPerMinute
      ensures requestTimes[|requestTimes| - 1] - requestTimes[|requestTimes| - 1 - requestsPerMinute] >= MinuteWindow
    {
      var last := requestTimes[|requestTimes| - 1];
      CountAfterAntitone(requestTimes, lastRequestTime - MinuteWindow, last - MinuteWindow);
      WindowSpan(requestTimes, MinuteWindow, requestsPerMinute);
    }
  }

  /** Two errors, a success and one more error leave a streak of one: a 4 s backoff, not 16 s. */
  method ErrorResetScenario() returns (errors: nat, backoff: real)
    ensures errors == 1 && backoff == 4.0
  {
    var limiter := new RateLimiter(30, 500, 2.0);
    limiter.RecordError();
    limiter.RecordError();
    limiter.RecordSuccess();
    limiter.RecordError();
    errors := limiter.consecutiveErrors;
    backoff := Backoff(limiter.minDelay, errors);
  }

  /** After one error, the next admission comes at least 2 s of spacing plus 4 s of backoff later. */
  method BackoffScenario() returns (first: real, second: real)
    ensures second - first >= 6.0
  {
    var clock := new Clock(100.0);
    var limiter := new RateLimiter(30, 500, 2.0);
    limiter.Wait(clock);
    first := clock.now;
    limiter.RecordError();
    limiter.Wait(clock);
    second := clock.now;
  }

  /** With two requests per minute and no spacing, the third immediate admission comes a minute after the first. */
  method PerMinuteScenario() returns (first: real, third: real)
    ensures third - first >= MinuteWindow
  {
    var clock := new Clock(1000.0);
    var limiter := new RateLimiter(2, 500, 0.0);
    limiter.Wait(clock);
    first := clock.now;
    assert limiter.requestTimes == [first];
    limiter.Wait(clock);
    limiter.Wait(clock);
    third := clock.now;
    assert |limiter.requestTimes| == 3 && limiter.requestTimes[0] == first;
    limiter.MinuteSpan();
  }
}
