/**
  The request log of the rate limiter and the questions it answers:
  how many admissions are newer than a cut-off, which of them is the
  oldest, and how a bounded deque (`deque(maxlen=cap)`) keeps the log.
  Timestamps are seconds, kept as exact reals.
 */
module SlidingWindow {

  /** Length of the per-minute window, in seconds. */
  const MinuteWindow: real := 60.0
  /** Length of the per-hour window, in seconds. */
  const HourWindow: real := 3600.0
  /** The flat second added to every windowed wait. */
  const Slack: real := 1.0

  ghost predicate Sorted(log: seq<real>) {
    forall i, j :: 0 <= i < j < |log| ==> log[i] <= log[j]
  }

  /** Number of logged timestamps strictly newer than `since` (`sum(1 for t in log if t > since)`). */
  function CountAfter(log: seq<real>, since: real): (n: nat)
    ensures n <= |log|
  {
    if log == [] then 0
    else (if log[0] > since then 1 else 0) + CountAfter(log[1..], since)
  }

  /** A count of zero means that no entry is newer than the cut-off. */
  lemma {:induction false} CountAfterZero(log: seq<real>, since: real)
    ensures CountAfter(log, since) == 0 <==> forall i :: 0 <= i < |log| ==> log[i] <= since
  {
    if log != [] {
      CountAfterZero(log[1..], since);
      assert forall i :: 1 <= i < |log| ==> log[i] == log[1..][i - 1];
    }
  }

  /**
    The oldest timestamp newer than `since`, or `since` itself when there is
    none (`min((t for t in log if t > since), default=since)`).
   */
  function OldestAfter(log: seq<real>, since: real): (m: real)
    ensures CountAfter(log, since) == 0 ==> m == since
    ensures CountAfter(log, since) > 0 ==>
      since < m && m in log && forall i :: 0 <= i < |log| && log[i] > since ==> m <= log[i]
  {
    if log == [] then since
    else
      var rest := OldestAfter(log[1..], since);
      CountAfterZero(log[1..], since);
      if log[0] <= since then rest
      else if rest > since && rest < log[0] then rest
      else log[0]
  }

  /**
    Appending to a deque with `maxlen == cap`: the result is the newest
    `cap` entries of `log + [x]`, so a full log loses exactly its oldest entry.
   */
  function BoundedAppend(log: seq<real>, x: real, cap: nat): (r: seq<real>)
    requires |log| <= cap
    ensures |log| < cap ==> r == log + [x]
    ensures |log| == cap ==> r == (log + [x])[1..]
  {
    if |log| < cap then log + [x]
    else if cap == 0 then []
    else log[1..] + [x]
  }

  lemma {:induction false} CountAfterAppend(log: seq<real>, x: real, since: real)
    ensures CountAfter(log + [x], since) == CountAfter(log, since) + (if x > since then 1 else 0)
  {
    if log != [] {
      assert (log + [x])[1..] == log[1..] + [x];
      CountAfterAppend(log[1..], x, since);
    }
  }

  /** Dropping older entries never adds to a count. */
  lemma {:induction false} CountAfterSuffix(log: seq<real>, k: nat, since: real)
    requires k <= |log|
    ensures CountAfter(log[k..], since) <= CountAfter(log, since)
  {
    if k > 0 {
      assert log[k..] == log[1..][k - 1..];
      CountAfterSuffix(log[1..], k - 1, since);
    }
  }

  /** A later cut-off never counts more entries. */
  lemma {:induction false} CountAfterAntitone(log: seq<real>, s1: real, s2: real)
    requires s1 <= s2
    ensures CountAfter(log, s2) <= CountAfter(log, s1)
  {
    if log != [] {
      CountAfterAntitone(log[1..], s1, s2);
    }
  }

  /**
    Room in both windows at time `t` is still there at any later `u`: waiting
    only lets entries leave a window.
  */
  lemma RoomPersists(log: seq<real>, t: real, u: real, perMinute: nat, perHour: nat)
    requires t <= u
    requires CountAfter(log, t - MinuteWindow) < perMinute
    requires perHour > 0 ==> CountAfter(log, t - HourWindow) < perHour
    ensures CountAfter(log, u - MinuteWindow) < perMinute
    ensures perHour > 0 ==> CountAfter(log, u - HourWindow) < perHour
  {
    CountAfterAntitone(log, t - MinuteWindow, u - MinuteWindow);
    CountAfterAntitone(log, t - HourWindow, u - HourWindow);
  }

  /** Moving the cut-off past a logged entry removes that entry from the count. */
  lemma {:induction false} CountAfterDrops(log: seq<real>, s1: real, s2: real, i: nat)
    requires i < |log| && s1 < log[i] <= s2
    ensures CountAfter(log, s2) < CountAfter(log, s1)
  {
    if i == 0 {
      CountAfterAntitone(log[1..], s1, s2);
    } else {
      CountAfterDrops(log[1..], s1, s2, i - 1);
    }
  }

  /** When every entry is newer than the cut-off, all of them are counted. */
  lemma {:induction false} CountAfterAll(log: seq<real>, since: real)
    requires forall i :: 0 <= i < |log| ==> log[i] > since
    ensures CountAfter(log, since) == |log|
  {
    if log != [] {
      CountAfterAll(log[1..], since);
    }
  }

  /**
    In an ordered log, a window holding fewer entries than the whole log
    no longer holds the oldest entry.
   */
  lemma OldestOutside(log: seq<real>, since: real)
    requires Sorted(log) && log != [] && CountAfter(log, since) < |log|
    ensures log[0] <= since
  {
    if log[0] > since {
      forall i | 0 <= i < |log| ensures log[i] > since {
        if i > 0 {
          assert log[0] <= log[i];
        }
      }
      CountAfterAll(log, since);
    }
  }

  /**
    The wait the source computes when a window is at its limit:
    `window - (now - oldest_in_window) + 1`.
   */
  function ExpiryWait(log: seq<real>, now: real, window: real): real {
    window - (now - OldestAfter(log, now - window)) + Slack
  }

  /**
    With no entry newer than `now`, the windowed wait is the bare slack when
    the window is empty, and otherwise lies in `(Slack, window + Slack]`.
   */
  lemma ExpiryWaitBounds(log: seq<real>, now: real, window: real)
    requires forall i :: 0 <= i < |log| ==> log[i] <= now
    ensures CountAfter(log, now - window) == 0 ==> ExpiryWait(log, now, window) == Slack
    ensures CountAfter(log, now - window) > 0 ==>
      Slack < ExpiryWait(log, now, window) <= window + Slack
  {
    var oldest := OldestAfter(log, now - window);
    if CountAfter(log, now - window) > 0 {
      var i :| 0 <= i < |log| && log[i] == oldest;
    }
  }

  /**
    Sleeping at least the windowed wait pushes the window past its oldest
    entry, so the window then holds strictly fewer entries.
   */
  lemma ExpiryWaitClears(log: seq<real>, now: real, window: real, later: real)
    requires CountAfter(log, now - window) > 0
    requires later >= now + ExpiryWait(log, now, window)
    ensures CountAfter(log, later - window) < CountAfter(log, now - window)
  {
    var oldest := OldestAfter(log, now - window);
    var i :| 0 <= i < |log| && log[i] == oldest;
    CountAfterDrops(log, now - window, later - window, i);
  }

  /**
    The newest `cap` entries of a sorted log plus a timestamp no older than
    any of them are sorted, end with that timestamp and hold nothing newer.
   */
  lemma BoundedAppendSorted(log: seq<real>, x: real, cap: nat)
    requires |log| <= cap && Sorted(log)
    requires forall i :: 0 <= i < |log| ==> log[i] <= x
    ensures var r := BoundedAppend(log, x, cap);
      && Sorted(r)
      && (forall i :: 0 <= i < |r| ==> r[i] <= x)
      && (|r| > 0 ==> r[|r| - 1] == x)
  {
    var r := BoundedAppend(log, x, cap);
    var whole := log + [x];
    var k := if |log| < cap then 0 else 1;
    forall i | 0 <= i < |r| ensures r[i] == whole[k + i] <= x {
    }
    forall i, j | 0 <= i < j < |r| ensures r[i] <= r[j] {
      assert r[i] == whole[k + i] && r[j] == whole[k + j];
    }
  }

  /** The count over the bounded log is at most the old count plus the new entry. */
  lemma BoundedAppendCount(log: seq<real>, x: real, cap: nat, since: real)
    requires |log| <= cap
    ensures CountAfter(BoundedAppend(log, x, cap), since)
         <= CountAfter(log, since) + (if x > since then 1 else 0)
  {
    CountAfterSuffix(log + [x], if |log| < cap then 0 else 1, since);
    CountAfterAppend(log, x, since);
  }

  /**
    The rate guarantee behind a windowed count: if at most `limit` entries of
    a sorted log are newer than `newest - window`, then any `limit + 1`
    consecutive entries ending at the newest one span at least `window`.
   */
  lemma WindowSpan(log: seq<real>, window: real, limit: nat)
    requires Sorted(log) && |log| > limit
    requires CountAfter(log, log[|log| - 1] - window) <= limit
    ensures log[|log| - 1] - log[|log| - 1 - limit] >= window
  {
    var last := log[|log| - 1];
    var k := |log| - 1 - limit;
    if log[k] > last - window {
      CountAfterAll(log[k..], last - window);
      CountAfterSuffix(log, k, last - window);
      assert false;
    }
  }
}
