/**
 * The fixed-window rate limiter: one entry per identifier holding the number
 * of calls made in the current window and the instant the window ends.
 */
module RateLimit {
  import opened Common

  datatype Entry = Entry(count: int, resetTime: int)

  function Lookup(m: map<string, Entry>, id: string): Option<Entry> {
    if id in m then Some(m[id]) else None
  }

  /** A window is over only once `now` is strictly past its reset time. */
  predicate Expired(e: Entry, now: int) {
    now > e.resetTime
  }

  /**
   * One call of `isRateLimited` on the identifier's entry `e`: the entry to
   * store and the verdict.
   */
  function Check(e: Option<Entry>, maxAttempts: int, windowMs: int, now: int): (r: (Entry, bool))
    // A new window starts at count 1 and is never limited, whatever maxAttempts is.
    ensures e.None? || Expired(e.value, now) ==> r.0 == Entry(1, now + windowMs) && !r.1
    // Inside a window the call is counted, the window end stays put, and the
    // verdict compares the new count against the limit.
    ensures e.Some? && !Expired(e.value, now) ==>
      r.0.resetTime == e.value.resetTime && r.0.count == e.value.count + 1 && (r.1 <==> r.0.count > maxAttempts)
  {
    if e.None? || now > e.value.resetTime then (Entry(1, now + windowMs), false)
    else
      var next := Entry(e.value.count + 1, e.value.resetTime);
      (next, next.count > maxAttempts)
  }

  /** The verdicts of successive calls at the given instants, starting from `e`. */
  function Verdicts(e: Option<Entry>, times: seq<int>, maxAttempts: int, windowMs: int): (v: seq<bool>)
    ensures |v| == |times|
    decreases |times|
  {
    if times == [] then []
    else
      var r := Check(e, maxAttempts, windowMs, times[0]);
      [r.1] + Verdicts(Some(r.0), times[1..], maxAttempts, windowMs)
  }

  /** Calls made before the window ends keep counting from `count`. */
  lemma {:induction false} CountingWithinWindow(
    count: int, resetTime: int, times: seq<int>, maxAttempts: int, windowMs: int)
    requires forall i :: 0 <= i < |times| ==> times[i] <= resetTime
    ensures forall i :: 0 <= i < |times| ==>
      (Verdicts(Some(Entry(count, resetTime)), times, maxAttempts, windowMs)[i] <==> count + i + 1 > maxAttempts)
    decreases |times|
  {
    if times != [] {
      var v := Verdicts(Some(Entry(count, resetTime)), times, maxAttempts, windowMs);
      var r := Check(Some(Entry(count, resetTime)), maxAttempts, windowMs, times[0]);
      assert r.0 == Entry(count + 1, resetTime);
      CountingWithinWindow(count + 1, resetTime, times[1..], maxAttempts, windowMs);
      forall i | 0 <= i < |times|
        ensures v[i] <==> count + i + 1 > maxAttempts
      {
        if i > 0 {
          assert v[i] == Verdicts(Some(r.0), times[1..], maxAttempts, windowMs)[i - 1];
        }
      }
    }
  }

  /**
   * Within one window, opened by a first call at `times[0]` and closed
   * `windowMs` later (inclusive), the opening call is never limited, even
   * with maxAttempts 0, and every later call, the (i+1)-th, is limited
   * exactly when i + 1 > maxAttempts.
   */
  lemma {:induction false} KthCallLimited(e: Option<Entry>, times: seq<int>, maxAttempts: int, windowMs: int)
    requires |times| > 0
    requires e.None? || Expired(e.value, times[0])
    requires forall i :: 0 <= i < |times| ==> times[i] <= times[0] + windowMs
    ensures !Verdicts(e, times, maxAttempts, windowMs)[0]
    ensures forall i :: 1 <= i < |times| ==>
      (Verdicts(e, times, maxAttempts, windowMs)[i] <==> i + 1 > maxAttempts)
  {
    var v := Verdicts(e, times, maxAttempts, windowMs);
    var firstWindow := Entry(1, times[0] + windowMs);
    assert Check(e, maxAttempts, windowMs, times[0]) == (firstWindow, false);
    CountingWithinWindow(1, times[0] + windowMs, times[1..], maxAttempts, windowMs);
    forall i | 1 <= i < |times|
      ensures v[i] <==> i + 1 > maxAttempts
    {
      assert v[i] == Verdicts(Some(firstWindow), times[1..], maxAttempts, windowMs)[i - 1];
    }
  }

  /** Entries whose window is still open at `now`. */
  function Live(m: map<string, Entry>, now: int): (live: map<string, Entry>)
    ensures forall id :: id in live <==> id in m && !Expired(m[id], now)
    ensures forall id :: id in live ==> live[id] == m[id]
  {
    map id | id in m && !Expired(m[id], now) :: m[id]
  }

  /** A cleanup at `now` changes no verdict and no stored entry of any call made at `now` or later. */
  lemma CleanupUnobservable(m: map<string, Entry>, id: string, now: int, later: int, maxAttempts: int, windowMs: int)
    requires now <= later
    ensures Check(Lookup(Live(m, now), id), maxAttempts, windowMs, later) == Check(Lookup(m, id), maxAttempts, windowMs, later)
  {
    if id in m && Expired(m[id], now) {
      assert Expired(m[id], later);
    }
  }

  class RateLimiter {
    var entries: map<string, Entry>

    constructor ()
      ensures entries == map[]
    {
      entries := map[];
    }

    method IsRateLimited(identifier: string, maxAttempts: int, windowMs: int, now: int) returns (limited: bool)
      modifies this
      ensures var r := Check(Lookup(old(entries), identifier), maxAttempts, windowMs, now);
        limited == r.1 && entries == old(entries)[identifier := r.0]
    {
      var entry := Lookup(entries, identifier);
      if entry.None? || now > entry.value.resetTime {
        entries := entries[identifier := Entry(1, now + windowMs)];
        return false;
      }
      var counted := Entry(entry.value.count + 1, entry.value.resetTime);
      entries := entries[identifier := counted];
      if counted.count > maxAttempts {
        return true;
      }
      return false;
    }

    method ResetRateLimit(identifier: string)
      modifies this
      ensures entries == old(entries) - {identifier}
    {
      entries := entries - {identifier};
    }

    method CleanupExpiredEntries(now: int)
      modifies this
      ensures entries == Live(old(entries), now)
    {
      var pending := entries.Keys;
      while pending != {}
        invariant pending <= old(entries).Keys
        invariant forall id :: id in entries <==> id in old(entries) && (id in pending || !Expired(old(entries)[id], now))
        invariant forall id :: id in entries ==> entries[id] == old(entries)[id]
        decreases pending
      {
        var id :| id in pending;
        if now > entries[id].resetTime {
          entries := entries - {id};
        }
        pending := pending - {id};
      }
      assert entries.Keys == Live(old(entries), now).Keys;
    }
  }

  /** After a reset the identifier's next call opens a new window and is allowed. */
  lemma ResetStartsOver(m: map<string, Entry>, id: string, maxAttempts: int, windowMs: int, now: int)
    ensures Check(Lookup(m - {id}, id), maxAttempts, windowMs, now) == (Entry(1, now + windowMs), false)
  {
    assert id !in m - {id};
  }
}
