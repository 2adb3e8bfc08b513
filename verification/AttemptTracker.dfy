/** The failure counters of the login and admin one-time-password flows, over one Redis key. */
module AttemptTracker {
  import opened RateLimit

  class Tracker {
    const threshold: nat
    const window: int
    var key: Counter

    constructor (limit: nat, seconds: int)
      ensures threshold == limit && window == seconds && key == Absent
    {
      threshold, window, key := limit, seconds, Absent;
    }

    method AssertNotLocked(now: int) returns (ok: bool)
      ensures ok <==> Live(key, now) < threshold
      ensures threshold > 0 ==> (ok <==> !Holds(key, now, threshold))
    {
      var count := 0;
      if key.Counting? && now < key.expiresAt {
        count := key.count;
      }
      ok := count < threshold;
    }

    method RecordFailure(now: int) returns (count: nat)
      modifies this`key
      ensures key == Bump(old(key), now, window) == OneMore(old(key), now, window)
      ensures count == Live(old(key), now) + 1
    {
      if key.Counting? && now < key.expiresAt {
        count := key.count + 1;
        key := Counting(count, key.expiresAt);
      } else {
        count := 1;
        key := Counting(1, now + window);
      }
    }

    method Reset()
      modifies this`key
      ensures key == Absent
    {
      key := Absent;
    }

    /** The use both sign-in flows make of the tracker: check, verify, then count or reset. */
    method Try(now: int, correct: bool) returns (verdict: Verdict)
      modifies this`key
      ensures verdict == VerdictOf(old(key), Attempt(now, correct), threshold)
      ensures key == Tried(old(key), Attempt(now, correct), threshold, window)
    {
      var open := AssertNotLocked(now);
      if !open {
        return Locked;
      }
      if !correct {
        var _ := RecordFailure(now);
        return Wrong;
      }
      Reset();
      verdict := Accepted;
    }
  }
}
