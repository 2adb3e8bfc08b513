/** A fixed-window counter in Redis: incremented, given a time to live on its first increment, and
    consulted before each attempt. */
module RateLimit {
  import opened Arithmetic

  datatype Counter = Absent | Counting(count: nat, expiresAt: int)

  predicate Alive(c: Counter, now: int) {
    c.Counting? && now < c.expiresAt
  }

  /** GET: what the limiter reads. */
  function Live(c: Counter, now: int): nat {
    if Alive(c, now) then c.count else 0
  }

  /** INCR, and EXPIRE when the result is 1. */
  function Bump(c: Counter, now: int, window: int): Counter {
    if Alive(c, now) then c.(count := c.count + 1) else Counting(1, now + window)
  }

  /** Increments at these times, each made only after reading a count below the threshold. */
  predicate Guarded(c: Counter, ts: seq<int>, threshold: nat, window: int)
    decreases |ts|
  {
    ts == [] || (Live(c, ts[0]) < threshold && Guarded(Bump(c, ts[0], window), ts[1..], threshold, window))
  }

  predicate Ascending(ts: seq<int>) {
    forall i, j :: 0 <= i < j < |ts| ==> ts[i] <= ts[j]
  }

  /** How many increments fit between `now` and `last`: what is left of the current window, then
      full windows. */
  function Allowance(c: Counter, now: int, last: int, threshold: nat, window: int): int
    requires window >= 1 && now <= last
  {
    if Alive(c, now) then
      threshold - c.count + (if last >= c.expiresAt then Windows(last - c.expiresAt, threshold, window) else 0)
    else Windows(last - now, threshold, window)
  }

  function Windows(span: nat, threshold: nat, window: int): nat
    requires window >= 1
  {
    threshold * (span / window + 1)
  }

  lemma WindowsGrow(a: nat, b: nat, threshold: nat, window: int)
    requires window >= 1 && a <= b
    ensures Windows(a, threshold, window) <= Windows(b, threshold, window)
  {
    var p, q := a / window, b / window;
    assert a == window * p + a % window && b == window * q + b % window;
    if q < p {
      ScaledGap(window, q, p);
    }
    assert p <= q;
    assert threshold * (q + 1) == threshold * (p + 1) + threshold * (q - p);
  }

  lemma OneMoreWindow(span: nat, threshold: nat, window: int)
    requires window >= 1
    ensures Windows(span, threshold, window) >= threshold
    ensures span >= window ==> Windows(span, threshold, window) == threshold + Windows(span - window, threshold, window)
  {
    var q := span / window;
    assert q >= 0;
    assert threshold * (q + 1) == threshold * q + threshold;
    assert threshold * q >= 0;
    if span >= window {
      DivideAfterStep(span, window);
    }
  }

  /** The allowance is never exceeded, from any state of the counter. */
  lemma {:induction false} GuardedStaysWithinAllowance(c: Counter, ts: seq<int>, threshold: nat, window: int)
    requires window >= 1 && ts != [] && Ascending(ts) && Guarded(c, ts, threshold, window)
    ensures |ts| <= Allowance(c, ts[0], ts[|ts| - 1], threshold, window)
    decreases |ts|
  {
    hide Windows;
    var now, last := ts[0], ts[|ts| - 1];
    var d := Bump(c, now, window);
    OneMoreWindow(last - now, threshold, window);
    if |ts| > 1 {
      var rest := ts[1..];
      assert rest[|rest| - 1] == last && rest[0] == ts[1];
      GuardedStaysWithinAllowance(d, rest, threshold, window);
      if !Alive(d, ts[1]) {
        WindowsGrow(last - ts[1], last - d.expiresAt, threshold, window);
      }
    }
  }

  // ---- Runs that reach the bound ----------------------------------------------------------------

  function Repeat(t: int, n: nat): (r: seq<int>)
    ensures |r| == n && forall i :: 0 <= i < n ==> r[i] == t
  {
    if n == 0 then [] else [t] + Repeat(t, n - 1)
  }

  lemma {:induction false} BurstIsGuarded(t: int, expiresAt: int, left: nat, tail: seq<int>, threshold: nat, window: int)
    requires left <= threshold && t < expiresAt
    requires Guarded(Counting(threshold, expiresAt), tail, threshold, window)
    ensures Guarded(Counting(threshold - left, expiresAt), Repeat(t, left) + tail, threshold, window)
  {
    if left == 0 {
      assert Repeat(t, 0) + tail == tail;
    } else {
      BurstIsGuarded(t, expiresAt, left - 1, tail, threshold, window);
      var ts := Repeat(t, left) + tail;
      assert ts[1..] == Repeat(t, left - 1) + tail;
    }
  }

  /** A full burst at the start of each of n + 1 windows. */
  function Bursts(start: int, n: nat, threshold: nat, window: int): seq<int>
    decreases n
  {
    Repeat(start, threshold) + if n == 0 then [] else Bursts(start + window, n - 1, threshold, window)
  }

  lemma {:induction false} BurstsAreGuarded(c: Counter, start: int, n: nat, threshold: nat, window: int)
    requires window >= 1 && threshold >= 1 && !Alive(c, start)
    ensures Guarded(c, Bursts(start, n, threshold, window), threshold, window)
    decreases n
  {
    hide Guarded, Bursts, Repeat;
    var tail := if n == 0 then [] else Bursts(start + window, n - 1, threshold, window);
    var full := Counting(threshold, start + window);
    if n > 0 {
      BurstsAreGuarded(full, start + window, n - 1, threshold, window);
    } else {
      NothingIsGuarded(full, threshold, window);
    }
    BurstIsGuarded(start, start + window, threshold - 1, tail, threshold, window);
    GuardedHead(c, start, Repeat(start, threshold - 1) + tail, threshold, window);
    BurstsSplit(start, n, threshold, window);
  }

  lemma BurstsSplit(start: int, n: nat, threshold: nat, window: int)
    requires threshold >= 1
    ensures var tail := if n == 0 then [] else Bursts(start + window, n - 1, threshold, window);
            Bursts(start, n, threshold, window) == [start] + (Repeat(start, threshold - 1) + tail)
  {
    hide Repeat;
    RepeatSplit(start, threshold);
    var rest := Repeat(start, threshold - 1);
    var tail := if n == 0 then [] else Bursts(start + window, n - 1, threshold, window);
    assert ([start] + rest) + tail == [start] + (rest + tail);
  }

  lemma RepeatSplit(t: int, n: nat)
    requires n >= 1
    ensures Repeat(t, n) == [t] + Repeat(t, n - 1)
  {
  }

  lemma GuardedHead(c: Counter, t: int, rest: seq<int>, threshold: nat, window: int)
    requires Live(c, t) < threshold && Guarded(Bump(c, t, window), rest, threshold, window)
    ensures Guarded(c, [t] + rest, threshold, window)
  {
    hide Live, Bump;
    assert ([t] + rest)[1..] == rest;
  }

  /** The bound is exact: for every number of windows some legal run meets it. */
  lemma {:induction false} BoundIsReached(start: int, n: nat, threshold: nat, window: int)
    requires window >= 1 && threshold >= 1
    ensures Guarded(Absent, Bursts(start, n, threshold, window), threshold, window)
    ensures |Bursts(start, n, threshold, window)| == threshold * (n + 1)
    ensures forall i :: 0 <= i < |Bursts(start, n, threshold, window)| ==>
              start <= Bursts(start, n, threshold, window)[i] <= start + n * window
    ensures Ascending(Bursts(start, n, threshold, window))
    decreases n
  {
    BurstsAreGuarded(Absent, start, n, threshold, window);
    if n > 0 {
      BoundIsReached(start + window, n - 1, threshold, window);
      assert start + window + (n - 1) * window == start + n * window;
      assert threshold * (n + 1) == threshold + threshold * n;
      assert n * window >= window by { ScaledGap(window, 0, n); }
    }
  }

  /** A span may not start inside a running window: one early failure, then threshold - 1 at the
      window's last moment and threshold more at the next, put 2 * threshold - 1 into a span of 1. */
  lemma SpanInsideAWindowExceeds(threshold: nat, window: int)
    requires threshold >= 2 && window >= 2
    ensures var late := Repeat(window - 1, threshold - 1) + Repeat(window, threshold);
            && Guarded(Absent, [0] + late, threshold, window)
            && |late| > threshold * (1 / window + 1)
            && forall i :: 0 <= i < |late| ==> window - 1 <= late[i] <= window
  {
    BurstsAreGuarded(Counting(threshold, window), window, 0, threshold, window);
    assert Bursts(window, 0, threshold, window) == Repeat(window, threshold);
    BurstIsGuarded(window - 1, window, threshold - 1, Repeat(window, threshold), threshold, window);
    var late := Repeat(window - 1, threshold - 1) + Repeat(window, threshold);
    assert ([0] + late)[1..] == late;
    ModularShift(1, window, 0, 1);
    assert threshold * (0 + 1) == threshold;
  }

  // ---- Increments in an arbitrary span ----------------------------------------------------------

  /** What any counter satisfies at `now`: its window was opened no later than that. */
  predicate WellTimed(c: Counter, now: int, window: int) {
    c.Counting? ==> c.expiresAt - now <= window
  }

  /** A guarded run of increments inside the span [from, from + span]. */
  predicate Fits(c: Counter, ts: seq<int>, from: int, span: nat, threshold: nat, window: int) {
    && Ascending(ts) && Guarded(c, ts, threshold, window)
    && forall i :: 0 <= i < |ts| ==> from <= ts[i] <= from + span
  }

  /** The most increments a span can hold: what is left of a window running at its start, then a
      full burst in each window that begins inside it. */
  function MostInSpan(c: Counter, from: int, span: nat, threshold: nat, window: int): nat
    requires window >= 1
  {
    if !Alive(c, from) then Windows(span, threshold, window)
    else
      (if c.count < threshold then threshold - c.count else 0)
      + (if span >= c.expiresAt - from then Windows(span - (c.expiresAt - from), threshold, window) else 0)
  }

  lemma AtMostInSpan(c: Counter, ts: seq<int>, from: int, span: nat, threshold: nat, window: int)
    requires window >= 1 && Fits(c, ts, from, span, threshold, window)
    ensures |ts| <= MostInSpan(c, from, span, threshold, window)
  {
    hide Windows;
    if ts != [] {
      var last := ts[|ts| - 1];
      GuardedStaysWithinAllowance(c, ts, threshold, window);
      if Alive(c, ts[0]) {
        if last >= c.expiresAt {
          WindowsGrow(last - c.expiresAt, span - (c.expiresAt - from), threshold, window);
        }
      } else {
        var start := if Alive(c, from) then c.expiresAt else from;
        WindowsGrow(last - ts[0], from + span - start, threshold, window);
      }
    }
  }

  /** Some run meets that maximum, whatever the counter. */
  lemma MostIsReached(c: Counter, from: int, span: nat, threshold: nat, window: int) returns (ts: seq<int>)
    requires window >= 1
    ensures Fits(c, ts, from, span, threshold, window) && |ts| == MostInSpan(c, from, span, threshold, window)
  {
    hide Guarded, Bursts;
    if threshold == 0 {
      ts := [];
      NothingIsGuarded(c, threshold, window);
    } else if !Alive(c, from) {
      ts := BurstsInside(c, from, span, threshold, window);
    } else {
      var left := if c.count < threshold then threshold - c.count else 0;
      var tail: seq<int> := [];
      var full := if c.count < threshold then Counting(threshold, c.expiresAt) else c;
      NothingIsGuarded(full, threshold, window);
      if span >= c.expiresAt - from {
        tail := BurstsInside(full, c.expiresAt, span - (c.expiresAt - from), threshold, window);
      }
      if c.count < threshold {
        BurstIsGuarded(from, c.expiresAt, left, tail, threshold, window);
        ts := Repeat(from, left) + tail;
      } else {
        ts := tail;
      }
    }
  }

  lemma NothingIsGuarded(c: Counter, threshold: nat, window: int)
    ensures Guarded(c, [], threshold, window)
  {
  }

  lemma BurstsInside(c: Counter, from: int, span: nat, threshold: nat, window: int) returns (ts: seq<int>)
    requires window >= 1 && threshold >= 1 && !Alive(c, from)
    ensures Fits(c, ts, from, span, threshold, window) && |ts| == Windows(span, threshold, window)
  {
    var n := span / window;
    assert span == window * n + span % window;
    assert n * window == window * n;
    BurstsAreGuarded(c, from, n, threshold, window);
    BoundIsReached(from, n, threshold, window);
    ts := Bursts(from, n, threshold, window);
  }

  /** The guard a caller can read off the counter: a window is running with room left, and the span
      outlasts a whole number of windows by at least what remains of it. */
  predicate Overflows(c: Counter, from: int, span: nat, threshold: nat, window: int)
    requires window >= 1
  {
    Alive(c, from) && c.count < threshold && span % window >= c.expiresAt - from
  }

  lemma WindowsAfterRemainder(span: nat, d: int, threshold: nat, window: int)
    requires 1 <= d <= window && d <= span
    ensures Windows(span - d, threshold, window)
         == if span % window >= d then threshold * (span / window + 1) else threshold * (span / window)
  {
    var q, r := span / window, span % window;
    assert span == q * window + r by { assert span == window * q + r; }
    if r >= d {
      ModularShift(span - d, window, q, r - d);
    } else {
      assert q >= 1 by { assert q == 0 ==> q * window == 0; }
      assert (q - 1) * window == q * window - window;
      ModularShift(span - d, window, q - 1, r - d + window);
    }
  }

  lemma OverflowIsExcess(c: Counter, from: int, span: nat, threshold: nat, window: int)
    requires window >= 1 && WellTimed(c, from, window)
    ensures MostInSpan(c, from, span, threshold, window) > threshold * (span / window + 1)
       <==> Overflows(c, from, span, threshold, window)
  {
    var q := span / window;
    assert threshold * (q + 1) == threshold * q + threshold && threshold * q >= 0;
    if Alive(c, from) {
      var d := c.expiresAt - from;
      if span >= d {
        WindowsAfterRemainder(span, d, threshold, window);
      } else {
        ModularShift(span, window, 0, span);
      }
    }
  }

  /** The exact condition for the documented bound. From every counter, at every time and for every
      span, all guarded runs stay within threshold * (floor(span / window) + 1) unless the span
      overflows a running window. */
  lemma SpanBoundExactly(c: Counter, from: int, span: nat, threshold: nat, window: int)
    requires window >= 1 && WellTimed(c, from, window)
    ensures (forall ts :: Fits(c, ts, from, span, threshold, window) ==> |ts| <= threshold * (span / window + 1))
       <==> !Overflows(c, from, span, threshold, window)
  {
    hide Fits, MostInSpan, Overflows;
    OverflowIsExcess(c, from, span, threshold, window);
    forall ts | Fits(c, ts, from, span, threshold, window) ensures |ts| <= MostInSpan(c, from, span, threshold, window) {
      AtMostInSpan(c, ts, from, span, threshold, window);
    }
    var most := MostIsReached(c, from, span, threshold, window);
  }

  // ---- Attempts under a counter -----------------------------------------------------------------

  datatype Attempt = Attempt(at: int, correct: bool)

  datatype Verdict = Locked | Wrong | Accepted

  function VerdictOf(c: Counter, a: Attempt, threshold: nat): Verdict {
    if Live(c, a.at) >= threshold then Locked else if a.correct then Accepted else Wrong
  }

  /** The counter after one attempt: untouched when locked, bumped on failure, deleted on success. */
  function Tried(c: Counter, a: Attempt, threshold: nat, window: int): Counter {
    match VerdictOf(c, a, threshold)
    case Locked => c
    case Wrong => Bump(c, a.at, window)
    case Accepted => Absent
  }

  /** What a caller may read off the key: it is there, has not expired, and counts at least this many. */
  predicate Holds(c: Counter, now: int, n: nat) {
    c.Counting? && now < c.expiresAt && c.count >= n
  }

  /** One more on the counter: a running window keeps its end, an expired or missing one begins now. */
  function OneMore(c: Counter, now: int, window: int): Counter {
    if c.Counting? && now < c.expiresAt then Counting(c.count + 1, c.expiresAt) else Counting(1, now + window)
  }

  /** One attempt: refused exactly when the key holds the threshold, which leaves it alone; otherwise a
      right credential deletes the key and a wrong one counts once more. */
  lemma AttemptExactly(c: Counter, now: int, correct: bool, threshold: nat, window: int)
    requires threshold > 0
    ensures var verdict, after := VerdictOf(c, Attempt(now, correct), threshold), Tried(c, Attempt(now, correct), threshold, window);
            && (Holds(c, now, threshold) ==> verdict == Locked && after == c)
            && (!Holds(c, now, threshold) && correct ==> verdict == Accepted && after == Absent)
            && (!Holds(c, now, threshold) && !correct ==> verdict == Wrong && after == OneMore(c, now, window))
  {
  }

  lemma CounterExactly(c: Counter, now: int, window: int, threshold: nat)
    requires threshold > 0
    ensures Live(c, now) < threshold <==> !Holds(c, now, threshold)
    ensures Bump(c, now, window) == OneMore(c, now, window)
  {
  }

  predicate NoneAccepted(c: Counter, attempts: seq<Attempt>, threshold: nat, window: int)
    decreases |attempts|
  {
    attempts == []
    || (!VerdictOf(c, attempts[0], threshold).Accepted? && NoneAccepted(Tried(c, attempts[0], threshold, window), attempts[1..], threshold, window))
  }

  /** When credentials were actually checked and found wrong. */
  function FailureTimes(c: Counter, attempts: seq<Attempt>, threshold: nat, window: int): seq<int>
    decreases |attempts|
  {
    if attempts == [] then []
    else
      var rest := FailureTimes(Tried(c, attempts[0], threshold, window), attempts[1..], threshold, window);
      if VerdictOf(c, attempts[0], threshold).Wrong? then [attempts[0].at] + rest else rest
  }

  predicate InOrder(attempts: seq<Attempt>, from: int, until: int) {
    && (forall i :: 0 <= i < |attempts| ==> from <= attempts[i].at <= until)
    && (forall i, j :: 0 <= i < j < |attempts| ==> attempts[i].at <= attempts[j].at)
  }

  lemma {:induction false} FailuresAreGuarded(c: Counter, attempts: seq<Attempt>, from: int, until: int, threshold: nat, window: int)
    requires InOrder(attempts, from, until) && NoneAccepted(c, attempts, threshold, window)
    ensures Guarded(c, FailureTimes(c, attempts, threshold, window), threshold, window)
    ensures Ascending(FailureTimes(c, attempts, threshold, window))
    ensures forall i :: 0 <= i < |FailureTimes(c, attempts, threshold, window)| ==>
              from <= FailureTimes(c, attempts, threshold, window)[i] <= until
    ensures attempts != [] ==> forall i :: 0 <= i < |FailureTimes(c, attempts, threshold, window)| ==>
              attempts[0].at <= FailureTimes(c, attempts, threshold, window)[i]
    decreases |attempts|
  {
    hide Bump, Live;
    if attempts != [] {
      var d := Tried(c, attempts[0], threshold, window);
      FailuresAreGuarded(d, attempts[1..], from, until, threshold, window);
      var rest := FailureTimes(d, attempts[1..], threshold, window);
      if VerdictOf(c, attempts[0], threshold).Wrong? {
        assert ([attempts[0].at] + rest)[1..] == rest;
      }
    }
  }

  /** A run of wrong attempts at these times. */
  function WrongAt(ts: seq<int>): (r: seq<Attempt>)
    ensures |r| == |ts| && forall i :: 0 <= i < |ts| ==> r[i] == Attempt(ts[i], false)
  {
    seq(|ts|, i requires 0 <= i < |ts| => Attempt(ts[i], false))
  }

  lemma {:induction false} GuardedWrongsAllFail(c: Counter, ts: seq<int>, threshold: nat, window: int)
    requires Guarded(c, ts, threshold, window)
    ensures NoneAccepted(c, WrongAt(ts), threshold, window)
    ensures FailureTimes(c, WrongAt(ts), threshold, window) == ts
    decreases |ts|
  {
    if ts != [] {
      GuardedWrongsAllFail(Bump(c, ts[0], window), ts[1..], threshold, window);
      assert WrongAt(ts)[1..] == WrongAt(ts[1..]);
      assert WrongAt(ts)[0] == Attempt(ts[0], false);
    }
  }

  predicate Unaccepted(c: Counter, attempts: seq<Attempt>, from: int, span: nat, threshold: nat, window: int) {
    InOrder(attempts, from, from + span) && NoneAccepted(c, attempts, threshold, window)
  }

  lemma FailuresFit(c: Counter, attempts: seq<Attempt>, from: int, span: nat, threshold: nat, window: int)
    requires Unaccepted(c, attempts, from, span, threshold, window)
    ensures Fits(c, FailureTimes(c, attempts, threshold, window), from, span, threshold, window)
  {
    hide Guarded, FailureTimes, NoneAccepted;
    FailuresAreGuarded(c, attempts, from, from + span, threshold, window);
  }

  /** The exact condition for credential checks: the failures within a span stay within
      threshold * (floor(T / window) + 1), for all unaccepted attempts, unless it overflows. */
  lemma FailureBoundExactly(c: Counter, from: int, span: nat, threshold: nat, window: int)
    requires window >= 1 && WellTimed(c, from, window)
    ensures (forall attempts :: Unaccepted(c, attempts, from, span, threshold, window) ==>
               |FailureTimes(c, attempts, threshold, window)| <= threshold * (span / window + 1))
       <==> !Overflows(c, from, span, threshold, window)
  {
    hide Overflows, MostInSpan, FailureTimes, NoneAccepted, Guarded;
    OverflowIsExcess(c, from, span, threshold, window);
    forall attempts | Unaccepted(c, attempts, from, span, threshold, window)
      ensures |FailureTimes(c, attempts, threshold, window)| <= MostInSpan(c, from, span, threshold, window)
    {
      FailuresFit(c, attempts, from, span, threshold, window);
      AtMostInSpan(c, FailureTimes(c, attempts, threshold, window), from, span, threshold, window);
    }
    var ts := MostIsReached(c, from, span, threshold, window);
    GuardedWrongsAllFail(c, ts, threshold, window);
    assert Unaccepted(c, WrongAt(ts), from, span, threshold, window);
  }

  function TriedAll(c: Counter, attempts: seq<Attempt>, threshold: nat, window: int): Counter
    decreases |attempts|
  {
    if attempts == [] then c else TriedAll(Tried(c, attempts[0], threshold, window), attempts[1..], threshold, window)
  }

  lemma {:induction false} TriedIsWellTimed(c: Counter, attempts: seq<Attempt>, from: int, until: int, threshold: nat, window: int)
    requires window >= 1 && InOrder(attempts, from, until) && WellTimed(c, from, window) && from <= until
    ensures WellTimed(TriedAll(c, attempts, threshold, window), until, window)
    decreases |attempts|
  {
    hide Live;
    if attempts != [] {
      TriedIsWellTimed(Tried(c, attempts[0], threshold, window), attempts[1..], attempts[0].at, until, threshold, window);
    }
  }

  /** Between two successes, attempts taken one at a time, any span: after an accepted attempt and
      whatever failed before the span, the checks that fail inside it are at most what the span can
      hold, and at most threshold * (floor(T / window) + 1) unless it overflows a running window. */
  lemma FailuresBetweenSuccesses(c: Counter, won: Attempt, before: seq<Attempt>, attempts: seq<Attempt>,
                                 from: int, span: nat, threshold: nat, window: int)
    requires window >= 1 && VerdictOf(c, won, threshold).Accepted? && won.at <= from && InOrder(before, won.at, from)
    requires var d := TriedAll(Tried(c, won, threshold, window), before, threshold, window);
             Unaccepted(d, attempts, from, span, threshold, window)
    ensures var d := TriedAll(Tried(c, won, threshold, window), before, threshold, window);
            var failures := |FailureTimes(d, attempts, threshold, window)|;
            && failures <= MostInSpan(d, from, span, threshold, window)
            && (!Overflows(d, from, span, threshold, window) ==> failures <= threshold * (span / window + 1))
            && (before == [] ==> failures <= threshold * (span / window + 1))
  {
    hide Overflows, MostInSpan, FailureTimes, NoneAccepted, Guarded, TriedAll;
    var reset := Tried(c, won, threshold, window);
    var d := TriedAll(reset, before, threshold, window);
    TriedIsWellTimed(reset, before, won.at, from, threshold, window);
    OverflowIsExcess(d, from, span, threshold, window);
    FailuresFit(d, attempts, from, span, threshold, window);
    AtMostInSpan(d, FailureTimes(d, attempts, threshold, window), from, span, threshold, window);
    if before == [] {
      NothingTried(reset, from, span, threshold, window);
    }
  }

  lemma NothingTried(c: Counter, from: int, span: nat, threshold: nat, window: int)
    requires window >= 1
    ensures TriedAll(c, [], threshold, window) == c
    ensures c == Absent ==> !Overflows(c, from, span, threshold, window)
  {
  }

  // ---- Attempts that overlap ------------------------------------------------------------------------

  /** The reading of the counter and its increment are separate commands, with the verification in
      between: a call enters after reading a count below the threshold, and later counts a failure
      or leaves without one. */
  datatype Move = Enter(at: int) | Count(at: int) | Leave(at: int)

  /** `n` calls are between their reading and their end, never more than `most`. */
  predicate Orderly(c: Counter, n: nat, moves: seq<Move>, threshold: nat, window: int, most: nat)
    decreases |moves|
  {
    moves == []
    || (match moves[0]
        case Enter(at) => Live(c, at) < threshold && n + 1 <= most && Orderly(c, n + 1, moves[1..], threshold, window, most)
        case Count(at) => n > 0 && Orderly(Bump(c, at, window), n - 1, moves[1..], threshold, window, most)
        case Leave(_) => n > 0 && Orderly(c, n - 1, moves[1..], threshold, window, most))
  }

  function CountTimes(moves: seq<Move>): seq<int> {
    if moves == [] then []
    else if moves[0].Count? then [moves[0].at] + CountTimes(moves[1..])
    else CountTimes(moves[1..])
  }

  predicate MovesInOrder(moves: seq<Move>, from: int, until: int) {
    && (forall i :: 0 <= i < |moves| ==> from <= moves[i].at <= until)
    && (forall i, j :: 0 <= i < j < |moves| ==> moves[i].at <= moves[j].at)
  }

  lemma LiveFades(c: Counter, now: int, later: int)
    requires now <= later
    ensures Live(c, later) <= Live(c, now)
  {
  }

  lemma BumpAddsOne(c: Counter, now: int, window: int)
    requires window >= 1
    ensures Live(Bump(c, now, window), now) == Live(c, now) + 1
  {
  }

  /** With at most `most` calls in flight, the count and the flight together never exceed
      threshold + most - 1, so every increment meets a count below that. */
  lemma {:induction false} OverlapIsGuarded(c: Counter, n: nat, moves: seq<Move>, from: int, until: int,
                                            threshold: nat, window: int, most: nat)
    requires window >= 1 && most >= 1 && MovesInOrder(moves, from, until) && Orderly(c, n, moves, threshold, window, most)
    requires Live(c, from) + n <= threshold + most - 1
    ensures var ts := CountTimes(moves);
            && Guarded(c, ts, threshold + most - 1, window)
            && Ascending(ts) && (forall i :: 0 <= i < |ts| ==> from <= ts[i] <= until)
    decreases |moves|
  {
    hide Live, Bump;
    if moves != [] {
      var at, rest := moves[0].at, moves[1..];
      LiveFades(c, from, at);
      BumpAddsOne(c, at, window);
      match moves[0]
      case Enter(_) => OverlapIsGuarded(c, n + 1, rest, at, until, threshold, window, most);
      case Count(_) =>
        OverlapIsGuarded(Bump(c, at, window), n - 1, rest, at, until, threshold, window, most);
        assert ([at] + CountTimes(rest))[1..] == CountTimes(rest);
      case Leave(_) => OverlapIsGuarded(c, n - 1, rest, at, until, threshold, window, most);
    }
  }

  /** So `most` overlapping attempts act as a threshold raised by most - 1, in every span. */
  lemma OverlappingFailures(c: Counter, n: nat, moves: seq<Move>, from: int, span: nat, threshold: nat, window: int, most: nat)
    requires window >= 1 && most >= 1 && MovesInOrder(moves, from, from + span) && WellTimed(c, from, window)
    requires Orderly(c, n, moves, threshold, window, most) && Live(c, from) + n <= threshold + most - 1
    ensures |CountTimes(moves)| <= MostInSpan(c, from, span, threshold + most - 1, window)
    ensures !Overflows(c, from, span, threshold + most - 1, window) ==>
              |CountTimes(moves)| <= (threshold + most - 1) * (span / window + 1)
  {
    hide Orderly, CountTimes, MostInSpan, Overflows, Guarded, Live;
    OverlapIsGuarded(c, n, moves, from, from + span, threshold, window, most);
    AtMostInSpan(c, CountTimes(moves), from, span, threshold + most - 1, window);
    OverflowIsExcess(c, from, span, threshold + most - 1, window);
  }

  function Enters(t: int, n: nat): (r: seq<Move>)
    ensures forall i :: 0 <= i < |r| ==> r[i].at == t
  {
    if n == 0 then [] else [Enter(t)] + Enters(t, n - 1)
  }

  function Counts(t: int, n: nat): (r: seq<Move>)
    ensures forall i :: 0 <= i < |r| ==> r[i].at == t
  {
    if n == 0 then [] else [Count(t)] + Counts(t, n - 1)
  }

  function Pairs(t: int, n: nat): (r: seq<Move>)
    ensures forall i :: 0 <= i < |r| ==> r[i].at == t
  {
    if n == 0 then [] else [Enter(t)] + ([Count(t)] + Pairs(t, n - 1))
  }

  /** One after the other up to a single free place, then `most` at once. */
  function Rush(t: int, threshold: nat, most: nat): (r: seq<Move>)
    requires threshold >= 1
    ensures forall i :: 0 <= i < |r| ==> r[i].at == t
  {
    Pairs(t, threshold - 1) + (Enters(t, most) + Counts(t, most))
  }

  /** A rush at the start of each of n + 1 windows. */
  function Rushes(start: int, n: nat, threshold: nat, window: int, most: nat): seq<Move>
    requires threshold >= 1
    decreases n
  {
    Rush(start, threshold, most) + if n == 0 then [] else Rushes(start + window, n - 1, threshold, window, most)
  }

  function Bumped(c: Counter, t: int, n: nat, window: int): Counter
    decreases n
  {
    if n == 0 then c else Bumped(Bump(c, t, window), t, n - 1, window)
  }

  lemma {:induction false} BumpedIsCount(c: Counter, t: int, n: nat, window: int)
    requires window >= 1 && n >= 1
    ensures Bumped(c, t, n, window) == if Alive(c, t) then c.(count := c.count + n) else Counting(n, t + window)
    decreases n
  {
    if n > 1 {
      BumpedIsCount(Bump(c, t, window), t, n - 1, window);
    }
  }

  lemma {:induction false} CountsAreOrderly(c: Counter, t: int, n: nat, tail: seq<Move>, threshold: nat, window: int, most: nat)
    requires Orderly(Bumped(c, t, n, window), 0, tail, threshold, window, most)
    ensures Orderly(c, n, Counts(t, n) + tail, threshold, window, most)
    ensures |CountTimes(Counts(t, n) + tail)| == n + |CountTimes(tail)|
    decreases n
  {
    hide Live, Bump;
    if n == 0 {
      assert Counts(t, 0) + tail == tail;
    } else {
      CountsAreOrderly(Bump(c, t, window), t, n - 1, tail, threshold, window, most);
      var moves := Counts(t, n) + tail;
      assert moves[0] == Count(t) && moves[1..] == Counts(t, n - 1) + tail;
    }
  }

  lemma {:induction false} EntersAreOrderly(c: Counter, t: int, left: nat, tail: seq<Move>, threshold: nat, window: int, most: nat)
    requires Live(c, t) < threshold && left <= most
    requires Orderly(Bumped(c, t, most, window), 0, tail, threshold, window, most)
    ensures Orderly(c, most - left, Enters(t, left) + (Counts(t, most) + tail), threshold, window, most)
    ensures |CountTimes(Enters(t, left) + (Counts(t, most) + tail))| == most + |CountTimes(tail)|
    decreases left
  {
    hide Live, Bump, Bumped;
    var moves := Enters(t, left) + (Counts(t, most) + tail);
    if left == 0 {
      CountsAreOrderly(c, t, most, tail, threshold, window, most);
      assert moves == Counts(t, most) + tail;
    } else {
      EntersAreOrderly(c, t, left - 1, tail, threshold, window, most);
      assert moves[0] == Enter(t) && moves[1..] == Enters(t, left - 1) + (Counts(t, most) + tail);
    }
  }

  lemma {:induction false} PairsAreOrderly(c: Counter, t: int, left: nat, tail: seq<Move>, threshold: nat, window: int, most: nat)
    requires window >= 1 && most >= 1 && Live(c, t) + left == threshold - 1
    requires Orderly(Bumped(c, t, left + most, window), 0, tail, threshold, window, most)
    ensures Orderly(c, 0, Pairs(t, left) + (Enters(t, most) + (Counts(t, most) + tail)), threshold, window, most)
    ensures |CountTimes(Pairs(t, left) + (Enters(t, most) + (Counts(t, most) + tail)))| == left + most + |CountTimes(tail)|
    decreases left
  {
    hide Live, Bump;
    var ends := Enters(t, most) + (Counts(t, most) + tail);
    var moves := Pairs(t, left) + ends;
    if left == 0 {
      EntersAreOrderly(c, t, most, tail, threshold, window, most);
      assert moves == ends;
    } else {
      BumpAddsOne(c, t, window);
      PairsAreOrderly(Bump(c, t, window), t, left - 1, tail, threshold, window, most);
      var rest := Pairs(t, left - 1) + ends;
      assert moves == [Enter(t)] + ([Count(t)] + rest);
      assert moves[1..] == [Count(t)] + rest && moves[1..][1..] == rest;
    }
  }

  lemma RushesSplit(start: int, n: nat, threshold: nat, window: int, most: nat)
    requires threshold >= 1
    ensures var tail := if n == 0 then [] else Rushes(start + window, n - 1, threshold, window, most);
            Rushes(start, n, threshold, window, most)
            == Pairs(start, threshold - 1) + (Enters(start, most) + (Counts(start, most) + tail))
  {
    hide Pairs, Enters, Counts;
  }

  /** From an expired counter a rush leaves it full, with nobody in flight. */
  lemma RushIsOrderly(c: Counter, start: int, tail: seq<Move>, threshold: nat, window: int, most: nat)
    requires window >= 1 && most >= 1 && threshold >= 1 && !Alive(c, start)
    requires Orderly(Counting(threshold + most - 1, start + window), 0, tail, threshold, window, most)
    ensures var moves := Pairs(start, threshold - 1) + (Enters(start, most) + (Counts(start, most) + tail));
            && Orderly(c, 0, moves, threshold, window, most)
            && |CountTimes(moves)| == threshold + most - 1 + |CountTimes(tail)|
  {
    hide Orderly, CountTimes, Pairs, Enters, Counts, Bumped;
    BumpedIsCount(c, start, threshold + most - 1, window);
    PairsAreOrderly(c, start, threshold - 1, tail, threshold, window, most);
  }

  lemma {:induction false} RushesInOrder(start: int, n: nat, threshold: nat, window: int, most: nat)
    requires window >= 1 && threshold >= 1
    ensures MovesInOrder(Rushes(start, n, threshold, window, most), start, start + n * window)
    decreases n
  {
    hide Rush;
    if n > 0 {
      RushesInOrder(start + window, n - 1, threshold, window, most);
      assert start + window + (n - 1) * window == start + n * window;
      assert n * window >= window by { ScaledGap(window, 0, n); }
    }
  }

  /** The raise is real: from an expired counter, for every threshold, every number of windows and
      every number of overlapping calls, some orderly run counts (threshold + most - 1) * (n + 1)
      failures within n windows. */
  lemma {:induction false} OverlapReachesIt(c: Counter, start: int, n: nat, threshold: nat, window: int, most: nat)
    requires window >= 1 && most >= 1 && threshold >= 1 && !Alive(c, start)
    ensures var moves := Rushes(start, n, threshold, window, most);
            && Orderly(c, 0, moves, threshold, window, most)
            && |CountTimes(moves)| == (threshold + most - 1) * (n + 1)
            && MovesInOrder(moves, start, start + n * window)
    decreases n
  {
    hide Orderly, Pairs, Enters, Counts, Rushes, CountTimes, MovesInOrder;
    var raised := threshold + most - 1;
    var tail: seq<Move> := [];
    var full := Counting(raised, start + window);
    NothingIsOrderly(full, 0, threshold, window, most);
    if n > 0 {
      tail := Rushes(start + window, n - 1, threshold, window, most);
      OverlapReachesIt(full, start + window, n - 1, threshold, window, most);
    }
    assert raised * (n + 1) == raised + raised * n;
    RushesSplit(start, n, threshold, window, most);
    RushIsOrderly(c, start, tail, threshold, window, most);
    RushesInOrder(start, n, threshold, window, most);
  }

  lemma NothingIsOrderly(c: Counter, n: nat, threshold: nat, window: int, most: nat)
    ensures Orderly(c, n, [], threshold, window, most) && CountTimes([]) == []
  {
  }

  // ---- The exact bound for overlapping attempts -----------------------------------------------

  /** With nobody in flight a counter at its threshold is as good as full: only its expiry helps. */
  function Topped(c: Counter, from: int, threshold: nat, most: nat): Counter
    requires most >= 1
  {
    if Alive(c, from) && c.count >= threshold then c.(count := threshold + most - 1) else c
  }

  /** The most failures a span can hold, `most` attempts overlapping. */
  function MostOverlapped(c: Counter, from: int, span: nat, threshold: nat, window: int, most: nat): nat
    requires window >= 1 && most >= 1
  {
    MostInSpan(Topped(c, from, threshold, most), from, span, threshold + most - 1, window)
  }

  lemma {:induction false} ExpiredAlike(c: Counter, d: Counter, n: nat, moves: seq<Move>, from: int, until: int,
                                        threshold: nat, window: int, most: nat)
    requires !Alive(c, from) && !Alive(d, from) && MovesInOrder(moves, from, until)
    requires Orderly(c, n, moves, threshold, window, most)
    ensures Orderly(d, n, moves, threshold, window, most)
    decreases |moves|
  {
    if moves != [] {
      var at, rest := moves[0].at, moves[1..];
      match moves[0]
      case Enter(_) => ExpiredAlike(c, d, n + 1, rest, at, until, threshold, window, most);
      case Count(_) =>
      case Leave(_) => ExpiredAlike(c, d, n - 1, rest, at, until, threshold, window, most);
    }
  }

  lemma ToppedIsOrderly(c: Counter, moves: seq<Move>, from: int, until: int, threshold: nat, window: int, most: nat)
    requires most >= 1 && MovesInOrder(moves, from, until) && Orderly(c, 0, moves, threshold, window, most)
    ensures Orderly(Topped(c, from, threshold, most), 0, moves, threshold, window, most)
  {
    if moves != [] && Alive(c, from) && c.count >= threshold {
      ExpiredAlike(c, Topped(c, from, threshold, most), 0, moves, moves[0].at, until, threshold, window, most);
    }
  }

  lemma AtMostOverlapped(c: Counter, moves: seq<Move>, from: int, span: nat, threshold: nat, window: int, most: nat)
    requires window >= 1 && most >= 1 && threshold >= 1 && WellTimed(c, from, window)
    requires MovesInOrder(moves, from, from + span) && Orderly(c, 0, moves, threshold, window, most)
    ensures |CountTimes(moves)| <= MostOverlapped(c, from, span, threshold, window, most)
  {
    hide Orderly, CountTimes, MostInSpan, MovesInOrder;
    ToppedIsOrderly(c, moves, from, from + span, threshold, window, most);
    OverlappingFailures(Topped(c, from, threshold, most), 0, moves, from, span, threshold, window, most);
  }

  /** Some orderly run meets that maximum, whatever the counter. */
  lemma MostOverlappedIsReached(c: Counter, from: int, span: nat, threshold: nat, window: int, most: nat) returns (moves: seq<Move>)
    requires window >= 1 && most >= 1 && threshold >= 1
    ensures Orderly(c, 0, moves, threshold, window, most) && MovesInOrder(moves, from, from + span)
    ensures |CountTimes(moves)| == MostOverlapped(c, from, span, threshold, window, most)
  {
    hide Orderly, CountTimes, MovesInOrder, Rushes, Pairs, Enters, Counts;
    if !Alive(c, from) {
      moves := RushesInside(c, from, span, threshold, window, most);
    } else if c.count >= threshold {
      moves := TailAfter(c, from, span, threshold, window, most);
    } else {
      var left, full := threshold - 1 - c.count, c.(count := threshold + most - 1);
      var tail := TailAfter(full, from, span, threshold, window, most);
      BumpedIsCount(c, from, left + most, window);
      PairsAreOrderly(c, from, left, tail, threshold, window, most);
      moves := Pairs(from, left) + (Enters(from, most) + (Counts(from, most) + tail));
      HeadInOrder(from, left, most, tail, from + span);
    }
  }

  /** A run for what is left of the span once the present window has expired. */
  lemma TailAfter(c: Counter, from: int, span: nat, threshold: nat, window: int, most: nat) returns (tail: seq<Move>)
    requires window >= 1 && most >= 1 && threshold >= 1 && Alive(c, from)
    ensures Orderly(c, 0, tail, threshold, window, most) && MovesInOrder(tail, from, from + span)
    ensures var d := c.expiresAt - from;
            |CountTimes(tail)| == if span >= d then Windows(span - d, threshold + most - 1, window) else 0
  {
    hide Orderly, CountTimes, Rushes;
    if span >= c.expiresAt - from {
      tail := RushesInside(c, c.expiresAt, span - (c.expiresAt - from), threshold, window, most);
    } else {
      tail := [];
      NothingIsOrderly(c, 0, threshold, window, most);
    }
  }

  lemma RushesInside(c: Counter, from: int, span: nat, threshold: nat, window: int, most: nat) returns (moves: seq<Move>)
    requires window >= 1 && most >= 1 && threshold >= 1 && !Alive(c, from)
    ensures Orderly(c, 0, moves, threshold, window, most) && MovesInOrder(moves, from, from + span)
    ensures |CountTimes(moves)| == Windows(span, threshold + most - 1, window)
  {
    hide Orderly, CountTimes, Rushes;
    var n := span / window;
    assert span == window * n + span % window;
    assert n * window == window * n;
    OverlapReachesIt(c, from, n, threshold, window, most);
    moves := Rushes(from, n, threshold, window, most);
  }

  lemma HeadInOrder(from: int, left: nat, most: nat, tail: seq<Move>, until: int)
    requires from <= until && MovesInOrder(tail, from, until)
    ensures MovesInOrder(Pairs(from, left) + (Enters(from, most) + (Counts(from, most) + tail)), from, until)
  {
    hide Pairs, Enters, Counts;
  }

  lemma OverlapOverflowIsExcess(c: Counter, from: int, span: nat, threshold: nat, window: int, most: nat)
    requires window >= 1 && most >= 1 && threshold >= 1 && WellTimed(c, from, window)
    ensures MostOverlapped(c, from, span, threshold, window, most) > (threshold + most - 1) * (span / window + 1)
       <==> Overflows(c, from, span, threshold, window)
  {
    hide MostInSpan;
    OverflowIsExcess(Topped(c, from, threshold, most), from, span, threshold + most - 1, window);
  }

  /** The exact condition with `most` attempts overlapping and none in flight at the start: all orderly
      runs stay within (threshold + most - 1) * (floor(span / window) + 1) unless the span overflows a
      running window, just as for attempts one at a time. */
  lemma OverlapBoundExactly(c: Counter, from: int, span: nat, threshold: nat, window: int, most: nat)
    requires window >= 1 && most >= 1 && threshold >= 1 && WellTimed(c, from, window)
    ensures (forall moves :: Orderly(c, 0, moves, threshold, window, most) && MovesInOrder(moves, from, from + span) ==>
               |CountTimes(moves)| <= (threshold + most - 1) * (span / window + 1))
       <==> !Overflows(c, from, span, threshold, window)
  {
    hide Orderly, MovesInOrder, CountTimes, MostOverlapped, Overflows;
    OverlapOverflowIsExcess(c, from, span, threshold, window, most);
    forall moves | Orderly(c, 0, moves, threshold, window, most) && MovesInOrder(moves, from, from + span)
      ensures |CountTimes(moves)| <= MostOverlapped(c, from, span, threshold, window, most)
    {
      AtMostOverlapped(c, moves, from, span, threshold, window, most);
    }
    var reached := MostOverlappedIsReached(c, from, span, threshold, window, most);
  }
}
