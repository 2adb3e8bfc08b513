/** The admin sign-in service as code: the token table, the Redis counters and the clock are fields,
    each segment between two awaits is a method, and every method extends the legal run that `trace`
    records. So what AdminOtpGuarantees and AdminOtpLimits prove about runs holds of this object,
    whatever order different calls reach their segments in. */
module AdminAuthService {
  import opened AdminOtp
  import opened RateLimit
  import opened Text

  class AdminAuth {
    var tokens: map<nat, Token>
    var failures: map<nat, Counter>
    var windowSends: map<nat, Counter>
    var dailySends: map<nat, Counter>
    var now: int
    // Numbers the segments, only for the history in `markedAt`.
    var step: nat
    ghost var calls: map<nat, Phase>
    ghost var readings: map<nat, Reading>
    ghost var stamps: map<nat, nat>
    ghost var births: map<nat, Birth>
    ghost var trace: seq<Event>
    ghost const start: int

    ghost function State(): World
      reads this
    {
      World(tokens, failures, windowSends, dailySends, calls, now, step, readings, stamps, births)
    }

    ghost predicate Valid()
      reads this
    {
      Legal(Init(start), trace) && After(Init(start), trace) == State()
    }

    constructor (clock: int)
      ensures Valid() && trace == [] && start == clock && State() == Init(clock)
    {
      tokens, failures, windowSends, dailySends, now := map[], map[], map[], map[], clock;
      calls, step, readings, stamps, births, trace := map[], 0, map[], map[], map[], [];
      start := clock;
    }

    /** Adds `e` to the run, once the fields hold what the event makes of `before`. */
    ghost method Record(before: World, e: Event)
      requires Legal(Init(start), trace) && After(Init(start), trace) == before
      requires Enabled(before, e) && State() == Apply(before, e)
      modifies this`trace
      ensures Valid() && trace == old(trace) + [e]
    {
      hide Legal, After, Apply, Enabled;
      Appended(Init(start), trace, e);
      trace := trace + [e];
    }

    // ---- requestOtp ---------------------------------------------------------------------------

    method BelowResendLimits(user: nat) returns (ok: bool)
      ensures ok <==> MaySend(State(), user)
    {
      hide Live, Get;
      var window, daily := Live(Get(windowSends, user), now), Live(Get(dailySends, user), now);
      ok := !(window >= RESEND_WINDOW_LIMIT || daily >= RESEND_DAILY_LIMIT);
    }

    method AssertResendLimits(ghost c: nat, user: nat) returns (ok: bool)
      requires Valid() && c !in calls
      modifies this`calls, this`step, this`trace
      ensures Valid() && trace == old(trace) + [CheckLimits(c, user)]
      ensures ok <==> MaySend(old(State()), user)
      ensures calls == old(calls)[c := if ok then Allowed(user) else Closed(ResendLimited)]
    {
      hide Legal, After, Enabled, Apply, MaySend;
      ghost var before := State();
      ok := BelowResendLimits(user);
      ghost var p := if ok then Allowed(user) else Closed(ResendLimited);
      calls, step := calls[c := p], step + 1;
      CheckLimitsWrites(before, c, user);
      Record(before, CheckLimits(c, user));
    }

    method InvalidatePrevious(ghost c: nat, user: nat)
      requires Valid() && c in calls && calls[c] == Allowed(user)
      modifies this`tokens, this`calls, this`step, this`trace
      ensures Valid() && trace == old(trace) + [Invalidate(c)]
      ensures tokens == Invalidated(old(tokens), user, now, old(step))
      ensures calls == old(calls)[c := Cleared(user, old(step))]
    {
      hide Legal, After, Enabled, Apply, Invalidated;
      ghost var before := State();
      tokens := Invalidated(tokens, user, now, step);
      calls, step := calls[c := Cleared(user, step)], step + 1;
      InvalidateWrites(before, c);
      Record(before, Invalidate(c));
    }

    /** The INSERT fails when any token carries the hash. */
    method SaveToken(ghost c: nat, user: nat, hash: nat) returns (ok: bool)
      requires Valid() && c in calls && calls[c].Cleared? && calls[c].user == user
      modifies this`tokens, this`calls, this`step, this`births, this`trace
      ensures Valid() && trace == old(trace) + [Insert(c, hash)]
      ensures ok <==> hash !in old(tokens)
      ensures tokens == if ok then old(tokens)[hash := Token(true, user, now + OTP_TTL, None, 0)] else old(tokens)
      ensures calls == old(calls)[c := if ok then Issued(user, hash) else Closed(HashTaken)]
    {
      hide Legal, After, Enabled, Apply;
      ghost var before := State();
      ok := hash !in tokens;
      if ok {
        tokens := tokens[hash := Token(true, user, now + OTP_TTL, None, 0)];
        births := births[hash := Birth(calls[c].at, step)];
      }
      calls, step := calls[c := if ok then Issued(user, hash) else Closed(HashTaken)], step + 1;
      InsertWrites(before, c, hash);
      Record(before, Insert(c, hash));
    }

    method IncrementResendCounters(ghost c: nat, user: nat)
      requires Valid() && c in calls && calls[c].Issued? && calls[c].user == user
      modifies this`windowSends, this`dailySends, this`calls, this`step, this`trace
      ensures Valid() && trace == old(trace) + [CountSend(c)]
      ensures windowSends == old(windowSends)[user := Bump(Get(old(windowSends), user), now, RESEND_WINDOW_TTL)]
      ensures dailySends == old(dailySends)[user := Bump(Get(old(dailySends), user), now, RESEND_DAILY_TTL)]
      ensures calls == old(calls)[c := Closed(Sent)]
    {
      hide Legal, After, Enabled, Apply, Bump, Get;
      ghost var before := State();
      windowSends := windowSends[user := Bump(Get(windowSends, user), now, RESEND_WINDOW_TTL)];
      dailySends := dailySends[user := Bump(Get(dailySends, user), now, RESEND_DAILY_TTL)];
      calls, step := calls[c := Closed(Sent)], step + 1;
      CountSendWrites(before, c);
      Record(before, CountSend(c));
    }

    /** An exception from the database, Redis or the mail service ends the call. */
    method Abort(ghost c: nat)
      requires Valid() && c in calls && !calls[c].Closed?
      modifies this`calls, this`step, this`trace
      ensures Valid() && trace == old(trace) + [Fail(c)]
      ensures calls == old(calls)[c := Closed(Aborted)]
    {
      hide Legal, After, Enabled, Apply;
      ghost var before := State();
      calls, step := calls[c := Closed(Aborted)], step + 1;
      FailWrites(before, c);
      Record(before, Fail(c));
    }

    /** The previous passwords invalidated and the new one inserted, with nothing in between. */
    method Issue(ghost c: nat, user: nat, hash: nat) returns (ok: bool)
      requires Valid() && c in calls && calls[c] == Allowed(user)
      modifies this`tokens, this`calls, this`step, this`births, this`trace
      ensures Valid() && (ok <==> hash !in old(tokens))
      ensures tokens == WithPassword(Invalidated(old(tokens), user, now, old(step)), user, hash, now)
      ensures calls == old(calls)[c := if ok then Issued(user, hash) else Closed(HashTaken)]
    {
      hide Valid;
      InvalidatePrevious(c, user);
      ok := SaveToken(c, user, hash);
    }

    /** One whole call of `requestOtp` that nothing interleaves with: what is invalidated, issued and
        counted, for every way it can end. */
    method Request(ghost c: nat, user: nat, hash: nat, emailOk: bool) returns (out: Outcome)
      requires Valid() && c !in calls
      modifies this
      ensures Valid() && now == old(now) && failures == old(failures)
      ensures calls == old(calls)[c := Closed(out)]
      ensures out == if !MaySend(old(State()), user) then ResendLimited
                     else if hash in old(tokens) then HashTaken
                     else if emailOk then Sent else Aborted
      ensures out == ResendLimited ==> tokens == old(tokens)
      ensures out != ResendLimited ==>
                exists at :: tokens == WithPassword(Invalidated(old(tokens), user, now, at), user, hash, now)
      ensures out == Sent ==> windowSends == old(windowSends)[user := Bump(Get(old(windowSends), user), now, RESEND_WINDOW_TTL)]
      ensures out == Sent ==> dailySends == old(dailySends)[user := Bump(Get(old(dailySends), user), now, RESEND_DAILY_TTL)]
      ensures out != Sent ==> windowSends == old(windowSends) && dailySends == old(dailySends)
    {
      hide Valid, MaySend, Bump, Get, Invalidated, WithPassword;
      var allowed := AssertResendLimits(c, user);
      if !allowed {
        return ResendLimited;
      }
      var saved := Issue(c, user, hash);
      if !saved {
        return HashTaken;
      }
      if !emailOk {
        Abort(c);
        return Aborted;
      }
      IncrementResendCounters(c, user);
      out := Sent;
    }

    // ---- verifyOtp ----------------------------------------------------------------------------

    method BelowFailureLimit(user: nat) returns (ok: bool)
      ensures ok <==> MayTry(State(), user)
    {
      hide Live, Get;
      ok := !(Live(Get(failures, user), now) >= MAX_FAILURES);
    }

    method AssertNotLocked(ghost c: nat, user: nat) returns (ok: bool)
      requires Valid() && c !in calls
      modifies this`calls, this`step, this`trace
      ensures Valid() && trace == old(trace) + [CheckLock(c, user)]
      ensures ok <==> MayTry(old(State()), user)
      ensures calls == old(calls)[c := if ok then Unlocked(user) else Closed(LockedOut)]
    {
      hide Legal, After, Enabled, Apply, MayTry;
      ghost var before := State();
      ok := BelowFailureLimit(user);
      ghost var p := if ok then Unlocked(user) else Closed(LockedOut);
      calls, step := calls[c := p], step + 1;
      CheckLockWrites(before, c, user);
      Record(before, CheckLock(c, user));
    }

    /** The row is looked up, then tested for its user, its use and its expiry, in that order. */
    method TestToken(user: nat, hash: nat) returns (ok: bool)
      ensures ok <==> Usable(tokens, user, hash, now)
    {
      if hash !in tokens || !tokens[hash].otp || tokens[hash].user != user {
        return false;
      }
      if tokens[hash].usedAt.Some? {
        return false;
      }
      ok := !(tokens[hash].expiresAt < now);
    }

    method FindToken(ghost c: nat, user: nat, hash: nat) returns (ok: bool)
      requires Valid() && c in calls && calls[c] == Unlocked(user)
      modifies this`calls, this`step, this`readings, this`trace
      ensures Valid() && trace == old(trace) + [Read(c, hash)]
      ensures ok <==> Usable(tokens, user, hash, now)
      ensures calls == old(calls)[c := if ok then Holding(user, hash) else Rejected(user)]
      ensures readings == if ok then old(readings)[c := Reading(hash, old(step))] else old(readings)
    {
      hide Legal, After, Enabled, Apply, Usable;
      ghost var before := State();
      ok := TestToken(user, hash);
      ghost var p := if ok then Holding(user, hash) else Rejected(user);
      ghost var seen := if ok then readings[c := Reading(hash, step)] else readings;
      readings, calls, step := seen, calls[c := p], step + 1;
      ReadWrites(before, c, hash);
      Record(before, Read(c, hash));
    }

    method RecordFailure(ghost c: nat, user: nat)
      requires Valid() && c in calls && calls[c] == Rejected(user)
      modifies this`failures, this`calls, this`step, this`trace
      ensures Valid() && trace == old(trace) + [CountFailure(c)]
      ensures failures == old(failures)[user := Bump(Get(old(failures), user), now, LOCK_TTL)]
      ensures calls == old(calls)[c := Closed(Invalid)]
    {
      hide Legal, After, Enabled, Apply, Bump, Get;
      ghost var before := State();
      failures := failures[user := Bump(Get(failures, user), now, LOCK_TTL)];
      calls, step := calls[c := Closed(Invalid)], step + 1;
      CountFailureWrites(before, c);
      Record(before, CountFailure(c));
    }

    /** `save(token)`: `used_at` is written whatever the row holds by now. */
    method StampToken(ghost c: nat, user: nat, hash: nat)
      requires Valid() && c in calls && calls[c] == Holding(user, hash) && hash in tokens
      modifies this`tokens, this`calls, this`step, this`stamps, this`trace
      ensures Valid() && trace == old(trace) + [Stamp(c)]
      ensures tokens == old(tokens)[hash := Marked(old(tokens)[hash], now, old(step))]
      ensures calls == old(calls)[c := Stamped(user, hash)]
    {
      hide Legal, After, Enabled, Apply, Marked;
      ghost var before := State();
      tokens := tokens[hash := Marked(tokens[hash], now, step)];
      stamps := stamps[c := step];
      calls, step := calls[c := Stamped(user, hash)], step + 1;
      StampWrites(before, c);
      Record(before, Stamp(c));
    }

    method ResetFailures(ghost c: nat, user: nat, ghost hash: nat)
      requires Valid() && c in calls && calls[c] == Stamped(user, hash)
      modifies this`failures, this`calls, this`step, this`trace
      ensures Valid() && trace == old(trace) + [Reset(c)]
      ensures failures == old(failures) - {user}
      ensures calls == old(calls)[c := Opening(user, hash)]
    {
      hide Legal, After, Enabled, Apply;
      ghost var before := State();
      failures := failures - {user};
      calls, step := calls[c := Opening(user, hash)], step + 1;
      ResetWrites(before, c);
      Record(before, Reset(c));
    }

    /** `createSession` opens the session. */
    method Open(ghost c: nat)
      requires Valid() && c in calls && calls[c].Opening?
      modifies this`calls, this`step, this`trace
      ensures Valid() && trace == old(trace) + [OpenSession(c)]
      ensures calls == old(calls)[c := Closed(LoggedIn)]
    {
      hide Legal, After, Enabled, Apply;
      ghost var before := State();
      calls, step := calls[c := Closed(LoggedIn)], step + 1;
      OpenSessionWrites(before, c);
      Record(before, OpenSession(c));
    }

    /** From the successful reading to the open session, with nothing in between. */
    method SignIn(ghost c: nat, user: nat, hash: nat)
      requires Valid() && c in calls && calls[c] == Holding(user, hash) && hash in tokens
      modifies this`tokens, this`failures, this`calls, this`step, this`stamps, this`trace
      ensures Valid()
      ensures tokens == old(tokens)[hash := Marked(old(tokens)[hash], now, old(step))]
      ensures failures == old(failures) - {user} && calls == old(calls)[c := Closed(LoggedIn)]
    {
      hide Valid, Marked;
      StampToken(c, user, hash);
      ResetFailures(c, user, hash);
      Open(c);
    }

    /** One whole call of `verifyOtp` that nothing interleaves with. */
    method Verify(ghost c: nat, user: nat, hash: nat) returns (out: Outcome)
      requires Valid() && c !in calls
      modifies this
      ensures Valid() && now == old(now) && windowSends == old(windowSends) && dailySends == old(dailySends)
      ensures calls == old(calls)[c := Closed(out)]
      ensures out == if !MayTry(old(State()), user) then LockedOut
                     else if Usable(old(tokens), user, hash, now) then LoggedIn else Invalid
      ensures out == LockedOut ==> tokens == old(tokens) && failures == old(failures)
      ensures out == Invalid ==>
                && tokens == old(tokens)
                && failures == old(failures)[user := Bump(Get(old(failures), user), now, LOCK_TTL)]
      ensures out == LoggedIn ==>
                && hash in old(tokens) && failures == old(failures) - {user} && hash in tokens
                && tokens == old(tokens)[hash := tokens[hash]]
                && tokens[hash].(markedAt := 0) == old(tokens)[hash].(usedAt := Some(now), markedAt := 0)
    {
      hide Valid, MayTry, Bump, Get;
      var unlocked := AssertNotLocked(c, user);
      if !unlocked {
        return LockedOut;
      }
      var usable := FindToken(c, user, hash);
      if !usable {
        RecordFailure(c, user);
        return Invalid;
      }
      SignIn(c, user, hash);
      out := LoggedIn;
    }
  }

  /** The table after the INSERT of a new password, if its hash is not taken. */
  function WithPassword(tokens: Tokens, user: nat, hash: nat, now: int): Tokens {
    if hash in tokens then tokens else tokens[hash := Token(true, user, now + OTP_TTL, None, 0)]
  }
}
