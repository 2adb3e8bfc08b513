/** Every step of admin sign-in in plain terms: which columns it reads, the numbers it compares them
    with, and everything it writes. */
module AdminOtpSteps {
  import opened AdminOtp
  import opened RateLimit
  import opened Text

  /** The user's key in one of the counter maps. */
  function KeyAt(counters: map<nat, Counter>, user: nat): Counter {
    if user in counters then counters[user] else Absent
  }

  /** A request goes on unless the user's half-hour key holds 3 sends or the daily one 10; it writes
      nothing either way. */
  lemma ResendLimitsExactly(w: World, c: nat, user: nat)
    requires c !in w.calls
    ensures var v := Apply(w, CheckLimits(c, user));
            var refused := Holds(KeyAt(w.windowSends, user), w.now, 3) || Holds(KeyAt(w.dailySends, user), w.now, 10);
            v == w.(calls := w.calls[c := if refused then Closed(ResendLimited) else Allowed(user)], step := w.step + 1)
  {
    hide Apply, Enabled;
    CheckLimitsWrites(w, c, user);
  }

  /** The UPDATE marks the user's unused one-time passwords as used now, and no other row: not those of
      other users, not the verification and reset tokens, not the ones used before. */
  lemma InvalidationExactly(w: World, c: nat)
    requires c in w.calls && w.calls[c].Allowed?
    ensures var v, user := Apply(w, Invalidate(c)), w.calls[c].user;
            && v.tokens.Keys == w.tokens.Keys
            && (forall h :: h in w.tokens ==>
                  var t := w.tokens[h];
                  v.tokens[h] == if t.otp && t.user == user && t.usedAt == None
                                 then Token(true, user, t.expiresAt, Some(w.now), w.step) else t)
            && v == w.(tokens := v.tokens, calls := w.calls[c := Cleared(user, w.step)], step := w.step + 1)
  {
    hide Apply, Enabled;
    InvalidateWrites(w, c);
  }

  /** The INSERT stores an unused password of the user that lasts ten minutes (600000 ms), unless some
      token, of whatever kind, already carries its hash; then it fails and no row changes. */
  lemma InsertionExactly(w: World, c: nat, hash: nat)
    requires c in w.calls && w.calls[c].Cleared?
    ensures var v, user := Apply(w, Insert(c, hash)), w.calls[c].user;
            && (hash in w.tokens ==> v == w.(calls := w.calls[c := Closed(HashTaken)], step := w.step + 1))
            && (hash !in w.tokens ==>
                  v == w.(tokens := w.tokens[hash := Token(true, user, w.now + 600000, None, 0)],
                          births := w.births[hash := Birth(w.calls[c].at, w.step)],
                          calls := w.calls[c := Issued(user, hash)], step := w.step + 1))
  {
    hide Apply, Enabled;
    InsertWrites(w, c, hash);
  }

  /** A send counts once on the half-hour key (1800000 ms) and once on the daily one (86400000 ms). */
  lemma SendCountExactly(w: World, c: nat)
    requires c in w.calls && w.calls[c].Issued?
    ensures var user := w.calls[c].user;
            Apply(w, CountSend(c))
            == w.(windowSends := w.windowSends[user := OneMore(KeyAt(w.windowSends, user), w.now, 1800000)],
                  dailySends := w.dailySends[user := OneMore(KeyAt(w.dailySends, user), w.now, 86400000)],
                  calls := w.calls[c := Closed(Sent)], step := w.step + 1)
  {
    hide Apply, Enabled;
    CountSendWrites(w, c);
  }

  /** A verification goes on unless the user's failure key holds 5. */
  lemma LockExactly(w: World, c: nat, user: nat)
    requires c !in w.calls
    ensures Apply(w, CheckLock(c, user))
         == w.(calls := w.calls[c := if Holds(KeyAt(w.failures, user), w.now, 5) then Closed(LockedOut) else Unlocked(user)],
               step := w.step + 1)
  {
    hide Apply, Enabled;
    CheckLockWrites(w, c, user);
  }

  /** A reading accepts exactly a stored one-time password of that user, not used and not past its end;
      it writes nothing. */
  lemma ReadingExactly(w: World, c: nat, hash: nat)
    requires c in w.calls && w.calls[c].Unlocked?
    ensures var v, user := Apply(w, Read(c, hash)), w.calls[c].user;
            var good := hash in w.tokens && w.tokens[hash].otp && w.tokens[hash].user == user
                        && w.tokens[hash].usedAt == None && !(w.tokens[hash].expiresAt < w.now);
            v == if good then w.(readings := w.readings[c := Reading(hash, w.step)], calls := w.calls[c := Holding(user, hash)], step := w.step + 1)
                 else w.(calls := w.calls[c := Rejected(user)], step := w.step + 1)
  {
    hide Apply, Enabled;
    ReadWrites(w, c, hash);
  }

  /** A wrong password counts once on the failure key, which lasts an hour (3600000 ms). */
  lemma FailureCountExactly(w: World, c: nat)
    requires c in w.calls && w.calls[c].Rejected?
    ensures var user := w.calls[c].user;
            Apply(w, CountFailure(c))
            == w.(failures := w.failures[user := OneMore(KeyAt(w.failures, user), w.now, 3600000)],
                  calls := w.calls[c := Closed(Invalid)], step := w.step + 1)
  {
    hide Apply, Enabled;
    CountFailureWrites(w, c);
  }

  /** The stamp writes `used_at` and no other column of the row, and the deletion of the failure key
      that follows touches no other user's; then the session is opened. */
  lemma SignInExactly(w: World, c: nat)
    requires c in w.calls
    ensures w.calls[c].Holding? && w.calls[c].hash in w.tokens ==>
              var v, p := Apply(w, Stamp(c)), w.calls[c];
              && v.tokens.Keys == w.tokens.Keys && v.tokens[p.hash].usedAt == Some(w.now)
              && v.tokens[p.hash].(usedAt := None, markedAt := 0) == w.tokens[p.hash].(usedAt := None, markedAt := 0)
              && (forall h :: h in w.tokens && h != p.hash ==> v.tokens[h] == w.tokens[h])
              && v == w.(tokens := v.tokens, stamps := w.stamps[c := w.step], calls := w.calls[c := Stamped(p.user, p.hash)],
                         step := w.step + 1)
    ensures w.calls[c].Stamped? ==>
              var v, p := Apply(w, Reset(c)), w.calls[c];
              && (forall u :: u in v.failures <==> u in w.failures && u != p.user)
              && (forall u :: u in v.failures ==> v.failures[u] == w.failures[u])
              && v == w.(failures := v.failures, calls := w.calls[c := Opening(p.user, p.hash)], step := w.step + 1)
    ensures w.calls[c].Opening? ==> Apply(w, OpenSession(c)) == w.(calls := w.calls[c := Closed(LoggedIn)], step := w.step + 1)
  {
    hide Apply, Enabled;
    match w.calls[c]
    case Holding(_, _) => StampWrites(w, c);
    case Stamped(_, _) => ResetWrites(w, c);
    case Opening(_, _) => OpenSessionWrites(w, c);
    case _ =>
  }
}
