/** The session service as code: the table, the lock, the cache and the clock are fields, each
    await-to-await segment is a method, and every method extends the legal run that `trace` records.
    So all that SessionGuarantees proves about runs holds of this object, whatever order different
    callers invoke the segments in. */
module SessionService {
  import opened Text
  import opened SessionProtocol
  import opened SessionGuarantees

  datatype Refreshed =
    | Tokens(response: Response)
    | TokenInvalid
    | TokenExpired
    | SaveFailed

  class SessionService {
    var rows: map<nat, Row>
    var nextId: nat
    var logged: nat
    var locks: set<nat>
    var cache: map<nat, Response>
    var now: int
    ghost var callers: map<nat, Phase>
    ghost var births: seq<Birth>
    ghost var logins: seq<nat>
    ghost var stamps: multiset<nat>
    ghost var answers: map<nat, Response>
    ghost var trace: seq<Event>
    ghost const start: int

    ghost function State(): World
      reads this
    {
      World(rows, locks, cache, now, callers, births, logins, stamps, answers)
    }

    ghost predicate Valid()
      reads this
    {
      && nextId == |births| && logged == |logins|
      && Legal(Init(start), trace) && After(Init(start), trace) == State()
    }

    constructor (clock: int)
      ensures Valid() && trace == [] && start == clock && rows == map[] && State() == Init(clock)
    {
      rows, nextId, logged, locks, cache, now := map[], 0, 0, {}, map[], clock;
      callers, births, logins, stamps, answers, trace := map[], [], [], multiset{}, map[], [];
      start := clock;
    }

    /** Adds `e` to the run, once the fields hold what the step makes of `before`. */
    ghost method Record(before: World, e: Event)
      requires Legal(Init(start), trace) && After(Init(start), trace) == before
      requires nextId == |births| && logged == |logins|
      requires Enabled(before, e) && State() == Apply(before, e)
      modifies this`trace
      ensures Valid() && trace == old(trace) + [e]
    {
      Extends(Init(start), trace, before, e);
      trace := trace + [e];
    }

    /** A call of `refresh` arrives. */
    method Begin(ghost c: nat, token: Token)
      requires Valid() && c !in callers
      modifies this
      ensures Valid() && trace == old(trace) + [Ask(c, token)]
      ensures State() == old(State()).(callers := old(callers)[c := Asked(token)])
    {
      ghost var before := State();
      callers := callers[c := Asked(token)];
      Record(before, Ask(c, token));
    }

    /** SET key NX: whoever finds the key absent holds the lock; nobody ever deletes it. */
    method TryLock(ghost c: nat, token: Token) returns (acquired: bool)
      requires Valid() && c in callers && callers[c] == Asked(token)
      modifies this
      ensures Valid() && trace == old(trace) + [SessionProtocol.TryLock(c)]
      ensures acquired <==> token.prefix !in old(locks)
      ensures State() == old(State()).(locks := old(locks) + {token.prefix},
                                       callers := old(callers)[c := if acquired then Locked(token) else Waiting(token, 0)])
    {
      ghost var before := State();
      acquired := token.prefix !in locks;
      if acquired {
        locks := locks + {token.prefix};
        callers := callers[c := Locked(token)];
      } else {
        callers := callers[c := Waiting(token, 0)];
        assert locks + {token.prefix} == locks;
      }
      Record(before, SessionProtocol.TryLock(c));
    }

    /** One GET of the result key. */
    method PollOnce(ghost c: nat, token: Token, ghost polls: nat) returns (found: Option<Response>)
      requires Valid() && c in callers && callers[c] == Waiting(token, polls) && polls < MAX_POLLS
      modifies this
      ensures Valid() && trace == old(trace) + [Poll(c)]
      ensures found == if token.prefix in old(cache) then Some(old(cache)[token.prefix]) else None
      ensures State() == old(State()).(callers := old(callers)[c := AfterPoll(old(State()), token, polls)])
    {
      ghost var before := State();
      found := if token.prefix in cache then Some(cache[token.prefix]) else None;
      callers := callers[c := AfterPoll(before, token, polls)];
      Record(before, Poll(c));
    }

    /** `awaitRefreshResult`: two polls, then the generic error; nothing is written. */
    method AwaitRefreshResult(ghost c: nat, token: Token) returns (out: Refreshed)
      requires Valid() && c in callers && callers[c] == Waiting(token, 0)
      modifies this
      ensures Valid() && old(trace) <= trace
      ensures rows == old(rows) && locks == old(locks) && cache == old(cache) && now == old(now)
      ensures nextId == old(nextId)
      ensures out == if token.prefix in old(cache) then Tokens(old(cache)[token.prefix]) else TokenInvalid
    {
      var attempt := 1;
      while attempt <= MAX_POLLS
        invariant 1 <= attempt <= MAX_POLLS + 1
        invariant Valid() && old(trace) <= trace
        invariant rows == old(rows) && locks == old(locks) && cache == old(cache) && now == old(now)
        invariant nextId == old(nextId) && c in callers
        invariant attempt <= MAX_POLLS ==> callers[c] == Waiting(token, attempt - 1)
        invariant attempt > 1 ==> token.prefix !in cache
      {
        var found := PollOnce(c, token, attempt - 1);
        if found.Some? {
          return Tokens(found.value);
        }
        attempt := attempt + 1;
      }
      return TokenInvalid;
    }

    /** No transaction of another caller is open, so no row is locked and nothing blocks. */
    ghost predicate Undisturbed()
      reads this
    {
      forall d :: d in callers ==> !callers[d].InTx?
    }

    /** `findActiveByTokenForUpdate`: locks and returns the unused row of the token, which no other
        transaction holds by the time the statement returns. */
    method FindActiveByTokenForUpdate(ghost c: nat, token: Token) returns (found: Option<nat>)
      requires Valid() && c in callers && callers[c] == Locked(token)
      requires forall id :: UnusedIn(rows, id) && rows[id].token == token ==> !RowLocked(State(), id)
      modifies this
      ensures Valid() && old(trace) <= trace
      ensures found.Some? ==> UnusedIn(rows, found.value) && rows[found.value].token == token
      ensures found.None? ==> forall id :: UnusedIn(rows, id) ==> rows[id].token != token
      ensures State() == old(State()).(callers := old(callers)[c := if found.Some? then InTx(token, found.value) else Missed(token)])
    {
      hide Legal, After;
      ghost var before := State();
      if id :| id in rows && rows[id].token == token && rows[id].usedAt.None? {
        found := Some(id);
        callers := callers[c := InTx(token, id)];
        Record(before, Find(c, id));
      } else {
        found := None;
        callers := callers[c := Missed(token)];
        Record(before, Miss(c));
      }
    }

    /** `findByToken` after the miss: reports the user when the stored row is a used one. */
    method DetectReuse(ghost c: nat, token: Token) returns (reuseUser: Option<nat>, found: nat)
      requires Valid() && c in callers && callers[c] == Missed(token)
      modifies this
      ensures Valid() && old(trace) <= trace && nextId == old(nextId)
      ensures reuseUser.Some? ==>
                && found in rows && rows[found].token == token
                && rows[found].usedAt.Some? && rows[found].user == reuseUser.value
      ensures reuseUser.None? ==> TokenFree(rows, token) || (UnusedIn(rows, found) && rows[found].token == token)
      ensures State() == old(State()).(callers := old(callers)[c := if reuseUser.Some? then Replayed(reuseUser.value) else Refused])
    {
      ghost var before := State();
      if id :| id in rows && rows[id].token == token {
        found := id;
        reuseUser := if rows[id].usedAt.Some? then Some(rows[id].user) else None;
        callers := callers[c := if rows[id].usedAt.Some? then Replayed(rows[id].user) else Refused];
        Record(before, Inspect(c, Some(id)));
      } else {
        found, reuseUser := 0, None;
        callers := callers[c := Refused];
        Record(before, Inspect(c, None));
      }
    }

    /** The rest of the transaction once the row is locked: refuse an expired session (the rollback
        undoes its delete) or stamp `used_at` and commit. */
    method StampOrRefuse(ghost c: nat, token: Token, id: nat) returns (stamped: bool)
      requires Valid() && c in callers && callers[c] == InTx(token, id) && id in rows
      modifies this
      ensures Valid() && old(trace) <= trace && nextId == old(nextId)
      ensures stamped <==> !(old(rows)[id].expiresAt < now)
      ensures State() == Decision(old(State()), c, token, id)
    {
      hide Legal, After;
      ghost var before := State();
      if rows[id].expiresAt < now {
        stamped := false;
        callers := callers[c := Refused];
      } else {
        stamped := true;
        callers := callers[c := Stamped(token, id, rows[id].user, rows[id].login)];
        rows := rows[id := rows[id].(usedAt := Some(now))];
        stamps := stamps + multiset{id};
      }
      Record(before, Decide(c));
    }

    /** `revokeAllSessionsForUser` begins: the DELETE finds the rows the user has at this moment. */
    method FindOwned(ghost c: nat, user: nat) returns (owned: set<nat>)
      requires Valid() && c in callers && callers[c] == Replayed(user)
      modifies this`callers, this`trace
      ensures Valid() && old(trace) <= trace
      ensures owned == Owned(old(State()), user) && callers == old(callers)[c := Revoking(user, owned)]
    {
      hide Legal, After;
      ghost var before := State();
      owned := set id | id in rows && rows[id].user == user;
      callers := callers[c := Revoking(user, owned)];
      Record(before, BeginRevoke(c));
    }

    /** And ends, once no transaction holds one of them: those rows are gone, later ones stay. */
    method DeleteFound(ghost c: nat, ghost user: nat, owned: set<nat>)
      requires Valid() && c in callers && callers[c] == Revoking(user, owned) && Deletable(State(), owned)
      modifies this`rows, this`callers, this`trace
      ensures Valid() && old(trace) <= trace
      ensures rows == old(rows) - owned && callers == old(callers)[c := Refused]
    {
      hide Legal, After, Deletable;
      ghost var before := State();
      rows := rows - owned;
      callers := callers[c := Refused];
      Record(before, RevokeAll(c));
    }

    /** The whole DELETE when nothing holds it up. */
    method RevokeAllSessionsForUser(ghost c: nat, user: nat)
      requires Valid() && Undisturbed() && c in callers && callers[c] == Replayed(user)
      modifies this`rows, this`callers, this`trace
      ensures Valid() && old(trace) <= trace
      ensures rows == old(rows) - Owned(old(State()), user) && callers == old(callers)[c := Refused]
    {
      hide Valid;
      var owned := FindOwned(c, user);
      assert forall d :: d in callers ==> !callers[d].InTx?;
      DeleteFound(c, user, owned);
    }

    /** What the unique constraint on session_token checks. */
    method IsFree(token: Token) returns (ok: bool)
      ensures ok == TokenFree(rows, token)
    {
      ok := forall i | i in rows :: rows[i].token != token;
    }

    /** The INSERT itself, of an unused row with a fresh id. */
    method InsertRow(user: nat, token: Token, lifetime: nat, login: nat, ghost parent: Option<nat>) returns (id: nat)
      requires nextId == |births|
      modifies this`rows, this`nextId, this`births
      ensures id == old(nextId) && nextId == id + 1
      ensures rows == old(rows)[id := Row(user, token, now + lifetime, None, login)]
      ensures births == old(births) + [Birth(token, parent)]
    {
      id := nextId;
      rows := rows[id := Row(user, token, now + lifetime, None, login)];
      births := births + [Birth(token, parent)];
      nextId := nextId + 1;
    }

    /** `createSession` for a rotation: the INSERT fails when a stored row carries the token. */
    method CreateSession(ghost c: nat, id: nat, minted: Token, lifetime: nat) returns (out: Option<Response>)
      requires Valid() && c in callers && callers[c].Stamped? && callers[c].row == id && id in rows
      requires rows[id].user == callers[c].user && rows[id].login == callers[c].login
      modifies this
      ensures Valid() && old(trace) <= trace
      ensures out == if TokenFree(old(rows), minted) then Some(Response(old(nextId), minted)) else None
      ensures out.Some? ==> State() == Creation(old(State()), c, old(callers)[c], minted, lifetime)
      ensures out.None? ==> State() == Put(old(State()), c, Refused)
    {
      hide Legal, After, Enabled, Apply, Creation, TokenFree, Insert;
      ghost var before := State();
      ghost var p := callers[c];
      var unclaimed := IsFree(minted);
      if unclaimed {
        var session := InsertRow(rows[id].user, minted, lifetime, rows[id].login, Some(id));
        out := Some(Response(session, minted));
        answers := answers[id := Response(session, minted)];
        callers := callers[c := Created(p.token, id, Response(session, minted))];
        CreationFields(before, c, p, minted, lifetime);
        CreationIsStep(before, c, minted, lifetime);
        Record(before, Create(c, minted, lifetime));
      } else {
        out := None;
        callers := callers[c := Refused];
        FailureIsStep(before, c);
        Record(before, Fail(c));
      }
    }

    /** SET of the result key. */
    method PublishResult(ghost c: nat, token: Token, response: Response)
      requires Valid() && c in callers && callers[c].Created? && callers[c].token == token
      requires callers[c].response == response
      modifies this
      ensures Valid() && old(trace) <= trace
      ensures State() == old(State()).(cache := old(cache)[token.prefix := response],
                                       callers := old(callers)[c := Served(token, response)])
    {
      ghost var before := State();
      cache := cache[token.prefix := response];
      callers := callers[c := Served(token, response)];
      Record(before, Publish(c));
    }

    /** The session check the JWT middleware makes before it fills the request context. */
    method CheckSession(id: nat) returns (ok: bool)
      requires Valid()
      ensures ok <==> Accepts(State(), id)
      ensures ok <==> id in rows && rows[id].usedAt == None && rows[id].expiresAt >= now
      ensures id < nextId && !ok ==> RejectedInEveryFuture(State(), id)
    {
      ok := id in rows && rows[id].usedAt.None? && !(rows[id].expiresAt < now);
      if id < nextId && !ok {
        RejectedFromHere(start, trace, id);
      }
    }

    /** A login, e-mail verification or OTP sign-in that opens a session. */
    method LoginSession(user: nat, minted: Token, lifetime: nat) returns (out: Option<Response>)
      requires Valid()
      modifies this
      ensures Valid() && old(trace) <= trace
      ensures out == if TokenFree(old(rows), minted) then Some(Response(old(nextId), minted)) else None
      ensures out.None? ==> State() == old(State())
      ensures out.Some? ==> State() == LoggedInFor(old(State()), user, minted, lifetime)
    {
      hide Legal, After, Enabled, Apply, LoggedInFor, TokenFree;
      ghost var before := State();
      var unclaimed := IsFree(minted);
      if !unclaimed {
        return None;
      }
      var session := InsertRow(user, minted, lifetime, logged, None);
      out := Some(Response(session, minted));
      logins := logins + [user];
      logged := logged + 1;
      LoginIsStep(before, user, minted, lifetime);
      Record(before, Login(user, minted, lifetime));
    }

    /** Any of the other deletes: logout of one session, changePassword's "all but this one",
        resetPassword's and a ban's "all of this user"; it takes effect once no transaction holds a
        row it found. */
    method DeleteSessions(ids: set<nat>)
      requires Valid() && Deletable(State(), ids)
      modifies this
      ensures Valid() && trace == old(trace) + [Delete(ids)]
      ensures State() == DeleteRows(old(State()), ids)
    {
      ghost var before := State();
      rows := rows - ids;
      Record(before, Delete(ids));
    }

    /** The branch without an active row: replay revokes, anything else just fails. */
    method RejectMissed(ghost c: nat, token: Token) returns (reused: Option<nat>)
      requires Valid() && Undisturbed() && c in callers && callers[c] == Missed(token)
      requires forall id :: UnusedIn(rows, id) ==> rows[id].token != token
      modifies this
      ensures Valid() && old(trace) <= trace && now == old(now) && locks == old(locks) && cache == old(cache)
      ensures reused.None? ==> rows == old(rows) && TokenFree(old(rows), token)
      ensures reused.Some? ==> ReplayOf(old(rows), rows, token, reused.value)
    {
      var reuseUser, id := DetectReuse(c, token);
      reused := None;
      if reuseUser.Some? {
        RevokeAllSessionsForUser(c, reuseUser.value);
        reused := Some(id);
      }
    }

    /** The branch with an active row `id`, already locked. */
    method RotateFound(ghost c: nat, token: Token, id: nat, minted: Token, lifetime: nat) returns (out: Refreshed)
      requires Valid() && c in callers && callers[c] == InTx(token, id) && UnusedIn(rows, id)
      modifies this
      ensures Valid() && old(trace) <= trace && now == old(now) && locks == old(locks)
      ensures RotationOutcome(old(rows), rows, old(cache), cache, now, token, id, old(nextId), minted, lifetime, out)
    {
      var stamped := StampOrRefuse(c, token, id);
      if !stamped {
        return TokenExpired;
      }
      assert TokenFree(rows, minted) <==> TokenFree(old(rows), minted) by {
        SameTokens(old(rows), id, now, minted);
      }
      var created := CreateSession(c, id, minted, lifetime);
      if created.None? {
        return SaveFailed;
      }
      PublishResult(c, token, created.value);
      return Tokens(created.value);
    }

    /** One whole call of `refresh`, when no other caller runs between its steps. */
    method Refresh(ghost c: nat, token: Token, minted: Token, lifetime: nat) returns (out: Refreshed, row: nat)
      requires Valid() && Undisturbed() && c !in callers
      modifies this
      ensures Valid() && old(trace) <= trace && now == old(now)
      ensures locks == old(locks) + {token.prefix}
      // Lock busy: only the cache is consulted.
      ensures token.prefix in old(locks) ==>
                && rows == old(rows) && cache == old(cache)
                && out == if token.prefix in old(cache) then Tokens(old(cache)[token.prefix]) else TokenInvalid
      // An active row is consumed and replaced, or refused when expired.
      ensures token.prefix !in old(locks) && !out.TokenInvalid? ==>
                && UnusedIn(old(rows), row) && old(rows)[row].token == token
                && RotationOutcome(old(rows), rows, old(cache), cache, now, token, row, old(nextId), minted, lifetime, out)
      // No active row: a used one revokes every session of its user, none at all changes nothing.
      ensures token.prefix !in old(locks) && out.TokenInvalid? ==>
                && cache == old(cache) && (forall id :: UnusedIn(old(rows), id) ==> old(rows)[id].token != token)
                && ((rows == old(rows) && TokenFree(old(rows), token)) || ReplayOf(old(rows), rows, token, row))
    {
      hide Legal, After, RotationOutcome, ReplayOf, TokenFree;
      row := 0;
      Begin(c, token);
      var acquired := TryLock(c, token);
      if !acquired {
        out := AwaitRefreshResult(c, token);
        return;
      }
      var found := FindActiveByTokenForUpdate(c, token);
      if found.None? {
        var reused := RejectMissed(c, token);
        return TokenInvalid, if reused.Some? then reused.value else 0;
      }
      row := found.value;
      out := RotateFound(c, token, row, minted, lifetime);
    }
  }

  // ---- What the specification's steps write, column by column --------------------------------

  lemma CreationFields(w: World, c: nat, p: Phase, minted: Token, lifetime: nat)
    requires p.Stamped?
    ensures var id, r := |w.births|, Response(|w.births|, minted);
            Creation(w, c, p, minted, lifetime)
            == w.(rows := w.rows[id := Row(p.user, minted, w.now + lifetime, None, p.login)],
                  births := w.births + [Birth(minted, Some(p.row))],
                  answers := w.answers[p.row := r],
                  callers := w.callers[c := Created(p.token, p.row, r)])
  {
  }

  lemma CreationIsStep(w: World, c: nat, minted: Token, lifetime: nat)
    requires c in w.callers && w.callers[c].Stamped? && TokenFree(w.rows, minted)
    ensures Enabled(w, Create(c, minted, lifetime))
    ensures Apply(w, Create(c, minted, lifetime)) == Creation(w, c, w.callers[c], minted, lifetime)
  {
  }

  lemma FailureIsStep(w: World, c: nat)
    requires c in w.callers && !w.callers[c].Served? && !w.callers[c].Refused?
    ensures Enabled(w, Fail(c)) && Apply(w, Fail(c)) == Put(w, c, Refused)
  {
  }

  lemma LoginIsStep(w: World, user: nat, minted: Token, lifetime: nat)
    requires TokenFree(w.rows, minted)
    ensures Enabled(w, Login(user, minted, lifetime))
    ensures Apply(w, Login(user, minted, lifetime)) == LoggedInFor(w, user, minted, lifetime)
    ensures LoggedInFor(w, user, minted, lifetime)
         == w.(rows := w.rows[|w.births| := Row(user, minted, w.now + lifetime, None, |w.logins|)],
               births := w.births + [Birth(minted, None)],
               logins := w.logins + [user])
  {
  }

  ghost predicate RejectedInEveryFuture(w: World, id: nat) {
    forall es | Legal(w, es) :: !Accepts(After(w, es), id)
  }

  lemma RejectedFromHere(start: int, trace: seq<Event>, id: nat)
    requires Legal(Init(start), trace)
    requires id < |After(Init(start), trace).births| && !Accepts(After(Init(start), trace), id)
    ensures RejectedInEveryFuture(After(Init(start), trace), id)
  {
    var w := After(Init(start), trace);
    ReachableInv(start, trace);
    forall es | Legal(w, es) ensures !Accepts(After(w, es), id) {
      RejectedForever(w, es, id);
    }
  }

  lemma SameTokens(rows: Rows, id: nat, now: int, token: Token)
    requires id in rows
    ensures TokenFree(Consumed(rows, id, now), token) <==> TokenFree(rows, token)
  {
    if TokenFree(Consumed(rows, id, now), token) {
      forall i | i in rows ensures rows[i].token != token {
        assert Consumed(rows, id, now)[i].token == rows[i].token;
      }
    }
  }

  /** What a refresh that found the active row `id` does to the table and the cache. */
  predicate RotationOutcome(before: Rows, after: Rows, cache: map<nat, Response>, cache': map<nat, Response>, now: int,
                    token: Token, id: nat, newId: nat, minted: Token, lifetime: nat, out: Refreshed)
    requires id in before
  {
    match out
    case Tokens(response) =>
      && response == Response(newId, minted) && TokenFree(before, minted)
      && Rotation(before, after, id, newId, minted, now, lifetime)
      && cache' == cache[token.prefix := response]
    case SaveFailed =>
      && !(before[id].expiresAt < now) && !TokenFree(before, minted)
      && after == Consumed(before, id, now) && cache' == cache
    case TokenExpired => before[id].expiresAt < now && after == before && cache' == cache
    case TokenInvalid => false
  }

  function LoggedInFor(w: World, user: nat, token: Token, lifetime: nat): World {
    Insert(w, user, token, lifetime, |w.logins|, None).(logins := w.logins + [user])
  }

  /** `id` is a used row of the token, and exactly its user's rows are gone. */
  predicate ReplayOf(before: Rows, after: Rows, token: Token, id: nat) {
    && id in before && before[id].token == token && before[id].usedAt.Some?
    && after == before - (set i | i in before && before[i].user == before[id].user)
  }

  function Consumed(rows: Rows, id: nat, now: int): Rows
    requires id in rows
  {
    rows[id := rows[id].(usedAt := Some(now))]
  }

  /** The table after a rotation: the old row stamped, the new one unused, same user, same line. */
  predicate Rotation(before: Rows, after: Rows, id: nat, newId: nat, minted: Token, now: int, lifetime: nat)
    requires id in before
  {
    && !(before[id].expiresAt < now)
    && after == Consumed(before, id, now)[newId := Row(before[id].user, minted, now + lifetime, None, before[id].login)]
  }
}
