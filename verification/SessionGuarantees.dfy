/** What the refresh protocol guarantees in every legal run, and where its assumption is needed. */
module SessionGuarantees {
  import opened Sequences
  import opened Text
  import opened SessionProtocol

  lemma ReachableInv(now: int, es: seq<Event>)
    requires Legal(Init(now), es)
    ensures Inv(After(Init(now), es))
  {
    RunKeepsInv(Init(now), es);
  }

  // ---- Single use -----------------------------------------------------------------

  /** However callers interleave and whenever the lock expires, no row is rotated twice, and a row
      that is still in the table has been rotated exactly when `used_at` is set. */
  lemma RotatedAtMostOnce(now: int, es: seq<Event>)
    requires Legal(Init(now), es)
    ensures var w := After(Init(now), es);
            && (forall id :: w.stamps[id] <= 1)
            && (forall id :: id in w.rows ==> (w.stamps[id] == 1 <==> w.rows[id].usedAt.Some?))
  {
    ReachableInv(now, es);
  }

  /** Only a live, unexpired, unused row can be rotated, and the rotation consumes it. */
  lemma RotationConsumesAValidRow(w: World, e: Event, id: nat)
    requires Inv(w) && Enabled(w, e) && Apply(w, e).stamps[id] != w.stamps[id]
    ensures e.Decide? && Accepts(w, id) && !Accepts(Apply(w, e), id)
  {
    hide LineInv, AnswerInv, CacheInv;
    if !e.Decide? {
      StampsLeft(w, e);
    }
  }

  lemma StampsLeft(w: World, e: Event)
    requires Enabled(w, e) && !e.Decide?
    ensures Apply(w, e).stamps == w.stamps
  {
    hide RowLocked;
  }

  function Live(w: World, user: nat): set<nat> {
    set id | id in w.rows && w.rows[id].user == user && w.rows[id].usedAt.None?
  }

  function InFlight(w: World, user: nat): set<nat> {
    set c | c in w.callers && w.callers[c].Stamped? && w.callers[c].user == user
  }

  function LoginsOf(w: World, user: nat): set<nat> {
    set i | 0 <= i < |w.logins| && w.logins[i] == user
  }

  function LiveLogins(w: World, user: nat): map<nat, nat> {
    map id | id in Live(w, user) :: w.rows[id].login
  }

  function FlightLogins(w: World, user: nat): map<nat, nat> {
    map c | c in InFlight(w, user) :: w.callers[c].login
  }

  /** The logins of `user` that still have a live descendant. */
  function Holders(w: World, user: nat): set<nat> {
    LiveLogins(w, user).Values + FlightLogins(w, user).Values
  }

  lemma {:induction false} InjectiveImage(m: map<nat, nat>)
    requires forall a, b :: a in m && b in m && a != b ==> m[a] != m[b]
    ensures |m.Values| == |m|
  {
    if m != map[] {
      var k :| k in m;
      var rest := m - {k};
      InjectiveImage(rest);
      assert m.Values == rest.Values + {m[k]} by {
        forall v | v in m.Values ensures v in rest.Values + {m[k]} {
          var a :| a in m && m[a] == v;
          assert a != k ==> a in rest && rest[a] == v;
        }
        forall v | v in rest.Values ensures v in m.Values {
          var a :| a in rest && rest[a] == v;
          assert a in m && m[a] == v;
        }
      }
      assert m[k] !in rest.Values;
      assert m.Keys == rest.Keys + {k};
      assert |m.Keys| == |m|;
    }
  }

  lemma LiveLoginsDistinct(w: World, user: nat)
    requires Inv(w)
    ensures |LiveLogins(w, user).Values| == |Live(w, user)| && LiveLogins(w, user).Values <= LoginsOf(w, user)
  {
    hide TxInv, StampInv, AnswerInv, CacheInv;
    var live := LiveLogins(w, user);
    forall a, b | a in live && b in live && a != b ensures live[a] != live[b] {
      assert UnusedIn(w.rows, a) && UnusedIn(w.rows, b);
    }
    InjectiveImage(live);
    assert live.Keys == Live(w, user) && |live| == |live.Keys|;
  }

  lemma FlightLoginsDistinct(w: World, user: nat)
    requires Inv(w)
    ensures |FlightLogins(w, user).Values| == |InFlight(w, user)| && FlightLogins(w, user).Values <= LoginsOf(w, user)
  {
    hide RowsInv, TxInv, StampInv, AnswerInv, CacheInv;
    var flight := FlightLogins(w, user);
    InjectiveImage(flight);
    assert flight.Keys == InFlight(w, user) && |flight| == |flight.Keys|;
  }

  lemma HoldersDistinct(w: World, user: nat)
    requires Inv(w)
    ensures |LiveLogins(w, user).Values| == |Live(w, user)|
    ensures |FlightLogins(w, user).Values| == |InFlight(w, user)|
    ensures LiveLogins(w, user).Values !! FlightLogins(w, user).Values
    ensures Holders(w, user) <= LoginsOf(w, user)
  {
    hide RowsInv, TxInv, StampInv, AnswerInv, CacheInv, LoginsOf;
    LiveLoginsDistinct(w, user);
    FlightLoginsDistinct(w, user);
    var live, flight := LiveLogins(w, user), FlightLogins(w, user);
    forall l | l in live.Values ensures l !in flight.Values {
      var id :| id in live && live[id] == l;
      assert UnusedIn(w.rows, id);
    }
  }

  /** A user's unused rows plus rotations stamped but not yet created never exceed the logins. */
  lemma SessionsBoundedByLogins(now: int, es: seq<Event>, user: nat)
    requires Legal(Init(now), es)
    ensures var w := After(Init(now), es);
            |Live(w, user)| + |InFlight(w, user)| <= |LoginsOf(w, user)|
  {
    var w := After(Init(now), es);
    ReachableInv(now, es);
    HoldersDistinct(w, user);
    SubsetSize(Holders(w, user), LoginsOf(w, user));
  }

  /** Only a login can give a user a new live line; every other step of any caller keeps within
      the lines that were live before it. */
  lemma HoldersShrink(w: World, e: Event, user: nat)
    requires Inv(w) && Enabled(w, e) && !(e.Login? && e.user == user)
    ensures Holders(Apply(w, e), user) <= Holders(w, user)
  {
    var w' := Apply(w, e);
    forall l | l in Holders(w', user) ensures l in Holders(w, user) {
      if l in LiveLogins(w', user).Values {
        var id :| id in LiveLogins(w', user) && LiveLogins(w', user)[id] == l;
        LiveComesFrom(w, e, user, id);
      } else {
        var c :| c in FlightLogins(w', user) && FlightLogins(w', user)[c] == l;
        FlightComesFrom(w, e, user, c);
      }
    }
  }

  lemma LiveComesFrom(w: World, e: Event, user: nat, id: nat)
    requires Inv(w) && Enabled(w, e) && !(e.Login? && e.user == user)
    requires id in Live(Apply(w, e), user)
    ensures Apply(w, e).rows[id].login in Holders(w, user)
  {
    hide Inv, Apply, Enabled;
    if id in Live(w, user) {
      RowKeepsLogin(w, e, id);
      assert LiveLogins(w, user)[id] == w.rows[id].login;
    } else {
      OnlyCreationsAdd(w, e, user, id);
      assert FlightLogins(w, user)[e.caller] == w.callers[e.caller].login;
    }
  }

  lemma RowKeepsLogin(w: World, e: Event, id: nat)
    requires Inv(w) && Enabled(w, e) && id in w.rows && id in Apply(w, e).rows
    ensures Apply(w, e).rows[id].login == w.rows[id].login
  {
    hide Inv, Apply, Enabled;
    StepMovesTable(w, e);
    RowsAreBorn(w);
  }

  lemma OnlyCreationsAdd(w: World, e: Event, user: nat, id: nat)
    requires Inv(w) && Enabled(w, e) && !(e.Login? && e.user == user)
    requires id in Live(Apply(w, e), user) && id !in Live(w, user)
    ensures e.Create? && e.caller in InFlight(w, user) && Apply(w, e).rows[id].login == w.callers[e.caller].login
  {
    hide TxInv, StampInv, LineInv, AnswerInv, CacheInv;
  }

  lemma FlightComesFrom(w: World, e: Event, user: nat, c: nat)
    requires Inv(w) && Enabled(w, e)
    requires c in InFlight(Apply(w, e), user)
    ensures Apply(w, e).callers[c].login in Holders(w, user)
  {
    hide Inv, Apply, Enabled;
    StampedComesFrom(w, e, c);
    if c in InFlight(w, user) {
      assert FlightLogins(w, user)[c] == w.callers[c].login;
    } else {
      var id := w.callers[c].row;
      assert LiveLogins(w, user)[id] == w.rows[id].login;
    }
  }

  /** A stamped rotation was one before, or has just stamped the unused row it held. */
  lemma StampedComesFrom(w: World, e: Event, c: nat)
    requires Inv(w) && Enabled(w, e) && c in Apply(w, e).callers && Apply(w, e).callers[c].Stamped?
    ensures c in w.callers
    ensures var p, q := w.callers[c], Apply(w, e).callers[c];
            || p == q
            || (p.InTx? && UnusedIn(w.rows, p.row) && w.rows[p.row].user == q.user && w.rows[p.row].login == q.login)
  {
    hide RowsInv, StampInv, LineInv, AnswerInv, CacheInv, RowLocked;
    if e.Decide? && e.caller == c {
      HeldRow(w, c);
    }
  }

  ghost predicate NoLogin(es: seq<Event>, user: nat) {
    forall i :: 0 <= i < |es| ==> !(es[i].Login? && es[i].user == user)
  }

  lemma {:induction false} HoldersShrinkOverRun(w: World, es: seq<Event>, user: nat)
    requires Inv(w) && Legal(w, es) && NoLogin(es, user)
    ensures Holders(After(w, es), user) <= Holders(w, user)
  {
    if es != [] {
      var front := es[..|es| - 1];
      HoldersShrinkOverRun(w, front, user);
      RunKeepsInv(w, front);
      HoldersShrink(After(w, front), es[|es| - 1], user);
    }
  }

  // ---- Rejection is final ------------------------------------------------------------

  lemma RejectionStep(w: World, e: Event, id: nat)
    requires Inv(w) && Enabled(w, e) && id < |w.births| && !Accepts(w, id)
    ensures id < |Apply(w, e).births| && !Accepts(Apply(w, e), id)
  {
    hide Inv, Apply, Enabled;
    StepMovesTable(w, e);
  }

  /** Once the middleware rejects an issued session id, it rejects it in every later state. */
  lemma {:induction false} RejectedForever(w: World, es: seq<Event>, id: nat)
    requires Inv(w) && Legal(w, es) && id < |w.births| && !Accepts(w, id)
    ensures id < |After(w, es).births| && !Accepts(After(w, es), id)
  {
    if es != [] {
      var front := es[..|es| - 1];
      RejectedForever(w, front, id);
      RunKeepsInv(w, front);
      RejectionStep(After(w, front), es[|es| - 1], id);
    }
  }

  // ---- Replay ---------------------------------------------------------------------------

  /** A caller that missed the active row but meets a used one is a replay of that row's user, and
      its DELETE begins with every row the user then has. */
  lemma ReplayIsDetected(w: World, c: nat, id: nat)
    requires Inv(w) && Enabled(w, Inspect(c, Some(id))) && w.rows[id].usedAt.Some?
    ensures var w1, user := Apply(w, Inspect(c, Some(id))), w.rows[id].user;
            && w1.callers[c] == Replayed(user) && w1.rows == w.rows
            && Enabled(w1, BeginRevoke(c)) && Apply(w1, BeginRevoke(c)).callers[c] == Revoking(user, Owned(w, user))
  {
  }

  /** While the DELETE waits its caller stays as it began, unless it fails; and no row comes back. */
  lemma {:induction false} WhileRevoking(w: World, es: seq<Event>, c: nat)
    requires Inv(w) && Legal(w, es) && c in w.callers && w.callers[c].Revoking?
    ensures var v := After(w, es);
            && c in v.callers && (v.callers[c] == w.callers[c] || v.callers[c] == Refused)
            && |w.births| <= |v.births|
            && forall id :: id in v.rows && id < |w.births| ==> id in w.rows && w.rows[id].user == v.rows[id].user
  {
    hide Inv, Enabled, Apply;
    if es != [] {
      var front := es[..|es| - 1];
      WhileRevoking(w, front, c);
      RunKeepsInv(w, front);
      StaysRevoking(After(w, front), es[|es| - 1], c);
      NoRowComesBack(After(w, front), es[|es| - 1]);
    }
  }

  lemma StaysRevoking(w: World, e: Event, c: nat)
    requires Enabled(w, e) && c in w.callers && (w.callers[c].Revoking? || w.callers[c] == Refused)
    ensures c in Apply(w, e).callers && (Apply(w, e).callers[c] == w.callers[c] || Apply(w, e).callers[c] == Refused)
  {
  }

  lemma NoRowComesBack(w: World, e: Event)
    requires Inv(w) && Enabled(w, e)
    ensures |w.births| <= |Apply(w, e).births|
    ensures forall id :: id in Apply(w, e).rows && id < |w.births| ==> id in w.rows && w.rows[id].user == Apply(w, e).rows[id].user
  {
    hide Inv, Apply, Enabled;
    StepMovesTable(w, e);
  }

  /** Whatever runs while the DELETE waits for row locks: when it commits, no row the user had when
      it began is left, rotated meanwhile or not; what is left of the user was inserted while it
      waited, so nothing if it did not wait; and nobody else loses a row. */
  lemma ReplayRevokesEverything(w: World, c: nat, es: seq<Event>)
    requires Inv(w) && Enabled(w, BeginRevoke(c)) && Legal(Apply(w, BeginRevoke(c)), es)
    requires Enabled(After(Apply(w, BeginRevoke(c)), es), RevokeAll(c))
    ensures var user, v := w.callers[c].user, After(Apply(w, BeginRevoke(c)), es);
            var v' := Apply(v, RevokeAll(c));
            && Owned(w, user) !! v'.rows.Keys
            && (forall id :: id in Owned(v', user) ==> |w.births| <= id < |v'.births|)
            && (es == [] ==> Owned(v', user) == {})
            && forall id :: id in v.rows && v.rows[id].user != user ==> id in v'.rows && v'.rows[id] == v.rows[id]
  {
    hide Enabled, Apply;
    BegunRevoke(w, c);
    var user, w1 := w.callers[c].user, Apply(w, BeginRevoke(c));
    var v := After(w1, es);
    StepKeepsInv(w, BeginRevoke(c));
    RunKeepsInv(w1, es);
    WhileRevoking(w1, es, c);
    RevokeEnds(v, c);
    RowsAreBorn(v);
    forall id | id in v.rows && id in Owned(w, user) ensures v.rows[id].user == user {
      RowsAreBorn(w);
    }
  }

  lemma BegunRevoke(w: World, c: nat)
    requires Enabled(w, BeginRevoke(c))
    ensures c in w.callers && w.callers[c].Replayed?
    ensures var w1, user := Apply(w, BeginRevoke(c)), w.callers[c].user;
            w1.rows == w.rows && w1.births == w.births && c in w1.callers && w1.callers[c] == Revoking(user, Owned(w, user))
  {
  }

  lemma RevokeEnds(w: World, c: nat)
    requires Enabled(w, RevokeAll(c))
    ensures c in w.callers && w.callers[c].Revoking?
    ensures Apply(w, RevokeAll(c)).rows == w.rows - w.callers[c].ids && Apply(w, RevokeAll(c)).births == w.births
  {
  }

  predicate InsertedByRotation(w: World, from: nat, user: nat) {
    forall id :: id in w.rows && from <= id < |w.births| && w.rows[id].user == user ==> w.births[id].parent.Some?
  }

  lemma InsertionStep(w: World, e: Event, from: nat, user: nat)
    requires Inv(w) && Enabled(w, e) && !(e.Login? && e.user == user) && InsertedByRotation(w, from, user)
    ensures InsertedByRotation(Apply(w, e), from, user)
  {
    hide Inv, RowLocked;
    RowsAreBorn(w);
    match e
    case Create(_, _, _) =>
    case Login(_, _, _) =>
    case _ =>
      StepMovesTable(w, e);
      BirthsLeft(w, e);
  }

  lemma BirthsLeft(w: World, e: Event)
    requires Enabled(w, e) && !e.Create? && !e.Login?
    ensures Apply(w, e).births == w.births
  {
    hide RowLocked;
  }

  lemma {:induction false} InsertionsWhileWaiting(w: World, es: seq<Event>, user: nat)
    requires Inv(w) && Legal(w, es) && NoLogin(es, user)
    ensures InsertedByRotation(After(w, es), |w.births|, user)
  {
    hide Inv, Enabled, Apply, InsertedByRotation;
    if es == [] {
      NothingInserted(w, user);
    } else {
      var front := es[..|es| - 1];
      InsertionsWhileWaiting(w, front, user);
      RunKeepsInv(w, front);
      InsertionStep(After(w, front), es[|es| - 1], |w.births|, user);
    }
  }

  lemma NothingInserted(w: World, user: nat)
    ensures InsertedByRotation(w, |w.births|, user)
  {
  }

  /** A live row a revocation leaves behind, on the line of `login`: one inserted while it waited. */
  ghost predicate SurvivingRow(v: World, user: nat, from: nat, login: nat) {
    exists j :: j in Live(v, user) && from <= j < |v.births| && v.rows[j].login == login
  }

  /** After any revocation, however long its DELETE waited, and until the user logs in again: every
      session the user can hold descends from a rotation in flight when the DELETE committed, or from
      a row inserted while it waited, which was inserted by a rotation unless the user logged in
      meanwhile. If the DELETE did not wait and no rotation is in flight, there is none, ever. */
  lemma OnlyFlightsSurviveRevocation(w: World, c: nat, waiting: seq<Event>, later: seq<Event>)
    requires Inv(w) && Enabled(w, BeginRevoke(c)) && Legal(Apply(w, BeginRevoke(c)), waiting)
    requires Enabled(After(Apply(w, BeginRevoke(c)), waiting), RevokeAll(c))
    requires var v := Apply(After(Apply(w, BeginRevoke(c)), waiting), RevokeAll(c));
             Legal(v, later) && NoLogin(later, w.callers[c].user)
    ensures var user, v := w.callers[c].user, Apply(After(Apply(w, BeginRevoke(c)), waiting), RevokeAll(c));
            && (forall id :: id in Live(After(v, later), user) ==>
                  var login := After(v, later).rows[id].login;
                  login in FlightLogins(v, user).Values || SurvivingRow(v, user, |w.births|, login))
            && (NoLogin(waiting, user) ==> InsertedByRotation(v, |w.births|, user))
            && (waiting == [] ==> Live(v, user) == {})
            && (waiting == [] && InFlight(v, user) == {} ==> Live(After(v, later), user) == {})
  {
    hide Inv, Apply, Enabled, InsertedByRotation, NoLogin;
    BegunRevoke(w, c);
    var user, w1 := w.callers[c].user, Apply(w, BeginRevoke(c));
    var u := After(w1, waiting);
    var v := Apply(u, RevokeAll(c));
    ReplayRevokesEverything(w, c, waiting);
    StepKeepsInv(w, BeginRevoke(c));
    RunKeepsInv(w1, waiting);
    StepKeepsInv(u, RevokeAll(c));
    if NoLogin(waiting, user) {
      InsertionsWhileWaiting(w1, waiting, user);
      InsertionStep(u, RevokeAll(c), |w.births|, user);
    }
    SurvivorsHold(v, later, user, |w.births|);
    assert Live(v, user) <= Owned(v, user);
    if waiting == [] && InFlight(v, user) == {} {
      NothingHeld(v, later, user);
    }
  }

  lemma SurvivorsHold(v: World, later: seq<Event>, user: nat, from: nat)
    requires Inv(v) && Legal(v, later) && NoLogin(later, user)
    requires forall id :: id in Owned(v, user) ==> from <= id < |v.births|
    ensures forall id :: id in Live(After(v, later), user) ==>
              var login := After(v, later).rows[id].login;
              login in FlightLogins(v, user).Values || SurvivingRow(v, user, from, login)
  {
    hide Inv, Apply, Enabled, NoLogin;
    HoldersShrinkOverRun(v, later, user);
    var v' := After(v, later);
    forall id | id in Live(v', user)
      ensures v'.rows[id].login in FlightLogins(v, user).Values || SurvivingRow(v, user, from, v'.rows[id].login)
    {
      var login := v'.rows[id].login;
      assert id in LiveLogins(v', user) && LiveLogins(v', user)[id] == login;
      assert login in Holders(v', user) && login in Holders(v, user);
      if login in LiveLogins(v, user).Values {
        var j :| j in LiveLogins(v, user) && LiveLogins(v, user)[j] == login;
        assert j in Live(v, user) && j in Owned(v, user) && v.rows[j].login == login;
      }
    }
  }

  lemma NothingHeld(v: World, later: seq<Event>, user: nat)
    requires Inv(v) && Legal(v, later) && NoLogin(later, user) && Live(v, user) == {} && InFlight(v, user) == {}
    ensures Live(After(v, later), user) == {}
  {
    hide Inv, Apply, Enabled, NoLogin;
    HoldersShrinkOverRun(v, later, user);
    assert LiveLogins(v, user) == map[] && FlightLogins(v, user) == map[];
    RunKeepsInv(v, later);
    HoldersDistinct(After(v, later), user);
    assert LiveLogins(After(v, later), user).Values <= Holders(v, user) == {};
  }

  // ---- The result cache -------------------------------------------------------------------

  /** No two issued tokens share the 16-character prefix; in particular none is issued twice. */
  ghost predicate SeparatePrefixes(births: seq<Birth>) {
    forall i, j :: 0 <= i < |births| && 0 <= j < |births| && births[i].token.prefix == births[j].token.prefix ==> i == j
  }

  /** Whatever a caller is served, cached or not, is the answer of the one rotation of the row
      that its own token opened. */
  lemma ServedOwnRotation(now: int, es: seq<Event>, c: nat)
    requires Legal(Init(now), es)
    requires var w := After(Init(now), es);
             && SeparatePrefixes(w.births) && c in w.callers && w.callers[c].Served?
             // the presented token collides with no other issued token
             && (forall i :: 0 <= i < |w.births| && w.births[i].token.prefix == w.callers[c].token.prefix ==>
                   w.births[i].token == w.callers[c].token)
    ensures var w := After(Init(now), es);
            exists id: nat :: id < |w.births| && w.births[id].token == w.callers[c].token
              && id in w.answers && w.answers[id] == w.callers[c].response && w.stamps[id] == 1
              && forall j :: 0 <= j < |w.births| && w.births[j].token == w.callers[c].token ==> j == id
  {
    var w := After(Init(now), es);
    ReachableInv(now, es);
    var r := w.callers[c].response;
    assert Recorded(w.births, w.answers, w.callers[c].token.prefix, r);
    var id := w.births[r.session].parent.value;
    assert w.stamps[id] == 1;
    assert w.births[id].token == w.callers[c].token;
  }

  /** A published result never meets an older one under its key: nothing is overwritten. */
  lemma NothingIsOverwritten(now: int, es: seq<Event>, c: nat)
    requires Legal(Init(now), es) && Enabled(After(Init(now), es), Publish(c))
    requires SeparatePrefixes(After(Init(now), es).births)
    ensures var w := After(Init(now), es);
            w.callers[c].token.prefix !in w.cache
  {
    var w := After(Init(now), es);
    ReachableInv(now, es);
    var p := w.callers[c];
    if p.token.prefix in w.cache {
      assert false;
    }
  }

  // ---- Where the separation of prefixes is needed ---------------------------------------------

  lemma Extends(start: World, es: seq<Event>, w: World, e: Event)
    requires Legal(start, es) && After(start, es) == w && Enabled(w, e)
    ensures Legal(start, es + [e]) && After(start, es + [e]) == Apply(w, e)
  {
    assert (es + [e])[..|es + [e]| - 1] == es;
  }

  function RotationEvents(c: nat, token: Token, id: nat): seq<Event> {
    [Ask(c, token)] + [TryLock(c)] + [Find(c, id)] + [Decide(c)]
  }

  function Rotated(w: World, c: nat, id: nat): World
    requires id in w.rows
  {
    var row := w.rows[id];
    w.(rows := w.rows[id := row.(usedAt := Some(w.now))], stamps := w.stamps + multiset{id},
       locks := w.locks + {row.token.prefix},
       callers := w.callers[c := Stamped(row.token, id, row.user, row.login)])
  }

  predicate CanRotate(w: World, c: nat, id: nat) {
    && c !in w.callers && Accepts(w, id) && w.rows[id].token.prefix !in w.locks
    && forall d :: d in w.callers ==> !w.callers[d].InTx?
  }

  lemma AsksNext(w: World, c: nat, id: nat)
    requires CanRotate(w, c, id)
    ensures var token := w.rows[id].token;
            && Enabled(w, Ask(c, token)) && Apply(w, Ask(c, token)) == Put(w, c, Asked(token))
  {
  }

  lemma LocksNext(w: World, c: nat, token: Token)
    requires c in w.callers && w.callers[c] == Asked(token) && token.prefix !in w.locks
    ensures Enabled(w, TryLock(c))
    ensures Apply(w, TryLock(c)) == Put(w.(locks := w.locks + {token.prefix}), c, Locked(token))
  {
  }

  lemma FindsNext(w: World, c: nat, id: nat)
    requires c in w.callers && id in w.rows && w.callers[c] == Locked(w.rows[id].token) && w.rows[id].usedAt.None?
    requires forall d :: d in w.callers ==> !w.callers[d].InTx?
    ensures Enabled(w, Find(c, id)) && Apply(w, Find(c, id)) == Put(w, c, InTx(w.rows[id].token, id))
  {
  }

  lemma DecidesNext(w: World, c: nat, id: nat)
    requires c in w.callers && id in w.rows && w.callers[c] == InTx(w.rows[id].token, id) && !(w.rows[id].expiresAt < w.now)
    ensures Enabled(w, Decide(c)) && Apply(w, Decide(c)) == Decision(w, c, w.rows[id].token, id)
  {
  }

  /** Alone, a caller with a valid token gets through the lock and the transaction. */
  lemma RotatesNext(start: World, es: seq<Event>, w: World, c: nat, id: nat)
    requires Legal(start, es) && After(start, es) == w && CanRotate(w, c, id)
    ensures var more := es + RotationEvents(c, w.rows[id].token, id);
            Legal(start, more) && After(start, more) == Rotated(w, c, id)
  {
    hide Legal, After, Enabled, Apply;
    var token := w.rows[id].token;
    var w1 := Put(w, c, Asked(token));
    var w2 := Put(w1.(locks := w.locks + {token.prefix}), c, Locked(token));
    var w3 := Put(w2, c, InTx(token, id));
    AsksNext(w, c, id);
    Extends(start, es, w, Ask(c, token));
    LocksNext(w1, c, token);
    Extends(start, es + [Ask(c, token)], w1, TryLock(c));
    FindsNext(w2, c, id);
    Extends(start, es + [Ask(c, token)] + [TryLock(c)], w2, Find(c, id));
    DecidesNext(w3, c, id);
    assert Decision(w3, c, token, id) == Rotated(w, c, id);
    Extends(start, es + [Ask(c, token)] + [TryLock(c)] + [Find(c, id)], w3, Decide(c));
    assert es + RotationEvents(c, token, id)
        == es + [Ask(c, token)] + [TryLock(c)] + [Find(c, id)] + [Decide(c)];
  }

  function FinishEvents(c: nat, minted: Token): seq<Event> {
    [Create(c, minted, 60)] + [Publish(c)]
  }

  function Finished(w: World, c: nat, minted: Token): World
    requires c in w.callers && w.callers[c].Stamped?
  {
    var p := w.callers[c];
    var response := Response(|w.births|, minted);
    w.(rows := w.rows[|w.births| := Row(p.user, minted, w.now + 60, None, p.login)],
       births := w.births + [Birth(minted, Some(p.row))],
       answers := w.answers[p.row := response],
       cache := w.cache[p.token.prefix := response],
       callers := w.callers[c := Served(p.token, response)])
  }

  lemma CreatesNext(w: World, c: nat, minted: Token)
    requires c in w.callers && w.callers[c].Stamped? && TokenFree(w.rows, minted)
    ensures Enabled(w, Create(c, minted, 60)) && Enabled(Apply(w, Create(c, minted, 60)), Publish(c))
    ensures var p, response, v := w.callers[c], Response(|w.births|, minted), Apply(w, Create(c, minted, 60));
            && v.callers == w.callers[c := Created(p.token, p.row, response)] && v.cache == w.cache
            && v.births == w.births + [Birth(minted, Some(p.row))]
            && Apply(v, Publish(c)) == Finished(w, c, minted)
  {
  }

  lemma FinishesNext(start: World, es: seq<Event>, w: World, c: nat, minted: Token)
    requires Legal(start, es) && After(start, es) == w
    requires c in w.callers && w.callers[c].Stamped? && TokenFree(w.rows, minted)
    ensures var more := es + FinishEvents(c, minted);
            Legal(start, more) && After(start, more) == Finished(w, c, minted)
  {
    hide Legal, After, Enabled, Apply;
    CreatesNext(w, c, minted);
    var w1 := Apply(w, Create(c, minted, 60));
    Extends(start, es, w, Create(c, minted, 60));
    Extends(start, es + [Create(c, minted, 60)], w1, Publish(c));
    assert es + FinishEvents(c, minted) == es + [Create(c, minted, 60)] + [Publish(c)];
  }

  function TwoLogins(u0: nat, t0: Token, u1: nat, t1: Token): World {
    Init(0).(rows := map[0 := Row(u0, t0, 60, None, 0), 1 := Row(u1, t1, 60, None, 1)],
             births := [Birth(t0, None), Birth(t1, None)], logins := [u0, u1])
  }

  lemma TwoLoginsReached(u0: nat, t0: Token, u1: nat, t1: Token)
    requires t0 != t1
    ensures var es := [Login(u0, t0, 60)] + [Login(u1, t1, 60)];
            Legal(Init(0), es) && After(Init(0), es) == TwoLogins(u0, t0, u1, t1)
  {
    var start := Init(0);
    Extends(start, [], start, Login(u0, t0, 60));
    assert [] + [Login(u0, t0, 60)] == [Login(u0, t0, 60)];
    var w1 := Apply(start, Login(u0, t0, 60));
    Extends(start, [Login(u0, t0, 60)], w1, Login(u1, t1, 60));
    assert Apply(w1, Login(u1, t1, 60)) == TwoLogins(u0, t0, u1, t1);
  }

  /** Two sessions are opened, and the second is rotated to the end. */
  function SecondRotated(u0: nat, t0: Token, u1: nat, t1: Token, minted: Token): World {
    Finished(Rotated(TwoLogins(u0, t0, u1, t1), 0, 1), 0, minted)
  }

  lemma SecondRotatedReached(u0: nat, t0: Token, u1: nat, t1: Token, minted: Token) returns (es: seq<Event>)
    requires t0 != t1 && minted != t0 && minted != t1
    ensures Legal(Init(0), es) && After(Init(0), es) == SecondRotated(u0, t0, u1, t1, minted)
  {
    hide Legal, After;
    var start, w0 := Init(0), TwoLogins(u0, t0, u1, t1);
    var es0 := [Login(u0, t0, 60)] + [Login(u1, t1, 60)];
    TwoLoginsReached(u0, t0, u1, t1);
    RotatesNext(start, es0, w0, 0, 1);
    var es1 := es0 + RotationEvents(0, t1, 1);
    FinishesNext(start, es1, Rotated(w0, 0, 1), 0, minted);
    es := es1 + FinishEvents(0, minted);
  }

  /** Whenever two different tokens share the prefix, of two users or of one, some run answers a
      refresh of the first session with the rotation of the second: separation cannot be dropped. */
  lemma SharedPrefixMisserves(u0: nat, mine: Token, u1: nat, theirs: Token, minted: Token)
    requires mine.prefix == theirs.prefix && mine != theirs && minted != mine && minted != theirs
    ensures exists es :: Legal(Init(0), es)
              && var w := After(Init(0), es);
                 && 0 in w.rows && w.rows[0].token == mine && w.rows[0].user == u0 && w.rows[0].usedAt.None?
                 && 1 in w.callers && w.callers[1] == Served(mine, Response(2, minted))
                 && 2 in w.rows && w.rows[2].token == minted && w.rows[2].user == u1
                 && |w.births| == 3 && w.births[2] == Birth(minted, Some(1))
  {
    hide Legal, After;
    var es2 := SecondRotatedReached(u0, mine, u1, theirs, minted);
    var w2 := SecondRotated(u0, mine, u1, theirs, minted);
    WaiterIsServed(Init(0), es2, w2, 1, mine);
    var es3 := es2 + [Ask(1, mine)] + [TryLock(1)] + [Poll(1)];
    assert After(Init(0), es3) == Put(w2, 1, Served(mine, Response(2, minted)));
  }

  lemma LockMayExpire(w: World, prefix: nat, v: World)
    requires prefix in w.locks && v == w.(locks := w.locks - {prefix})
    ensures Enabled(w, LockExpires(prefix)) && Apply(w, LockExpires(prefix)) == v
  {
  }

  /** And some run publishes a result over a different one, though no token is ever issued twice: the
      lock on the shared prefix outlives neither the first rotation nor its cached result. */
  lemma SharedPrefixOverwrites(u0: nat, t0: Token, u1: nat, t1: Token, a: Token, b: Token)
    requires t0.prefix == t1.prefix && t0 != t1 && a != t0 && a != t1 && b != t0 && b != t1 && a != b
    ensures exists es :: Legal(Init(0), es)
              && var w := After(Init(0), es);
                 && Enabled(w, Publish(1)) && w.callers[1].token == t0
                 && t0.prefix in w.cache && w.cache[t0.prefix] != w.callers[1].response
                 && forall i, j :: 0 <= i < j < |w.births| ==> w.births[i].token != w.births[j].token
  {
    hide Legal, After, Enabled, Apply, SecondRotated, Rotated;
    var start := Init(0);
    var es2 := SecondRotatedReached(u0, t0, u1, t1, a);
    var w2 := SecondRotated(u0, t0, u1, t1, a);
    var w3, w4 := BothRotated(u0, t0, u1, t1, a, b);
    LockMayExpire(w2, t0.prefix, w3);
    Extends(start, es2, w2, LockExpires(t0.prefix));
    var es3 := es2 + [LockExpires(t0.prefix)];
    RotatesNext(start, es3, w3, 1, 0);
    var es4 := es3 + RotationEvents(1, t0, 0);
    CreatesNext(w4, 1, b);
    Extends(start, es4, w4, Create(1, b, 60));
    var w5 := After(start, es4 + [Create(1, b, 60)]);
    assert w5.births == [Birth(t0, None), Birth(t1, None), Birth(a, Some(1)), Birth(b, Some(0))];
  }

  /** The lock has expired after the second session's rotation, and the first session's has stamped. */
  lemma BothRotated(u0: nat, t0: Token, u1: nat, t1: Token, a: Token, b: Token) returns (w3: World, w4: World)
    requires t0.prefix == t1.prefix && t0 != t1 && a != t0 && a != t1 && b != t0 && b != t1 && a != b
    ensures var w2 := SecondRotated(u0, t0, u1, t1, a);
            && t0.prefix in w2.locks && w3 == w2.(locks := w2.locks - {t0.prefix})
            && CanRotate(w3, 1, 0) && w3.rows[0].token == t0 && w4 == Rotated(w3, 1, 0)
    ensures 1 in w4.callers && w4.callers[1] == Stamped(t0, 0, u0, 0) && TokenFree(w4.rows, b)
    ensures t0.prefix in w4.cache && w4.cache[t0.prefix] == Response(2, a)
    ensures w4.births == [Birth(t0, None), Birth(t1, None), Birth(a, Some(1))]
  {
    var w2 := SecondRotated(u0, t0, u1, t1, a);
    w3 := w2.(locks := w2.locks - {t0.prefix});
    w4 := Rotated(w3, 1, 0);
  }

  /** A caller that finds the lock taken is served whatever the cache holds for its prefix. */
  lemma WaiterIsServed(start: World, es: seq<Event>, w: World, c: nat, token: Token)
    requires Legal(start, es) && After(start, es) == w
    requires c !in w.callers && token.prefix in w.locks && token.prefix in w.cache
    ensures var more := es + [Ask(c, token)] + [TryLock(c)] + [Poll(c)];
            Legal(start, more) && After(start, more) == Put(w, c, Served(token, w.cache[token.prefix]))
  {
    hide Legal, After;
    var w1 := Put(w, c, Asked(token));
    var w2 := Put(w, c, Waiting(token, 0));
    Extends(start, es, w, Ask(c, token));
    assert Apply(w1, TryLock(c)) == w2;
    Extends(start, es + [Ask(c, token)], w1, TryLock(c));
    assert Apply(w2, Poll(c)) == Put(w, c, Served(token, w.cache[token.prefix]));
    Extends(start, es + [Ask(c, token)] + [TryLock(c)], w2, Poll(c));
  }

  function LoggedIn(w: World, user: nat, token: Token): World {
    Insert(w, user, token, 60, |w.logins|, None).(logins := w.logins + [user])
  }

  /** The first row of `token` is rotated, deleted by a logout, and the lock has expired. */
  function LoggedOutInFlight(token: Token): World {
    DeleteRows(Rotated(LoggedIn(Init(0), 10, token), 0, 0), {0}).(locks := {})
  }

  /** Two rotations of one re-issued token, the first still in flight when the second stamps. */
  function Reissued(token: Token): World {
    Rotated(LoggedIn(LoggedOutInFlight(token), 10, token), 1, 1)
  }

  lemma NothingRuns(w: World)
    ensures Legal(w, []) && After(w, []) == w
  {
  }

  lemma LogsInNext(w: World, user: nat, token: Token)
    requires TokenFree(w.rows, token)
    ensures Enabled(w, Login(user, token, 60)) && Apply(w, Login(user, token, 60)) == LoggedIn(w, user, token)
  {
  }

  lemma LogsOutNext(w: World, ids: set<nat>)
    requires forall c :: c in w.callers ==> !w.callers[c].InTx?
    ensures Enabled(w, Delete(ids)) && Apply(w, Delete(ids)) == DeleteRows(w, ids)
  {
  }

  lemma LogoutInFlightReached(token: Token)
    ensures exists es :: Legal(Init(0), es) && After(Init(0), es) == LoggedOutInFlight(token)
  {
    hide Legal, After, Enabled, Apply;
    var start := Init(0);
    var w0 := LoggedIn(start, 10, token);
    NothingRuns(start);
    LogsInNext(start, 10, token);
    Extends(start, [], start, Login(10, token, 60));
    var es0 := [] + [Login(10, token, 60)];
    RotatesNext(start, es0, w0, 0, 0);
    var es1, w1 := es0 + RotationEvents(0, token, 0), Rotated(w0, 0, 0);
    LogsOutNext(w1, {0});
    Extends(start, es1, w1, Delete({0}));
    var w2 := DeleteRows(w1, {0});
    LockMayExpire(w2, token.prefix, LoggedOutInFlight(token));
    Extends(start, es1 + [Delete({0})], w2, LockExpires(token.prefix));
  }

  lemma ReissueReached(token: Token)
    ensures exists es :: Legal(Init(0), es) && After(Init(0), es) == Reissued(token)
  {
    hide Legal, After, Enabled, Apply;
    var start := Init(0);
    LogoutInFlightReached(token);
    var es :| Legal(start, es) && After(start, es) == LoggedOutInFlight(token);
    var w := LoggedOutInFlight(token);
    LogsInNext(w, 10, token);
    Extends(start, es, w, Login(10, token, 60));
    var w1 := LoggedIn(w, 10, token);
    assert w1.rows[1].token == token;
    RotatesNext(start, es + [Login(10, token, 60)], w1, 1, 1);
  }

  /** The unique constraint keeps a token fresh only against the rows still stored: for every token,
      a run that deletes its row and issues it again lets one published result overwrite another. */
  lemma ReissuedTokenOverwrites(token: Token, a: Token, b: Token)
    requires a != token && b != token && a != b
    ensures exists es :: Legal(Init(0), es)
              && var w := After(Init(0), es);
                 && Enabled(w, Publish(1)) && w.callers[1].token == token
                 && token.prefix in w.cache && w.cache[token.prefix] != w.callers[1].response
  {
    hide Legal, After, Enabled, Apply, Reissued, Finished;
    var start := Init(0);
    ReissueReached(token);
    var es0 :| Legal(start, es0) && After(start, es0) == Reissued(token);
    var w0, w1 := FirstFinishes(token, a, b);
    FinishesNext(start, es0, w0, 0, a);
    var es1 := es0 + FinishEvents(0, a);
    CreatesNext(w1, 1, b);
    Extends(start, es1, w1, Create(1, b, 60));
    assert After(start, es1 + [Create(1, b, 60)]).callers[1].response == Response(3, b);
  }

  /** The first of the two rotations comes to its end, the second is still stamped. */
  lemma FirstFinishes(token: Token, a: Token, b: Token) returns (w0: World, w1: World)
    requires a != token && b != token && a != b
    ensures w0 == Reissued(token) && 0 in w0.callers && w0.callers[0].Stamped? && TokenFree(w0.rows, a)
    ensures w1 == Finished(w0, 0, a) && 1 in w1.callers && w1.callers[1] == Stamped(token, 1, 10, 1) && TokenFree(w1.rows, b)
    ensures token.prefix in w1.cache && w1.cache[token.prefix] == Response(2, a) && |w1.births| == 3
  {
    w0 := Reissued(token);
    w1 := Finished(w0, 0, a);
  }

  /** A waiter polls the cache at most twice, then is served or refused. */
  lemma WaiterPollsAtMostTwice(w: World, c: nat)
    requires c in w.callers && w.callers[c].Waiting? && w.callers[c].polls == 0
    ensures var w1 := Apply(w, Poll(c));
            && (ResultIsCached(w, c) <==> w1.callers[c].Served?)
            && (!w1.callers[c].Served? ==>
                  Enabled(w1, Poll(c)) && Apply(w1, Poll(c)).callers[c] == Refused)
  {
  }

  predicate ResultIsCached(w: World, c: nat)
    requires c in w.callers && w.callers[c].Waiting?
  {
    w.callers[c].token.prefix in w.cache
  }
}
