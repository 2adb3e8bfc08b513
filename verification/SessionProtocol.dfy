/** Refresh-token rotation as a protocol: any number of callers interleave, one await at a
    time, over the user_sessions table, a Redis lock that only expires, and a result cache.
    An event is one step between two awaits; what the environment chooses (timing, fresh
    tokens, failures) is an argument of the event. */
module SessionProtocol {
  import opened Text

  /** sha256 of a refresh token, cut after the 16 characters that key the lock and the cache. */
  datatype Token = Token(prefix: nat, rest: nat)

  /** A user_sessions row. `login` is history: the login this row descends from. */
  datatype Row = Row(user: nat, token: Token, expiresAt: int, usedAt: Option<int>, login: nat)

  /** An AuthResponseDto, identified by the session it opens and the refresh token it carries. */
  datatype Response = Response(session: nat, token: Token)

  /** Where one call of `refresh` stands. */
  datatype Phase =
    | Asked(token: Token)
    | Waiting(token: Token, polls: nat)
    | Locked(token: Token)
    | InTx(token: Token, row: nat)
    | Missed(token: Token)
    | Replayed(user: nat)
    | Revoking(user: nat, ids: set<nat>)
    | Stamped(token: Token, row: nat, user: nat, login: nat)
    | Created(token: Token, row: nat, response: Response)
    | Served(token: Token, response: Response)
    | Refused

  /** History of one inserted row: its token, and the row it was rotated from, if any. */
  datatype Birth = Birth(token: Token, parent: Option<nat>)

  const MAX_POLLS: nat := 2

  datatype World = World(
    rows: map<nat, Row>,
    locks: set<nat>,
    cache: map<nat, Response>,
    now: int,
    callers: map<nat, Phase>,
    // History, never read by a step's guard: row ids are births in order, so uuids are fresh.
    births: seq<Birth>,
    logins: seq<nat>,
    stamps: multiset<nat>,
    answers: map<nat, Response>
  )

  datatype Event =
    | Ask(caller: nat, token: Token)
    | TryLock(caller: nat)
    | Poll(caller: nat)
    | Find(caller: nat, row: nat)
    | Miss(caller: nat)
    | Decide(caller: nat)
    | Inspect(caller: nat, found: Option<nat>)
    | BeginRevoke(caller: nat)
    | RevokeAll(caller: nat)
    | Create(caller: nat, token: Token, lifetime: nat)
    | Publish(caller: nat)
    | Fail(caller: nat)
    | LockExpires(prefix: nat)
    | CacheExpires(prefix: nat)
    | Login(user: nat, token: Token, lifetime: nat)
    | Delete(ids: set<nat>)
    | Tick(elapsed: nat)

  function Init(now: int): World {
    World(map[], {}, map[], now, map[], [], [], multiset{}, map[])
  }

  // ---- Steps -------------------------------------------------------------------

  predicate At(w: World, c: nat) {
    c in w.callers
  }

  /** Some transaction holds the row lock of `id`. */
  ghost predicate RowLocked(w: World, id: nat) {
    exists c :: At(w, c) && w.callers[c].InTx? && w.callers[c].row == id
  }

  predicate Unused(w: World, id: nat) {
    id in w.rows && w.rows[id].usedAt.None?
  }

  predicate TokenFree(rows: map<nat, Row>, token: Token) {
    forall id :: id in rows ==> rows[id].token != token
  }

  function Owned(w: World, user: nat): set<nat> {
    set id | id in w.rows && w.rows[id].user == user
  }

  ghost predicate Deletable(w: World, ids: set<nat>) {
    forall id :: id in ids && id in w.rows ==> !RowLocked(w, id)
  }

  /** `findByToken`: the row that carries the token, used or not. */
  predicate FoundByToken(w: World, token: Token, found: Option<nat>) {
    if found.Some? then found.value in w.rows && w.rows[found.value].token == token
    else TokenFree(w.rows, token)
  }

  ghost predicate Enabled(w: World, e: Event) {
    match e
    case Ask(c, _) => !At(w, c)
    case TryLock(c) => At(w, c) && w.callers[c].Asked?
    case Poll(c) => At(w, c) && w.callers[c].Waiting? && w.callers[c].polls < MAX_POLLS
    // SELECT ... FOR UPDATE finds the unused row, or waits while another transaction holds it.
    case Find(c, id) =>
      && At(w, c) && w.callers[c].Locked?
      && Unused(w, id) && w.rows[id].token == w.callers[c].token && !RowLocked(w, id)
    case Miss(c) =>
      && At(w, c) && w.callers[c].Locked?
      && forall id :: Unused(w, id) ==> w.rows[id].token != w.callers[c].token
    case Decide(c) => At(w, c) && w.callers[c].InTx? && w.callers[c].row in w.rows
    case Inspect(c, found) =>
      At(w, c) && w.callers[c].Missed? && FoundByToken(w, w.callers[c].token, found)
    case BeginRevoke(c) => At(w, c) && w.callers[c].Replayed?
    // The DELETE waits until no transaction holds a row it found when it began.
    case RevokeAll(c) => At(w, c) && w.callers[c].Revoking? && Deletable(w, w.callers[c].ids)
    // The unique constraint on session_token admits only a token no row carries.
    case Create(c, token, _) => At(w, c) && w.callers[c].Stamped? && TokenFree(w.rows, token)
    case Publish(c) => At(w, c) && w.callers[c].Created?
    // A database, Redis or signing failure, or a crash: whatever was not committed is rolled back.
    case Fail(c) => At(w, c) && !w.callers[c].Served? && !w.callers[c].Refused?
    case LockExpires(p) => p in w.locks
    case CacheExpires(p) => p in w.cache
    case Login(_, token, _) => TokenFree(w.rows, token)
    case Delete(ids) => Deletable(w, ids)
    case Tick(_) => true
  }

  function Put(w: World, c: nat, phase: Phase): World {
    w.(callers := w.callers[c := phase])
  }

  /** `createSession`: one INSERT of an unused row with a fresh id. */
  function Insert(w: World, user: nat, token: Token, lifetime: nat, login: nat, parent: Option<nat>): World {
    w.(rows := w.rows[|w.births| := Row(user, token, w.now + lifetime, None, login)],
       births := w.births + [Birth(token, parent)])
  }

  function DeleteRows(w: World, ids: set<nat>): World {
    w.(rows := w.rows - ids)
  }

  function AfterPoll(w: World, token: Token, polls: nat): Phase {
    if token.prefix in w.cache then Served(token, w.cache[token.prefix])
    else if polls + 1 == MAX_POLLS then Refused
    else Waiting(token, polls + 1)
  }

  /** The end of the transaction: an expired session is refused and the whole transaction rolled
      back (its DELETE included); otherwise `used_at` is stamped and committed. */
  function Decision(w: World, c: nat, token: Token, id: nat): World
    requires id in w.rows
  {
    var row := w.rows[id];
    var refused := row.expiresAt < w.now;
    var rows := if refused then w.rows else w.rows[id := row.(usedAt := Some(w.now))];
    var stamps := if refused then w.stamps else w.stamps + multiset{id};
    Put(w.(rows := rows, stamps := stamps), c, if refused then Refused else Stamped(token, id, row.user, row.login))
  }

  function Creation(w: World, c: nat, p: Phase, token: Token, lifetime: nat): World
    requires p.Stamped?
  {
    var response := Response(|w.births|, token);
    Put(Insert(w, p.user, token, lifetime, p.login, Some(p.row)).(answers := w.answers[p.row := response]),
        c, Created(p.token, p.row, response))
  }

  ghost function Apply(w: World, e: Event): World
    requires Enabled(w, e)
  {
    match e
    case Ask(c, token) => Put(w, c, Asked(token))
    case TryLock(c) =>
      var token := w.callers[c].token;
      var busy := token.prefix in w.locks;
      Put(w.(locks := if busy then w.locks else w.locks + {token.prefix}), c, if busy then Waiting(token, 0) else Locked(token))
    case Poll(c) => Put(w, c, AfterPoll(w, w.callers[c].token, w.callers[c].polls))
    case Find(c, id) => Put(w, c, InTx(w.callers[c].token, id))
    case Miss(c) => Put(w, c, Missed(w.callers[c].token))
    case Decide(c) => Decision(w, c, w.callers[c].token, w.callers[c].row)
    case Inspect(c, found) =>
      Put(w, c, if found.Some? && w.rows[found.value].usedAt.Some? then Replayed(w.rows[found.value].user) else Refused)
    case BeginRevoke(c) =>
      var user := w.callers[c].user;
      Put(w, c, Revoking(user, Owned(w, user)))
    case RevokeAll(c) => Put(DeleteRows(w, w.callers[c].ids), c, Refused)
    case Create(c, token, lifetime) => Creation(w, c, w.callers[c], token, lifetime)
    case Publish(c) =>
      var p := w.callers[c];
      Put(w.(cache := w.cache[p.token.prefix := p.response]), c, Served(p.token, p.response))
    case Fail(c) => Put(w, c, Refused)
    case LockExpires(p) => w.(locks := w.locks - {p})
    case CacheExpires(p) => w.(cache := w.cache - {p})
    case Login(user, token, lifetime) =>
      Insert(w, user, token, lifetime, |w.logins|, None).(logins := w.logins + [user])
    case Delete(ids) => DeleteRows(w, ids)
    case Tick(elapsed) => w.(now := w.now + elapsed)
  }

  /** The middleware's session check: the row exists, is unused and its window is open. */
  predicate Accepts(w: World, id: nat) {
    id in w.rows && w.rows[id].usedAt.None? && !(w.rows[id].expiresAt < w.now)
  }

  // ---- Runs ------------------------------------------------------------------------

  ghost predicate Legal(w: World, es: seq<Event>)
    decreases |es|, 1
  {
    es == [] || (Legal(w, es[..|es| - 1]) && Enabled(After(w, es[..|es| - 1]), es[|es| - 1]))
  }

  ghost function After(w: World, es: seq<Event>): World
    requires Legal(w, es)
    decreases |es|, 2
  {
    if es == [] then w else Apply(After(w, es[..|es| - 1]), es[|es| - 1])
  }

  // ---- Invariant ---------------------------------------------------------------------

  type Rows = map<nat, Row>
  type Callers = map<nat, Phase>

  predicate UnusedIn(rows: Rows, id: nat) {
    id in rows && rows[id].usedAt.None?
  }

  /** Rows belong to births and to a login of their own user; tokens are unique. */
  ghost predicate RowsInv(rows: Rows, births: seq<Birth>, logins: seq<nat>) {
    && (forall id :: id in rows ==>
          && id < |births| && rows[id].token == births[id].token
          && rows[id].login < |logins| && logins[rows[id].login] == rows[id].user)
    && (forall i, j :: i in rows && j in rows && i != j ==> rows[i].token != rows[j].token)
  }

  /** A caller inside the transaction holds an unused row of its token, alone. */
  ghost predicate TxInv(rows: Rows, callers: Callers) {
    && (forall c :: c in callers && callers[c].InTx? ==>
          UnusedIn(rows, callers[c].row) && rows[callers[c].row].token == callers[c].token)
    && (forall c, d :: c in callers && d in callers && c != d && callers[c].InTx? && callers[d].InTx? ==>
          callers[c].row != callers[d].row)
  }

  /** A row is stamped at most once, and exactly the used rows are stamped. */
  ghost predicate StampInv(rows: Rows, births: seq<Birth>, stamps: multiset<nat>) {
    && (forall id :: stamps[id] <= 1)
    && (forall id :: id in stamps ==> id < |births|)
    && (forall id :: id in rows ==> (id in stamps <==> rows[id].usedAt.Some?))
  }

  /** Each login has at most one live descendant: an unused row, or a rotation stamped but not
      yet created. */
  ghost predicate LineInv(rows: Rows, callers: Callers, logins: seq<nat>) {
    && (forall i, j :: UnusedIn(rows, i) && UnusedIn(rows, j) && i != j ==> rows[i].login != rows[j].login)
    && (forall c :: c in callers && callers[c].Stamped? ==>
          callers[c].login < |logins| && logins[callers[c].login] == callers[c].user)
    && (forall c, i :: c in callers && callers[c].Stamped? && UnusedIn(rows, i) ==>
          callers[c].login != rows[i].login)
    && (forall c, d :: c in callers && d in callers && c != d && callers[c].Stamped? && callers[d].Stamped? ==>
          callers[c].login != callers[d].login)
  }

  predicate Rotating(p: Phase) {
    p.Stamped? || p.Created?
  }

  /** `r` opens the row born from rotating `id`. */
  predicate AnswerOf(births: seq<Birth>, id: nat, r: Response) {
    r.session < |births| && births[r.session] == Birth(r.token, Some(id))
  }

  /** A stamped row is answered by the one caller that stamped it. */
  ghost predicate AnswerInv(callers: Callers, births: seq<Birth>, stamps: multiset<nat>, answers: map<nat, Response>) {
    && (forall c :: c in callers && Rotating(callers[c]) ==>
          && callers[c].row in stamps && callers[c].row < |births|
          && births[callers[c].row].token == callers[c].token
          && (callers[c].Stamped? ==> callers[c].row !in answers)
          && (callers[c].Created? ==> callers[c].row in answers && answers[callers[c].row] == callers[c].response))
    && (forall c, d :: c in callers && d in callers && c != d && Rotating(callers[c]) && Rotating(callers[d]) ==>
          callers[c].row != callers[d].row)
    && (forall id :: id in answers ==> id in stamps && AnswerOf(births, id, answers[id]))
  }

  /** `r` is the recorded answer of the rotation it came from, of a token with this prefix. */
  predicate Recorded(births: seq<Birth>, answers: map<nat, Response>, prefix: nat, r: Response) {
    && r.session < |births| && births[r.session].parent.Some?
    && var id := births[r.session].parent.value;
       id in answers && answers[id] == r && id < |births| && births[id].token.prefix == prefix
  }

  ghost predicate CacheInv(cache: map<nat, Response>, callers: Callers, births: seq<Birth>, answers: map<nat, Response>) {
    && (forall p :: p in cache ==> Recorded(births, answers, p, cache[p]))
    && (forall c :: c in callers && callers[c].Served? ==>
          Recorded(births, answers, callers[c].token.prefix, callers[c].response))
    && (forall p, c :: p in cache && c in callers && callers[c].Created? ==>
          births[cache[p].session].parent != Some(callers[c].row))
  }

  ghost predicate Inv(w: World) {
    && RowsInv(w.rows, w.births, w.logins)
    && TxInv(w.rows, w.callers)
    && StampInv(w.rows, w.births, w.stamps)
    && LineInv(w.rows, w.callers, w.logins)
    && AnswerInv(w.callers, w.births, w.stamps, w.answers)
    && CacheInv(w.cache, w.callers, w.births, w.answers)
  }

  /** A phase that owns nothing: no row lock, no rotation, no response. */
  predicate Idle(p: Phase) {
    !p.InTx? && !Rotating(p) && !p.Served?
  }

  // One lemma per invariant and per change of the state; each sees only the fields it needs.

  lemma TxIgnores(rows: Rows, callers: Callers, c: nat, p: Phase)
    requires TxInv(rows, callers) && !p.InTx?
    ensures TxInv(rows, callers[c := p])
  {
  }

  lemma LinesIgnore(rows: Rows, callers: Callers, logins: seq<nat>, c: nat, p: Phase)
    requires LineInv(rows, callers, logins) && !p.Stamped?
    ensures LineInv(rows, callers[c := p], logins)
  {
  }

  lemma AnswersIgnore(callers: Callers, births: seq<Birth>, stamps: multiset<nat>, answers: map<nat, Response>, c: nat, p: Phase)
    requires AnswerInv(callers, births, stamps, answers) && !Rotating(p)
    ensures AnswerInv(callers[c := p], births, stamps, answers)
  {
  }

  lemma CacheIgnores(cache: map<nat, Response>, callers: Callers, births: seq<Birth>, answers: map<nat, Response>, c: nat, p: Phase)
    requires CacheInv(cache, callers, births, answers) && !p.Served? && !p.Created?
    ensures CacheInv(cache, callers[c := p], births, answers)
  {
    hide Recorded;
  }

  lemma IdleMove(w: World, c: nat, p: Phase)
    requires Inv(w) && Idle(p)
    ensures Inv(Put(w, c, p))
  {
    hide RowsInv, TxInv, StampInv, LineInv, AnswerInv, CacheInv;
    TxIgnores(w.rows, w.callers, c, p);
    LinesIgnore(w.rows, w.callers, w.logins, c, p);
    AnswersIgnore(w.callers, w.births, w.stamps, w.answers, c, p);
    CacheIgnores(w.cache, w.callers, w.births, w.answers, c, p);
  }

  lemma FindKeepsTx(rows: Rows, callers: Callers, c: nat, token: Token, id: nat)
    requires TxInv(rows, callers) && UnusedIn(rows, id) && rows[id].token == token
    requires forall d :: d in callers && callers[d].InTx? ==> callers[d].row != id
    ensures TxInv(rows, callers[c := InTx(token, id)])
  {
  }

  lemma LockedByNobody(w: World, id: nat)
    requires !RowLocked(w, id)
    ensures forall d :: d in w.callers && w.callers[d].InTx? ==> w.callers[d].row != id
  {
    forall d | d in w.callers && w.callers[d].InTx? ensures w.callers[d].row != id {
      assert At(w, d);
    }
  }

  lemma FindStep(w: World, c: nat, id: nat)
    requires Inv(w) && Enabled(w, Find(c, id))
    ensures Inv(Apply(w, Find(c, id)))
  {
    hide RowsInv, TxInv, StampInv, LineInv, AnswerInv, CacheInv, RowLocked;
    var p := InTx(w.callers[c].token, id);
    LockedByNobody(w, id);
    FindKeepsTx(w.rows, w.callers, c, w.callers[c].token, id);
    LinesIgnore(w.rows, w.callers, w.logins, c, p);
    AnswersIgnore(w.callers, w.births, w.stamps, w.answers, c, p);
    CacheIgnores(w.cache, w.callers, w.births, w.answers, c, p);
  }

  lemma StampKeepsTx(rows: Rows, callers: Callers, c: nat, t: int)
    requires TxInv(rows, callers) && c in callers && callers[c].InTx?
    ensures var id := callers[c].row;
            TxInv(rows[id := rows[id].(usedAt := Some(t))],
                  callers[c := Stamped(callers[c].token, id, rows[id].user, rows[id].login)])
  {
  }

  lemma StampKeepsLines(rows: Rows, callers: Callers, births: seq<Birth>, logins: seq<nat>, c: nat, t: int)
    requires RowsInv(rows, births, logins) && TxInv(rows, callers) && LineInv(rows, callers, logins)
    requires c in callers && callers[c].InTx?
    ensures var id := callers[c].row;
            LineInv(rows[id := rows[id].(usedAt := Some(t))],
                    callers[c := Stamped(callers[c].token, id, rows[id].user, rows[id].login)], logins)
  {
  }

  lemma StampKeepsAnswers(callers: Callers, births: seq<Birth>, stamps: multiset<nat>, answers: map<nat, Response>,
                          c: nat, p: Phase)
    requires AnswerInv(callers, births, stamps, answers) && c in callers && p.Stamped?
    requires p.row !in stamps && p.row < |births| && births[p.row].token == p.token
    ensures AnswerInv(callers[c := p], births, stamps + multiset{p.row}, answers)
  {
  }

  lemma StampKeepsTable(w: World, id: nat)
    requires Inv(w) && UnusedIn(w.rows, id)
    ensures var rows := w.rows[id := w.rows[id].(usedAt := Some(w.now))];
            RowsInv(rows, w.births, w.logins) && StampInv(rows, w.births, w.stamps + multiset{id})
    ensures id !in w.stamps && id < |w.births| && w.births[id].token == w.rows[id].token
  {
    hide TxInv, LineInv, AnswerInv, CacheInv;
  }

  lemma HeldRow(w: World, c: nat)
    requires Inv(w) && c in w.callers && w.callers[c].InTx?
    ensures UnusedIn(w.rows, w.callers[c].row) && w.rows[w.callers[c].row].token == w.callers[c].token
  {
  }

  lemma StampStep(w: World, c: nat)
    requires Inv(w) && Enabled(w, Decide(c))
    ensures Inv(Apply(w, Decide(c)))
  {
    hide RowsInv, TxInv, StampInv, LineInv, AnswerInv, CacheInv;
    var id := w.callers[c].row;
    var row := w.rows[id];
    if row.expiresAt < w.now {
      IdleMove(w, c, Refused);
    } else {
      var p := Stamped(w.callers[c].token, id, row.user, row.login);
      HeldRow(w, c);
      StampKeepsTable(w, id);
      StampKeepsTx(w.rows, w.callers, c, w.now);
      StampKeepsLines(w.rows, w.callers, w.births, w.logins, c, w.now);
      StampKeepsAnswers(w.callers, w.births, w.stamps, w.answers, c, p);
      CacheIgnores(w.cache, w.callers, w.births, w.answers, c, p);
    }
  }

  lemma InsertKeepsRows(rows: Rows, births: seq<Birth>, logins: seq<nat>, row: Row, parent: Option<nat>)
    requires RowsInv(rows, births, logins)
    requires row.login < |logins| && logins[row.login] == row.user
    requires forall id :: id in rows ==> rows[id].token != row.token
    ensures RowsInv(rows[|births| := row], births + [Birth(row.token, parent)], logins)
  {
  }

  lemma InsertKeepsTx(rows: Rows, callers: Callers, id: nat, row: Row)
    requires TxInv(rows, callers) && id !in rows
    ensures TxInv(rows[id := row], callers)
  {
  }

  lemma InsertKeepsStamps(rows: Rows, births: seq<Birth>, stamps: multiset<nat>, row: Row, birth: Birth)
    requires StampInv(rows, births, stamps) && row.usedAt.None?
    ensures StampInv(rows[|births| := row], births + [birth], stamps)
  {
  }

  lemma InsertKeepsLines(rows: Rows, callers: Callers, logins: seq<nat>, id: nat, row: Row)
    requires LineInv(rows, callers, logins) && id !in rows
    requires forall i :: UnusedIn(rows, i) ==> rows[i].login != row.login
    requires forall c :: c in callers && callers[c].Stamped? ==> callers[c].login != row.login
    ensures LineInv(rows[id := row], callers, logins)
  {
  }

  lemma AnswersGrow(callers: Callers, births: seq<Birth>, stamps: multiset<nat>, answers: map<nat, Response>, birth: Birth)
    requires AnswerInv(callers, births, stamps, answers)
    ensures AnswerInv(callers, births + [birth], stamps, answers)
  {
  }

  lemma CacheGrows(cache: map<nat, Response>, callers: Callers, births: seq<Birth>, answers: map<nat, Response>, birth: Birth)
    requires CacheInv(cache, callers, births, answers)
    ensures CacheInv(cache, callers, births + [birth], answers)
  {
  }

  lemma BirthsGrow(w: World, birth: Birth)
    requires Inv(w)
    ensures AnswerInv(w.callers, w.births + [birth], w.stamps, w.answers)
    ensures CacheInv(w.cache, w.callers, w.births + [birth], w.answers)
  {
    hide RowsInv, TxInv, StampInv, LineInv, AnswerInv, CacheInv;
    AnswersGrow(w.callers, w.births, w.stamps, w.answers, birth);
    CacheGrows(w.cache, w.callers, w.births, w.answers, birth);
  }

  lemma LoginsGrow(w: World, user: nat)
    requires Inv(w)
    ensures RowsInv(w.rows, w.births, w.logins + [user]) && LineInv(w.rows, w.callers, w.logins + [user])
    ensures |w.births| !in w.rows
    ensures forall i :: UnusedIn(w.rows, i) ==> w.rows[i].login != |w.logins|
    ensures forall c :: c in w.callers && w.callers[c].Stamped? ==> w.callers[c].login != |w.logins|
  {
  }

  lemma LoginStep(w: World, user: nat, token: Token, lifetime: nat)
    requires Inv(w) && Enabled(w, Login(user, token, lifetime))
    ensures Inv(Apply(w, Login(user, token, lifetime)))
  {
    hide RowsInv, TxInv, StampInv, LineInv, AnswerInv, CacheInv;
    assert TokenFree(w.rows, token);
    LoginsGrow(w, user);
    BirthsGrow(w, Birth(token, None));
    var row := Row(user, token, w.now + lifetime, None, |w.logins|);
    var logins := w.logins + [user];
    InsertKeepsRows(w.rows, w.births, logins, row, None);
    InsertKeepsTx(w.rows, w.callers, |w.births|, row);
    InsertKeepsStamps(w.rows, w.births, w.stamps, row, Birth(token, None));
    InsertKeepsLines(w.rows, w.callers, logins, |w.births|, row);
  }

  lemma LineLeavesCaller(w: World, c: nat, p: Phase)
    requires Inv(w) && c in w.callers && w.callers[c].Stamped? && p.Created?
    ensures |w.births| !in w.rows
    ensures w.callers[c].login < |w.logins| && w.logins[w.callers[c].login] == w.callers[c].user
    ensures var callers := w.callers[c := p];
            && TxInv(w.rows, callers) && LineInv(w.rows, callers, w.logins)
            && (forall i :: UnusedIn(w.rows, i) ==> w.rows[i].login != w.callers[c].login)
            && (forall d :: d in callers && callers[d].Stamped? ==> callers[d].login != w.callers[c].login)
  {
  }

  lemma AnswerRecorded(w: World, c: nat, token: Token)
    requires Inv(w) && c in w.callers && w.callers[c].Stamped?
    ensures var p, response := w.callers[c], Response(|w.births|, token);
            AnswerInv(w.callers[c := Created(p.token, p.row, response)],
                      w.births + [Birth(token, Some(p.row))], w.stamps, w.answers[p.row := response])
  {
    hide RowsInv, TxInv, StampInv, LineInv, CacheInv;
    BirthsGrow(w, Birth(token, Some(w.callers[c].row)));
  }

  lemma AnswerKeepsCache(w: World, c: nat, token: Token)
    requires Inv(w) && c in w.callers && w.callers[c].Stamped?
    ensures var p, response := w.callers[c], Response(|w.births|, token);
            CacheInv(w.cache, w.callers[c := Created(p.token, p.row, response)],
                     w.births + [Birth(token, Some(p.row))], w.answers[p.row := response])
  {
    hide RowsInv, TxInv, StampInv, LineInv;
  }

  lemma CreateStep(w: World, c: nat, token: Token, lifetime: nat)
    requires Inv(w) && Enabled(w, Create(c, token, lifetime))
    ensures Inv(Apply(w, Create(c, token, lifetime)))
  {
    hide RowsInv, TxInv, StampInv, LineInv, AnswerInv, CacheInv;
    var p := w.callers[c];
    var row := Row(p.user, token, w.now + lifetime, None, p.login);
    var phase := Created(p.token, p.row, Response(|w.births|, token));
    var callers := w.callers[c := phase];
    assert TokenFree(w.rows, token);
    LineLeavesCaller(w, c, phase);
    AnswerRecorded(w, c, token);
    AnswerKeepsCache(w, c, token);
    InsertKeepsRows(w.rows, w.births, w.logins, row, Some(p.row));
    InsertKeepsTx(w.rows, callers, |w.births|, row);
    InsertKeepsStamps(w.rows, w.births, w.stamps, row, Birth(token, Some(p.row)));
    InsertKeepsLines(w.rows, callers, w.logins, |w.births|, row);
  }

  lemma PublishKeepsCache(w: World, c: nat)
    requires Inv(w) && c in w.callers && w.callers[c].Created?
    ensures var p := w.callers[c];
            CacheInv(w.cache[p.token.prefix := p.response], w.callers[c := Served(p.token, p.response)],
                     w.births, w.answers)
  {
    var p := w.callers[c];
    assert AnswerOf(w.births, p.row, p.response);
  }

  lemma LeavesRotation(w: World, c: nat, p: Phase)
    requires Inv(w) && p.Served?
    ensures var callers := w.callers[c := p];
            && TxInv(w.rows, callers) && LineInv(w.rows, callers, w.logins)
            && AnswerInv(callers, w.births, w.stamps, w.answers)
  {
    hide RowsInv, TxInv, StampInv, LineInv, AnswerInv, CacheInv;
    TxIgnores(w.rows, w.callers, c, p);
    LinesIgnore(w.rows, w.callers, w.logins, c, p);
    AnswersIgnore(w.callers, w.births, w.stamps, w.answers, c, p);
  }

  lemma PublishStep(w: World, c: nat)
    requires Inv(w) && Enabled(w, Publish(c))
    ensures Inv(Apply(w, Publish(c)))
  {
    PublishKeepsCache(w, c);
    LeavesRotation(w, c, Served(w.callers[c].token, w.callers[c].response));
  }

  lemma ServedFromCache(w: World, c: nat, token: Token)
    requires Inv(w) && token.prefix in w.cache
    ensures CacheInv(w.cache, w.callers[c := Served(token, w.cache[token.prefix])], w.births, w.answers)
  {
    hide RowsInv, TxInv, StampInv, LineInv, AnswerInv, Recorded;
  }

  lemma PollStep(w: World, c: nat)
    requires Inv(w) && Enabled(w, Poll(c))
    ensures Inv(Apply(w, Poll(c)))
  {
    hide RowsInv, TxInv, StampInv, LineInv, AnswerInv, CacheInv;
    var p := AfterPoll(w, w.callers[c].token, w.callers[c].polls);
    if p.Served? {
      LeavesRotation(w, c, p);
      ServedFromCache(w, c, w.callers[c].token);
    } else {
      IdleMove(w, c, p);
    }
  }

  lemma DeleteKeepsTable(rows: Rows, births: seq<Birth>, logins: seq<nat>, stamps: multiset<nat>, ids: set<nat>)
    requires RowsInv(rows, births, logins) && StampInv(rows, births, stamps)
    ensures RowsInv(rows - ids, births, logins) && StampInv(rows - ids, births, stamps)
  {
  }

  lemma DeleteKeepsCallers(rows: Rows, callers: Callers, logins: seq<nat>, ids: set<nat>)
    requires TxInv(rows, callers) && LineInv(rows, callers, logins)
    requires forall c :: c in callers && callers[c].InTx? ==> callers[c].row !in ids
    ensures TxInv(rows - ids, callers) && LineInv(rows - ids, callers, logins)
  {
  }

  lemma DeleteStep(w: World, ids: set<nat>)
    requires Inv(w) && Deletable(w, ids)
    ensures Inv(DeleteRows(w, ids))
  {
    hide RowsInv, TxInv, StampInv, LineInv, AnswerInv, CacheInv, RowLocked;
    forall c | c in w.callers && w.callers[c].InTx? ensures w.callers[c].row !in ids {
      HeldRow(w, c);
      if w.callers[c].row in ids {
        LockedByNobody(w, w.callers[c].row);
      }
    }
    DeleteKeepsTable(w.rows, w.births, w.logins, w.stamps, ids);
    DeleteKeepsCallers(w.rows, w.callers, w.logins, ids);
  }

  // ---- What a step does to the table ---------------------------------------------------------

  /** Ids are given out in order, and no row comes back, is unused again, or changes in any other
      column. */
  predicate TableMoves(rows: Rows, births: nat, rows': Rows, births': nat) {
    && births <= births'
    && forall id :: id in rows' && id < births ==>
         && id in rows && rows'[id] == rows[id].(usedAt := rows'[id].usedAt)
         && (rows[id].usedAt.Some? ==> rows'[id].usedAt == rows[id].usedAt)
  }

  lemma StepMovesTable(w: World, e: Event)
    requires Inv(w) && Enabled(w, e)
    ensures TableMoves(w.rows, |w.births|, Apply(w, e).rows, |Apply(w, e).births|) && w.now <= Apply(w, e).now
  {
    hide Inv, RowLocked, TableMoves;
    var n := |w.births|;
    RowsAreBorn(w);
    TableStays(w.rows, n);
    match e
    case Decide(c) => HeldRow(w, c); TableStamped(w.rows, n, w.callers[c].row, Some(w.now));
    case Create(c, token, lifetime) => TableGrows(w.rows, n, Row(w.callers[c].user, token, w.now + lifetime, None, w.callers[c].login));
    case Login(user, token, lifetime) => TableGrows(w.rows, n, Row(user, token, w.now + lifetime, None, |w.logins|));
    case RevokeAll(c) => TableShrinks(w.rows, n, w.callers[c].ids);
    case Delete(ids) => TableShrinks(w.rows, n, ids);
    case _ => TableLeft(w, e);
  }

  lemma RowsAreBorn(w: World)
    requires Inv(w)
    ensures forall id :: id in w.rows ==> id < |w.births|
  {
    hide TxInv, StampInv, LineInv, AnswerInv, CacheInv;
  }

  lemma TableStays(rows: Rows, n: nat)
    ensures TableMoves(rows, n, rows, n)
  {
  }

  lemma TableStamped(rows: Rows, n: nat, id: nat, usedAt: Option<int>)
    requires id in rows && rows[id].usedAt.None?
    ensures TableMoves(rows, n, rows[id := rows[id].(usedAt := usedAt)], n)
  {
  }

  lemma TableGrows(rows: Rows, n: nat, row: Row)
    ensures TableMoves(rows, n, rows[n := row], n + 1)
  {
  }

  lemma TableShrinks(rows: Rows, n: nat, ids: set<nat>)
    ensures TableMoves(rows, n, rows - ids, n)
  {
  }

  lemma TableLeft(w: World, e: Event)
    requires Inv(w) && Enabled(w, e) && !e.Decide? && !e.Create? && !e.Login? && !e.RevokeAll? && !e.Delete?
    ensures Apply(w, e).rows == w.rows && Apply(w, e).births == w.births && w.now <= Apply(w, e).now
  {
    hide Inv, RowLocked;
  }

  lemma IdleStep(w: World, e: Event)
    requires Inv(w) && Enabled(w, e)
    requires e.Ask? || e.TryLock? || e.Miss? || e.Inspect? || e.BeginRevoke? || e.Fail?
    ensures Inv(Apply(w, e))
  {
    hide RowsInv, TxInv, StampInv, LineInv, AnswerInv, CacheInv;
    var c := e.caller;
    var p := Apply(w, e).callers[c];
    IdleMove(w, c, p);
    assert Apply(w, e) == Put(w, c, p).(locks := Apply(w, e).locks);
  }

  /** Every step keeps the whole invariant. */
  lemma StepKeepsInv(w: World, e: Event)
    requires Inv(w) && Enabled(w, e)
    ensures Inv(Apply(w, e))
  {
    hide RowsInv, TxInv, StampInv, LineInv, AnswerInv;
    match e
    case Poll(c) => PollStep(w, c);
    case Find(c, id) => FindStep(w, c, id);
    case Decide(c) => StampStep(w, c);
    case RevokeAll(c) =>
      var w' := DeleteRows(w, w.callers[c].ids);
      DeleteStep(w, w.callers[c].ids);
      IdleMove(w', c, Refused);
    case Create(c, token, lifetime) => CreateStep(w, c, token, lifetime);
    case Publish(c) => PublishStep(w, c);
    case LockExpires(p) =>
    case CacheExpires(p) =>
    case Login(user, token, lifetime) => LoginStep(w, user, token, lifetime);
    case Delete(ids) => DeleteStep(w, ids);
    case Tick(elapsed) =>
    case _ => IdleStep(w, e);
  }

  lemma {:induction false} RunKeepsInv(w: World, es: seq<Event>)
    requires Inv(w) && Legal(w, es)
    ensures Inv(After(w, es))
  {
    if es != [] {
      RunKeepsInv(w, es[..|es| - 1]);
      StepKeepsInv(After(w, es[..|es| - 1]), es[|es| - 1]);
    }
  }
}
