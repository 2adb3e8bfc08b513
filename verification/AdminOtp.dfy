/** Admin sign-in by one-time password as a protocol: any number of requests and verifications
    interleave, one await at a time, over the token table and the Redis counters. Nothing in the
    code locks a token row, so what a verification read may be stale when it writes. */
module AdminOtp {
  import opened RateLimit
  import opened Text

  /** A row of auth_tokens, keyed by its unique token hash; `otp` tells ADMIN_OTP rows from the
      verification and reset tokens that share the table and the constraint. `markedAt` is history:
      the step at which the row was first marked used. */
  datatype Token = Token(otp: bool, user: nat, expiresAt: int, usedAt: Option<int>, markedAt: nat)

  datatype Outcome = Sent | ResendLimited | HashTaken | LoggedIn | LockedOut | Invalid | Aborted

  /** Where one call of `requestOtp` or `verifyOtp` stands; `at` is the step of its UPDATE. */
  datatype Phase =
    | Allowed(user: nat)
    | Cleared(user: nat, at: nat)
    | Issued(user: nat, hash: nat)
    | Unlocked(user: nat)
    | Rejected(user: nat)
    | Holding(user: nat, hash: nat)
    | Stamped(user: nat, hash: nat)
    | Opening(user: nat, hash: nat)
    | Closed(out: Outcome)

  /** History: the steps of a successful read, and of a password's UPDATE and INSERT. */
  datatype Reading = Reading(hash: nat, at: nat)
  datatype Birth = Birth(cleared: nat, inserted: nat)

  type Tokens = map<nat, Token>
  type Calls = map<nat, Phase>
  type Readings = map<nat, Reading>

  datatype World = World(
    tokens: Tokens,
    failures: map<nat, Counter>,
    windowSends: map<nat, Counter>,
    dailySends: map<nat, Counter>,
    calls: Calls,
    now: int,
    // History, never read by a step: the step number, each call's reading and stamp, and how each
    // password came about.
    step: nat,
    readings: Readings,
    stamps: map<nat, nat>,
    births: map<nat, Birth>
  )

  datatype Event =
    | CheckLimits(c: nat, user: nat)
    | Invalidate(c: nat)
    | Insert(c: nat, hash: nat)
    | CountSend(c: nat)
    | CheckLock(c: nat, user: nat)
    | Read(c: nat, hash: nat)
    | CountFailure(c: nat)
    | Stamp(c: nat)
    | Reset(c: nat)
    | OpenSession(c: nat)
    | Fail(c: nat)
    | OtherToken(hash: nat, user: nat)
    | Tick(ms: nat)

  const OTP_TTL: int := 600000
  const MAX_FAILURES: nat := 5
  const LOCK_TTL: int := 3600000
  const RESEND_WINDOW_LIMIT: nat := 3
  const RESEND_WINDOW_TTL: int := 1800000
  const RESEND_DAILY_LIMIT: nat := 10
  const RESEND_DAILY_TTL: int := 86400000

  function Init(now: int): World {
    World(map[], map[], map[], map[], map[], now, 0, map[], map[], map[])
  }

  // ---- Steps -----------------------------------------------------------------------------

  function Get(counters: map<nat, Counter>, user: nat): Counter {
    if user in counters then counters[user] else Absent
  }

  predicate Outdated(t: Token, user: nat) {
    t.otp && t.user == user && t.usedAt.None?
  }

  /** UPDATE auth_tokens SET used_at = now for the user's unused ADMIN_OTP rows. */
  function Invalidated(tokens: Tokens, user: nat, now: int, step: nat): Tokens {
    map h | h in tokens :: if Outdated(tokens[h], user) then Marked(tokens[h], now, step) else tokens[h]
  }

  function Marked(t: Token, now: int, step: nat): Token {
    t.(usedAt := Some(now), markedAt := if t.usedAt.Some? then t.markedAt else step)
  }

  /** The tests a verification makes on the row it found. */
  predicate Usable(tokens: Tokens, user: nat, hash: nat, now: int) {
    hash in tokens && tokens[hash].otp && tokens[hash].user == user && tokens[hash].usedAt.None? && now <= tokens[hash].expiresAt
  }

  predicate MaySend(w: World, user: nat) {
    Live(Get(w.windowSends, user), w.now) < RESEND_WINDOW_LIMIT && Live(Get(w.dailySends, user), w.now) < RESEND_DAILY_LIMIT
  }

  predicate MayTry(w: World, user: nat) {
    Live(Get(w.failures, user), w.now) < MAX_FAILURES
  }

  predicate At(w: World, c: nat) {
    c in w.calls
  }

  predicate Enabled(w: World, e: Event) {
    match e
    case CheckLimits(c, _) => !At(w, c)
    case Invalidate(c) => At(w, c) && w.calls[c].Allowed?
    case Insert(c, _) => At(w, c) && w.calls[c].Cleared?
    case CountSend(c) => At(w, c) && w.calls[c].Issued?
    case CheckLock(c, _) => !At(w, c)
    case Read(c, _) => At(w, c) && w.calls[c].Unlocked?
    case CountFailure(c) => At(w, c) && w.calls[c].Rejected?
    case Stamp(c) => At(w, c) && w.calls[c].Holding?
    case Reset(c) => At(w, c) && w.calls[c].Stamped?
    case OpenSession(c) => At(w, c) && w.calls[c].Opening?
    // A database, Redis or mail failure, or a crash.
    case Fail(c) => At(w, c) && !w.calls[c].Closed?
    case OtherToken(hash, _) => hash !in w.tokens
    case Tick(_) => true
  }

  function Put(w: World, c: nat, p: Phase): World {
    w.(calls := w.calls[c := p])
  }

  predicate IsRequestStep(e: Event) {
    e.CheckLimits? || e.Invalidate? || e.Insert? || e.CountSend?
  }

  predicate IsVerifyStep(e: Event) {
    e.CheckLock? || e.Read? || e.CountFailure? || e.Stamp? || e.Reset? || e.OpenSession?
  }

  /** The steps of `requestOtp`. */
  function RequestEffect(w: World, e: Event): World
    requires Enabled(w, e) && IsRequestStep(e)
  {
    match e
    case CheckLimits(c, user) => Put(w, c, if MaySend(w, user) then Allowed(user) else Closed(ResendLimited))
    case Invalidate(c) =>
      var user := w.calls[c].user;
      Put(w.(tokens := Invalidated(w.tokens, user, w.now, w.step)), c, Cleared(user, w.step))
    case Insert(c, hash) =>
      var p, taken := w.calls[c], hash in w.tokens;
      var tokens := if taken then w.tokens else w.tokens[hash := Token(true, p.user, w.now + OTP_TTL, None, 0)];
      var births := if taken then w.births else w.births[hash := Birth(p.at, w.step)];
      Put(w.(tokens := tokens, births := births), c, if taken then Closed(HashTaken) else Issued(p.user, hash))
    case CountSend(c) =>
      var user := w.calls[c].user;
      Put(w.(windowSends := w.windowSends[user := Bump(Get(w.windowSends, user), w.now, RESEND_WINDOW_TTL)],
             dailySends := w.dailySends[user := Bump(Get(w.dailySends, user), w.now, RESEND_DAILY_TTL)]),
          c, Closed(Sent))
  }

  /** The steps of `verifyOtp`. */
  function VerifyEffect(w: World, e: Event): World
    requires Enabled(w, e) && IsVerifyStep(e)
  {
    match e
    case CheckLock(c, user) => Put(w, c, if MayTry(w, user) then Unlocked(user) else Closed(LockedOut))
    case Read(c, hash) =>
      var user := w.calls[c].user;
      var ok := Usable(w.tokens, user, hash, w.now);
      var readings := if ok then w.readings[c := Reading(hash, w.step)] else w.readings;
      Put(w.(readings := readings), c, if ok then Holding(user, hash) else Rejected(user))
    case CountFailure(c) =>
      var user := w.calls[c].user;
      Put(w.(failures := w.failures[user := Bump(Get(w.failures, user), w.now, LOCK_TTL)]), c, Closed(Invalid))
    case Stamp(c) => Stamping(w, c, w.calls[c])
    case Reset(c) => Put(w.(failures := w.failures - {w.calls[c].user}), c, Opening(w.calls[c].user, w.calls[c].hash))
    case OpenSession(c) => Put(w, c, Closed(LoggedIn))
  }

  /** The effect of an event; the step number is advanced by `Apply`. */
  function Effect(w: World, e: Event): World
    requires Enabled(w, e)
  {
    if IsRequestStep(e) then RequestEffect(w, e)
    else if IsVerifyStep(e) then VerifyEffect(w, e)
    else
      match e
      case Fail(c) => Put(w, c, Closed(Aborted))
      case OtherToken(hash, user) => w.(tokens := w.tokens[hash := Token(false, user, w.now, None, 0)])
      case Tick(ms) => w.(now := w.now + ms)
  }

  /** `save(token)` writes `used_at` whatever the row holds by now. */
  function Stamping(w: World, c: nat, p: Phase): World
    requires p.Holding?
  {
    var tokens := if p.hash in w.tokens then w.tokens[p.hash := Marked(w.tokens[p.hash], w.now, w.step)] else w.tokens;
    Put(w.(tokens := tokens, stamps := w.stamps[c := w.step]), c, Stamped(p.user, p.hash))
  }

  function Apply(w: World, e: Event): World
    requires Enabled(w, e)
  {
    var v := Effect(w, e);
    v.(step := w.step + 1)
  }

  // Each step of a call written out: when the phase allows it, and every column it writes.

  lemma CheckLimitsWrites(w: World, c: nat, user: nat)
    requires c !in w.calls
    ensures Enabled(w, CheckLimits(c, user))
    ensures Apply(w, CheckLimits(c, user))
         == w.(calls := w.calls[c := if MaySend(w, user) then Allowed(user) else Closed(ResendLimited)], step := w.step + 1)
  {
  }

  lemma InvalidateWrites(w: World, c: nat)
    requires c in w.calls && w.calls[c].Allowed?
    ensures Enabled(w, Invalidate(c))
    ensures var user := w.calls[c].user;
            Apply(w, Invalidate(c))
            == w.(tokens := Invalidated(w.tokens, user, w.now, w.step), calls := w.calls[c := Cleared(user, w.step)], step := w.step + 1)
  {
  }

  lemma InsertWrites(w: World, c: nat, hash: nat)
    requires c in w.calls && w.calls[c].Cleared?
    ensures Enabled(w, Insert(c, hash))
    ensures hash in w.tokens ==>
              Apply(w, Insert(c, hash)) == w.(calls := w.calls[c := Closed(HashTaken)], step := w.step + 1)
    ensures var p := w.calls[c];
            hash !in w.tokens ==>
              Apply(w, Insert(c, hash))
              == w.(tokens := w.tokens[hash := Token(true, p.user, w.now + OTP_TTL, None, 0)],
                    births := w.births[hash := Birth(p.at, w.step)],
                    calls := w.calls[c := Issued(p.user, hash)], step := w.step + 1)
  {
  }

  lemma CountSendWrites(w: World, c: nat)
    requires c in w.calls && w.calls[c].Issued?
    ensures Enabled(w, CountSend(c))
    ensures var user := w.calls[c].user;
            Apply(w, CountSend(c))
            == w.(windowSends := w.windowSends[user := Bump(Get(w.windowSends, user), w.now, RESEND_WINDOW_TTL)],
                  dailySends := w.dailySends[user := Bump(Get(w.dailySends, user), w.now, RESEND_DAILY_TTL)],
                  calls := w.calls[c := Closed(Sent)], step := w.step + 1)
  {
  }

  lemma CheckLockWrites(w: World, c: nat, user: nat)
    requires c !in w.calls
    ensures Enabled(w, CheckLock(c, user))
    ensures Apply(w, CheckLock(c, user))
         == w.(calls := w.calls[c := if MayTry(w, user) then Unlocked(user) else Closed(LockedOut)], step := w.step + 1)
  {
  }

  lemma ReadWrites(w: World, c: nat, hash: nat)
    requires c in w.calls && w.calls[c].Unlocked?
    ensures Enabled(w, Read(c, hash))
    ensures var user := w.calls[c].user;
            Apply(w, Read(c, hash))
            == if Usable(w.tokens, user, hash, w.now)
               then w.(readings := w.readings[c := Reading(hash, w.step)], calls := w.calls[c := Holding(user, hash)], step := w.step + 1)
               else w.(calls := w.calls[c := Rejected(user)], step := w.step + 1)
  {
    hide Usable;
  }

  lemma CountFailureWrites(w: World, c: nat)
    requires c in w.calls && w.calls[c].Rejected?
    ensures Enabled(w, CountFailure(c))
    ensures var user := w.calls[c].user;
            Apply(w, CountFailure(c))
            == w.(failures := w.failures[user := Bump(Get(w.failures, user), w.now, LOCK_TTL)],
                  calls := w.calls[c := Closed(Invalid)], step := w.step + 1)
  {
  }

  lemma StampWrites(w: World, c: nat)
    requires c in w.calls && w.calls[c].Holding?
    ensures Enabled(w, Stamp(c))
    ensures var p := w.calls[c];
            var tokens := if p.hash in w.tokens then w.tokens[p.hash := Marked(w.tokens[p.hash], w.now, w.step)] else w.tokens;
            Apply(w, Stamp(c))
            == w.(tokens := tokens, stamps := w.stamps[c := w.step], calls := w.calls[c := Stamped(p.user, p.hash)],
                  step := w.step + 1)
  {
  }

  lemma ResetWrites(w: World, c: nat)
    requires c in w.calls && w.calls[c].Stamped?
    ensures Enabled(w, Reset(c))
    ensures var p := w.calls[c];
            Apply(w, Reset(c))
            == w.(failures := w.failures - {p.user}, calls := w.calls[c := Opening(p.user, p.hash)], step := w.step + 1)
  {
  }

  lemma OpenSessionWrites(w: World, c: nat)
    requires c in w.calls && w.calls[c].Opening?
    ensures Enabled(w, OpenSession(c))
    ensures Apply(w, OpenSession(c)) == w.(calls := w.calls[c := Closed(LoggedIn)], step := w.step + 1)
  {
  }

  lemma FailWrites(w: World, c: nat)
    requires c in w.calls && !w.calls[c].Closed?
    ensures Enabled(w, Fail(c))
    ensures Apply(w, Fail(c)) == w.(calls := w.calls[c := Closed(Aborted)], step := w.step + 1)
  {
  }

  lemma TickWrites(w: World, ms: nat)
    ensures Enabled(w, Tick(ms)) && Apply(w, Tick(ms)) == w.(now := w.now + ms, step := w.step + 1)
  {
  }

  predicate Legal(w: World, es: seq<Event>)
    decreases |es|
  {
    es == [] || (Enabled(w, es[0]) && Legal(Apply(w, es[0]), es[1..]))
  }

  function After(w: World, es: seq<Event>): World
    requires Legal(w, es)
    decreases |es|
  {
    if es == [] then w else After(Apply(w, es[0]), es[1..])
  }

  lemma {:induction false} Appended(w: World, es: seq<Event>, e: Event)
    requires Legal(w, es) && Enabled(After(w, es), e)
    ensures Legal(w, es + [e]) && After(w, es + [e]) == Apply(After(w, es), e)
    decreases |es|
  {
    hide Apply, Enabled;
    if es == [] {
      assert ([] + [e])[1..] == [];
    } else {
      Appended(Apply(w, es[0]), es[1..], e);
      assert (es + [e])[1..] == es[1..] + [e];
    }
  }

  // ---- Invariant -----------------------------------------------------------------------------

  predicate IsUsed(tokens: Tokens, hash: nat) {
    hash in tokens && tokens[hash].otp && tokens[hash].usedAt.Some?
  }

  ghost predicate MarkInv(tokens: Tokens, step: nat) {
    forall h :: IsUsed(tokens, h) ==> tokens[h].markedAt < step
  }

  /** Every successful read of a password came before it was first marked used; reads are told
      apart by their step. */
  ghost predicate ReadInv(tokens: Tokens, readings: Readings, step: nat) {
    && (forall c :: c in readings ==>
          && readings[c].at < step && readings[c].hash in tokens && tokens[readings[c].hash].otp
          && (IsUsed(tokens, readings[c].hash) ==> readings[c].at < tokens[readings[c].hash].markedAt))
    && (forall a, b :: a in readings && b in readings && readings[a].at == readings[b].at ==> a == b)
  }

  /** A stamping call read before, and its stamp is not earlier than the first mark. */
  ghost predicate StampInv(tokens: Tokens, readings: Readings, stamps: map<nat, nat>, step: nat) {
    forall c :: c in stamps ==>
      && stamps[c] < step && c in readings && readings[c].at < stamps[c]
      && IsUsed(tokens, readings[c].hash) && tokens[readings[c].hash].markedAt <= stamps[c]
  }

  predicate PastReading(p: Phase) {
    p.Holding? || p.Stamped? || p.Opening?
  }

  /** What each phase says about the call's own history. */
  predicate PhaseFits(p: Phase, read: bool, hash: nat, stamped: bool) {
    && (PastReading(p) ==> read && p.hash == hash)
    && (p.Holding? ==> !stamped)
    && (p.Stamped? || p.Opening? || p == Closed(LoggedIn) ==> stamped)
    && (!PastReading(p) && !p.Closed? ==> !read)
  }

  predicate Fitting(p: Phase, c: nat, readings: Readings, stamps: map<nat, nat>) {
    PhaseFits(p, c in readings, if c in readings then readings[c].hash else 0, c in stamps)
  }

  ghost predicate CallInv(calls: Calls, readings: Readings, stamps: map<nat, nat>) {
    && (forall c :: c in calls ==> Fitting(calls[c], c, readings, stamps))
    && (forall c :: c in readings ==> c in calls)
    && (forall c :: c in stamps ==> c in readings)
  }

  predicate Unused(tokens: Tokens, hash: nat) {
    hash in tokens && tokens[hash].otp && tokens[hash].usedAt.None?
  }

  predicate Overlapping(tokens: Tokens, births: map<nat, Birth>, g: nat, h: nat)
    requires g in tokens && h in tokens
  {
    g in births && h in births && tokens[g].user == tokens[h].user && births[g].inserted < births[h].inserted ==>
      births[h].cleared < births[g].inserted
  }

  /** Of two unused passwords of one user, the later one's UPDATE ran before the earlier one's
      INSERT; and a call between its UPDATE and its INSERT has seen every older one marked. */
  ghost predicate BirthInv(tokens: Tokens, births: map<nat, Birth>, calls: Calls, step: nat) {
    && (forall h :: h in births ==> h in tokens && births[h].inserted < step)
    && (forall h :: Unused(tokens, h) ==> h in births)
    && (forall g, h :: g in births && h in births && births[g].inserted == births[h].inserted ==> g == h)
    && (forall g, h :: Unused(tokens, g) && Unused(tokens, h) ==> Overlapping(tokens, births, g, h))
    && (forall c, h :: c in calls && calls[c].Cleared? && Unused(tokens, h) && tokens[h].user == calls[c].user ==>
          calls[c].at < births[h].inserted)
    && (forall c :: c in calls && calls[c].Cleared? ==> calls[c].at < step)
  }

  ghost predicate Inv(w: World) {
    && MarkInv(w.tokens, w.step)
    && ReadInv(w.tokens, w.readings, w.step)
    && StampInv(w.tokens, w.readings, w.stamps, w.step)
    && CallInv(w.calls, w.readings, w.stamps)
    && BirthInv(w.tokens, w.births, w.calls, w.step)
  }

  lemma InitInv(now: int)
    ensures Inv(Init(now))
  {
  }

  // One lemma per invariant and per change of the state; each sees only the fields it needs.

  lemma LaterTable(tokens: Tokens, readings: Readings, stamps: map<nat, nat>, step: nat)
    requires MarkInv(tokens, step) && ReadInv(tokens, readings, step) && StampInv(tokens, readings, stamps, step)
    ensures MarkInv(tokens, step + 1) && ReadInv(tokens, readings, step + 1)
    ensures StampInv(tokens, readings, stamps, step + 1)
  {
  }

  lemma LaterBirths(tokens: Tokens, births: map<nat, Birth>, calls: Calls, step: nat, c: nat, p: Phase)
    requires BirthInv(tokens, births, calls, step) && !p.Cleared?
    ensures BirthInv(tokens, births, calls, step + 1) && BirthInv(tokens, births, calls[c := p], step + 1)
  {
    hide Unused, Overlapping;
  }

  lemma CallMoves(calls: Calls, readings: Readings, stamps: map<nat, nat>, c: nat, p: Phase)
    requires CallInv(calls, readings, stamps) && Fitting(p, c, readings, stamps)
    ensures CallInv(calls[c := p], readings, stamps)
  {
    hide Fitting;
  }

  /** A step that changes only counters and one call's phase. */
  lemma PhaseMove(w: World, v: World, c: nat, p: Phase)
    requires Inv(w) && v.step == w.step + 1
    requires v.tokens == w.tokens && v.readings == w.readings && v.stamps == w.stamps && v.births == w.births
    requires v.calls == w.calls[c := p] && !p.Cleared? && Fitting(p, c, w.readings, w.stamps)
    ensures Inv(v)
  {
    hide MarkInv, ReadInv, StampInv, CallInv, BirthInv, Fitting;
    LaterTable(w.tokens, w.readings, w.stamps, w.step);
    LaterBirths(w.tokens, w.births, w.calls, w.step, c, p);
    CallMoves(w.calls, w.readings, w.stamps, c, p);
  }

  /** `after` is `before` with some passwords marked used at the present step. */
  ghost predicate MarksSome(before: Tokens, after: Tokens, step: nat) {
    && after.Keys == before.Keys
    && (forall h :: h in before ==>
          && after[h].otp == before[h].otp && after[h].user == before[h].user
          && (IsUsed(before, h) ==> IsUsed(after, h) && after[h].markedAt == before[h].markedAt)
          && (!IsUsed(before, h) && IsUsed(after, h) ==> after[h].markedAt == step))
  }

  lemma MarksKeep(tokens: Tokens, tokens': Tokens, readings: Readings, stamps: map<nat, nat>, step: nat)
    requires MarkInv(tokens, step) && ReadInv(tokens, readings, step) && StampInv(tokens, readings, stamps, step)
    requires MarksSome(tokens, tokens', step)
    ensures MarkInv(tokens', step + 1) && ReadInv(tokens', readings, step + 1)
    ensures StampInv(tokens', readings, stamps, step + 1)
  {
    hide MarkInv, ReadInv, StampInv, MarksSome;
    MarksKeepMarks(tokens, tokens', step);
    MarksKeepReadings(tokens, tokens', readings, step);
    MarksKeepStamps(tokens, tokens', readings, stamps, step);
  }

  lemma MarksKeepMarks(tokens: Tokens, tokens': Tokens, step: nat)
    requires MarkInv(tokens, step) && MarksSome(tokens, tokens', step)
    ensures MarkInv(tokens', step + 1)
  {
    assert forall h :: IsUsed(tokens', h) ==> h in tokens;
  }

  lemma MarksKeepReadings(tokens: Tokens, tokens': Tokens, readings: Readings, step: nat)
    requires ReadInv(tokens, readings, step) && MarksSome(tokens, tokens', step)
    ensures ReadInv(tokens', readings, step + 1)
  {
  }

  lemma MarksKeepStamps(tokens: Tokens, tokens': Tokens, readings: Readings, stamps: map<nat, nat>, step: nat)
    requires StampInv(tokens, readings, stamps, step) && MarksSome(tokens, tokens', step)
    ensures StampInv(tokens', readings, stamps, step + 1)
  {
  }

  /** Marking removes unused passwords and changes no other. */
  lemma FewerUnused(tokens: Tokens, tokens': Tokens, births: map<nat, Birth>, calls: Calls, step: nat)
    requires BirthInv(tokens, births, calls, step) && tokens'.Keys == tokens.Keys
    requires forall h :: Unused(tokens', h) ==> Unused(tokens, h) && tokens'[h].user == tokens[h].user
    ensures BirthInv(tokens', births, calls, step)
  {
    hide Unused;
  }

  lemma ClearedJoins(tokens: Tokens, births: map<nat, Birth>, calls: Calls, step: nat, c: nat, user: nat)
    requires BirthInv(tokens, births, calls, step) && forall h :: Unused(tokens, h) ==> tokens[h].user != user
    ensures BirthInv(tokens, births, calls[c := Cleared(user, step)], step + 1)
  {
    hide Unused, Overlapping;
  }

  lemma InvalidatedTable(tokens: Tokens, user: nat, now: int, step: nat)
    ensures MarksSome(tokens, Invalidated(tokens, user, now, step), step)
    ensures var tokens' := Invalidated(tokens, user, now, step);
            && (forall h :: Unused(tokens', h) ==> Unused(tokens, h) && tokens'[h] == tokens[h] && tokens'[h].user != user)
            && (forall h :: IsUsed(tokens, h) ==> tokens'[h] == tokens[h])
  {
  }

  lemma InvalidateStep(w: World, c: nat)
    requires Inv(w) && Enabled(w, Invalidate(c))
    ensures Inv(Apply(w, Invalidate(c)))
  {
    hide MarkInv, ReadInv, StampInv, CallInv, BirthInv, Invalidated, MarksSome, Fitting;
    var user := w.calls[c].user;
    var tokens := Invalidated(w.tokens, user, w.now, w.step);
    InvalidatedTable(w.tokens, user, w.now, w.step);
    MarksKeep(w.tokens, tokens, w.readings, w.stamps, w.step);
    SameKeys(w.tokens, tokens, w.step);
    FewerUnused(w.tokens, tokens, w.births, w.calls, w.step);
    ClearedJoins(tokens, w.births, w.calls, w.step, c, user);
    NotReadYet(w, c);
    UnreadFits(Cleared(user, w.step), c, w.readings, w.stamps);
    CallMoves(w.calls, w.readings, w.stamps, c, Cleared(user, w.step));
  }

  lemma SameKeys(before: Tokens, after: Tokens, step: nat)
    requires MarksSome(before, after, step)
    ensures after.Keys == before.Keys
  {
  }

  /** A call that has not come to its reading has no history. */
  lemma NotReadYet(w: World, c: nat)
    requires Inv(w) && c in w.calls && !PastReading(w.calls[c]) && !w.calls[c].Closed?
    ensures c !in w.readings && c !in w.stamps
  {
    hide MarkInv, ReadInv, StampInv, BirthInv;
    assert Fitting(w.calls[c], c, w.readings, w.stamps);
  }

  lemma NewCall(w: World, c: nat)
    requires Inv(w) && c !in w.calls
    ensures c !in w.readings && c !in w.stamps
  {
    hide MarkInv, ReadInv, StampInv, BirthInv;
  }

  lemma UnreadFits(p: Phase, c: nat, readings: Readings, stamps: map<nat, nat>)
    requires c !in readings && c !in stamps && !PastReading(p) && p != Closed(LoggedIn)
    ensures Fitting(p, c, readings, stamps)
  {
  }

  lemma NewTokenKeepsTable(tokens: Tokens, readings: Readings, stamps: map<nat, nat>, step: nat, hash: nat, t: Token)
    requires MarkInv(tokens, step) && ReadInv(tokens, readings, step) && StampInv(tokens, readings, stamps, step)
    requires hash !in tokens && t.usedAt.None?
    ensures MarkInv(tokens[hash := t], step + 1) && ReadInv(tokens[hash := t], readings, step + 1)
    ensures StampInv(tokens[hash := t], readings, stamps, step + 1)
  {
    assert forall h :: IsUsed(tokens[hash := t], h) <==> IsUsed(tokens, h);
  }

  lemma NewPasswordKeepsBirths(tokens: Tokens, births: map<nat, Birth>, calls: Calls, step: nat, c: nat, hash: nat, t: Token, p: Phase)
    requires BirthInv(tokens, births, calls, step) && hash !in tokens && t.otp && t.usedAt.None?
    requires c in calls && calls[c].Cleared? && calls[c].user == t.user && !p.Cleared?
    ensures BirthInv(tokens[hash := t], births[hash := Birth(calls[c].at, step)], calls[c := p], step + 1)
  {
    var tokens', births' := tokens[hash := t], births[hash := Birth(calls[c].at, step)];
    var calls' := calls[c := p];
    assert hash !in births;
    forall g, h | Unused(tokens', g) && Unused(tokens', h) ensures Overlapping(tokens', births', g, h) {
      if g != hash {
        assert Unused(tokens, g);
      }
      if h != hash {
        assert Unused(tokens, h);
      }
      if g != hash && h != hash {
        assert Overlapping(tokens, births, g, h);
      }
    }
    forall d, h | d in calls' && calls'[d].Cleared? && Unused(tokens', h) && tokens'[h].user == calls'[d].user
      ensures calls'[d].at < births'[h].inserted
    {
      if h != hash {
        assert Unused(tokens, h);
      }
    }
    forall h | Unused(tokens', h) ensures h in births' {
      if h != hash {
        assert Unused(tokens, h);
      }
    }
  }

  lemma InsertStep(w: World, c: nat, hash: nat)
    requires Inv(w) && Enabled(w, Insert(c, hash)) && hash !in w.tokens
    ensures Inv(Apply(w, Insert(c, hash)))
  {
    hide MarkInv, ReadInv, StampInv, CallInv, BirthInv, Fitting;
    var p := w.calls[c];
    var t, next := Token(true, p.user, w.now + OTP_TTL, None, 0), Issued(p.user, hash);
    LaterTable(w.tokens, w.readings, w.stamps, w.step);
    NewTokenKeepsTable(w.tokens, w.readings, w.stamps, w.step, hash, t);
    NewPasswordKeepsBirths(w.tokens, w.births, w.calls, w.step, c, hash, t, next);
    NotReadYet(w, c);
    UnreadFits(next, c, w.readings, w.stamps);
    CallMoves(w.calls, w.readings, w.stamps, c, next);
  }

  lemma OtherTokenKeepsBirths(tokens: Tokens, births: map<nat, Birth>, calls: Calls, step: nat, hash: nat, t: Token)
    requires BirthInv(tokens, births, calls, step) && hash !in tokens && !t.otp
    ensures BirthInv(tokens[hash := t], births, calls, step + 1)
  {
    var tokens' := tokens[hash := t];
    assert forall h :: Unused(tokens', h) <==> Unused(tokens, h);
    assert forall h :: h in tokens ==> tokens'[h] == tokens[h];
  }

  lemma OtherTokenStep(w: World, hash: nat, user: nat)
    requires Inv(w) && hash !in w.tokens
    ensures Inv(Apply(w, OtherToken(hash, user)))
  {
    hide MarkInv, ReadInv, StampInv, CallInv, BirthInv;
    var t := Token(false, user, w.now, None, 0);
    LaterTable(w.tokens, w.readings, w.stamps, w.step);
    NewTokenKeepsTable(w.tokens, w.readings, w.stamps, w.step, hash, t);
    OtherTokenKeepsBirths(w.tokens, w.births, w.calls, w.step, hash, t);
  }

  lemma NewReading(tokens: Tokens, readings: Readings, stamps: map<nat, nat>, step: nat, c: nat, hash: nat)
    requires ReadInv(tokens, readings, step) && StampInv(tokens, readings, stamps, step)
    requires c !in readings && c !in stamps && Unused(tokens, hash)
    ensures ReadInv(tokens, readings[c := Reading(hash, step)], step + 1)
    ensures StampInv(tokens, readings[c := Reading(hash, step)], stamps, step + 1)
  {
    assert !IsUsed(tokens, hash);
  }

  lemma NewReader(calls: Calls, readings: Readings, stamps: map<nat, nat>, c: nat, r: Reading, user: nat)
    requires CallInv(calls, readings, stamps) && c !in readings && c !in stamps
    ensures CallInv(calls[c := Holding(user, r.hash)], readings[c := r], stamps)
  {
    forall d | d in calls && d != c ensures Fitting(calls[d], d, readings[c := r], stamps) {
      assert Fitting(calls[d], d, readings, stamps);
    }
  }

  lemma ReadStep(w: World, c: nat, hash: nat)
    requires Inv(w) && Enabled(w, Read(c, hash)) && Usable(w.tokens, w.calls[c].user, hash, w.now)
    ensures Inv(Apply(w, Read(c, hash)))
  {
    hide MarkInv, ReadInv, StampInv, CallInv, BirthInv, Fitting;
    NotReadYet(w, c);
    LaterTable(w.tokens, w.readings, w.stamps, w.step);
    NewReading(w.tokens, w.readings, w.stamps, w.step, c, hash);
    NewReader(w.calls, w.readings, w.stamps, c, Reading(hash, w.step), w.calls[c].user);
    LaterBirths(w.tokens, w.births, w.calls, w.step, c, Holding(w.calls[c].user, hash));
  }

  /** A holding call has read its password, which is still in the table. */
  lemma HeldPassword(w: World, c: nat)
    requires Inv(w) && c in w.calls && PastReading(w.calls[c])
    ensures c in w.readings && w.readings[c].hash == w.calls[c].hash && w.readings[c].at < w.step
    ensures w.calls[c].hash in w.tokens && w.tokens[w.calls[c].hash].otp
    ensures w.calls[c].Holding? ==> c !in w.stamps
    ensures !w.calls[c].Holding? ==> c in w.stamps
  {
    hide MarkInv, StampInv, BirthInv;
    assert Fitting(w.calls[c], c, w.readings, w.stamps);
  }

  lemma NewStamp(tokens: Tokens, readings: Readings, stamps: map<nat, nat>, step: nat, c: nat)
    requires StampInv(tokens, readings, stamps, step + 1)
    requires c in readings && readings[c].at < step
    requires IsUsed(tokens, readings[c].hash) && tokens[readings[c].hash].markedAt <= step
    ensures StampInv(tokens, readings, stamps[c := step], step + 1)
  {
  }

  lemma NewStamper(calls: Calls, readings: Readings, stamps: map<nat, nat>, c: nat, step: nat)
    requires CallInv(calls, readings, stamps) && c in calls && calls[c].Holding?
    ensures CallInv(calls[c := Stamped(calls[c].user, calls[c].hash)], readings, stamps[c := step])
  {
    assert Fitting(calls[c], c, readings, stamps);
    forall d | d in calls && d != c ensures Fitting(calls[d], d, readings, stamps[c := step]) {
      assert Fitting(calls[d], d, readings, stamps);
    }
  }

  lemma StampedTable(tokens: Tokens, hash: nat, now: int, step: nat)
    requires MarkInv(tokens, step) && hash in tokens && tokens[hash].otp
    ensures var tokens' := tokens[hash := Marked(tokens[hash], now, step)];
            && MarksSome(tokens, tokens', step) && tokens'.Keys == tokens.Keys
            && (forall h :: Unused(tokens', h) ==> Unused(tokens, h) && tokens'[h].user == tokens[h].user)
            && IsUsed(tokens', hash) && tokens'[hash].markedAt <= step
  {
  }

  lemma StampStep(w: World, c: nat)
    requires Inv(w) && Enabled(w, Stamp(c))
    ensures Inv(Apply(w, Stamp(c)))
  {
    hide MarkInv, ReadInv, StampInv, CallInv, BirthInv, MarksSome, Fitting, Marked;
    var p, v := w.calls[c], Apply(w, Stamp(c));
    HeldPassword(w, c);
    StampedTable(w.tokens, p.hash, w.now, w.step);
    MarksKeep(w.tokens, v.tokens, w.readings, w.stamps, w.step);
    NewStamp(v.tokens, w.readings, w.stamps, w.step, c);
    NewStamper(w.calls, w.readings, w.stamps, c, w.step);
    FewerUnused(w.tokens, v.tokens, w.births, w.calls, w.step);
    LaterBirths(v.tokens, w.births, w.calls, w.step, c, Stamped(p.user, p.hash));
  }

  lemma TimeStep(w: World, v: World)
    requires Inv(w) && v == w.(now := v.now, step := w.step + 1)
    ensures Inv(v)
  {
    hide MarkInv, ReadInv, StampInv, CallInv, BirthInv;
    LaterTable(w.tokens, w.readings, w.stamps, w.step);
    LaterBirths(w.tokens, w.births, w.calls, w.step, 0, Closed(Aborted));
  }

  /** The steps that only move one call along. */
  lemma OtherStep(w: World, e: Event)
    requires Inv(w) && Enabled(w, e)
    requires e.CheckLimits? || e.CountSend? || e.CheckLock? || e.CountFailure? || e.Reset? || e.OpenSession? || e.Fail?
    ensures Inv(Apply(w, e))
  {
    hide MarkInv, ReadInv, StampInv, CallInv, BirthInv, Live, Bump, Inv;
    var c, p := e.c, Apply(w, e).calls[e.c];
    MoveFits(w, e);
    PhaseMove(w, Apply(w, e), c, p);
  }

  lemma MoveFits(w: World, e: Event)
    requires Inv(w) && Enabled(w, e)
    requires e.CheckLimits? || e.CountSend? || e.CheckLock? || e.CountFailure? || e.Reset? || e.OpenSession? || e.Fail?
    ensures e.c in Apply(w, e).calls && Fitting(Apply(w, e).calls[e.c], e.c, w.readings, w.stamps)
  {
    hide MarkInv, ReadInv, StampInv, CallInv, BirthInv, Apply, Bump, Get;
    match e
    case CheckLimits(c, user) => NewCall(w, c); CheckLimitsWrites(w, c, user);
    case CountSend(c) => NotReadYet(w, c); CountSendWrites(w, c);
    case CheckLock(c, user) => NewCall(w, c); CheckLockWrites(w, c, user);
    case CountFailure(c) => NotReadYet(w, c); CountFailureWrites(w, c);
    case Reset(c) => HeldPassword(w, c); ResetWrites(w, c);
    case OpenSession(c) => HeldPassword(w, c); OpenSessionWrites(w, c);
    case Fail(c) => FailWrites(w, c); FailedFits(c, w.readings, w.stamps);
  }

  lemma FailedFits(c: nat, readings: Readings, stamps: map<nat, nat>)
    ensures Fitting(Closed(Aborted), c, readings, stamps)
  {
  }

  /** Every step of any call keeps the invariant. */
  lemma StepKeepsInv(w: World, e: Event)
    requires Inv(w) && Enabled(w, e)
    ensures Inv(Apply(w, e))
  {
    hide MarkInv, ReadInv, StampInv, CallInv, BirthInv, Fitting, Invalidated;
    match e
    case Invalidate(c) => InvalidateStep(w, c);
    case Insert(c, hash) =>
      if hash in w.tokens {
        NotReadYet(w, c);
        UnreadFits(Closed(HashTaken), c, w.readings, w.stamps);
        PhaseMove(w, Apply(w, e), c, Closed(HashTaken));
      } else {
        InsertStep(w, c, hash);
      }
    case Read(c, hash) =>
      if Usable(w.tokens, w.calls[c].user, hash, w.now) {
        ReadStep(w, c, hash);
      } else {
        NotReadYet(w, c);
        UnreadFits(Rejected(w.calls[c].user), c, w.readings, w.stamps);
        PhaseMove(w, Apply(w, e), c, Rejected(w.calls[c].user));
      }
    case Stamp(c) => StampStep(w, c);
    case OtherToken(hash, user) => OtherTokenStep(w, hash, user);
    case Tick(_) => TimeStep(w, Apply(w, e));
    case _ => OtherStep(w, e);
  }

  lemma {:induction false} RunKeepsInv(w: World, es: seq<Event>)
    requires Inv(w) && Legal(w, es)
    ensures Inv(After(w, es))
    decreases |es|
  {
    hide Inv, Apply, Enabled;
    if es != [] {
      StepKeepsInv(w, es[0]);
      RunKeepsInv(Apply(w, es[0]), es[1..]);
    }
  }
}
