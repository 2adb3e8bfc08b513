/** What overlapping one-time-password calls can and cannot do, with the exact conditions. */
module AdminOtpGuarantees {
  import opened AdminOtp
  import opened RateLimit
  import opened Text

  lemma ReachableInv(now: int, es: seq<Event>)
    requires Legal(Init(now), es)
    ensures Inv(After(Init(now), es))
  {
    InitInv(now);
    RunKeepsInv(Init(now), es);
  }

  // ---- Who has read a password, and what became of it ------------------------------------

  /** The calls that found the password usable. */
  function Readers(w: World, hash: nat): set<nat> {
    set c | c in w.readings && w.readings[c].hash == hash
  }

  function SignIns(w: World, hash: nat): set<nat> {
    set c | c in Readers(w, hash) && c in w.calls && w.calls[c] == Closed(LoggedIn)
  }

  /** Read, and failed before the session was opened. */
  function Dropped(w: World, hash: nat): set<nat> {
    set c | c in Readers(w, hash) && c in w.calls && w.calls[c].Closed? && w.calls[c] != Closed(LoggedIn)
  }

  function Busy(w: World, hash: nat): set<nat> {
    set c | c in Readers(w, hash) && c in w.calls && PastReading(w.calls[c])
  }

  /** `b` read the password between `a`'s reading and `a`'s stamp. */
  predicate Straddles(w: World, a: nat, b: nat) {
    a in w.readings && b in w.readings && a in w.stamps && w.readings[a].at < w.readings[b].at < w.stamps[a]
  }

  lemma SignedIsStamped(w: World, hash: nat, c: nat)
    requires Inv(w) && c in SignIns(w, hash)
    ensures c in w.stamps && IsUsed(w.tokens, hash) && w.readings[c].at < w.tokens[hash].markedAt <= w.stamps[c]
  {
    assert Fitting(w.calls[c], c, w.readings, w.stamps);
  }

  lemma AtMostOne(s: set<nat>)
    ensures |s| <= 1 <==> forall a, b :: a in s && b in s ==> a == b
  {
    if a, b :| a in s && b in s && a != b {
      assert {a, b} <= s;
      assert s == {a, b} + (s - {a, b});
      assert |{a, b}| == 2;
    } else if a :| a in s {
      assert s == {a};
    }
  }

  /** The exact condition, in every interleaving: a password signs in at most once if and only if,
      of the calls it signed in, none read it between another's reading and that one's stamp. */
  lemma SignInsExactly(now: int, es: seq<Event>, hash: nat)
    requires Legal(Init(now), es)
    ensures var w := After(Init(now), es);
            |SignIns(w, hash)| <= 1 <==>
              forall a, b :: a in SignIns(w, hash) && b in SignIns(w, hash) ==> !Straddles(w, a, b)
  {
    hide Legal, After, Apply, Enabled;
    var w := After(Init(now), es);
    ReachableInv(now, es);
    AtMostOne(SignIns(w, hash));
    forall a, b | a in SignIns(w, hash) && b in SignIns(w, hash) && a != b
      ensures Straddles(w, a, b) || Straddles(w, b, a)
    {
      SignedIsStamped(w, hash, a);
      SignedIsStamped(w, hash, b);
    }
  }

  /** The count, in every interleaving: the sign-ins of a password are its successful readings, all
      of them made before it was first marked used, less the calls that failed or are still open. */
  lemma SignInsAreReadings(now: int, es: seq<Event>, hash: nat)
    requires Legal(Init(now), es)
    ensures var w := After(Init(now), es);
            && |SignIns(w, hash)| == |Readers(w, hash)| - |Dropped(w, hash)| - |Busy(w, hash)|
            && forall c :: c in Readers(w, hash) && IsUsed(w.tokens, hash) ==> w.readings[c].at < w.tokens[hash].markedAt
  {
    hide Legal, After, Apply, Enabled;
    var w := After(Init(now), es);
    ReachableInv(now, es);
    var signed, dropped, busy := SignIns(w, hash), Dropped(w, hash), Busy(w, hash);
    forall c | c in Readers(w, hash) ensures c in signed + dropped + busy {
      assert Fitting(w.calls[c], c, w.readings, w.stamps);
    }
    assert Readers(w, hash) == signed + dropped + busy;
  }

  // ---- Runs without overlap ------------------------------------------------------------------

  predicate IsReading(w: World, e: Event, hash: nat)
    requires Enabled(w, e)
  {
    e.Read? && e.hash == hash && Usable(w.tokens, w.calls[e.c].user, hash, w.now)
  }

  /** Between its reading and its stamp. */
  ghost predicate Held(w: World, hash: nat) {
    exists c :: c in w.calls && w.calls[c].Holding? && w.calls[c].hash == hash
  }

  /** No verification reads the password between another's reading and that one's stamp. */
  ghost predicate Alone(w: World, es: seq<Event>, hash: nat)
    requires Legal(w, es)
    decreases |es|
  {
    es == [] || (!(IsReading(w, es[0], hash) && Held(w, hash)) && Alone(Apply(w, es[0]), es[1..], hash))
  }

  predicate KeepsClosed(before: Calls, after: Calls) {
    forall c :: c in before && before[c].Closed? ==> c in after && after[c] == before[c]
  }

  lemma MoveKeepsClosed(calls: Calls, c: nat, p: Phase)
    requires c in calls ==> !calls[c].Closed?
    ensures KeepsClosed(calls, calls[c := p])
  {
  }

  lemma RequestLeavesReadings(w: World, e: Event)
    requires Enabled(w, e) && IsRequestStep(e)
    ensures Apply(w, e).readings == w.readings && KeepsClosed(w.calls, Apply(w, e).calls)
  {
    hide Invalidated, Live, Bump, MaySend, Get, VerifyEffect, KeepsClosed;
    var v := RequestEffect(w, e);
    assert Apply(w, e) == v.(step := w.step + 1);
    match e
    case CheckLimits(c, _) => MoveKeepsClosed(w.calls, c, v.calls[c]);
    case Invalidate(c) => MoveKeepsClosed(w.calls, c, v.calls[c]);
    case Insert(c, _) => MoveKeepsClosed(w.calls, c, v.calls[c]);
    case CountSend(c) => MoveKeepsClosed(w.calls, c, v.calls[c]);
  }

  lemma VerificationReadings(w: World, e: Event)
    requires Enabled(w, e) && IsVerifyStep(e)
    ensures Apply(w, e).readings ==
              if e.Read? && Usable(w.tokens, w.calls[e.c].user, e.hash, w.now) then w.readings[e.c := Reading(e.hash, w.step)]
              else w.readings
    ensures KeepsClosed(w.calls, Apply(w, e).calls)
  {
    hide Live, Bump, Usable, MayTry, Get, RequestEffect, KeepsClosed;
    var v := VerifyEffect(w, e);
    assert Apply(w, e) == v.(step := w.step + 1);
    match e
    case CheckLock(c, _) => MoveKeepsClosed(w.calls, c, v.calls[c]);
    case Read(c, _) => MoveKeepsClosed(w.calls, c, v.calls[c]);
    case CountFailure(c) => MoveKeepsClosed(w.calls, c, v.calls[c]);
    case Stamp(c) => MoveKeepsClosed(w.calls, c, v.calls[c]);
    case Reset(c) => MoveKeepsClosed(w.calls, c, v.calls[c]);
    case OpenSession(c) => MoveKeepsClosed(w.calls, c, v.calls[c]);
  }

  lemma RestLeavesReadings(w: World, e: Event)
    requires Enabled(w, e) && !IsRequestStep(e) && !IsVerifyStep(e)
    ensures Apply(w, e).readings == w.readings
    ensures KeepsClosed(w.calls, Apply(w, e).calls)
  {
    hide RequestEffect, VerifyEffect;
  }

  lemma ReadingsStep(w: World, e: Event)
    requires Enabled(w, e)
    ensures Apply(w, e).readings ==
              if e.Read? && Usable(w.tokens, w.calls[e.c].user, e.hash, w.now) then w.readings[e.c := Reading(e.hash, w.step)]
              else w.readings
    ensures KeepsClosed(w.calls, Apply(w, e).calls)
  {
    hide Apply, Usable;
    if IsRequestStep(e) {
      RequestLeavesReadings(w, e);
    } else if IsVerifyStep(e) {
      VerificationReadings(w, e);
    } else {
      RestLeavesReadings(w, e);
    }
  }

  lemma ReadersStep(w: World, e: Event, hash: nat)
    requires Inv(w) && Enabled(w, e)
    ensures IsReading(w, e, hash) ==> e.Read? && e.c !in Readers(w, hash) && !IsUsed(w.tokens, hash)
    ensures Readers(Apply(w, e), hash) == Readers(w, hash) + if IsReading(w, e, hash) then {e.c} else {}
    ensures Dropped(w, hash) <= Dropped(Apply(w, e), hash)
  {
    hide MarkInv, ReadInv, StampInv, CallInv, BirthInv, Apply, Inv;
    if e.Read? {
      NotReadYet(w, e.c);
    }
    ReadingsStep(w, e);
  }

  lemma {:induction false} ReadersGrow(w: World, es: seq<Event>, hash: nat)
    requires Inv(w) && Legal(w, es)
    ensures Readers(w, hash) <= Readers(After(w, es), hash) && Dropped(w, hash) <= Dropped(After(w, es), hash)
    decreases |es|
  {
    hide Inv, Apply, Enabled, Readers, Dropped, IsReading;
    if es != [] {
      ReadersStep(w, es[0], hash);
      StepKeepsInv(w, es[0]);
      ReadersGrow(Apply(w, es[0]), es[1..], hash);
    }
  }

  /** A reader that did not fail holds the password, or the password is used. */
  lemma ReaderHoldsOrUsed(w: World, hash: nat, c: nat)
    requires Inv(w) && c in Readers(w, hash) && c !in Dropped(w, hash)
    ensures Held(w, hash) || IsUsed(w.tokens, hash)
  {
    assert Fitting(w.calls[c], c, w.readings, w.stamps);
    if !w.calls[c].Holding? {
      assert c in w.stamps;
    }
  }

  lemma HeldIsRead(w: World, hash: nat)
    requires Inv(w) && Held(w, hash)
    ensures Readers(w, hash) != {}
  {
    var c :| c in w.calls && w.calls[c].Holding? && w.calls[c].hash == hash;
    HeldPassword(w, c);
    assert c in Readers(w, hash);
  }

  lemma {:induction false} AloneExactlyFrom(w: World, es: seq<Event>, hash: nat)
    requires Inv(w) && Legal(w, es) && |Readers(w, hash)| <= 1 && Dropped(After(w, es), hash) == {}
    ensures |Readers(After(w, es), hash)| <= 1 <==> Alone(w, es, hash)
    decreases |es|
  {
    hide Inv, Apply, Enabled, Readers, Dropped, IsReading, Held;
    if es != [] {
      var v := Apply(w, es[0]);
      StepKeepsInv(w, es[0]);
      ReadersStep(w, es[0], hash);
      ReadersGrow(w, es, hash);
      ReadersGrow(v, es[1..], hash);
      if IsReading(w, es[0], hash) {
        if c :| c in Readers(w, hash) {
          ReaderHoldsOrUsed(w, hash, c);
          assert {c, es[0].c} <= Readers(After(w, es), hash);
          AtMostOne(Readers(After(w, es), hash));
        } else {
          if Held(w, hash) {
            HeldIsRead(w, hash);
          }
          assert Readers(v, hash) == {es[0].c};
          AloneExactlyFrom(v, es[1..], hash);
        }
      } else {
        AloneExactlyFrom(v, es[1..], hash);
      }
    }
  }

  /** The exact condition on the schedule, when no verification of the password fails half-way: it
      is read, and so signs in, at most once if and only if no verification reads it between
      another's reading and that one's stamp. */
  lemma AloneExactly(now: int, es: seq<Event>, hash: nat)
    requires Legal(Init(now), es) && Dropped(After(Init(now), es), hash) == {}
    ensures |SignIns(After(Init(now), es), hash)| + |Busy(After(Init(now), es), hash)| <= 1 <==> Alone(Init(now), es, hash)
  {
    hide Legal, After, Alone, Inv, SignIns, Dropped, Busy;
    InitInv(now);
    assert Readers(Init(now), hash) == {};
    AloneExactlyFrom(Init(now), es, hash);
    SignInsAreReadings(now, es, hash);
  }

  /** At most one reader of the password has not failed. */
  ghost predicate Solo(w: World, hash: nat) {
    forall a, b :: a in Readers(w, hash) - Dropped(w, hash) && b in Readers(w, hash) - Dropped(w, hash) ==> a == b
  }

  lemma SoloStep(w: World, e: Event, hash: nat)
    requires Inv(w) && Enabled(w, e) && Solo(w, hash) && !(IsReading(w, e, hash) && Held(w, hash))
    ensures Solo(Apply(w, e), hash)
  {
    hide Inv, Apply, Enabled, Readers, Dropped, IsReading, Held;
    ReadersStep(w, e, hash);
    if IsReading(w, e, hash) {
      forall c | c in Readers(w, hash) ensures c in Dropped(w, hash) {
        if c !in Dropped(w, hash) {
          ReaderHoldsOrUsed(w, hash, c);
        }
      }
      var v := Apply(w, e);
      assert forall c :: c in Readers(v, hash) - Dropped(v, hash) ==> c == e.c;
    } else {
      assert Readers(Apply(w, e), hash) - Dropped(Apply(w, e), hash) <= Readers(w, hash) - Dropped(w, hash);
    }
  }

  lemma {:induction false} SoloRun(w: World, es: seq<Event>, hash: nat)
    requires Inv(w) && Legal(w, es) && Solo(w, hash) && Alone(w, es, hash)
    ensures Solo(After(w, es), hash)
    decreases |es|
  {
    hide Inv, Apply, Enabled, Solo, IsReading, Held;
    if es != [] {
      StepKeepsInv(w, es[0]);
      SoloStep(w, es[0], hash);
      SoloRun(Apply(w, es[0]), es[1..], hash);
    }
  }

  /** Under that condition, failures or not, every password signs in at most once. */
  lemma EachPasswordWorksOnce(now: int, es: seq<Event>, hash: nat)
    requires Legal(Init(now), es) && Alone(Init(now), es, hash)
    ensures |SignIns(After(Init(now), es), hash)| <= 1
  {
    hide Legal, After, Alone, Inv;
    InitInv(now);
    assert Solo(Init(now), hash);
    SoloRun(Init(now), es, hash);
    var w := After(Init(now), es);
    assert SignIns(w, hash) <= Readers(w, hash) - Dropped(w, hash);
    AtMostOne(SignIns(w, hash));
  }

  // ---- Two overlapping verifications -----------------------------------------------------------

  predicate MayOverlap(w: World, user: nat, hash: nat, a: nat, b: nat) {
    && a != b && !At(w, a) && !At(w, b)
    && MayTry(w, user) && Usable(w.tokens, user, hash, w.now)
  }

  function Verifications(user: nat, hash: nat, a: nat, b: nat): seq<Event> {
    [CheckLock(a, user)] + [CheckLock(b, user)] + [Read(a, hash)] + [Read(b, hash)]
    + [Stamp(a)] + [Stamp(b)] + [Reset(a)] + [Reset(b)] + [OpenSession(a)] + [OpenSession(b)]
  }

  lemma Next(start: World, es: seq<Event>, w: World, e: Event) returns (v: World)
    requires Legal(start, es) && After(start, es) == w && Enabled(w, e)
    ensures Legal(start, es + [e]) && After(start, es + [e]) == v == Apply(w, e)
  {
    Appended(start, es, e);
    v := Apply(w, e);
  }

  /** Whatever the password, its user and the state: two verifications that overlap both sign in. */
  lemma TwoVerificationsSignInTwice(w: World, user: nat, hash: nat, a: nat, b: nat)
    requires MayOverlap(w, user, hash, a, b)
    ensures Legal(w, Verifications(user, hash, a, b))
    ensures {a, b} <= SignIns(After(w, Verifications(user, hash, a, b)), hash)
  {
    hide Legal, After, Live, Bump;
    var es := [CheckLock(a, user)] + [CheckLock(b, user)] + [Read(a, hash)] + [Read(b, hash)];
    var w4 := ReadTwice(w, user, hash, a, b);
    StampTwice(w, es, w4, user, hash, a, b);
  }

  lemma ReadTwice(w: World, user: nat, hash: nat, a: nat, b: nat) returns (v: World)
    requires MayOverlap(w, user, hash, a, b)
    ensures var es := [CheckLock(a, user)] + [CheckLock(b, user)] + [Read(a, hash)] + [Read(b, hash)];
            Legal(w, es) && After(w, es) == v && BothHold(v, user, hash, a, b)
  {
    hide Legal, After, Live, Bump;
    NothingRuns(w);
    var w1 := Next(w, [], w, CheckLock(a, user));
    assert [] + [CheckLock(a, user)] == [CheckLock(a, user)];
    var w2 := Next(w, [CheckLock(a, user)], w1, CheckLock(b, user));
    var w3 := Next(w, [CheckLock(a, user)] + [CheckLock(b, user)], w2, Read(a, hash));
    v := Next(w, [CheckLock(a, user)] + [CheckLock(b, user)] + [Read(a, hash)], w3, Read(b, hash));
    BothHolding(w, w1, w2, w3, v, user, hash, a, b);
  }

  lemma NothingRuns(w: World)
    ensures Legal(w, []) && After(w, []) == w
  {
  }

  predicate BothHold(w: World, user: nat, hash: nat, a: nat, b: nat) {
    && a != b && a in w.calls && b in w.calls
    && w.calls[a] == Holding(user, hash) && w.calls[b] == Holding(user, hash)
    && {a, b} <= Readers(w, hash)
  }

  lemma BothHolding(w: World, w1: World, w2: World, w3: World, w4: World, user: nat, hash: nat, a: nat, b: nat)
    requires MayOverlap(w, user, hash, a, b)
    requires w1 == Apply(w, CheckLock(a, user)) && w2 == Apply(w1, CheckLock(b, user))
    requires Enabled(w2, Read(a, hash)) && w3 == Apply(w2, Read(a, hash))
    requires Enabled(w3, Read(b, hash)) && w4 == Apply(w3, Read(b, hash))
    ensures BothHold(w4, user, hash, a, b)
  {
  }

  lemma StampTwice(start: World, es: seq<Event>, w: World, user: nat, hash: nat, a: nat, b: nat)
    requires Legal(start, es) && After(start, es) == w && BothHold(w, user, hash, a, b)
    ensures var more := es + [Stamp(a)] + [Stamp(b)] + [Reset(a)] + [Reset(b)] + [OpenSession(a)] + [OpenSession(b)];
            Legal(start, more) && {a, b} <= SignIns(After(start, more), hash)
  {
    hide Legal, After, Enabled, Apply, Marked;
    StampWrites(w, a);
    var w1 := Next(start, es, w, Stamp(a));
    StampWrites(w1, b);
    var w2 := Next(start, es + [Stamp(a)], w1, Stamp(b));
    ResetWrites(w2, a);
    var w3 := Next(start, es + [Stamp(a)] + [Stamp(b)], w2, Reset(a));
    ResetWrites(w3, b);
    var w4 := Next(start, es + [Stamp(a)] + [Stamp(b)] + [Reset(a)], w3, Reset(b));
    OpenSessionWrites(w4, a);
    var w5 := Next(start, es + [Stamp(a)] + [Stamp(b)] + [Reset(a)] + [Reset(b)], w4, OpenSession(a));
    OpenSessionWrites(w5, b);
    var w6 := Next(start, es + [Stamp(a)] + [Stamp(b)] + [Reset(a)] + [Reset(b)] + [OpenSession(a)], w5, OpenSession(b));
    assert w6.readings == w.readings;
  }

  lemma {:induction false} Joined(w: World, es: seq<Event>, fs: seq<Event>)
    requires Legal(w, es) && Legal(After(w, es), fs)
    ensures Legal(w, es + fs) && After(w, es + fs) == After(After(w, es), fs)
    decreases |es|
  {
    hide Apply, Enabled;
    if es == [] {
      assert [] + fs == fs;
    } else {
      Joined(Apply(w, es[0]), es[1..], fs);
      assert (es + fs)[1..] == es[1..] + fs;
    }
  }

  function Issuing(user: nat, hash: nat, c: nat): seq<Event> {
    [CheckLimits(c, user)] + [Invalidate(c)] + [Insert(c, hash)]
  }

  lemma PasswordIsIssued(now: int, user: nat, hash: nat, c: nat)
    ensures Legal(Init(now), Issuing(user, hash, c))
    ensures var w := After(Init(now), Issuing(user, hash, c));
            MayTry(w, user) && Usable(w.tokens, user, hash, w.now) && w.calls.Keys == {c}
  {
    hide Legal, After;
    var w := Init(now);
    NothingRuns(w);
    var w1 := Next(w, [], w, CheckLimits(c, user));
    assert [] + [CheckLimits(c, user)] == [CheckLimits(c, user)];
    var w2 := Next(w, [CheckLimits(c, user)], w1, Invalidate(c));
    var w3 := Next(w, [CheckLimits(c, user)] + [Invalidate(c)], w2, Insert(c, hash));
  }

  /** For every user and password some run from the start signs in twice with it. */
  lemma APasswordCanWorkTwice(now: int, user: nat, hash: nat)
    ensures var es := Issuing(user, hash, 0) + Verifications(user, hash, 1, 2);
            Legal(Init(now), es) && |SignIns(After(Init(now), es), hash)| >= 2
  {
    hide Legal, After, MayTry, Usable, SignIns;
    PasswordIsIssued(now, user, hash, 0);
    var w := After(Init(now), Issuing(user, hash, 0));
    TwoVerificationsSignInTwice(w, user, hash, 1, 2);
    Joined(Init(now), Issuing(user, hash, 0), Verifications(user, hash, 1, 2));
    AtMostOne(SignIns(After(w, Verifications(user, hash, 1, 2)), hash));
  }

  // ---- Unused passwords of one user ----------------------------------------------------------------

  predicate UnusedOf(w: World, user: nat, hash: nat) {
    Unused(w.tokens, hash) && w.tokens[hash].user == user
  }

  ghost predicate OneUnused(w: World, user: nat) {
    forall g, h :: UnusedOf(w, user, g) && UnusedOf(w, user, h) ==> g == h
  }

  /** The later request's UPDATE ran before the earlier one's INSERT. */
  predicate Crossed(w: World, g: nat, h: nat) {
    g in w.births && h in w.births && w.births[h].cleared < w.births[g].inserted < w.births[h].inserted
  }

  /** The exact condition, in every interleaving: a user has at most one unused password if and only
      if no two unused ones come from requests that crossed. */
  lemma OneUnusedExactly(now: int, es: seq<Event>, user: nat)
    requires Legal(Init(now), es)
    ensures var w := After(Init(now), es);
            OneUnused(w, user) <==> forall g, h :: UnusedOf(w, user, g) && UnusedOf(w, user, h) ==> !Crossed(w, g, h)
  {
    hide Legal, After, Inv, Unused;
    var w := After(Init(now), es);
    ReachableInv(now, es);
    forall g, h | UnusedOf(w, user, g) && UnusedOf(w, user, h) && g != h ensures Crossed(w, g, h) || Crossed(w, h, g) {
      UnusedPairCrossed(w, g, h);
    }
  }

  lemma UnusedPairCrossed(w: World, g: nat, h: nat)
    requires Inv(w) && Unused(w.tokens, g) && Unused(w.tokens, h) && w.tokens[g].user == w.tokens[h].user && g != h
    ensures Crossed(w, g, h) || Crossed(w, h, g)
  {
    hide MarkInv, ReadInv, StampInv, CallInv;
    assert Overlapping(w.tokens, w.births, g, h) && Overlapping(w.tokens, w.births, h, g);
  }

  /** Since this call's UPDATE no password of its user has been inserted. */
  ghost predicate Untouched(w: World, c: nat) {
    c in w.calls && w.calls[c].Cleared? ==>
      forall g :: g in w.births && g in w.tokens && w.tokens[g].user == w.calls[c].user ==> w.births[g].inserted <= w.calls[c].at
  }

  /** Every INSERT of the run follows its own UPDATE with no other INSERT for that user between. */
  ghost predicate RequestsDoNotCross(w: World, es: seq<Event>)
    requires Legal(w, es)
    decreases |es|
  {
    es == [] || ((es[0].Insert? ==> Untouched(w, es[0].c)) && RequestsDoNotCross(Apply(w, es[0]), es[1..]))
  }

  lemma TokensLeft(w: World, e: Event)
    requires Enabled(w, e) && !e.Invalidate? && !e.Insert? && !e.Stamp? && !e.OtherToken?
    ensures Apply(w, e).tokens == w.tokens
  {
    hide Live, Bump, MaySend, MayTry, Get, Usable, Invalidated;
  }

  /** A step other than an issuing INSERT makes no password unused. */
  lemma OnlyInsertsIssue(w: World, e: Event, user: nat, hash: nat)
    requires Inv(w) && Enabled(w, e) && !e.Insert? && UnusedOf(Apply(w, e), user, hash)
    ensures UnusedOf(w, user, hash)
  {
    hide Inv, Live, Bump, MaySend, MayTry, Get, Usable;
    match e
    case Invalidate(_) =>
    case Stamp(c) => HeldPassword(w, c);
    case OtherToken(_, _) =>
    case _ => TokensLeft(w, e);
  }

  /** An INSERT that nothing crossed finds the user without an unused password. */
  lemma UntouchedIsClear(w: World, c: nat, hash: nat)
    requires Inv(w) && At(w, c) && w.calls[c].Cleared? && Untouched(w, c)
    ensures !UnusedOf(w, w.calls[c].user, hash)
  {
    hide MarkInv, ReadInv, StampInv, CallInv;
  }

  lemma OneUnusedStep(w: World, e: Event, user: nat)
    requires Inv(w) && Enabled(w, e) && OneUnused(w, user) && (e.Insert? ==> Untouched(w, e.c))
    ensures OneUnused(Apply(w, e), user)
  {
    hide Inv, Untouched, Apply, UnusedOf, Enabled;
    var v := Apply(w, e);
    forall g, h | UnusedOf(v, user, g) && UnusedOf(v, user, h) ensures g == h {
      if e.Insert? {
        InsertIssues(w, e.c, e.hash, user, g);
        InsertIssues(w, e.c, e.hash, user, h);
      } else {
        OnlyInsertsIssue(w, e, user, g);
        OnlyInsertsIssue(w, e, user, h);
      }
    }
  }

  lemma InsertIssues(w: World, c: nat, hash: nat, user: nat, h: nat)
    requires Inv(w) && Enabled(w, Insert(c, hash)) && Untouched(w, c) && UnusedOf(Apply(w, Insert(c, hash)), user, h)
    ensures if hash !in w.tokens && w.calls[c].user == user then h == hash else UnusedOf(w, user, h)
  {
    hide Inv, Untouched;
    UntouchedIsClear(w, c, h);
  }

  /** So when requests do not cross, a user never has two unused passwords. */
  lemma {:induction false} UncrossedLeaveOne(w: World, es: seq<Event>, user: nat)
    requires Inv(w) && Legal(w, es) && OneUnused(w, user) && RequestsDoNotCross(w, es)
    ensures OneUnused(After(w, es), user)
    decreases |es|
  {
    hide Inv, Apply, Enabled, OneUnused, Untouched;
    if es != [] {
      StepKeepsInv(w, es[0]);
      OneUnusedStep(w, es[0], user);
      UncrossedLeaveOne(Apply(w, es[0]), es[1..], user);
    }
  }

  function Crossing(user: nat, g: nat, h: nat): seq<Event> {
    [CheckLimits(0, user)] + [CheckLimits(1, user)] + [Invalidate(0)] + [Invalidate(1)] + [Insert(0, g)] + [Insert(1, h)]
  }

  /** And for every user and any two passwords, two crossing requests leave both unused. */
  lemma CrossingLeavesTwo(now: int, user: nat, g: nat, h: nat)
    requires g != h
    ensures Legal(Init(now), Crossing(user, g, h))
    ensures !OneUnused(After(Init(now), Crossing(user, g, h)), user)
  {
    hide Legal, After, Enabled, Apply;
    var w := Init(now);
    NothingRuns(w);
    CheckLimitsWrites(w, 0, user);
    var w1 := Next(w, [], w, CheckLimits(0, user));
    assert [] + [CheckLimits(0, user)] == [CheckLimits(0, user)];
    CheckLimitsWrites(w1, 1, user);
    var w2 := Next(w, [CheckLimits(0, user)], w1, CheckLimits(1, user));
    InvalidateWrites(w2, 0);
    var w3 := Next(w, [CheckLimits(0, user)] + [CheckLimits(1, user)], w2, Invalidate(0));
    InvalidateWrites(w3, 1);
    var w4 := Next(w, [CheckLimits(0, user)] + [CheckLimits(1, user)] + [Invalidate(0)], w3, Invalidate(1));
    InsertWrites(w4, 0, g);
    var es := [CheckLimits(0, user)] + [CheckLimits(1, user)] + [Invalidate(0)] + [Invalidate(1)];
    var w5 := Next(w, es, w4, Insert(0, g));
    InsertWrites(w5, 1, h);
    var w6 := Next(w, es + [Insert(0, g)], w5, Insert(1, h));
    assert UnusedOf(w6, user, g) && UnusedOf(w6, user, h);
  }

  // ---- Superseding -----------------------------------------------------------------------------------

  lemma UsedStep(w: World, e: Event, hash: nat)
    requires Inv(w) && Enabled(w, e) && IsUsed(w.tokens, hash)
    ensures IsUsed(Apply(w, e).tokens, hash)
    ensures SignIns(Apply(w, e), hash) <= SignIns(w, hash) + Busy(w, hash)
    ensures Busy(Apply(w, e), hash) <= Busy(w, hash)
    ensures Readers(Apply(w, e), hash) == Readers(w, hash)
  {
    hide Inv, Apply, Enabled;
    ReadersStep(w, e, hash);
    UsedStays(w, e, hash);
    forall c | c in Readers(w, hash) && c !in Busy(w, hash) && c !in SignIns(w, hash)
      ensures c !in Busy(Apply(w, e), hash) && c !in SignIns(Apply(w, e), hash)
    {
      ReaderIsPlaced(w, hash, c);
      ReadersStep(w, e, hash);
    }
    forall c | c in Readers(w, hash) && c in SignIns(w, hash) ensures c !in Busy(Apply(w, e), hash) {
      ReadingsStep(w, e);
    }
  }

  lemma ReaderIsPlaced(w: World, hash: nat, c: nat)
    requires Inv(w) && c in Readers(w, hash)
    ensures c in SignIns(w, hash) || c in Dropped(w, hash) || c in Busy(w, hash)
  {
    assert Fitting(w.calls[c], c, w.readings, w.stamps);
  }

  lemma UsedStays(w: World, e: Event, hash: nat)
    requires Inv(w) && Enabled(w, e) && IsUsed(w.tokens, hash)
    ensures IsUsed(Apply(w, e).tokens, hash)
  {
    hide Inv, Live, Bump, MaySend, MayTry, Get, Usable;
    match e
    case Invalidate(_) =>
    case Insert(_, _) =>
    case Stamp(_) =>
    case OtherToken(_, _) =>
    case _ => TokensLeft(w, e);
  }

  /** A used password is never read successfully again: only calls that had already read it can
      still sign in. */
  lemma {:induction false} UsedIsDead(w: World, es: seq<Event>, hash: nat)
    requires Inv(w) && Legal(w, es) && IsUsed(w.tokens, hash)
    ensures var v := After(w, es);
            Readers(v, hash) == Readers(w, hash) && SignIns(v, hash) <= SignIns(w, hash) + Busy(w, hash)
    decreases |es|
  {
    hide Inv, Apply, Enabled, Readers, SignIns, Busy, IsUsed;
    if es != [] {
      StepKeepsInv(w, es[0]);
      UsedStep(w, es[0], hash);
      UsedIsDead(Apply(w, es[0]), es[1..], hash);
    }
  }

  /** From its UPDATE on, and whatever then fails, a request kills every earlier password of its user
      except for the verifications that had read it by then; with none of those open it never signs
      in again. */
  lemma RequestSupersedes(w: World, c: nat, hash: nat, later: seq<Event>)
    requires Inv(w) && Enabled(w, Invalidate(c)) && Legal(Apply(w, Invalidate(c)), later)
    requires hash in w.tokens && w.tokens[hash].otp && w.tokens[hash].user == w.calls[c].user
    ensures var v := After(Apply(w, Invalidate(c)), later);
            && Readers(v, hash) == Readers(w, hash)
            && SignIns(v, hash) <= SignIns(w, hash) + Busy(w, hash)
            && (Busy(w, hash) == {} ==> SignIns(v, hash) <= SignIns(w, hash))
  {
    hide Inv, Legal, After, SignIns, Busy, Readers;
    var w1 := Apply(w, Invalidate(c));
    StepKeepsInv(w, Invalidate(c));
    assert IsUsed(w1.tokens, hash);
    UsedIsDead(w1, later, hash);
    InvalidateLeavesReaders(w, c, hash);
  }

  lemma InvalidateLeavesReaders(w: World, c: nat, hash: nat)
    requires Inv(w) && Enabled(w, Invalidate(c))
    ensures var v := Apply(w, Invalidate(c));
            Readers(v, hash) == Readers(w, hash) && SignIns(v, hash) == SignIns(w, hash) && Busy(v, hash) == Busy(w, hash)
  {
    hide Inv, Invalidated;
    NotReadYet(w, c);
  }

  /** An INSERT is refused exactly when the drawn hash is in the table, whichever kind of token put it
      there; the user's earlier passwords stay dead and nothing is issued. */
  lemma InsertExactly(w: World, c: nat, hash: nat)
    requires Inv(w) && Enabled(w, Insert(c, hash))
    ensures var v := Apply(w, Insert(c, hash));
            && (v.calls[c] == Closed(HashTaken) <==> hash in w.tokens)
            && (hash in w.tokens ==> v.tokens == w.tokens)
            && (hash !in w.tokens ==>
                  && v.calls[c] == Issued(w.calls[c].user, hash)
                  && v.tokens == w.tokens[hash := Token(true, w.calls[c].user, w.now + OTP_TTL, None, 0)])
  {
    hide Inv, Live, Bump, Invalidated, VerifyEffect, MaySend, Get;
  }

  /** A reading succeeds exactly for the user's own, unused, unexpired password, and changes no row;
      otherwise the call goes on to count a failure. */
  lemma ReadExactly(w: World, c: nat, hash: nat)
    requires Inv(w) && Enabled(w, Read(c, hash))
    ensures var v, user := Apply(w, Read(c, hash)), w.calls[c].user;
            && v.tokens == w.tokens && v.failures == w.failures
            && (c in Readers(v, hash) <==>
                  && hash in w.tokens && w.tokens[hash].otp && w.tokens[hash].user == user
                  && w.tokens[hash].usedAt == None && w.now <= w.tokens[hash].expiresAt)
            && v.calls[c] == (if c in Readers(v, hash) then Holding(user, hash) else Rejected(user))
            && (forall d :: d != c ==> (d in v.calls <==> d in w.calls) && (d in w.calls ==> v.calls[d] == w.calls[d]))
  {
    hide Inv, Live, Bump, Invalidated, RequestEffect, Get;
    NotReadYet(w, c);
  }
}
