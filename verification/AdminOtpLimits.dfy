/** The three Redis limits of the admin sign-in under any interleaving: sends per half hour, sends per
    day, and wrong passwords. Each is read when a call begins and counted when it ends, so what it
    bounds depends on how many calls of one user are between the two. */
module AdminOtpLimits {
  import opened AdminOtp
  import opened AdminOtpGuarantees
  import opened Arithmetic
  import opened RateLimit
  import opened Text

  datatype Limit = PerWindow | PerDay | WrongPasswords

  function Threshold(l: Limit): nat {
    match l
    case PerWindow => RESEND_WINDOW_LIMIT
    case PerDay => RESEND_DAILY_LIMIT
    case WrongPasswords => MAX_FAILURES
  }

  function Window(l: Limit): int {
    match l
    case PerWindow => RESEND_WINDOW_TTL
    case PerDay => RESEND_DAILY_TTL
    case WrongPasswords => LOCK_TTL
  }

  function CounterOf(w: World, l: Limit, user: nat): Counter {
    match l
    case PerWindow => Get(w.windowSends, user)
    case PerDay => Get(w.dailySends, user)
    case WrongPasswords => Get(w.failures, user)
  }

  predicate IsSending(p: Phase) {
    p.Allowed? || p.Cleared? || p.Issued?
  }

  /** Past the reading of the counter, not yet counted. */
  predicate Uncounted(p: Phase, l: Limit, user: nat) {
    if l.WrongPasswords? then (p.Unlocked? || p.Rejected?) && p.user == user
    else IsSending(p) && p.user == user
  }

  function Flight(calls: Calls, l: Limit, user: nat): set<nat> {
    set c | c in calls && Uncounted(calls[c], l, user)
  }

  predicate IsUncounted(calls: Calls, c: nat, l: Limit, user: nat) {
    c in calls && Uncounted(calls[c], l, user)
  }

  predicate IsCall(e: Event) {
    !e.Tick? && !e.OtherToken?
  }

  /** What an event is to the counter: a call enters after its reading, counts, or leaves uncounted. */
  function MoveOf(w: World, e: Event, l: Limit, user: nat): Option<Move>
    requires Enabled(w, e)
  {
    if !IsCall(e) then None
    else
      var before, after := IsUncounted(w.calls, e.c, l, user), IsUncounted(Apply(w, e).calls, e.c, l, user);
      if before && (e.CountSend? || e.CountFailure?) then Some(Count(w.now))
      else if before && !after then Some(Leave(w.now))
      else if !before && after then Some(Enter(w.now))
      else None
  }

  function MovesOf(w: World, es: seq<Event>, l: Limit, user: nat): seq<Move>
    requires Legal(w, es)
    decreases |es|
  {
    if es == [] then []
    else
      var rest := MovesOf(Apply(w, es[0]), es[1..], l, user);
      match MoveOf(w, es[0], l, user)
      case None => rest
      case Some(move) => [move] + rest
  }

  /** Never more than `most` calls of the user are between reading and counting. */
  predicate AtMost(w: World, es: seq<Event>, l: Limit, user: nat, most: nat)
    requires Legal(w, es)
    decreases |es|
  {
    |Flight(w.calls, l, user)| <= most && (es == [] || AtMost(Apply(w, es[0]), es[1..], l, user, most))
  }

  predicate IsReset(w: World, e: Event, l: Limit, user: nat)
    requires Enabled(w, e)
  {
    l.WrongPasswords? && e.Reset? && w.calls[e.c].user == user
  }

  /** No sign-in of the user deletes the failure counter. */
  predicate NoReset(w: World, es: seq<Event>, l: Limit, user: nat)
    requires Legal(w, es)
    decreases |es|
  {
    es == [] || (!IsReset(w, es[0], l, user) && NoReset(Apply(w, es[0]), es[1..], l, user))
  }

  // ---- One step --------------------------------------------------------------------------------

  lemma CardinalityWithout(s: set<nat>, c: nat)
    ensures |s - {c}| == |s| - Bit(c in s)
  {
    if c !in s {
      assert s - {c} == s;
    }
  }

  lemma SameApart(before: set<nat>, after: set<nat>, c: nat)
    requires before - {c} == after - {c}
    ensures |after| == |before| - Bit(c in before) + Bit(c in after)
  {
    CardinalityWithout(before, c);
    CardinalityWithout(after, c);
  }

  lemma FlightMoves(calls: Calls, c: nat, p: Phase, l: Limit, user: nat)
    ensures |Flight(calls[c := p], l, user)|
         == |Flight(calls, l, user)| - Bit(IsUncounted(calls, c, l, user)) + Bit(Uncounted(p, l, user))
    ensures IsUncounted(calls, c, l, user) ==> |Flight(calls, l, user)| > 0
  {
    hide Uncounted, Bit;
    var before, after := Flight(calls, l, user), Flight(calls[c := p], l, user);
    assert before - {c} == after - {c};
    SameApart(before, after, c);
    assert c in before <==> IsUncounted(calls, c, l, user);
    assert c in after <==> Uncounted(p, l, user);
  }

  /** The counter and the flight after an event, by its move. */
  predicate Moved(c: Counter, n: nat, c': Counter, n': nat, move: Option<Move>, l: Limit, now: int) {
    match move
    case None => c' == c && n' == n
    case Some(Enter(at)) => at == now && Live(c, at) < Threshold(l) && c' == c && n' == n + 1
    case Some(Count(at)) => at == now && n > 0 && c' == Bump(c, at, Window(l)) && n' == n - 1
    case Some(Leave(at)) => at == now && n > 0 && c' == c && n' == n - 1
  }

  predicate StepMoved(w: World, e: Event, l: Limit, user: nat)
    requires Enabled(w, e)
  {
    var v := Apply(w, e);
    && w.now <= v.now && (MoveOf(w, e, l, user).Some? ==> v.now == w.now && MoveOf(w, e, l, user).value.at == w.now)
    && (IsReset(w, e, l, user) ==> CounterOf(v, l, user) == Absent && |Flight(v.calls, l, user)| == |Flight(w.calls, l, user)|)
    && (!IsReset(w, e, l, user) ==>
          Moved(CounterOf(w, l, user), |Flight(w.calls, l, user)|, CounterOf(v, l, user), |Flight(v.calls, l, user)|,
                MoveOf(w, e, l, user), l, w.now))
  }

  /** An event changes at most its own call's phase, and the time only when it is no call's. */
  predicate MovesOneCall(w: World, e: Event)
    requires Enabled(w, e)
  {
    var v := Apply(w, e);
    if IsCall(e) then OneChanged(w.calls, v.calls, e.c) && v.now == w.now
    else v.calls == w.calls && v.now >= w.now
  }

  predicate OneChanged(before: Calls, after: Calls, c: nat) {
    c in after && after == before[c := after[c]]
  }

  lemma ChangedAt(before: Calls, c: nat, p: Phase)
    ensures OneChanged(before, before[c := p], c)
  {
  }

  lemma RequestMoves(w: World, e: Event)
    requires Enabled(w, e) && IsRequestStep(e)
    ensures MovesOneCall(w, e)
  {
    hide VerifyEffect, Live, Bump, Invalidated, MaySend, Get, OneChanged;
    var v := RequestEffect(w, e);
    assert Apply(w, e) == v.(step := w.step + 1);
    match e
    case CheckLimits(c, _) => ChangedAt(w.calls, c, v.calls[c]);
    case Invalidate(c) => ChangedAt(w.calls, c, v.calls[c]);
    case Insert(c, _) => ChangedAt(w.calls, c, v.calls[c]);
    case CountSend(c) => ChangedAt(w.calls, c, v.calls[c]);
  }

  lemma AttemptMoves(w: World, e: Event)
    requires Enabled(w, e) && (e.CheckLock? || e.Read? || e.CountFailure?)
    ensures MovesOneCall(w, e)
  {
    hide RequestEffect, Live, Bump, Usable, MayTry, Get, OneChanged, Stamping;
    var calls := VerifyEffect(w, e).calls;
    assert Apply(w, e).calls == calls;
    match e
    case CheckLock(c, _) => ChangedAt(w.calls, c, calls[c]);
    case Read(c, _) => ChangedAt(w.calls, c, calls[c]);
    case CountFailure(c) => ChangedAt(w.calls, c, calls[c]);
  }

  lemma SignInMoves(w: World, e: Event)
    requires Enabled(w, e) && (e.Stamp? || e.Reset? || e.OpenSession?)
    ensures MovesOneCall(w, e)
  {
    hide RequestEffect, Marked, OneChanged;
    match e
    case Stamp(c) => ChangedAt(w.calls, c, Apply(w, e).calls[c]);
    case Reset(c) => ChangedAt(w.calls, c, Apply(w, e).calls[c]);
    case OpenSession(c) => ChangedAt(w.calls, c, Apply(w, e).calls[c]);
  }

  lemma OneCallMoves(w: World, e: Event)
    requires Enabled(w, e)
    ensures MovesOneCall(w, e)
  {
    hide RequestEffect, VerifyEffect;
    if IsRequestStep(e) {
      RequestMoves(w, e);
    } else if e.CheckLock? || e.Read? || e.CountFailure? {
      AttemptMoves(w, e);
    } else if IsVerifyStep(e) {
      SignInMoves(w, e);
    }
  }

  lemma CountingLeaves(w: World, e: Event)
    requires Enabled(w, e) && (e.CountSend? || e.CountFailure?)
    ensures Apply(w, e).calls[e.c].Closed?
  {
    hide Live, Bump, Get;
  }

  lemma OnlyReadingsEnter(w: World, e: Event, l: Limit, user: nat)
    requires Enabled(w, e) && IsCall(e) && !e.CheckLimits? && !e.CheckLock?
    ensures IsUncounted(Apply(w, e).calls, e.c, l, user) ==> IsUncounted(w.calls, e.c, l, user)
  {
    hide RequestEffect, VerifyEffect;
    if IsRequestStep(e) {
      RequestGoesOn(w, e);
    } else if e.Read? {
      ReadGoesOn(w, e.c, e.hash);
    } else if e.CountFailure? {
      CountingLeaves(w, e);
    } else if IsVerifyStep(e) {
      SignInGoesOn(w, e);
    }
  }

  lemma RequestGoesOn(w: World, e: Event)
    requires Enabled(w, e) && (e.Invalidate? || e.Insert? || e.CountSend?)
    ensures var p, q := w.calls[e.c], Apply(w, e).calls[e.c];
            && IsSending(p)
            && (q.Closed? || ((q.Cleared? || q.Issued?) && q.user == p.user))
  {
    hide Live, Bump, Invalidated, Get, VerifyEffect;
  }

  lemma ReadGoesOn(w: World, c: nat, hash: nat)
    requires Enabled(w, Read(c, hash))
    ensures var q := Apply(w, Read(c, hash)).calls[c]; q.Holding? || q == Rejected(w.calls[c].user)
  {
    hide Usable;
  }

  lemma SignInGoesOn(w: World, e: Event)
    requires Enabled(w, e) && (e.Stamp? || e.Reset? || e.OpenSession?)
    ensures var q := Apply(w, e).calls[e.c]; !IsSending(q) && !q.Unlocked? && !q.Rejected?
  {
    hide Marked, RequestEffect;
  }

  /** Only a reading below the threshold lets a call in. */
  lemma EnteringIsBelow(w: World, e: Event, l: Limit, user: nat)
    requires Enabled(w, e) && IsCall(e) && !IsUncounted(w.calls, e.c, l, user) && IsUncounted(Apply(w, e).calls, e.c, l, user)
    ensures Live(CounterOf(w, l, user), w.now) < Threshold(l)
  {
    hide Live, Bump, Invalidated, Usable, Marked, Get;
    if e.CheckLimits? {
      assert MaySend(w, e.user);
    } else if e.CheckLock? {
      assert MayTry(w, e.user);
    } else {
      OnlyReadingsEnter(w, e, l, user);
    }
  }

  /** The counter changes exactly when one of its calls counts, and at a reset. */
  predicate CounterMoved(w: World, e: Event, l: Limit, user: nat)
    requires Enabled(w, e)
  {
    CounterOf(Apply(w, e), l, user)
    == if IsReset(w, e, l, user) then Absent
       else if (e.CountSend? || e.CountFailure?) && IsUncounted(w.calls, e.c, l, user) then Bump(CounterOf(w, l, user), w.now, Window(l))
       else CounterOf(w, l, user)
  }

  lemma CounterStep(w: World, e: Event, l: Limit, user: nat)
    requires Enabled(w, e)
    ensures CounterMoved(w, e, l, user)
  {
    hide Live, Bump, Invalidated, Usable, Marked, MaySend, MayTry;
    match e
    case CountSend(_) => SendCounters(w, e, l, user);
    case CountFailure(_) =>
    case Reset(_) =>
    case _ => CountersLeft(w, e, l, user);
  }

  lemma SendCounters(w: World, e: Event, l: Limit, user: nat)
    requires Enabled(w, e) && e.CountSend?
    ensures CounterMoved(w, e, l, user)
  {
    hide Live, Bump;
  }

  lemma CountersLeft(w: World, e: Event, l: Limit, user: nat)
    requires Enabled(w, e) && !e.CountSend? && !e.CountFailure? && !e.Reset?
    ensures CounterOf(Apply(w, e), l, user) == CounterOf(w, l, user)
  {
    hide Live, Bump, Invalidated, Usable, Marked, MaySend, MayTry, Get;
  }

  lemma ResetIsNoMove(w: World, e: Event, l: Limit, user: nat)
    requires Enabled(w, e) && e.Reset?
    ensures !IsUncounted(w.calls, e.c, l, user) && !IsUncounted(Apply(w, e).calls, e.c, l, user)
  {
    hide Live, Bump, RequestEffect;
  }

  lemma StepMoves(w: World, e: Event, l: Limit, user: nat)
    requires Enabled(w, e)
    ensures StepMoved(w, e, l, user)
  {
    hide Apply, Flight, CounterOf, Bump, Live, Enabled, Threshold, Window;
    var v := Apply(w, e);
    OneCallMoves(w, e);
    CounterStep(w, e, l, user);
    if IsCall(e) {
      FlightMoves(w.calls, e.c, v.calls[e.c], l, user);
      if e.CountSend? || e.CountFailure? {
        CountingLeaves(w, e);
      } else if e.Reset? {
        ResetIsNoMove(w, e, l, user);
      }
      if !IsUncounted(w.calls, e.c, l, user) && IsUncounted(v.calls, e.c, l, user) {
        EnteringIsBelow(w, e, l, user);
      }
    }
  }

  // ---- Whole runs ------------------------------------------------------------------------------

  /** What holds of a counter at every moment while at most `most` calls are in flight. */
  predicate Roomy(w: World, l: Limit, user: nat, most: nat) {
    && Live(CounterOf(w, l, user), w.now) + |Flight(w.calls, l, user)| <= Threshold(l) + most - 1
    && WellTimed(CounterOf(w, l, user), w.now, Window(l))
  }

  lemma MovedKeepsRoom(c: Counter, n: nat, c': Counter, n': nat, move: Option<Move>, l: Limit, now: int, now': int, most: nat)
    requires Moved(c, n, c', n', move, l, now) && now <= now' && n' <= most
    requires Live(c, now) + n <= Threshold(l) + most - 1 && WellTimed(c, now, Window(l))
    ensures Live(c', now') + n' <= Threshold(l) + most - 1 && WellTimed(c', now', Window(l))
  {
  }

  lemma StepKeepsRoom(w: World, e: Event, l: Limit, user: nat, most: nat)
    requires Enabled(w, e) && Roomy(w, l, user, most) && |Flight(Apply(w, e).calls, l, user)| <= most
    ensures Roomy(Apply(w, e), l, user, most)
  {
    hide Apply, Flight, CounterOf, IsReset, MoveOf, Moved, Live;
    var v := Apply(w, e);
    StepMoves(w, e, l, user);
    if IsReset(w, e, l, user) {
      LiveOfAbsent(v.now);
    } else {
      MovedKeepsRoom(CounterOf(w, l, user), |Flight(w.calls, l, user)|, CounterOf(v, l, user), |Flight(v.calls, l, user)|,
                     MoveOf(w, e, l, user), l, w.now, v.now, most);
    }
  }

  lemma LiveOfAbsent(now: int)
    ensures Live(Absent, now) == 0
  {
  }

  lemma {:induction false} RunKeepsRoom(w: World, es: seq<Event>, l: Limit, user: nat, most: nat)
    requires Legal(w, es) && AtMost(w, es, l, user, most) && Roomy(w, l, user, most)
    ensures Roomy(After(w, es), l, user, most) && w.now <= After(w, es).now
    decreases |es|
  {
    hide Apply, Enabled, Roomy, Flight, MoveOf, Moved, IsReset, CounterOf;
    if es != [] {
      StepMoves(w, es[0], l, user);
      assert AtMost(Apply(w, es[0]), es[1..], l, user, most);
      StepKeepsRoom(w, es[0], l, user, most);
      RunKeepsRoom(Apply(w, es[0]), es[1..], l, user, most);
    }
  }

  lemma OrderlyHead(c: Counter, n: nat, c': Counter, n': nat, move: Option<Move>, rest: seq<Move>, l: Limit, now: int, most: nat)
    requires Moved(c, n, c', n', move, l, now) && n' <= most && Orderly(c', n', rest, Threshold(l), Window(l), most)
    ensures Orderly(c, n, if move == None then rest else [move.value] + rest, Threshold(l), Window(l), most)
  {
    hide Live, Bump, Threshold, Window;
    if move.Some? {
      assert ([move.value] + rest)[1..] == rest;
    }
  }

  lemma InOrderHead(move: Move, rest: seq<Move>, until: int)
    requires move.at <= until && MovesInOrder(rest, move.at, until)
    ensures MovesInOrder([move] + rest, move.at, until)
  {
  }

  /** A run seen from one counter is an orderly run of attempts on it. */
  lemma {:induction false} RunIsOrderly(w: World, es: seq<Event>, l: Limit, user: nat, most: nat)
    requires Legal(w, es) && AtMost(w, es, l, user, most) && NoReset(w, es, l, user)
    ensures w.now <= After(w, es).now && MovesInOrder(MovesOf(w, es, l, user), w.now, After(w, es).now)
    ensures Orderly(CounterOf(w, l, user), |Flight(w.calls, l, user)|, MovesOf(w, es, l, user), Threshold(l), Window(l), most)
    decreases |es|
  {
    hide Apply, Enabled, Flight, MoveOf, IsReset, CounterOf, Moved, Orderly;
    if es == [] {
      NothingIsOrderly(CounterOf(w, l, user), |Flight(w.calls, l, user)|, Threshold(l), Window(l), most);
    } else {
      var v, move := Apply(w, es[0]), MoveOf(w, es[0], l, user);
      StepMoves(w, es[0], l, user);
      RunIsOrderly(v, es[1..], l, user, most);
      var rest := MovesOf(v, es[1..], l, user);
      OrderlyHead(CounterOf(w, l, user), |Flight(w.calls, l, user)|, CounterOf(v, l, user), |Flight(v.calls, l, user)|,
                  move, rest, l, w.now, most);
      if move.Some? {
        InOrderHead(move.value, rest, After(w, es).now);
      }
    }
  }

  lemma InitRoom(now: int, l: Limit, user: nat, most: nat)
    requires most >= 1
    ensures Roomy(Init(now), l, user, most)
  {
    assert Flight(Init(now).calls, l, user) == {};
  }

  // ---- Passwords issued and sends counted ------------------------------------------------------

  /** An INSERT that issues a password to the user. */
  predicate IsIssue(w: World, e: Event, user: nat)
    requires Enabled(w, e)
  {
    e.Insert? && w.calls[e.c].user == user && e.hash !in w.tokens
  }

  /** A call that has issued its password dies before counting the send. */
  predicate IsLost(w: World, e: Event, user: nat)
    requires Enabled(w, e)
  {
    e.Fail? && w.calls[e.c].Issued? && w.calls[e.c].user == user
  }

  function Issues(w: World, es: seq<Event>, user: nat): nat
    requires Legal(w, es)
    decreases |es|
  {
    if es == [] then 0 else Bit(IsIssue(w, es[0], user)) + Issues(Apply(w, es[0]), es[1..], user)
  }

  function Losses(w: World, es: seq<Event>, user: nat): nat
    requires Legal(w, es)
    decreases |es|
  {
    if es == [] then 0 else Bit(IsLost(w, es[0], user)) + Losses(Apply(w, es[0]), es[1..], user)
  }

  /** Issued and not yet counted: the mail is under way or out. */
  predicate IsMailing(calls: Calls, c: nat, user: nat) {
    c in calls && calls[c].Issued? && calls[c].user == user
  }

  function Mailing(calls: Calls, user: nat): set<nat> {
    set c | c in calls && calls[c].Issued? && calls[c].user == user
  }

  lemma MailingChange(w: World, e: Event, user: nat)
    requires Enabled(w, e) && IsCall(e)
    ensures Bit(IsMailing(Apply(w, e).calls, e.c, user))
         == Bit(IsMailing(w.calls, e.c, user)) + Bit(IsIssue(w, e, user)) - Bit(IsLost(w, e, user))
            - Bit(e.CountSend? && w.calls[e.c].user == user)
  {
    hide Apply, Invalidated, Bump, Get, Usable, Marked;
    match e
    case CheckLimits(c, u) => CheckLimitsWrites(w, c, u);
    case Invalidate(c) => InvalidateWrites(w, c);
    case Insert(c, hash) => InsertWrites(w, c, hash);
    case CountSend(c) => CountSendWrites(w, c);
    case CheckLock(c, u) => CheckLockWrites(w, c, u);
    case Read(c, hash) => ReadWrites(w, c, hash);
    case CountFailure(c) => CountFailureWrites(w, c);
    case Stamp(c) => StampWrites(w, c);
    case Reset(c) => ResetWrites(w, c);
    case OpenSession(c) => OpenSessionWrites(w, c);
    case Fail(c) => FailWrites(w, c);
  }

  lemma MailingStep(w: World, e: Event, user: nat)
    requires Enabled(w, e)
    ensures |Mailing(w.calls, user)| + Bit(IsIssue(w, e, user))
         == |Mailing(Apply(w, e).calls, user)| + Bit(IsLost(w, e, user)) + Bit(IsCountOf(w, e, user))
  {
    hide Apply, Enabled, Bit;
    OneCallMoves(w, e);
    if IsCall(e) {
      MailingChange(w, e, user);
      var before, after := Mailing(w.calls, user), Mailing(Apply(w, e).calls, user);
      assert before - {e.c} == after - {e.c};
      SameApart(before, after, e.c);
      assert e.c in before <==> IsMailing(w.calls, e.c, user);
      assert e.c in after <==> IsMailing(Apply(w, e).calls, e.c, user);
    } else {
      NoBits();
    }
  }

  lemma NoBits()
    ensures Bit(false) == 0
  {
  }

  predicate IsCountOf(w: World, e: Event, user: nat)
    requires Enabled(w, e)
  {
    e.CountSend? && w.calls[e.c].user == user
  }

  lemma CountsAreMoves(w: World, e: Event, user: nat)
    requires Enabled(w, e)
    ensures IsCountOf(w, e, user) <==> MoveOf(w, e, PerWindow, user).Some? && MoveOf(w, e, PerWindow, user).value.Count?
  {
    hide Apply;
  }

  /** Conservation over every run: passwords issued are sends counted, sends lost to a failure between
      the two, and what is still under way. */
  lemma {:induction false} SendsAreAccountedFor(w: World, es: seq<Event>, user: nat)
    requires Legal(w, es)
    ensures |Mailing(w.calls, user)| + Issues(w, es, user)
         == |CountTimes(MovesOf(w, es, PerWindow, user))| + Losses(w, es, user) + |Mailing(After(w, es).calls, user)|
    decreases |es|
  {
    hide Apply, Enabled, MoveOf, Mailing, IsIssue, IsLost, IsCountOf;
    if es != [] {
      var v := Apply(w, es[0]);
      MailingStep(w, es[0], user);
      CountsAreMoves(w, es[0], user);
      SendsAreAccountedFor(v, es[1..], user);
      var rest := MovesOf(v, es[1..], PerWindow, user);
      if MoveOf(w, es[0], PerWindow, user).Some? {
        assert ([MoveOf(w, es[0], PerWindow, user).value] + rest)[1..] == rest;
      }
    }
  }

  lemma {:induction false} AtMostAtTheEnd(w: World, es: seq<Event>, l: Limit, user: nat, most: nat)
    requires Legal(w, es) && AtMost(w, es, l, user, most)
    ensures |Flight(After(w, es).calls, l, user)| <= most
    decreases |es|
  {
    hide Apply, Enabled, Flight;
    if es != [] {
      AtMostAtTheEnd(Apply(w, es[0]), es[1..], l, user, most);
    }
  }

  /** However many sends are lost, the passwords issued are the counted ones, the lost ones and at most
      `most` under way. */
  lemma IssuesWithin(w: World, es: seq<Event>, user: nat, most: nat)
    requires Legal(w, es) && AtMost(w, es, PerWindow, user, most)
    ensures Issues(w, es, user) <= |CountTimes(MovesOf(w, es, PerWindow, user))| + Losses(w, es, user) + most
  {
    hide Legal, After, MovesOf, CountTimes, Issues, Losses, AtMost;
    SendsAreAccountedFor(w, es, user);
    AtMostAtTheEnd(w, es, PerWindow, user, most);
    var mailing, flight := Mailing(After(w, es).calls, user), Flight(After(w, es).calls, PerWindow, user);
    assert mailing <= flight && flight == mailing + (flight - mailing);
  }

  // ---- The limits ------------------------------------------------------------------------------

  /** Whatever happened before, and however calls interleave: in a stretch of at most `span` with
      never more than `most` calls of the user between reading and counting, what is counted is at
      most what the span can hold under a threshold raised by most - 1; so it stays within
      (threshold + most - 1) * (floor(span / window) + 1) unless the span overflows a window that was
      already running. With calls one at a time the raise is 0. */
  lemma CountedWithin(now: int, before: seq<Event>, es: seq<Event>, l: Limit, user: nat, span: nat, most: nat)
    requires most >= 1 && Legal(Init(now), before) && AtMost(Init(now), before, l, user, most)
    requires var w := After(Init(now), before);
             && Legal(w, es) && AtMost(w, es, l, user, most) && NoReset(w, es, l, user)
             && After(w, es).now <= w.now + span
    ensures var w := After(Init(now), before);
            var c, counted, raised := CounterOf(w, l, user), |CountTimes(MovesOf(w, es, l, user))|, Threshold(l) + most - 1;
            && counted <= MostInSpan(c, w.now, span, raised, Window(l))
            && (!Overflows(c, w.now, span, raised, Window(l)) ==> counted <= raised * (span / Window(l) + 1))
  {
    hide Legal, After, AtMost, NoReset, MovesOf, MostInSpan, Overflows, Orderly, CountTimes, CounterOf, Flight;
    var w := After(Init(now), before);
    InitRoom(now, l, user, most);
    RunKeepsRoom(Init(now), before, l, user, most);
    RunIsOrderly(w, es, l, user, most);
    OverlappingFailures(CounterOf(w, l, user), |Flight(w.calls, l, user)|, MovesOf(w, es, l, user), w.now, span,
                        Threshold(l), Window(l), most);
  }

  /** Sends: both limits at once, over any span; passwords issued exceed the counted sends only by those
      whose calls died before counting and those still under way. */
  lemma SendsObeyBothLimits(now: int, before: seq<Event>, es: seq<Event>, user: nat, span: nat, most: nat)
    requires most >= 1 && Legal(Init(now), before) && AtMost(Init(now), before, PerWindow, user, most)
    requires var w := After(Init(now), before);
             Legal(w, es) && AtMost(w, es, PerWindow, user, most) && After(w, es).now <= w.now + span
    ensures var w := After(Init(now), before);
            var sends := |CountTimes(MovesOf(w, es, PerWindow, user))|;
            && sends <= MostInSpan(Get(w.windowSends, user), w.now, span, 3 + most - 1, 1800000)
            && sends <= MostInSpan(Get(w.dailySends, user), w.now, span, 10 + most - 1, 86400000)
            && (!Overflows(Get(w.windowSends, user), w.now, span, 3 + most - 1, 1800000) ==>
                  sends <= (3 + most - 1) * (span / 1800000 + 1))
            && (!Overflows(Get(w.dailySends, user), w.now, span, 10 + most - 1, 86400000) ==>
                  sends <= (10 + most - 1) * (span / 86400000 + 1))
            && Issues(w, es, user) <= sends + Losses(w, es, user) + most
  {
    hide Legal, After, MostInSpan, Overflows, CountTimes, Issues, Losses;
    var w := After(Init(now), before);
    SameSends(Init(now), before, user, most);
    SameSends(w, es, user, most);
    IssuesWithin(w, es, user, most);
    CountedWithin(now, before, es, PerWindow, user, span, most);
    CountedWithin(now, before, es, PerDay, user, span, most);
  }

  lemma {:induction false} SameSends(w: World, es: seq<Event>, user: nat, most: nat)
    requires Legal(w, es)
    ensures MovesOf(w, es, PerDay, user) == MovesOf(w, es, PerWindow, user)
    ensures AtMost(w, es, PerDay, user, most) == AtMost(w, es, PerWindow, user, most)
    ensures NoReset(w, es, PerDay, user) && NoReset(w, es, PerWindow, user)
    decreases |es|
  {
    hide Apply, Enabled;
    assert Flight(w.calls, PerDay, user) == Flight(w.calls, PerWindow, user);
    if es != [] {
      SameSends(Apply(w, es[0]), es[1..], user, most);
      assert MoveOf(w, es[0], PerDay, user) == MoveOf(w, es[0], PerWindow, user);
    }
  }

  /** Wrong passwords between sign-ins of the user, over any span. */
  lemma WrongPasswordsAreLimited(now: int, before: seq<Event>, es: seq<Event>, user: nat, span: nat, most: nat)
    requires most >= 1 && Legal(Init(now), before) && AtMost(Init(now), before, WrongPasswords, user, most)
    requires var w := After(Init(now), before);
             && Legal(w, es) && AtMost(w, es, WrongPasswords, user, most) && NoReset(w, es, WrongPasswords, user)
             && After(w, es).now <= w.now + span
    ensures var w := After(Init(now), before);
            var wrong := |CountTimes(MovesOf(w, es, WrongPasswords, user))|;
            && wrong <= MostInSpan(Get(w.failures, user), w.now, span, 5 + most - 1, 3600000)
            && (!Overflows(Get(w.failures, user), w.now, span, 5 + most - 1, 3600000) ==>
                  wrong <= (5 + most - 1) * (span / 3600000 + 1))
  {
    hide Legal, After, MostInSpan, Overflows, CountTimes, AtMost, NoReset, MovesOf;
    CountedWithin(now, before, es, WrongPasswords, user, span, most);
  }
}
