/** Every orderly run of attempts on the Redis counters is a run of the admin sign-in, so the bounds
    of AdminOtpLimits are met: one call at a time in every span, and with overlapping calls too. */
module AdminOtpRuns {
  import opened AdminOtp
  import opened AdminOtpGuarantees
  import opened AdminOtpLimits
  import opened Arithmetic
  import opened RateLimit
  import opened Text

  /** The two send limits are read and counted together. */
  function Partner(l: Limit): Limit {
    match l
    case PerWindow => PerDay
    case PerDay => PerWindow
    case WrongPasswords => WrongPasswords
  }

  /** `es` is a legal run that the counter sees as `moves`, with at most `most` calls in flight and no
      reset. */
  predicate Realises(w: World, es: seq<Event>, l: Limit, user: nat, most: nat, moves: seq<Move>) {
    Legal(w, es) && MovesOf(w, es, l, user) == moves && AtMost(w, es, l, user, most) && NoReset(w, es, l, user)
  }

  lemma Nothing(w: World, l: Limit, user: nat, most: nat)
    requires |Flight(w.calls, l, user)| <= most
    ensures Realises(w, [], l, user, most, []) && After(w, []) == w
  {
  }

  lemma {:induction false} Together(w: World, es: seq<Event>, fs: seq<Event>, l: Limit, user: nat, most: nat, moves: seq<Move>, more: seq<Move>)
    requires Realises(w, es, l, user, most, moves) && Realises(After(w, es), fs, l, user, most, more)
    ensures Realises(w, es + fs, l, user, most, moves + more) && After(w, es + fs) == After(After(w, es), fs)
    decreases |es|
  {
    hide Apply, Enabled, MoveOf, IsReset, Flight;
    if es == [] {
      assert [] + fs == fs && [] + more == more;
    } else {
      var v := Apply(w, es[0]);
      var rest := MovesOf(v, es[1..], l, user);
      Together(v, es[1..], fs, l, user, most, rest, more);
      assert (es + fs)[1..] == es[1..] + fs;
      assert moves + more == (match MoveOf(w, es[0], l, user) case None => rest + more case Some(m) => [m] + (rest + more));
    }
  }

  lemma Single(w: World, e: Event, l: Limit, user: nat, most: nat)
    requires Enabled(w, e) && !IsReset(w, e, l, user)
    requires |Flight(w.calls, l, user)| <= most && |Flight(Apply(w, e).calls, l, user)| <= most
    ensures Realises(w, [e], l, user, most, match MoveOf(w, e, l, user) case None => [] case Some(m) => [m])
    ensures After(w, [e]) == Apply(w, e)
  {
    hide Apply, Enabled, MoveOf, IsReset, Flight;
    Nothing(Apply(w, e), l, user, most);
    assert [e][1..] == [];
  }

  // ---- The counters and the flight after one event --------------------------------------------

  /** What both counters, the flight and the clock become when the move is made. */
  predicate Arrives(w: World, v: World, l: Limit, user: nat, move: Option<Move>) {
    && v.now == w.now
    && Moved(CounterOf(w, l, user), |Flight(w.calls, l, user)|, CounterOf(v, l, user), |Flight(v.calls, l, user)|, move, l, w.now)
    && Moved(CounterOf(w, Partner(l), user), |Flight(w.calls, l, user)|, CounterOf(v, Partner(l), user), |Flight(v.calls, l, user)|,
             move, Partner(l), w.now)
  }

  lemma PartnersAlike(w: World, e: Event, l: Limit, user: nat)
    requires Enabled(w, e)
    ensures Flight(w.calls, Partner(l), user) == Flight(w.calls, l, user)
    ensures Flight(Apply(w, e).calls, Partner(l), user) == Flight(Apply(w, e).calls, l, user)
    ensures MoveOf(w, e, Partner(l), user) == MoveOf(w, e, l, user)
    ensures IsReset(w, e, Partner(l), user) == IsReset(w, e, l, user)
  {
    hide Apply, Enabled;
  }

  lemma EventArrives(w: World, e: Event, l: Limit, user: nat)
    requires Enabled(w, e) && IsCall(e) && !IsReset(w, e, l, user)
    ensures Arrives(w, Apply(w, e), l, user, MoveOf(w, e, l, user))
  {
    hide Apply, Enabled, MoveOf, IsReset, Flight, CounterOf, Moved, Partner;
    PartnersAlike(w, e, l, user);
    StepMoves(w, e, l, user);
    StepMoves(w, e, Partner(l), user);
    OneCallMoves(w, e);
  }

  // ---- One move ---------------------------------------------------------------------------------

  lemma {:induction false} Above(s: set<nat>) returns (m: nat)
    ensures forall x :: x in s ==> x < m
    decreases |s|
  {
    m := 0;
    if x :| x in s {
      var rest := Above(s - {x});
      m := if rest <= x then x + 1 else rest;
      assert forall y :: y in s ==> y == x || y in s - {x};
    }
  }

  /** Nothing stops a new call while its counters are below their thresholds. */
  lemma Entering(w: World, c: nat, l: Limit, user: nat) returns (e: Event)
    requires c !in w.calls
    requires Live(CounterOf(w, l, user), w.now) < Threshold(l) && Live(CounterOf(w, Partner(l), user), w.now) < Threshold(Partner(l))
    ensures Enabled(w, e) && IsCall(e) && !e.Reset? && MoveOf(w, e, l, user) == Some(Enter(w.now))
  {
    hide Apply, Enabled, Live;
    if l.WrongPasswords? {
      e := CheckLock(c, user);
      CheckLockWrites(w, c, user);
    } else {
      e := CheckLimits(c, user);
      CheckLimitsWrites(w, c, user);
    }
  }

  lemma Leaving(w: World, c: nat, l: Limit, user: nat)
    requires IsUncounted(w.calls, c, l, user)
    ensures Enabled(w, Fail(c)) && MoveOf(w, Fail(c), l, user) == Some(Leave(w.now))
  {
    hide Apply, Enabled;
    FailWrites(w, c);
  }

  /** How many awaits a call still has up to and including its counting. */
  function Ahead(p: Phase): nat {
    match p
    case Allowed(_) => 3
    case Cleared(_, _) => 2
    case Unlocked(_) => 2
    case _ => 1
  }

  lemma CountsNext(w: World, c: nat, l: Limit, user: nat) returns (e: Event)
    requires IsUncounted(w.calls, c, l, user) && Ahead(w.calls[c]) == 1
    ensures Enabled(w, e) && IsCall(e) && !e.Reset? && MoveOf(w, e, l, user) == Some(Count(w.now))
  {
    hide Apply, Enabled, Bump;
    if l.WrongPasswords? {
      e := CountFailure(c);
      CountFailureWrites(w, c);
    } else {
      e := CountSend(c);
      CountSendWrites(w, c);
    }
  }

  /** A call on its way to its counting, with a password no token carries. */
  lemma Approaching(w: World, c: nat, l: Limit, user: nat) returns (e: Event)
    requires IsUncounted(w.calls, c, l, user) && Ahead(w.calls[c]) > 1
    ensures Enabled(w, e) && IsCall(e) && !e.Reset? && MoveOf(w, e, l, user) == None
    ensures var calls := Apply(w, e).calls; IsUncounted(calls, c, l, user) && Ahead(calls[c]) < Ahead(w.calls[c])
  {
    hide Apply, Enabled, Invalidated;
    var hash := Above(w.tokens.Keys);
    match w.calls[c] {
      case Allowed(_) =>
        e := Invalidate(c);
        InvalidateWrites(w, c);
      case Cleared(_, _) =>
        e := Insert(c, hash);
        InsertWrites(w, c, hash);
      case _ =>
        e := Read(c, hash);
        ReadWrites(w, c, hash);
    }
  }

  lemma {:induction false} CountsNow(w: World, c: nat, l: Limit, user: nat, most: nat) returns (es: seq<Event>, v: World)
    requires IsUncounted(w.calls, c, l, user) && |Flight(w.calls, l, user)| <= most
    ensures Realises(w, es, l, user, most, [Count(w.now)]) && After(w, es) == v
    ensures Arrives(w, v, l, user, Some(Count(w.now)))
    decreases Ahead(w.calls[c])
  {
    hide Apply, Enabled, MoveOf, Flight, CounterOf, Realises, Partner, Uncounted, Threshold, Window;
    if Ahead(w.calls[c]) == 1 {
      var e := CountsNext(w, c, l, user);
      EventArrives(w, e, l, user);
      Single(w, e, l, user, most);
      es, v := [e], Apply(w, e);
    } else {
      var e := Approaching(w, c, l, user);
      EventArrives(w, e, l, user);
      Single(w, e, l, user, most);
      var rest;
      rest, v := CountsNow(Apply(w, e), c, l, user, most);
      Together(w, [e], rest, l, user, most, [], [Count(w.now)]);
      es := [e] + rest;
      assert [] + [Count(w.now)] == [Count(w.now)];
    }
  }

  predicate MayMove(w: World, l: Limit, user: nat, most: nat, move: Move) {
    && move.at == w.now
    && match move
       case Enter(at) =>
         && Live(CounterOf(w, l, user), at) < Threshold(l) && Live(CounterOf(w, Partner(l), user), at) < Threshold(Partner(l))
         && |Flight(w.calls, l, user)| + 1 <= most
       case _ => 0 < |Flight(w.calls, l, user)| <= most
  }

  lemma MovesNow(w: World, l: Limit, user: nat, most: nat, move: Move) returns (es: seq<Event>, v: World)
    requires MayMove(w, l, user, most, move)
    ensures Realises(w, es, l, user, most, [move]) && After(w, es) == v && Arrives(w, v, l, user, Some(move))
  {
    hide Apply, Enabled, MoveOf, CounterOf, Realises, Partner, Uncounted, Threshold, Window, Live;
    if move.Enter? {
      var c := Above(w.calls.Keys);
      var e := Entering(w, c, l, user);
      EventArrives(w, e, l, user);
      Single(w, e, l, user, most);
      es, v := [e], Apply(w, e);
    } else {
      var c :| c in Flight(w.calls, l, user);
      if move.Count? {
        es, v := CountsNow(w, c, l, user, most);
      } else {
        Leaving(w, c, l, user);
        EventArrives(w, Fail(c), l, user);
        Single(w, Fail(c), l, user, most);
        es, v := [Fail(c)], Apply(w, Fail(c));
      }
    }
  }

  // ---- Whole runs ---------------------------------------------------------------------------------

  predicate OrderlyFor(w: World, l: Limit, user: nat, most: nat, moves: seq<Move>) {
    && Orderly(CounterOf(w, l, user), |Flight(w.calls, l, user)|, moves, Threshold(l), Window(l), most)
    && Orderly(CounterOf(w, Partner(l), user), |Flight(w.calls, l, user)|, moves, Threshold(Partner(l)), Window(Partner(l)), most)
  }

  /** One counter's share of the first move, and what is left to do. */
  lemma FirstMove(c: Counter, n: nat, c': Counter, n': nat, moves: seq<Move>, l: Limit, most: nat)
    requires moves != [] && Orderly(c, n, moves, Threshold(l), Window(l), most)
    ensures match moves[0] case Enter(at) => Live(c, at) < Threshold(l) && n + 1 <= most case _ => n > 0
    ensures Moved(c, n, c', n', Some(moves[0]), l, moves[0].at) ==> Orderly(c', n', moves[1..], Threshold(l), Window(l), most)
  {
    hide Live, Bump, Threshold, Window;
  }

  lemma Waits(w: World, ms: nat, l: Limit, user: nat, most: nat) returns (v: World)
    requires |Flight(w.calls, l, user)| <= most
    ensures Realises(w, [Tick(ms)], l, user, most, []) && After(w, [Tick(ms)]) == v == w.(now := w.now + ms, step := w.step + 1)
  {
    hide Apply, Enabled, Flight, Realises;
    TickWrites(w, ms);
    Single(w, Tick(ms), l, user, most);
    v := Apply(w, Tick(ms));
  }

  /** Every orderly run of attempts is what the counter sees of some legal run of the protocol. */
  lemma {:induction false} OrderlyIsRealised(w: World, l: Limit, user: nat, most: nat, moves: seq<Move>, until: int) returns (es: seq<Event>)
    requires |Flight(w.calls, l, user)| <= most && w.now <= until
    requires OrderlyFor(w, l, user, most, moves) && MovesInOrder(moves, w.now, until)
    ensures Realises(w, es, l, user, most, moves) && After(w, es).now <= until
    decreases |moves|
  {
    hide Apply, Enabled, MoveOf, Flight, Realises, Partner, Threshold, Window, Live, Bump, Orderly;
    if moves == [] {
      Nothing(w, l, user, most);
      es := [];
    } else {
      var ms := moves[0].at - w.now;
      var v := Waits(w, ms, l, user, most);
      SameCounters(w, v, l, user);
      FirstMove(CounterOf(w, l, user), |Flight(w.calls, l, user)|, CounterOf(w, l, user), |Flight(w.calls, l, user)|, moves, l, most);
      FirstMove(CounterOf(w, Partner(l), user), |Flight(w.calls, l, user)|, CounterOf(w, Partner(l), user),
                |Flight(w.calls, l, user)|, moves, Partner(l), most);
      var part, u := MovesNow(v, l, user, most, moves[0]);
      FirstMove(CounterOf(v, l, user), |Flight(v.calls, l, user)|, CounterOf(u, l, user), |Flight(u.calls, l, user)|, moves, l, most);
      FirstMove(CounterOf(v, Partner(l), user), |Flight(v.calls, l, user)|, CounterOf(u, Partner(l), user),
                |Flight(u.calls, l, user)|, moves, Partner(l), most);
      FlightFits(v, u, l, user, moves[0], most);
      var rest := OrderlyIsRealised(u, l, user, most, moves[1..], until);
      Together(v, part, rest, l, user, most, [moves[0]], moves[1..]);
      Together(w, [Tick(ms)], part + rest, l, user, most, [], [moves[0]] + moves[1..]);
      es := [Tick(ms)] + (part + rest);
      assert [] + ([moves[0]] + moves[1..]) == moves;
    }
  }

  lemma SameCounters(w: World, v: World, l: Limit, user: nat)
    requires v == w.(now := v.now, step := v.step)
    ensures CounterOf(v, l, user) == CounterOf(w, l, user) && CounterOf(v, Partner(l), user) == CounterOf(w, Partner(l), user)
    ensures Flight(v.calls, l, user) == Flight(w.calls, l, user)
  {
  }

  lemma FlightFits(w: World, v: World, l: Limit, user: nat, move: Move, most: nat)
    requires MayMove(w, l, user, most, move) && Arrives(w, v, l, user, Some(move))
    ensures |Flight(v.calls, l, user)| <= most
  {
    hide Flight, CounterOf, Threshold, Window, Live, Bump, Partner;
  }

  // ---- Wrong passwords: the exact bound -------------------------------------------------------

  /** A run within `span` from here, at most `most` calls of the user between reading and counting,
      and no sign-in that clears the failure counter. */
  predicate Within(w: World, es: seq<Event>, l: Limit, user: nat, most: nat, span: nat) {
    Legal(w, es) && AtMost(w, es, l, user, most) && NoReset(w, es, l, user) && After(w, es).now <= w.now + span
  }

  function Counted(w: World, es: seq<Event>, l: Limit, user: nat): nat
    requires Legal(w, es)
  {
    |CountTimes(MovesOf(w, es, l, user))|
  }

  lemma WithinIsOrderly(w: World, es: seq<Event>, l: Limit, user: nat, most: nat, span: nat)
    requires Within(w, es, l, user, most, span) && Flight(w.calls, l, user) == {}
    ensures var moves := MovesOf(w, es, l, user);
            && Orderly(CounterOf(w, l, user), 0, moves, Threshold(l), Window(l), most)
            && MovesInOrder(moves, w.now, w.now + span)
  {
    hide Orderly, Flight, CounterOf, Threshold, Window, MovesOf, AtMost, NoReset, Legal, After;
    RunIsOrderly(w, es, l, user, most);
    assert |Flight(w.calls, l, user)| == 0;
  }

  /** From any state in which no verification of the user is under way: every legal run within `span`,
      with any number of them overlapping up to `most`, keeps the wrong passwords between two sign-ins
      within (5 + most - 1) * (floor(span / hour) + 1), if and only if the span does not overflow a
      running window; and the most that can be counted is counted by some run. */
  lemma WrongPasswordBoundExactly(w: World, user: nat, span: nat, most: nat)
    requires most >= 1 && Flight(w.calls, WrongPasswords, user) == {} && WellTimed(Get(w.failures, user), w.now, LOCK_TTL)
    ensures (forall es :: Within(w, es, WrongPasswords, user, most, span) ==>
               Counted(w, es, WrongPasswords, user) <= (5 + most - 1) * (span / 3600000 + 1))
       <==> !Overflows(Get(w.failures, user), w.now, span, 5, 3600000)
    ensures exists es :: Within(w, es, WrongPasswords, user, most, span)
              && Counted(w, es, WrongPasswords, user) == MostOverlapped(Get(w.failures, user), w.now, span, 5, 3600000, most)
  {
    hide Flight, Orderly, MostOverlapped, Overflows, MovesOf, CountTimes, MovesInOrder, Legal, After, AtMost, NoReset;
    var c := Get(w.failures, user);
    OverlapOverflowIsExcess(c, w.now, span, 5, 3600000, most);
    forall es | Within(w, es, WrongPasswords, user, most, span)
      ensures Counted(w, es, WrongPasswords, user) <= MostOverlapped(c, w.now, span, 5, 3600000, most)
    {
      CountedOverlapping(w, es, user, span, most);
    }
    var moves := MostOverlappedIsReached(c, w.now, span, 5, 3600000, most);
    var reached := FailuresAreRealised(w, user, span, most, moves);
    assert Counted(w, reached, WrongPasswords, user) == |CountTimes(moves)|;
  }

  lemma CountedOverlapping(w: World, es: seq<Event>, user: nat, span: nat, most: nat)
    requires most >= 1 && Flight(w.calls, WrongPasswords, user) == {} && WellTimed(Get(w.failures, user), w.now, LOCK_TTL)
    requires Within(w, es, WrongPasswords, user, most, span)
    ensures Legal(w, es)
    ensures Counted(w, es, WrongPasswords, user) <= MostOverlapped(Get(w.failures, user), w.now, span, 5, 3600000, most)
  {
    hide Flight, Orderly, MostOverlapped, MovesOf, CountTimes, MovesInOrder, Legal, After, AtMost, NoReset;
    WithinIsOrderly(w, es, WrongPasswords, user, most, span);
    AtMostOverlapped(Get(w.failures, user), MovesOf(w, es, WrongPasswords, user), w.now, span, 5, 3600000, most);
  }

  lemma FailuresAreRealised(w: World, user: nat, span: nat, most: nat, moves: seq<Move>) returns (es: seq<Event>)
    requires Flight(w.calls, WrongPasswords, user) == {} && MovesInOrder(moves, w.now, w.now + span)
    requires Orderly(Get(w.failures, user), 0, moves, 5, 3600000, most)
    ensures Within(w, es, WrongPasswords, user, most, span) && Legal(w, es) && MovesOf(w, es, WrongPasswords, user) == moves
  {
    hide Flight, Orderly, MovesOf, MovesInOrder, Legal, After, AtMost, NoReset;
    assert |Flight(w.calls, WrongPasswords, user)| == 0;
    es := OrderlyIsRealised(w, WrongPasswords, user, most, moves, w.now + span);
  }

  // ---- Sends: both limits are met -----------------------------------------------------------------

  /** Both counters have run out and no request of the user is under way. */
  predicate Rested(w: World, user: nat) {
    && Flight(w.calls, PerWindow, user) == {}
    && !Alive(Get(w.windowSends, user), w.now) && !Alive(Get(w.dailySends, user), w.now)
  }

  lemma SendsAreRealised(w: World, user: nat, span: nat, most: nat, moves: seq<Move>) returns (es: seq<Event>)
    requires Flight(w.calls, PerWindow, user) == {} && MovesInOrder(moves, w.now, w.now + span)
    requires Orderly(Get(w.windowSends, user), 0, moves, 3, 1800000, most)
    requires Orderly(Get(w.dailySends, user), 0, moves, 10, 86400000, most)
    ensures Within(w, es, PerWindow, user, most, span) && Legal(w, es) && MovesOf(w, es, PerWindow, user) == moves
  {
    hide Flight, Orderly, MovesOf, MovesInOrder, Legal, After, AtMost, NoReset;
    assert |Flight(w.calls, PerWindow, user)| == 0;
    es := OrderlyIsRealised(w, PerWindow, user, most, moves, w.now + span);
  }

  /** 3 + most - 1 sends at one instant. */
  lemma WindowLimitIsReached(w: World, user: nat, most: nat) returns (es: seq<Event>)
    requires most >= 1 && Rested(w, user)
    ensures Within(w, es, PerWindow, user, most, 0) && Counted(w, es, PerWindow, user) == 3 + most - 1
  {
    hide Flight, Orderly, MovesOf, CountTimes, Pairs, Enters, Counts, Bumped;
    var t, cw, cd := w.now, Get(w.windowSends, user), Get(w.dailySends, user);
    var moves := Pairs(t, 2) + (Enters(t, most) + (Counts(t, most) + []));
    NothingIsOrderly(Bumped(cw, t, 2 + most, 1800000), 0, 3, 1800000, most);
    NothingIsOrderly(Bumped(cd, t, 2 + most, 86400000), 0, 10, 86400000, most);
    NothingIsOrderly(Bumped(Bumped(cd, t, 2, 86400000), t, most, 86400000), 0, 10, 86400000, most);
    PairsAreOrderly(cw, t, 2, [], 3, 1800000, most);
    BumpedIsCount(cd, t, 2, 86400000);
    EntersAreOrderly(Bumped(cd, t, 2, 86400000), t, most, [], 10, 86400000, most);
    PairsFirst(cd, t, 2, Enters(t, most) + (Counts(t, most) + []), 10, 86400000, most);
    es := SendsAreRealised(w, user, 0, most, moves);
  }

  /** Attempts one after the other, as many as there is room for. */
  lemma {:induction false} PairsFirst(c: Counter, t: int, k: nat, tail: seq<Move>, threshold: nat, window: int, most: nat)
    requires window >= 1 && most >= 1 && Live(c, t) + k <= threshold
    requires Orderly(Bumped(c, t, k, window), 0, tail, threshold, window, most)
    ensures Orderly(c, 0, Pairs(t, k) + tail, threshold, window, most)
    ensures |CountTimes(Pairs(t, k) + tail)| == k + |CountTimes(tail)|
    decreases k
  {
    hide Live, Bump;
    if k == 0 {
      assert Pairs(t, 0) + tail == tail;
    } else {
      BumpAddsOne(c, t, window);
      PairsFirst(Bump(c, t, window), t, k - 1, tail, threshold, window, most);
      var moves, rest := Pairs(t, k) + tail, Pairs(t, k - 1) + tail;
      assert moves == [Enter(t)] + ([Count(t)] + rest);
      assert moves[1..] == [Count(t)] + rest && moves[1..][1..] == rest;
    }
  }

  const HALF_HOUR: int := 1800000
  const DAY: int := 86400000

  /** Three sends in each of three windows, then `most` at once in the fourth. */
  function DayRush(t: int, most: nat, tail: seq<Move>): seq<Move> {
    Pairs(t, 3) + (Pairs(t + HALF_HOUR, 3) + (Pairs(t + 2 * HALF_HOUR, 3)
    + (Enters(t + 3 * HALF_HOUR, most) + (Counts(t + 3 * HALF_HOUR, most) + tail))))
  }

  function DayRushes(t: int, days: nat, most: nat): seq<Move>
    decreases days
  {
    DayRush(t, most, if days == 0 then [] else DayRushes(t + DAY, days - 1, most))
  }

  /** The counter as a rush leaves it before each of its parts. */
  predicate RushFits(c: Counter, c1: Counter, c2: Counter, c3: Counter, c4: Counter, t: int, threshold: nat, window: int, most: nat) {
    && Live(c, t) + 3 <= threshold && c1 == Bumped(c, t, 3, window)
    && Live(c1, t + HALF_HOUR) + 3 <= threshold && c2 == Bumped(c1, t + HALF_HOUR, 3, window)
    && Live(c2, t + 2 * HALF_HOUR) + 3 <= threshold && c3 == Bumped(c2, t + 2 * HALF_HOUR, 3, window)
    && Live(c3, t + 3 * HALF_HOUR) < threshold && c4 == Bumped(c3, t + 3 * HALF_HOUR, most, window)
  }

  lemma DayRushIsOrderly(c: Counter, c1: Counter, c2: Counter, c3: Counter, c4: Counter, t: int, tail: seq<Move>,
                         threshold: nat, window: int, most: nat)
    requires window >= 1 && most >= 1 && RushFits(c, c1, c2, c3, c4, t, threshold, window, most)
    requires Orderly(c4, 0, tail, threshold, window, most)
    ensures Orderly(c, 0, DayRush(t, most, tail), threshold, window, most)
    ensures |CountTimes(DayRush(t, most, tail))| == 9 + most + |CountTimes(tail)|
  {
    hide Orderly, CountTimes, Pairs, Enters, Counts, Bumped, Live;
    var last := Enters(t + 3 * HALF_HOUR, most) + (Counts(t + 3 * HALF_HOUR, most) + tail);
    EntersAreOrderly(c3, t + 3 * HALF_HOUR, most, tail, threshold, window, most);
    PairsFirst(c2, t + 2 * HALF_HOUR, 3, last, threshold, window, most);
    PairsFirst(c1, t + HALF_HOUR, 3, Pairs(t + 2 * HALF_HOUR, 3) + last, threshold, window, most);
    PairsFirst(c, t, 3, Pairs(t + HALF_HOUR, 3) + (Pairs(t + 2 * HALF_HOUR, 3) + last), threshold, window, most);
  }

  lemma WindowRush(c: Counter, t: int, most: nat)
    requires most >= 1 && !Alive(c, t)
    ensures RushFits(c, Counting(3, t + HALF_HOUR), Counting(3, t + 2 * HALF_HOUR), Counting(3, t + 3 * HALF_HOUR),
                     Counting(most, t + 4 * HALF_HOUR), t, 3, HALF_HOUR, most)
  {
    hide Bumped;
    BumpedIsCount(c, t, 3, HALF_HOUR);
    BumpedIsCount(Counting(3, t + HALF_HOUR), t + HALF_HOUR, 3, HALF_HOUR);
    BumpedIsCount(Counting(3, t + 2 * HALF_HOUR), t + 2 * HALF_HOUR, 3, HALF_HOUR);
    BumpedIsCount(Counting(3, t + 3 * HALF_HOUR), t + 3 * HALF_HOUR, most, HALF_HOUR);
  }

  lemma DailyRush(c: Counter, t: int, most: nat)
    requires most >= 1 && !Alive(c, t)
    ensures RushFits(c, Counting(3, t + DAY), Counting(6, t + DAY), Counting(9, t + DAY), Counting(9 + most, t + DAY), t, 10, DAY, most)
  {
    hide Bumped;
    BumpedIsCount(c, t, 3, DAY);
    BumpedIsCount(Counting(3, t + DAY), t + HALF_HOUR, 3, DAY);
    BumpedIsCount(Counting(6, t + DAY), t + 2 * HALF_HOUR, 3, DAY);
    BumpedIsCount(Counting(9, t + DAY), t + 3 * HALF_HOUR, most, DAY);
  }

  lemma {:induction false} DayRushesAreOrderly(cw: Counter, cd: Counter, t: int, days: nat, most: nat)
    requires most >= 1 && !Alive(cw, t) && !Alive(cd, t)
    ensures var moves := DayRushes(t, days, most);
            && Orderly(cw, 0, moves, 3, HALF_HOUR, most) && Orderly(cd, 0, moves, 10, DAY, most)
            && |CountTimes(moves)| == (9 + most) * (days + 1)
    decreases days
  {
    hide Orderly, CountTimes, DayRush, RushFits;
    var tail: seq<Move> := [];
    var cw', cd' := Counting(most, t + 4 * HALF_HOUR), Counting(9 + most, t + DAY);
    NothingIsOrderly(cw', 0, 3, HALF_HOUR, most);
    NothingIsOrderly(cd', 0, 10, DAY, most);
    if days > 0 {
      tail := DayRushes(t + DAY, days - 1, most);
      DayRushesAreOrderly(cw', cd', t + DAY, days - 1, most);
    }
    WindowRush(cw, t, most);
    DailyRush(cd, t, most);
    DayRushIsOrderly(cw, Counting(3, t + HALF_HOUR), Counting(3, t + 2 * HALF_HOUR), Counting(3, t + 3 * HALF_HOUR), cw', t, tail,
                     3, HALF_HOUR, most);
    DayRushIsOrderly(cd, Counting(3, t + DAY), Counting(6, t + DAY), Counting(9, t + DAY), cd', t, tail, 10, DAY, most);
    assert (9 + most) * (days + 1) == (9 + most) + (9 + most) * days;
  }

  lemma AtOnce(moves: seq<Move>, t: int, rest: seq<Move>, until: int)
    requires (forall i :: 0 <= i < |moves| ==> moves[i].at == t) && t <= until
    requires MovesInOrder(rest, t, until)
    ensures MovesInOrder(moves + rest, t, until)
  {
  }

  lemma Sooner(moves: seq<Move>, from: int, later: int, until: int)
    requires MovesInOrder(moves, later, until) && from <= later
    ensures MovesInOrder(moves, from, until)
  {
  }

  lemma DayRushInOrder(t: int, most: nat, tail: seq<Move>, until: int)
    requires t + 3 * HALF_HOUR <= until && MovesInOrder(tail, t + 3 * HALF_HOUR, until)
    ensures MovesInOrder(DayRush(t, most, tail), t, until)
  {
    hide MovesInOrder, Pairs, Enters, Counts;
    var t1, t2, t3 := t + HALF_HOUR, t + 2 * HALF_HOUR, t + 3 * HALF_HOUR;
    var m3 := Counts(t3, most) + tail;
    AtOnce(Counts(t3, most), t3, tail, until);
    var m2 := Enters(t3, most) + m3;
    AtOnce(Enters(t3, most), t3, m3, until);
    Sooner(m2, t2, t3, until);
    AtOnce(Pairs(t2, 3), t2, m2, until);
    var m1 := Pairs(t2, 3) + m2;
    Sooner(m1, t1, t2, until);
    AtOnce(Pairs(t1, 3), t1, m1, until);
    var m0 := Pairs(t1, 3) + m1;
    Sooner(m0, t, t1, until);
    AtOnce(Pairs(t, 3), t, m0, until);
  }

  lemma {:induction false} DayRushesInOrder(t: int, days: nat, most: nat)
    ensures MovesInOrder(DayRushes(t, days, most), t, t + days * DAY + 3 * HALF_HOUR)
    decreases days
  {
    hide DayRush, MovesInOrder;
    var until := t + days * DAY + 3 * HALF_HOUR;
    var tail: seq<Move> := [];
    NoMoves(t + 3 * HALF_HOUR, until);
    if days > 0 {
      tail := DayRushes(t + DAY, days - 1, most);
      DayRushesInOrder(t + DAY, days - 1, most);
      assert t + DAY + (days - 1) * DAY == t + days * DAY;
      Sooner(tail, t + 3 * HALF_HOUR, t + DAY, until);
    }
    assert days * DAY >= 0;
    DayRushInOrder(t, most, tail, until);
  }

  lemma NoMoves(from: int, until: int)
    ensures MovesInOrder([], from, until)
  {
  }

  /** (10 + most - 1) * (days + 1) sends within that many days and an hour and a half, the half-hour
      limit kept throughout: exactly the daily bound for that span. */
  lemma DailyLimitIsReached(w: World, user: nat, days: nat, most: nat) returns (es: seq<Event>)
    requires most >= 1 && Rested(w, user)
    ensures var span := days * 86400000 + 3 * 1800000;
            && Within(w, es, PerWindow, user, most, span) && span / 86400000 == days
            && Counted(w, es, PerWindow, user) == (10 + most - 1) * (span / 86400000 + 1)
  {
    hide Flight, Orderly, MovesOf, CountTimes, DayRushes, MovesInOrder;
    var span := days * DAY + 3 * HALF_HOUR;
    ModularShift(span, DAY, days, 3 * HALF_HOUR);
    DayRushesAreOrderly(Get(w.windowSends, user), Get(w.dailySends, user), w.now, days, most);
    DayRushesInOrder(w.now, days, most);
    es := SendsAreRealised(w, user, span, most, DayRushes(w.now, days, most));
  }

  // ---- Sends that are never counted ---------------------------------------------------------------

  lemma OneMoreFirst(w: World, e: Event, es: seq<Event>, user: nat, moves: seq<Move>)
    requires Enabled(w, e) && |Flight(w.calls, PerWindow, user)| <= 1 && Realises(Apply(w, e), es, PerWindow, user, 1, moves)
    ensures var first := match MoveOf(w, e, PerWindow, user) case None => [] case Some(m) => [m];
            && Realises(w, [e] + es, PerWindow, user, 1, first + moves)
            && After(w, [e] + es) == After(Apply(w, e), es)
            && Issues(w, [e] + es, user) == Bit(IsIssue(w, e, user)) + Issues(Apply(w, e), es, user)
  {
    hide Apply, Enabled, Flight, MoveOf, IsIssue;
    assert ([e] + es)[1..] == es;
    assert [] + moves == moves;
  }

  lemma {:induction false} IssuesTogether(w: World, es: seq<Event>, fs: seq<Event>, user: nat)
    requires Legal(w, es) && Legal(After(w, es), fs) && Legal(w, es + fs)
    ensures Issues(w, es + fs, user) == Issues(w, es, user) + Issues(After(w, es), fs, user)
    decreases |es|
  {
    hide Apply, Enabled, IsIssue;
    if es == [] {
      assert [] + fs == fs;
    } else {
      assert (es + fs)[1..] == es[1..] + fs;
      IssuesTogether(Apply(w, es[0]), es[1..], fs, user);
    }
  }

  lemma AloneInFlight(calls: Calls, c: nat, p: Phase, user: nat)
    requires Flight(calls, PerWindow, user) == {}
    ensures |Flight(calls[c := p], PerWindow, user)| <= 1
    ensures !Uncounted(p, PerWindow, user) ==> Flight(calls[c := p], PerWindow, user) == {}
  {
    assert Flight(calls[c := p], PerWindow, user) <= {c};
    if c in Flight(calls[c := p], PerWindow, user) {
      assert Flight(calls[c := p], PerWindow, user) == {c};
    }
  }

  /** The four steps of a call that gets its password issued and mailed and dies before counting. */
  lemma IssuingSteps(w: World, user: nat, c: nat, hash: nat) returns (w1: World, w2: World, w3: World, v: World)
    requires Flight(w.calls, PerWindow, user) == {} && MaySend(w, user) && c !in w.calls && hash !in w.tokens
    ensures Enabled(w, CheckLimits(c, user)) && w1 == Apply(w, CheckLimits(c, user))
    ensures Enabled(w1, Invalidate(c)) && w2 == Apply(w1, Invalidate(c))
    ensures Enabled(w2, Insert(c, hash)) && w3 == Apply(w2, Insert(c, hash))
    ensures Enabled(w3, Fail(c)) && v == Apply(w3, Fail(c))
    ensures w1.calls == w.calls[c := Allowed(user)] && w3.calls == w.calls[c := Issued(user, hash)]
    ensures w2.calls == w.calls[c := Cleared(user, w1.step)] && v.calls == w.calls[c := Closed(Aborted)]
    ensures hash !in w2.tokens
    ensures v.now == w3.now == w2.now == w1.now == w.now && v.windowSends == w.windowSends && v.dailySends == w.dailySends
  {
    hide Invalidated, MaySend, Apply, Enabled, Flight;
    CheckLimitsWrites(w, c, user);
    w1 := Apply(w, CheckLimits(c, user));
    InvalidateWrites(w1, c);
    w2 := Apply(w1, Invalidate(c));
    InvalidatedKeys(w1, user);
    InsertWrites(w2, c, hash);
    w3 := Apply(w2, Insert(c, hash));
    FailWrites(w3, c);
    v := Apply(w3, Fail(c));
  }

  lemma IssuedUncounted(w: World, user: nat) returns (es: seq<Event>, v: World)
    requires Flight(w.calls, PerWindow, user) == {} && MaySend(w, user)
    ensures Realises(w, es, PerWindow, user, 1, [Enter(w.now)] + [Leave(w.now)]) && After(w, es) == v
    ensures Legal(w, es) && Issues(w, es, user) == 1
    ensures Flight(v.calls, PerWindow, user) == {} && v.now == w.now
    ensures v.windowSends == w.windowSends && v.dailySends == w.dailySends
  {
    hide MaySend, Apply, Enabled, Flight, Realises, After, Issues, Legal;
    var c := Above(w.calls.Keys);
    var hash := Above(w.tokens.Keys);
    var w1, w2, w3, end := IssuingSteps(w, user, c, hash);
    v := end;
    AloneInFlight(w.calls, c, Allowed(user), user);
    AloneInFlight(w.calls, c, Cleared(user, w1.step), user);
    AloneInFlight(w.calls, c, Issued(user, hash), user);
    AloneInFlight(w.calls, c, Closed(Aborted), user);
    NothingIssued(v, user);
    var leave := [Leave(w.now)];
    assert leave + [] == leave && [] + leave == leave;
    var es1, es2 := [Fail(c)] + [], [Insert(c, hash)] + ([Fail(c)] + []);
    OneMoreFirst(w3, Fail(c), [], user, []);
    OneMoreFirst(w2, Insert(c, hash), es1, user, leave);
    OneMoreFirst(w1, Invalidate(c), es2, user, leave);
    OneMoreFirst(w, CheckLimits(c, user), [Invalidate(c)] + es2, user, leave);
    es := [CheckLimits(c, user)] + ([Invalidate(c)] + es2);
    RunIsLegal(w, es, user, [Enter(w.now)] + leave);
  }

  lemma RunIsLegal(w: World, es: seq<Event>, user: nat, moves: seq<Move>)
    requires Realises(w, es, PerWindow, user, 1, moves)
    ensures Legal(w, es)
  {
  }

  /** So the limits bound the sends that are counted, not the mails: from any state with room under
      both limits, any number of passwords can be issued and mailed at one instant, one request at a
      time, with none of them counted. */
  lemma {:induction false} UncountedSendsAreUnlimited(w: World, user: nat, n: nat) returns (es: seq<Event>)
    requires Flight(w.calls, PerWindow, user) == {} && MaySend(w, user)
    ensures Within(w, es, PerWindow, user, 1, 0) && Issues(w, es, user) == n && Counted(w, es, PerWindow, user) == 0
    decreases n
  {
    hide MaySend, Apply, Enabled, Flight, Issues, Legal, After, AtMost, NoReset, MovesOf;
    if n == 0 {
      NothingIssued(w, user);
      es := [];
      NothingWithin(w, user);
    } else {
      var first, v := IssuedUncounted(w, user);
      RoomStays(w, v, user);
      var rest := UncountedSendsAreUnlimited(v, user, n - 1);
      var moves := MovesOf(v, rest, PerWindow, user);
      Together(w, first, rest, PerWindow, user, 1, [Enter(w.now)] + [Leave(w.now)], moves);
      IssuesTogether(w, first, rest, user);
      NoneCounted(w.now, moves);
      es := first + rest;
    }
  }

  lemma NothingWithin(w: World, user: nat)
    requires Flight(w.calls, PerWindow, user) == {}
    ensures Within(w, [], PerWindow, user, 1, 0) && Counted(w, [], PerWindow, user) == 0
  {
  }

  lemma RoomStays(w: World, v: World, user: nat)
    requires MaySend(w, user) && v.now == w.now && v.windowSends == w.windowSends && v.dailySends == w.dailySends
    ensures MaySend(v, user)
  {
  }

  lemma NoneCounted(now: int, moves: seq<Move>)
    ensures CountTimes([Enter(now)] + [Leave(now)] + moves) == CountTimes(moves)
  {
    var all := [Enter(now)] + [Leave(now)] + moves;
    assert all[1..] == [Leave(now)] + moves && all[1..][1..] == moves;
  }

  lemma InvalidatedKeys(w: World, user: nat)
    ensures Invalidated(w.tokens, user, w.now, w.step).Keys == w.tokens.Keys
  {
  }

  lemma NothingIssued(w: World, user: nat)
    requires Flight(w.calls, PerWindow, user) == {}
    ensures Realises(w, [], PerWindow, user, 1, []) && After(w, []) == w && Issues(w, [], user) == 0
  {
  }
}
