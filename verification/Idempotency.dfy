/** The idempotency cache as an interleaving machine: lookups, handler runs, the insert that
    follows the response, and the expiry sweep. */
module Idempotency {
  import opened Text

  /** The primary key of `idempotency_key`; the endpoint is the method and the route pattern. */
  datatype Slot = Slot(key: nat, user: nat, endpoint: nat)

  /** `url` is the concrete address, its route parameters filled in; the cache never sees it. */
  datatype Request = Request(slot: Slot, hash: nat, url: nat)

  datatype Response = Response(status: nat, body: nat)

  /** `origin` is history: the request whose handler run the row stores. */
  datatype Row = Row(hash: nat, response: Response, expiresAt: int, origin: nat)

  /** A request past its lookup: its handler runs, or its response is out and its insert is not. */
  datatype Phase = Running(req: Request) | Inserting(req: Request, response: Response, expiresAt: int)

  datatype Handled = Handled(req: Request, response: Response)

  /** `done` records every successful handler run; `used` the request ids seen. */
  datatype World = World(table: map<Slot, Row>, open: map<nat, Phase>, done: map<nat, Handled>, used: set<nat>, now: int)

  datatype Event =
    | Lookup(r: nat, req: Request)
    | Succeed(r: nat, response: Response)
    | Fail(r: nat)
    | Insert(r: nat)
    | InsertFails(r: nat)
    | Sweep
    | Tick(ms: nat)

  datatype Outcome = Miss | Replay(response: Response) | BodyMismatch

  const TTL_MS: int := 6 * 3600000

  function Empty(now: int): World {
    World(map[], map[], map[], {}, now)
  }

  function LookupOutcome(table: map<Slot, Row>, req: Request): Outcome {
    if req.slot !in table then Miss
    else if table[req.slot].hash != req.hash then BodyMismatch
    else Replay(table[req.slot].response)
  }

  predicate Enabled(w: World, e: Event) {
    match e
    case Lookup(r, _) => r !in w.used
    case Succeed(r, _) => r in w.open && w.open[r].Running?
    case Fail(r) => r in w.open && w.open[r].Running?
    case Insert(r) => r in w.open && w.open[r].Inserting?
    case InsertFails(r) => r in w.open && w.open[r].Inserting?
    case Sweep => true
    case Tick(_) => true
  }

  function Expired(table: map<Slot, Row>, now: int): set<Slot> {
    set s | s in table && table[s].expiresAt < now
  }

  function RowOf(p: Phase, r: nat): Row
    requires p.Inserting?
  {
    Row(p.req.hash, p.response, p.expiresAt, r)
  }

  function Apply(w: World, e: Event): World
    requires Enabled(w, e)
  {
    match e
    case Lookup(r, req) =>
      var seen := w.(used := w.used + {r});
      if LookupOutcome(w.table, req).Miss? then seen.(open := w.open[r := Running(req)]) else seen
    case Succeed(r, response) =>
      w.(open := w.open[r := Inserting(w.open[r].req, response, w.now + TTL_MS)],
         done := w.done[r := Handled(w.open[r].req, response)])
    case Fail(r) => w.(open := w.open - {r})
    case Insert(r) =>
      var p := w.open[r];
      w.(open := w.open - {r}, table := if p.req.slot in w.table then w.table else w.table[p.req.slot := RowOf(p, r)])
    case InsertFails(r) => w.(open := w.open - {r})
    case Sweep => w.(table := w.table - Expired(w.table, w.now))
    case Tick(ms) => w.(now := w.now + ms)
  }

  predicate Legal(w: World, es: seq<Event>)
    decreases |es|
  {
    es == [] || (Enabled(w, es[0]) && Legal(Apply(w, es[0]), es[1..]))
  }

  function After(w: World, es: seq<Event>): World
    requires Legal(w, es)
    decreases |es|
  {
    if es == [] then w else After(Apply(w, es[0]), es[1..])
  }

  // ---- Where rows and replays come from ------------------------------------------------

  predicate FromHandler(done: map<nat, Handled>, s: Slot, row: Row) {
    && row.origin in done
    && done[row.origin].req.slot == s && done[row.origin].req.hash == row.hash
    && done[row.origin].response == row.response
  }

  ghost predicate Inv(w: World) {
    && (forall s :: s in w.table ==> FromHandler(w.done, s, w.table[s]))
    && (forall r :: r in w.open && w.open[r].Inserting? ==> r in w.done && w.done[r] == Handled(w.open[r].req, w.open[r].response))
    && (forall r :: r in w.open && w.open[r].Running? ==> r !in w.done)
    && w.open.Keys <= w.used && w.done.Keys <= w.used
  }

  lemma StepKeepsInv(w: World, e: Event)
    requires Inv(w) && Enabled(w, e)
    ensures Inv(Apply(w, e))
    ensures forall r :: r in w.done ==> r in Apply(w, e).done && Apply(w, e).done[r] == w.done[r]
  {
    var v := Apply(w, e);
    forall s | s in v.table ensures FromHandler(v.done, s, v.table[s]) {
      if s in w.table {
        assert FromHandler(w.done, s, w.table[s]);
      }
    }
  }

  lemma {:induction false} RunKeepsInv(w: World, es: seq<Event>)
    requires Inv(w) && Legal(w, es)
    ensures Inv(After(w, es))
    decreases |es|
  {
    hide Inv, Apply, Enabled;
    if es != [] {
      StepKeepsInv(w, es[0]);
      RunKeepsInv(Apply(w, es[0]), es[1..]);
    }
  }

  predicate Answers(h: Handled, req: Request, response: Response) {
    h.req.slot == req.slot && h.req.hash == req.hash && h.response == response
  }

  /** In every reachable state a replay is the response of a successful handler run for the same
      key, user, endpoint and body hash, even after the row has expired; a mismatch means some
      handler ran under that key with another body. */
  lemma ReplaysAreHandlerResponses(w: World, es: seq<Event>, req: Request)
    requires Inv(w) && Legal(w, es)
    ensures var v, out := After(w, es), LookupOutcome(After(w, es).table, req);
            && (out.Replay? ==> exists r :: r in v.done && Answers(v.done[r], req, out.response))
            && (out.BodyMismatch? ==> exists r :: r in v.done && v.done[r].req.slot == req.slot && v.done[r].req.hash != req.hash)
            && (out.Miss? <==> req.slot !in v.table)
  {
    hide Apply, Enabled, After, Legal;
    RunKeepsInv(w, es);
    var v := After(w, es);
    if req.slot in v.table {
      assert FromHandler(v.done, req.slot, v.table[req.slot]);
    }
  }

  // ---- One route, several addresses ----------------------------------------------------------

  /** Every lookup under `s` in this run is for the one address `url`. */
  predicate OneAddress(es: seq<Event>, s: Slot, url: nat) {
    forall i :: 0 <= i < |es| && es[i].Lookup? && es[i].req.slot == s ==> es[i].req.url == url
  }

  ghost predicate AtAddress(w: World, s: Slot, url: nat) {
    && (forall r :: r in w.open && w.open[r].req.slot == s ==> w.open[r].req.url == url)
    && (forall r :: r in w.done && w.done[r].req.slot == s ==> w.done[r].req.url == url)
  }

  lemma {:induction false} AddressIsKept(w: World, es: seq<Event>, s: Slot, url: nat)
    requires Legal(w, es) && OneAddress(es, s, url) && AtAddress(w, s, url)
    ensures AtAddress(After(w, es), s, url)
    decreases |es|
  {
    if es != [] {
      AddressStep(w, es[0], s, url);
      AddressIsKept(Apply(w, es[0]), es[1..], s, url);
    }
  }

  lemma AddressStep(w: World, e: Event, s: Slot, url: nat)
    requires Enabled(w, e) && AtAddress(w, s, url)
    requires e.Lookup? && e.req.slot == s ==> e.req.url == url
    ensures AtAddress(Apply(w, e), s, url)
  {
  }

  /** Which run a replay answers with, exactly: the one that stored the row, so the same address is
      answered if and only if that run was for it; and so it is whenever the client used the key for
      one address of the route only. */
  lemma ReplayAddressExactly(now: int, es: seq<Event>, req: Request)
    requires Legal(Empty(now), es) && LookupOutcome(After(Empty(now), es).table, req).Replay?
    ensures var v := After(Empty(now), es);
            var row := v.table[req.slot];
            && row.origin in v.done && Answers(v.done[row.origin], req, LookupOutcome(v.table, req).response)
            && (v.done[row.origin].req == req <==> v.done[row.origin].req.url == req.url)
            && (OneAddress(es, req.slot, req.url) ==> v.done[row.origin].req == req)
  {
    hide Apply, Enabled, After, Legal;
    RunKeepsInv(Empty(now), es);
    var v := After(Empty(now), es);
    assert FromHandler(v.done, req.slot, v.table[req.slot]);
    if OneAddress(es, req.slot, req.url) {
      AddressIsKept(Empty(now), es, req.slot, req.url);
    }
  }

  /** The key of a request to one address replays to a request with the same body for any other
      address of the route: the endpoint is the pattern, not the address. */
  lemma AnotherAddressIsReplayed(req: Request, other: nat, a: Response, now: int)
    ensures var es := [Lookup(1, req), Succeed(1, a), Insert(1)];
            && Legal(Empty(now), es)
            && LookupOutcome(After(Empty(now), es).table, req.(url := other)) == Replay(a)
            && After(Empty(now), es).done == map[1 := Handled(req, a)]
  {
    var w0 := Empty(now);
    var w1 := Apply(w0, Lookup(1, req));
    var w2 := Apply(w1, Succeed(1, a));
    var w3 := Apply(w2, Insert(1));
    Unroll(w2, Insert(1), [], req.slot, NOTHING);
    Unroll(w1, Succeed(1, a), [Insert(1)], req.slot, NOTHING);
    Unroll(w0, Lookup(1, req), [Succeed(1, a), Insert(1)], req.slot, NOTHING);
  }

  // ---- A stored row never changes ------------------------------------------------------------

  lemma TimePasses(w: World, e: Event)
    requires Enabled(w, e)
    ensures Apply(w, e).now >= w.now
  {
  }

  lemma {:induction false} TimeOnlyGrows(w: World, es: seq<Event>)
    requires Legal(w, es)
    ensures After(w, es).now >= w.now
    decreases |es|
  {
    hide Apply, Enabled;
    if es != [] {
      TimePasses(w, es[0]);
      TimeOnlyGrows(Apply(w, es[0]), es[1..]);
    }
  }

  /** One step leaves a row as it is, or it is a sweep and the row had expired. */
  lemma RowStep(w: World, e: Event, s: Slot)
    requires Enabled(w, e) && s in w.table
    ensures s in Apply(w, e).table ==> Apply(w, e).table[s] == w.table[s]
    ensures s !in Apply(w, e).table ==> e.Sweep? && w.table[s].expiresAt < w.now
  {
  }

  /** Until it expires a stored row is there, unchanged, under every interleaving: the first
      insert wins and nothing overwrites it. */
  lemma {:induction false} RowLastsItsLifetime(w: World, es: seq<Event>, s: Slot)
    requires Legal(w, es) && s in w.table && After(w, es).now <= w.table[s].expiresAt
    ensures s in After(w, es).table && After(w, es).table[s] == w.table[s]
    decreases |es|
  {
    hide Apply, Enabled;
    if es != [] {
      TimePasses(w, es[0]);
      TimeOnlyGrows(Apply(w, es[0]), es[1..]);
      RowStep(w, es[0], s);
      RowLastsItsLifetime(Apply(w, es[0]), es[1..], s);
    }
  }

  /** Whenever it is gone, or different, a sweep has removed it after its expiry. */
  lemma {:induction false} OnlyASweepRemoves(w: World, es: seq<Event>, s: Slot)
    requires Legal(w, es) && s in w.table
    requires s !in After(w, es).table || After(w, es).table[s] != w.table[s]
    ensures exists k :: 0 <= k < |es| && es[k].Sweep? && NowAt(w, es, k) > w.table[s].expiresAt
    decreases |es|
  {
    hide Apply, Enabled;
    var v := Apply(w, es[0]);
    RowStep(w, es[0], s);
    if s in v.table {
      OnlyASweepRemoves(v, es[1..], s);
      var k :| 0 <= k < |es[1..]| && es[1..][k].Sweep? && NowAt(v, es[1..], k) > w.table[s].expiresAt;
      assert es[k + 1] == es[1..][k] && NowAt(w, es, k + 1) == NowAt(v, es[1..], k);
    } else {
      assert es[0].Sweep? && NowAt(w, es, 0) == w.now;
    }
  }

  /** The clock just before event k. */
  function NowAt(w: World, es: seq<Event>, k: nat): int
    requires Legal(w, es) && k < |es|
    decreases k
  {
    if k == 0 then w.now else NowAt(Apply(w, es[0]), es[1..], k - 1)
  }

  // ---- The sweep, and how long a row can last ---------------------------------------------------

  /** A sweep leaves exactly the rows that have not expired yet, each as it was, and touches nothing
      but the table. */
  lemma SweepExactly(w: World)
    ensures var v := Apply(w, Sweep);
            && (forall s :: s in v.table <==> s in w.table && w.table[s].expiresAt >= w.now)
            && (forall s :: s in v.table ==> v.table[s] == w.table[s])
            && v == w.(table := v.table)
  {
  }

  /** What a lookup answers and leaves behind: nothing stored under the slot lets the handler run,
      another body is a conflict, the same body gets the stored response; the table never changes. */
  lemma LookupExactly(w: World, r: nat, req: Request)
    requires r !in w.used
    ensures var out, v := LookupOutcome(w.table, req), Apply(w, Lookup(r, req));
            && (req.slot !in w.table ==> out == Miss && v.open == w.open[r := Running(req)])
            && (req.slot in w.table ==> v.open == w.open)
            && (req.slot in w.table && w.table[req.slot].hash != req.hash ==> out == BodyMismatch)
            && (req.slot in w.table && w.table[req.slot].hash == req.hash ==> out == Replay(w.table[req.slot].response))
            && v == w.(open := v.open, used := w.used + {r})
  {
  }

  /** A successful handler starts an insert that lasts six hours (21600000 ms) from its success; a
      failed one starts none. The insert stores the row only when the slot is free. */
  lemma HandlerEndsExactly(w: World, r: nat, response: Response)
    requires r in w.open && w.open[r].Running?
    ensures var req, v := w.open[r].req, Apply(w, Succeed(r, response));
            v == w.(open := w.open[r := Inserting(req, response, w.now + 21600000)], done := w.done[r := Handled(req, response)])
    ensures Apply(w, Fail(r)) == w.(open := w.open - {r})
  {
  }

  lemma InsertExactly(w: World, r: nat)
    requires r in w.open && w.open[r].Inserting?
    ensures var p, v := w.open[r], Apply(w, Insert(r));
            && (p.req.slot in w.table ==> v.table == w.table)
            && (p.req.slot !in w.table ==> v.table == w.table[p.req.slot := Row(p.req.hash, p.response, p.expiresAt, r)])
            && v == w.(open := w.open - {r}, table := v.table)
    ensures Apply(w, InsertFails(r)) == w.(open := w.open - {r})
  {
  }

  lemma ClockExactly(w: World, ms: nat)
    ensures Apply(w, Tick(ms)) == w.(now := w.now + ms)
  {
  }

  /** Event k is the success of request r, six hours before `expiresAt`. */
  predicate SucceededAt(w: World, es: seq<Event>, r: nat, k: nat, expiresAt: int)
    requires Legal(w, es)
  {
    k < |es| && es[k].Succeed? && es[k].r == r && expiresAt == NowAt(w, es, k) + 21600000
  }

  ghost predicate Succeeded(w: World, es: seq<Event>, r: nat, expiresAt: int)
    requires Legal(w, es)
  {
    exists k: nat :: SucceededAt(w, es, r, k, expiresAt)
  }

  lemma SucceededLater(w: World, es: seq<Event>, r: nat, expiresAt: int)
    requires es != [] && Legal(w, es) && Succeeded(Apply(w, es[0]), es[1..], r, expiresAt)
    ensures Succeeded(w, es, r, expiresAt)
  {
    hide Apply, Enabled;
    var v := Apply(w, es[0]);
    var k: nat :| SucceededAt(v, es[1..], r, k, expiresAt);
    assert es[k + 1] == es[1..][k] && NowAt(w, es, k + 1) == NowAt(v, es[1..], k);
    assert SucceededAt(w, es, r, k + 1, expiresAt);
  }

  /** A row there after one step was there before, or is what an insert under way was to store. */
  lemma RowCameFrom(w: World, e: Event, s: Slot)
    requires Enabled(w, e) && s in Apply(w, e).table
    ensures var row := Apply(w, e).table[s];
            || (s in w.table && w.table[s] == row)
            || (row.origin in w.open && w.open[row.origin].Inserting? && w.open[row.origin].expiresAt == row.expiresAt)
  {
  }

  lemma InsertCameFrom(w: World, e: Event, r: nat)
    requires Enabled(w, e) && r in Apply(w, e).open && Apply(w, e).open[r].Inserting?
    ensures var p := Apply(w, e).open[r];
            || (r in w.open && w.open[r] == p)
            || (e.Succeed? && e.r == r && p.expiresAt == w.now + 21600000)
  {
  }

  lemma {:induction false} RowHasSuccess(w: World, es: seq<Event>, s: Slot)
    requires Legal(w, es) && s in After(w, es).table
    ensures var row := After(w, es).table[s];
            || (s in w.table && w.table[s] == row)
            || (row.origin in w.open && w.open[row.origin].Inserting? && w.open[row.origin].expiresAt == row.expiresAt)
            || Succeeded(w, es, row.origin, row.expiresAt)
    decreases |es|
  {
    hide Apply, Enabled, Succeeded;
    if es != [] {
      var v, row := Apply(w, es[0]), After(w, es).table[s];
      RowHasSuccess(v, es[1..], s);
      if s in v.table && v.table[s] == row {
        RowCameFrom(w, es[0], s);
      } else if Succeeded(v, es[1..], row.origin, row.expiresAt) {
        SucceededLater(w, es, row.origin, row.expiresAt);
      } else {
        InsertCameFrom(w, es[0], row.origin);
        if !(row.origin in w.open && w.open[row.origin] == v.open[row.origin]) {
          SucceededNow(w, es, row.origin, row.expiresAt);
        }
      }
    }
  }

  lemma SucceededNow(w: World, es: seq<Event>, r: nat, expiresAt: int)
    requires es != [] && Legal(w, es) && es[0].Succeed? && es[0].r == r && expiresAt == w.now + 21600000
    ensures Succeeded(w, es, r, expiresAt)
  {
    hide Apply, Enabled;
    assert NowAt(w, es, 0) == w.now;
    assert SucceededAt(w, es, r, 0, expiresAt);
  }

  /** How long a response is replayed, exactly: every stored row comes from a success, and the first
      sweep more than six hours after that success removes it, while no earlier one does. */
  lemma RowLastsSixHours(now: int, es: seq<Event>, s: Slot)
    requires Legal(Empty(now), es) && s in After(Empty(now), es).table
    ensures var w := After(Empty(now), es);
            && Succeeded(Empty(now), es, w.table[s].origin, w.table[s].expiresAt)
            && (forall k: nat :: SucceededAt(Empty(now), es, w.table[s].origin, k, w.table[s].expiresAt) ==>
                  (s in Apply(w, Sweep).table <==> w.now <= NowAt(Empty(now), es, k) + 21600000))
  {
    hide Apply, Enabled, Succeeded;
    RowHasSuccess(Empty(now), es, s);
    SweepExactly(After(Empty(now), es));
  }

  // ---- Conservation -------------------------------------------------------------------------

  /** What happened to the successful handler runs of one slot. */
  datatype Tally = Tally(successes: nat, stored: nat, collided: nat, failed: nat, swept: nat)

  function TallyStep(w: World, e: Event, s: Slot, t: Tally): Tally
    requires Enabled(w, e)
  {
    match e
    case Succeed(r, _) => if w.open[r].req.slot == s then t.(successes := t.successes + 1) else t
    case Insert(r) =>
      if w.open[r].req.slot != s then t
      else if s in w.table then t.(collided := t.collided + 1) else t.(stored := t.stored + 1)
    case InsertFails(r) => if w.open[r].req.slot == s then t.(failed := t.failed + 1) else t
    case Sweep => if s in Expired(w.table, w.now) then t.(swept := t.swept + 1) else t
    case _ => t
  }

  function TallyOf(w: World, es: seq<Event>, s: Slot, t: Tally): Tally
    requires Legal(w, es)
    decreases |es|
  {
    if es == [] then t else TallyOf(Apply(w, es[0]), es[1..], s, TallyStep(w, es[0], s, t))
  }

  function Pending(open: map<nat, Phase>, s: Slot): set<nat> {
    set r | r in open && open[r].Inserting? && open[r].req.slot == s
  }

  function Present(table: map<Slot, Row>, s: Slot): nat {
    if s in table then 1 else 0
  }

  ghost predicate Balanced(w: World, s: Slot, t: Tally) {
    && t.successes == |Pending(w.open, s)| + t.stored + t.collided + t.failed
    && t.stored == t.swept + Present(w.table, s)
  }

  lemma PendingLeaves(open: map<nat, Phase>, r: nat, s: Slot)
    requires r in open
    ensures |Pending(open - {r}, s)| == |Pending(open, s)| - if r in Pending(open, s) then 1 else 0
  {
    assert Pending(open - {r}, s) == Pending(open, s) - {r};
  }

  lemma PendingJoins(open: map<nat, Phase>, r: nat, p: Phase, s: Slot)
    requires r !in open || open[r].Running?
    ensures |Pending(open[r := p], s)| == |Pending(open, s)| + if p.Inserting? && p.req.slot == s then 1 else 0
  {
    if p.Inserting? && p.req.slot == s {
      assert r !in Pending(open, s);
      assert Pending(open[r := p], s) == Pending(open, s) + {r};
    } else {
      assert Pending(open[r := p], s) == Pending(open, s);
    }
  }

  lemma StepBalances(w: World, e: Event, s: Slot, t: Tally)
    requires Inv(w) && Enabled(w, e) && Balanced(w, s, t)
    ensures Balanced(Apply(w, e), s, TallyStep(w, e, s, t))
  {
    hide Pending;
    match e
    case Lookup(r, req) => PendingJoins(w.open, r, Running(req), s);
    case Succeed(r, response) => PendingJoins(w.open, r, Inserting(w.open[r].req, response, w.now + TTL_MS), s);
    case Fail(r) => PendingLeaves(w.open, r, s); PendingMembers(w.open, r, s);
    case Insert(r) => PendingLeaves(w.open, r, s); PendingMembers(w.open, r, s);
    case InsertFails(r) => PendingLeaves(w.open, r, s); PendingMembers(w.open, r, s);
    case _ =>
  }

  lemma PendingMembers(open: map<nat, Phase>, r: nat, s: Slot)
    requires r in open
    ensures r in Pending(open, s) <==> open[r].Inserting? && open[r].req.slot == s
  {
  }

  /** Conservation over every run: each successful handler run of a slot is still inserting, was
      stored, or lost its insert; each stored row is there or was swept. */
  lemma {:induction false} SuccessesAreAccountedFor(w: World, es: seq<Event>, s: Slot, t: Tally)
    requires Inv(w) && Legal(w, es) && Balanced(w, s, t)
    ensures Balanced(After(w, es), s, TallyOf(w, es, s, t))
    decreases |es|
  {
    hide Inv, Apply, Enabled, Balanced, TallyStep;
    if es != [] {
      StepKeepsInv(w, es[0]);
      StepBalances(w, es[0], s, t);
      SuccessesAreAccountedFor(Apply(w, es[0]), es[1..], s, TallyStep(w, es[0], s, t));
    }
  }

  // ---- At most one success per row lifetime ------------------------------------------------------

  ghost predicate NoneOpen(w: World, s: Slot) {
    forall r :: r in w.open ==> w.open[r].req.slot != s
  }

  /** Requests for `s` do not overlap: each looks up only after the previous one, insert included,
      is over. */
  ghost predicate Sequential(w: World, es: seq<Event>, s: Slot)
    requires Legal(w, es)
    decreases |es|
  {
    es == [] || ((es[0].Lookup? && es[0].req.slot == s ==> NoneOpen(w, s)) && Sequential(Apply(w, es[0]), es[1..], s))
  }

  ghost predicate OneAtATime(w: World, s: Slot) {
    && (s in w.table ==> NoneOpen(w, s))
    && (forall a, b :: a in w.open && b in w.open && w.open[a].req.slot == s && w.open[b].req.slot == s ==> a == b)
  }

  lemma SequentialStep(w: World, e: Event, s: Slot)
    requires Inv(w) && Enabled(w, e) && OneAtATime(w, s)
    requires e.Lookup? && e.req.slot == s ==> NoneOpen(w, s)
    ensures OneAtATime(Apply(w, e), s) && EndsAlone(w, e, s)
  {
  }

  /** A successful run of `s` ends while no row is stored and no insert is outstanding. */
  predicate EndsAlone(w: World, e: Event, s: Slot)
    requires Enabled(w, e)
  {
    e.Succeed? && w.open[e.r].req.slot == s ==> s !in w.table && Pending(w.open, s) == {}
  }

  predicate SucceedsAlone(w: World, es: seq<Event>, s: Slot)
    requires Legal(w, es)
    decreases |es|
  {
    es == [] || (EndsAlone(w, es[0], s) && SucceedsAlone(Apply(w, es[0]), es[1..], s))
  }

  predicate OnceSoFar(t: Tally) {
    t.collided == 0 && t.successes <= t.swept + t.failed + 1
  }

  /** At every moment of the run, at most one success per row lifetime. */
  predicate AlwaysOnce(w: World, es: seq<Event>, s: Slot, t: Tally)
    requires Legal(w, es)
    decreases |es|
  {
    OnceSoFar(t) && (es == [] || AlwaysOnce(Apply(w, es[0]), es[1..], s, TallyStep(w, es[0], s, t)))
  }

  lemma OnceMeansAlone(w: World, s: Slot, t: Tally)
    requires Balanced(w, s, t)
    ensures OnceSoFar(t) <==> t.collided == 0 && |Pending(w.open, s)| + Present(w.table, s) <= 1
  {
  }

  lemma OnceStep(w: World, e: Event, s: Slot, t: Tally)
    requires Inv(w) && Enabled(w, e) && Balanced(w, s, t) && OnceSoFar(t)
    ensures OnceSoFar(TallyStep(w, e, s, t)) <==> EndsAlone(w, e, s)
  {
    hide Inv;
    OnceMeansAlone(w, s, t);
    if e.Insert? {
      PendingMembers(w.open, e.r, s);
      assert e.r in Pending(w.open, s) ==> |Pending(w.open, s)| > 0;
    }
    if e.Sweep? {
      assert s in Expired(w.table, w.now) ==> s in w.table;
    }
  }

  /** The exact condition for once-only, over every schedule: at every moment of the run no insert
      has collided and handlers have succeeded at most once per row lifetime, plus once per failed
      insert, if and only if every success of the slot ends while its table row is absent and no
      other insert of it is outstanding. */
  lemma {:induction false} OnceExactly(w: World, es: seq<Event>, s: Slot, t: Tally)
    requires Inv(w) && Legal(w, es) && Balanced(w, s, t) && OnceSoFar(t)
    ensures AlwaysOnce(w, es, s, t) <==> SucceedsAlone(w, es, s)
    decreases |es|
  {
    hide Inv, Apply, Enabled, Balanced, TallyStep, OnceSoFar, EndsAlone;
    if es != [] {
      var v, u := Apply(w, es[0]), TallyStep(w, es[0], s, t);
      StepKeepsInv(w, es[0]);
      StepBalances(w, es[0], s, t);
      OnceStep(w, es[0], s, t);
      if OnceSoFar(u) {
        OnceExactly(v, es[1..], s, u);
      } else {
        NotOnce(v, es[1..], s, u);
      }
    }
  }

  lemma NotOnce(w: World, es: seq<Event>, s: Slot, t: Tally)
    requires Legal(w, es) && !OnceSoFar(t)
    ensures !AlwaysOnce(w, es, s, t)
  {
  }

  lemma {:induction false} AlwaysIncludesTheEnd(w: World, es: seq<Event>, s: Slot, t: Tally)
    requires Legal(w, es) && AlwaysOnce(w, es, s, t)
    ensures OnceSoFar(TallyOf(w, es, s, t))
    decreases |es|
  {
    hide Apply, Enabled, TallyStep, OnceSoFar;
    if es != [] {
      AlwaysIncludesTheEnd(Apply(w, es[0]), es[1..], s, TallyStep(w, es[0], s, t));
    }
  }

  /** Requests that do not overlap, inserts included, end alone. */
  lemma {:induction false} SequentialEndsAlone(w: World, es: seq<Event>, s: Slot)
    requires Inv(w) && Legal(w, es) && OneAtATime(w, s) && Sequential(w, es, s)
    ensures SucceedsAlone(w, es, s)
    decreases |es|
  {
    hide Inv, Apply, Enabled, OneAtATime, NoneOpen, EndsAlone;
    if es != [] {
      StepKeepsInv(w, es[0]);
      SequentialStep(w, es[0], s);
      SequentialEndsAlone(Apply(w, es[0]), es[1..], s);
    }
  }

  const NOTHING: Tally := Tally(0, 0, 0, 0, 0)

  lemma EmptyBalances(now: int, s: Slot)
    ensures Inv(Empty(now)) && OneAtATime(Empty(now), s)
    ensures Balanced(Empty(now), s, NOTHING) && OnceSoFar(NOTHING)
  {
    assert Pending(map[], s) == {};
  }

  /** From an empty table: once only, at every moment, exactly when every success ends alone. */
  lemma SuccessesAreOnceExactly(es: seq<Event>, s: Slot, now: int)
    requires Legal(Empty(now), es)
    ensures AlwaysOnce(Empty(now), es, s, NOTHING) <==> SucceedsAlone(Empty(now), es, s)
  {
    EmptyBalances(now, s);
    OnceExactly(Empty(now), es, s, NOTHING);
  }

  /** In particular when requests under a key do not overlap: a handler succeeds at most once per
      row lifetime, the first time, and again only after a sweep or a failed insert. */
  lemma SequentialRequestsSucceedOnce(es: seq<Event>, s: Slot, now: int)
    requires Legal(Empty(now), es) && Sequential(Empty(now), es, s)
    ensures var t := TallyOf(Empty(now), es, s, NOTHING);
            t.collided == 0 && t.successes <= t.swept + t.failed + 1
  {
    hide Legal, Sequential, TallyOf, AlwaysOnce, SucceedsAlone, Inv, OneAtATime;
    EmptyBalances(now, s);
    SequentialEndsAlone(Empty(now), es, s);
    SuccessesAreOnceExactly(es, s, now);
    AlwaysIncludesTheEnd(Empty(now), es, s, NOTHING);
  }

  /** Without that condition it is false: the response leaves before the insert, so a client that
      retries at once, having received its answer, can run the handler a second time. */
  lemma RetryBeatsTheInsert(req: Request, a: Response, b: Response, now: int)
    ensures var es := [Lookup(1, req), Succeed(1, a), Lookup(2, req), Succeed(2, b), Insert(1), Insert(2)];
            && Legal(Empty(now), es)
            && TallyOf(Empty(now), es, req.slot, NOTHING) == Tally(2, 1, 1, 0, 0)
            && After(Empty(now), es).table == map[req.slot := Row(req.hash, a, now + TTL_MS, 1)]
  {
    var w0 := Empty(now);
    var w1 := Apply(w0, Lookup(1, req));
    var w2 := Apply(w1, Succeed(1, a));
    var w3 := Apply(w2, Lookup(2, req));
    var w4 := Apply(w3, Succeed(2, b));
    var w5 := Apply(w4, Insert(1));
    var w6 := Apply(w5, Insert(2));
    var t := Tally(2, 1, 0, 0, 0);
    RetryStates(req, a, b, now, w0, w1, w2, w3, w4, w5, w6);
    Unroll(w5, Insert(2), [], req.slot, t);
    Unroll(w4, Insert(1), [Insert(2)], req.slot, Tally(2, 0, 0, 0, 0));
    Unroll(w3, Succeed(2, b), [Insert(1), Insert(2)], req.slot, Tally(1, 0, 0, 0, 0));
    Unroll(w2, Lookup(2, req), [Succeed(2, b), Insert(1), Insert(2)], req.slot, Tally(1, 0, 0, 0, 0));
    Unroll(w1, Succeed(1, a), [Lookup(2, req), Succeed(2, b), Insert(1), Insert(2)], req.slot, NOTHING);
    Unroll(w0, Lookup(1, req), [Succeed(1, a), Lookup(2, req), Succeed(2, b), Insert(1), Insert(2)], req.slot, NOTHING);
  }

  lemma RetryStates(req: Request, a: Response, b: Response, now: int,
                    w0: World, w1: World, w2: World, w3: World, w4: World, w5: World, w6: World)
    requires w0 == Empty(now) && w1 == Apply(w0, Lookup(1, req)) && w2 == Apply(w1, Succeed(1, a))
    requires w3 == Apply(w2, Lookup(2, req)) && w4 == Apply(w3, Succeed(2, b))
    requires w5 == Apply(w4, Insert(1)) && w6 == Apply(w5, Insert(2))
    ensures Enabled(w5, Insert(2)) && TallyStep(w5, Insert(2), req.slot, Tally(2, 1, 0, 0, 0)) == Tally(2, 1, 1, 0, 0)
    ensures Enabled(w4, Insert(1)) && TallyStep(w4, Insert(1), req.slot, Tally(2, 0, 0, 0, 0)) == Tally(2, 1, 0, 0, 0)
    ensures Enabled(w3, Succeed(2, b)) && TallyStep(w3, Succeed(2, b), req.slot, Tally(1, 0, 0, 0, 0)) == Tally(2, 0, 0, 0, 0)
    ensures TallyStep(w1, Succeed(1, a), req.slot, NOTHING) == Tally(1, 0, 0, 0, 0)
    ensures w6.table == map[req.slot := Row(req.hash, a, now + TTL_MS, 1)]
  {
  }

  lemma Unroll(w: World, e: Event, rest: seq<Event>, s: Slot, t: Tally)
    requires Enabled(w, e) && Legal(Apply(w, e), rest)
    ensures Legal(w, [e] + rest)
    ensures After(w, [e] + rest) == After(Apply(w, e), rest)
    ensures TallyOf(w, [e] + rest, s, t) == TallyOf(Apply(w, e), rest, s, TallyStep(w, e, s, t))
  {
    hide Apply, Enabled, TallyStep;
    assert ([e] + rest)[0] == e && ([e] + rest)[1..] == rest;
  }
}
