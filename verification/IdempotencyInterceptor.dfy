/** The interceptor over its table: each method is one atomic step of the interleaving machine. */
module IdempotencyInterceptor {
  import opened Idempotency
  import opened Text

  const MAX_KEY_LENGTH: nat := 80

  /** The key under which a call is cached; None is a plain pass-through to the handler. */
  function CacheKey(optedIn: bool, header: Option<string>, user: Option<nat>): Option<string> {
    if !optedIn || header.None? || header.value == "" then None
    else
      var key := Trim(header.value);
      if |key| == 0 || |key| > MAX_KEY_LENGTH || user.None? then None else Some(key)
  }

  /** Exactly which calls are cached and under which key: an opted-in route, a known user, and a header
      that without its outer blanks has 1 to 80 characters, which are the key. Caching the key again
      finds the same slot. */
  lemma CacheKeyIsCanonical(optedIn: bool, header: Option<string>, user: Option<nat>, key: string)
    ensures CacheKey(optedIn, header, user) == Some(key) <==>
              optedIn && user.Some? && header.Some? && Trims(header.value, key) && 1 <= |key| <= 80
    ensures CacheKey(optedIn, header, user) == Some(key) ==> CacheKey(optedIn, Some(key), user) == Some(key)
  {
    hide Trim, Trims;
    if header.Some? {
      TrimExactly(header.value, key);
      if header.value == "" {
        TrimExactly("", "");
        NothingToTrim();
      }
    }
    if CacheKey(optedIn, header, user) == Some(key) {
      TrimsTwice(header.value, key);
      TrimExactly(key, key);
    }
  }

  lemma TrimsTwice(s: string, t: string)
    requires Trims(s, t)
    ensures Trims(t, t)
  {
    var none: string := "";
    assert Blank(none) && t == none + t + none;
  }

  lemma NothingToTrim()
    ensures Trims("", "")
  {
    var none: string := "";
    assert Blank(none) && none == none + none + none;
  }

  class Interceptor {
    var table: map<Slot, Row>
    var open: map<nat, Phase>
    var used: set<nat>
    var now: int
    /** Every handler run that succeeded, kept only for the proofs. */
    ghost var done: map<nat, Handled>

    ghost function State(): World
      reads this
    {
      World(table, open, done, used, now)
    }

    constructor (start: int)
      ensures State() == Empty(start)
    {
      table, open, used, now, done := map[], map[], {}, start, map[];
    }

    method RunWithCache(r: nat, req: Request) returns (out: Outcome)
      requires Enabled(State(), Lookup(r, req))
      modifies this
      ensures out == LookupOutcome(old(table), req)
      ensures State() == Apply(old(State()), Lookup(r, req))
    {
      used := used + {r};
      if req.slot in table {
        var existing := table[req.slot];
        if existing.hash != req.hash {
          return BodyMismatch;
        }
        return Replay(existing.response);
      }
      open := open[r := Running(req)];
      out := Miss;
    }

    /** The handler's response leaves for the client; the insert has only been started. */
    method HandlerSucceeded(r: nat, response: Response)
      requires Enabled(State(), Succeed(r, response))
      modifies this
      ensures State() == Apply(old(State()), Succeed(r, response))
    {
      var req := open[r].req;
      done := done[r := Handled(req, response)];
      open := open[r := Inserting(req, response, now + TTL_MS)];
    }

    method HandlerFailed(r: nat)
      requires Enabled(State(), Fail(r))
      modifies this
      ensures State() == Apply(old(State()), Fail(r))
    {
      open := open - {r};
    }

    /** `persist`: a key collision and any other database error are swallowed alike. */
    method Persist(r: nat, databaseUp: bool)
      requires Enabled(State(), Insert(r))
      modifies this
      ensures State() == Apply(old(State()), if databaseUp then Insert(r) else InsertFails(r))
    {
      var p := open[r];
      open := open - {r};
      if databaseUp && p.req.slot !in table {
        table := table[p.req.slot := Row(p.req.hash, p.response, p.expiresAt, r)];
      }
    }

    method ExpireIdempotencyKeys() returns (deleted: nat)
      modifies this
      ensures State() == Apply(old(State()), Sweep)
      ensures deleted == |set s | s in old(table) && old(table)[s].expiresAt < old(now)|
    {
      var expired := Expired(table, now);
      deleted := |expired|;
      table := table - expired;
    }
  }
}
