/** Every step of the rotation protocol in plain terms: when it may happen, and every column it writes. */
module SessionSteps {
  import opened SessionProtocol
  import opened Text

  /** SET NX on the token's prefix: the caller that finds the key absent sets it and goes on, any other
      waits. Nothing else changes. */
  lemma LockingExactly(w: World, c: nat)
    requires c in w.callers && w.callers[c].Asked?
    ensures Enabled(w, TryLock(c))
    ensures var token, v := w.callers[c].token, Apply(w, TryLock(c));
            && (token.prefix in w.locks ==> v == w.(callers := w.callers[c := Waiting(token, 0)]))
            && (token.prefix !in w.locks ==> v == w.(locks := w.locks + {token.prefix}, callers := w.callers[c := Locked(token)]))
  {
  }

  /** A waiting caller reads the result key of its prefix: a result is served as it is; without one the
      first poll is followed by a second, and the second by the refusal. Nothing else changes. */
  lemma PollingExactly(w: World, c: nat)
    requires c in w.callers && w.callers[c].Waiting?
    ensures Enabled(w, Poll(c)) <==> w.callers[c].polls < 2
    ensures var token, polls := w.callers[c].token, w.callers[c].polls;
            polls < 2 ==>
              Apply(w, Poll(c)) == w.(callers := w.callers[c :=
                if token.prefix in w.cache then Served(token, w.cache[token.prefix])
                else if polls == 0 then Waiting(token, 1) else Refused])
  {
  }

  /** The locking SELECT: it finds an unused row of the token that no open transaction holds, or, when no
      unused row has the token, none. It writes nothing. */
  lemma LookupExactly(w: World, c: nat, id: nat)
    requires c in w.callers && w.callers[c].Locked?
    ensures var token := w.callers[c].token;
            && (Enabled(w, Find(c, id)) <==>
                  && id in w.rows && w.rows[id].usedAt == None && w.rows[id].token == token
                  && forall d :: d in w.callers && w.callers[d].InTx? ==> w.callers[d].row != id)
            && (Enabled(w, Miss(c)) <==> forall i :: i in w.rows && w.rows[i].usedAt == None ==> w.rows[i].token != token)
            && (Enabled(w, Find(c, id)) ==> Apply(w, Find(c, id)) == w.(callers := w.callers[c := InTx(token, id)]))
            && (Enabled(w, Miss(c)) ==> Apply(w, Miss(c)) == w.(callers := w.callers[c := Missed(token)]))
  {
    var token := w.callers[c].token;
    if forall d :: d in w.callers && w.callers[d].InTx? ==> w.callers[d].row != id {
      assert !RowLocked(w, id);
    } else {
      var d :| d in w.callers && w.callers[d].InTx? && w.callers[d].row == id;
      assert At(w, d) && RowLocked(w, id);
    }
    if forall i :: i in w.rows && w.rows[i].usedAt == None ==> w.rows[i].token != token {
      assert forall i :: Unused(w, i) ==> w.rows[i].token != token;
    } else {
      var i :| i in w.rows && w.rows[i].usedAt == None && w.rows[i].token == token;
      assert Unused(w, i);
    }
  }

  /** The transaction's end: a row past its end is refused with the table as it was, any other is stamped
      with the time, its other columns staying as they are. */
  lemma DecisionExactly(w: World, c: nat)
    requires c in w.callers && w.callers[c].InTx? && w.callers[c].row in w.rows
    ensures Enabled(w, Decide(c))
    ensures var token, id := w.callers[c].token, w.callers[c].row;
            var row, v := w.rows[id], Apply(w, Decide(c));
            && (row.expiresAt < w.now ==> v == w.(callers := w.callers[c := Refused]))
            && (row.expiresAt >= w.now ==>
                  v == w.(rows := w.rows[id := Row(row.user, row.token, row.expiresAt, Some(w.now), row.login)],
                          stamps := w.stamps + multiset{id},
                          callers := w.callers[c := Stamped(token, id, row.user, row.login)]))
  {
  }

  /** The second lookup, by token alone: a used row makes the caller revoke its user's sessions, an unused
      one or none is refused. */
  lemma InspectionExactly(w: World, c: nat, id: nat)
    requires c in w.callers && w.callers[c].Missed?
    ensures var token := w.callers[c].token;
            && (Enabled(w, Inspect(c, Some(id))) <==> id in w.rows && w.rows[id].token == token)
            && (Enabled(w, Inspect(c, None)) <==> forall i :: i in w.rows ==> w.rows[i].token != token)
            && (id in w.rows && w.rows[id].token == token ==>
                  Apply(w, Inspect(c, Some(id)))
                  == w.(callers := w.callers[c := if w.rows[id].usedAt == None then Refused else Replayed(w.rows[id].user)]))
            && (Enabled(w, Inspect(c, None)) ==> Apply(w, Inspect(c, None)) == w.(callers := w.callers[c := Refused]))
  {
  }

  /** The revoking DELETE finds the rows of the user, used or not, and removes exactly those, once no open
      transaction holds one of them. */
  lemma RevocationExactly(w: World, c: nat)
    requires c in w.callers
    ensures w.callers[c].Replayed? ==>
              && Enabled(w, BeginRevoke(c))
              && var user := w.callers[c].user;
                 Apply(w, BeginRevoke(c))
                 == w.(callers := w.callers[c := Revoking(user, set id | id in w.rows && w.rows[id].user == user)])
    ensures w.callers[c].Revoking? ==>
              var ids := w.callers[c].ids;
              && (Enabled(w, RevokeAll(c)) <==>
                    forall d :: d in w.callers && w.callers[d].InTx? && w.callers[d].row in w.rows ==> w.callers[d].row !in ids)
              && (Enabled(w, RevokeAll(c)) ==>
                    var v := Apply(w, RevokeAll(c));
                    && (forall id :: id in v.rows <==> id in w.rows && id !in ids)
                    && (forall id :: id in v.rows ==> v.rows[id] == w.rows[id])
                    && v == w.(rows := v.rows, callers := w.callers[c := Refused]))
  {
    if w.callers[c].Revoking? {
      NobodyHolds(w, w.callers[c].ids);
    }
  }

  lemma NobodyHolds(w: World, ids: set<nat>)
    ensures Deletable(w, ids) <==> forall d :: d in w.callers && w.callers[d].InTx? && w.callers[d].row in w.rows ==> w.callers[d].row !in ids
  {
    if Deletable(w, ids) {
      forall d | d in w.callers && w.callers[d].InTx? && w.callers[d].row in w.rows ensures w.callers[d].row !in ids {
        assert At(w, d) && RowLocked(w, w.callers[d].row);
      }
    } else {
      var id :| id in ids && id in w.rows && RowLocked(w, id);
    }
  }

  /** The INSERT after a rotation: an unused row of the same user under a fresh id and the new token,
      ending `lifetime` from now; refused by the unique constraint exactly when a row has the token. */
  lemma CreationExactly(w: World, c: nat, token: Token, lifetime: nat)
    requires c in w.callers && w.callers[c].Stamped?
    ensures Enabled(w, Create(c, token, lifetime)) <==> forall i :: i in w.rows ==> w.rows[i].token != token
    ensures var p, id := w.callers[c], |w.births|;
            Enabled(w, Create(c, token, lifetime)) ==>
              Apply(w, Create(c, token, lifetime))
              == w.(rows := w.rows[id := Row(p.user, token, w.now + lifetime, None, p.login)],
                    births := w.births + [Birth(token, Some(p.row))],
                    answers := w.answers[p.row := Response(id, token)],
                    callers := w.callers[c := Created(p.token, p.row, Response(id, token))])
  {
  }

  /** The answer is cached under the prefix of the token the caller presented, and returned. */
  lemma PublicationExactly(w: World, c: nat)
    requires c in w.callers && w.callers[c].Created?
    ensures Enabled(w, Publish(c))
    ensures var p := w.callers[c];
            Apply(w, Publish(c)) == w.(cache := w.cache[p.token.prefix := p.response], callers := w.callers[c := Served(p.token, p.response)])
  {
  }

  /** A login inserts an unused row under a fresh id with a token that no row has. */
  lemma LoginExactly(w: World, user: nat, token: Token, lifetime: nat)
    ensures Enabled(w, Login(user, token, lifetime)) <==> forall i :: i in w.rows ==> w.rows[i].token != token
    ensures Enabled(w, Login(user, token, lifetime)) ==>
              Apply(w, Login(user, token, lifetime))
              == w.(rows := w.rows[|w.births| := Row(user, token, w.now + lifetime, None, |w.logins|)],
                    births := w.births + [Birth(token, None)], logins := w.logins + [user])
  {
  }

  /** A logout or other delete removes exactly the rows it names, once no open transaction holds one. */
  lemma DeletionExactly(w: World, ids: set<nat>)
    ensures Enabled(w, Delete(ids)) <==>
              forall d :: d in w.callers && w.callers[d].InTx? && w.callers[d].row in w.rows ==> w.callers[d].row !in ids
    ensures Enabled(w, Delete(ids)) ==>
              var v := Apply(w, Delete(ids));
              && (forall id :: id in v.rows <==> id in w.rows && id !in ids)
              && (forall id :: id in v.rows ==> v.rows[id] == w.rows[id])
              && v == w.(rows := v.rows)
  {
    hide Deletable;
    NobodyHolds(w, ids);
  }

  /** A Redis key that expires is gone, and nothing else. */
  lemma ExpiryExactly(w: World, prefix: nat)
    ensures prefix in w.locks ==> Apply(w, LockExpires(prefix)) == w.(locks := w.locks - {prefix})
    ensures prefix in w.cache ==> Apply(w, CacheExpires(prefix)) == w.(cache := w.cache - {prefix})
  {
  }

  /** A call begins with nothing but its token; one that fails, at whatever point before its answer, ends
      refused with nothing undone and nothing else written; the clock runs forward alone. */
  lemma CallExactly(w: World, c: nat, token: Token, elapsed: nat)
    ensures Enabled(w, Ask(c, token)) <==> c !in w.callers
    ensures c !in w.callers ==> Apply(w, Ask(c, token)) == w.(callers := w.callers[c := Asked(token)])
    ensures Enabled(w, Fail(c)) <==> c in w.callers && !w.callers[c].Served? && !w.callers[c].Refused?
    ensures Enabled(w, Fail(c)) ==> Apply(w, Fail(c)) == w.(callers := w.callers[c := Refused])
    ensures Apply(w, Tick(elapsed)) == w.(now := w.now + elapsed)
  {
  }

  /** The session check: the row is there, was never used, and has not passed its end. */
  lemma CheckExactly(w: World, id: nat)
    ensures Accepts(w, id) <==> id in w.rows && w.rows[id].usedAt == None && w.rows[id].expiresAt >= w.now
  {
  }
}
