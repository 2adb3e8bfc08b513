/** The provider-key service over its table, one transaction a call. */
module AiProviderKeyService {
  import opened Envelope
  import opened KeyVault
  import opened Text

  class AiProviderKeys {
    const p: Primitives
    var rows: seq<KeyRow>
    var secrets: Secrets
    var nextId: nat
    var draws: nat
    /** The key each id was created with, kept only for the proofs. */
    ghost var originals: map<nat, string>

    function State(): Vault
      reads this
    {
      Vault(rows, secrets, nextId, draws)
    }

    ghost predicate Valid()
      reads this
    {
      Lawful(p) && Inv(p, State(), originals)
    }

    constructor (primitives: Primitives, configured: Secrets)
      requires Lawful(primitives)
      ensures Valid() && p == primitives && rows == [] && secrets == configured && originals == map[]
    {
      p, secrets := primitives, configured;
      rows, nextId, draws := [], 0, 0;
      originals := map[];
    }

    method FindRow(id: nat) returns (i: nat)
      ensures i == Find(rows, id)
    {
      i := 0;
      while i < |rows| && rows[i].id != id
        invariant i <= |rows| && forall j :: 0 <= j < i ==> rows[j].id != id
      {
        i := i + 1;
      }
    }

    /** The bulk UPDATE that frees the active slot of a type. */
    method DeactivateType(t: nat)
      modifies this`rows
      ensures rows == Deactivated(old(rows), t)
    {
      for i := 0 to |rows|
        invariant |rows| == |old(rows)|
        invariant rows[..i] == Deactivated(old(rows), t)[..i] && rows[i..] == old(rows)[i..]
      {
        assert rows[i] == rows[i..][0] && old(rows)[i] == old(rows)[i..][0];
        if rows[i].assistantType == t && rows[i].isActive {
          rows := rows[i := rows[i].(isActive := false)];
        }
        assert rows[i + 1..] == old(rows)[i..][1..];
        assert rows[..i + 1] == rows[..i] + [rows[i]];
      }
    }

    method CreateKey(t: nat, model: nat, lbl: nat, key: string) returns (out: Outcome)
      requires Valid()
      modifies this
      ensures Valid()
      ensures (State(), out) == Apply(p, old(State()), Create(t, model, lbl, key))
      ensures originals == Record(old(State()), old(originals), Create(t, model, lbl, key), out)
    {
      hide Inv, MasterEncrypt, Lawful;
      StepKeepsInv(p, State(), originals, Create(t, model, lbl, key));
      var encrypted := MasterEncrypt(p, secrets, key, draws);
      if encrypted.None? {
        return CipherFailed;
      }
      DeactivateType(t);
      rows := rows + [KeyRow(nextId, t, model, lbl, encrypted.value.version, encrypted.value.text, Last4(key), true)];
      originals := originals[nextId := key];
      nextId, draws := nextId + 1, draws + 1;
      out := Done(1);
    }

    method UpdateKey(id: nat, newModel: Option<nat>, newLabel: Option<nat>) returns (out: Outcome)
      requires Valid()
      modifies this`rows
      ensures Valid()
      ensures (State(), out) == Apply(p, old(State()), Update(id, newModel, newLabel))
    {
      hide Inv, Lawful;
      StepKeepsInv(p, State(), originals, Update(id, newModel, newLabel));
      var i := FindRow(id);
      if i == |rows| {
        return NotFound;
      }
      var row := rows[i];
      if newLabel.Some? {
        row := row.(lbl := newLabel.value);
      }
      if newModel.Some? {
        row := row.(model := newModel.value);
      }
      rows := rows[i := row];
      out := Done(1);
    }

    method ActivateKey(id: nat) returns (out: Outcome)
      requires Valid()
      modifies this`rows
      ensures Valid()
      ensures (State(), out) == Apply(p, old(State()), Activate(id))
    {
      hide Inv, Lawful;
      StepKeepsInv(p, State(), originals, Activate(id));
      var i := FindRow(id);
      if i == |rows| {
        return NotFound;
      }
      var target := rows[i];
      DeactivateType(target.assistantType);
      rows := rows[i := target.(isActive := true)];
      out := Done(1);
    }

    method CountInactive(t: nat) returns (n: nat)
      ensures n > 0 <==> HasInactive(rows, t)
    {
      n := 0;
      for i := 0 to |rows|
        invariant n > 0 <==> exists j :: 0 <= j < i && rows[j].assistantType == t && !rows[j].isActive
      {
        if rows[i].assistantType == t && !rows[i].isActive {
          n := n + 1;
        }
      }
    }

    method RevokeKey(id: nat) returns (out: Outcome)
      requires Valid()
      modifies this`rows
      ensures Valid()
      ensures (State(), out) == Apply(p, old(State()), Revoke(id))
    {
      hide Inv, Lawful, HasInactive;
      StepKeepsInv(p, State(), originals, Revoke(id));
      var i := FindRow(id);
      if i == |rows| {
        return NotFound;
      }
      if rows[i].isActive {
        var otherCount := CountInactive(rows[i].assistantType);
        if otherCount == 0 {
          return RequiresReplacement;
        }
      }
      rows := rows[..i] + rows[i + 1..];
      out := Done(1);
    }

    /** The transaction's loop, on a copy of the rows: it stops at the first row that cannot be
        rewritten. */
    method RewriteRows() returns (ok: bool, work: seq<KeyRow>, touched: nat, drawn: nat)
      ensures ok <==> RewrapAll(p, secrets, rows, draws).Pass?
      ensures ok ==> RewrapAll(p, secrets, rows, draws) == Pass(work, touched, drawn)
    {
      hide MasterEncrypt, MasterDecrypt, RewrapAll;
      var targetVersion := secrets.currentVersion;
      ok, work, touched, drawn := false, rows, 0, draws;
      NoRows(p, secrets, rows, draws);
      for i := 0 to |rows|
        invariant |work| == |rows| && work[i..] == rows[i..]
        invariant RewrapAll(p, secrets, rows[..i], draws) == Pass(work[..i], touched, drawn)
      {
        var row := work[i];
        assert row == work[i..][0] == rows[i..][0] == rows[i];
        NextRow(p, secrets, rows, i, draws);
        if row.masterKeyVersion != targetVersion {
          var plaintext := MasterDecrypt(p, secrets, row.keyCiphertext);
          if plaintext.None? {
            AbandonedStays(p, secrets, rows, i + 1, draws);
            return;
          }
          var encrypted := MasterEncrypt(p, secrets, plaintext.value, drawn);
          if encrypted.None? {
            AbandonedStays(p, secrets, rows, i + 1, draws);
            return;
          }
          row := row.(masterKeyVersion := encrypted.value.version, keyCiphertext := encrypted.value.text);
          work := work[i := row];
          touched, drawn := touched + 1, drawn + 1;
        }
        assert work[..i + 1] == work[..i] + [row];
        assert work[i + 1..] == rows[i..][1..];
      }
      assert rows[..|rows|] == rows && work[..|rows|] == work;
      ok := true;
    }

    /** A row that cannot be rewritten rolls the whole transaction back. */
    method ReEncrypt() returns (out: Outcome)
      requires Valid()
      modifies this`rows, this`draws
      ensures Valid()
      ensures (State(), out) == Apply(p, old(State()), ReEncryptAll)
    {
      hide Inv, Lawful, RewrapAll;
      StepKeepsInv(p, State(), originals, ReEncryptAll);
      var ok, work, touched, drawn := RewriteRows();
      if !ok {
        return CipherFailed;
      }
      rows, draws := work, drawn;
      out := Done(touched);
    }

    method GetActiveKeyEnvelope(bff: Secrets, t: nat) returns (served: Served)
      requires Valid()
      modifies this`draws
      ensures Valid()
      ensures served == ServeActive(p, old(State()), bff, t, old(draws))
      ensures draws == old(draws) + if served.Served? then 1 else 0
    {
      hide Inv, Lawful, MasterDecrypt, GcmEncrypt;
      var i := 0;
      while i < |rows| && !(rows[i].assistantType == t && rows[i].isActive)
        modifies {}
        invariant i <= |rows| && forall j :: 0 <= j < i ==> !(rows[j].assistantType == t && rows[j].isActive)
      {
        i := i + 1;
      }
      if i == |rows| {
        return NotConfigured;
      }
      var plaintext := MasterDecrypt(p, secrets, rows[i].keyCiphertext);
      if plaintext.None? {
        return Failed;
      }
      var e := GcmEncrypt(p, bff, plaintext.value, draws);
      if e.None? {
        return Failed;
      }
      served := Served(e.value, rows[i].keyLast4, rows[i].model);
      DrawKeepsInv(p, State(), originals, draws + 1);
      draws := draws + 1;
    }
  }

  lemma NoRows(p: Primitives, secrets: Secrets, rows: seq<KeyRow>, draws: nat)
    ensures RewrapAll(p, secrets, rows[..0], draws) == Pass([], 0, draws)
  {
  }

  lemma NextRow(p: Primitives, secrets: Secrets, rows: seq<KeyRow>, i: nat, draws: nat)
    requires i < |rows|
    ensures rows[..i + 1][..i] == rows[..i] && rows[..i + 1][i] == rows[i]
    ensures RewrapAll(p, secrets, rows[..i], draws).Pass? ==>
              var front := RewrapAll(p, secrets, rows[..i], draws);
              var whole := RewrapAll(p, secrets, rows[..i + 1], draws);
              if rows[i].masterKeyVersion == secrets.currentVersion then
                whole == Pass(front.rows + [rows[i]], front.touched, front.draws)
              else
                var row := Rewrap(p, secrets, rows[i], front.draws);
                whole == if row.None? then Abandoned else Pass(front.rows + [row.value], front.touched + 1, front.draws + 1)
  {
    hide Rewrap;
    assert rows[..i + 1][..i] == rows[..i];
  }

  lemma {:induction false} AbandonedStays(p: Primitives, secrets: Secrets, rows: seq<KeyRow>, i: nat, draws: nat)
    requires i <= |rows| && RewrapAll(p, secrets, rows[..i], draws).Abandoned?
    ensures RewrapAll(p, secrets, rows, draws).Abandoned?
  {
    hide Rewrap;
    if i < |rows| {
      assert rows[..|rows| - 1][..i] == rows[..i];
      AbandonedStays(p, secrets, rows[..|rows| - 1], i, draws);
    } else {
      assert rows[..i] == rows;
    }
  }

  lemma DrawKeepsInv(p: Primitives, v: Vault, originals: map<nat, string>, draws: nat)
    requires Inv(p, v, originals)
    ensures Inv(p, v.(draws := draws), originals)
  {
  }
}
