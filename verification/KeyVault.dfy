/** The provider-key table: one active row per assistant type, every row readable, and
    re-encryption that changes nothing but the wrapping. */
module KeyVault {
  import opened Envelope
  import opened Text

  datatype KeyRow = KeyRow(
    id: nat,
    assistantType: nat,
    model: nat,
    lbl: nat,
    masterKeyVersion: int,
    keyCiphertext: string,
    keyLast4: string,
    isActive: bool
  )

  /** The table, the configured master keys, and the counters behind fresh ids and nonces. */
  datatype Vault = Vault(rows: seq<KeyRow>, secrets: Secrets, nextId: nat, draws: nat)

  datatype Op =
    | Create(assistantType: nat, model: nat, lbl: nat, key: string)
    | Update(id: nat, newModel: Option<nat>, newLabel: Option<nat>)
    | Activate(id: nat)
    | Revoke(id: nat)
    | ReEncryptAll
    | Reconfigure(secrets: Secrets)

  datatype Outcome = Done(count: nat) | NotFound | RequiresReplacement | CipherFailed

  // ---- Table operations ---------------------------------------------------------------

  function Find(rows: seq<KeyRow>, id: nat): (i: nat)
    ensures i <= |rows| && (i < |rows| ==> rows[i].id == id)
    ensures forall j :: 0 <= j < i ==> rows[j].id != id
  {
    if rows == [] then 0 else if rows[0].id == id then 0 else 1 + Find(rows[1..], id)
  }

  /** UPDATE … SET is_active = false WHERE assistant_type = t AND is_active. */
  function Deactivated(rows: seq<KeyRow>, t: nat): (r: seq<KeyRow>)
    ensures |r| == |rows|
    ensures forall i :: 0 <= i < |rows| ==> r[i] == if rows[i].assistantType == t then rows[i].(isActive := false) else rows[i]
  {
    seq(|rows|, i requires 0 <= i < |rows| =>
      if rows[i].assistantType == t then rows[i].(isActive := false) else rows[i])
  }

  predicate HasInactive(rows: seq<KeyRow>, t: nat) {
    exists i :: 0 <= i < |rows| && rows[i].assistantType == t && !rows[i].isActive
  }

  /** `key.slice(-4).padStart(4, '*')` */
  function Last4(key: string): (r: string)
    ensures |r| == 4
  {
    if |key| >= 4 then key[|key| - 4..] else seq(4 - |key|, i => '*') + key
  }

  /** The rewriting loop: rows on an older version are decrypted and encrypted again under the
      current one, in order; the first failure abandons the whole pass. */
  datatype Pass = Pass(rows: seq<KeyRow>, touched: nat, draws: nat) | Abandoned

  function Rewrap(p: Primitives, secrets: Secrets, row: KeyRow, draw: nat): Option<KeyRow> {
    var text := MasterDecrypt(p, secrets, row.keyCiphertext);
    if text.None? then None
    else
      var c := MasterEncrypt(p, secrets, text.value, draw);
      if c.None? then None
      else Some(row.(masterKeyVersion := c.value.version, keyCiphertext := c.value.text))
  }

  function RewrapAll(p: Primitives, secrets: Secrets, rows: seq<KeyRow>, draws: nat): Pass {
    if rows == [] then Pass([], 0, draws)
    else
      var front, last := RewrapAll(p, secrets, rows[..|rows| - 1], draws), rows[|rows| - 1];
      if front.Abandoned? then Abandoned
      else if last.masterKeyVersion == secrets.currentVersion then Pass(front.rows + [last], front.touched, front.draws)
      else
        var row := Rewrap(p, secrets, last, front.draws);
        if row.None? then Abandoned else Pass(front.rows + [row.value], front.touched + 1, front.draws + 1)
  }

  /** One committed, or rolled back, call. */
  function Apply(p: Primitives, v: Vault, op: Op): (Vault, Outcome) {
    match op
    case Create(t, model, lbl, key) =>
      var c := MasterEncrypt(p, v.secrets, key, v.draws);
      if c.None? then (v, CipherFailed)
      else
        var row := KeyRow(v.nextId, t, model, lbl, c.value.version, c.value.text, Last4(key), true);
        (v.(rows := Deactivated(v.rows, t) + [row], nextId := v.nextId + 1, draws := v.draws + 1), Done(1))
    case Update(id, model, lbl) =>
      var i := Find(v.rows, id);
      if i == |v.rows| then (v, NotFound)
      else
        var row := v.rows[i].(model := if model.Some? then model.value else v.rows[i].model,
                              lbl := if lbl.Some? then lbl.value else v.rows[i].lbl);
        (v.(rows := v.rows[i := row]), Done(1))
    case Activate(id) =>
      var i := Find(v.rows, id);
      if i == |v.rows| then (v, NotFound)
      else (v.(rows := Deactivated(v.rows, v.rows[i].assistantType)[i := v.rows[i].(isActive := true)]), Done(1))
    case Revoke(id) =>
      var i := Find(v.rows, id);
      if i == |v.rows| then (v, NotFound)
      else if v.rows[i].isActive && !HasInactive(v.rows, v.rows[i].assistantType) then (v, RequiresReplacement)
      else (v.(rows := v.rows[..i] + v.rows[i + 1..]), Done(1))
    case ReEncryptAll =>
      var pass := RewrapAll(p, v.secrets, v.rows, v.draws);
      if pass.Abandoned? then (v, CipherFailed)
      else (v.(rows := pass.rows, draws := pass.draws), Done(pass.touched))
    case Reconfigure(secrets) => (v.(secrets := secrets), Done(0))
  }

  // ---- Originals and the invariant ------------------------------------------------------

  /** The plaintext each id was created with. */
  function Record(v: Vault, originals: map<nat, string>, op: Op, out: Outcome): map<nat, string> {
    if op.Create? && out.Done? then originals[v.nextId := op.key] else originals
  }

  /** A deployment may change the current version and add keys, but keeps every version in use. */
  predicate KeepsUsedVersions(v: Vault, op: Op) {
    op.Reconfigure? ==>
      forall i :: 0 <= i < |v.rows| ==> SameKey(v.secrets, op.secrets, v.rows[i].masterKeyVersion)
  }

  predicate SameKey(a: Secrets, b: Secrets, version: int) {
    version in a.versions ==> version in b.versions && b.versions[version] == a.versions[version]
  }

  ghost predicate OneActivePerType(rows: seq<KeyRow>) {
    forall i, j :: 0 <= i < j < |rows| && rows[i].isActive && rows[j].isActive ==> rows[i].assistantType != rows[j].assistantType
  }

  ghost predicate DistinctIds(rows: seq<KeyRow>, nextId: nat) {
    && (forall i :: 0 <= i < |rows| ==> rows[i].id < nextId)
    && (forall i, j :: 0 <= i < j < |rows| ==> rows[i].id != rows[j].id)
  }

  /** The row still reads as the key it was created with, under the version its column names. */
  ghost predicate Readable(p: Primitives, secrets: Secrets, row: KeyRow, originals: map<nat, string>) {
    && row.id in originals
    && MasterDecrypt(p, secrets, row.keyCiphertext) == Some(originals[row.id])
    && Parse(row.keyCiphertext).Some?
    && Parse(row.keyCiphertext).value.version == row.masterKeyVersion
    && row.keyLast4 == Last4(originals[row.id])
  }

  ghost predicate AllReadable(p: Primitives, secrets: Secrets, rows: seq<KeyRow>, originals: map<nat, string>) {
    forall i :: 0 <= i < |rows| ==> Readable(p, secrets, rows[i], originals)
  }

  ghost predicate Inv(p: Primitives, v: Vault, originals: map<nat, string>) {
    && OneActivePerType(v.rows)
    && DistinctIds(v.rows, v.nextId)
    && AllReadable(p, v.secrets, v.rows, originals)
  }

  // ---- Re-encryption ----------------------------------------------------------------------

  function Stale(rows: seq<KeyRow>, version: int): nat {
    if rows == [] then 0
    else Stale(rows[..|rows| - 1], version) + if rows[|rows| - 1].masterKeyVersion != version then 1 else 0
  }

  /** Everything about a row except its wrapping. */
  function Unwrapped(row: KeyRow): KeyRow {
    row.(masterKeyVersion := 0, keyCiphertext := "")
  }

  lemma RewrapKeeps(p: Primitives, secrets: Secrets, row: KeyRow, draw: nat, originals: map<nat, string>)
    requires Lawful(p) && Readable(p, secrets, row, originals)
    ensures Rewrap(p, secrets, row, draw).Some? <==> CanEncrypt(p, secrets)
    ensures Rewrap(p, secrets, row, draw).Some? ==>
              var r := Rewrap(p, secrets, row, draw).value;
              Readable(p, secrets, r, originals) && r.masterKeyVersion == secrets.currentVersion && Unwrapped(r) == Unwrapped(row)
  {
    hide CanEncrypt, MasterEncrypt, MasterDecrypt, Parse, Last4;
    MasterRoundTrip(p, secrets, secrets, originals[row.id], draw);
  }

  /** The pass succeeds exactly when nothing is stale or the current key is usable; then it returns
      the stale count, leaves every row current and readable, and touches only the wrapping. */
  lemma {:induction false} RewrapAllKeeps(p: Primitives, secrets: Secrets, rows: seq<KeyRow>, draws: nat, originals: map<nat, string>)
    requires Lawful(p) && AllReadable(p, secrets, rows, originals)
    ensures var pass := RewrapAll(p, secrets, rows, draws);
            && (pass.Abandoned? <==> Stale(rows, secrets.currentVersion) > 0 && !CanEncrypt(p, secrets))
            && (pass.Pass? ==>
                  && pass.touched == Stale(rows, secrets.currentVersion)
                  && |pass.rows| == |rows|
                  && AllReadable(p, secrets, pass.rows, originals)
                  && forall i :: 0 <= i < |rows| ==>
                       && pass.rows[i].masterKeyVersion == secrets.currentVersion
                       && Unwrapped(pass.rows[i]) == Unwrapped(rows[i])
                       && (rows[i].masterKeyVersion == secrets.currentVersion ==> pass.rows[i] == rows[i]))
  {
    hide CanEncrypt, Rewrap, Readable;
    if rows != [] {
      var front, last := rows[..|rows| - 1], rows[|rows| - 1];
      RewrapAllKeeps(p, secrets, front, draws, originals);
      var done := RewrapAll(p, secrets, front, draws);
      if done.Pass? {
        RewrapKeeps(p, secrets, last, done.draws, originals);
      }
    }
  }

  lemma {:induction false} NothingStale(p: Primitives, secrets: Secrets, rows: seq<KeyRow>, draws: nat)
    requires forall i :: 0 <= i < |rows| ==> rows[i].masterKeyVersion == secrets.currentVersion
    ensures RewrapAll(p, secrets, rows, draws) == Pass(rows, 0, draws)
  {
    hide MasterDecrypt, MasterEncrypt;
    if rows != [] {
      var front, last := rows[..|rows| - 1], rows[|rows| - 1];
      NothingStale(p, secrets, front, draws);
      assert front + [last] == rows;
    }
  }

  /** `reEncryptAll` is all-or-nothing and exact: it fails, changing nothing, only when a row is
      stale and the current key cannot encrypt; otherwise it returns how many rows were stale,
      and a second call finds nothing left to do. */
  lemma ReEncryptionIsExact(p: Primitives, v: Vault, originals: map<nat, string>)
    requires Lawful(p) && Inv(p, v, originals)
    ensures var (w, out) := Apply(p, v, ReEncryptAll);
            && (out == CipherFailed <==> Stale(v.rows, v.secrets.currentVersion) > 0 && !CanEncrypt(p, v.secrets))
            && (out == CipherFailed ==> w == v)
            && (out != CipherFailed ==>
                  && out == Done(Stale(v.rows, v.secrets.currentVersion))
                  && |w.rows| == |v.rows| && w.secrets == v.secrets
                  && (forall i :: 0 <= i < |v.rows| ==>
                        && w.rows[i].masterKeyVersion == v.secrets.currentVersion
                        && Unwrapped(w.rows[i]) == Unwrapped(v.rows[i]))
                  && Apply(p, w, ReEncryptAll) == (w, Done(0)))
  {
    hide CanEncrypt, Readable, OneActivePerType, DistinctIds;
    RewrapAllKeeps(p, v.secrets, v.rows, v.draws, originals);
    var pass := RewrapAll(p, v.secrets, v.rows, v.draws);
    if pass.Pass? {
      NothingStale(p, v.secrets, pass.rows, pass.draws);
    }
  }

  // ---- Every step keeps the invariant -------------------------------------------------------

  lemma CreateKeeps(p: Primitives, v: Vault, originals: map<nat, string>, op: Op)
    requires Lawful(p) && Inv(p, v, originals) && op.Create?
    ensures var (w, out) := Apply(p, v, op); Inv(p, w, Record(v, originals, op, out))
  {
    hide MasterEncrypt, MasterDecrypt, Parse, Last4, CanEncrypt;
    var c := MasterEncrypt(p, v.secrets, op.key, v.draws);
    MasterRoundTrip(p, v.secrets, v.secrets, op.key, v.draws);
    if c.Some? {
      var w := Apply(p, v, op).0;
      var n := |v.rows|;
      assert w.rows[n] == KeyRow(v.nextId, op.assistantType, op.model, op.lbl, c.value.version, c.value.text, Last4(op.key), true);
      assert forall i :: 0 <= i < n ==>
               w.rows[i] == if v.rows[i].assistantType == op.assistantType then v.rows[i].(isActive := false) else v.rows[i];
      CreatedTable(v.rows, w.rows, v.nextId, op.assistantType);
      forall i | 0 <= i < |w.rows|
        ensures Readable(p, v.secrets, w.rows[i], originals[v.nextId := op.key])
      {
        if i < n {
          assert Readable(p, v.secrets, v.rows[i], originals) && v.rows[i].id != v.nextId;
        }
      }
    }
  }

  lemma CreatedTable(rows: seq<KeyRow>, after: seq<KeyRow>, nextId: nat, t: nat)
    requires OneActivePerType(rows) && DistinctIds(rows, nextId)
    requires |after| == |rows| + 1 && after[|rows|].id == nextId && after[|rows|].assistantType == t
    requires forall i :: 0 <= i < |rows| ==> after[i] == if rows[i].assistantType == t then rows[i].(isActive := false) else rows[i]
    ensures OneActivePerType(after) && DistinctIds(after, nextId + 1)
  {
    assert forall i :: 0 <= i < |rows| ==> after[i].assistantType == rows[i].assistantType && after[i].id == rows[i].id;
  }

  lemma SameWrapping(p: Primitives, v: Vault, originals: map<nat, string>, rows: seq<KeyRow>)
    requires AllReadable(p, v.secrets, v.rows, originals)
    requires forall i :: 0 <= i < |rows| ==> SomeWrapped(v.rows, rows[i])
    ensures AllReadable(p, v.secrets, rows, originals)
  {
    hide MasterDecrypt, Parse, Last4;
    forall i | 0 <= i < |rows| ensures Readable(p, v.secrets, rows[i], originals) {
      var j :| 0 <= j < |v.rows| && Wrapped(v.rows[j], rows[i]);
      assert Readable(p, v.secrets, v.rows[j], originals);
    }
  }

  predicate Wrapped(a: KeyRow, b: KeyRow) {
    a.id == b.id && a.masterKeyVersion == b.masterKeyVersion && a.keyCiphertext == b.keyCiphertext && a.keyLast4 == b.keyLast4
  }

  predicate SomeWrapped(rows: seq<KeyRow>, r: KeyRow) {
    exists j :: 0 <= j < |rows| && Wrapped(rows[j], r)
  }

  lemma PositionwiseWrapping(p: Primitives, v: Vault, originals: map<nat, string>, rows: seq<KeyRow>)
    requires AllReadable(p, v.secrets, v.rows, originals) && DistinctIds(v.rows, v.nextId)
    requires |rows| == |v.rows| && forall i :: 0 <= i < |rows| ==> Wrapped(v.rows[i], rows[i])
    ensures AllReadable(p, v.secrets, rows, originals) && DistinctIds(rows, v.nextId)
  {
    hide Readable;
    forall i | 0 <= i < |rows| ensures SomeWrapped(v.rows, rows[i]) {
      assert Wrapped(v.rows[i], rows[i]);
    }
    SameWrapping(p, v, originals, rows);
    assert forall i :: 0 <= i < |rows| ==> Wrapped(v.rows[i], rows[i]);
  }

  lemma TableStepsKeep(p: Primitives, v: Vault, originals: map<nat, string>, op: Op)
    requires Inv(p, v, originals) && (op.Update? || op.Activate? || op.Revoke?)
    ensures var (w, out) := Apply(p, v, op); Inv(p, w, originals)
  {
    hide Readable;
    var w := Apply(p, v, op).0;
    var i := Find(v.rows, op.id);
    if i < |v.rows| && w != v {
      if op.Revoke? {
        RemovalKeeps(v.rows, w.rows, i, v.nextId);
        SameWrapping(p, v, originals, w.rows);
      } else {
        PositionwiseWrapping(p, v, originals, w.rows);
      }
    }
  }

  lemma RemovalKeeps(rows: seq<KeyRow>, after: seq<KeyRow>, i: nat, nextId: nat)
    requires OneActivePerType(rows) && DistinctIds(rows, nextId) && i < |rows| && after == rows[..i] + rows[i + 1..]
    ensures OneActivePerType(after) && DistinctIds(after, nextId)
    ensures forall k :: 0 <= k < |after| ==> SomeWrapped(rows, after[k])
  {
    assert forall k :: 0 <= k < |after| ==> after[k] == rows[if k < i then k else k + 1];
    forall k | 0 <= k < |after| ensures SomeWrapped(rows, after[k]) {
      assert Wrapped(rows[if k < i then k else k + 1], after[k]);
    }
  }

  lemma ReEncryptKeeps(p: Primitives, v: Vault, originals: map<nat, string>)
    requires Lawful(p) && Inv(p, v, originals)
    ensures Inv(p, Apply(p, v, ReEncryptAll).0, originals)
  {
    hide Readable, CanEncrypt;
    RewrapAllKeeps(p, v.secrets, v.rows, v.draws, originals);
    var pass := RewrapAll(p, v.secrets, v.rows, v.draws);
    if pass.Pass? {
      assert forall i :: 0 <= i < |v.rows| ==> SameFace(v.rows[i], pass.rows[i]);
      FacesSuffice(v.rows, pass.rows, v.nextId);
    }
  }

  predicate SameFace(a: KeyRow, b: KeyRow) {
    a.id == b.id && a.assistantType == b.assistantType && a.isActive == b.isActive
  }

  lemma FacesSuffice(rows: seq<KeyRow>, after: seq<KeyRow>, nextId: nat)
    requires OneActivePerType(rows) && DistinctIds(rows, nextId)
    requires |after| == |rows| && forall i :: 0 <= i < |rows| ==> SameFace(rows[i], after[i])
    ensures OneActivePerType(after) && DistinctIds(after, nextId)
  {
  }

  lemma ReconfigureKeeps(p: Primitives, v: Vault, originals: map<nat, string>, op: Op)
    requires Inv(p, v, originals) && op.Reconfigure? && KeepsUsedVersions(v, op)
    ensures Inv(p, Apply(p, v, op).0, originals)
  {
    hide Parse, Last4, IsKeyText;
    forall i | 0 <= i < |v.rows| ensures Readable(p, op.secrets, v.rows[i], originals) {
      assert Readable(p, v.secrets, v.rows[i], originals);
      assert SameKey(v.secrets, op.secrets, v.rows[i].masterKeyVersion);
    }
  }

  lemma StepKeepsInv(p: Primitives, v: Vault, originals: map<nat, string>, op: Op)
    requires Lawful(p) && Inv(p, v, originals) && KeepsUsedVersions(v, op)
    ensures var (w, out) := Apply(p, v, op); Inv(p, w, Record(v, originals, op, out))
  {
    hide Inv, Apply;
    match op
    case Create(_, _, _, _) => CreateKeeps(p, v, originals, op);
    case ReEncryptAll => ReEncryptKeeps(p, v, originals);
    case Reconfigure(_) => ReconfigureKeeps(p, v, originals, op);
    case _ => TableStepsKeep(p, v, originals, op);
  }

  // ---- Runs -----------------------------------------------------------------------------------

  function Run(p: Primitives, v: Vault, ops: seq<Op>): Vault
    decreases |ops|
  {
    if ops == [] then v else Run(p, Apply(p, v, ops[0]).0, ops[1..])
  }

  function RunOriginals(p: Primitives, v: Vault, originals: map<nat, string>, ops: seq<Op>): map<nat, string>
    decreases |ops|
  {
    if ops == [] then originals
    else
      var (w, out) := Apply(p, v, ops[0]);
      RunOriginals(p, w, Record(v, originals, ops[0], out), ops[1..])
  }

  predicate RunKeepsVersions(p: Primitives, v: Vault, ops: seq<Op>)
    decreases |ops|
  {
    ops == [] || (KeepsUsedVersions(v, ops[0]) && RunKeepsVersions(p, Apply(p, v, ops[0]).0, ops[1..]))
  }

  /** Over any run, as long as versions in use stay configured: at most one active row per type,
      every row decrypts to the key it was created with, and its version column is the envelope's. */
  lemma {:induction false} RunKeepsInv(p: Primitives, v: Vault, originals: map<nat, string>, ops: seq<Op>)
    requires Lawful(p) && Inv(p, v, originals) && RunKeepsVersions(p, v, ops)
    ensures Inv(p, Run(p, v, ops), RunOriginals(p, v, originals, ops))
    decreases |ops|
  {
    hide Inv, Apply;
    if ops != [] {
      var (w, out) := Apply(p, v, ops[0]);
      StepKeepsInv(p, v, originals, ops[0]);
      RunKeepsInv(p, w, Record(v, originals, ops[0], out), ops[1..]);
    }
  }

  /** An original, once recorded, is never replaced. */
  lemma {:induction false} OriginalsAreKept(p: Primitives, v: Vault, originals: map<nat, string>, ops: seq<Op>, id: nat)
    requires id in originals && id < v.nextId
    ensures id in RunOriginals(p, v, originals, ops) && RunOriginals(p, v, originals, ops)[id] == originals[id]
    decreases |ops|
  {
    hide MasterEncrypt, RewrapAll;
    if ops != [] {
      var (w, out) := Apply(p, v, ops[0]);
      OriginalsAreKept(p, w, Record(v, originals, ops[0], out), ops[1..], id);
    }
  }

  /** A row present at the start of a run and still present at its end reads as the same key. */
  lemma PlaintextSurvivesTheRun(p: Primitives, v: Vault, originals: map<nat, string>, ops: seq<Op>, i: nat, j: nat)
    requires Lawful(p) && Inv(p, v, originals) && RunKeepsVersions(p, v, ops)
    requires i < |v.rows| && j < |Run(p, v, ops).rows| && Run(p, v, ops).rows[j].id == v.rows[i].id
    ensures MasterDecrypt(p, Run(p, v, ops).secrets, Run(p, v, ops).rows[j].keyCiphertext)
              == MasterDecrypt(p, v.secrets, v.rows[i].keyCiphertext)
    ensures MasterDecrypt(p, v.secrets, v.rows[i].keyCiphertext).Some?
  {
    hide Apply, Run, RunOriginals, RunKeepsVersions, MasterDecrypt, Parse, OneActivePerType;
    RunKeepsInv(p, v, originals, ops);
    assert Readable(p, v.secrets, v.rows[i], originals);
    assert Readable(p, Run(p, v, ops).secrets, Run(p, v, ops).rows[j], RunOriginals(p, v, originals, ops));
    OriginalsAreKept(p, v, originals, ops, v.rows[i].id);
  }

  // ---- Activation, revocation, and what is served -----------------------------------------------

  /** The active row of a type, if any. */
  function ActiveOf(rows: seq<KeyRow>, t: nat): (i: nat)
    ensures i <= |rows| && (i < |rows| ==> rows[i].assistantType == t && rows[i].isActive)
    ensures forall j :: 0 <= j < i ==> !(rows[j].assistantType == t && rows[j].isActive)
  {
    if rows == [] then 0 else if rows[0].assistantType == t && rows[0].isActive then 0 else 1 + ActiveOf(rows[1..], t)
  }

  function ActiveId(rows: seq<KeyRow>, t: nat): Option<nat> {
    var i := ActiveOf(rows, t);
    if i < |rows| then Some(rows[i].id) else None
  }

  lemma ActiveIdIs(p: Primitives, v: Vault, originals: map<nat, string>, i: nat)
    requires Inv(p, v, originals) && i < |v.rows| && v.rows[i].isActive
    ensures ActiveId(v.rows, v.rows[i].assistantType) == Some(v.rows[i].id)
  {
    hide Readable;
    assert ActiveOf(v.rows, v.rows[i].assistantType) == i;
  }

  /** Which key serves a type changes only as asked: creating or activating makes that row the
      active one of its type, revoking the active row leaves the type with none, and no other
      type is ever affected. */
  lemma WhoIsActive(p: Primitives, v: Vault, originals: map<nat, string>, op: Op, t: nat)
    requires Lawful(p) && Inv(p, v, originals) && KeepsUsedVersions(v, op)
    ensures var (w, out) := Apply(p, v, op);
            ActiveId(w.rows, t) ==
              if op.Create? && out.Done? && op.assistantType == t then Some(v.nextId)
              else if op.Activate? && out.Done? && v.rows[Find(v.rows, op.id)].assistantType == t then Some(op.id)
              else if op.Revoke? && out.Done? && ActiveId(v.rows, t) == Some(op.id) then None
              else ActiveId(v.rows, t)
  {
    hide Readable, MasterEncrypt, MasterDecrypt, Rewrap, Stale, CanEncrypt, RewrapAll, HasInactive, ActiveId, OneActivePerType;
    var (w, out) := Apply(p, v, op);
    match op
    case Create(_, _, _, _) => if out.Done? { CreatedActive(v.rows, w.rows, v.nextId, op.assistantType, t); }
    case Activate(id) => if out.Done? { ActivatedActive(v.rows, w.rows, Find(v.rows, id), v.nextId, t); }
    case Revoke(id) => if out.Done? { RevokedActive(v.rows, w.rows, Find(v.rows, id), v.nextId, t); }
    case ReEncryptAll =>
      RewrapAllKeeps(p, v.secrets, v.rows, v.draws, originals);
      if out.Done? {
        assert forall i :: 0 <= i < |v.rows| ==> SameFace(v.rows[i], w.rows[i]);
        SameActive(v.rows, w.rows, t);
      }
    case _ => SameActive(v.rows, w.rows, t);
  }

  lemma SameActive(rows: seq<KeyRow>, after: seq<KeyRow>, t: nat)
    requires |after| == |rows| && forall i :: 0 <= i < |rows| ==> SameFace(rows[i], after[i])
    ensures ActiveId(after, t) == ActiveId(rows, t)
  {
    var i, j := ActiveOf(rows, t), ActiveOf(after, t);
    assert i < |rows| ==> SameFace(rows[i], after[i]);
    assert j < |rows| ==> SameFace(rows[j], after[j]);
  }

  lemma CreatedActive(rows: seq<KeyRow>, after: seq<KeyRow>, id: nat, made: nat, t: nat)
    requires |after| == |rows| + 1 && after[..|rows|] == Deactivated(rows, made)
    requires after[|rows|].id == id && after[|rows|].assistantType == made && after[|rows|].isActive
    ensures ActiveId(after, t) == if t == made then Some(id) else ActiveId(rows, t)
  {
    assert forall i :: 0 <= i < |rows| ==> after[i] == Deactivated(rows, made)[i];
    var i, j := ActiveOf(rows, t), ActiveOf(after, t);
    if t != made {
      if i < |rows| {
        assert after[i] == rows[i];
      }
      if j < |rows| {
        assert after[j] == rows[j];
      }
    }
  }

  lemma ActivatedActive(rows: seq<KeyRow>, after: seq<KeyRow>, at: nat, nextId: nat, t: nat)
    requires DistinctIds(rows, nextId) && at < |rows|
    requires after == Deactivated(rows, rows[at].assistantType)[at := rows[at].(isActive := true)]
    ensures ActiveId(after, t) == if t == rows[at].assistantType then Some(rows[at].id) else ActiveId(rows, t)
  {
    var i, j := ActiveOf(rows, t), ActiveOf(after, t);
    assert after[at] == rows[at].(isActive := true);
    if t != rows[at].assistantType {
      if i < |rows| {
        assert after[i] == rows[i];
      }
      if j < |rows| {
        assert after[j] == rows[j];
      }
    }
  }

  lemma RevokedActive(rows: seq<KeyRow>, after: seq<KeyRow>, at: nat, nextId: nat, t: nat)
    requires DistinctIds(rows, nextId) && OneActivePerType(rows) && at < |rows| && after == rows[..at] + rows[at + 1..]
    ensures ActiveId(after, t) == if ActiveId(rows, t) == Some(rows[at].id) then None else ActiveId(rows, t)
  {
    var i, j := ActiveOf(rows, t), ActiveOf(after, t);
    assert forall k :: 0 <= k < at ==> after[k] == rows[k];
    assert forall k :: at <= k < |after| ==> after[k] == rows[k + 1];
    if i < |rows| && i != at {
      assert after[if i < at then i else i - 1] == rows[i];
    }
  }

  /** An inactive key of the type that could take over. */
  ghost predicate Spare(rows: seq<KeyRow>, t: nat) {
    exists i :: 0 <= i < |rows| && rows[i].assistantType == t && !rows[i].isActive
  }

  lemma SpareIsInactive(rows: seq<KeyRow>, t: nat)
    ensures Spare(rows, t) <==> HasInactive(rows, t)
  {
  }

  /** A revocation is refused exactly for the active row of a type with no inactive one. When it
      is allowed for an active row, the type is left with keys but none of them active. */
  lemma RevokeExactly(p: Primitives, v: Vault, originals: map<nat, string>, id: nat)
    requires Lawful(p) && Inv(p, v, originals) && Find(v.rows, id) < |v.rows|
    ensures var t := v.rows[Find(v.rows, id)].assistantType;
            var (w, out) := Apply(p, v, Revoke(id));
            && (out == RequiresReplacement <==> ActiveId(v.rows, t) == Some(id) && !Spare(v.rows, t))
            && (out == RequiresReplacement ==> w == v)
            && (out == Done(1) <==> out != RequiresReplacement)
            && (out == Done(1) && ActiveId(v.rows, t) == Some(id) ==> ActiveId(w.rows, t) == None && Spare(w.rows, t))
            && (out == Done(1) ==>
                  && (forall i :: 0 <= i < |w.rows| ==> w.rows[i].id != id)
                  && exists i :: 0 <= i < |v.rows| && v.rows[i].id == id && w == v.(rows := v.rows[..i] + v.rows[i + 1..]))
  {
    hide Readable, RewrapAll, MasterEncrypt, Last4, HasInactive, Spare, DistinctIds, OneActivePerType, ActiveId;
    var at := Find(v.rows, id);
    var t := v.rows[at].assistantType;
    var (w, out) := Apply(p, v, Revoke(id));
    SpareIsInactive(v.rows, t);
    SpareIsInactive(w.rows, t);
    if v.rows[at].isActive {
      ActiveIdIs(p, v, originals, at);
    }
    ActiveRowIs(v.rows, v.nextId, at);
    if out.Done? {
      RevokedActive(v.rows, w.rows, at, v.nextId, t);
      RevokedIsGone(v.rows, w.rows, at, v.nextId);
      if v.rows[at].isActive {
        InactiveStays(v.rows, w.rows, at, t);
      }
    }
  }

  lemma ActiveRowIs(rows: seq<KeyRow>, nextId: nat, at: nat)
    requires DistinctIds(rows, nextId) && at < |rows|
    ensures ActiveId(rows, rows[at].assistantType) == Some(rows[at].id) ==> rows[at].isActive
  {
  }

  lemma RevokedIsGone(rows: seq<KeyRow>, after: seq<KeyRow>, at: nat, nextId: nat)
    requires DistinctIds(rows, nextId) && at < |rows| && after == rows[..at] + rows[at + 1..]
    ensures Find(after, rows[at].id) == |after|
  {
    assert forall k :: 0 <= k < |after| ==> after[k] == rows[if k < at then k else k + 1];
  }

  lemma InactiveStays(rows: seq<KeyRow>, after: seq<KeyRow>, at: nat, t: nat)
    requires at < |rows| && after == rows[..at] + rows[at + 1..] && rows[at].isActive && HasInactive(rows, t)
    ensures HasInactive(after, t)
  {
    var i :| 0 <= i < |rows| && rows[i].assistantType == t && !rows[i].isActive;
    assert after[if i < at then i else i - 1] == rows[i];
  }

  datatype Served = Served(envelope: Envelope, last4: string, model: nat) | NotConfigured | Failed

  /** `getActiveKeyEnvelope`: the active key, unwrapped and wrapped again for the front end. */
  function ServeActive(p: Primitives, v: Vault, bff: Secrets, t: nat, draw: nat): Served {
    var i := ActiveOf(v.rows, t);
    if i == |v.rows| then NotConfigured
    else
      var text := MasterDecrypt(p, v.secrets, v.rows[i].keyCiphertext);
      if text.None? then Failed
      else
        var e := GcmEncrypt(p, bff, text.value, draw);
        if e.None? then Failed else Served(e.value, v.rows[i].keyLast4, v.rows[i].model)
  }

  /** The front end receives, under its own key, exactly the plaintext the active row was created
      with; the only failure left is an unusable front-end key. */
  lemma ServedIsTheOriginal(p: Primitives, v: Vault, originals: map<nat, string>, bff: Secrets, t: nat, draw: nat)
    requires Lawful(p) && Inv(p, v, originals)
    ensures var served, id := ServeActive(p, v, bff, t, draw), ActiveId(v.rows, t);
            && (served == NotConfigured <==> id == None)
            && (served == Failed <==> id != None && !CanEncrypt(p, bff))
            && (served.Served? ==>
                  && id.value in originals
                  && GcmDecrypt(p, bff, served.envelope) == Some(originals[id.value])
                  && served.last4 == Last4(originals[id.value])
                  && exists i :: 0 <= i < |v.rows| && v.rows[i].id == id.value && served.model == v.rows[i].model)
  {
    hide MasterDecrypt, Parse, Last4, IsKeyText;
    var i := ActiveOf(v.rows, t);
    if i < |v.rows| {
      assert Readable(p, v.secrets, v.rows[i], originals);
      if CanEncrypt(p, bff) {
        GcmRoundTrip(p, bff, bff, originals[v.rows[i].id], draw);
      }
    }
  }

  // ---- One call, column by column --------------------------------------------------------------

  /** What is shown of a key: its last four characters, stars standing in front of a shorter one. */
  lemma Last4Exactly(key: string)
    ensures |key| >= 4 ==> Last4(key) == key[|key| - 4..]
    ensures |key| < 4 ==> Last4(key) == "****"[|key|..] + key
  {
  }

  /** A new key becomes the one active row of its type, under the columns given and a fresh id, wrapped
      under the current version; it fails, changing nothing, exactly when the master key is unusable. */
  lemma CreateExactly(p: Primitives, v: Vault, t: nat, model: nat, lbl: nat, key: string)
    requires Lawful(p)
    ensures var (w, out) := Apply(p, v, Create(t, model, lbl, key));
            && out == (if CanEncrypt(p, v.secrets) then Done(1) else CipherFailed)
            && (out == CipherFailed ==> w == v)
            && (out == Done(1) ==>
                  && w.secrets == v.secrets && w.nextId == v.nextId + 1 && w.draws == v.draws + 1
                  && |w.rows| == |v.rows| + 1
                  && (forall i :: 0 <= i < |v.rows| ==>
                        w.rows[i] == v.rows[i].(isActive := v.rows[i].isActive && v.rows[i].assistantType != t))
                  && var row := w.rows[|v.rows|];
                     && row.id == v.nextId && row.assistantType == t && row.model == model && row.lbl == lbl && row.isActive
                     && row.masterKeyVersion == v.secrets.currentVersion && row.keyLast4 == Last4(key)
                     && MasterDecrypt(p, v.secrets, row.keyCiphertext) == Some(key))
  {
    hide MasterEncrypt, MasterDecrypt, CanEncrypt, Last4, Parse, Lawful;
    MasterRoundTrip(p, v.secrets, v.secrets, key, v.draws);
  }

  /** An update writes the label and the model it is given to the one row, and nothing else; it fails
      exactly for an unknown id. */
  lemma UpdateExactly(p: Primitives, v: Vault, id: nat, model: Option<nat>, lbl: Option<nat>)
    requires DistinctIds(v.rows, v.nextId)
    ensures var (w, out) := Apply(p, v, Update(id, model, lbl));
            && (out == NotFound <==> forall i :: 0 <= i < |v.rows| ==> v.rows[i].id != id)
            && (out == NotFound || out == Done(1)) && (out == NotFound ==> w == v)
            && w == v.(rows := w.rows) && |w.rows| == |v.rows|
            && forall i :: 0 <= i < |v.rows| ==>
                 w.rows[i] == if v.rows[i].id != id then v.rows[i]
                              else v.rows[i].(model := if model.Some? then model.value else v.rows[i].model,
                                              lbl := if lbl.Some? then lbl.value else v.rows[i].lbl)
  {
  }

  /** Activation makes the row the one active row of its type and touches no other type; it fails
      exactly for an unknown id. */
  lemma ActivateExactly(p: Primitives, v: Vault, id: nat)
    requires DistinctIds(v.rows, v.nextId)
    ensures var (w, out) := Apply(p, v, Activate(id));
            && (out == NotFound <==> forall i :: 0 <= i < |v.rows| ==> v.rows[i].id != id)
            && (out == NotFound || out == Done(1)) && (out == NotFound ==> w == v)
            && w == v.(rows := w.rows) && |w.rows| == |v.rows|
            && forall i, at :: 0 <= i < |v.rows| && 0 <= at < |v.rows| && v.rows[at].id == id ==>
                 w.rows[i] == v.rows[i].(isActive := i == at || (v.rows[i].isActive && v.rows[i].assistantType != v.rows[at].assistantType))
  {
    var at := Find(v.rows, id);
    if at < |v.rows| {
      assert forall i :: 0 <= i < |v.rows| && v.rows[i].id == id ==> i == at;
    }
  }

  // ---- Nonces ------------------------------------------------------------------------------------

  /** The random source never gives the same nonce twice. */
  ghost predicate Unrepeated(p: Primitives) {
    forall m, n :: m != n ==> p.random(m) != p.random(n)
  }

  /** The row's ciphertext was sealed with the n-th nonce. */
  ghost predicate DrawnAt(p: Primitives, row: KeyRow, n: nat) {
    Parse(row.keyCiphertext).Some? && Parse(row.keyCiphertext).value.iv == p.toText(p.random(n))
  }

  ghost predicate DrawnWithin(p: Primitives, row: KeyRow, from: nat, until: nat) {
    exists n: nat :: from <= n < until && DrawnAt(p, row, n)
  }

  ghost predicate SameNonce(a: KeyRow, b: KeyRow) {
    && Parse(a.keyCiphertext).Some? && Parse(b.keyCiphertext).Some?
    && Parse(a.keyCiphertext).value.iv == Parse(b.keyCiphertext).value.iv
  }

  /** Every row was sealed with a nonce drawn so far, no two with the same one. */
  ghost predicate FreshNonces(p: Primitives, rows: seq<KeyRow>, draws: nat) {
    && (forall i :: 0 <= i < |rows| ==> DrawnWithin(p, rows[i], 0, draws))
    && (forall i, j :: 0 <= i < j < |rows| ==> !SameNonce(rows[i], rows[j]))
  }

  lemma SealedWith(p: Primitives, secrets: Secrets, text: string, draw: nat, row: KeyRow)
    requires Lawful(p) && MasterEncrypt(p, secrets, text, draw).Some?
    requires row.keyCiphertext == MasterEncrypt(p, secrets, text, draw).value.text
    ensures DrawnAt(p, row, draw)
  {
    hide Parse, Serialise;
    SealsExactly(p, secrets, text, draw);
    ParseOfSerialise(GcmEncrypt(p, secrets, text, draw).value);
  }

  lemma OtherNonce(p: Primitives, a: KeyRow, b: KeyRow, m: nat, n: nat)
    requires Lawful(p) && Unrepeated(p) && DrawnAt(p, a, m) && DrawnAt(p, b, n) && m != n
    ensures !SameNonce(a, b)
  {
    hide Parse;
    assert p.random(m) != p.random(n);
    assert p.fromText(p.toText(p.random(m))) == p.random(m) && p.fromText(p.toText(p.random(n))) == p.random(n);
  }

  lemma NewestIsFresh(p: Primitives, rows: seq<KeyRow>, draws: nat, row: KeyRow)
    requires Lawful(p) && Unrepeated(p) && FreshNonces(p, rows, draws) && DrawnAt(p, row, draws)
    ensures FreshNonces(p, rows + [row], draws + 1)
  {
    hide DrawnAt, SameNonce, Lawful, Unrepeated;
    var all := rows + [row];
    forall i | 0 <= i < |rows| ensures !SameNonce(rows[i], row) && DrawnWithin(p, rows[i], 0, draws + 1) {
      var n: nat :| 0 <= n < draws && DrawnAt(p, rows[i], n);
      OtherNonce(p, rows[i], row, n, draws);
    }
    assert DrawnWithin(p, row, 0, draws + 1);
    assert forall i :: 0 <= i < |rows| ==> all[i] == rows[i];
  }

  /** Rows with the ciphertexts of some of these, each taken once. */
  lemma SameTexts(p: Primitives, rows: seq<KeyRow>, after: seq<KeyRow>, draws: nat, from: seq<nat>)
    requires FreshNonces(p, rows, draws) && |from| == |after|
    requires forall i :: 0 <= i < |after| ==> from[i] < |rows| && after[i].keyCiphertext == rows[from[i]].keyCiphertext
    requires forall i, j :: 0 <= i < j < |after| ==> from[i] < from[j]
    ensures FreshNonces(p, after, draws)
  {
    hide Parse;
    forall i | 0 <= i < |after| ensures DrawnWithin(p, after[i], 0, draws) {
      assert DrawnWithin(p, rows[from[i]], 0, draws);
      var n: nat :| 0 <= n < draws && DrawnAt(p, rows[from[i]], n);
      assert DrawnAt(p, after[i], n);
    }
    forall i, j | 0 <= i < j < |after| ensures !SameNonce(after[i], after[j]) {
      assert !SameNonce(rows[from[i]], rows[from[j]]);
    }
  }

  /** The pass rewraps with new nonces, and leaves the other ciphertexts alone. */
  ghost predicate PassNonces(p: Primitives, rows: seq<KeyRow>, draws: nat, pass: Pass)
    requires pass.Pass?
  {
    && |pass.rows| == |rows| && draws <= pass.draws
    && (forall i :: 0 <= i < |rows| ==> pass.rows[i] == rows[i] || DrawnWithin(p, pass.rows[i], draws, pass.draws))
    && (forall i, j :: 0 <= i < j < |rows| ==> !SameNonce(pass.rows[i], pass.rows[j]))
  }

  lemma {:induction false} PassIsFresh(p: Primitives, secrets: Secrets, rows: seq<KeyRow>, draws: nat)
    requires Lawful(p) && Unrepeated(p) && FreshNonces(p, rows, draws) && RewrapAll(p, secrets, rows, draws).Pass?
    ensures PassNonces(p, rows, draws, RewrapAll(p, secrets, rows, draws))
  {
    hide Rewrap, DrawnAt, SameNonce, DrawnWithin, Lawful, Unrepeated;
    if rows != [] {
      var front, last := rows[..|rows| - 1], rows[|rows| - 1];
      PassIsFresh(p, secrets, front, draws);
      var done := RewrapAll(p, secrets, front, draws);
      if last.masterKeyVersion == secrets.currentVersion {
        forall i | 0 <= i < |front| ensures !SameNonce(done.rows[i], last) {
          UntouchedDiffers(p, rows, draws, done, i);
        }
      } else {
        var row := Rewrap(p, secrets, last, done.draws).value;
        RewrapDraws(p, secrets, last, done.draws);
        forall i | 0 <= i < |front|
          ensures !SameNonce(done.rows[i], row) && (done.rows[i] == rows[i] || DrawnWithin(p, done.rows[i], draws, done.draws + 1))
        {
          RewrappedDiffers(p, rows, draws, done, i, row);
        }
        DrawnNow(p, row, draws, done.draws);
      }
    }
  }

  lemma DrawnNow(p: Primitives, row: KeyRow, draws: nat, n: nat)
    requires draws <= n && DrawnAt(p, row, n)
    ensures DrawnWithin(p, row, draws, n + 1)
  {
    hide DrawnAt;
  }

  lemma RewrapDraws(p: Primitives, secrets: Secrets, row: KeyRow, draw: nat)
    requires Lawful(p) && Rewrap(p, secrets, row, draw).Some?
    ensures DrawnAt(p, Rewrap(p, secrets, row, draw).value, draw)
  {
    hide MasterEncrypt, MasterDecrypt, DrawnAt, Lawful;
    SealedWith(p, secrets, MasterDecrypt(p, secrets, row.keyCiphertext).value, draw, Rewrap(p, secrets, row, draw).value);
  }

  lemma UntouchedDiffers(p: Primitives, rows: seq<KeyRow>, draws: nat, done: Pass, i: nat)
    requires Lawful(p) && Unrepeated(p) && FreshNonces(p, rows, draws) && i < |rows| - 1
    requires done.Pass? && PassNonces(p, rows[..|rows| - 1], draws, done)
    ensures !SameNonce(done.rows[i], rows[|rows| - 1])
  {
    hide DrawnAt, SameNonce, Lawful, Unrepeated;
    var last := rows[|rows| - 1];
    if done.rows[i] != rows[i] {
      var n: nat :| draws <= n < done.draws && DrawnAt(p, done.rows[i], n);
      assert DrawnWithin(p, last, 0, draws);
      var m: nat :| 0 <= m < draws && DrawnAt(p, last, m);
      OtherNonce(p, done.rows[i], last, n, m);
    }
  }

  lemma RewrappedDiffers(p: Primitives, rows: seq<KeyRow>, draws: nat, done: Pass, i: nat, row: KeyRow)
    requires Lawful(p) && Unrepeated(p) && FreshNonces(p, rows, draws) && i < |rows| - 1
    requires done.Pass? && PassNonces(p, rows[..|rows| - 1], draws, done) && DrawnAt(p, row, done.draws)
    ensures !SameNonce(done.rows[i], row)
    ensures done.rows[i] == rows[i] || DrawnWithin(p, done.rows[i], draws, done.draws + 1)
  {
    hide DrawnAt, SameNonce, Lawful, Unrepeated;
    if done.rows[i] != rows[i] {
      var n: nat :| draws <= n < done.draws && DrawnAt(p, done.rows[i], n);
      OtherNonce(p, done.rows[i], row, n, done.draws);
    } else {
      assert DrawnWithin(p, rows[i], 0, draws);
      var m: nat :| 0 <= m < draws && DrawnAt(p, rows[i], m);
      OtherNonce(p, done.rows[i], row, m, done.draws);
    }
  }

  lemma CreationNonces(p: Primitives, v: Vault, op: Op)
    requires Lawful(p) && Unrepeated(p) && FreshNonces(p, v.rows, v.draws) && op.Create?
    ensures FreshNonces(p, Apply(p, v, op).0.rows, Apply(p, v, op).0.draws)
  {
    hide FreshNonces, Lawful, Unrepeated, MasterEncrypt, Last4, DrawnAt;
    var w, n := Apply(p, v, op).0, |v.rows|;
    if MasterEncrypt(p, v.secrets, op.key, v.draws).Some? {
      SameTexts(p, v.rows, w.rows[..n], v.draws, seq(n, i => i));
      SealedWith(p, v.secrets, op.key, v.draws, w.rows[n]);
      NewestIsFresh(p, w.rows[..n], v.draws, w.rows[n]);
      assert w.rows[..n] + [w.rows[n]] == w.rows;
    }
  }

  lemma RevocationNonces(p: Primitives, v: Vault, op: Op)
    requires FreshNonces(p, v.rows, v.draws) && op.Revoke?
    ensures FreshNonces(p, Apply(p, v, op).0.rows, Apply(p, v, op).0.draws)
  {
    hide FreshNonces, HasInactive;
    var at, n := Find(v.rows, op.id), |v.rows|;
    if at < n {
      SameTexts(p, v.rows, v.rows[..at] + v.rows[at + 1..], v.draws, seq(n - 1, i => if i < at then i else i + 1));
    }
  }

  lemma RelabellingNonces(p: Primitives, v: Vault, op: Op)
    requires FreshNonces(p, v.rows, v.draws) && (op.Update? || op.Activate? || op.Reconfigure?)
    ensures FreshNonces(p, Apply(p, v, op).0.rows, Apply(p, v, op).0.draws)
  {
    hide FreshNonces;
    var w, n := Apply(p, v, op).0, |v.rows|;
    SameTexts(p, v.rows, w.rows, v.draws, seq(n, i => i));
  }

  lemma NoncesStep(p: Primitives, v: Vault, op: Op)
    requires Lawful(p) && Unrepeated(p) && FreshNonces(p, v.rows, v.draws)
    ensures FreshNonces(p, Apply(p, v, op).0.rows, Apply(p, v, op).0.draws)
  {
    hide FreshNonces, Lawful, Unrepeated, RewrapAll, PassNonces;
    match op
    case Create(_, _, _, _) => CreationNonces(p, v, op);
    case Revoke(_) => RevocationNonces(p, v, op);
    case ReEncryptAll =>
      if RewrapAll(p, v.secrets, v.rows, v.draws).Pass? {
        PassIsFresh(p, v.secrets, v.rows, v.draws);
        PassEndsFresh(p, v.rows, v.draws, RewrapAll(p, v.secrets, v.rows, v.draws));
      }
    case _ => RelabellingNonces(p, v, op);
  }

  lemma PassEndsFresh(p: Primitives, rows: seq<KeyRow>, draws: nat, pass: Pass)
    requires FreshNonces(p, rows, draws) && pass.Pass? && PassNonces(p, rows, draws, pass)
    ensures FreshNonces(p, pass.rows, pass.draws)
  {
    hide DrawnAt, SameNonce;
    forall i | 0 <= i < |rows| ensures DrawnWithin(p, pass.rows[i], 0, pass.draws) {
      if pass.rows[i] == rows[i] {
        var n: nat :| 0 <= n < draws && DrawnAt(p, rows[i], n);
      } else {
        var n: nat :| draws <= n < pass.draws && DrawnAt(p, pass.rows[i], n);
      }
    }
  }

  /** Over every run, whatever versions are configured meanwhile and however often keys are wrapped
      again: no two stored ciphertexts carry the same nonce, as long as the random source repeats none. */
  lemma {:induction false} NoncesNeverRepeat(p: Primitives, v: Vault, ops: seq<Op>)
    requires Lawful(p) && Unrepeated(p) && FreshNonces(p, v.rows, v.draws)
    ensures FreshNonces(p, Run(p, v, ops).rows, Run(p, v, ops).draws)
    decreases |ops|
  {
    hide FreshNonces, Apply, Lawful, Unrepeated;
    if ops != [] {
      NoncesStep(p, v, ops[0]);
      NoncesNeverRepeat(p, Apply(p, v, ops[0]).0, ops[1..]);
    }
  }
}
