/** The two storage sweeps: batches over a changing table, whose outcome is one filter of it. */
module FileSweep {
  import opened Text

  datatype FileRow = FileRow(
    purpose: Option<nat>,
    createdAt: int,
    deletedAt: Option<int>,
    provider: nat,
    storageKey: nat
  )

  type Files = map<nat, FileRow>

  /** An attachment row of either kind; a result attachment is always live. */
  datatype Attachment = Attachment(file: Option<nat>, live: bool)

  predicate Attached(attachments: seq<Attachment>, id: nat) {
    exists i :: 0 <= i < |attachments| && attachments[i].file == Some(id) && attachments[i].live
  }

  /** The orphan query's WHERE clause. */
  predicate Orphaned(row: FileRow, attached: bool, cutoff: int) {
    row.purpose.None? && row.deletedAt.None? && row.createdAt < cutoff && !attached
  }

  function Orphans(files: Files, attachments: seq<Attachment>, cutoff: int): set<nat> {
    set id | id in files && Orphaned(files[id], Attached(attachments, id), cutoff)
  }

  predicate Expired(row: FileRow, cutoff: int) {
    row.deletedAt.Some? && row.deletedAt.value < cutoff
  }

  function ExpiredFiles(files: Files, cutoff: int): set<nat> {
    set id | id in files && Expired(files[id], cutoff)
  }

  /** ON DELETE SET NULL. */
  function Detached(attachments: seq<Attachment>, gone: set<nat>): (r: seq<Attachment>)
    ensures |r| == |attachments|
    ensures forall i :: 0 <= i < |r| ==>
              r[i] == if attachments[i].file.Some? && attachments[i].file.value in gone then attachments[i].(file := None) else attachments[i]
  {
    seq(|attachments|, i requires 0 <= i < |attachments| =>
      if attachments[i].file.Some? && attachments[i].file.value in gone then attachments[i].(file := None) else attachments[i])
  }

  // ---- The orphan sweep as one filter ---------------------------------------------------

  /** `after` is `before` with exactly the rows of `gone` soft-deleted, at or after `start`. */
  ghost predicate SoftDeleted(before: Files, after: Files, gone: set<nat>, start: int) {
    && after.Keys == before.Keys
    && gone <= before.Keys
    && (forall id :: id in before && id !in gone ==> after[id] == before[id])
    && (forall id :: id in before && id in gone ==>
          && before[id].deletedAt.None? && after[id].deletedAt.Some? && after[id].deletedAt.value >= start
          && after[id].(deletedAt := None) == before[id])
  }

  /** Soft-deleting orphans takes them, and nothing else, out of the query's answer. */
  lemma SweptLeaveTheQuery(before: Files, after: Files, attachments: seq<Attachment>, gone: set<nat>, start: int, cutoff: int)
    requires SoftDeleted(before, after, gone, start)
    ensures Orphans(after, attachments, cutoff) == Orphans(before, attachments, cutoff) - gone
  {
    forall id ensures id in Orphans(after, attachments, cutoff) <==> id in Orphans(before, attachments, cutoff) && id !in gone {
      if id in before && id in gone {
        assert after[id].deletedAt.Some?;
      }
    }
  }

  lemma SoftDeletionsCompose(a: Files, b: Files, c: Files, first: set<nat>, second: set<nat>, start: int, later: int)
    requires SoftDeleted(a, b, first, start) && SoftDeleted(b, c, second, later) && start <= later
    ensures SoftDeleted(a, c, first + second, start)
  {
    forall id | id in a && id in first + second
      ensures a[id].deletedAt.None? && c[id].deletedAt.Some? && c[id].deletedAt.value >= start && c[id].(deletedAt := None) == a[id]
    {
      if id in first {
        assert b[id].deletedAt.Some?;
        assert id !in second;
      }
    }
  }

  /** A sweep cut short by the database, followed by a complete one, ends where a single complete
      sweep with the later cutoff does. */
  lemma InterruptedThenComplete(a: Files, b: Files, c: Files, attachments: seq<Attachment>, partial: set<nat>,
                                cutoff: int, laterCutoff: int, start: int, later: int)
    requires cutoff <= laterCutoff && start <= later
    requires SoftDeleted(a, b, partial, start) && partial <= Orphans(a, attachments, cutoff)
    requires SoftDeleted(b, c, Orphans(b, attachments, laterCutoff), later)
    ensures SoftDeleted(a, c, Orphans(a, attachments, laterCutoff), start)
    ensures Orphans(c, attachments, laterCutoff) == {}
  {
    SweptLeaveTheQuery(a, b, attachments, partial, start, laterCutoff);
    SweptLeaveTheQuery(b, c, attachments, Orphans(b, attachments, laterCutoff), later, laterCutoff);
    SoftDeletionsCompose(a, b, c, partial, Orphans(b, attachments, laterCutoff), start, later);
    assert partial <= Orphans(a, attachments, laterCutoff);
    assert partial + Orphans(b, attachments, laterCutoff) == Orphans(a, attachments, laterCutoff);
  }

  /** The sweep never touches a file with a purpose, a live attachment, or a recent upload. */
  lemma AttachedFilesAreSafe(before: Files, after: Files, attachments: seq<Attachment>, gone: set<nat>, start: int, cutoff: int, id: nat)
    requires SoftDeleted(before, after, gone, start) && gone <= Orphans(before, attachments, cutoff) && id in before
    requires before[id].purpose.Some? || Attached(attachments, id) || before[id].createdAt >= cutoff || before[id].deletedAt.Some?
    ensures after[id] == before[id]
  {
  }

  // ---- Files taken into use while a batch is in hand -------------------------------------

  /** What other requests do to a file between a batch's SELECT and its UPDATE. */
  datatype Use = Attach(id: nat) | Claim(id: nat, purpose: nat)

  predicate InUse(files: Files, attachments: seq<Attachment>, id: nat)
    requires id in files
  {
    files[id].purpose.Some? || Attached(attachments, id)
  }

  function Claimed(files: Files, uses: seq<Use>): Files {
    if uses == [] then files
    else
      var rest, last := Claimed(files, uses[..|uses| - 1]), uses[|uses| - 1];
      if last.Claim? && last.id in rest then rest[last.id := rest[last.id].(purpose := Some(last.purpose))] else rest
  }

  function WithAttachments(attachments: seq<Attachment>, uses: seq<Use>): seq<Attachment> {
    if uses == [] then attachments
    else
      var rest, last := WithAttachments(attachments, uses[..|uses| - 1]), uses[|uses| - 1];
      if last.Attach? then rest + [Attachment(Some(last.id), true)] else rest
  }

  lemma OneMoreAttached(attachments: seq<Attachment>, more: Attachment, id: nat)
    ensures Attached(attachments + [more], id) <==> Attached(attachments, id) || (more.live && more.file == Some(id))
  {
    var all := attachments + [more];
    if Attached(attachments, id) {
      var i :| 0 <= i < |attachments| && attachments[i].file == Some(id) && attachments[i].live;
      assert all[i] == attachments[i];
    }
    assert all[|attachments|] == more;
  }

  lemma {:induction false} UsedExactly(files: Files, attachments: seq<Attachment>, uses: seq<Use>, id: nat)
    requires id in files && !InUse(files, attachments, id)
    ensures Claimed(files, uses).Keys == files.Keys
    ensures InUse(Claimed(files, uses), WithAttachments(attachments, uses), id) <==> exists i :: 0 <= i < |uses| && uses[i].id == id
  {
    hide Attached;
    if uses != [] {
      var front, last := uses[..|uses| - 1], uses[|uses| - 1];
      UsedExactly(files, attachments, front, id);
      OneMoreAttached(WithAttachments(attachments, front), Attachment(Some(last.id), true), id);
      assert forall i :: 0 <= i < |front| ==> front[i] == uses[i];
    }
  }

  /** The UPDATE tests nothing again: of the batch it soft-deletes, the files in use are exactly those
      that were attached or given a purpose since the batch's SELECT. */
  lemma LateUsesAreLost(files: Files, attachments: seq<Attachment>, uses: seq<Use>, batch: set<nat>, after: Files,
                        now: int, cutoff: int)
    requires batch <= Orphans(files, attachments, cutoff) && SoftDeleted(Claimed(files, uses), after, batch, now)
    ensures forall id :: id in batch ==>
              && id in after && after[id].deletedAt.Some?
              && (InUse(after, WithAttachments(attachments, uses), id) <==> exists i :: 0 <= i < |uses| && uses[i].id == id)
  {
    forall id | id in batch
      ensures id in after && after[id].deletedAt.Some?
      ensures InUse(after, WithAttachments(attachments, uses), id) <==> exists i :: 0 <= i < |uses| && uses[i].id == id
    {
      UsedExactly(files, attachments, uses, id);
    }
  }

  // ---- The byte-reclaiming sweep as one filter ------------------------------------------------

  /** An object in a storage backend. */
  datatype StoredObject = StoredObject(provider: nat, key: nat)

  /** The objects a purge of `gone` removes: those of the active provider whose removal works. */
  function Reclaimed(files: Files, gone: set<nat>, active: nat, broken: set<nat>): set<StoredObject> {
    set id | id in gone && id in files && files[id].provider == active && files[id].storageKey !in broken
           :: StoredObject(active, files[id].storageKey)
  }

  lemma PurgesCompose(files: Files, first: set<nat>, second: set<nat>)
    ensures (files - first) - second == files - (first + second)
  {
  }

  lemma DetachmentsCompose(attachments: seq<Attachment>, first: set<nat>, second: set<nat>)
    ensures Detached(Detached(attachments, first), second) == Detached(attachments, first + second)
  {
  }

  lemma ReclaimedSplits(files: Files, first: set<nat>, second: set<nat>, active: nat, broken: set<nat>)
    requires first !! second
    ensures Reclaimed(files, first + second, active, broken)
              == Reclaimed(files, first, active, broken) + Reclaimed(files - first, second, active, broken)
  {
    forall o
      ensures o in Reclaimed(files, first + second, active, broken)
         <==> o in Reclaimed(files, first, active, broken) || o in Reclaimed(files - first, second, active, broken)
    {
    }
  }

  /** Purging an expired set takes it, and nothing else, out of the query's answer. */
  lemma PurgedLeaveTheQuery(files: Files, gone: set<nat>, cutoff: int)
    ensures ExpiredFiles(files - gone, cutoff) == ExpiredFiles(files, cutoff) - gone
  {
  }

  /** A purge cut short and then completed, even with a later cutoff, leaves the same table and the
      same attachment links as one complete purge; storage failures do not matter to either. */
  lemma InterruptedPurgeThenComplete(files: Files, attachments: seq<Attachment>, partial: set<nat>, cutoff: int, laterCutoff: int)
    requires cutoff <= laterCutoff && partial <= ExpiredFiles(files, cutoff)
    ensures var rest := ExpiredFiles(files - partial, laterCutoff);
            && (files - partial) - rest == files - ExpiredFiles(files, laterCutoff)
            && Detached(Detached(attachments, partial), rest) == Detached(attachments, ExpiredFiles(files, laterCutoff))
            && ExpiredFiles(files - ExpiredFiles(files, laterCutoff), laterCutoff) == {}
  {
    var rest := ExpiredFiles(files - partial, laterCutoff);
    PurgedLeaveTheQuery(files, partial, laterCutoff);
    assert partial <= ExpiredFiles(files, laterCutoff);
    assert partial + rest == ExpiredFiles(files, laterCutoff);
    DetachmentsCompose(attachments, partial, rest);
  }

  // ---- The sweeps in columns -----------------------------------------------------------------

  /** The file has no purpose, is not deleted, was uploaded before the cutoff, and no live attachment
      row names it. */
  ghost predicate Unclaimed(files: Files, attachments: seq<Attachment>, cutoff: int, id: nat) {
    && id in files && files[id].purpose == None && files[id].deletedAt == None && files[id].createdAt < cutoff
    && forall i :: 0 <= i < |attachments| && attachments[i].live ==> attachments[i].file != Some(id)
  }

  /** The file was deleted before the cutoff. */
  predicate Overdue(files: Files, cutoff: int, id: nat) {
    id in files && files[id].deletedAt != None && files[id].deletedAt.value < cutoff
  }

  lemma OrphansInColumns(files: Files, attachments: seq<Attachment>, cutoff: int)
    ensures forall id :: id in Orphans(files, attachments, cutoff) <==> Unclaimed(files, attachments, cutoff, id)
  {
    forall id ensures id in Orphans(files, attachments, cutoff) <==> Unclaimed(files, attachments, cutoff, id) {
      if id in files && files[id].purpose == None && files[id].deletedAt == None && files[id].createdAt < cutoff {
        assert Attached(attachments, id) <==> !Unclaimed(files, attachments, cutoff, id);
      }
    }
  }

  /** Only unclaimed files are stamped, between `start` and `until`, and no other column changes. */
  ghost predicate OnlyUnclaimedStamped(before: Files, after: Files, attachments: seq<Attachment>, cutoff: int, start: int, until: int) {
    && after.Keys == before.Keys
    && forall id :: id in after ==>
         && after[id].(deletedAt := None) == before[id].(deletedAt := None)
         && (after[id] != before[id] ==>
               && Unclaimed(before, attachments, cutoff, id)
               && after[id].deletedAt != None && start <= after[id].deletedAt.value <= until)
  }

  ghost predicate AllUnclaimedStamped(before: Files, after: Files, attachments: seq<Attachment>, cutoff: int) {
    forall id :: Unclaimed(before, attachments, cutoff, id) ==> id in after && after[id].deletedAt != None
  }

  /** No file left unclaimed is older than one that was stamped. */
  ghost predicate OldestStamped(before: Files, after: Files, attachments: seq<Attachment>, cutoff: int) {
    forall a: nat, b: nat :: a in before && a in after && after[a] != before[a] && Unclaimed(after, attachments, cutoff, b) ==>
      before[a].createdAt <= after[b].createdAt
  }

  /** Only files deleted before the cutoff go; the rest stay as they are. */
  ghost predicate OnlyOverdueGone(before: Files, after: Files, cutoff: int) {
    && (forall id :: id in after ==> id in before && after[id] == before[id])
    && (forall id :: id in before && id !in after ==> Overdue(before, cutoff, id))
  }

  ghost predicate AllOverdueGone(before: Files, after: Files, cutoff: int) {
    forall id :: Overdue(before, cutoff, id) ==> id !in after
  }

  /** No file left overdue was deleted before one that went. */
  ghost predicate LongestOverdueGone(before: Files, after: Files, cutoff: int) {
    forall a: nat, b: nat :: Overdue(before, cutoff, a) && a !in after && Overdue(after, cutoff, b) ==>
      before[a].deletedAt.value <= after[b].deletedAt.value
  }

  /** Links to removed files are emptied, all others stay. */
  ghost predicate LinksEmptied(before: Files, after: Files, links: seq<Attachment>, links': seq<Attachment>) {
    && |links'| == |links|
    && forall i :: 0 <= i < |links| ==>
         var gone := links[i].file != None && links[i].file.value in before && links[i].file.value !in after;
         links'[i] == if gone then Attachment(None, links[i].live) else links[i]
  }

  /** Some removed file of the active provider kept its bytes under this key. */
  ghost predicate HeldBytes(before: Files, after: Files, active: nat, key: nat) {
    exists id :: id in before && id !in after && before[id].provider == active && before[id].storageKey == key
  }

  /** Of the stored objects exactly those of removed files go, where the backend lets them. */
  ghost predicate BytesReclaimed(before: Files, after: Files, objects: set<StoredObject>, objects': set<StoredObject>,
                                 active: nat, broken: set<nat>) {
    forall o :: o in objects' <==>
      o in objects && !(o.provider == active && o.key !in broken && HeldBytes(before, after, active, o.key))
  }

  /** Whatever set of orphans a sweep gets to delete, it is one of unclaimed files; all of them means
      all unclaimed files. */
  lemma OrphanSweepExactly(before: Files, after: Files, attachments: seq<Attachment>, gone: set<nat>, start: int, until: int, cutoff: int)
    requires SoftDeleted(before, after, gone, start) && gone <= Orphans(before, attachments, cutoff)
    requires forall id :: id in gone ==> id in after && after[id].deletedAt.Some? && after[id].deletedAt.value <= until
    ensures OnlyUnclaimedStamped(before, after, attachments, cutoff, start, until)
    ensures gone == Orphans(before, attachments, cutoff) <==> AllUnclaimedStamped(before, after, attachments, cutoff)
  {
    hide Orphans, Unclaimed;
    OrphansInColumns(before, attachments, cutoff);
    OrphansWereThere(before, attachments, cutoff);
  }

  lemma OrphansWereThere(files: Files, attachments: seq<Attachment>, cutoff: int)
    ensures forall id :: id in Orphans(files, attachments, cutoff) ==> id in files && files[id].deletedAt.None?
  {
  }

  /** Whatever set of expired rows a purge gets to remove, it is one of overdue files, with their links
      and their bytes; all of them means all overdue files. */
  lemma PurgeExactly(files: Files, attachments: seq<Attachment>, objects: set<StoredObject>, gone: set<nat>,
                     active: nat, broken: set<nat>, cutoff: int)
    requires gone <= ExpiredFiles(files, cutoff)
    ensures OnlyOverdueGone(files, files - gone, cutoff)
    ensures gone == ExpiredFiles(files, cutoff) <==> AllOverdueGone(files, files - gone, cutoff)
    ensures LinksEmptied(files, files - gone, attachments, Detached(attachments, gone))
    ensures BytesReclaimed(files, files - gone, objects, objects - Reclaimed(files, gone, active, broken), active, broken)
  {
    forall id ensures id in ExpiredFiles(files, cutoff) <==> Overdue(files, cutoff, id) {
    }
    BytesOf(files, gone, active, broken);
  }

  lemma BytesOf(files: Files, gone: set<nat>, active: nat, broken: set<nat>)
    requires gone <= files.Keys
    ensures forall o :: o in Reclaimed(files, gone, active, broken) <==>
              o.provider == active && o.key !in broken && HeldBytes(files, files - gone, active, o.key)
  {
    forall o ensures o in Reclaimed(files, gone, active, broken) <==>
               o.provider == active && o.key !in broken && HeldBytes(files, files - gone, active, o.key)
    {
      if o.provider == active && o.key !in broken && HeldBytes(files, files - gone, active, o.key) {
        var id :| id in files && id !in files - gone && files[id].provider == active && files[id].storageKey == o.key;
        assert id in gone && o == StoredObject(active, files[id].storageKey);
      }
    }
  }
}
