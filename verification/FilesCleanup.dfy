/** The sweeps' batch loops over the table, with a database that may fail between statements and
    a storage backend that may refuse any removal. */
module FilesCleanup {
  import opened FileSweep
  import opened Sequences
  import opened Text

  class FilesCleanupService {
    const batchSize: nat
    const activeProvider: nat
    var files: Files
    var attachments: seq<Attachment>
    var objects: set<StoredObject>
    var clock: int

    constructor (size: nat, provider: nat, rows: Files, links: seq<Attachment>, stored: set<StoredObject>, now: int)
      requires size >= 1
      ensures batchSize == size && activeProvider == provider && files == rows && attachments == links
      ensures objects == stored && clock == now
    {
      batchSize, activeProvider, files, attachments, objects, clock := size, provider, rows, links, stored, now;
    }

    /** ORDER BY `age` ASC LIMIT `limit` over the candidate rows. */
    static method Oldest(candidates: set<nat>, age: map<nat, int>, limit: nat) returns (batch: seq<nat>)
      requires candidates <= age.Keys
      ensures |batch| == if |candidates| < limit then |candidates| else limit
      ensures forall i :: 0 <= i < |batch| ==> batch[i] in candidates
      ensures forall i, j :: 0 <= i < j < |batch| ==> batch[i] != batch[j] && age[batch[i]] <= age[batch[j]]
      ensures forall i, x :: 0 <= i < |batch| && x in candidates && x !in batch ==> age[batch[i]] <= age[x]
    {
      batch := [];
      var left := candidates;
      while left != {} && |batch| < limit
        invariant left <= candidates && |batch| + |left| == |candidates| && |batch| <= limit
        invariant forall x :: x in candidates <==> x in left || x in batch
        invariant forall i :: 0 <= i < |batch| ==> batch[i] in candidates && batch[i] !in left
        invariant forall i, j :: 0 <= i < j < |batch| ==> batch[i] != batch[j] && age[batch[i]] <= age[batch[j]]
        invariant forall i, x :: 0 <= i < |batch| && x in left ==> age[batch[i]] <= age[x]
        decreases |left|
      {
        var least := MinAge(left, age);
        batch := batch + [least];
        left := left - {least};
      }
    }

    static method MinAge(left: set<nat>, age: map<nat, int>) returns (least: nat)
      requires left != {} && left <= age.Keys
      ensures least in left && forall x :: x in left ==> age[least] <= age[x]
    {
      least :| least in left;
      var todo := left - {least};
      while todo != {}
        invariant todo <= left && least in left
        invariant forall x :: x in left && x !in todo ==> age[least] <= age[x]
        decreases |todo|
      {
        var x :| x in todo;
        todo := todo - {x};
        if age[x] < age[least] {
          least := x;
        }
      }
    }

    /** UPDATE … SET deleted_at = now WHERE id IN (…) */
    method SoftDelete(ids: seq<nat>)
      requires forall i :: 0 <= i < |ids| ==> ids[i] in files && files[ids[i]].deletedAt.None?
      modifies this`files
      ensures SoftDeleted(old(files), files, ToSet(ids), clock)
      ensures forall i :: 0 <= i < |ids| ==> files[ids[i]] == old(files)[ids[i]].(deletedAt := Some(clock))
    {
      files := map id | id in files :: if id in ids then files[id].(deletedAt := Some(clock)) else files[id];
    }

    /** `lives` is how many batches the database survives; None is a sweep that is not interrupted.
        Whatever the batch size, a sweep that completes has soft-deleted exactly the orphans. */
    method PurgeOrphanedUploads(cutoff: int, lives: Option<nat>, pause: nat) returns (total: nat, complete: bool, ghost gone: set<nat>)
      requires batchSize >= 1
      modifies this`files, this`clock
      ensures SoftDeleted(old(files), files, gone, old(clock)) && total == |gone|
      ensures gone <= Orphans(old(files), attachments, cutoff)
      ensures complete ==> gone == Orphans(old(files), attachments, cutoff)
      ensures lives.None? ==> complete
      ensures clock >= old(clock)
      // The same in columns.
      ensures OnlyUnclaimedStamped(old(files), files, attachments, cutoff, old(clock), clock)
      ensures complete ==> AllUnclaimedStamped(old(files), files, attachments, cutoff)
      ensures OldestStamped(old(files), files, attachments, cutoff)
    {
      hide SoftDeleted, Orphans, UploadTimes, OldestFirst, StampedBy, OnlyUnclaimedStamped, AllUnclaimedStamped, OldestStamped;
      total, complete, gone := 0, false, {};
      ghost var start := clock;
      ghost var all, ages := Orphans(files, attachments, cutoff), UploadTimes(files);
      var survived := 0;
      NothingSwept(files, attachments, start, cutoff, clock);
      NothingTaken(ages, all);
      while true
        modifies this`files, this`clock
        invariant SoftDeleted(old(files), files, gone, start) && total == |gone| && clock >= start == old(clock)
        invariant gone <= Orphans(old(files), attachments, cutoff)
        invariant Orphans(files, attachments, cutoff) == Orphans(old(files), attachments, cutoff) - gone
        invariant OldestFirst(ages, gone, all - gone) && StampedBy(files, gone, clock)
        decreases |Orphans(files, attachments, cutoff)|
      {
        if lives == Some(survived) {
          break;
        }
        survived := survived + 1;
        Later(files, gone, clock, clock + pause);
        clock := clock + pause;
        var candidates := Orphans(files, attachments, cutoff);
        OrphansAreLive(files, attachments, cutoff);
        SameAges(old(files), files, gone, start);
        var batch := Oldest(candidates, UploadTimes(files), batchSize);
        if |batch| == 0 {
          complete := true;
          assert candidates == {};
          break;
        }
        ghost var before := files;
        SoftDelete(batch);
        OrphanStep(old(files), before, files, attachments, gone, batch, start, clock, cutoff);
        StampStep(before, files, gone, batch, clock);
        BatchInOrder(ages, all, gone, batch);
        total := total + |batch|;
        gone := gone + ToSet(batch);
      }
      SweptInColumns(old(files), files, attachments, gone, start, clock, cutoff);
    }

    /** One row: the removal of its bytes may fail or have no provider; the row goes regardless. */
    method PurgeOne(id: nat, broken: set<nat>)
      requires id in files
      modifies this`files, this`attachments, this`objects
      ensures files == old(files) - {id} && attachments == Detached(old(attachments), {id})
      ensures objects == old(objects) - Reclaimed(old(files), {id}, activeProvider, broken)
    {
      var row := files[id];
      if row.provider == activeProvider {
        if row.storageKey !in broken {
          objects := objects - {StoredObject(activeProvider, row.storageKey)};
        }
      }
      attachments := Detached(attachments, {id});
      files := files - {id};
    }

    /** `lives` counts the rows the database survives. Whatever the batch size and whatever
        removals fail, a sweep that completes has deleted exactly the expired rows. */
    method PurgeExpiredSoftDeletes(cutoff: int, broken: set<nat>, lives: Option<nat>)
      returns (total: nat, complete: bool, ghost gone: set<nat>)
      requires batchSize >= 1
      modifies this`files, this`attachments, this`objects
      ensures gone <= ExpiredFiles(old(files), cutoff) && total == |gone|
      ensures files == old(files) - gone
      ensures attachments == Detached(old(attachments), gone)
      ensures objects == old(objects) - Reclaimed(old(files), gone, activeProvider, broken)
      ensures complete ==> gone == ExpiredFiles(old(files), cutoff)
      ensures lives.None? ==> complete
      // The same in columns.
      ensures OnlyOverdueGone(old(files), files, cutoff)
      ensures complete ==> AllOverdueGone(old(files), files, cutoff)
      ensures LinksEmptied(old(files), files, old(attachments), attachments)
      ensures BytesReclaimed(old(files), files, old(objects), objects, activeProvider, broken)
      ensures LongestOverdueGone(old(files), files, cutoff)
    {
      hide Expired, ExpiredFiles, Reclaimed, Detached, DeletionTimes, OldestFirst;
      hide OnlyOverdueGone, AllOverdueGone, LinksEmptied, BytesReclaimed, LongestOverdueGone;
      total, complete, gone := 0, false, {};
      ghost var all, ages := ExpiredFiles(files, cutoff), DeletionTimes(files);
      NothingPurged(files, attachments, activeProvider, broken);
      NothingTaken(ages, all);
      label purge: while true
        invariant Progress(old(files), old(attachments), old(objects), broken, cutoff, gone) && total == |gone|
        invariant OldestFirst(ages, gone, all - gone)
        decreases |ExpiredFiles(files, cutoff)|
      {
        var candidates := ExpiredFiles(files, cutoff);
        PurgedLeaveTheQuery(old(files), gone, cutoff);
        SameDeletionTimes(old(files), files, gone);
        ExpiredAreThere(files, cutoff);
        var batch := Oldest(candidates, DeletionTimes(files), batchSize);
        if |batch| == 0 {
          assert candidates == {};
          complete := true;
          break;
        }
        ghost var left, earlier := candidates, gone;
        assert batch[0] in candidates;
        for i := 0 to |batch|
          invariant Progress(old(files), old(attachments), old(objects), broken, cutoff, gone) && total == |gone|
          invariant earlier <= gone && forall j :: 0 <= j < i ==> batch[j] in gone
          invariant forall j :: i <= j < |batch| ==> batch[j] !in gone
          invariant OldestFirst(ages, gone, all - gone)
        {
          if lives == Some(total) {
            PurgedLeaveTheQuery(old(files), gone, cutoff);
            break purge;
          }
          PurgeOne(batch[i], broken);
          NextPurged(old(files), old(attachments), gone, batch[i], activeProvider, broken);
          NextInOrder(ages, all, earlier, gone, batch, i);
          total := total + 1;
          gone := gone + {batch[i]};
        }
        PurgedLeaveTheQuery(old(files), gone, cutoff);
        assert batch[0] in gone;
        SmallerQuery(left, ExpiredFiles(files, cutoff), batch[0]);
      }
      PurgeExactly(old(files), old(attachments), old(objects), gone, activeProvider, broken, cutoff);
      PurgedInOrder(old(files), files, gone, cutoff);
    }

    ghost predicate Progress(was: Files, links: seq<Attachment>, stored: set<StoredObject>, broken: set<nat>, cutoff: int, gone: set<nat>)
      reads this
    {
      && gone <= ExpiredFiles(was, cutoff)
      && files == was - gone
      && attachments == Detached(links, gone)
      && objects == stored - Reclaimed(was, gone, activeProvider, broken)
    }
  }

  function UploadTimes(files: Files): map<nat, int> {
    map id | id in files :: files[id].createdAt
  }

  function DeletionTimes(files: Files): map<nat, int> {
    map id | id in files :: if files[id].deletedAt.Some? then files[id].deletedAt.value else 0
  }

  /** Nothing taken is younger than anything left. */
  ghost predicate OldestFirst(ages: map<nat, int>, gone: set<nat>, left: set<nat>) {
    forall a, b :: a in gone && b in left && a in ages && b in ages ==> ages[a] <= ages[b]
  }

  ghost predicate StampedBy(files: Files, gone: set<nat>, now: int) {
    forall id :: id in gone ==> id in files && files[id].deletedAt.Some? && files[id].deletedAt.value <= now
  }

  lemma NothingTaken(ages: map<nat, int>, all: set<nat>)
    ensures OldestFirst(ages, {}, all - {})
  {
  }

  lemma Later(files: Files, gone: set<nat>, now: int, later: int)
    requires StampedBy(files, gone, now) && now <= later
    ensures StampedBy(files, gone, later)
  {
  }

  lemma SameAges(was: Files, files: Files, gone: set<nat>, start: int)
    requires SoftDeleted(was, files, gone, start)
    ensures UploadTimes(files) == UploadTimes(was) && UploadTimes(was).Keys == files.Keys
  {
    forall id | id in was ensures files[id].createdAt == was[id].createdAt {
      assert id in gone ==> files[id].(deletedAt := None) == was[id];
    }
  }

  lemma StampStep(before: Files, after: Files, gone: set<nat>, batch: seq<nat>, now: int)
    requires StampedBy(before, gone, now) && SoftDeleted(before, after, ToSet(batch), now)
    requires forall i :: 0 <= i < |batch| ==> batch[i] in after && after[batch[i]].deletedAt == Some(now)
    ensures StampedBy(after, gone + ToSet(batch), now)
  {
  }

  lemma BatchInOrder(ages: map<nat, int>, all: set<nat>, gone: set<nat>, batch: seq<nat>)
    requires OldestFirst(ages, gone, all - gone) && all - gone <= ages.Keys
    requires forall i :: 0 <= i < |batch| ==> batch[i] in all - gone
    requires forall i, x :: 0 <= i < |batch| && x in all - gone && x !in batch ==> ages[batch[i]] <= ages[x]
    ensures OldestFirst(ages, gone + ToSet(batch), all - (gone + ToSet(batch)))
  {
  }

  lemma SweptInColumns(was: Files, files: Files, attachments: seq<Attachment>, gone: set<nat>, start: int, now: int, cutoff: int)
    requires SoftDeleted(was, files, gone, start) && StampedBy(files, gone, now) && gone <= Orphans(was, attachments, cutoff)
    requires Orphans(files, attachments, cutoff) == Orphans(was, attachments, cutoff) - gone
    requires OldestFirst(UploadTimes(was), gone, Orphans(was, attachments, cutoff) - gone)
    ensures OnlyUnclaimedStamped(was, files, attachments, cutoff, start, now)
    ensures gone == Orphans(was, attachments, cutoff) ==> AllUnclaimedStamped(was, files, attachments, cutoff)
    ensures OldestStamped(was, files, attachments, cutoff)
  {
    hide Orphans;
    OrphanSweepExactly(was, files, attachments, gone, start, now, cutoff);
    OrphansInColumns(files, attachments, cutoff);
    SameAges(was, files, gone, start);
    forall a: nat, b: nat | a in was && a in files && files[a] != was[a] && Unclaimed(files, attachments, cutoff, b)
      ensures was[a].createdAt <= files[b].createdAt
    {
      assert a in gone && b in Orphans(files, attachments, cutoff);
      assert UploadTimes(files)[b] == UploadTimes(was)[b];
    }
  }

  lemma ExpiredAreThere(files: Files, cutoff: int)
    ensures ExpiredFiles(files, cutoff) <= files.Keys
  {
  }

  lemma NextInOrder(ages: map<nat, int>, all: set<nat>, earlier: set<nat>, gone: set<nat>, batch: seq<nat>, i: nat)
    requires i < |batch| && OldestFirst(ages, gone, all - gone) && earlier <= gone && all - earlier <= ages.Keys
    requires forall j :: 0 <= j < |batch| ==> batch[j] in all - earlier
    requires forall j :: 0 <= j < i ==> batch[j] in gone
    requires forall j, k :: 0 <= j < k < |batch| ==> ages[batch[j]] <= ages[batch[k]]
    requires forall j, x :: 0 <= j < |batch| && x in all - earlier && x !in batch ==> ages[batch[j]] <= ages[x]
    ensures OldestFirst(ages, gone + {batch[i]}, all - (gone + {batch[i]}))
  {
    forall b | b in all - (gone + {batch[i]}) ensures ages[batch[i]] <= ages[b] {
      if k :| 0 <= k < |batch| && batch[k] == b {
        assert k > i;
      }
    }
  }

  lemma SameDeletionTimes(was: Files, files: Files, gone: set<nat>)
    requires files == was - gone
    ensures forall id :: id in files ==> id in DeletionTimes(was) && DeletionTimes(files)[id] == DeletionTimes(was)[id]
    ensures DeletionTimes(files).Keys == files.Keys
  {
  }

  lemma PurgedInOrder(was: Files, files: Files, gone: set<nat>, cutoff: int)
    requires files == was - gone && OldestFirst(DeletionTimes(was), gone, ExpiredFiles(was, cutoff) - gone)
    ensures LongestOverdueGone(was, files, cutoff)
  {
    forall a: nat, b: nat | Overdue(was, cutoff, a) && a !in files && Overdue(files, cutoff, b)
      ensures was[a].deletedAt.value <= files[b].deletedAt.value
    {
      var ages := DeletionTimes(was);
      assert a in gone && b in ExpiredFiles(was, cutoff) - gone;
      assert ages[a] == was[a].deletedAt.value && ages[b] == files[b].deletedAt.value;
    }
  }

  lemma NothingSwept(files: Files, attachments: seq<Attachment>, start: int, cutoff: int, now: int)
    ensures StampedBy(files, {}, now)
    ensures SoftDeleted(files, files, {}, start)
    ensures Orphans(files, attachments, cutoff) == Orphans(files, attachments, cutoff) - {}
  {
  }

  lemma OrphansAreLive(files: Files, attachments: seq<Attachment>, cutoff: int)
    ensures forall id :: id in Orphans(files, attachments, cutoff) ==> id in files && files[id].deletedAt.None?
  {
  }

  /** One batch of the orphan sweep. */
  lemma OrphanStep(was: Files, before: Files, after: Files, attachments: seq<Attachment>, gone: set<nat>, batch: seq<nat>,
                   start: int, now: int, cutoff: int)
    requires SoftDeleted(was, before, gone, start) && SoftDeleted(before, after, ToSet(batch), now) && start <= now
    requires gone <= Orphans(was, attachments, cutoff)
    requires Orphans(before, attachments, cutoff) == Orphans(was, attachments, cutoff) - gone
    requires |batch| > 0 && forall i :: 0 <= i < |batch| ==> batch[i] in Orphans(before, attachments, cutoff)
    requires forall i, j :: 0 <= i < j < |batch| ==> batch[i] != batch[j]
    ensures SoftDeleted(was, after, gone + ToSet(batch), start)
    ensures gone + ToSet(batch) <= Orphans(was, attachments, cutoff) && |gone + ToSet(batch)| == |gone| + |batch|
    ensures Orphans(after, attachments, cutoff) == Orphans(was, attachments, cutoff) - (gone + ToSet(batch))
    ensures |Orphans(after, attachments, cutoff)| < |Orphans(before, attachments, cutoff)|
  {
    hide SoftDeleted, Orphans;
    var ids := ToSet(batch);
    SetSize(batch);
    assert batch[0] in ids && gone !! ids;
    SweptLeaveTheQuery(before, after, attachments, ids, now, cutoff);
    SoftDeletionsCompose(was, before, after, gone, ids, start, now);
    SmallerBatch(Orphans(before, attachments, cutoff), ids);
  }

  lemma SmallerBatch(candidates: set<nat>, ids: set<nat>)
    requires ids <= candidates && ids != {}
    ensures |candidates - ids| < |candidates|
  {
    assert candidates == (candidates - ids) + ids;
  }

  lemma SmallerQuery(before: set<nat>, after: set<nat>, gone: nat)
    requires after <= before && gone in before && gone !in after
    ensures |after| < |before|
  {
    assert before == after + (before - after) && gone in before - after;
  }

  lemma NothingPurged(files: Files, attachments: seq<Attachment>, active: nat, broken: set<nat>)
    ensures files - {} == files && Detached(attachments, {}) == attachments
    ensures Reclaimed(files, {}, active, broken) == {}
  {
  }

  lemma NextPurged(files: Files, attachments: seq<Attachment>, gone: set<nat>, id: nat, active: nat, broken: set<nat>)
    requires id !in gone
    ensures files - (gone + {id}) == (files - gone) - {id}
    ensures Detached(attachments, gone + {id}) == Detached(Detached(attachments, gone), {id})
    ensures Reclaimed(files, gone + {id}, active, broken)
              == Reclaimed(files, gone, active, broken) + Reclaimed(files - gone, {id}, active, broken)
  {
    PurgesCompose(files, gone, {id});
    DetachmentsCompose(attachments, gone, {id});
    ReclaimedSplits(files, gone, {id}, active, broken);
  }
}
