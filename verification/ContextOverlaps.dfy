/** The AI context under overlapping transactions. Each one reads the row, lets `save` read it again to
    find out which columns differ, and then updates those columns; nothing locks the row until that
    UPDATE, so other transactions may commit at either gap. */
module ContextOverlaps {
  import opened Sequences
  import opened TaskIndex
  import opened Text

  /** A transaction on its way: what it read, and what its `save` found. `read` and `found` count the
      audit rows committed by those moments; they are history. */
  datatype Call =
    | Reading(step: Step, snapshot: Option<Context>, read: nat)
    | Saving(step: Step, snapshot: Option<Context>, seen: Option<Context>, read: nat, found: nat)

  datatype World = World(
    row: Option<Context>,
    calls: map<nat, Call>,
    // History: the steps of the transactions that committed a change, in commit order.
    committed: seq<Step>
  )

  datatype Event =
    | Read(c: nat, step: Step)
    | Compare(c: nat)
    | Write(c: nat)
    | Drop(c: nat)
    | Flag(step: Step)

  const START: World := World(None, map[], [])

  /** Whether the operation, having read this row, goes on to `save` anything. */
  predicate Saves(op: Op, snapshot: Option<Context>) {
    match op
    case EnsureExists => snapshot.None?
    case RemoveMany(ids) => snapshot.Some? && Apply(snapshot, Step(0, op)) != snapshot
    case FlagStale => false
    case _ => true
  }

  /** UPDATE of the columns in which the entity differs from the row that `save` found. */
  function Updated(row: Context, wanted: Context, seen: Context): Context {
    Context(
      if wanted.taskIndex != seen.taskIndex then wanted.taskIndex else row.taskIndex,
      if wanted.decisions != seen.decisions then wanted.decisions else row.decisions,
      if wanted.needsReindex != seen.needsReindex then wanted.needsReindex else row.needsReindex,
      if wanted.lastIndexedAt != seen.lastIndexedAt then wanted.lastIndexedAt else row.lastIndexedAt,
      if wanted.taskCountAtIndex != seen.taskCountAtIndex then wanted.taskCountAtIndex else row.taskCountAtIndex)
  }

  /** `ensureExists` found no row, but its `save` does: an UPDATE back to an empty context, which leaves
      only the column it does not name. */
  function Emptied(row: Context, seen: Context): Context {
    Updated(row, Fresh(seen.lastIndexedAt), seen)
  }

  /** The INSERT of a row that exists by now violates the primary key and rolls everything back. */
  predicate KeyTaken(call: Call, row: Option<Context>)
    requires call.Saving?
  {
    call.snapshot.None? && call.seen.None? && row.Some?
  }

  /** The row after the transaction's last statement and commit. */
  function Saved(call: Call, row: Option<Context>): Option<Context>
    requires call.Saving?
  {
    if call.snapshot.Some? && call.seen.Some? && row.Some? && Apply(call.snapshot, call.step).Some? then
      Some(Updated(row.value, Apply(call.snapshot, call.step).value, call.seen.value))
    else if call.snapshot.None? && call.seen.Some? && row.Some? then
      Apply(Some(Emptied(row.value, call.seen.value)), call.step)
    else Apply(row, call.step)
  }

  predicate Enabled(w: World, e: Event) {
    match e
    case Read(c, _) => c !in w.calls
    case Compare(c) => c in w.calls && w.calls[c].Reading? && Saves(w.calls[c].step.op, w.calls[c].snapshot)
    case Write(c) => c in w.calls && w.calls[c].Saving?
    // Nothing to save, a failure, or a rollback.
    case Drop(c) => c in w.calls
    // The weekly sweep is a single UPDATE.
    case Flag(step) => step.op.FlagStale?
  }

  function Audits(w: World): nat {
    |AuditTrail(w.committed)|
  }

  function Applied(w: World, e: Event): World
    requires Enabled(w, e)
  {
    match e
    case Read(c, step) => w.(calls := w.calls[c := Reading(step, w.row, Audits(w))])
    case Compare(c) =>
      var call := w.calls[c];
      w.(calls := w.calls[c := Saving(call.step, call.snapshot, w.row, call.read, Audits(w))])
    case Write(c) =>
      var call := w.calls[c];
      var fails := KeyTaken(call, w.row);
      w.(row := if fails then w.row else Saved(call, w.row),
         calls := w.calls - {c},
         committed := if fails then w.committed else w.committed + [call.step])
    case Drop(c) => w.(calls := w.calls - {c})
    case Flag(step) => w.(row := TaskIndex.Apply(w.row, step), committed := w.committed + [step])
  }

  predicate Legal(w: World, es: seq<Event>)
    decreases |es|
  {
    es == [] || (Enabled(w, es[0]) && Legal(Applied(w, es[0]), es[1..]))
  }

  function After(w: World, es: seq<Event>): World
    requires Legal(w, es)
    decreases |es|
  {
    if es == [] then w else After(Applied(w, es[0]), es[1..])
  }

  /** The columns of `row` after an UPDATE: those it names are `wanted`, the rest stay as they are. */
  ghost predicate NamesDifferences(after: Context, row: Context, wanted: Context, seen: Context) {
    && after.taskIndex == (if wanted.taskIndex == seen.taskIndex then row.taskIndex else wanted.taskIndex)
    && after.decisions == (if wanted.decisions == seen.decisions then row.decisions else wanted.decisions)
    && after.needsReindex == (if wanted.needsReindex == seen.needsReindex then row.needsReindex else wanted.needsReindex)
    && after.lastIndexedAt == (if wanted.lastIndexedAt == seen.lastIndexedAt then row.lastIndexedAt else wanted.lastIndexedAt)
    && after.taskCountAtIndex == (if wanted.taskCountAtIndex == seen.taskCountAtIndex then row.taskCountAtIndex else wanted.taskCountAtIndex)
  }

  /** What a write does to the row, whatever was committed since its reading: alone it is the serial
      step; otherwise it writes the columns in which what it wants differs from what its `save` found,
      over whatever is there; and an INSERT that comes second fails and changes nothing. */
  lemma WriteExactly(w: World, c: nat)
    requires c in w.calls && w.calls[c].Saving?
    ensures var call, w' := w.calls[c], Applied(w, Write(c));
            && w'.calls == w.calls - {c}
            && (call.snapshot == call.seen == w.row ==>
                  w'.row == Apply(w.row, call.step) && w'.committed == w.committed + [call.step])
            && (call.snapshot.Some? && call.seen.Some? && w.row.Some? && Apply(call.snapshot, call.step).Some? ==>
                  && w'.row.Some? && w'.committed == w.committed + [call.step]
                  && NamesDifferences(w'.row.value, w.row.value, Apply(call.snapshot, call.step).value, call.seen.value))
            && (call.snapshot.None? && call.seen.None? && w.row.Some? ==> w'.row == w.row && w'.committed == w.committed)
  {
    hide Apply;
    var call := w.calls[c];
    if call.snapshot == call.seen == w.row && w.row.Some? && Apply(w.row, call.step).Some? {
      UndisturbedUpdate(w.row.value, Apply(w.row, call.step).value);
    }
  }

  /** Which transactions go on to `save`, and what the steps around it do. One that only ensures the row
      does so when it found none, one that removes tasks when it found one of them listed, and the sweep
      is a single statement; every other one always saves. Reading and comparing only take a copy of the
      row, and a transaction that is dropped changes nothing. */
  lemma StepsExactly(w: World, c: nat, step: Step)
    ensures c !in w.calls ==>
              Enabled(w, Read(c, step)) && Applied(w, Read(c, step)) == w.(calls := w.calls[c := Reading(step, w.row, Audits(w))])
    ensures c in w.calls ==> Enabled(w, Drop(c)) && Applied(w, Drop(c)) == w.(calls := w.calls - {c})
    ensures c in w.calls && w.calls[c].Reading? ==>
              var op, snapshot := w.calls[c].step.op, w.calls[c].snapshot;
              Enabled(w, Compare(c)) <==>
                && (op.EnsureExists? ==> snapshot == None)
                && (op.RemoveMany? ==> snapshot != None && exists i :: 0 <= i < |snapshot.value.taskIndex| && snapshot.value.taskIndex[i].id in op.ids)
                && !op.FlagStale?
    ensures Enabled(w, Compare(c)) ==>
              var call := w.calls[c];
              Applied(w, Compare(c)) == w.(calls := w.calls[c := Saving(call.step, call.snapshot, w.row, call.read, Audits(w))])
    ensures Enabled(w, Flag(step)) <==> step.op.FlagStale?
    ensures step.op.FlagStale? ==>
              Applied(w, Flag(step)) == w.(row := TaskIndex.Apply(w.row, step), committed := w.committed + [step])
  {
    hide Pruned, Upserted, WithSummaries, SummaryMap, AuditTrail;
    if c in w.calls && w.calls[c].step.op.RemoveMany? && w.calls[c].snapshot.Some? {
      RemovalSaves(w.calls[c].snapshot.value, w.calls[c].step.op.ids);
    }
  }

  lemma RemovalSaves(row: Context, ids: seq<nat>)
    ensures TaskIndex.Apply(Some(row), Step(0, RemoveMany(ids))) != Some(row)
       <==> exists i :: 0 <= i < |row.taskIndex| && row.taskIndex[i].id in ids
  {
    hide Pruned;
    var index := row.taskIndex;
    RemovalIsSeen(index, ids);
    PrunedKeeps(index, ToSet(ids));
    if id :| id in ids && id in Ids(index) {
      var k :| 0 <= k < |index| && Ids(index)[k] == id;
      assert index[k].id in ids;
    }
    if i :| 0 <= i < |index| && index[i].id in ids {
      assert Ids(index)[i] == index[i].id;
    }
  }

  lemma UndisturbedUpdate(row: Context, wanted: Context)
    ensures Updated(row, wanted, row) == wanted
  {
  }

  // ---- The audit log ---------------------------------------------------------------------------

  /** `decisions` is one row per committed decision and derived write, in commit order. */
  predicate Intact(w: World) {
    Decisions(w.row) == AuditTrail(w.committed)
  }

  predicate AlwaysIntact(w: World, es: seq<Event>)
    requires Legal(w, es)
    decreases |es|
  {
    Intact(w) && (es == [] || AlwaysIntact(Applied(w, es[0]), es[1..]))
  }

  /** What a writer must not have missed: an audit writer, any audit row since its reading; any other,
      one between its reading and its `save`; and one that found no row, none before its `save`. */
  predicate MissesNothing(w: World, call: Call)
    requires call.Saving?
  {
    if call.snapshot.None? then call.seen.None? || call.found == 0
    else if AuditOf(call.step) != [] then call.read == Audits(w)
    else call.read == call.found
  }

  predicate WritesClean(w: World, es: seq<Event>)
    requires Legal(w, es)
    decreases |es|
  {
    es == []
    || ((es[0].Write? ==> MissesNothing(w, w.calls[es[0].c])) && WritesClean(Applied(w, es[0]), es[1..]))
  }

  /** `a` is the audit log as it was when it had `n` rows. */
  predicate EarlierLog(a: seq<Audit>, n: nat, trail: seq<Audit>) {
    n <= |trail| && a == trail[..n]
  }

  /** Every open transaction holds earlier states of the log; a row, once there, stays. */
  ghost predicate LogInv(w: World) {
    && Intact(w)
    && forall c :: c in w.calls ==> HoldsEarlierLogs(w.calls[c], w.row, AuditTrail(w.committed))
  }

  predicate HoldsEarlierLogs(call: Call, row: Option<Context>, trail: seq<Audit>) {
    && EarlierLog(Decisions(call.snapshot), call.read, trail)
    && (call.snapshot.Some? ==> row.Some?)
    && (call.Saving? ==>
          && EarlierLog(Decisions(call.seen), call.found, trail) && call.read <= call.found
          && (call.seen.Some? ==> row.Some?) && (call.snapshot.Some? ==> call.seen.Some?)
          && Saves(call.step.op, call.snapshot))
  }

  lemma TrailPlus(steps: seq<Step>, s: Step)
    ensures AuditTrail(steps + [s]) == AuditTrail(steps) + AuditOf(s)
  {
    hide AuditTrail, AuditOf;
    TrailSnoc(steps + [s]);
    assert (steps + [s])[..|steps|] == steps;
  }

  lemma ApplyExists(c: Option<Context>, s: Step)
    requires c.Some? || Saves(s.op, c)
    ensures Apply(c, s).Some?
  {
  }

  /** The heart of it: one write keeps the log exactly when it missed nothing. */
  lemma WriteKeepsLogExactly(w: World, c: nat)
    requires LogInv(w) && Enabled(w, Write(c))
    ensures Intact(Applied(w, Write(c))) <==> MissesNothing(w, w.calls[c])
  {
    hide Apply, AuditTrail, Saves, Emptied, Fresh;
    var call, trail := w.calls[c], AuditTrail(w.committed);
    assert HoldsEarlierLogs(call, w.row, trail);
    TrailPlus(w.committed, call.step);
    ApplyExists(call.snapshot, call.step);
    StepAudits(call.snapshot, call.step);
    StepAudits(w.row, call.step);
    if call.snapshot.Some? {
      WrittenLog(Decisions(call.snapshot), Decisions(call.seen), trail, call.read, call.found, AuditOf(call.step));
    } else if call.seen.Some? {
      StepAudits(Some(Emptied(w.row.value, call.seen.value)), call.step);
      EmptiedLog(w.row.value, call.seen.value);
    }
  }

  lemma EmptiedLog(row: Context, seen: Context)
    ensures Emptied(row, seen).decisions == if seen.decisions != [] then [] else row.decisions
  {
  }

  /** The log column after an UPDATE, against the log it should be. */
  lemma WrittenLog(snapshot: seq<Audit>, seen: seq<Audit>, trail: seq<Audit>, read: nat, found: nat, more: seq<Audit>)
    requires EarlierLog(snapshot, read, trail) && EarlierLog(seen, found, trail) && read <= found && |more| <= 1
    ensures (if snapshot + more != seen then snapshot + more else trail) == trail + more
       <==> if more != [] then read == |trail| else read == found
  {
    assert snapshot + [] == snapshot && trail + [] == trail;
    if more == [] {
      assert read < found ==> |snapshot| < |trail|;
    } else {
      assert |snapshot + more| == read + 1 && |trail + more| == |trail| + 1;
    }
  }

  lemma NewCallFits(w: World, c: nat, call: Call)
    requires LogInv(w) && HoldsEarlierLogs(call, w.row, AuditTrail(w.committed))
    ensures LogInv(w.(calls := w.calls[c := call]))
  {
    hide HoldsEarlierLogs;
  }

  lemma LongerLogFits(call: Call, row: Option<Context>, trail: seq<Audit>, row': Option<Context>, trail': seq<Audit>)
    requires HoldsEarlierLogs(call, row, trail) && trail <= trail' && (row.Some? ==> row'.Some?)
    ensures HoldsEarlierLogs(call, row', trail')
  {
    hide Saves;
    assert forall n: nat :: n <= |trail| ==> trail'[..n] == trail[..n];
  }

  lemma CommitKeepsCalls(w: World, row': Option<Context>, s: Step, calls': map<nat, Call>)
    requires LogInv(w) && (w.row.Some? ==> row'.Some?) && (forall c :: c in calls' ==> c in w.calls && calls'[c] == w.calls[c])
    requires Decisions(row') == AuditTrail(w.committed + [s])
    ensures LogInv(World(row', calls', w.committed + [s]))
  {
    hide AuditTrail, HoldsEarlierLogs;
    var trail := AuditTrail(w.committed);
    TrailPlus(w.committed, s);
    forall c | c in calls' ensures HoldsEarlierLogs(calls'[c], row', AuditTrail(w.committed + [s])) {
      LongerLogFits(w.calls[c], w.row, trail, row', AuditTrail(w.committed + [s]));
    }
  }

  /** Every event but a write that missed something keeps the log intact. */
  lemma EventKeepsLog(w: World, e: Event)
    requires LogInv(w) && Enabled(w, e) && (e.Write? ==> MissesNothing(w, w.calls[e.c]))
    ensures LogInv(Applied(w, e))
  {
    hide AuditTrail, Apply, HoldsEarlierLogs, Saved, Saves, MissesNothing;
    match e
    case Read(c, step) => FirstReading(w, step); NewCallFits(w, c, Reading(step, w.row, Audits(w)));
    case Compare(c) => Compared(w, c); NewCallFits(w, c, Applied(w, e).calls[c]);
    case Write(c) =>
      WriteKeepsLogExactly(w, c);
      if KeyTaken(w.calls[c], w.row) {
      } else {
        RowIsThere(w, c);
        CommitKeepsCalls(w, Saved(w.calls[c], w.row), w.calls[c].step, w.calls - {c});
      }
    case Drop(c) =>
    case Flag(step) => FlagKeepsLog(w, step);
  }

  lemma FirstReading(w: World, step: Step)
    requires Intact(w)
    ensures HoldsEarlierLogs(Reading(step, w.row, Audits(w)), w.row, AuditTrail(w.committed))
  {
    hide AuditTrail;
  }

  lemma Compared(w: World, c: nat)
    requires LogInv(w) && Enabled(w, Compare(c))
    ensures HoldsEarlierLogs(Applied(w, Compare(c)).calls[c], w.row, AuditTrail(w.committed))
  {
    hide AuditTrail, Saves;
    assert HoldsEarlierLogs(w.calls[c], w.row, AuditTrail(w.committed));
  }

  lemma RowIsThere(w: World, c: nat)
    requires LogInv(w) && Enabled(w, Write(c))
    ensures Saved(w.calls[c], w.row).Some?
  {
    hide AuditTrail, Apply, Saves;
    var call := w.calls[c];
    assert HoldsEarlierLogs(call, w.row, AuditTrail(w.committed));
    ApplyExists(call.snapshot, call.step);
    if call.seen.Some? && w.row.Some? {
      ApplyExists(Some(Emptied(w.row.value, call.seen.value)), call.step);
    }
    if w.row.Some? || call.snapshot.None? {
      SavingRowExists(w.row, call);
    }
  }

  lemma SavingRowExists(row: Option<Context>, call: Call)
    requires call.Saving? && Saves(call.step.op, call.snapshot) && (row.Some? || call.snapshot.None?)
    ensures Apply(row, call.step).Some?
  {
  }

  lemma FlagKeepsLog(w: World, step: Step)
    requires LogInv(w) && step.op.FlagStale?
    ensures LogInv(Applied(w, Flag(step)))
  {
    hide AuditTrail, HoldsEarlierLogs;
    TrailPlus(w.committed, step);
    StepAudits(w.row, step);
    assert AuditTrail(w.committed) + [] == AuditTrail(w.committed);
    CommitKeepsCalls(w, Apply(w.row, step), step, w.calls);
  }

  lemma BrokenAtOnce(w: World, es: seq<Event>)
    requires Legal(w, es) && !Intact(w)
    ensures !AlwaysIntact(w, es)
  {
  }

  lemma {:induction false} LogExactlyFrom(w: World, es: seq<Event>)
    requires LogInv(w) && Legal(w, es)
    ensures AlwaysIntact(w, es) <==> WritesClean(w, es)
    decreases |es|
  {
    hide Applied, Enabled, LogInv, Intact, MissesNothing;
    LogInvIsIntact(w);
    if es != [] {
      var v := Applied(w, es[0]);
      if es[0].Write? && !MissesNothing(w, CallOf(w, es[0])) {
        WriteKeepsLogExactly(w, es[0].c);
        BrokenAtOnce(v, es[1..]);
      } else {
        EventKeepsLog(w, es[0]);
        LogExactlyFrom(v, es[1..]);
      }
    }
  }

  function CallOf(w: World, e: Event): (call: Call)
    requires e.Write? && Enabled(w, e)
    ensures call.Saving?
  {
    w.calls[e.c]
  }

  lemma LogInvIsIntact(w: World)
    requires LogInv(w)
    ensures Intact(w)
  {
  }

  /** The exact condition, in every interleaving: at every moment the log holds one row per committed
      decision and derived write, in order, if and only if every write missed nothing. */
  lemma AuditTrailExactly(es: seq<Event>)
    requires Legal(START, es)
    ensures AlwaysIntact(START, es) <==> WritesClean(START, es)
  {
    LogExactlyFrom(START, es);
  }

  // ---- The task index ----------------------------------------------------------------------------

  /** What an operation does to the list, whatever the other columns hold. */
  function IndexApplied(index: seq<Entry>, op: Op): seq<Entry> {
    match op
    case PatchTask(task) => Upserted(index, task)
    case RemoveMany(ids) => Pruned(index, ToSet(ids))
    case UpdateDerived(_, summaries) => WithSummaries(index, SummaryMap(summaries))
    case _ => index
  }

  predicate WritesIndex(op: Op) {
    op.PatchTask? || op.RemoveMany? || op.UpdateDerived?
  }

  lemma ApplyIndex(c: Option<Context>, s: Step)
    ensures ListOf(Apply(c, s)) == IndexApplied(ListOf(c), s.op)
  {
    hide Upserted, WithSummaries, SummaryMap;
    if s.op.RemoveMany? {
      PrunedKeeps(ListOf(c), ToSet(s.op.ids));
    }
  }

  /** The list is where the transaction saw it: at its reading, at its `save`, and for a change of the
      list still now. */
  predicate IndexUnmoved(w: World, call: Call)
    requires call.Saving?
  {
    if call.snapshot.None? then call.seen.None? || ListOf(call.seen) == []
    else
      && ListOf(call.snapshot) == ListOf(call.seen)
      && (WritesIndex(call.step.op) ==> ListOf(call.seen) == ListOf(w.row))
  }

  predicate WritesInPlace(w: World, es: seq<Event>)
    requires Legal(w, es)
    decreases |es|
  {
    es == []
    || ((es[0].Write? ==> IndexUnmoved(w, w.calls[es[0].c])) && WritesInPlace(Applied(w, es[0]), es[1..]))
  }

  /** Rows are never deleted, and only a saving operation comes to `save`. */
  predicate RowsStay(call: Call, row: Option<Context>) {
    && (call.snapshot.Some? ==> row.Some?)
    && (call.Saving? ==>
          && (call.seen.Some? ==> row.Some?) && (call.snapshot.Some? ==> call.seen.Some?)
          && Saves(call.step.op, call.snapshot))
  }

  ghost predicate IndexInv(w: World) {
    && ListOf(w.row) == ListOf(Run(w.committed))
    && forall c :: c in w.calls ==> RowsStay(w.calls[c], w.row)
  }

  lemma SavedIndex(w: World, call: Call)
    requires call.Saving? && RowsStay(call, w.row) && !KeyTaken(call, w.row) && IndexUnmoved(w, call)
    ensures ListOf(Saved(call, w.row)) == IndexApplied(ListOf(w.row), call.step.op) && Saved(call, w.row).Some?
  {
    hide Apply, Saves, IndexApplied, WritesIndex;
    ApplyExists(call.snapshot, call.step);
    ApplyIndex(call.snapshot, call.step);
    ApplyIndex(w.row, call.step);
    if call.snapshot.Some? {
      OtherOpsLeaveIt(ListOf(call.snapshot), call.step.op);
      OtherOpsLeaveIt(ListOf(w.row), call.step.op);
    } else if call.seen.Some? {
      var emptied := Some(Emptied(w.row.value, call.seen.value));
      ApplyExists(emptied, call.step);
      ApplyIndex(emptied, call.step);
      EmptiedIndex(w.row.value, call.seen.value);
    } else {
      SavingRowExists(w.row, call);
    }
  }

  lemma OtherOpsLeaveIt(index: seq<Entry>, op: Op)
    ensures !WritesIndex(op) ==> IndexApplied(index, op) == index
  {
  }

  lemma EmptiedIndex(row: Context, seen: Context)
    ensures Emptied(row, seen).taskIndex == if seen.taskIndex != [] then [] else row.taskIndex
  {
  }

  lemma RunPlus(steps: seq<Step>, s: Step)
    ensures Run(steps + [s]) == Apply(Run(steps), s)
  {
    hide Apply;
    assert (steps + [s])[..|steps|] == steps;
  }

  lemma EventKeepsIndex(w: World, e: Event)
    requires IndexInv(w) && Enabled(w, e) && (e.Write? ==> IndexUnmoved(w, w.calls[e.c]))
    ensures IndexInv(Applied(w, e))
  {
    hide Apply, Run, Saved, Saves, IndexUnmoved, IndexApplied;
    match e
    case Write(c) =>
      var call := w.calls[c];
      if !KeyTaken(call, w.row) {
        SavedIndex(w, call);
        RunPlus(w.committed, call.step);
        ApplyIndex(Run(w.committed), call.step);
      }
    case Flag(step) =>
      RunPlus(w.committed, step);
      ApplyIndex(Run(w.committed), step);
      ApplyIndex(w.row, step);
      FlagKeepsRow(w.row, step);
    case _ =>
  }

  lemma FlagKeepsRow(row: Option<Context>, step: Step)
    requires step.op.FlagStale?
    ensures Apply(row, step).Some? == row.Some?
  {
  }

  lemma {:induction false} IndexRun(w: World, es: seq<Event>)
    requires IndexInv(w) && Legal(w, es) && WritesInPlace(w, es)
    ensures IndexInv(After(w, es))
    decreases |es|
  {
    hide Applied, Enabled, IndexInv, IndexUnmoved;
    if es != [] {
      EventKeepsIndex(w, es[0]);
      IndexRun(Applied(w, es[0]), es[1..]);
    }
  }

  /** When no change of the list commits between another's reading and its write, nor any between
      another transaction's reading and its `save`, the list is the one the committed operations give
      one after another, however they overlap otherwise: distinct ids, the simple map's entries, in
      order of their latest insertion. */
  lemma IndexSurvivesOverlaps(es: seq<Event>)
    requires Legal(START, es) && WritesInPlace(START, es)
    ensures var w := After(START, es);
            && ListOf(w.row) == ListOf(Run(w.committed))
            && DistinctIds(ListOf(w.row)) && Agrees(ListOf(w.row), MapRun(w.committed))
            && Ids(ListOf(w.row)) == OrderRun(w.committed)
  {
    hide After, Legal, WritesInPlace, Agrees, DistinctIds;
    IndexRun(START, es);
    IndexAgreesWithMap(After(START, es).committed);
  }

  // ---- What is lost otherwise -----------------------------------------------------------------

  /** Two transactions read the same row, and write one after the other. */
  function TwoWriters(a: Step, b: Step): seq<Event> {
    [Read(0, a), Read(1, b), Compare(0), Write(0), Compare(1), Write(1)]
  }

  function Rest(c: Context): World {
    World(Some(c), map[], [])
  }

  lemma TwoWritersEnd(c: Context, a: Step, b: Step)
    requires Saves(a.op, Some(c)) && Saves(b.op, Some(c))
    ensures Legal(Rest(c), TwoWriters(a, b))
    ensures var wantedA, wantedB := Apply(Some(c), a), Apply(Some(c), b);
            && wantedA.Some? && wantedB.Some?
            && After(Rest(c), TwoWriters(a, b)).committed == [a, b]
            && After(Rest(c), TwoWriters(a, b)).row
               == Some(Updated(Updated(c, wantedA.value, c), wantedB.value, Updated(c, wantedA.value, c)))
  {
    hide Apply, Updated, AuditTrail, Saves;
    ApplyExists(Some(c), a);
    ApplyExists(Some(c), b);
    var w := Rest(c);
    var w1 := Applied(w, Read(0, a));
    var w2 := Applied(w1, Read(1, b));
    var w3 := Applied(w2, Compare(0));
    var w4 := Applied(w3, Write(0));
    var w5 := Applied(w4, Compare(1));
    var w6 := Applied(w5, Write(1));
    Unroll(w5, Write(1), []);
    Unroll(w4, Compare(1), [Write(1)]);
    Unroll(w3, Write(0), [Compare(1), Write(1)]);
    Unroll(w2, Compare(0), [Write(0), Compare(1), Write(1)]);
    Unroll(w1, Read(1, b), [Compare(0), Write(0), Compare(1), Write(1)]);
    Unroll(w, Read(0, a), [Read(1, b), Compare(0), Write(0), Compare(1), Write(1)]);
  }

  lemma Unroll(w: World, e: Event, rest: seq<Event>)
    requires Enabled(w, e) && Legal(Applied(w, e), rest)
    ensures Legal(w, [e] + rest) && After(w, [e] + rest) == After(Applied(w, e), rest)
  {
    hide Applied, Enabled;
    assert ([e] + rest)[0] == e && ([e] + rest)[1..] == rest;
  }

  /** Whatever the row, and any two decisions: both commit, and the log holds only the second. */
  lemma DecisionIsDropped(c: Context, a: Step, b: Step)
    requires a.op.LogDecision? && b.op.LogDecision?
    ensures Legal(Rest(c), TwoWriters(a, b))
    ensures var w := After(Rest(c), TwoWriters(a, b));
            && w.committed == [a, b]
            && Decisions(w.row) == c.decisions + AuditOf(b)
  {
    TwoWritersEnd(c, a, b);
    var wanted := c.decisions + AuditOf(a);
    assert wanted[|c.decisions|] == AuditOf(a)[0];
    assert (c.decisions + AuditOf(b))[|c.decisions|] == AuditOf(b)[0];
  }

  /** Whatever the row, and any two new tasks: both commit, and the list holds only the second. */
  lemma TaskIsLost(c: Context, a: Step, b: Step)
    requires a.op.PatchTask? && b.op.PatchTask? && a.op.task.id != b.op.task.id
    requires Find(c.taskIndex, a.op.task.id) == |c.taskIndex| && Find(c.taskIndex, b.op.task.id) == |c.taskIndex|
    ensures Legal(Rest(c), TwoWriters(a, b))
    ensures var w := After(Rest(c), TwoWriters(a, b));
            && w.committed == [a, b]
            && ListOf(w.row) == c.taskIndex + [EntryOf(b.op.task, None)]
  {
    TwoWritersEnd(c, a, b);
    assert (c.taskIndex + [EntryOf(a.op.task, None)])[|c.taskIndex|].id == a.op.task.id;
    assert (c.taskIndex + [EntryOf(b.op.task, None)])[|c.taskIndex|].id == b.op.task.id;
  }

  /** Two first uses of a project: one reads that there is no row, the other creates it and logs a
      decision, and then the first one's `save` empties it again. */
  function LateCreation(first: Step, a: Step): seq<Event> {
    [Read(0, first), Read(1, a), Compare(1), Write(1), Compare(0), Write(0)]
  }

  lemma CreationEmptiesTheContext(first: Step, a: Step)
    requires first.op.EnsureExists? && a.op.LogDecision?
    ensures Legal(START, LateCreation(first, a))
    ensures var w := After(START, LateCreation(first, a));
            && w.committed == [a, first] && AuditTrail(w.committed) == AuditOf(a)
            && Decisions(w.row) == [] && !Intact(w)
  {
    hide AuditTrail, Apply, Emptied;
    CreatedAndEmptied(first, a);
    var w := START;
    var w1 := Applied(w, Read(0, first));
    var w2 := Applied(w1, Read(1, a));
    var w3 := Applied(w2, Compare(1));
    var w4 := Applied(w3, Write(1));
    var w5 := Applied(w4, Compare(0));
    var w6 := Applied(w5, Write(0));
    Unroll(w5, Write(0), []);
    Unroll(w4, Compare(0), [Write(0)]);
    Unroll(w3, Write(1), [Compare(0), Write(0)]);
    Unroll(w2, Compare(1), [Write(1), Compare(0), Write(0)]);
    Unroll(w1, Read(1, a), [Compare(1), Write(1), Compare(0), Write(0)]);
    Unroll(w, Read(0, first), [Read(1, a), Compare(1), Write(1), Compare(0), Write(0)]);
    TrailPlus([], a);
    TrailPlus([a], first);
    NoTrail();
    assert [] + [a] == [a] && [a] + [first] == [a, first];
  }

  lemma CreatedAndEmptied(first: Step, a: Step)
    requires first.op.EnsureExists? && a.op.LogDecision?
    ensures var created := Apply(None, a);
            && created.Some? && created.value.decisions == AuditOf(a) != []
            && Apply(Some(Emptied(created.value, created.value)), first) == Some(Emptied(created.value, created.value))
            && Emptied(created.value, created.value).decisions == []
  {
  }

  lemma NoTrail()
    ensures AuditTrail([]) == []
  {
  }
}
