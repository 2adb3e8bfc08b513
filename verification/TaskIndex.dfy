/** The AI context of a project: an ordered task index kept in step with a simple map, an
    append-only audit log, and a staleness flag whose meaning is stated over the history. */
module TaskIndex {
  import opened Sequences
  import opened Text

  datatype Task = Task(id: nat, title: nat, price: int, kanban: nat)

  datatype Entry = Entry(id: nat, title: nat, price: int, kanban: nat, summary: Option<nat>)

  datatype Audit = Decision(at: int, actor: nat, text: nat) | DerivedWrite(at: int, actor: nat)

  datatype SummaryPatch = SummaryPatch(taskId: nat, summary: nat)

  /** The project_ai_context row. */
  datatype Context = Context(
    taskIndex: seq<Entry>,
    decisions: seq<Audit>,
    needsReindex: bool,
    lastIndexedAt: int,
    taskCountAtIndex: nat
  )

  datatype Op =
    | EnsureExists
    | PatchTask(task: Task)
    | RemoveMany(ids: seq<nat>)
    | LogDecision(actor: nat, text: nat)
    | UpdateDerived(actor: nat, summaries: seq<SummaryPatch>)
    | SkillsReplaced
    | FlagStale

  datatype Step = Step(now: int, op: Op)

  const STALENESS_MS: int := 7 * 86400000

  // ---- The code's list operations --------------------------------------------------

  /** `findIndex` by id; the length when absent. */
  function Find(index: seq<Entry>, id: nat): (i: nat)
    ensures i <= |index|
    ensures i < |index| ==> index[i].id == id
    ensures forall j :: 0 <= j < i ==> index[j].id != id
  {
    if index == [] then 0 else if index[0].id == id then 0 else 1 + Find(index[1..], id)
  }

  function EntryOf(task: Task, summary: Option<nat>): Entry {
    Entry(task.id, task.title, task.price, task.kanban, summary)
  }

  function Upserted(index: seq<Entry>, task: Task): seq<Entry> {
    var i := Find(index, task.id);
    if i < |index| then index[i := EntryOf(task, index[i].summary)] else index + [EntryOf(task, None)]
  }

  function Pruned(index: seq<Entry>, ids: set<nat>): seq<Entry> {
    if index == [] then []
    else
      var front, last := Pruned(index[..|index| - 1], ids), index[|index| - 1];
      if last.id in ids then front else front + [last]
  }

  /** The `Map` built from the patches: the last patch of an id wins. */
  function SummaryMap(patches: seq<SummaryPatch>): map<nat, nat> {
    if patches == [] then map[]
    else SummaryMap(patches[..|patches| - 1])[patches[|patches| - 1].taskId := patches[|patches| - 1].summary]
  }

  function Summarised(e: Entry, summaries: map<nat, nat>): Entry {
    if e.id in summaries then e.(summary := Some(summaries[e.id])) else e
  }

  function WithSummaries(index: seq<Entry>, summaries: map<nat, nat>): (r: seq<Entry>)
    ensures |r| == |index| && forall i :: 0 <= i < |index| ==> r[i] == Summarised(index[i], summaries)
  {
    if index == [] then []
    else WithSummaries(index[..|index| - 1], summaries) + [Summarised(index[|index| - 1], summaries)]
  }

  // ---- The steps -----------------------------------------------------------------------

  function Fresh(now: int): Context {
    Context([], [], false, now, 0)
  }

  function Ensured(c: Option<Context>, now: int): Context {
    if c.Some? then c.value else Fresh(now)
  }

  /** One committed transaction on a project's row, which may not exist yet. */
  function Apply(c: Option<Context>, s: Step): Option<Context> {
    match s.op
    case EnsureExists => Some(Ensured(c, s.now))
    case PatchTask(task) =>
      var e := Ensured(c, s.now);
      Some(e.(taskIndex := Upserted(e.taskIndex, task),
              needsReindex := e.needsReindex || Find(e.taskIndex, task.id) == |e.taskIndex|))
    case RemoveMany(ids) =>
      if c.None? then None
      else
        var kept := Pruned(c.value.taskIndex, ToSet(ids));
        if |kept| == |c.value.taskIndex| then c else Some(c.value.(taskIndex := kept, needsReindex := true))
    case LogDecision(actor, text) =>
      var e := Ensured(c, s.now);
      Some(e.(decisions := e.decisions + [Decision(s.now, actor, text)]))
    case UpdateDerived(actor, summaries) =>
      var e := Ensured(c, s.now);
      var index := WithSummaries(e.taskIndex, SummaryMap(summaries));
      Some(Context(index, e.decisions + [DerivedWrite(s.now, actor)], false, s.now, |index|))
    case SkillsReplaced => Some(Ensured(c, s.now).(needsReindex := true))
    case FlagStale =>
      if c.Some? && !c.value.needsReindex && c.value.lastIndexedAt < s.now - STALENESS_MS
      then Some(c.value.(needsReindex := true)) else c
  }

  function Run(steps: seq<Step>): Option<Context> {
    if steps == [] then None else Apply(Run(steps[..|steps| - 1]), steps[|steps| - 1])
  }

  // ---- The list against a map ----------------------------------------------------------

  ghost predicate DistinctIds(index: seq<Entry>) {
    forall i, j :: 0 <= i < j < |index| ==> index[i].id != index[j].id
  }

  function Ids(index: seq<Entry>): (r: seq<nat>)
    ensures |r| == |index| && forall i :: 0 <= i < |r| ==> r[i] == index[i].id
  {
    seq(|index|, i requires 0 <= i < |index| => index[i].id)
  }

  /** `m` holds exactly the entries of the list, each under its id. */
  ghost predicate Agrees(index: seq<Entry>, m: map<nat, Entry>) {
    && (forall i :: 0 <= i < |index| ==> index[i].id in m && m[index[i].id] == index[i])
    && (forall id :: id in m ==> id in Ids(index))
  }

  function MapApply(m: map<nat, Entry>, op: Op): map<nat, Entry> {
    match op
    case PatchTask(task) => m[task.id := EntryOf(task, if task.id in m then m[task.id].summary else None)]
    case RemoveMany(ids) => m - ToSet(ids)
    case UpdateDerived(_, summaries) =>
      var last := SummaryMap(summaries);
      map id | id in m :: if id in last then m[id].(summary := Some(last[id])) else m[id]
    case _ => m
  }

  function MapRun(steps: seq<Step>): map<nat, Entry> {
    if steps == [] then map[] else MapApply(MapRun(steps[..|steps| - 1]), steps[|steps| - 1].op)
  }

  /** The order of the list: first come, first listed; a removed id that returns goes to the end. */
  function OrderApply(ids: seq<nat>, op: Op): seq<nat> {
    match op
    case PatchTask(task) => if task.id in ids then ids else ids + [task.id]
    case RemoveMany(gone) => Surviving(ids, ToSet(gone))
    case _ => ids
  }

  function Surviving(ids: seq<nat>, gone: set<nat>): seq<nat> {
    if ids == [] then []
    else
      var front, last := Surviving(ids[..|ids| - 1], gone), ids[|ids| - 1];
      if last in gone then front else front + [last]
  }

  function OrderRun(steps: seq<Step>): seq<nat> {
    if steps == [] then [] else OrderApply(OrderRun(steps[..|steps| - 1]), steps[|steps| - 1].op)
  }

  function ListOf(c: Option<Context>): seq<Entry> {
    if c.Some? then c.value.taskIndex else []
  }

  lemma {:induction false} PrunedKeeps(index: seq<Entry>, ids: set<nat>)
    ensures |Pruned(index, ids)| <= |index|
    ensures forall e :: e in Pruned(index, ids) <==> e in index && e.id !in ids
    ensures |Pruned(index, ids)| == |index| <==> Pruned(index, ids) == index
  {
    if index != [] {
      var front, last := index[..|index| - 1], index[|index| - 1];
      PrunedKeeps(front, ids);
      assert index == front + [last];
    }
  }

  lemma {:induction false} PrunedDistinct(index: seq<Entry>, ids: set<nat>)
    requires DistinctIds(index)
    ensures DistinctIds(Pruned(index, ids))
  {
    if index != [] {
      var front, last := index[..|index| - 1], index[|index| - 1];
      PrunedDistinct(front, ids);
      PrunedKeeps(front, ids);
      var kept := Pruned(front, ids);
      forall i | 0 <= i < |kept| ensures kept[i].id != last.id {
        assert kept[i] in kept;
      }
    }
  }

  lemma {:induction false} PrunedOrder(index: seq<Entry>, ids: set<nat>)
    ensures Ids(Pruned(index, ids)) == Surviving(Ids(index), ids)
  {
    if index != [] {
      var front, last := index[..|index| - 1], index[|index| - 1];
      PrunedOrder(front, ids);
      assert Ids(index)[..|index| - 1] == Ids(front);
      assert Ids(index)[|index| - 1] == last.id;
      if last.id !in ids {
        assert Ids(Pruned(front, ids) + [last]) == Ids(Pruned(front, ids)) + [last.id];
      }
    }
  }

  lemma UpsertAgrees(index: seq<Entry>, m: map<nat, Entry>, task: Task)
    requires DistinctIds(index) && Agrees(index, m)
    ensures DistinctIds(Upserted(index, task))
    ensures Agrees(Upserted(index, task), MapApply(m, PatchTask(task)))
    ensures Ids(Upserted(index, task)) == OrderApply(Ids(index), PatchTask(task))
  {
    var i := Find(index, task.id);
    var index', m' := Upserted(index, task), MapApply(m, PatchTask(task));
    if i < |index| {
      assert Ids(index)[i] == task.id;
      assert Ids(index') == Ids(index);
    } else {
      assert task.id !in Ids(index);
      assert Ids(index') == Ids(index) + [task.id];
    }
  }

  lemma RemoveAgrees(index: seq<Entry>, m: map<nat, Entry>, ids: seq<nat>)
    requires DistinctIds(index) && Agrees(index, m)
    ensures Agrees(Pruned(index, ToSet(ids)), MapApply(m, RemoveMany(ids)))
  {
    var kept, m' := Pruned(index, ToSet(ids)), MapApply(m, RemoveMany(ids));
    PrunedKeeps(index, ToSet(ids));
    forall i | 0 <= i < |kept| ensures kept[i].id in m' && m'[kept[i].id] == kept[i] {
      assert kept[i] in kept;
    }
    forall id | id in m' ensures id in Ids(kept) {
      var k :| 0 <= k < |index| && Ids(index)[k] == id;
      assert index[k] in kept;
      var j :| 0 <= j < |kept| && kept[j] == index[k];
      assert Ids(kept)[j] == id;
    }
  }

  lemma DeriveAgrees(index: seq<Entry>, m: map<nat, Entry>, actor: nat, patches: seq<SummaryPatch>)
    requires DistinctIds(index) && Agrees(index, m)
    ensures DistinctIds(WithSummaries(index, SummaryMap(patches)))
    ensures Agrees(WithSummaries(index, SummaryMap(patches)), MapApply(m, UpdateDerived(actor, patches)))
    ensures Ids(WithSummaries(index, SummaryMap(patches))) == Ids(index)
  {
    hide SummaryMap, WithSummaries;
    var index' := WithSummaries(index, SummaryMap(patches));
    assert Ids(index') == Ids(index);
  }

  lemma StepAgrees(c: Option<Context>, m: map<nat, Entry>, s: Step)
    requires DistinctIds(ListOf(c)) && Agrees(ListOf(c), m)
    ensures DistinctIds(ListOf(Apply(c, s)))
    ensures Agrees(ListOf(Apply(c, s)), MapApply(m, s.op))
    ensures Ids(ListOf(Apply(c, s))) == OrderApply(Ids(ListOf(c)), s.op)
  {
    hide DistinctIds, Agrees, Pruned, WithSummaries, Upserted, MapApply, Surviving;
    var index := ListOf(c);
    match s.op
    case PatchTask(task) => UpsertAgrees(index, m, task);
    case RemoveMany(ids) =>
      RemoveAgrees(index, m, ids);
      PrunedKeeps(index, ToSet(ids));
      PrunedDistinct(index, ToSet(ids));
      PrunedOrder(index, ToSet(ids));
    case UpdateDerived(actor, patches) => DeriveAgrees(index, m, actor, patches);
    case _ => OtherSteps(m, s.op);
  }

  lemma OtherSteps(m: map<nat, Entry>, op: Op)
    requires !op.PatchTask? && !op.RemoveMany? && !op.UpdateDerived?
    ensures MapApply(m, op) == m
  {
  }

  /** In every run the list has distinct ids, holds exactly the entries of the map run, and lists
      them in order of their latest insertion. */
  lemma {:induction false} IndexAgreesWithMap(steps: seq<Step>)
    ensures DistinctIds(ListOf(Run(steps)))
    ensures Agrees(ListOf(Run(steps)), MapRun(steps))
    ensures Ids(ListOf(Run(steps))) == OrderRun(steps)
  {
    if steps != [] {
      IndexAgreesWithMap(steps[..|steps| - 1]);
      StepAgrees(Run(steps[..|steps| - 1]), MapRun(steps[..|steps| - 1]), steps[|steps| - 1]);
    }
  }

  // ---- Summaries and patches last --------------------------------------------------------

  predicate Removes(op: Op, id: nat) {
    op.RemoveMany? && id in op.ids
  }

  predicate Derives(op: Op, id: nat) {
    op.UpdateDerived? && exists j :: 0 <= j < |op.summaries| && op.summaries[j].taskId == id
  }

  predicate Patches(op: Op, id: nat) {
    op.PatchTask? && op.task.id == id
  }

  /** Nothing but a removal or a derived write of that id touches a summary; nothing but a
      removal or a patch of that id touches the other columns of its entry. */
  lemma {:induction false} EntriesLast(steps: seq<Step>, id: nat, from: nat)
    requires from <= |steps| && id in MapRun(steps[..from])
    requires forall k :: from <= k < |steps| ==> !Removes(steps[k].op, id)
    ensures id in MapRun(steps)
    ensures (forall k :: from <= k < |steps| ==> !Derives(steps[k].op, id)) ==>
              MapRun(steps)[id].summary == MapRun(steps[..from])[id].summary
    ensures (forall k :: from <= k < |steps| ==> !Patches(steps[k].op, id)) ==>
              MapRun(steps)[id].(summary := None) == MapRun(steps[..from])[id].(summary := None)
  {
    if from < |steps| {
      var front, last := steps[..|steps| - 1], steps[|steps| - 1].op;
      assert front[..from] == steps[..from];
      EntriesLast(front, id, from);
      var m := MapRun(front);
      assert MapRun(steps) == MapApply(m, last);
      OneStepLasts(m, last, id);
    } else {
      assert steps[..from] == steps;
    }
  }

  lemma OneStepLasts(m: map<nat, Entry>, op: Op, id: nat)
    requires id in m && !Removes(op, id)
    ensures id in MapApply(m, op)
    ensures !Derives(op, id) ==> MapApply(m, op)[id].summary == m[id].summary
    ensures !Patches(op, id) ==> MapApply(m, op)[id].(summary := None) == m[id].(summary := None)
  {
    hide SummaryMap;
    if op.UpdateDerived? {
      SummaryMapHas(op.summaries, id);
    }
  }

  /** Position j holds the last summary given for the id. */
  predicate LastSummary(patches: seq<SummaryPatch>, id: nat, j: nat) {
    j < |patches| && patches[j].taskId == id && forall k :: j < k < |patches| ==> patches[k].taskId != id
  }

  /** The last summary given for the id is this one: with several in one write, the last wins. */
  ghost predicate SaysLast(patches: seq<SummaryPatch>, id: nat, summary: nat) {
    exists j: nat :: LastSummary(patches, id, j) && patches[j].summary == summary
  }

  lemma {:induction false} SummaryMapHas(patches: seq<SummaryPatch>, id: nat)
    ensures id in SummaryMap(patches) <==> exists j :: 0 <= j < |patches| && patches[j].taskId == id
    ensures id in SummaryMap(patches) ==> SaysLast(patches, id, SummaryMap(patches)[id])
  {
    if patches != [] {
      var front, last := patches[..|patches| - 1], patches[|patches| - 1];
      SummaryMapHas(front, id);
      if last.taskId == id {
        assert LastSummary(patches, id, |patches| - 1);
      } else if id in SummaryMap(front) {
        var j: nat :| LastSummary(front, id, j) && front[j].summary == SummaryMap(front)[id];
        assert LastSummary(patches, id, j) && patches[j] == front[j];
      } else if j :| 0 <= j < |patches| && patches[j].taskId == id {
        assert front[j].taskId == id;
      }
    }
  }

  // ---- Every listed entry, column by column -------------------------------------------------

  /** Step q patched the task, and no later step removed it. */
  predicate ListedSince(steps: seq<Step>, id: nat, q: nat) {
    q < |steps| && Patches(steps[q].op, id) && forall k :: q < k < |steps| ==> !Removes(steps[k].op, id)
  }

  /** Some patch of the task has not been followed by a removal. */
  ghost predicate Listed(steps: seq<Step>, id: nat) {
    exists q: nat :: ListedSince(steps, id, q)
  }

  /** Step p is the last patch of the task. */
  predicate LastPatch(steps: seq<Step>, id: nat, p: nat) {
    p < |steps| && Patches(steps[p].op, id) && forall k :: p < k < |steps| ==> !Patches(steps[k].op, id)
  }

  /** Step d summarised the task while an insertion that still stands had it listed. */
  predicate Summarises(steps: seq<Step>, id: nat, d: nat) {
    d < |steps| && Derives(steps[d].op, id) && exists q :: 0 <= q < d && ListedSince(steps, id, q)
  }

  predicate LastToSummarise(steps: seq<Step>, id: nat, d: nat) {
    Summarises(steps, id, d) && forall k :: d < k < |steps| ==> !Summarises(steps, id, k)
  }

  /** Title, price and kanban column are those of the last patch of the task. */
  ghost predicate ColumnsArePatched(steps: seq<Step>, e: Entry) {
    exists p: nat :: LastPatch(steps, e.id, p)
      && var task := steps[p].op.task; e.title == task.title && e.price == task.price && e.kanban == task.kanban
  }

  /** The summary is the last one given by the last derived write that names the task since its
      insertion, and None when there is no such write. */
  ghost predicate SummaryIsDerived(steps: seq<Step>, e: Entry) {
    && (e.summary.None? <==> forall d: nat :: !Summarises(steps, e.id, d))
    && (e.summary.Some? ==>
          exists d: nat :: LastToSummarise(steps, e.id, d) && SaysLast(steps[d].op.summaries, e.id, e.summary.value))
  }

  lemma ListedStep(steps: seq<Step>, id: nat)
    requires steps != []
    ensures var front, last := steps[..|steps| - 1], steps[|steps| - 1].op;
            && (forall q :: 0 <= q < |front| ==> (ListedSince(steps, id, q) <==> ListedSince(front, id, q) && !Removes(last, id)))
            && (ListedSince(steps, id, |front|) <==> Patches(last, id))
  {
    var n := |steps| - 1;
    var front := steps[..n];
    forall q | 0 <= q < n ensures ListedSince(steps, id, q) <==> ListedSince(front, id, q) && !Removes(steps[n].op, id) {
      assert forall k :: 0 <= k < n ==> front[k] == steps[k];
    }
  }

  lemma SummarisesStep(steps: seq<Step>, id: nat)
    requires steps != []
    ensures var front, last := steps[..|steps| - 1], steps[|steps| - 1].op;
            && (forall d :: 0 <= d < |front| ==> (Summarises(steps, id, d) <==> Summarises(front, id, d) && !Removes(last, id)))
            && (Summarises(steps, id, |front|) <==> Derives(last, id) && Listed(front, id))
  {
    hide ListedSince, Derives;
    var n := |steps| - 1;
    var front := steps[..n];
    ListedStep(steps, id);
    assert forall k :: 0 <= k < n ==> front[k] == steps[k];
    forall d | 0 <= d < n ensures Summarises(steps, id, d) <==> Summarises(front, id, d) && !Removes(steps[n].op, id) {
      if Summarises(steps, id, d) {
        var q :| 0 <= q < d && ListedSince(steps, id, q);
        assert ListedSince(front, id, q);
      }
      if Summarises(front, id, d) && !Removes(steps[n].op, id) {
        var q :| 0 <= q < d && ListedSince(front, id, q);
        assert ListedSince(steps, id, q);
      }
    }
    SummarisedNow(steps, id);
  }

  lemma SummarisedNow(steps: seq<Step>, id: nat)
    requires steps != []
    ensures var front, last := steps[..|steps| - 1], steps[|steps| - 1].op;
            Summarises(steps, id, |front|) <==> Derives(last, id) && Listed(front, id)
  {
    hide Derives;
    var n := |steps| - 1;
    var front, last := steps[..n], steps[n].op;
    ListedStep(steps, id);
    if Derives(last, id) {
      DerivesIsNoRemoval(last, id);
      if q :| 0 <= q < n && ListedSince(steps, id, q) {
        assert ListedSince(front, id, q);
      }
      if q: nat :| ListedSince(front, id, q) {
        assert 0 <= q < n && ListedSince(steps, id, q);
      }
    }
  }

  lemma DerivesIsNoRemoval(op: Op, id: nat)
    ensures Derives(op, id) ==> !Removes(op, id) && !Patches(op, id)
  {
  }

  /** A task is listed exactly when some patch of it has not been followed by a removal. */
  lemma {:induction false} ListedExactly(steps: seq<Step>, id: nat)
    ensures id in MapRun(steps) <==> Listed(steps, id)
  {
    hide ListedSince;
    if steps == [] {
      NothingListed(id);
    } else {
      var n := |steps| - 1;
      var front, last := steps[..n], steps[n].op;
      ListedExactly(front, id);
      ListedStep(steps, id);
      PatchOrRemoval(MapRun(front), last, id);
      if id in MapRun(steps) && !Patches(last, id) {
        var q: nat :| ListedSince(front, id, q);
        ListedInRange(front, id, q);
        assert ListedSince(steps, id, q);
      }
      if q: nat :| ListedSince(steps, id, q) {
        ListedInRange(steps, id, q);
        assert q < n ==> ListedSince(front, id, q);
      }
    }
  }

  lemma ListedInRange(steps: seq<Step>, id: nat, q: nat)
    ensures ListedSince(steps, id, q) ==> q < |steps|
  {
  }

  lemma NothingListed(id: nat)
    ensures forall q: nat :: !ListedSince([], id, q)
  {
  }

  lemma PatchOrRemoval(m: map<nat, Entry>, op: Op, id: nat)
    ensures id in MapApply(m, op) <==> Patches(op, id) || (id in m && !Removes(op, id))
  {
    hide SummaryMap;
  }

  lemma LastPatchStep(steps: seq<Step>, e: Entry, e': Entry)
    requires steps != [] && e.id == e'.id && !Patches(steps[|steps| - 1].op, e.id)
    requires e'.title == e.title && e'.price == e.price && e'.kanban == e.kanban
    requires ColumnsArePatched(steps[..|steps| - 1], e)
    ensures ColumnsArePatched(steps, e')
  {
    var front := steps[..|steps| - 1];
    var p: nat :| LastPatch(front, e.id, p)
      && var task := front[p].op.task; e.title == task.title && e.price == task.price && e.kanban == task.kanban;
    assert LastPatch(steps, e.id, p) && front[p] == steps[p];
  }

  lemma PatchedNow(steps: seq<Step>, e: Entry)
    requires steps != [] && Patches(steps[|steps| - 1].op, e.id)
    requires var task := steps[|steps| - 1].op.task; e.title == task.title && e.price == task.price && e.kanban == task.kanban
    ensures ColumnsArePatched(steps, e)
  {
    assert LastPatch(steps, e.id, |steps| - 1);
  }

  lemma SummaryStays(steps: seq<Step>, e: Entry, e': Entry)
    requires steps != [] && e.id == e'.id && e'.summary == e.summary && SummaryIsDerived(steps[..|steps| - 1], e)
    requires !Removes(steps[|steps| - 1].op, e.id) && !Derives(steps[|steps| - 1].op, e.id)
    ensures SummaryIsDerived(steps, e')
  {
    hide Derives, Summarises, SaysLast;
    var front := steps[..|steps| - 1];
    SummarisesStep(steps, e.id);
    SummarisesInRange(steps, e.id);
    SummarisesInRange(front, e.id);
    if e.summary.Some? {
      var d: nat :| LastToSummarise(front, e.id, d) && SaysLast(front[d].op.summaries, e.id, e.summary.value);
      assert LastToSummarise(steps, e.id, d) && front[d] == steps[d];
    }
  }

  lemma SummarisesInRange(steps: seq<Step>, id: nat)
    ensures forall d: nat :: Summarises(steps, id, d) ==> d < |steps| && steps[d].op.UpdateDerived?
  {
  }

  lemma SummarisedHere(steps: seq<Step>, e: Entry)
    requires steps != [] && Derives(steps[|steps| - 1].op, e.id) && Listed(steps[..|steps| - 1], e.id)
    requires e.summary.Some? && SaysLast(steps[|steps| - 1].op.summaries, e.id, e.summary.value)
    ensures SummaryIsDerived(steps, e)
  {
    hide Derives, ListedSince, Summarises, SaysLast;
    SummarisesStep(steps, e.id);
    assert LastToSummarise(steps, e.id, |steps| - 1);
  }

  lemma NotSummarisedYet(steps: seq<Step>, e: Entry)
    requires steps != [] && e.summary.None? && Patches(steps[|steps| - 1].op, e.id)
    requires !Listed(steps[..|steps| - 1], e.id)
    ensures SummaryIsDerived(steps, e)
  {
    hide Derives;
    var n := |steps| - 1;
    SummarisesStep(steps, e.id);
    DerivesIsNoRemoval(steps[n].op, e.id);
    SummarisesInRange(steps, e.id);
  }

  /** One step of the history of one entry. */
  lemma EntryStep(steps: seq<Step>, id: nat)
    requires steps != [] && id in MapRun(steps)
    requires var m := MapRun(steps[..|steps| - 1]);
             id in m ==> m[id].id == id && ColumnsArePatched(steps[..|steps| - 1], m[id]) && SummaryIsDerived(steps[..|steps| - 1], m[id])
    ensures var e := MapRun(steps)[id]; e.id == id && ColumnsArePatched(steps, e) && SummaryIsDerived(steps, e)
  {
    hide ColumnsArePatched, SummaryIsDerived, ListedSince, SummaryMap;
    var n := |steps| - 1;
    var front, last := steps[..n], steps[n].op;
    var m := MapRun(front);
    var e := MapApply(m, last)[id];
    assert e == MapRun(steps)[id];
    ListedExactly(front, id);
    DerivesIsNoRemoval(last, id);
    if Patches(last, id) {
      PatchedNow(steps, e);
      if id in m {
        SummaryStays(steps, m[id], e);
      } else {
        NotSummarisedYet(steps, e);
      }
    } else {
      PatchOrRemoval(m, last, id);
      OneStepLasts(m, last, id);
      LastPatchStep(steps, m[id], e);
      if Derives(last, id) {
        SummaryMapHas(last.summaries, id);
        SummarisedHere(steps, e);
      } else {
        SummaryStays(steps, m[id], e);
      }
    }
  }

  lemma {:induction false} EntryHistory(steps: seq<Step>, id: nat)
    requires id in MapRun(steps)
    ensures var e := MapRun(steps)[id]; e.id == id && ColumnsArePatched(steps, e) && SummaryIsDerived(steps, e)
  {
    hide ColumnsArePatched, SummaryIsDerived, MapApply;
    var front := steps[..|steps| - 1];
    if id in MapRun(front) {
      EntryHistory(front, id);
    }
    EntryStep(steps, id);
  }

  /** Over every run, what the index stores about a task: it is listed, once, exactly when some patch
      of it has not been followed by a removal, and then with the title, price and column of its last
      patch and the summary of the last derived write that names it since its insertion. */
  lemma IndexExactly(steps: seq<Step>, id: nat)
    ensures var index := ListOf(Run(steps));
            && (id in Ids(index) <==> Listed(steps, id))
            && (forall i :: 0 <= i < |index| && index[i].id == id ==>
                  ColumnsArePatched(steps, index[i]) && SummaryIsDerived(steps, index[i]))
            && (forall i, j :: 0 <= i < j < |index| ==> index[i].id != index[j].id)
  {
    hide ColumnsArePatched, SummaryIsDerived, ListedSince, Run, MapRun;
    IndexAgreesWithMap(steps);
    ListedExactly(steps, id);
    var index := ListOf(Run(steps));
    forall i | 0 <= i < |index| && index[i].id == id
      ensures ColumnsArePatched(steps, index[i]) && SummaryIsDerived(steps, index[i])
    {
      EntryHistory(steps, id);
    }
    if id in Ids(index) {
      var i :| 0 <= i < |index| && Ids(index)[i] == id;
      assert index[i].id == id;
    }
  }

  // ---- The staleness flag ------------------------------------------------------------------

  predicate Flagged(c: Option<Context>) {
    c.Some? && c.value.needsReindex
  }

  /** When the context was last indexed: at its last derived write, or else at its creation. */
  function LastIndexed(steps: seq<Step>): Option<int> {
    if steps == [] then None
    else
      var front, last := steps[..|steps| - 1], steps[|steps| - 1];
      if last.op.UpdateDerived? then Some(last.now)
      else if LastIndexed(front).Some? then LastIndexed(front)
      else if last.op.RemoveMany? || last.op.FlagStale? then None
      else Some(last.now)
  }

  /** The ids listed at the last derived write; none at creation. */
  function IndexedIds(steps: seq<Step>): seq<nat> {
    if steps == [] then []
    else
      var front, last := steps[..|steps| - 1], steps[|steps| - 1].op;
      if last.UpdateDerived? then OrderRun(steps) else IndexedIds(front)
  }

  /** A step that calls for re-indexing: a task appears, a listed one goes, the skills change, or
      a sweep finds the last indexing over a week (604800000 ms) old. */
  predicate Disturbs(before: seq<Step>, s: Step) {
    match s.op
    case PatchTask(task) => task.id !in OrderRun(before)
    case RemoveMany(ids) => exists id :: id in ids && id in OrderRun(before)
    case SkillsReplaced => true
    case FlagStale => LastIndexed(before).Some? && LastIndexed(before).value < s.now - 604800000
    case _ => false
  }

  /** Some step after the last derived write disturbed the index. */
  predicate DisturbedSinceIndexing(steps: seq<Step>) {
    exists k :: 0 <= k < |steps| && DisturbedAt(steps, k)
  }

  predicate DisturbedAt(steps: seq<Step>, k: nat)
    requires k < |steps|
  {
    && Disturbs(steps[..k], steps[k])
    && (forall j :: k < j < |steps| ==> !steps[j].op.UpdateDerived?)
  }

  lemma DisturbedStep(steps: seq<Step>)
    requires steps != []
    ensures DisturbedSinceIndexing(steps) <==>
              || Disturbs(steps[..|steps| - 1], steps[|steps| - 1])
              || (!steps[|steps| - 1].op.UpdateDerived? && DisturbedSinceIndexing(steps[..|steps| - 1]))
  {
    hide Disturbs;
    var n := |steps| - 1;
    var front, last := steps[..n], steps[n];
    assert forall k :: 0 <= k < n ==> front[..k] == steps[..k];
    if Disturbs(front, last) {
      assert DisturbedAt(steps, n);
    }
    if DisturbedSinceIndexing(steps) && !Disturbs(front, last) {
      var k :| 0 <= k < |steps| && DisturbedAt(steps, k);
      assert k < n && !steps[n].op.UpdateDerived?;
      assert DisturbedAt(front, k);
    }
    if !last.op.UpdateDerived? && DisturbedSinceIndexing(front) {
      var k :| 0 <= k < |front| && DisturbedAt(front, k);
      assert DisturbedAt(steps, k);
    }
  }

  lemma {:induction false} LastIndexedIsStored(steps: seq<Step>)
    ensures Run(steps).Some? == LastIndexed(steps).Some?
    ensures Run(steps).Some? ==> Run(steps).value.lastIndexedAt == LastIndexed(steps).value
  {
    hide Upserted, Pruned, WithSummaries;
    if steps != [] {
      LastIndexedIsStored(steps[..|steps| - 1]);
    }
  }

  lemma RemovalIsSeen(index: seq<Entry>, ids: seq<nat>)
    ensures |Pruned(index, ToSet(ids))| != |index| <==> exists id :: id in ids && id in Ids(index)
  {
    PrunedKeeps(index, ToSet(ids));
    if id :| id in ids && id in Ids(index) {
      var k :| 0 <= k < |index| && Ids(index)[k] == id;
      assert index[k] !in Pruned(index, ToSet(ids));
      assert Pruned(index, ToSet(ids)) != index;
    } else if Pruned(index, ToSet(ids)) != index {
      NothingNamed(index, ToSet(ids));
    }
  }

  lemma {:induction false} NothingNamed(index: seq<Entry>, ids: set<nat>)
    requires Pruned(index, ids) != index
    ensures exists id :: id in ids && id in Ids(index)
  {
    if index != [] {
      var front, last := index[..|index| - 1], index[|index| - 1];
      assert index == front + [last];
      assert forall k :: 0 <= k < |front| ==> Ids(front)[k] == Ids(index)[k];
      if last.id in ids {
        assert Ids(index)[|index| - 1] == last.id;
      } else {
        NothingNamed(front, ids);
        var id :| id in ids && id in Ids(front);
        assert id in Ids(index);
      }
    }
  }

  lemma FlagStep(steps: seq<Step>)
    requires steps != []
    ensures Flagged(Run(steps)) <==>
              || Disturbs(steps[..|steps| - 1], steps[|steps| - 1])
              || (!steps[|steps| - 1].op.UpdateDerived? && Flagged(Run(steps[..|steps| - 1])))
  {
    hide Upserted, Pruned, WithSummaries, OrderRun, LastIndexed;
    var front, last := steps[..|steps| - 1], steps[|steps| - 1];
    IndexAgreesWithMap(front);
    LastIndexedIsStored(front);
    match last.op
    case PatchTask(task) =>
      var index := ListOf(Run(front));
      assert Find(index, task.id) == |index| <==> task.id !in Ids(index) by {
        if Find(index, task.id) < |index| {
          assert Ids(index)[Find(index, task.id)] == task.id;
        }
      }
    case RemoveMany(ids) => RemovalIsSeen(ListOf(Run(front)), ids);
    case _ =>
  }

  /** The exact meaning of `needs_reindex`, over every history. */
  lemma {:induction false} FlagMeansDisturbed(steps: seq<Step>)
    ensures Flagged(Run(steps)) <==> DisturbedSinceIndexing(steps)
  {
    hide Disturbs, Apply, DisturbedSinceIndexing;
    if steps == [] {
      NothingDisturbed();
    } else {
      FlagMeansDisturbed(steps[..|steps| - 1]);
      DisturbedStep(steps);
      FlagStep(steps);
    }
  }

  lemma NothingDisturbed()
    ensures !DisturbedSinceIndexing([])
  {
  }

  /** An undisturbed index lists exactly the tasks of the last derived write, and their number is
      the stored one. */
  lemma {:induction false} UnflaggedIndexIsTheIndexedOne(steps: seq<Step>)
    ensures Run(steps).Some? ==> Run(steps).value.taskCountAtIndex == |IndexedIds(steps)|
    ensures !Flagged(Run(steps)) ==> Ids(ListOf(Run(steps))) == IndexedIds(steps)
    ensures Run(steps).None? ==> IndexedIds(steps) == []
  {
    hide Upserted, Pruned, WithSummaries, MapRun, Find;
    if steps != [] {
      var front, last := steps[..|steps| - 1], steps[|steps| - 1];
      UnflaggedIndexIsTheIndexedOne(front);
      IndexAgreesWithMap(steps);
      IndexAgreesWithMap(front);
      FlagStep(steps);
      if last.op.UpdateDerived? {
        assert |Ids(ListOf(Run(steps)))| == |ListOf(Run(steps))|;
      } else if last.op.RemoveMany? {
        assert Run(steps) == Run(front) || Flagged(Run(steps));
      }
    }
  }

  /** The converse fails: adding a task and deleting it again leaves the flag up. */
  lemma FlagOutlivesAnUndoneChange(task: Task, now: int)
    ensures var c := Run([Step(now, PatchTask(task)), Step(now, RemoveMany([task.id]))]);
            c == Some(Context([], [], true, now, 0))
  {
    var patch, remove := Step(now, PatchTask(task)), Step(now, RemoveMany([task.id]));
    var e := EntryOf(task, None);
    AddToEmpty(task, now);
    RemoveOnly(e, now);
    RunOfTwo(patch, remove);
  }

  lemma AddToEmpty(task: Task, now: int)
    ensures Apply(None, Step(now, PatchTask(task))) == Some(Context([EntryOf(task, None)], [], true, now, 0))
  {
    assert [] + [EntryOf(task, None)] == [EntryOf(task, None)];
  }

  lemma RemoveOnly(e: Entry, now: int)
    ensures Apply(Some(Context([e], [], true, now, 0)), Step(now, RemoveMany([e.id]))) == Some(Context([], [], true, now, 0))
  {
    assert [e][..0] == [] && e.id in ToSet([e.id]);
    assert Pruned([e], ToSet([e.id])) == Pruned([], ToSet([e.id]));
  }

  lemma RunOfTwo(a: Step, b: Step)
    ensures Run([a, b]) == Apply(Apply(None, a), b)
  {
    hide Apply;
    var both := [a, b];
    assert both[..|both| - 1] == [a];
    assert [a][..|[a]| - 1] == [];
    assert Run([a]) == Apply(Run([]), a);
  }

  // ---- The audit log -------------------------------------------------------------------------

  function Decisions(c: Option<Context>): seq<Audit> {
    if c.Some? then c.value.decisions else []
  }

  function AuditOf(s: Step): seq<Audit> {
    match s.op
    case LogDecision(actor, text) => [Decision(s.now, actor, text)]
    case UpdateDerived(actor, _) => [DerivedWrite(s.now, actor)]
    case _ => []
  }

  function AuditTrail(steps: seq<Step>): seq<Audit> {
    if steps == [] then [] else AuditOf(steps[0]) + AuditTrail(steps[1..])
  }

  lemma {:induction false} TrailSnoc(steps: seq<Step>)
    requires steps != []
    ensures AuditTrail(steps) == AuditTrail(steps[..|steps| - 1]) + AuditOf(steps[|steps| - 1])
  {
    if |steps| > 1 {
      TrailSnoc(steps[1..]);
      assert steps[1..][..|steps| - 2] == steps[..|steps| - 1][1..];
    }
  }

  lemma StepAudits(c: Option<Context>, s: Step)
    ensures Decisions(Apply(c, s)) == Decisions(c) + AuditOf(s)
  {
    hide Upserted, Pruned, WithSummaries, Find;
  }

  /** `decisions` is exactly one audit row per decision and derived write, in order, never trimmed. */
  lemma {:induction false} DecisionsAreTheTrail(steps: seq<Step>)
    ensures Decisions(Run(steps)) == AuditTrail(steps)
  {
    hide Apply, AuditOf, Decisions;
    if steps == [] {
      assert Decisions(None) == [] by { NoDecisions(); }
    } else {
      DecisionsAreTheTrail(steps[..|steps| - 1]);
      StepAudits(Run(steps[..|steps| - 1]), steps[|steps| - 1]);
      TrailSnoc(steps);
    }
  }

  lemma NoDecisions()
    ensures Decisions(None) == []
  {
  }

  lemma {:induction false} DecisionsOnlyGrow(steps: seq<Step>, k: nat)
    requires k <= |steps|
    ensures Decisions(Run(steps[..k])) <= Decisions(Run(steps))
  {
    if k < |steps| {
      DecisionsOnlyGrow(steps[..|steps| - 1], k);
      assert steps[..|steps| - 1][..k] == steps[..k];
      DecisionsAreTheTrail(steps);
      DecisionsAreTheTrail(steps[..|steps| - 1]);
      TrailSnoc(steps);
    } else {
      assert steps[..k] == steps;
    }
  }
}
