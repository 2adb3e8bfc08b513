/** The ai-context row of one project as the service and the housekeeping sweep update it in place. */
module ProjectAiContextService {
  import opened Sequences
  import opened TaskIndex
  import opened Text

  class ProjectAiContext {
    var present: bool
    var taskIndex: seq<Entry>
    var decisions: seq<Audit>
    var needsReindex: bool
    var lastIndexedAt: int
    var taskCountAtIndex: nat

    function State(): Option<Context>
      reads this
    {
      if present then Some(Context(taskIndex, decisions, needsReindex, lastIndexedAt, taskCountAtIndex)) else None
    }

    constructor ()
      ensures State() == None
    {
      present := false;
      taskIndex, decisions := [], [];
      needsReindex, lastIndexedAt, taskCountAtIndex := false, 0, 0;
    }

    method EnsureExists(now: int)
      modifies this
      ensures State() == Apply(old(State()), Step(now, TaskIndex.EnsureExists))
    {
      if present {
        return;
      }
      present := true;
      taskIndex, decisions := [], [];
      needsReindex, lastIndexedAt, taskCountAtIndex := false, now, 0;
    }

    method FindTask(id: nat) returns (i: nat)
      ensures i == Find(taskIndex, id)
    {
      i := 0;
      while i < |taskIndex| && taskIndex[i].id != id
        invariant i <= |taskIndex|
        invariant forall j :: 0 <= j < i ==> taskIndex[j].id != id
      {
        i := i + 1;
      }
    }

    method PatchTaskInIndex(task: Task, now: int)
      modifies this
      ensures State() == Apply(old(State()), Step(now, PatchTask(task)))
    {
      EnsureExists(now);
      var i := FindTask(task.id);
      if i < |taskIndex| {
        taskIndex := taskIndex[i := EntryOf(task, taskIndex[i].summary)];
      } else {
        taskIndex := taskIndex + [EntryOf(task, None)];
        needsReindex := true;
      }
    }

    method RemoveManyFromIndex(ids: seq<nat>, now: int)
      modifies this
      ensures State() == Apply(old(State()), Step(now, RemoveMany(ids)))
    {
      hide Find, SummaryMap, WithSummaries;
      PrunedKeeps(taskIndex, ToSet(ids));
      if |ids| == 0 {
        assert forall e :: e in taskIndex ==> e.id !in ToSet(ids);
        AllStay(taskIndex, ToSet(ids));
        return;
      }
      if !present {
        return;
      }
      var removeSet := ToSet(ids);
      var kept: seq<Entry> := [];
      for i := 0 to |taskIndex|
        invariant kept == Pruned(taskIndex[..i], removeSet)
      {
        assert taskIndex[..i + 1][..i] == taskIndex[..i];
        if taskIndex[i].id !in removeSet {
          kept := kept + [taskIndex[i]];
        }
      }
      assert taskIndex[..|taskIndex|] == taskIndex;
      if |kept| == |taskIndex| {
        return;
      }
      taskIndex, needsReindex := kept, true;
    }

    method RecordDecision(actor: nat, text: nat, now: int)
      modifies this
      ensures State() == Apply(old(State()), Step(now, LogDecision(actor, text)))
    {
      EnsureExists(now);
      decisions := decisions + [Decision(now, actor, text)];
    }

    static method BuildMap(patches: seq<SummaryPatch>) returns (m: map<nat, nat>)
      ensures m == SummaryMap(patches)
    {
      m := map[];
      for i := 0 to |patches|
        invariant m == SummaryMap(patches[..i])
      {
        assert patches[..i + 1][..i] == patches[..i];
        m := m[patches[i].taskId := patches[i].summary];
      }
      assert patches[..|patches|] == patches;
    }

    static method Summarise(index: seq<Entry>, summaryByTaskId: map<nat, nat>) returns (mapped: seq<Entry>)
      ensures mapped == WithSummaries(index, summaryByTaskId)
    {
      mapped := [];
      for i := 0 to |index|
        invariant mapped == WithSummaries(index[..i], summaryByTaskId)
      {
        assert index[..i + 1][..i] == index[..i];
        mapped := mapped + [Summarised(index[i], summaryByTaskId)];
      }
      assert index[..|index|] == index;
    }

    method WriteDerived(actor: nat, patches: seq<SummaryPatch>, now: int)
      modifies this
      ensures State() == Apply(old(State()), Step(now, UpdateDerived(actor, patches)))
    {
      hide Find, Pruned, WithSummaries, SummaryMap;
      EnsureExists(now);
      if |patches| > 0 {
        var summaryByTaskId := BuildMap(patches);
        taskIndex := Summarise(taskIndex, summaryByTaskId);
      } else {
        NoSummaries(taskIndex, patches);
      }
      decisions := decisions + [DerivedWrite(now, actor)];
      needsReindex := false;
      lastIndexedAt := now;
      taskCountAtIndex := |taskIndex|;
    }

    /** The flag `aiSyncSkills` raises after replacing the project's skills. */
    method FlagAfterSkillSync(now: int)
      modifies this
      ensures State() == Apply(old(State()), Step(now, SkillsReplaced))
    {
      EnsureExists(now);
      needsReindex := true;
    }

    /** This row's part of the bulk staleness UPDATE. */
    method Sweep(now: int)
      modifies this
      ensures State() == Apply(old(State()), Step(now, FlagStale))
    {
      if present && !needsReindex && lastIndexedAt < now - STALENESS_MS {
        needsReindex := true;
      }
    }
  }

  lemma NoSummaries(index: seq<Entry>, patches: seq<SummaryPatch>)
    requires |patches| == 0
    ensures WithSummaries(index, SummaryMap(patches)) == index
  {
  }

  lemma {:induction false} AllStay(index: seq<Entry>, ids: set<nat>)
    requires forall e :: e in index ==> e.id !in ids
    ensures Pruned(index, ids) == index
  {
    if index != [] {
      AllStay(index[..|index| - 1], ids);
    }
  }
}
