/** The question table under its service and repository: the repository's statements in order,
    each one shown acceptable to the partial unique index. */
module QuestionBank {
  import opened QuestionOrder
  import opened Sequences
  import opened Text

  datatype Outcome = Done | NotFound | InvalidOptions | ReorderMismatch

  class OnboardingQuestions {
    var rows: Table
    var nextId: nat
    /** The active questions in order, kept only for the proofs. */
    ghost var order: seq<nat>

    ghost predicate Valid()
      reads this
    {
      && Ordered(rows, order)
      && (forall id :: id in rows ==> id < nextId)
    }

    constructor ()
      ensures Valid() && rows == map[] && order == []
    {
      rows, nextId, order := map[], 0, [];
    }

    // ---- The repository ------------------------------------------------------------

    /** UPDATE … SET position = p WHERE id = …; the index must allow it. */
    method SetPosition(id: nat, position: nat)
      requires id in rows && IndexHolds(rows[id := rows[id].(position := Some(position))])
      modifies this`rows
      ensures rows == old(rows)[id := old(rows)[id].(position := Some(position))]
    {
      rows := rows[id := rows[id].(position := Some(position))];
    }

    method FindMaxActivePosition() returns (max: nat)
      requires Valid()
      ensures max == |order|
    {
      max := 0;
      var left := rows.Keys;
      while left != {}
        invariant left <= rows.Keys
        invariant max <= |order|
        invariant forall id :: Active(rows, id) && id !in left ==> Pos(rows, id) <= max
        decreases |left|
      {
        var id :| id in left;
        left := left - {id};
        if rows[id].active && !rows[id].deleted && rows[id].position.Some? {
          assert Active(rows, id);
          if rows[id].position.value > max {
            max := rows[id].position.value;
          }
        }
      }
      if |order| > 0 {
        assert Active(rows, order[|order| - 1]);
      }
    }

    /** The least position still to be listed. */
    method Least(left: set<nat>, ghost list: seq<nat>, ghost k: nat) returns (least: nat)
      requires Sorted(rows, list) && k < |list| && left == ToSet(list[k..])
      ensures least == list[k]
    {
      assert list[k] == list[k..][0] && list[k] in left;
      least :| least in left;
      var todo := left - {least};
      while todo != {}
        invariant todo <= left && least in left
        invariant forall x :: x in left && x !in todo ==> Pos(rows, least) <= Pos(rows, x)
        decreases |todo|
      {
        var x: nat :| x in todo;
        todo := todo - {x};
        if Pos(rows, x) < Pos(rows, least) {
          least := x;
        }
      }
      assert list[k] in left;
      ghost var j :| 0 <= j < |list[k..]| && list[k..][j] == least;
      assert least == list[k + j];
    }

    /** WHERE is_active ORDER BY position, for any table whose active rows have distinct positions. */
    method FindAllActiveOrdered(ghost list: seq<nat>) returns (ids: seq<nat>)
      requires Sorted(rows, list)
      ensures ids == list
    {
      hide Sorted;
      ids := [];
      var left := set id | id in rows && rows[id].active;
      StartOfList(rows, left, list);
      while left != {}
        invariant |ids| <= |list| && ids == list[..|ids|]
        invariant left == ToSet(list[|ids|..])
        decreases |left|
      {
        NextOfList(rows, list, |ids|);
        var least := Least(left, list, |ids|);
        ids := ids + [least];
        left := left - {least};
      }
      EndOfList(list, |ids|);
    }

    /** The loop that writes positions 1, 2, … to the rows of `ids`. */
    method AssignPositions(ids: seq<nat>)
      requires Distinct(ids) && Lists(rows, ids) && AllUnplaced(rows) && Idle(rows)
      modifies this`rows
      ensures Ordered(rows, ids) && Positionless(rows) == Positionless(old(rows)) && rows.Keys == old(rows).Keys
    {
      hide Ordered, Sorted, Renumbered, Positionless, IndexHolds;
      ghost var start := rows;
      assert forall i :: 0 <= i < |ids| ==> Active(rows, ids[i]);
      RenumberingOrders(start, ids);
      RenumberedRows(start, ids);
      NothingRenumbered(start);
      for i := 0 to |ids|
        invariant rows == Renumbered(start, ids[..i])
      {
        RenumberStep(start, ids, i);
        SetPosition(ids[i], i + 1);
      }
      assert ids[..|ids|] == ids;
    }

    /** `list` is the order of the rows still active, gaps and all. */
    method DetachAndCompact(id: nat, ghost list: seq<nat>)
      requires id in rows && !rows[id].active && Idle(rows) && Sorted(rows, list)
      modifies this`rows
      ensures Ordered(rows, list) && Positionless(rows) == Positionless(old(rows)) && rows.Keys == old(rows).Keys
    {
      rows := Cleared(rows, {id});
      assert rows == old(rows);
      var remaining := FindAllActiveOrdered(list);
      rows := Cleared(rows, set x | x in rows && rows[x].active);
      ClearedLists(old(rows), rows, list);
      AssignPositions(remaining);
    }

    method ReorderActive(orderedIds: seq<nat>)
      requires Idle(rows) && Lists(rows, orderedIds) && Distinct(orderedIds)
      modifies this`rows
      ensures Ordered(rows, orderedIds) && Positionless(rows) == Positionless(old(rows)) && rows.Keys == old(rows).Keys
    {
      rows := Cleared(rows, ToSet(orderedIds));
      ReorderCleared(old(rows), rows, orderedIds);
      AssignPositions(orderedIds);
    }

    // ---- The service -----------------------------------------------------------------

    static method AssertOptionsValid(kind: Kind, options: Option<seq<nat>>) returns (ok: bool)
      ensures ok <==> OptionsValid(kind, options)
    {
      if kind.TextKind? {
        return options.None? || |options.value| == 0;
      }
      if options.None? || |options.value| < 2 {
        return false;
      }
      var valueSet: set<nat> := {};
      for i := 0 to |options.value|
        invariant valueSet == ToSet(options.value[..i])
        invariant Distinct(options.value[..i])
      {
        if options.value[i] in valueSet {
          return false;
        }
        valueSet := valueSet + {options.value[i]};
      }
      assert options.value[..|options.value|] == options.value;
      ok := true;
    }

    /** A new active question goes to the end; an inactive one changes no position. */
    method CreateQuestion(kind: Kind, text: nat, options: Option<seq<nat>>, isActive: bool) returns (out: Outcome)
      requires Valid()
      modifies this
      ensures Valid()
      ensures out == if OptionsValid(kind, options) then Done else InvalidOptions
      ensures out != Done ==> rows == old(rows) && order == old(order) && nextId == old(nextId)
      ensures out == Done ==>
                && nextId == old(nextId) + 1
                && order == old(order) + (if isActive then [old(nextId)] else [])
                && rows == old(rows)[old(nextId) := Question(kind, text, if kind.TextKind? then None else options,
                                                             if isActive then Some(|order|) else None, isActive, false)]
    {
      var ok := AssertOptionsValid(kind, options);
      if !ok {
        return InvalidOptions;
      }
      var position := None;
      if isActive {
        var max := FindMaxActivePosition();
        position := Some(max + 1);
        order := order + [nextId];
      }
      rows := rows[nextId := Question(kind, text, if kind.TextKind? then None else options, position, isActive, false)];
      nextId := nextId + 1;
      AddedStaysOrdered(old(rows), old(order), rows, old(nextId), isActive);
      out := Done;
    }

    /** Activation appends; deactivation removes, and the others move up in their order. */
    method SetActive(id: nat, value: bool) returns (out: Outcome)
      requires Valid()
      modifies this
      ensures Valid() && nextId == old(nextId)
      ensures out == if id in old(rows) && !old(rows)[id].deleted then Done else NotFound
      ensures out == NotFound || old(rows)[id].active == value ==> rows == old(rows) && order == old(order)
      ensures out == Done && old(rows)[id].active != value ==>
                && order == (if value then old(order) + [id] else Without(old(order), id))
                && Positionless(rows) == Positionless(old(rows)[id := old(rows)[id].(active := value)])
    {
      hide Ordered, Sorted, Idle, Without;
      if id !in rows || rows[id].deleted {
        return NotFound;
      }
      out := Done;
      if rows[id].active == value {
        return;
      }
      if value {
        var max := FindMaxActivePosition();
        rows := rows[id := rows[id].(position := Some(max + 1), active := true)];
        order := order + [id];
        ActivatedStaysOrdered(old(rows), old(order), rows, id);
        return;
      }
      rows := rows[id := rows[id].(active := false, position := None)];
      order := Without(order, id);
      DetachedIsSorted(old(rows), old(order), rows, id);
      DetachAndCompact(id, order);
      assert rows.Keys == old(rows).Keys;
    }

    method SoftDelete(id: nat) returns (out: Outcome)
      requires Valid()
      modifies this
      ensures Valid() && nextId == old(nextId)
      ensures out == if id in old(rows) && !old(rows)[id].deleted then Done else NotFound
      ensures out == NotFound ==> rows == old(rows) && order == old(order)
      ensures out == Done ==>
                && order == Without(old(order), id)
                && Positionless(rows) == Positionless(old(rows)[id := old(rows)[id].(active := false, deleted := true)])
    {
      hide Ordered, Sorted, Idle, Without;
      if id !in rows || rows[id].deleted {
        return NotFound;
      }
      var wasActive := rows[id].active;
      rows := rows[id := rows[id].(position := None, active := false)];
      rows := rows[id := rows[id].(deleted := true)];
      order := Without(order, id);
      DetachedIsSorted(old(rows), old(order), rows, id);
      if wasActive {
        DetachAndCompact(id, order);
      } else {
        IdleDeletionKeeps(old(rows), old(order), rows, id);
      }
      assert rows.Keys == old(rows).Keys;
      out := Done;
    }

    /** Accepted exactly for a permutation of the active ids, which then is the order. */
    method Reorder(orderedIds: seq<nat>) returns (out: Outcome, listed: seq<nat>)
      requires Valid() && |orderedIds| >= 1
      modifies this
      ensures Valid() && nextId == old(nextId)
      ensures out == if multiset(orderedIds) == multiset(old(order)) then Done else ReorderMismatch
      ensures out == ReorderMismatch ==> rows == old(rows) && order == old(order)
      ensures out == Done ==> order == listed == orderedIds && Positionless(rows) == Positionless(old(rows))
    {
      OrderedIsSorted(rows, order);
      var active := FindAllActiveOrdered(order);
      AcceptsIffPermutation(order, orderedIds);
      listed := [];
      var activeIds, incomingIds := ToSet(active), ToSet(orderedIds);
      var duplicates := |orderedIds| != |incomingIds|;
      var sizeMismatch := |activeIds| != |incomingIds|;
      var coverageMismatch := !sizeMismatch && exists i :: 0 <= i < |orderedIds| && orderedIds[i] !in activeIds;
      if duplicates || sizeMismatch || coverageMismatch {
        return ReorderMismatch, listed;
      }
      AcceptedLists(rows, order, orderedIds);
      ReorderActive(orderedIds);
      order := orderedIds;
      OrderedIsSorted(rows, order);
      listed := FindAllActiveOrdered(order);
      out := Done;
    }

    method ListActive() returns (ids: seq<nat>)
      requires Valid()
      ensures ids == order
    {
      OrderedIsSorted(rows, order);
      ids := FindAllActiveOrdered(order);
    }
  }

  // ---- Listing --------------------------------------------------------------------------

  lemma NothingRenumbered(rows: Table)
    ensures Renumbered(rows, []) == rows
  {
  }

  lemma StartOfList(rows: Table, left: set<nat>, list: seq<nat>)
    requires Sorted(rows, list) && left == set id | id in rows && rows[id].active
    ensures left == ToSet(list[0..])
  {
    assert list[0..] == list;
    assert forall id :: id in left <==> Active(rows, id);
  }

  lemma NextOfList(rows: Table, list: seq<nat>, k: nat)
    requires Sorted(rows, list) && k <= |list| && ToSet(list[k..]) != {}
    ensures k < |list| && ToSet(list[k..]) - {list[k]} == ToSet(list[k + 1..])
    ensures list[k] in ToSet(list[k..]) && list[..k] + [list[k]] == list[..k + 1]
  {
    assert list[k..] == [list[k]] + list[k + 1..];
    assert list[k] !in list[k + 1..];
  }

  lemma EndOfList(list: seq<nat>, k: nat)
    requires k <= |list|
    ensures ToSet(list[k..]) == {} ==> list[..k] == list
  {
    if k < |list| {
      assert list[k..][0] in ToSet(list[k..]);
    } else {
      assert list[..k] == list;
    }
  }

  // ---- What the statements do to the order ------------------------------------------------

  lemma ClearedLists(before: Table, after: Table, list: seq<nat>)
    requires Idle(before) && Sorted(before, list)
    requires after == Cleared(before, set x | x in before && before[x].active)
    ensures Distinct(list) && Lists(after, list) && AllUnplaced(after) && Idle(after)
    ensures Positionless(after) == Positionless(before)
  {
    forall id ensures Active(after, id) <==> id in list {
      assert Active(before, id) <==> id in list;
    }
  }

  lemma ReorderCleared(before: Table, after: Table, ids: seq<nat>)
    requires Idle(before) && Lists(before, ids) && after == Cleared(before, ToSet(ids))
    ensures Lists(after, ids) && AllUnplaced(after) && Idle(after)
    ensures Positionless(after) == Positionless(before)
  {
    forall id ensures Active(after, id) <==> id in ids {
      assert Active(before, id) <==> id in ids;
    }
    forall id | id in after ensures after[id].position == None {
      assert Active(before, id) <==> id in ids;
    }
  }

  lemma AddedStaysOrdered(before: Table, order: seq<nat>, after: Table, id: nat, isActive: bool)
    requires Ordered(before, order) && id !in before
    requires after.Keys == before.Keys + {id} && forall x :: x in before ==> after[x] == before[x]
    requires after[id].active == isActive && !after[id].deleted
    requires after[id].position == if isActive then Some(|order| + 1) else None
    ensures Ordered(after, order + if isActive then [id] else [])
  {
    assert id !in order by { assert !Active(before, id); }
    var order' := order + if isActive then [id] else [];
    forall x ensures Active(after, x) <==> x in order' {
      assert Active(before, x) <==> x in order;
    }
    assert forall i :: 0 <= i < |order| ==> Active(before, order[i]);
  }

  lemma ActivatedStaysOrdered(before: Table, order: seq<nat>, after: Table, id: nat)
    requires Ordered(before, order) && id in before && !before[id].active && !before[id].deleted
    requires after == before[id := before[id].(position := Some(|order| + 1), active := true)]
    ensures Ordered(after, order + [id])
    ensures Positionless(after) == Positionless(before[id := before[id].(active := true)])
  {
    assert id !in order by { assert !Active(before, id); }
    forall x ensures Active(after, x) <==> x in order + [id] {
      assert Active(before, x) <==> x in order;
    }
    assert forall i :: 0 <= i < |order| ==> Active(before, order[i]);
  }

  lemma DetachedIsSorted(before: Table, order: seq<nat>, after: Table, id: nat)
    requires Ordered(before, order) && id in before
    requires after.Keys == before.Keys && forall x :: x in before && x != id ==> after[x] == before[x]
    requires !after[id].active && after[id].position == None
    ensures Idle(after) && Sorted(after, Without(order, id))
  {
    WithoutIs(order, id);
    WithoutAscends(before, order, id);
    var rest := Without(order, id);
    forall x ensures Active(after, x) <==> x in rest {
      assert Active(before, x) <==> x in order;
    }
    forall i | 0 <= i < |rest| ensures Pos(after, rest[i]) == Pos(before, rest[i]) {
      assert rest[i] in rest;
    }
  }

  lemma IdleDeletionKeeps(before: Table, order: seq<nat>, after: Table, id: nat)
    requires Ordered(before, order) && id in before && !before[id].active
    requires after == before[id := before[id].(position := None, active := false, deleted := true)]
    ensures Without(order, id) == order && Ordered(after, order)
  {
    WithoutIs(order, id);
    assert !Active(before, id);
    forall x ensures Active(after, x) <==> x in order {
      assert Active(before, x) <==> x in order;
    }
  }

  lemma AcceptedLists(rows: Table, order: seq<nat>, ids: seq<nat>)
    requires Ordered(rows, order) && multiset(ids) == multiset(order)
    ensures Lists(rows, ids) && Distinct(ids)
  {
    AcceptsIffPermutation(order, ids);
    SetSize(ids);
    forall x ensures Active(rows, x) <==> x in ids {
      assert x in ids <==> x in multiset(ids);
      assert x in order <==> x in multiset(order);
      assert Active(rows, x) <==> x in order;
    }
  }
}
