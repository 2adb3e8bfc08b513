/** The question bank under overlapping transactions. Each one reads the active questions and writes
    positions computed from them; nothing locks what it read, so other transactions may commit in
    between. The statements of the writing part are one step here. */
module QuestionOverlaps {
  import opened QuestionOrder
  import opened Sequences
  import opened Text

  /** What a transaction decided to write, from the rows it read; `seen` is history. */
  datatype Call =
    | Adding(max: nat, seen: Table)
    | Activating(id: nat, max: nat, seen: Table)
    | Removing(id: nat, deletes: bool, remaining: seq<nat>, seen: Table)
    | DeletingIdle(id: nat, seen: Table)
    | Reordering(ids: seq<nat>, seen: Table)

  datatype World = World(rows: Table, calls: map<nat, Call>)

  datatype Event =
    | BeginAdd(c: nat, max: nat)
    | BeginActivate(c: nat, id: nat, max: nat)
    | BeginRemove(c: nat, id: nat, deletes: bool, remaining: seq<nat>)
    | BeginDeleteIdle(c: nat, id: nat)
    | BeginReorder(c: nat, ids: seq<nat>)
    | Write(c: nat, newId: nat)
    | AddInactive(newId: nat)
    | Drop(c: nat)

  /** SELECT MAX(position) over the active rows, 0 when there is none. */
  ghost predicate IsMax(rows: Table, max: nat) {
    && (forall id :: Active(rows, id) ==> Pos(rows, id) <= max)
    && (max > 0 ==> exists id :: Active(rows, id) && Pos(rows, id) == max)
  }

  /** The active rows but `id`, in the order of their positions. */
  ghost predicate Remaining(rows: Table, id: nat, list: seq<nat>) {
    && Distinct(list)
    && (forall x :: x in list <==> Active(rows, x) && x != id)
    && (forall i, j :: 0 <= i < j < |list| ==> Pos(rows, list[i]) <= Pos(rows, list[j]))
  }

  predicate NotDeleted(rows: Table, id: nat) {
    id in rows && !rows[id].deleted
  }

  ghost predicate Enabled(w: World, e: Event) {
    match e
    case BeginAdd(c, max) => c !in w.calls && IsMax(w.rows, max)
    case BeginActivate(c, id, max) => c !in w.calls && NotDeleted(w.rows, id) && !w.rows[id].active && IsMax(w.rows, max)
    case BeginRemove(c, id, _, list) => c !in w.calls && NotDeleted(w.rows, id) && w.rows[id].active && Remaining(w.rows, id, list)
    case BeginDeleteIdle(c, id) => c !in w.calls && NotDeleted(w.rows, id) && !w.rows[id].active
    case BeginReorder(c, ids) => c !in w.calls && Distinct(ids) && Lists(w.rows, ids)
    case Write(c, newId) => c in w.calls && newId !in w.rows && RowsThere(w.calls[c], w.rows)
    case AddInactive(newId) => newId !in w.rows
    case Drop(c) => c in w.calls
  }

  /** Rows are never removed. */
  predicate RowsThere(call: Call, rows: Table) {
    match call
    case Adding(_, _) => true
    case Activating(id, _, _) => id in rows
    case Removing(id, _, remaining, _) => id in rows && id !in remaining && forall i :: 0 <= i < |remaining| ==> remaining[i] in rows
    case DeletingIdle(id, _) => id in rows
    case Reordering(ids, _) => forall i :: 0 <= i < |ids| ==> ids[i] in rows
  }

  function Inactive(): Question {
    Question(TextKind, 0, None, None, false, false)
  }

  function ActiveAt(position: nat): Question {
    Question(TextKind, 0, None, Some(position), true, false)
  }

  function ActiveRows(rows: Table): set<nat> {
    set x | x in rows && rows[x].active
  }

  /** The rows after the transaction's UPDATEs, were the unique index to allow them. */
  function Wanted(rows: Table, call: Call, newId: nat): Table
    requires RowsThere(call, rows)
  {
    match call
    case Adding(max, _) => rows[newId := ActiveAt(max + 1)]
    case Activating(id, max, _) => rows[id := rows[id].(position := Some(max + 1), active := true)]
    case Removing(id, deletes, remaining, _) => Renumbered(AfterLeaving(rows, id, deletes), remaining)
    case DeletingIdle(id, _) => Gone(rows, id)
    case Reordering(ids, _) => Renumbered(Cleared(rows, ToSet(ids)), ids)
  }

  /** The row leaves, and every row still active loses its position. */
  function AfterLeaving(rows: Table, id: nat, deletes: bool): (r: Table)
    requires id in rows
    ensures r.Keys == rows.Keys
  {
    var left := rows[id := rows[id].(position := None, active := false, deleted := rows[id].deleted || deletes)];
    Cleared(left, ActiveRows(left))
  }

  /** A violation of the unique index rolls the transaction back. */
  ghost function Written(rows: Table, call: Call, newId: nat): Table
    requires RowsThere(call, rows)
  {
    if IndexHolds(Wanted(rows, call, newId)) then Wanted(rows, call, newId) else rows
  }

  ghost predicate WellOrdered(rows: Table) {
    exists list :: Ordered(rows, list)
  }

  /** No two active, undeleted questions share a position. */
  ghost predicate Acceptable(rows: Table) {
    forall a: nat, b: nat ::
      (&& a in rows && b in rows && rows[a].active && rows[b].active && !rows[a].deleted && !rows[b].deleted
       && rows[a].position != None && rows[a].position == rows[b].position) ==> a == b
  }

  /** `after` differs from `rows` at `id` only, where position, activity and deletion are as given. */
  ghost predicate OnlyRow(rows: Table, after: Table, id: nat, position: Option<nat>, active: bool, deleted: bool) {
    && id in rows && after.Keys == rows.Keys
    && after[id] == Question(rows[id].kind, rows[id].text, rows[id].options, position, active, deleted)
    && (forall x :: x in rows && x != id ==> after[x] == rows[x])
  }

  /** `after` has the listed rows at 1, 2, 3, … and takes every position away from the rows of `loses`. */
  ghost predicate Placed(rows: Table, after: Table, list: seq<nat>, loses: set<nat>) {
    && after.Keys == rows.Keys
    && (forall i :: 0 <= i < |list| ==> list[i] in rows && after[list[i]] == rows[list[i]].(position := Some(i + 1)))
    && (forall x :: x in rows && x !in list ==> after[x] == if x in loses then rows[x].(position := None) else rows[x])
  }

  /** The rows a write wants, in columns. */
  ghost predicate Describes(rows: Table, call: Call, newId: nat, wanted: Table)
    requires RowsThere(call, rows)
  {
    match call
    case Adding(max, _) =>
      newId in wanted && wanted == rows[newId := wanted[newId]] && wanted[newId].active && !wanted[newId].deleted
      && wanted[newId].position == Some(max + 1)
    case Activating(id, max, _) => OnlyRow(rows, wanted, id, Some(max + 1), true, rows[id].deleted)
    case DeletingIdle(id, _) => OnlyRow(rows, wanted, id, None, false, true)
    case Removing(id, deletes, remaining, _) =>
      Placed(rows[id := rows[id].(position := None, active := false, deleted := rows[id].deleted || deletes)],
             wanted, remaining, set x | x in rows && rows[x].active)
    case Reordering(ids, _) => Placed(rows, wanted, ids, {})
  }

  lemma RemovalInColumns(rows: Table, id: nat, deletes: bool, remaining: seq<nat>, seen: Table, newId: nat)
    requires RowsThere(Removing(id, deletes, remaining, seen), rows) && Distinct(remaining)
    ensures var call := Removing(id, deletes, remaining, seen); Describes(rows, call, newId, Wanted(rows, call, newId))
  {
    hide Renumbered;
    RenumberedRows(AfterLeaving(rows, id, deletes), remaining);
  }

  lemma ReorderInColumns(rows: Table, ids: seq<nat>, seen: Table, newId: nat)
    requires RowsThere(Reordering(ids, seen), rows) && Distinct(ids)
    ensures var call := Reordering(ids, seen); Describes(rows, call, newId, Wanted(rows, call, newId))
  {
    hide Renumbered;
    RenumberedRows(Cleared(rows, ToSet(ids)), ids);
  }

  lemma RowInColumns(rows: Table, call: Call, newId: nat)
    requires RowsThere(call, rows) && newId !in rows && !call.Removing? && !call.Reordering?
    ensures Describes(rows, call, newId, Wanted(rows, call, newId))
  {
  }

  /** What each write does to the rows as it finds them, whatever has been committed since its reading,
      and that it is rolled back exactly when two questions would share a position. */
  lemma WriteInColumns(rows: Table, call: Call, newId: nat)
    requires RowsThere(call, rows) && newId !in rows && Distinctly(call)
    ensures Describes(rows, call, newId, Wanted(rows, call, newId))
    ensures Written(rows, call, newId) == if Acceptable(Wanted(rows, call, newId)) then Wanted(rows, call, newId) else rows
  {
    hide Wanted, Describes, Acceptable, IndexHolds;
    AcceptableIsIndexed(Wanted(rows, call, newId));
    match call
    case Removing(id, deletes, remaining, seen) => RemovalInColumns(rows, id, deletes, remaining, seen, newId);
    case Reordering(ids, seen) => ReorderInColumns(rows, ids, seen, newId);
    case _ => RowInColumns(rows, call, newId);
  }

  lemma AcceptableIsIndexed(rows: Table)
    ensures IndexHolds(rows) <==> Acceptable(rows)
  {
    if IndexHolds(rows) {
      forall a: nat, b: nat | a in rows && b in rows && rows[a].active && rows[b].active && !rows[a].deleted && !rows[b].deleted
                              && rows[a].position != None && rows[a].position == rows[b].position ensures a == b {
        assert IndexedAt(rows, a) && IndexedAt(rows, b);
      }
    }
  }

  // ---- What a write must still find ------------------------------------------------------------

  predicate ListsOthers(rows: Table, id: nat, remaining: seq<nat>) {
    && (forall i :: 0 <= i < |remaining| ==> Active(rows, remaining[i]))
    && (forall x :: x in rows && rows[x].active && x != id ==> x in remaining)
  }

  predicate AllActive(rows: Table, ids: seq<nat>) {
    forall i :: 0 <= i < |ids| ==> Active(rows, ids[i])
  }

  /** A question outside the list sits where a listed, active one is about to be put. */
  predicate Clash(rows: Table, ids: seq<nat>, x: nat, i: nat) {
    i < |ids| && Active(rows, x) && x !in ids && Active(rows, ids[i]) && Pos(rows, x) == i + 1
  }

  ghost predicate Clashes(rows: Table, ids: seq<nat>) {
    exists x, i :: Clash(rows, ids, x, i)
  }

  /** Adding: no question has left since. Activating: nor has this one been deleted, or activated at
      the end. Removing: the active questions but this one are those it read. Deleting an inactive one:
      it is still inactive, or now the last. Reordering: everything listed is still active, or the
      index will notice. */
  ghost predicate StillGood(rows: Table, order: seq<nat>, call: Call)
    requires RowsThere(call, rows)
  {
    match call
    case Adding(max, _) => max <= |order|
    case Activating(id, max, _) => !rows[id].deleted && (max < |order| || (max == |order| && !rows[id].active))
    case Removing(id, _, remaining, _) => ListsOthers(rows, id, remaining)
    case DeletingIdle(id, _) => !rows[id].active || (order != [] && order[|order| - 1] == id)
    case Reordering(ids, _) => AllActive(rows, ids) || Clashes(rows, ids)
  }

  lemma OrderedActive(rows: Table, order: seq<nat>)
    requires Ordered(rows, order)
    ensures forall i :: 0 <= i < |order| ==> Active(rows, order[i]) && rows[order[i]].position == Some(i + 1) && !rows[order[i]].deleted
    ensures forall x :: Active(rows, x) ==> 1 <= Pos(rows, x) <= |order| && order[Pos(rows, x) - 1] == x
  {
    forall i | 0 <= i < |order| ensures Active(rows, order[i]) {
      assert order[i] in order;
    }
  }

  predicate WellPlaced(q: Question) {
    if q.active then q.position.Some? && !q.deleted else q.position == None
  }

  lemma OrderedRows(rows: Table, list: seq<nat>)
    requires Ordered(rows, list)
    ensures forall x :: x in rows ==> WellPlaced(rows[x])
  {
    forall x | x in rows ensures WellPlaced(rows[x]) {
      assert Active(rows, x) <==> x in list;
    }
  }

  /** A table with a misplaced row is not in order. */
  lemma OutOfOrder(rows: Table, x: nat)
    requires x in rows && !WellPlaced(rows[x])
    ensures !WellOrdered(rows)
  {
    if list :| Ordered(rows, list) {
      OrderedRows(rows, list);
    }
  }

  lemma PositionsBelow(rows: Table, list: seq<nat>, x: nat, p: nat)
    requires Ordered(rows, list) && Active(rows, x) && 1 <= p < Pos(rows, x)
    ensures exists y :: Active(rows, y) && Pos(rows, y) == p
  {
    OrderedActive(rows, list);
    assert Active(rows, list[p - 1]) && Pos(rows, list[p - 1]) == p;
  }

  /** Nor is one with a position in use above an unused one. */
  lemma Gap(rows: Table, x: nat, p: nat)
    requires Active(rows, x) && 1 <= p < Pos(rows, x)
    requires forall y :: Active(rows, y) ==> Pos(rows, y) != p
    ensures !WellOrdered(rows)
  {
    if list :| Ordered(rows, list) {
      PositionsBelow(rows, list, x, p);
    }
  }

  lemma WellOrderedBy(rows: Table, list: seq<nat>)
    requires Ordered(rows, list)
    ensures WellOrdered(rows) && IndexHolds(rows)
  {
    OrderedIsSorted(rows, list);
  }

  // ---- One write, exactly --------------------------------------------------------------------------

  lemma AddExactly(rows: Table, order: seq<nat>, max: nat, seen: Table, newId: nat)
    requires Ordered(rows, order) && newId !in rows
    ensures WellOrdered(Written(rows, Adding(max, seen), newId)) <==> max <= |order|
  {
    var after := rows[newId := ActiveAt(max + 1)];
    WellOrderedBy(rows, order);
    OrderedActive(rows, order);
    if max < |order| {
      assert IndexedAt(after, order[max]) && IndexedAt(after, newId) && order[max] != newId;
    } else if max == |order| {
      JoinsTheEnd(rows, order, after, newId);
    } else {
      PushedOut(rows, order, after, newId);
    }
  }

  /** One more active row at position N + 1. */
  lemma JoinsTheEnd(rows: Table, order: seq<nat>, after: Table, id: nat)
    requires Ordered(rows, order) && !Active(rows, id) && id in after
    requires after == rows[id := after[id]] && after[id].active && !after[id].deleted && after[id].position == Some(|order| + 1)
    ensures WellOrdered(after) && IndexHolds(after)
  {
    OrderedActive(rows, order);
    assert id !in order;
    var list := order + [id];
    forall x ensures Active(after, x) <==> x in list {
      assert Active(rows, x) <==> x in order;
    }
    assert Ordered(after, list);
    WellOrderedBy(after, list);
  }

  lemma ActivateExactly(rows: Table, order: seq<nat>, id: nat, max: nat, seen: Table, newId: nat)
    requires Ordered(rows, order) && id in rows
    ensures WellOrdered(Written(rows, Activating(id, max, seen), newId))
       <==> !rows[id].deleted && (max < |order| || (max == |order| && !rows[id].active))
  {
    var after := rows[id := rows[id].(position := Some(max + 1), active := true)];
    WellOrderedBy(rows, order);
    OrderedActive(rows, order);
    if rows[id].deleted {
      DeletedActivation(rows, order, after, id);
      OutOfOrder(after, id);
    } else if max < |order| {
      if order[max] == id {
        assert after == rows;
      } else {
        assert IndexedAt(after, order[max]) && IndexedAt(after, id);
      }
    } else if max == |order| && !rows[id].active {
      JoinsTheEnd(rows, order, after, id);
    } else {
      PushedOut(rows, order, after, id);
    }
  }

  /** The index does not see a deleted row. */
  lemma DeletedActivation(rows: Table, order: seq<nat>, after: Table, id: nat)
    requires Ordered(rows, order) && id in rows && rows[id].deleted
    requires id in after && after == rows[id := after[id]] && after[id].deleted
    ensures IndexHolds(after)
  {
    OrderedIsSorted(rows, order);
    assert forall x :: IndexedAt(after, x) ==> IndexedAt(rows, x) && after[x] == rows[x];
  }

  /** A row put beyond N + 1, or one of the listed put beyond N, leaves a gap. */
  lemma PushedOut(rows: Table, order: seq<nat>, after: Table, id: nat)
    requires Ordered(rows, order) && id in after && after == rows[id := after[id]]
    requires after[id].active && !after[id].deleted && after[id].position.Some?
    requires Pos(after, id) > |order| && (Active(rows, id) || Pos(after, id) > |order| + 1)
    ensures !WellOrdered(after) && IndexHolds(after)
  {
    OrderedActive(rows, order);
    OrderedIsSorted(rows, order);
    var p := if Active(rows, id) then Pos(rows, id) else |order| + 1;
    forall y | Active(after, y) ensures Pos(after, y) != p {
      assert y != id ==> Active(rows, y);
    }
    assert Active(after, id);
    Gap(after, id, p);
    forall a, b | IndexedAt(after, a) && IndexedAt(after, b) && after[a].position == after[b].position ensures a == b {
      assert a != id ==> Active(rows, a);
      assert b != id ==> Active(rows, b);
      assert a != id && b != id ==> IndexedAt(rows, a) && IndexedAt(rows, b);
    }
  }

  lemma LeavingTable(rows: Table, order: seq<nat>, id: nat, deletes: bool)
    requires Ordered(rows, order) && id in rows
    ensures var left := AfterLeaving(rows, id, deletes);
            && AllUnplaced(left) && Idle(left)
            && forall x :: Active(left, x) <==> Active(rows, x) && x != id
  {
    OrderedRows(rows, order);
  }

  lemma RemoveExactly(rows: Table, order: seq<nat>, id: nat, deletes: bool, remaining: seq<nat>, seen: Table, newId: nat)
    requires Ordered(rows, order) && Distinct(remaining) && RowsThere(Removing(id, deletes, remaining, seen), rows)
    ensures WellOrdered(Written(rows, Removing(id, deletes, remaining, seen), newId)) <==> ListsOthers(rows, id, remaining)
  {
    hide Renumbered, Ordered, AfterLeaving;
    var left := AfterLeaving(rows, id, deletes);
    var after := Renumbered(left, remaining);
    LeavingTable(rows, order, id, deletes);
    RenumberedRows(left, remaining);
    RenumberingIsIndexed(left, remaining);
    if ListsOthers(rows, id, remaining) {
      assert Lists(left, remaining);
      RenumberingOrders(left, remaining);
      WellOrderedBy(after, remaining);
    } else if i :| 0 <= i < |remaining| && !Active(rows, remaining[i]) {
      assert !Active(left, remaining[i]);
      OutOfOrder(after, remaining[i]);
    } else {
      var x :| x in rows && rows[x].active && x != id && x !in remaining;
      assert Active(left, x);
      OutOfOrder(after, x);
    }
  }

  lemma DeleteIdleExactly(rows: Table, order: seq<nat>, id: nat, seen: Table, newId: nat)
    requires Ordered(rows, order) && id in rows
    ensures WellOrdered(Written(rows, DeletingIdle(id, seen), newId))
       <==> !rows[id].active || (order != [] && order[|order| - 1] == id)
  {
    hide Ordered, WellOrdered;
    WellOrderedBy(rows, order);
    GoneIsIndexed(rows, id);
    if !rows[id].active {
      IdleLeaves(rows, order, Gone(rows, id), id);
    } else if order != [] && order[|order| - 1] == id {
      LastLeaves(rows, order, Gone(rows, id), id);
    } else {
      MiddleLeaves(rows, order, Gone(rows, id), id);
    }
  }

  function Gone(rows: Table, id: nat): Table
    requires id in rows
  {
    rows[id := rows[id].(position := None, active := false, deleted := true)]
  }

  lemma GoneIsIndexed(rows: Table, id: nat)
    requires id in rows && IndexHolds(rows)
    ensures IndexHolds(Gone(rows, id))
  {
    assert forall x :: IndexedAt(Gone(rows, id), x) ==> IndexedAt(rows, x) && Gone(rows, id)[x] == rows[x];
  }

  lemma IdleLeaves(rows: Table, order: seq<nat>, after: Table, id: nat)
    requires Ordered(rows, order) && id in rows && !rows[id].active && after == Gone(rows, id)
    ensures WellOrdered(after)
  {
    assert !Active(rows, id) && id !in order;
    forall x ensures Active(after, x) <==> x in order {
      assert Active(rows, x) <==> x in order;
    }
    assert Ordered(after, order);
  }

  lemma MiddleLeaves(rows: Table, order: seq<nat>, after: Table, id: nat)
    requires Ordered(rows, order) && id in rows && rows[id].active && after == Gone(rows, id)
    requires order == [] || order[|order| - 1] != id
    ensures !WellOrdered(after)
  {
    OrderedActive(rows, order);
    assert Active(rows, id);
    var p, last := Pos(rows, id), order[|order| - 1];
    assert Active(rows, last) && last != id;
    forall y | Active(after, y) ensures Pos(after, y) != p {
      assert Active(rows, y) && y != id;
    }
    Gap(after, last, p);
  }

  lemma LastLeaves(rows: Table, order: seq<nat>, after: Table, id: nat)
    requires Ordered(rows, order) && order != [] && order[|order| - 1] == id && id in rows
    requires after == Gone(rows, id)
    ensures WellOrdered(after)
  {
    var front := order[..|order| - 1];
    assert order == front + [id];
    forall x ensures Active(after, x) <==> x in front {
      assert Active(rows, x) <==> x in order;
    }
    assert Ordered(after, front);
  }

  // ---- Reordering ----------------------------------------------------------------------------------

  lemma ReorderedRows(rows: Table, order: seq<nat>, ids: seq<nat>)
    requires Ordered(rows, order) && Distinct(ids) && forall i :: 0 <= i < |ids| ==> ids[i] in rows
    ensures var after := Renumbered(Cleared(rows, ToSet(ids)), ids);
            && after.Keys == rows.Keys
            && (forall i :: 0 <= i < |ids| ==> after[ids[i]] == rows[ids[i]].(position := Some(i + 1)))
            && (forall x :: x in rows && x !in ids ==> after[x] == rows[x])
            && (forall x :: Active(after, x) <==> Active(rows, x))
  {
    hide Renumbered;
    RenumberedRows(Cleared(rows, ToSet(ids)), ids);
    var after := Renumbered(Cleared(rows, ToSet(ids)), ids);
    forall x ensures Active(after, x) <==> Active(rows, x) {
      if x in ids {
        var i :| 0 <= i < |ids| && ids[i] == x;
      }
    }
  }

  /** The unique index refuses the new positions exactly when they clash with a question left out. */
  lemma ClashExactly(rows: Table, order: seq<nat>, ids: seq<nat>)
    requires Ordered(rows, order) && Distinct(ids) && forall i :: 0 <= i < |ids| ==> ids[i] in rows
    ensures IndexHolds(Renumbered(Cleared(rows, ToSet(ids)), ids)) <==> !Clashes(rows, ids)
  {
    hide Renumbered, Ordered;
    var after := Renumbered(Cleared(rows, ToSet(ids)), ids);
    ReorderedRows(rows, order, ids);
    OrderedActive(rows, order);
    OrderedRows(rows, order);
    if x: nat, i: nat :| Clash(rows, ids, x, i) {
      assert IndexedAt(after, x) && IndexedAt(after, ids[i]) && x != ids[i];
    }
    if !Clashes(rows, ids) {
      forall a, b | IndexedAt(after, a) && IndexedAt(after, b) && after[a].position == after[b].position ensures a == b {
        SamePlace(rows, order, ids, after, a, b);
      }
    }
  }

  lemma NoClashAt(rows: Table, ids: seq<nat>, x: nat, i: nat)
    requires !Clashes(rows, ids) && i < |ids| && Active(rows, x) && x !in ids && Active(rows, ids[i])
    ensures Pos(rows, x) != i + 1
  {
    assert !Clash(rows, ids, x, i);
  }

  lemma SamePlace(rows: Table, order: seq<nat>, ids: seq<nat>, after: Table, a: nat, b: nat)
    requires Ordered(rows, order) && Distinct(ids) && (forall i :: 0 <= i < |ids| ==> ids[i] in rows) && !Clashes(rows, ids)
    requires after == Renumbered(Cleared(rows, ToSet(ids)), ids)
    requires IndexedAt(after, a) && IndexedAt(after, b) && after[a].position == after[b].position
    ensures a == b
  {
    hide Renumbered, Cleared, Clashes, Ordered, Distinct;
    ReorderedRows(rows, order, ids);
    OrderedActive(rows, order);
    assert Active(rows, a) && Active(rows, b) by { assert Active(after, a) && Active(after, b); }
    if a in ids {
      var i :| 0 <= i < |ids| && ids[i] == a;
      if b in ids {
        var j :| 0 <= j < |ids| && ids[j] == b;
      } else {
        NoClashAt(rows, ids, b, i);
      }
    } else if b in ids {
      var j :| 0 <= j < |ids| && ids[j] == b;
      NoClashAt(rows, ids, a, j);
    }
  }

  /** Everything listed is active and nothing clashes: the others sit just beyond the list. */
  lemma RestFollows(rows: Table, order: seq<nat>, ids: seq<nat>)
    requires Ordered(rows, order) && Distinct(ids) && AllActive(rows, ids) && !Clashes(rows, ids)
    ensures |ids| <= |order| && ToSet(order[..|ids|]) == ToSet(ids)
    ensures forall k :: |ids| <= k < |order| ==> order[k] !in ids
  {
    OrderedActive(rows, order);
    assert forall x :: x in ids ==> x in order by {
      assert forall x :: x in ids ==> Active(rows, x);
    }
    SetSize(ids);
    SetSize(order);
    SubsetSize(ToSet(ids), ToSet(order));
    var front := order[..|ids|];
    forall k | 0 <= k < |front| ensures front[k] in ids {
      if order[k] !in ids {
        assert Clash(rows, ids, order[k], k);
      }
    }
    assert Distinct(front);
    SetSize(front);
    SubsetOfSameSize(ToSet(front), ToSet(ids));
    forall k | |ids| <= k < |order| ensures order[k] !in ids {
      BeyondFront(order, |ids|, k);
    }
  }

  lemma BeyondFront(list: seq<nat>, n: nat, k: nat)
    requires Distinct(list) && n <= k < |list|
    ensures list[k] !in ToSet(list[..n])
  {
  }

  lemma RestListed(order: seq<nat>, ids: seq<nat>)
    requires Distinct(order) && |ids| <= |order| && ToSet(order[..|ids|]) == ToSet(ids)
    ensures forall x :: x in ids + order[|ids|..] <==> x in order
  {
    var n := |ids|;
    assert order == order[..n] + order[n..];
    assert forall x :: x in ids <==> x in ToSet(ids);
    assert forall x :: x in order[..n] <==> x in ToSet(order[..n]);
  }

  lemma ReorderedIsOrdered(rows: Table, order: seq<nat>, ids: seq<nat>)
    requires Ordered(rows, order) && Distinct(ids) && AllActive(rows, ids) && !Clashes(rows, ids)
    ensures WellOrdered(Renumbered(Cleared(rows, ToSet(ids)), ids))
  {
    hide Renumbered, Clashes, Cleared, ToSet;
    assert forall i :: 0 <= i < |ids| ==> Active(rows, ids[i]);
    ReorderedRows(rows, order, ids);
    RestFollows(rows, order, ids);
    RestListed(order, ids);
    NumberedThrough(rows, order, ids, Renumbered(Cleared(rows, ToSet(ids)), ids));
  }

  /** The list first, then the others where they are. */
  lemma NumberedThrough(rows: Table, order: seq<nat>, ids: seq<nat>, after: Table)
    requires Ordered(rows, order) && Distinct(ids) && AllActive(rows, ids) && |ids| <= |order| && after.Keys == rows.Keys
    requires forall i :: 0 <= i < |ids| ==> ids[i] in rows && after[ids[i]] == rows[ids[i]].(position := Some(i + 1))
    requires forall x :: x in rows && x !in ids ==> after[x] == rows[x]
    requires forall x :: Active(after, x) <==> Active(rows, x)
    requires forall k :: |ids| <= k < |order| ==> order[k] !in ids
    requires forall x :: x in ids + order[|ids|..] <==> x in order
    ensures WellOrdered(after)
  {
    var list := ids + order[|ids|..];
    OrderedActive(rows, order);
    OrderedRows(rows, order);
    forall x ensures Active(after, x) <==> x in list {
      assert Active(rows, x) <==> x in order;
    }
    forall x | x in after && (!after[x].active || after[x].deleted) ensures !after[x].active && after[x].position == None {
      assert x in ids ==> Active(rows, x);
    }
    forall i | 0 <= i < |list| ensures Pos(after, list[i]) == i + 1 {
      if i < |ids| {
        assert list[i] == ids[i];
      } else {
        assert list[i] == order[i] && order[i] in rows;
      }
    }
    assert Ordered(after, list);
  }

  lemma ReorderExactly(rows: Table, order: seq<nat>, ids: seq<nat>, seen: Table, newId: nat)
    requires Ordered(rows, order) && Distinct(ids) && RowsThere(Reordering(ids, seen), rows)
    ensures WellOrdered(Written(rows, Reordering(ids, seen), newId)) <==> AllActive(rows, ids) || Clashes(rows, ids)
  {
    hide Renumbered, Clashes, AllActive;
    var after := Renumbered(Cleared(rows, ToSet(ids)), ids);
    WellOrderedBy(rows, order);
    ClashExactly(rows, order, ids);
    if !Clashes(rows, ids) {
      if AllActive(rows, ids) {
        ReorderedIsOrdered(rows, order, ids);
      } else {
        InactiveListed(rows, order, ids);
      }
    }
  }

  lemma InactiveListed(rows: Table, order: seq<nat>, ids: seq<nat>)
    requires Ordered(rows, order) && Distinct(ids) && (forall i :: 0 <= i < |ids| ==> ids[i] in rows) && !AllActive(rows, ids)
    ensures !WellOrdered(Renumbered(Cleared(rows, ToSet(ids)), ids))
  {
    hide Renumbered;
    ReorderedRows(rows, order, ids);
    var i :| 0 <= i < |ids| && !Active(rows, ids[i]);
    OutOfOrder(Renumbered(Cleared(rows, ToSet(ids)), ids), ids[i]);
  }

  // ---- Whole runs --------------------------------------------------------------------------------

  ghost predicate Distinctly(call: Call) {
    && (call.Removing? ==> Distinct(call.remaining))
    && (call.Reordering? ==> Distinct(call.ids))
  }

  lemma WriteKeepsOrderExactly(rows: Table, order: seq<nat>, call: Call, newId: nat)
    requires Ordered(rows, order) && RowsThere(call, rows) && Distinctly(call) && newId !in rows
    ensures WellOrdered(Written(rows, call, newId)) <==> StillGood(rows, order, call)
  {
    hide Written, WellOrdered, Ordered, ListsOthers, AllActive, Clashes;
    match call
    case Adding(max, seen) => AddExactly(rows, order, max, seen, newId);
    case Activating(id, max, seen) => ActivateExactly(rows, order, id, max, seen, newId);
    case Removing(id, deletes, remaining, seen) => RemoveExactly(rows, order, id, deletes, remaining, seen, newId);
    case DeletingIdle(id, seen) => DeleteIdleExactly(rows, order, id, seen, newId);
    case Reordering(ids, seen) => ReorderExactly(rows, order, ids, seen, newId);
  }

  ghost function Apply(w: World, e: Event): World
    requires Enabled(w, e)
  {
    match e
    case BeginAdd(c, max) => w.(calls := w.calls[c := Adding(max, w.rows)])
    case BeginActivate(c, id, max) => w.(calls := w.calls[c := Activating(id, max, w.rows)])
    case BeginRemove(c, id, deletes, list) => w.(calls := w.calls[c := Removing(id, deletes, list, w.rows)])
    case BeginDeleteIdle(c, id) => w.(calls := w.calls[c := DeletingIdle(id, w.rows)])
    case BeginReorder(c, ids) => w.(calls := w.calls[c := Reordering(ids, w.rows)])
    case Write(c, newId) => w.(rows := Written(w.rows, w.calls[c], newId), calls := w.calls - {c})
    case AddInactive(newId) => w.(rows := w.rows[newId := Inactive()])
    case Drop(c) => w.(calls := w.calls - {c})
  }

  /** Creating an inactive question adds a row with no position; a transaction that is dropped, or still
      reading, changes no row. */
  lemma OnlyWritesMove(w: World, e: Event)
    requires Enabled(w, e) && !e.Write?
    ensures e.AddInactive? ==>
              var v := Apply(w, e);
              && e.newId !in w.rows && e.newId in v.rows && v == w.(rows := w.rows[e.newId := v.rows[e.newId]])
              && !v.rows[e.newId].active && !v.rows[e.newId].deleted && v.rows[e.newId].position == None
    ensures !e.AddInactive? ==> Apply(w, e).rows == w.rows
    ensures e.Drop? ==> Apply(w, e).calls == w.calls - {e.c}
    ensures !e.AddInactive? && !e.Drop? ==> e.c !in w.calls && Apply(w, e).calls.Keys == w.calls.Keys + {e.c}
  {
  }

  ghost predicate Legal(w: World, es: seq<Event>)
    decreases |es|
  {
    es == [] || (Enabled(w, es[0]) && Legal(Apply(w, es[0]), es[1..]))
  }

  ghost function After(w: World, es: seq<Event>): World
    requires Legal(w, es)
    decreases |es|
  {
    if es == [] then w else After(Apply(w, es[0]), es[1..])
  }

  ghost predicate AlwaysWellOrdered(w: World, es: seq<Event>)
    requires Legal(w, es)
    decreases |es|
  {
    WellOrdered(w.rows) && (es == [] || AlwaysWellOrdered(Apply(w, es[0]), es[1..]))
  }

  ghost predicate Good(rows: Table, call: Call)
    requires RowsThere(call, rows)
  {
    exists order :: Ordered(rows, order) && StillGood(rows, order, call)
  }

  ghost predicate WritesGood(w: World, es: seq<Event>)
    requires Legal(w, es)
    decreases |es|
  {
    es == [] || ((es[0].Write? ==> Good(w.rows, w.calls[es[0].c])) && WritesGood(Apply(w, es[0]), es[1..]))
  }

  ghost predicate CallsDistinct(w: World) {
    forall c :: c in w.calls ==> Distinctly(w.calls[c])
  }

  lemma EventKeepsCalls(w: World, e: Event)
    requires CallsDistinct(w) && Enabled(w, e)
    ensures CallsDistinct(Apply(w, e))
  {
    hide Written, Ordered, IsMax;
  }

  /** Reading changes nothing, and an inactive question takes no place. */
  lemma OtherEventsKeepOrder(w: World, e: Event)
    requires Enabled(w, e) && !e.Write? && WellOrdered(w.rows)
    ensures WellOrdered(Apply(w, e).rows)
  {
    hide Ordered, IsMax, Remaining;
    if e.AddInactive? {
      var order :| Ordered(w.rows, order);
      IdleJoins(w.rows, order, e.newId);
    }
  }

  lemma IdleJoins(rows: Table, order: seq<nat>, id: nat)
    requires Ordered(rows, order) && id !in rows
    ensures Ordered(rows[id := Inactive()], order)
  {
    var after := rows[id := Inactive()];
    forall x ensures Active(after, x) <==> x in order {
      assert Active(rows, x) <==> x in order;
    }
    forall i | 0 <= i < |order| ensures Pos(after, order[i]) == i + 1 {
      assert Active(rows, order[i]);
    }
  }

  lemma GoodByOrder(rows: Table, order: seq<nat>, call: Call)
    requires Ordered(rows, order) && RowsThere(call, rows)
    ensures Good(rows, call) <==> StillGood(rows, order, call)
  {
    hide Ordered, StillGood;
    if Good(rows, call) {
      var other :| Ordered(rows, other) && StillGood(rows, other, call);
      OrderIsUnique(rows, order, other);
    }
  }

  lemma WriteIsGoodExactly(w: World, e: Event)
    requires Enabled(w, e) && e.Write? && WellOrdered(w.rows) && CallsDistinct(w)
    ensures WellOrdered(Apply(w, e).rows) <==> Good(w.rows, w.calls[e.c])
  {
    hide Ordered, StillGood, Good, Written, RowsThere;
    var order :| Ordered(w.rows, order);
    WriteKeepsOrderExactly(w.rows, order, w.calls[e.c], e.newId);
    GoodByOrder(w.rows, order, w.calls[e.c]);
  }

  /** The exact condition, in every interleaving: the active questions sit at 1..N at every moment if and
      only if every write still finds what it needs. */
  lemma {:induction false} OrderExactly(w: World, es: seq<Event>)
    requires Legal(w, es) && WellOrdered(w.rows) && CallsDistinct(w)
    ensures AlwaysWellOrdered(w, es) <==> WritesGood(w, es)
    decreases |es|
  {
    hide WellOrdered, Good, Apply, Enabled, CallsDistinct;
    if es != [] {
      var v := Apply(w, es[0]);
      EventKeepsCalls(w, es[0]);
      if es[0].Write? {
        WriteIsGoodExactly(w, es[0]);
      } else {
        OtherEventsKeepOrder(w, es[0]);
      }
      if WellOrdered(v.rows) {
        OrderExactly(v, es[1..]);
      } else {
        NotAlways(v, es[1..]);
      }
    }
  }

  lemma NotAlways(w: World, es: seq<Event>)
    requires Legal(w, es) && !WellOrdered(w.rows)
    ensures !AlwaysWellOrdered(w, es)
  {
  }

  lemma EmptyBank()
    ensures WellOrdered(map[]) && CallsDistinct(World(map[], map[]))
  {
    assert Ordered(map[], []);
  }

  // ---- Transactions that do not overlap ----------------------------------------------------------

  /** What the transaction read is what its rows held then. */
  ghost predicate Begun(call: Call) {
    match call
    case Adding(max, seen) => IsMax(seen, max)
    case Activating(id, max, seen) => NotDeleted(seen, id) && !seen[id].active && IsMax(seen, max)
    case Removing(id, _, list, seen) => NotDeleted(seen, id) && seen[id].active && Remaining(seen, id, list)
    case DeletingIdle(id, seen) => NotDeleted(seen, id) && !seen[id].active
    case Reordering(ids, seen) => Distinct(ids) && Lists(seen, ids)
  }

  function SeenBy(call: Call): Table {
    call.seen
  }

  /** No question has become active or inactive, been deleted, or changed its place. */
  predicate SameBank(before: Table, after: Table) {
    && (forall x :: x in before ==> x in after && after[x].deleted == before[x].deleted && after[x].active == before[x].active
                                    && after[x].position == before[x].position)
    && (forall x :: x in after && x !in before ==> !after[x].active)
  }

  /** A write finds what it needs whenever no other transaction has touched the bank since its reading:
      one after another, transactions keep the order. */
  lemma UndisturbedIsGood(rows: Table, order: seq<nat>, call: Call)
    requires Ordered(rows, order) && RowsThere(call, rows) && Begun(call) && SameBank(SeenBy(call), rows)
    ensures StillGood(rows, order, call)
  {
    var seen := SeenBy(call);
    assert forall x :: Active(seen, x) <==> Active(rows, x);
    assert forall x :: Active(seen, x) ==> Pos(seen, x) == Pos(rows, x);
    OrderedActive(rows, order);
    if (call.Adding? || call.Activating?) && call.max > 0 {
      var x :| Active(seen, x) && Pos(seen, x) == call.max;
      assert Active(rows, x);
    }
    if order != [] {
      assert Active(seen, order[|order| - 1]);
    }
  }

  ghost predicate NeverOverlaps(w: World, es: seq<Event>)
    requires Legal(w, es)
    decreases |es|
  {
    es == []
    || ((es[0].Write? ==> SameBank(SeenBy(w.calls[es[0].c]), w.rows)) && NeverOverlaps(Apply(w, es[0]), es[1..]))
  }

  ghost predicate CallsBegun(w: World) {
    forall c :: c in w.calls ==> Begun(w.calls[c])
  }

  lemma EventKeepsBegun(w: World, e: Event)
    requires CallsBegun(w) && Enabled(w, e)
    ensures CallsBegun(Apply(w, e))
  {
    hide Written, IsMax, Remaining, Lists;
  }

  lemma {:induction false} SerialIsGood(w: World, es: seq<Event>)
    requires Legal(w, es) && WellOrdered(w.rows) && CallsDistinct(w) && CallsBegun(w) && NeverOverlaps(w, es)
    ensures WritesGood(w, es)
    decreases |es|
  {
    hide WellOrdered, Good, Apply, Enabled, CallsDistinct, CallsBegun, SameBank;
    if es != [] {
      EventKeepsCalls(w, es[0]);
      EventKeepsBegun(w, es[0]);
      if es[0].Write? {
        UndisturbedWrite(w, es[0]);
        WriteIsGoodExactly(w, es[0]);
      } else {
        OtherEventsKeepOrder(w, es[0]);
      }
      SerialIsGood(Apply(w, es[0]), es[1..]);
    }
  }

  lemma UndisturbedWrite(w: World, e: Event)
    requires Enabled(w, e) && e.Write? && WellOrdered(w.rows) && CallsBegun(w) && SameBank(SeenBy(w.calls[e.c]), w.rows)
    ensures Good(w.rows, w.calls[e.c])
  {
    hide Ordered, StillGood, SameBank, Begun, Written, RowsThere;
    var order :| Ordered(w.rows, order);
    UndisturbedIsGood(w.rows, order, w.calls[e.c]);
    GoodByOrder(w.rows, order, w.calls[e.c]);
  }

  /** In particular, when no other transaction touches the bank between one's reading and its write, the
      questions are in order at every moment. */
  lemma SerialKeepsOrder(es: seq<Event>)
    requires Legal(World(map[], map[]), es) && NeverOverlaps(World(map[], map[]), es)
    ensures AlwaysWellOrdered(World(map[], map[]), es)
  {
    EmptyBank();
    SerialIsGood(World(map[], map[]), es);
    OrderExactly(World(map[], map[]), es);
  }

  // ---- What overlapping leaves behind ----------------------------------------------------------------

  lemma Unroll(w: World, e: Event, rest: seq<Event>)
    requires Enabled(w, e) && Legal(Apply(w, e), rest)
    ensures Legal(w, [e] + rest) && After(w, [e] + rest) == After(Apply(w, e), rest)
  {
    hide Apply, Enabled;
    assert ([e] + rest)[0] == e && ([e] + rest)[1..] == rest;
  }

  lemma OrderedMax(rows: Table, order: seq<nat>)
    requires Ordered(rows, order)
    ensures IsMax(rows, |order|)
  {
    OrderedActive(rows, order);
    if order != [] {
      assert Active(rows, order[|order| - 1]);
    }
  }

  lemma OrderedRemaining(rows: Table, order: seq<nat>, id: nat)
    requires Ordered(rows, order) && Active(rows, id)
    ensures Remaining(rows, id, Without(order, id)) && forall x :: x in Without(order, id) ==> x in rows
  {
    WithoutIs(order, id);
    OrderedActive(rows, order);
    WithoutAscends(rows, order, id);
  }

  function AddAround(id: nat, order: seq<nat>, newId: nat): seq<Event> {
    [BeginAdd(0, |order|), BeginRemove(1, id, false, Without(order, id)), Write(1, newId), Write(0, newId)]
  }

  /** Whatever the bank and the question: when one is deactivated between another's MAX and its INSERT,
      both commit and the new one leaves a gap below it. */
  lemma CreationLeavesAGap(rows: Table, order: seq<nat>, id: nat, newId: nat)
    requires Ordered(rows, order) && Active(rows, id) && newId !in rows
    ensures var w, es := World(rows, map[]), AddAround(id, order, newId);
            && Legal(w, es) && !WellOrdered(After(w, es).rows)
            && Active(After(w, es).rows, newId) && Pos(After(w, es).rows, newId) == |order| + 1
  {
    hide Ordered, Renumbered, AfterLeaving, IsMax, Remaining, WellOrdered, Wanted, Written;
    var rest := Without(order, id);
    var w := World(rows, map[]);
    OrderedMax(rows, order);
    OrderedRemaining(rows, order, id);
    OrderedNotDeleted(rows, order, id);
    WithoutIs(order, id);
    var w1 := Apply(w, BeginAdd(0, |order|));
    var w2 := Apply(w1, BeginRemove(1, id, false, rest));
    var remove := Removing(id, false, rest, rows);
    Removed(rows, order, id, newId);
    var w3 := Apply(w2, Write(1, newId));
    BeyondTheEnd(w3.rows, rest, |order|, newId);
    var w4 := Apply(w3, Write(0, newId));
    Unroll(w3, Write(0, newId), []);
    Unroll(w2, Write(1, newId), [Write(0, newId)]);
    Unroll(w1, BeginRemove(1, id, false, rest), [Write(1, newId), Write(0, newId)]);
    Unroll(w, BeginAdd(0, |order|), [BeginRemove(1, id, false, rest), Write(1, newId), Write(0, newId)]);
  }

  lemma OrderedNotDeleted(rows: Table, order: seq<nat>, id: nat)
    requires Ordered(rows, order) && Active(rows, id)
    ensures NotDeleted(rows, id) && id in order
  {
  }

  /** An undisturbed deactivation leaves the others in their order, one fewer. */
  lemma Removed(rows: Table, order: seq<nat>, id: nat, newId: nat)
    requires Ordered(rows, order) && Active(rows, id) && newId !in rows
    requires RowsThere(Removing(id, false, Without(order, id), rows), rows)
    ensures var after := Written(rows, Removing(id, false, Without(order, id), rows), newId);
            && Ordered(after, Without(order, id)) && after.Keys == rows.Keys
            && |Without(order, id)| < |order|
  {
    hide Renumbered, AfterLeaving, Ordered;
    var rest := Without(order, id);
    OrderedRemaining(rows, order, id);
    OrderedNotDeleted(rows, order, id);
    var left := AfterLeaving(rows, id, false);
    LeavingTable(rows, order, id, false);
    RenumberedRows(left, rest);
    assert Lists(left, rest);
    RenumberingOrders(left, rest);
    WellOrderedBy(Renumbered(left, rest), rest);
    WithoutShorter(order, id);
  }

  lemma {:induction false} WithoutShorter(list: seq<nat>, id: nat)
    ensures |Without(list, id)| <= |list| && (id in list ==> |Without(list, id)| < |list|)
  {
    if list != [] {
      WithoutShorter(list[1..], id);
      assert list == [list[0]] + list[1..];
    }
  }

  /** The INSERT goes through, beyond the end. */
  lemma BeyondTheEnd(rows: Table, order: seq<nat>, max: nat, newId: nat)
    requires Ordered(rows, order) && |order| < max && newId !in rows
    ensures var after := Written(rows, Adding(max, map[]), newId);
            !WellOrdered(after) && Active(after, newId) && Pos(after, newId) == max + 1
    ensures forall seen :: Written(rows, Adding(max, seen), newId) == Written(rows, Adding(max, map[]), newId)
  {
    PushedOut(rows, order, rows[newId := ActiveAt(max + 1)], newId);
  }

  function RemoveAround(id: nat, order: seq<nat>, newId: nat, spare: nat): seq<Event> {
    [BeginRemove(0, id, false, Without(order, id)), BeginAdd(1, |order|), Write(1, newId), Write(0, spare)]
  }

  /** And when one is created between a compaction's SELECT and its UPDATE, both commit and the new one
      is left active without a position. */
  lemma CompactionDropsAQuestion(rows: Table, order: seq<nat>, id: nat, newId: nat, spare: nat)
    requires Ordered(rows, order) && Active(rows, id) && newId !in rows && spare !in rows && spare != newId
    ensures var w, es := World(rows, map[]), RemoveAround(id, order, newId, spare);
            && Legal(w, es) && !WellOrdered(After(w, es).rows)
            && Active(After(w, es).rows, newId) && After(w, es).rows[newId].position == None
  {
    hide Ordered, Renumbered, AfterLeaving, IsMax, Remaining, WellOrdered, Wanted, Written;
    var rest := Without(order, id);
    var w := World(rows, map[]);
    OrderedMax(rows, order);
    OrderedRemaining(rows, order, id);
    OrderedNotDeleted(rows, order, id);
    WithoutIs(order, id);
    var w1 := Apply(w, BeginRemove(0, id, false, rest));
    var w2 := Apply(w1, BeginAdd(1, |order|));
    Added(rows, order, newId);
    var w3 := Apply(w2, Write(1, newId));
    LeftOut(rows, order, id, newId, spare);
    var w4 := Apply(w3, Write(0, spare));
    Unroll(w3, Write(0, spare), []);
    Unroll(w2, Write(1, newId), [Write(0, spare)]);
    Unroll(w1, BeginAdd(1, |order|), [Write(1, newId), Write(0, spare)]);
    Unroll(w, BeginRemove(0, id, false, rest), [BeginAdd(1, |order|), Write(1, newId), Write(0, spare)]);
  }

  lemma Added(rows: Table, order: seq<nat>, newId: nat)
    requires Ordered(rows, order) && newId !in rows
    ensures Written(rows, Adding(|order|, rows), newId) == rows[newId := ActiveAt(|order| + 1)]
    ensures Ordered(rows[newId := ActiveAt(|order| + 1)], order + [newId])
  {
    var after := rows[newId := ActiveAt(|order| + 1)];
    OrderedActive(rows, order);
    assert newId !in order by { assert !Active(rows, newId); }
    forall x ensures Active(after, x) <==> x in order + [newId] {
      assert Active(rows, x) <==> x in order;
    }
    WellOrderedBy(after, order + [newId]);
  }

  lemma LeftOut(rows: Table, order: seq<nat>, id: nat, newId: nat, spare: nat)
    requires Ordered(rows, order) && Active(rows, id) && newId !in rows
    ensures var now, call := rows[newId := ActiveAt(|order| + 1)], Removing(id, false, Without(order, id), rows);
            && RowsThere(call, now)
            && !WellOrdered(Written(now, call, spare)) && Active(Written(now, call, spare), newId)
            && Written(now, call, spare)[newId].position == None
  {
    hide Renumbered, AfterLeaving, Ordered;
    var now, rest := rows[newId := ActiveAt(|order| + 1)], Without(order, id);
    Added(rows, order, newId);
    OrderedRemaining(rows, order, id);
    WithoutIs(order, id);
    var left := AfterLeaving(now, id, false);
    LeavingTable(now, order + [newId], id, false);
    RenumberedRows(left, rest);
    RenumberingIsIndexed(left, rest);
    assert Active(left, newId) && newId !in rest;
    OutOfOrder(Renumbered(left, rest), newId);
  }
}
