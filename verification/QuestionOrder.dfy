/** The ordered set of active onboarding questions: what positions 1..N mean, what compaction and
    reordering may do to them, and when a reorder request is acceptable. */
module QuestionOrder {
  import opened Sequences
  import opened Text

  datatype Kind = TextKind | Radio | Checkbox

  datatype Question = Question(
    kind: Kind,
    text: nat,
    options: Option<seq<nat>>,
    position: Option<nat>,
    active: bool,
    deleted: bool
  )

  type Table = map<nat, Question>

  predicate Active(rows: Table, id: nat) {
    id in rows && rows[id].active
  }

  /** The position of a row, 0 when it has none. */
  function Pos(rows: Table, id: nat): nat {
    if id in rows && rows[id].position.Some? then rows[id].position.value else 0
  }

  // ---- The database's side -----------------------------------------------------------

  /** The partial unique index on the positions of active, undeleted rows. */
  ghost predicate IndexHolds(rows: Table) {
    forall a, b :: IndexedAt(rows, a) && IndexedAt(rows, b) && rows[a].position == rows[b].position ==> a == b
  }

  predicate IndexedAt(rows: Table, id: nat) {
    id in rows && rows[id].active && !rows[id].deleted && rows[id].position.Some?
  }

  /** UPDATE … SET position = NULL for the rows of `ids`. */
  function Cleared(rows: Table, ids: set<nat>): (r: Table)
    ensures r.Keys == rows.Keys
  {
    map id | id in rows :: if id in ids then rows[id].(position := None) else rows[id]
  }

  /** UPDATE … SET position = i + 1 for the i-th id, one statement after the other. */
  function Renumbered(rows: Table, ids: seq<nat>): Table
    requires forall i :: 0 <= i < |ids| ==> ids[i] in rows
  {
    if ids == [] then rows
    else
      var last := ids[|ids| - 1];
      Renumbered(rows, ids[..|ids| - 1])[last := rows[last].(position := Some(|ids|))]
  }

  lemma {:induction false} RenumberedRows(rows: Table, ids: seq<nat>)
    requires Distinct(ids) && forall i :: 0 <= i < |ids| ==> ids[i] in rows
    ensures Renumbered(rows, ids).Keys == rows.Keys
    ensures forall i :: 0 <= i < |ids| ==> Renumbered(rows, ids)[ids[i]] == rows[ids[i]].(position := Some(i + 1))
    ensures forall id :: id in rows && id !in ids ==> Renumbered(rows, ids)[id] == rows[id]
  {
    if ids != [] {
      var front := ids[..|ids| - 1];
      RenumberedRows(rows, front);
      assert ids == front + [ids[|ids| - 1]];
    }
  }

  /** The columns other than `position`. */
  function Positionless(rows: Table): Table {
    map id | id in rows :: rows[id].(position := None)
  }

  // ---- Positions and lists ---------------------------------------------------------------

  ghost predicate Lists(rows: Table, list: seq<nat>) {
    forall id :: Active(rows, id) <==> id in list
  }

  /** `list` names the active rows in ascending position: the answer to ORDER BY position. */
  ghost predicate Sorted(rows: Table, list: seq<nat>) {
    && Lists(rows, list)
    && (forall i, j :: 0 <= i < j < |list| ==> Pos(rows, list[i]) < Pos(rows, list[j]))
  }

  /** Rows that are not active hold no position, and a deleted row is not active. */
  ghost predicate Idle(rows: Table) {
    forall id :: id in rows && (!rows[id].active || rows[id].deleted) ==> !rows[id].active && rows[id].position == None
  }

  /** The bank's invariant: the i-th active question sits at position i + 1. */
  ghost predicate Ordered(rows: Table, list: seq<nat>) {
    && Idle(rows)
    && Distinct(list)
    && Lists(rows, list)
    && (forall i :: 0 <= i < |list| ==> Pos(rows, list[i]) == i + 1)
  }

  lemma OrderedIsSorted(rows: Table, list: seq<nat>)
    requires Ordered(rows, list)
    ensures Sorted(rows, list) && IndexHolds(rows)
  {
    forall a, b | IndexedAt(rows, a) && IndexedAt(rows, b) && rows[a].position == rows[b].position
      ensures a == b
    {
      assert Active(rows, a) && Active(rows, b);
    }
  }

  /** What the order says of the columns: its i-th question is active, not deleted and at position i + 1,
      and every question outside it is inactive and has no position. */
  lemma OrderInColumns(rows: Table, list: seq<nat>)
    requires Ordered(rows, list)
    ensures forall i :: 0 <= i < |list| ==>
              list[i] in rows && rows[list[i]].active && !rows[list[i]].deleted && rows[list[i]].position == Some(i + 1)
    ensures forall id :: id in rows && id !in list ==> !rows[id].active && rows[id].position == None
    ensures forall i, j :: 0 <= i < j < |list| ==> list[i] != list[j]
  {
    forall i | 0 <= i < |list|
      ensures list[i] in rows && rows[list[i]].active && !rows[list[i]].deleted && rows[list[i]].position == Some(i + 1)
    {
      assert list[i] in list && Active(rows, list[i]);
    }
    forall id | id in rows && id !in list ensures !rows[id].active && rows[id].position == None {
      assert !Active(rows, id);
    }
  }

  /** The positions in use are exactly 1..N. */
  lemma PositionsAreOneToN(rows: Table, list: seq<nat>, k: nat)
    requires Ordered(rows, list)
    ensures 1 <= k <= |list| <==> exists id :: HoldsPosition(rows, id, k)
  {
    if 1 <= k <= |list| {
      assert Active(rows, list[k - 1]);
      assert HoldsPosition(rows, list[k - 1], k);
    }
    if id :| HoldsPosition(rows, id, k) {
      assert Active(rows, id);
    }
  }

  predicate HoldsPosition(rows: Table, id: nat, k: nat) {
    id in rows && rows[id].active && rows[id].position == Some(k)
  }

  /** The table determines the order. */
  lemma OrderIsUnique(rows: Table, a: seq<nat>, b: seq<nat>)
    requires Ordered(rows, a) && Ordered(rows, b)
    ensures a == b
  {
    OrderEmbeds(rows, a, b);
    OrderEmbeds(rows, b, a);
  }

  lemma OrderEmbeds(rows: Table, a: seq<nat>, b: seq<nat>)
    requires Ordered(rows, a) && Ordered(rows, b)
    ensures |a| <= |b| && forall i :: 0 <= i < |a| ==> b[i] == a[i]
  {
    forall i | 0 <= i < |a| ensures i < |b| && b[i] == a[i] {
      assert Active(rows, a[i]);
      var j :| 0 <= j < |b| && b[j] == a[i];
    }
    if |a| > 0 {
      var last := a[|a| - 1];
      assert |a| - 1 < |b|;
    }
  }

  predicate AllUnplaced(rows: Table) {
    forall id :: id in rows ==> rows[id].position == None
  }

  /** Numbering the active rows of a table without positions puts them in order. */
  lemma RenumberingOrders(rows: Table, ids: seq<nat>)
    requires forall i :: 0 <= i < |ids| ==> ids[i] in rows
    requires Distinct(ids) && Lists(rows, ids) && AllUnplaced(rows) && Idle(rows)
    ensures Ordered(Renumbered(rows, ids), ids)
    ensures Positionless(Renumbered(rows, ids)) == Positionless(rows)
  {
    hide Renumbered;
    assert forall i :: 0 <= i < |ids| ==> Active(rows, ids[i]);
    RenumberedRows(rows, ids);
    var after := Renumbered(rows, ids);
    forall id ensures Active(after, id) <==> id in ids {
      assert Active(rows, id) <==> id in ids;
    }
  }

  lemma RenumberingIsIndexed(rows: Table, ids: seq<nat>)
    requires forall i :: 0 <= i < |ids| ==> ids[i] in rows
    requires Distinct(ids) && AllUnplaced(rows)
    ensures IndexHolds(Renumbered(rows, ids))
  {
    hide Renumbered;
    RenumberedRows(rows, ids);
    var part := Renumbered(rows, ids);
    forall a, b | IndexedAt(part, a) && IndexedAt(part, b) && part[a].position == part[b].position ensures a == b {
      assert a in ids && b in ids;
    }
  }

  lemma RenumberStep(rows: Table, ids: seq<nat>, i: nat)
    requires forall j :: 0 <= j < |ids| ==> ids[j] in rows
    requires i < |ids| && Distinct(ids) && AllUnplaced(rows)
    ensures var done := Renumbered(rows, ids[..i]);
            && ids[i] in done
            && Renumbered(rows, ids[..i + 1]) == done[ids[i] := done[ids[i]].(position := Some(i + 1))]
            && IndexHolds(Renumbered(rows, ids[..i + 1]))
  {
    RenumberedRows(rows, ids[..i]);
    RenumberingIsIndexed(rows, ids[..i + 1]);
    assert ids[..i + 1][..i] == ids[..i];
    assert ids[i] !in ids[..i];
  }

  // ---- Leaving the list -------------------------------------------------------------------

  function Without(list: seq<nat>, id: nat): seq<nat> {
    if list == [] then []
    else if list[0] == id then Without(list[1..], id)
    else [list[0]] + Without(list[1..], id)
  }

  lemma {:induction false} WithoutIs(list: seq<nat>, id: nat)
    ensures forall x :: x in Without(list, id) <==> x in list && x != id
    ensures id !in list ==> Without(list, id) == list
  {
    if list != [] {
      WithoutIs(list[1..], id);
      assert list == [list[0]] + list[1..];
    }
  }

  lemma {:induction false} WithoutAscends(rows: Table, list: seq<nat>, id: nat)
    requires forall i, j :: 0 <= i < j < |list| ==> Pos(rows, list[i]) < Pos(rows, list[j])
    ensures forall i, j :: 0 <= i < j < |Without(list, id)| ==> Pos(rows, Without(list, id)[i]) < Pos(rows, Without(list, id)[j])
  {
    if list != [] {
      WithoutAscends(rows, list[1..], id);
      WithoutIs(list[1..], id);
      var rest := Without(list[1..], id);
      forall j | 0 <= j < |rest| ensures Pos(rows, list[0]) < Pos(rows, rest[j]) {
        assert rest[j] in list[1..];
      }
    }
  }

  predicate Before(list: seq<nat>, a: nat, b: nat) {
    exists i, j :: 0 <= i < j < |list| && list[i] == a && list[j] == b
  }

  lemma BeforeCons(x: nat, rest: seq<nat>, a: nat, b: nat)
    ensures Before([x] + rest, a, b) <==> (x == a && b in rest) || Before(rest, a, b)
  {
    var list := [x] + rest;
    if Before(list, a, b) {
      var i, j :| 0 <= i < j < |list| && list[i] == a && list[j] == b;
      assert rest[j - 1] == b;
      if i > 0 {
        assert rest[i - 1] == a;
      }
    }
    if x == a && b in rest {
      var j :| 0 <= j < |rest| && rest[j] == b;
      assert list[0] == a && list[j + 1] == b;
    }
    if Before(rest, a, b) {
      var i, j :| 0 <= i < j < |rest| && rest[i] == a && rest[j] == b;
      assert list[i + 1] == a && list[j + 1] == b;
    }
  }

  /** Removing a question keeps every other pair in the order it had. */
  lemma {:induction false} RemovalKeepsRelativeOrder(list: seq<nat>, id: nat, a: nat, b: nat)
    requires a != id && b != id
    ensures Before(Without(list, id), a, b) <==> Before(list, a, b)
  {
    hide Before;
    if list == [] {
    } else {
      RemovalKeepsRelativeOrder(list[1..], id, a, b);
      WithoutIs(list[1..], id);
      assert list == [list[0]] + list[1..];
      BeforeCons(list[0], list[1..], a, b);
      BeforeCons(list[0], Without(list[1..], id), a, b);
    }
  }

  // ---- The reorder tests ---------------------------------------------------------------------

  /** `duplicates`, `sizeMismatch` and `coverageMismatch`, all false. */
  predicate Accepts(active: seq<nat>, incoming: seq<nat>) {
    && |incoming| == |ToSet(incoming)|
    && |ToSet(active)| == |ToSet(incoming)|
    && forall i :: 0 <= i < |incoming| ==> incoming[i] in ToSet(active)
  }

  lemma SubsetOfSameSize(a: set<nat>, b: set<nat>)
    requires a <= b && |a| == |b|
    ensures a == b
  {
    assert b == a + (b - a);
    assert |b - a| == 0;
  }

  lemma {:induction false} DistinctMultiset(list: seq<nat>)
    requires Distinct(list)
    ensures forall x :: multiset(list)[x] == if x in list then 1 else 0
  {
    if list != [] {
      var front, last := list[..|list| - 1], list[|list| - 1];
      DistinctMultiset(front);
      assert list == front + [last];
      assert last !in front;
    }
  }

  /** The three tests accept a list exactly when it is a permutation of the active ids. */
  lemma AcceptsIffPermutation(active: seq<nat>, incoming: seq<nat>)
    requires Distinct(active)
    ensures Accepts(active, incoming) <==> multiset(incoming) == multiset(active)
  {
    SetSize(active);
    SetSize(incoming);
    if Accepts(active, incoming) {
      assert ToSet(incoming) <= ToSet(active);
      SubsetOfSameSize(ToSet(incoming), ToSet(active));
      DistinctMultiset(active);
      DistinctMultiset(incoming);
      forall x ensures multiset(incoming)[x] == multiset(active)[x] {
        assert x in active <==> x in ToSet(active);
        assert x in incoming <==> x in ToSet(incoming);
      }
    }
    if multiset(incoming) == multiset(active) {
      assert forall x :: x in incoming <==> x in multiset(incoming);
      assert forall x :: x in active <==> x in multiset(active);
      assert ToSet(incoming) == ToSet(active);
      assert |multiset(incoming)| == |incoming| && |multiset(active)| == |active|;
    }
  }

  // ---- Options ----------------------------------------------------------------------------

  /** A text question takes no options; the others at least two, with distinct values. */
  ghost predicate OptionsValid(kind: Kind, options: Option<seq<nat>>) {
    if kind.TextKind? then options.None? || options.value == []
    else options.Some? && |options.value| >= 2 && Distinct(options.value)
  }
}
