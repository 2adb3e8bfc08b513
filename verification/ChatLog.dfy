/** A planning chat: dense sequence numbers under a cap, terminal statuses, newest-first paging. */
module ChatLog {
  import opened Arithmetic
  import opened Text

  datatype ChatStatus = Active | Completed | Abandoned

  /** A chat_message row; `role` and `parts` are opaque to the service. */
  datatype ChatMessage = ChatMessage(seqNo: nat, role: nat, parts: nat)

  /** A project_chat_session row with its messages in insertion order. */
  datatype Session = Session(
    owner: nat,
    status: ChatStatus,
    messageCount: nat,
    messages: seq<ChatMessage>,
    draft: nat,
    stage: Option<nat>,
    implementedAt: Option<int>,
    createdTaskIds: Option<seq<nat>>,
    updatedAt: int
  )

  /** One appended message as the client sends it. */
  datatype Draft = Draft(role: nat, parts: nat)

  datatype Op =
    | Patch(user: nat, append: seq<Draft>, draft: Option<nat>, stage: Option<Option<nat>>, now: int)
    | UpdateStatus(user: nat, completed: bool, taskIds: seq<nat>, now: int)
    | AbandonStale(now: int)

  datatype Outcome = Done | NotFound | NotActive | LimitExceeded | SeqTaken

  const MAX_MESSAGES: nat := 200
  const STALE_MS: int := 90 * 86400000
  const STALE_MESSAGES: nat := 5

  function Created(owner: nat, now: int): Session {
    Session(owner, Active, 0, [], 0, None, None, None, now)
  }

  function Numbered(first: nat, append: seq<Draft>): seq<ChatMessage> {
    seq(|append|, i requires 0 <= i < |append| => ChatMessage(first + i, append[i].role, append[i].parts))
  }

  predicate Has(messages: seq<ChatMessage>, k: nat) {
    exists i :: 0 <= i < |messages| && messages[i].seqNo == k
  }

  /** The unique index on (session, seq) would reject one of the new rows. */
  predicate Collides(messages: seq<ChatMessage>, rows: seq<ChatMessage>) {
    exists i :: 0 <= i < |rows| && Has(messages, rows[i].seqNo)
  }

  /** `save` writes, and stamps `updated_at`, only when a column changed. */
  function Touched(before: Session, after: Session, now: int): Session {
    if after == before then before else after.(updatedAt := now)
  }

  /** One transaction on the locked session row; an error leaves the row as it was. */
  function Apply(s: Session, op: Op): (Session, Outcome) {
    match op
    case Patch(user, append, draft, stage, now) =>
      var rows := Numbered(s.messageCount + 1, append);
      if user != s.owner then (s, NotFound)
      else if s.status != Active then (s, NotActive)
      else if s.messageCount + |append| > MAX_MESSAGES then (s, LimitExceeded)
      else if Collides(s.messages, rows) then (s, SeqTaken)
      else
        (Touched(s, s.(messages := s.messages + rows, messageCount := s.messageCount + |append|,
                       draft := if draft.Some? then draft.value else s.draft,
                       stage := if stage.Some? then stage.value else s.stage), now), Done)
    case UpdateStatus(user, completed, taskIds, now) =>
      if user != s.owner then (s, NotFound)
      else if s.status != Active then (s, NotActive)
      else if completed then
        (s.(status := Completed, implementedAt := Some(now),
            createdTaskIds := if |taskIds| > 0 then Some(taskIds) else s.createdTaskIds, updatedAt := now), Done)
      else (s.(status := Abandoned, updatedAt := now), Done)
    case AbandonStale(now) =>
      if s.status == Active && s.updatedAt < now - STALE_MS && s.messageCount < STALE_MESSAGES
      then (s.(status := Abandoned, updatedAt := now), Done)
      else (s, Done)
  }

  function Run(s: Session, ops: seq<Op>): Session
    decreases |ops|
  {
    if ops == [] then s else Run(Apply(s, ops[0]).0, ops[1..])
  }

  // ---- Invariant -----------------------------------------------------------------------

  /** The stored sequence numbers are exactly 1..messageCount, in order, and the cap holds;
      `implementedAt` marks exactly the completed sessions. */
  ghost predicate Inv(s: Session) {
    && |s.messages| == s.messageCount <= 200
    && (forall i :: 0 <= i < |s.messages| ==> s.messages[i].seqNo == i + 1)
    && (s.implementedAt.Some? <==> s.status == Completed)
  }

  /** `later` is `s` some operations later: its log extends the old one and closing is final. */
  ghost predicate Follows(s: Session, later: Session) {
    && s.messages <= later.messages
    && later.owner == s.owner
    && (s.status != Active ==> later == s)
  }

  lemma StepKeepsInv(s: Session, op: Op)
    requires Inv(s)
    ensures Inv(Apply(s, op).0) && Follows(s, Apply(s, op).0)
    ensures Apply(s, op).1 != SeqTaken
  {
    if op.Patch? {
      NumbersAreFree(s, op.append);
    }
  }

  /** The next numbers are never taken: under the row lock the unique index cannot fire. */
  lemma NumbersAreFree(s: Session, append: seq<Draft>)
    requires Inv(s)
    ensures !Collides(s.messages, Numbered(s.messageCount + 1, append))
  {
  }

  /** In every reachable state the log is dense and capped, no stored message ever changes, and a
      session that is not active never changes again. */
  lemma {:induction false} RunKeepsInv(s: Session, ops: seq<Op>)
    requires Inv(s)
    ensures Inv(Run(s, ops)) && Follows(s, Run(s, ops))
    decreases |ops|
  {
    if ops != [] {
      StepKeepsInv(s, ops[0]);
      RunKeepsInv(Apply(s, ops[0]).0, ops[1..]);
    }
  }

  /** A patch is refused exactly for another user, else for a closed session, else for one message
      over two hundred, and then changes nothing. AcceptedDrafts, it stores the drafts, in order, right
      after the existing messages, and the draft and stage it was given; `updatedAt` moves exactly
      when some column does. */
  lemma PatchExactly(s: Session, user: nat, append: seq<Draft>, draft: Option<nat>, stage: Option<Option<nat>>, now: int)
    requires Inv(s)
    ensures var (s', out) := Apply(s, Patch(user, append, draft, stage, now));
            && (out == NotFound <==> user != s.owner)
            && (out == NotActive <==> user == s.owner && s.status != Active)
            && (out == LimitExceeded <==> user == s.owner && s.status == Active && s.messageCount + |append| > 200)
            && (out == Done <==> user == s.owner && s.status == Active && s.messageCount + |append| <= 200)
            && (out != Done ==> s' == s)
            && (out == Done ==>
                  && s'.owner == s.owner && s'.status == Active
                  && s'.implementedAt == s.implementedAt && s'.createdTaskIds == s.createdTaskIds
                  && s'.messageCount == |s'.messages| == s.messageCount + |append|
                  && s'.draft == (if draft.Some? then draft.value else s.draft)
                  && s'.stage == (if stage.Some? then stage.value else s.stage)
                  && s'.updatedAt == (if append == [] && s'.draft == s.draft && s'.stage == s.stage then s.updatedAt else now)
                  && s'.messages[..s.messageCount] == s.messages
                  && forall i :: 0 <= i < |append| ==>
                       s'.messages[s.messageCount + i] == ChatMessage(s.messageCount + i + 1, append[i].role, append[i].parts))
  {
    hide Collides, Numbered;
    NumbersAreFree(s, append);
    var rows := NumberedRows(s.messageCount + 1, append);
    assert append == [] ==> s.messages + rows == s.messages;
  }

  lemma NumberedRows(first: nat, append: seq<Draft>) returns (rows: seq<ChatMessage>)
    ensures rows == Numbered(first, append) && |rows| == |append|
    ensures forall i :: 0 <= i < |append| ==> rows[i] == ChatMessage(first + i, append[i].role, append[i].parts)
  {
    rows := Numbered(first, append);
  }

  /** Closing by hand is refused exactly for another user, else for a session already closed, and then
      changes nothing. Completing stamps the time and keeps the created task ids, if any were given;
      abandoning touches neither. */
  lemma ClosedByOwnerExactly(s: Session, user: nat, completed: bool, taskIds: seq<nat>, now: int)
    ensures var (s', out) := Apply(s, UpdateStatus(user, completed, taskIds, now));
            && (out == NotFound <==> user != s.owner)
            && (out == NotActive <==> user == s.owner && s.status != Active)
            && (out == Done <==> user == s.owner && s.status == Active)
            && (out != Done ==> s' == s)
            && (out == Done ==>
                  && s'.owner == s.owner && s'.messageCount == s.messageCount && s'.messages == s.messages
                  && s'.draft == s.draft && s'.stage == s.stage && s'.updatedAt == now
                  && s'.status == (if completed then Completed else Abandoned)
                  && s'.implementedAt == (if completed then Some(now) else s.implementedAt)
                  && s'.createdTaskIds == (if completed && taskIds != [] then Some(taskIds) else s.createdTaskIds))
  {
  }

  /** The nightly sweep abandons exactly an active session of fewer than five messages that nobody has
      touched for more than ninety days (7776000000 ms), and changes nothing else about it. */
  lemma SweptExactly(s: Session, now: int)
    ensures var (s', out) := Apply(s, AbandonStale(now));
            && out == Done
            && (s' != s <==> s.status == Active && s.updatedAt < now - 7776000000 && s.messageCount < 5)
            && (s' != s ==> s' == s.(status := Abandoned, updatedAt := now))
  {
  }

  /** The only way out of `Active`: by its owner, or by the sweep when idle and short. Closing
      touches neither the log nor the draft, and only completion stamps the audit columns. */
  lemma ClosingExactly(s: Session, op: Op)
    requires Inv(s)
    ensures var s' := Apply(s, op).0;
            && (s'.status != s.status <==>
                  && s.status == Active
                  && (|| (op.UpdateStatus? && op.user == s.owner)
                      || (op.AbandonStale? && s.updatedAt < op.now - 7776000000 && s.messageCount < 5)))
            && (s'.status != s.status ==>
                  && s'.messages == s.messages && s'.draft == s.draft && s'.stage == s.stage
                  && s'.status == (if op.UpdateStatus? && op.completed then Completed else Abandoned)
                  && s'.implementedAt == (if s'.status == Completed then Some(op.now) else None))
  {
    if op.Patch? {
      NumbersAreFree(s, op.append);
    }
  }

  // ---- The log over a run ------------------------------------------------------------------

  /** The drafts of the patches of a run that pass the three tests, in order. */
  function AcceptedDrafts(s: Session, ops: seq<Op>): seq<Draft>
    decreases |ops|
  {
    if ops == [] then []
    else
      var op := ops[0];
      var passes := op.Patch? && op.user == s.owner && s.status == Active && s.messageCount + |op.append| <= 200;
      (if passes then op.append else []) + AcceptedDrafts(Apply(s, op).0, ops[1..])
  }

  /** `after` is `before` with these drafts numbered on. */
  ghost predicate Continues(before: seq<ChatMessage>, after: seq<ChatMessage>, more: seq<Draft>) {
    && |after| == |before| + |more| && after[..|before|] == before
    && (forall i :: 0 <= i < |more| ==> after[|before| + i] == ChatMessage(|before| + i + 1, more[i].role, more[i].parts))
  }

  lemma LogStep(s: Session, op: Op)
    requires Inv(s)
    ensures Continues(s.messages, Apply(s, op).0.messages, AcceptedDrafts(s, [op]))
  {
    hide Numbered, Collides;
    assert AcceptedDrafts(Apply(s, op).0, [op][1..]) == [];
    if op.Patch? {
      PatchExactly(s, op.user, op.append, op.draft, op.stage, op.now);
    }
    assert s.messages[..s.messageCount] == s.messages;
  }

  /** Over any run the log is the initial one followed by exactly the accepted drafts, in the order of
      their patches, numbered on from it: nothing is lost, repeated or reordered. */
  lemma {:induction false} LogIsWhatWasAccepted(s: Session, ops: seq<Op>)
    requires Inv(s)
    ensures Continues(s.messages, Run(s, ops).messages, AcceptedDrafts(s, ops))
    decreases |ops|
  {
    hide Apply;
    if ops == [] {
      assert s.messages[..s.messageCount] == s.messages;
    } else {
      var mid, first := Apply(s, ops[0]).0, AcceptedDrafts(s, [ops[0]]);
      StepKeepsInv(s, ops[0]);
      LogStep(s, ops[0]);
      LogIsWhatWasAccepted(mid, ops[1..]);
      assert AcceptedDrafts(mid, [ops[0]][1..]) == [];
      assert AcceptedDrafts(s, ops) == first + AcceptedDrafts(mid, ops[1..]);
      LogsJoin(s.messages, mid.messages, Run(s, ops).messages, first, AcceptedDrafts(mid, ops[1..]));
    }
  }

  lemma LogsJoin(a: seq<ChatMessage>, b: seq<ChatMessage>, c: seq<ChatMessage>, first: seq<Draft>, second: seq<Draft>)
    requires Continues(a, b, first) && Continues(b, c, second)
    ensures Continues(a, c, first + second)
  {
    assert forall k :: 0 <= k < |b| ==> c[k] == c[..|b|][k] == b[k];
    assert forall k :: 0 <= k < |a| ==> b[k] == b[..|a|][k] == a[k];
    assert forall i :: |first| <= i < |first| + |second| ==> (first + second)[i] == second[i - |first|];
  }

  // ---- Creation ------------------------------------------------------------------------

  datatype ProjectStatus = DraftProject | Configured | Published | InProgress | ProjectDone | Cancelled

  datatype Mode = Planning | Refine | Extend

  /** MODE_BY_STATUS. */
  function AllowedModes(status: ProjectStatus): set<Mode> {
    match status
    case DraftProject => {Planning, Refine}
    case Configured | Published | InProgress => {Planning, Refine, Extend}
    case ProjectDone | Cancelled => {}
  }

  function CreateSession(project: ProjectStatus, mode: Mode, owner: nat, now: int): Option<Session> {
    if mode in AllowedModes(project) then Some(Created(owner, now)) else None
  }

  /** Whatever follows a creation: the log stays dense and capped. A creation is refused exactly on
      terminal projects, and for `extend` on a draft one. */
  lemma CreatedSessionsStayDense(project: ProjectStatus, mode: Mode, owner: nat, now: int, ops: seq<Op>)
    ensures var made := CreateSession(project, mode, owner, now);
            && (made.None? <==> project.ProjectDone? || project.Cancelled? || (project.DraftProject? && mode.Extend?))
            && (made.Some? ==> made.value == Session(owner, Active, 0, [], 0, None, None, None, now) && Inv(Run(made.value, ops)))
  {
    var made := CreateSession(project, mode, owner, now);
    if made.Some? {
      RunKeepsInv(made.value, ops);
    }
  }

  // ---- Paging ------------------------------------------------------------------------------

  function MessageAt(messages: seq<ChatMessage>, k: nat): (m: ChatMessage)
    requires Has(messages, k)
    ensures m in messages && m.seqNo == k
  {
    if messages[|messages| - 1].seqNo == k then messages[|messages| - 1]
    else
      var front := messages[..|messages| - 1];
      assert Has(front, k) by {
        var i :| 0 <= i < |messages| && messages[i].seqNo == k;
        assert front[i].seqNo == k;
      }
      MessageAt(front, k)
  }

  /** One more than the largest stored number. */
  function Ceiling(messages: seq<ChatMessage>): (c: nat)
    ensures forall i :: 0 <= i < |messages| ==> messages[i].seqNo < c
  {
    if messages == [] then 0
    else
      var front, last := Ceiling(messages[..|messages| - 1]), messages[|messages| - 1].seqNo + 1;
      if front < last then last else front
  }

  /** WHERE seq < below ORDER BY seq DESC LIMIT limit. */
  function Newest(messages: seq<ChatMessage>, below: nat, limit: nat): (page: seq<ChatMessage>)
    ensures |page| <= limit
    decreases below
  {
    if below == 0 || limit == 0 then []
    else if Has(messages, below - 1) then [MessageAt(messages, below - 1)] + Newest(messages, below - 1, limit - 1)
    else Newest(messages, below - 1, limit)
  }

  function ListMessages(messages: seq<ChatMessage>, before: Option<nat>, limit: nat): seq<ChatMessage> {
    Newest(messages, if before.Some? then before.value else Ceiling(messages), limit)
  }

  function NextCursor(page: seq<ChatMessage>, limit: nat): (c: Option<nat>)
    requires limit >= 1
  {
    if |page| == limit then Some(page[|page| - 1].seqNo) else None
  }

  /** What the query means, for any table: the page descends, holds only eligible rows, and every
      eligible number it leaves out is smaller than all of it, with the page then full. */
  ghost predicate IsPage(messages: seq<ChatMessage>, below: nat, limit: nat, page: seq<ChatMessage>) {
    && |page| <= limit
    && (forall i :: 0 <= i < |page| ==> page[i] in messages && page[i].seqNo < below)
    && (forall i, j :: 0 <= i < j < |page| ==> page[i].seqNo > page[j].seqNo)
    && (forall k: nat :: k < below && Has(messages, k) && !Has(page, k) ==>
          |page| == limit && forall i :: 0 <= i < |page| ==> k < page[i].seqNo)
  }

  lemma PageExtends(messages: seq<ChatMessage>, below: nat, limit: nat, m: ChatMessage, rest: seq<ChatMessage>)
    requires IsPage(messages, below, limit, rest) && m in messages && m.seqNo == below
    ensures IsPage(messages, below + 1, limit + 1, [m] + rest)
  {
    var page := [m] + rest;
    assert page[0] == m && forall i :: 0 < i < |page| ==> page[i] == rest[i - 1];
    forall k: nat | k < below + 1 && Has(messages, k) && !Has(page, k)
      ensures |page| == limit + 1 && forall i :: 0 <= i < |page| ==> k < page[i].seqNo
    {
      assert !Has(rest, k) by {
        assert forall i :: 0 <= i < |rest| ==> page[i + 1] == rest[i];
      }
      assert k != page[0].seqNo;
    }
  }

  lemma {:induction false} NewestIsPage(messages: seq<ChatMessage>, below: nat, limit: nat)
    ensures IsPage(messages, below, limit, Newest(messages, below, limit))
    decreases below
  {
    hide MessageAt;
    if below == 0 || limit == 0 {
    } else if Has(messages, below - 1) {
      NewestIsPage(messages, below - 1, limit - 1);
      PageExtends(messages, below - 1, limit - 1, MessageAt(messages, below - 1), Newest(messages, below - 1, limit - 1));
    } else {
      NewestIsPage(messages, below - 1, limit);
      PageSkips(messages, below - 1, limit, Newest(messages, below - 1, limit));
    }
  }

  lemma PageSkips(messages: seq<ChatMessage>, below: nat, limit: nat, page: seq<ChatMessage>)
    requires IsPage(messages, below, limit, page) && !Has(messages, below)
    ensures IsPage(messages, below + 1, limit, page)
  {
    hide Has;
  }

  function Descending(messages: seq<ChatMessage>): (r: seq<ChatMessage>) {
    if messages == [] then [] else [messages[|messages| - 1]] + Descending(messages[..|messages| - 1])
  }

  function Min(a: nat, b: nat): nat {
    if a < b then a else b
  }

  ghost predicate Dense(messages: seq<ChatMessage>) {
    forall i :: 0 <= i < |messages| ==> messages[i].seqNo == i + 1
  }

  lemma DenseLookup(messages: seq<ChatMessage>, k: nat)
    requires Dense(messages) && 1 <= k <= |messages|
    ensures Has(messages, k) && MessageAt(messages, k) == messages[k - 1]
  {
    assert messages[k - 1].seqNo == k;
  }

  lemma DenseCeiling(messages: seq<ChatMessage>)
    requires Dense(messages)
    ensures messages == [] ==> Ceiling(messages) == 0
    ensures messages != [] ==> Ceiling(messages) == |messages| + 1
  {
    if messages != [] {
      DenseCeiling(messages[..|messages| - 1]);
    }
  }

  /** On a dense log a page is the next `limit` messages downward, whatever was appended above. */
  lemma {:induction false} DensePage(messages: seq<ChatMessage>, below: nat, limit: nat)
    requires Dense(messages) && 1 <= below <= |messages| + 1
    ensures var n := below - 1;
            |Descending(messages[..n])| == n && Newest(messages, below, limit) == Descending(messages[..n])[..Min(limit, n)]
    decreases below
  {
    DescendingLength(messages[..below - 1]);
    if limit > 0 {
      if below == 1 {
        assert !Has(messages, 0);
      } else {
        var n := below - 1;
        DenseLookup(messages, n);
        DensePage(messages, n, limit - 1);
        assert messages[..n][..n - 1] == messages[..n - 1];
        var rest := Descending(messages[..n - 1]);
        assert Descending(messages[..n]) == [messages[n - 1]] + rest;
        assert ([messages[n - 1]] + rest)[..Min(limit, n)] == [messages[n - 1]] + rest[..Min(limit - 1, n - 1)];
      }
    }
  }

  lemma {:induction false} DescendingLength(messages: seq<ChatMessage>)
    ensures |Descending(messages)| == |messages|
  {
    if messages != [] {
      DescendingLength(messages[..|messages| - 1]);
    }
  }

  lemma {:induction false} DescendingSplits(messages: seq<ChatMessage>, k: nat)
    requires k <= |messages|
    ensures |Descending(messages)| == |messages|
    ensures Descending(messages)[k..] == Descending(messages[..|messages| - k])
    ensures forall i :: 0 <= i < |messages| ==> Descending(messages)[i] == messages[|messages| - 1 - i]
  {
    DescendingLength(messages);
    if messages != [] {
      var front := messages[..|messages| - 1];
      if k > 0 {
        DescendingSplits(front, k - 1);
        assert Descending(messages)[k..] == Descending(front)[k - 1..];
        assert front[..|front| - (k - 1)] == messages[..|messages| - k];
      } else {
        DescendingSplits(front, 0);
        assert messages[..|messages|] == messages;
      }
    }
  }

  // ---- Following the cursor ---------------------------------------------------------------------

  function Concat(pages: seq<seq<ChatMessage>>): seq<ChatMessage> {
    if pages == [] then [] else pages[0] + Concat(pages[1..])
  }

  /** A client that asks for `limit` messages below `cursor` and follows `next_cursor` to the end,
      while between its requests the session undergoes the operations of `between`. */
  ghost function Follow(s: Session, cursor: Option<nat>, limit: nat, between: seq<seq<Op>>): seq<seq<ChatMessage>>
    requires Inv(s) && limit >= 1 && (cursor.Some? ==> 1 <= cursor.value <= s.messageCount + 1)
    decreases if cursor.Some? then cursor.value else s.messageCount + 2
  {
    var page := ListMessages(s.messages, cursor, limit);
    var next := NextCursor(page, limit);
    if next.None? then [page]
    else
      var ops := if between == [] then [] else between[0];
      var later := Run(s, ops);
      PageStep(s, cursor, limit, ops);
      [page] + Follow(later, next, limit, if between == [] then [] else between[1..])
  }

  ghost function Bound(s: Session, cursor: Option<nat>): nat {
    if cursor.Some? then cursor.value else s.messageCount + 1
  }

  lemma PageFromBound(s: Session, cursor: Option<nat>, limit: nat)
    requires Inv(s) && limit >= 1 && (cursor.Some? ==> 1 <= cursor.value <= s.messageCount + 1)
    ensures var n := Bound(s, cursor) - 1;
            && |Descending(s.messages[..n])| == n
            && ListMessages(s.messages, cursor, limit) == Descending(s.messages[..n])[..Min(limit, n)]
  {
    hide Newest, Ceiling, Descending;
    var n := Bound(s, cursor) - 1;
    if cursor.None? {
      DenseCeiling(s.messages);
    }
    if cursor.None? && s.messages == [] {
      EmptyPage(limit);
      assert s.messages[..0] == [];
    } else {
      DensePage(s.messages, n + 1, limit);
    }
  }

  lemma EmptyPage(limit: nat)
    ensures Descending([]) == [] && Newest([], 0, limit) == []
  {
  }

  lemma PageStep(s: Session, cursor: Option<nat>, limit: nat, ops: seq<Op>)
    requires Inv(s) && limit >= 1 && (cursor.Some? ==> 1 <= cursor.value <= s.messageCount + 1)
    requires NextCursor(ListMessages(s.messages, cursor, limit), limit).Some?
    ensures var n := Bound(s, cursor) - 1;
            var next := NextCursor(ListMessages(s.messages, cursor, limit), limit).value;
            && n >= limit && next == n - limit + 1
            && Inv(Run(s, ops)) && next <= Run(s, ops).messageCount + 1
            && Run(s, ops).messages[..n - limit] == s.messages[..n - limit]
  {
    hide Newest, Ceiling, Descending, Apply, Run;
    var n := Bound(s, cursor) - 1;
    PageFromBound(s, cursor, limit);
    RunKeepsInv(s, ops);
    DescendingSplits(s.messages[..n], 0);
    var page := ListMessages(s.messages, cursor, limit);
    assert page[limit - 1] == s.messages[..n][n - limit];
  }

  /** A full page followed by the descending rest is the descending whole. */
  lemma PageThenRest(messages: seq<ChatMessage>, later: seq<ChatMessage>, n: nat, limit: nat, pages: seq<seq<ChatMessage>>)
    requires n <= |messages| && limit <= n <= |later| + limit && later[..n - limit] == messages[..n - limit]
    requires Concat(pages) == Descending(later[..n - limit])
    ensures |Descending(messages[..n])| == n
    ensures Concat([Descending(messages[..n])[..limit]] + pages) == Descending(messages[..n])
  {
    DescendingSplits(messages[..n], limit);
    assert messages[..n][..n - limit] == messages[..n - limit];
    var all := Descending(messages[..n]);
    assert Concat([all[..limit]] + pages) == all[..limit] + Concat(pages) by {
      assert ([all[..limit]] + pages)[1..] == pages;
    }
    assert all == all[..limit] + all[limit..];
  }

  lemma FollowEnds(s: Session, cursor: Option<nat>, limit: nat, between: seq<seq<Op>>)
    requires Inv(s) && limit >= 1 && (cursor.Some? ==> 1 <= cursor.value <= s.messageCount + 1)
    requires NextCursor(ListMessages(s.messages, cursor, limit), limit).None?
    ensures Follow(s, cursor, limit, between) == [ListMessages(s.messages, cursor, limit)]
  {
  }

  lemma FollowGoesOn(s: Session, cursor: Option<nat>, limit: nat, between: seq<seq<Op>>)
    returns (later: Session, rest: seq<seq<Op>>)
    requires Inv(s) && limit >= 1 && (cursor.Some? ==> 1 <= cursor.value <= s.messageCount + 1)
    requires NextCursor(ListMessages(s.messages, cursor, limit), limit).Some?
    ensures var n := Bound(s, cursor) - 1;
            var next := NextCursor(ListMessages(s.messages, cursor, limit), limit);
            && n >= limit && next.value == n - limit + 1
            && Inv(later) && next.value <= later.messageCount + 1
            && later.messages[..n - limit] == s.messages[..n - limit]
            && Follow(s, cursor, limit, between)
                 == [ListMessages(s.messages, cursor, limit)] + Follow(later, next, limit, rest)
  {
    hide Newest, Run, Ceiling, Descending;
    var ops := if between == [] then [] else between[0];
    PageStep(s, cursor, limit, ops);
    later, rest := Run(s, ops), if between == [] then [] else between[1..];
  }

  lemma {:induction false} FollowBelow(s: Session, cursor: Option<nat>, limit: nat, between: seq<seq<Op>>)
    requires Inv(s) && limit >= 1 && (cursor.Some? ==> 1 <= cursor.value <= s.messageCount + 1)
    ensures Bound(s, cursor) - 1 <= |s.messages|
    ensures Concat(Follow(s, cursor, limit, between)) == Descending(s.messages[..Bound(s, cursor) - 1])
    decreases if cursor.Some? then cursor.value else s.messageCount + 2
  {
    hide Newest, Descending, Run, Ceiling, Follow, Concat;
    var n := Bound(s, cursor) - 1;
    var page := ListMessages(s.messages, cursor, limit);
    PageFromBound(s, cursor, limit);
    if NextCursor(page, limit).None? {
      FollowEnds(s, cursor, limit, between);
      ConcatOne(page);
    } else {
      var later, rest := FollowGoesOn(s, cursor, limit, between);
      FollowBelow(later, NextCursor(page, limit), limit, rest);
      PageThenRest(s.messages, later.messages, n, limit, Follow(later, NextCursor(page, limit), limit, rest));
    }
  }

  lemma ConcatOne(page: seq<ChatMessage>)
    ensures Concat([page]) == page
  {
    assert Concat([page]) == page + [];
  }

  /** The number of requests is floor(n / limit) + 1: an exact multiple costs one empty page. */
  lemma {:induction false} FollowCount(s: Session, cursor: Option<nat>, limit: nat, between: seq<seq<Op>>)
    requires Inv(s) && limit >= 1 && (cursor.Some? ==> 1 <= cursor.value <= s.messageCount + 1)
    ensures |Follow(s, cursor, limit, between)| == (Bound(s, cursor) - 1) / limit + 1
    decreases if cursor.Some? then cursor.value else s.messageCount + 2
  {
    hide Newest, Descending, Run, Ceiling, Follow, Concat;
    var n := Bound(s, cursor) - 1;
    var page := ListMessages(s.messages, cursor, limit);
    PageFromBound(s, cursor, limit);
    if NextCursor(page, limit).None? {
      FollowEnds(s, cursor, limit, between);
      ModularShift(n, limit, 0, n);
    } else {
      var later, rest := FollowGoesOn(s, cursor, limit, between);
      FollowCount(later, NextCursor(page, limit), limit, rest);
      DivideAfterStep(n, limit);
    }
  }

  /** From the head, with any page size and any operations between the requests, the client sees
      the messages present at the start exactly once, newest first, in floor(n / limit) + 1 pages. */
  lemma CursorEnumeratesTheLog(s: Session, limit: nat, between: seq<seq<Op>>)
    requires Inv(s) && limit >= 1
    ensures var pages := Follow(s, None, limit, between);
            && |pages| == s.messageCount / limit + 1
            && |Concat(pages)| == s.messageCount
            && forall i :: 0 <= i < s.messageCount ==> Concat(pages)[i] == s.messages[s.messageCount - 1 - i]
  {
    hide Newest, Ceiling, Descending, Follow, Concat, Run;
    FollowBelow(s, None, limit, between);
    FollowCount(s, None, limit, between);
    assert s.messages[..s.messageCount] == s.messages;
    DescendingSplits(s.messages, 0);
  }
}
