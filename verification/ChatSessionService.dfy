/** The session row as `ProjectChatSessionService` updates it in place, one locked transaction a call. */
module ChatSessionService {
  import opened ChatLog
  import opened Text

  class ChatSession {
    const owner: nat
    var status: ChatStatus
    var messageCount: nat
    var messages: seq<ChatMessage>
    var draft: nat
    var stage: Option<nat>
    var implementedAt: Option<int>
    var createdTaskIds: Option<seq<nat>>
    var updatedAt: int

    function State(): Session
      reads this
    {
      Session(owner, status, messageCount, messages, draft, stage, implementedAt, createdTaskIds, updatedAt)
    }

    constructor (user: nat, now: int)
      ensures State() == Created(user, now)
    {
      owner := user;
      status, messageCount, messages := Active, 0, [];
      draft, stage := 0, None;
      implementedAt, createdTaskIds, updatedAt := None, None, now;
    }

    method PatchSession(user: nat, append: seq<Draft>, newDraft: Option<nat>, newStage: Option<Option<nat>>, now: int)
      returns (out: Outcome)
      modifies this
      ensures (State(), out) == Apply(old(State()), Patch(user, append, newDraft, newStage, now))
    {
      if user != owner {
        return NotFound;
      }
      if status != Active {
        return NotActive;
      }
      var newCount := messageCount + |append|;
      if newCount > MAX_MESSAGES {
        return LimitExceeded;
      }
      var before := State();
      if |append| > 0 {
        var rows := BuildRows(messageCount, append);
        if Collides(messages, rows) {
          return SeqTaken;
        }
        messages := messages + rows;
        messageCount := newCount;
      } else {
        assert Numbered(messageCount + 1, append) == [];
        assert messages + [] == messages;
      }
      if newDraft.Some? {
        draft := newDraft.value;
      }
      if newStage.Some? {
        stage := newStage.value;
      }
      if State() != before {
        updatedAt := now;
      }
      out := Done;
    }

    /** The `map` that numbers the appended messages. */
    static method BuildRows(count: nat, append: seq<Draft>) returns (rows: seq<ChatMessage>)
      ensures rows == Numbered(count + 1, append)
    {
      rows := [];
      for i := 0 to |append|
        invariant rows == Numbered(count + 1, append)[..i]
      {
        rows := rows + [ChatMessage(count + i + 1, append[i].role, append[i].parts)];
      }
    }

    method SetStatus(user: nat, completed: bool, taskIds: seq<nat>, now: int) returns (out: Outcome)
      modifies this
      ensures (State(), out) == Apply(old(State()), UpdateStatus(user, completed, taskIds, now))
    {
      if user != owner {
        return NotFound;
      }
      if status != Active {
        return NotActive;
      }
      status := if completed then Completed else Abandoned;
      if completed {
        implementedAt := Some(now);
        if |taskIds| > 0 {
          createdTaskIds := Some(taskIds);
        }
      }
      updatedAt := now;
      out := Done;
    }

    /** This row's part of the nightly bulk UPDATE. */
    method Sweep(now: int)
      modifies this
      ensures State() == Apply(old(State()), AbandonStale(now)).0
    {
      if status == Active && updatedAt < now - STALE_MS && messageCount < STALE_MESSAGES {
        status, updatedAt := Abandoned, now;
      }
    }

    method ListPage(before: Option<nat>, limit: nat) returns (page: seq<ChatMessage>, next: Option<nat>)
      requires limit >= 1
      ensures page == ListMessages(messages, before, limit)
      ensures IsPage(messages, if before.Some? then before.value else Ceiling(messages), limit, page)
      ensures next == if |page| == limit then Some(page[limit - 1].seqNo) else None
    {
      page := ListMessages(messages, before, limit);
      NewestIsPage(messages, if before.Some? then before.value else Ceiling(messages), limit);
      next := NextCursor(page, limit);
    }
  }
}
