/** The `queue` table (pkg/storage/queue.go): rows keyed by an AUTOINCREMENT id. */
module StorageQueue {
  import opened Wrappers

  datatype Row = Row(messageId: int, rcptTo: string, nextAttempt: int, attempts: nat, active: bool)

  /** The table, the AUTOINCREMENT high-water mark, and the ids of the `messages` rows it refers to. */
  datatype Table = Table(rows: map<nat, Row>, lastId: nat, messages: set<int>)

  datatype QueueItem = QueueItem(id: nat, row: Row)

  datatype FailResult = Requeued | MaxRetries | NoRow

  const EmptyTable := Table(map[], 0, {})

  ghost predicate ValidTable(t: Table) {
    forall id <- t.rows :: 1 <= id <= t.lastId && t.rows[id].messageId in t.messages
  }

  function Enqueued(t: Table, messageId: int, rcptTo: string, now: int): Table {
    t.(rows := t.rows[t.lastId + 1 := Row(messageId, rcptTo, now, 0, false)], lastId := t.lastId + 1)
  }

  predicate Claimable(t: Table, now: int, id: nat) {
    id in t.rows && !t.rows[id].active && t.rows[id].nextAttempt <= now
  }

  /** `id` may come first under ORDER BY next_attempt; SQL leaves ties open. */
  predicate Oldest(t: Table, now: int, id: nat) {
    && Claimable(t, now, id)
    && forall other <- t.rows :: Claimable(t, now, other) ==> t.rows[id].nextAttempt <= t.rows[other].nextAttempt
  }

  function Claimed(t: Table, id: nat): Table
    requires id in t.rows
  {
    t.(rows := t.rows[id := t.rows[id].(active := true)])
  }

  function Removed(t: Table, id: nat): Table {
    t.(rows := map other | other in t.rows && other != id :: t.rows[other])
  }

  function Requeue(t: Table, id: nat, due: int): Table
    requires id in t.rows
  {
    t.(rows := t.rows[id := t.rows[id].(active := false, attempts := t.rows[id].attempts + 1, nextAttempt := due)])
  }

  function FailOutcome(t: Table, id: nat, maxRetries: int): FailResult {
    if id !in t.rows then NoRow
    else if t.rows[id].attempts >= maxRetries then MaxRetries
    else Requeued
  }

  function Failed(t: Table, id: nat, due: int, maxRetries: int): Table {
    match FailOutcome(t, id, maxRetries)
    case NoRow => t
    case MaxRetries => Removed(t, id)
    case Requeued => Requeue(t, id, due)
  }

  /** Deleting a message takes its queue rows along (ON DELETE CASCADE). */
  function MessageDeleted(t: Table, messageId: int): Table {
    t.(rows := map id | id in t.rows && t.rows[id].messageId != messageId :: t.rows[id],
       messages := t.messages - {messageId})
  }

  /** Among any claimable rows one is oldest, so the SELECT comes back empty only when nothing is claimable. */
  lemma {:induction false} OldestExists(t: Table, now: int, candidates: set<nat>) returns (id: nat)
    requires candidates != {}
    requires forall c <- candidates :: Claimable(t, now, c)
    ensures id in candidates && id in t.rows
    ensures forall c <- candidates :: c in t.rows && t.rows[id].nextAttempt <= t.rows[c].nextAttempt
    decreases candidates
  {
    id :| id in candidates;
    if candidates != {id} {
      var best := OldestExists(t, now, candidates - {id});
      if t.rows[best].nextAttempt < t.rows[id].nextAttempt {
        id := best;
      }
    }
  }

  class QueueStore {
    var rows: map<nat, Row>
    var lastId: nat
    var messages: set<int>

    function Contents(): Table
      reads this
    {
      Table(rows, lastId, messages)
    }

    constructor ()
      ensures Contents() == EmptyTable
    {
      rows, lastId, messages := map[], 0, {};
    }

    method InsertMessage(messageId: int)
      modifies this
      ensures Contents() == old(Contents()).(messages := old(messages) + {messageId})
    {
      messages := messages + {messageId};
    }

    method DeleteMessage(messageId: int)
      modifies this
      ensures Contents() == MessageDeleted(old(Contents()), messageId)
      ensures forall id :: id in rows <==> id in old(rows) && old(rows)[id].messageId != messageId
      ensures (forall id <- rows :: rows[id] == old(rows)[id]) && messages == old(messages) - {messageId}
    {
      rows := map id | id in rows && rows[id].messageId != messageId :: rows[id];
      messages := messages - {messageId};
    }

    /** Fails, changing nothing, when the foreign key does not resolve. */
    method Enqueue(messageId: int, rcptTo: string, now: int) returns (ok: bool)
      modifies this
      ensures ok == (messageId in old(messages))
      ensures Contents() == if ok then Enqueued(old(Contents()), messageId, rcptTo, now) else old(Contents())
      ensures ok ==> lastId == old(lastId) + 1 && rows == old(rows)[lastId := Row(messageId, rcptTo, now, 0, false)]
    {
      ok := messageId in messages;
      if ok {
        lastId := lastId + 1;
        rows := rows[lastId := Row(messageId, rcptTo, now, 0, false)];
      }
    }

    /** The item carries the row as selected, before it is made active. */
    method ClaimNext(now: int) returns (item: Option<QueueItem>)
      modifies this
      ensures item.None? ==> Contents() == old(Contents()) && forall id <- rows :: !Claimable(Contents(), now, id)
      ensures item.Some? ==>
        && Oldest(old(Contents()), now, item.value.id)
        && item.value.row == old(rows)[item.value.id]
        && Contents() == Claimed(old(Contents()), item.value.id)
        && rows == old(rows)[item.value.id := old(rows)[item.value.id].(active := true)]
    {
      var candidates := set id | id in rows && Claimable(Contents(), now, id);
      if candidates == {} {
        assert forall id <- rows :: Claimable(Contents(), now, id) ==> id in candidates;
        return None;
      }
      ghost var witnessId := OldestExists(Contents(), now, candidates);
      assert Oldest(Contents(), now, witnessId);
      var id :| id in rows && Oldest(Contents(), now, id);
      item := Some(QueueItem(id, rows[id]));
      rows := rows[id := rows[id].(active := true)];
    }

    /** Also the administrator's delete; false stands for ErrNotFound. */
    method Complete(id: nat) returns (found: bool)
      modifies this
      ensures found == (id in old(rows))
      ensures Contents() == Removed(old(Contents()), id)
      ensures rows == old(rows) - {id}
    {
      found := id in rows;
      rows := map other | other in rows && other != id :: rows[other];
    }

    method Fail(id: nat, due: int, maxRetries: int) returns (result: FailResult)
      modifies this
      ensures result == FailOutcome(old(Contents()), id, maxRetries)
      ensures Contents() == Failed(old(Contents()), id, due, maxRetries)
      ensures id !in old(rows) ==> result == NoRow && rows == old(rows)
      ensures id in old(rows) && old(rows)[id].attempts >= maxRetries ==> result == MaxRetries && rows == old(rows) - {id}
      ensures id in old(rows) && old(rows)[id].attempts < maxRetries ==>
        && result == Requeued
        && rows == old(rows)[
             id := old(rows)[id].(active := false, attempts := old(rows)[id].attempts + 1, nextAttempt := due)]
    {
      if id !in rows {
        return NoRow;
      }
      if rows[id].attempts >= maxRetries {
        rows := map other | other in rows && other != id :: rows[other];
        return MaxRetries;
      }
      var row := rows[id];
      rows := rows[id := row.(active := false, attempts := row.attempts + 1, nextAttempt := due)];
      result := Requeued;
    }
  }
}
