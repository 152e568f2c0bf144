/** The history of a queue run, told from its events alone. */
module QueueAccounts {
  import opened StorageQueue
  import opened QueueWorker
  import opened QueueProtocol
  import opened QueueRuns

  /** The row this worker claimed last. */
  ghost predicate LastClaim(es: seq<Event>, w: nat, id: nat) {
    exists k :: LastClaimAt(es, w, id, k)
  }

  ghost predicate LastClaimAt(es: seq<Event>, w: nat, id: nat, k: int) {
    && 0 <= k < |es| && es[k] == Claim(w, id)
    && forall j :: k < j < |es| ==> !(es[j].Claim? && es[j].worker == w)
  }

  /** At this position a worker succeeds in delivering the row it claimed last. */
  ghost predicate Delivers(es: seq<Event>, i: int, id: nat) {
    0 <= i < |es| && es[i].Attempt? && es[i].success && LastClaim(es[..i], es[i].worker, id)
  }

  ghost function Deliveries(es: seq<Event>, id: nat): set<int> {
    set i | 0 <= i < |es| && Delivers(es, i, id)
  }

  ghost function Claims(es: seq<Event>, id: nat): set<int> {
    set i | 0 <= i < |es| && es[i].Claim? && es[i].id == id
  }

  ghost function Enqueues(es: seq<Event>): set<int> {
    set i | 0 <= i < |es| && es[i].Enqueue?
  }

  /** The event that gave out this id was for this message. */
  ghost predicate EnqueuedFor(es: seq<Event>, id: nat, m: int) {
    exists i :: 0 <= i < |es| && es[i].Enqueue? && es[i].message == m && |Enqueues(es[..i])| == id - 1
  }

  /** The administrator deleted the row, or somebody its message. */
  ghost predicate Deleted(es: seq<Event>, id: nat) {
    || AdminDelete(id) in es
    || exists m :: DeleteMessage(m) in es && EnqueuedFor(es, id, m)
  }

  // ----- One event more -----

  lemma LastClaimSnoc(es: seq<Event>, e: Event, w: nat, id: nat)
    ensures LastClaim(es + [e], w, id) <==>
      e == Claim(w, id) || (LastClaim(es, w, id) && !(e.Claim? && e.worker == w))
  {
    var all := es + [e];
    assert all[|es|] == e && forall i :: 0 <= i < |es| ==> all[i] == es[i];
    if e == Claim(w, id) {
      assert LastClaimAt(all, w, id, |es|);
    }
    if k :| LastClaimAt(es, w, id, k) && !(e.Claim? && e.worker == w) {
      assert LastClaimAt(all, w, id, k);
    }
    if k :| LastClaimAt(all, w, id, k) && k < |es| {
      assert LastClaimAt(es, w, id, k);
    }
  }

  lemma OneLastClaim(es: seq<Event>, w: nat, a: nat, b: nat)
    requires LastClaim(es, w, a) && LastClaim(es, w, b)
    ensures a == b
  {
  }

  lemma DeliveriesSnoc(es: seq<Event>, e: Event, id: nat)
    ensures var delivers := e.Attempt? && e.success && LastClaim(es, e.worker, id);
      |Deliveries(es + [e], id)| == |Deliveries(es, id)| + if delivers then 1 else 0
  {
    hide LastClaim;
    var all := es + [e];
    assert all[..|es|] == es;
    forall i | 0 <= i < |es|
      ensures Delivers(all, i, id) <==> Delivers(es, i, id)
    {
      assert all[..i] == es[..i];
    }
    var delivers := e.Attempt? && e.success && LastClaim(es, e.worker, id);
    assert Deliveries(all, id) == Deliveries(es, id) + if delivers then {|es|} else {};
  }

  lemma ClaimsSnoc(es: seq<Event>, e: Event, id: nat)
    ensures |Claims(es + [e], id)| == |Claims(es, id)| + if e.Claim? && e.id == id then 1 else 0
  {
    var all := es + [e];
    assert all[|es|] == e && forall i :: 0 <= i < |es| ==> all[i] == es[i];
    assert Claims(all, id) == Claims(es, id) + if e.Claim? && e.id == id then {|es|} else {};
  }

  lemma EnqueuesSnoc(es: seq<Event>, e: Event)
    ensures |Enqueues(es + [e])| == |Enqueues(es)| + if e.Enqueue? then 1 else 0
  {
    var all := es + [e];
    assert all[|es|] == e && forall i :: 0 <= i < |es| ==> all[i] == es[i];
    assert Enqueues(all) == Enqueues(es) + if e.Enqueue? then {|es|} else {};
  }

  lemma EnqueuedForSnoc(es: seq<Event>, e: Event, id: nat, m: int)
    ensures EnqueuedFor(es, id, m) ==> EnqueuedFor(es + [e], id, m)
    ensures e.Enqueue? && e.message == m && id == |Enqueues(es)| + 1 ==> EnqueuedFor(es + [e], id, m)
  {
    hide Enqueues;
    var all := es + [e];
    if i :| 0 <= i < |es| && es[i].Enqueue? && es[i].message == m && |Enqueues(es[..i])| == id - 1 {
      assert all[i] == es[i] && all[..i] == es[..i];
    }
    if e.Enqueue? && e.message == m && id == |Enqueues(es)| + 1 {
      assert all[|es|] == e && all[..|es|] == es;
    }
  }

  lemma DeletedSnoc(es: seq<Event>, e: Event, id: nat)
    ensures Deleted(es, id) ==> Deleted(es + [e], id)
    ensures e == AdminDelete(id) ==> Deleted(es + [e], id)
    ensures e.DeleteMessage? && EnqueuedFor(es, id, e.message) ==> Deleted(es + [e], id)
  {
    hide EnqueuedFor;
    var all := es + [e];
    assert e in all && forall x <- es :: x in all;
    forall m: int
      ensures EnqueuedFor(es, id, m) ==> EnqueuedFor(all, id, m)
    {
      EnqueuedForSnoc(es, e, id, m);
    }
  }

  // ----- What the state records is what happened -----

  ghost predicate WorkersTraced(es: seq<Event>, s: State) {
    forall w: nat | w < |s.workers| && !s.workers[w].Idle? :: LastClaim(es, w, s.workers[w].id)
  }

  ghost predicate RowsTraced(es: seq<Event>, s: State) {
    && s.table.lastId == |Enqueues(es)|
    && (forall id <- s.table.rows :: EnqueuedFor(es, id, s.table.rows[id].messageId))
    && (forall id <- s.log.removed :: Deleted(es, id))
  }

  lemma WorkersStep(es: seq<Event>, s: State, e: Event, maxRetries: int)
    requires WorkersTraced(es, s) && Enabled(s, e)
    ensures WorkersTraced(es + [e], Apply(s, e, maxRetries))
  {
    hide LastClaim, Removed, Failed, Claimed, Enqueued, MessageDeleted, FailureLogged, Oldest, Claimable;
    var s' := Apply(s, e, maxRetries);
    forall w: nat | w < |s'.workers| && !s'.workers[w].Idle?
      ensures LastClaim(es + [e], w, s'.workers[w].id)
    {
      LastClaimSnoc(es, e, w, s'.workers[w].id);
    }
  }

  lemma RowBefore(s: State, e: Event, maxRetries: int, id: nat)
    requires Enabled(s, e) && id in Apply(s, e, maxRetries).table.rows
    ensures var row := Apply(s, e, maxRetries).table.rows[id];
      || (id in s.table.rows && s.table.rows[id].messageId == row.messageId)
      || (e.Enqueue? && id == s.table.lastId + 1 && e.message == row.messageId)
  {
  }

  lemma RowStep(es: seq<Event>, s: State, e: Event, maxRetries: int, id: nat)
    requires RowsTraced(es, s) && Enabled(s, e) && id in Apply(s, e, maxRetries).table.rows
    ensures EnqueuedFor(es + [e], id, Apply(s, e, maxRetries).table.rows[id].messageId)
  {
    hide EnqueuedFor, Deleted, Enabled, Apply, Enqueues;
    RowBefore(s, e, maxRetries, id);
    EnqueuedForSnoc(es, e, id, Apply(s, e, maxRetries).table.rows[id].messageId);
  }

  lemma RemovedStep(es: seq<Event>, s: State, e: Event, maxRetries: int, id: nat)
    requires RowsTraced(es, s) && Enabled(s, e) && id in Apply(s, e, maxRetries).log.removed
    ensures Deleted(es + [e], id)
  {
    hide EnqueuedFor, Deleted, Oldest, Claimable, Enqueues;
    DeletedSnoc(es, e, id);
  }

  lemma RowsStep(es: seq<Event>, s: State, e: Event, maxRetries: int)
    requires RowsTraced(es, s) && Enabled(s, e)
    ensures RowsTraced(es + [e], Apply(s, e, maxRetries))
  {
    hide EnqueuedFor, Deleted, FailureLogged, Oldest, Claimable, Enqueues;
    EnqueuesSnoc(es, e);
    var s' := Apply(s, e, maxRetries);
    forall id <- s'.table.rows
      ensures EnqueuedFor(es + [e], id, s'.table.rows[id].messageId)
    {
      RowStep(es, s, e, maxRetries, id);
    }
    forall id <- s'.log.removed
      ensures Deleted(es + [e], id)
    {
      RemovedStep(es, s, e, maxRetries, id);
    }
  }

  lemma CountStep(es: seq<Event>, s: State, e: Event, maxRetries: int, id: nat)
    requires WorkersTraced(es, s) && Enabled(s, e)
    ensures Apply(s, e, maxRetries).log.claims[id] - s.log.claims[id] == |Claims(es + [e], id)| - |Claims(es, id)|
    ensures Apply(s, e, maxRetries).log.deliveries[id] - s.log.deliveries[id]
         == |Deliveries(es + [e], id)| - |Deliveries(es, id)|
  {
    hide LastClaim, Claims, Deliveries, Oldest, Claimable;
    ClaimsSnoc(es, e, id);
    DeliveriesSnoc(es, e, id);
    if e.Attempt? && LastClaim(es, e.worker, id) {
      OneLastClaim(es, e.worker, id, s.workers[e.worker].id);
    }
  }

  lemma {:induction false} LastStep(s: State, es: seq<Event>, s': State, maxRetries: int) returns (mid: State)
    requires Runs(s, es, s', maxRetries) && es != []
    ensures Runs(s, es[..|es| - 1], mid, maxRetries)
    ensures Enabled(mid, es[|es| - 1]) && s' == Apply(mid, es[|es| - 1], maxRetries)
    decreases |es|
  {
    hide Enabled, Apply;
    if |es| == 1 {
      mid := s;
    } else {
      mid := LastStep(Apply(s, es[0], maxRetries), es[1..], s', maxRetries);
      assert es[..|es| - 1][1..] == es[1..][..|es| - 2];
    }
  }

  /**
    In every run from an empty queue the recorded claims of an id are its claim events, its recorded deliveries the
    successful attempts of workers that claimed it last, ids are the numbers of the enqueueings, and what is recorded as
    removed was deleted, itself or with the message it was enqueued for.
   */
  lemma {:induction false} HistoryFromEvents(now: int, workers: nat, es: seq<Event>, s: State, maxRetries: int, id: nat)
    requires Runs(Start(now, workers), es, s, maxRetries)
    ensures WorkersTraced(es, s) && RowsTraced(es, s)
    ensures s.log.claims[id] == |Claims(es, id)| && s.log.deliveries[id] == |Deliveries(es, id)|
    decreases |es|
  {
    if es != [] {
      hide WorkersTraced, RowsTraced, Claims, Deliveries, Enabled, Apply;
      var mid := LastStep(Start(now, workers), es, s, maxRetries);
      var before, e := es[..|es| - 1], es[|es| - 1];
      assert es == before + [e];
      HistoryFromEvents(now, workers, before, mid, maxRetries, id);
      WorkersStep(before, mid, e, maxRetries);
      RowsStep(before, mid, e, maxRetries);
      CountStep(before, mid, e, maxRetries, id);
    }
  }

  /** An id that has left the queue without being deleted was completed if it was delivered, else given up. */
  lemma FateFromEvents(now: int, workers: nat, es: seq<Event>, s: State, maxRetries: int, id: nat)
    requires Runs(Start(now, workers), es, s, maxRetries)
    requires 1 <= id <= |Enqueues(es)| && id !in s.table.rows && !Deleted(es, id)
    ensures id in s.log.completed <==> exists i :: Delivers(es, i, id)
    ensures id in s.log.exhausted <==> !exists i :: Delivers(es, i, id)
  {
    HistoryFromEvents(now, workers, es, s, maxRetries, id);
    StartInv(now, workers, maxRetries);
    RunInv(Start(now, workers), es, s, maxRetries);
    assert IdOk(s, id, maxRetries);
    assert (exists i :: Delivers(es, i, id)) <==> Deliveries(es, id) != {} by {
      assert forall i :: Delivers(es, i, id) ==> i in Deliveries(es, id);
      assert forall i <- Deliveries(es, id) :: Delivers(es, i, id);
    }
  }

  // ----- When -----

  /** The time after these events. */
  function Time(now: int, es: seq<Event>): int {
    if es == [] then now
    else Time(now, es[..|es| - 1]) + if es[|es| - 1].Tick? then es[|es| - 1].seconds else 0
  }

  /** At this position a worker ends its turn with the row it claimed last. */
  ghost predicate Finishes(es: seq<Event>, i: int, id: nat) {
    0 <= i < |es| && es[i].Finish? && LastClaim(es[..i], es[i].worker, id)
  }

  ghost function Turns(es: seq<Event>, id: nat): set<int> {
    set i | 0 <= i < |es| && Finishes(es, i, id)
  }

  /** The turn with this many before it ended at this time. */
  ghost predicate EndedTurn(now: int, es: seq<Event>, id: nat, before: nat, time: int) {
    exists i :: 0 <= i < |es| && Finishes(es, i, id) && |Turns(es[..i], id)| == before && Time(now, es[..i]) == time
  }

  ghost predicate TimesTraced(now: int, es: seq<Event>, s: State, maxRetries: int, id: nat) {
    && s.now == Time(now, es)
    && s.log.finishes[id] == |Turns(es, id)|
    && (id in s.log.firstFailure ==> EndedTurn(now, es, id, 0, s.log.firstFailure[id]))
    && (id in s.log.exhausted ==> EndedTurn(now, es, id, Retries(maxRetries), s.log.exhausted[id]))
  }

  lemma TurnsSnoc(es: seq<Event>, e: Event, id: nat)
    ensures var ends := e.Finish? && LastClaim(es, e.worker, id);
      |Turns(es + [e], id)| == |Turns(es, id)| + if ends then 1 else 0
  {
    hide LastClaim;
    var all := es + [e];
    assert all[..|es|] == es;
    forall i | 0 <= i < |es|
      ensures Finishes(all, i, id) <==> Finishes(es, i, id)
    {
      assert all[..i] == es[..i];
    }
    var ends := e.Finish? && LastClaim(es, e.worker, id);
    assert Turns(all, id) == Turns(es, id) + if ends then {|es|} else {};
  }

  lemma EndedTurnSnoc(now: int, es: seq<Event>, e: Event, id: nat, before: nat, time: int)
    ensures EndedTurn(now, es, id, before, time) ==> EndedTurn(now, es + [e], id, before, time)
    ensures e.Finish? && LastClaim(es, e.worker, id) && |Turns(es, id)| == before && Time(now, es) == time ==>
      EndedTurn(now, es + [e], id, before, time)
  {
    hide LastClaim, Turns, Time;
    var all := es + [e];
    assert all[..|es|] == es && all[|es|] == e;
    if i :| 0 <= i < |es| && Finishes(es, i, id) && |Turns(es[..i], id)| == before && Time(now, es[..i]) == time {
      assert all[..i] == es[..i] && all[i] == es[i] && Finishes(all, i, id);
    }
    if e.Finish? && LastClaim(es, e.worker, id) {
      assert Finishes(all, |es|, id);
    }
  }

  /** What a step does to the record of an id's failures. */
  lemma FailureRecord(s: State, e: Event, maxRetries: int, id: nat)
    requires Inv(s, maxRetries) && Enabled(s, e)
    ensures var s' := Apply(s, e, maxRetries);
      var ends := e.Finish? && s.workers[e.worker].id == id;
      && s'.now == s.now + (if e.Tick? then e.seconds else 0)
      && s'.log.finishes[id] == s.log.finishes[id] + (if ends then 1 else 0)
      && (id in s'.log.firstFailure ==>
           || (id in s.log.firstFailure && s'.log.firstFailure[id] == s.log.firstFailure[id])
           || (ends && s.log.finishes[id] == 0 && s'.log.firstFailure[id] == s.now))
      && (id in s'.log.exhausted ==>
           || (id in s.log.exhausted && s'.log.exhausted[id] == s.log.exhausted[id])
           || (ends && s.log.finishes[id] == Retries(maxRetries) && s'.log.exhausted[id] == s.now))
  {
    hide Held, WorkerOk, OneFate, DeliveredOnce, Oldest, Claimable, TotalBackoff, Backoff;
    assert IdOk(s, id, maxRetries);
  }

  lemma TimesStep(now: int, es: seq<Event>, s: State, e: Event, maxRetries: int, id: nat)
    requires Inv(s, maxRetries) && Enabled(s, e) && WorkersTraced(es, s) && TimesTraced(now, es, s, maxRetries, id)
    ensures TimesTraced(now, es + [e], Apply(s, e, maxRetries), maxRetries, id)
  {
    hide Inv, Enabled, Apply, LastClaim, Turns, EndedTurn;
    var s', all := Apply(s, e, maxRetries), es + [e];
    FailureRecord(s, e, maxRetries, id);
    TurnsSnoc(es, e, id);
    TurnOf(es, s, e, id);
    assert all[..|es|] == es;
    if id in s'.log.firstFailure {
      EndedTurnSnoc(now, es, e, id, 0, s'.log.firstFailure[id]);
    }
    if id in s'.log.exhausted {
      EndedTurnSnoc(now, es, e, id, Retries(maxRetries), s'.log.exhausted[id]);
    }
  }

  lemma TurnOf(es: seq<Event>, s: State, e: Event, id: nat)
    requires Enabled(s, e) && WorkersTraced(es, s)
    ensures e.Finish? ==> (LastClaim(es, e.worker, id) <==> s.workers[e.worker].id == id)
  {
  }

  lemma {:induction false} TimesFromEvents(now: int, workers: nat, es: seq<Event>, s: State, maxRetries: int, id: nat)
    requires Runs(Start(now, workers), es, s, maxRetries)
    ensures Inv(s, maxRetries) && TimesTraced(now, es, s, maxRetries, id)
    decreases |es|
  {
    hide Inv, Enabled, Apply, EndedTurn, WorkersTraced, RowsTraced;
    StartInv(now, workers, maxRetries);
    RunInv(Start(now, workers), es, s, maxRetries);
    if es != [] {
      var mid := LastStep(Start(now, workers), es, s, maxRetries);
      var before, e := es[..|es| - 1], es[|es| - 1];
      assert es == before + [e];
      TimesFromEvents(now, workers, before, mid, maxRetries, id);
      HistoryFromEvents(now, workers, before, mid, maxRetries, id);
      TimesStep(now, before, mid, e, maxRetries, id);
    }
  }

  /**
    An id given up as exhausted had its first turn and, maxRetries turns later, its last, and between their ends lay at
    least the delays of the schedule.
   */
  lemma GivenUpAfterBackoff(now: int, workers: nat, es: seq<Event>, s: State, maxRetries: int, id: nat)
    requires Runs(Start(now, workers), es, s, maxRetries) && id in s.log.exhausted
    ensures exists first, last ::
      && EndedTurn(now, es, id, 0, first) && EndedTurn(now, es, id, Retries(maxRetries), last)
      && last - first >= TotalBackoff(Retries(maxRetries))
  {
    hide Inv, Runs, EndedTurn, TotalBackoff;
    TimesFromEvents(now, workers, es, s, maxRetries, id);
    RetryBudget(now, workers, es, s, maxRetries);
  }

  // ----- Nobody gets stuck -----

  /** A worker between steps can always take the next one, and an idle one can always poll. */
  lemma WorkersNeverStuck(s: State, w: nat) returns (e: Event)
    requires w < |s.workers|
    ensures Enabled(s, e)
    ensures match s.workers[w]
      case Idle => (e.Claim? || e.ClaimNothing?) && e.worker == w
      case Attempting(_, _) => e == Attempt(w, true) && Enabled(s, Attempt(w, false))
      case Settled(_, _, _) => e == Finish(w)
  {
    match s.workers[w]
    case Attempting(_, _) => e := Attempt(w, true);
    case Settled(_, _, _) => e := Finish(w);
    case Idle =>
      var due := set id | id in s.table.rows && Claimable(s.table, s.now, id);
      if due == {} {
        assert forall id <- s.table.rows :: Claimable(s.table, s.now, id) ==> id in due;
        e := ClaimNothing(w);
      } else {
        var id := OldestExists(s.table, s.now, due);
        assert forall c <- s.table.rows :: Claimable(s.table, s.now, c) ==> c in due;
        e := Claim(w, id);
      }
  }

  /** Time, new messages, the administrator and deletions wait for nobody. */
  lemma OthersNeverWait(s: State, seconds: nat, message: int, id: nat)
    ensures Enabled(s, Tick(seconds)) && Enabled(s, NewMessage(message))
    ensures Enabled(s, AdminDelete(id)) && Enabled(s, DeleteMessage(message))
    ensures forall m <- s.table.messages, rcpt :: Enabled(s, Enqueue(m, rcpt))
  {
  }
}
