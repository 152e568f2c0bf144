/**
  The outbound queue as an interleaving of workers, clients, an administrator and message deletions.
  A worker's turn is three steps (claim, attempt, finish); any other step may come in between.
 */
module QueueProtocol {
  import opened StorageQueue
  import opened QueueWorker

  datatype Worker =
    | Idle
    | Attempting(id: nat, seen: nat)
    | Settled(id: nat, seen: nat, delivered: bool)

  /** History kept beside the table; no step reads it. */
  datatype Log = Log(
    claims: multiset<nat>,
    finishes: multiset<nat>,
    deliveries: multiset<nat>,
    completed: set<nat>,
    exhausted: map<nat, int>,
    removed: set<nat>,
    firstFailure: map<nat, int>)

  datatype State = State(now: int, table: Table, workers: seq<Worker>, log: Log)

  datatype Event =
    | Tick(seconds: nat)
    | NewMessage(message: int)
    | Enqueue(message: int, rcptTo: string)
    | Claim(worker: nat, id: nat)
    | ClaimNothing(worker: nat)
    | Attempt(worker: nat, success: bool)
    | Finish(worker: nat)
    | AdminDelete(id: nat)
    | DeleteMessage(message: int)

  function Start(now: int, workers: nat): State {
    State(now, EmptyTable, seq(workers, _ => Idle),
          Log(multiset{}, multiset{}, multiset{}, {}, map[], {}, map[]))
  }

  predicate WorkerIs(s: State, w: nat, id: nat) {
    w < |s.workers| && !s.workers[w].Idle? && s.workers[w].id == id
  }

  ghost predicate Held(s: State, id: nat) {
    exists w: nat :: WorkerIs(s, w, id)
  }

  ghost predicate Enabled(s: State, e: Event) {
    match e
    case Tick(_) => true
    case NewMessage(_) => true
    case Enqueue(m, _) => m in s.table.messages
    case Claim(w, id) => w < |s.workers| && s.workers[w].Idle? && Oldest(s.table, s.now, id)
    case ClaimNothing(w) =>
      w < |s.workers| && s.workers[w].Idle? && forall id <- s.table.rows :: !Claimable(s.table, s.now, id)
    case Attempt(w, _) => w < |s.workers| && s.workers[w].Attempting?
    case Finish(w) => w < |s.workers| && s.workers[w].Settled?
    case AdminDelete(_) => true
    case DeleteMessage(_) => true
  }

  function FailureLogged(log: Log, id: nat, now: int, outcome: FailResult): Log {
    if outcome.NoRow? then log
    else
      var logged := if id in log.firstFailure then log else log.(firstFailure := log.firstFailure[id := now]);
      if outcome.MaxRetries? then logged.(exhausted := logged.exhausted[id := now]) else logged
  }

  function Finished(s: State, w: nat, maxRetries: int): State
    requires w < |s.workers| && s.workers[w].Settled?
  {
    var Settled(id, seen, delivered) := s.workers[w];
    var log := s.log.(finishes := s.log.finishes + multiset{id});
    var idle := s.(workers := s.workers[w := Idle]);
    if delivered then
      idle.(table := Removed(s.table, id),
            log := if id in s.table.rows then log.(completed := log.completed + {id}) else log)
    else
      idle.(table := Failed(s.table, id, s.now + Backoff(seen), maxRetries),
            log := FailureLogged(log, id, s.now, FailOutcome(s.table, id, maxRetries)))
  }

  ghost function Apply(s: State, e: Event, maxRetries: int): State
    requires Enabled(s, e)
  {
    match e
    case Tick(d) => s.(now := s.now + d)
    case NewMessage(m) => s.(table := s.table.(messages := s.table.messages + {m}))
    case Enqueue(m, rcpt) => s.(table := Enqueued(s.table, m, rcpt, s.now))
    case Claim(w, id) =>
      s.(table := Claimed(s.table, id),
         workers := s.workers[w := Attempting(id, s.table.rows[id].attempts)],
         log := s.log.(claims := s.log.claims + multiset{id}))
    case ClaimNothing(_) => s
    case Attempt(w, success) =>
      var Attempting(id, seen) := s.workers[w];
      s.(workers := s.workers[w := Settled(id, seen, success)],
         log := if success then s.log.(deliveries := s.log.deliveries + multiset{id}) else s.log)
    case Finish(w) => Finished(s, w, maxRetries)
    case AdminDelete(id) =>
      s.(table := Removed(s.table, id),
         log := if id in s.table.rows then s.log.(removed := s.log.removed + {id}) else s.log)
    case DeleteMessage(m) =>
      s.(table := MessageDeleted(s.table, m),
         log := s.log.(removed := s.log.removed + set id | id in s.table.rows && s.table.rows[id].messageId == m))
  }

  /** `es` leads from `s` to `s'`. */
  ghost predicate Runs(s: State, es: seq<Event>, s': State, maxRetries: int)
    decreases |es|
  {
    if es == [] then s == s'
    else Enabled(s, es[0]) && Runs(Apply(s, es[0], maxRetries), es[1..], s', maxRetries)
  }

  // ----- The invariant: what holds of each id, and of each worker -----

  function Retries(maxRetries: int): nat {
    if maxRetries < 0 then 0 else maxRetries
  }

  function One(b: bool): nat {
    if b then 1 else 0
  }

  /** An id that was given out is queued, completed, exhausted or removed, and only one of these; others have no past. */
  ghost predicate OneFate(s: State, id: nat) {
    && One(id in s.table.rows) + One(id in s.log.completed) + One(id in s.log.exhausted) + One(id in s.log.removed)
         == One(1 <= id <= s.table.lastId)
    && (Held(s, id) || s.log.claims[id] > 0 || s.log.deliveries[id] > 0 || id in s.log.firstFailure ==>
         1 <= id <= s.table.lastId)
  }

  /** Claims are finished one by one; a row's attempts count its failures. */
  ghost predicate Counted(s: State, id: nat, maxRetries: int) {
    && s.log.claims[id] == s.log.finishes[id] + One(Held(s, id))
    && s.log.claims[id] <= Retries(maxRetries) + 1
    && (id in s.table.rows ==>
         && s.table.rows[id].messageId in s.table.messages
         && s.table.rows[id].active == Held(s, id)
         && s.log.finishes[id] == s.table.rows[id].attempts <= Retries(maxRetries))
  }

  ghost predicate DeliveredOnce(s: State, id: nat) {
    && s.log.deliveries[id] <= 1
    && (id in s.table.rows && !s.table.rows[id].active ==> s.log.deliveries[id] == 0)
    && (id in s.log.completed ==> s.log.deliveries[id] == 1 && !Held(s, id))
    && (id in s.log.exhausted ==> s.log.deliveries[id] == 0 && !Held(s, id))
  }

  ghost predicate BackedOff(s: State, id: nat, maxRetries: int) {
    && (id in s.table.rows ==> (s.table.rows[id].attempts > 0 <==> id in s.log.firstFailure))
    && (id in s.table.rows && id in s.log.firstFailure ==>
         s.log.firstFailure[id] + TotalBackoff(s.table.rows[id].attempts) <=
           if s.table.rows[id].active then s.now else s.table.rows[id].nextAttempt)
    && (id in s.log.exhausted ==>
         && id in s.log.firstFailure
         && s.log.firstFailure[id] + TotalBackoff(Retries(maxRetries)) <= s.log.exhausted[id] <= s.now)
  }

  ghost predicate IdOk(s: State, id: nat, maxRetries: int) {
    OneFate(s, id) && Counted(s, id, maxRetries) && DeliveredOnce(s, id) && BackedOff(s, id, maxRetries)
  }

  /** The worker alone knows of a delivery not yet recorded, and saw the attempt count the row still has. */
  ghost predicate WorkerOk(s: State, w: nat, id: nat) {
    WorkerIs(s, w, id) ==>
      && (forall v: nat :: WorkerIs(s, v, id) ==> v == w)
      && s.log.deliveries[id] == One(s.workers[w].Settled? && s.workers[w].delivered)
      && (id in s.table.rows ==> s.table.rows[id].attempts == s.workers[w].seen)
  }

  ghost predicate Inv(s: State, maxRetries: int) {
    forall id: nat :: IdOk(s, id, maxRetries) && forall w: nat :: WorkerOk(s, w, id)
  }

  // ----- Every step keeps it -----

  lemma StartInv(now: int, workers: nat, maxRetries: int)
    ensures Inv(Start(now, workers), maxRetries)
  {
  }

  /** Who holds `id` after worker `w` alone moved. */
  lemma HeldAfter(s: State, s': State, w: nat, id: nat)
    requires w < |s.workers| == |s'.workers|
    requires s'.workers == s.workers[w := s'.workers[w]]
    requires WorkerOk(s, w, id)
    ensures forall v: nat :: v != w ==> (WorkerIs(s', v, id) <==> WorkerIs(s, v, id))
    ensures Held(s', id) <==> WorkerIs(s', w, id) || (Held(s, id) && !WorkerIs(s, w, id))
  {
  }

  /** Steps that leave the workers alone leave the holders alone. */
  lemma HeldSame(s: State, s': State, id: nat)
    requires s'.workers == s.workers
    ensures forall v: nat :: WorkerIs(s', v, id) <==> WorkerIs(s, v, id)
    ensures Held(s', id) <==> Held(s, id)
  {
  }

  lemma QuietStep(s: State, e: Event, id: nat, maxRetries: int)
    requires Inv(s, maxRetries) && Enabled(s, e)
    requires !e.Claim? && !e.Attempt? && !e.Finish?
    ensures IdOk(Apply(s, e, maxRetries), id, maxRetries)
    ensures forall w: nat :: WorkerOk(Apply(s, e, maxRetries), w, id)
  {
    var s' := Apply(s, e, maxRetries);
    HeldSame(s, s', id);
    assert IdOk(s, id, maxRetries) && forall w: nat :: WorkerOk(s, w, id);
    assert forall w: nat :: WorkerIs(s', w, id) ==> WorkerOk(s, w, id);
  }

  lemma ClaimStep(s: State, w: nat, claimed: nat, id: nat, maxRetries: int)
    requires Inv(s, maxRetries) && Enabled(s, Claim(w, claimed))
    ensures IdOk(Apply(s, Claim(w, claimed), maxRetries), id, maxRetries)
    ensures forall v: nat :: WorkerOk(Apply(s, Claim(w, claimed), maxRetries), v, id)
  {
    var s' := Apply(s, Claim(w, claimed), maxRetries);
    assert IdOk(s, id, maxRetries) && forall v: nat :: WorkerOk(s, v, id);
    HeldAfter(s, s', w, id);
    if id == claimed {
      assert !Held(s, id);
      assert forall v: nat :: !WorkerIs(s, v, id);
      assert WorkerIs(s', w, id);
    }
    assert forall v: nat :: WorkerIs(s', v, id) ==> WorkerOk(s, v, id);
  }

  lemma AttemptStep(s: State, w: nat, success: bool, id: nat, maxRetries: int)
    requires Inv(s, maxRetries) && Enabled(s, Attempt(w, success))
    ensures IdOk(Apply(s, Attempt(w, success), maxRetries), id, maxRetries)
    ensures forall v: nat :: WorkerOk(Apply(s, Attempt(w, success), maxRetries), v, id)
  {
    var s' := Apply(s, Attempt(w, success), maxRetries);
    assert IdOk(s, id, maxRetries) && forall v: nat :: WorkerOk(s, v, id);
    HeldAfter(s, s', w, id);
    assert WorkerIs(s, w, s.workers[w].id);
    assert forall v: nat :: WorkerIs(s', v, id) ==> WorkerOk(s, v, id);
  }

  lemma FinishCompleted(s: State, w: nat, maxRetries: int)
    requires Inv(s, maxRetries) && Enabled(s, Finish(w)) && s.workers[w].delivered
    ensures IdOk(Finished(s, w, maxRetries), s.workers[w].id, maxRetries)
    ensures !Held(Finished(s, w, maxRetries), s.workers[w].id)
  {
    var id := s.workers[w].id;
    assert IdOk(s, id, maxRetries) && WorkerOk(s, w, id);
    assert WorkerIs(s, w, id);
    HeldAfter(s, Finished(s, w, maxRetries), w, id);
  }

  lemma FinishFailed(s: State, w: nat, maxRetries: int)
    requires Inv(s, maxRetries) && Enabled(s, Finish(w)) && !s.workers[w].delivered
    ensures IdOk(Finished(s, w, maxRetries), s.workers[w].id, maxRetries)
    ensures !Held(Finished(s, w, maxRetries), s.workers[w].id)
  {
    var id, seen := s.workers[w].id, s.workers[w].seen;
    assert IdOk(s, id, maxRetries) && WorkerOk(s, w, id);
    assert WorkerIs(s, w, id);
    HeldAfter(s, Finished(s, w, maxRetries), w, id);
    assert TotalBackoff(seen + 1) == TotalBackoff(seen) + Backoff(seen);
  }

  /** Finishing changes nothing on record about other ids. */
  lemma FinishElsewhere(s: State, w: nat, id: nat, maxRetries: int)
    requires Enabled(s, Finish(w)) && id != s.workers[w].id
    ensures var s' := Finished(s, w, maxRetries);
      && (id in s'.table.rows <==> id in s.table.rows)
      && (id in s.table.rows ==> s'.table.rows[id] == s.table.rows[id])
      && s'.log.claims == s.log.claims && s'.log.deliveries == s.log.deliveries && s'.log.removed == s.log.removed
      && s'.log.finishes[id] == s.log.finishes[id]
      && (id in s'.log.completed <==> id in s.log.completed)
      && (id in s'.log.exhausted <==> id in s.log.exhausted)
      && (id in s.log.exhausted ==> s'.log.exhausted[id] == s.log.exhausted[id])
      && (id in s'.log.firstFailure <==> id in s.log.firstFailure)
      && (id in s.log.firstFailure ==> s'.log.firstFailure[id] == s.log.firstFailure[id])
      && s'.now == s.now && s'.table.lastId == s.table.lastId && s'.table.messages == s.table.messages
      && s'.workers == s.workers[w := Idle]
  {
  }

  lemma FinishOtherId(s: State, w: nat, id: nat, maxRetries: int)
    requires Inv(s, maxRetries) && Enabled(s, Finish(w)) && id != s.workers[w].id
    ensures IdOk(Finished(s, w, maxRetries), id, maxRetries)
    ensures forall v: nat :: WorkerOk(Finished(s, w, maxRetries), v, id)
  {
    var s' := Finished(s, w, maxRetries);
    assert IdOk(s, id, maxRetries) && forall v: nat :: WorkerOk(s, v, id);
    FinishElsewhere(s, w, id, maxRetries);
    HeldAfter(s, s', w, id);
    assert forall v: nat :: WorkerIs(s', v, id) ==> WorkerOk(s, v, id);
  }

  lemma StepInv(s: State, e: Event, maxRetries: int)
    requires Inv(s, maxRetries) && Enabled(s, e)
    ensures Inv(Apply(s, e, maxRetries), maxRetries)
  {
    var s' := Apply(s, e, maxRetries);
    forall id: nat
      ensures IdOk(s', id, maxRetries) && forall w: nat :: WorkerOk(s', w, id)
    {
      match e
      case Claim(w, claimed) => ClaimStep(s, w, claimed, id, maxRetries);
      case Attempt(w, success) => AttemptStep(s, w, success, id, maxRetries);
      case Finish(w) =>
        if id == s.workers[w].id {
          if s.workers[w].delivered {
            FinishCompleted(s, w, maxRetries);
          } else {
            FinishFailed(s, w, maxRetries);
          }
          assert forall v: nat :: WorkerIs(s', v, id) ==> Held(s', id);
        } else {
          FinishOtherId(s, w, id, maxRetries);
        }
      case _ => QuietStep(s, e, id, maxRetries);
    }
  }
}
