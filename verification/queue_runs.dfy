/** What every run of the outbound queue guarantees: safety, bounded overtaking, bounded work. */
module QueueRuns {
  import opened StorageQueue
  import opened QueueWorker
  import opened QueueProtocol

  lemma {:induction false} RunInv(s: State, es: seq<Event>, s': State, maxRetries: int)
    requires Inv(s, maxRetries) && Runs(s, es, s', maxRetries)
    ensures Inv(s', maxRetries)
    decreases |es|
  {
    if es != [] {
      StepInv(s, es[0], maxRetries);
      RunInv(Apply(s, es[0], maxRetries), es[1..], s', maxRetries);
    }
  }

  // ----- Safety -----

  lemma {:induction false} UpTo(ids: set<nat>, n: nat)
    requires forall id: nat :: id in ids <==> 1 <= id <= n
    ensures |ids| == n
  {
    if n == 0 {
      assert ids == {};
    } else {
      UpTo(ids - {n}, n - 1);
    }
  }

  /** Four sets that put each of 1..n in exactly one of them, and nothing else in any, have n members together. */
  lemma FourWaySplit(a: set<nat>, b: set<nat>, c: set<nat>, d: set<nat>, n: nat)
    requires forall id: nat :: One(id in a) + One(id in b) + One(id in c) + One(id in d) == One(1 <= id <= n)
    ensures |a| + |b| + |c| + |d| == n
  {
    assert a * b == {} && (a + b) * c == {} && (a + b + c) * d == {};
    UpTo(a + b + c + d, n);
  }

  /**
    In every run from an empty queue, whatever the workers, the administrator and the message deletions do:
    holders are exclusive, no id is delivered twice, and every id given out is accounted for once.
   */
  lemma QueueSafety(now: int, workers: nat, es: seq<Event>, s: State, maxRetries: int)
    requires Runs(Start(now, workers), es, s, maxRetries)
    ensures forall v: nat, w: nat, id: nat :: WorkerIs(s, v, id) && WorkerIs(s, w, id) ==> v == w
    ensures forall id <- s.table.rows :: s.table.rows[id].active <==> Held(s, id)
    ensures forall id: nat :: s.log.claims[id] == s.log.finishes[id] + One(Held(s, id))
    ensures forall id: nat :: s.log.deliveries[id] <= 1
    ensures forall id <- s.log.completed :: s.log.deliveries[id] == 1
    ensures |s.table.rows| + |s.log.completed| + |s.log.exhausted| + |s.log.removed| == s.table.lastId
  {
    StartInv(now, workers, maxRetries);
    RunInv(Start(now, workers), es, s, maxRetries);
    forall v: nat, w: nat, id: nat | WorkerIs(s, v, id) && WorkerIs(s, w, id)
      ensures v == w
    {
      assert IdOk(s, id, maxRetries) && WorkerOk(s, w, id);
    }
    forall id: nat
      ensures s.log.claims[id] == s.log.finishes[id] + One(Held(s, id)) && s.log.deliveries[id] <= 1
      ensures id in s.table.rows ==> (s.table.rows[id].active <==> Held(s, id))
      ensures id in s.log.completed ==> s.log.deliveries[id] == 1
      ensures One(id in s.table.rows.Keys) + One(id in s.log.completed) + One(id in s.log.exhausted.Keys)
              + One(id in s.log.removed) == One(1 <= id <= s.table.lastId)
    {
      assert IdOk(s, id, maxRetries);
    }
    FourWaySplit(s.table.rows.Keys, s.log.completed, s.log.exhausted.Keys, s.log.removed, s.table.lastId);
  }

  /** A message given up as exhausted was never delivered, and not before all the backoff had passed. */
  lemma RetryBudget(now: int, workers: nat, es: seq<Event>, s: State, maxRetries: int)
    requires Runs(Start(now, workers), es, s, maxRetries)
    ensures forall id: nat :: s.log.claims[id] <= Retries(maxRetries) + 1
    ensures forall id <- s.table.rows ::
      s.table.rows[id].attempts == s.log.finishes[id] && s.table.rows[id].attempts <= Retries(maxRetries)
    ensures forall w: nat, id: nat :: WorkerIs(s, w, id) && id in s.table.rows ==>
      s.table.rows[id].attempts == s.workers[w].seen
    ensures forall id <- s.log.exhausted ::
      && s.log.deliveries[id] == 0
      && id in s.log.firstFailure
      && s.log.exhausted[id] - s.log.firstFailure[id] >= TotalBackoff(Retries(maxRetries))
  {
    StartInv(now, workers, maxRetries);
    RunInv(Start(now, workers), es, s, maxRetries);
    forall id: nat
      ensures s.log.claims[id] <= Retries(maxRetries) + 1
      ensures id in s.table.rows ==> s.table.rows[id].attempts == s.log.finishes[id] <= Retries(maxRetries)
      ensures id in s.log.exhausted ==> s.log.deliveries[id] == 0 && BackedOff(s, id, maxRetries)
    {
      assert IdOk(s, id, maxRetries);
    }
    forall w: nat, id: nat | WorkerIs(s, w, id) && id in s.table.rows
      ensures s.table.rows[id].attempts == s.workers[w].seen
    {
      assert IdOk(s, id, maxRetries) && WorkerOk(s, w, id);
    }
  }

  /** `id` was given out and is no longer queued; where it went is on record. */
  ghost predicate Gone(s: State, id: nat) {
    1 <= id <= s.table.lastId && id !in s.table.rows
  }

  lemma FateStep(s: State, e: Event, id: nat, maxRetries: int)
    requires Inv(s, maxRetries) && Enabled(s, e) && Gone(s, id)
    ensures var s' := Apply(s, e, maxRetries);
      && Gone(s', id)
      && (id in s'.log.completed <==> id in s.log.completed)
      && (id in s'.log.removed <==> id in s.log.removed)
      && (id in s'.log.exhausted <==> id in s.log.exhausted)
      && (id in s.log.exhausted ==> s'.log.exhausted[id] == s.log.exhausted[id])
  {
  }

  /** Fates are final: an id that left the table is never queued again and stays in the one record it went to. */
  lemma {:induction false} FatesAreFinal(s: State, es: seq<Event>, s': State, id: nat, maxRetries: int)
    requires Inv(s, maxRetries) && Runs(s, es, s', maxRetries) && Gone(s, id)
    ensures Gone(s', id)
    ensures id in s'.log.completed <==> id in s.log.completed
    ensures id in s'.log.removed <==> id in s.log.removed
    ensures id in s'.log.exhausted <==> id in s.log.exhausted
    ensures id in s.log.exhausted ==> s'.log.exhausted[id] == s.log.exhausted[id]
    decreases |es|
  {
    if es != [] {
      StepInv(s, es[0], maxRetries);
      FateStep(s, es[0], id, maxRetries);
      FatesAreFinal(Apply(s, es[0], maxRetries), es[1..], s', id, maxRetries);
    }
  }

  /** Uninterrupted, the three steps of a turn change the table as `Manager.DeliverNext` promises. */
  lemma TurnInThreeSteps(s: State, w: nat, id: nat, success: bool, maxRetries: int)
    requires Enabled(s, Claim(w, id))
    ensures
      var claimed := Apply(s, Claim(w, id), maxRetries);
      Enabled(claimed, Attempt(w, success)) &&
      var settled := Apply(claimed, Attempt(w, success), maxRetries);
      Enabled(settled, Finish(w)) &&
      Apply(settled, Finish(w), maxRetries).table ==
        if success then Removed(s.table, id)
        else Failed(Claimed(s.table, id), id, s.now + Backoff(s.table.rows[id].attempts), maxRetries)
  {
  }

  // ----- Bounded overtaking -----

  predicate Overdue(s: State, r: nat) {
    r in s.table.rows && !s.table.rows[r].active && s.table.rows[r].nextAttempt < s.now
  }

  /** The other pending rows that a claim may prefer to `r`. */
  function Ahead(s: State, r: nat): set<nat>
    requires r in s.table.rows
  {
    set id | id in s.table.rows && id != r && !s.table.rows[id].active
             && s.table.rows[id].nextAttempt <= s.table.rows[r].nextAttempt
  }

  /** How often workers looked for something to do. */
  function Polls(es: seq<Event>): nat {
    if es == [] then 0
    else (if es[0].Claim? || es[0].ClaimNothing? then 1 else 0) + Polls(es[1..])
  }

  /** Nothing joins the rows ahead of an overdue row, and a claim of another row takes one away. */
  lemma AheadShrinks(s: State, e: Event, r: nat, maxRetries: int)
    requires Inv(s, maxRetries) && Enabled(s, e) && Overdue(s, r)
    requires !(e.Claim? && e.id == r)
    requires r in Apply(s, e, maxRetries).table.rows
    ensures Overdue(Apply(s, e, maxRetries), r)
    ensures Ahead(Apply(s, e, maxRetries), r) <= Ahead(s, r)
    ensures e.Claim? ==> e.id in Ahead(s, r) - Ahead(Apply(s, e, maxRetries), r)
    ensures !e.ClaimNothing?
  {
    var s' := Apply(s, e, maxRetries);
    assert IdOk(s, r, maxRetries);
    assert Claimable(s.table, s.now, r);
    if e.Finish? {
      assert WorkerIs(s, e.worker, s.workers[e.worker].id);
      assert s.workers[e.worker].id != r;
    }
    if e.Enqueue? {
      assert IdOk(s, s.table.lastId + 1, maxRetries);
    }
    assert s'.table.rows[r] == s.table.rows[r];
  }

  /**
    No starvation: until an overdue row is claimed or removed, the workers' polls number at most the rows
    that were ahead of it at that moment, whatever is enqueued, fails or is deleted meanwhile.
   */
  lemma {:induction false} BoundedOvertaking(s: State, es: seq<Event>, s': State, r: nat, maxRetries: int)
    requires Inv(s, maxRetries) && Runs(s, es, s', maxRetries)
    requires Overdue(s, r)
    requires r in s'.table.rows && forall e <- es :: !(e.Claim? && e.id == r)
    ensures Polls(es) <= |Ahead(s, r)|
    decreases |es|
  {
    if es != [] {
      var next := Apply(s, es[0], maxRetries);
      StepInv(s, es[0], maxRetries);
      assert IdOk(s, r, maxRetries);
      if r !in next.table.rows {
        FatesAreFinal(next, es[1..], s', r, maxRetries);
      }
      AheadShrinks(s, es[0], r, maxRetries);
      assert forall e <- es[1..] :: e in es;
      BoundedOvertaking(next, es[1..], s', r, maxRetries);
      if es[0].Claim? {
        ProperSubsetSmaller(Ahead(next, r), Ahead(s, r), es[0].id);
      } else {
        SubsetNotLarger(Ahead(next, r), Ahead(s, r));
      }
    }
  }

  lemma SubsetNotLarger(a: set<nat>, b: set<nat>)
    requires a <= b
    ensures |a| <= |b|
  {
    assert b == a + (b - a);
  }

  lemma ProperSubsetSmaller(a: set<nat>, b: set<nat>, x: nat)
    requires a <= b && x in b && x !in a
    ensures |a| < |b|
  {
    SubsetNotLarger(a, b - {x});
  }

  // ----- Bounded work -----

  function Weight(t: Table, id: nat, maxRetries: int): int {
    if id !in t.rows then 0
    else 2 * (Retries(maxRetries) - t.rows[id].attempts) + if t.rows[id].active then 1 else 2
  }

  /** Twice the retries left, plus one for an active and two for a pending row, over ids 1..n. */
  function Potential(t: Table, n: nat, maxRetries: int): int {
    if n == 0 then 0 else Potential(t, n - 1, maxRetries) + Weight(t, n, maxRetries)
  }

  lemma {:induction false} PotentialCompare(t: Table, t': Table, n: nat, changed: nat, maxRetries: int)
    requires forall id: nat :: 1 <= id <= n && id != changed ==> Weight(t', id, maxRetries) <= Weight(t, id, maxRetries)
    ensures Potential(t', n, maxRetries) - Potential(t, n, maxRetries)
         <= if 1 <= changed <= n then Weight(t', changed, maxRetries) - Weight(t, changed, maxRetries) else 0
  {
    if n > 0 {
      PotentialCompare(t, t', n - 1, changed, maxRetries);
    }
  }

  /** Claims, and finishes of a row that is still there. */
  ghost function Work(s: State, e: Event): nat {
    match e
    case Claim(_, _) => 1
    case Finish(w) => One(w < |s.workers| && s.workers[w].Settled? && s.workers[w].id in s.table.rows)
    case _ => 0
  }

  ghost function RunWork(s: State, es: seq<Event>, s': State, maxRetries: int): nat
    requires Runs(s, es, s', maxRetries)
    decreases |es|
  {
    if es == [] then 0 else Work(s, es[0]) + RunWork(Apply(s, es[0], maxRetries), es[1..], s', maxRetries)
  }

  function Enqueues(es: seq<Event>): nat {
    if es == [] then 0 else (if es[0].Enqueue? then 1 else 0) + Enqueues(es[1..])
  }

  function StatePotential(s: State, maxRetries: int): int {
    Potential(s.table, s.table.lastId, maxRetries)
  }

  lemma FinishUsesWeight(s: State, w: nat, maxRetries: int)
    requires Inv(s, maxRetries) && Enabled(s, Finish(w))
    ensures var t, t', id := s.table, Finished(s, w, maxRetries).table, s.workers[w].id;
      && Weight(t', id, maxRetries) + Work(s, Finish(w)) <= Weight(t, id, maxRetries)
      && (forall other: nat :: other != id ==> Weight(t', other, maxRetries) == Weight(t, other, maxRetries))
      && t'.lastId == t.lastId && 1 <= id <= t.lastId
  {
    var id := s.workers[w].id;
    assert WorkerIs(s, w, id) && IdOk(s, id, maxRetries) && WorkerOk(s, w, id);
  }

  /** Each effective step uses up potential; only enqueueing brings some in. */
  lemma StepUsesPotential(s: State, e: Event, maxRetries: int)
    requires Inv(s, maxRetries) && Enabled(s, e)
    ensures StatePotential(Apply(s, e, maxRetries), maxRetries) + Work(s, e)
         <= StatePotential(s, maxRetries) + if e.Enqueue? then 2 * Retries(maxRetries) + 2 else 0
  {
    var s' := Apply(s, e, maxRetries);
    var n := s.table.lastId;
    match e
    case Enqueue(_, _) =>
      PotentialCompare(s.table, s'.table, n, n + 1, maxRetries);
    case Claim(_, id) =>
      assert IdOk(s, id, maxRetries);
      PotentialCompare(s.table, s'.table, n, id, maxRetries);
    case Finish(w) =>
      FinishUsesWeight(s, w, maxRetries);
      PotentialCompare(s.table, s'.table, n, s.workers[w].id, maxRetries);
    case _ =>
      assert forall id <- s.table.rows :: IdOk(s, id, maxRetries);
      PotentialCompare(s.table, s'.table, n, 0, maxRetries);
  }

  lemma {:induction false} PotentialNonNegative(s: State, n: nat, maxRetries: int)
    requires Inv(s, maxRetries)
    ensures Potential(s.table, n, maxRetries) >= 0
  {
    if n > 0 {
      assert IdOk(s, n, maxRetries);
      PotentialNonNegative(s, n - 1, maxRetries);
    }
  }

  /** Over any run, effective steps are bounded by the work queued at the start plus that of each enqueue. */
  lemma {:induction false} BoundedWork(s: State, es: seq<Event>, s': State, maxRetries: int)
    requires Inv(s, maxRetries) && Runs(s, es, s', maxRetries)
    ensures RunWork(s, es, s', maxRetries)
         <= StatePotential(s, maxRetries) - StatePotential(s', maxRetries)
            + (2 * Retries(maxRetries) + 2) * Enqueues(es)
    ensures RunWork(s, es, s', maxRetries)
         <= StatePotential(s, maxRetries) + (2 * Retries(maxRetries) + 2) * Enqueues(es)
    decreases |es|
  {
    if es != [] {
      var next := Apply(s, es[0], maxRetries);
      StepInv(s, es[0], maxRetries);
      StepUsesPotential(s, es[0], maxRetries);
      BoundedWork(next, es[1..], s', maxRetries);
      assert (2 * Retries(maxRetries) + 2) * Enqueues(es)
          == (2 * Retries(maxRetries) + 2) * (if es[0].Enqueue? then 1 else 0)
             + (2 * Retries(maxRetries) + 2) * Enqueues(es[1..]);
    }
    RunInv(s, es, s', maxRetries);
    PotentialNonNegative(s', s'.table.lastId, maxRetries);
  }
}
