/** One queue worker turn and its backoff schedule (pkg/queue/worker.go). */
module QueueWorker {
  import opened Wrappers
  import opened StorageQueue

  const DELAYS: seq<nat> := [60, 300, 900, 3600, 14400, 43200, 86400]

  /** Seconds to wait after failing with `attempt` earlier failures. */
  function Backoff(attempt: nat): (delay: nat)
    ensures 60 <= delay <= 86400
  {
    if attempt >= |DELAYS| then 86400 else DELAYS[attempt]
  }

  /** The first `n` delays together. */
  function TotalBackoff(n: nat): nat {
    if n == 0 then 0 else TotalBackoff(n - 1) + Backoff(n - 1)
  }

  lemma BackoffOfSeven()
    ensures TotalBackoff(7) == 148860
  {
  }

  /** The schedule: a minute, five, fifteen, one hour, four, twelve, and a day from then on. */
  lemma BackoffSchedule(attempt: nat)
    ensures Backoff(0) == 60 && Backoff(1) == 5 * 60 && Backoff(2) == 15 * 60
    ensures Backoff(3) == 3600 && Backoff(4) == 4 * 3600 && Backoff(5) == 12 * 3600
    ensures attempt >= 6 ==> Backoff(attempt) == 24 * 3600
  {
  }

  /** No delay is shorter than an earlier one. */
  lemma BackoffNeverShrinks(a: nat, b: nat)
    requires a <= b
    ensures Backoff(a) <= Backoff(b)
  {
  }

  lemma {:induction false} BackoffGrows(n: nat)
    ensures 60 * n <= TotalBackoff(n) <= 86400 * n
  {
    if n > 0 {
      BackoffGrows(n - 1);
    }
  }

  /** What the outside world answers while one item is worked on. */
  datatype World = World(
    messageFound: bool,
    blobRead: bool,
    localDomain: Option<bool>,
    localDelivery: bool,
    relayConfigured: bool,
    relayAccepts: bool,
    mxAccepts: Option<seq<bool>>)

  /** The outcomes up to and including the first success, all of them if there is none. */
  ghost predicate UpToFirstSuccess(tries: seq<bool>, outcomes: seq<bool>) {
    && tries <= outcomes
    && (forall i :: 0 <= i < |tries| - 1 ==> !tries[i])
    && (tries == outcomes || (tries != [] && tries[|tries| - 1]))
  }

  lemma ClaimedRemoved(t: Table, id: nat)
    requires id in t.rows
    ensures Removed(Claimed(t, id), id) == Removed(t, id)
  {
  }

  class Manager {
    const store: QueueStore
    const maxRetries: int

    constructor (store: QueueStore, maxRetries: int)
      ensures this.store == store && this.maxRetries == maxRetries
    {
      this.store, this.maxRetries := store, maxRetries;
    }

    /** Claims one item and settles it. `tries` records the outcome of each delivery attempt. */
    method DeliverNext(now: int, world: World) returns (item: Option<QueueItem>, tries: seq<bool>, bounced: bool)
      modifies store
      ensures item.None? ==>
        && tries == [] && !bounced && store.Contents() == old(store.Contents())
        && forall id <- store.rows :: !Claimable(store.Contents(), now, id)
      ensures item.Some? ==> Oldest(old(store.Contents()), now, item.value.id)
      // without message, blob, domain or an answer whether that is local, nothing is tried
      ensures item.Some? && tries != [] ==>
        world.messageFound && world.blobRead && '@' in item.value.row.rcptTo && world.localDomain.Some?
      // otherwise a local domain is delivered locally, a remote one by the relay or else through its mail hosts
      ensures item.Some? && world.messageFound && world.blobRead && '@' in item.value.row.rcptTo ==>
        && (world.localDomain == Some(true) ==> tries == [world.localDelivery])
        && (world.localDomain == Some(false) && world.relayConfigured ==> tries == [world.relayAccepts])
        && (world.localDomain == Some(false) && !world.relayConfigured ==>
             if world.mxAccepts.None? then tries == [] else UpToFirstSuccess(tries, world.mxAccepts.value))
      // the row goes exactly when an attempt succeeded or retries ran out, the latter with a bounce if the domain was known
      ensures item.Some? ==>
        var was := old(store.Contents());
        var id := item.value.id;
        if tries != [] && tries[|tries| - 1] then !bounced && store.Contents() == Removed(was, id)
        else
          && store.Contents() == Failed(Claimed(was, id), id, now + Backoff(was.rows[id].attempts), maxRetries)
          && bounced == (
               && was.rows[id].attempts >= maxRetries
               && world.messageFound && world.blobRead && '@' in was.rows[id].rcptTo && world.localDomain.Some?)
    {
      item := store.ClaimNext(now);
      tries, bounced := [], false;
      if item.None? {
        return;
      }
      var id, row := item.value.id, item.value.row;
      var due := now + Backoff(row.attempts);
      ghost var was := old(store.Contents());
      ClaimedRemoved(was, id);

      if !world.messageFound || !world.blobRead || '@' !in row.rcptTo || world.localDomain.None? {
        var _ := store.Fail(id, due, maxRetries);
        return;
      }
      var delivered := false;
      if world.localDomain.value {
        tries, delivered := [world.localDelivery], world.localDelivery;
      } else if world.relayConfigured {
        tries, delivered := [world.relayAccepts], world.relayAccepts;
      } else if world.mxAccepts.Some? {
        var hosts := world.mxAccepts.value;
        var i := 0;
        while i < |hosts| && !delivered
          invariant 0 <= i <= |hosts| && tries == hosts[..i]
          invariant forall j :: 0 <= j < i - 1 ==> !hosts[j]
          invariant delivered == (i > 0 && hosts[i - 1])
        {
          delivered := hosts[i];
          i := i + 1;
          tries := tries + [delivered];
        }
      }
      if delivered {
        var _ := store.Complete(id);
      } else {
        var failure := store.Fail(id, due, maxRetries);
        bounced := failure == MaxRetries;
      }
    }
  }
}
