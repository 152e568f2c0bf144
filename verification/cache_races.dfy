/**
  A read-through cache one statement at a time: what pkg/storage/mailboxes.go and pkg/auth/session.go guarantee when
  readers and writers of one key overlap. A reader looks in the cache, then selects the row, then fills the cache;
  a writer changes the row and invalidates the entry. Both caches have a positive TTL.
 */
module CacheRaces {
  import opened Wrappers
  import opened TtlCache

  type Value = string

  /** A reader between its steps. */
  datatype Reader = Missed | Fetched(value: Value, at: int)

  datatype State = State(now: int, row: Option<Value>, entry: Option<Entry<Value>>, readers: map<nat, Reader>)

  datatype Event =
    | Tick(time: nat)
    | Hit(value: Value)
    | Miss(reader: nat)
    | Select(reader: nat)
    | Fill(reader: nat)
    | Write(row: Option<Value>)
    | Invalidate

  function Start(now: int): State {
    State(now, None, None, map[])
  }

  predicate Live(s: State) {
    s.entry.Some? && s.now <= s.entry.value.expiresAt
  }

  predicate Enabled(s: State, e: Event) {
    match e
    case Hit(value) => Live(s) && s.entry.value.val == value
    case Miss(r) => !Live(s) && r !in s.readers
    case Select(r) => r in s.readers && s.readers[r].Missed?
    case Fill(r) => r in s.readers && s.readers[r].Fetched?
    case _ => true
  }

  function Apply(s: State, e: Event, ttl: nat): State
    requires Enabled(s, e)
  {
    match e
    case Tick(time) => s.(now := s.now + time)
    case Hit(_) => s
    case Miss(r) => s.(entry := None, readers := s.readers[r := Missed])
    case Select(r) =>
      s.(readers := if s.row.Some? then s.readers[r := Fetched(s.row.value, s.now)] else s.readers - {r})
    case Fill(r) =>
      s.(entry := Some(Entry(s.readers[r].value, s.now + ttl)), readers := s.readers - {r})
    case Write(row) => s.(row := row)
    case Invalidate => s.(entry := None)
  }

  ghost predicate IsRun(states: seq<State>, events: seq<Event>, ttl: nat) {
    && |states| == |events| + 1
    && forall i :: 0 <= i < |events| ==> Enabled(states[i], events[i]) && states[i + 1] == Apply(states[i], events[i], ttl)
  }

  /** No reader takes longer than `lag` from its SELECT to filling the cache. */
  ghost predicate Prompt(states: seq<State>, events: seq<Event>, lag: nat)
    requires |states| == |events| + 1
  {
    forall i :: 0 <= i < |events| && events[i].Fill? && Enabled(states[i], events[i]) ==>
      states[i].now - states[i].readers[events[i].reader].at <= lag
  }

  /** At some state so far, not before `time`, the row held the value. */
  ghost predicate HeldSince(states: seq<State>, value: Value, time: int) {
    exists j :: 0 <= j < |states| && states[j].row == Some(value) && states[j].now >= time
  }

  ghost predicate Recent(states: seq<State>, ttl: nat, lag: nat)
    requires states != []
  {
    var s := states[|states| - 1];
    && (s.entry.Some? ==> HeldSince(states, s.entry.value.val, s.entry.value.expiresAt - ttl - lag))
    && (forall r <- s.readers :: s.readers[r].Fetched? ==> HeldSince(states, s.readers[r].value, s.readers[r].at))
  }

  lemma HeldLonger(states: seq<State>, s: State, value: Value, time: int)
    ensures HeldSince(states, value, time) ==> HeldSince(states + [s], value, time)
    ensures s.row == Some(value) && s.now >= time ==> HeldSince(states + [s], value, time)
  {
    if j :| 0 <= j < |states| && states[j].row == Some(value) && states[j].now >= time {
      assert (states + [s])[j] == states[j];
    }
    assert (states + [s])[|states|] == s;
  }

  lemma RecentStep(states: seq<State>, e: Event, ttl: nat, lag: nat)
    requires states != [] && Recent(states, ttl, lag)
    requires var s := states[|states| - 1];
      Enabled(s, e) && (e.Fill? ==> s.now - s.readers[e.reader].at <= lag)
    ensures Recent(states + [Apply(states[|states| - 1], e, ttl)], ttl, lag)
  {
    var s := states[|states| - 1];
    var s' := Apply(s, e, ttl);
    if s'.entry.Some? {
      var value, time := s'.entry.value.val, s'.entry.value.expiresAt - ttl - lag;
      if e.Fill? {
        var at := s.readers[e.reader].at;
        var j :| 0 <= j < |states| && states[j].row == Some(value) && states[j].now >= at;
        assert states[j].now >= time;
      }
      HeldLonger(states, s', value, time);
    }
    forall r <- s'.readers | s'.readers[r].Fetched?
      ensures HeldSince(states + [s'], s'.readers[r].value, s'.readers[r].at)
    {
      HeldLonger(states, s', s'.readers[r].value, s'.readers[r].at);
    }
  }

  lemma {:induction false} RunIsRecent(states: seq<State>, events: seq<Event>, now: int, ttl: nat, lag: nat)
    requires IsRun(states, events, ttl) && states[0] == Start(now) && Prompt(states, events, lag)
    ensures Recent(states, ttl, lag)
  {
    if events != [] {
      var n := |events| - 1;
      RunIsRecent(states[..n + 1], events[..n], now, ttl, lag);
      assert events[n].Fill? ==> states[n].now - states[n].readers[events[n].reader].at <= lag;
      RecentStep(states[..n + 1], events[n], ttl, lag);
      assert states == states[..n + 1] + [states[n + 1]];
    }
  }

  /** Whatever overlaps, a hit returns a value the row held no longer ago than the TTL and the slowest reader's lag. */
  lemma HitsAreRecent(states: seq<State>, events: seq<Event>, now: int, ttl: nat, lag: nat, value: Value)
    requires IsRun(states, events, ttl) && states[0] == Start(now) && Prompt(states, events, lag)
    requires Enabled(states[|events|], Hit(value))
    ensures HeldSince(states, value, states[|events|].now - ttl - lag)
  {
    RunIsRecent(states, events, now, ttl, lag);
    var j :| 0 <= j < |states| && states[j].row == Some(value)
             && states[j].now >= states[|events|].entry.value.expiresAt - ttl - lag;
    assert states[j].now >= states[|events|].now - ttl - lag;
  }

  /** A reader fetches the value just before the row is deleted and takes its time to fill the cache. */
  function SlowReader(ttl: nat, lag: nat, value: Value, invalidateFirst: bool): seq<Event> {
    [Write(Some(value)), Miss(0), Select(0),
     if invalidateFirst then Invalidate else Write(None), if invalidateFirst then Write(None) else Invalidate,
     Tick(lag), Fill(0), Tick(ttl)]
  }

  function SlowStates(now: int, ttl: nat, lag: nat, value: Value, invalidateFirst: bool): (states: seq<State>)
    ensures |states| == 9
  {
    var reader, entry := map[0 := Fetched(value, now)], Some(Entry(value, now + lag + ttl));
    [Start(now),
     State(now, Some(value), None, map[]),
     State(now, Some(value), None, map[0 := Missed]),
     State(now, Some(value), None, reader),
     State(now, if invalidateFirst then Some(value) else None, None, reader),
     State(now, None, None, reader),
     State(now + lag, None, None, reader),
     State(now + lag, None, entry, map[]),
     State(now + lag + ttl, None, entry, map[])]
  }

  /** The bound is tight, whether the writer invalidates after the write, as mailboxes do, or before it, as sessions do. */
  lemma StaleToTheLimit(now: int, ttl: nat, lag: nat, value: Value, invalidateFirst: bool)
    ensures var events, states :=
        SlowReader(ttl, lag, value, invalidateFirst), SlowStates(now, ttl, lag, value, invalidateFirst);
      && IsRun(states, events, ttl) && states[0] == Start(now) && Prompt(states, events, lag)
      && states[5].row == None && states[5].now == now
      && states[8].row == None && states[8].now == now + ttl + lag
      && Enabled(states[8], Hit(value))
  {
    var events, states :=
      SlowReader(ttl, lag, value, invalidateFirst), SlowStates(now, ttl, lag, value, invalidateFirst);
    assert map[0 := Fetched(value, now)] - {0} == map[];
    forall i | 0 <= i < 8
      ensures Enabled(states[i], events[i]) && states[i + 1] == Apply(states[i], events[i], ttl)
    {
      assert i == 0 || i == 1 || i == 2 || i == 3 || i == 4 || i == 5 || i == 6 || i == 7;
    }
  }

  // ----- A deletion -----

  predicate NoWrite(events: seq<Event>) {
    forall e <- events :: !e.Write?
  }

  predicate Holds(s: State) {
    exists r <- s.readers :: s.readers[r].Fetched?
  }

  /** The row is gone, no hit is possible now, and no reader has it. */
  predicate Unreachable(s: State) {
    s.row.None? && !Live(s) && !Holds(s)
  }

  lemma {:induction false} UnreachableForGood(states: seq<State>, events: seq<Event>, ttl: nat)
    requires IsRun(states, events, ttl) && Unreachable(states[0]) && NoWrite(events)
    ensures Unreachable(states[|events|])
  {
    if events != [] {
      var n := |events| - 1;
      assert forall e <- events[..n] :: e in events;
      UnreachableForGood(states[..n + 1], events[..n], ttl);
      assert events[n] in events;
    }
  }

  /** Later, without another write, some hit returns the value. */
  ghost predicate SeenLater(s: State, value: Value, ttl: nat) {
    exists states: seq<State>, events: seq<Event> ::
      && IsRun(states, events, ttl) && states[0] == s && NoWrite(events)
      && Enabled(states[|events|], Hit(value))
  }

  /** Delete the row, then invalidate: something deleted is seen again if and only if a reader had it in hand. */
  lemma DeletedIsSeenExactly(s: State, ttl: nat)
    ensures var after := Apply(Apply(s, Write(None), ttl), Invalidate, ttl);
      (exists value :: SeenLater(after, value, ttl)) <==> Holds(s)
  {
    var after := Apply(Apply(s, Write(None), ttl), Invalidate, ttl);
    if Holds(s) {
      var r :| r in s.readers && s.readers[r].Fetched?;
      var filled := Apply(after, Fill(r), ttl);
      assert IsRun([after, filled], [Fill(r)], ttl);
      assert SeenLater(after, s.readers[r].value, ttl);
    } else {
      forall value, states: seq<State>, events: seq<Event> |
        IsRun(states, events, ttl) && states[0] == after && NoWrite(events)
        ensures !Enabled(states[|events|], Hit(value))
      {
        UnreachableForGood(states, events, ttl);
      }
    }
  }

  /** Invalidate, then delete, leaves a gap: even with no reader under way, one that starts in it brings the value back. */
  lemma RevokedInTheGap(s: State, ttl: nat, r: nat)
    requires s.row.Some? && r !in s.readers
    ensures var gap := Apply(s, Invalidate, ttl);
      && Enabled(gap, Miss(r)) && Enabled(Apply(gap, Miss(r), ttl), Select(r))
      && SeenLater(Apply(Apply(Apply(gap, Miss(r), ttl), Select(r), ttl), Write(None), ttl), s.row.value, ttl)
  {
    var read := Apply(Apply(Apply(s, Invalidate, ttl), Miss(r), ttl), Select(r), ttl);
    var after := Apply(read, Write(None), ttl);
    var filled := Apply(after, Fill(r), ttl);
    assert IsRun([after, filled], [Fill(r)], ttl);
  }

  /**
    However long ago the invalidation was: once the row is deleted, its value is seen again if and only if at that
    moment the cache held a live entry or a reader had the row in hand.
   */
  lemma RevokedIsSeenExactly(s: State, ttl: nat)
    ensures (exists value :: SeenLater(Apply(s, Write(None), ttl), value, ttl)) <==> Live(s) || Holds(s)
  {
    var after := Apply(s, Write(None), ttl);
    if Live(s) {
      var none: seq<Event> := [];
      assert IsRun([after], none, ttl) && Enabled([after][|none|], Hit(s.entry.value.val));
      assert SeenLater(after, s.entry.value.val, ttl);
    } else if Holds(s) {
      var r :| r in s.readers && s.readers[r].Fetched?;
      var filled := Apply(after, Fill(r), ttl);
      assert IsRun([after, filled], [Fill(r)], ttl);
      assert SeenLater(after, s.readers[r].value, ttl);
    } else {
      forall value, states: seq<State>, events: seq<Event> |
        IsRun(states, events, ttl) && states[0] == after && NoWrite(events)
        ensures !Enabled(states[|events|], Hit(value))
      {
        UnreachableForGood(states, events, ttl);
      }
    }
  }

  /** A reader finds a live entry or misses; one that missed goes on; time and writers wait for nobody. */
  lemma NobodyWaits(s: State, r: nat, time: nat, row: Option<Value>)
    ensures r !in s.readers && s.entry.Some? && s.now <= s.entry.value.expiresAt ==> Enabled(s, Hit(s.entry.value.val))
    ensures r !in s.readers && !(s.entry.Some? && s.now <= s.entry.value.expiresAt) ==> Enabled(s, Miss(r))
    ensures r in s.readers ==> Enabled(s, if s.readers[r].Missed? then Select(r) else Fill(r))
    ensures Enabled(s, Tick(time)) && Enabled(s, Write(row)) && Enabled(s, Invalidate)
  {
  }
}
