/**
  What a run of the blob store's users leaves behind, told from its events alone.
 */
module BlobAccounts {
  import opened BlobStore
  import opened BlobProtocol

  /**
    The operation that put the blob leaves its reference for good: its size was accepted, its message row inserted,
    or inserting failed for a caller that does not clean up.
   */
  predicate LeavesReference(put: Event, later: Event)
    requires put.Put?
  {
    match later
    case SizeChecked(o, fits) => o == put.op && fits
    case Insert(o) => o == put.op && put.origin != SmtpData
    case InsertFails(o) =>
      o == put.op && put.origin in {Origin.SmtpBounce, Origin.ImapAppend, Origin.QueueBounce, Origin.DmarcReport}
    case _ => false
  }

  /** The operations of a run that left a reference to `key`. */
  ghost function Keepers(es: seq<Event>, key: Key): set<nat> {
    set put, later | put in es && later in es && put.Put? && Digest(put.content) == key && LeavesReference(put, later)
      :: put.op
  }

  /** What the events so far say of the operations of a state. */
  ghost predicate Traced(es: seq<Event>, s: State) {
    && (forall put <- es | put.Put? :: put.op in s.ops && Follows(put, s.ops[put.op]))
    && (forall p <- es, q <- es | p.Put? && q.Put? && p.op == q.op :: p == q)
    && (forall o <- s.ops | !s.ops[o].Copying? && !s.ops[o].Done? :: exists put <- es :: put.Put? && put.op == o)
    && (forall e <- es | e.SizeChecked? || e.Insert? || e.InsertFails? :: e.op in s.ops && !s.ops[e.op].Holding?)
  }

  /** An operation that started with this Put may be here. */
  predicate Follows(put: Event, op: Op)
    requires put.Put?
  {
    match op
    case Holding(origin, key) => origin == put.origin && key == Digest(put.content)
    case Keeping(key) => put.origin == SmtpData && key == Digest(put.content)
    case Releasing(key) => key == Digest(put.content)
    case Sweeping(key) => key == Digest(put.content)
    case Copying(_) => false
    case Done => true
  }

  lemma {:induction false} LastStep(s: State, es: seq<Event>, s': State) returns (mid: State)
    requires Runs(s, es, s') && es != []
    ensures Runs(s, es[..|es| - 1], mid) && Enabled(mid, es[|es| - 1]) && s' == Apply(mid, es[|es| - 1])
    decreases |es|
  {
    var first := Apply(s, es[0]);
    if |es| == 1 {
      mid := s;
    } else {
      mid := LastStep(first, es[1..], s');
      assert es[..|es| - 1][1..] == es[1..][..|es| - 2];
    }
  }

  lemma PutStep(es: seq<Event>, s: State, e: Event, put: Event)
    requires Traced(es, s) && Enabled(s, e)
    requires put.Put? && (put in es || put == e)
    ensures put.op in Apply(s, e).ops && Follows(put, Apply(s, e).ops[put.op])
  {
    hide Upserted, Decremented, Swept;
  }

  lemma OriginStep(es: seq<Event>, s: State, e: Event, o: nat)
    requires Traced(es, s) && Enabled(s, e)
    requires o in Apply(s, e).ops && !Apply(s, e).ops[o].Copying? && !Apply(s, e).ops[o].Done?
    ensures exists put <- es + [e] :: put.Put? && put.op == o
  {
    hide Upserted, Decremented, Swept, Follows;
  }

  lemma SettledStep(es: seq<Event>, s: State, e: Event, x: Event)
    requires Traced(es, s) && Enabled(s, e)
    requires (x in es || x == e) && (x.SizeChecked? || x.Insert? || x.InsertFails?)
    ensures x.op in Apply(s, e).ops && !Apply(s, e).ops[x.op].Holding?
  {
    hide Upserted, Decremented, Swept, Follows;
  }

  lemma TracedStep(es: seq<Event>, s: State, e: Event)
    requires Traced(es, s) && Enabled(s, e)
    ensures Traced(es + [e], Apply(s, e))
  {
    hide Upserted, Decremented, Swept, Follows, Apply;
    var all, s' := es + [e], Apply(s, e);
    forall put <- all | put.Put?
      ensures put.op in s'.ops && Follows(put, s'.ops[put.op])
    {
      PutStep(es, s, e, put);
    }
    forall o <- s'.ops | !s'.ops[o].Copying? && !s'.ops[o].Done?
      ensures exists put <- all :: put.Put? && put.op == o
    {
      OriginStep(es, s, e, o);
    }
    forall x <- all | x.SizeChecked? || x.Insert? || x.InsertFails?
      ensures x.op in s'.ops && !s'.ops[x.op].Holding?
    {
      SettledStep(es, s, e, x);
    }
    assert forall p <- all, q <- all | p.Put? && q.Put? && p.op == q.op :: p == q;
  }

  /** An event that settles a held reference adds its operation to the keepers of its key if the reference stays. */
  lemma SettlingKeepers(es: seq<Event>, s: State, e: Event, put: Event, key: Key)
    requires Traced(es, s) && Enabled(s, e)
    requires (e.SizeChecked? || e.Insert? || e.InsertFails?) && s.ops[e.op].Holding?
    requires put in es && put.Put? && put.op == e.op
    ensures e.op !in Keepers(es, key)
    ensures Keepers(es + [e], key)
         == Keepers(es, key) + if Digest(put.content) == key && LeavesReference(put, e) then {e.op} else {}
  {
  }

  /** Any other event adds none. */
  lemma IdleKeepers(es: seq<Event>, s: State, e: Event, key: Key)
    requires Traced(es, s) && Enabled(s, e)
    requires (e.SizeChecked? || e.Insert? || e.InsertFails?) ==> !s.ops[e.op].Holding?
    ensures Keepers(es + [e], key) == Keepers(es, key)
  {
  }

  lemma KeptStep(es: seq<Event>, s: State, e: Event, key: Key)
    requires Traced(es, s) && Enabled(s, e)
    ensures Apply(s, e).kept[key] - s.kept[key] == |Keepers(es + [e], key)| - |Keepers(es, key)|
  {
    hide Upserted, Decremented, Swept, Keepers;
    if (e.SizeChecked? || e.Insert? || e.InsertFails?) && s.ops[e.op].Holding? {
      var put :| put in es && put.Put? && put.op == e.op;
      assert Follows(put, s.ops[e.op]);
      SettlingKeepers(es, s, e, put, key);
    } else {
      IdleKeepers(es, s, e, key);
    }
  }

  /** The references kept of a content are those of the operations that left one. */
  lemma {:induction false} KeptFromEvents(es: seq<Event>, s: State, key: Key)
    requires Runs(Start, es, s)
    ensures Traced(es, s) && s.kept[key] == |Keepers(es, key)|
    decreases |es|
  {
    if es != [] {
      var mid := LastStep(Start, es, s);
      var before, e := es[..|es| - 1], es[|es| - 1];
      assert es == before + [e];
      KeptFromEvents(before, mid, key);
      TracedStep(before, mid, e);
      KeptStep(before, mid, e, key);
    }
  }

  /**
    Once nothing is in flight a content is stored exactly if some operation left a reference to it, with one
    reference for each that did.
   */
  lemma QuiescentStoreFromEvents(es: seq<Event>, s: State, key: Key)
    requires Runs(Start, es, s) && Quiescent(s)
    ensures key in s.blobs <==> Keepers(es, key) != {}
    ensures key in s.blobs ==> s.blobs[key] == Blob(key.content, |Keepers(es, key)|)
  {
    KeptFromEvents(es, s, key);
    QuiescentStore(es, s);
  }

  /** A content that was too long or could not be delivered each time it was put leaves no trace. */
  lemma RefusedContentIsGone(es: seq<Event>, s: State, key: Key)
    requires Runs(Start, es, s) && Quiescent(s)
    requires forall put <- es, later <- es ::
      put.Put? && Digest(put.content) == key && (later.SizeChecked? || later.Insert? || later.InsertFails?)
        && later.op == put.op ==>
        || later == SizeChecked(put.op, false)
        || (later.InsertFails? && put.origin in {Origin.LocalDelivery, Origin.ApiSend})
    ensures key !in s.blobs
  {
    QuiescentStoreFromEvents(es, s, key);
    assert Keepers(es, key) == {};
  }

  /** The rest of an operation: accepted and ended, or its reference given back, or the copy broken off. */
  function Remainder(o: nat, op: Op, good: bool): seq<Event> {
    match op
    case Holding(origin, _) =>
      if origin == SmtpData then if good then [SizeChecked(o, true), EndData(o)] else [SizeChecked(o, false)]
      else if good then [Insert(o)] else [InsertFails(o)]
    case Keeping(_) => [EndData(o)]
    case Releasing(_) => [Decrement(o), Sweep(o)]
    case Sweeping(_) => [Sweep(o)]
    case Copying(_) => [EndCopy(o)]
    case Done => []
  }

  /** An operation in flight can always be brought to its end, well or badly, whatever the others are doing. */
  lemma OperationsFinish(s: State, o: nat, good: bool) returns (s': State)
    requires o in s.ops
    ensures Runs(s, Remainder(o, s.ops[o], good), s')
    ensures o in s'.ops && (s'.ops[o].Done? || (!good && s'.ops[o].Releasing?))
    ensures forall x <- s.ops | x != o :: x in s'.ops && s'.ops[x] == s.ops[x]
  {
    hide Upserted, Decremented, Swept;
    var es := Remainder(o, s.ops[o], good);
    if es == [] {
      return s;
    }
    var s1 := Apply(s, es[0]);
    assert es[1..] == if |es| == 2 then [es[1]] else [];
    s' := if |es| == 2 then Apply(s1, es[1]) else s1;
    assert |es| == 2 ==> Runs(s1, es[1..], s');
  }

  /** New operations and deletions wait for nobody. */
  lemma NobodyWaits(s: State, o: nat, origin: Origin, content: Content, rows: seq<nat>, ids: set<nat>)
    ensures o !in s.ops ==> Enabled(s, Put(o, origin, content))
    ensures o !in s.ops && (forall row <- rows :: row in s.messages) ==> Enabled(s, ListForCopy(o, rows))
    ensures Enabled(s, DeleteMessages(ids))
  {
  }

  // ----- Message rows -----

  /** An insert adds a row for the content its own operation put. */
  lemma InsertedRow(es: seq<Event>, s: State, o: nat)
    requires Runs(Start, es, s) && Enabled(s, Insert(o))
    ensures exists put <- es ::
      && put.Put? && put.op == o
      && Apply(s, Insert(o)).messages == s.messages[s.lastMessage + 1 := Digest(put.content)]
  {
    KeptFromEvents(es, s, s.ops[o].key);
    var put :| put in es && put.Put? && put.op == o;
    assert Follows(put, s.ops[o]);
  }

  lemma {:induction false} DoneStays(s: State, es: seq<Event>, s': State, o: nat)
    requires Runs(s, es, s') && o in s.ops && s.ops[o].Done?
    ensures o in s'.ops && s'.ops[o].Done?
    decreases |es|
  {
    if es != [] {
      DoneStays(Apply(s, es[0]), es[1..], s', o);
    }
  }

  lemma {:induction false} CopyProgress(s: State, es: seq<Event>, s': State, o: nat)
    requires Runs(s, es, s') && o in s.ops && s.ops[o].Copying?
    ensures o in s'.ops
    ensures s'.ops[o].Copying? ==>
      multiset(es)[CopyNext(o)] <= |s.ops[o].keys| && s'.ops[o].keys == s.ops[o].keys[multiset(es)[CopyNext(o)]..]
    decreases |es|
  {
    if es != [] {
      assert es == [es[0]] + es[1..];
      assert multiset(es)[CopyNext(o)] == multiset(es[1..])[CopyNext(o)] + if es[0] == CopyNext(o) then 1 else 0;
      if es[0] == EndCopy(o) {
        DoneStays(Apply(s, es[0]), es[1..], s', o);
      } else {
        CopyProgress(Apply(s, es[0]), es[1..], s', o);
      }
    }
  }

  /** The n-th row a copy inserts is for the content of the n-th row it listed, as it was when listed. */
  lemma CopiedRow(s: State, o: nat, rows: seq<nat>, es: seq<Event>, s': State)
    requires Enabled(s, ListForCopy(o, rows)) && Runs(Apply(s, ListForCopy(o, rows)), es, s')
    requires Enabled(s', CopyNext(o))
    ensures var n := multiset(es)[CopyNext(o)];
      n < |rows| && Apply(s', CopyNext(o)).messages == s'.messages[s'.lastMessage + 1 := s.messages[rows[n]]]
  {
    CopyProgress(Apply(s, ListForCopy(o, rows)), es, s', o);
  }

  /** A message row stays as it is until it is deleted, and is gone from then on. */
  lemma {:induction false} RowsStay(s: State, es: seq<Event>, s': State, m: nat)
    requires Runs(s, es, s') && m <= s.lastMessage
    ensures m in s'.messages <==> m in s.messages && forall e <- es :: e.DeleteMessages? ==> m !in e.ids
    ensures m in s'.messages ==> s'.messages[m] == s.messages[m]
    decreases |es|
  {
    if es != [] {
      assert forall e :: e in es <==> e == es[0] || e in es[1..];
      RowsStay(Apply(s, es[0]), es[1..], s', m);
    }
  }
}
