/**
  Every way a message body enters the blob store, interleaved statement by statement.
  No run loses the blob of a message row.
 */
module BlobProtocol {
  import opened BlobStore

  /** Who called Put. They differ in what they do with the reference when storing the message fails. */
  datatype Origin = SmtpData | SmtpBounce | LocalDelivery | ApiSend | ImapAppend | QueueBounce | DmarcReport

  /** An operation between two statements. */
  datatype Op =
    | Holding(origin: Origin, key: Key)
    | Keeping(key: Key)
    | Releasing(key: Key)
    | Sweeping(key: Key)
    | Copying(keys: seq<Key>)
    | Done

  /** `kept` records the references their owners will never give back; no step reads it. */
  datatype State = State(
    blobs: Blobs, messages: map<nat, Key>, lastMessage: nat, ops: map<nat, Op>, kept: multiset<Key>)

  datatype Event =
    | Put(op: nat, origin: Origin, content: Content)
    | SizeChecked(op: nat, fits: bool)
    | Insert(op: nat)
    | InsertFails(op: nat)
    | EndData(op: nat)
    | Decrement(op: nat)
    | Sweep(op: nat)
    | ListForCopy(op: nat, rows: seq<nat>)
    | CopyNext(op: nat)
    | EndCopy(op: nat)
    | DeleteMessages(ids: set<nat>)

  const Start := State(map[], map[], 0, map[], multiset{})

  /** These callers delete their blob again when the message cannot be stored; the others leave it behind. */
  predicate CleansUp(origin: Origin) {
    origin == LocalDelivery || origin == ApiSend
  }

  ghost predicate Enabled(s: State, e: Event) {
    match e
    case Put(o, _, _) => o !in s.ops
    case SizeChecked(o, _) => o in s.ops && s.ops[o].Holding? && s.ops[o].origin == SmtpData
    case Insert(o) => o in s.ops && (s.ops[o].Keeping? || (s.ops[o].Holding? && s.ops[o].origin != SmtpData))
    case InsertFails(o) => o in s.ops && s.ops[o].Holding? && s.ops[o].origin != SmtpData
    case EndData(o) => o in s.ops && s.ops[o].Keeping?
    case Decrement(o) => o in s.ops && s.ops[o].Releasing?
    case Sweep(o) => o in s.ops && s.ops[o].Sweeping?
    case ListForCopy(o, rows) => o !in s.ops && forall row <- rows :: row in s.messages
    case CopyNext(o) => o in s.ops && s.ops[o].Copying? && s.ops[o].keys != []
    case EndCopy(o) => o in s.ops && s.ops[o].Copying?
    case DeleteMessages(_) => true
  }

  function Inserted(s: State, key: Key): State {
    s.(messages := s.messages[s.lastMessage + 1 := key], lastMessage := s.lastMessage + 1)
  }

  function Moved(s: State, o: nat, op: Op): State {
    s.(ops := s.ops[o := op])
  }

  function Keep(s: State, key: Key): State {
    s.(kept := s.kept + multiset{key})
  }

  ghost function Apply(s: State, e: Event): State
    requires Enabled(s, e)
  {
    match e
    case Put(o, origin, content) =>
      Moved(s.(blobs := Upserted(s.blobs, content)), o, Holding(origin, Digest(content)))
    case SizeChecked(o, fits) =>
      var key := s.ops[o].key;
      if fits then Keep(Moved(s, o, Keeping(key)), key) else Moved(s, o, Releasing(key))
    case Insert(o) =>
      var key := s.ops[o].key;
      if s.ops[o].Keeping? then Inserted(s, key) else Keep(Moved(Inserted(s, key), o, Done), key)
    case InsertFails(o) =>
      var key := s.ops[o].key;
      if CleansUp(s.ops[o].origin) then Moved(s, o, Releasing(key)) else Keep(Moved(s, o, Done), key)
    case EndData(o) => Moved(s, o, Done)
    case Decrement(o) => Moved(s.(blobs := Decremented(s.blobs, s.ops[o].key)), o, Sweeping(s.ops[o].key))
    case Sweep(o) => Moved(s.(blobs := Swept(s.blobs, s.ops[o].key)), o, Done)
    case ListForCopy(o, rows) => Moved(s, o, Copying(seq(|rows|, i requires 0 <= i < |rows| => s.messages[rows[i]])))
    case CopyNext(o) => Moved(Inserted(s, s.ops[o].keys[0]), o, Copying(s.ops[o].keys[1..]))
    case EndCopy(o) => Moved(s, o, Done)
    case DeleteMessages(ids) => s.(messages := s.messages - ids)
  }

  ghost predicate Runs(s: State, es: seq<Event>, s': State)
    decreases |es|
  {
    if es == [] then s == s' else Enabled(s, es[0]) && Runs(Apply(s, es[0]), es[1..], s')
  }

  // ----- The invariant -----

  /** The operation took a reference to `key` and may still give it back. */
  predicate Owes(op: Op, key: Key) {
    (op.Holding? || op.Releasing?) && op.key == key
  }

  function Owing(ops: map<nat, Op>, key: Key): set<nat> {
    set o | o in ops && Owes(ops[o], key)
  }

  predicate Relies(op: Op, key: Key) {
    (op.Keeping? && op.key == key) || (op.Copying? && key in op.keys)
  }

  ghost predicate AboutToSweep(s: State, key: Key) {
    exists o <- s.ops :: s.ops[o] == Sweeping(key)
  }

  /** A blob's count is exactly the references kept for good plus those operations may still give back. */
  ghost predicate KeyOk(s: State, key: Key) {
    && (key in s.blobs ==>
         && s.blobs[key].data == key.content
         && s.blobs[key].refcount == s.kept[key] + |Owing(s.ops, key)|
         && (s.blobs[key].refcount == 0 ==> AboutToSweep(s, key)))
    && (key !in s.blobs ==> s.kept[key] == 0 && |Owing(s.ops, key)| == 0)
  }

  ghost predicate Inv(s: State) {
    && (forall key :: KeyOk(s, key))
    && (forall m <- s.messages :: m <= s.lastMessage && s.kept[s.messages[m]] >= 1)
    && (forall o <- s.ops, key :: Relies(s.ops[o], key) ==> s.kept[key] >= 1)
  }

  lemma OwingAfter(ops: map<nat, Op>, o: nat, op: Op, key: Key)
    ensures |Owing(ops[o := op], key)|
         == |Owing(ops, key)| - (if o in ops && Owes(ops[o], key) then 1 else 0) + if Owes(op, key) then 1 else 0
  {
    var rest := Owing(ops, key) - {o};
    assert o in ops && Owes(ops[o], key) ==> Owing(ops, key) == rest + {o};
    assert !(o in ops && Owes(ops[o], key)) ==> Owing(ops, key) == rest;
    assert Owing(ops[o := op], key) == if Owes(op, key) then rest + {o} else rest;
  }

  lemma SweeperAfter(s: State, s': State, o: nat, op: Op, key: Key)
    requires s'.ops == s.ops[o := op]
    ensures AboutToSweep(s', key) <== op == Sweeping(key)
    ensures AboutToSweep(s', key) <== AboutToSweep(s, key) && (o in s.ops ==> s.ops[o] != Sweeping(key))
  {
    if op == Sweeping(key) {
      assert s'.ops[o] == Sweeping(key);
    }
    if AboutToSweep(s, key) && (o in s.ops ==> s.ops[o] != Sweeping(key)) {
      var p :| p in s.ops && s.ops[p] == Sweeping(key);
      assert s'.ops[p] == Sweeping(key);
    }
  }

  /** Steps on the `blobs` table. */
  lemma BlobStep(s: State, e: Event, key: Key)
    requires Inv(s) && Enabled(s, e)
    requires e.Put? || e.Decrement? || e.Sweep?
    ensures KeyOk(Apply(s, e), key)
  {
    var s' := Apply(s, e);
    assert KeyOk(s, key);
    OwingAfter(s.ops, e.op, s'.ops[e.op], key);
    SweeperAfter(s, s', e.op, s'.ops[e.op], key);
  }

  /** Steps that settle a held reference: it is kept for good or will be given back. */
  lemma SettleStep(s: State, e: Event, key: Key)
    requires Inv(s) && Enabled(s, e)
    requires e.SizeChecked? || e.InsertFails? || (e.Insert? && s.ops[e.op].Holding?)
    ensures KeyOk(Apply(s, e), key)
  {
    var s' := Apply(s, e);
    assert KeyOk(s, key);
    OwingAfter(s.ops, e.op, s'.ops[e.op], key);
    SweeperAfter(s, s', e.op, s'.ops[e.op], key);
  }

  /** Steps that take, settle or give back no reference. */
  lemma IdleStep(s: State, e: Event, key: Key)
    requires Inv(s) && Enabled(s, e)
    requires e.EndData? || e.ListForCopy? || e.CopyNext? || e.EndCopy? || e.DeleteMessages?
          || (e.Insert? && s.ops[e.op].Keeping?)
    ensures KeyOk(Apply(s, e), key)
  {
    var s' := Apply(s, e);
    assert KeyOk(s, key);
    assert s'.blobs == s.blobs && s'.kept == s.kept;
    if s'.ops == s.ops {
      assert AboutToSweep(s', key) <==> AboutToSweep(s, key);
    } else {
      OwingAfter(s.ops, e.op, s'.ops[e.op], key);
      SweeperAfter(s, s', e.op, s'.ops[e.op], key);
    }
  }

  /** Pending inserts only name keys somebody keeps a reference to. */
  lemma StepRelies(s: State, e: Event, o: nat, key: Key)
    requires Inv(s) && Enabled(s, e)
    requires o in Apply(s, e).ops && Relies(Apply(s, e).ops[o], key)
    ensures Apply(s, e).kept[key] >= 1
  {
    var s' := Apply(s, e);
    assert s'.kept[key] >= s.kept[key];
    if o in s.ops && (s'.ops[o] == s.ops[o] || e.CopyNext?) {
      assert Relies(s.ops[o], key);
    }
  }

  /** So do message rows. */
  lemma StepRows(s: State, e: Event, m: nat)
    requires Inv(s) && Enabled(s, e)
    requires m in Apply(s, e).messages
    ensures m <= Apply(s, e).lastMessage && Apply(s, e).kept[Apply(s, e).messages[m]] >= 1
  {
  }

  lemma StepInv(s: State, e: Event)
    requires Inv(s) && Enabled(s, e)
    ensures Inv(Apply(s, e))
  {
    forall key
      ensures KeyOk(Apply(s, e), key)
    {
      if e.Put? || e.Decrement? || e.Sweep? {
        BlobStep(s, e, key);
      } else if e.SizeChecked? || e.InsertFails? || (e.Insert? && s.ops[e.op].Holding?) {
        SettleStep(s, e, key);
      } else {
        IdleStep(s, e, key);
      }
    }
    forall o <- Apply(s, e).ops, key | Relies(Apply(s, e).ops[o], key)
      ensures Apply(s, e).kept[key] >= 1
    {
      StepRelies(s, e, o, key);
    }
    forall m <- Apply(s, e).messages
      ensures m <= Apply(s, e).lastMessage && Apply(s, e).kept[Apply(s, e).messages[m]] >= 1
    {
      StepRows(s, e, m);
    }
  }

  lemma {:induction false} RunInv(s: State, es: seq<Event>, s': State)
    requires Inv(s) && Runs(s, es, s')
    ensures Inv(s')
    decreases |es|
  {
    if es != [] {
      StepInv(s, es[0]);
      RunInv(Apply(s, es[0]), es[1..], s');
    }
  }

  lemma StartInv()
    ensures Inv(Start)
  {
  }

  // ----- What every run guarantees -----

  /** However operations interleave, the blob of every message row is there, counted and unaltered. */
  lemma NoMessageLosesItsBlob(es: seq<Event>, s: State)
    requires Runs(Start, es, s)
    ensures forall m <- s.messages ::
      && s.messages[m] in s.blobs
      && s.blobs[s.messages[m]].refcount >= 1
      && Digest(s.blobs[s.messages[m]].data) == s.messages[m]
  {
    StartInv();
    RunInv(Start, es, s);
    assert forall m <- s.messages :: KeyOk(s, s.messages[m]);
  }

  /** A copy in progress may insert the rows it listed even if their originals are deleted meanwhile. */
  lemma CopiesKeepTheirBlobs(es: seq<Event>, s: State, o: nat)
    requires Runs(Start, es, s) && o in s.ops && s.ops[o].Copying?
    ensures forall key <- s.ops[o].keys :: key in s.blobs && s.blobs[key].refcount >= 1
  {
    StartInv();
    RunInv(Start, es, s);
    forall key <- s.ops[o].keys
      ensures key in s.blobs && s.blobs[key].refcount >= 1
    {
      assert KeyOk(s, key) && Relies(s.ops[o], key);
    }
  }

  ghost predicate Quiescent(s: State) {
    forall o <- s.ops :: s.ops[o].Done?
  }

  /**
    Once nothing is in flight the store holds exactly the kept references: operations that gave theirs back
    (an oversize message, a failed local delivery) left no trace, and no row with count zero lingers.
   */
  lemma QuiescentStore(es: seq<Event>, s: State)
    requires Runs(Start, es, s) && Quiescent(s)
    ensures forall key :: key in s.blobs <==> key in s.kept
    ensures forall key <- s.blobs :: s.blobs[key] == Blob(key.content, s.kept[key])
  {
    StartInv();
    RunInv(Start, es, s);
    forall key
      ensures key in s.blobs <==> key in s.kept
      ensures key in s.blobs ==> s.blobs[key] == Blob(key.content, s.kept[key])
    {
      assert KeyOk(s, key);
      assert Owing(s.ops, key) == {};
    }
  }
}
