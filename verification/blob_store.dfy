/** The reference-counted SQLite blob store (pkg/blobstore/sqlite.go). */
module BlobStore {
  import opened Wrappers

  type Content = seq<bv8>

  /** The digest of a blob: distinct contents have distinct digests. */
  datatype Key = Digest(content: Content)

  datatype Blob = Blob(data: Content, refcount: int)

  type Blobs = map<Key, Blob>

  /** INSERT ... ON CONFLICT(key) DO UPDATE SET refcount = refcount + 1 */
  function Upserted(blobs: Blobs, content: Content): Blobs {
    var key := Digest(content);
    if key in blobs then blobs[key := blobs[key].(refcount := blobs[key].refcount + 1)]
    else blobs[key := Blob(content, 1)]
  }

  /** The first statement of Delete. */
  function Decremented(blobs: Blobs, key: Key): Blobs {
    if key in blobs then blobs[key := blobs[key].(refcount := blobs[key].refcount - 1)] else blobs
  }

  /** The second statement of Delete; other operations may run in between. */
  function Swept(blobs: Blobs, key: Key): Blobs {
    if key in blobs && blobs[key].refcount <= 0 then blobs - {key} else blobs
  }

  /** What the blob store keeps: every blob is referenced and stored under the digest of its data. */
  ghost predicate Sound(blobs: Blobs) {
    forall key <- blobs :: blobs[key].refcount >= 1 && blobs[key].data == key.content
  }

  class SQLiteStore {
    var blobs: Blobs

    constructor ()
      ensures blobs == map[]
    {
      blobs := map[];
    }

    method Put(content: Content) returns (key: Key, size: nat)
      modifies this
      ensures key == Digest(content) && size == |content|
      ensures blobs == Upserted(old(blobs), content)
      ensures old(Sound(blobs)) ==> Sound(blobs) && key in blobs
    {
      key, size := Digest(content), |content|;
      if key in blobs {
        blobs := blobs[key := blobs[key].(refcount := blobs[key].refcount + 1)];
      } else {
        blobs := blobs[key := Blob(content, 1)];
      }
    }

    /** Returns what was put under the key: a sound store has no content under another content's key. */
    method Get(key: Key) returns (data: Option<Content>)
      ensures data.Some? <==> key in blobs
      ensures data.Some? ==> data.value == blobs[key].data
      ensures Sound(blobs) && data.Some? ==> Digest(data.value) == key
    {
      data := if key in blobs then Some(blobs[key].data) else None;
    }

    /** Both statements with nothing in between. */
    method Delete(key: Key)
      modifies this
      ensures blobs == Swept(Decremented(old(blobs), key), key)
      ensures old(Sound(blobs)) ==> Sound(blobs)
    {
      if key in blobs {
        blobs := blobs[key := blobs[key].(refcount := blobs[key].refcount - 1)];
      }
      if key in blobs && blobs[key].refcount <= 0 {
        blobs := blobs - {key};
      }
    }
  }

  /** A Put of a content, or an uninterrupted Delete of its key. */
  function After(blobs: Blobs, op: (bool, Content)): Blobs {
    if op.0 then Upserted(blobs, op.1) else Swept(Decremented(blobs, Digest(op.1)), Digest(op.1))
  }

  function AfterAll(blobs: Blobs, ops: seq<(bool, Content)>): Blobs {
    if ops == [] then blobs else After(AfterAll(blobs, ops[..|ops| - 1]), ops[|ops| - 1])
  }

  function Puts(ops: seq<(bool, Content)>, content: Content): nat {
    multiset(ops)[(true, content)]
  }

  function Releases(ops: seq<(bool, Content)>, content: Content): nat {
    multiset(ops)[(false, content)]
  }

  lemma OneMore(ops: seq<(bool, Content)>, op: (bool, Content), content: Content)
    ensures Puts(ops + [op], content) == Puts(ops, content) + if op == (true, content) then 1 else 0
    ensures Releases(ops + [op], content) == Releases(ops, content) + if op == (false, content) then 1 else 0
  {
  }

  ghost predicate StoredWith(blobs: Blobs, content: Content, n: int) {
    && Sound(blobs) && Digest(content) in blobs
    && blobs[Digest(content)].data == content && blobs[Digest(content)].refcount == n
  }

  lemma StoredStep(blobs: Blobs, content: Content, op: (bool, Content), n: int)
    requires StoredWith(blobs, content, n) && (op == (false, content) ==> n >= 2)
    ensures StoredWith(After(blobs, op), content, if op.1 != content then n else if op.0 then n + 1 else n - 1)
  {
  }

  lemma FirstPut(blobs: Blobs, content: Content)
    requires Sound(blobs)
    ensures var n := if Digest(content) in blobs then blobs[Digest(content)].refcount else 0;
      n >= 0 && StoredWith(Upserted(blobs, content), content, n + 1)
    ensures Puts([], content) == 0 && Releases([], content) == 0
  {
  }

  /**
    Round trip: from the Put of a content until as many Deletes as there were Puts, what is stored under the
    returned key is that content, whatever else is put or deleted.
   */
  lemma {:induction false} StoredUntilReleased(blobs: Blobs, content: Content, ops: seq<(bool, Content)>)
    requires Sound(blobs) && (forall i :: 0 <= i <= |ops| ==> Releases(ops[..i], content) <= Puts(ops[..i], content))
    ensures var after := AfterAll(Upserted(blobs, content), ops);
      && Sound(after) && Digest(content) in after && after[Digest(content)].data == content
      && after[Digest(content)].refcount ==
           (if Digest(content) in blobs then blobs[Digest(content)].refcount else 0)
           + 1 + Puts(ops, content) - Releases(ops, content)
  {
    hide After, Puts, Releases, Sound;
    var start := (if Digest(content) in blobs then blobs[Digest(content)].refcount else 0) + 1;
    FirstPut(blobs, content);
    if ops != [] {
      var init, last := ops[..|ops| - 1], ops[|ops| - 1];
      assert forall i :: 0 <= i <= |init| ==> init[..i] == ops[..i];
      StoredUntilReleased(blobs, content, init);
      assert ops == init + [last] && ops[..|ops|] == ops;
      OneMore(init, last, content);
      var n := start + Puts(init, content) - Releases(init, content);
      StoredStep(AfterAll(Upserted(blobs, content), init), content, last, n);
    }
  }
  /** Uninterrupted, Delete undoes a Put of the same content. */
  lemma DeleteUndoesPut(blobs: Blobs, content: Content)
    requires Digest(content) in blobs ==> blobs[Digest(content)].refcount >= 1
    ensures Swept(Decremented(Upserted(blobs, content), Digest(content)), Digest(content)) == blobs
  {
  }
}
