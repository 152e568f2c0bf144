/** The IMAP mailbox commands (pkg/imap/mailbox.go). */
module ImapMailbox {
  import opened Wrappers
  import opened MessageTable
  import opened ImapFlags
  import opened ImapViews

  datatype Status = Status(messages: nat, uidNext: nat)

  /** What FETCH sends for one message. */
  datatype Fetched = Fetched(seqNum: nat, message: Msg)

  method ReverseInPlace(a: array<Msg>)
    modifies a
    ensures a[..] == Reversed(old(a[..]))
  {
    var i, j := 0, a.Length - 1;
    while i < j
      invariant 0 <= i && j == a.Length - 1 - i && i <= j + 1
      invariant forall k :: 0 <= k < i ==> a[k] == old(a[a.Length - 1 - k]) && a[a.Length - 1 - k] == old(a[k])
      invariant forall k :: i <= k <= j ==> a[k] == old(a[k])
    {
      a[i], a[j] := a[j], a[i];
      i, j := i + 1, j - 1;
    }
  }

  /** The rows STORE leaves behind: flags combined on the messages picked, everything else as it was. */
  function Restored(rows: seq<Msg>, pick: Msg -> bool, op: FlagsOp, given: Bits): (r: seq<Msg>)
    ensures |r| == |rows|
    ensures forall i :: 0 <= i < |rows| ==>
      r[i] == if pick(rows[i]) then rows[i].(flags := Combined(op, rows[i].flags, given)) else rows[i]
  {
    seq(|rows|, i requires 0 <= i < |rows| =>
      if pick(rows[i]) then rows[i].(flags := Combined(op, rows[i].flags, given)) else rows[i])
  }

  /** The rows COPY appends: the messages picked, in order, with consecutive ids and, in uint32 arithmetic, UIDs. */
  function Copies(picked: seq<Msg>, dest: int, firstId: nat, firstUid: nat): (r: seq<Msg>)
    ensures |r| == |picked|
    ensures forall i :: 0 <= i < |picked| ==>
      r[i] == picked[i].(id := firstId + i, mailbox := dest, uid := (firstUid + i) % UINT32)
  {
    seq(|picked|, i requires 0 <= i < |picked| =>
      picked[i].(id := firstId + i, mailbox := dest, uid := (firstUid + i) % UINT32))
  }

  /** How many UIDs a mailbox has left. */
  function Room(rows: seq<Msg>, mailbox: int): int {
    UINT32 - 1 - MaxUid(rows, mailbox)
  }

  /**
    What COPY comes to. While the destination has UIDs left all is well. Copying one message more than it has room
    for, the last copy gets UID 0; beyond that COPY fails after those.
   */
  ghost predicate CopyResult(rows: seq<Msg>, sel: seq<Msg>, dest: int, lastId: nat, ok: bool, rows': seq<Msg>) {
    var max := MaxUid(rows, dest);
    if |sel| <= Room(rows, dest) + 1 then ok && rows' == rows + Copies(sel, dest, lastId + 1, max + 1)
    else
      && !ok && 0 <= Room(rows, dest)
      && rows' == rows + Copies(sel[..Room(rows, dest) + 1], dest, lastId + 1, max + 1)
  }

  lemma MaxUidSnoc(rows: seq<Msg>, m: Msg)
    ensures MaxUid(rows + [m], m.mailbox) == if m.uid > MaxUid(rows, m.mailbox) then m.uid else MaxUid(rows, m.mailbox)
  {
  }

  function CopyOf(msg: Msg, rows: seq<Msg>, lastId: nat, dest: int): Msg {
    msg.(id := lastId + 1, mailbox := dest, uid := NextUid(rows, dest))
  }

  function StoredOne(rows: seq<Msg>, msg: Msg, picked: bool, op: FlagsOp, given: Bits): seq<Msg> {
    if picked then WithFlags(rows, msg.id, Combined(op, msg.flags, given), 0xFF) else rows
  }

  class Mailbox {
    const store: MessageStore
    const mailboxID: int

    constructor (store: MessageStore, mailboxID: int)
      ensures this.store == store && this.mailboxID == mailboxID
    {
      this.store, this.mailboxID := store, mailboxID;
    }

    /** The listing, newest first, turned around to ascending UIDs. */
    method Ascending() returns (msgs: seq<Msg>)
      ensures msgs == Box(store.rows, mailboxID)
    {
      var listed := store.ListMessages(mailboxID, 0, 0);
      var a := new Msg[|listed|](i requires 0 <= i < |listed| => listed[i]);
      assert a[..] == listed;
      ReverseInPlace(a);
      msgs := a[..];
    }

    method GetStatus() returns (status: Status)
      requires store.Sound()
      ensures status == Status(|Box(store.rows, mailboxID)|, NextUid(store.rows, mailboxID))
    {
      var count := store.CountMessages(mailboxID);
      var newest := store.ListMessages(mailboxID, 1, 0);
      BoxMax(store.rows, mailboxID);
      status := Status(count, if |newest| > 0 then (newest[0].uid + 1) % UINT32 else 1);
    }

    /** FETCH: the chosen messages by ascending UID, each with its rank. */
    method ListMessages(byUid: bool, seqset: SeqSet) returns (sent: seq<Fetched>)
      requires store.Sound()
      ensures var sel := Selected(store.rows, mailboxID, byUid, seqset);
        && |sent| == |sel|
        && forall i :: 0 <= i < |sel| ==> sent[i] == Fetched(Rank(store.rows, mailboxID, sel[i].uid), sel[i])
    {
      ghost var rows := store.rows;
      ghost var chosen := (m: Msg) => Chosen(rows, mailboxID, byUid, seqset, m);
      var msgs := Ascending();
      sent := [];
      for seqNum := 0 to |msgs|
        invariant |sent| == |Keeping(msgs[..seqNum], chosen)|
        invariant forall i :: 0 <= i < |sent| ==>
          var m := Keeping(msgs[..seqNum], chosen)[i]; sent[i] == Fetched(Rank(rows, mailboxID, m.uid), m)
      {
        var msg, seq_ := msgs[seqNum], seqNum + 1;
        BoxPosition(rows, mailboxID, byUid, seqset, seqNum);
        if (if byUid then msg.uid else seq_) in seqset {
          sent := sent + [Fetched(seq_, msg)];
        }
      }
      assert msgs[..|msgs|] == msgs;
      SelectedFromBox(rows, mailboxID, byUid, seqset);
    }

    /**
      SEARCH; `hits` are the UIDs full-text search found, if there were text criteria.
      A hit expunged since then has the sequence number 0.
     */
    method SearchMessages(byUid: bool, hits: Option<seq<nat>>) returns (found: seq<nat>)
      requires store.Sound()
      ensures var box := Box(store.rows, mailboxID);
        var uids := if hits.Some? then hits.value else seq(|box|, i requires 0 <= i < |box| => box[i].uid);
        && |found| == |uids|
        && forall i :: 0 <= i < |uids| ==>
             found[i] ==
               if byUid then uids[i]
               else if Conflicts(store.rows, mailboxID, uids[i]) then Rank(store.rows, mailboxID, uids[i])
               else 0
    {
      hide Valid, Box, Keeping, Rank;
      var allUIDs := store.ListMessageUIDs(mailboxID);
      if hits.None? {
        if byUid {
          return allUIDs;
        }
        forall i | 0 <= i < |allUIDs|
          ensures Rank(store.rows, mailboxID, allUIDs[i]) == i + 1 && Conflicts(store.rows, mailboxID, allUIDs[i])
        {
          RankIsPosition(store.rows, mailboxID, i);
          InBox(store.rows, mailboxID, allUIDs[i]);
        }
        return seq(|allUIDs|, i => i + 1);
      }
      var uids := hits.value;
      if byUid {
        return uids;
      }
      var uidToSeq: map<nat, nat> := map[];
      for i := 0 to |allUIDs|
        invariant forall u: nat :: u in uidToSeq <==> u in allUIDs[..i]
        invariant forall u <- uidToSeq :: uidToSeq[u] == Rank(store.rows, mailboxID, u)
      {
        RankIsPosition(store.rows, mailboxID, i);
        uidToSeq := uidToSeq[allUIDs[i] := i + 1];
      }
      forall u: nat
        ensures u in uidToSeq <==> Conflicts(store.rows, mailboxID, u)
      {
        InBox(store.rows, mailboxID, u);
      }
      found := seq(|uids|, i requires 0 <= i < |uids| => if uids[i] in uidToSeq then uidToSeq[uids[i]] else 0);
    }

    /** APPEND; at the end of the UIDs the row gets UID 0, which the table no longer counts as sound. */
    method CreateMessage(flags: seq<string>, key: string, size: int) returns (row: Option<Msg>)
      requires store.Sound()
      modifies store
      ensures row.Some? && store.rows == old(store.rows) + [row.value]
      ensures row.value.mailbox == mailboxID && row.value.uid == NextUid(old(store.rows), mailboxID)
      ensures row.value.key == key && row.value.size == size
      ensures forall f :: Has(row.value.flags, f) <==> Name(f) in flags
      ensures if Room(old(store.rows), mailboxID) > 0 then store.Sound() else row.value.uid == 0
    {
      var flagBits := FlagsToBits(flags);
      NeverTaken(store.rows, mailboxID);
      row := store.InsertMessage(mailboxID, key, size, "", "", "", flagBits);
    }

    /** One turn of the STORE loop. */
    method StoreOne(msg: Msg, picked: bool, op: FlagsOp, flagBits: Bits)
      requires store.Sound()
      modifies store`rows
      ensures store.rows == StoredOne(old(store.rows), msg, picked, op, flagBits)
      ensures store.Sound()
    {
      hide Valid, IdsUpTo, WithFlags, Flagged, Combined;
      if picked {
        var newFlags := Combined(op, msg.flags, flagBits);
        var _ := store.UpdateFlags(msg.id, newFlags, 0xFF);
      }
    }

    method StoreLoop(msgs: seq<Msg>, byUid: bool, seqset: SeqSet, op: FlagsOp, flagBits: Bits)
      requires store.Sound() && msgs == Box(store.rows, mailboxID)
      modifies store`rows
      ensures store.rows == StoredUpTo(old(store.rows), mailboxID, byUid, seqset, |msgs|, op, flagBits)
      ensures store.Sound()
    {
      hide *;
      store.SoundIsValid();
      ghost var rows := store.rows;
      StoredNone(rows, mailboxID, byUid, seqset, op, flagBits);
      for seqNum := 0 to |msgs|
        invariant store.Sound()
        invariant store.rows == StoredUpTo(rows, mailboxID, byUid, seqset, seqNum, op, flagBits)
      {
        var msg, seq_ := msgs[seqNum], seqNum + 1;
        StoredStep(rows, mailboxID, byUid, seqset, seqNum, op, flagBits);
        StoreOne(msg, (if byUid then msg.uid else seq_) in seqset, op, flagBits);
      }
    }

    /** STORE */
    method UpdateMessagesFlags(byUid: bool, seqset: SeqSet, op: FlagsOp, flags: seq<string>)
      requires store.Sound()
      modifies store`rows
      ensures var rows := old(store.rows);
        forall given: Bits :: BitsOf(given, flags) ==>
          store.rows == Restored(rows, (m: Msg) => Chosen(rows, mailboxID, byUid, seqset, m), op, given)
      ensures store.Sound()
    {
      hide *;
      store.SoundIsValid();
      ghost var rows := store.rows;
      var msgs := Ascending();
      var flagBits := FlagsToBits(flags);
      StoreLoop(msgs, byUid, seqset, op, flagBits);
      StoredAll(rows, mailboxID, byUid, seqset, op, flagBits);
      forall given: Bits | BitsOf(given, flags)
        ensures given == flagBits
      {
        BitsOfUnique(given, flagBits, flags);
      }
    }

    /** One turn of the COPY loop. */
    method CopyOne(msg: Msg, picked: bool, dest: int) returns (ok: bool)
      modifies store
      ensures ok <==> picked ==> !Conflicts(old(store.rows), dest, NextUid(old(store.rows), dest))
      ensures picked && ok ==>
        && store.lastId == old(store.lastId) + 1
        && store.rows == old(store.rows) + [CopyOf(msg, old(store.rows), old(store.lastId), dest)]
        && (old(store.Sound()) && Room(old(store.rows), dest) > 0 ==> store.Sound())
      ensures !picked || !ok ==>
        && store.rows == old(store.rows) && store.lastId == old(store.lastId)
        && (old(store.Sound()) ==> store.Sound())
    {
      hide Valid, IdsUpTo, MaxUid, NextUid, Conflicts;
      ok := true;
      if picked {
        var row := store.InsertMessage(dest, msg.key, msg.size, msg.fromAddr, msg.toAddr, msg.subject, msg.flags);
        ok := row.Some?;
      }
    }

    method CopyLoop(msgs: seq<Msg>, byUid: bool, seqset: SeqSet, dest: int) returns (ok: bool)
      requires store.Sound() && msgs == Box(store.rows, mailboxID)
      modifies store
      ensures var rows, sel := old(store.rows), Selected(old(store.rows), mailboxID, byUid, seqset);
        && CopyResult(rows, sel, dest, old(store.lastId), ok, store.rows)
        && (|sel| <= Room(rows, dest) ==> store.Sound())
    {
      hide *;
      store.SoundIsValid();
      ghost var rows, lastId := store.rows, store.lastId;
      CopiedNone(rows, mailboxID, byUid, seqset, dest, lastId);
      for seqNum := 0 to |msgs|
        invariant CopiedUpTo(rows, mailboxID, byUid, seqset, seqNum, dest, lastId, store.rows, store.lastId)
        invariant Done(rows, mailboxID, byUid, seqset, seqNum) <= Room(rows, dest) ==> store.Sound()
      {
        var msg, seq_ := msgs[seqNum], seqNum + 1;
        ghost var fits := Done(rows, mailboxID, byUid, seqset, seqNum) <= Room(rows, dest);
        if fits {
          store.SoundIsValid();
        }
        CopiedStep(rows, mailboxID, byUid, seqset, seqNum, dest, lastId, store.rows, store.lastId);
        ok := CopyOne(msg, (if byUid then msg.uid else seq_) in seqset, dest);
        if !ok {
          return;
        }
      }
      CopiedAll(rows, mailboxID, byUid, seqset, dest, lastId, store.rows, store.lastId);
      ok := true;
    }

    /** COPY; None stands for a destination that is not found. */
    method CopyMessages(byUid: bool, seqset: SeqSet, dest: Option<int>) returns (ok: bool)
      requires store.Sound()
      modifies store
      ensures dest.None? ==> !ok && store.rows == old(store.rows) && store.lastId == old(store.lastId)
      ensures dest.Some? ==>
        var rows, sel := old(store.rows), Selected(old(store.rows), mailboxID, byUid, seqset);
        && CopyResult(rows, sel, dest.value, old(store.lastId), ok, store.rows)
        && (|sel| <= Room(rows, dest.value) ==> store.Sound())
    {
      hide *;
      if dest.None? {
        return false;
      }
      var msgs := Ascending();
      ok := CopyLoop(msgs, byUid, seqset, dest.value);
    }

    method Expunge()
      requires store.Sound()
      modifies store`rows
      ensures store.rows == Expunged(old(store.rows), mailboxID) && store.Sound()
    {
      hide Valid, Box, Keeping, WithoutId, IdsUpTo, Expunged;
      ghost var rows := store.rows;
      var msgs := store.ListMessages(mailboxID, 0, 0);
      ReversedMembers(rows, mailboxID, msgs);
      ghost var keep0 := (m: Msg) => !(m in msgs[..0] && m.flags & FLAG_DELETED != 0);
      KeepingAll(rows, keep0);
      for i := 0 to |msgs|
        invariant store.Sound()
        invariant store.rows == Keeping(rows, (m: Msg) => !(m in msgs[..i] && m.flags & FLAG_DELETED != 0))
      {
        var msg := msgs[i];
        ExpungeStep(rows, msgs, i);
        if msg.flags & FLAG_DELETED != 0 {
          var _ := store.DeleteMessage(msg.id);
        }
      }
      assert msgs[..|msgs|] == msgs;
      ExpungeAll(rows, mailboxID, msgs);
    }
  }

  /** The UIDs listed are those some row of the mailbox has. */
  lemma InBox(rows: seq<Msg>, mailbox: int, u: nat)
    requires Valid(rows)
    ensures Conflicts(rows, mailbox, u) <==> exists m <- Box(rows, mailbox) :: m.uid == u
  {
    BoxSorted(rows, mailbox);
    if Conflicts(rows, mailbox, u) {
      var m :| m in rows && m.mailbox == mailbox && m.uid == u;
      assert m in Box(rows, mailbox);
    }
  }

  /** The loop's test at position k picks exactly the chosen messages. */
  lemma BoxPosition(rows: seq<Msg>, mailbox: int, byUid: bool, set_: SeqSet, k: nat)
    requires Valid(rows) && k < |Box(rows, mailbox)|
    ensures var box := Box(rows, mailbox);
      var chosen := (m: Msg) => Chosen(rows, mailbox, byUid, set_, m);
      && Rank(rows, mailbox, box[k].uid) == k + 1
      && (chosen(box[k]) <==> (if byUid then box[k].uid else k + 1) in set_)
      && Keeping(box[..k + 1], chosen) == Keeping(box[..k], chosen) + if chosen(box[k]) then [box[k]] else []
  {
    hide Valid, Box, Keeping, Rank;
    var box := Box(rows, mailbox);
    RankIsPosition(rows, mailbox, k);
    BoxSorted(rows, mailbox);
    assert box[k] in box;
    assert box[..k + 1] == box[..k] + [box[k]];
    KeepingSnoc(box[..k], box[k], (m: Msg) => Chosen(rows, mailbox, byUid, set_, m));
  }

  /** In a sound table the next UID is never taken: it is larger than all, or 0. */
  lemma NeverTaken(rows: seq<Msg>, mailbox: int)
    requires Valid(rows)
    ensures !Conflicts(rows, mailbox, NextUid(rows, mailbox)) && 0 <= Room(rows, mailbox)
    ensures NextUid(rows, mailbox) == if Room(rows, mailbox) > 0 then MaxUid(rows, mailbox) + 1 else 0
  {
    ValidPairs(rows);
    MaxUidBounds(rows, mailbox);
  }

  lemma CopiesSnoc(picked: seq<Msg>, m: Msg, dest: int, firstId: nat, firstUid: nat)
    ensures Copies(picked + [m], dest, firstId, firstUid)
         == Copies(picked, dest, firstId, firstUid)
            + [m.(id := firstId + |picked|, mailbox := dest, uid := (firstUid + |picked|) % UINT32)]
  {
  }

  lemma BitsOfUnique(a: Bits, b: Bits, flags: seq<string>)
    requires BitsOf(a, flags) && BitsOf(b, flags)
    ensures a == b
  {
    hide Has, Name;
    FlagsDetermineBits(a, b);
  }

  /** Ids are unique, so UPDATE ... WHERE id touches one row. */
  lemma SameIdSameRow(rows: seq<Msg>, a: Msg, b: Msg)
    requires Valid(rows) && a in rows && b in rows && a.id == b.id
    ensures a == b
  {
  }

  /** Message k of the listing is not among those before it. */
  lemma NotSeenBefore(rows: seq<Msg>, mailbox: int, k: nat)
    requires Valid(rows) && k < |Box(rows, mailbox)|
    ensures var box := Box(rows, mailbox);
      && box[k] in rows && box[k] !in box[..k]
      && forall m :: m in box[..k + 1] <==> m in box[..k] || m == box[k]
  {
    hide Valid, Box;
    BoxSorted(rows, mailbox);
    var box := Box(rows, mailbox);
    assert box[k] in box;
    assert forall i :: 0 <= i < k ==> box[i].uid < box[k].uid;
    assert box[..k + 1] == box[..k] + [box[k]];
  }

  /** One turn of the STORE loop. */
  lemma RestoredStep(rows: seq<Msg>, mailbox: int, k: nat, chosen: Msg -> bool, op: FlagsOp, given: Bits)
    requires Valid(rows) && k < |Box(rows, mailbox)|
    ensures var box := Box(rows, mailbox);
      var before := Restored(rows, (m: Msg) => m in box[..k] && chosen(m), op, given);
      Restored(rows, (m: Msg) => m in box[..k + 1] && chosen(m), op, given)
        == if chosen(box[k]) then WithFlags(before, box[k].id, Combined(op, box[k].flags, given), 0xFF) else before
  {
    hide Combined, Valid, Box, Restored, WithFlags, Flagged;
    var box := Box(rows, mailbox);
    var msg := box[k];
    NotSeenBefore(rows, mailbox, k);
    forall i | 0 <= i < |rows|
      ensures rows[i] == msg || rows[i].id != msg.id
      ensures var m := rows[i];
        var r := if m in box[..k] && chosen(m) then m.(flags := Combined(op, m.flags, given)) else m;
        (if chosen(msg) then Flagged(r, msg.id, Combined(op, msg.flags, given), 0xFF) else r)
          == if m in box[..k + 1] && chosen(m) then m.(flags := Combined(op, m.flags, given)) else m
    {
      var m := rows[i];
      assert m in rows;
      if m.id == msg.id {
        SameIdSameRow(rows, m, msg);
      }
      FlaggedAll(m, msg.id, Combined(op, msg.flags, given));
      FlaggedAll(m.(flags := Combined(op, m.flags, given)), msg.id, Combined(op, msg.flags, given));
    }
  }

  /** With a full mask, UPDATE ... SET flags replaces them. */
  lemma FlaggedAll(m: Msg, id: nat, bits: Bits)
    ensures Flagged(m, id, bits, 0xFF) == if m.id == id then m.(flags := bits) else m
  {
  }

  lemma {:induction false} KeepingPrefix(s: seq<Msg>, n: nat, p: Msg -> bool)
    requires n <= |s|
    ensures Keeping(s[..n], p) <= Keeping(s, p)
  {
    if n == |s| {
      assert s[..n] == s;
    } else {
      KeepingPrefix(s[..|s| - 1], n, p);
      assert s[..|s| - 1][..n] == s[..n];
    }
  }

  lemma {:induction false} KeepingAll(rows: seq<Msg>, p: Msg -> bool)
    requires forall m <- rows :: p(m)
    ensures Keeping(rows, p) == rows
  {
    if rows != [] {
      var init, last := rows[..|rows| - 1], rows[|rows| - 1];
      assert rows == init + [last];
      KeepingAll(init, p);
    }
  }

  /** One turn of the EXPUNGE loop. */
  lemma ExpungeStep(rows: seq<Msg>, msgs: seq<Msg>, i: nat)
    requires Valid(rows) && i < |msgs| && msgs[i] in rows
    ensures var before := Keeping(rows, (m: Msg) => !(m in msgs[..i] && m.flags & FLAG_DELETED != 0));
      Keeping(rows, (m: Msg) => !(m in msgs[..i + 1] && m.flags & FLAG_DELETED != 0))
        == if msgs[i].flags & FLAG_DELETED != 0 then WithoutId(before, msgs[i].id) else before
  {
    var p := (m: Msg) => !(m in msgs[..i] && m.flags & FLAG_DELETED != 0);
    var p' := (m: Msg) => !(m in msgs[..i + 1] && m.flags & FLAG_DELETED != 0);
    var other := (m: Msg) => m.id != msgs[i].id;
    assert msgs[..i + 1] == msgs[..i] + [msgs[i]];
    if msgs[i].flags & FLAG_DELETED != 0 {
      forall m <- rows | m.id == msgs[i].id
        ensures m == msgs[i]
      {
        SameIdSameRow(rows, m, msgs[i]);
      }
      assert WithoutId(Keeping(rows, p), msgs[i].id) == Keeping(Keeping(rows, p), other);
      KeepingTwice(rows, p, other);
      KeepingSame(rows, (m: Msg) => p(m) && other(m), p');
    } else {
      KeepingSame(rows, p, p');
    }
  }

  // ----- The STORE loop -----

  /** The table after the first `k` messages of the listing have been dealt with. */
  ghost function StoredUpTo(rows: seq<Msg>, mailbox: int, byUid: bool, set_: SeqSet, k: nat, op: FlagsOp, given: Bits): seq<Msg>
    requires k <= |Box(rows, mailbox)|
  {
    var chosen := (m: Msg) => Chosen(rows, mailbox, byUid, set_, m);
    Restored(rows, (m: Msg) => m in Box(rows, mailbox)[..k] && chosen(m), op, given)
  }

  lemma StoredNone(rows: seq<Msg>, mailbox: int, byUid: bool, set_: SeqSet, op: FlagsOp, given: Bits)
    ensures StoredUpTo(rows, mailbox, byUid, set_, 0, op, given) == rows
  {
  }

  lemma StoredStep(rows: seq<Msg>, mailbox: int, byUid: bool, set_: SeqSet, k: nat, op: FlagsOp, given: Bits)
    requires Valid(rows) && k < |Box(rows, mailbox)|
    ensures var msg := Box(rows, mailbox)[k];
      var before := StoredUpTo(rows, mailbox, byUid, set_, k, op, given);
      StoredUpTo(rows, mailbox, byUid, set_, k + 1, op, given)
        == StoredOne(before, msg, (if byUid then msg.uid else k + 1) in set_, op, given)
  {
    hide Valid, Box, Chosen, Restored, WithFlags, Combined;
    BoxPosition(rows, mailbox, byUid, set_, k);
    RestoredStep(rows, mailbox, k, (m: Msg) => Chosen(rows, mailbox, byUid, set_, m), op, given);
  }

  lemma StoredAll(rows: seq<Msg>, mailbox: int, byUid: bool, set_: SeqSet, op: FlagsOp, given: Bits)
    requires Valid(rows)
    ensures StoredUpTo(rows, mailbox, byUid, set_, |Box(rows, mailbox)|, op, given)
         == Restored(rows, (m: Msg) => Chosen(rows, mailbox, byUid, set_, m), op, given)
  {
    hide Valid, Box, Restored, Rank, Combined;
    BoxSorted(rows, mailbox);
    var box := Box(rows, mailbox);
    assert box[..|box|] == box;
    assert forall i :: 0 <= i < |rows| ==> rows[i] in rows;
  }

  // ----- The COPY loop -----

  /** The messages picked among the first `k` of the listing. */
  ghost function Picked(rows: seq<Msg>, mailbox: int, byUid: bool, set_: SeqSet, k: nat): seq<Msg>
    requires k <= |Box(rows, mailbox)|
  {
    Keeping(Box(rows, mailbox)[..k], (m: Msg) => Chosen(rows, mailbox, byUid, set_, m))
  }

  ghost function Done(rows: seq<Msg>, mailbox: int, byUid: bool, set_: SeqSet, k: nat): nat
    requires k <= |Box(rows, mailbox)|
  {
    |Picked(rows, mailbox, byUid, set_, k)|
  }

  /** The table and its last id after copying `done`. */
  ghost predicate Copied(rows: seq<Msg>, done: seq<Msg>, dest: int, lastId: nat, rows': seq<Msg>, lastId': nat) {
    && |done| <= Room(rows, dest) + 1
    && rows' == rows + Copies(done, dest, lastId + 1, MaxUid(rows, dest) + 1)
    && lastId' == lastId + |done|
    && Room(rows', dest) == (if |done| <= Room(rows, dest) then Room(rows, dest) - |done| else 0)
    && (|done| == Room(rows, dest) + 1 ==> Conflicts(rows', dest, 0))
  }

  /** The table after the first `k` messages of the listing have been dealt with. */
  ghost predicate CopiedUpTo(rows: seq<Msg>, mailbox: int, byUid: bool, set_: SeqSet, k: nat, dest: int, lastId: nat,
                             rows': seq<Msg>, lastId': nat)
    requires k <= |Box(rows, mailbox)|
  {
    Copied(rows, Picked(rows, mailbox, byUid, set_, k), dest, lastId, rows', lastId')
  }

  lemma CopiedNone(rows: seq<Msg>, mailbox: int, byUid: bool, set_: SeqSet, dest: int, lastId: nat)
    requires Valid(rows)
    ensures CopiedUpTo(rows, mailbox, byUid, set_, 0, dest, lastId, rows, lastId)
  {
    NeverTaken(rows, dest);
    assert Box(rows, mailbox)[..0] == [];
  }

  /** One more copy, as long as UIDs, and at last UID 0, are free. */
  lemma CopiedOneMore(rows: seq<Msg>, done: seq<Msg>, msg: Msg, dest: int, lastId: nat, rows': seq<Msg>, lastId': nat)
    requires Copied(rows, done, dest, lastId, rows', lastId') && |done| <= Room(rows, dest) && Valid(rows')
    ensures !Conflicts(rows', dest, NextUid(rows', dest))
    ensures Copied(rows, done + [msg], dest, lastId, rows' + [CopyOf(msg, rows', lastId', dest)], lastId' + 1)
  {
    hide Valid, Copies;
    var copy := CopyOf(msg, rows', lastId', dest);
    NeverTaken(rows', dest);
    CopiesSnoc(done, msg, dest, lastId + 1, MaxUid(rows, dest) + 1);
    MaxUidSnoc(rows', copy);
    assert copy in rows' + [copy];
  }

  /** One turn: a message not chosen changes nothing, and an inserted copy takes the table one step further. */
  lemma CopiedStep(rows: seq<Msg>, mailbox: int, byUid: bool, set_: SeqSet, k: nat, dest: int, lastId: nat,
                   rows': seq<Msg>, lastId': nat)
    requires Valid(rows) && k < |Box(rows, mailbox)|
    requires CopiedUpTo(rows, mailbox, byUid, set_, k, dest, lastId, rows', lastId')
    requires Done(rows, mailbox, byUid, set_, k) <= Room(rows, dest) ==> Valid(rows')
    ensures var msg, done := Box(rows, mailbox)[k], Done(rows, mailbox, byUid, set_, k);
      if (if byUid then msg.uid else k + 1) !in set_ then
        && Done(rows, mailbox, byUid, set_, k + 1) == done
        && CopiedUpTo(rows, mailbox, byUid, set_, k + 1, dest, lastId, rows', lastId')
      else if done <= Room(rows, dest) then
        && Done(rows, mailbox, byUid, set_, k + 1) == done + 1
        && !Conflicts(rows', dest, NextUid(rows', dest))
        && (done < Room(rows, dest) ==> Room(rows', dest) > 0)
        && CopiedUpTo(rows, mailbox, byUid, set_, k + 1, dest, lastId,
                      rows' + [CopyOf(msg, rows', lastId', dest)], lastId' + 1)
      else
        && Conflicts(rows', dest, NextUid(rows', dest))
        && |Selected(rows, mailbox, byUid, set_)| > Room(rows, dest)
        && CopyResult(rows, Selected(rows, mailbox, byUid, set_), dest, lastId, false, rows')
  {
    hide Valid, Box, Chosen, Keeping, MaxUid, Selected, Rank, Copies, Conflicts;
    var box, msg := Box(rows, mailbox), Box(rows, mailbox)[k];
    var chosen := (m: Msg) => Chosen(rows, mailbox, byUid, set_, m);
    BoxPosition(rows, mailbox, byUid, set_, k);
    var done := Picked(rows, mailbox, byUid, set_, k);
    if chosen(msg) {
      if |done| <= Room(rows, dest) {
        CopiedOneMore(rows, done, msg, dest, lastId, rows', lastId');
      } else {
        NeverTaken(rows, dest);
        KeepingPrefix(box, k + 1, chosen);
        SelectedFromBox(rows, mailbox, byUid, set_);
        assert done <= done + [msg] <= Selected(rows, mailbox, byUid, set_);
        assert |done + [msg]| == |done| + 1;
        assert Selected(rows, mailbox, byUid, set_)[..|done|] == done;
      }
    } else {
      assert done + [] == done;
    }
  }

  lemma CopiedAll(rows: seq<Msg>, mailbox: int, byUid: bool, set_: SeqSet, dest: int, lastId: nat,
                  rows': seq<Msg>, lastId': nat)
    requires CopiedUpTo(rows, mailbox, byUid, set_, |Box(rows, mailbox)|, dest, lastId, rows', lastId')
    ensures Done(rows, mailbox, byUid, set_, |Box(rows, mailbox)|) == |Selected(rows, mailbox, byUid, set_)|
    ensures CopyResult(rows, Selected(rows, mailbox, byUid, set_), dest, lastId, true, rows')
  {
    hide Keeping, Box, Selected, Chosen, Copies, MaxUid;
    SelectedFromBox(rows, mailbox, byUid, set_);
    var box := Box(rows, mailbox);
    assert box[..|box|] == box;
  }

  // ----- The EXPUNGE loop -----

  lemma ReversedMembers(rows: seq<Msg>, mailbox: int, msgs: seq<Msg>)
    requires Valid(rows) && msgs == Reversed(Box(rows, mailbox))
    ensures forall i :: 0 <= i < |msgs| ==> msgs[i] in rows
    ensures forall m <- rows :: m in msgs <==> m.mailbox == mailbox
  {
    hide Valid, Box;
    BoxSorted(rows, mailbox);
    var box := Box(rows, mailbox);
    assert forall i :: 0 <= i < |msgs| ==> msgs[i] == box[|box| - 1 - i];
    forall m | m in box
      ensures m in msgs
    {
      var k :| 0 <= k < |box| && box[k] == m;
      assert msgs[|box| - 1 - k] == m;
    }
  }

  lemma ExpungeAll(rows: seq<Msg>, mailbox: int, msgs: seq<Msg>)
    requires Valid(rows) && msgs == Reversed(Box(rows, mailbox))
    ensures Keeping(rows, (m: Msg) => !(m in msgs && m.flags & FLAG_DELETED != 0)) == Expunged(rows, mailbox)
  {
    hide Valid, Box, Keeping;
    ReversedMembers(rows, mailbox, msgs);
    KeepingSame(rows, (m: Msg) => !(m in msgs && m.flags & FLAG_DELETED != 0),
                (m: Msg) => m.mailbox != mailbox || m.flags & FLAG_DELETED == 0);
  }
}
