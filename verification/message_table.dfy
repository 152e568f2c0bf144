/** The `messages` table (pkg/storage/messages.go), rows in the order of their ids. */
module MessageTable {
  import opened Wrappers

  type Bits = bv8

  datatype Msg = Msg(
    id: nat, mailbox: int, uid: nat, key: string, size: int, flags: Bits,
    fromAddr: string, toAddr: string, subject: string)

  const UINT32 := 0x1_0000_0000

  const FLAG_SEEN: Bits := 1
  const FLAG_ANSWERED: Bits := 2
  const FLAG_FLAGGED: Bits := 4
  const FLAG_DELETED: Bits := 8
  const FLAG_DRAFT: Bits := 16

  /** `m` may follow the rows: its id is new, and so is its UID in its mailbox. */
  ghost predicate Follows(rows: seq<Msg>, m: Msg) {
    && 1 <= m.uid < UINT32
    && forall r <- rows :: r.id < m.id && (r.mailbox == m.mailbox ==> r.uid < m.uid)
  }

  /** What the statements below keep: ids grow, and so do the UIDs within each mailbox. */
  ghost predicate Valid(rows: seq<Msg>) {
    rows == [] || (Valid(rows[..|rows| - 1]) && Follows(rows[..|rows| - 1], rows[|rows| - 1]))
  }

  function Keeping(rows: seq<Msg>, keep: Msg -> bool): seq<Msg> {
    if rows == [] then []
    else
      var last := rows[|rows| - 1];
      Keeping(rows[..|rows| - 1], keep) + if keep(last) then [last] else []
  }

  /** SELECT ... WHERE mailbox_id = mailbox */
  function Box(rows: seq<Msg>, mailbox: int): seq<Msg> {
    Keeping(rows, (m: Msg) => m.mailbox == mailbox)
  }

  function Reversed<T>(s: seq<T>): (r: seq<T>)
    ensures |r| == |s| && forall i :: 0 <= i < |s| ==> r[i] == s[|s| - 1 - i]
  {
    seq(|s|, i requires 0 <= i < |s| => s[|s| - 1 - i])
  }

  /** SELECT MAX(uid), 0 for an empty mailbox. */
  function MaxUid(rows: seq<Msg>, mailbox: int): nat {
    if rows == [] then 0
    else
      var rest, last := MaxUid(rows[..|rows| - 1], mailbox), rows[|rows| - 1];
      if last.mailbox == mailbox && last.uid > rest then last.uid else rest
  }

  /** uint32 arithmetic. */
  function NextUid(rows: seq<Msg>, mailbox: int): nat {
    (MaxUid(rows, mailbox) + 1) % UINT32
  }

  predicate Conflicts(rows: seq<Msg>, mailbox: int, uid: nat) {
    exists m <- rows :: m.mailbox == mailbox && m.uid == uid
  }

  /** How UPDATE ... SET flags changes one row. */
  function Flagged(m: Msg, id: nat, flags: Bits, mask: Bits): (r: Msg)
    ensures r.(flags := m.flags) == m && (m.id != id ==> r == m)
    ensures m.id == id ==> r.flags & mask == flags & mask && r.flags & !mask == m.flags & !mask
  {
    if m.id == id then m.(flags := (m.flags & !mask) | (flags & mask)) else m
  }

  function WithFlags(rows: seq<Msg>, id: nat, flags: Bits, mask: Bits): (r: seq<Msg>)
    ensures |r| == |rows|
    ensures forall i :: 0 <= i < |rows| ==> r[i] == Flagged(rows[i], id, flags, mask)
  {
    seq(|rows|, i requires 0 <= i < |rows| => Flagged(rows[i], id, flags, mask))
  }

  function WithoutId(rows: seq<Msg>, id: nat): seq<Msg> {
    Keeping(rows, (m: Msg) => m.id != id)
  }

  function Expunged(rows: seq<Msg>, mailbox: int): seq<Msg> {
    Keeping(rows, (m: Msg) => m.mailbox != mailbox || m.flags & FLAG_DELETED == 0)
  }

  predicate IdsUpTo(rows: seq<Msg>, lastId: nat) {
    forall m <- rows :: m.id <= lastId
  }

  class MessageStore {
    var rows: seq<Msg>
    var lastId: nat

    ghost predicate Sound()
      reads this
    {
      Valid(rows) && IdsUpTo(rows, lastId)
    }

    lemma SoundIsValid()
      requires Sound()
      ensures Valid(rows)
    {
    }

    constructor ()
      ensures rows == [] && lastId == 0 && Sound()
    {
      rows, lastId := [], 0;
    }

    /** None when UNIQUE(mailbox_id, uid) is violated. */
    method InsertMessage(mailbox: int, key: string, size: int, fromAddr: string, toAddr: string, subject: string,
                         flags: Bits)
      returns (row: Option<Msg>)
      modifies this
      ensures row.None? <==> Conflicts(old(rows), mailbox, NextUid(old(rows), mailbox))
      ensures row.None? ==> rows == old(rows) && lastId == old(lastId)
      ensures row.Some? ==>
        && row.value == Msg(old(lastId) + 1, mailbox, NextUid(old(rows), mailbox), key, size, flags,
                            fromAddr, toAddr, subject)
        && rows == old(rows) + [row.value] && lastId == old(lastId) + 1
      // UIDs run out at 2^32 - 1; before that every insert succeeds
      ensures old(Sound()) && MaxUid(old(rows), mailbox) < UINT32 - 1 ==> Sound() && row.Some?
    {
      var uid := NextUid(rows, mailbox);
      var m := Msg(lastId + 1, mailbox, uid, key, size, flags, fromAddr, toAddr, subject);
      if Sound() && MaxUid(rows, mailbox) < UINT32 - 1 {
        NextFollows(rows, lastId, m);
        ValidSnoc(rows, m);
      }
      if Conflicts(rows, mailbox, uid) {
        return None;
      }
      lastId := lastId + 1;
      rows := rows + [m];
      row := Some(m);
    }

    method UpdateFlags(id: nat, flags: Bits, mask: Bits) returns (found: bool)
      modifies `rows
      ensures rows == WithFlags(old(rows), id, flags, mask)
      ensures found <==> exists m <- old(rows) :: m.id == id
      ensures old(Sound()) ==> Sound()
    {
      found := exists m <- rows :: m.id == id;
      if Sound() {
        WithFlagsValid(rows, id, flags, mask);
      }
      WithFlagsMembers(rows, id, flags, mask);
      rows := WithFlags(rows, id, flags, mask);
    }

    method DeleteMessage(id: nat) returns (found: bool)
      modifies `rows
      ensures rows == WithoutId(old(rows), id)
      ensures forall m :: m in rows <==> m in old(rows) && m.id != id
      ensures found <==> exists m <- old(rows) :: m.id == id
      ensures old(Sound()) ==> Sound()
    {
      found := exists m <- rows :: m.id == id;
      ghost var keep := (m: Msg) => m.id != id;
      assert WithoutId(rows, id) == Keeping(rows, keep);
      KeepingMembers(rows, keep);
      if Sound() {
        KeepingValid(rows, keep);
      }
      rows := WithoutId(rows, id);
    }

    method ExpungeMailbox(mailbox: int) returns (removed: nat)
      modifies `rows
      ensures rows == Expunged(old(rows), mailbox) && removed == |old(rows)| - |rows|
      ensures forall m :: m in rows <==> m in old(rows) && !(m.mailbox == mailbox && m.flags & FLAG_DELETED != 0)
      ensures old(Sound()) ==> Sound()
    {
      ghost var keep := (m: Msg) => m.mailbox != mailbox || m.flags & FLAG_DELETED == 0;
      assert Expunged(rows, mailbox) == Keeping(rows, keep);
      KeepingMembers(rows, keep);
      if Sound() {
        KeepingValid(rows, keep);
      }
      var before := |rows|;
      rows := Expunged(rows, mailbox);
      removed := before - |rows|;
    }

    /**
      ORDER BY uid DESC; a limit of zero means all, and so does a sinceUid of zero. In a sound table that is the order of
      the rows, backwards.
     */
    method ListMessages(mailbox: int, limit: nat, sinceUid: nat) returns (msgs: seq<Msg>)
      ensures sinceUid == 0 ==>
        var all := Reversed(Box(rows, mailbox)); msgs == if 0 < limit < |all| then all[..limit] else all
      ensures Sound() ==> NewestFirst(rows, mailbox, limit, sinceUid, msgs)
    {
      hide Box, BoxSince, Keeping, Valid, IdsUpTo, NewestFirst;
      msgs := [];
      ghost var all := Reversed(BoxSince(rows, mailbox, sinceUid));
      BoxUpTo(rows, mailbox, sinceUid, |rows|);
      var i := |rows|;
      while i > 0 && (limit == 0 || |msgs| < limit)
        invariant 0 <= i <= |rows| && (limit > 0 ==> |msgs| <= limit)
        invariant all == msgs + Reversed(BoxSince(rows[..i], mailbox, sinceUid))
      {
        i := i - 1;
        BoxUpTo(rows, mailbox, sinceUid, i);
        if rows[i].mailbox == mailbox && (sinceUid > 0 ==> rows[i].uid > sinceUid) {
          msgs := msgs + [rows[i]];
        }
      }
      assert i == 0 ==> rows[..i] == [] && msgs + [] == msgs;
      assert all[..|msgs|] == msgs;
      if sinceUid == 0 {
        BoxSinceZero(rows, mailbox);
      }
      if Sound() {
        SoundIsValid();
        ListedNewestFirst(rows, mailbox, limit, sinceUid, msgs);
      }
    }

    /** ORDER BY uid ASC */
    method ListMessageUIDs(mailbox: int) returns (uids: seq<nat>)
      ensures |uids| == |Box(rows, mailbox)| && forall i :: 0 <= i < |uids| ==> uids[i] == Box(rows, mailbox)[i].uid
      ensures Sound() ==>
        && (forall i, j :: 0 <= i < j < |uids| ==> uids[i] < uids[j])
        && (forall u :: u in uids <==> Conflicts(rows, mailbox, u))
    {
      uids := [];
      for i := 0 to |rows|
        invariant |uids| == |Box(rows[..i], mailbox)|
        invariant forall k :: 0 <= k < |uids| ==> uids[k] == Box(rows[..i], mailbox)[k].uid
      {
        assert rows[..i + 1][..i] == rows[..i];
        if rows[i].mailbox == mailbox {
          uids := uids + [rows[i].uid];
        }
      }
      assert rows[..|rows|] == rows;
      if Sound() {
        ListedUIDs(rows, mailbox, uids);
      }
    }

    method CountMessages(mailbox: int) returns (count: nat)
      ensures count == |Box(rows, mailbox)|
    {
      count := |Box(rows, mailbox)|;
    }
  }

  // ----- Facts about the queries -----

  lemma {:induction false} MaxUidBounds(rows: seq<Msg>, mailbox: int)
    ensures forall m <- rows :: m.mailbox == mailbox ==> m.uid <= MaxUid(rows, mailbox)
    ensures MaxUid(rows, mailbox) == 0 || exists m <- rows :: m.mailbox == mailbox && m.uid == MaxUid(rows, mailbox)
  {
    if rows != [] {
      var init, last := rows[..|rows| - 1], rows[|rows| - 1];
      MaxUidBounds(init, mailbox);
      assert rows == init + [last];
      assert forall m :: m in rows <==> m in init || m == last;
    }
  }

  lemma {:induction false} ValidPairs(rows: seq<Msg>)
    requires Valid(rows)
    ensures forall i, j :: 0 <= i < j < |rows| ==>
      rows[i].id < rows[j].id && (rows[i].mailbox == rows[j].mailbox ==> rows[i].uid < rows[j].uid)
    ensures forall m <- rows :: 1 <= m.uid < UINT32
  {
    if rows != [] {
      var init := rows[..|rows| - 1];
      ValidPairs(init);
      forall i, j | 0 <= i < j < |rows|
        ensures rows[i].id < rows[j].id && (rows[i].mailbox == rows[j].mailbox ==> rows[i].uid < rows[j].uid)
      {
        assert rows[i] == init[i] && init[i] in init;
      }
      assert rows == init + [rows[|rows| - 1]];
    }
  }

  lemma {:induction false} KeepingMembers(rows: seq<Msg>, keep: Msg -> bool)
    ensures |Keeping(rows, keep)| <= |rows|
    ensures forall m :: m in Keeping(rows, keep) <==> m in rows && keep(m)
  {
    if rows != [] {
      var init, last := rows[..|rows| - 1], rows[|rows| - 1];
      KeepingMembers(init, keep);
      assert rows == init + [last];
    }
  }

  lemma {:induction false} KeepingValid(rows: seq<Msg>, keep: Msg -> bool)
    requires Valid(rows)
    ensures Valid(Keeping(rows, keep))
  {
    if rows != [] {
      var init, last := rows[..|rows| - 1], rows[|rows| - 1];
      KeepingValid(init, keep);
      KeepingMembers(init, keep);
      if keep(last) {
        ValidSnoc(Keeping(init, keep), last);
      } else {
        assert Keeping(rows, keep) == Keeping(init, keep);
      }
    }
  }

  lemma ValidSnoc(rows: seq<Msg>, m: Msg)
    requires Valid(rows) && Follows(rows, m)
    ensures Valid(rows + [m])
  {
  }

  /** A mailbox listing holds exactly the mailbox's rows, by ascending UID. */
  lemma BoxSorted(rows: seq<Msg>, mailbox: int)
    requires Valid(rows)
    ensures var box := Box(rows, mailbox);
      && (forall m :: m in box <==> m in rows && m.mailbox == mailbox)
      && (forall i, j :: 0 <= i < j < |box| ==> box[i].uid < box[j].uid && box[i].id < box[j].id)
      && Valid(box)
  {
    var box, keep := Box(rows, mailbox), (m: Msg) => m.mailbox == mailbox;
    assert box == Keeping(rows, keep);
    KeepingMembers(rows, keep);
    KeepingValid(rows, keep);
    ValidPairs(box);
    assert forall i :: 0 <= i < |box| ==> box[i] in box;
  }

  lemma BoxMax(rows: seq<Msg>, mailbox: int)
    requires Valid(rows)
    ensures var box := Box(rows, mailbox);
      MaxUid(rows, mailbox) == if box == [] then 0 else box[|box| - 1].uid
  {
    BoxSorted(rows, mailbox);
    MaxUidBounds(rows, mailbox);
    var box := Box(rows, mailbox);
    if box != [] {
      assert box[|box| - 1] in box;
      ValidPairs(box);
      var m :| m in rows && m.mailbox == mailbox && m.uid == MaxUid(rows, mailbox);
      assert m in box;
    }
  }

  predicate Wanted(m: Msg, mailbox: int, sinceUid: nat) {
    m.mailbox == mailbox && (sinceUid > 0 ==> m.uid > sinceUid)
  }

  /** SELECT ... WHERE mailbox_id = mailbox AND uid > sinceUid, the latter unless sinceUid is zero. */
  function BoxSince(rows: seq<Msg>, mailbox: int, sinceUid: nat): seq<Msg> {
    if rows == [] then []
    else
      var last := rows[|rows| - 1];
      BoxSince(rows[..|rows| - 1], mailbox, sinceUid) +
      if Wanted(last, mailbox, sinceUid) then [last] else []
  }

  lemma {:induction false} BoxSinceZero(rows: seq<Msg>, mailbox: int)
    ensures BoxSince(rows, mailbox, 0) == Box(rows, mailbox)
  {
    if rows != [] {
      BoxSinceZero(rows[..|rows| - 1], mailbox);
    }
  }

  lemma {:induction false} BoxSinceSorted(rows: seq<Msg>, mailbox: int, sinceUid: nat)
    requires Valid(rows)
    ensures var box := BoxSince(rows, mailbox, sinceUid);
      && (forall m :: m in box <==> m in rows && Wanted(m, mailbox, sinceUid))
      && (forall i, j :: 0 <= i < j < |box| ==> box[i].uid < box[j].uid)
  {
    if rows != [] {
      var init, last := rows[..|rows| - 1], rows[|rows| - 1];
      BoxSinceSorted(init, mailbox, sinceUid);
      assert rows == init + [last];
      assert forall i :: 0 <= i < |BoxSince(init, mailbox, sinceUid)| ==>
        BoxSince(init, mailbox, sinceUid)[i] in BoxSince(init, mailbox, sinceUid);
    }
  }

  /** Of the mailbox's rows beyond sinceUid those with the largest UIDs, as many as the limit allows, by descending UID. */
  ghost predicate NewestFirst(rows: seq<Msg>, mailbox: int, limit: nat, sinceUid: nat, msgs: seq<Msg>) {
    && (forall i, j :: 0 <= i < j < |msgs| ==> msgs[j].uid < msgs[i].uid)
    && (forall m <- msgs :: m in rows && m.mailbox == mailbox && (sinceUid == 0 || m.uid > sinceUid))
    && (limit > 0 ==> |msgs| <= limit)
    && (forall m <- rows :: m.mailbox == mailbox && (sinceUid == 0 || m.uid > sinceUid) && m !in msgs ==>
          limit > 0 && |msgs| == limit && forall n <- msgs :: m.uid < n.uid)
  }

  /** What a scan from the end has still to see. */
  lemma BoxUpTo(rows: seq<Msg>, mailbox: int, sinceUid: nat, i: nat)
    requires i <= |rows|
    ensures i == |rows| ==> BoxSince(rows[..i], mailbox, sinceUid) == BoxSince(rows, mailbox, sinceUid)
    ensures i < |rows| ==>
      Reversed(BoxSince(rows[..i + 1], mailbox, sinceUid))
        == (if Wanted(rows[i], mailbox, sinceUid) then [rows[i]] else []) + Reversed(BoxSince(rows[..i], mailbox, sinceUid))
    ensures Reversed(BoxSince([], mailbox, sinceUid)) == []
  {
    if i == |rows| {
      assert rows[..i] == rows;
    } else {
      assert rows[..i + 1][..i] == rows[..i];
    }
  }

  lemma ListedNewestFirst(rows: seq<Msg>, mailbox: int, limit: nat, sinceUid: nat, msgs: seq<Msg>)
    requires Valid(rows)
    requires var all := Reversed(BoxSince(rows, mailbox, sinceUid)); msgs == if 0 < limit < |all| then all[..limit] else all
    ensures NewestFirst(rows, mailbox, limit, sinceUid, msgs)
  {
    hide Valid, BoxSince, NewestFirst;
    BoxSinceSorted(rows, mailbox, sinceUid);
    ListedTop(rows, mailbox, BoxSince(rows, mailbox, sinceUid), limit, sinceUid, msgs);
  }

  lemma ListedTop(rows: seq<Msg>, mailbox: int, box: seq<Msg>, limit: nat, sinceUid: nat, msgs: seq<Msg>)
    requires forall m :: m in box <==> m in rows && Wanted(m, mailbox, sinceUid)
    requires forall i, j :: 0 <= i < j < |box| ==> box[i].uid < box[j].uid
    requires |msgs| <= |box| && forall i :: 0 <= i < |msgs| ==> msgs[i] == box[|box| - 1 - i]
    requires |msgs| == |box| || (limit > 0 && |msgs| == limit)
    requires limit > 0 ==> |msgs| <= limit
    ensures NewestFirst(rows, mailbox, limit, sinceUid, msgs)
  {
    var n := |box|;
    forall i | 0 <= i < |msgs| ensures msgs[i] in rows && Wanted(msgs[i], mailbox, sinceUid) {
      assert box[n - 1 - i] in box;
    }
    forall m <- rows | Wanted(m, mailbox, sinceUid) && m !in msgs
      ensures limit > 0 && |msgs| == limit && forall i :: 0 <= i < |msgs| ==> m.uid < msgs[i].uid
    {
      assert m in box;
      var k :| 0 <= k < n && box[k] == m;
      assert n - 1 - k < |msgs| ==> msgs[n - 1 - k] == m;
    }
  }

  lemma ListedUIDs(rows: seq<Msg>, mailbox: int, uids: seq<nat>)
    requires Valid(rows)
    requires |uids| == |Box(rows, mailbox)| && forall i :: 0 <= i < |uids| ==> uids[i] == Box(rows, mailbox)[i].uid
    ensures forall i, j :: 0 <= i < j < |uids| ==> uids[i] < uids[j]
    ensures forall u :: u in uids <==> Conflicts(rows, mailbox, u)
  {
    BoxSorted(rows, mailbox);
    var box := Box(rows, mailbox);
    forall u: nat ensures u in uids <==> Conflicts(rows, mailbox, u) {
      if u in uids {
        var i :| 0 <= i < |uids| && uids[i] == u;
        assert box[i] in box;
      }
      if Conflicts(rows, mailbox, u) {
        var m :| m in rows && m.mailbox == mailbox && m.uid == u;
        assert m in box;
        var i :| 0 <= i < |box| && box[i] == m;
        assert uids[i] == u;
      }
    }
  }

  /** Until its UIDs run out, a mailbox's next UID is larger than all it has. */
  lemma NextFollows(rows: seq<Msg>, lastId: nat, m: Msg)
    requires Valid(rows) && (forall r <- rows :: r.id <= lastId) && MaxUid(rows, m.mailbox) < UINT32 - 1
    requires m.id == lastId + 1 && m.uid == NextUid(rows, m.mailbox)
    ensures Follows(rows, m) && !Conflicts(rows, m.mailbox, m.uid)
  {
  }

  lemma {:induction false} WithFlagsValid(rows: seq<Msg>, id: nat, flags: Bits, mask: Bits)
    requires Valid(rows)
    ensures Valid(WithFlags(rows, id, flags, mask))
  {
    hide Flagged;
    if rows != [] {
      var init, last := rows[..|rows| - 1], rows[|rows| - 1];
      WithFlagsValid(init, id, flags, mask);
      WithFlagsMembers(init, id, flags, mask);
      var init', last' := WithFlags(init, id, flags, mask), Flagged(last, id, flags, mask);
      assert Follows(init', last');
      ValidSnoc(init', last');
      assert WithFlags(rows, id, flags, mask) == init' + [last'];
    }
  }

  /** Setting flags changes nothing but flags. */
  lemma WithFlagsMembers(rows: seq<Msg>, id: nat, flags: Bits, mask: Bits)
    ensures forall m <- WithFlags(rows, id, flags, mask) ::
      exists r <- rows :: r.(flags := m.flags) == m
  {
  }
}
