/** Sequence numbers and selections over a mailbox, by counting rather than listing. */
module ImapViews {
  import opened MessageTable

  /** The numbers an imap.SeqSet contains. */
  type SeqSet = set<nat>

  /** The sequence number of a UID: how many messages of the mailbox have a UID up to it. */
  function Rank(rows: seq<Msg>, mailbox: int, uid: nat): nat {
    if rows == [] then 0
    else
      var last := rows[|rows| - 1];
      Rank(rows[..|rows| - 1], mailbox, uid) + if last.mailbox == mailbox && last.uid <= uid then 1 else 0
  }

  predicate Chosen(rows: seq<Msg>, mailbox: int, byUid: bool, set_: SeqSet, m: Msg) {
    m.mailbox == mailbox && (if byUid then m.uid else Rank(rows, mailbox, m.uid)) in set_
  }

  /** The messages a command with this set applies to, by ascending UID. */
  function Selected(rows: seq<Msg>, mailbox: int, byUid: bool, set_: SeqSet): seq<Msg> {
    Keeping(rows, (m: Msg) => Chosen(rows, mailbox, byUid, set_, m))
  }

  lemma {:induction false} RankAll(rows: seq<Msg>, mailbox: int, uid: nat)
    requires forall m <- rows :: m.mailbox == mailbox ==> m.uid <= uid
    ensures Rank(rows, mailbox, uid) == |Box(rows, mailbox)|
  {
    if rows != [] {
      var init := rows[..|rows| - 1];
      assert forall m <- init :: m in rows;
      RankAll(init, mailbox, uid);
      assert rows[|rows| - 1] in rows;
    }
  }

  /** The k-th smallest UID has sequence number k. */
  lemma {:induction false} RankIsPosition(rows: seq<Msg>, mailbox: int, k: nat)
    requires Valid(rows) && k < |Box(rows, mailbox)|
    ensures Rank(rows, mailbox, Box(rows, mailbox)[k].uid) == k + 1
  {
    var init, last := rows[..|rows| - 1], rows[|rows| - 1];
    var inner := Box(init, mailbox);
    if k < |inner| {
      RankIsPosition(init, mailbox, k);
      BoxSorted(init, mailbox);
      assert inner[k] in init;
      assert Box(rows, mailbox)[k] == inner[k];
    } else {
      RankAll(init, mailbox, last.uid);
    }
  }

  // ----- Keeping -----

  lemma {:induction false} KeepingSame(rows: seq<Msg>, p: Msg -> bool, q: Msg -> bool)
    requires forall m <- rows :: p(m) <==> q(m)
    ensures Keeping(rows, p) == Keeping(rows, q)
  {
    if rows != [] {
      var init := rows[..|rows| - 1];
      assert forall m <- init :: m in rows;
      KeepingSame(init, p, q);
      assert rows[|rows| - 1] in rows;
    }
  }

  lemma KeepingSnoc(rows: seq<Msg>, m: Msg, p: Msg -> bool)
    ensures Keeping(rows + [m], p) == Keeping(rows, p) + if p(m) then [m] else []
  {
  }

  lemma {:induction false} KeepingTwice(rows: seq<Msg>, p: Msg -> bool, q: Msg -> bool)
    ensures Keeping(Keeping(rows, p), q) == Keeping(rows, (m: Msg) => p(m) && q(m))
  {
    if rows != [] {
      var init, last := rows[..|rows| - 1], rows[|rows| - 1];
      KeepingTwice(init, p, q);
      if p(last) {
        KeepingSnoc(Keeping(init, p), last, q);
      } else {
        assert Keeping(rows, p) == Keeping(init, p);
      }
    }
  }

  /** Picking from the mailbox listing is picking from the table. */
  lemma SelectedFromBox(rows: seq<Msg>, mailbox: int, byUid: bool, set_: SeqSet)
    ensures Keeping(Box(rows, mailbox), (m: Msg) => Chosen(rows, mailbox, byUid, set_, m))
         == Selected(rows, mailbox, byUid, set_)
  {
    var inBox, chosen := (m: Msg) => m.mailbox == mailbox, (m: Msg) => Chosen(rows, mailbox, byUid, set_, m);
    assert Box(rows, mailbox) == Keeping(rows, inBox);
    KeepingTwice(rows, inBox, chosen);
    KeepingSame(rows, (m: Msg) => inBox(m) && chosen(m), chosen);
  }

  /** A selection holds exactly the chosen messages, by ascending UID. */
  lemma SelectedSorted(rows: seq<Msg>, mailbox: int, byUid: bool, set_: SeqSet)
    requires Valid(rows)
    ensures var sel := Selected(rows, mailbox, byUid, set_);
      && (forall m :: m in sel <==> m in rows && Chosen(rows, mailbox, byUid, set_, m))
      && (forall i, j :: 0 <= i < j < |sel| ==> sel[i].uid < sel[j].uid)
  {
    var chosen := (m: Msg) => Chosen(rows, mailbox, byUid, set_, m);
    var sel := Keeping(rows, chosen);
    KeepingMembers(rows, chosen);
    KeepingValid(rows, chosen);
    ValidPairs(sel);
    assert forall i :: 0 <= i < |sel| ==> sel[i] in sel;
  }

  /**
    By UID the set picks the messages whose UID it contains, by sequence number those at the positions it contains,
    counted from 1 in the mailbox by ascending UID.
   */
  lemma SelectionIs(rows: seq<Msg>, mailbox: int, set_: SeqSet, k: nat)
    requires Valid(rows) && k < |Box(rows, mailbox)|
    ensures var m := Box(rows, mailbox)[k];
      && (m in Selected(rows, mailbox, true, set_) <==> m.uid in set_)
      && (m in Selected(rows, mailbox, false, set_) <==> k + 1 in set_)
    ensures forall byUid, m <- Selected(rows, mailbox, byUid, set_) :: m in Box(rows, mailbox)
  {
    hide Box, Rank, Selected;
    BoxSorted(rows, mailbox);
    RankIsPosition(rows, mailbox, k);
    SelectedSorted(rows, mailbox, true, set_);
    SelectedSorted(rows, mailbox, false, set_);
    assert Box(rows, mailbox)[k] in Box(rows, mailbox);
  }
}
