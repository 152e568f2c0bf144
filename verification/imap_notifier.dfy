/** The IDLE notifier (pkg/imap/notifier.go): subscriptions as slices over backing arrays. */
module ImapNotifier {
  import opened Wrappers

  /** A channel that is only ever closed; closing it again would panic. */
  class Channel {
    var open: bool

    constructor ()
      ensures open
    {
      open := true;
    }

    method Close()
      requires open
      modifies this
      ensures !open
    {
      open := false;
    }
  }

  /** Who is registered, mailbox by mailbox and in order of subscription. */
  type Subscribers = map<int, seq<Channel>>

  ghost function Of(s: Subscribers, mailbox: int): seq<Channel> {
    if mailbox in s then s[mailbox] else []
  }

  ghost function Members(q: seq<Channel>): set<Channel> {
    set c | c in q
  }

  /** No channel is registered twice, be it for one mailbox or for two. */
  ghost predicate RegisteredOnce(s: Subscribers) {
    && (forall m <- s :: NoRepeats(s[m]))
    && (forall m <- s, n <- s :: m != n ==> Members(s[m]) !! Members(s[n]))
  }

  ghost function Channels(s: Subscribers): set<Channel> {
    set m, c | m in s && c in Members(s[m]) :: c
  }

  ghost predicate AllOpen(channels: set<Channel>)
    reads channels
  {
    forall c <- channels :: c.open
  }

  /** `q` without `ch`. */
  ghost function Dropping(q: seq<Channel>, ch: Channel): seq<Channel> {
    if q == [] then []
    else Dropping(q[..|q| - 1], ch) + (if q[|q| - 1] == ch then [] else [q[|q| - 1]])
  }

  ghost function Without(s: Subscribers, mailbox: int, ch: Channel): Subscribers {
    if mailbox in s then s[mailbox := Dropping(s[mailbox], ch)] else s
  }

  lemma {:induction false} DroppingNothing(q: seq<Channel>, ch: Channel)
    requires ch !in q
    ensures Dropping(q, ch) == q
  {
    if q != [] {
      DroppingNothing(q[..|q| - 1], ch);
    }
  }

  /** Cutting out the one position that holds `ch` leaves exactly the other channels, in order. */
  lemma {:induction false} DroppingIsCut(q: seq<Channel>, i: nat)
    requires NoRepeats(q) && i < |q|
    ensures Dropping(q, q[i]) == q[..i] + q[i + 1..]
  {
    var front := q[..|q| - 1];
    if i == |q| - 1 {
      DroppingNothing(front, q[i]);
    } else {
      DroppingIsCut(front, i);
      assert q[..i] + q[i + 1..] == front[..i] + front[i + 1..] + [q[|q| - 1]];
    }
  }

  lemma {:induction false} DroppingMembers(q: seq<Channel>, ch: Channel)
    requires NoRepeats(q)
    ensures NoRepeats(Dropping(q, ch))
    ensures Members(Dropping(q, ch)) == Members(q) - {ch}
  {
    if ch in q {
      var i :| 0 <= i < |q| && q[i] == ch;
      DroppingIsCut(q, i);
      assert q == q[..i] + [ch] + q[i + 1..];
    } else {
      DroppingNothing(q, ch);
    }
  }

  lemma SubscribedOnce(s: Subscribers, mailbox: int, ch: Channel)
    requires RegisteredOnce(s) && ch !in Channels(s)
    ensures RegisteredOnce(s[mailbox := Of(s, mailbox) + [ch]])
    ensures Channels(s[mailbox := Of(s, mailbox) + [ch]]) == Channels(s) + {ch}
  {
    var q := Of(s, mailbox);
    assert Members(q + [ch]) == Members(q) + {ch};
    assert Members(q) <= Channels(s);
    assert NoRepeats(q + [ch]);
    assert forall m <- s :: Members(s[m]) <= Channels(s);
    var t := s[mailbox := q + [ch]];
    assert forall m <- s | m != mailbox :: t[m] == s[m];
    assert ch in Members(t[mailbox]);
    forall c | c in Channels(s) ensures c in Channels(t) {
      var m :| m in s && c in Members(s[m]);
      assert c in Members(t[m]);
    }
  }

  lemma WithoutRegistered(s: Subscribers, mailbox: int, ch: Channel)
    requires RegisteredOnce(s)
    ensures RegisteredOnce(Without(s, mailbox, ch))
    ensures mailbox in s ==> NoRepeats(s[mailbox])
    ensures Channels(Without(s, mailbox, ch)) == Channels(s) - (if ch in Of(s, mailbox) then {ch} else {})
  {
    if mailbox in s {
      DroppingMembers(s[mailbox], ch);
      forall c | c in Channels(s) && !(c == ch && ch in s[mailbox]) ensures c in Channels(Without(s, mailbox, ch)) {
        var m :| m in s && c in Members(s[m]);
        assert c in Members(Without(s, mailbox, ch)[m]);
      }
    }
  }

  lemma NotifiedOnce(s: Subscribers, mailbox: int)
    requires RegisteredOnce(s)
    ensures RegisteredOnce(s - {mailbox})
    ensures NoRepeats(Of(s, mailbox))
    ensures forall c <- Of(s, mailbox) :: c in Channels(s)
    ensures Channels(s - {mailbox}) == Channels(s) - Members(Of(s, mailbox))
    ensures forall c <- Channels(s - {mailbox}) :: c in Channels(s) && c !in Of(s, mailbox)
  {
    forall c <- Of(s, mailbox) ensures c in Channels(s) {
      assert c in Members(s[mailbox]);
    }
    forall c | c in Channels(s) && c !in Members(Of(s, mailbox)) ensures c in Channels(s - {mailbox}) {
      var m :| m in s && c in Members(s[m]);
      assert c in Members((s - {mailbox})[m]);
    }
  }

  /** A Go slice: the first `len` elements of its backing array. */
  datatype Slice = Slice(backing: array<Channel?>, len: nat)

  ghost predicate Holds(t: Slice, q: seq<Channel>)
    reads t.backing
  {
    t.len <= t.backing.Length && t.backing[..t.len] == q
  }

  /** append(t, ch): in place while the backing array has room, else on a larger copy. */
  method Append(t: Slice, ch: Channel, ghost q: seq<Channel>) returns (r: Slice)
    requires Holds(t, q)
    modifies t.backing
    ensures Holds(r, q + [ch])
    ensures r.backing == t.backing || fresh(r.backing)
  {
    if t.len < t.backing.Length {
      t.backing[t.len] := ch;
      return Slice(t.backing, t.len + 1);
    }
    var grown := new Channel?[2 * t.len + 1];
    for k := 0 to t.len
      invariant grown[..k] == t.backing[..k]
      invariant t.backing[..t.len] == q
    {
      grown[k] := t.backing[k];
    }
    grown[t.len] := ch;
    assert grown[..t.len + 1] == grown[..t.len] + [ch];
    r := Slice(grown, t.len + 1);
  }

  /** append(t[:i], t[i+1:]...): shifts the tail down within the slice's own array. */
  method RemoveInPlace(t: Slice, i: nat, ghost q: seq<Channel>) returns (r: Slice)
    requires Holds(t, q) && i < t.len
    modifies t.backing
    ensures Holds(r, q[..i] + q[i + 1..])
    ensures r.backing == t.backing
  {
    var a, n := t.backing, t.len;
    var k := i;
    while k < n - 1
      invariant i <= k <= n - 1
      invariant a[..k] == q[..i] + q[i + 1..k + 1]
      invariant a[k + 1..n] == q[k + 1..]
    {
      assert a[k + 1] == a[k + 1..n][0];
      a[k] := a[k + 1];
      k := k + 1;
    }
    r := Slice(a, n - 1);
  }

  class MailboxNotifier {
    var subs: map<int, Slice>
    ghost var registered: Subscribers

    ghost var arrays: set<array<Channel?>>
    ghost var channels: set<Channel>

    /** Every slice but the stale ones holds its mailbox's subscribers, and no two slices share a backing array. */
    ghost predicate Represents(stale: set<int>)
      reads `subs, `registered, `arrays, arrays
    {
      && subs.Keys == registered.Keys
      && (forall m <- subs :: subs[m].backing in arrays)
      && (forall m <- subs, n <- subs :: subs[m].backing == subs[n].backing ==> m == n)
      && (forall m <- subs :: m !in stale ==> Holds(subs[m], registered[m]))
    }

    ghost predicate Valid()
      reads this, arrays, channels
    {
      && Represents({})
      && RegisteredOnce(registered)
      && channels == Channels(registered)
      && AllOpen(channels)
    }

    constructor ()
      ensures Valid() && registered == map[]
    {
      subs, registered, arrays, channels := map[], map[], {}, {};
    }

    /** subs[mailbox] = t, where `t` shares no array with another mailbox's slice. */
    method Store(mailbox: int, t: Slice, ghost q: seq<Channel>)
      requires Represents({mailbox}) && Holds(t, q)
      requires forall m <- subs :: subs[m].backing == t.backing ==> m == mailbox
      modifies `subs, `registered, `arrays
      ensures Represents({}) && arrays == old(arrays) + {t.backing}
      ensures registered == old(registered)[mailbox := q]
    {
      subs, registered, arrays := subs[mailbox := t], registered[mailbox := q], arrays + {t.backing};
    }

    /** subs[mailbox] = append(subs[mailbox], ch), a missing entry being the nil slice. */
    method AppendTo(mailbox: int, ch: Channel)
      requires Represents({})
      modifies `subs, `registered, `arrays, arrays
      ensures Represents({}) && fresh(arrays - old(arrays))
      ensures registered == old(registered)[mailbox := Of(old(registered), mailbox) + [ch]]
    {
      var t: Slice;
      if mailbox in subs {
        t := subs[mailbox];
      } else {
        var empty := new Channel?[1];
        t := Slice(empty, 0);
      }
      t := Append(t, ch, Of(registered, mailbox));
      Store(mailbox, t, Of(registered, mailbox) + [ch]);
    }

    /** subs[mailbox] = append(subs[:i], subs[i+1:]...). */
    method RemoveAt(mailbox: int, i: nat)
      requires Represents({}) && mailbox in subs && i < |registered[mailbox]| && NoRepeats(registered[mailbox])
      modifies `subs, `registered, `arrays, arrays
      ensures Represents({}) && arrays == old(arrays)
      ensures registered == Without(old(registered), mailbox, old(registered)[mailbox][i])
    {
      hide Dropping;
      ghost var q := registered[mailbox];
      DroppingIsCut(q, i);
      var t := RemoveInPlace(subs[mailbox], i, q);
      Store(mailbox, t, Dropping(q, q[i]));
    }

    method Subscribe(mailbox: int) returns (ch: Channel)
      requires Valid()
      modifies this, arrays
      ensures Valid() && fresh(ch) && fresh(arrays - old(arrays)) && fresh(channels - old(channels))
      ensures registered == old(registered)[mailbox := Of(old(registered), mailbox) + [ch]]
    {
      hide Represents, RegisteredOnce, Channels, Members;
      ch := new Channel();
      SubscribedOnce(registered, mailbox, ch);
      AppendTo(mailbox, ch);
      channels := channels + {ch};
    }

    /** Removes `ch` from the mailbox's subscribers if it is among them, and nothing else. */
    method Unsubscribe(mailbox: int, ch: Channel)
      requires Valid()
      modifies this, arrays
      ensures Valid() && arrays == old(arrays) && channels <= old(channels)
      ensures registered == Without(old(registered), mailbox, ch)
    {
      hide RegisteredOnce, Channels, Members, Dropping;
      if mailbox !in subs {
        return;
      }
      WithoutRegistered(registered, mailbox, ch);
      var t := subs[mailbox];
      ghost var q := registered[mailbox];
      for i := 0 to t.len
        invariant ch !in q[..i]
      {
        if t.backing[i] == ch {
          assert t.backing[i] == t.backing[..t.len][i] == q[i];
          RemoveAt(mailbox, i);
          channels := channels - {ch};
          return;
        }
      }
      DroppingNothing(q, ch);
    }

    /** Wakes exactly the channels registered for the mailbox at this moment. */
    method Notify(mailbox: int)
      requires Valid()
      modifies this, channels
      ensures Valid() && arrays == old(arrays) && channels == Channels(registered)
      ensures registered == old(registered) - {mailbox}
      ensures forall c <- old(channels) :: c.open <==> c !in Of(old(registered), mailbox)
    {
      hide RegisteredOnce, Channels, Members;
      NotifiedOnce(registered, mailbox);
      if mailbox in subs {
        var t := subs[mailbox];
        ghost var q := registered[mailbox];
        for i := 0 to t.len
          invariant unchanged(this) && Represents({})
          invariant forall c <- channels :: c.open <==> c !in q[..i]
        {
          assert t.backing[i] == t.backing[..t.len][i] == q[i];
          t.backing[i].Close();
        }
      }
      subs, registered := subs - {mailbox}, registered - {mailbox};
      channels := Channels(registered);
    }
  }
}
