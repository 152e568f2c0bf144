/** The SMTP session (pkg/smtp/session.go): commands, and what DATA does with the message for each recipient. */
module SmtpSession {
  import opened Wrappers
  import opened BlobStore
  import opened SmtpHeaders

  const OK := 250
  const GREYLISTED := 451
  const RELAY_DENIED := 550
  const TOO_MANY := 552
  const TOO_LARGE := 552
  const BAD_ADDRESS := 553
  const FAILED := 554

  /** A row inserted into `messages`; its id is its place in the order of insertion, counted from 1. */
  datatype Message = Message(mailbox: int, key: Key, size: nat, fromAddr: string, toAddr: string, subject: string)

  /** A row inserted into `queue`. */
  datatype Entry = Entry(message: nat, recipient: string)

  /** What the routing of a recipient depends on. */
  datatype Directory = Directory(
    users: map<string, int>, inboxes: map<int, int>, outbound: int, localDomains: set<string>, hostname: string)

  /** The message as stored, and the texts of the bounces it may cause. */
  datatype Letter = Letter(
    content: Content, sender: string, fromAddr: string, subject: string, notices: map<string, Content>)

  function AtSigns(s: string): nat {
    if s == [] then 0 else (if s[0] == '@' then 1 else 0) + AtSigns(s[1..])
  }

  /** strings.SplitN(s, "@", 2)[1]: what follows the first '@'. */
  function AfterAt(s: string): Option<string> {
    if s == [] then None else if s[0] == '@' then Some(s[1..]) else AfterAt(s[1..])
  }

  /** With exactly one '@', Split and SplitN agree on the domain. */
  lemma {:induction false} SplitsAgree(s: string)
    ensures |Split(s, '@')| == AtSigns(s) + 1
    ensures AfterAt(s).Some? <==> AtSigns(s) >= 1
    ensures |Split(s, '@')| == 2 ==> AfterAt(s) == Some(Split(s, '@')[1])
    ensures |Split(s, '@')| == 1 ==> Split(s, '@')[0] == s
  {
    if s != [] {
      SplitsAgree(s[1..]);
    }
  }

  predicate IsLocal(d: Directory, domain: string) {
    domain in d.localDomains || d.hostname == domain
  }

  datatype Route = ToInbox | ToBounce | ToQueue | Nowhere

  function RouteOf(d: Directory, rcpt: string): Route {
    if rcpt in d.users then (if d.users[rcpt] in d.inboxes then ToInbox else Nowhere)
    else if AfterAt(rcpt).None? then Nowhere
    else if IsLocal(d, AfterAt(rcpt).value) then ToBounce
    else ToQueue
  }

  /** The recipients taking one of the routes, in order and with repetitions. */
  function Taking(d: Directory, rcpts: seq<string>, routes: set<Route>): (taking: seq<string>)
    ensures forall r <- taking :: RouteOf(d, r) in routes
  {
    if rcpts == [] then []
    else
      var last := rcpts[|rcpts| - 1];
      Taking(d, rcpts[..|rcpts| - 1], routes) + if RouteOf(d, last) in routes then [last] else []
  }

  lemma NoneTaking(d: Directory)
    ensures forall routes :: Taking(d, [], routes) == []
  {
  }

  lemma {:induction false} AfterAtNeedsAt(s: string)
    ensures AfterAt(s).Some? <==> '@' in s
  {
    if s != [] {
      AfterAtNeedsAt(s[1..]);
      assert s == [s[0]] + s[1..];
    }
  }

  /** Mail is dropped for those alone who have no INBOX, or neither an account nor an '@'. */
  lemma DroppedExactly(d: Directory, rcpt: string)
    ensures RouteOf(d, rcpt) == Nowhere <==>
            if rcpt in d.users then d.users[rcpt] !in d.inboxes else '@' !in rcpt
  {
    AfterAtNeedsAt(rcpt);
  }

  function Notice(m: Letter, rcpt: string): Content {
    if rcpt in m.notices then m.notices[rcpt] else []
  }

  function RowFor(d: Directory, m: Letter, rcpt: string): Message
    requires RouteOf(d, rcpt) != Nowhere
  {
    var key, size := Digest(m.content), |m.content|;
    match RouteOf(d, rcpt)
    case ToInbox => Message(d.inboxes[d.users[rcpt]], key, size, m.fromAddr, rcpt, m.subject)
    case ToQueue => Message(d.outbound, key, size, m.fromAddr, rcpt, m.subject)
    case ToBounce =>
      Message(d.outbound, Digest(Notice(m, rcpt)), |Notice(m, rcpt)|, "", m.sender, "Undelivered Mail Returned to Sender")
  }

  function Addressee(d: Directory, m: Letter, rcpt: string): string {
    if RouteOf(d, rcpt).ToBounce? then m.sender else rcpt
  }

  /** The rows for recipients none of whom goes nowhere. */
  function Rows(d: Directory, m: Letter, rcpts: seq<string>): (rows: seq<Message>)
    requires forall r <- rcpts :: RouteOf(d, r) != Nowhere
    ensures |rows| == |rcpts| && forall i :: 0 <= i < |rcpts| ==> rows[i] == RowFor(d, m, rcpts[i])
  {
    seq(|rcpts|, i requires 0 <= i < |rcpts| => RowFor(d, m, rcpts[i]))
  }

  /** One entry for each recipient, for the rows that come after the first `before`. */
  function Entries(d: Directory, m: Letter, rcpts: seq<string>, before: nat): (entries: seq<Entry>)
    ensures |entries| == |rcpts|
    ensures forall i :: 0 <= i < |rcpts| ==> entries[i] == Entry(before + i + 1, Addressee(d, m, rcpts[i]))
  {
    seq(|rcpts|, i requires 0 <= i < |rcpts| => Entry(before + i + 1, Addressee(d, m, rcpts[i])))
  }

  function WithNotices(blobs: Blobs, m: Letter, rcpts: seq<string>): Blobs {
    if rcpts == [] then blobs
    else Upserted(WithNotices(blobs, m, rcpts[..|rcpts| - 1]), Notice(m, rcpts[|rcpts| - 1]))
  }

  // ----- What each address gets, by counting -----

  function RowsTo(rows: seq<Message>, address: string): nat {
    multiset(seq(|rows|, i requires 0 <= i < |rows| => rows[i].toAddr))[address]
  }

  function EntriesTo(entries: seq<Entry>, address: string): nat {
    multiset(seq(|entries|, i requires 0 <= i < |entries| => entries[i].recipient))[address]
  }

  /** How often a recipient was named. */
  function Named(rcpts: seq<string>, address: string): nat {
    multiset(rcpts)[address]
  }

  lemma RouteIs(d: Directory, rcpt: string)
    ensures RouteOf(d, rcpt) == ToInbox <==> rcpt in d.users && d.users[rcpt] in d.inboxes
    ensures RouteOf(d, rcpt) == ToQueue <==>
      rcpt !in d.users && '@' in rcpt && AfterAtSign(rcpt) !in d.localDomains && d.hostname != AfterAtSign(rcpt)
    ensures RouteOf(d, rcpt) == ToBounce <==>
      rcpt !in d.users && '@' in rcpt && (AfterAtSign(rcpt) in d.localDomains || d.hostname == AfterAtSign(rcpt))
  {
    AfterAtNeedsAt(rcpt);
  }

  /** The domain begins after the first '@'. */
  lemma {:induction false} AfterAtExactly(local: string, domain: string)
    requires '@' !in local
    ensures AfterAt(local + "@" + domain) == Some(domain)
  {
    var s := local + "@" + domain;
    if local == "" {
      assert s[1..] == domain;
    } else {
      assert local[0] in local && s[1..] == local[1..] + "@" + domain;
      AfterAtExactly(local[1..], domain);
    }
  }

  lemma NothingForNobody(d: Directory, m: Letter, before: nat, address: string)
    ensures RowsTo(Rows(d, m, []), address) == 0 && EntriesTo(Entries(d, m, [], before), address) == 0
  {
  }

  /** A user with an INBOX gets one row there for each time it was named; nobody else gets one. */
  lemma {:induction false} InboxedOnceEach(d: Directory, m: Letter, rcpts: seq<string>, address: string)
    ensures RowsTo(Rows(d, m, Taking(d, rcpts, {ToInbox})), address) ==
      if address in d.users && d.users[address] in d.inboxes then Named(rcpts, address) else 0
  {
    hide Taking, Rows, RouteOf, RowFor, RowsTo;
    if rcpts == [] {
      NoneTaking(d);
      NothingForNobody(d, m, 0, address);
    } else {
      var front, last := rcpts[..|rcpts| - 1], rcpts[|rcpts| - 1];
      assert rcpts == front + [last];
      InboxedOnceEach(d, m, front, address);
      TakingSnoc(d, front, last, {ToInbox});
      RouteIs(d, last);
      if RouteOf(d, last) == ToInbox {
        RowsSnoc(d, m, Taking(d, front, {ToInbox}), last, address);
      }
    }
  }

  /** Those rows are in the INBOX of their addressee and share the message's blob. */
  lemma InboxRowsAre(d: Directory, m: Letter, rcpts: seq<string>, row: Message)
    requires row in Rows(d, m, Taking(d, rcpts, {ToInbox}))
    ensures row.toAddr in d.users && d.users[row.toAddr] in d.inboxes
    ensures row.mailbox == d.inboxes[d.users[row.toAddr]] && row.key == Digest(m.content) && row.size == |m.content|
    ensures row.fromAddr == m.fromAddr && row.subject == m.subject
  {
    hide Taking;
    var locals := Taking(d, rcpts, {ToInbox});
    var i :| 0 <= i < |locals| && Rows(d, m, locals)[i] == row;
    assert locals[i] in locals;
    RouteIs(d, locals[i]);
  }

  lemma RowsToSnoc(rows: seq<Message>, row: Message, address: string)
    ensures RowsTo(rows + [row], address) == RowsTo(rows, address) + if row.toAddr == address then 1 else 0
  {
    var all := rows + [row];
    assert seq(|all|, i requires 0 <= i < |all| => all[i].toAddr)
        == seq(|rows|, i requires 0 <= i < |rows| => rows[i].toAddr) + [row.toAddr];
  }

  lemma EntriesToSnoc(entries: seq<Entry>, entry: Entry, address: string)
    ensures EntriesTo(entries + [entry], address)
         == EntriesTo(entries, address) + if entry.recipient == address then 1 else 0
  {
    var all := entries + [entry];
    assert seq(|all|, i requires 0 <= i < |all| => all[i].recipient)
        == seq(|entries|, i requires 0 <= i < |entries| => entries[i].recipient) + [entry.recipient];
  }

  lemma RowsSnoc(d: Directory, m: Letter, rcpts: seq<string>, rcpt: string, address: string)
    requires (forall r <- rcpts :: RouteOf(d, r) != Nowhere) && RouteOf(d, rcpt) == ToInbox
    ensures forall r <- rcpts + [rcpt] :: RouteOf(d, r) != Nowhere
    ensures RowsTo(Rows(d, m, rcpts + [rcpt]), address) ==
      RowsTo(Rows(d, m, rcpts), address) + if rcpt == address then 1 else 0
  {
    var rows := Rows(d, m, rcpts);
    assert Rows(d, m, rcpts + [rcpt]) == rows + [RowFor(d, m, rcpt)];
    RowsToSnoc(rows, RowFor(d, m, rcpt), address);
  }

  /**
    An address without account, with an '@' and a remote domain, gets one queue entry for each time it was named; and
    the sender gets one for each recipient at a local domain that has no account.
   */
  lemma {:induction false} QueuedOnceEach(d: Directory, m: Letter, rcpts: seq<string>, before: nat, address: string)
    ensures EntriesTo(Entries(d, m, Taking(d, rcpts, {ToBounce, ToQueue}), before), address) ==
      (if && address !in d.users && '@' in address
          && AfterAtSign(address) !in d.localDomains && d.hostname != AfterAtSign(address)
       then Named(rcpts, address) else 0)
      + (if address == m.sender then |Taking(d, rcpts, {ToBounce})| else 0)
  {
    hide Taking, Entries, RouteOf, EntriesTo;
    RouteIs(d, address);
    if rcpts == [] {
      NoneTaking(d);
      NothingForNobody(d, m, before, address);
    } else {
      var front, last := rcpts[..|rcpts| - 1], rcpts[|rcpts| - 1];
      assert rcpts == front + [last];
      QueuedOnceEach(d, m, front, before, address);
      TakingSnoc(d, front, last, {ToBounce, ToQueue});
      TakingSnoc(d, front, last, {ToBounce});
      EntriesSnoc(d, m, Taking(d, front, {ToBounce, ToQueue}), last, before, address);
    }
  }

  lemma EntriesSnoc(d: Directory, m: Letter, rcpts: seq<string>, rcpt: string, before: nat, address: string)
    ensures EntriesTo(Entries(d, m, rcpts + [rcpt], before), address) ==
      EntriesTo(Entries(d, m, rcpts, before), address) + if Addressee(d, m, rcpt) == address then 1 else 0
  {
    var entries := Entries(d, m, rcpts, before);
    var entry := Entry(before + |rcpts| + 1, Addressee(d, m, rcpt));
    assert Entries(d, m, rcpts + [rcpt], before) == entries + [entry];
    EntriesToSnoc(entries, entry, address);
  }

  function AfterAtSign(s: string): string {
    if AfterAt(s).Some? then AfterAt(s).value else ""
  }

  lemma TakingSnoc(d: Directory, done: seq<string>, rcpt: string, routes: set<Route>)
    ensures Taking(d, done + [rcpt], routes) ==
            if RouteOf(d, rcpt) in routes then Taking(d, done, routes) + [rcpt] else Taking(d, done, routes)
  {
  }

  lemma WithoutNotices(blobs: Blobs, m: Letter)
    ensures WithNotices(blobs, m, []) == blobs
  {
  }

  lemma WithNoticesSnoc(blobs: Blobs, m: Letter, rcpts: seq<string>, rcpt: string)
    ensures WithNotices(blobs, m, rcpts + [rcpt]) == Upserted(WithNotices(blobs, m, rcpts), Notice(m, rcpt))
  {
  }

  class Backend {
    const store: SQLiteStore
    const maxSize: int
    const maxRecipients: int
    var directory: Directory
    var messages: seq<Message>
    var queue: seq<Entry>

    constructor (store: SQLiteStore, directory: Directory, maxSize: int, maxRecipients: int)
      ensures this.store == store && this.directory == directory
      ensures this.maxSize == maxSize && this.maxRecipients == maxRecipients
      ensures messages == [] && queue == []
    {
      this.store, this.directory, this.maxSize, this.maxRecipients := store, directory, maxSize, maxRecipients;
      messages, queue := [], [];
    }

    method InsertMessage(m: Message) returns (id: nat)
      modifies `messages
      ensures messages == old(messages) + [m] && id == |messages|
    {
      messages := messages + [m];
      id := |messages|;
    }

    method Enqueue(message: nat, recipient: string)
      modifies `queue
      ensures queue == old(queue) + [Entry(message, recipient)]
    {
      queue := queue + [Entry(message, recipient)];
    }

    /** The first loop of Data: a message row in the INBOX of each local user. */
    method DeliverInboxes(m: Letter, rcpts: seq<string>)
      modifies `messages
      ensures messages == old(messages) + Rows(directory, m, Taking(directory, rcpts, {ToInbox}))
    {
      var d := directory;
      for k := 0 to |rcpts|
        invariant messages == old(messages) + Rows(d, m, Taking(d, rcpts[..k], {ToInbox}))
      {
        assert rcpts[..k + 1][..k] == rcpts[..k];
        var rcpt := rcpts[k];
        if rcpt in d.users && d.users[rcpt] in d.inboxes {
          var row := Message(d.inboxes[d.users[rcpt]], Digest(m.content), |m.content|, m.fromAddr, rcpt, m.subject);
          var _ := InsertMessage(row);
        }
      }
      assert rcpts[..|rcpts|] == rcpts;
    }

    /** The second loop of Data: bounces and outbound messages for the others. */
    method RouteOthers(m: Letter, rcpts: seq<string>)
      modifies `messages, `queue, store
      ensures var others := Taking(directory, rcpts, {ToBounce, ToQueue});
              && messages == old(messages) + Rows(directory, m, others)
              && queue == old(queue) + Entries(directory, m, others, |old(messages)|)
      ensures store.blobs == WithNotices(old(store.blobs), m, Taking(directory, rcpts, {ToBounce}))
    {
      hide RouteOf, Taking, WithNotices, Upserted, RowFor;
      var d := directory;
      NoneTaking(d);
      WithoutNotices(store.blobs, m);
      for k := 0 to |rcpts|
        invariant messages == old(messages) + Rows(d, m, Taking(d, rcpts[..k], {ToBounce, ToQueue}))
        invariant queue == old(queue) + Entries(d, m, Taking(d, rcpts[..k], {ToBounce, ToQueue}), |old(messages)|)
        invariant store.blobs == WithNotices(old(store.blobs), m, Taking(d, rcpts[..k], {ToBounce}))
      {
        assert rcpts[..k + 1] == rcpts[..k] + [rcpts[k]];
        TakingSnoc(d, rcpts[..k], rcpts[k], {ToBounce, ToQueue});
        TakingSnoc(d, rcpts[..k], rcpts[k], {ToBounce});
        WithNoticesSnoc(old(store.blobs), m, Taking(d, rcpts[..k], {ToBounce}), rcpts[k]);
        RouteOther(m, rcpts[k]);
      }
      assert rcpts[..|rcpts|] == rcpts;
    }

    /** One turn of the second loop. */
    method RouteOther(m: Letter, rcpt: string)
      modifies `messages, `queue, store
      ensures RouteOf(directory, rcpt) in {ToBounce, ToQueue} ==>
        && messages == old(messages) + [RowFor(directory, m, rcpt)]
        && queue == old(queue) + [Entry(|messages|, Addressee(directory, m, rcpt))]
      ensures RouteOf(directory, rcpt) !in {ToBounce, ToQueue} ==> messages == old(messages) && queue == old(queue)
      ensures store.blobs ==
              if RouteOf(directory, rcpt) == ToBounce then Upserted(old(store.blobs), Notice(m, rcpt)) else old(store.blobs)
    {
      var d := directory;
      if rcpt in d.users {
        return;
      }
      if AfterAt(rcpt).None? {
        return;
      }
      if IsLocal(d, AfterAt(rcpt).value) {
        var key, size := store.Put(Notice(m, rcpt));
        var id := InsertMessage(Message(d.outbound, key, size, "", m.sender, "Undelivered Mail Returned to Sender"));
        Enqueue(id, m.sender);
      } else {
        var id := InsertMessage(Message(d.outbound, Digest(m.content), |m.content|, m.fromAddr, rcpt, m.subject));
        Enqueue(id, rcpt);
      }
    }
  }

  /** Bounces leave the blobs that are there, and their references, in place. */
  lemma {:induction false} NoticesKeep(blobs: Blobs, m: Letter, rcpts: seq<string>)
    requires Sound(blobs)
    ensures Sound(WithNotices(blobs, m, rcpts))
    ensures forall key <- blobs ::
              key in WithNotices(blobs, m, rcpts) && blobs[key].refcount <= WithNotices(blobs, m, rcpts)[key].refcount
  {
    if rcpts != [] {
      NoticesKeep(blobs, m, rcpts[..|rcpts| - 1]);
    }
  }

  /**
    The rows of the second loop: a message for a remote recipient goes out as it came, a recipient missing at a local
    domain is answered by a notice to the sender. Each has its own queue entry, which names it.
   */
  lemma OutboundRowsAre(d: Directory, m: Letter, rcpts: seq<string>, before: nat, i: nat)
    requires i < |Taking(d, rcpts, {ToBounce, ToQueue})|
    ensures var others := Taking(d, rcpts, {ToBounce, ToQueue});
      var rcpt, row, entry := others[i], Rows(d, m, others)[i], Entries(d, m, others, before)[i];
      && rcpt in rcpts && rcpt !in d.users && '@' in rcpt
      && row.mailbox == d.outbound && entry.message == before + i + 1 && entry.recipient == row.toAddr
      && if AfterAtSign(rcpt) in d.localDomains || d.hostname == AfterAtSign(rcpt)
         then
           var notice := if rcpt in m.notices then m.notices[rcpt] else [];
           && row.toAddr == m.sender && row.fromAddr == "" && row.subject == "Undelivered Mail Returned to Sender"
           && row.key == Digest(notice) && row.size == |notice|
         else
           && row.toAddr == rcpt && row.fromAddr == m.fromAddr && row.subject == m.subject
           && row.key == Digest(m.content) && row.size == |m.content|
  {
    hide Taking, RouteOf;
    var others := Taking(d, rcpts, {ToBounce, ToQueue});
    assert others[i] in others;
    RouteIs(d, others[i]);
    TakingSome(d, rcpts, {ToBounce, ToQueue});
  }

  lemma {:induction false} TakingSome(d: Directory, rcpts: seq<string>, routes: set<Route>)
    ensures forall r :: r in Taking(d, rcpts, routes) <==> r in rcpts && RouteOf(d, r) in routes
  {
    hide RouteOf;
    if rcpts != [] {
      assert rcpts == rcpts[..|rcpts| - 1] + [rcpts[|rcpts| - 1]];
      TakingSome(d, rcpts[..|rcpts| - 1], routes);
    }
  }

  // ----- What the rows refer to -----

  /** The blob of the row is stored, with the length the row says. */
  ghost predicate IsStored(blobs: Blobs, row: Message) {
    && row.key in blobs && blobs[row.key].refcount >= 1
    && Digest(blobs[row.key].data) == row.key && |blobs[row.key].data| == row.size
  }

  ghost predicate AllStored(blobs: Blobs, rows: seq<Message>) {
    forall row <- rows :: IsStored(blobs, row)
  }

  /** Each entry names one of the rows that come after the first `before`: an outbound one to the entry's recipient. */
  ghost predicate EntriesLeadToRows(d: Directory, rows: seq<Message>, before: nat, entries: seq<Entry>) {
    forall e <- entries ::
      before < e.message <= |rows| && rows[e.message - 1].mailbox == d.outbound && rows[e.message - 1].toAddr == e.recipient
  }

  lemma LeadByPosition(d: Directory, before: seq<Message>, outbound: seq<Message>, first: nat, entries: seq<Entry>)
    requires |outbound| == |entries| && first <= |before|
    requires forall i :: 0 <= i < |entries| ==>
      outbound[i].mailbox == d.outbound && entries[i] == Entry(|before| + i + 1, outbound[i].toAddr)
    ensures EntriesLeadToRows(d, before + outbound, first, entries)
  {
    forall e <- entries
      ensures first < e.message <= |before + outbound|
      ensures var row := (before + outbound)[e.message - 1]; row.mailbox == d.outbound && row.toAddr == e.recipient
    {
      var i :| 0 <= i < |entries| && entries[i] == e;
      assert (before + outbound)[|before| + i] == outbound[i];
    }
  }

  lemma NewEntriesLeadToRows(d: Directory, m: Letter, rcpts: seq<string>, before: seq<Message>, first: nat)
    requires first <= |before|
    ensures var others := Taking(d, rcpts, {ToBounce, ToQueue});
      EntriesLeadToRows(d, before + Rows(d, m, others), first, Entries(d, m, others, |before|))
  {
    hide Taking, RouteOf, Rows, Entries, RowFor, Addressee, EntriesLeadToRows;
    var others := Taking(d, rcpts, {ToBounce, ToQueue});
    var outbound, entries := Rows(d, m, others), Entries(d, m, others, |before|);
    forall i | 0 <= i < |entries|
      ensures outbound[i].mailbox == d.outbound && entries[i] == Entry(|before| + i + 1, outbound[i].toAddr)
    {
      OutboundRowsAre(d, m, rcpts, |before|, i);
    }
    LeadByPosition(d, before, outbound, first, entries);
  }

  lemma {:induction false} NoticesStored(blobs: Blobs, m: Letter, rcpts: seq<string>, rcpt: string)
    requires Sound(blobs) && rcpt in rcpts
    ensures var after := WithNotices(blobs, m, rcpts);
      Digest(Notice(m, rcpt)) in after && after[Digest(Notice(m, rcpt))].refcount >= 1
  {
    hide Notice;
    var front, last := rcpts[..|rcpts| - 1], rcpts[|rcpts| - 1];
    assert rcpts == front + [last];
    NoticesKeep(blobs, m, front);
    if rcpt in front {
      NoticesStored(blobs, m, front, rcpt);
    }
  }

  lemma InboxRowStored(d: Directory, blobs: Blobs, m: Letter, rcpts: seq<string>, row: Message)
    requires Sound(blobs) && row in Rows(d, m, Taking(d, rcpts, {ToInbox}))
    ensures IsStored(WithNotices(Upserted(blobs, m.content), m, Taking(d, rcpts, {ToBounce})), row)
  {
    hide Taking, RouteOf, WithNotices, Notice, Rows;
    NoticesKeep(Upserted(blobs, m.content), m, Taking(d, rcpts, {ToBounce}));
    InboxRowsAre(d, m, rcpts, row);
  }

  lemma OtherRowStored(d: Directory, blobs: Blobs, m: Letter, rcpts: seq<string>, rcpt: string)
    requires Sound(blobs) && rcpt in Taking(d, rcpts, {ToBounce, ToQueue})
    ensures IsStored(WithNotices(Upserted(blobs, m.content), m, Taking(d, rcpts, {ToBounce})), RowFor(d, m, rcpt))
  {
    hide Taking, RouteOf, WithNotices, Notice;
    var stored, bounced := Upserted(blobs, m.content), Taking(d, rcpts, {ToBounce});
    NoticesKeep(stored, m, bounced);
    if RouteOf(d, rcpt) == ToBounce {
      TakingSome(d, rcpts, {ToBounce, ToQueue});
      TakingSome(d, rcpts, {ToBounce});
      NoticesStored(stored, m, bounced, rcpt);
    }
  }

  /** The rows of both loops, so that no queue entry leads to a message without its text. */
  lemma RowsAreStored(d: Directory, blobs: Blobs, m: Letter, rcpts: seq<string>)
    requires Sound(blobs)
    ensures var after := WithNotices(Upserted(blobs, m.content), m, Taking(d, rcpts, {ToBounce}));
      AllStored(after, Rows(d, m, Taking(d, rcpts, {ToInbox})) + Rows(d, m, Taking(d, rcpts, {ToBounce, ToQueue})))
  {
    hide Taking, RouteOf, RowFor, WithNotices, Upserted, IsStored, Sound;
    var after := WithNotices(Upserted(blobs, m.content), m, Taking(d, rcpts, {ToBounce}));
    forall row <- Rows(d, m, Taking(d, rcpts, {ToInbox}))
      ensures IsStored(after, row)
    {
      InboxRowStored(d, blobs, m, rcpts, row);
    }
    var others := Taking(d, rcpts, {ToBounce, ToQueue});
    forall row <- Rows(d, m, others)
      ensures IsStored(after, row)
    {
      var i :| 0 <= i < |others| && Rows(d, m, others)[i] == row;
      OtherRowStored(d, blobs, m, rcpts, others[i]);
    }
  }

  /** Every message counts once, however many rows share it, and every notice once. */
  lemma {:induction false} ReferencesTaken(blobs: Blobs, m: Letter, rcpts: seq<string>, key: Key)
    ensures RefCount(WithNotices(blobs, m, rcpts), key) == RefCount(blobs, key)
      + multiset(seq(|rcpts|, i requires 0 <= i < |rcpts| => Digest(Notice(m, rcpts[i]))))[key]
  {
    hide Notice;
    if rcpts != [] {
      var front, last := rcpts[..|rcpts| - 1], rcpts[|rcpts| - 1];
      ReferencesTaken(blobs, m, front, key);
      assert seq(|rcpts|, i requires 0 <= i < |rcpts| => Digest(Notice(m, rcpts[i])))
          == seq(|front|, i requires 0 <= i < |front| => Digest(Notice(m, front[i]))) + [Digest(Notice(m, last))];
    }
  }

  function RefCount(blobs: Blobs, key: Key): int {
    if key in blobs then blobs[key].refcount else 0
  }

  /** The recipients an unauthenticated client may name: one '@', a local domain. */
  ghost predicate Admitted(d: Directory, rcpts: seq<string>) {
    forall r <- rcpts :: AtSigns(r) == 1 && IsLocal(d, AfterAtSign(r))
  }

  lemma {:induction false} NoAtSign(s: string)
    ensures AtSigns(s) == 0 <==> '@' !in s
  {
    if s != [] {
      NoAtSign(s[1..]);
      assert s == [s[0]] + s[1..];
    }
  }

  lemma {:induction false} AtSignsOf(a: string, b: string)
    ensures AtSigns(a + "@" + b) == AtSigns(a) + 1 + AtSigns(b)
  {
    var s := a + "@" + b;
    if a == "" {
      assert s[1..] == b;
    } else {
      assert s[1..] == a[1..] + "@" + b;
      AtSignsOf(a[1..], b);
    }
  }

  /** Those are the addresses that consist of a local part, an '@' and a local domain. */
  lemma AdmittedExactly(d: Directory, rcpt: string, local: string, domain: string)
    requires rcpt == local + "@" + domain && '@' !in local
    ensures Admitted(d, [rcpt]) <==> '@' !in domain && (domain in d.localDomains || d.hostname == domain)
  {
    AfterAtExactly(local, domain);
    AtSignsOf(local, domain);
    NoAtSign(local);
    NoAtSign(domain);
    assert rcpt in [rcpt];
  }

  lemma NotAdmitted(d: Directory, rcpt: string)
    requires '@' !in rcpt
    ensures !Admitted(d, [rcpt])
  {
    NoAtSign(rcpt);
    assert rcpt in [rcpt];
  }

  /** None of them is routed to the outbound queue. */
  lemma {:induction false} AdmittedStayHere(d: Directory, rcpts: seq<string>)
    requires Admitted(d, rcpts)
    ensures Taking(d, rcpts, {ToQueue}) == []
    ensures Taking(d, rcpts, {ToBounce, ToQueue}) == Taking(d, rcpts, {ToBounce})
  {
    if rcpts != [] {
      AdmittedStayHere(d, rcpts[..|rcpts| - 1]);
      SplitsAgree(rcpts[|rcpts| - 1]);
    }
  }

  lemma QueuedBackOnly(d: Directory, m: Letter, rcpts: seq<string>, before: nat)
    requires Admitted(d, rcpts)
    ensures forall e <- Entries(d, m, Taking(d, rcpts, {ToBounce, ToQueue}), before) :: e.recipient == m.sender
  {
    AdmittedStayHere(d, rcpts);
  }

  class Session {
    const backend: Backend
    var sender: string
    var recipients: seq<string>
    var authed: bool

    ghost predicate Valid()
      reads this, backend
    {
      !authed ==> Admitted(backend.directory, recipients)
    }

    constructor (backend: Backend)
      ensures this.backend == backend && sender == "" && recipients == [] && !authed && Valid()
    {
      this.backend, sender, recipients, authed := backend, "", [], false;
    }

    method Mail(from: string) returns (code: nat)
      requires Valid()
      modifies `sender
      ensures Valid()
      ensures '@' !in from ==> code == BAD_ADDRESS && sender == old(sender)
      ensures '@' in from ==> code == OK && sender == from
    {
      if '@' !in from {
        return BAD_ADDRESS;
      }
      sender := from;
      return OK;
    }

    method Auth(accepted: bool)
      requires Valid()
      modifies `authed
      ensures Valid()
      ensures authed == (old(authed) || accepted)
    {
      if accepted {
        authed := true;
      }
    }

    /** `greylisted` is the verdict of checkGreylist, if it is consulted. */
    method Rcpt(to: string, greylisted: bool) returns (code: nat)
      requires Valid()
      modifies `recipients
      ensures Valid()
      ensures recipients == if code == OK then old(recipients) + [to] else old(recipients)
      ensures code == OK <==>
        && |old(recipients)| < backend.maxRecipients
        && (!authed ==> Admitted(backend.directory, [to]) && !(sender != "" && greylisted))
      ensures |old(recipients)| >= backend.maxRecipients ==> code == TOO_MANY
    {
      SplitsAgree(to);
      if |recipients| >= backend.maxRecipients {
        return TOO_MANY;
      }
      if !authed {
        var parts := Split(to, '@');
        if |parts| != 2 {
          return BAD_ADDRESS;
        }
        if !IsLocal(backend.directory, parts[1]) {
          return RELAY_DENIED;
        }
      }
      if !authed && sender != "" && greylisted {
        return GREYLISTED;
      }
      recipients := recipients + [to];
      return OK;
    }

    method Reset()
      requires Valid()
      modifies `sender, `recipients
      ensures Valid() && sender == "" && recipients == []
    {
      sender, recipients := "", [];
    }

    /** The first half of Data: the message is read, stored and measured, and given up again if it is too long. */
    method Receive(r: Reader, buffer: nat) returns (code: nat, content: Content)
      requires buffer > 0
      modifies r, backend.store
      ensures code == OK <==> !r.breaks && |old(r.rest)| <= backend.maxSize
      ensures code == OK ==> content == old(r.rest) && backend.store.blobs == Upserted(old(backend.store.blobs), content)
      ensures code != OK && !r.breaks ==> code == TOO_LARGE
      ensures code != OK && old(Sound(backend.store.blobs)) ==> backend.store.blobs == old(backend.store.blobs)
    {
      hide Upserted, Decremented, Swept, ScanFrom, StopsEarly;
      ghost var was := backend.store.blobs;
      var headers := ReadHeaders(r);
      if headers.None? {
        return TOO_LARGE, [];
      }
      var counted := new CountingReader(headers.value + r.rest, r.breaks);
      var read := ReadAll(counted, buffer);
      if read.None? {
        return FAILED, [];
      }
      var key, _ := backend.store.Put(read.value);
      if counted.n > backend.maxSize {
        backend.store.Delete(key);
        if Sound(was) {
          DeleteUndoesPut(was, read.value);
        }
        return TOO_LARGE, [];
      }
      return OK, read.value;
    }

    /** `fromAddr` and `subject` are read off the scanned headers; `notices` are the texts of possible bounces. */
    method Data(r: Reader, buffer: nat, fromAddr: string, subject: string, notices: map<string, Content>)
      returns (code: nat)
      requires Valid() && buffer > 0
      modifies r, backend`messages, backend`queue, backend.store
      ensures Valid()
      ensures code == OK <==> !r.breaks && |old(r.rest)| <= backend.maxSize
      // a refused message leaves no trace
      ensures code != OK ==> backend.messages == old(backend.messages) && backend.queue == old(backend.queue)
      ensures code != OK && old(Sound(backend.store.blobs)) ==> backend.store.blobs == old(backend.store.blobs)
      ensures code != OK && !r.breaks ==> code == TOO_LARGE
      // an accepted one is stored as received and takes every recipient's route once
      ensures code == OK ==>
        var d, m := backend.directory, Letter(old(r.rest), sender, fromAddr, subject, notices);
        var locals, others := Taking(d, recipients, {ToInbox}), Taking(d, recipients, {ToBounce, ToQueue});
        && backend.messages == old(backend.messages) + Rows(d, m, locals) + Rows(d, m, others)
        && backend.queue == old(backend.queue) + Entries(d, m, others, |old(backend.messages)| + |locals|)
        && backend.store.blobs ==
           WithNotices(Upserted(old(backend.store.blobs), old(r.rest)), m, Taking(d, recipients, {ToBounce}))
      // so that every new row has its text in the store, and every new queue entry leads to such a row
      ensures code == OK && old(Sound(backend.store.blobs)) ==>
        AllStored(backend.store.blobs, backend.messages[|old(backend.messages)|..])
      ensures code == OK ==>
        EntriesLeadToRows(
          backend.directory, backend.messages, |old(backend.messages)|, backend.queue[|old(backend.queue)|..])
    {
      hide Upserted, Taking, RouteOf, WithNotices, Admitted, Rows, Entries, RowFor, Addressee, Sound;
      hide AllStored, EntriesLeadToRows;
      var content: Content;
      code, content := Receive(r, buffer);
      if code != OK {
        return code;
      }
      var m := Letter(content, sender, fromAddr, subject, notices);
      backend.DeliverInboxes(m, recipients);
      ghost var d, was := backend.directory, old(backend.store.blobs);
      ghost var delivered := backend.messages;
      backend.RouteOthers(m, recipients);
      NewEntriesLeadToRows(d, m, recipients, delivered, |old(backend.messages)|);
      assert backend.queue[|old(backend.queue)|..]
          == Entries(d, m, Taking(d, recipients, {ToBounce, ToQueue}), |delivered|);
      if Sound(was) {
        RowsAreStored(d, was, m, recipients);
        assert backend.messages[|old(backend.messages)|..]
            == Rows(d, m, Taking(d, recipients, {ToInbox})) + Rows(d, m, Taking(d, recipients, {ToBounce, ToQueue}));
      }
    }
  }

  /** What an accepted message leaves in the store: the bytes received, and all that was there before. */
  lemma {:induction false} StoredAsReceived(blobs: Blobs, m: Letter, rcpts: seq<string>)
    requires Sound(blobs)
    ensures var after := WithNotices(Upserted(blobs, m.content), m, rcpts);
            && Sound(after)
            && Digest(m.content) in after && after[Digest(m.content)].data == m.content
            && forall key <- blobs :: key in after && after[key].data == blobs[key].data
  {
    NoticesKeep(Upserted(blobs, m.content), m, rcpts);
  }

  /** A session that never authenticated queues mail back to its sender only, whomever it names. */
  lemma UnauthenticatedNeverRelays(s: Session, m: Letter, before: nat)
    requires s.Valid() && !s.authed
    ensures Taking(s.backend.directory, s.recipients, {ToQueue}) == []
    ensures var others := Taking(s.backend.directory, s.recipients, {ToBounce, ToQueue});
            forall e <- Entries(s.backend.directory, m, others, before) :: e.recipient == m.sender
  {
    AdmittedStayHere(s.backend.directory, s.recipients);
    QueuedBackOnly(s.backend.directory, m, s.recipients, before);
  }
}
