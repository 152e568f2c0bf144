/** POP3 commands and deletion marks (pkg/pop3/session.go) over the `messages` table. */
module Pop3Session {
  import opened Wrappers
  import opened MessageTable

  datatype Phase = Authorization | Transaction

  /** ReadOnly stands for the commands that only list or retrieve, and for malformed ones. */
  datatype Command =
    | User(email: string)
    | Pass(password: string)
    | Apop(email: string, digestOk: bool)
    | Dele(uid: nat)
    | Rset
    | Quit
    | ReadOnly

  /** Who authenticates, by password or by an accepted APOP digest, and each user's INBOX. */
  datatype Accounts = Accounts(
    passwords: map<(string, string), nat>, emails: map<string, nat>, apopConfigured: bool, inboxes: map<nat, int>)

  datatype Client = Client(phase: Phase, email: string, user: nat, marked: set<nat>, open: bool)

  const Greeted := Client(Authorization, "", 0, {}, true)

  /** SELECT ... WHERE mailbox_id = mailbox AND uid = uid */
  function FindUid(rows: seq<Msg>, mailbox: int, uid: nat): (found: Option<Msg>)
    ensures found.Some? ==> found.value in rows && found.value.mailbox == mailbox && found.value.uid == uid
    ensures found.None? ==> forall m <- rows :: m.mailbox != mailbox || m.uid != uid
  {
    if rows == [] then None
    else if rows[0].mailbox == mailbox && rows[0].uid == uid then Some(rows[0])
    else FindUid(rows[1..], mailbox, uid)
  }

  /** The message DELE names, if the client may delete one. */
  function Target(a: Accounts, c: Client, rows: seq<Msg>, uid: nat): Option<Msg> {
    if c.phase == Authorization || c.user !in a.inboxes then None else FindUid(rows, a.inboxes[c.user], uid)
  }

  predicate Expunges(a: Accounts, c: Client) {
    c.marked != {} && c.user in a.inboxes
  }

  /** The client's side of a command. */
  function ClientAfter(a: Accounts, c: Client, rows: seq<Msg>, cmd: Command): Client {
    if !c.open then c
    else
      match cmd {
        case Quit => c.(open := false)
        case User(email) => if c.phase == Authorization && email != "" then c.(email := email) else c
        case Pass(password) =>
          if c.phase == Transaction || c.email == "" || password == "" then c
          else if (c.email, password) in a.passwords
          then c.(phase := Transaction, user := a.passwords[(c.email, password)])
          else c.(email := "")
        case Apop(email, digestOk) =>
          if c.phase == Transaction || !a.apopConfigured || !digestOk || email !in a.emails then c
          else c.(phase := Transaction, user := a.emails[email], email := email)
        case Dele(uid) =>
          var m := Target(a, c, rows, uid);
          if m.Some? then c.(marked := c.marked + {m.value.id}) else c
        case Rset => if c.phase == Transaction then c.(marked := {}) else c
        case ReadOnly => c
      }
  }

  /** The table's side of a command. */
  function RowsAfter(a: Accounts, c: Client, rows: seq<Msg>, cmd: Command): seq<Msg> {
    if !c.open then rows
    else
      match cmd {
        case Quit => if Expunges(a, c) then Expunged(rows, a.inboxes[c.user]) else rows
        case Dele(uid) =>
          var m := Target(a, c, rows, uid);
          if m.Some? then WithFlags(rows, m.value.id, FLAG_DELETED, FLAG_DELETED) else rows
        case Rset => if c.phase == Transaction then Unflagged(rows, c.marked) else rows
        case _ => rows
      }
  }

  /** The rows with the deleted flag cleared on the given ids. */
  function Unflagged(rows: seq<Msg>, ids: set<nat>): (r: seq<Msg>)
    ensures |r| == |rows|
    ensures forall i :: 0 <= i < |rows| ==>
      r[i] == if rows[i].id in ids then rows[i].(flags := rows[i].flags & !FLAG_DELETED) else rows[i]
  {
    seq(|rows|, i requires 0 <= i < |rows| =>
      if rows[i].id in ids then rows[i].(flags := rows[i].flags & !FLAG_DELETED) else rows[i])
  }

  class Session {
    const store: MessageStore
    const accounts: Accounts
    var phase: Phase
    var email: string
    var user: nat
    var markedDeleted: set<nat>
    var open: bool

    function State(): Client
      reads this
    {
      Client(phase, email, user, markedDeleted, open)
    }

    constructor (store: MessageStore, accounts: Accounts)
      ensures this.store == store && this.accounts == accounts && State() == Greeted
    {
      this.store, this.accounts := store, accounts;
      phase, email, user, markedDeleted, open := Authorization, "", 0, {}, true;
    }

    method HandleCommand(cmd: Command)
      requires open
      modifies this, store`rows
      ensures State() == ClientAfter(accounts, old(State()), old(store.rows), cmd)
      ensures store.rows == RowsAfter(accounts, old(State()), old(store.rows), cmd)
    {
      hide WithFlags, Unflagged, Expunged, FindUid;
      match cmd
      case Quit =>
        if markedDeleted != {} && user in accounts.inboxes {
          var _ := store.ExpungeMailbox(accounts.inboxes[user]);
        }
        open := false;
      case User(name) =>
        if phase == Authorization && name != "" {
          email := name;
        }
      case Pass(password) => HandlePASS(password);
      case Apop(name, digestOk) =>
        if phase == Authorization && accounts.apopConfigured && digestOk && name in accounts.emails {
          user, email, phase := accounts.emails[name], name, Transaction;
        }
      case Dele(uid) => HandleDELE(uid);
      case Rset =>
        if phase == Transaction {
          HandleRSET();
        }
      case ReadOnly =>
    }

    method HandlePASS(password: string)
      requires open
      modifies this
      ensures State() == ClientAfter(accounts, old(State()), store.rows, Pass(password))
    {
      if phase == Transaction || email == "" || password == "" {
        return;
      }
      if (email, password) !in accounts.passwords {
        email := "";
        return;
      }
      user := accounts.passwords[(email, password)];
      phase := Transaction;
    }

    method HandleDELE(uid: nat)
      requires open
      modifies this, store`rows
      ensures State() == ClientAfter(accounts, old(State()), old(store.rows), Dele(uid))
      ensures store.rows == RowsAfter(accounts, old(State()), old(store.rows), Dele(uid))
    {
      hide WithFlags, FindUid;
      if phase == Authorization || user !in accounts.inboxes {
        return;
      }
      var msg := FindUid(store.rows, accounts.inboxes[user], uid);
      if msg.None? {
        return;
      }
      var _ := store.UpdateFlags(msg.value.id, FLAG_DELETED, FLAG_DELETED);
      markedDeleted := markedDeleted + {msg.value.id};
    }

    /** Clears the marks one by one, in any order. */
    method HandleRSET()
      modifies this`markedDeleted, store`rows
      ensures markedDeleted == {}
      ensures store.rows == Unflagged(old(store.rows), old(markedDeleted))
    {
      ghost var rows := store.rows;
      var left := markedDeleted;
      while left != {}
        invariant left <= markedDeleted == old(markedDeleted)
        invariant store.rows == Unflagged(rows, markedDeleted - left)
        decreases |left|
      {
        var id :| id in left;
        UnflagOne(rows, markedDeleted - left, id);
        assert markedDeleted - (left - {id}) == markedDeleted - left + {id};
        var _ := store.UpdateFlags(id, 0, FLAG_DELETED);
        left := left - {id};
      }
      markedDeleted := {};
    }
  }

  lemma UnflagOne(rows: seq<Msg>, ids: set<nat>, id: nat)
    ensures WithFlags(Unflagged(rows, ids), id, 0, FLAG_DELETED) == Unflagged(rows, ids + {id})
  {
  }

  // ----- Runs: the client's commands, with new mail arriving in between -----

  datatype Event = Do(command: Command) | Arrive(mailbox: int, key: string, size: int)

  datatype World = World(rows: seq<Msg>, lastId: nat, client: Client)

  function Arrival(w: World, mailbox: int, key: string, size: int): Msg {
    Msg(w.lastId + 1, mailbox, NextUid(w.rows, mailbox), key, size, 0, "", "", "")
  }

  function Step(a: Accounts, w: World, e: Event): World {
    match e
    case Do(cmd) => World(RowsAfter(a, w.client, w.rows, cmd), w.lastId, ClientAfter(a, w.client, w.rows, cmd))
    case Arrive(mailbox, key, size) => World(w.rows + [Arrival(w, mailbox, key, size)], w.lastId + 1, w.client)
  }

  function Run(a: Accounts, w: World, es: seq<Event>): World {
    if es == [] then w else Step(a, Run(a, w, es[..|es| - 1]), es[|es| - 1])
  }

  // ----- Logging in -----

  /** The event ends the validity of a name given before: a new name, or a password, which is wrong or logs in. */
  predicate Renames(e: Event) {
    e.Do? && ((e.command.User? && e.command.email != "") || (e.command.Pass? && e.command.password != ""))
  }

  ghost predicate NamedAt(es: seq<Event>, email: string, i: int) {
    0 <= i < |es| && es[i] == Do(User(email)) && forall j :: i < j < |es| ==> !Renames(es[j])
  }

  /** The last name given is this one, and no password has been tried on it. */
  ghost predicate LastNamed(es: seq<Event>, email: string) {
    email != "" && exists i :: NamedAt(es, email, i)
  }

  /** After these events the next one authenticates this user. */
  ghost predicate Authenticates(a: Accounts, es: seq<Event>, e: Event, user: nat) {
    && e.Do?
    && (|| (&& e.command.Apop? && e.command.digestOk && a.apopConfigured
            && e.command.email in a.emails && a.emails[e.command.email] == user)
        || (&& e.command.Pass? && e.command.password != ""
            && exists email :: LastNamed(es, email)
                 && (email, e.command.password) in a.passwords && a.passwords[(email, e.command.password)] == user))
  }

  ghost predicate LogsIn(a: Accounts, es: seq<Event>, i: int, user: nat) {
    0 <= i < |es| && NoQuit(es[..i]) && Authenticates(a, es[..i], es[i], user)
  }

  lemma NoQuitSnoc(es: seq<Event>, e: Event)
    ensures NoQuit(es + [e]) <==> NoQuit(es) && e != Do(Quit)
  {
    var all := es + [e];
    assert e in all;
    assert NoQuit(all) ==> forall x <- es :: x in all && x != Do(Quit);
    assert NoQuit(es) && e != Do(Quit) ==> forall x <- all :: x in es || x == e;
  }

  lemma LastNamedSnoc(es: seq<Event>, e: Event, email: string)
    requires email != ""
    ensures LastNamed(es + [e], email) <==> e == Do(User(email)) || (LastNamed(es, email) && !Renames(e))
  {
    var all := es + [e];
    if i :| NamedAt(es, email, i) && !Renames(e) {
      assert NamedAt(all, email, i);
    }
    if e == Do(User(email)) {
      assert NamedAt(all, email, |es|);
    }
    assert forall j :: 0 <= j < |es| ==> all[j] == es[j];
    if i :| NamedAt(all, email, i) {
      assert i < |es| ==> NamedAt(es, email, i) && all[|es|] == e;
    }
  }

  /** Until somebody logs in, the session's name is the last one given. */
  lemma {:induction false} NameIsLastNamed(a: Accounts, w: World, es: seq<Event>, email: string)
    requires w.client == Greeted && NoQuit(es) && email != ""
    requires Run(a, w, es).client.phase == Authorization
    ensures Run(a, w, es).client.open
    ensures Run(a, w, es).client.email == email <==> LastNamed(es, email)
  {
    hide RowsAfter, Target, LastNamed;
    if es == [] {
      NobodyNamed(email);
    } else {
      var init, e := es[..|es| - 1], es[|es| - 1];
      assert es == init + [e];
      NoQuitSnoc(init, e);
      NameIsLastNamed(a, w, init, email);
      LastNamedSnoc(init, e, email);
    }
  }

  lemma NobodyNamed(email: string)
    ensures !LastNamed([], email)
  {
  }

  /** One event logs in exactly if it authenticates. */
  lemma StepLogsIn(a: Accounts, w: World, es: seq<Event>, e: Event, user: nat)
    requires w.client == Greeted && NoQuit(es) && Run(a, w, es).client.phase == Authorization
    ensures var c := Run(a, w, es + [e]).client;
      c.phase == Transaction && c.user == user <==> Authenticates(a, es, e, user)
  {
    hide RowsAfter, Target, LastNamed;
    assert (es + [e])[..|es|] == es;
    var c := Run(a, w, es).client;
    forall email | email != ""
      ensures c.open && (c.email == email <==> LastNamed(es, email))
    {
      NameIsLastNamed(a, w, es, email);
    }
    NoEmptyName(es);
    assert c.open by {
      NameIsLastNamed(a, w, es, "x");
    }
  }

  lemma NoEmptyName(es: seq<Event>)
    ensures !LastNamed(es, "")
  {
  }

  lemma LogsInSnoc(a: Accounts, es: seq<Event>, e: Event, i: int, user: nat)
    ensures LogsIn(a, es + [e], i, user) <==>
      LogsIn(a, es, i, user) || (i == |es| && NoQuit(es) && Authenticates(a, es, e, user))
    ensures LogsIn(a, es, i, user) ==> 0 <= i < |es|
  {
    hide Authenticates, NoQuit;
    var all := es + [e];
    assert all[..|es|] == es;
    assert 0 <= i < |es| ==> all[..i] == es[..i] && all[i] == es[i];
  }

  lemma {:induction false} ClosedStays(a: Accounts, w: World, es: seq<Event>)
    requires w.client == Greeted && !NoQuit(es)
    ensures !Run(a, w, es).client.open
  {
    hide RowsAfter, Target;
    var init, e := es[..|es| - 1], es[|es| - 1];
    assert es == init + [e];
    NoQuitSnoc(init, e);
    if !NoQuit(init) {
      ClosedStays(a, w, init);
    }
  }

  /**
    A session is logged in exactly if one of its events was an APOP with the right digest, where that is configured,
    for a known address, or the right password for the last name given; and the first of these says as whom.
   */
  lemma {:induction false} LoggedInExactly(a: Accounts, w: World, es: seq<Event>)
    requires w.client == Greeted
    ensures Run(a, w, es).client.phase == Transaction <==> exists i, user :: LogsIn(a, es, i, user)
    ensures forall i, user ::
      LogsIn(a, es, i, user) && (forall j, u :: LogsIn(a, es, j, u) ==> i <= j) ==> Run(a, w, es).client.user == user
  {
    hide RowsAfter, Target, Authenticates, NoQuit, LogsIn;
    if es == [] {
      NobodyLoggedIn(a);
    } else {
      var init, e := es[..|es| - 1], es[|es| - 1];
      assert es == init + [e];
      LoggedInExactly(a, w, init);
      forall i, user: nat
        ensures LogsIn(a, es, i, user) <==>
          LogsIn(a, init, i, user) || (i == |init| && NoQuit(init) && Authenticates(a, init, e, user))
        ensures LogsIn(a, init, i, user) ==> 0 <= i < |init|
      {
        LogsInSnoc(a, init, e, i, user);
      }
      if Run(a, w, init).client.phase == Transaction {
        UserNeverChanges(a, Run(a, w, init), [e]);
        assert Run(a, Run(a, w, init), [e]) == Run(a, w, es);
      } else if NoQuit(init) {
        forall user: nat
          ensures var c := Run(a, w, es).client;
            c.phase == Transaction && c.user == user <==> Authenticates(a, init, e, user)
        {
          StepLogsIn(a, w, init, e, user);
        }
        var user := Run(a, w, es).client.user;
        assert LogsIn(a, es, |init|, user) <==> Authenticates(a, init, e, user) || LogsIn(a, init, |init|, user);
      } else {
        ClosedStays(a, w, init);
      }
    }
  }

  lemma NobodyLoggedIn(a: Accounts)
    ensures forall i, user :: !LogsIn(a, [], i, user)
  {
  }

  // ----- Marks -----

  /** DELE names the message of the user's INBOX with that UID, where UIDs are not shared. */
  lemma TargetIs(a: Accounts, c: Client, rows: seq<Msg>, inbox: int, m: Msg)
    requires LoggedIn(a, c, inbox) && m in rows && m.mailbox == inbox
    requires forall x <- rows :: x.mailbox == m.mailbox && x.uid == m.uid ==> x == m
    ensures Target(a, c, rows, m.uid) == Some(m)
  {
  }

  lemma NoTarget(a: Accounts, c: Client, rows: seq<Msg>, uid: nat)
    requires c.phase == Authorization || c.user !in a.inboxes
      || forall m <- rows :: m.mailbox != a.inboxes[c.user] || m.uid != uid
    ensures Target(a, c, rows, uid).None?
  {
  }

  /** DELE at position i marks the message with this id. */
  ghost predicate Marks(a: Accounts, w: World, es: seq<Event>, i: int, id: nat) {
    && 0 <= i < |es| && es[i].Do? && es[i].command.Dele?
    && var before := Run(a, w, es[..i]);
       var m := Target(a, before.client, before.rows, es[i].command.uid);
       before.client.open && m.Some? && m.value.id == id
  }

  predicate ResetsAfter(es: seq<Event>, i: int) {
    exists j :: i < j < |es| && 0 <= j && es[j] == Do(Rset)
  }

  /** Logged in, the user's INBOX being `inbox`. */
  predicate LoggedIn(a: Accounts, c: Client, inbox: int) {
    c.open && c.phase == Transaction && c.user in a.inboxes && a.inboxes[c.user] == inbox
  }

  predicate NoQuit(es: seq<Event>) {
    forall e <- es :: e != Do(Quit)
  }

  /** From login on, neither the user nor the phase changes, and the session stays open until QUIT. */
  lemma {:induction false} UserNeverChanges(a: Accounts, w: World, es: seq<Event>)
    requires w.client.phase == Transaction
    ensures Run(a, w, es).client.phase == Transaction && Run(a, w, es).client.user == w.client.user
    ensures w.client.open && NoQuit(es) ==> Run(a, w, es).client.open
  {
    hide RowsAfter;
    if es != [] {
      var init := es[..|es| - 1];
      UserNeverChanges(a, w, init);
      assert NoQuit(es) ==> NoQuit(init) by {
        assert forall e <- init :: e in es;
      }
      assert es[|es| - 1] in es;
    }
  }

  lemma ResetsAfterSnoc(es: seq<Event>, i: int)
    requires 0 <= i < |es| - 1
    ensures ResetsAfter(es, i) <==> ResetsAfter(es[..|es| - 1], i) || es[|es| - 1] == Do(Rset)
  {
  }

  lemma MarksSnoc(a: Accounts, w: World, es: seq<Event>, i: int, id: nat)
    requires 0 <= i < |es| - 1
    ensures Marks(a, w, es, i, id) <==> Marks(a, w, es[..|es| - 1], i, id)
  {
    hide Run, Target;
    assert es[..|es| - 1][..i] == es[..i];
  }

  /** The session's marks are the messages deleted since the last RSET. */
  lemma {:induction false} MarkedSinceReset(a: Accounts, w: World, es: seq<Event>, id: nat)
    requires w.client.open && w.client.phase == Transaction && w.client.marked == {} && NoQuit(es)
    ensures id in Run(a, w, es).client.marked <==> exists i :: Marks(a, w, es, i, id) && !ResetsAfter(es, i)
  {
    hide RowsAfter, Marks, ResetsAfter, Target;
    if es != [] {
      var n := |es| - 1;
      var init := es[..n];
      assert NoQuit(init) by {
        assert forall e <- init :: e in es;
      }
      MarkedSinceReset(a, w, init, id);
      UserNeverChanges(a, w, init);
      LastMark(a, w, es, id);
      assert es[n] in es;
      if i :| Marks(a, w, init, i, id) && !ResetsAfter(init, i) {
        MarksInRange(a, w, init, i, id);
        MarksSnoc(a, w, es, i, id);
        ResetsAfterSnoc(es, i);
      }
      if i :| Marks(a, w, es, i, id) && !ResetsAfter(es, i) {
        MarksInRange(a, w, es, i, id);
        if i < n {
          MarksSnoc(a, w, es, i, id);
          ResetsAfterSnoc(es, i);
        }
      }
    } else {
      forall i
        ensures !Marks(a, w, es, i, id)
      {
        if Marks(a, w, es, i, id) {
          MarksInRange(a, w, es, i, id);
        }
      }
    }
  }

  lemma MarksInRange(a: Accounts, w: World, es: seq<Event>, i: int, id: nat)
    requires Marks(a, w, es, i, id)
    ensures 0 <= i < |es| && es[i].Do? && es[i].command.Dele?
  {
  }

  lemma LastMark(a: Accounts, w: World, es: seq<Event>, id: nat)
    requires es != []
    ensures var n, before := |es| - 1, Run(a, w, es[..|es| - 1]);
      && !ResetsAfter(es, n)
      && (Marks(a, w, es, n, id) <==>
           es[n].Do? && es[n].command.Dele? && before.client.open &&
           var m := Target(a, before.client, before.rows, es[n].command.uid); m.Some? && m.value.id == id)
  {
  }

  // ----- What QUIT removes -----

  predicate IdsGrow(rows: seq<Msg>, lastId: nat) {
    && (forall i, j :: 0 <= i < j < |rows| ==> rows[i].id < rows[j].id)
    && (forall i :: 0 <= i < |rows| ==> rows[i].id <= lastId)
  }

  predicate IsDeleted(m: Msg) {
    m.flags & FLAG_DELETED != 0
  }

  /** The id was marked at some time in the run. */
  ghost predicate EverMarked(a: Accounts, w: World, es: seq<Event>, id: nat) {
    exists i :: Marks(a, w, es, i, id)
  }

  /** The message was flagged before the run, by somebody else. */
  ghost predicate FlaggedBefore(w: World, id: nat) {
    exists i :: 0 <= i < |w.rows| && w.rows[i].id == id && IsDeleted(w.rows[i])
  }

  /** A message of the INBOX is flagged if the session marks it, or was flagged before and never marked since. */
  ghost predicate FlagExplained(a: Accounts, w: World, es: seq<Event>, c: Client, inbox: int, m: Msg) {
    && (m.mailbox == inbox ==>
         (IsDeleted(m) <==> m.id in c.marked || (FlaggedBefore(w, m.id) && !EverMarked(a, w, es, m.id))))
    && (m.id in c.marked ==> m.mailbox == inbox)
  }

  ghost predicate IdsKnown(a: Accounts, w: World, es: seq<Event>, now: World) {
    && IdsGrow(now.rows, now.lastId)
    && (forall id: nat :: FlaggedBefore(w, id) || EverMarked(a, w, es, id) ==> id <= now.lastId)
    && (forall id <- now.client.marked :: EverMarked(a, w, es, id))
  }

  ghost predicate Explained(a: Accounts, w: World, es: seq<Event>, now: World, inbox: int) {
    && IdsKnown(a, w, es, now)
    && forall i :: 0 <= i < |now.rows| ==> FlagExplained(a, w, es, now.client, inbox, now.rows[i])
  }

  lemma EverMarkedSnoc(a: Accounts, w: World, es: seq<Event>, id: nat)
    requires es != []
    ensures EverMarked(a, w, es, id) <==> EverMarked(a, w, es[..|es| - 1], id) || Marks(a, w, es, |es| - 1, id)
  {
    hide Marks;
    var init := es[..|es| - 1];
    if i :| Marks(a, w, init, i, id) {
      MarksInRange(a, w, init, i, id);
      MarksSnoc(a, w, es, i, id);
    }
    if i :| Marks(a, w, es, i, id) {
      MarksInRange(a, w, es, i, id);
      if i < |es| - 1 {
        MarksSnoc(a, w, es, i, id);
      }
    }
  }

  /** Whom the last event marks: the target of an accepted DELE, else nobody. */
  lemma LastMarks(a: Accounts, w: World, es: seq<Event>)
    requires es != []
    ensures var before, e := Run(a, w, es[..|es| - 1]), es[|es| - 1];
      var m := if e.Do? && e.command.Dele? && before.client.open
        then Target(a, before.client, before.rows, e.command.uid) else None;
      forall id: nat :: EverMarked(a, w, es, id) <==>
        EverMarked(a, w, es[..|es| - 1], id) || (m.Some? && m.value.id == id)
  {
    hide Target, EverMarked, Run;
    forall id: nat
      ensures EverMarked(a, w, es, id) <==>
        EverMarked(a, w, es[..|es| - 1], id) || Marks(a, w, es, |es| - 1, id)
    {
      EverMarkedSnoc(a, w, es, id);
    }
  }

  lemma DeleFlags(rows: seq<Msg>, k: nat)
    requires k < |rows| && forall i, j :: 0 <= i < j < |rows| ==> rows[i].id < rows[j].id
    ensures var rows' := WithFlags(rows, rows[k].id, FLAG_DELETED, FLAG_DELETED);
      && |rows'| == |rows|
      && forall i :: 0 <= i < |rows| ==>
           && rows'[i].id == rows[i].id && rows'[i].mailbox == rows[i].mailbox
           && (IsDeleted(rows'[i]) <==> i == k || IsDeleted(rows[i]))
  {
  }

  lemma RsetFlags(rows: seq<Msg>, ids: set<nat>)
    ensures var rows' := Unflagged(rows, ids);
      && |rows'| == |rows|
      && forall i :: 0 <= i < |rows| ==>
           && rows'[i].id == rows[i].id && rows'[i].mailbox == rows[i].mailbox
           && (IsDeleted(rows'[i]) <==> rows[i].id !in ids && IsDeleted(rows[i]))
  {
  }

  lemma {:induction false} FlagsExplained(a: Accounts, w: World, es: seq<Event>, inbox: int)
    requires LoggedIn(a, w.client, inbox) && w.client.marked == {} && IdsGrow(w.rows, w.lastId) && NoQuit(es)
    ensures Explained(a, w, es, Run(a, w, es), inbox)
    ensures LoggedIn(a, Run(a, w, es).client, inbox)
  {
    UserNeverChanges(a, w, es);
    if es == [] {
      NothingMarked(a, w);
    } else {
      var init, e := es[..|es| - 1], es[|es| - 1];
      assert NoQuit(init) by {
        assert forall x <- init :: x in es;
      }
      FlagsExplained(a, w, init, inbox);
      assert e in es;
      if e.Arrive? {
        ArriveExplained(a, w, es, inbox);
      } else if e.command.Dele? {
        DeleExplained(a, w, es, inbox);
      } else {
        OtherExplained(a, w, es, inbox);
      }
    }
  }

  lemma ArriveExplained(a: Accounts, w: World, es: seq<Event>, inbox: int)
    requires es != [] && es[|es| - 1].Arrive?
    requires Explained(a, w, es[..|es| - 1], Run(a, w, es[..|es| - 1]), inbox)
    ensures Explained(a, w, es, Run(a, w, es), inbox)
  {
    hide EverMarked, FlaggedBefore, Target;
    LastMarks(a, w, es);
  }

  lemma DeleEffect(a: Accounts, w: World, es: seq<Event>)
    requires es != [] && es[|es| - 1].Do? && es[|es| - 1].command.Dele?
    requires Run(a, w, es[..|es| - 1]).client.open
    ensures var before, after := Run(a, w, es[..|es| - 1]), Run(a, w, es);
      var m := Target(a, before.client, before.rows, es[|es| - 1].command.uid);
      if m.None? then after == before
      else after == World(WithFlags(before.rows, m.value.id, FLAG_DELETED, FLAG_DELETED), before.lastId,
                          before.client.(marked := before.client.marked + {m.value.id}))
  {
    hide Target;
  }

  lemma DeleExplained(a: Accounts, w: World, es: seq<Event>, inbox: int)
    requires es != [] && es[|es| - 1].Do? && es[|es| - 1].command.Dele?
    requires var before := Run(a, w, es[..|es| - 1]);
      Explained(a, w, es[..|es| - 1], before, inbox) && LoggedIn(a, before.client, inbox)
    ensures Explained(a, w, es, Run(a, w, es), inbox)
  {
    hide EverMarked, FlaggedBefore, WithFlags, FindUid, IsDeleted, Run;
    LastMarks(a, w, es);
    DeleEffect(a, w, es);
    var before := Run(a, w, es[..|es| - 1]);
    var m := Target(a, before.client, before.rows, es[|es| - 1].command.uid);
    if m.Some? {
      var k :| 0 <= k < |before.rows| && before.rows[k] == m.value;
      DeleFlags(before.rows, k);
    }
  }

  lemma OtherExplained(a: Accounts, w: World, es: seq<Event>, inbox: int)
    requires es != [] && es[|es| - 1].Do? && !es[|es| - 1].command.Dele? && !es[|es| - 1].command.Quit?
    requires var before := Run(a, w, es[..|es| - 1]);
      Explained(a, w, es[..|es| - 1], before, inbox) && LoggedIn(a, before.client, inbox)
    ensures Explained(a, w, es, Run(a, w, es), inbox)
  {
    hide EverMarked, FlaggedBefore, Unflagged, Target, IsDeleted;
    LastMarks(a, w, es);
    var before := Run(a, w, es[..|es| - 1]);
    RsetFlags(before.rows, before.client.marked);
  }

  lemma NothingMarked(a: Accounts, w: World)
    ensures forall id: nat :: !EverMarked(a, w, [], id)
  {
  }

  /** Short of QUIT, a session removes nothing and changes nothing but flags: a dropped connection loses no message. */
  lemma {:induction false} NothingGoesBeforeQuit(a: Accounts, w: World, es: seq<Event>)
    requires NoQuit(es)
    ensures var rows := Run(a, w, es).rows;
      |rows| >= |w.rows| && forall i :: 0 <= i < |w.rows| ==> rows[i].(flags := w.rows[i].flags) == w.rows[i]
  {
    hide ClientAfter, Target;
    if es != [] {
      var init := es[..|es| - 1];
      assert forall e <- init :: e in es;
      NothingGoesBeforeQuit(a, w, init);
      assert es[|es| - 1] in es;
    }
  }

  /** The messages QUIT takes away: nothing without a mark, otherwise all that are flagged in the INBOX by then. */
  ghost predicate Removed(a: Accounts, w: World, es: seq<Event>, inbox: int, m: Msg) {
    var c := Run(a, w, es).client;
    && c.marked != {}
    && m.mailbox == inbox
    && (m.id in c.marked || (FlaggedBefore(w, m.id) && !EverMarked(a, w, es, m.id)))
  }

  lemma QuitRemoves(a: Accounts, w: World, es: seq<Event>, inbox: int)
    requires LoggedIn(a, w.client, inbox) && w.client.marked == {} && IdsGrow(w.rows, w.lastId) && NoQuit(es)
    ensures var before, after := Run(a, w, es), Run(a, w, es + [Do(Quit)]);
      && !after.client.open
      && forall m :: m in after.rows <==> m in before.rows && !Removed(a, w, es, inbox, m)
  {
    hide EverMarked, FlaggedBefore;
    FlagsExplained(a, w, es, inbox);
    assert (es + [Do(Quit)])[..|es|] == es;
    var before := Run(a, w, es);
    var keep := (m: Msg) => m.mailbox != inbox || m.flags & FLAG_DELETED == 0;
    assert Expunged(before.rows, inbox) == Keeping(before.rows, keep);
    KeepingMembers(before.rows, keep);
    forall m <- before.rows
      ensures keep(m) <==> m.mailbox != inbox || !IsDeleted(m)
      ensures FlagExplained(a, w, es, before.client, inbox, m)
    {
    }
  }

  /**
    QUIT removes exactly the messages marked since the last RSET if and only if nothing is marked or every
    message of the INBOX flagged before login has been marked by this session at some time.
   */
  lemma QuitRemovesExactlyMarked(a: Accounts, w: World, es: seq<Event>, inbox: int)
    requires LoggedIn(a, w.client, inbox) && w.client.marked == {} && IdsGrow(w.rows, w.lastId) && NoQuit(es)
    ensures var before, after := Run(a, w, es), Run(a, w, es + [Do(Quit)]);
      (forall m <- before.rows :: m in after.rows <==> m.id !in before.client.marked) <==>
      (before.client.marked == {} ||
       forall m <- before.rows :: m.mailbox == inbox && FlaggedBefore(w, m.id) ==> EverMarked(a, w, es, m.id))
  {
    hide EverMarked, FlaggedBefore, Run;
    QuitRemoves(a, w, es, inbox);
    FlagsExplained(a, w, es, inbox);
    var before := Run(a, w, es);
    assert forall m <- before.rows :: FlagExplained(a, w, es, before.client, inbox, m);
    assert forall m <- before.rows :: m.id in before.client.marked ==> EverMarked(a, w, es, m.id);
  }

  /** DELE of one message and QUIT also remove a message that was flagged before login and that nobody marked. */
  lemma ForeignFlagGoesToo(a: Accounts, w: World, inbox: int, foreign: Msg, uid: nat)
    requires LoggedIn(a, w.client, inbox) && w.client.marked == {} && IdsGrow(w.rows, w.lastId)
    requires foreign in w.rows && foreign.mailbox == inbox && IsDeleted(foreign)
    requires var m := FindUid(w.rows, inbox, uid); m.Some? && m.value.id != foreign.id
    ensures var before, after := Run(a, w, [Do(Dele(uid))]), Run(a, w, [Do(Dele(uid)), Do(Quit)]);
      && before.client.marked == {FindUid(w.rows, inbox, uid).value.id}
      && foreign in before.rows && foreign !in after.rows
  {
    var es := [Do(Dele(uid))];
    var m := FindUid(w.rows, inbox, uid).value;
    assert es[..0] == [] && es + [Do(Quit)] == [Do(Dele(uid)), Do(Quit)];
    var before := Run(a, w, es);
    assert Run(a, w, es[..0]) == w && es[..|es| - 1] == es[..0];
    assert before == Step(a, w, es[0]);
    var i :| 0 <= i < |w.rows| && w.rows[i] == foreign;
    assert before.rows[i] == foreign;
    forall j ensures !Marks(a, w, es, j, foreign.id) {
    }
    assert FlaggedBefore(w, foreign.id);
    QuitRemoves(a, w, es, inbox);
  }

  /** Such a mailbox: two messages, the first flagged by somebody else; the client deletes the second. */
  lemma ForeignFlagOccurs(a: Accounts, user: nat, inbox: int)
    requires user in a.inboxes && a.inboxes[user] == inbox
    ensures var first := Msg(1, inbox, 1, "", 0, FLAG_DELETED, "", "", "");
      var second := Msg(2, inbox, 2, "", 0, 0, "", "", "");
      var w := World([first, second], 2, Client(Transaction, "", user, {}, true));
      first in Run(a, w, [Do(Dele(2))]).rows && first !in Run(a, w, [Do(Dele(2)), Do(Quit)]).rows
  {
    var first := Msg(1, inbox, 1, "", 0, FLAG_DELETED, "", "", "");
    var second := Msg(2, inbox, 2, "", 0, 0, "", "", "");
    var w := World([first, second], 2, Client(Transaction, "", user, {}, true));
    assert w.rows[1..] == [second];
    ForeignFlagGoesToo(a, w, inbox, first, 2);
  }
}
