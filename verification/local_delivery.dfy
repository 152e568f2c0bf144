/** Delivery into a local INBOX (pkg/queue/worker.go, deliverLocal), over the tables SMTP sessions write to. */
module LocalDelivery {
  import opened Wrappers
  import opened BlobStore
  import opened SmtpSession

  /** (local part, domain) to destination address. */
  type Aliases = map<(string, string), string>

  /** What precedes the first '@'. */
  function BeforeAt(s: string): string {
    if s == "" || s[0] == '@' then "" else [s[0]] + BeforeAt(s[1..])
  }

  /** strings.SplitN(s, "@", 2) loses nothing but the '@' it splits at. */
  lemma {:induction false} SplitRejoins(s: string)
    requires AfterAt(s).Some?
    ensures BeforeAt(s) + "@" + AfterAt(s).value == s && '@' !in BeforeAt(s)
  {
    if s[0] == '@' {
      assert s == "@" + s[1..];
    } else {
      SplitRejoins(s[1..]);
      assert s == [s[0]] + s[1..];
    }
  }

  function Destination(aliases: Aliases, rcpt: string): string
    requires AfterAt(rcpt).Some?
  {
    var address := (BeforeAt(rcpt), AfterAt(rcpt).value);
    if address in aliases then aliases[address] else rcpt
  }

  /** The INBOX a message for `rcpt` belongs in. */
  function InboxFor(d: Directory, aliases: Aliases, rcpt: string): Option<int> {
    if AfterAt(rcpt).None? || Destination(aliases, rcpt) !in d.users then None
    else
      var user := d.users[Destination(aliases, rcpt)];
      if user in d.inboxes then Some(d.inboxes[user]) else None
  }

  lemma {:induction false} BeforeAtExactly(local: string, domain: string)
    requires '@' !in local
    ensures BeforeAt(local + "@" + domain) == local
  {
    var s := local + "@" + domain;
    if local != "" {
      assert local[0] in local && s[1..] == local[1..] + "@" + domain;
      BeforeAtExactly(local[1..], domain);
    }
  }

  /** An alias of the address says whose INBOX it is; without one it is that of the address itself. */
  lemma InboxForAddress(d: Directory, aliases: Aliases, local: string, domain: string)
    requires '@' !in local
    ensures var rcpt := local + "@" + domain;
      && ((local, domain) in aliases && aliases[(local, domain)] in d.users ==>
           var user := d.users[aliases[(local, domain)]];
           InboxFor(d, aliases, rcpt) == if user in d.inboxes then Some(d.inboxes[user]) else None)
      && ((local, domain) in aliases && aliases[(local, domain)] !in d.users ==> InboxFor(d, aliases, rcpt).None?)
      && ((local, domain) !in aliases && rcpt in d.users ==>
           var user := d.users[rcpt];
           InboxFor(d, aliases, rcpt) == if user in d.inboxes then Some(d.inboxes[user]) else None)
      && ((local, domain) !in aliases && rcpt !in d.users ==> InboxFor(d, aliases, rcpt).None?)
  {
    BeforeAtExactly(local, domain);
    AfterAtExactly(local, domain);
  }

  lemma NoInboxWithoutAt(d: Directory, aliases: Aliases, rcpt: string)
    requires '@' !in rcpt
    ensures InboxFor(d, aliases, rcpt).None?
  {
    AfterAtNeedsAt(rcpt);
  }

  class Manager {
    const backend: Backend
    const aliases: Aliases

    constructor (backend: Backend, aliases: Aliases)
      ensures this.backend == backend && this.aliases == aliases
    {
      this.backend, this.aliases := backend, aliases;
    }

    /** One message with one reference of its own, or no trace at all. */
    method DeliverLocal(raw: Content, rcpt: string, msgFrom: string, subject: string) returns (ok: bool)
      modifies backend`messages, backend.store
      ensures var inbox := InboxFor(backend.directory, aliases, rcpt);
        && ok == inbox.Some?
        && (ok ==>
             && backend.store.blobs == Upserted(old(backend.store.blobs), raw)
             && var from := if msgFrom == "" then "postmaster@local" else msgFrom;
                backend.messages == old(backend.messages) + [Message(inbox.value, Digest(raw), |raw|, from, rcpt, subject)])
      ensures !ok ==> backend.messages == old(backend.messages)
      ensures !ok && old(Sound(backend.store.blobs)) ==> backend.store.blobs == old(backend.store.blobs)
    {
      hide Upserted, Decremented, Swept;
      ghost var was := backend.store.blobs;
      var key, size := backend.store.Put(raw);
      if Sound(was) {
        DeleteUndoesPut(was, raw);
      }
      if AfterAt(rcpt).None? {
        backend.store.Delete(key);
        return false;
      }
      var localPart, domain := BeforeAt(rcpt), AfterAt(rcpt).value;
      var email := rcpt;
      if (localPart, domain) in aliases {
        email := aliases[(localPart, domain)];
      }
      if email !in backend.directory.users {
        backend.store.Delete(key);
        return false;
      }
      var user := backend.directory.users[email];
      if user !in backend.directory.inboxes {
        backend.store.Delete(key);
        return false;
      }
      var from := msgFrom;
      if from == "" {
        from := "postmaster@local";
      }
      var _ := backend.InsertMessage(Message(backend.directory.inboxes[user], key, size, from, rcpt, subject));
      return true;
    }
  }
}
