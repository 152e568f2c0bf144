/** The `mailboxes` table behind its cache (pkg/storage/mailboxes.go). */
module MailboxCache {
  import opened Wrappers
  import opened TtlCache

  datatype Mailbox = Mailbox(id: nat, user: nat, name: string)

  type Key = (nat, string)

  datatype Error = AlreadyExists | NotFound

  datatype Result<T> = Ok(value: T) | Err(error: Error)

  function KeyOf(m: Mailbox): Key {
    (m.user, m.name)
  }

  /** The row a SELECT by user and name finds; UNIQUE(user_id, name) leaves at most one. */
  ghost predicate IsRow(rows: map<nat, Mailbox>, key: Key, m: Mailbox) {
    m.id in rows && rows[m.id] == m && KeyOf(m) == key
  }

  predicate HasRow(rows: map<nat, Mailbox>, key: Key) {
    exists id <- rows :: KeyOf(rows[id]) == key
  }

  /** Ids as AUTOINCREMENT gives them out, and at most one mailbox of a name per user. */
  ghost predicate ValidTable(rows: map<nat, Mailbox>, lastId: nat) {
    && (forall id <- rows :: rows[id].id == id && 1 <= id <= lastId)
    && (forall a <- rows, b <- rows :: KeyOf(rows[a]) == KeyOf(rows[b]) ==> a == b)
  }

  /** No entry, live or expired, disagrees with the table. */
  ghost predicate Coherent(rows: map<nat, Mailbox>, entries: map<Key, Entry<Mailbox>>) {
    forall key <- entries :: IsRow(rows, key, entries[key].val)
  }

  lemma CreateKeeps(rows: map<nat, Mailbox>, lastId: nat, entries: map<Key, Entry<Mailbox>>, m: Mailbox)
    requires ValidTable(rows, lastId) && Coherent(rows, entries)
    requires !HasRow(rows, KeyOf(m)) && m.id == lastId + 1
    ensures ValidTable(rows[m.id := m], lastId + 1) && Coherent(rows[m.id := m], entries - {KeyOf(m)})
  {
  }

  lemma OwnId(rows: map<nat, Mailbox>, lastId: nat, id: nat)
    requires ValidTable(rows, lastId) && id in rows
    ensures rows[id].id == id
  {
  }

  lemma DeleteKeeps(rows: map<nat, Mailbox>, lastId: nat, entries: map<Key, Entry<Mailbox>>, id: nat)
    requires ValidTable(rows, lastId) && Coherent(rows, entries) && id in rows
    ensures ValidTable(rows - {id}, lastId) && Coherent(rows - {id}, entries - {KeyOf(rows[id])})
  {
  }

  /** A looked-up row may be cached, whatever is evicted for it. */
  lemma LookupKeeps(rows: map<nat, Mailbox>, entries: map<Key, Entry<Mailbox>>, entries': map<Key, Entry<Mailbox>>,
                    key: Key, m: Mailbox)
    requires Coherent(rows, entries) && IsRow(rows, key, m)
    requires key in entries' ==> entries'[key].val == m
    requires OnlyTouches(entries, entries', key)
    ensures Coherent(rows, entries')
  {
  }

  class MailboxStore {
    var rows: map<nat, Mailbox>
    var lastId: nat
    const cache: Cache<Key, Mailbox>

    ghost predicate Valid()
      reads this, cache
    {
      cache.Valid() && ValidTable(rows, lastId) && Coherent(rows, cache.entries)
    }

    constructor ()
      ensures Valid() && rows == map[] && fresh(cache)
    {
      rows, lastId := map[], 0;
      cache := new Cache(30_000, 5000);
    }

    method CreateMailbox(user: nat, name: string) returns (r: Result<nat>)
      requires Valid()
      modifies this, cache
      ensures Valid()
      ensures var taken := exists id <- old(rows) :: old(rows)[id].user == user && old(rows)[id].name == name;
        r == if taken then Err(AlreadyExists) else Ok(old(lastId) + 1)
      ensures rows == if r.Ok? then old(rows)[r.value := Mailbox(r.value, user, name)] else old(rows)
    {
      hide ValidTable, Coherent, Cache.Valid;
      if HasRow(rows, (user, name)) {
        return Err(AlreadyExists);
      }
      CreateKeeps(rows, lastId, cache.entries, Mailbox(lastId + 1, user, name));
      lastId := lastId + 1;
      rows := rows[lastId := Mailbox(lastId, user, name)];
      cache.Delete((user, name));
      return Ok(lastId);
    }

    /** Whether or not the cache answers, the answer is the one an uncached lookup gives. */
    method GetMailbox(user: nat, name: string, now: int) returns (r: Result<Mailbox>)
      requires Valid()
      modifies cache
      ensures Valid()
      ensures r.Ok? <==> exists id <- rows :: rows[id].user == user && rows[id].name == name
      ensures r.Ok? ==>
        r.value.id in rows && rows[r.value.id] == r.value && r.value.user == user && r.value.name == name
      ensures r.Err? ==> r.error == NotFound
    {
      hide Cache.Valid, Cache.MayEvict, ValidTable, OnlyTouches;
      var key := (user, name);
      ghost var before := cache.entries;
      var hit := cache.Get(key, now);
      if hit.Some? {
        return Ok(hit.value);
      }
      if !HasRow(rows, key) {
        return Err(NotFound);
      }
      var id :| id in rows && KeyOf(rows[id]) == key;
      OwnId(rows, lastId, id);
      ghost var missed := cache.entries;
      LookupKeeps(rows, before, missed, key, rows[id]);
      cache.Set(key, rows[id], now);
      LookupKeeps(rows, missed, cache.entries, key, rows[id]);
      return Ok(rows[id]);
    }

    method DeleteMailbox(id: nat) returns (r: Result<()>)
      requires Valid()
      modifies this, cache
      ensures Valid()
      ensures r == if id in old(rows) then Ok(()) else Err(NotFound)
      ensures rows == old(rows) - {id}
    {
      hide ValidTable, Coherent, Cache.Valid;
      if id !in rows {
        assert rows - {id} == rows;
        return Err(NotFound);
      }
      var m := rows[id];
      DeleteKeeps(rows, lastId, cache.entries, id);
      rows := rows - {id};
      cache.Delete(KeyOf(m));
      return Ok(());
    }

    /** Refused without change when the user has another mailbox of that name. */
    method RenameMailbox(id: nat, newName: string) returns (r: Result<()>)
      requires Valid()
      modifies this, cache
      ensures Valid()
      ensures id !in old(rows) ==> r == Err(NotFound) && rows == old(rows)
      ensures id in old(rows) ==>
        var taken := exists other <- old(rows) ::
          other != id && old(rows)[other].user == old(rows)[id].user && old(rows)[other].name == newName;
        if taken then r == Err(AlreadyExists) && rows == old(rows)
        else r == Ok(()) && rows == old(rows)[id := old(rows)[id].(name := newName)]
    {
      if id !in rows {
        return Err(NotFound);
      }
      var m := rows[id].(name := newName);
      if exists other <- rows :: other != id && KeyOf(rows[other]) == KeyOf(m) {
        return Err(AlreadyExists);
      }
      rows := rows[id := m];
      cache.Clear();
      return Ok(());
    }
  }
}
