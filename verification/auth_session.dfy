/** Login sessions behind a 60 second cache (pkg/auth/session.go). Times are in milliseconds. */
module AuthSession {
  import opened Wrappers
  import opened TtlCache

  datatype Login = Login(user: nat, expiresAt: int)

  function Unix(now: int): int {
    now / 1000
  }

  lemma UnixSteps(a: int, b: int)
    ensures a <= b ==> Unix(a) <= Unix(b)
    ensures Unix(a + 60_000) == Unix(a) + 60
  {
  }

  /** The table holds issued, unrevoked sessions. */
  ghost predicate TableOk(sessions: map<string, Login>, issued: map<string, Login>, revoked: set<string>) {
    forall t <- sessions :: t in issued && issued[t] == sessions[t] && t !in revoked
  }

  /** So does the cache, each for at most 60 seconds past its expiry. */
  ghost predicate EntryOk(t: string, e: Entry<nat>, issued: map<string, Login>, revoked: set<string>) {
    && t in issued && e.val == issued[t].user && t !in revoked
    && Unix(e.expiresAt) <= issued[t].expiresAt + 60
  }

  ghost predicate CacheOk(entries: map<string, Entry<nat>>, issued: map<string, Login>, revoked: set<string>) {
    forall t <- entries :: EntryOk(t, entries[t], issued, revoked)
  }

  lemma TableRow(sessions: map<string, Login>, token: string, issued: map<string, Login>, revoked: set<string>)
    requires TableOk(sessions, issued, revoked)
    ensures token in sessions ==> token in issued && issued[token] == sessions[token] && token !in revoked
  {
  }

  lemma TableWithout(sessions: map<string, Login>, token: string, issued: map<string, Login>, revoked: set<string>)
    requires TableOk(sessions, issued, revoked)
    ensures TableOk(sessions - {token}, issued, revoked)
  {
  }

  lemma CachedToken(entries: map<string, Entry<nat>>, token: string, issued: map<string, Login>, revoked: set<string>)
    requires CacheOk(entries, issued, revoked)
    ensures token in entries ==> EntryOk(token, entries[token], issued, revoked)
  {
  }

  lemma Cached(entries: map<string, Entry<nat>>, entries': map<string, Entry<nat>>, token: string,
               issued: map<string, Login>, revoked: set<string>)
    requires CacheOk(entries, issued, revoked)
    requires token in entries' ==> EntryOk(token, entries'[token], issued, revoked)
    requires OnlyTouches(entries, entries', token)
    ensures CacheOk(entries', issued, revoked)
  {
  }

  class SessionStore {
    var sessions: map<string, Login>
    const cache: Cache<string, nat>
    /** Every session ever created, and the tokens revoked since. */
    ghost var issued: map<string, Login>
    ghost var revoked: set<string>

    ghost predicate Valid()
      reads this, cache
    {
      && cache.Valid() && cache.ttl == 60_000
      && TableOk(sessions, issued, revoked)
      && CacheOk(cache.entries, issued, revoked)
      && revoked <= issued.Keys
    }

    constructor ()
      ensures Valid() && sessions == map[] && issued == map[] && revoked == {} && fresh(cache)
    {
      sessions, issued, revoked := map[], map[], {};
      cache := new Cache(60_000, 10_000);
    }

    /** The token is random; that it never came up before is left to its 256 bits. */
    method CreateSession(token: string, user: nat, expiry: int, now: int)
      requires Valid() && token !in issued
      modifies this
      ensures Valid()
      ensures issued == old(issued)[token := Login(user, (now + expiry) / 1000)] && revoked == old(revoked)
      ensures sessions == old(sessions)[token := issued[token]]
    {
      sessions := sessions[token := Login(user, Unix(now + expiry))];
      issued := issued[token := Login(user, Unix(now + expiry))];
    }

    /**
      Accepts only tokens that were issued, for the user they were issued to, not revoked, and at most
      60 seconds past their expiry; accepts every session in the table that has not expired.
     */
    method ValidateSession(token: string, now: int) returns (user: Option<nat>)
      requires Valid()
      modifies this, cache
      ensures Valid() && issued == old(issued) && revoked == old(revoked)
      ensures user.Some? ==>
        && token in issued && token !in revoked && user.value == issued[token].user
        && now / 1000 <= issued[token].expiresAt + 60
      ensures token in old(sessions) && now / 1000 <= old(sessions)[token].expiresAt ==>
        user == Some(old(sessions)[token].user)
      ensures sessions == old(sessions) || (sessions == old(sessions) - {token} && user.None?)
    {
      hide Cache.Valid, Cache.MayEvict, OnlyTouches, CacheOk, TableOk;
      ghost var before := cache.entries;
      if token in before {
        UnixSteps(now, before[token].expiresAt);
      }
      CachedToken(before, token, issued, revoked);
      var hit := cache.Get(token, now);
      Cached(before, cache.entries, token, issued, revoked);
      if hit.Some? {
        TableRow(sessions, token, issued, revoked);
        return hit;
      }
      user := LookUp(token, now);
    }

    /** The part of ValidateSession behind the cache: accepts exactly the unexpired sessions of the table. */
    method LookUp(token: string, now: int) returns (user: Option<nat>)
      requires Valid()
      modifies this, cache
      ensures Valid() && issued == old(issued) && revoked == old(revoked)
      ensures user.Some? <==> token in old(sessions) && now / 1000 <= old(sessions)[token].expiresAt
      ensures user.Some? ==>
        && user.value == old(sessions)[token].user && sessions == old(sessions)
        && token in issued && token !in revoked && issued[token] == old(sessions)[token]
      ensures user.None? ==> sessions == old(sessions) - {token}
    {
      hide Cache.Valid, Cache.MayEvict, OnlyTouches, CacheOk, TableOk;
      ghost var before := cache.entries;
      TableRow(sessions, token, issued, revoked);
      TableWithout(sessions, token, issued, revoked);
      if token !in sessions {
        assert sessions - {token} == sessions;
        return None;
      }
      var s := sessions[token];
      if Unix(now) > s.expiresAt {
        cache.Delete(token);
        Cached(before, cache.entries, token, issued, revoked);
        sessions := sessions - {token};
        return None;
      }
      UnixSteps(now, now);
      cache.Set(token, s.user, now);
      Cached(before, cache.entries, token, issued, revoked);
      return Some(s.user);
    }

    method RevokeSession(token: string)
      requires Valid()
      modifies this, cache
      ensures Valid() && issued == old(issued) && sessions == old(sessions) - {token}
      ensures revoked == old(revoked) + if token in issued then {token} else {}
    {
      cache.Delete(token);
      sessions := sessions - {token};
      revoked := revoked + if token in issued then {token} else {};
    }
  }
}
