/** The TTL cache (pkg/cache/cache.go). Times are in milliseconds; a TTL of zero means entries never expire. */
module TtlCache {
  import opened Wrappers

  datatype Entry<V> = Entry(val: V, expiresAt: int)

  /** No key but `key` is new or has another entry. */
  ghost predicate OnlyTouches<K, V>(from: map<K, Entry<V>>, to: map<K, Entry<V>>, key: K) {
    forall k <- to :: k != key ==> k in from && to[k] == from[k]
  }

  class Cache<K(==), V> {
    const ttl: nat
    const maxSize: int
    var entries: map<K, Entry<V>>
    /** What was last set for a key, and when, unless it was deleted since. */
    ghost var lastSet: map<K, (V, int)>

    ghost predicate Valid()
      reads this
    {
      && (maxSize > 0 ==> |entries| <= maxSize)
      && forall k <- entries ::
           k in lastSet && entries[k] == Entry(lastSet[k].0, if ttl > 0 then lastSet[k].1 + ttl else 0)
    }

    constructor (ttl: nat, maxSize: int)
      ensures Valid() && this.ttl == ttl && this.maxSize == maxSize && entries == map[] && lastSet == map[]
    {
      this.ttl, this.maxSize := ttl, maxSize;
      entries, lastSet := map[], map[];
    }

    /** Only the last value set, and only within its TTL; an expired entry is dropped on the way. */
    method Get(key: K, now: int) returns (found: Option<V>)
      requires Valid()
      modifies `entries
      ensures Valid()
      ensures found.Some? ==>
        key in lastSet && found.value == lastSet[key].0 && (ttl > 0 ==> now <= lastSet[key].1 + ttl)
      ensures found.Some? <==> key in old(entries) && (ttl == 0 || now <= old(entries)[key].expiresAt)
      ensures found.Some? ==> found.value == old(entries)[key].val && entries == old(entries)
      ensures found.None? ==> entries == old(entries) - {key}
      ensures OnlyTouches(old(entries), entries, key)
    {
      if key !in entries {
        assert entries - {key} == entries;
        return None;
      }
      if ttl > 0 && now > entries[key].expiresAt {
        Shrinks(entries, key);
        entries := entries - {key};
        return None;
      }
      return Some(entries[key].val);
    }

    /** A full cache gives up one entry first, a live one only if none has expired. */
    ghost predicate MayEvict(from: map<K, Entry<V>>, victim: K, now: int) {
      && victim in from
      && (|| (ttl > 0 && now > from[victim].expiresAt)
          || forall k <- from :: ttl == 0 || now <= from[k].expiresAt)
    }

    method Set(key: K, val: V, now: int)
      requires Valid()
      modifies this
      ensures Valid()
      ensures lastSet == old(lastSet)[key := (val, now)]
      ensures key in entries && entries[key] == Entry(val, if ttl > 0 then now + ttl else 0)
      ensures OnlyTouches(old(entries), entries, key)
      ensures maxSize <= 0 || |old(entries)| < maxSize ==> entries == old(entries)[key := entries[key]]
      ensures maxSize > 0 && |old(entries)| >= maxSize ==> exists victim ::
        && victim in old(entries)
        && (|| (ttl > 0 && now > old(entries)[victim].expiresAt)
            || forall k <- old(entries) :: ttl == 0 || now <= old(entries)[k].expiresAt)
        && entries == (old(entries) - {victim})[key := entries[key]]
    {
      if maxSize > 0 && |entries| >= maxSize {
        var victim := EvictOne(now);
        assert MayEvict(old(entries), victim, now);
      }
      entries := entries[key := Entry(val, if ttl > 0 then now + ttl else 0)];
      lastSet := lastSet[key := (val, now)];
    }

    method EvictOne(now: int) returns (victim: K)
      requires Valid() && maxSize > 0 && |entries| >= maxSize
      modifies `entries
      ensures MayEvict(old(entries), victim, now)
      ensures entries == old(entries) - {victim} && |entries| == |old(entries)| - 1
    {
      if k :| k in entries && ttl > 0 && now > entries[k].expiresAt {
        victim := k;
      } else {
        assert entries.Keys != {};
        var any :| any in entries.Keys;
        victim := any;
      }
      Shrinks(entries, victim);
      entries := entries - {victim};
    }

    method Delete(key: K)
      requires Valid()
      modifies this
      ensures Valid() && entries == old(entries) - {key} && lastSet == old(lastSet) - {key}
      ensures OnlyTouches(old(entries), entries, key)
    {
      if key in entries {
        Shrinks(entries, key);
      } else {
        assert entries - {key} == entries;
      }
      entries := entries - {key};
      lastSet := lastSet - {key};
    }

    method Clear()
      requires Valid()
      modifies this
      ensures Valid() && entries == map[] && lastSet == map[]
    {
      entries, lastSet := map[], map[];
    }
  }

  lemma Shrinks<K, V>(m: map<K, V>, k: K)
    requires k in m
    ensures |m - {k}| == |m| - 1
  {
  }
}
