/** A key-value store whose entries may expire, and the in-memory backend that holds one. */
module CacheStore {
  import opened Wrappers

  datatype Slot<V> = Slot(value: V, expires: Option<int>)
  {
    /** `expires_at.is_none_or(|e| e > now)`. */
    predicate Live(now: int) {
      expires.None? || expires.value > now
    }
  }

  function Lookup<V>(entries: map<string, Slot<V>>, key: string, now: int): Option<V> {
    if key in entries && entries[key].Live(now) then Some(entries[key].value) else None
  }

  function Expiry(now: int, ttl: Option<nat>): Option<int> {
    if ttl.Some? then Some(now + ttl.value) else None
  }

  /** The Moka-backed cache. Eviction may drop any entry at any time. */
  class InMemoryCache<V> {
    var entries: map<string, Slot<V>>

    constructor ()
      ensures entries == map[]
    {
      entries := map[];
    }

    method Get(key: string, now: int) returns (value: Option<V>)
      ensures value.Some? <==> key in entries && (entries[key].expires.Some? ==> now < entries[key].expires.value)
      ensures value.Some? ==> value.value == entries[key].value
    {
      if key in entries && entries[key].Live(now) {
        return Some(entries[key].value);
      }
      return None;
    }

    method Set(key: string, value: V, ttl: Option<nat>, now: int)
      modifies this
      ensures forall t :: Lookup(entries, key, t) == if ttl.Some? && now + ttl.value <= t then None else Some(value)
      ensures forall other, t :: other != key ==> Lookup(entries, other, t) == Lookup(old(entries), other, t)
      ensures entries == old(entries)[key := Slot(value, Expiry(now, ttl))]
    {
      entries := entries[key := Slot(value, Expiry(now, ttl))];
    }

    method Delete(key: string)
      modifies this
      ensures forall t :: Lookup(entries, key, t) == None
      ensures forall other, t :: other != key ==> Lookup(entries, other, t) == Lookup(old(entries), other, t)
      ensures entries == old(entries) - {key}
    {
      entries := entries - {key};
    }
  }
}
