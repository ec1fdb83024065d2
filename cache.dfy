/**
  `RedisCacheService`: a typed cache-aside store over a distributed string
  cache.  The distributed cache is a map from key to entry (the serialized
  payload and its absolute expiry time); an entry whose expiry has passed reads
  as absent.  JSON serialization is a pair of functions supplied at
  construction, required to round-trip.
 */
module Cache {
  import opened Wrappers

  /** `TimeSpan.FromMinutes(5)`, in seconds: the default time to live. */
  const DefaultTtl: int := 300

  datatype Entry = Entry(data: string, expiry: int)

  /** What the model assumes of `JsonSerializer`: deserializing a serialized
      value gives the value back, and a serialized value is never empty. */
  ghost predicate RoundTrips<T(!new)>(encode: T -> string, decode: string -> Option<T>)
  {
    forall v :: decode(encode(v)) == Some(v) && encode(v) != ""
  }

  /** `absoluteExpirationRelativeToNow ?? TimeSpan.FromMinutes(5)`. */
  function TtlOrDefault(ttl: Option<int>): (d: int)
    ensures ttl.Some? ==> d == ttl.value
    ensures ttl.None? ==> d == DefaultTtl
  {
    if ttl.Some? then ttl.value else DefaultTtl
  }

  /** `GetAsync` at time `now`: a hit needs a stored, unexpired, non-empty
      payload, and is then whatever that payload deserializes to. */
  function Read<T>(entries: map<string, Entry>, decode: string -> Option<T>, key: string, now: int): (r: Option<T>)
    ensures r.Some? ==> key in entries && now < entries[key].expiry && entries[key].data != ""
    ensures key in entries && now < entries[key].expiry && entries[key].data != ""
            ==> r == decode(entries[key].data)
  {
    if key in entries && now < entries[key].expiry && entries[key].data != "" then
      decode(entries[key].data)
    else
      None
  }

  /** `SetAsync` at time `now`: the serialized value replaces whatever was
      stored under `key`, expiring `ttl` (by default 5 minutes) from now. */
  function Write<T>(entries: map<string, Entry>, encode: T -> string, key: string, value: T,
                    ttl: Option<int>, now: int): (m: map<string, Entry>)
    ensures m.Keys == entries.Keys + {key}
    ensures m[key] == Entry(encode(value), now + TtlOrDefault(ttl))
    ensures forall k :: k in entries && k != key ==> m[k] == entries[k]
  {
    entries[key := Entry(encode(value), now + TtlOrDefault(ttl))]
  }

  /** A read of the key just written, before the entry expires, returns the
      value written. */
  lemma ReadAfterWrite<T(!new)>(entries: map<string, Entry>, encode: T -> string, decode: string -> Option<T>,
                          key: string, value: T, ttl: Option<int>, now: int, later: int)
    requires RoundTrips(encode, decode)
    requires now <= later < now + TtlOrDefault(ttl)
    ensures Read(Write(entries, encode, key, value, ttl, now), decode, key, later) == Some(value)
  {
  }

  /** Once its time to live has passed, the entry written reads as absent. */
  lemma ReadAfterExpiry<T>(entries: map<string, Entry>, encode: T -> string, decode: string -> Option<T>,
                           key: string, value: T, ttl: Option<int>, now: int, later: int)
    requires now + TtlOrDefault(ttl) <= later
    ensures Read(Write(entries, encode, key, value, ttl, now), decode, key, later) == None
  {
  }

  /** Writing one key leaves the reads of every other key as they were. */
  lemma WriteKeepsOtherKeys<T>(entries: map<string, Entry>, encode: T -> string, decode: string -> Option<T>,
                               key: string, value: T, ttl: Option<int>, now: int, other: string, later: int)
    requires other != key
    ensures Read(Write(entries, encode, key, value, ttl, now), decode, other, later) == Read(entries, decode, other, later)
  {
  }

  /** After `RemoveAsync(key)` the key reads as absent and every other key
      reads as before. */
  lemma ReadAfterRemove<T>(entries: map<string, Entry>, decode: string -> Option<T>, key: string,
                           other: string, now: int)
    ensures Read(entries - {key}, decode, key, now) == None
    ensures other != key ==> Read(entries - {key}, decode, other, now) == Read(entries, decode, other, now)
  {
  }

  class CacheService<T(!new)> {
    /** The distributed cache behind the service. */
    var entries: map<string, Entry>
    const encode: T -> string
    const decode: string -> Option<T>

    /** A service wraps the distributed cache as it stands, entries written
        by earlier requests included. */
    constructor (cache: map<string, Entry>, encode: T -> string, decode: string -> Option<T>)
      requires RoundTrips(encode, decode)
      ensures this.encode == encode && this.decode == decode
      ensures entries == cache
    {
      this.encode := encode;
      this.decode := decode;
      entries := cache;
    }

    /** `GetAsync(key)`: a hit needs a stored, unexpired, non-empty payload. */
    function Get(key: string, now: int): (r: Option<T>)
      reads this
      ensures r.Some? ==> key in entries && now < entries[key].expiry && entries[key].data != ""
      ensures r.Some? ==> decode(entries[key].data) == r
      ensures key in entries && now < entries[key].expiry && entries[key].data != "" ==> r == decode(entries[key].data)
    {
      Read(entries, decode, key, now)
    }

    /** `SetAsync(key, value, ttl)`.  A non-positive time to live is refused
        by the distributed cache's entry options. */
    method Set(key: string, value: T, ttl: Option<int>, now: int)
      requires ttl.None? || ttl.value > 0
      modifies this
      ensures entries == Write(old(entries), encode, key, value, ttl, now)
    {
      entries := Write(entries, encode, key, value, ttl, now);
    }

    /** `RemoveAsync(key)`: evicts the key; an absent key is no error. */
    method Remove(key: string)
      modifies this
      ensures entries == old(entries) - {key}
    {
      entries := entries - {key};
    }
  }
}
