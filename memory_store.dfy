/** `MemoryStore`: an in-memory key/value cache whose entries expire; the clock is a parameter. */
module MemoryCache {
  import opened Wrappers
  import opened JsValues

  /** `DEFAULT_CACHE_OPTIONS.expires`: 24 hours in milliseconds. */
  const DefaultExpires: int := 1000 * 60 * 60 * 24

  /** `CacheItem`: the stored value and the instant (ms) after which it is stale. */
  datatype CacheItem = CacheItem(data: JsValue, expires: int)

  /** `isExpired`: stale only strictly after the expiry instant. */
  predicate IsExpired(expires: int, now: int) {
    now > expires
  }

  /** What `get` answers at `now`: nothing for a missing or stale key, otherwise the stored value. */
  function Lookup(cache: map<string, CacheItem>, key: string, now: int): Option<JsValue> {
    if key !in cache then None
    else if IsExpired(cache[key].expires, now) then None
    else Some(cache[key].data)
  }

  /** The entries still live at `now`. */
  function LiveEntries(cache: map<string, CacheItem>, now: int): (r: map<string, CacheItem>)
    ensures forall k :: k in r <==> k in cache && !IsExpired(cache[k].expires, now)
    ensures forall k :: k in r ==> r[k] == cache[k]
  {
    map k | k in cache && !IsExpired(cache[k].expires, now) :: cache[k]
  }

  /** A value set with a non-negative time to live is found until it expires, and then no more. */
  lemma SetThenLookup(cache: map<string, CacheItem>, key: string, value: JsValue, setAt: int, ttl: int, now: int)
    ensures Lookup(cache[key := CacheItem(value, setAt + ttl)], key, now) ==
      if now <= setAt + ttl then Some(value) else None
  {
  }

  /** Setting one key leaves every other key's answer alone. */
  lemma SetLeavesOthers(cache: map<string, CacheItem>, key: string, item: CacheItem, other: string, now: int)
    requires other != key
    ensures Lookup(cache[key := item], other, now) == Lookup(cache, other, now)
  {
  }

  /** Dropping the stale entries changes no answer at that instant. */
  lemma LiveEntriesSameAnswers(cache: map<string, CacheItem>, key: string, now: int)
    ensures Lookup(LiveEntries(cache, now), key, now) == Lookup(cache, key, now)
  {
  }

  /** An entry live at one instant is live at every earlier one; a stale one stays stale. */
  lemma ExpiryMonotone(cache: map<string, CacheItem>, key: string, earlier: int, later: int)
    requires earlier <= later
    ensures Lookup(cache, key, later).Some? ==> Lookup(cache, key, earlier) == Lookup(cache, key, later)
    ensures key in cache && Lookup(cache, key, earlier).None? ==> Lookup(cache, key, later).None?
  {
  }

  class MemoryStore {
    var cache: map<string, CacheItem>
    const expires: int

    /** `new MemoryStore(options)`: the default time to live is the option's, or 24 hours. */
    constructor (expiresOption: Option<int>)
      ensures cache == map[] && expires == expiresOption.GetOr(DefaultExpires)
    {
      cache := map[];
      expires := expiresOption.GetOr(DefaultExpires);
    }

    /** `removeExpired`: deletes exactly the entries stale at `now`. */
    method RemoveExpired(now: int)
      modifies this
      ensures cache == LiveEntries(old(cache), now)
    {
      ghost var original := cache;
      var keys := cache.Keys;
      while keys != {}
        invariant keys <= original.Keys
        invariant forall k :: k in cache <==> k in original && (k in keys || !IsExpired(original[k].expires, now))
        invariant forall k :: k in cache ==> cache[k] == original[k]
        decreases keys
      {
        var k :| k in keys;
        if IsExpired(cache[k].expires, now) {
          cache := cache - {k};
        }
        keys := keys - {k};
      }
      assert cache == LiveEntries(original, now);
    }

    /** `get`: the live value for the key; a stale entry is deleted on the way. */
    method Get(key: string, now: int) returns (r: Option<JsValue>)
      modifies this
      ensures r == Lookup(old(cache), key, now)
      ensures cache == if key in old(cache) && IsExpired(old(cache)[key].expires, now) then old(cache) - {key} else old(cache)
    {
      if key !in cache {
        return None;
      }
      var item := cache[key];
      if IsExpired(item.expires, now) {
        cache := cache - {key};
        return None;
      }
      return Some(item.data);
    }

    /** `set`: stores the value until `now` plus the given time to live, or the store's default. */
    method Set(key: string, value: JsValue, ttl: Option<int>, now: int) returns (ok: bool)
      modifies this
      ensures ok && cache == old(cache)[key := CacheItem(value, now + ttl.GetOr(expires))]
    {
      var expiresTime := now + ttl.GetOr(expires);
      cache := cache[key := CacheItem(value, expiresTime)];
      return true;
    }

    /** `delete`: removes just that key. */
    method Delete(key: string) returns (ok: bool)
      modifies this
      ensures ok && cache == old(cache) - {key}
    {
      cache := cache - {key};
      return true;
    }

    /** `clear`: empties the table. */
    method Clear() returns (ok: bool)
      modifies this
      ensures ok && cache == map[]
    {
      cache := map[];
      return true;
    }

    /** `has`: a live entry whose value is truthy (`!!item`); falsy values report false. */
    method Has(key: string, now: int) returns (r: bool)
      modifies this
      ensures r <==> Lookup(old(cache), key, now).Some? && IsTruthy(Lookup(old(cache), key, now).value)
      ensures cache == if key in old(cache) && IsExpired(old(cache)[key].expires, now) then old(cache) - {key} else old(cache)
    {
      var item := Get(key, now);
      r := item.Some? && IsTruthy(item.value);
    }
  }
}
