/**
 * The Cache object of cache.go: a table of items updated in place plus the
 * default expiration fixed at construction. Every operation is atomic (the
 * read/write lock is not modelled) and receives the current time `now` in
 * nanoseconds instead of reading the clock.
 */
module GoCache {
  import opened Wrappers
  import opened Expiration
  import opened Entries

  /** The errors Add and Replace return, each carrying the offending key. */
  datatype CacheError = ItemAlreadyExists(key: string) | ItemNotFound(key: string)

  class Cache<V> {
    var items: Items<V>
    var defaultExpiration: int

    /** NewCache: an empty table and a normalised default expiration. */
    constructor (defaultExpiration: int)
      ensures items == map[]
      ensures this.defaultExpiration == NormalizeDefault(defaultExpiration)
      ensures forall key, t :: Lookup(items, key, t) == None
    {
      items := map[];
      this.defaultExpiration := if defaultExpiration <= 0 then NoExpiration else defaultExpiration;
    }

    /** Set: store `value` under `key`, replacing any entry, with the deadline `duration` resolves to. */
    method Set(key: string, value: V, duration: int, now: int)
      requires now > 0
      modifies this`items
      ensures items == old(items)[key := Item(value, ResolveExpiration(duration, defaultExpiration, now))]
      ensures items == Stored(old(items), key, value, duration, defaultExpiration, now)
      ensures Lookup(items, key, now) == Some(value)
    {
      var d := duration;
      if d == DefaultExpiration {
        d := defaultExpiration;
      }
      var expiration := 0;
      if d > 0 {
        expiration := now + d;
      }
      items := items[key := Item(value, expiration)];
    }

    /**
     * Add: store only when `key` has no live entry. A live entry is left as
     * it is and ItemAlreadyExists is returned; an absent or expired entry is
     * overwritten as Set would.
     */
    method Add(key: string, value: V, duration: int, now: int) returns (err: Option<CacheError>)
      requires now > 0
      modifies this`items
      ensures err == (if IsLive(old(items), key, now) then Some(ItemAlreadyExists(key)) else None)
      ensures items == if IsLive(old(items), key, now) then old(items)
                       else Stored(old(items), key, value, duration, defaultExpiration, now)
      ensures Lookup(items, key, now) == if IsLive(old(items), key, now) then Lookup(old(items), key, now)
                                         else Some(value)
    {
      var found := key in items;
      var expiration := if found then items[key].expiration else 0;
      if found && !IsExpired(expiration, now) {
        return Some(ItemAlreadyExists(key));
      }
      Set(key, value, duration, now);
      return None;
    }

    /**
     * Replace: store only when `key` has a live entry. An absent or expired
     * entry gives ItemNotFound and the table, expired entry included, is
     * left as it is.
     */
    method Replace(key: string, value: V, duration: int, now: int) returns (err: Option<CacheError>)
      requires now > 0
      modifies this`items
      ensures err == (if IsLive(old(items), key, now) then None else Some(ItemNotFound(key)))
      ensures items == if IsLive(old(items), key, now)
                       then Stored(old(items), key, value, duration, defaultExpiration, now)
                       else old(items)
      ensures Lookup(items, key, now) == if IsLive(old(items), key, now) then Some(value) else None
    {
      var found := key in items;
      var expiration := if found then items[key].expiration else 0;
      if !found || IsExpired(expiration, now) {
        return Some(ItemNotFound(key));
      }
      Set(key, value, duration, now);
      return None;
    }

    /**
     * Get: the stored value of a live entry, or None (Go's `nil, false`)
     * when the key is absent or its entry has expired. Nothing is removed.
     */
    method Get(key: string, now: int) returns (r: Option<V>)
      ensures r.Some? <==> key in items && !IsExpired(items[key].expiration, now)
      ensures r.Some? ==> r.value == items[key].value
      ensures r == Lookup(items, key, now)
    {
      var found := key in items;
      var expiration := if found then items[key].expiration else 0;
      if !found || IsExpired(expiration, now) {
        return None;
      }
      return Some(items[key].value);
    }

    /** Delete: remove `key`; nothing happens when it is absent. */
    method Delete(key: string)
      modifies this`items
      ensures items == old(items) - {key}
      ensures key !in old(items) ==> items == old(items)
      ensures forall t :: Lookup(items, key, t) == None
    {
      items := items - {key};
    }

    /** Flush: remove every entry, live or expired. */
    method Flush()
      modifies this`items
      ensures items == map[]
    {
      items := map[];
    }

    /** ItemCount: the number of stored entries, expired-but-unswept ones included. */
    method ItemCount() returns (n: nat)
      ensures n == |items|
      ensures forall now :: n == |LiveKeys(items, now)| + |ExpiredKeys(items, now)|
    {
      n := |items|;
      forall now ensures n == |LiveKeys(items, now)| + |ExpiredKeys(items, now)| {
        CountSplitsLiveAndExpired(items, now);
      }
    }

    /**
     * One tick of the sweeper: scan every key and delete the entries that
     * have expired at `now`; every other entry stays as it is.
     */
    method DeleteExpired(now: int)
      modifies this`items
      ensures forall k :: k in items <==> k in old(items) && !IsExpired(old(items)[k].expiration, now)
      ensures forall k :: k in items ==> items[k] == old(items)[k]
      ensures items == Swept(old(items), now)
      ensures |items| <= |old(items)|
    {
      var keys := items.Keys;
      while keys != {}
        invariant keys <= old(items).Keys
        invariant forall k :: k in items <==>
          k in old(items) && (k in keys || !IsExpired(old(items)[k].expiration, now))
        invariant forall k :: k in items ==> items[k] == old(items)[k]
        decreases keys
      {
        var key :| key in keys;
        if IsExpired(items[key].expiration, now) {
          items := items - {key};
        }
        keys := keys - {key};
      }
      assert items == Swept(old(items), now);
      SweptRemovesExactlyExpired(old(items), now);
    }
  }

  /*
   * Client scenarios following the cache's test suite, proved from the
   * contracts above alone. Times are nanoseconds; a millisecond is 1_000_000.
   */

  const Millisecond: int := 1_000_000

  /** Entries stored with the default, with NoExpiration and with 50ms are found or not found as time passes. */
  method SeveralExpirationsScenario<V>(a: V, b: V, c: V, start: int)
    requires start > 0
  {
    var tc := new Cache<V>(20 * Millisecond);
    tc.Set("aKey", a, DefaultExpiration, start);
    tc.Set("bKey", b, NoExpiration, start);
    tc.Set("cKey", c, 50 * Millisecond, start);

    var t := start + 25 * Millisecond;
    var ga := tc.Get("aKey", t);
    var gb := tc.Get("bKey", t);
    var gc := tc.Get("cKey", t);
    assert ga == None && gb == Some(b) && gc == Some(c);

    t := t + 30 * Millisecond;
    gb := tc.Get("bKey", t);
    gc := tc.Get("cKey", t);
    assert gb == Some(b) && gc == None;
  }

  /** ItemCount keeps counting expired entries until a sweep removes them. */
  method SweepCountScenario<V>(a: V, b: V, c: V, start: int)
    requires start > 0
  {
    var tc := new Cache<V>(20 * Millisecond);
    tc.Set("aKey", a, DefaultExpiration, start);
    tc.Set("bKey", b, NoExpiration, start);
    tc.Set("cKey", c, 50 * Millisecond, start);
    var n := tc.ItemCount();
    assert n == 3;

    var t := start + 25 * Millisecond;
    n := tc.ItemCount();
    assert n == 3;  // the expired "aKey" is still stored
    tc.DeleteExpired(t);
    assert tc.items.Keys == {"bKey", "cKey"};
    n := tc.ItemCount();
    assert n == 2;
  }

  /** Add on an absent key succeeds, on a live key fails and keeps the value, on an expired key succeeds. */
  method AddScenario<V>(v1: V, v2: V, start: int)
    requires start > 0
  {
    var tc := new Cache<V>(20 * Millisecond);
    var err := tc.Add("k", v1, DefaultExpiration, start);
    assert err == None;
    err := tc.Add("k", v2, DefaultExpiration, start);
    assert err == Some(ItemAlreadyExists("k"));
    var g := tc.Get("k", start);
    assert g == Some(v1);

    var later := start + 25 * Millisecond;
    err := tc.Add("k", v2, DefaultExpiration, later);
    assert err == None;
    g := tc.Get("k", later);
    assert g == Some(v2);
  }

  /** Replace fails on an absent key, succeeds on a live one and fails once it has expired. */
  method ReplaceScenario<V>(v1: V, v2: V, start: int)
    requires start > 0
  {
    var tc := new Cache<V>(20 * Millisecond);
    var err := tc.Replace("k", v1, DefaultExpiration, start);
    assert err == Some(ItemNotFound("k"));
    tc.Set("k", v1, DefaultExpiration, start);
    err := tc.Replace("k", v2, DefaultExpiration, start);
    assert err == None;
    var g := tc.Get("k", start);
    assert g == Some(v2);

    var later := start + 25 * Millisecond;
    err := tc.Replace("k", v1, DefaultExpiration, later);
    assert err == Some(ItemNotFound("k"));
    var n := tc.ItemCount();
    assert n == 1;  // the failed Replace leaves the expired entry in place
  }

  /** Delete of an absent key is a no-op; Delete and Flush make keys not found and empty the count. */
  method DeleteFlushScenario<V>(a: V, b: V, now: int)
    requires now > 0
  {
    var tc := new Cache<V>(NoExpiration);
    tc.Delete("notExistingKey");
    tc.Set("aKey", a, DefaultExpiration, now);
    tc.Set("bKey", b, DefaultExpiration, now);
    var n := tc.ItemCount();
    assert n == 2;
    tc.Delete("aKey");
    var g := tc.Get("aKey", now);
    assert g == None;
    n := tc.ItemCount();
    assert n == 1;
    tc.Flush();
    g := tc.Get("bKey", now);
    assert g == None;
    n := tc.ItemCount();
    assert n == 0;
  }
}
