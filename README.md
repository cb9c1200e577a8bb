# go-cache: a verified model of the TTL cache

This project models the in-memory key/value cache of `cache.go` (package `go_cache`):
a table from string keys to items, each item holding the caller's value and an absolute
expiration deadline in nanoseconds (0 meaning "never expires"), plus the default
expiration fixed when the cache is created. It models construction with its default
normalisation, `Set` with its expiration resolution (the `DefaultExpiration` and
`NoExpiration` sentinels, positive durations), the conditional writes `Add` and
`Replace`, the lazy-expiry lookup `Get`, `Delete`, `Flush`, `ItemCount`, and the body of
one tick of the background sweeper as a method `DeleteExpired(now)`.

Layout:

- `wrappers.dfy` (`Wrappers`): `Option`.
- `expiration.dfy` (`Expiration`): the duration sentinels, `Item`, the expiry test
  `IsExpired`, default normalisation and deadline resolution, with lemmas on when a stored
  entry expires.
- `entries.dfy` (`Entries`): the item table as a value. `Lookup` gives the meaning of a
  lookup, `Stored` of a store, `Swept` of one sweep. Lemmas cover the set/get round trip,
  delete, the live/expired split of the count, what a sweep removes and keeps, and what a
  run of sweeper ticks amounts to.
- `cache.dfy` (`GoCache`): the `Cache` class. Its field `defaultExpiration` is fixed by
  the constructor. Its field `items` is the only state the other methods update in place
  (each declares `modifies this\`items`). Their postconditions give the new table in
  terms of the old one.

`cache.dfy` ends with client proofs. They are methods without postconditions that follow
cases of the cache's test suite. Each is proved from the method contracts alone, so they
show the contracts are strong enough for what the tests check. They model no code of
their own and have no row in the table below:

- `SeveralExpirationsScenario`: cache_test.go:81-108 (default, NoExpiration and 50ms entries, found or not found as time passes);
- `SweepCountScenario`: cache_test.go:252-269 (ItemCount counts an expired entry until a sweep removes it);
- `AddScenario`: the Add behaviour of cache.go:103-120 (absent key, live key, expired key);
- `ReplaceScenario`: the Replace behaviour of cache.go:122-139 (absent key, live key, expired key that stays stored);
- `DeleteFlushScenario`: cache_test.go:134-187 and 189-231 (Delete of an absent key, Delete, Flush, ItemCount).

Time is an explicit parameter `now` (nanoseconds), not a clock read. Writers require
`now > 0`, as `time.Now().UnixNano()` is. Durations are plain integers with the Go
values of the sentinels: `DefaultExpiration` = 0 and `NoExpiration` = -1.
`Get` returns `Option<V>`, where `None` stands for Go's `(nil, false)`. `Add` and
`Replace` return `Option<CacheError>`, where `None` is a nil error and the error carries
the key.

Where the comments and the code of `cache.go` differ, the model follows the code:

- the comment on `Get` (cache.go:159) says an expired item is deleted, but `Get` only reads;
- the comment on `Get` (cache.go:157) says a copy is returned, but the stored object
  itself is returned;
- the tests read `Get`'s second result as an error (`ErrItemNotFound`), but it is a
  boolean (cache.go:160); the model's `None` is "not found".

## Model

| member | source | states |
|---|---|---|
| `Expiration.IsExpired` | cache.go:165 | the liveness test shared by Add, Replace, Get and the sweeper (cache.go:77, :113, :132): a deadline of 0 never expires, and a positive deadline has expired exactly from that instant on |
| `Expiration.ExpiryIsMonotone` | cache.go:165 | an entry that has expired at some instant stays expired at every later instant |
| `Expiration.NormalizeDefault` | cache.go:41-44 | the stored default is never the DefaultExpiration sentinel: a positive default is kept, anything else becomes NoExpiration |
| `Expiration.ResolveExpiration` | cache.go:141-148 | the deadline `set` stores is 0 or positive, and the entry is live at the instant it is stored, whatever the duration |
| `Expiration.ExpiresExactlyAfter` | cache.go:143-148 | an entry stored at `now` has expired at `t` if and only if its resolved duration `d` is positive and `t >= now + d` |
| `Expiration.NegativeDurationNeverExpires` | cache.go:141-148 | NoExpiration and every other negative duration store deadline 0, which never expires |
| `Expiration.NonPositiveDefaultNeverExpires` | cache.go:37-44 | in a cache created with a default of 0 or less, entries stored with DefaultExpiration never expire |
| `Entries.EmptyLookup` | cache.go:160-171 | an empty table reports every key as not found |
| `Entries.StoredThenLookup` | cache.go:141-154 | after a store, a lookup of that key at the same instant returns the stored value for every duration; lookups of other keys are unchanged |
| `Entries.DeletedLookup` | cache.go:175-180 | after removing a key it is not found, other lookups are unchanged, removing an absent key changes nothing, and the count drops by one exactly when the key was present |
| `Entries.CountSplitsLiveAndExpired` | cache.go:192-199 | the stored keys split into disjoint live and expired sets, so the stored count is live plus expired |
| `Entries.SweptRemovesExactlyExpired` | cache.go:75-81 | a sweep is the table minus its expired keys; what remains is exactly the live keys, and the count drops by the number of expired entries |
| `Entries.SweptPreservesLookup` | cache.go:75-81 | every lookup at the sweep's instant or later answers the same before and after the sweep |
| `Entries.SweptTwice` | cache.go:70-83 | a sweep at `t1` followed by one at `t2 >= t1` equals a single sweep at `t2`; sweeping twice at one instant is idempotent |
| `Entries.SweptAtTicksIsLastSweep` | cache.go:70-83 | a run of sweeper ticks at non-decreasing instants leaves the same table as one sweep at the last tick, and every lookup from then on answers as without sweeping |
| `GoCache.Cache.constructor` | cache.go:41-51 | a new cache has an empty table, so `ItemCount` is 0 and every key is not found; its default is the normalised one |
| `GoCache.Cache.Set` | cache.go:96-101 | only `items[key]` changes, to the value with the resolved deadline; a `Get` at the same instant then returns the value; the default is unchanged |
| `GoCache.Cache.Add` | cache.go:108-120 | with a live entry: returns ItemAlreadyExists(key) and the table is unchanged; with an absent or expired entry: stores exactly as `Set` and returns no error |
| `GoCache.Cache.Replace` | cache.go:127-139 | with an absent or expired entry: returns ItemNotFound(key) and the table, expired entry included, is unchanged; with a live entry: stores exactly as `Set` and returns no error |
| `GoCache.Cache.Get` | cache.go:160-171 | returns nothing exactly when the key is absent or its deadline is positive and not after `now`, otherwise the stored value itself; the table is not modified |
| `GoCache.Cache.Delete` | cache.go:175-180 | removes only `key`; a no-op when `key` is absent; afterwards `key` is not found at any time |
| `GoCache.Cache.Flush` | cache.go:185-190 | the table is empty afterwards |
| `GoCache.Cache.ItemCount` | cache.go:194-199 | the number of stored entries, expired-but-unswept ones included: live plus expired at any instant |
| `GoCache.Cache.DeleteExpired` | cache.go:75-81 | removes exactly the entries expired at `now`, leaves every other entry unchanged, and never increases the count |

## Left out

- The background goroutine, its `time.Ticker`, the `stop` channel, the `sync.WaitGroup` and
  `Stop()` (cache.go:53-59, 66-74, 86-90): only the per-tick eviction body is modelled, as
  `DeleteExpired`. For that reason the constructor takes only the default expiration and not
  the cleanup interval.
- The `sync.RWMutex`: every method is treated as atomic, and Go's unlocked `set` and locked
  `Set` are the one method `Set`.
- The clock: `time.Now()` becomes the parameter `now`. One call sees one instant, so
  `Add`/`Replace` check liveness and resolve the deadline at the same `now`.
- GoCache.Cache.DeleteExpired: the Go loop reads the clock again for each entry, so an
  entry that expires during the scan may also be removed. The model uses one `now` for the
  whole scan.
- int64 arithmetic: durations and instants are unbounded integers, so a `now + duration`
  that overflows int64 is not modelled.
- The text of the errors (`fmt.Errorf` wrapping `ErrItemAlreadyExists`/`ErrItemNotFound`):
  errors are the datatype `CacheError` carrying the key.
- Aliasing of stored values (a pointer stored and mutated through a `Get` result): values
  are an opaque type parameter `V`.
