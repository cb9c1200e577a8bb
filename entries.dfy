/**
 * The cache's item table as a value: the meaning of a lookup, of a store
 * and of one sweep over the table at a given instant.
 */
module Entries {
  import opened Wrappers
  import opened Expiration

  type Items<V> = map<string, Item<V>>

  /** `key` has an entry that has not expired at `now`. */
  predicate IsLive<V>(items: Items<V>, key: string, now: int)
  {
    key in items && !IsExpired(items[key].expiration, now)
  }

  /** What a lookup of `key` at `now` reports: the stored value of a live entry, otherwise nothing. */
  function Lookup<V>(items: Items<V>, key: string, now: int): (r: Option<V>)
  {
    if IsLive(items, key, now) then Some(items[key].value) else None
  }

  /** The table after `set(key, value, duration)` at `now`. */
  function Stored<V>(items: Items<V>, key: string, value: V, duration: int,
                     defaultExpiration: int, now: int): (stored: Items<V>)
    requires now > 0
  {
    items[key := Item(value, ResolveExpiration(duration, defaultExpiration, now))]
  }

  /** Keys whose entries have expired at `now`. */
  function ExpiredKeys<V>(items: Items<V>, now: int): (keys: set<string>)
  {
    set k | k in items && IsExpired(items[k].expiration, now)
  }

  /** Keys whose entries are live at `now`. */
  function LiveKeys<V>(items: Items<V>, now: int): (keys: set<string>)
  {
    set k | k in items && !IsExpired(items[k].expiration, now)
  }

  /** The table after one sweep at `now`: the entries that have not expired. */
  function Swept<V>(items: Items<V>, now: int): (swept: Items<V>)
  {
    map k | k in items && !IsExpired(items[k].expiration, now) :: items[k]
  }

  /** A cache that has never stored anything reports every key as not found. */
  lemma EmptyLookup<V>(items: Items<V>, key: string, now: int)
    requires items == map[]
    ensures Lookup(items, key, now) == None
  {
  }

  /**
   * Set followed by Get at the same instant returns the value just stored,
   * whatever the duration, and lookups of other keys are not affected.
   */
  lemma StoredThenLookup<V>(items: Items<V>, key: string, value: V, duration: int,
                            defaultExpiration: int, now: int, other: string)
    requires now > 0
    ensures Lookup(Stored(items, key, value, duration, defaultExpiration, now), key, now) == Some(value)
    ensures other != key ==>
      Lookup(Stored(items, key, value, duration, defaultExpiration, now), other, now) == Lookup(items, other, now)
  {
  }

  /** After Delete, the key is not found and every other lookup is as before; the count drops only if the key was there. */
  lemma DeletedLookup<V>(items: Items<V>, key: string, now: int, other: string)
    ensures Lookup(items - {key}, key, now) == None
    ensures other != key ==> Lookup(items - {key}, other, now) == Lookup(items, other, now)
    ensures key !in items ==> items - {key} == items
    ensures |items - {key}| == if key in items then |items| - 1 else |items|
  {
  }

  /** Every key of the table is either live or expired at `now`, so the stored count is their sum. */
  lemma CountSplitsLiveAndExpired<V>(items: Items<V>, now: int)
    ensures LiveKeys(items, now) !! ExpiredKeys(items, now)
    ensures LiveKeys(items, now) + ExpiredKeys(items, now) == items.Keys
    ensures |items| == |LiveKeys(items, now)| + |ExpiredKeys(items, now)|
  {
  }

  /** A sweep removes exactly the expired entries and nothing else. */
  lemma SweptRemovesExactlyExpired<V>(items: Items<V>, now: int)
    ensures Swept(items, now) == items - ExpiredKeys(items, now)
    ensures Swept(items, now).Keys == LiveKeys(items, now)
    ensures |Swept(items, now)| == |items| - |ExpiredKeys(items, now)|
  {
  }

  /** Lookups at the sweep's instant or later give the same answer before and after the sweep. */
  lemma {:induction false} SweptPreservesLookup<V>(items: Items<V>, now: int, t: int, key: string)
    requires now <= t
    ensures Lookup(Swept(items, now), key, t) == Lookup(items, key, t)
  {
    if key in items && IsExpired(items[key].expiration, now) {
      ExpiryIsMonotone(items[key].expiration, now, t);
    }
  }

  /** A later sweep subsumes an earlier one; in particular sweeping twice at one instant is sweeping once. */
  lemma {:induction false} SweptTwice<V>(items: Items<V>, t1: int, t2: int)
    requires t1 <= t2
    ensures Swept(Swept(items, t1), t2) == Swept(items, t2)
  {
    forall k | k in items && IsExpired(items[k].expiration, t1)
      ensures IsExpired(items[k].expiration, t2)
    {
      ExpiryIsMonotone(items[k].expiration, t1, t2);
    }
  }

  /** The table after the sweeper has ticked at each instant of `ticks`, in order. */
  function SweptAtTicks<V>(items: Items<V>, ticks: seq<int>): (swept: Items<V>)
  {
    if ticks == [] then items else SweptAtTicks(Swept(items, ticks[0]), ticks[1..])
  }

  /**
   * A run of sweeper ticks at non-decreasing instants leaves the same table
   * as a single sweep at the last tick, so every lookup from then on answers
   * as it would have without any sweeping.
   */
  lemma {:induction false} SweptAtTicksIsLastSweep<V>(items: Items<V>, ticks: seq<int>, t: int, key: string)
    requires |ticks| > 0
    requires forall i, j :: 0 <= i <= j < |ticks| ==> ticks[i] <= ticks[j]
    requires ticks[|ticks| - 1] <= t
    ensures SweptAtTicks(items, ticks) == Swept(items, ticks[|ticks| - 1])
    ensures Lookup(SweptAtTicks(items, ticks), key, t) == Lookup(items, key, t)
  {
    var last := ticks[|ticks| - 1];
    if |ticks| > 1 {
      SweptAtTicksIsLastSweep(Swept(items, ticks[0]), ticks[1..], t, key);
      SweptTwice(items, ticks[0], last);
    }
    SweptPreservesLookup(items, last, t, key);
  }
}
