/**
 * Durations, deadlines and the liveness test of the cache (cache.go).
 * Durations and instants are nanoseconds; integers are unbounded, so the
 * int64 overflow of `now + duration` is not modelled.
 */
module Expiration {

  /** Duration sentinel: use the default expiration the cache was created with. */
  const DefaultExpiration: int := 0

  /** Duration sentinel: the entry never expires. */
  const NoExpiration: int := -1

  /**
   * A stored entry: the caller's value (Go's `object` field) and its absolute deadline.
   * A deadline of 0 means the entry never expires.
   */
  datatype Item<V> = Item(value: V, expiration: int)

  /**
   * The expiry test repeated in Add, Replace, Get and the sweeper: a deadline
   * of 0 (or below) is never reached, and a positive deadline is reached from
   * that instant on, inclusive.
   */
  predicate IsExpired(expiration: int, now: int)
    ensures expiration <= 0 ==> !IsExpired(expiration, now)
    ensures expiration > 0 ==> (IsExpired(expiration, now) <==> expiration <= now)
  {
    expiration > 0 && expiration <= now
  }

  /** Once an entry has expired it stays expired as time goes on. */
  lemma ExpiryIsMonotone(expiration: int, t1: int, t2: int)
    requires t1 <= t2 && IsExpired(expiration, t1)
    ensures IsExpired(expiration, t2)
  {
  }

  /** The default expiration a new cache stores: anything not positive means "never". */
  function NormalizeDefault(defaultExpiration: int): (d: int)
    ensures d > 0 || d == NoExpiration
    ensures d != DefaultExpiration
    ensures d > 0 <==> defaultExpiration > 0
    ensures d > 0 ==> d == defaultExpiration
  {
    if defaultExpiration <= 0 then NoExpiration else defaultExpiration
  }

  /** The duration `set` ends up using once the DefaultExpiration sentinel is resolved. */
  function EffectiveDuration(duration: int, defaultExpiration: int): (d: int)
  {
    if duration == DefaultExpiration then defaultExpiration else duration
  }

  /**
   * The deadline `set` stores for `duration` at time `now`. Whatever the
   * duration, the entry is live at the instant it is stored.
   */
  function ResolveExpiration(duration: int, defaultExpiration: int, now: int): (e: int)
    requires now > 0
    ensures e >= 0
    ensures !IsExpired(e, now)
  {
    var d := EffectiveDuration(duration, defaultExpiration);
    if d > 0 then now + d else 0
  }

  /**
   * An entry stored at `now` has expired at time `t` exactly when its
   * resolved duration is positive and at least that much time has passed.
   */
  lemma ExpiresExactlyAfter(duration: int, defaultExpiration: int, now: int, t: int)
    requires now > 0
    ensures IsExpired(ResolveExpiration(duration, defaultExpiration, now), t)
        <==> EffectiveDuration(duration, defaultExpiration) > 0
             && t >= now + EffectiveDuration(duration, defaultExpiration)
  {
  }

  /** NoExpiration, and every negative duration, gives an entry that never expires. */
  lemma NegativeDurationNeverExpires(duration: int, defaultExpiration: int, now: int, t: int)
    requires now > 0 && duration < 0
    ensures ResolveExpiration(duration, defaultExpiration, now) == 0
    ensures !IsExpired(ResolveExpiration(duration, defaultExpiration, now), t)
  {
  }

  /**
   * In a cache created with a default of 0 or less, an entry stored with
   * DefaultExpiration never expires.
   */
  lemma NonPositiveDefaultNeverExpires(defaultExpiration: int, now: int, t: int)
    requires now > 0 && defaultExpiration <= 0
    ensures !IsExpired(ResolveExpiration(DefaultExpiration, NormalizeDefault(defaultExpiration), now), t)
  {
  }
}
