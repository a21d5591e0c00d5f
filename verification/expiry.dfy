/**
 * The ttl and expiry arithmetic of `Topic::set` and `Topic::get`:
 * ttls are whole seconds, clamped to the configured maximum and to
 * `i64::MAX`, and an absolute expiry is `now + ttl` saturated at
 * `u64::MAX` and then capped at `i64::MAX` so that SQLite can store it.
 */
module Expiry {
  import opened Types

  /** `u64::saturating_add`. */
  function SaturatingAdd(a: U64, b: U64): U64
  {
    if a + b <= U64_MAX then a + b else U64_MAX
  }

  /**
   * The ttl that `set` stores: `ttl.min(max_ttl)` when a maximum is
   * configured, then `.min(i64::MAX)`. The result is the least of the
   * candidates: below each of them and equal to one of them.
   */
  function ClampTtl(ttl: U64, maxTtl: Option<U64>): (r: U64)
    ensures r <= ttl && r <= I64_MAX
    ensures maxTtl.Some? ==> r <= maxTtl.value
    ensures r == ttl || r == I64_MAX || (maxTtl.Some? && r == maxTtl.value)
  {
    var capped := if maxTtl.Some? then Min(ttl, maxTtl.value) else ttl;
    Min(capped, I64_MAX)
  }

  /**
   * `now.saturating_add(ttl).min(i64::MAX as u64)`, used by `set` for the
   * stored expiry and by `get` for the refreshed one. Because `i64::MAX` is
   * below `u64::MAX`, the saturation never shows: the result is the plain
   * sum capped at `i64::MAX`.
   */
  function ExpiryAt(now: U64, ttl: U64): (r: U64)
    ensures r <= I64_MAX
    ensures r == Min(now + ttl, I64_MAX)
  {
    Min(SaturatingAdd(now, ttl), I64_MAX)
  }

  /** A row written at `now` is past its expiry at time `t` exactly when its clamped ttl has elapsed (or `t` is beyond what SQLite can store). */
  lemma ExpiredExactlyAfterTtl(now: U64, ttl: U64, maxTtl: Option<U64>, t: U64)
    ensures ExpiryAt(now, ClampTtl(ttl, maxTtl)) < t
        <==> now + ClampTtl(ttl, maxTtl) < t || I64_MAX < t
  {
  }

  /** A refresh computed later never yields an earlier expiry. */
  lemma ExpiryMonotonic(now1: U64, now2: U64, ttl: U64)
    requires now1 <= now2
    ensures ExpiryAt(now1, ttl) <= ExpiryAt(now2, ttl)
  {
  }
}
