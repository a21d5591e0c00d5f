/** Value types shared by the whole model of the time-expiring SQLite cache. */
module Types {

  /** Largest value of a Rust `u64`. */
  const U64_MAX: int := 0xffff_ffff_ffff_ffff

  /** Largest value of a Rust `i64` (and of an SQLite INTEGER). */
  const I64_MAX: int := 0x7fff_ffff_ffff_ffff

  /** A Rust `u64`: seconds since the epoch, ttls in whole seconds. */
  type U64 = x: int | 0 <= x <= 0xffff_ffff_ffff_ffff

  type byte = x: int | 0 <= x < 256

  datatype Option<+T> = None | Some(value: T)

  /** A result whose failure is an opaque storage error (`rusqlite::Error`). */
  datatype Result<+T> = Ok(value: T) | Err

  /** `Result<(), rusqlite::Error>`. */
  datatype Outcome = Pass | Fail

  function Min(a: int, b: int): int
  {
    if a <= b then a else b
  }
}
