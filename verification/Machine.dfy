/**
 What every part of the model shares: panics as values, the two build profiles
 (overflow panics in a debug build and wraps in a release build), and the widths
 of the target.
 */
module Machine {

  /** The result of code that may panic (a failed `assert!`, an `unwrap` of nothing, a checked overflow). */
  datatype Outcome<+T> = Done(value: T) | Panics {

    predicate IsFailure() {
      Panics?
    }

    function PropagateFailure<U>(): Outcome<U>
      requires Panics?
    {
      Panics
    }

    function Extract(): T
      requires Done?
    {
      value
    }
  }

  datatype Option<+T> = None | Some(value: T)

  datatype Profile = Debug | Release

  const U32_LIMIT: nat := 0x1_0000_0000
  const U64_LIMIT: nat := 0x1_0000_0000_0000_0000

  type Byte = x: nat | x < 256
  type Word = x: nat | x < 0x1_0000_0000

  /** `a + b` on an unsigned type with `limit` values. */
  function Add(profile: Profile, limit: nat, a: nat, b: nat): Outcome<nat>
    requires a < limit && b < limit
  {
    if a + b < limit then Done(a + b)
    else if profile.Debug? then Panics
    else Done(a + b - limit)
  }

  /** `a - b` on an unsigned type with `limit` values. */
  function Sub(profile: Profile, limit: nat, a: nat, b: nat): Outcome<nat>
    requires a < limit && b < limit
  {
    if b <= a then Done(a - b)
    else if profile.Debug? then Panics
    else Done(a - b + limit)
  }
}
