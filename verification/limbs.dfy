/**
 Fixed-width unsigned machine words as the two-limb big integer uses them:
 Rust's `u64`, its `overflowing_add`, and the `bool as u64` cast.
 A limb is an unbounded `int` constrained to the `u64` range, so every
 wrap-around is written out explicitly.
 */
module Limbs {

  /** The limb radix, 2^64. */
  const BASE: int := 0x1_0000_0000_0000_0000

  /** `u64::MAX`. */
  const MAX: int := BASE - 1

  type U64 = x: int | 0 <= x < BASE

  /** `b as u64`: `false` becomes 0 and `true` becomes 1. */
  function BoolToU64(b: bool): (r: U64)
    ensures r <= 1
    ensures r == 1 <==> b
  {
    if b then 1 else 0
  }

  /**
   `x.overflowing_add(y)`: the sum wrapped to 64 bits, paired with a flag
   that is set exactly when the mathematical sum does not fit a limb.
   Wrapped sum and flag together lose no information.
   */
  function OverflowingAdd(x: U64, y: U64): (r: (U64, bool))
    ensures r.0 == (x + y) % BASE
    ensures r.1 <==> x + y > MAX
    ensures r.0 + BoolToU64(r.1) * BASE == x + y
  {
    if x + y < BASE then (x + y, false) else (x + y - BASE, true)
  }

  /** Outcome of Rust's checked `+` on `u64` in a debug build: the sum, or a panic. */
  datatype CheckedSum = Sum(value: U64) | Panic

  /** `x + y` on `u64` in a debug build: it panics exactly when the sum passes `u64::MAX`. */
  function CheckedAdd(x: U64, y: U64): (r: CheckedSum)
    ensures r.Panic? <==> x + y > MAX
    ensures r.Sum? ==> r.value == x + y
  {
    var (sum, overflowed) := OverflowingAdd(x, y);
    if overflowed then Panic else Sum(sum)
  }
}
