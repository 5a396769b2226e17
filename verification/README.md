# Two prototype big-integer types, modelled in Dafny

This project models the two big-integer prototypes of the `arbitrary-precision-integer` crate:

- `BigInt` (`bigint.rs`): a fixed two-limb unsigned integer with `u64` fields `high` and `low`, denoting `high * 2^64 + low`. It is built from a `u64`. Its addition adds the low limbs with `overflowing_add` and then adds the carry bit into the checked sum of the high limbs.
- `APInt` (`apint.rs`): a wrapper around the one-variant enum `APIntValue::Scalar(i128)`, built from an `i32` by widening.

Files:

- `limbs.dfy` (module `Limbs`): the `u64` limb as an `int` below 2^64, Rust's `overflowing_add`, and the `bool as u64` cast.
- `bigint.dfy` (module `BigInts`): the two-limb datatype, its denoted value, `From<u64>`, `Add`, and the lemmas about addition. The source's unit tests appear as concrete lemmas.
- `apint.dfy` (module `APInts`): `APIntValue`, `APInt` and `From<i32>`. The `i32 -> i128` widening is written as two's-complement sign extension of the 32-bit pattern. It is then proved to keep the integer value.

The high-limb sum `self.high + other.high + has_overflowed as u64` uses Rust's checked `+`. In a debug build it panics when the sum passes `u64::MAX`. That panic is the only error condition of the code, and the model states it as the precondition `NoHighOverflow` of `BigInts.Add`. `BigInts.NoHighOverflowIff` shows that this precondition holds exactly when the exact sum is below 2^128.

Neither file has a growable limb sequence, a sign, a canonical zero or subtraction. This model follows the code: exactly two unsigned limbs, and addition that panics instead of growing.

## Model

| member | source | states |
|---|---|---|
| Limbs.BoolToU64 | rust/arbitrary-precision-integer/src/bigint.rs:23 | `has_overflowed as u64` is 1 exactly when the flag is set, else 0 |
| Limbs.OverflowingAdd | rust/arbitrary-precision-integer/src/bigint.rs:22 | the wrapped sum is `(x + y) mod 2^64`; the flag is set exactly when `x + y > u64::MAX`; sum and flag together recover the exact sum |
| Limbs.CheckedAdd | rust/arbitrary-precision-integer/src/bigint.rs:23 | the debug-build `+` on `u64` panics exactly when the sum passes `u64::MAX`, and otherwise returns the exact sum |
| BigInts.Value | rust/arbitrary-precision-integer/src/bigint.rs:4-7 | a two-limb value denotes an integer below 2^128 |
| BigInts.ValueInjective | rust/arbitrary-precision-integer/src/bigint.rs:3-7 | two values are structurally equal (derived `PartialEq`) exactly when they denote the same integer |
| BigInts.FromU64 | rust/arbitrary-precision-integer/src/bigint.rs:9-16 | converting a `u64` leaves the high limb zero and denotes the input |
| BigInts.LowCarry | rust/arbitrary-precision-integer/src/bigint.rs:22-23 | the carry is 1 exactly when `a.low + b.low >= 2^64`, else 0 |
| BigInts.NoHighOverflow | rust/arbitrary-precision-integer/src/bigint.rs:23 | the high-limb sum plus the low carry fits a `u64`, i.e. neither checked `+` of the debug build panics |
| BigInts.Add | rust/arbitrary-precision-integer/src/bigint.rs:21-28 | when the high sum does not panic, the sum denotes the exact integer sum of the operands |
| BigInts.AddLimbs | rust/arbitrary-precision-integer/src/bigint.rs:22-26 | the result's low limb is `(a.low + b.low) mod 2^64`; its high limb is `a.high + b.high` plus 1 exactly when the low limbs overflowed |
| BigInts.NoHighOverflowIff | rust/arbitrary-precision-integer/src/bigint.rs:23 | the high-limb sum panics exactly when the exact sum of the operands is 2^128 or more |
| BigInts.AddMatchesReference | rust/arbitrary-precision-integer/src/bigint.rs:21-28 | the sum equals the limb decoding (`n / 2^64`, `n mod 2^64`) of the exact integer sum |
| BigInts.AddCommutative | rust/arbitrary-precision-integer/src/bigint.rs:22-23 | `a + b` is defined exactly when `b + a` is, and then they are equal |
| BigInts.AddAssociative | rust/arbitrary-precision-integer/src/bigint.rs:21-28 | when the total is below 2^128, both groupings are defined and equal |
| BigInts.AddZeroIdentity | rust/arbitrary-precision-integer/src/bigint.rs:9-28 | adding `from(0)` never panics and returns the other operand |
| BigInts.AddWithinLowLimb | rust/arbitrary-precision-integer/src/bigint.rs:21-28 | two values with zero high limbs whose low limbs sum to at most `u64::MAX` add to `from(sum)`, with the high limb still zero |
| BigInts.AddFromU64 | rust/arbitrary-precision-integer/src/bigint.rs:9-28 | adding two `u64` conversions never panics, gives the exact sum, and sets the high limb to 1 exactly when the sum passes `u64::MAX` |
| BigInts.MaxPlusOnePanics | rust/arbitrary-precision-integer/src/bigint.rs:23 | `{MAX, MAX} + from(1)` is the overflowing case the precondition excludes |
| BigInts.KeepResultInLowPart | rust/arbitrary-precision-integer/src/bigint.rs:35-52 | `{0, MAX-1} + {0, 1} = {0, MAX}` |
| BigInts.CarryOutToHigh | rust/arbitrary-precision-integer/src/bigint.rs:54-71 | `{0, MAX} + {0, 1} = {1, 0}` |
| BigInts.CarryingOutIsCommutative | rust/arbitrary-precision-integer/src/bigint.rs:73-85 | `{0, MAX} + {0, 1}` equals `{0, 1} + {0, MAX}` |
| APInts.WidenI32 | rust/arbitrary-precision-integer/src/apint.rs:13 | sign-extending an `i32` to 128 bits preserves its integer value, for every `i32` |
| APInts.FromI32 | rust/arbitrary-precision-integer/src/apint.rs:10-15 | `APInt::from` always produces the `Scalar` variant, holding the input's value |
| APInts.FromI32Injective | rust/arbitrary-precision-integer/src/apint.rs:13 | the `APIntValue`s (compared by their derived `PartialEq`) of two conversions are equal exactly when the inputs are |
| APInts.FromI32Image | rust/arbitrary-precision-integer/src/apint.rs:6-15 | the results of `from` are exactly the scalars whose value lies in the `i32` range |
| APInts.FromI32Extremes | rust/arbitrary-precision-integer/src/apint.rs:13 | `i32::MIN` and `i32::MAX` convert without wrap-around |
| APInts.CreateFromI32 | rust/arbitrary-precision-integer/src/apint.rs:22-26 | `from(42)` holds `Scalar(42)` |

## Left out

- Release-mode wrapping of the high-limb `+`: only the debug-build semantics are modelled, with the panic as the precondition of `BigInts.Add`.
- The derived `Clone`, `Copy` and `Debug` impls. They have no logic to model. The derived `PartialEq` is Dafny's structural datatype equality.
- The `#[cfg(test)]` harness. Its assertions appear as the concrete lemmas `KeepResultInLowPart`, `CarryOutToHigh`, `CarryingOutIsCommutative` and `CreateFromI32`.
- A growable limb sequence, a sign, canonical zero and borrow-based subtraction: neither source file contains them.
