/**
 The scalar arbitrary-precision integer: an `APInt` wraps a one-variant enum
 `APIntValue::Scalar(i128)`, and its only operation is conversion from `i32`
 through `value.into()`, which widens the 32-bit value to 128 bits.
 The widening is modelled the way the machine performs it, as two's-complement
 sign extension of the 32-bit pattern, and is proved to preserve the value.
 */
module APInts {

  const I32_MIN: int := -0x8000_0000
  const I32_MAX: int := 0x7fff_ffff
  const I128_MIN: int := -0x8000_0000_0000_0000_0000_0000_0000_0000
  const I128_MAX: int := 0x7fff_ffff_ffff_ffff_ffff_ffff_ffff_ffff

  /** 2^32 and 2^128, the moduli of the two bit patterns. */
  const MOD32: int := 0x1_0000_0000
  const MOD128: int := 0x1_0000_0000_0000_0000_0000_0000_0000_0000

  type I32 = x: int | I32_MIN <= x <= I32_MAX
  type I128 = x: int | I128_MIN <= x <= I128_MAX

  datatype APIntValue = Scalar(n: I128)

  datatype APInt = APInt(value: APIntValue)

  /** The 32-bit two's-complement pattern of an `i32`, read as an unsigned number. */
  function Bits32(v: I32): (b: nat)
    ensures b < MOD32
    ensures b % MOD32 == v % MOD32
    ensures b >= MOD32 / 2 <==> v < 0
  {
    if v < 0 then v + MOD32 else v
  }

  /** Sign extension to 128 bits: the upper 96 bits repeat bit 31 of the pattern. */
  function SignExtend(b: nat): (w: nat)
    requires b < MOD32
    ensures w < MOD128
    ensures w % MOD32 == b
    ensures w >= MOD128 / 2 <==> b >= MOD32 / 2
  {
    if b >= MOD32 / 2 then b + (MOD128 - MOD32) else b
  }

  /** The `i128` a 128-bit two's-complement pattern encodes. */
  function FromBits128(w: nat): (r: I128)
    requires w < MOD128
    ensures r % MOD128 == w
    ensures r < 0 <==> w >= MOD128 / 2
  {
    if w >= MOD128 / 2 then w - MOD128 else w
  }

  /** `i32 -> i128` by `Into`: sign extension, which keeps the integer value for every `i32`. */
  function WidenI32(v: I32): (r: I128)
    ensures r == v
  {
    FromBits128(SignExtend(Bits32(v)))
  }

  /** `APInt::from(value: i32)`: always the `Scalar` variant, holding the input's value. */
  function FromI32(v: I32): (x: APInt)
    ensures x.value.Scalar?
    ensures x.value.n == v
  {
    APInt(Scalar(WidenI32(v)))
  }

  /** Distinct `i32` inputs give distinct values, under the `PartialEq` that `APIntValue` derives. */
  lemma FromI32Injective(u: I32, v: I32)
    ensures FromI32(u).value == FromI32(v).value <==> u == v
  {
  }

  /** The values `from` produces are exactly the scalars in the `i32` range. */
  lemma FromI32Image(x: APInt)
    ensures (exists v: I32 :: FromI32(v) == x) <==> I32_MIN <= x.value.n <= I32_MAX
  {
    if I32_MIN <= x.value.n <= I32_MAX {
      var v: I32 := x.value.n;
      assert FromI32(v) == x;
    }
  }

  /** The extreme `i32` values convert exactly, with no wrap-around. */
  lemma FromI32Extremes()
    ensures FromI32(I32_MIN) == APInt(Scalar(-0x8000_0000))
    ensures FromI32(I32_MAX) == APInt(Scalar(0x7fff_ffff))
  {
  }

  /** `APInt::from(42i32)` holds `Scalar(42i128)`. */
  lemma CreateFromI32()
    ensures FromI32(42).value == Scalar(42)
  {
  }
}
