/**
 The fixed two-limb unsigned integer: a pair of `u64` limbs `high` and `low`
 denoting `high * 2^64 + low`. Addition adds the low limbs with wrap-around
 and an explicit carry bit, and adds that carry into the sum of the high
 limbs. The high-limb sum uses Rust's checked `+`, which panics in debug
 builds when it overflows; that panic is the one error condition and is a
 precondition here.
 */
module BigInts {
  import opened Limbs

  datatype BigInt = BigInt(high: U64, low: U64)

  /** The integer a two-limb value denotes. */
  function Value(x: BigInt): (n: nat)
    ensures n < BASE * BASE
  {
    x.high * BASE + x.low
  }

  /** Reference decoding of an integer below 2^128 into its two limbs. */
  function FromValue(n: nat): (x: BigInt)
    requires n < BASE * BASE
    ensures Value(x) == n
  {
    BigInt(n / BASE, n % BASE)
  }

  /** Distinct limb pairs denote distinct integers, so derived structural equality is value equality. */
  lemma ValueInjective(x: BigInt, y: BigInt)
    ensures Value(x) == Value(y) <==> x == y
  {
  }

  /** `BigInt::from(value: u64)`: the value sits in the low limb and the high limb is zero. */
  function FromU64(v: U64): (x: BigInt)
    ensures x.high == 0
    ensures Value(x) == v
  {
    BigInt(0, v)
  }

  /** The carry out of the low-limb addition, as `has_overflowed as u64`. */
  function LowCarry(a: BigInt, b: BigInt): (c: U64)
    ensures c <= 1
    ensures c == 1 <==> a.low + b.low >= BASE
  {
    BoolToU64(OverflowingAdd(a.low, b.low).1)
  }

  /**
   The high-limb sum `self.high + other.high + carry` does not panic: neither
   of its two checked additions passes `u64::MAX`.
   */
  function NoHighOverflow(a: BigInt, b: BigInt): (ok: bool)
    ensures ok <==> a.high + b.high + LowCarry(a, b) <= MAX
  {
    match CheckedAdd(a.high, b.high)
    case Panic => false
    case Sum(h) => CheckedAdd(h, LowCarry(a, b)).Sum?
  }

  /** `a + b`: carry-propagating addition of the two limbs. */
  function Add(a: BigInt, b: BigInt): (r: BigInt)
    requires NoHighOverflow(a, b)
    ensures Value(r) == Value(a) + Value(b)
  {
    var (lowAdd, hasOverflowed) := OverflowingAdd(a.low, b.low);
    var highAdd := a.high + b.high + BoolToU64(hasOverflowed);
    BigInt(highAdd, lowAdd)
  }

  /** The limbs of a sum: the low limb wraps modulo 2^64, the high limb absorbs the carry. */
  lemma AddLimbs(a: BigInt, b: BigInt)
    requires NoHighOverflow(a, b)
    ensures Add(a, b).low == (a.low + b.low) % BASE
    ensures Add(a, b).high == a.high + b.high + (if a.low + b.low >= BASE then 1 else 0)
  {
  }

  /** The addition panics exactly when the exact sum of the operands does not fit in 128 bits. */
  lemma NoHighOverflowIff(a: BigInt, b: BigInt)
    ensures NoHighOverflow(a, b) <==> Value(a) + Value(b) < BASE * BASE
  {
  }

  /** Addition agrees with the reference decoding of the exact integer sum. */
  lemma AddMatchesReference(a: BigInt, b: BigInt)
    requires NoHighOverflow(a, b)
    ensures Value(a) + Value(b) < BASE * BASE
    ensures Add(a, b) == FromValue(Value(a) + Value(b))
  {
  }

  /** Addition is commutative: either order is defined exactly when the other is, with the same result. */
  lemma AddCommutative(a: BigInt, b: BigInt)
    ensures NoHighOverflow(a, b) <==> NoHighOverflow(b, a)
    ensures NoHighOverflow(a, b) ==> Add(a, b) == Add(b, a)
  {
  }

  /** Addition is associative whenever the exact sum of all three operands fits in 128 bits. */
  lemma AddAssociative(a: BigInt, b: BigInt, c: BigInt)
    requires Value(a) + Value(b) + Value(c) < BASE * BASE
    ensures NoHighOverflow(a, b) && NoHighOverflow(Add(a, b), c)
    ensures NoHighOverflow(b, c) && NoHighOverflow(a, Add(b, c))
    ensures Add(Add(a, b), c) == Add(a, Add(b, c))
  {
    NoHighOverflowIff(a, b);
    NoHighOverflowIff(Add(a, b), c);
    NoHighOverflowIff(b, c);
    NoHighOverflowIff(a, Add(b, c));
    ValueInjective(Add(Add(a, b), c), Add(a, Add(b, c)));
  }

  /** Zero, built from a `u64`, is a right identity that never overflows. */
  lemma AddZeroIdentity(a: BigInt)
    ensures NoHighOverflow(a, FromU64(0))
    ensures Add(a, FromU64(0)) == a
  {
  }

  /** Two values held in their low limbs whose sum fits a limb add without touching the high limb. */
  lemma AddWithinLowLimb(a: BigInt, b: BigInt)
    requires a.high == 0 && b.high == 0
    requires a.low + b.low <= MAX
    ensures NoHighOverflow(a, b)
    ensures Add(a, b) == FromU64(a.low + b.low)
  {
  }

  /** Adding two `u64` conversions never panics and yields their exact sum. */
  lemma AddFromU64(u: U64, v: U64)
    ensures NoHighOverflow(FromU64(u), FromU64(v))
    ensures Value(Add(FromU64(u), FromU64(v))) == u + v
    ensures Add(FromU64(u), FromU64(v)).high == (if u + v > MAX then 1 else 0)
  {
  }

  /** The largest value plus one overflows the high limb, so the source panics there. */
  lemma MaxPlusOnePanics()
    ensures !NoHighOverflow(BigInt(MAX, MAX), FromU64(1))
  {
  }

  /** `{0, MAX-1} + {0, 1} = {0, MAX}`: a sum that fits stays in the low limb. */
  lemma KeepResultInLowPart()
    ensures NoHighOverflow(BigInt(0, MAX - 1), BigInt(0, 1))
    ensures Add(BigInt(0, MAX - 1), BigInt(0, 1)) == BigInt(0, MAX)
  {
  }

  /** `{0, MAX} + {0, 1} = {1, 0}`: the carry crosses the limb boundary. */
  lemma CarryOutToHigh()
    ensures NoHighOverflow(BigInt(0, MAX), BigInt(0, 1))
    ensures Add(BigInt(0, MAX), BigInt(0, 1)) == BigInt(1, 0)
  {
  }

  /** The carrying addition gives the same result in either order. */
  lemma CarryingOutIsCommutative()
    ensures NoHighOverflow(BigInt(0, MAX), BigInt(0, 1))
    ensures NoHighOverflow(BigInt(0, 1), BigInt(0, MAX))
    ensures Add(BigInt(0, MAX), BigInt(0, 1)) == Add(BigInt(0, 1), BigInt(0, MAX))
  {
  }
}
