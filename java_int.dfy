/** JVM integer semantics shared by the model: the ranges of `Int` and `Long`,
    division and remainder that truncate toward zero, two's complement bit
    patterns and 32-bit wrap-around. Dafny's own `/` and `%` are Euclidean
    and its integers are unbounded, so everything the JVM does differently is
    written out here once. */
module JavaInt {

  const INT_MIN: int := -0x8000_0000
  const INT_MAX: int := 0x7FFF_FFFF
  const LONG_MIN: int := -0x8000_0000_0000_0000
  const LONG_MAX: int := 0x7FFF_FFFF_FFFF_FFFF
  const TWO_32: int := 0x1_0000_0000
  const TWO_64: int := 0x1_0000_0000_0000_0000

  predicate IsInt(x: int) { INT_MIN <= x <= INT_MAX }
  predicate IsLong(x: int) { LONG_MIN <= x <= LONG_MAX }

  /** A JVM `int` / Kotlin `Int` value. */
  type Int = x: int | -0x8000_0000 <= x <= 0x7FFF_FFFF
  /** A JVM `long` / Kotlin `Long` value. */
  type Long = x: int | -0x8000_0000_0000_0000 <= x <= 0x7FFF_FFFF_FFFF_FFFF

  function Abs(x: int): nat { if x < 0 then -x else x }

  /** `a / b` on the JVM: the quotient truncated toward zero. */
  function Quot(a: int, b: int): int
    requires b != 0
  {
    if (a < 0) == (b < 0) then Abs(a) / Abs(b) else -(Abs(a) / Abs(b))
  }

  /** `a % b` on the JVM: the remainder takes the sign of the dividend. */
  function Rem(a: int, b: int): int
    requires b != 0
  {
    if a < 0 then -(Abs(a) % Abs(b)) else Abs(a) % Abs(b)
  }

  /** Quotient and remainder recombine to the dividend; the remainder is
      smaller than the divisor and never has the opposite sign of the dividend;
      the quotient is rounded toward zero. */
  lemma QuotRem(a: int, b: int)
    requires b != 0
    ensures a == b * Quot(a, b) + Rem(a, b)
    ensures Abs(Rem(a, b)) < Abs(b)
    ensures a >= 0 ==> Rem(a, b) >= 0
    ensures a <= 0 ==> Rem(a, b) <= 0
    ensures Abs(b * Quot(a, b)) <= Abs(a)
  {
    var n, d := Abs(a), Abs(b);
    var q: int, r: int := n / d, n % d;
    EuclidOnNatural(n, d);
    if (a < 0) == (b < 0) {
      assert Quot(a, b) == q;
      assert b * q == if b < 0 then -(d * q) else d * q by { NegMul(d, q); }
    } else {
      assert Quot(a, b) == -q;
      assert b * -q == if b < 0 then d * q else -(d * q) by { NegMul(d, q); NegMul(b, q); }
    }
  }

  lemma EuclidOnNatural(n: nat, d: nat)
    requires d > 0
    ensures n == d * (n / d) + n % d && 0 <= n % d < d
    ensures 0 <= d * (n / d) <= n
  {
  }

  lemma NegMul(x: int, y: int)
    ensures (-x) * y == -(x * y) && x * (-y) == -(x * y)
  {
  }

  /** On non-negative operands the JVM and Dafny agree. */
  lemma QuotRemNonNegative(a: int, b: int)
    requires a >= 0 && b > 0
    ensures Quot(a, b) == a / b && Rem(a, b) == a % b
  {
  }

  /** Kotlin's `abs` on a `Long`: `abs(Long.MIN_VALUE)` overflows back to itself. */
  function LongAbs(x: Long): Long
  {
    if x == LONG_MIN then x else Abs(x)
  }

  /** Kotlin's `abs` on an `Int`: `abs(Int.MIN_VALUE)` overflows back to itself. */
  function IntAbs(x: Int): Int
  {
    if x == INT_MIN then x else Abs(x)
  }

  /** The 64-bit two's complement pattern of a `Long`. */
  function LongToBits(x: Long): bv64
  {
    (if x < 0 then x + TWO_64 else x) as bv64
  }

  /** The `Long` whose two's complement pattern is `b`. */
  function BitsToLong(b: bv64): Long
  {
    if b as int <= LONG_MAX then b as int else b as int - TWO_64
  }

  /** The 32-bit two's complement pattern of an `Int`. */
  function IntToBits(x: Int): bv32
  {
    (if x < 0 then x + TWO_32 else x) as bv32
  }

  /** The `Int` whose two's complement pattern is `b`. */
  function BitsToInt(b: bv32): Int
  {
    if b as int <= INT_MAX then b as int else b as int - TWO_32
  }

  /** The `Int` an overflowing 32-bit computation yields: `x` reduced modulo 2^32
      into the signed range. */
  function WrapInt(x: int): (r: Int)
    ensures (r - x) % TWO_32 == 0
  {
    var m := x % TWO_32;
    if m <= INT_MAX then m else m - TWO_32
  }

  /** An `Int` pattern whose sign bit is set. */
  predicate IsNegativeInt(i: bv32) { i & 0x8000_0000 != 0 }

  /** The sign of an `Int` is its bit 31. */
  lemma IntSignBit(i: bv32)
    ensures BitsToInt(i) < 0 <==> i & 0x8000_0000 != 0
  {
    IntTopBit(i);
    if i >= 0x8000_0000 {
      IntUpperHalf(i);
    } else {
      IntNarrow(i);
      Bv31Bound(i as bv31);
    }
  }

  lemma IntTopBit(i: bv32)
    ensures i & 0x8000_0000 != 0 <==> i >= 0x8000_0000
  {
  }

  lemma IntUpperHalf(i: bv32)
    requires i >= 0x8000_0000
    ensures i as int >= 0x8000_0000
  {
  }

  lemma IntNarrow(i: bv32)
    requires i < 0x8000_0000
    ensures (i as bv31) as int == i as int
  {
  }

  lemma Bv31Bound(w: bv31)
    ensures w as int < 0x8000_0000
  {
  }

  /** The sign of a `Long` is its bit 63. */
  lemma LongSignBit(v: bv64)
    ensures BitsToLong(v) < 0 <==> v & 0x8000_0000_0000_0000 != 0
  {
    LongTopBit(v);
    if v >= 0x8000_0000_0000_0000 {
      LongUpperHalf(v);
    } else {
      LongNarrow(v);
      Bv63Bound(v as bv63);
    }
  }

  lemma LongTopBit(v: bv64)
    ensures v & 0x8000_0000_0000_0000 != 0 <==> v >= 0x8000_0000_0000_0000
  {
  }

  lemma LongUpperHalf(v: bv64)
    requires v >= 0x8000_0000_0000_0000
    ensures v as int >= 0x8000_0000_0000_0000
  {
  }

  lemma LongNarrow(v: bv64)
    requires v < 0x8000_0000_0000_0000
    ensures (v as bv63) as int == v as int
  {
  }

  lemma Bv63Bound(w: bv63)
    ensures w as int < 0x8000_0000_0000_0000
  {
  }

  /** `v shr 16` on a `Long`: the vacated high bits copy the sign bit. */
  function Sar16(v: bv64): (r: bv64)
    ensures r & 0x0000_FFFF_FFFF_FFFF == v >> 16
    ensures r & 0xFFFF_0000_0000_0000 == (if v & 0x8000_0000_0000_0000 == 0 then 0 else 0xFFFF_0000_0000_0000)
  {
    if v & 0x8000_0000_0000_0000 == 0 then v >> 16 else (v >> 16) | 0xFFFF_0000_0000_0000
  }

  /** `v shr 32` on a `Long`: the vacated high bits copy the sign bit. */
  function Sar32(v: bv64): (r: bv64)
    ensures r & 0xFFFF_FFFF == v >> 32
    ensures r & 0xFFFF_FFFF_0000_0000 == (if v & 0x8000_0000_0000_0000 == 0 then 0 else 0xFFFF_FFFF_0000_0000)
  {
    if v & 0x8000_0000_0000_0000 == 0 then v >> 32 else (v >> 32) | 0xFFFF_FFFF_0000_0000
  }

  /** `toInt()` of a `Long`: its low 32 bits. */
  function Low32(v: bv64): (r: bv32)
    ensures r as bv64 == v & 0xFFFF_FFFF
  {
    (v & 0xFFFF_FFFF) as bv32
  }

  /** `toLong()` / `toULong()` of an `Int`: bit 31 fills the high word. */
  function SignExtend(i: bv32): bv64
  {
    if i & 0x8000_0000 == 0 then i as bv64 else i as bv64 | 0xFFFF_FFFF_0000_0000
  }

  /** Sign extension keeps the `Int` in the low word ... */
  lemma SignExtendLow(i: bv32)
    ensures SignExtend(i) & 0xFFFF_FFFF == i as bv64
  {
    var e := SignExtend(i);
    if i & 0x8000_0000 == 0 {
      assert e == i as bv64;
      ZeroExtendLow(i);
    } else {
      assert e == i as bv64 | 0xFFFF_FFFF_0000_0000;
      OnesExtendLow(i);
    }
  }

  lemma ZeroExtendLow(i: bv32)
    ensures (i as bv64) & 0xFFFF_FFFF == i as bv64
  {
  }

  lemma OnesExtendLow(i: bv32)
    ensures (i as bv64 | 0xFFFF_FFFF_0000_0000) & 0xFFFF_FFFF == i as bv64
  {
  }

  /** ... and makes the high word all zeros or all ones. */
  lemma SignExtendHigh(i: bv32)
    ensures SignExtend(i) & 0xFFFF_FFFF_0000_0000 == (if i & 0x8000_0000 == 0 then 0 else 0xFFFF_FFFF_0000_0000)
  {
  }
}
