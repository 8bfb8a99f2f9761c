/** Packing of numbers into one 64-bit `Long`, after PackNumbersUtil.kt.

    A `Double` is packed as its raw IEEE 754 binary64 bit pattern. An `Int` is
    packed "NaN-box" style: the high word is set to 0x7FF00000 (exponent all
    ones, sign and mantissa top clear) and the `Int` goes into the low word.
    Two `Int`s can also be packed side by side, the first in the high word.

    Every `Long` here is its 64-bit pattern (`bv64`) and every `Int` its 32-bit
    pattern (`bv32`); `JavaInt.BitsToInt` gives the signed value where the
    sign matters (`JavaInt.IntSignBit`: it is negative exactly when
    `IsNegativeInt`, bit 31, holds). A `Double` is represented by its bit pattern, which
    `doubleToRawLongBits` returns unchanged. */
module PackNumbers {
  import opened Wrappers
  import opened JavaInt

  const HI_BIT_MASK: bv64 := 0xFFFF_FFFF_0000_0000
  const LO_BIT_MASK: bv64 := 0x0000_0000_FFFF_FFFF
  const EXP_BIT_MASK: bv64 := 0x7FF0_0000_0000_0000

  /** A `Double`, as its binary64 bit pattern. */
  type DoubleBits = bv64

  /** The bit pattern of `Double.POSITIVE_INFINITY`. */
  const POSITIVE_INFINITY: DoubleBits := 0x7FF0_0000_0000_0000

  /** The `IllegalArgumentException`s thrown by `require`. */
  datatype PackError = NotAPackedDouble | NotAPackedInteger

  /** `pack(d: Double)`: the raw bits of `d`. */
  function PackDouble(d: DoubleBits): bv64
  {
    d
  }

  function IsPackedDouble(l: bv64): bool
  {
    HI_BIT_MASK & l != EXP_BIT_MASK
  }

  function IsPackedInt(l: bv64): bool
  {
    HI_BIT_MASK & l == EXP_BIT_MASK
  }

  /** `unpackDouble`: the `Double` with bits `l`, or the error `require` raises. */
  function UnpackDouble(l: bv64): Result<DoubleBits, PackError>
  {
    if IsPackedDouble(l) then Ok(l) else Err(NotAPackedDouble)
  }

  /** `pack(i: Int)`: `toULong()` sign-extends `i`, then the tag is or-ed in. */
  function PackInt(i: bv32): bv64
  {
    EXP_BIT_MASK | SignExtend(i)
  }

  /** `unpackInt`: the low word, or the error `require` raises. */
  function UnpackInt(l: bv64): Result<bv32, PackError>
  {
    if IsPackedInt(l) then Ok(Low32(LO_BIT_MASK & l)) else Err(NotAPackedInteger)
  }

  /** `packInts`: `firstInt.toLong() shl 32 or toUnsignedLong(secondInt)`. */
  function PackInts(firstInt: bv32, secondInt: bv32): bv64
  {
    (SignExtend(firstInt) << 32) | (secondInt as bv64)
  }

  /** `unpackFirstInt`: the low word of the arithmetic shift right by 32. */
  function UnpackFirstInt(pair: bv64): bv32
  {
    Low32(Sar32(pair))
  }

  /** `unpackSecondInt`: the low word. */
  function UnpackSecondInt(pair: bv64): bv32
  {
    Low32(pair)
  }

  /** Every `Long` is exactly one of a packed double and a packed int. */
  lemma TagsExclusive(l: bv64)
    ensures IsPackedDouble(l) == !IsPackedInt(l)
    ensures UnpackDouble(l).Ok? != UnpackInt(l).Ok?
  {
  }

  /** A double whose high word is not 0x7FF00000 reads back unchanged; any
      other double is refused. */
  lemma DoubleRoundTrip(d: DoubleBits)
    ensures HI_BIT_MASK & d != 0x7FF0_0000_0000_0000 ==> UnpackDouble(PackDouble(d)) == Ok(d)
    ensures HI_BIT_MASK & d == 0x7FF0_0000_0000_0000 ==> UnpackDouble(PackDouble(d)) == Err(NotAPackedDouble)
  {
  }

  /** Positive infinity has high word 0x7FF00000, so it is taken for a packed
      int 0 and `unpackDouble` refuses it. */
  lemma InfinityIsPackedInt()
    ensures IsPackedInt(PackDouble(POSITIVE_INFINITY))
    ensures UnpackDouble(PackDouble(POSITIVE_INFINITY)) == Err(NotAPackedDouble)
    ensures UnpackInt(PackDouble(POSITIVE_INFINITY)) == Ok(0)
  {
  }

  /** A non-negative `Int` packs to a tagged `Long` and unpacks to itself; a
      negative one sign-extends over the tag, so the result is not a packed int
      and `unpackInt` refuses it. */
  lemma PackIntRoundTrip(i: bv32)
    ensures IsPackedInt(PackInt(i)) <==> !IsNegativeInt(i)
    ensures !IsNegativeInt(i) ==> UnpackInt(PackInt(i)) == Ok(i)
    ensures IsNegativeInt(i) ==> UnpackInt(PackInt(i)) == Err(NotAPackedInteger)
  {
    if IsNegativeInt(i) {
      PackNegativeInt(i);
    } else {
      PackNonNegativeInt(i);
    }
  }

  lemma PackNonNegativeInt(i: bv32)
    requires !IsNegativeInt(i)
    ensures IsPackedInt(PackInt(i)) && Low32(LO_BIT_MASK & PackInt(i)) == i
  {
    SignExtendLow(i);
    SignExtendHigh(i);
    TaggedHigh(SignExtend(i));
    TaggedLow(SignExtend(i));
    assert Low32(LO_BIT_MASK & PackInt(i)) as bv64 == i as bv64;
  }

  lemma PackNegativeInt(i: bv32)
    requires IsNegativeInt(i)
    ensures !IsPackedInt(PackInt(i))
  {
    SignExtendHigh(i);
    OnesHigh(SignExtend(i));
  }

  /** `pack(i)` with the zero extension `Integer.toUnsignedLong` that
      `packInts` gives its low word: the tag then survives for every `Int`. */
  function PackIntZeroExtended(i: bv32): bv64
  {
    EXP_BIT_MASK | (i as bv64)
  }

  /** Every `Int`, negative or not, packs to a tagged `Long` and unpacks to
      itself under the zero-extending packing. */
  lemma PackIntZeroExtendedRoundTrip(i: bv32)
    ensures IsPackedInt(PackIntZeroExtended(i))
    ensures UnpackInt(PackIntZeroExtended(i)) == Ok(i)
  {
    ZeroExtendedFields(i);
  }

  lemma ZeroExtendedFields(i: bv32)
    ensures IsPackedInt(PackIntZeroExtended(i)) && Low32(LO_BIT_MASK & PackIntZeroExtended(i)) == i
  {
    ZeroExtendHigh(i);
    TaggedHigh(i as bv64);
    TaggedLow(i as bv64);
    ZeroExtendLow(i);
    assert Low32(LO_BIT_MASK & PackIntZeroExtended(i)) as bv64 == i as bv64;
  }

  lemma ZeroExtendHigh(i: bv32)
    ensures (i as bv64) & 0xFFFF_FFFF_0000_0000 == 0
  {
  }

  lemma TaggedHigh(x: bv64)
    requires x & 0xFFFF_FFFF_0000_0000 == 0
    ensures HI_BIT_MASK & (EXP_BIT_MASK | x) == EXP_BIT_MASK
  {
  }

  lemma TaggedLow(x: bv64)
    ensures LO_BIT_MASK & (EXP_BIT_MASK | x) == x & 0xFFFF_FFFF
  {
  }

  lemma OnesHigh(x: bv64)
    requires x & 0xFFFF_FFFF_0000_0000 == 0xFFFF_FFFF_0000_0000
    ensures HI_BIT_MASK & (EXP_BIT_MASK | x) == HI_BIT_MASK
  {
  }

  /** `unpackFirstInt` recovers the first half of `packInts` ... */
  lemma UnpackFirstIntRoundTrip(firstInt: bv32, secondInt: bv32)
    ensures UnpackFirstInt(PackInts(firstInt, secondInt)) == firstInt
  {
    SignExtendLow(firstInt);
    ShiftDropsHigh(SignExtend(firstInt));
    HighWord(firstInt, secondInt);
    assert UnpackFirstInt(PackInts(firstInt, secondInt)) as bv64 == firstInt as bv64;
  }

  /** ... and `unpackSecondInt` the second. */
  lemma UnpackSecondIntRoundTrip(firstInt: bv32, secondInt: bv32)
    ensures UnpackSecondInt(PackInts(firstInt, secondInt)) == secondInt
  {
    SignExtendLow(firstInt);
    ShiftDropsHigh(SignExtend(firstInt));
    LowWord(firstInt, secondInt);
    assert UnpackSecondInt(PackInts(firstInt, secondInt)) as bv64 == secondInt as bv64;
  }

  lemma ShiftDropsHigh(x: bv64)
    ensures x << 32 == (x & 0xFFFF_FFFF) << 32
  {
  }

  lemma HighWord(a: bv32, b: bv32)
    ensures (((a as bv64) << 32) | b as bv64) >> 32 == a as bv64
  {
  }

  lemma LowWord(a: bv32, b: bv32)
    ensures (((a as bv64) << 32) | b as bv64) & 0xFFFF_FFFF == b as bv64
  {
  }

  /** Every `Long` is the packing of its two unpacked halves. */
  lemma UnpackIntsRoundTrip(pair: bv64)
    ensures PackInts(UnpackFirstInt(pair), UnpackSecondInt(pair)) == pair
  {
    var a, b := UnpackFirstInt(pair), UnpackSecondInt(pair);
    assert a as bv64 == pair >> 32;
    SignExtendLow(a);
    ShiftDropsHigh(SignExtend(a));
    Reassemble(pair);
  }

  lemma Reassemble(pair: bv64)
    ensures ((pair >> 32) << 32) | (pair & 0xFFFF_FFFF) == pair
  {
  }
}
