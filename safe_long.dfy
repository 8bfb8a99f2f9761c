/** Overflow-checked `Long` arithmetic, after SafeLong.kt.

    A `SafeLong` holds a `longValue` and, optionally, the exact `BigInteger`
    it was computed from. Every operator computes the exact result from the
    exact operands and fails with an `ArithmeticException` when it does not
    fit in a `Long`; equality, hashing and ordering look only at `longValue`. */
module SafeLong {
  import opened Wrappers
  import opened JavaInt

  /** The `ArithmeticException`s the operators throw: a result outside the
      `Long` range, or a `BigInteger` division by zero. */
  datatype ArithError = Overflow | DivisionByZero

  /** `value` is the `BigInteger` the public constructor accepts; nothing ties
      it to `longValue` except the `Valid` invariant below. */
  datatype SafeLong = SafeLong(longValue: Long, value: Option<int>)
  {
    /** `getValue()`: the exact value, or `longValue` widened. */
    function GetValue(): int
    {
      if value.Some? then value.value else longValue
    }

    /** An instance whose exact value is its `longValue`. */
    predicate Valid()
    {
      value.None? || value.value == longValue
    }
  }

  /** `Long.safe()`. */
  function Safe(l: Long): (r: SafeLong)
    ensures r.Valid() && r.GetValue() == l
  {
    SafeLong(l, None)
  }

  /** `SafeLong(result.longValueExact(), result)`: `longValueExact` throws when
      the exact result does not fit. */
  function Exact(result: int): (r: Result<SafeLong, ArithError>)
    ensures r.Ok? <==> IsLong(result)
    ensures r.Ok? ==> r.value.Valid() && r.value.longValue == result
    ensures r.Err? ==> r.error == Overflow
  {
    if IsLong(result) then Ok(SafeLong(result, Some(result))) else Err(Overflow)
  }

  function Plus(a: SafeLong, b: SafeLong): Result<SafeLong, ArithError>
  {
    Exact(a.GetValue() + b.GetValue())
  }

  function Minus(a: SafeLong, b: SafeLong): Result<SafeLong, ArithError>
  {
    Exact(a.GetValue() - b.GetValue())
  }

  function Times(a: SafeLong, b: SafeLong): Result<SafeLong, ArithError>
  {
    Exact(a.GetValue() * b.GetValue())
  }

  /** `BigInteger.divide` truncates toward zero and throws on a zero divisor
      before the range check is reached. */
  function Div(a: SafeLong, b: SafeLong): Result<SafeLong, ArithError>
  {
    if b.GetValue() == 0 then Err(DivisionByZero) else Exact(Quot(a.GetValue(), b.GetValue()))
  }

  /** `BigInteger.rem` takes the sign of the dividend and throws on a zero
      divisor. */
  function Rem(a: SafeLong, b: SafeLong): Result<SafeLong, ArithError>
  {
    if b.GetValue() == 0 then Err(DivisionByZero) else Exact(JavaInt.Rem(a.GetValue(), b.GetValue()))
  }

  function UnaryMinus(a: SafeLong): Result<SafeLong, ArithError>
  {
    Exact(-a.GetValue())
  }

  function Inc(a: SafeLong): Result<SafeLong, ArithError>
  {
    Exact(a.GetValue() + 1)
  }

  function Dec(a: SafeLong): Result<SafeLong, ArithError>
  {
    Exact(a.GetValue() - 1)
  }

  /** `equals` against another `SafeLong`: the same `longValue`. */
  function Equals(a: SafeLong, b: SafeLong): bool
  {
    a.longValue == b.longValue
  }

  /** `hashCode`: `Long.hashCode`, the low word of `v xor (v ushr 32)`. */
  function HashCode(a: SafeLong): Int
  {
    var v := LongToBits(a.longValue);
    BitsToInt(Low32(v ^ (v >> 32)))
  }

  /** `compareTo`: `Long.compare`, which returns -1, 0 or 1. */
  function CompareTo(a: SafeLong, b: SafeLong): int
  {
    if a.longValue < b.longValue then -1 else if a.longValue == b.longValue then 0 else 1
  }

  /** `+`, `-` and `*` on valid operands give the exact result when it is a
      `Long` and fail with an overflow otherwise. */
  lemma AddSubMulExact(a: SafeLong, b: SafeLong)
    requires a.Valid() && b.Valid()
    ensures Plus(a, b).Ok? <==> IsLong(a.longValue + b.longValue)
    ensures Plus(a, b).Ok? ==> Plus(a, b).value.longValue == a.longValue + b.longValue
    ensures Minus(a, b).Ok? <==> IsLong(a.longValue - b.longValue)
    ensures Minus(a, b).Ok? ==> Minus(a, b).value.longValue == a.longValue - b.longValue
    ensures Times(a, b).Ok? <==> IsLong(a.longValue * b.longValue)
    ensures Times(a, b).Ok? ==> Times(a, b).value.longValue == a.longValue * b.longValue
  {
  }

  /** Division by a valid operand fails for a zero divisor, overflows only for
      `Long.MIN_VALUE / -1`, and otherwise truncates toward zero. */
  lemma DivOutcome(a: SafeLong, b: SafeLong)
    requires a.Valid() && b.Valid()
    ensures b.longValue == 0 ==> Div(a, b) == Err(DivisionByZero)
    ensures b.longValue != 0 ==>
      (Div(a, b).Err? <==> a.longValue == LONG_MIN && b.longValue == -1)
    ensures Div(a, b).Ok? ==>
      var q := Div(a, b).value.longValue;
      a.longValue == b.longValue * q + JavaInt.Rem(a.longValue, b.longValue) &&
      Abs(b.longValue * q) <= Abs(a.longValue)
  {
    var x: int, y: int := a.longValue, b.longValue;
    if y != 0 {
      QuotRem(x, y);
      if y == -1 {
        assert Quot(x, y) == -x;
      } else if y == 1 {
        assert Quot(x, y) == x;
      } else {
        QuotShrinks(x, y);
      }
    }
  }

  /** A divisor other than 0 and ±1 at least halves the magnitude. */
  lemma QuotShrinks(x: int, y: int)
    requires Abs(y) >= 2
    ensures 2 * Abs(Quot(x, y)) <= Abs(x)
  {
    var n, d := Abs(x), Abs(y);
    EuclidOnNatural(n, d);
    var q := n / d;
    assert d * q >= 2 * q by { MulMono(d, q); }
  }

  lemma MulMono(d: nat, q: nat)
    requires d >= 2
    ensures d * q >= 2 * q
  {
  }

  /** The remainder never overflows: it fails only for a zero divisor, takes
      the sign of the dividend and is smaller than the divisor. */
  lemma RemOutcome(a: SafeLong, b: SafeLong)
    requires a.Valid() && b.Valid()
    ensures Rem(a, b).Err? <==> b.longValue == 0
    ensures Rem(a, b).Ok? ==>
      var r := Rem(a, b).value.longValue;
      Abs(r) < Abs(b.longValue) &&
      (a.longValue >= 0 ==> r >= 0) && (a.longValue <= 0 ==> r <= 0)
  {
    if b.longValue != 0 {
      QuotRem(a.longValue, b.longValue);
    }
  }

  /** Negation fails exactly at `Long.MIN_VALUE`, `++` exactly at
      `Long.MAX_VALUE` and `--` exactly at `Long.MIN_VALUE`. */
  lemma UnaryBoundaries(a: SafeLong)
    requires a.Valid()
    ensures UnaryMinus(a).Err? <==> a.longValue == LONG_MIN
    ensures UnaryMinus(a).Ok? ==> UnaryMinus(a).value.longValue == -a.longValue
    ensures Inc(a).Err? <==> a.longValue == LONG_MAX
    ensures Inc(a).Ok? ==> Inc(a).value.longValue == a.longValue + 1
    ensures Dec(a).Err? <==> a.longValue == LONG_MIN
    ensures Dec(a).Ok? ==> Dec(a).value.longValue == a.longValue - 1
  {
  }

  /** Every operator result, like every `Long.safe()`, is valid. */
  lemma ResultsValid(a: SafeLong, b: SafeLong)
    ensures Plus(a, b).Ok? ==> Plus(a, b).value.Valid()
    ensures Minus(a, b).Ok? ==> Minus(a, b).value.Valid()
    ensures Times(a, b).Ok? ==> Times(a, b).value.Valid()
    ensures Div(a, b).Ok? ==> Div(a, b).value.Valid()
    ensures Rem(a, b).Ok? ==> Rem(a, b).value.Valid()
    ensures UnaryMinus(a).Ok? ==> UnaryMinus(a).value.Valid()
    ensures Inc(a).Ok? ==> Inc(a).value.Valid()
    ensures Dec(a).Ok? ==> Dec(a).value.Valid()
  {
  }

  /** An instance built by the public constructor with a foreign `value`
      computes with that value, not with its `longValue`. */
  lemma ConstructorBreaksValidity()
    ensures !SafeLong(0, Some(LONG_MAX)).Valid()
    ensures Inc(SafeLong(0, Some(LONG_MAX))) == Err(Overflow)
  {
  }

  /** `equals`, `hashCode` and `compareTo` see only `longValue`; `compareTo`
      is zero exactly for equal instances and flips sign when swapped. */
  lemma IdentityIsLongValue(a: SafeLong, b: SafeLong)
    ensures Equals(a, b) <==> a.longValue == b.longValue
    ensures Equals(a, b) ==> HashCode(a) == HashCode(b)
    ensures CompareTo(a, b) == 0 <==> Equals(a, b)
    ensures CompareTo(a, b) < 0 <==> a.longValue < b.longValue
    ensures CompareTo(a, b) == -CompareTo(b, a)
  {
  }
}
