/** Dropping one element so that the product of the others is largest, after
    `getMaxMultNums` in MaxMult.java.

    The program makes one pass to count the negative and the non-negative
    elements and to find the negative of least magnitude (`minNeg`), the
    negative of greatest magnitude (`maxNeg`) and the least non-negative
    element (`minPos`). It then picks the element to drop (`toDel`) and
    copies the input without its first occurrence.

    As written, magnitudes are compared with `Math.abs` on `int`, which
    leaves `Integer.MIN_VALUE` negative. `minNeg` starts at
    `Integer.MAX_VALUE` and is replaced only by a strictly smaller magnitude,
    so a lone `-Integer.MAX_VALUE` never replaces it. `TallyAsWritten` keeps
    both effects. `Tally` is the corrected pass: it compares exact magnitudes
    and takes the first negative as the starting candidate. The products are
    exact integers. */
module MaxMult {
  import opened Wrappers
  import opened JavaInt

  /** The `ArrayIndexOutOfBoundsException` of the copy loop when `toDel` is
      not an element. */
  datatype IndexError = IndexOutOfBounds

  /** The variables of the first loop. */
  datatype Counts = Counts(minNeg: Int, maxNeg: Int, countNeg: nat, minPos: Int, countPos: nat)

  const START: Counts := Counts(INT_MAX, INT_MIN, 0, INT_MAX, 0)

  /** One iteration of the first loop as written. */
  function StepAsWritten(c: Counts, i: Int): Counts
  {
    if i < 0 then
      c.(minNeg := if IntAbs(c.minNeg) > IntAbs(i) then i else c.minNeg,
         maxNeg := if IntAbs(c.maxNeg) < IntAbs(i) then i else c.maxNeg,
         countNeg := c.countNeg + 1)
    else
      c.(minPos := if c.minPos > i then i else c.minPos, countPos := c.countPos + 1)
  }

  /** One iteration of the corrected loop: exact magnitudes, and the first
      negative is taken as it is. */
  function Step(c: Counts, i: Int): Counts
  {
    if i < 0 then
      c.(minNeg := if c.countNeg == 0 || Abs(c.minNeg) > Abs(i) then i else c.minNeg,
         maxNeg := if c.countNeg == 0 || Abs(c.maxNeg) < Abs(i) then i else c.maxNeg,
         countNeg := c.countNeg + 1)
    else
      c.(minPos := if c.minPos > i then i else c.minPos, countPos := c.countPos + 1)
  }

  function TallyAsWritten(s: seq<Int>): Counts
  {
    if s == [] then START else StepAsWritten(TallyAsWritten(s[..|s| - 1]), s[|s| - 1])
  }

  function Tally(s: seq<Int>): Counts
  {
    if s == [] then START else Step(Tally(s[..|s| - 1]), s[|s| - 1])
  }

  /** The choice of `toDel`: with an odd count of negatives the negative of
      least magnitude; otherwise the least non-negative element, or, with no
      non-negative element, the negative of greatest magnitude. */
  function Choose(c: Counts): Int
  {
    if c.countNeg % 2 == 0 then (if c.countPos > 0 then c.minPos else c.maxNeg) else c.minNeg
  }

  function Neg(x: int): nat { if x < 0 then 1 else 0 }

  /** How many elements are negative. */
  function CountNeg(s: seq<int>): nat
  {
    if s == [] then 0 else Neg(s[0]) + CountNeg(s[1..])
  }

  function Product(s: seq<int>): int
  {
    if s == [] then 1 else s[0] * Product(s[1..])
  }

  /** `s` without the element at `k`. */
  function RemoveAt<T>(s: seq<T>, k: nat): (r: seq<T>)
    requires k < |s|
  {
    s[..k] + s[k + 1..]
  }

  /** The position of the first occurrence of `x`. */
  function FirstIndex(s: seq<Int>, x: Int): (k: nat)
    requires x in s
    ensures k < |s| && s[k] == x
    ensures forall j :: 0 <= j < k ==> s[j] != x
  {
    if s[0] == x then 0 else FirstIndex(s[1..], x) + 1
  }

  /** The pass counts the negative and the non-negative elements. */
  lemma {:induction false} TallyCounts(s: seq<Int>)
    ensures Tally(s).countNeg == CountNeg(s) && Tally(s).countNeg + Tally(s).countPos == |s|
  {
    if s != [] {
      var p, x := s[..|s| - 1], s[|s| - 1];
      assert s == p + [x];
      TallyCounts(p);
      CountNegConcat(p, [x]);
      assert CountNeg([x]) == Neg(x);
    }
  }

  /** `minNeg` is the negative element of least magnitude, that is, the
      greatest negative element. */
  lemma {:induction false} TallyMinNeg(s: seq<Int>)
    ensures var c := Tally(s);
      (c.countNeg == 0 ==> forall k :: 0 <= k < |s| ==> s[k] >= 0) &&
      (c.countNeg > 0 ==> c.minNeg in s && c.minNeg < 0) &&
      (c.countNeg > 0 ==> forall k :: 0 <= k < |s| && s[k] < 0 ==> s[k] <= c.minNeg)
  {
    if s != [] {
      var p := s[..|s| - 1];
      TallyMinNeg(p);
      assert s == p + [s[|s| - 1]];
      assert forall k :: 0 <= k < |p| ==> s[k] == p[k];
      assert forall y :: y in p ==> y in s;
    }
  }

  /** `maxNeg` is the negative element of greatest magnitude, that is, the
      least element when there is a negative one. */
  lemma {:induction false} TallyMaxNeg(s: seq<Int>)
    ensures var c := Tally(s);
      (c.countNeg == 0 ==> forall k :: 0 <= k < |s| ==> s[k] >= 0) &&
      (c.countNeg > 0 ==> c.maxNeg in s && c.maxNeg < 0) &&
      (c.countNeg > 0 ==> forall k :: 0 <= k < |s| ==> c.maxNeg <= s[k])
  {
    if s != [] {
      var p := s[..|s| - 1];
      TallyMaxNeg(p);
      assert s == p + [s[|s| - 1]];
      assert forall k :: 0 <= k < |p| ==> s[k] == p[k];
      assert forall y :: y in p ==> y in s;
    }
  }

  /** `minPos` is the least non-negative element. */
  lemma {:induction false} TallyMinPos(s: seq<Int>)
    ensures var c := Tally(s);
      (c.countPos == 0 ==> c.minPos == INT_MAX) &&
      (c.countPos > 0 ==> c.minPos in s && c.minPos >= 0) &&
      (forall k :: 0 <= k < |s| && s[k] >= 0 ==> c.minPos <= s[k])
  {
    if s != [] {
      var p := s[..|s| - 1];
      TallyMinPos(p);
      assert s == p + [s[|s| - 1]];
      assert forall k :: 0 <= k < |p| ==> s[k] == p[k];
      assert forall y :: y in p ==> y in s;
    }
  }

  /** The corrected `toDel`: an element of a non-empty input, chosen by the
      rule of `Choose` with exact magnitudes. */
  function ToDelete(s: seq<Int>): (r: Int)
    requires |s| > 0
    ensures r in s
    ensures CountNeg(s) % 2 == 1 ==> r < 0 && forall k :: 0 <= k < |s| && s[k] < 0 ==> s[k] <= r
    ensures CountNeg(s) % 2 == 0 && CountNeg(s) < |s| ==>
      r >= 0 && forall k :: 0 <= k < |s| && s[k] >= 0 ==> r <= s[k]
    ensures CountNeg(s) % 2 == 0 && CountNeg(s) == |s| ==> r < 0 && forall k :: 0 <= k < |s| ==> r <= s[k]
  {
    TallyCounts(s);
    TallyMinNeg(s);
    TallyMaxNeg(s);
    TallyMinPos(s);
    Choose(Tally(s))
  }

  function ToDeleteAsWritten(s: seq<Int>): Int
  {
    Choose(TallyAsWritten(s))
  }

  lemma {:induction false} CountNegConcat(a: seq<int>, b: seq<int>)
    ensures CountNeg(a + b) == CountNeg(a) + CountNeg(b)
    decreases |a|
  {
    if a != [] {
      assert (a + b)[1..] == a[1..] + b;
      CountNegConcat(a[1..], b);
    } else {
      assert a + b == b;
    }
  }

  lemma {:induction false} ProductConcat(a: seq<int>, b: seq<int>)
    ensures Product(a + b) == Product(a) * Product(b)
    decreases |a|
  {
    if a != [] {
      assert (a + b)[1..] == a[1..] + b;
      ProductConcat(a[1..], b);
      assert Product(a + b) == a[0] * (Product(a[1..]) * Product(b));
    } else {
      assert a + b == b;
    }
  }

  /** Taking `x` out of the middle divides it out of the product ... */
  lemma ExtractProduct(a: seq<int>, x: int, b: seq<int>)
    ensures Product(a + [x] + b) == x * Product(a + b)
  {
    var pa, pb := Product(a), Product(b);
    ProductConcat(a, [x]);
    assert Product([x]) == x * Product([]);
    assert Product(a + [x]) == pa * x;
    ProductConcat(a + [x], b);
    ProductConcat(a, b);
    MoveFactor(pa, x, pb);
  }

  lemma MoveFactor(p: int, x: int, q: int)
    ensures p * x * q == x * (p * q)
  {
  }

  /** ... and takes it out of the count of negatives. */
  lemma ExtractCount(a: seq<int>, x: int, b: seq<int>)
    ensures CountNeg(a + [x] + b) == Neg(x) + CountNeg(a + b)
  {
    CountNegConcat(a + [x], b);
    CountNegConcat(a, [x]);
    CountNegConcat(a, b);
    assert CountNeg([x]) == Neg(x) + CountNeg([]);
  }

  /** An even count of negatives gives a product of at least zero, an odd
      count one of at most zero. */
  lemma {:induction false} ProductSign(s: seq<int>)
    ensures CountNeg(s) % 2 == 0 ==> Product(s) >= 0
    ensures CountNeg(s) % 2 == 1 ==> Product(s) <= 0
  {
    if s != [] {
      ProductSign(s[1..]);
      MulSigns(s[0], Product(s[1..]));
    }
  }

  lemma MulSigns(x: int, y: int)
    ensures x >= 0 && y >= 0 ==> x * y >= 0
    ensures x <= 0 && y <= 0 ==> x * y >= 0
    ensures x >= 0 && y <= 0 ==> x * y <= 0
    ensures x <= 0 && y >= 0 ==> x * y <= 0
  {
  }

  /** Dropping `s[hi]` leaves `s[lo]` beside the elements left by dropping
      both. */
  lemma DropHigh(s: seq<int>, lo: nat, hi: nat)
    requires lo < hi < |s|
    ensures var rest := RemoveAt(RemoveAt(s, hi), lo);
      Product(RemoveAt(s, hi)) == s[lo] * Product(rest) &&
      CountNeg(RemoveAt(s, hi)) == Neg(s[lo]) + CountNeg(rest)
  {
    var t := RemoveAt(s, hi);
    var a, bc := t[..lo], t[lo + 1..];
    assert t == a + [t[lo]] + bc;
    assert RemoveAt(t, lo) == a + bc;
    ExtractProduct(a, t[lo], bc);
    ExtractCount(a, t[lo], bc);
  }

  /** Dropping `s[lo]` leaves `s[hi]` beside the elements left by dropping
      both. */
  lemma DropLow(s: seq<int>, lo: nat, hi: nat)
    requires lo < hi < |s|
    ensures Product(RemoveAt(s, lo)) == s[hi] * Product(RemoveAt(RemoveAt(s, hi), lo))
  {
    var t := RemoveAt(s, lo);
    var ab, c := t[..hi - 1], t[hi..];
    assert t == ab + [s[hi]] + c;
    assert RemoveAt(RemoveAt(s, hi), lo) == ab + c;
    ExtractProduct(ab, s[hi], c);
  }

  /** Dropping `s[k]` takes it out of the count of negatives. */
  lemma DropCount(s: seq<int>, k: nat)
    requires k < |s|
    ensures CountNeg(s) == Neg(s[k]) + CountNeg(RemoveAt(s, k))
  {
    assert s == s[..k] + [s[k]] + s[k + 1..];
    ExtractCount(s[..k], s[k], s[k + 1..]);
  }

  /** Dropping `s[lo]` or `s[hi]` leaves the other one times the product of
      the elements left by dropping both; the negatives split the same
      way. */
  lemma ExchangeBoth(s: seq<int>, lo: nat, hi: nat)
    requires lo < hi < |s|
    ensures var rest := RemoveAt(RemoveAt(s, hi), lo);
      Product(RemoveAt(s, hi)) == s[lo] * Product(rest) &&
      Product(RemoveAt(s, lo)) == s[hi] * Product(rest) &&
      CountNeg(s) == CountNeg(rest) + Neg(s[lo]) + Neg(s[hi])
  {
    DropHigh(s, lo, hi);
    DropLow(s, lo, hi);
    DropCount(s, hi);
  }

  /** Dropping the first occurrence of `ToDelete(s)` leaves a product at
      least as large as dropping any other element. */
  lemma Maximal(s: seq<Int>, k: nat)
    requires k < |s|
    ensures Product(RemoveAt(s, FirstIndex(s, ToDelete(s)))) >= Product(RemoveAt(s, k))
  {
    var d := ToDelete(s);
    var j := FirstIndex(s, d);
    if k != j {
      var lo, hi := if j < k then j else k, if j < k then k else j;
      ExchangeBoth(s, lo, hi);
      var rest := RemoveAt(RemoveAt(s, hi), lo);
      var p, x := Product(rest), s[k];
      assert Product(RemoveAt(s, j)) == x * p && Product(RemoveAt(s, k)) == d * p;
      ProductSign(rest);
      ChosenAgainst(s, k, CountNeg(s), d, x);
      ExchangeGains(CountNeg(s), CountNeg(rest), |s|, x, d, p);
    }
  }

  /** The rule of `ToDelete` seen from one other element `s[k]`. */
  lemma ChosenAgainst(s: seq<Int>, k: nat, n: int, d: int, x: int)
    requires k < |s| && n == CountNeg(s) && d == ToDelete(s) && x == s[k]
    ensures n <= |s| &&
      (n % 2 == 1 ==> d < 0 && (x < 0 ==> x <= d)) &&
      (n % 2 == 0 && n < |s| ==> d >= 0 && (x >= 0 ==> d <= x)) &&
      (n % 2 == 0 && n == |s| ==> d < 0 && x < 0 && d <= x)
  {
    AllNegative(s);
  }

  /** The sign argument behind `Maximal`: with `n` negatives among `len`
      elements, `d` chosen by the rule of `ToDelete` and `x` any other
      element, the remaining product `p` and `x - d` never have opposite
      signs. */
  lemma ExchangeGains(n: int, m: int, len: int, x: int, d: int, p: int)
    requires m == n - Neg(x) - Neg(d) && n <= len
    requires m % 2 == 0 ==> p >= 0
    requires m % 2 == 1 ==> p <= 0
    requires n % 2 == 1 ==> d < 0 && (x < 0 ==> x <= d)
    requires n % 2 == 0 && n < len ==> d >= 0 && (x >= 0 ==> d <= x)
    requires n % 2 == 0 && n == len ==> d < 0 && x < 0 && d <= x
    ensures d * p <= x * p
  {
    MulSigns(p, x - d);
    assert p * (x - d) == x * p - d * p;
  }

  /** At most every element is negative, and when every one is, each is. */
  lemma {:induction false} AllNegative(s: seq<int>)
    ensures CountNeg(s) <= |s|
    ensures CountNeg(s) == |s| ==> forall k :: 0 <= k < |s| ==> s[k] < 0
  {
    if s != [] {
      AllNegative(s[1..]);
      assert forall k :: 1 <= k < |s| ==> s[k] == s[1..][k - 1];
    }
  }

  /** The second loop: copy `input` into an array one shorter, skipping the
      first element equal to `toDel`. Without such an element the last store
      falls outside the array. */
  method CopyWithout(input: array<Int>, toDel: Int) returns (r: Result<array<Int>, IndexError>)
    requires input.Length > 0
    ensures toDel in input[..] ==>
      r.Ok? && fresh(r.value) && r.value[..] == RemoveAt(input[..], FirstIndex(input[..], toDel))
    ensures toDel !in input[..] ==> r.Err?
  {
    var result := new Int[input.Length - 1];
    var cnt := 0;
    var already := false;
    for i := 0 to input.Length
      invariant already <==> toDel in input[..i]
      invariant cnt == if already then i - 1 else i
      invariant cnt <= result.Length
      invariant !already ==> result[..cnt] == input[..i]
      invariant already ==>
        FirstIndex(input[..], toDel) < i && result[..cnt] == RemoveAt(input[..i], FirstIndex(input[..], toDel))
    {
      if input[i] == toDel && !already {
        already := true;
        assert FirstIndex(input[..], toDel) == i;
        assert input[..i + 1][..i] == input[..i];
        continue;
      }
      if cnt >= result.Length {
        assert input[..i + 1] == input[..];
        return Err(IndexOutOfBounds);
      }
      ghost var copied := result[..cnt];
      result[cnt] := input[i];
      assert result[..cnt + 1] == copied + [input[i]];
      cnt := cnt + 1;
      if already {
        RemoveAtGrows(input[..], FirstIndex(input[..], toDel), i);
      } else {
        assert input[..i + 1] == input[..i] + [input[i]];
      }
    }
    assert input[..input.Length] == input[..];
    return Ok(result);
  }

  /** Past the removed position, removal commutes with taking one more
      element. */
  lemma RemoveAtGrows<T>(s: seq<T>, k: nat, i: nat)
    requires k < i < |s|
    ensures RemoveAt(s[..i + 1], k) == RemoveAt(s[..i], k) + [s[i]]
  {
    assert s[..i + 1][..k] == s[..i][..k];
    assert s[..i + 1][k + 1..] == s[..i][k + 1..] + [s[i]];
  }

  /** The first loop as written. */
  method TallyLoopAsWritten(input: array<Int>) returns (toDel: Int)
    ensures toDel == ToDeleteAsWritten(input[..])
  {
    var minNeg: Int, maxNeg: Int, countNeg: nat := INT_MAX, INT_MIN, 0;
    var minPos: Int, countPos: nat := INT_MAX, 0;
    for n := 0 to input.Length
      invariant Counts(minNeg, maxNeg, countNeg, minPos, countPos) == TallyAsWritten(input[..n])
    {
      assert input[..n + 1][..n] == input[..n];
      var i := input[n];
      if i < 0 {
        countNeg := countNeg + 1;
        if IntAbs(minNeg) > IntAbs(i) {
          minNeg := i;
        }
        if IntAbs(maxNeg) < IntAbs(i) {
          maxNeg := i;
        }
      }
      if i >= 0 {
        countPos := countPos + 1;
        if minPos > i {
          minPos := i;
        }
      }
    }
    assert input[..input.Length] == input[..];
    toDel := Choose(Counts(minNeg, maxNeg, countNeg, minPos, countPos));
  }

  /** The corrected first loop. */
  method TallyLoop(input: array<Int>) returns (toDel: Int)
    requires input.Length > 0
    ensures toDel == ToDelete(input[..])
  {
    var minNeg: Int, maxNeg: Int, countNeg: nat := INT_MAX, INT_MIN, 0;
    var minPos: Int, countPos: nat := INT_MAX, 0;
    for n := 0 to input.Length
      invariant Counts(minNeg, maxNeg, countNeg, minPos, countPos) == Tally(input[..n])
    {
      assert input[..n + 1][..n] == input[..n];
      var i := input[n];
      if i < 0 {
        if countNeg == 0 || Abs(minNeg) > Abs(i) {
          minNeg := i;
        }
        if countNeg == 0 || Abs(maxNeg) < Abs(i) {
          maxNeg := i;
        }
        countNeg := countNeg + 1;
      }
      if i >= 0 {
        countPos := countPos + 1;
        if minPos > i {
          minPos := i;
        }
      }
    }
    assert input[..input.Length] == input[..];
    toDel := Choose(Counts(minNeg, maxNeg, countNeg, minPos, countPos));
  }

  /** `getMaxMultNums` as written: an empty input is returned as it is; an
      input whose `toDel` is not an element fails in the copy. */
  method GetMaxMultNumsAsWritten(input: array<Int>) returns (r: Result<array<Int>, IndexError>)
    ensures input.Length == 0 ==> r == Ok(input)
    ensures input.Length > 0 && ToDeleteAsWritten(input[..]) in input[..] ==>
      r.Ok? && r.value[..] == RemoveAt(input[..], FirstIndex(input[..], ToDeleteAsWritten(input[..])))
    ensures input.Length > 0 && ToDeleteAsWritten(input[..]) !in input[..] ==> r.Err?
  {
    if input.Length == 0 {
      return Ok(input);
    }
    var toDel := TallyLoopAsWritten(input);
    r := CopyWithout(input, toDel);
  }

  /** `getMaxMultNums`, corrected: an empty input is returned as it is;
      otherwise the result is the input without the first occurrence of the
      corrected `toDel`, and no other choice of a dropped element gives a
      larger product. */
  method GetMaxMultNums(input: array<Int>) returns (result: array<Int>)
    ensures input.Length == 0 ==> result == input
    ensures input.Length > 0 ==>
      result[..] == RemoveAt(input[..], FirstIndex(input[..], ToDelete(input[..]))) &&
      forall k :: 0 <= k < input.Length ==> Product(result[..]) >= Product(RemoveAt(input[..], k))
  {
    if input.Length == 0 {
      return input;
    }
    var toDel := TallyLoop(input);
    var r := CopyWithout(input, toDel);
    result := r.value;
    forall k | 0 <= k < input.Length
      ensures Product(result[..]) >= Product(RemoveAt(input[..], k))
    {
      Maximal(input[..], k);
    }
  }

  /** As written, `Integer.MIN_VALUE` passes for the negative of least
      magnitude: for [MIN, -1, -1] it is dropped, leaving the product 1,
      while dropping a -1 leaves 2^31. */
  lemma MinValueChosenAsWritten()
    ensures var s: seq<Int> := [INT_MIN, -1, -1];
      ToDeleteAsWritten(s) == INT_MIN &&
      Product(RemoveAt(s, FirstIndex(s, INT_MIN))) == 1 &&
      Product(RemoveAt(s, 1)) == 0x8000_0000 &&
      ToDelete(s) == -1
  {
    var s: seq<Int> := [INT_MIN, -1, -1];
    assert s[..2] == [INT_MIN, -1] && s[..2][..1] == [INT_MIN] && s[..2][..1][..0] == [];
    var w1 := StepAsWritten(START, INT_MIN);
    var w2 := StepAsWritten(w1, -1);
    assert TallyAsWritten([INT_MIN]) == w1 && w1.minNeg == INT_MIN;
    assert TallyAsWritten([INT_MIN, -1]) == w2 && w2.minNeg == INT_MIN;
    assert TallyAsWritten(s) == StepAsWritten(w2, -1);
    var c1 := Step(START, INT_MIN);
    var c2 := Step(c1, -1);
    assert Tally([INT_MIN]) == c1 && Tally([INT_MIN, -1]) == c2 && c2.minNeg == -1;
    assert Tally(s) == Step(c2, -1);
    assert FirstIndex(s, INT_MIN) == 0;
    assert RemoveAt(s, 0) == [-1, -1];
    assert RemoveAt(s, 1) == [INT_MIN, -1];
    assert Product([-1]) == -1;
    assert Product([INT_MIN, -1]) == INT_MIN * -1;
  }

  /** As written, a lone negative `-Integer.MAX_VALUE` never replaces the
      starting `minNeg`, so `toDel` is `Integer.MAX_VALUE`, which is not an
      element, and the copy fails. */
  lemma MaxValueMissedAsWritten()
    ensures var s: seq<Int> := [-INT_MAX];
      ToDeleteAsWritten(s) == INT_MAX && INT_MAX !in s && ToDelete(s) == -INT_MAX
  {
    var s: seq<Int> := [-INT_MAX];
    assert s[..0] == [];
    assert TallyAsWritten(s) == StepAsWritten(START, -INT_MAX);
    assert Tally(s) == Step(START, -INT_MAX);
  }
}
