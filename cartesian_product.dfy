/** Join-style pairings of two collections, after
    CollectionCartesianProduct.java.

    A Java `Collection` argument that may be `null` is an `Option<seq<T>>`
    (`None` is `null`); one the code dereferences unconditionally is a plain
    `seq<T>`. A `Pair` component is `None` where the code puts `null`. */
module CartesianProduct {
  import opened Wrappers

  datatype Pair<A, B> = Pair(a: Option<A>, b: Option<B>)

  /** `isEmpty`: `null` or without elements. */
  predicate IsEmpty<T>(c: Option<seq<T>>)
  {
    c.None? || |c.value| == 0
  }

  /** Exactly `null` and the collection without elements are empty. */
  lemma IsEmptyCases<T>(c: Option<seq<T>>)
    ensures IsEmpty(c) <==> c == None || c == Some([])
  {
  }

  /** How many pairs one element of the driving collection yields against
      `other`: one pair with `null` when `other` is empty, else one per
      element of `other`. */
  function Width<T>(other: Option<seq<T>>): (w: nat)
    ensures w >= 1
    ensures !IsEmpty(other) ==> w == |other.value|
  {
    if IsEmpty(other) then 1 else |other.value|
  }

  /** `aItem` paired with every element of `bs`, in order. */
  function PairWithAll<A, B>(aItem: A, bs: seq<B>): (r: seq<Pair<A, B>>)
    ensures |r| == |bs|
    ensures forall j :: 0 <= j < |bs| ==> r[j] == Pair(Some(aItem), Some(bs[j]))
  {
    if bs == [] then [] else [Pair(Some(aItem), Some(bs[0]))] + PairWithAll(aItem, bs[1..])
  }

  /** Every element of `items` paired with `bItem`, in order. */
  function AllWith<A, B>(items: seq<A>, bItem: B): (r: seq<Pair<A, B>>)
    ensures |r| == |items|
    ensures forall i :: 0 <= i < |items| ==> r[i] == Pair(Some(items[i]), Some(bItem))
  {
    if items == [] then [] else [Pair(Some(items[0]), Some(bItem))] + AllWith(items[1..], bItem)
  }

  /** `leftJoin`: for each element of `a`, either it alone (with `null`) when
      `b` is empty, or it paired with each element of `b`. */
  function LeftJoin<A, B>(a: seq<A>, b: Option<seq<B>>): (r: seq<Pair<A, B>>)
    ensures |r| == |a| * Width(b)
  {
    if a == [] then []
    else
      var row := if IsEmpty(b) then [Pair(Some(a[0]), None)] else PairWithAll(a[0], b.value);
      row + LeftJoin(a[1..], b)
  }

  /** `rightJoin`: for each element of `b`, either it alone (with `null`) when
      `a` is empty, or each element of `a` paired with it. */
  function RightJoin<A, B>(a: Option<seq<A>>, b: seq<B>): (r: seq<Pair<A, B>>)
    ensures |r| == |b| * Width(a)
  {
    if b == [] then []
    else
      var column := if IsEmpty(a) then [Pair(None, Some(b[0]))] else AllWith(a.value, b[0]);
      column + RightJoin(a, b[1..])
  }

  /** `fullJoin`: `leftJoin` when `b` is empty, else `rightJoin`. `None` is the
      `NullPointerException` of `leftJoin` on a `null` `a`. */
  function FullJoin<A, B>(a: Option<seq<A>>, b: Option<seq<B>>): (r: Option<seq<Pair<A, B>>>)
    ensures r.None? <==> a.None? && IsEmpty(b)
  {
    if IsEmpty(b) then (if a.None? then None else Some(LeftJoin(a.value, b)))
    else Some(RightJoin(a, b.value))
  }

  /** Pair number `i * Width(b) + j` of `leftJoin` is `a[i]` with `b[j]`, or
      `a[i]` with `null` when `b` is empty: all pairs, `a`-major. */
  lemma {:induction false} LeftJoinAt<A, B>(a: seq<A>, b: Option<seq<B>>, i: nat, j: nat)
    requires i < |a| && j < Width(b)
    ensures i * Width(b) + j < |LeftJoin(a, b)|
    ensures LeftJoin(a, b)[i * Width(b) + j] ==
      if IsEmpty(b) then Pair(Some(a[i]), None) else Pair(Some(a[i]), Some(b.value[j]))
  {
    if i == 0 {
      LeftJoinFirst(a, b, j);
    } else {
      LeftJoinAt(a[1..], b, i - 1, j);
      LeftJoinNext(a, b, i, j);
      assert a[1..][i - 1] == a[i];
    }
  }

  /** The first row of `leftJoin` belongs to `a[0]`. */
  lemma LeftJoinFirst<A, B>(a: seq<A>, b: Option<seq<B>>, j: nat)
    requires 0 < |a| && j < Width(b)
    ensures j < |LeftJoin(a, b)|
    ensures LeftJoin(a, b)[0 * Width(b) + j] ==
      if IsEmpty(b) then Pair(Some(a[0]), None) else Pair(Some(a[0]), Some(b.value[j]))
  {
    var row := if IsEmpty(b) then [Pair(Some(a[0]), None)] else PairWithAll(a[0], b.value);
    assert LeftJoin(a, b) == row + LeftJoin(a[1..], b);
  }

  /** Past the first row, `leftJoin` continues with the rows of `a[1..]`. */
  lemma LeftJoinNext<A, B>(a: seq<A>, b: Option<seq<B>>, i: nat, j: nat)
    requires 0 < i < |a| && j < Width(b)
    requires (i - 1) * Width(b) + j < |LeftJoin(a[1..], b)|
    ensures i * Width(b) + j < |LeftJoin(a, b)|
    ensures LeftJoin(a, b)[i * Width(b) + j] == LeftJoin(a[1..], b)[(i - 1) * Width(b) + j]
  {
    var w := Width(b);
    var row := if IsEmpty(b) then [Pair(Some(a[0]), None)] else PairWithAll(a[0], b.value);
    var tail := LeftJoin(a[1..], b);
    assert |row| == w;
    ShiftRow(i, w, j);
    SkipRow(row, tail, (i - 1) * w + j);
  }

  /** Pair number `j * Width(a) + i` of `rightJoin` is `a[i]` with `b[j]`, or
      `null` with `b[j]` when `a` is empty: all pairs, `b`-major. */
  lemma {:induction false} RightJoinAt<A, B>(a: Option<seq<A>>, b: seq<B>, i: nat, j: nat)
    requires j < |b| && i < Width(a)
    ensures j * Width(a) + i < |RightJoin(a, b)|
    ensures RightJoin(a, b)[j * Width(a) + i] ==
      if IsEmpty(a) then Pair(None, Some(b[j])) else Pair(Some(a.value[i]), Some(b[j]))
  {
    if j == 0 {
      RightJoinFirst(a, b, i);
    } else {
      RightJoinAt(a, b[1..], i, j - 1);
      RightJoinNext(a, b, i, j);
      assert b[1..][j - 1] == b[j];
    }
  }

  /** The first column of `rightJoin` belongs to `b[0]`. */
  lemma RightJoinFirst<A, B>(a: Option<seq<A>>, b: seq<B>, i: nat)
    requires 0 < |b| && i < Width(a)
    ensures i < |RightJoin(a, b)|
    ensures RightJoin(a, b)[0 * Width(a) + i] ==
      if IsEmpty(a) then Pair(None, Some(b[0])) else Pair(Some(a.value[i]), Some(b[0]))
  {
    var column := if IsEmpty(a) then [Pair(None, Some(b[0]))] else AllWith(a.value, b[0]);
    assert RightJoin(a, b) == column + RightJoin(a, b[1..]);
  }

  /** Past the first column, `rightJoin` continues with the columns of
      `b[1..]`. */
  lemma RightJoinNext<A, B>(a: Option<seq<A>>, b: seq<B>, i: nat, j: nat)
    requires 0 < j < |b| && i < Width(a)
    requires (j - 1) * Width(a) + i < |RightJoin(a, b[1..])|
    ensures j * Width(a) + i < |RightJoin(a, b)|
    ensures RightJoin(a, b)[j * Width(a) + i] == RightJoin(a, b[1..])[(j - 1) * Width(a) + i]
  {
    var w := Width(a);
    var column := if IsEmpty(a) then [Pair(None, Some(b[0]))] else AllWith(a.value, b[0]);
    var tail := RightJoin(a, b[1..]);
    assert |column| == w;
    ShiftRow(j, w, i);
    SkipRow(column, tail, (j - 1) * w + i);
  }

  lemma SkipRow<T>(row: seq<T>, tail: seq<T>, k: int)
    requires 0 <= k < |tail|
    ensures (row + tail)[|row| + k] == tail[k]
  {
  }

  /** Skipping one row of width `w`. */
  lemma ShiftRow(i: int, w: int, j: int)
    requires 1 <= i && 0 <= w && 0 <= j
    ensures i * w + j == w + ((i - 1) * w + j)
    ensures 0 <= (i - 1) * w + j
  {
    MulLe(0, i - 1, w);
  }

  lemma MulLe(x: nat, y: nat, w: nat)
    requires x <= y
    ensures x * w <= y * w
  {
  }

  /** Between two non-empty collections `leftJoin` and `rightJoin` list the
      same pairs, one `a`-major and the other `b`-major. */
  lemma LeftRightTranspose<A, B>(a: seq<A>, b: seq<B>, i: nat, j: nat)
    requires i < |a| && j < |b|
    ensures i * |b| + j < |LeftJoin(a, Some(b))| && j * |a| + i < |RightJoin(Some(a), b)|
    ensures LeftJoin(a, Some(b))[i * |b| + j] == RightJoin(Some(a), b)[j * |a| + i]
  {
    LeftJoinAt(a, Some(b), i, j);
    RightJoinAt(Some(a), b, i, j);
  }

  /** `fullJoin` of two empty collections is empty, and with an empty `b` it
      pairs every element of `a` with `null`. */
  lemma FullJoinEmpty<A, B>(a: seq<A>, b: Option<seq<B>>)
    requires IsEmpty(b)
    ensures FullJoin(Some(a), b).Some?
    ensures |FullJoin(Some(a), b).value| == |a|
    ensures forall i :: 0 <= i < |a| ==> FullJoin(Some(a), b).value[i] == Pair(Some(a[i]), None)
  {
    forall i | 0 <= i < |a|
      ensures LeftJoin(a, b)[i] == Pair(Some(a[i]), None)
    {
      LeftJoinAt(a, b, i, 0);
    }
  }
}
