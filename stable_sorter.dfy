/** Bucket sorts that keep the input order within a bucket, after
    StableSorter.java.

    The first `sort` puts every element into a bucket for its first key and
    into a bucket for its second key (a `null` key, here `None`, puts it in
    no bucket), then emits the buckets of `keys1[0]`, `keys2[0]`,
    `keys1[1]`, `keys2[1]`, and so on. The second `sort` groups by an integer
    index and emits the groups in the order of the hash map, which the model
    leaves open. Key functions are total Dafny functions. */
module StableSorter {
  import opened Wrappers

  /** The elements of `s` whose key is `k`, in input order. */
  function Filter<T, K(==)>(s: seq<T>, key: T -> K, k: K): seq<T>
  {
    if s == [] then []
    else Filter(s[..|s| - 1], key, k) + (if key(s[|s| - 1]) == k then [s[|s| - 1]] else [])
  }

  /** `map.get(k)`, with `null` read as an empty bucket. */
  function Lookup<T, K(==)>(m: map<K, seq<T>>, k: K): seq<T>
  {
    if k in m then m[k] else []
  }

  /** `map.computeIfAbsent(k, __ -> new ArrayList<>()).add(x)`. */
  function AddTo<T, K(==)>(m: map<K, seq<T>>, k: K, x: T): (r: map<K, seq<T>>)
    ensures r.Keys == m.Keys + {k} && r[k] == Lookup(m, k) + [x]
    ensures forall j :: j in m && j != k ==> r[j] == m[j]
  {
    m[k := Lookup(m, k) + [x]]
  }

  /** The buckets of the first loop of `sort(input, key1, keys1, key2,
      keys2)` for one key function: an element with a `null` key is in no
      bucket. */
  function GroupedNonNull<T, K(==)>(s: seq<T>, key: T -> Option<K>): map<K, seq<T>>
  {
    if s == [] then map[]
    else
      var m := GroupedNonNull(s[..|s| - 1], key);
      var x := s[|s| - 1];
      if key(x).Some? then AddTo(m, key(x).value, x) else m
  }

  /** The groups of the loop of `sort(input, indexFunction)`. */
  function Grouped<T, K(==)>(s: seq<T>, key: T -> K): map<K, seq<T>>
  {
    if s == [] then map[] else AddTo(Grouped(s[..|s| - 1], key), key(s[|s| - 1]), s[|s| - 1])
  }

  /** The buckets of the listed keys as the loop finds them in `m`. */
  function Buckets<T, K(==)>(m: map<K, seq<T>>, keys: seq<K>): (r: seq<seq<T>>)
    ensures |r| == |keys| && forall i :: 0 <= i < |keys| ==> r[i] == Lookup(m, keys[i])
  {
    if keys == [] then [] else [Lookup(m, keys[0])] + Buckets(m, keys[1..])
  }

  /** The buckets of the listed keys, in the order of the list: for each
      key, the elements that have it, in input order. */
  function KeyBuckets<T, K(==)>(s: seq<T>, key: T -> Option<K>, keys: seq<K>): (r: seq<seq<T>>)
    ensures |r| == |keys| && forall i :: 0 <= i < |keys| ==> r[i] == Filter(s, key, Some(keys[i]))
  {
    if keys == [] then [] else [Filter(s, key, Some(keys[0]))] + KeyBuckets(s, key, keys[1..])
  }

  function Flatten<T>(l: seq<seq<T>>): seq<T>
  {
    if l == [] then [] else l[0] + Flatten(l[1..])
  }

  /** The buckets taken alternately from `l1` and `l2`, starting with `l1`;
      when one list runs out the other continues alone. */
  function Merged<T>(l1: seq<seq<T>>, l2: seq<seq<T>>): seq<T>
    decreases |l1| + |l2|
  {
    if l1 == [] then Flatten(l2)
    else if l2 == [] then Flatten(l1)
    else l1[0] + l2[0] + Merged(l1[1..], l2[1..])
  }

  /** The result of `sort(input, key1, keys1, key2, keys2)`. */
  function SortedByKeys<T, K1(==), K2(==)>(input: seq<T>, key1: T -> Option<K1>, keys1: seq<K1>,
                                           key2: T -> Option<K2>, keys2: seq<K2>): seq<T>
  {
    Merged(KeyBuckets(input, key1, keys1), KeyBuckets(input, key2, keys2))
  }

  /** How often `k` is listed in `keys`; a `null` key is never listed. */
  function Occurrences<K(==)>(keys: seq<K>, k: Option<K>): nat
  {
    if keys == [] || k.None? then 0
    else (if keys[0] == k.value then 1 else 0) + Occurrences(keys[1..], k)
  }

  // ---------------------------------------------------------------------
  // Buckets are filters of the input

  /** Filtering works part by part: the elements of an earlier part come
      before those of a later part. */
  lemma {:induction false} FilterConcat<T, K>(s: seq<T>, t: seq<T>, key: T -> K, k: K)
    ensures Filter(s + t, key, k) == Filter(s, key, k) + Filter(t, key, k)
    decreases |t|
  {
    if t == [] {
      assert s + t == s;
    } else {
      var t', y := t[..|t| - 1], t[|t| - 1];
      assert (s + t)[..|s + t| - 1] == s + t';
      assert (s + t)[|s + t| - 1] == y;
      FilterConcat(s, t', key, k);
      var a, b, c := Filter(s, key, k), Filter(t', key, k), if key(y) == k then [y] else [];
      assert Filter(s + t, key, k) == (a + b) + c;
      assert (a + b) + c == a + (b + c);
    }
  }

  /** A filter holds every occurrence of an element whose key is `k`, and
      nothing else. */
  lemma {:induction false} FilterCount<T, K>(s: seq<T>, key: T -> K, k: K, x: T)
    ensures multiset(Filter(s, key, k))[x] == if key(x) == k then multiset(s)[x] else 0
  {
    if s != [] {
      var p, y := s[..|s| - 1], s[|s| - 1];
      assert s == p + [y];
      FilterCount(p, key, k, x);
    }
  }

  /** Filtering a filter by the same key changes nothing, by another key
      leaves nothing. */
  lemma {:induction false} FilterOfFilter<T, K>(s: seq<T>, key: T -> K, k: K, j: K)
    ensures Filter(Filter(s, key, k), key, j) == if j == k then Filter(s, key, k) else []
  {
    if s != [] {
      var p, y := s[..|s| - 1], s[|s| - 1];
      FilterOfFilter(p, key, k, j);
      var f := Filter(p, key, k);
      if key(y) == k {
        FilterConcat(f, [y], key, j);
        assert Filter([y], key, j) == Filter([], key, j) + (if key(y) == j then [y] else []);
      } else {
        assert Filter(s, key, k) == f;
      }
    }
  }

  /** Each bucket of the first loop of `sort(input, key1, …)` is the filter
      of the input by its key, so it keeps the input order; a key with no
      element has no bucket. */
  lemma {:induction false} GroupedNonNullIsFilter<T, K>(s: seq<T>, key: T -> Option<K>)
    ensures forall k :: Lookup(GroupedNonNull(s, key), k) == Filter(s, key, Some(k))
  {
    if s != [] {
      var p, x := s[..|s| - 1], s[|s| - 1];
      GroupedNonNullIsFilter(p, key);
    }
  }

  /** Each group of `sort(input, indexFunction)` is the filter of the input
      by its index, and every element's index has a group. */
  lemma {:induction false} GroupedIsFilter<T, K>(s: seq<T>, key: T -> K)
    ensures forall k :: Lookup(Grouped(s, key), k) == Filter(s, key, k)
    ensures forall i :: 0 <= i < |s| ==> key(s[i]) in Grouped(s, key)
  {
    if s != [] {
      var p, x := s[..|s| - 1], s[|s| - 1];
      GroupedIsFilter(p, key);
      assert forall i :: 0 <= i < |p| ==> s[i] == p[i];
    }
  }

  /** One iteration of the grouping loops. */
  lemma GroupedNonNullStep<T, K>(s: seq<T>, n: nat, key: T -> Option<K>)
    requires n < |s|
    ensures GroupedNonNull(s[..n + 1], key) ==
      if key(s[n]).Some? then AddTo(GroupedNonNull(s[..n], key), key(s[n]).value, s[n])
      else GroupedNonNull(s[..n], key)
  {
    assert s[..n + 1][..n] == s[..n];
  }

  lemma GroupedStep<T, K>(s: seq<T>, n: nat, key: T -> K)
    requires n < |s|
    ensures Grouped(s[..n + 1], key) == AddTo(Grouped(s[..n], key), key(s[n]), s[n])
  {
    assert s[..n + 1][..n] == s[..n];
  }

  // ---------------------------------------------------------------------
  // The interleaving

  /** One round of the `while` loop: the next bucket of each list that has
      one. */
  lemma MergedStep<T>(l1: seq<seq<T>>, l2: seq<seq<T>>)
    requires l1 != [] || l2 != []
    ensures Merged(l1, l2) ==
      (if l1 != [] then l1[0] else []) + (if l2 != [] then l2[0] else []) +
      Merged(if l1 != [] then l1[1..] else [], if l2 != [] then l2[1..] else [])
  {
    if l1 == [] {
      assert Merged(l1, l2[1..]) == Flatten(l2[1..]);
    } else if l2 == [] {
      if l1[1..] == [] {
        assert Flatten(l1[1..]) == [];
      }
      assert Merged(l1[1..], l2) == Flatten(l1[1..]);
    }
  }

  /** One round of the `while` loop at positions `i1` and `i2`. */
  lemma MergeRound<T>(l1: seq<seq<T>>, l2: seq<seq<T>>, i1: nat, i2: nat)
    requires i1 <= |l1| && i2 <= |l2| && (i1 < |l1| || i2 < |l2|)
    ensures Merged(l1[i1..], l2[i2..]) ==
      (if i1 < |l1| then l1[i1] else []) + (if i2 < |l2| then l2[i2] else []) +
      Merged(l1[if i1 < |l1| then i1 + 1 else i1..], l2[if i2 < |l2| then i2 + 1 else i2..])
  {
    MergedStep(l1[i1..], l2[i2..]);
    if i1 < |l1| {
      assert l1[i1..][1..] == l1[i1 + 1..];
    }
    if i2 < |l2| {
      assert l2[i2..][1..] == l2[i2 + 1..];
    }
  }

  lemma SeqAssoc<T>(w: seq<T>, x: seq<T>, y: seq<T>, z: seq<T>)
    ensures w + (x + y + z) == w + x + y + z
  {
  }

  lemma AppendEmpty<T>(s: seq<T>)
    ensures s + [] == s
  {
  }

  /** The positions `(i1, i2)` the `while` loop passes through: both
      advance together until one list runs out. */
  predicate InStep(i1: nat, i2: nat, n1: nat, n2: nat)
  {
    i1 <= n1 && i2 <= n2 && (i1 == i2 || (i1 < i2 && i1 == n1) || (i2 < i1 && i2 == n2))
  }

  /** What the `while` loop has appended once it has read the buckets
      `l1[..i1]` and `l2[..i2]`. */
  function Appended<T>(l1: seq<seq<T>>, l2: seq<seq<T>>, i1: nat, i2: nat): seq<T>
    requires i1 <= |l1| && i2 <= |l2|
    decreases i1 + i2
  {
    if i1 == 0 && i2 == 0 then []
    else if i1 == i2 then Appended(l1, l2, i1 - 1, i2 - 1) + l1[i1 - 1] + l2[i2 - 1]
    else if i2 < i1 then Appended(l1, l2, i1 - 1, i2) + l1[i1 - 1]
    else Appended(l1, l2, i1, i2 - 1) + l2[i2 - 1]
  }

  /** What has been appended, followed by the interleaving of the buckets
      not yet read, is the interleaving of all of them. */
  lemma {:induction false} AppendedMerged<T>(l1: seq<seq<T>>, l2: seq<seq<T>>, i1: nat, i2: nat)
    requires InStep(i1, i2, |l1|, |l2|)
    ensures Appended(l1, l2, i1, i2) + Merged(l1[i1..], l2[i2..]) == Merged(l1, l2)
    decreases i1 + i2, 1
  {
    if i1 == 0 && i2 == 0 {
      NothingAppended(l1, l2);
    } else if i1 == i2 {
      BothAdvance(l1, l2, i1);
    } else if i2 < i1 {
      FirstAdvances(l1, l2, i1, i2);
    } else {
      SecondAdvances(l1, l2, i1, i2);
    }
  }

  /** Before the first round nothing is appended and everything pending. */
  lemma NothingAppended<T>(l1: seq<seq<T>>, l2: seq<seq<T>>)
    ensures Appended(l1, l2, 0, 0) + Merged(l1[0..], l2[0..]) == Merged(l1, l2)
  {
    assert l1[0..] == l1 && l2[0..] == l2;
  }

  /** A round in which both lists contribute a bucket. */
  lemma {:induction false} BothAdvance<T>(l1: seq<seq<T>>, l2: seq<seq<T>>, i: nat)
    requires 0 < i <= |l1| && i <= |l2|
    ensures Appended(l1, l2, i, i) + Merged(l1[i..], l2[i..]) == Merged(l1, l2)
    decreases i + i, 0
  {
    AppendedMerged(l1, l2, i - 1, i - 1);
    MergeRound(l1, l2, i - 1, i - 1);
    SeqAssoc(Appended(l1, l2, i - 1, i - 1), l1[i - 1], l2[i - 1], Merged(l1[i..], l2[i..]));
  }

  /** A round in which only the first list has a bucket left. */
  lemma {:induction false} FirstAdvances<T>(l1: seq<seq<T>>, l2: seq<seq<T>>, i1: nat, i2: nat)
    requires i2 < i1 <= |l1| && i2 == |l2|
    ensures Appended(l1, l2, i1, i2) + Merged(l1[i1..], l2[i2..]) == Merged(l1, l2)
    decreases i1 + i2, 0
  {
    AppendedMerged(l1, l2, i1 - 1, i2);
    MergeRound(l1, l2, i1 - 1, i2);
    SeqAssoc(Appended(l1, l2, i1 - 1, i2), l1[i1 - 1], [], Merged(l1[i1..], l2[i2..]));
    AppendEmpty(Appended(l1, l2, i1 - 1, i2) + l1[i1 - 1]);
  }

  /** A round in which only the second list has a bucket left. */
  lemma {:induction false} SecondAdvances<T>(l1: seq<seq<T>>, l2: seq<seq<T>>, i1: nat, i2: nat)
    requires i1 < i2 <= |l2| && i1 == |l1|
    ensures Appended(l1, l2, i1, i2) + Merged(l1[i1..], l2[i2..]) == Merged(l1, l2)
    decreases i1 + i2, 0
  {
    AppendedMerged(l1, l2, i1, i2 - 1);
    MergeRound(l1, l2, i1, i2 - 1);
    SeqAssoc(Appended(l1, l2, i1, i2 - 1), [], l2[i2 - 1], Merged(l1[i1..], l2[i2..]));
    AppendEmpty(Appended(l1, l2, i1, i2 - 1));
  }

  /** One round of the `while` loop from `(i1, i2)`: each list that has
      a bucket left contributes it. */
  lemma AppendedStep<T>(l1: seq<seq<T>>, l2: seq<seq<T>>, i1: nat, i2: nat)
    requires InStep(i1, i2, |l1|, |l2|)
    ensures i1 < |l1| && i2 < |l2| ==>
              InStep(i1 + 1, i2 + 1, |l1|, |l2|) &&
              Appended(l1, l2, i1 + 1, i2 + 1) == Appended(l1, l2, i1, i2) + l1[i1] + l2[i2]
    ensures i1 < |l1| && i2 == |l2| ==>
              InStep(i1 + 1, i2, |l1|, |l2|) && Appended(l1, l2, i1 + 1, i2) == Appended(l1, l2, i1, i2) + l1[i1]
    ensures i1 == |l1| && i2 < |l2| ==>
              InStep(i1, i2 + 1, |l1|, |l2|) && Appended(l1, l2, i1, i2 + 1) == Appended(l1, l2, i1, i2) + l2[i2]
  {
  }

  /** Once every bucket has been read, all of the interleaving has been
      appended. */
  lemma AppendedAll<T>(l1: seq<seq<T>>, l2: seq<seq<T>>)
    ensures Appended(l1, l2, |l1|, |l2|) == Merged(l1, l2)
  {
    AppendedMerged(l1, l2, |l1|, |l2|);
    assert l1[|l1|..] == [] && l2[|l2|..] == [];
    assert Merged<T>([], []) == [];
  }

  /** The output holds the listed buckets and nothing else. */
  lemma {:induction false} FlattenCount<T>(l: seq<seq<T>>, x: T)
    ensures multiset(Flatten(l))[x] == SumCount(l, x)
  {
    if l != [] {
      FlattenCount(l[1..], x);
    }
  }

  /** How often `x` occurs in the buckets `l` together. */
  function SumCount<T(==)>(l: seq<seq<T>>, x: T): nat
  {
    if l == [] then 0 else multiset(l[0])[x] + SumCount(l[1..], x)
  }

  lemma {:induction false} MergedCount<T>(l1: seq<seq<T>>, l2: seq<seq<T>>, x: T)
    ensures multiset(Merged(l1, l2))[x] == SumCount(l1, x) + SumCount(l2, x)
    decreases |l1| + |l2|
  {
    if l1 == [] {
      FlattenCount(l2, x);
    } else if l2 == [] {
      FlattenCount(l1, x);
    } else {
      MergedCount(l1[1..], l2[1..], x);
    }
  }

  /** The buckets of the listed keys hold `x` once per listing of its key
      per occurrence of `x` in the input. */
  lemma {:induction false} BucketsCount<T, K>(s: seq<T>, key: T -> Option<K>, keys: seq<K>, x: T)
    ensures SumCount(KeyBuckets(s, key, keys), x) == Occurrences(keys, key(x)) * multiset(s)[x]
  {
    if keys != [] {
      BucketsCount(s, key, keys[1..], x);
      assert KeyBuckets(s, key, keys)[1..] == KeyBuckets(s, key, keys[1..]);
      FilterCount(s, key, Some(keys[0]), x);
      if key(x).Some? {
        var here, rest, n := if keys[0] == key(x).value then 1 else 0, Occurrences(keys[1..], key(x)), multiset(s)[x];
        assert here * n + rest * n == (here + rest) * n;
      }
    }
  }

  /** `sort(input, key1, keys1, key2, keys2)` emits each element once for
      each listing of its first key and once for each listing of its second
      key: with keys listed once, an element is dropped when neither key is
      listed (or both are `null`) and appears twice when both are. The length
      is the sum of the listed buckets' sizes. */
  lemma SortedByKeysCount<T, K1, K2>(input: seq<T>, key1: T -> Option<K1>, keys1: seq<K1>,
                                     key2: T -> Option<K2>, keys2: seq<K2>, x: T)
    ensures multiset(SortedByKeys(input, key1, keys1, key2, keys2))[x] ==
      (Occurrences(keys1, key1(x)) + Occurrences(keys2, key2(x))) * multiset(input)[x]
  {
    var l1, l2 := KeyBuckets(input, key1, keys1), KeyBuckets(input, key2, keys2);
    MergedCount(l1, l2, x);
    BucketsCount(input, key1, keys1, x);
    BucketsCount(input, key2, keys2, x);
  }

  lemma {:induction false} FlattenLength<T>(l: seq<seq<T>>)
    ensures |Flatten(l)| == SumLength(l)
  {
    if l != [] {
      FlattenLength(l[1..]);
    }
  }

  function SumLength<T>(l: seq<seq<T>>): nat
  {
    if l == [] then 0 else |l[0]| + SumLength(l[1..])
  }

  /** The output is exactly as long as the listed buckets together. */
  lemma {:induction false} MergedLength<T>(l1: seq<seq<T>>, l2: seq<seq<T>>)
    ensures |Merged(l1, l2)| == SumLength(l1) + SumLength(l2)
    decreases |l1| + |l2|
  {
    if l1 == [] {
      FlattenLength(l2);
    } else if l2 == [] {
      FlattenLength(l1);
    } else {
      MergedLength(l1[1..], l2[1..]);
    }
  }

  // ---------------------------------------------------------------------
  // The two sorts

  /** The first loop of `sort(input, orderingKey1, keys1, orderingKey2,
      keys2)`: each element goes to the end of the bucket of each of its
      non-`null` keys. */
  method Distribute<T, K1(==), K2(==)>(input: seq<T>, key1: T -> Option<K1>, key2: T -> Option<K2>)
    returns (k1Map: map<K1, seq<T>>, k2Map: map<K2, seq<T>>)
    ensures forall k :: Lookup(k1Map, k) == Filter(input, key1, Some(k))
    ensures forall k :: Lookup(k2Map, k) == Filter(input, key2, Some(k))
  {
    k1Map := map[];
    k2Map := map[];
    for n := 0 to |input|
      invariant k1Map == GroupedNonNull(input[..n], key1)
      invariant k2Map == GroupedNonNull(input[..n], key2)
    {
      GroupedNonNullStep(input, n, key1);
      GroupedNonNullStep(input, n, key2);
      var value := input[n];
      var k1 := key1(value);
      if k1.Some? {
        k1Map := AddTo(k1Map, k1.value, value);
      }
      var k2 := key2(value);
      if k2.Some? {
        k2Map := AddTo(k2Map, k2.value, value);
      }
    }
    assert input[..|input|] == input;
    GroupedNonNullIsFilter(input, key1);
    GroupedNonNullIsFilter(input, key2);
  }

  /** The second loop of `sort(input, orderingKey1, keys1, orderingKey2,
      keys2)`: the buckets of `keys1[i]` and `keys2[i]` in turn, a missing
      bucket adding nothing. */
  method Interleave<T, K1(==), K2(==)>(k1Map: map<K1, seq<T>>, keys1: seq<K1>, k2Map: map<K2, seq<T>>, keys2: seq<K2>)
    returns (result: seq<T>)
    ensures result == Merged(Buckets(k1Map, keys1), Buckets(k2Map, keys2))
  {
    ghost var l1, l2 := Buckets(k1Map, keys1), Buckets(k2Map, keys2);
    result := [];
    var i1, i2 := 0, 0;
    while i1 < |keys1| || i2 < |keys2|
      invariant InStep(i1, i2, |l1|, |l2|)
      invariant result == Appended(l1, l2, i1, i2)
      decreases |keys1| + |keys2| - i1 - i2
    {
      AppendedStep(l1, l2, i1, i2);
      if i1 < |keys1| {
        var listByK1 := Lookup(k1Map, keys1[i1]);
        result := result + listByK1;
        i1 := i1 + 1;
      }
      if i2 < |keys2| {
        var listByK2 := Lookup(k2Map, keys2[i2]);
        result := result + listByK2;
        i2 := i2 + 1;
      }
    }
    AppendedAll(l1, l2);
  }

  /** The buckets of a map that holds the filters are the filters. */
  lemma BucketsAreFilters<T, K>(m: map<K, seq<T>>, s: seq<T>, key: T -> Option<K>, keys: seq<K>)
    requires forall k :: Lookup(m, k) == Filter(s, key, Some(k))
    ensures Buckets(m, keys) == KeyBuckets(s, key, keys)
  {
  }

  /** `sort(input, orderingKey1, keys1, orderingKey2, keys2)`: the
      distribution into buckets, then the interleaving. */
  method SortByKeys<T, K1(==), K2(==)>(input: seq<T>, key1: T -> Option<K1>, keys1: seq<K1>,
                                       key2: T -> Option<K2>, keys2: seq<K2>) returns (result: seq<T>)
    ensures result == SortedByKeys(input, key1, keys1, key2, keys2)
  {
    var k1Map, k2Map := Distribute(input, key1, key2);
    BucketsAreFilters(k1Map, input, key1, keys1);
    BucketsAreFilters(k2Map, input, key2, keys2);
    result := Interleave(k1Map, keys1, k2Map, keys2);
  }

  /** The elements of `s` whose key is in `ks`, in input order. */
  function FilterIn<T, K>(s: seq<T>, key: T -> K, ks: set<K>): seq<T>
  {
    if s == [] then []
    else FilterIn(s[..|s| - 1], key, ks) + (if key(s[|s| - 1]) in ks then [s[|s| - 1]] else [])
  }

  lemma {:induction false} FilterInAdd<T, K>(s: seq<T>, key: T -> K, ks: set<K>, k: K)
    requires k !in ks
    ensures multiset(FilterIn(s, key, ks + {k})) == multiset(FilterIn(s, key, ks)) + multiset(Filter(s, key, k))
  {
    if s != [] {
      FilterInAdd(s[..|s| - 1], key, ks, k);
    }
  }

  lemma {:induction false} FilterInNone<T, K>(s: seq<T>, key: T -> K)
    ensures FilterIn(s, key, {}) == []
  {
    if s != [] {
      FilterInNone(s[..|s| - 1], key);
    }
  }

  /** The group of `j` if it is among `done`, else nothing. */
  function Emitted<T, K>(input: seq<T>, index: T -> K, done: set<K>, j: K): seq<T>
  {
    if j in done then Filter(input, index, j) else []
  }

  /** Appending the group of `k` to a result that holds the groups of
      `done`. */
  lemma AppendGroup<T, K>(input: seq<T>, index: T -> K, result: seq<T>, done: set<K>, k: K)
    requires k !in done
    requires multiset(result) == multiset(FilterIn(input, index, done))
    requires forall j :: Filter(result, index, j) == Emitted(input, index, done, j)
    ensures var r := result + Filter(input, index, k);
      multiset(r) == multiset(FilterIn(input, index, done + {k})) &&
      forall j :: Filter(r, index, j) == Emitted(input, index, done + {k}, j)
  {
    var part := Filter(input, index, k);
    forall j
      ensures Filter(result + part, index, j) == Emitted(input, index, done + {k}, j)
    {
      FilterConcat(result, part, index, j);
      FilterOfFilter(input, index, k, j);
    }
    FilterInAdd(input, index, done, k);
  }

  lemma {:induction false} FilterInAll<T, K>(s: seq<T>, key: T -> K, ks: set<K>)
    requires forall i :: 0 <= i < |s| ==> key(s[i]) in ks
    ensures FilterIn(s, key, ks) == s
  {
    if s != [] {
      var p, y := s[..|s| - 1], s[|s| - 1];
      forall i | 0 <= i < |p|
        ensures key(p[i]) in ks
      {
        assert p[i] == s[i];
      }
      FilterInAll(p, key, ks);
      assert key(y) in ks;
      assert FilterIn(s, key, ks) == FilterIn(p, key, ks) + [y];
      assert s == p + [y];
    }
  }

  /** `sort(input, indexFunction)`: a permutation of the input in which the
      elements of equal index keep their input order. The order between the
      groups follows the hash map and is left open. */
  method SortByIndex<T, K(==)>(input: seq<T>, index: T -> K) returns (result: seq<T>)
    ensures multiset(result) == multiset(input)
    ensures forall k :: Filter(result, index, k) == Filter(input, index, k)
  {
    var indexMap: map<K, seq<T>> := map[];
    for n := 0 to |input|
      invariant indexMap == Grouped(input[..n], index)
    {
      GroupedStep(input, n, index);
      indexMap := AddTo(indexMap, index(input[n]), input[n]);
    }
    assert input[..|input|] == input;
    GroupedIsFilter(input, index);
    result := [];
    var remaining := indexMap.Keys;
    ghost var done: set<K> := {};
    FilterInNone(input, index);
    while remaining != {}
      invariant done + remaining == indexMap.Keys && done !! remaining
      invariant multiset(result) == multiset(FilterIn(input, index, done))
      invariant forall k :: Filter(result, index, k) == Emitted(input, index, done, k)
      invariant forall k :: Lookup(indexMap, k) == Filter(input, index, k)
      decreases remaining
    {
      var k :| k in remaining;
      var part := indexMap[k];
      assert part == Filter(input, index, k) by {
        assert Lookup(indexMap, k) == Filter(input, index, k);
      }
      AppendGroup(input, index, result, done, k);
      result := result + part;
      remaining := remaining - {k};
      done := done + {k};
    }
    FilterInAll(input, index, done);
    AllEmitted(input, index, indexMap, result);
  }

  /** Once every group of the map is emitted, every group of the input
      is. */
  lemma AllEmitted<T, K>(input: seq<T>, index: T -> K, m: map<K, seq<T>>, result: seq<T>)
    requires forall k :: Lookup(m, k) == Filter(input, index, k)
    requires forall k :: Filter(result, index, k) == Emitted(input, index, m.Keys, k)
    ensures forall k :: Filter(result, index, k) == Filter(input, index, k)
  {
    forall k
      ensures Filter(result, index, k) == Filter(input, index, k)
    {
      assert Lookup(m, k) == Filter(input, index, k);
    }
  }

  // ---------------------------------------------------------------------
  // The sample of the class's own `main`

  datatype Letter = A | B | C
  datatype Double = AA | BB | CC

  /** An element with an identity and one of the two keys. */
  datatype U = U(id: int, k1: Option<Letter>, k2: Option<Double>)

  function Kept<T, K(==)>(x: T, key: T -> K, k: K): seq<T>
  {
    if key(x) == k then [x] else []
  }

  lemma FilterOfFive<T, K>(s: seq<T>, key: T -> K, k: K)
    requires |s| == 5
    ensures Filter(s, key, k) == Kept(s[0], key, k) + Kept(s[1], key, k) + Kept(s[2], key, k) +
      Kept(s[3], key, k) + Kept(s[4], key, k)
  {
    assert s[..4][..3] == s[..3] && s[..3][..2] == s[..2] && s[..2][..1] == s[..1] && s[..1][..0] == [];
    assert Filter(s[..1], key, k) == Kept(s[0], key, k);
    assert Filter(s[..2], key, k) == Filter(s[..1], key, k) + Kept(s[1], key, k);
    assert Filter(s[..3], key, k) == Filter(s[..2], key, k) + Kept(s[2], key, k);
    assert Filter(s[..4], key, k) == Filter(s[..3], key, k) + Kept(s[3], key, k);
    assert Filter(s, key, k) == Filter(s[..4], key, k) + Kept(s[4], key, k);
  }

  /** [CC1, B2, AA3, C4, B5] sorted by the letters A, B, C interleaved with
      AA, BB, CC gives [AA3, B2, B5, C4, CC1]: the buckets of A, BB and
      others with no element add nothing, and the two B elements keep their
      order. */
  lemma Sample()
    ensures var u1, u2, u3, u4, u5 := U(1, None, Some(CC)), U(2, Some(B), None), U(3, None, Some(AA)),
                                     U(4, Some(C), None), U(5, Some(B), None);
      SortedByKeys([u1, u2, u3, u4, u5], (u: U) => u.k1, [A, B, C], (u: U) => u.k2, [AA, BB, CC]) ==
      [u3, u2, u5, u4, u1]
  {
    var u1, u2, u3, u4, u5 := U(1, None, Some(CC)), U(2, Some(B), None), U(3, None, Some(AA)),
                             U(4, Some(C), None), U(5, Some(B), None);
    var s := [u1, u2, u3, u4, u5];
    var key1, key2 := (u: U) => u.k1, (u: U) => u.k2;
    FilterOfFive(s, key1, Some(A));
    FilterOfFive(s, key1, Some(B));
    FilterOfFive(s, key1, Some(C));
    FilterOfFive(s, key2, Some(AA));
    FilterOfFive(s, key2, Some(BB));
    FilterOfFive(s, key2, Some(CC));
    assert Filter(s, key1, Some(A)) == [];
    assert Filter(s, key1, Some(B)) == [u2, u5];
    assert Filter(s, key1, Some(C)) == [u4];
    assert Filter(s, key2, Some(AA)) == [u3];
    assert Filter(s, key2, Some(BB)) == [];
    assert Filter(s, key2, Some(CC)) == [u1];
    var l1 := [Filter(s, key1, Some(A)), Filter(s, key1, Some(B)), Filter(s, key1, Some(C))];
    var l2 := [Filter(s, key2, Some(AA)), Filter(s, key2, Some(BB)), Filter(s, key2, Some(CC))];
    assert KeyBuckets(s, key1, [A, B, C]) == l1;
    assert KeyBuckets(s, key2, [AA, BB, CC]) == l2;
    assert Merged(l1[3..], l2[3..]) == [];
    assert Merged(l1[2..], l2[2..]) == [u4] + [u1];
    assert Merged(l1[1..], l2[1..]) == [u2, u5] + [] + [u4, u1];
  }
}
