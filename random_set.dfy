/** A set of integers with constant-time add, contains, remove and random
    pick, after the `RandomSetTest` implementation in RandomSet.java.

    The elements sit in a list `values`; `valueToIndex` maps each element to
    its position. Removal moves the last element into the vacated slot. The
    pure `Store` functions say what each operation does; the class performs
    the operations in place. The pseudo-random generator is replaced by an
    arbitrary choice of index. */
module RandomSet {
  import opened Wrappers

  datatype Store = Store(values: seq<int>, valueToIndex: map<int, int>)
  {
    /** `valueToIndex` indexes `values` exactly: every listed value maps to
        its position and every mapped value sits at its position. Hence
        `values` has no duplicates and the map's keys are its elements. */
    ghost predicate Valid()
    {
      (forall i :: 0 <= i < |values| ==> values[i] in valueToIndex && valueToIndex[values[i]] == i) &&
      (forall v :: v in valueToIndex ==> 0 <= valueToIndex[v] < |values| && values[valueToIndex[v]] == v)
    }

    /** The elements of the set. */
    function Elements(): set<int>
    {
      valueToIndex.Keys
    }
  }

  const EMPTY: Store := Store([], map[])

  /** `add(value)`: a present value changes nothing; a new one goes at the
      end of `values`. */
  function Added(s: Store, value: int): (r: Store)
    ensures value in s.valueToIndex ==> r == s
    ensures value !in s.valueToIndex ==> r.values == s.values + [value]
  {
    if value in s.valueToIndex then s
    else Store(s.values + [value], s.valueToIndex[value := |s.values|])
  }

  /** `remove(value)`: an absent value changes nothing; otherwise the last
      element takes the removed one's slot and the list shrinks by one. */
  function Removed(s: Store, value: int): (r: Store)
    requires s.Valid()
    ensures value !in s.valueToIndex ==> r == s
    ensures value in s.valueToIndex ==> |r.values| == |s.values| - 1
  {
    if value !in s.valueToIndex then s
    else
      var i := s.valueToIndex[value];
      var last := |s.values| - 1;
      if i != last then
        var lastValue := s.values[last];
        Store(s.values[i := lastValue][..last], s.valueToIndex[lastValue := i] - {value})
      else
        Store(s.values[..last], s.valueToIndex - {value})
  }

  /** `contains(value)`: the value is a key of the index, that is, one of
      the listed values. */
  lemma ContainsIsListed(s: Store, value: int)
    requires s.Valid()
    ensures value in s.Elements() <==> value in s.values
  {
    if value in s.values {
      var i :| 0 <= i < |s.values| && s.values[i] == value;
    }
  }

  /** The set is empty exactly when the list is, which is when `getRandom`
      answers `null`. */
  lemma EmptyIffNoValues(s: Store)
    requires s.Valid()
    ensures s.Elements() == {} <==> s.values == []
  {
    if s.values != [] {
      assert s.values[0] in s.Elements();
    }
    if s.values == [] {
      assert forall v :: v !in s.valueToIndex;
    }
  }

  /** `add` keeps the index exact and adds the value to the set. */
  lemma AddedValid(s: Store, value: int)
    requires s.Valid()
    ensures Added(s, value).Valid()
    ensures Added(s, value).Elements() == s.Elements() + {value}
  {
  }

  /** `remove` keeps the index exact, takes the value out of the set, and
      keeps every other element, moving at most the last one. */
  lemma RemovedValid(s: Store, value: int)
    requires s.Valid()
    ensures Removed(s, value).Valid()
    ensures Removed(s, value).Elements() == s.Elements() - {value}
    ensures value in s.valueToIndex ==>
      multiset(Removed(s, value).values) == multiset(s.values) - multiset{value}
  {
    if value in s.valueToIndex {
      if s.valueToIndex[value] == |s.values| - 1 {
        RemovedLast(s, value);
      } else {
        RemovedInside(s, value);
      }
    }
  }

  lemma RemovedLast(s: Store, value: int)
    requires s.Valid() && value in s.valueToIndex && s.valueToIndex[value] == |s.values| - 1
    ensures Removed(s, value).Valid()
    ensures Removed(s, value).Elements() == s.Elements() - {value}
    ensures multiset(Removed(s, value).values) == multiset(s.values) - multiset{value}
  {
    var last := |s.values| - 1;
    assert s.values == s.values[..last] + [value];
  }

  /** Removal from inside the list: the last element moves into slot `i`. */
  lemma RemovedInside(s: Store, value: int)
    requires s.Valid() && value in s.valueToIndex && s.valueToIndex[value] != |s.values| - 1
    ensures Removed(s, value).Valid()
    ensures Removed(s, value).Elements() == s.Elements() - {value}
    ensures multiset(Removed(s, value).values) == multiset(s.values) - multiset{value}
  {
    var i := s.valueToIndex[value];
    var last := |s.values| - 1;
    var lastValue := s.values[last];
    var r := Removed(s, value);
    assert r.values == s.values[..i] + [lastValue] + s.values[i + 1..last];
    assert s.values == s.values[..i] + [value] + s.values[i + 1..last] + [lastValue];
    RemovedInsideListed(s, value);
    RemovedInsideMapped(s, value);
  }

  lemma RemovedInsideListed(s: Store, value: int)
    requires s.Valid() && value in s.valueToIndex && s.valueToIndex[value] != |s.values| - 1
    ensures var r := Removed(s, value);
      forall j :: 0 <= j < |r.values| ==> r.values[j] in r.valueToIndex && r.valueToIndex[r.values[j]] == j
  {
    var i := s.valueToIndex[value];
    var r := Removed(s, value);
    forall j | 0 <= j < |r.values|
      ensures r.values[j] in r.valueToIndex && r.valueToIndex[r.values[j]] == j
    {
      if j != i {
        assert r.values[j] == s.values[j];
      }
    }
  }

  lemma RemovedInsideMapped(s: Store, value: int)
    requires s.Valid() && value in s.valueToIndex && s.valueToIndex[value] != |s.values| - 1
    ensures var r := Removed(s, value);
      forall v :: v in r.valueToIndex ==> 0 <= r.valueToIndex[v] < |r.values| && r.values[r.valueToIndex[v]] == v
  {
  }

  /** The operations a caller may apply. */
  datatype Op = Add(value: int) | Remove(value: int)

  /** The store after applying `ops` in order. */
  function Run(s: Store, ops: seq<Op>): (r: Store)
    requires s.Valid()
    ensures r.Valid()
    decreases |ops|
  {
    if ops == [] then s
    else
      var v := ops[0].value;
      AddedValid(s, v);
      RemovedValid(s, v);
      var next := if ops[0].Add? then Added(s, v) else Removed(s, v);
      Run(next, ops[1..])
  }

  /** The elements of a mathematical set after the same operations. */
  function SetAfter(elements: set<int>, ops: seq<Op>): set<int>
    decreases |ops|
  {
    if ops == [] then elements
    else
      var v := ops[0].value;
      var next := if ops[0].Add? then elements + {v} else elements - {v};
      SetAfter(next, ops[1..])
  }

  /** `contains(v)` holds exactly when `v` was added and not removed since:
      the store follows the set semantics whatever the operations. */
  lemma {:induction false} RunFollowsSet(s: Store, ops: seq<Op>)
    requires s.Valid()
    ensures Run(s, ops).Elements() == SetAfter(s.Elements(), ops)
    decreases |ops|
  {
    if ops != [] {
      var v := ops[0].value;
      AddedValid(s, v);
      RemovedValid(s, v);
      RunFollowsSet(if ops[0].Add? then Added(s, v) else Removed(s, v), ops[1..]);
    }
  }

  /** Adding a value twice and removing it once leaves the set empty. */
  lemma AddTwiceRemoveOnce(v: int)
    ensures Run(EMPTY, [Add(v), Add(v), Remove(v)]).values == []
  {
    var ops := [Add(v), Add(v), Remove(v)];
    RunFollowsSet(EMPTY, ops);
    var e: set<int> := {};
    assert EMPTY.Elements() == e;
    var ops1, ops2, ops3 := ops[1..], ops[1..][1..], ops[1..][1..][1..];
    assert ops1 == [Add(v), Remove(v)] && ops2 == [Remove(v)] && ops3 == [];
    assert SetAfter(e, ops) == SetAfter(e + {v}, ops1);
    assert SetAfter(e + {v}, ops1) == SetAfter(e + {v} + {v}, ops2);
    assert SetAfter(e + {v} + {v}, ops2) == SetAfter(e + {v} + {v} - {v}, ops3);
    assert e + {v} + {v} - {v} == e;
    var r := Run(EMPTY, ops);
    assert r.Elements() == {};
    EmptyIffNoValues(r);
  }

  class RandomSet {
    var values: seq<int>
    var valueToIndex: map<int, int>

    function Model(): Store
      reads this
    {
      Store(values, valueToIndex)
    }

    ghost predicate Valid()
      reads this
    {
      Model().Valid()
    }

    constructor ()
      ensures Model() == EMPTY && Valid()
    {
      values := [];
      valueToIndex := map[];
    }

    /** `add(value)`. */
    method Add(value: int)
      requires Valid()
      modifies this
      ensures Model() == Added(old(Model()), value) && Valid()
      ensures Model().Elements() == old(Model().Elements()) + {value}
    {
      AddedValid(Model(), value);
      if value in valueToIndex {
        return;
      }
      var newIndex := |values|;
      values := values + [value];
      valueToIndex := valueToIndex[value := newIndex];
    }

    /** `contains(value)`. */
    function Contains(value: int): (b: bool)
      requires Valid()
      reads this
      ensures b <==> value in values
    {
      ContainsIsListed(Model(), value);
      value in valueToIndex
    }

    /** `getRandom()`: `None` (`null`) for an empty set, else some element;
        which one the generator picks is left open. */
    method GetRandom() returns (r: Option<int>)
      requires Valid()
      ensures r.None? <==> values == []
      ensures r.Some? ==> r.value in values && Contains(r.value)
    {
      if values == [] {
        return None;
      }
      var randomIndex :| 0 <= randomIndex < |values|;
      return Some(values[randomIndex]);
    }

    /** `remove(value)`: the last element is moved into the removed value's
        slot before the list is shortened. */
    method Remove(value: int)
      requires Valid()
      modifies this
      ensures Model() == Removed(old(Model()), value) && Valid()
      ensures Model().Elements() == old(Model().Elements()) - {value}
    {
      RemovedValid(Model(), value);
      if value !in valueToIndex {
        return;
      }
      var indexToRemove := valueToIndex[value];
      var lastIndex := |values| - 1;
      if indexToRemove != lastIndex {
        var lastValue := values[lastIndex];
        values := values[indexToRemove := lastValue];
        valueToIndex := valueToIndex[lastValue := indexToRemove];
      }
      values := values[..lastIndex];
      valueToIndex := valueToIndex - {value};
    }
  }
}
