/** A map that holds either one value for all keys or one value per key,
    after MapOrSingle.java.

    `State` is the abstract content of a `MapOrSingle`: the declared `keys`,
    the `singleValue` (`None` is `null`) and the per-key `delegate`. The pure
    functions over `State` say what each operation does; the class performs
    the operations in place and is proved to agree with them. Every failing
    check throws an `IllegalArgumentException`, modelled as a `MapError`
    returned before anything changes. */
module MapOrSingle {
  import opened Wrappers

  datatype MapError<K, V> =
    | KeyNotDefined(key: K)                    // get: no value for the key
    | ValuesForKeysDefined(defined: set<K>)    // setSingleValue: per-key values exist
    | DifferentSingleValue(current: V)         // setSingleValue: another single value
    | SingleValueDefined(current: V)           // put: a single value exists
    | ValueForKeyDefined(key: K, current: V)   // put: another value for the key
    | KeyNotListed(key: K)                     // put: key missing from setKeys
    | ValuesNotDefined                         // assertDefined: nothing set
    | KeysNotDefined(undefined: set<K>)        // assertDefined: keys without values

  datatype State<K, V> = State(keys: set<K>, singleValue: Option<V>, delegate: map<K, V>)
  {
    /** The two modes exclude each other: a single value only while no
        per-key value exists. */
    predicate Valid()
    {
      singleValue.Some? ==> delegate == map[]
    }
  }

  /** `get(key)`: the single value for every key, else the key's own value,
      else an error. */
  function GetOf<K(==), V(==)>(s: State<K, V>, key: K): (r: Result<V, MapError<K, V>>)
    ensures s.singleValue.Some? ==> r == Ok(s.singleValue.value)
    ensures s.singleValue.None? ==> (r.Ok? <==> key in s.delegate)
    ensures s.singleValue.None? && key in s.delegate ==> r.value == s.delegate[key]
    ensures r.Err? ==> r.error == KeyNotDefined(key)
  {
    if s.singleValue.Some? then Ok(s.singleValue.value)
    else if key !in s.delegate then Err(KeyNotDefined(key))
    else Ok(s.delegate[key])
  }

  /** `setSingleValue(value)`: refused while per-key values exist or while a
      different single value is set; `null` leaves an unset single value
      unset. */
  function AfterSetSingleValue<K(==), V(==)>(s: State<K, V>, value: Option<V>): (r: Result<State<K, V>, MapError<K, V>>)
    ensures r.Ok? <==> s.delegate == map[] && (s.singleValue.Some? ==> s.singleValue == value)
    ensures r.Ok? ==> r.value == s.(singleValue := value)
    ensures s.delegate != map[] ==> r == Err(ValuesForKeysDefined(s.delegate.Keys))
  {
    if s.delegate != map[] then Err(ValuesForKeysDefined(s.delegate.Keys))
    else if s.singleValue.Some? && Some(s.singleValue.value) != value then
      Err(DifferentSingleValue(s.singleValue.value))
    else Ok(s.(singleValue := value))
  }

  /** `put(key, value)`: refused in single mode, for a key already holding
      another value, and for a key outside `keys`, in that order. */
  function AfterPut<K(==), V(==)>(s: State<K, V>, key: K, value: V): (r: Result<State<K, V>, MapError<K, V>>)
    ensures r.Ok? <==>
      s.singleValue.None? && (key in s.delegate ==> s.delegate[key] == value) && key in s.keys
    ensures r.Ok? ==> r.value.keys == s.keys && r.value.singleValue == s.singleValue
    ensures r.Ok? ==> r.value.delegate.Keys == s.delegate.Keys + {key}
    ensures s.singleValue.Some? ==> r == Err(SingleValueDefined(s.singleValue.value))
    ensures s.singleValue.None? && key in s.delegate && s.delegate[key] != value ==>
      r == Err(ValueForKeyDefined(key, s.delegate[key]))
  {
    if s.singleValue.Some? then Err(SingleValueDefined(s.singleValue.value))
    else if key in s.delegate && s.delegate[key] != value then
      Err(ValueForKeyDefined(key, s.delegate[key]))
    else if key !in s.keys then Err(KeyNotListed(key))
    else Ok(s.(delegate := s.delegate[key := value]))
  }

  /** `assertDefined()`: a single value, or per-key values covering every
      key. */
  function Defined<K(==), V(==)>(s: State<K, V>): (r: Result<(), MapError<K, V>>)
    ensures r.Ok? <==> s.singleValue.Some? || (s.delegate != map[] && s.keys <= s.delegate.Keys)
    ensures r.Err? && s.delegate != map[] ==>
      r.error.KeysNotDefined? && r.error.undefined != {} && r.error.undefined == s.keys - s.delegate.Keys
  {
    if s.singleValue.Some? then Ok(())
    else if s.delegate == map[] then Err(ValuesNotDefined)
    else if !(s.keys <= s.delegate.Keys) then
      NotSubsetLeavesSome(s.keys, s.delegate.Keys);
      Err(KeysNotDefined(s.keys - s.delegate.Keys))
    else Ok(())
  }

  lemma NotSubsetLeavesSome<K>(a: set<K>, b: set<K>)
    requires !(a <= b)
    ensures a - b != {}
  {
    var k :| k in a && k !in b;
    assert k in a - b;
  }

  /** The keys the delegate maps to `value`. */
  function Matching<K(==,!new), V(==)>(delegate: map<K, V>, value: V): (r: set<K>)
    ensures forall k :: k in r <==> k in delegate && delegate[k] == value
  {
    set k | k in delegate && delegate[k] == value
  }

  /** `getKeysByValue(value)`: nothing for `null`; in single mode with that
      value every key, or a lone `null` key when there are none; otherwise
      the keys mapped to the value. A `None` element is the `null` key. */
  function KeysWithValue<K(==,!new), V(==)>(s: State<K, V>, value: Option<V>): (r: set<Option<K>>)
    ensures value.None? ==> r == {}
    ensures value.Some? && s.singleValue == value && s.keys == {} ==> r == {None}
    ensures value.Some? && s.singleValue == value ==> forall k :: Some(k) in r <==> k in s.keys
    ensures value.Some? && s.singleValue != value ==>
      forall k :: Some(k) in r <==> k in s.delegate && s.delegate[k] == value.value
    ensures None in r ==> s.keys == {}
  {
    if value.None? then {}
    else if s.singleValue == value then
      if s.keys == {} then {None} else set k | k in s.keys :: Some(k)
    else set k | k in Matching(s.delegate, value.value) :: Some(k)
  }

  /** Every operation keeps the two modes apart. */
  lemma ModesStayExclusive<K, V>(s: State<K, V>, key: K, value: V, single: Option<V>, keys: set<K>)
    requires s.Valid()
    ensures AfterPut(s, key, value).Ok? ==> AfterPut(s, key, value).value.Valid()
    ensures AfterSetSingleValue(s, single).Ok? ==> AfterSetSingleValue(s, single).value.Valid()
    ensures s.(keys := keys).Valid()
  {
  }

  /** Once a single value is set, `get` returns it for every key, and `put`
      is refused. */
  lemma SingleValueEverywhere<K, V>(s: State<K, V>, v: V, key: K, other: V)
    requires AfterSetSingleValue(s, Some(v)).Ok?
    ensures GetOf(AfterSetSingleValue(s, Some(v)).value, key) == Ok(v)
    ensures AfterPut(AfterSetSingleValue(s, Some(v)).value, key, other) == Err(SingleValueDefined(v))
  {
  }

  /** Setting the same single value again changes nothing; a different one is
      refused. */
  lemma SetSingleValueIdempotent<K, V>(s: State<K, V>, v: V, w: V)
    requires AfterSetSingleValue(s, Some(v)).Ok?
    ensures var t := AfterSetSingleValue(s, Some(v)).value;
      AfterSetSingleValue(t, Some(v)) == Ok(t) &&
      (w != v ==> AfterSetSingleValue(t, Some(w)) == Err(DifferentSingleValue(v)))
  {
  }

  /** After a successful `put`, `get` of that key returns the value and every
      other key reads as before; putting the same pair again is a no-op. */
  lemma {:induction false} GetAfterPut<K, V>(s: State<K, V>, key: K, value: V, other: K)
    requires AfterPut(s, key, value).Ok?
    ensures var t := AfterPut(s, key, value).value;
      GetOf(t, key) == Ok(value) &&
      (other != key ==> GetOf(t, other) == GetOf(s, other)) &&
      AfterPut(t, key, value) == Ok(t)
  {
    var t := AfterPut(s, key, value).value;
    assert t.delegate == s.delegate[key := value];
    assert t.delegate[key := value] == t.delegate;
  }

  /** Per-key values block a single value, and a key without a value fails
      `get` in per-key mode. */
  lemma PerKeyMode<K, V>(s: State<K, V>, key: K, v: Option<V>)
    requires s.delegate != map[] || (s.singleValue.None? && key !in s.delegate)
    ensures s.delegate != map[] ==> AfterSetSingleValue(s, v).Err?
    ensures s.singleValue.None? && key !in s.delegate ==> GetOf(s, key) == Err(KeyNotDefined(key))
  {
  }

  /** With per-key values and no single value, `getKeysByValue` gives the
      keys mapped to the value, which are exactly the keys `get` answers with
      it. */
  lemma KeysWithValueAgreesWithGet<K(!new), V>(s: State<K, V>, v: V, key: K)
    requires s.singleValue.None?
    ensures Some(key) in KeysWithValue(s, Some(v)) <==> GetOf(s, key) == Ok(v)
    ensures None !in KeysWithValue(s, Some(v))
  {
  }

  class MapOrSingle<K(==,!new), V(==)> {
    var keys: set<K>
    var singleValue: Option<V>
    var delegate: map<K, V>

    /** The abstract content. */
    function Model(): State<K, V>
      reads this
    {
      State(keys, singleValue, delegate)
    }

    /** `MapOrSingle(keys)`: no value of either kind yet. */
    constructor (keys: set<K>)
      ensures Model() == State(keys, None, map[]) && Model().Valid()
    {
      this.keys := keys;
      singleValue := None;
      delegate := map[];
    }

    /** `setKeys(keys)`: replaces the declared keys. */
    method SetKeys(keys: set<K>)
      modifies this
      ensures Model() == old(Model()).(keys := keys)
    {
      this.keys := keys;
    }

    /** `get(key)`. */
    method Get(key: K) returns (r: Result<V, MapError<K, V>>)
      ensures r == GetOf(Model(), key)
    {
      if singleValue.Some? {
        return Ok(singleValue.value);
      }
      if key !in delegate {
        return Err(KeyNotDefined(key));
      }
      return Ok(delegate[key]);
    }

    /** `setSingleValue(value)`. */
    method SetSingleValue(value: Option<V>) returns (r: Result<(), MapError<K, V>>)
      modifies this
      ensures AfterSetSingleValue(old(Model()), value).Ok? ==>
        r.Ok? && Model() == AfterSetSingleValue(old(Model()), value).value
      ensures AfterSetSingleValue(old(Model()), value).Err? ==>
        r == Err(AfterSetSingleValue(old(Model()), value).error) && Model() == old(Model())
    {
      if delegate != map[] {
        return Err(ValuesForKeysDefined(delegate.Keys));
      }
      if singleValue.Some? && Some(singleValue.value) != value {
        return Err(DifferentSingleValue(singleValue.value));
      }
      singleValue := value;
      return Ok(());
    }

    /** `put(key, value)`: every check comes before the one update. */
    method Put(key: K, value: V) returns (r: Result<(), MapError<K, V>>)
      modifies this
      ensures AfterPut(old(Model()), key, value).Ok? ==>
        r.Ok? && Model() == AfterPut(old(Model()), key, value).value
      ensures AfterPut(old(Model()), key, value).Err? ==>
        r == Err(AfterPut(old(Model()), key, value).error) && Model() == old(Model())
    {
      if singleValue.Some? {
        return Err(SingleValueDefined(singleValue.value));
      }
      if key in delegate && delegate[key] != value {
        return Err(ValueForKeyDefined(key, delegate[key]));
      }
      if key !in keys {
        return Err(KeyNotListed(key));
      }
      delegate := delegate[key := value];
      return Ok(());
    }

    /** `assertDefined()`. */
    method AssertDefined() returns (r: Result<(), MapError<K, V>>)
      ensures r == Defined(Model())
    {
      if singleValue.Some? {
        return Ok(());
      }
      if delegate == map[] {
        return Err(ValuesNotDefined);
      }
      if !(keys <= delegate.Keys) {
        return Err(KeysNotDefined(keys - delegate.Keys));
      }
      return Ok(());
    }

    /** `getKeysByValue(value)`: the per-key case walks the delegate and
        collects the keys holding the value. */
    method GetKeysByValue(value: Option<V>) returns (result: set<Option<K>>)
      ensures result == KeysWithValue(Model(), value)
    {
      if value.None? {
        return {};
      }
      if singleValue == value {
        if keys == {} {
          return {None};
        }
        return set k | k in keys :: Some(k);
      }
      result := {};
      var remaining := delegate.Keys;
      while remaining != {}
        invariant remaining <= delegate.Keys
        invariant forall k :: Some(k) in result <==>
          k in delegate && k !in remaining && delegate[k] == value.value
        invariant None !in result
        decreases remaining
      {
        var k :| k in remaining;
        if delegate[k] == value.value {
          result := result + {Some(k)};
        }
        remaining := remaining - {k};
      }
      SameOptionSets(result, KeysWithValue(Model(), value));
    }
  }

  /** Two sets of optional keys without `None` and with the same keys are
      equal. */
  lemma SameOptionSets<K>(a: set<Option<K>>, b: set<Option<K>>)
    requires None !in a && None !in b
    requires forall k :: Some(k) in a <==> Some(k) in b
    ensures a == b
  {
    forall x | x in a ensures x in b {
      assert Some(x.value) in a;
    }
    forall x | x in b ensures x in a {
      assert Some(x.value) in b;
    }
  }
}
