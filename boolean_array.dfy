/** A one-dimensional bit array, after BooleanArray.kt: a `BooleanMatrix`
    with a single row. */
module BooleanArray {
  import opened Wrappers
  import IM = IntMatrix
  import BM = BooleanMatrix

  class BooleanArray {
    const store: BM.BooleanMatrix

    ghost predicate Valid()
    {
      store.Valid() && store.height == 1
    }

    /** The value of index i: cell (i, 0) of the backing matrix. */
    function Element(i: nat): bool
      requires Valid() && i < store.width
      reads store.store.store
    {
      store.Cell(i, 0)
    }

    /** A new array of `size` bits, all false. */
    constructor (size: nat)
      ensures Valid() && fresh(store) && fresh(store.store) && fresh(store.store.store)
      ensures Size() == size
      ensures forall i :: 0 <= i < size ==> !Element(i)
    {
      store := new BM.BooleanMatrix(size, 1);
    }

    /** `size`: the width of the backing matrix. */
    function Size(): nat
    {
      store.width
    }

    /** `get(i)`: index i, or the exception outside [0, size). */
    function Get(i: int): (r: Result<bool, IM.IndexError>)
      requires Valid()
      reads store.store.store
      ensures r.Ok? <==> 0 <= i < Size()
      ensures r.Ok? ==> r.value == Element(i)
    {
      store.Get(i, 0)
    }

    /** `set(i, value)`: `set(i, 0, value)` on the matrix. Exactly index
        `TargetColumn(i)` takes the value: i itself when it is in range,
        i + 32 for an index in (-32, 0), and a padding bit no index shows for
        an index past the size in the last word. */
    method Set(i: int, value: bool) returns (r: Result<(), IM.IndexError>)
      requires Valid()
      modifies store.store.store
      ensures r.Ok? <==> Size() > 0 && -32 < i < 32 * BM.BatchCount(Size())
      ensures r.Ok? ==> forall k :: 0 <= k < Size() ==>
        Element(k) == if k == BM.TargetColumn(i) then value else old(Element(k))
      ensures r.Ok? && 0 <= i < Size() ==> Element(i) == value
      ensures r.Err? ==> unchanged(store.store.store)
    {
      r := store.Set(i, 0, value);
    }

    /** `fill(value)`: every index reads `value`. */
    method Fill(value: bool)
      requires Valid()
      modifies store.store.store
      ensures forall i :: 0 <= i < Size() ==> Element(i) == value
    {
      store.Fill(value);
    }

    /** `toString()`: the matrix's single line. */
    method ToString() returns (s: string)
      requires Valid()
      ensures s == store.Rows(1)
      ensures |s| == 2 * Size() + 1
    {
      s := store.ToString();
    }
  }
}
