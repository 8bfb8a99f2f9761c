/** A fixed-size matrix of `Int`s stored row-major in one array, after
    IntMatrix.kt. Cell (i, j) lives in slot `i + j * width`. Each cell holds
    the 32-bit pattern of its `Int`. */
module IntMatrix {
  import opened Wrappers

  /** The `IndexOutOfBoundsException` of `get` and `set`. */
  datatype IndexError = IndexOutOfBounds

  /** The slot of cell (i, j) in a row-major store `width` cells wide. */
  function Slot(width: nat, i: nat, j: nat): nat
  {
    i + j * width
  }

  /** Distinct in-range cells occupy distinct slots, and every slot is below
      `width * height`. */
  lemma SlotInjective(width: nat, height: nat, i: nat, j: nat, i': nat, j': nat)
    requires i < width && j < height && i' < width && j' < height
    ensures Slot(width, i, j) < width * height
    ensures Slot(width, i, j) == Slot(width, i', j') ==> i == i' && j == j'
  {
    SlotBound(width, height, i, j);
    if Slot(width, i, j) == Slot(width, i', j') && j != j' {
      if j < j' {
        SlotGap(width, i, j, i', j');
      } else {
        SlotGap(width, i', j', i, j);
      }
    }
  }

  lemma SlotBound(width: nat, height: nat, i: nat, j: nat)
    requires i < width && j < height
    ensures Slot(width, i, j) < width * height
  {
    assert i + j * width < (j + 1) * width;
    assert (j + 1) * width <= height * width by { MulMonotone(j + 1, height, width); }
  }

  lemma SlotGap(width: nat, i: nat, j: nat, i': nat, j': nat)
    requires i < width && i' < width && j < j'
    ensures Slot(width, i, j) < Slot(width, i', j')
  {
    assert (j + 1) * width <= j' * width by { MulMonotone(j + 1, j', width); }
  }

  lemma MulMonotone(x: nat, y: nat, w: nat)
    requires x <= y
    ensures x * w <= y * w
  {
  }

  class IntMatrix {
    const width: nat
    const height: nat
    const store: array<bv32>

    ghost predicate Valid()
    {
      store.Length == width * height
    }

    predicate InRange(i: int, j: int)
    {
      0 <= i < width && 0 <= j < height
    }

    /** The value of in-range cell (i, j). */
    function At(i: nat, j: nat): bv32
      requires Valid() && InRange(i, j)
      reads store
    {
      SlotBound(width, height, i, j);
      store[Slot(width, i, j)]
    }

    /** A new matrix: `IntArray(width * height)` is all zeros. */
    constructor (width: nat, height: nat)
      ensures this.width == width && this.height == height
      ensures Valid() && fresh(store)
      ensures forall i, j :: InRange(i, j) ==> At(i, j) == 0
    {
      this.width := width;
      this.height := height;
      store := new bv32[width * height](_ => 0);
      new;
      forall i, j | InRange(i, j)
        ensures At(i, j) == 0
      {
        SlotBound(width, height, i, j);
      }
    }

    /** `get(i, j)`: the cell, or the exception for an out-of-range index. */
    function Get(i: int, j: int): (r: Result<bv32, IndexError>)
      requires Valid()
      reads store
      ensures r.Ok? <==> InRange(i, j)
      ensures r.Ok? ==> r.value == At(i, j)
    {
      if i < 0 || j < 0 || i >= width || j >= height then Err(IndexOutOfBounds)
      else SlotBound(width, height, i, j); Ok(store[i + j * width])
    }

    /** `set(i, j, value)`: an in-range index updates that cell alone; an
        out-of-range one throws before anything is written. */
    method Set(i: int, j: int, value: bv32) returns (r: Result<(), IndexError>)
      requires Valid()
      modifies store
      ensures r.Ok? <==> InRange(i, j)
      ensures r.Ok? ==> At(i, j) == value
      ensures forall i', j' :: InRange(i', j') && (i', j') != (i, j) ==> At(i', j') == old(At(i', j'))
      ensures r.Err? ==> unchanged(store)
    {
      if i < 0 || j < 0 || i >= width || j >= height {
        return Err(IndexOutOfBounds);
      }
      SlotBound(width, height, i, j);
      store[i + j * width] := value;
      forall i', j' | InRange(i', j') && (i', j') != (i, j)
        ensures Slot(width, i', j') != Slot(width, i, j)
      {
        SlotInjective(width, height, i, j, i', j');
      }
      return Ok(());
    }

    /** `fill(value)`: every cell becomes `value`. */
    method Fill(value: bv32)
      requires Valid()
      modifies store
      ensures forall i, j :: InRange(i, j) ==> At(i, j) == value
      ensures forall k :: 0 <= k < store.Length ==> store[k] == value
    {
      var k := 0;
      while k < store.Length
        invariant 0 <= k <= store.Length
        invariant forall m :: 0 <= m < k ==> store[m] == value
      {
        store[k] := value;
        k := k + 1;
      }
      forall i, j | InRange(i, j)
        ensures At(i, j) == value
      {
        SlotBound(width, height, i, j);
      }
    }
  }
}
