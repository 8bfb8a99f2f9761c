/** A matrix of booleans packed 32 to an `Int`, after BooleanMatrix.kt.

    Row j of the matrix is row j of an `IntMatrix` that is ⌈width / 32⌉
    words wide; cell (i, j) is bit `i % 32` of word (i / 32, j). `get`
    checks the cell's own bounds, but `set` relies on the bounds check of the
    word it reads, so it accepts a column in the padding past `width`, and a
    column in (-32, 0), whose truncated quotient is word 0 and whose shift
    distance `1 shl index` takes modulo 32. */
module BooleanMatrix {
  import opened Wrappers
  import opened JavaInt
  import IM = IntMatrix

  /** `Integer.SIZE`. */
  const INTEGER_SIZE: nat := 32

  /** `1 shl index`: the JVM uses only the low five bits of the distance. */
  function Mask(index: int): bv32
  {
    Bit(index % 32)
  }

  /** The word with only bit k set. */
  function Bit(k: nat): bv32
    requires k < 32
  {
    1 << k
  }

  function GetBit(data: bv32, index: int): bool
  {
    data & Mask(index) != 0
  }

  function SetBit(data: bv32, index: int): bv32
  {
    data | Mask(index)
  }

  function UnsetBit(data: bv32, index: int): bv32
  {
    data & !Mask(index)
  }

  /** `setBit` turns on the one bit `index` names and keeps the others. */
  lemma SetBitSpec(data: bv32, index: int, m: int)
    ensures GetBit(SetBit(data, index), m) == (index % 32 == m % 32 || GetBit(data, m))
  {
    if index % 32 == m % 32 {
      assert Mask(index) == Mask(m);
      SetSameBit(data, index);
    } else {
      SetOtherBit(data, index, m);
    }
  }

  /** `unsetBit` turns off the one bit `index` names and keeps the others. */
  lemma UnsetBitSpec(data: bv32, index: int, m: int)
    ensures GetBit(UnsetBit(data, index), m) == (index % 32 != m % 32 && GetBit(data, m))
  {
    if index % 32 == m % 32 {
      assert Mask(index) == Mask(m);
      UnsetSameBit(data, index);
    } else {
      UnsetOtherBit(data, index, m);
    }
  }

  /** All ones reads true at every bit and zero reads false. */
  lemma FilledWords(index: int)
    ensures GetBit(0xFFFF_FFFF, index) && !GetBit(0, index)
  {
    MaskNonZero(index % 32);
  }

  lemma MaskNonZero(k: nat)
    requires k < 32
    ensures Bit(k) != 0
  {
  }

  lemma MasksDisjoint(k: nat, m: nat)
    requires k < 32 && m < 32 && k != m
    ensures Bit(k) & Bit(m) == 0
  {
  }

  lemma SetSameBit(d: bv32, index: int)
    ensures GetBit(SetBit(d, index), index)
  {
    MaskNonZero(index % 32);
  }

  lemma SetOtherBit(d: bv32, index: int, m: int)
    requires index % 32 != m % 32
    ensures GetBit(SetBit(d, index), m) == GetBit(d, m)
  {
    MasksDisjoint(index % 32, m % 32);
  }

  lemma UnsetSameBit(d: bv32, index: int)
    ensures !GetBit(UnsetBit(d, index), index)
  {
  }

  lemma UnsetOtherBit(d: bv32, index: int, m: int)
    requires index % 32 != m % 32
    ensures GetBit(UnsetBit(d, index), m) == GetBit(d, m)
  {
    MasksDisjoint(index % 32, m % 32);
  }

  /** The constructor's `intWidth`: `width / 32`, plus one for a partial word. */
  function BatchCount(width: nat): (n: nat)
    ensures 32 * n >= width && (n > 0 ==> 32 * (n - 1) < width)
  {
    var n := width / INTEGER_SIZE;
    if width % INTEGER_SIZE > 0 then n + 1 else n
  }

  /** The column whose bit `set(i, …)` writes: `i` itself, or `i + 32` for a
      negative `i` the bounds check lets through. */
  function TargetColumn(i: int): int
  {
    if i < 0 then i + 32 else i
  }

  /** Word and bit of column `c` match those `set(i, …)` writes exactly when
      `c` is `TargetColumn(i)`. */
  lemma ColumnOfBit(i: int, c: nat)
    requires i > -32
    ensures (c / 32 == Quot(i, 32) && c % 32 == Rem(i, 32) % 32) <==> c == TargetColumn(i)
  {
    if i >= 0 {
      QuotRemNonNegative(i, 32);
    } else {
      assert Quot(i, 32) == 0 && Rem(i, 32) == i;
    }
  }

  /** `set`'s word index is in [0, n) exactly for columns in (-32, 32 n),
      when there is a word at all. */
  lemma QuotInBatches(i: int, n: nat)
    ensures 0 <= Quot(i, 32) < n <==> n > 0 && -32 < i < 32 * n
  {
    if i >= 0 {
      QuotRemNonNegative(i, 32);
    } else if i > -32 {
      assert Quot(i, 32) == 0;
    } else {
      assert Quot(i, 32) == -(Abs(i) / 32);
    }
  }

  /** The word `set(i, …, value)` writes back reads `value` at the target
      column and is unchanged at every other column of that word. */
  lemma WrittenBit(w: bv32, i: int, value: bool, c: nat)
    requires i > -32 && c / 32 == Quot(i, 32)
    ensures GetBit(if value then SetBit(w, Rem(i, 32)) else UnsetBit(w, Rem(i, 32)), c % 32) ==
      if c == TargetColumn(i) then value else GetBit(w, c % 32)
  {
    ColumnOfBit(i, c);
    var r, k := Rem(i, 32), c % 32;
    assert k % 32 == k;
    assert c == TargetColumn(i) <==> r % 32 == k;
    if value {
      SetBitSpec(w, r, k);
    } else {
      UnsetBitSpec(w, r, k);
    }
  }

  lemma AppendAssoc(a: string, b: string, c: string)
    ensures a + b + c == a + (b + c)
  {
  }

  class BooleanMatrix {
    const width: nat
    const height: nat
    const store: IM.IntMatrix

    ghost predicate Valid()
    {
      store.Valid() && store.width == BatchCount(width) && store.height == height
    }

    predicate InRange(i: int, j: int)
    {
      0 <= i < width && 0 <= j < height
    }

    /** The value of in-range cell (i, j): bit `i % 32` of its word. */
    function Cell(i: nat, j: nat): bool
      requires Valid() && InRange(i, j)
      reads store.store
    {
      GetBit(store.At(i / 32, j), i % 32)
    }

    /** A new matrix reads false everywhere; its store is ⌈width / 32⌉ words
        wide. */
    constructor (width: nat, height: nat)
      ensures this.width == width && this.height == height
      ensures Valid() && fresh(store) && fresh(store.store)
      ensures store.width == (width + 31) / 32
      ensures forall i, j :: InRange(i, j) ==> !Cell(i, j)
    {
      this.width := width;
      this.height := height;
      store := new IM.IntMatrix(BatchCount(width), height);
      new;
      forall i, j | InRange(i, j)
        ensures !Cell(i, j)
      {
        FilledWords(i % 32);
      }
    }

    /** `get(i, j)`: the cell, or the exception outside the matrix. */
    function Get(i: int, j: int): (r: Result<bool, IM.IndexError>)
      requires Valid()
      reads store.store
      ensures r.Ok? <==> InRange(i, j)
      ensures r.Ok? ==> r.value == Cell(i, j)
    {
      if i < 0 || j < 0 || i >= width || j >= height then Err(IM.IndexOutOfBounds)
      else
        match store.Get(i / INTEGER_SIZE, j)
        case Ok(batch) => Ok(GetBit(batch, i % INTEGER_SIZE))
        case Err(e) => Err(e)
    }

    /** `set(i, j, value)`: read the word, set or clear one bit, write it
        back. Only the bounds check of the word read applies, so columns in
        (-32, 32 ⌈width / 32⌉) are accepted: the cell written is
        `TargetColumn(i)`, which is `i` itself for an in-range column, a
        padding bit no cell shows for a column past `width`, and column
        `i + 32` for a negative one. */
    method Set(i: int, j: int, value: bool) returns (r: Result<(), IM.IndexError>)
      requires Valid()
      modifies store.store
      ensures r.Ok? <==> width > 0 && -32 < i < 32 * BatchCount(width) && 0 <= j < height
      ensures r.Ok? ==> forall i', j' :: InRange(i', j') ==>
        Cell(i', j') == if j' == j && i' == TargetColumn(i) then value else old(Cell(i', j'))
      ensures r.Ok? && InRange(i, j) ==> Cell(i, j) == value
      ensures r.Err? ==> unchanged(store.store)
    {
      var batchIndex := Quot(i, INTEGER_SIZE);
      QuotInBatches(i, BatchCount(width));
      var batch := store.Get(batchIndex, j);
      if batch.Err? {
        return Err(batch.error);
      }
      var word := if value then SetBit(batch.value, Rem(i, INTEGER_SIZE)) else UnsetBit(batch.value, Rem(i, INTEGER_SIZE));
      r := store.Set(batchIndex, j, word);
      forall i', j' | InRange(i', j')
        ensures Cell(i', j') == if j' == j && i' == TargetColumn(i) then value else old(Cell(i', j'))
      {
        ColumnOfBit(i, i');
        if j' == j && i' / 32 == batchIndex {
          assert Cell(i', j') == GetBit(word, i' % 32);
          assert old(Cell(i', j')) == GetBit(batch.value, i' % 32);
          WrittenBit(batch.value, i, value, i');
        }
      }
    }

    /** `fill(value)`: every word all ones or all zeros, so every cell reads
        `value`. */
    method Fill(value: bool)
      requires Valid()
      modifies store.store
      ensures forall i, j :: InRange(i, j) ==> Cell(i, j) == value
    {
      store.Fill(if value then 0xFFFF_FFFF else 0);
      forall i, j | InRange(i, j)
        ensures Cell(i, j) == value
      {
        FilledWords(i % 32);
      }
    }

    /** Row j rendered up to column n: " 1" or " 0" per cell. */
    function RowText(j: nat, n: nat): (t: string)
      requires Valid() && j < height && n <= width
      reads store.store
      ensures |t| == 2 * n
      ensures forall i :: 0 <= i < n ==>
        t[2 * i] == ' ' && t[2 * i + 1] == (if Cell(i, j) then '1' else '0')
    {
      if n == 0 then [] else RowText(j, n - 1) + [' ', if Cell(n - 1, j) then '1' else '0']
    }

    /** The first `m` rows, each followed by a line feed. */
    function Rows(m: nat): (t: string)
      requires Valid() && m <= height
      reads store.store
      ensures |t| == m * (2 * width + 1)
    {
      if m == 0 then [] else Rows(m - 1) + RowText(m - 1, width) + "\n"
    }

    /** `toString()`: the rows of the matrix, one line each. */
    method ToString() returns (s: string)
      requires Valid()
      ensures s == Rows(height)
    {
      s := "";
      var j := 0;
      while j < height
        invariant 0 <= j <= height
        invariant s == Rows(j)
      {
        var i := 0;
        LineStart(j);
        while i < width
          invariant 0 <= i <= width
          invariant s == Rows(j) + RowText(j, i)
        {
          var cell := Get(i, j).value;
          RowTextStep(j, i, cell);
          s := s + [' ', if cell then '1' else '0'];
          i := i + 1;
        }
        LineEnd(j);
        s := s + "\n";
        j := j + 1;
      }
    }

    /** Line j starts with no text. */
    lemma LineStart(j: nat)
      requires Valid() && j < height
      ensures Rows(j) + RowText(j, 0) == Rows(j)
    {
      assert RowText(j, 0) == [];
    }

    /** A full line and its line feed make one more row. */
    lemma LineEnd(j: nat)
      requires Valid() && j < height
      ensures Rows(j) + RowText(j, width) + "\n" == Rows(j + 1)
    {
    }

    /** Appending the text of cell (i, j) extends the text of line j. */
    lemma RowTextStep(j: nat, i: nat, b: bool)
      requires Valid() && InRange(i, j) && b == Cell(i, j)
      ensures Rows(j) + RowText(j, i) + [' ', if b then '1' else '0'] == Rows(j) + RowText(j, i + 1)
    {
      AppendAssoc(Rows(j), RowText(j, i), [' ', if b then '1' else '0']);
    }

    /** In the rendering, line j holds cell (i, j) at position 2 i + 1 after
        a space, and ends with a line feed. */
    lemma RenderedCell(i: nat, j: nat)
      requires Valid() && InRange(i, j)
      ensures j * (2 * width + 1) + 2 * width < |Rows(height)|
      ensures Rows(height)[j * (2 * width + 1) + 2 * i] == ' '
      ensures Rows(height)[j * (2 * width + 1) + 2 * i + 1] == if Cell(i, j) then '1' else '0'
      ensures Rows(height)[j * (2 * width + 1) + 2 * width] == '\n'
    {
      var p := RenderedLine(j);
      var line := RowText(j, width) + "\n";
      assert line[2 * i] == ' ' && line[2 * width] == '\n';
      assert Rows(height)[p + 2 * i] == line[2 * i];
      assert Rows(height)[p + 2 * i + 1] == line[2 * i + 1];
      assert Rows(height)[p + 2 * width] == line[2 * width];
    }

    /** Line j of the rendering starts at `j * (2 width + 1)`. */
    lemma RenderedLine(j: nat) returns (p: nat)
      requires Valid() && j < height
      ensures p == j * (2 * width + 1) && p + 2 * width < |Rows(height)|
      ensures Rows(height)[p..p + 2 * width + 1] == RowText(j, width) + "\n"
    {
      RowsPrefix(j + 1, height);
      p := |Rows(j)|;
      assert Rows(j + 1) == Rows(j) + (RowText(j, width) + "\n");
      assert Rows(height)[p..p + 2 * width + 1] == Rows(j + 1)[p..];
    }

    lemma {:induction false} RowsPrefix(m: nat, n: nat)
      requires Valid() && m <= n <= height
      ensures |Rows(m)| <= |Rows(n)| && Rows(m) == Rows(n)[..|Rows(m)|]
      decreases n - m
    {
      if m < n {
        RowsPrefix(m, n - 1);
        var prev := Rows(n - 1);
        assert Rows(n) == prev + (RowText(n - 1, width) + "\n");
        assert Rows(n)[..|prev|] == prev;
        assert Rows(n)[..|Rows(m)|] == prev[..|Rows(m)|];
      }
    }
  }
}
