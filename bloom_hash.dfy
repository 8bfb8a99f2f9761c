/** The Bloom-filter side of VisualBloom.kt: the 64-bit mixing hashes, the
    grid-cell pixel hashes and the filter learnt from a picture.

    A `Long` is held as its two's complement pattern in a `bv64`, so the
    multiplications by 0x45d9f3b wrap around exactly as on the JVM. The grid
    cell size and the filter size are top-level `var`s in the program; here
    they are parameters. */
module BloomHash {
  import opened JavaInt
  import opened Wrappers

  const PICTURE_WIDTH: int := 300
  const PICTURE_HEIGHT: int := 200
  const MULTIPLIER: bv64 := 0x45d9f3b
  const SIGN: bv64 := 0x8000_0000_0000_0000

  /** The exception the JVM throws for `% 0`. */
  datatype HashError = DivisionByZero

  /** `v = (v shr 16 xor v) * 0x45d9f3b`, wrapping around. */
  function Mix(v: bv64): bv64
  {
    (Sar16(v) ^ v) * MULTIPLIER
  }

  /** The last step `v shr 16 xor v`: the arithmetic shift copies the sign
      bit into bit 63, so the exclusive or always clears it. */
  function Fold(v: bv64): (r: bv64)
    ensures r & SIGN == 0
  {
    Sar16(v) ^ v
  }

  /** `(abs(p) % maxValue).toInt()`. A cleared sign bit makes `abs` the
      identity, and the result is then the remainder of the pattern read as
      a natural number. */
  function Reduce(p: bv64, maxValue: Int): (r: Result<Int, HashError>)
    ensures r.Err? <==> maxValue == 0
    ensures r.Ok? && p & SIGN == 0 ==> 0 <= r.value < Abs(maxValue) && r.value == p as int % Abs(maxValue)
  {
    if maxValue == 0 then Err(DivisionByZero)
    else
      var a := LongAbs(BitsToLong(p));
      RemFits(a, maxValue);
      if p & SIGN == 0 then
        NonNegativePattern(p);
        RemOfNatural(a, maxValue);
        Ok(Rem(a, maxValue))
      else Ok(Rem(a, maxValue))
  }

  /** A remainder by an `Int` is an `Int`. */
  lemma RemFits(a: int, m: Int)
    requires m != 0
    ensures IsInt(Rem(a, m))
  {
    QuotRem(a, m);
  }

  lemma RemOfNatural(a: int, m: Int)
    requires m != 0 && a >= 0
    ensures Rem(a, m) == a % Abs(m) && 0 <= a % Abs(m) < Abs(m)
  {
  }

  /** With bit 63 clear the pattern is a non-negative `Long`, its own
      absolute value. */
  lemma NonNegativePattern(p: bv64)
    requires p & SIGN == 0
    ensures LongAbs(BitsToLong(p)) == p as int
  {
    LongSignBit(p);
  }

  /** The pattern `hash(v, _)` reduces. */
  function Scramble(v: Long): bv64
  {
    Fold(Mix(Mix(LongToBits(v))))
  }

  /** `hash(v, maxValue)`: in [0, |maxValue|), and an error for 0. */
  function Hash(v: Long, maxValue: Int): (r: Result<Int, HashError>)
    ensures r.Err? <==> maxValue == 0
    ensures r.Ok? ==> 0 <= r.value < Abs(maxValue) && r.value == Scramble(v) as int % Abs(maxValue)
  {
    Reduce(Scramble(v), maxValue)
  }

  /** `hash3(x, y, maxValue)`: the pixel (x, y) numbered row by row, then
      scrambled like `hash`. */
  function Hash3(x: Int, y: Int, maxValue: Int): (r: Result<Int, HashError>)
    ensures r.Err? <==> maxValue == 0
    ensures r.Ok? ==> 0 <= r.value < Abs(maxValue)
  {
    var v := LongToBits(x + y * PICTURE_WIDTH);
    var p := Mix(Mix(v));
    Reduce(Fold(p), maxValue)
  }

  /** `hash3` is `hash` of the row-by-row pixel number. */
  lemma Hash3IsHash(x: Int, y: Int, maxValue: Int)
    ensures Hash3(x, y, maxValue) == Hash(x + y * PICTURE_WIDTH, maxValue)
  {
  }

  // ---------------------------------------------------------------------
  // Kotlin `Int` arithmetic

  function IntAdd(a: Int, b: Int): Int { WrapInt(a + b) }
  function IntMul(a: Int, b: Int): Int { WrapInt(a * b) }
  function IntQuot(a: Int, b: Int): Int
    requires b != 0
  {
    WrapInt(Quot(a, b))
  }

  /** No wrap-around happens when the exact value is an `Int`. */
  lemma WrapSmall(z: int)
    requires IsInt(z)
    ensures WrapInt(z) == z
  {
    if z < 0 {
      assert z % TWO_32 == z + TWO_32;
    }
  }

  // ---------------------------------------------------------------------
  // Pixel hashes over grid cells of sizeX × sizeY

  function PixelHashWidth(sizeX: Int): Int
    requires sizeX != 0
  {
    IntQuot(PICTURE_WIDTH, sizeX)
  }

  function PixelHashHeight(sizeY: Int): Int
    requires sizeY != 0
  {
    IntQuot(PICTURE_HEIGHT, sizeY)
  }

  /** `pixelHash(x, y)`: the number of the cell holding the pixel. */
  function PixelHash(x: Int, y: Int, sizeX: Int, sizeY: Int): Int
    requires sizeX != 0 && sizeY != 0
  {
    var pixelX := IntQuot(x, sizeX);
    var pixelY := IntQuot(y, sizeY);
    IntAdd(pixelX, IntMul(pixelY, PixelHashWidth(sizeX)))
  }

  function PixelHashFilterSize(sizeX: Int, sizeY: Int): Int
    requires sizeX != 0 && sizeY != 0
  {
    IntMul(PixelHashWidth(sizeX), PixelHashHeight(sizeY))
  }

  /** `pixelHash2(x, y)`: the same on the grid shifted by half a cell,
      which has one more column and one more row. */
  function PixelHash2(x: Int, y: Int, sizeX: Int, sizeY: Int): Int
    requires sizeX != 0 && sizeY != 0
  {
    var pixelX := IntQuot(IntAdd(x, IntQuot(sizeX, 2)), sizeX);
    var pixelY := IntQuot(IntAdd(y, IntQuot(sizeY, 2)), sizeY);
    IntAdd(pixelX, IntMul(pixelY, IntAdd(PixelHashWidth(sizeX), 1)))
  }

  function PixelHash2FilterSize(sizeX: Int, sizeY: Int): Int
    requires sizeX != 0 && sizeY != 0
  {
    IntAdd(IntAdd(IntAdd(PixelHashFilterSize(sizeX, sizeY), PixelHashWidth(sizeX)), PixelHashHeight(sizeY)), 1)
  }

  /** `pixelHash2Rnd(x, y)`: the shifted cell number scrambled into the
      filter. */
  function PixelHash2Rnd(x: Int, y: Int, sizeX: Int, sizeY: Int, filterSize: Int): (r: Result<Int, HashError>)
    requires sizeX != 0 && sizeY != 0
    ensures r.Err? <==> filterSize == 0
    ensures r.Ok? ==> 0 <= r.value < Abs(filterSize)
  {
    Hash(PixelHash2(x, y, sizeX, sizeY), filterSize)
  }

  predicate InPicture(x: int, y: int)
  {
    0 <= x < PICTURE_WIDTH && 0 <= y < PICTURE_HEIGHT
  }

  /** Cell sizes that tile the picture exactly. */
  predicate Tiles(sizeX: int, sizeY: int)
  {
    0 < sizeX && 0 < sizeY && PICTURE_WIDTH % sizeX == 0 && PICTURE_HEIGHT % sizeY == 0
  }

  lemma DivBelow(a: int, s: int, q: int)
    requires s > 0 && 0 <= a < q * s
    ensures 0 <= a / s < q
  {
    if a / s >= q {
      MulLe(q, a / s, s);
    }
  }

  lemma MulLe(a: int, b: int, c: int)
    requires 0 <= a <= b && 0 <= c
    ensures a * c <= b * c
  {
  }

  /** Cell (px, py) of a w × h grid numbered row by row lies below w·h. */
  lemma RowMajorBelow(px: int, py: int, w: int, h: int)
    requires 0 <= px < w && 0 <= py < h
    ensures 0 <= px + py * w < w * h
  {
    MulLe(py, h - 1, w);
    assert (h - 1) * w == h * w - w;
  }

  lemma QuotientExact(total: int, s: int)
    requires 0 < s && total > 0 && total % s == 0
    ensures 0 < total / s && (total / s) * s == total
  {
  }

  lemma Width(sizeX: Int)
    requires 0 < sizeX && PICTURE_WIDTH % sizeX == 0
    ensures PixelHashWidth(sizeX) == PICTURE_WIDTH / sizeX
    ensures 0 < PICTURE_WIDTH / sizeX <= PICTURE_WIDTH && (PICTURE_WIDTH / sizeX) * sizeX == PICTURE_WIDTH
  {
    QuotientExact(PICTURE_WIDTH, sizeX);
    WrapSmall(PICTURE_WIDTH / sizeX);
  }

  lemma Height(sizeY: Int)
    requires 0 < sizeY && PICTURE_HEIGHT % sizeY == 0
    ensures PixelHashHeight(sizeY) == PICTURE_HEIGHT / sizeY
    ensures 0 < PICTURE_HEIGHT / sizeY <= PICTURE_HEIGHT && (PICTURE_HEIGHT / sizeY) * sizeY == PICTURE_HEIGHT
  {
    QuotientExact(PICTURE_HEIGHT, sizeY);
    WrapSmall(PICTURE_HEIGHT / sizeY);
  }

  lemma FilterSize(sizeX: Int, sizeY: Int)
    requires Tiles(sizeX, sizeY)
    ensures PixelHashFilterSize(sizeX, sizeY) == (PICTURE_WIDTH / sizeX) * (PICTURE_HEIGHT / sizeY)
    ensures (PICTURE_WIDTH / sizeX) * (PICTURE_HEIGHT / sizeY) <= PICTURE_WIDTH * PICTURE_HEIGHT
  {
    Width(sizeX);
    Height(sizeY);
    var w, h := PICTURE_WIDTH / sizeX, PICTURE_HEIGHT / sizeY;
    MulLe(w, PICTURE_WIDTH, h);
    MulLe(h, PICTURE_HEIGHT, PICTURE_WIDTH);
    WrapSmall(w * h);
  }

  /** The cell of a coordinate below w cells of size s. */
  lemma Cell(x: Int, s: Int, w: int)
    requires 0 < s && 0 <= x < w * s
    ensures IntQuot(x, s) == x / s && 0 <= x / s < w
  {
    DivBelow(x, s, w);
    WrapSmall(x / s);
  }

  /** The cell of a coordinate on the grid shifted by half a cell. */
  lemma ShiftedCell(x: Int, s: Int, w: int)
    requires 0 < s && 0 <= x < w * s <= PICTURE_WIDTH
    ensures IntQuot(IntAdd(x, IntQuot(s, 2)), s) == (x + s / 2) / s && 0 <= (x + s / 2) / s <= w
  {
    var hs := s / 2;
    WrapSmall(hs);
    WrapSmall(x + hs);
    OneMore(w, s);
    DivBelow(x + hs, s, w + 1);
    WrapSmall((x + hs) / s);
  }

  lemma OneMore(w: int, s: int)
    ensures (w + 1) * s == w * s + s
  {
  }

  /** When the cells tile the picture, every in-picture pixel hashes into
      [0, pixelHashFilterSize()). */
  lemma PixelHashInRange(x: Int, y: Int, sizeX: Int, sizeY: Int)
    requires InPicture(x, y) && Tiles(sizeX, sizeY)
    ensures 0 <= PixelHash(x, y, sizeX, sizeY) < PixelHashFilterSize(sizeX, sizeY)
  {
    Width(sizeX);
    Height(sizeY);
    FilterSize(sizeX, sizeY);
    var w, h := PICTURE_WIDTH / sizeX, PICTURE_HEIGHT / sizeY;
    Cell(x, sizeX, w);
    Cell(y, sizeY, h);
    var px, py := x / sizeX, y / sizeY;
    RowMajorBelow(px, py, w, h);
    MulLe(py, h, w);
    WrapSmall(py * w);
    WrapSmall(px + py * w);
  }

  lemma Filter2Size(sizeX: Int, sizeY: Int)
    requires Tiles(sizeX, sizeY)
    ensures PixelHash2FilterSize(sizeX, sizeY) == (PICTURE_WIDTH / sizeX + 1) * (PICTURE_HEIGHT / sizeY + 1)
  {
    Width(sizeX);
    Height(sizeY);
    FilterSize(sizeX, sizeY);
    var w, h := PICTURE_WIDTH / sizeX, PICTURE_HEIGHT / sizeY;
    var wh := w * h;
    WrapSmall(wh + w);
    WrapSmall(wh + w + h);
    WrapSmall(wh + w + h + 1);
    Expand(w, h);
  }

  lemma Expand(w: int, h: int)
    ensures (w + 1) * (h + 1) == w * h + w + h + 1
  {
  }

  /** The shifted cell number without wrap-around. */
  lemma PixelHash2Exact(x: Int, y: Int, sizeX: Int, sizeY: Int)
    requires InPicture(x, y) && Tiles(sizeX, sizeY)
    ensures var w, h := PICTURE_WIDTH / sizeX, PICTURE_HEIGHT / sizeY;
      var px, py := (x + sizeX / 2) / sizeX, (y + sizeY / 2) / sizeY;
      0 <= px <= w && 0 <= py <= h && PixelHash2(x, y, sizeX, sizeY) == px + py * (w + 1)
  {
    Width(sizeX);
    Height(sizeY);
    var w, h := PICTURE_WIDTH / sizeX, PICTURE_HEIGHT / sizeY;
    ShiftedCell(x, sizeX, w);
    ShiftedCell(y, sizeY, h);
    var px := IntQuot(IntAdd(x, IntQuot(sizeX, 2)), sizeX);
    var py := IntQuot(IntAdd(y, IntQuot(sizeY, 2)), sizeY);
    assert PixelHash2(x, y, sizeX, sizeY) == IntAdd(px, IntMul(py, IntAdd(PixelHashWidth(sizeX), 1)));
    RowMajorSmall(px, py, w, h);
  }

  /** Row-major numbering on the shifted grid stays within `Int`. */
  lemma RowMajorSmall(px: Int, py: Int, w: Int, h: Int)
    requires 0 <= px <= w && 0 < w <= PICTURE_WIDTH && 0 <= py <= h <= PICTURE_HEIGHT
    ensures IntAdd(px, IntMul(py, IntAdd(w, 1))) == px + py * (w + 1)
  {
    WrapSmall(w + 1);
    ShiftedBounds(py, w, h);
    var cell := py * (w + 1);
    WrapSmall(cell);
    WrapSmall(px + cell);
  }

  /** The shifted grid: every in-picture pixel hashes into
      [0, pixelHash2FilterSize()). */
  lemma PixelHash2InRange(x: Int, y: Int, sizeX: Int, sizeY: Int)
    requires InPicture(x, y) && Tiles(sizeX, sizeY)
    ensures 0 <= PixelHash2(x, y, sizeX, sizeY) < PixelHash2FilterSize(sizeX, sizeY)
  {
    PixelHash2Exact(x, y, sizeX, sizeY);
    Filter2Size(sizeX, sizeY);
    var w, h := PICTURE_WIDTH / sizeX, PICTURE_HEIGHT / sizeY;
    var px, py := (x + sizeX / 2) / sizeX, (y + sizeY / 2) / sizeY;
    RowMajorBelow(px, py, w + 1, h + 1);
  }

  lemma ShiftedBounds(py: int, w: int, h: int)
    requires 0 <= py <= h <= PICTURE_HEIGHT && 0 < w <= PICTURE_WIDTH
    ensures py * (w + 1) <= PICTURE_HEIGHT * (PICTURE_WIDTH + 1)
  {
    MulLe(py, PICTURE_HEIGHT, w + 1);
    assert PICTURE_HEIGHT * (w + 1) <= PICTURE_HEIGHT * (PICTURE_WIDTH + 1);
  }

  // ---------------------------------------------------------------------
  // The learnt filter

  /** Bit k of the filter is set: some in-picture point of the original
      shape hashes to k under some hash function. */
  ghost predicate Learned(original: (Int, Int) -> bool, hashes: seq<(Int, Int) -> Int>, k: int)
  {
    exists x: Int, y: Int, i :: InPicture(x, y) && 0 <= i < |hashes| && original(x, y) && hashes[i](x, y) == k
  }

  /** The points visited before (x0, y0) in row order, and at (x0, y0) the
      hash functions before i0. */
  predicate Before(x: int, y: int, i: int, x0: int, y0: int, i0: int)
  {
    y < y0 || (y == y0 && (x < x0 || (x == x0 && i < i0)))
  }

  /** Bit k has been written when the loops stand at (x0, y0, i0). */
  ghost predicate Marked(original: (Int, Int) -> bool, hashes: seq<(Int, Int) -> Int>, k: int, x0: int, y0: int, i0: int)
  {
    exists x: Int, y: Int, i :: InPicture(x, y) && 0 <= i < |hashes| && Before(x, y, i, x0, y0, i0) &&
      original(x, y) && hashes[i](x, y) == k
  }

  lemma MarkedHash(original: (Int, Int) -> bool, hashes: seq<(Int, Int) -> Int>, k: int, x0: Int, y0: Int, i0: int)
    requires InPicture(x0, y0) && 0 <= i0 < |hashes|
    ensures Marked(original, hashes, k, x0, y0, i0 + 1) <==>
      Marked(original, hashes, k, x0, y0, i0) || (original(x0, y0) && hashes[i0](x0, y0) == k)
  {
    if Marked(original, hashes, k, x0, y0, i0 + 1) && !Marked(original, hashes, k, x0, y0, i0) {
      var x: Int, y: Int, i :| InPicture(x, y) && 0 <= i < |hashes| && Before(x, y, i, x0, y0, i0 + 1) &&
        original(x, y) && hashes[i](x, y) == k;
      assert !Before(x, y, i, x0, y0, i0);
    }
    if original(x0, y0) && hashes[i0](x0, y0) == k {
      assert Before(x0, y0, i0, x0, y0, i0 + 1);
    }
  }

  lemma MarkedNextPoint(original: (Int, Int) -> bool, hashes: seq<(Int, Int) -> Int>, k: int, x0: int, y0: int)
    requires 0 <= x0
    ensures Marked(original, hashes, k, x0 + 1, y0, 0) <==> Marked(original, hashes, k, x0, y0, |hashes|)
  {
    if Marked(original, hashes, k, x0 + 1, y0, 0) {
      var x: Int, y: Int, i :| InPicture(x, y) && 0 <= i < |hashes| && Before(x, y, i, x0 + 1, y0, 0) &&
        original(x, y) && hashes[i](x, y) == k;
      assert Before(x, y, i, x0, y0, |hashes|);
    }
    if Marked(original, hashes, k, x0, y0, |hashes|) {
      var x: Int, y: Int, i :| InPicture(x, y) && 0 <= i < |hashes| && Before(x, y, i, x0, y0, |hashes|) &&
        original(x, y) && hashes[i](x, y) == k;
      assert Before(x, y, i, x0 + 1, y0, 0);
    }
  }

  lemma MarkedSkip(original: (Int, Int) -> bool, hashes: seq<(Int, Int) -> Int>, k: int, x0: Int, y0: Int)
    requires !original(x0, y0)
    ensures Marked(original, hashes, k, x0, y0, |hashes|) <==> Marked(original, hashes, k, x0, y0, 0)
  {
    if Marked(original, hashes, k, x0, y0, |hashes|) {
      var x: Int, y: Int, i :| InPicture(x, y) && 0 <= i < |hashes| && Before(x, y, i, x0, y0, |hashes|) &&
        original(x, y) && hashes[i](x, y) == k;
      assert Before(x, y, i, x0, y0, 0);
    }
  }

  lemma MarkedNextRow(original: (Int, Int) -> bool, hashes: seq<(Int, Int) -> Int>, k: int, y0: int)
    ensures Marked(original, hashes, k, 0, y0 + 1, 0) <==> Marked(original, hashes, k, PICTURE_WIDTH, y0, 0)
  {
    if Marked(original, hashes, k, 0, y0 + 1, 0) {
      var x: Int, y: Int, i :| InPicture(x, y) && 0 <= i < |hashes| && Before(x, y, i, 0, y0 + 1, 0) &&
        original(x, y) && hashes[i](x, y) == k;
      assert Before(x, y, i, PICTURE_WIDTH, y0, 0);
    }
    if Marked(original, hashes, k, PICTURE_WIDTH, y0, 0) {
      var x: Int, y: Int, i :| InPicture(x, y) && 0 <= i < |hashes| && Before(x, y, i, PICTURE_WIDTH, y0, 0) &&
        original(x, y) && hashes[i](x, y) == k;
      assert Before(x, y, i, 0, y0 + 1, 0);
    }
  }

  lemma MarkedAll(original: (Int, Int) -> bool, hashes: seq<(Int, Int) -> Int>, k: int)
    ensures Marked(original, hashes, k, 0, PICTURE_HEIGHT, 0) <==> Learned(original, hashes, k)
  {
    if Learned(original, hashes, k) {
      var x: Int, y: Int, i :| InPicture(x, y) && 0 <= i < |hashes| && original(x, y) && hashes[i](x, y) == k;
      assert Before(x, y, i, 0, PICTURE_HEIGHT, 0);
    }
  }

  /** `hashFunctions.forEach { result[hashFunction(x, y)] = true }` for one
      point of the original shape. */
  method SetBits(result: array<bool>, original: (Int, Int) -> bool, hashes: seq<(Int, Int) -> Int>, x: Int, y: Int)
    requires InPicture(x, y) && original(x, y)
    requires forall i :: 0 <= i < |hashes| ==> 0 <= hashes[i](x, y) < result.Length
    requires forall k :: 0 <= k < result.Length ==> (result[k] <==> Marked(original, hashes, k, x, y, 0))
    modifies result
    ensures forall k :: 0 <= k < result.Length ==> (result[k] <==> Marked(original, hashes, k, x, y, |hashes|))
  {
    var i := 0;
    while i < |hashes|
      invariant 0 <= i <= |hashes|
      invariant forall k :: 0 <= k < result.Length ==> (result[k] <==> Marked(original, hashes, k, x, y, i))
    {
      var h := hashes[i](x, y);
      result[h] := true;
      forall k | 0 <= k < result.Length
        ensures result[k] <==> Marked(original, hashes, k, x, y, i + 1)
      {
        MarkedHash(original, hashes, k, x, y, i);
      }
      i := i + 1;
    }
  }

  /** `learnFilter(original, filterSize, hashes)`: bit k is set exactly when
      some in-picture point of the original shape hashes to k, so every such
      point finds all its bits set and the filter has no false negatives. */
  method LearnFilter(original: (Int, Int) -> bool, filterSize: nat, hashes: seq<(Int, Int) -> Int>)
    returns (result: array<bool>)
    requires forall x: Int, y: Int, i :: InPicture(x, y) && original(x, y) && 0 <= i < |hashes| ==>
      0 <= hashes[i](x, y) < filterSize
    ensures fresh(result) && result.Length == filterSize
    ensures forall k :: 0 <= k < filterSize ==> (result[k] <==> Learned(original, hashes, k))
    ensures forall x: Int, y: Int, i :: InPicture(x, y) && original(x, y) && 0 <= i < |hashes| ==>
      result[hashes[i](x, y)]
  {
    result := new bool[filterSize](_ => false);
    var y := 0;
    while y < PICTURE_HEIGHT
      invariant 0 <= y <= PICTURE_HEIGHT && result.Length == filterSize
      invariant forall k :: 0 <= k < filterSize ==> (result[k] <==> Marked(original, hashes, k, 0, y, 0))
    {
      var x := 0;
      while x < PICTURE_WIDTH
        invariant 0 <= x <= PICTURE_WIDTH
        invariant forall k :: 0 <= k < filterSize ==> (result[k] <==> Marked(original, hashes, k, x, y, 0))
      {
        if original(x, y) {
          SetBits(result, original, hashes, x, y);
        } else {
          forall k | 0 <= k < filterSize
            ensures result[k] <==> Marked(original, hashes, k, x, y, |hashes|)
          {
            MarkedSkip(original, hashes, k, x, y);
          }
        }
        forall k | 0 <= k < filterSize
          ensures result[k] <==> Marked(original, hashes, k, x + 1, y, 0)
        {
          MarkedNextPoint(original, hashes, k, x, y);
        }
        x := x + 1;
      }
      forall k | 0 <= k < filterSize
        ensures result[k] <==> Marked(original, hashes, k, 0, y + 1, 0)
      {
        MarkedNextRow(original, hashes, k, y);
      }
      y := y + 1;
    }
    forall k | 0 <= k < filterSize
      ensures result[k] <==> Learned(original, hashes, k)
    {
      MarkedAll(original, hashes, k);
    }
  }
}
