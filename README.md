# terricon core, modelled in Dafny

This project models the core of terricon, a Kotlin/Java sandbox of small
utilities and visual experiments, and proves properties of that model. It
covers:

- **VisualBloom.kt**, in two modules:
  - `BloomHash`: the 64-bit mixing hashes `hash3` and `hash`, the grid-cell pixel hashes and `learnFilter`, which turns a shape into a Bloom filter;
  - `Voronoi`: the `VoronoiDelaunay` engine. It puts one pseudo-random seed in every grid cell, answers nearest-seed queries from the 3x3 block of cells around a point, and links two seeds when their midpoint's two nearest seeds are exactly those two. It also holds `List<Center>.findNearest`.
- **NumberParser.java**: the finite automaton that picks a number with group and fraction separators out of noisy text.
- **MapOrSingle.java**: a map holding either one value for every key or one value per key.
- **RandomSet.java**: a set with constant-time add, remove, contains and random pick.
- **MaxMult.java**: dropping the one element that leaves the largest product.
- **StableSorter.java**: stable bucket sorts.
- **Transliteration.java**: transliteration of Cyrillic to Latin by a 256-entry table.
- **CollectionCartesianProduct.java**: left, right and full join pairings.
- **SafeLong.kt**: overflow-checked `Long` arithmetic.
- **PackNumbersUtil.kt**: packing doubles and ints into one `Long`.
- **IntMatrix.kt**, **BooleanMatrix.kt** and **BooleanArray.kt**: matrices stored in flat arrays, the boolean ones packed 32 bits to an `Int`.
- **MutableString.java**: a fixed-capacity character buffer with a line reader.
- **Terminal.java**: the ECMA-48 SGR colour and attribute wrappers.

Each source file is one module. The two shared modules are:

- `Wrappers`, holding `Option` and `Result`;
- `JavaInt`, holding Java's `int`/`long` ranges, truncating division and two's complement patterns.

Where the source changes objects in place (`VoronoiDelaunay`, `MapOrSingle`,
`RandomSet`, the matrices, `MutableString`), the model is a Dafny class. The
class's fields or arrays are updated by methods, and the methods are proved
against pure functions of the old state. A loop in the source is a `while`
loop with invariants. An exception in the source is an `Err` or `None`
result. The exceptions to this are null arguments and negative sizes, which
the model's types rule out; each affected member is listed under
"## Left out".

## Model

| member | source | states |
|---|---|---|
| BloomHash.Fold | src/main/kotlin/ru/ya/vsz/terricon/art/VisualBloom.kt:67-73 | the final `v shr 16 xor v` always clears the sign bit, so the following `abs` never meets `Long.MIN_VALUE` |
| BloomHash.Reduce | src/main/kotlin/ru/ya/vsz/terricon/art/VisualBloom.kt:67-74 | `abs(p) % maxValue` fails exactly for a zero modulus and otherwise lies in [0, abs(maxValue)) as the pattern's remainder |
| BloomHash.Hash | src/main/kotlin/ru/ya/vsz/terricon/art/VisualBloom.kt:70-75 | `hash(v, maxValue)` throws exactly for `maxValue == 0` and otherwise lands in [0, abs(maxValue)) |
| BloomHash.Hash3 | src/main/kotlin/ru/ya/vsz/terricon/art/VisualBloom.kt:62-68 | `hash3(x, y, maxValue)` throws exactly for `maxValue == 0` and otherwise lands in [0, abs(maxValue)) |
| BloomHash.Hash3IsHash | src/main/kotlin/ru/ya/vsz/terricon/art/VisualBloom.kt:62-75 | `hash3(x, y)` equals `hash` of the pixel's row-major number `x + y · PICTURE_WIDTH` |
| BloomHash.PixelHashInRange | src/main/kotlin/ru/ya/vsz/terricon/art/VisualBloom.kt:77-86 | when the cells tile the picture, every in-picture pixel's cell number lies in [0, pixelHashFilterSize()) |
| BloomHash.FilterSize | src/main/kotlin/ru/ya/vsz/terricon/art/VisualBloom.kt:77-86 | `pixelHashFilterSize()` is the cell count (300/sizeX)·(200/sizeY), with no `Int` wrap-around |
| BloomHash.Filter2Size | src/main/kotlin/ru/ya/vsz/terricon/art/VisualBloom.kt:77-94 | `pixelHash2FilterSize()` is the cell count (w+1)·(h+1) of the grid shifted by half a cell |
| BloomHash.PixelHash2Exact | src/main/kotlin/ru/ya/vsz/terricon/art/VisualBloom.kt:88-92 | the shifted cell number is the row-major number of the shifted cell, at most w across and h down |
| BloomHash.PixelHash2InRange | src/main/kotlin/ru/ya/vsz/terricon/art/VisualBloom.kt:88-94 | every in-picture pixel's shifted cell number lies in [0, pixelHash2FilterSize()) |
| BloomHash.PixelHash2Rnd | src/main/kotlin/ru/ya/vsz/terricon/art/VisualBloom.kt:96 | `pixelHash2Rnd` throws exactly for a zero filter size and otherwise lands inside the filter |
| BloomHash.SetBits | src/main/kotlin/ru/ya/vsz/terricon/art/VisualBloom.kt:39-41 | for one point of the shape, every hash function's bit gets set and nothing else changes |
| BloomHash.LearnFilter | src/main/kotlin/ru/ya/vsz/terricon/art/VisualBloom.kt:31-47 | a new array in which bit k is set exactly when some in-picture point of the shape hashes to k, so every point of the shape finds all its bits set |
| Voronoi.Cols | src/main/kotlin/ru/ya/vsz/terricon/art/VisualBloom.kt:155 | `maxMatrixX`: the cell columns fit into the picture width |
| Voronoi.Rows | src/main/kotlin/ru/ya/vsz/terricon/art/VisualBloom.kt:156 | `maxMatrixY`, divided by the cell width as written: the rows times the cell width fit into the picture height |
| Voronoi.Seed | src/main/kotlin/ru/ya/vsz/terricon/art/VisualBloom.kt:160-163 | the seed of cell (nx, ny) lies inside its cell, at least a margin from each edge, and is numbered column by column |
| Voronoi.Index | src/main/kotlin/ru/ya/vsz/terricon/art/VisualBloom.kt:158-167 | the column-by-column number of a grid cell lies in [0, cols·rows) |
| Voronoi.IndexInjective | src/main/kotlin/ru/ya/vsz/terricon/art/VisualBloom.kt:158-167 | two grid cells with the same number are the same cell |
| Voronoi.CellOfIndex | src/main/kotlin/ru/ya/vsz/terricon/art/VisualBloom.kt:158-167 | every number below cols·rows is the number of exactly one grid cell |
| Voronoi.Seeds | src/main/kotlin/ru/ya/vsz/terricon/art/VisualBloom.kt:157-167 | the created list holds, at each cell's number, that cell's seed |
| Voronoi.SeedsByCell | src/main/kotlin/ru/ya/vsz/terricon/art/VisualBloom.kt:158-167 | `centersMatrix[nx][ny]` is `centers` at the cell's number |
| Voronoi.PlacedInOwnCell | src/main/kotlin/ru/ya/vsz/terricon/art/VisualBloom.kt:163-181 | every seed's `nx`/`ny` recomputed from its position is its own cell |
| Voronoi.NeighborCellsMembers | src/main/kotlin/ru/ya/vsz/terricon/art/VisualBloom.kt:212-221 | `neighborCells` yields at most nine seeds, each in a cell at most one step away in each direction |
| Voronoi.NeighborCellsComplete | src/main/kotlin/ru/ya/vsz/terricon/art/VisualBloom.kt:212-221 | every in-grid cell of the 3x3 block contributes its seed |
| Voronoi.NeighborCellsOrdered | src/main/kotlin/ru/ya/vsz/terricon/art/VisualBloom.kt:213-216 | the seeds come in the row order of the offsets list |
| Voronoi.DistSqMetric | src/main/kotlin/ru/ya/vsz/terricon/art/VisualBloom.kt:224-230 | the squared distance is symmetric and zero exactly between equal points |
| Voronoi.MeasureMembers | src/main/kotlin/ru/ya/vsz/terricon/art/VisualBloom.kt:187-207 | pairing each candidate with its distance keeps exactly the candidates, each with its own distance |
| Voronoi.NearestIndex | src/main/kotlin/ru/ya/vsz/terricon/art/VisualBloom.kt:202 | `minBy`: an index of least distance, and the earliest such |
| Voronoi.EarliestNearestUnique | src/main/kotlin/ru/ya/vsz/terricon/art/VisualBloom.kt:202 | the earliest index of least distance is unique |
| Voronoi.SortPermutes | src/main/kotlin/ru/ya/vsz/terricon/art/VisualBloom.kt:193-208 | `sortedBy` keeps the same elements |
| Voronoi.SortSorted | src/main/kotlin/ru/ya/vsz/terricon/art/VisualBloom.kt:193-208 | `sortedBy` orders by distance |
| Voronoi.SortHead | src/main/kotlin/ru/ya/vsz/terricon/art/VisualBloom.kt:202-208 | the head of the sorted list is the element `minBy` picks |
| Voronoi.FindNearestNeighbor | src/main/kotlin/ru/ya/vsz/terricon/art/VisualBloom.kt:196-203 | fails exactly when the 3x3 block is empty |
| Voronoi.NearestNeighborSpec | src/main/kotlin/ru/ya/vsz/terricon/art/VisualBloom.kt:196-203 | the answer is a candidate at its own distance and no candidate is nearer |
| Voronoi.FindTwoNearest | src/main/kotlin/ru/ya/vsz/terricon/art/VisualBloom.kt:205-210 | `slice(0..1)` fails exactly when the block holds fewer than two seeds |
| Voronoi.TwoNearestSpec | src/main/kotlin/ru/ya/vsz/terricon/art/VisualBloom.kt:205-210 | the two come in ascending order, the first is `findNearestNeighbor`'s answer, and every other candidate is at least as far as the second |
| Voronoi.OthersMembers | src/main/kotlin/ru/ya/vsz/terricon/art/VisualBloom.kt:186 | `filter { it != center }` keeps exactly the other seeds |
| Voronoi.AcceptSpec | src/main/kotlin/ru/ya/vsz/terricon/art/VisualBloom.kt:188-192 | the midpoint filter fails exactly when some candidate's midpoint query fails, and otherwise keeps exactly the accepted candidates |
| Voronoi.FindNeighborsFails | src/main/kotlin/ru/ya/vsz/terricon/art/VisualBloom.kt:183-194 | `findNeighbors` throws exactly when some other candidate's midpoint has fewer than two seeds around it |
| Voronoi.FindNeighborsSpec | src/main/kotlin/ru/ya/vsz/terricon/art/VisualBloom.kt:183-194 | the neighbours are sorted by distance and are exactly the other candidates whose midpoint's two nearest seeds are the pair |
| Voronoi.AtMostEight | src/main/kotlin/ru/ya/vsz/terricon/art/VisualBloom.kt:183-194 | a seed has at most eight neighbours |
| Voronoi.SeedNearestToItself | src/main/kotlin/ru/ya/vsz/terricon/art/VisualBloom.kt:196-203 | queried at its own position, a seed is its own nearest neighbour at distance 0 |
| Voronoi.FindNearest | src/main/kotlin/ru/ya/vsz/terricon/art/VisualBloom.kt:236-247 | `List.findNearest`: no answer exactly for the empty list, otherwise the earliest nearest center |
| Voronoi.VoronoiDelaunay.constructor | src/main/kotlin/ru/ya/vsz/terricon/art/VisualBloom.kt:154-167 | creates one seed per cell, column by column, with no neighbours and no radius yet |
| Voronoi.VoronoiDelaunay.Link | src/main/kotlin/ru/ya/vsz/terricon/art/VisualBloom.kt:169-175 | the `init` loop succeeds exactly when every seed has a first neighbour, and then each seed holds its neighbours and half the distance to the first |
| Voronoi.Build | src/main/kotlin/ru/ya/vsz/terricon/art/VisualBloom.kt:154-175 | the object exists exactly when `init` does not throw, and then holds the seeds and their links |
| Voronoi.RadiusBelowNeighbours | src/main/kotlin/ru/ya/vsz/terricon/art/VisualBloom.kt:172-173 | each linked seed has one to eight neighbours, and its radius is half the distance to the nearest of them |
| MapOrSingle.GetOf | src/main/kotlin/ru/ya/vsz/terricon/lang/MapOrSingle.java:35-46 | `get` returns the single value for every key when one is set; otherwise the key's own value, and fails exactly for a key without one |
| MapOrSingle.AfterSetSingleValue | src/main/kotlin/ru/ya/vsz/terricon/lang/MapOrSingle.java:48-59 | `setSingleValue` succeeds exactly when no per-key value exists and no different single value is set, and then sets it |
| MapOrSingle.AfterPut | src/main/kotlin/ru/ya/vsz/terricon/lang/MapOrSingle.java:61-81 | `put` succeeds exactly outside single mode, for a key without a different value and listed in `keys`; it then adds the key to the delegate and keeps `keys` and the single value; the refusals come in the source's order |
| MapOrSingle.Defined | src/main/kotlin/ru/ya/vsz/terricon/lang/MapOrSingle.java:83-100 | `assertDefined` succeeds exactly with a single value or with per-key values covering every key; otherwise it names the non-empty set of keys still without a value |
| MapOrSingle.Matching | src/main/kotlin/ru/ya/vsz/terricon/lang/MapOrSingle.java:112-119 | the keys the delegate maps to the value, and no others |
| MapOrSingle.KeysWithValue | src/main/kotlin/ru/ya/vsz/terricon/lang/MapOrSingle.java:102-122 | nothing for `null`; in single mode with that value every key, or a lone `null` key when there are none; otherwise the keys mapped to the value |
| MapOrSingle.ModesStayExclusive | src/main/kotlin/ru/ya/vsz/terricon/lang/MapOrSingle.java:48-81 | no operation lets a single value and per-key values coexist |
| MapOrSingle.SingleValueEverywhere | src/main/kotlin/ru/ya/vsz/terricon/lang/MapOrSingle.java:35-66 | after `setSingleValue(v)`, `get` answers v for every key and `put` is refused |
| MapOrSingle.SetSingleValueIdempotent | src/main/kotlin/ru/ya/vsz/terricon/lang/MapOrSingle.java:48-59 | setting the same single value again changes nothing, a different one is refused |
| MapOrSingle.GetAfterPut | src/main/kotlin/ru/ya/vsz/terricon/lang/MapOrSingle.java:61-81 | after a successful `put`, `get` of that key gives the value, other keys read as before, and repeating the `put` changes nothing |
| MapOrSingle.PerKeyMode | src/main/kotlin/ru/ya/vsz/terricon/lang/MapOrSingle.java:39-53 | per-key values block `setSingleValue`, and a key without a value fails `get` in per-key mode |
| MapOrSingle.KeysWithValueAgreesWithGet | src/main/kotlin/ru/ya/vsz/terricon/lang/MapOrSingle.java:102-122 | in per-key mode, `getKeysByValue(v)` holds a key exactly when `get` of it returns v |
| MapOrSingle.MapOrSingle.constructor | src/main/kotlin/ru/ya/vsz/terricon/lang/MapOrSingle.java:13-23 | a new map has the given keys and no value of either kind |
| MapOrSingle.MapOrSingle.SetKeys | src/main/kotlin/ru/ya/vsz/terricon/lang/MapOrSingle.java:25-33 | the declared keys are replaced and nothing else changes |
| MapOrSingle.MapOrSingle.Get | src/main/kotlin/ru/ya/vsz/terricon/lang/MapOrSingle.java:35-46 | the method returns what `GetOf` specifies |
| MapOrSingle.MapOrSingle.SetSingleValue | src/main/kotlin/ru/ya/vsz/terricon/lang/MapOrSingle.java:48-59 | on success the state is `AfterSetSingleValue` of the old one; on refusal the same error and no change |
| MapOrSingle.MapOrSingle.Put | src/main/kotlin/ru/ya/vsz/terricon/lang/MapOrSingle.java:61-81 | on success the state is `AfterPut` of the old one; on refusal the same error and no change |
| MapOrSingle.MapOrSingle.AssertDefined | src/main/kotlin/ru/ya/vsz/terricon/lang/MapOrSingle.java:83-100 | the method returns what `Defined` specifies |
| MapOrSingle.MapOrSingle.GetKeysByValue | src/main/kotlin/ru/ya/vsz/terricon/lang/MapOrSingle.java:102-122 | the walk over the delegate collects exactly the keys `KeysWithValue` specifies |
| StableSorter.AddTo | src/main/kotlin/ru/ya/vsz/terricon/lang/StableSorter.java:66-69 | `computeIfAbsent(k, …).add(x)` appends x to the bucket of k, creating it, and leaves every other bucket alone |
| StableSorter.Buckets | src/main/kotlin/ru/ya/vsz/terricon/lang/StableSorter.java:35-58 | the buckets the loop fetches are one per listed key, the missing ones empty |
| StableSorter.KeyBuckets | src/main/kotlin/ru/ya/vsz/terricon/lang/StableSorter.java:11-58 | the buckets of the listed keys are, key by key, the elements with that key in input order |
| StableSorter.FilterConcat | src/main/kotlin/ru/ya/vsz/terricon/lang/StableSorter.java:20-29 | filtering works part by part: elements of an earlier part come first |
| StableSorter.FilterCount | src/main/kotlin/ru/ya/vsz/terricon/lang/StableSorter.java:20-29 | a bucket holds every occurrence of an element with its key and nothing else |
| StableSorter.FilterOfFilter | src/main/kotlin/ru/ya/vsz/terricon/lang/StableSorter.java:20-29 | filtering a bucket again by its own key changes nothing, by another key leaves nothing |
| StableSorter.GroupedNonNullIsFilter | src/main/kotlin/ru/ya/vsz/terricon/lang/StableSorter.java:20-29 | after the first loop, each bucket of a key is exactly the elements with that key, in input order; a `null` key puts an element in no bucket |
| StableSorter.GroupedIsFilter | src/main/kotlin/ru/ya/vsz/terricon/lang/StableSorter.java:64-70 | each group of `sort(input, indexFunction)` is exactly the elements with that index, in input order, and every element's index has a group |
| StableSorter.GroupedNonNullStep | src/main/kotlin/ru/ya/vsz/terricon/lang/StableSorter.java:20-29 | one iteration of the distributing loop adds the element to the bucket of each non-null key |
| StableSorter.GroupedStep | src/main/kotlin/ru/ya/vsz/terricon/lang/StableSorter.java:65-70 | one iteration of the grouping loop adds the element to the group of its index |
| StableSorter.MergedStep | src/main/kotlin/ru/ya/vsz/terricon/lang/StableSorter.java:35-58 | one round of the `while` loop emits the next bucket of each list that has one, the first list first |
| StableSorter.MergeRound | src/main/kotlin/ru/ya/vsz/terricon/lang/StableSorter.java:35-58 | the same round, at positions `i1` and `i2` of the key lists |
| StableSorter.AppendedMerged | src/main/kotlin/ru/ya/vsz/terricon/lang/StableSorter.java:35-58 | at every position the loop reaches, what was appended followed by the interleaving of the remaining buckets is the whole interleaving |
| StableSorter.AppendedStep | src/main/kotlin/ru/ya/vsz/terricon/lang/StableSorter.java:35-58 | one round keeps the positions in lock step (equal, or one list exhausted) and appends the next buckets |
| StableSorter.AppendedAll | src/main/kotlin/ru/ya/vsz/terricon/lang/StableSorter.java:35-60 | when both key lists are exhausted the result is the whole interleaving |
| StableSorter.FlattenCount | src/main/kotlin/ru/ya/vsz/terricon/lang/StableSorter.java:35-58 | the emitted buckets hold each element as often as the buckets together do |
| StableSorter.MergedCount | src/main/kotlin/ru/ya/vsz/terricon/lang/StableSorter.java:35-58 | the interleaving holds each element as often as both bucket lists together |
| StableSorter.BucketsCount | src/main/kotlin/ru/ya/vsz/terricon/lang/StableSorter.java:11-58 | the listed buckets hold an element once per listing of its key, times its multiplicity in the input |
| StableSorter.SortedByKeysCount | src/main/kotlin/ru/ya/vsz/terricon/lang/StableSorter.java:11-61 | `sort(input, key1, keys1, key2, keys2)` emits each element once per listing of its first key plus once per listing of its second key, times its multiplicity |
| StableSorter.FlattenLength | src/main/kotlin/ru/ya/vsz/terricon/lang/StableSorter.java:35-58 | the emitted buckets are as long as the buckets together |
| StableSorter.MergedLength | src/main/kotlin/ru/ya/vsz/terricon/lang/StableSorter.java:35-58 | the interleaving is as long as both bucket lists together |
| StableSorter.Distribute | src/main/kotlin/ru/ya/vsz/terricon/lang/StableSorter.java:16-29 | after the first loop each map's bucket for a key is the elements with that (non-null) key, in input order |
| StableSorter.Interleave | src/main/kotlin/ru/ya/vsz/terricon/lang/StableSorter.java:30-60 | the second loop appends the buckets of `keys1[0]`, `keys2[0]`, `keys1[1]`, … in turn, continuing with one list when the other runs out |
| StableSorter.BucketsAreFilters | src/main/kotlin/ru/ya/vsz/terricon/lang/StableSorter.java:35-58 | a map whose buckets are the filters yields the per-key buckets of the input |
| StableSorter.SortByKeys | src/main/kotlin/ru/ya/vsz/terricon/lang/StableSorter.java:11-61 | the result is the interleaving of the per-key buckets of the listed keys |
| StableSorter.FilterInAdd | src/main/kotlin/ru/ya/vsz/terricon/lang/StableSorter.java:71-74 | adding one group's elements to the emitted ones adds that group to the multiset |
| StableSorter.AppendGroup | src/main/kotlin/ru/ya/vsz/terricon/lang/StableSorter.java:71-74 | appending the group of a new index keeps the result's multiset and per-index order equal to the groups emitted so far |
| StableSorter.FilterInAll | src/main/kotlin/ru/ya/vsz/terricon/lang/StableSorter.java:71-74 | once all indices are emitted, the elements emitted are the input |
| StableSorter.SortByIndex | src/main/kotlin/ru/ya/vsz/terricon/lang/StableSorter.java:63-76 | the result is a permutation of the input in which the elements of each index keep their input order |
| StableSorter.AllEmitted | src/main/kotlin/ru/ya/vsz/terricon/lang/StableSorter.java:71-75 | when every group of the map is emitted, every index's elements are in input order |
| StableSorter.Sample | src/main/kotlin/ru/ya/vsz/terricon/lang/StableSorter.java:114-117 | [CC1, B2, AA3, C4, B5] sorted by A, B, C interleaved with AA, BB, CC gives [AA3, B2, B5, C4, CC1] |
| MaxMult.TallyCounts | src/test/kotlin/ru/ya/vsz/interview/MaxMult.java:28-45 | the first pass counts the negative elements, and the negative and non-negative counts add up to the length |
| MaxMult.TallyMinNeg | src/test/kotlin/ru/ya/vsz/interview/MaxMult.java:28-37 | with a negative element, `minNeg` is a negative element and no negative element is greater |
| MaxMult.TallyMaxNeg | src/test/kotlin/ru/ya/vsz/interview/MaxMult.java:28-37 | with a negative element, `maxNeg` is a negative element and no element is smaller |
| MaxMult.TallyMinPos | src/test/kotlin/ru/ya/vsz/interview/MaxMult.java:39-44 | with a non-negative element, `minPos` is one and no non-negative element is smaller; otherwise it stays `Integer.MAX_VALUE` |
| MaxMult.ToDelete | src/test/kotlin/ru/ya/vsz/interview/MaxMult.java:47-55 | `toDel` is an element: the greatest negative for an odd count of negatives, else the least non-negative, else (all negative) the least element |
| MaxMult.ProductSign | src/test/kotlin/ru/ya/vsz/interview/MaxMult.java:8-11 | an even count of negatives gives a product >= 0 and an odd count one <= 0 |
| MaxMult.ExtractProduct | src/test/kotlin/ru/ya/vsz/interview/MaxMult.java:8-11 | taking x out of a sequence divides it out of the product |
| MaxMult.ExtractCount | src/test/kotlin/ru/ya/vsz/interview/MaxMult.java:8-11 | taking x out of a sequence takes it out of the count of negatives |
| MaxMult.DropHigh | src/test/kotlin/ru/ya/vsz/interview/MaxMult.java:8-11 | dropping the later of two elements leaves the earlier times the product of the rest |
| MaxMult.DropLow | src/test/kotlin/ru/ya/vsz/interview/MaxMult.java:8-11 | dropping the earlier of two elements leaves the later times the product of the rest |
| MaxMult.DropCount | src/test/kotlin/ru/ya/vsz/interview/MaxMult.java:8-11 | dropping an element takes it out of the count of negatives |
| MaxMult.Maximal | src/test/kotlin/ru/ya/vsz/interview/MaxMult.java:47-55 | dropping the first occurrence of `toDel` leaves a product at least as large as dropping any other element |
| MaxMult.AllNegative | src/test/kotlin/ru/ya/vsz/interview/MaxMult.java:47-52 | at most every element is negative, and when all are, each one is |
| MaxMult.CopyWithout | src/test/kotlin/ru/ya/vsz/interview/MaxMult.java:57-67 | the copy is the input without the first occurrence of `toDel`; when `toDel` is not an element the last store falls outside the array |
| MaxMult.RemoveAtGrows | src/test/kotlin/ru/ya/vsz/interview/MaxMult.java:60-66 | past the skipped position, one more input element appends one element to the copy |
| MaxMult.TallyLoopAsWritten | src/test/kotlin/ru/ya/vsz/interview/MaxMult.java:19-55 | the first loop as written computes `toDel` by the `Math.abs` comparisons from the `MAX_VALUE`/`MIN_VALUE` start |
| MaxMult.TallyLoop | src/test/kotlin/ru/ya/vsz/interview/MaxMult.java:19-55 | the corrected first loop computes the `toDel` that `ToDelete` characterizes |
| MaxMult.GetMaxMultNumsAsWritten | src/test/kotlin/ru/ya/vsz/interview/MaxMult.java:13-68 | an empty input is returned as it is; otherwise the input without the first as-written `toDel`, or a failure when that is not an element |
| MaxMult.GetMaxMultNums | src/test/kotlin/ru/ya/vsz/interview/MaxMult.java:8-68 | an empty input is returned as it is; otherwise the input without the first occurrence of `toDel`, whose product no other choice of a dropped element beats |
| MaxMult.MinValueChosenAsWritten | src/test/kotlin/ru/ya/vsz/interview/MaxMult.java:31-33 | on [MIN_VALUE, -1, -1] the program drops MIN_VALUE, leaving product 1 where 2^31 was possible |
| MaxMult.MaxValueMissedAsWritten | src/test/kotlin/ru/ya/vsz/interview/MaxMult.java:19-33 | on [-MAX_VALUE] `toDel` stays `Integer.MAX_VALUE`, which is not an element, so the copy fails |
| RandomSet.Added | src/test/kotlin/ru/ya/vsz/interview/RandomSet.java:43-51 | adding a present value changes nothing; a new value is appended to `values` |
| RandomSet.Removed | src/test/kotlin/ru/ya/vsz/interview/RandomSet.java:67-82 | removing an absent value changes nothing; otherwise the list shrinks by one |
| RandomSet.ContainsIsListed | src/test/kotlin/ru/ya/vsz/interview/RandomSet.java:53-56 | `contains` (a key of `valueToIndex`) holds exactly for the values in the list |
| RandomSet.EmptyIffNoValues | src/test/kotlin/ru/ya/vsz/interview/RandomSet.java:58-62 | the set is empty exactly when the list is, which is when `getRandom` returns `null` |
| RandomSet.AddedValid | src/test/kotlin/ru/ya/vsz/interview/RandomSet.java:43-51 | `add` keeps the index exact and adds the value to the set |
| RandomSet.RemovedValid | src/test/kotlin/ru/ya/vsz/interview/RandomSet.java:67-82 | `remove` keeps the index exact and takes the value out of the set; the list loses exactly that value |
| RandomSet.RemovedLast | src/test/kotlin/ru/ya/vsz/interview/RandomSet.java:74-81 | removing the last listed value keeps the index exact and takes exactly it out |
| RandomSet.RemovedInside | src/test/kotlin/ru/ya/vsz/interview/RandomSet.java:74-81 | removing a value from inside the list keeps the store valid (every value indexed at its position) and takes out exactly that value, from the set and from the list's multiset |
| RandomSet.RemovedInsideListed | src/test/kotlin/ru/ya/vsz/interview/RandomSet.java:75-80 | after that move every listed value is indexed at its new position |
| RandomSet.RemovedInsideMapped | src/test/kotlin/ru/ya/vsz/interview/RandomSet.java:75-81 | after that move every indexed value sits at its indexed position |
| RandomSet.Run | src/test/kotlin/ru/ya/vsz/interview/RandomSet.java:22-30 | any sequence of `add` and `remove` keeps the index exact |
| RandomSet.RunFollowsSet | src/test/kotlin/ru/ya/vsz/interview/RandomSet.java:13-30 | after any sequence of operations the elements are those of a mathematical set after the same operations |
| RandomSet.AddTwiceRemoveOnce | src/test/kotlin/ru/ya/vsz/interview/RandomSet.java:163-168 | adding a value twice and removing it once leaves the list empty |
| RandomSet.RandomSet.constructor | src/test/kotlin/ru/ya/vsz/interview/RandomSet.java:37-41 | a new set has an empty list and an empty index |
| RandomSet.RandomSet.Add | src/test/kotlin/ru/ya/vsz/interview/RandomSet.java:43-51 | the new state is `Added` of the old, so the elements gain the value |
| RandomSet.RandomSet.Contains | src/test/kotlin/ru/ya/vsz/interview/RandomSet.java:53-56 | true exactly for a listed value |
| RandomSet.RandomSet.GetRandom | src/test/kotlin/ru/ya/vsz/interview/RandomSet.java:58-65 | `null` exactly for an empty set, otherwise one of the elements |
| RandomSet.RandomSet.Remove | src/test/kotlin/ru/ya/vsz/interview/RandomSet.java:67-82 | the new state is `Removed` of the old, so the elements lose the value |
| NumberParser.FiniteAutomate.constructor | src/main/kotlin/ru/ya/vsz/terricon/util/NumberParser.java:51-58 | a new automaton is in `start` with counter 0, no error, both positions -1, value and denominator 0 |
| NumberParser.FiniteAutomate.PushDigit | src/main/kotlin/ru/ya/vsz/terricon/util/NumberParser.java:155-158 | the mantissa becomes `10 · value + digit` and the denominator is multiplied by ten |
| NumberParser.FiniteAutomate.OnChar | src/main/kotlin/ru/ya/vsz/terricon/util/NumberParser.java:60-163 | one character moves the fields exactly as the current state function says, and the counter advances |
| NumberParser.ParseDouble | src/main/kotlin/ru/ya/vsz/terricon/util/NumberParser.java:17-35 | the loop feeds characters until the error flag is raised, and the result is the automaton's mantissa and denominator |
| NumberParser.ErrorStops | src/main/kotlin/ru/ya/vsz/terricon/util/NumberParser.java:21 | once the error flag is raised, further characters change nothing |
| NumberParser.AfterCharKeepsInv | src/main/kotlin/ru/ya/vsz/terricon/util/NumberParser.java:60-144 | each step keeps the error flag equal to the error state, nothing accumulated in `start`, and a start position in every later state |
| NumberParser.RunKeepsInv | src/main/kotlin/ru/ya/vsz/terricon/util/NumberParser.java:21-23 | the invariant holds after any input |
| NumberParser.NeverEmpty | src/main/kotlin/ru/ya/vsz/terricon/util/NumberParser.java:25-27 | the `empty()` branch is unreachable: the error flag is raised only after a digit set the start position |
| NumberParser.ErrorAndAfterNumber | src/main/kotlin/ru/ya/vsz/terricon/util/NumberParser.java:133-143 | the error state keeps every field but the counter; `afterNumber` ignores non-digits and fails on a digit without touching the number |
| NumberParser.NoiseSkipped | src/main/kotlin/ru/ya/vsz/terricon/util/NumberParser.java:62-69 | characters before the first digit only move the counter |
| NumberParser.DigitFreeIsZero | src/main/kotlin/ru/ya/vsz/terricon/util/NumberParser.java:17-69 | a text without digits parses to 0 |
| NumberParser.DigitsRead | src/main/kotlin/ru/ya/vsz/terricon/util/NumberParser.java:71-104 | in a digit-reading state, a run of digits scales mantissa and denominator by 10^n and adds the run's value |
| NumberParser.FirstDigit | src/main/kotlin/ru/ya/vsz/terricon/util/NumberParser.java:62-67 | the first digit starts the number at its own position |
| NumberParser.IntegerPart | src/main/kotlin/ru/ya/vsz/terricon/util/NumberParser.java:62-75 | a digit run after noise is read into the mantissa with denominator 0 |
| NumberParser.Integer | src/main/kotlin/ru/ya/vsz/terricon/util/NumberParser.java:71-87 | a digit run at the end of the text, or followed by a character that is not a digit, separator or space, parses as that integer |
| NumberParser.QuietTail | src/main/kotlin/ru/ya/vsz/terricon/util/NumberParser.java:133-139 | after the number, characters without digits only move the counter |
| NumberParser.SeparatorThenDigits | src/main/kotlin/ru/ya/vsz/terricon/util/NumberParser.java:76-118 | after digits, a separator and digits, the digits form one mantissa and the denominator is 10^n after '.' or ',' and 0 after a space |
| NumberParser.RepeatedSeparatorThenDigits | src/main/kotlin/ru/ya/vsz/terricon/util/NumberParser.java:105-118 | the separator met again groups: the denominator drops to 0 and the next digits extend the mantissa |
| NumberParser.TailEnds | src/main/kotlin/ru/ya/vsz/terricon/util/NumberParser.java:109-139 | a digit-free tail that does not repeat the separator ends the number without changing it |
| NumberParser.SeparatedRun | src/main/kotlin/ru/ya/vsz/terricon/util/NumberParser.java:62-118 | digits, one separator, digits: one mantissa, and a denominator of 10^n after '.' or ',' and 0 after a space |
| NumberParser.Fraction | src/main/kotlin/ru/ya/vsz/terricon/util/NumberParser.java:17-139 | digits, one '.' or ',', digits and a digit-free tail parse to mantissa and denominator 10^n |
| NumberParser.FractionIsDecimal | src/main/kotlin/ru/ya/vsz/terricon/util/NumberParser.java:31-34 | that parse is worth `a + b / 10^n`, the decimal fraction written |
| NumberParser.SpaceGroups | src/main/kotlin/ru/ya/vsz/terricon/util/NumberParser.java:81-118 | digits, a space, digits parse as one integer |
| NumberParser.RepeatedSeparatorGroups | src/main/kotlin/ru/ya/vsz/terricon/util/NumberParser.java:105-108 | the same separator twice groups three runs of digits into one integer, whether it is '.', ',' or a space |
| NumberParser.SpaceExample | src/main/kotlin/ru/ya/vsz/terricon/util/NumberParser.java:171 | "12 467" is read as 12467 |
| NumberParser.GroupExample | src/main/kotlin/ru/ya/vsz/terricon/util/NumberParser.java:175 | "12,467,552" is read as 12467552 |
| NumberParser.FractionExample | src/main/kotlin/ru/ya/vsz/terricon/util/NumberParser.java:62-118 | "price 3.25" is read as 325 over 100, that is 3.25 |
| Transliteration.T | src/main/kotlin/ru/ya/vsz/terricon/util/Transliteration.java:15-93 | the table files the Russian letters а…я under low bytes 0x30 to 0x4F and ё under 0x51; every entry is at most four Latin small letters |
| Transliteration.ToLower | src/main/kotlin/ru/ya/vsz/terricon/util/Transliteration.java:106 | lower-casing keeps a character in the Cyrillic block, maps U+0400…U+042F into U+0430…U+045F and fixes U+0430…U+045F |
| Transliteration.TransliterateChar | src/main/kotlin/ru/ya/vsz/terricon/util/Transliteration.java:101-111 | a character outside U+0400…U+04FF is copied; a Cyrillic one is copied or becomes at most four Latin small letters, so the output holds a Cyrillic character only where it was copied |
| Transliteration.Transliterate | src/main/kotlin/ru/ya/vsz/terricon/util/Transliteration.java:98-114 | the builder loop produces every character's replacement, in order |
| Transliteration.TransliteratedConcat | src/main/kotlin/ru/ya/vsz/terricon/util/Transliteration.java:98-114 | the transliteration of a concatenation is the concatenation of the transliterations |
| Transliteration.NonCyrillicUnchanged | src/main/kotlin/ru/ya/vsz/terricon/util/Transliteration.java:102-105 | a string without Cyrillic-block characters, accented Latin letters included, comes back unchanged |
| Transliteration.CaseInsensitive | src/main/kotlin/ru/ya/vsz/terricon/util/Transliteration.java:106 | a capital Russian letter gives the same replacement as its small letter, never itself |
| Transliteration.RussianLettersReplaced | src/main/kotlin/ru/ya/vsz/terricon/util/Transliteration.java:18-111 | every Russian letter is replaced by its table entry: at most four Latin small letters |
| Transliteration.SignsDeleted | src/main/kotlin/ru/ya/vsz/terricon/util/Transliteration.java:45-47 | ъ and ь and their capitals are deleted |
| Transliteration.SharedLowBytes | src/main/kotlin/ru/ya/vsz/terricon/util/Transliteration.java:51-106 | the Latin entries serve only the Cyrillic letters sharing their low byte: 'é' is copied, ѓ becomes "oe", Ӡ and ӡ become "a" |
| Transliteration.Mama | src/main/kotlin/ru/ya/vsz/terricon/util/Transliteration.java:116-118 | "мама" becomes "mama" |
| CartesianProduct.IsEmptyCases | src/main/kotlin/ru/ya/vsz/terricon/lang/CollectionCartesianProduct.java:21-23 | `isEmpty` holds exactly for `null` and for a collection without elements |
| CartesianProduct.Width | src/main/kotlin/ru/ya/vsz/terricon/lang/CollectionCartesianProduct.java:21-36 | each element of the driving collection yields one pair (with `null`) when the other is empty, else one per element of the other |
| CartesianProduct.PairWithAll | src/main/kotlin/ru/ya/vsz/terricon/lang/CollectionCartesianProduct.java:28 | an element paired with every element of b, in order |
| CartesianProduct.AllWith | src/main/kotlin/ru/ya/vsz/terricon/lang/CollectionCartesianProduct.java:35 | every element of a paired with one element of b, in order |
| CartesianProduct.LeftJoin | src/main/kotlin/ru/ya/vsz/terricon/lang/CollectionCartesianProduct.java:25-30 | `leftJoin` yields `|a| · width(b)` pairs |
| CartesianProduct.RightJoin | src/main/kotlin/ru/ya/vsz/terricon/lang/CollectionCartesianProduct.java:32-37 | `rightJoin` yields `|b| · width(a)` pairs |
| CartesianProduct.FullJoin | src/main/kotlin/ru/ya/vsz/terricon/lang/CollectionCartesianProduct.java:39-41 | `fullJoin` fails (null dereference) exactly when a is `null` and b is empty |
| CartesianProduct.LeftJoinAt | src/main/kotlin/ru/ya/vsz/terricon/lang/CollectionCartesianProduct.java:25-30 | pair number `i · width(b) + j` of `leftJoin` is (a[i], b[j]), or (a[i], null) when b is empty: every pair, a-major |
| CartesianProduct.LeftJoinFirst | src/main/kotlin/ru/ya/vsz/terricon/lang/CollectionCartesianProduct.java:25-30 | the first row of `leftJoin` belongs to a[0] |
| CartesianProduct.LeftJoinNext | src/main/kotlin/ru/ya/vsz/terricon/lang/CollectionCartesianProduct.java:25-30 | past the first row `leftJoin` continues with the rows of the rest of a |
| CartesianProduct.RightJoinAt | src/main/kotlin/ru/ya/vsz/terricon/lang/CollectionCartesianProduct.java:32-37 | pair number `j · width(a) + i` of `rightJoin` is (a[i], b[j]), or (null, b[j]) when a is empty: every pair, b-major |
| CartesianProduct.RightJoinFirst | src/main/kotlin/ru/ya/vsz/terricon/lang/CollectionCartesianProduct.java:32-37 | the first column of `rightJoin` belongs to b[0] |
| CartesianProduct.RightJoinNext | src/main/kotlin/ru/ya/vsz/terricon/lang/CollectionCartesianProduct.java:32-37 | past the first column `rightJoin` continues with the columns of the rest of b |
| CartesianProduct.LeftRightTranspose | src/main/kotlin/ru/ya/vsz/terricon/lang/CollectionCartesianProduct.java:25-37 | for non-empty collections `leftJoin` and `rightJoin` list the same pairs, one a-major, the other b-major |
| CartesianProduct.FullJoinEmpty | src/main/kotlin/ru/ya/vsz/terricon/lang/CollectionCartesianProduct.java:39-41 | with an empty b, `fullJoin` pairs each element of a with `null`, in order |
| SafeLong.Safe | src/main/kotlin/ru/ya/vsz/terricon/lang/SafeLong.kt:153 | `Long.safe()` is a valid instance whose value is the `Long` |
| SafeLong.Exact | src/main/kotlin/ru/ya/vsz/terricon/lang/SafeLong.kt:31-35 | `SafeLong(result.longValueExact(), result)` succeeds exactly when the result is in the `Long` range, and is then valid with that `longValue`; otherwise an overflow |
| SafeLong.AddSubMulExact | src/main/kotlin/ru/ya/vsz/terricon/lang/SafeLong.kt:29-62 | `+`, `-`, `*` of valid operands succeed exactly when the exact result is a `Long`, and then return it |
| SafeLong.DivOutcome | src/main/kotlin/ru/ya/vsz/terricon/lang/SafeLong.kt:68-75 | `/` fails on a zero divisor, overflows exactly for `Long.MIN_VALUE / -1`, and otherwise returns the quotient truncated toward zero (`a == b q + a rem b`, `abs(b q) <= abs(a)`) |
| SafeLong.RemOutcome | src/main/kotlin/ru/ya/vsz/terricon/lang/SafeLong.kt:81-88 | `%` fails exactly on a zero divisor; the remainder has the dividend's sign and is smaller than the divisor in magnitude |
| SafeLong.UnaryBoundaries | src/main/kotlin/ru/ya/vsz/terricon/lang/SafeLong.kt:94-127 | unary `-` fails exactly at `Long.MIN_VALUE`, `++` exactly at `Long.MAX_VALUE`, `--` exactly at `Long.MIN_VALUE`; otherwise they return `-a`, `a + 1`, `a - 1` |
| SafeLong.ResultsValid | src/main/kotlin/ru/ya/vsz/terricon/lang/SafeLong.kt:29-127 | every operator result holds its own exact value as `longValue` |
| SafeLong.ConstructorBreaksValidity | src/main/kotlin/ru/ya/vsz/terricon/lang/SafeLong.kt:13-19 | the public constructor accepts a `value` unrelated to `longValue`, and the operators then compute with `value` (`++` of `SafeLong(0, MAX)` overflows) |
| SafeLong.IdentityIsLongValue | src/main/kotlin/ru/ya/vsz/terricon/lang/SafeLong.kt:129-150 | equality, hash code and ordering depend on `longValue` only; `compareTo` is 0 exactly for equal instances and antisymmetric |
| PackNumbers.TagsExclusive | src/main/kotlin/ru/ya/vsz/terricon/lang/PackNumbersUtil.kt:11-31 | every `Long` is exactly one of a packed double and a packed int, so exactly one of `unpackDouble` and `unpackInt` accepts it |
| PackNumbers.DoubleRoundTrip | src/main/kotlin/ru/ya/vsz/terricon/lang/PackNumbersUtil.kt:7-18 | a double whose high word is not 0x7FF00000 unpacks to itself; any other is refused |
| PackNumbers.InfinityIsPackedInt | src/main/kotlin/ru/ya/vsz/terricon/lang/PackNumbersUtil.kt:5-18 | +∞ has high word 0x7FF00000: it counts as a packed int, `unpackDouble` refuses it and `unpackInt` reads it as 0 |
| PackNumbers.PackIntRoundTrip | src/main/kotlin/ru/ya/vsz/terricon/lang/PackNumbersUtil.kt:20-31 | `pack(i)` is a packed int exactly when i is non-negative, and then unpacks to i; a negative i is refused by `unpackInt` |
| PackNumbers.PackIntZeroExtendedRoundTrip | src/main/kotlin/ru/ya/vsz/terricon/lang/PackNumbersUtil.kt:20-31 | with a zero-extended low word, every `Int` packs to a tagged `Long` and unpacks to itself |
| PackNumbers.UnpackFirstIntRoundTrip | src/main/kotlin/ru/ya/vsz/terricon/lang/PackNumbersUtil.kt:33-39 | `unpackFirstInt(packInts(a, b)) == a` for all 32-bit a, b |
| PackNumbers.UnpackSecondIntRoundTrip | src/main/kotlin/ru/ya/vsz/terricon/lang/PackNumbersUtil.kt:33-43 | `unpackSecondInt(packInts(a, b)) == b` for all 32-bit a, b |
| PackNumbers.UnpackIntsRoundTrip | src/main/kotlin/ru/ya/vsz/terricon/lang/PackNumbersUtil.kt:33-43 | every `Long` is `packInts` of its two unpacked halves |
| IntMatrix.SlotInjective | src/main/kotlin/ru/ya/vsz/terricon/lang/IntMatrix.kt:6-19 | the row-major slot `i + j * width` of an in-range cell is below `width * height` and distinct cells never share a slot |
| IntMatrix.IntMatrix.constructor | src/main/kotlin/ru/ya/vsz/terricon/lang/IntMatrix.kt:5-6 | a new matrix has the given dimensions and every cell is 0 |
| IntMatrix.IntMatrix.Get | src/main/kotlin/ru/ya/vsz/terricon/lang/IntMatrix.kt:8-13 | succeeds exactly for an in-range index and then returns that cell; otherwise IndexOutOfBounds |
| IntMatrix.IntMatrix.Set | src/main/kotlin/ru/ya/vsz/terricon/lang/IntMatrix.kt:15-20 | succeeds exactly for an in-range index, writes that cell and no other; an out-of-range index throws and leaves the store unchanged |
| IntMatrix.IntMatrix.Fill | src/main/kotlin/ru/ya/vsz/terricon/lang/IntMatrix.kt:22-24 | every slot, hence every cell, holds the value afterwards |
| BooleanMatrix.SetBitSpec | src/main/kotlin/ru/ya/vsz/terricon/lang/BooleanMatrix.kt:57-59 | `setBit(data, index)` reads true at bit `index mod 32` and keeps every other bit of the word |
| BooleanMatrix.UnsetBitSpec | src/main/kotlin/ru/ya/vsz/terricon/lang/BooleanMatrix.kt:61-63 | `unsetBit(data, index)` reads false at bit `index mod 32` and keeps every other bit of the word |
| BooleanMatrix.FilledWords | src/main/kotlin/ru/ya/vsz/terricon/lang/BooleanMatrix.kt:32-38 | the words `0.inv()` and `0` read true and false at every bit |
| BooleanMatrix.BatchCount | src/main/kotlin/ru/ya/vsz/terricon/lang/BooleanMatrix.kt:6-12 | the word count `intWidth` is the least n with `32 n >= width` |
| BooleanMatrix.ColumnOfBit | src/main/kotlin/ru/ya/vsz/terricon/lang/BooleanMatrix.kt:21-30 | column c shares word and bit with what `set(i, …)` writes exactly when c is `i`, or `i + 32` for a negative `i` |
| BooleanMatrix.QuotInBatches | src/main/kotlin/ru/ya/vsz/terricon/lang/BooleanMatrix.kt:21-23 | the word index `i / 32` of `set` is in range exactly for columns in (-32, 32 n) |
| BooleanMatrix.WrittenBit | src/main/kotlin/ru/ya/vsz/terricon/lang/BooleanMatrix.kt:21-30 | the word written back holds the new value at the target column and the old value at every other column of the word |
| BooleanMatrix.BooleanMatrix.constructor | src/main/kotlin/ru/ya/vsz/terricon/lang/BooleanMatrix.kt:3-12 | the store is ⌈width / 32⌉ words wide and height rows high, and every cell reads false |
| BooleanMatrix.BooleanMatrix.Get | src/main/kotlin/ru/ya/vsz/terricon/lang/BooleanMatrix.kt:14-19 | succeeds exactly for an in-range cell and returns its bit; otherwise IndexOutOfBounds |
| BooleanMatrix.BooleanMatrix.Set | src/main/kotlin/ru/ya/vsz/terricon/lang/BooleanMatrix.kt:21-30 | succeeds exactly when the word index is in range; the target column of row j takes the value and every other cell is kept; on failure nothing changes |
| BooleanMatrix.BooleanMatrix.Fill | src/main/kotlin/ru/ya/vsz/terricon/lang/BooleanMatrix.kt:32-38 | every cell reads the value afterwards |
| BooleanMatrix.BooleanMatrix.RowText | src/main/kotlin/ru/ya/vsz/terricon/lang/BooleanMatrix.kt:43-46 | the text of a row up to column n is `2 n` characters long, with a space at 2 i and cell i's digit `1` or `0` at 2 i + 1 |
| BooleanMatrix.BooleanMatrix.Rows | src/main/kotlin/ru/ya/vsz/terricon/lang/BooleanMatrix.kt:42-48 | the first m lines are `m (2 width + 1)` characters long |
| BooleanMatrix.BooleanMatrix.ToString | src/main/kotlin/ru/ya/vsz/terricon/lang/BooleanMatrix.kt:40-50 | the nested loops build exactly the rendering of all rows |
| BooleanMatrix.BooleanMatrix.RenderedCell | src/main/kotlin/ru/ya/vsz/terricon/lang/BooleanMatrix.kt:40-50 | in the rendering, cell (i, j) sits at offset `j (2 width + 1) + 2 i + 1`, after a space, as '1' or '0' by its value, and each line ends in a line feed |
| BooleanMatrix.BooleanMatrix.RenderedLine | src/main/kotlin/ru/ya/vsz/terricon/lang/BooleanMatrix.kt:40-50 | line j of the rendering starts at `j (2 width + 1)` and is that row's text and a line feed |
| BooleanMatrix.BooleanMatrix.RowsPrefix | src/main/kotlin/ru/ya/vsz/terricon/lang/BooleanMatrix.kt:40-50 | the rendering of fewer rows is a prefix of the rendering of more |
| BooleanArray.BooleanArray.constructor | src/main/kotlin/ru/ya/vsz/terricon/lang/BooleanArray.kt:3-8 | a new array backed by a one-row matrix, of the given size, all bits false |
| BooleanArray.BooleanArray.Get | src/main/kotlin/ru/ya/vsz/terricon/lang/BooleanArray.kt:10-12 | succeeds exactly for `0 <= i < size` and returns bit i; otherwise IndexOutOfBounds |
| BooleanArray.BooleanArray.Set | src/main/kotlin/ru/ya/vsz/terricon/lang/BooleanArray.kt:14-16 | succeeds exactly when the matrix's unchecked word index is in range (i in (-32, 32 * words)); bit i is then written and every bit in another column is kept; on failure nothing changes |
| BooleanArray.BooleanArray.Fill | src/main/kotlin/ru/ya/vsz/terricon/lang/BooleanArray.kt:18-20 | every bit reads the value afterwards |
| BooleanArray.BooleanArray.ToString | src/main/kotlin/ru/ya/vsz/terricon/lang/BooleanArray.kt:25-27 | the text is the matrix's single rendered line, `2 * size + 1` characters long |
| MutableString.ReadLineShape | src/main/kotlin/ru/ya/vsz/terricon/lang/MutableString.java:21-37 | the line read holds bytes only, no line feed except possibly the last character, no whitespace when `noSpaces` holds; what is left is a suffix of the input |
| MutableString.Kept | src/main/kotlin/ru/ya/vsz/terricon/lang/MutableString.java:29-34 | a character read is stored unless it is whitespace and `noSpaces` holds |
| MutableString.Bytes | src/main/kotlin/ru/ya/vsz/terricon/lang/MutableString.java:39-44 | the bytes written are the low eight bits of each character, one per character |
| MutableString.HashIsPolynomial | src/main/kotlin/ru/ya/vsz/terricon/lang/MutableString.java:71-82 | the 32-bit `hashCode` is congruent modulo 2^32 to the exact polynomial `31^n + Σ s[k]·31^(n-1-k)` |
| MutableString.MutableString.constructor | src/main/kotlin/ru/ya/vsz/terricon/lang/MutableString.java:16-19 | an empty buffer with capacity `maxLength` and the given `noSpaces` |
| MutableString.MutableString.Default | src/main/kotlin/ru/ya/vsz/terricon/lang/MutableString.java:12-14 | an empty buffer of capacity 1000 that keeps whitespace |
| MutableString.MutableString.Readln | src/main/kotlin/ru/ya/vsz/terricon/lang/MutableString.java:21-37 | the contents become the next line of the stream (up to and including the line feed or the end of the stream, whitespace dropped under `noSpaces`) and the rest of the stream is returned; a line longer than the capacity fails with the buffer full of its first characters |
| MutableString.MutableString.Println | src/main/kotlin/ru/ya/vsz/terricon/lang/MutableString.java:39-44 | the output is the bytes of the contents followed by a line feed |
| MutableString.MutableString.SetAsWritten | src/main/kotlin/ru/ya/vsz/terricon/lang/MutableString.java:46-49 | a copy that fits makes the contents equal to the source's; one that does not fit throws after `length` was set past the capacity, leaving the buffer invalid |
| MutableString.MutableString.Set | src/main/kotlin/ru/ya/vsz/terricon/lang/MutableString.java:46-49 | a copy that fits makes the contents equal to the source's; one that does not fit fails and changes nothing |
| MutableString.MutableString.CopyPrefix | src/main/kotlin/ru/ya/vsz/terricon/lang/MutableString.java:48 | the first n characters become the source's, the rest are kept |
| MutableString.MutableString.Equals | src/main/kotlin/ru/ya/vsz/terricon/lang/MutableString.java:51-69 | true exactly for another buffer with the same contents; capacity and `noSpaces` play no part |
| MutableString.MutableString.HashCode | src/main/kotlin/ru/ya/vsz/terricon/lang/MutableString.java:71-82 | the result is the 32-bit wrapping polynomial hash of the contents, from 1 |
| Terminal.DigitsRoundTrip | src/main/kotlin/ru/ya/vsz/terricon/util/Terminal.java:58-63 | the decimal rendering of a code is a non-empty run of digits that reads back as the code |
| Terminal.AttributeRoundTrip | src/main/kotlin/ru/ya/vsz/terricon/util/Terminal.java:58-63 | `attribute(s, a, r)` is ESC '[' a 'm', then s unchanged, then ESC '[' r 'm': parsing it gives back a, s and r |
| Terminal.ColoredCodes | src/main/kotlin/ru/ya/vsz/terricon/util/Terminal.java:65-67 | `color(s, c)` brackets s with codes `30 + ordinal(c)` and 39 |
| Terminal.BackgroundCodes | src/main/kotlin/ru/ya/vsz/terricon/util/Terminal.java:69-71 | `background(s, c)` brackets s with codes `40 + ordinal(c)` and 39, which is not `RESET_BACKGROUND` |
| Terminal.BackgroundRestoredCodes | src/main/kotlin/ru/ya/vsz/terricon/util/Terminal.java:50-71 | with `RESET_BACKGROUND` the background wrapper brackets s with codes `40 + ordinal(c)` and 49 |
| Terminal.InverseCodes | src/main/kotlin/ru/ya/vsz/terricon/util/Terminal.java:73-75 | `inverse(s)` brackets s with codes 7 and 27 |
| Terminal.NamedColorCodes | src/main/kotlin/ru/ya/vsz/terricon/util/Terminal.java:77-99 | `red` … `cyan` bracket s with foreground codes 31 to 36 and 39 |

## Left out

- `VisualBloom.kt`: `hash1`, `hash2`, the private `hash(neighbors, maxN)` (floating-point `pow`) and everything about colours, `Picture`, `Vector` and `Article` are drawing code. They are not part of this model.
- `BloomHash.LearnFilter`: it requires every hash of an in-picture shape point to be an index of the filter. The program would otherwise throw `ArrayIndexOutOfBoundsException`, and that path is not modelled.
- The grid cell size, the margins and the filter size are top-level `var`s in the program. Here they are parameters.
- `Voronoi.ValidGrid`: grids whose margins leave no room in a cell, or whose seed coordinates would overflow an `Int`, are not covered. `sqr` and the midpoint sums are exact integers, without `Int` wrap-around.
- `Voronoi`: distances are squared integer distances instead of `sqrt` as `Double`. Only comparisons of distances are used, and `sqrt` is monotone. The radius keeps the squared distance whose half it is.
- `Voronoi.Rows`: `maxMatrixY` divides the picture height by the cell width, as written. With cells taller than wide, seeds can fall below the picture; the model keeps that.
- `Voronoi.VoronoiDelaunay.Link` assigns the `neighbors` and `radius` fields once, after its loop, rather than center by center. No one can observe the difference, because an exception aborts the construction.
- `Voronoi.FindTwoNearest`: with fewer than two candidates the program's `slice(0..1)` throws, so construction fails. The model returns `None`.
- `NumberParser`: `Character.isDigit` is limited to the ASCII digits; other Unicode decimal digits are not recognised as digits.
- `MutableString`: `Character.isWhitespace` is exact on the values 0 to 255 that `read()` can deliver, which are the only ones it is applied to.
- `NumberParser.ParseDouble` returns the exact mantissa and power-of-ten denominator rather than their floating-point quotient.
- `NumberParser`: `finishNumberPosition` is never read. The states `fractionSeparator` and `fractionDigit` are never entered, and neither is part of this model.
- `StableSorter`: the grouping by index emits groups in the iteration order of a `HashMap`. The model leaves that order open. Key functions are total.
- `MapOrSingle`: a `null` single value, and a key without a value, are `None`. The `IllegalArgumentException`s are `Err` results, returned before anything changes.
- `MapOrSingle.MapOrSingle.GetKeysByValue`: in single-value mode with declared keys the program returns its own `keys` set, so a change made through the result alters the declared keys that `put` and `assertDefined` see. The model returns a copy of that set and does not capture the aliasing.
- `MapOrSingle.MapOrSingle.Put` takes a non-null value, so `put(k, null)` is not modelled. In the program that call stores a `null`, and a later `put(k, v)` throws a `NullPointerException` at `delegate.get(key).equals(value)`.
- `CartesianProduct.LeftJoin` takes a non-null `a` and `CartesianProduct.RightJoin` a non-null `b`. The program dereferences them unconditionally, so `leftJoin(null, b)` and `rightJoin(a, null)` throw a `NullPointerException`; those calls are not modelled.
- `RandomSet`: `java.util.Random` is an arbitrary choice of index, and elements are unbounded integers.
- `MutableString`: streams are sequences of `read()` results and of written bytes. `IOException` is not modelled.
- `SafeLong`: `toString` and `equals` with an argument that is not a `SafeLong` are not part of this model.
- `IntMatrix.IntMatrix.constructor` takes natural sizes, and the product `width * height` is exact. Negative sizes and a product that overflows an `Int` are not covered.
- `BooleanMatrix.BooleanMatrix.constructor` takes natural sizes, so negative sizes are not covered. The program computes the word count `width / 32` truncated toward zero, rounded up only for a positive remainder, and allocates `IntMatrix(words, height)`. When `words * height` is 0 it builds an object: for example `BooleanMatrix(-5, 1)`, where every `get` then throws, or `BooleanMatrix(0, -3)`. When exactly one of `words` and `height` is negative, the product is negative and it throws `NegativeArraySizeException`. When both are negative, as in `BooleanMatrix(-64, -1)`, the product is positive and it builds an object whose every `get` throws.
- `BooleanArray.BooleanArray.constructor` takes a natural size, so negative sizes are not covered. The program passes the size to `BooleanMatrix(size, 1)`: sizes -31 to -1 build an array that has no words and whose every `get` throws, and sizes of -32 or less throw `NegativeArraySizeException`.
- `MutableString.MutableString.constructor` takes a natural capacity, so a negative `maxLength` is not covered. The program throws `NegativeArraySizeException` from `new char[maxLength]` for it.
- `PackNumbers`: a `Double` is its raw bit pattern. No floating-point arithmetic is modelled.
- The `main` methods of NumberParser, Transliteration, MapOrSingle, CollectionCartesianProduct and StableSorter, and the JUnit `@Test` methods of `MaxMult` and `RandomSetTest`, are not modelled as such. The example lemmas named above state some of their sample inputs and outputs.

## Findings

| source | as written | input that shows it | evidently intended | confidence | as-written member | corrected member |
|---|---|---|---|---|---|---|
| src/main/kotlin/ru/ya/vsz/terricon/lang/MutableString.java:46-49 | `set` assigns `length` before `System.arraycopy` checks the capacity | a source longer than the buffer's capacity: the copy throws and `length` exceeds the capacity | check first, change nothing on failure | not executed | MutableString.MutableString.SetAsWritten | MutableString.MutableString.Set |
| src/test/kotlin/ru/ya/vsz/interview/MaxMult.java:31-33 | `Math.abs(Integer.MIN_VALUE)` is negative, so `MIN_VALUE` passes for the negative of least magnitude | [MIN_VALUE, -1, -1]: dropping MIN_VALUE leaves 1, dropping a -1 leaves 2^31 | compare exact magnitudes | not executed | MaxMult.MinValueChosenAsWritten | MaxMult.GetMaxMultNums |
| src/test/kotlin/ru/ya/vsz/interview/MaxMult.java:19-33 | `minNeg` starts at `MAX_VALUE` and only a strictly smaller magnitude replaces it | [-2147483647]: `toDel` stays `MAX_VALUE`, which is not an element, and the copy fails | start from the first negative element | not executed | MaxMult.MaxValueMissedAsWritten | MaxMult.GetMaxMultNums |
| src/main/kotlin/ru/ya/vsz/terricon/lang/PackNumbersUtil.kt:20-22 | `pack(i)` sign-extends the `Int`, so a negative one overwrites the tag bits | pack(-1) = 0xFFFFFFFFFFFFFFFF, which `unpackInt` rejects | zero-extend the `Int`, as `packInts` does | not executed | PackNumbers.PackIntRoundTrip | PackNumbers.PackIntZeroExtendedRoundTrip |
| src/main/kotlin/ru/ya/vsz/terricon/util/Terminal.java:69-71 | `background` resets with code 39, the default foreground | background("x", RED) leaves the red background on after the text | reset with `RESET_BACKGROUND` (49) | not executed | Terminal.BackgroundCodes | Terminal.BackgroundRestoredCodes |
