# Memory examples: the sequential array work

This project models the array loops of the memory examples
(`examples/memory/src/main/java/memory/Main.java`) and proves what they compute.
These examples are teaching benchmarks. They time cache misses, false sharing and
spatial locality, and everything functional in them is a loop over a Java array:

- **False sharing** (`exampleFalseSharing`). A 100000000-element `int[]` is filled
  with `fill[i] = i`. Worker `a` (and later worker `c`) runs a `long` running sum
  over it. Worker `b` rewrites every tenth element as `fill[i] / 10`. Module
  `FalseSharing` models each worker body as its own method, running alone on the
  array.
- **Locality** (`exampleLocalityPenalty`). A 10000×10000 `int[][]` is filled with
  `a[i][j] = i + j` and then summed twice into a `long`: once column by column
  (`a[j][i]`) and once row by row (`a[i][j]`). Module `Locality` models the fill
  and both passes. It proves that both passes stay in range, that each reads
  every cell exactly once, and that the two sums are equal for every size. It
  also proves that for the source's size both sums are n²(n−1) = 999900000000.
- **Cache flusher** (`fillCacheWithBogus`). A 10000000-element scratch array is
  filled with `bogus[i] = i` and then scanned once. For every non-zero multiple of
  1000000 the scan prints the marker `bogus[i] / 100000`, and then a closing
  `100`. Module `CacheFlusher` returns the markers as a sequence instead of
  printing them. It proves that they are exactly 10, 20, …, 90, 100.

Module `JavaInt` writes out Java's fixed-width arithmetic over Dafny's unbounded
`int`. That covers wrap-around of `int` and `long`, and `/` and `%` rounding
toward zero. Module `Series` holds the running sum `Sum` and the identity
sequence `Identity` that the specifications use.

The hard-coded sizes are parameters (`k`, `n`, `size`). The source's literals
are kept as constants: `FalseSharing.BufferSize`, `Locality.MatrixSize` and
`CacheFlusher.BogusSize`.

Integer widths:

- **1-D sums.** The `long` sums over an `int[]` are proved never to leave the
  `long` range, so the unbounded sum is exactly Java's result.
- **2-D sums.** The `long` sums over the matrix are modelled with explicit 64-bit
  wrap-around (`Wrap64`), because for large `n` they would overflow.
- **Matrix fill.** The value `i + j` is modelled with 32-bit wrap-around
  (`Wrap32`).
- Each 2-D `long` sum, wrapped step by step as Java does, is proved to equal the
  exact total wrapped once (`WrapAdd64`). For n ≤ 10000 the fill's `i + j` is
  proved never to wrap, and the exact total n²(n−1) is proved to lie inside the
  `long` range, so both sums equal it.

Java's `int[][]` is modelled as an `array2<int>`. The source allocates the matrix
as `new int[n][n]`, so it is square and no rows are shared.

## Model

| member | source | states |
|---|---|---|
| `FalseSharing.NewFilledBuffer` | examples/memory/src/main/java/memory/Main.java:35-39 | a fresh `int[k]` whose element `i` is `i`, for every index |
| `FalseSharing.SumBuffer` | examples/memory/src/main/java/memory/Main.java:42-46 | the `long` running sum of worker a/c equals the sum of all elements, and it stays inside the `long` range for any `int[]` |
| `FalseSharing.SumOfFilledBuffer` | examples/memory/src/main/java/memory/Main.java:35-46 | worker a (or c) alone on the freshly filled buffer returns k(k−1)/2, which is 4999999950000000 for the source's 10⁸ elements |
| `FalseSharing.FilledBufferRunningSums` | examples/memory/src/main/java/memory/Main.java:44-45 | on the filled buffer the running sum after p elements is p(p−1)/2; it never decreases and never exceeds the final sum |
| `FalseSharing.RewriteEveryTenth` | examples/memory/src/main/java/memory/Main.java:52-56 | worker b alone leaves `EveryTenthDivided` of the old contents: each index that is a multiple of 10 holds its old value divided by 10 (Java division), and every other index is unchanged |
| `FalseSharing.EveryTenthDividedShrinks` | examples/memory/src/main/java/memory/Main.java:52-56 | worker b keeps the length; it moves each rewritten value toward zero without changing its sign, so `int`s stay `int`s; an element changes exactly when its index is a multiple of 10 and it is non-zero |
| `FalseSharing.EveryTenthOfFilledBuffer` | examples/memory/src/main/java/memory/Main.java:35-56 | worker b alone on the filled buffer leaves i/10 at multiples of 10 and i elsewhere |
| `Series.SumOfIdentity` | examples/memory/src/main/java/memory/Main.java:37-46 | 0 + 1 + … + (k−1) = k(k−1)/2 |
| `Series.PrefixSumsGrow` | examples/memory/src/main/java/memory/Main.java:44-45 | running sums over non-negative values are non-negative and never decrease |
| `Series.SumOfInt32s` | examples/memory/src/main/java/memory/Main.java:44-45 | a sum of k Java `int`s lies within k times the `int` range, so it fits a `long` for any `int` length |
| `JavaInt.JavaDivision` | examples/memory/src/main/java/memory/Main.java:53-54 | Java `/` and `%` by a positive divisor: the remainder takes the dividend's sign and is smaller than the divisor; the quotient lies between 0 and the dividend; both agree with Euclidean division on non-negative operands; the remainder is 0 exactly when the divisor divides |
| `JavaInt.WrapAdd64` | examples/memory/src/main/java/memory/Main.java:105 | `sum += x` on a `long` that holds the wrapped exact total leaves the wrapped value of the new exact total, so a step-by-step `long` sum is the exact sum wrapped once |
| `JavaInt.Wrap64Congruent` | examples/memory/src/main/java/memory/Main.java:99-107 | wrapping to a `long` changes a value by a multiple of 2⁶⁴ only |
| `Locality.NewFilledMatrix` | examples/memory/src/main/java/memory/Main.java:89-95 | a fresh n×n matrix with `a[i][j] == i + j` in Java `int` arithmetic, for all i, j < n |
| `Locality.AddColumn` | examples/memory/src/main/java/memory/Main.java:104-106 | one run of the inner column-major loop adds column i to the `long` total, wrapping as a `long` does, and reads the cells (0,i), (1,i), …, (n−1,i) in that order |
| `Locality.SumColumnMajor` | examples/memory/src/main/java/memory/Main.java:99-107 | the bad-locality pass returns the wrapped column-by-column total; its index pairs are exactly `ColumnMajorCells`, all in range because the matrix is square |
| `Locality.AddRow` | examples/memory/src/main/java/memory/Main.java:119-121 | one run of the inner row-major loop adds row i to the `long` total and reads the cells (i,0), …, (i,n−1) in that order |
| `Locality.SumRowMajor` | examples/memory/src/main/java/memory/Main.java:112-122 | the good-locality pass returns the wrapped row-by-row total and reads exactly the cells `RowMajorCells` |
| `Locality.ColumnMajorLongStep` | examples/memory/src/main/java/memory/Main.java:103-107 | after one more outer iteration, the column-major `long` is still the wrapped exact total of the columns summed so far |
| `Locality.RowMajorLongStep` | examples/memory/src/main/java/memory/Main.java:118-122 | after one more outer iteration, the row-major `long` is still the wrapped exact total of the rows summed so far |
| `Locality.TraversalOrderIrrelevant` | examples/memory/src/main/java/memory/Main.java:103-122 | for every rectangular matrix, the column-by-column total equals the row-by-row total |
| `Locality.ColumnMajorVisitsEachCellOnce` | examples/memory/src/main/java/memory/Main.java:103-107 | the column-major pass reads n² cells, each in range; no cell is read twice and every cell is read |
| `Locality.RowMajorVisitsEachCellOnce` | examples/memory/src/main/java/memory/Main.java:118-122 | the row-major pass reads n² cells, each in range; no cell is read twice and every cell is read |
| `Locality.FilledMatrixTotal` | examples/memory/src/main/java/memory/Main.java:91-95 | on the matrix with entries r + c, the first k rows sum to (n·k(k−1) + k·n(n−1))/2, and all n rows to n²(n−1) |
| `Locality.FilledMatrixSums` | examples/memory/src/main/java/memory/Main.java:89-122 | on the filled matrix, the two `long` sums agree for every n; for n ≤ 10000 the fill's `i + j` does not wrap, the exact total n²(n−1) lies inside `long`, and both sums equal it, which is 999900000000 at n = 10000 |
| `Locality.ExampleLocalityPenalty` | examples/memory/src/main/java/memory/Main.java:88-126 | the whole experiment without timing: the bad-locality sum equals the good-locality sum, and both are n²(n−1) up to the source's size |
| `Locality.SmallCube` | examples/memory/src/main/java/memory/Main.java:99-122 | for n ≤ 10000, n²(n−1) ≤ 10¹², inside the `long` range |
| `CacheFlusher.ScanForMarkers` | examples/memory/src/main/java/memory/Main.java:138-142 | the read-only scan returns the markers `Markers(bogus[..])`: `bogus[i]/100000` for each non-zero value that is a multiple of 1000000, in index order |
| `CacheFlusher.MarkersOfIdentity` | examples/memory/src/main/java/memory/Main.java:134-142 | scanning 0, 1, …, size−1 emits one marker m/100000 per non-zero multiple m of 1000000 below size, in increasing order, and nothing for index 0 |
| `CacheFlusher.TensUpToAt` | examples/memory/src/main/java/memory/Main.java:138-142 | the emitted markers are 10, 20, …, 10c, strictly increasing |
| `CacheFlusher.FillCacheWithBogus` | examples/memory/src/main/java/memory/Main.java:128-145 | fill, scan and closing marker: the output is the tens below the size followed by 100, which is exactly [10, 20, …, 90, 100] for 10⁷ elements |

## Left out

- Timing (`System.nanoTime`, `System.currentTimeMillis`, Main.java:20-29, 59-63, 79-82, 102-123): wall-clock values and cache effects are not functional behaviour.
- `exampleCacheMissPenalty` (Main.java:16-32): it only prints a constant and two time differences.
- Threads (Main.java:41-84): starting and joining workers a, b and c, and the unsynchronised interleaving of a and b over the shared buffer. Each worker body is modelled running alone. The race is deliberate in the source. As a result, c's sum in the real program depends on how far b got, and the model does not capture this.
- Join order: the code joins `a` twice (lines 62 and 84) and never joins `b`, so `b` may still be running when the method returns. Threads are not part of this model, so this is recorded here and not encoded.
- Console output (`System.out.print*`): the flusher's markers are returned as a sequence instead of being printed, and all other printing is dropped.
- `main` (Main.java:5-14): it only calls the three experiments in order.
- `examples/concurrency/src/main/java/concurrency/Main.java`: it consists entirely of thread creation, sleeping, interrupt polling and joining, so it has no sequential logic to verify. It is not part of this model.
- Sequence of the false-sharing driver: the model does not compose fill, worker a, worker b, the flush and worker c into one method. Worker c runs after b has started, so its input depends on the race left out above.
- Allocation failure: the source's 400 MB arrays are assumed to be allocated.
