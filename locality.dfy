/** `exampleLocalityPenalty`: fill an n-by-n matrix with `a[i][j] = i + j`,
    then sum it twice into a `long`, once column by column (`a[j][i]`, bad
    locality) and once row by row (`a[i][j]`, good locality). The two sums
    are equal, and on the source's 10000-by-10000 matrix both are
    n^2 (n - 1) = 999900000000. */
module Locality {

  import opened JavaInt
  import opened Series
  import CacheFlusher

  /** The side of the matrix in the source. */
  const MatrixSize: nat := 10_000

  /** Every row of `g` has length `w`. */
  predicate HasWidth(g: seq<seq<int>>, w: nat)
  {
    forall r :: 0 <= r < |g| ==> |g[r]| == w
  }

  /** The contents of a matrix, row by row. */
  ghost function Grid(a: array2<int>): (g: seq<seq<int>>)
    reads a
    ensures |g| == a.Length0 && HasWidth(g, a.Length1)
    ensures forall r, c :: 0 <= r < a.Length0 && 0 <= c < a.Length1 ==> g[r][c] == a[r, c]
  {
    seq(a.Length0, r requires 0 <= r < a.Length0 reads a =>
      seq(a.Length1, c requires 0 <= c < a.Length1 reads a => a[r, c]))
  }

  // ---------------------------------------------------------------------
  // The two traversal sums, as specifications

  /** The exact sum of the first `i` rows, each row summed left to right. */
  function RowMajorTotal(g: seq<seq<int>>, i: nat): int
    requires i <= |g|
  {
    if i == 0 then 0 else RowMajorTotal(g, i - 1) + Sum(g[i - 1])
  }

  /** Column `c` of `g`, top to bottom. */
  function Column(g: seq<seq<int>>, c: nat): seq<int>
    requires forall r :: 0 <= r < |g| ==> c < |g[r]|
  {
    seq(|g|, r requires 0 <= r < |g| => g[r][c])
  }

  /** The exact sum of the first `i` columns, each column summed top to bottom. */
  function ColumnMajorTotal(g: seq<seq<int>>, w: nat, i: nat): int
    requires HasWidth(g, w) && i <= w
  {
    if i == 0 then 0 else ColumnMajorTotal(g, w, i - 1) + Sum(Column(g, i - 1))
  }

  /** One more outer iteration of the column-major pass adds one whole column
      to the `long` running total, which stays the wrapped exact total. */
  lemma ColumnMajorLongStep(g: seq<seq<int>>, w: nat, i: nat, sum: int, next: int)
    requires HasWidth(g, w) && i < w
    requires sum == Wrap64(ColumnMajorTotal(g, w, i))
    requires next == Wrap64(sum + Sum(Column(g, i)))
    ensures next == Wrap64(ColumnMajorTotal(g, w, i + 1))
  {
    WrapAdd64(sum, ColumnMajorTotal(g, w, i), Sum(Column(g, i)));
  }

  /** One more outer iteration of the row-major pass adds one whole row
      to the `long` running total, which stays the wrapped exact total. */
  lemma RowMajorLongStep(g: seq<seq<int>>, i: nat, sum: int, next: int)
    requires i < |g|
    requires sum == Wrap64(RowMajorTotal(g, i))
    requires next == Wrap64(sum + Sum(g[i]))
    ensures next == Wrap64(RowMajorTotal(g, i + 1))
  {
    WrapAdd64(sum, RowMajorTotal(g, i), Sum(g[i]));
  }

  /** The sum of the first `k` rows depends only on those rows. */
  lemma {:induction false} RowMajorTotalOfPrefix(g: seq<seq<int>>, h: seq<seq<int>>, k: nat)
    requires k <= |h| <= |g| && h == g[..|h|]
    ensures RowMajorTotal(g, k) == RowMajorTotal(h, k)
  {
    if k > 0 {
      RowMajorTotalOfPrefix(g, h, k - 1);
    }
  }

  /** A matrix without rows has an empty sum in column order. */
  lemma {:induction false} ColumnMajorTotalNoRows(g: seq<seq<int>>, w: nat, i: nat)
    requires |g| == 0 && i <= w
    ensures ColumnMajorTotal(g, w, i) == 0
  {
    if i > 0 {
      ColumnMajorTotalNoRows(g, w, i - 1);
      assert Column(g, i - 1) == [];
    }
  }

  /** Adding a bottom row adds, in column order, exactly that row's entries. */
  lemma {:induction false} ColumnMajorTotalAddRow(g: seq<seq<int>>, w: nat, i: nat)
    requires |g| > 0 && HasWidth(g, w) && i <= w
    ensures ColumnMajorTotal(g, w, i) == ColumnMajorTotal(g[..|g| - 1], w, i) + Sum(g[|g| - 1][..i])
  {
    var last := g[|g| - 1];
    if i == 0 {
      assert last[..0] == [];
    } else {
      ColumnMajorTotalAddRow(g, w, i - 1);
      assert Column(g, i - 1)[..|g| - 1] == Column(g[..|g| - 1], i - 1);
      SumStep(last, i - 1);
    }
  }

  /** Summing column by column gives the same total as summing row by row,
      for every rectangular matrix. */
  lemma {:induction false} TraversalOrderIrrelevant(g: seq<seq<int>>, w: nat)
    requires HasWidth(g, w)
    ensures ColumnMajorTotal(g, w, w) == RowMajorTotal(g, |g|)
  {
    if |g| == 0 {
      ColumnMajorTotalNoRows(g, w, w);
    } else {
      var h := g[..|g| - 1];
      TraversalOrderIrrelevant(h, w);
      ColumnMajorTotalAddRow(g, w, w);
      assert g[|g| - 1][..w] == g[|g| - 1];
      RowMajorTotalOfPrefix(g, h, |h|);
    }
  }

  // ---------------------------------------------------------------------
  // The cells each traversal reads, in order

  /** The cells (0, c), (1, c), ..., (k - 1, c): the inner loop of the
      column-major pass at outer index c. */
  function ColumnCells(c: int, k: nat): seq<(int, int)>
  {
    if k == 0 then [] else ColumnCells(c, k - 1) + [(k - 1, c)]
  }

  /** The cells the column-major pass reads in its first `i` outer iterations. */
  function ColumnMajorCells(n: nat, i: nat): seq<(int, int)>
  {
    if i == 0 then [] else ColumnMajorCells(n, i - 1) + ColumnCells(i - 1, n)
  }

  /** The cells (r, 0), (r, 1), ..., (r, k - 1): the inner loop of the
      row-major pass at outer index r. */
  function RowCells(r: int, k: nat): seq<(int, int)>
  {
    if k == 0 then [] else RowCells(r, k - 1) + [(r, k - 1)]
  }

  /** The cells the row-major pass reads in its first `i` outer iterations. */
  function RowMajorCells(n: nat, i: nat): seq<(int, int)>
  {
    if i == 0 then [] else RowMajorCells(n, i - 1) + RowCells(i - 1, n)
  }

  /** The step at which the column-major pass reads cell (r, c). */
  function ColumnMajorStep(n: int, r: int, c: int): int
  {
    c * n + r
  }

  /** The step at which the row-major pass reads cell (r, c). */
  function RowMajorStep(n: int, r: int, c: int): int
  {
    r * n + c
  }

  /** `cells` reads only cells of an n-by-n matrix, never the same cell
      twice, and every cell at some step. */
  predicate VisitsEachCellOnce(cells: seq<(int, int)>, n: nat)
  {
    |cells| == n * n &&
    (forall p :: 0 <= p < |cells| ==> 0 <= cells[p].0 < n && 0 <= cells[p].1 < n) &&
    (forall p, q :: 0 <= p < q < |cells| ==> cells[p] != cells[q]) &&
    (forall r, c :: 0 <= r < n && 0 <= c < n ==> (r, c) in cells)
  }

  lemma {:induction false} ColumnCellsAt(c: int, k: nat)
    ensures |ColumnCells(c, k)| == k
    ensures forall p :: 0 <= p < k ==> ColumnCells(c, k)[p] == (p, c)
  {
    if k > 0 {
      ColumnCellsAt(c, k - 1);
    }
  }

  lemma {:induction false} RowCellsAt(r: int, k: nat)
    ensures |RowCells(r, k)| == k
    ensures forall p :: 0 <= p < k ==> RowCells(r, k)[p] == (r, p)
  {
    if k > 0 {
      RowCellsAt(r, k - 1);
    }
  }

  /** After `i` outer iterations the column-major pass has read i n cells. */
  lemma {:induction false} ColumnMajorCellsLength(n: nat, i: nat)
    ensures |ColumnMajorCells(n, i)| == i * n
  {
    if i > 0 {
      ColumnMajorCellsLength(n, i - 1);
      ColumnCellsAt(i - 1, n);
      assert i * n == (i - 1) * n + n;
    }
  }

  /** The cell read at step p lies in the first `i` columns and is the cell
      whose `ColumnMajorStep` is p. */
  lemma {:induction false} ColumnMajorCellAt(n: nat, i: nat, p: nat)
    requires p < |ColumnMajorCells(n, i)|
    ensures 0 <= ColumnMajorCells(n, i)[p].0 < n && 0 <= ColumnMajorCells(n, i)[p].1 < i
    ensures ColumnMajorStep(n, ColumnMajorCells(n, i)[p].0, ColumnMajorCells(n, i)[p].1) == p
  {
    var prev := ColumnMajorCells(n, i - 1);
    if p < |prev| {
      ColumnMajorCellAt(n, i - 1, p);
    } else {
      ColumnMajorCellsLength(n, i - 1);
      ColumnCellsAt(i - 1, n);
      assert ColumnMajorCells(n, i)[p] == (p - (i - 1) * n, i - 1);
    }
  }

  /** Every cell (r, c) of the first `i` columns is read, at its `ColumnMajorStep`. */
  lemma {:induction false} ColumnMajorReadsCell(n: nat, i: nat, r: nat, c: nat)
    requires r < n && c < i
    ensures ColumnMajorStep(n, r, c) < |ColumnMajorCells(n, i)|
    ensures ColumnMajorCells(n, i)[ColumnMajorStep(n, r, c)] == (r, c)
  {
    var prev := ColumnMajorCells(n, i - 1);
    ColumnMajorCellsLength(n, i - 1);
    ColumnMajorCellsLength(n, i);
    ColumnCellsAt(i - 1, n);
    if c < i - 1 {
      ColumnMajorReadsCell(n, i - 1, r, c);
    } else {
      assert ColumnMajorStep(n, r, c) == |prev| + r;
    }
  }

  /** After `i` outer iterations the row-major pass has read i n cells. */
  lemma {:induction false} RowMajorCellsLength(n: nat, i: nat)
    ensures |RowMajorCells(n, i)| == i * n
  {
    if i > 0 {
      RowMajorCellsLength(n, i - 1);
      RowCellsAt(i - 1, n);
      assert i * n == (i - 1) * n + n;
    }
  }

  /** The cell read at step p lies in the first `i` rows and is the cell
      whose `RowMajorStep` is p. */
  lemma {:induction false} RowMajorCellAt(n: nat, i: nat, p: nat)
    requires p < |RowMajorCells(n, i)|
    ensures 0 <= RowMajorCells(n, i)[p].0 < i && 0 <= RowMajorCells(n, i)[p].1 < n
    ensures RowMajorStep(n, RowMajorCells(n, i)[p].0, RowMajorCells(n, i)[p].1) == p
  {
    var prev := RowMajorCells(n, i - 1);
    if p < |prev| {
      RowMajorCellAt(n, i - 1, p);
    } else {
      RowMajorCellsLength(n, i - 1);
      RowCellsAt(i - 1, n);
      assert RowMajorCells(n, i)[p] == (i - 1, p - (i - 1) * n);
    }
  }

  /** Every cell (r, c) of the first `i` rows is read, at its `RowMajorStep`. */
  lemma {:induction false} RowMajorReadsCell(n: nat, i: nat, r: nat, c: nat)
    requires r < i && c < n
    ensures RowMajorStep(n, r, c) < |RowMajorCells(n, i)|
    ensures RowMajorCells(n, i)[RowMajorStep(n, r, c)] == (r, c)
  {
    var prev := RowMajorCells(n, i - 1);
    RowMajorCellsLength(n, i - 1);
    RowMajorCellsLength(n, i);
    RowCellsAt(i - 1, n);
    if r < i - 1 {
      RowMajorReadsCell(n, i - 1, r, c);
    } else {
      assert RowMajorStep(n, r, c) == |prev| + c;
    }
  }

  /** The column-major pass reads every cell of the square matrix exactly once. */
  lemma ColumnMajorVisitsEachCellOnce(n: nat)
    ensures VisitsEachCellOnce(ColumnMajorCells(n, n), n)
  {
    var cells := ColumnMajorCells(n, n);
    ColumnMajorCellsLength(n, n);
    forall p | 0 <= p < |cells|
      ensures 0 <= cells[p].0 < n && 0 <= cells[p].1 < n
    {
      ColumnMajorCellAt(n, n, p);
    }
    forall p, q | 0 <= p < q < |cells|
      ensures cells[p] != cells[q]
    {
      ColumnMajorCellAt(n, n, p);
      ColumnMajorCellAt(n, n, q);
    }
    forall r, c | 0 <= r < n && 0 <= c < n
      ensures (r, c) in cells
    {
      ColumnMajorReadsCell(n, n, r, c);
    }
  }

  /** The row-major pass reads every cell of the square matrix exactly once. */
  lemma RowMajorVisitsEachCellOnce(n: nat)
    ensures VisitsEachCellOnce(RowMajorCells(n, n), n)
  {
    var cells := RowMajorCells(n, n);
    RowMajorCellsLength(n, n);
    forall p | 0 <= p < |cells|
      ensures 0 <= cells[p].0 < n && 0 <= cells[p].1 < n
    {
      RowMajorCellAt(n, n, p);
    }
    forall p, q | 0 <= p < q < |cells|
      ensures cells[p] != cells[q]
    {
      RowMajorCellAt(n, n, p);
      RowMajorCellAt(n, n, q);
    }
    forall r, c | 0 <= r < n && 0 <= c < n
      ensures (r, c) in cells
    {
      RowMajorReadsCell(n, n, r, c);
    }
  }

  // ---------------------------------------------------------------------
  // The loops

  /** The fill: a fresh `int[n][n]` with `a[i][j] = i + j` in Java `int`
      arithmetic, written row by row. */
  method NewFilledMatrix(n: nat) returns (a: array2<int>)
    requires n <= Int32Max
    ensures fresh(a)
    ensures a.Length0 == n && a.Length1 == n
    ensures forall i, j :: 0 <= i < n && 0 <= j < n ==> a[i, j] == Wrap32(i + j)
  {
    a := new int[n, n];
    for i := 0 to n
      invariant forall r, c :: 0 <= r < i && 0 <= c < n ==> a[r, c] == Wrap32(r + c)
    {
      for j := 0 to n
        invariant forall r, c :: 0 <= r < i && 0 <= c < n ==> a[r, c] == Wrap32(r + c)
        invariant forall c :: 0 <= c < j ==> a[i, c] == Wrap32(i + c)
      {
        a[i, j] := Wrap32(i + j);
      }
    }
  }

  /** The inner loop of the bad-locality pass at outer index `i`:
      `sum += a[j][i]` for j = 0 .. n - 1, on a Java `long`. It adds column i
      to the running total, wrapping as a `long` does, and reads the cells
      `ColumnCells(i, n)` in that order. */
  method AddColumn(a: array2<int>, i: nat, sum0: int) returns (sum: int, ghost cells: seq<(int, int)>)
    requires a.Length0 == a.Length1 && i < a.Length1
    requires IsInt64(sum0)
    ensures sum == Wrap64(sum0 + Sum(Column(Grid(a), i)))
    ensures cells == ColumnCells(i, a.Length0)
  {
    ghost var column := Column(Grid(a), i);
    ghost var exact := sum0;
    sum, cells := sum0, [];
    assert column[..0] == [];
    for j := 0 to a.Length0
      invariant exact == sum0 + Sum(column[..j])
      invariant sum == Wrap64(exact)
      invariant cells == ColumnCells(i, j)
    {
      assert a[j, i] == column[j];
      SumStep(column, j);
      WrapAdd64(sum, exact, a[j, i]);
      sum := Wrap64(sum + a[j, i]);
      exact := exact + a[j, i];
      cells := cells + [(j, i)];
    }
    assert column[..a.Length0] == column;
  }

  /** The bad-locality pass: `sum += a[j][i]` with the outer index over
      columns, into a `long` that starts at zero. The indices are in range
      because the matrix is square; the pass reads the cells
      `ColumnMajorCells` in that order. */
  method SumColumnMajor(a: array2<int>) returns (sum: int, ghost cells: seq<(int, int)>)
    requires a.Length0 == a.Length1
    ensures sum == Wrap64(ColumnMajorTotal(Grid(a), a.Length1, a.Length1))
    ensures cells == ColumnMajorCells(a.Length0, a.Length0)
  {
    var n := a.Length0;
    ghost var g := Grid(a);
    sum, cells := 0, [];
    for i := 0 to n
      invariant sum == Wrap64(ColumnMajorTotal(g, n, i))
      invariant cells == ColumnMajorCells(n, i)
    {
      var next;
      ghost var visited;
      next, visited := AddColumn(a, i, sum);
      assert Grid(a) == g;
      ColumnMajorLongStep(g, n, i, sum, next);
      sum, cells := next, cells + visited;
    }
  }

  /** The inner loop of the good-locality pass at outer index `i`:
      `sum += a[i][j]` for j = 0 .. n - 1, on a Java `long`. It adds row i
      to the running total and reads the cells `RowCells(i, n)` in that order. */
  method AddRow(a: array2<int>, i: nat, sum0: int) returns (sum: int, ghost cells: seq<(int, int)>)
    requires a.Length0 == a.Length1 && i < a.Length0
    requires IsInt64(sum0)
    ensures sum == Wrap64(sum0 + Sum(Grid(a)[i]))
    ensures cells == RowCells(i, a.Length1)
  {
    ghost var row := Grid(a)[i];
    ghost var exact := sum0;
    sum, cells := sum0, [];
    assert row[..0] == [];
    for j := 0 to a.Length1
      invariant exact == sum0 + Sum(row[..j])
      invariant sum == Wrap64(exact)
      invariant cells == RowCells(i, j)
    {
      assert a[i, j] == row[j];
      SumStep(row, j);
      WrapAdd64(sum, exact, a[i, j]);
      sum := Wrap64(sum + a[i, j]);
      exact := exact + a[i, j];
      cells := cells + [(i, j)];
    }
    assert row[..a.Length1] == row;
  }

  /** The good-locality pass: `sum += a[i][j]` with the outer index over
      rows, into a `long` that starts at zero; it reads the cells
      `RowMajorCells` in that order. */
  method SumRowMajor(a: array2<int>) returns (sum: int, ghost cells: seq<(int, int)>)
    requires a.Length0 == a.Length1
    ensures sum == Wrap64(RowMajorTotal(Grid(a), a.Length0))
    ensures cells == RowMajorCells(a.Length0, a.Length0)
  {
    var n := a.Length0;
    ghost var g := Grid(a);
    sum, cells := 0, [];
    for i := 0 to n
      invariant sum == Wrap64(RowMajorTotal(g, i))
      invariant cells == RowMajorCells(n, i)
    {
      var next;
      ghost var visited;
      next, visited := AddRow(a, i, sum);
      assert Grid(a) == g;
      RowMajorLongStep(g, i, sum, next);
      sum, cells := next, cells + visited;
    }
  }

  // ---------------------------------------------------------------------
  // The filled matrix

  /** A row holding i, i + 1, ..., i + k - 1 sums to k i + k (k - 1) / 2. */
  lemma {:induction false} FilledRowSum(s: seq<int>, i: int)
    requires forall j :: 0 <= j < |s| ==> s[j] == i + j
    ensures 2 * Sum(s) == 2 * |s| * i + |s| * (|s| - 1)
  {
    if s != [] {
      var k := |s|;
      FilledRowSum(s[..k - 1], i);
      assert 2 * (k - 1) * i + (k - 1) * (k - 2) + 2 * (i + k - 1) == 2 * k * i + k * (k - 1);
    }
  }

  /** The first `k` rows of the matrix with entries r + c sum to
      (n k (k - 1) + k n (n - 1)) / 2; all `n` rows to n^2 (n - 1). */
  lemma {:induction false} FilledMatrixTotal(g: seq<seq<int>>, n: nat, k: nat)
    requires |g| == n && HasWidth(g, n) && k <= n
    requires forall r, c :: 0 <= r < n && 0 <= c < n ==> g[r][c] == r + c
    ensures 2 * RowMajorTotal(g, k) == n * k * (k - 1) + k * n * (n - 1)
    ensures k == n ==> RowMajorTotal(g, k) == n * n * (n - 1)
  {
    if k > 0 {
      FilledMatrixTotal(g, n, k - 1);
      FilledRowSum(g[k - 1], k - 1);
      FilledMatrixStep(n, k);
    }
  }

  lemma FilledMatrixStep(n: int, k: int)
    ensures n * (k - 1) * (k - 2) + (k - 1) * n * (n - 1) + 2 * n * (k - 1) + n * (n - 1)
         == n * k * (k - 1) + k * n * (n - 1)
  {
  }

  /** On the matrix the fill produces, the two `long` sums agree for every n,
      and up to the source's 10000 the fill's `i + j` does not wrap and the
      exact total n^2 (n - 1) lies inside `long`, so both sums equal it. */
  lemma FilledMatrixSums(g: seq<seq<int>>, n: nat)
    requires |g| == n && HasWidth(g, n)
    requires forall r, c :: 0 <= r < n && 0 <= c < n ==> g[r][c] == Wrap32(r + c)
    ensures Wrap64(ColumnMajorTotal(g, n, n)) == Wrap64(RowMajorTotal(g, n))
    ensures n <= MatrixSize ==> Wrap64(RowMajorTotal(g, n)) == n * n * (n - 1)
    ensures n == MatrixSize ==> Wrap64(RowMajorTotal(g, n)) == 999_900_000_000
  {
    TraversalOrderIrrelevant(g, n);
    if n <= MatrixSize {
      forall r, c | 0 <= r < n && 0 <= c < n
        ensures g[r][c] == r + c
      {
        assert IsInt32(r + c);
      }
      FilledMatrixTotal(g, n, n);
      SmallCube(n);
    }
  }

  /** The experiment without its timing: fill, flush, sum column-major,
      flush, sum row-major. The flushes touch only their own scratch buffer.
      Both sums agree for every n; up to the source's 10000 both equal the
      exact total n^2 (n - 1). */
  method ExampleLocalityPenalty(n: nat) returns (badSum: int, goodSum: int)
    requires n <= Int32Max
    ensures badSum == goodSum
    ensures n <= MatrixSize ==> badSum == n * n * (n - 1)
    ensures n == MatrixSize ==> badSum == 999_900_000_000
  {
    var a := NewFilledMatrix(n);
    ghost var g := Grid(a);
    var _ := CacheFlusher.FillCacheWithBogus(CacheFlusher.BogusSize);
    ghost var cells;
    badSum, cells := SumColumnMajor(a);
    var _ := CacheFlusher.FillCacheWithBogus(CacheFlusher.BogusSize);
    goodSum, cells := SumRowMajor(a);
    assert Grid(a) == g;
    FilledMatrixSums(g, n);
  }

  /** For n up to 10000, n^2 (n - 1) is at most 10^12, well inside `long`. */
  lemma SmallCube(n: nat)
    requires n <= MatrixSize
    ensures 0 <= n * n * (n - 1) <= 1_000_000_000_000
    ensures IsInt64(n * n * (n - 1))
  {
    if n > 0 {
      MulMonotone(n, MatrixSize, n);
      MulMonotone(n, MatrixSize, MatrixSize);
      MulMonotone(n * n, 100_000_000, n - 1);
      MulNonneg(n * n, n - 1);
    }
  }
}
