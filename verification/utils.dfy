/**
 * Integer array helpers used when tabulating streak statistics:
 *  - AddSummaryRowColumn: overwrite row 0 and column 0 of a matrix with
 *    the marginal sums of the body (rows and columns 1..);
 *  - InvertZerosAndNonzeros: the elementwise 0/1 indicator of zero cells;
 *  - CreateArrayFromKv: scatter values into a zero vector by index.
 *
 * Matrices are `array2<int>`; their contents are read as a grid of rows
 * (`seq<seq<int>>`), on which the specification functions and lemmas work.
 */
module Utils {
  import opened Wrappers

  /** Every row of `g` has `n` cells. */
  predicate Rect(g: seq<seq<int>>, n: nat)
  {
    forall i :: 0 <= i < |g| ==> |g[i]| == n
  }

  /** The contents of a matrix, row by row. */
  ghost function Cells(a: array2<int>): (g: seq<seq<int>>)
    reads a
    ensures |g| == a.Length0 && Rect(g, a.Length1)
    ensures forall i, j :: 0 <= i < a.Length0 && 0 <= j < a.Length1 ==> g[i][j] == a[i, j]
  {
    seq(a.Length0, i requires 0 <= i < a.Length0 reads a =>
      seq(a.Length1, j requires 0 <= j < a.Length1 reads a => a[i, j]))
  }

  // ---------------------------------------------------------------------
  // Sums
  // ---------------------------------------------------------------------

  /** row[lo] + ... + row[hi - 1] */
  function RowSum(row: seq<int>, lo: nat, hi: nat): int
    requires lo <= hi <= |row|
    decreases hi - lo
  {
    if lo == hi then 0 else RowSum(row, lo, hi - 1) + row[hi - 1]
  }

  /** g[lo][j] + ... + g[hi - 1][j] */
  function ColSum(g: seq<seq<int>>, n: nat, j: nat, lo: nat, hi: nat): int
    requires Rect(g, n) && j < n && lo <= hi <= |g|
    decreases hi - lo
  {
    if lo == hi then 0 else ColSum(g, n, j, lo, hi - 1) + g[hi - 1][j]
  }

  /** Sum of the body cells g[i][j] with 1 <= i < hi and 1 <= j < n. */
  function BodySum(g: seq<seq<int>>, n: nat, hi: nat): int
    requires Rect(g, n) && 1 <= n && 1 <= hi <= |g|
  {
    if hi == 1 then 0 else BodySum(g, n, hi - 1) + RowSum(g[hi - 1], 1, n)
  }

  /** Sum of the body column sums ColSum(g, n, j, 1, rows) with lo <= j < hi. */
  function ColumnTotals(g: seq<seq<int>>, n: nat, lo: nat, hi: nat, rows: nat): int
    requires Rect(g, n) && lo <= hi <= n && 1 <= rows <= |g|
    decreases hi - lo
  {
    if lo == hi then 0 else ColumnTotals(g, n, lo, hi - 1, rows) + ColSum(g, n, hi - 1, 1, rows)
  }

  // ---------------------------------------------------------------------
  // add_summary_row_column, as written: the body of the result is zero
  // ---------------------------------------------------------------------

  /**
   * The matrix `add_summary_row_column` returns for the grid `g` of width
   * `n`: a copy when there is at most one row or one column; otherwise a
   * zero matrix whose row 0 holds the column sums over rows 1.., whose
   * column 0 holds the row sums over columns 1.., and whose corner holds
   * the sum of the whole body.
   */
  function Summary(g: seq<seq<int>>, n: nat): (r: seq<seq<int>>)
    requires Rect(g, n)
    ensures |r| == |g| && Rect(r, n)
    ensures |g| <= 1 || n <= 1 ==> r == g
  {
    if |g| <= 1 || n <= 1 then g
    else seq(|g|, i requires 0 <= i < |g| => seq(n, j requires 0 <= j < n => SummaryAt(g, n, i, j)))
  }

  /** Cell (i, j) of the summary of a matrix with at least two rows and columns. */
  function SummaryAt(g: seq<seq<int>>, n: nat, i: nat, j: nat): int
    requires Rect(g, n) && 1 <= |g| && 1 <= n && i < |g| && j < n
  {
    if i == 0 && j == 0 then BodySum(g, n, |g|)
    else if i == 0 then ColSum(g, n, j, 1, |g|)
    else if j == 0 then RowSum(g[i], 1, n)
    else 0
  }

  /** np.sum(arr[1:, j]) */
  method ColumnSum(arr: array2<int>, j: nat) returns (total: int)
    requires 1 <= arr.Length0 && j < arr.Length1
    ensures total == ColSum(Cells(arr), arr.Length1, j, 1, arr.Length0)
  {
    total := 0;
    for i := 1 to arr.Length0
      invariant total == ColSum(Cells(arr), arr.Length1, j, 1, i)
    {
      total := total + arr[i, j];
    }
  }

  /** np.sum(arr[i, 1:]) */
  method RowSumOf(arr: array2<int>, i: nat) returns (total: int)
    requires i < arr.Length0 && 1 <= arr.Length1
    ensures total == RowSum(Cells(arr)[i], 1, arr.Length1)
  {
    total := 0;
    for j := 1 to arr.Length1
      invariant total == RowSum(Cells(arr)[i], 1, j)
    {
      total := total + arr[i, j];
    }
  }

  /** np.sum(arr[1:, 1:]) */
  method BodySumOf(arr: array2<int>) returns (total: int)
    requires 1 <= arr.Length0 && 1 <= arr.Length1
    ensures total == BodySum(Cells(arr), arr.Length1, arr.Length0)
  {
    total := 0;
    for i := 1 to arr.Length0
      invariant total == BodySum(Cells(arr), arr.Length1, i)
    {
      var rowTotal := RowSumOf(arr, i);
      total := total + rowTotal;
    }
  }

  /** arr.copy() */
  method CopyOf(arr: array2<int>) returns (result: array2<int>)
    ensures fresh(result)
    ensures result.Length0 == arr.Length0 && result.Length1 == arr.Length1
    ensures Cells(result) == Cells(arr)
  {
    result := new int[arr.Length0, arr.Length1]((i, j) reads arr =>
      if 0 <= i < arr.Length0 && 0 <= j < arr.Length1 then arr[i, j] else 0);
    forall i | 0 <= i < arr.Length0
      ensures Cells(result)[i] == Cells(arr)[i]
    {
      assert forall j :: 0 <= j < arr.Length1 ==> Cells(result)[i][j] == Cells(arr)[i][j];
    }
  }

  /** result[0, :] = np.sum(arr[1:, :], axis=0) */
  method WriteColumnSums(arr: array2<int>, result: array2<int>)
    requires result != arr && 1 <= arr.Length0
    requires result.Length0 == arr.Length0 && result.Length1 == arr.Length1
    modifies result
    ensures forall c :: 0 <= c < arr.Length1 ==> result[0, c] == ColSum(Cells(arr), arr.Length1, c, 1, arr.Length0)
    ensures forall r, c :: 1 <= r < arr.Length0 && 0 <= c < arr.Length1 ==> result[r, c] == old(result[r, c])
  {
    for j := 0 to arr.Length1
      invariant forall c :: 0 <= c < j ==> result[0, c] == ColSum(Cells(arr), arr.Length1, c, 1, arr.Length0)
      invariant forall r, c :: 1 <= r < arr.Length0 && 0 <= c < arr.Length1 ==> result[r, c] == old(result[r, c])
    {
      var total := ColumnSum(arr, j);
      result[0, j] := total;
    }
  }

  /** result[:, 0] = np.sum(arr[:, 1:], axis=1) */
  method WriteRowSums(arr: array2<int>, result: array2<int>)
    requires result != arr && 1 <= arr.Length1
    requires result.Length0 == arr.Length0 && result.Length1 == arr.Length1
    modifies result
    ensures forall r :: 0 <= r < arr.Length0 ==> result[r, 0] == RowSum(Cells(arr)[r], 1, arr.Length1)
    ensures forall r, c :: 0 <= r < arr.Length0 && 1 <= c < arr.Length1 ==> result[r, c] == old(result[r, c])
  {
    for i := 0 to arr.Length0
      invariant forall r :: 0 <= r < i ==> result[r, 0] == RowSum(Cells(arr)[r], 1, arr.Length1)
      invariant forall r, c :: 0 <= r < arr.Length0 && 1 <= c < arr.Length1 ==> result[r, c] == old(result[r, c])
    {
      var total := RowSumOf(arr, i);
      result[i, 0] := total;
    }
  }

  /**
   * add_summary_row_column: a new matrix, the input left untouched (no
   * `modifies` clause). Row 0 is written with all column sums, then
   * column 0 with all row sums, then the corner with the body sum.
   */
  method AddSummaryRowColumn(arr: array2<int>) returns (result: array2<int>)
    ensures fresh(result)
    ensures result.Length0 == arr.Length0 && result.Length1 == arr.Length1
    ensures Cells(result) == Summary(Cells(arr), arr.Length1)
  {
    var m, n := arr.Length0, arr.Length1;
    if m <= 1 || n <= 1 {
      result := CopyOf(arr);
      return;
    }
    ghost var g := Cells(arr);
    result := new int[m, n]((i, j) => 0);
    WriteColumnSums(arr, result);
    WriteRowSums(arr, result);
    // result[0, 0] = np.sum(arr[1:, 1:])
    var body := BodySumOf(arr);
    result[0, 0] := body;
    assert forall i, j :: 0 <= i < m && 0 <= j < n ==> result[i, j] == SummaryAt(g, n, i, j);
    SummaryOfCells(Cells(result), g, n);
  }

  /** A grid whose every cell is the summary's cell is the summary. */
  lemma SummaryOfCells(c: seq<seq<int>>, g: seq<seq<int>>, n: nat)
    requires Rect(g, n) && 2 <= |g| && 2 <= n && |c| == |g| && Rect(c, n)
    requires forall i, j :: 0 <= i < |g| && 0 <= j < n ==> c[i][j] == SummaryAt(g, n, i, j)
    ensures c == Summary(g, n)
  {
    GridExtensionality(c, Summary(g, n), n);
  }

  /** Two grids of the same shape with the same cells are equal. */
  lemma GridExtensionality(a: seq<seq<int>>, b: seq<seq<int>>, n: nat)
    requires |a| == |b| && Rect(a, n) && Rect(b, n)
    requires forall i, j :: 0 <= i < |a| && 0 <= j < n ==> a[i][j] == b[i][j]
    ensures a == b
  {
    forall i | 0 <= i < |a|
      ensures a[i] == b[i]
    {
      assert forall j :: 0 <= j < n ==> a[i][j] == b[i][j];
    }
  }

  // ---------------------------------------------------------------------
  // Lemmas about the summary
  // ---------------------------------------------------------------------

  /** Adding one more row to every column sum adds that row's body sum. */
  lemma {:induction false} ColumnTotalsNextRow(g: seq<seq<int>>, n: nat, hi: nat, rows: nat)
    requires Rect(g, n) && 1 <= hi <= n && 1 <= rows < |g|
    ensures ColumnTotals(g, n, 1, hi, rows + 1) == ColumnTotals(g, n, 1, hi, rows) + RowSum(g[rows], 1, hi)
    decreases hi
  {
    if hi > 1 {
      ColumnTotalsNextRow(g, n, hi - 1, rows);
    }
  }

  /** Summing the body by columns or by rows gives the same total. */
  lemma {:induction false} ColumnTotalsIsBodySum(g: seq<seq<int>>, n: nat, rows: nat)
    requires Rect(g, n) && 1 <= n && 1 <= rows <= |g|
    ensures ColumnTotals(g, n, 1, n, rows) == BodySum(g, n, rows)
    decreases rows
  {
    if rows == 1 {
      ColumnTotalsOfNoRows(g, n, n);
    } else {
      ColumnTotalsIsBodySum(g, n, rows - 1);
      ColumnTotalsNextRow(g, n, n, rows - 1);
    }
  }

  lemma {:induction false} ColumnTotalsOfNoRows(g: seq<seq<int>>, n: nat, hi: nat)
    requires Rect(g, n) && 1 <= hi <= n && 1 <= |g|
    ensures ColumnTotals(g, n, 1, hi, 1) == 0
    decreases hi
  {
    if hi > 1 {
      ColumnTotalsOfNoRows(g, n, hi - 1);
    }
  }

  /** Row 0 of the summary, summed over columns 1..hi-1, adds up the column sums. */
  lemma {:induction false} SummaryRowZero(g: seq<seq<int>>, n: nat, hi: nat)
    requires Rect(g, n) && 2 <= |g| && 2 <= n && 1 <= hi <= n
    ensures RowSum(Summary(g, n)[0], 1, hi) == ColumnTotals(g, n, 1, hi, |g|)
    decreases hi
  {
    if hi > 1 {
      SummaryRowZero(g, n, hi - 1);
    }
  }

  /** Column 0 of the summary, summed over rows 1..hi-1, adds up the row sums. */
  lemma {:induction false} SummaryColumnZero(g: seq<seq<int>>, n: nat, hi: nat)
    requires Rect(g, n) && 2 <= |g| && 2 <= n && 1 <= hi <= |g|
    ensures ColSum(Summary(g, n), n, 0, 1, hi) == BodySum(g, n, hi)
    decreases hi
  {
    if hi > 1 {
      SummaryColumnZero(g, n, hi - 1);
    }
  }

  /**
   * The cross-check of the summary: the corner equals both the sum of
   * row 0 (columns 1..) and the sum of column 0 (rows 1..), and it is the
   * sum of the body of the input.
   */
  lemma SummaryCrossCheck(g: seq<seq<int>>, n: nat)
    requires Rect(g, n) && 2 <= |g| && 2 <= n
    ensures Summary(g, n)[0][0] == BodySum(g, n, |g|)
    ensures RowSum(Summary(g, n)[0], 1, n) == Summary(g, n)[0][0]
    ensures ColSum(Summary(g, n), n, 0, 1, |g|) == Summary(g, n)[0][0]
  {
    SummaryRowZero(g, n, n);
    ColumnTotalsIsBodySum(g, n, |g|);
    SummaryColumnZero(g, n, |g|);
  }

  /** Every body cell of the summary is zero. */
  lemma SummaryBodyIsZero(g: seq<seq<int>>, n: nat)
    requires Rect(g, n) && 2 <= |g| && 2 <= n
    ensures forall i, j :: 1 <= i < |g| && 1 <= j < n ==> Summary(g, n)[i][j] == 0
  {
  }

  lemma {:induction false} ZeroRowSum(row: seq<int>, hi: nat)
    requires 1 <= hi <= |row| && forall j :: 1 <= j < |row| ==> row[j] == 0
    ensures RowSum(row, 1, hi) == 0
    decreases hi
  {
    if hi > 1 {
      ZeroRowSum(row, hi - 1);
    }
  }

  lemma {:induction false} ZeroColSum(g: seq<seq<int>>, n: nat, j: nat, hi: nat)
    requires Rect(g, n) && j < n && 1 <= hi <= |g|
    requires forall i :: 1 <= i < |g| ==> g[i][j] == 0
    ensures ColSum(g, n, j, 1, hi) == 0
    decreases hi
  {
    if hi > 1 {
      ZeroColSum(g, n, j, hi - 1);
    }
  }

  lemma {:induction false} ZeroBodySum(g: seq<seq<int>>, n: nat, hi: nat)
    requires Rect(g, n) && 1 <= n && 1 <= hi <= |g|
    requires forall i, j :: 1 <= i < |g| && 1 <= j < n ==> g[i][j] == 0
    ensures BodySum(g, n, hi) == 0
    decreases hi
  {
    if hi > 1 {
      ZeroBodySum(g, n, hi - 1);
      ZeroRowSum(g[hi - 1], n);
    }
  }

  /**
   * Because the body is zeroed, summarising a summary again loses every
   * figure: the second result is all zeros.
   */
  lemma SummaryTwiceIsZero(g: seq<seq<int>>, n: nat)
    requires Rect(g, n) && 2 <= |g| && 2 <= n
    ensures forall i, j :: 0 <= i < |g| && 0 <= j < n ==> Summary(Summary(g, n), n)[i][j] == 0
  {
    var r := Summary(g, n);
    SummaryBodyIsZero(g, n);
    ZeroBodySum(r, n, |g|);
    forall j | 1 <= j < n
      ensures ColSum(r, n, j, 1, |g|) == 0
    {
      ZeroColSum(r, n, j, |g|);
    }
    forall i | 1 <= i < |g|
      ensures RowSum(r[i], 1, n) == 0
    {
      ZeroRowSum(r[i], n);
    }
  }

  /** The documented example, as written: the body 1 2 / 3 4 is lost. */
  lemma SummaryExample()
    ensures Summary([[0, 0, 0], [0, 1, 2], [0, 3, 4]], 3) == [[10, 4, 6], [3, 0, 0], [7, 0, 0]]
    ensures Summary([[0, 0, 0], [0, 1, 2], [0, 3, 4]], 3) != [[10, 4, 6], [3, 1, 2], [7, 3, 4]]
  {
    var g := [[0, 0, 0], [0, 1, 2], [0, 3, 4]];
    var r := Summary(g, 3);
    assert RowSum(g[1], 1, 3) == 3 && RowSum(g[2], 1, 3) == 7;
    assert BodySum(g, 3, 3) == 10;
    assert ColSum(g, 3, 1, 1, 3) == 4 && ColSum(g, 3, 2, 1, 3) == 6;
    assert r[0] == [10, 4, 6] && r[1] == [3, 0, 0] && r[2] == [7, 0, 0];
    assert r[1][1] != 1;
  }

  // ---------------------------------------------------------------------
  // The evidently intended summary: the body is kept
  // ---------------------------------------------------------------------

  /** As Summary, but the body cells keep the input's values. */
  function SummaryKeepingBody(g: seq<seq<int>>, n: nat): (r: seq<seq<int>>)
    requires Rect(g, n)
    ensures |r| == |g| && Rect(r, n)
    ensures forall i, j :: 1 <= i < |g| && 1 <= j < n ==> r[i][j] == g[i][j]
  {
    if |g| <= 1 || n <= 1 then g
    else
      seq(|g|, i requires 0 <= i < |g| =>
        seq(n, j requires 0 <= j < n =>
          if i == 0 && j == 0 then BodySum(g, n, |g|)
          else if i == 0 then ColSum(g, n, j, 1, |g|)
          else if j == 0 then RowSum(g[i], 1, n)
          else g[i][j]))
  }

  lemma {:induction false} SameBodyRowSum(a: seq<int>, b: seq<int>, hi: nat)
    requires 1 <= hi <= |a| == |b| && forall j :: 1 <= j < |a| ==> a[j] == b[j]
    ensures RowSum(a, 1, hi) == RowSum(b, 1, hi)
    decreases hi
  {
    if hi > 1 {
      SameBodyRowSum(a, b, hi - 1);
    }
  }

  lemma {:induction false} SameBodyColSum(g: seq<seq<int>>, h: seq<seq<int>>, n: nat, j: nat, hi: nat)
    requires Rect(g, n) && Rect(h, n) && |g| == |h| && 1 <= j < n && 1 <= hi <= |g|
    requires forall i :: 1 <= i < |g| ==> g[i][j] == h[i][j]
    ensures ColSum(g, n, j, 1, hi) == ColSum(h, n, j, 1, hi)
    decreases hi
  {
    if hi > 1 {
      SameBodyColSum(g, h, n, j, hi - 1);
    }
  }

  lemma {:induction false} SameBodyBodySum(g: seq<seq<int>>, h: seq<seq<int>>, n: nat, hi: nat)
    requires Rect(g, n) && Rect(h, n) && |g| == |h| && 1 <= n && 1 <= hi <= |g|
    requires forall i, j :: 1 <= i < |g| && 1 <= j < n ==> g[i][j] == h[i][j]
    ensures BodySum(g, n, hi) == BodySum(h, n, hi)
    decreases hi
  {
    if hi > 1 {
      SameBodyBodySum(g, h, n, hi - 1);
      SameBodyRowSum(g[hi - 1], h[hi - 1], n);
    }
  }

  /** Summarising a summary that kept its body changes nothing. */
  lemma SummaryKeepingBodyIdempotent(g: seq<seq<int>>, n: nat)
    requires Rect(g, n)
    ensures SummaryKeepingBody(SummaryKeepingBody(g, n), n) == SummaryKeepingBody(g, n)
  {
    var r := SummaryKeepingBody(g, n);
    if 2 <= |g| && 2 <= n {
      SameBodyBodySum(r, g, n, |g|);
      forall j | 1 <= j < n
        ensures ColSum(r, n, j, 1, |g|) == ColSum(g, n, j, 1, |g|)
      {
        SameBodyColSum(r, g, n, j, |g|);
      }
      forall i | 1 <= i < |g|
        ensures RowSum(r[i], 1, n) == RowSum(g[i], 1, n)
      {
        SameBodyRowSum(r[i], g[i], n);
      }
      var rr := SummaryKeepingBody(r, n);
      forall i | 0 <= i < |g|
        ensures rr[i] == r[i]
      {
        assert forall j :: 0 <= j < n ==> rr[i][j] == r[i][j];
      }
    }
  }

  /** The corrected summary meets the documented example. */
  lemma SummaryKeepingBodyExample()
    ensures SummaryKeepingBody([[0, 0, 0], [0, 1, 2], [0, 3, 4]], 3) == [[10, 4, 6], [3, 1, 2], [7, 3, 4]]
    ensures SummaryKeepingBody([[0, 0], [0, 0]], 2) == [[0, 0], [0, 0]]
  {
    var g := [[0, 0, 0], [0, 1, 2], [0, 3, 4]];
    var r := SummaryKeepingBody(g, 3);
    assert RowSum(g[1], 1, 3) == 3 && RowSum(g[2], 1, 3) == 7;
    assert BodySum(g, 3, 3) == 10;
    assert ColSum(g, 3, 1, 1, 3) == 4 && ColSum(g, 3, 2, 1, 3) == 6;
    assert r[0] == [10, 4, 6] && r[1] == [3, 1, 2] && r[2] == [7, 3, 4];
    var z := [[0, 0], [0, 0]];
    var rz := SummaryKeepingBody(z, 2);
    assert BodySum(z, 2, 2) == 0 && ColSum(z, 2, 1, 1, 2) == 0 && RowSum(z[1], 1, 2) == 0;
    assert rz[0] == [0, 0] && rz[1] == [0, 0];
  }

  // ---------------------------------------------------------------------
  // invert_zeros_and_nonzeros
  // ---------------------------------------------------------------------

  /** Every cell of `g` is 0 or 1. */
  predicate ZeroOne(g: seq<seq<int>>)
  {
    forall i, j :: 0 <= i < |g| && 0 <= j < |g[i]| ==> g[i][j] == 0 || g[i][j] == 1
  }

  /** np.where(arr == 0, 1, 0) on the cells of a matrix. */
  function InvertZerosAndNonzeros(g: seq<seq<int>>): (r: seq<seq<int>>)
    ensures |r| == |g| && forall i :: 0 <= i < |g| ==> |r[i]| == |g[i]|
    ensures ZeroOne(r)
    ensures forall i, j :: 0 <= i < |g| && 0 <= j < |g[i]| ==> (r[i][j] == 1 <==> g[i][j] == 0)
  {
    seq(|g|, i requires 0 <= i < |g| =>
      seq(|g[i]|, j requires 0 <= j < |g[i]| => if g[i][j] == 0 then 1 else 0))
  }

  /** Inverting twice marks exactly the nonzero cells with 1. */
  lemma InvertTwiceMarksNonzero(g: seq<seq<int>>)
    ensures forall i, j :: 0 <= i < |g| && 0 <= j < |g[i]| ==>
      InvertZerosAndNonzeros(InvertZerosAndNonzeros(g))[i][j] == (if g[i][j] != 0 then 1 else 0)
  {
    var r := InvertZerosAndNonzeros(g);
    var rr := InvertZerosAndNonzeros(r);
    forall i, j | 0 <= i < |g| && 0 <= j < |g[i]|
      ensures rr[i][j] == (if g[i][j] != 0 then 1 else 0)
    {
      assert r[i][j] == 1 <==> g[i][j] == 0;
      assert r[i][j] == 0 || r[i][j] == 1;
    }
  }

  /** On a 0/1 matrix the inversion is its own inverse. */
  lemma InvertInvolutive(g: seq<seq<int>>)
    requires ZeroOne(g)
    ensures InvertZerosAndNonzeros(InvertZerosAndNonzeros(g)) == g
  {
    var rr := InvertZerosAndNonzeros(InvertZerosAndNonzeros(g));
    InvertTwiceMarksNonzero(g);
    forall i | 0 <= i < |g|
      ensures rr[i] == g[i]
    {
      assert forall j :: 0 <= j < |g[i]| ==> rr[i][j] == g[i][j];
    }
  }

  lemma InvertExamples()
    ensures InvertZerosAndNonzeros([[0, 1, 0], [1, 0, 1]]) == [[1, 0, 1], [0, 1, 0]]
    ensures InvertZerosAndNonzeros([[0, 0], [0, 0]]) == [[1, 1], [1, 1]]
    ensures InvertZerosAndNonzeros([[1, 2], [3, 4]]) == [[0, 0], [0, 0]]
  {
    var a := InvertZerosAndNonzeros([[0, 1, 0], [1, 0, 1]]);
    assert a[0] == [1, 0, 1] && a[1] == [0, 1, 0];
    var b := InvertZerosAndNonzeros([[0, 0], [0, 0]]);
    assert b[0] == [1, 1] && b[1] == [1, 1];
    var c := InvertZerosAndNonzeros([[1, 2], [3, 4]]);
    assert c[0] == [0, 0] && c[1] == [0, 0];
  }

  // ---------------------------------------------------------------------
  // create_array_from_kv
  // ---------------------------------------------------------------------

  /** np.max of a non-empty sequence. */
  function MaxOf(s: seq<int>): (m: int)
    requires s != []
    ensures m in s && forall x :: x in s ==> x <= m
  {
    if |s| == 1 then s[0]
    else
      var rest := MaxOf(s[1..]);
      assert forall x :: x in s ==> x == s[0] || x in s[1..];
      if s[0] >= rest then s[0] else rest
  }

  /**
   * The value cell `c` ends up holding after `arr[keys] = vals`: the value
   * paired with the last occurrence of `c` in `keys`, and 0 if `c` does not
   * occur.
   */
  function ValueAt(keys: seq<int>, vals: seq<int>, c: int): int
    requires |keys| == |vals|
  {
    if keys == [] then 0
    else if keys[|keys| - 1] == c then vals[|vals| - 1]
    else ValueAt(keys[..|keys| - 1], vals[..|vals| - 1], c)
  }

  lemma {:induction false} ValueAtAbsent(keys: seq<int>, vals: seq<int>, c: int)
    requires |keys| == |vals| && c !in keys
    ensures ValueAt(keys, vals, c) == 0
  {
    if keys != [] {
      assert c !in keys[..|keys| - 1] by {
        assert forall x :: x in keys[..|keys| - 1] ==> x in keys;
      }
      ValueAtAbsent(keys[..|keys| - 1], vals[..|vals| - 1], c);
    }
  }

  /** With distinct keys, each key's cell holds its own value. */
  lemma {:induction false} ValueAtDistinct(keys: seq<int>, vals: seq<int>, i: nat)
    requires |keys| == |vals| && i < |keys|
    requires forall p, q :: 0 <= p < q < |keys| ==> keys[p] != keys[q]
    ensures ValueAt(keys, vals, keys[i]) == vals[i]
  {
    if i < |keys| - 1 {
      ValueAtDistinct(keys[..|keys| - 1], vals[..|vals| - 1], i);
    }
  }

  /** A key that occurs several times gets the value of its last occurrence. */
  lemma {:induction false} ValueAtLastWins(keys: seq<int>, vals: seq<int>, i: nat)
    requires |keys| == |vals| && i < |keys|
    requires forall q :: i < q < |keys| ==> keys[q] != keys[i]
    ensures ValueAt(keys, vals, keys[i]) == vals[i]
  {
    if i < |keys| - 1 {
      ValueAtLastWins(keys[..|keys| - 1], vals[..|vals| - 1], i);
    }
  }

  /** numpy's reading of index `k` into an array of length `len`: negative indices count from the end. */
  function Wrapped(keys: seq<int>, len: int): (w: seq<int>)
    ensures |w| == |keys|
    ensures forall i :: 0 <= i < |keys| ==> w[i] == (if keys[i] < 0 then keys[i] + len else keys[i])
  {
    seq(|keys|, i requires 0 <= i < |keys| => if keys[i] < 0 then keys[i] + len else keys[i])
  }

  /** Every index is accepted by an array of length `len` (none is below `-len`, none reaches `len`). */
  predicate IndicesFit(keys: seq<int>, len: int)
  {
    forall i :: 0 <= i < |keys| ==> -len <= keys[i] < len
  }

  /** Non-negative keys are their own wrapped indices. */
  lemma WrappedNonNegative(keys: seq<int>, len: int)
    requires forall i :: 0 <= i < |keys| ==> 0 <= keys[i]
    ensures Wrapped(keys, len) == keys
  {
  }

  /**
   * create_array_from_kv: ValueError when the sizes differ; an empty
   * array for empty keys; otherwise numpy allocates a zero array of length
   * max(keys) + 1 (ValueError when that length is negative) and writes
   * vals[i] at keys[i], in order, where a negative key counts from the end
   * and a key below -(max(keys) + 1) is an IndexError.
   */
  method CreateArrayFromKv(keys: seq<int>, vals: seq<int>) returns (r: Result<array<int>>)
    ensures |keys| != |vals| ==> r.Err? && r.error == ValueError
    ensures |keys| == |vals| && keys == [] ==> r.Ok? && r.value.Length == 0
    ensures |keys| == |vals| && keys != [] && MaxOf(keys) + 1 < 0 ==>
      r.Err? && r.error == ValueError
    ensures |keys| == |vals| && keys != [] && 0 <= MaxOf(keys) + 1 && !IndicesFit(keys, MaxOf(keys) + 1) ==>
      r.Err? && r.error == IndexError
    ensures |keys| == |vals| && keys != [] && 0 <= MaxOf(keys) + 1 && IndicesFit(keys, MaxOf(keys) + 1) ==>
      r.Ok? && r.value.Length == MaxOf(keys) + 1 &&
      forall c :: 0 <= c < r.value.Length ==> r.value[c] == ValueAt(Wrapped(keys, r.value.Length), vals, c)
    ensures r.Ok? ==> fresh(r.value)
  {
    if |keys| != |vals| {
      return Err(ValueError);
    }
    if |keys| == 0 {
      var empty := new int[0];
      return Ok(empty);
    }
    var maxIndex := keys[0];
    for i := 1 to |keys|
      invariant maxIndex in keys[..i]
      invariant forall p :: 0 <= p < i ==> keys[p] <= maxIndex
    {
      maxIndex := if keys[i] > maxIndex then keys[i] else maxIndex;
    }
    assert keys[..|keys|] == keys;
    assert maxIndex == MaxOf(keys);
    if maxIndex + 1 < 0 {
      return Err(ValueError);
    }
    var len := maxIndex + 1;
    if exists p | 0 <= p < |keys| :: keys[p] < -len {
      return Err(IndexError);
    }
    assert IndicesFit(keys, len);
    ghost var w := Wrapped(keys, len);
    var arr := new int[len](_ => 0);
    for i := 0 to |keys|
      invariant forall c :: 0 <= c < arr.Length ==> arr[c] == ValueAt(w[..i], vals[..i], c)
    {
      assert w[..i + 1][..i] == w[..i] && vals[..i + 1][..i] == vals[..i];
      var k := if keys[i] < 0 then keys[i] + len else keys[i];
      assert k == w[i];
      arr[k] := vals[i];
    }
    assert w[..|keys|] == w && vals[..|vals|] == vals;
    return Ok(arr);
  }

  /** The contract of create_array_from_kv on distinct keys. */
  lemma CreateArrayFromKvDistinct(keys: seq<int>, vals: seq<int>, c: int)
    requires |keys| == |vals|
    requires forall p, q :: 0 <= p < q < |keys| ==> keys[p] != keys[q]
    ensures forall i :: 0 <= i < |keys| ==> ValueAt(keys, vals, keys[i]) == vals[i]
    ensures c !in keys ==> ValueAt(keys, vals, c) == 0
  {
    forall i | 0 <= i < |keys|
      ensures ValueAt(keys, vals, keys[i]) == vals[i]
    {
      ValueAtDistinct(keys, vals, i);
    }
    if c !in keys {
      ValueAtAbsent(keys, vals, c);
    }
  }
}
