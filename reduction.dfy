/**
 * The first step of the solver (`reduceMatrix`): subtract each column's minimum, then each
 * row's minimum of the column-reduced matrix, and report the total subtracted.
 */
module Reduction {
  import opened Grid
  import opened Assignment

  function Column(m: Matrix, j: nat): (column: seq<int>)
    requires forall i :: 0 <= i < |m| ==> j < |m[i]|
  {
    seq(|m|, i requires 0 <= i < |m| => m[i][j])
  }

  /** numpy's `min(axis=0)`. */
  function ColumnMinima(m: Matrix, cols: nat): (v: seq<int>)
    requires IsGrid(m, |m|, cols) && |m| > 0
    ensures |v| == cols
    ensures forall j :: 0 <= j < cols ==> v[j] in Column(m, j)
    ensures forall i, j :: 0 <= i < |m| && 0 <= j < cols ==> v[j] <= m[i][j]
  {
    var v := seq(cols, j requires 0 <= j < cols => MinOf(Column(m, j)));
    assert forall i, j :: 0 <= i < |m| && 0 <= j < cols ==> v[j] <= m[i][j] by {
      forall i, j | 0 <= i < |m| && 0 <= j < cols ensures v[j] <= m[i][j] {
        assert Column(m, j)[i] == m[i][j];
      }
    }
    v
  }

  /** numpy's `min(axis=1)`. */
  function RowMinima(m: Matrix): (v: seq<int>)
    requires forall i :: 0 <= i < |m| ==> |m[i]| > 0
    ensures |v| == |m|
    ensures forall i :: 0 <= i < |m| ==> v[i] in m[i]
    ensures forall i, j :: 0 <= i < |m| && 0 <= j < |m[i]| ==> v[i] <= m[i][j]
  {
    seq(|m|, i requires 0 <= i < |m| => MinOf(m[i]))
  }

  /** Row `i` of `m` holds a zero. */
  ghost predicate RowHasZero(m: Matrix, cols: nat, i: nat)
    requires IsGrid(m, |m|, cols) && i < |m|
  {
    exists j :: 0 <= j < cols && m[i][j] == 0
  }

  /** Column `j` of `m` holds a zero. */
  ghost predicate ColumnHasZero(m: Matrix, cols: nat, j: nat)
    requires IsGrid(m, |m|, cols) && j < cols
  {
    exists i :: 0 <= i < |m| && m[i][j] == 0
  }

  /** `matrix - v`: broadcasting a row vector subtracts v[j] from column j. */
  function SubtractFromColumns(m: Matrix, v: seq<int>): (r: Matrix)
    requires IsGrid(m, |m|, |v|)
    ensures IsGrid(r, |m|, |v|)
    ensures forall i, j :: 0 <= i < |m| && 0 <= j < |v| ==> r[i][j] == m[i][j] - v[j]
  {
    seq(|m|, i requires 0 <= i < |m| => seq(|v|, j requires 0 <= j < |v| => m[i][j] - v[j]))
  }

  /** `matrix - v[:, np.newaxis]`: subtracts v[i] from row i. */
  function SubtractFromRows(m: Matrix, v: seq<int>): (r: Matrix)
    requires |v| == |m|
    ensures |r| == |m| && forall i :: 0 <= i < |m| ==> |r[i]| == |m[i]|
    ensures forall i, j :: 0 <= i < |m| && 0 <= j < |m[i]| ==> r[i][j] == m[i][j] - v[i]
  {
    seq(|m|, i requires 0 <= i < |m| => seq(|m[i]|, j requires 0 <= j < |m[i]| => m[i][j] - v[i]))
  }

  /** The reduced matrix and the amount subtracted in total. */
  datatype Reduced = Reduced(matrix: Matrix, total: int)

  /** The column-reduced matrix `matrix - min(axis=0)`. */
  function ColumnReduced(m: Matrix, cols: nat): (r: Matrix)
    requires IsGrid(m, |m|, cols) && |m| > 0
    ensures IsGrid(r, |m|, cols) && NonNegative(r)
    ensures forall j :: 0 <= j < cols ==> ColumnHasZero(r, cols, j)
  {
    var colMins := ColumnMinima(m, cols);
    var r := SubtractFromColumns(m, colMins);
    assert forall j :: 0 <= j < cols ==> ColumnHasZero(r, cols, j) by {
      forall j | 0 <= j < cols ensures ColumnHasZero(r, cols, j) {
        var i :| 0 <= i < |m| && Column(m, j)[i] == colMins[j];
        assert r[i][j] == 0;
      }
    }
    r
  }

  /** Subtracting the row minima of a non-negative matrix keeps it non-negative and keeps its zeros. */
  lemma RowReductionFacts(c: Matrix, rows: nat, cols: nat)
    requires IsGrid(c, rows, cols) && cols > 0 && NonNegative(c)
    ensures var r := SubtractFromRows(c, RowMinima(c));
      && IsGrid(r, rows, cols) && NonNegative(r)
      && (forall i :: 0 <= i < rows ==> RowHasZero(r, cols, i))
      && (forall i, j :: 0 <= i < rows && 0 <= j < cols && c[i][j] == 0 ==> r[i][j] == 0)
  {
    var rowMins := RowMinima(c);
    var r := SubtractFromRows(c, rowMins);
    forall i | 0 <= i < rows ensures rowMins[i] >= 0 && RowHasZero(r, cols, i) {
      var j :| 0 <= j < cols && c[i][j] == rowMins[i];
      assert r[i][j] == 0;
    }
  }

  /**
   * The column-then-row reduction. The result is non-negative and has a zero in every row
   * and every column; the total is the column minima plus the row minima of the
   * column-reduced matrix.
   */
  function ReduceMatrix(m: Matrix, rows: nat, cols: nat): (r: Reduced)
    requires IsGrid(m, rows, cols) && rows > 0 && cols > 0
    ensures IsGrid(r.matrix, rows, cols) && NonNegative(r.matrix)
    ensures forall i :: 0 <= i < rows ==> RowHasZero(r.matrix, cols, i)
    ensures forall j :: 0 <= j < cols ==> ColumnHasZero(r.matrix, cols, j)
    ensures r.total == Sum(ColumnMinima(m, cols)) + Sum(RowMinima(ColumnReduced(m, cols)))
  {
    var colReduced := ColumnReduced(m, cols);
    var rowMins := RowMinima(colReduced);
    var result := SubtractFromRows(colReduced, rowMins);
    RowReductionFacts(colReduced, rows, cols);
    assert forall j :: 0 <= j < cols ==> ColumnHasZero(result, cols, j) by {
      forall j | 0 <= j < cols ensures ColumnHasZero(result, cols, j) {
        assert ColumnHasZero(colReduced, cols, j);
        var i :| 0 <= i < rows && colReduced[i][j] == 0;
        assert result[i][j] == 0;
      }
    }
    Reduced(result, Sum(ColumnMinima(m, cols)) + Sum(rowMins))
  }

  /**
   * Every assignment's cost drops by exactly the reported total, so the cheapest
   * assignments of the reduced matrix are those of the original.
   */
  lemma ReductionShiftsCost(m: Matrix, n: nat, p: seq<nat>)
    requires IsGrid(m, n, n) && n > 0 && IsPermutation(p, n)
    ensures Cost(m, p) == Cost(ReduceMatrix(m, n, n).matrix, p) + ReduceMatrix(m, n, n).total
  {
    var colMins := ColumnMinima(m, n);
    var colReduced := ColumnReduced(m, n);
    var rowMins := RowMinima(colReduced);
    CostShift(m, ReduceMatrix(m, n, n).matrix, n, rowMins, colMins, p);
  }

  /** The reported total never exceeds the cost of any assignment. */
  lemma ReductionLowerBound(m: Matrix, n: nat, p: seq<nat>)
    requires IsGrid(m, n, n) && n > 0 && IsPermutation(p, n)
    ensures ReduceMatrix(m, n, n).total <= Cost(m, p)
  {
    ReductionShiftsCost(m, n, p);
    CostNonNegative(ReduceMatrix(m, n, n).matrix, n, p);
  }

  /** A non-negative matrix with a zero in every column has all column minima 0. */
  lemma ColumnMinimaOfReduced(m: Matrix, rows: nat, cols: nat)
    requires IsGrid(m, rows, cols) && rows > 0 && NonNegative(m)
    requires forall j :: 0 <= j < cols ==> ColumnHasZero(m, cols, j)
    ensures forall j :: 0 <= j < cols ==> ColumnMinima(m, cols)[j] == 0
    ensures ColumnReduced(m, cols) == m
  {
    var colMins := ColumnMinima(m, cols);
    forall j | 0 <= j < cols ensures colMins[j] == 0 {
      assert ColumnHasZero(m, cols, j);
      var k :| 0 <= k < rows && Column(m, j)[k] == colMins[j];
      assert m[k][j] >= 0;
    }
    var colReduced := ColumnReduced(m, cols);
    forall i | 0 <= i < rows ensures colReduced[i] == m[i] {
      assert forall j :: 0 <= j < cols ==> colReduced[i][j] == m[i][j];
    }
  }

  /** A non-negative matrix with a zero in every row has all row minima 0. */
  lemma RowMinimaOfReduced(m: Matrix, rows: nat, cols: nat)
    requires IsGrid(m, rows, cols) && cols > 0 && NonNegative(m)
    requires forall i :: 0 <= i < rows ==> RowHasZero(m, cols, i)
    ensures forall i :: 0 <= i < rows ==> RowMinima(m)[i] == 0
    ensures SubtractFromRows(m, RowMinima(m)) == m
  {
    var rowMins := RowMinima(m);
    forall i | 0 <= i < rows ensures rowMins[i] == 0 {
      assert RowHasZero(m, cols, i);
      var k :| 0 <= k < cols && m[i][k] == rowMins[i];
      assert m[i][k] >= 0;
    }
    var result := SubtractFromRows(m, rowMins);
    forall i | 0 <= i < rows ensures result[i] == m[i] {
      assert forall j :: 0 <= j < cols ==> result[i][j] == m[i][j];
    }
  }

  /** Reducing an already reduced matrix subtracts nothing and changes nothing. */
  lemma ReduceReduced(m: Matrix, rows: nat, cols: nat)
    requires IsGrid(m, rows, cols) && rows > 0 && cols > 0 && NonNegative(m)
    requires forall i :: 0 <= i < rows ==> RowHasZero(m, cols, i)
    requires forall j :: 0 <= j < cols ==> ColumnHasZero(m, cols, j)
    ensures ReduceMatrix(m, rows, cols) == Reduced(m, 0)
  {
    ColumnMinimaOfReduced(m, rows, cols);
    RowMinimaOfReduced(m, rows, cols);
    SumOfZeros(ColumnMinima(m, cols));
    SumOfZeros(RowMinima(m));
  }
}
