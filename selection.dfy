/**
 * The greedy selection of independent zeros (`wyznaczanie_zer_niezaleznych`).
 *
 * Each round scans the free rows for the first one with the fewest free zeros (a zero is
 * free when neither its row nor its column is used yet) and takes that row's lowest-index
 * free zero. Unless that row had exactly one free zero, the free columns are scanned the
 * same way, and a column replaces the row's choice only when it has strictly fewer free
 * zeros. The chosen cell's row and column become used; the rounds stop when nothing is found.
 */
module Selection {
  import opened Grid
  import opened Assignment

  /** Cell (r, c) is a zero whose row and column are both still unused. */
  ghost predicate FreeZero(m: Matrix, ur: seq<bool>, uc: seq<bool>, r: nat, c: nat)
    requires IsGrid(m, |ur|, |uc|) && r < |ur| && c < |uc|
  {
    !ur[r] && !uc[c] && m[r][c] == 0
  }

  ghost predicate NoFreeZero(m: Matrix, ur: seq<bool>, uc: seq<bool>)
    requires IsGrid(m, |ur|, |uc|)
  {
    forall r, c :: 0 <= r < |ur| && 0 <= c < |uc| ==> !FreeZero(m, ur, uc, r, c)
  }

  /** Free zeros of row r among its first k columns. */
  ghost function RowZeros(m: Matrix, ur: seq<bool>, uc: seq<bool>, r: nat, k: nat): (count: nat)
    requires IsGrid(m, |ur|, |uc|) && r < |ur| && k <= |uc|
  {
    if k == 0 then 0
    else RowZeros(m, ur, uc, r, k - 1) + (if FreeZero(m, ur, uc, r, k - 1) then 1 else 0)
  }

  /** Free zeros of column c among its first k rows. */
  ghost function ColZeros(m: Matrix, ur: seq<bool>, uc: seq<bool>, c: nat, k: nat): (count: nat)
    requires IsGrid(m, |ur|, |uc|) && c < |uc| && k <= |ur|
  {
    if k == 0 then 0
    else ColZeros(m, ur, uc, c, k - 1) + (if FreeZero(m, ur, uc, k - 1, c) then 1 else 0)
  }

  ghost function RowCount(m: Matrix, ur: seq<bool>, uc: seq<bool>, r: nat): (count: nat)
    requires IsGrid(m, |ur|, |uc|) && r < |ur|
  {
    RowZeros(m, ur, uc, r, |uc|)
  }

  ghost function ColCount(m: Matrix, ur: seq<bool>, uc: seq<bool>, c: nat): (count: nat)
    requires IsGrid(m, |ur|, |uc|) && c < |uc|
  {
    ColZeros(m, ur, uc, c, |ur|)
  }

  /** A row with no free zero among its first k columns has none there at all. */
  lemma {:induction false} RowZerosNone(m: Matrix, ur: seq<bool>, uc: seq<bool>, r: nat, k: nat)
    requires IsGrid(m, |ur|, |uc|) && r < |ur| && k <= |uc|
    ensures RowZeros(m, ur, uc, r, k) == 0 <==> forall c :: 0 <= c < k ==> !FreeZero(m, ur, uc, r, c)
  {
    if k > 0 {
      RowZerosNone(m, ur, uc, r, k - 1);
    }
  }

  /** Row r is, among rows 0..k-1, the first with the fewest free zeros, and has some. */
  ghost predicate RowMinUpTo(m: Matrix, ur: seq<bool>, uc: seq<bool>, r: nat, k: nat)
    requires IsGrid(m, |ur|, |uc|) && k <= |ur|
  {
    && r < k
    && RowCount(m, ur, uc, r) > 0
    && forall r' :: 0 <= r' < k && RowCount(m, ur, uc, r') > 0 ==>
         RowCount(m, ur, uc, r) < RowCount(m, ur, uc, r')
         || (RowCount(m, ur, uc, r) == RowCount(m, ur, uc, r') && r <= r')
  }

  /** Column c is, among columns 0..k-1, the first with the fewest free zeros, and has some. */
  ghost predicate ColMinUpTo(m: Matrix, ur: seq<bool>, uc: seq<bool>, c: nat, k: nat)
    requires IsGrid(m, |ur|, |uc|) && k <= |uc|
  {
    && c < k
    && ColCount(m, ur, uc, c) > 0
    && forall c' :: 0 <= c' < k && ColCount(m, ur, uc, c') > 0 ==>
         ColCount(m, ur, uc, c) < ColCount(m, ur, uc, c')
         || (ColCount(m, ur, uc, c) == ColCount(m, ur, uc, c') && c <= c')
  }

  /** c is the lowest-index free zero of row r. */
  ghost predicate FirstZeroInRow(m: Matrix, ur: seq<bool>, uc: seq<bool>, r: nat, c: nat)
    requires IsGrid(m, |ur|, |uc|) && r < |ur|
  {
    c < |uc| && FreeZero(m, ur, uc, r, c) && forall c' :: 0 <= c' < c ==> !FreeZero(m, ur, uc, r, c')
  }

  /** r is the lowest-index free zero of column c. */
  ghost predicate FirstZeroInCol(m: Matrix, ur: seq<bool>, uc: seq<bool>, c: nat, r: nat)
    requires IsGrid(m, |ur|, |uc|) && c < |uc|
  {
    r < |ur| && FreeZero(m, ur, uc, r, c) && forall r' :: 0 <= r' < r ==> !FreeZero(m, ur, uc, r', c)
  }

  /** The row scan's candidate wins: the first row with the fewest free zeros, at its lowest free zero, and no column has strictly fewer. */
  ghost predicate ByRow(m: Matrix, ur: seq<bool>, uc: seq<bool>, cell: Cell)
    requires IsGrid(m, |ur|, |uc|)
  {
    && RowMinUpTo(m, ur, uc, cell.row, |ur|)
    && FirstZeroInRow(m, ur, uc, cell.row, cell.col)
    && forall c :: 0 <= c < |uc| && ColCount(m, ur, uc, c) > 0 ==>
         RowCount(m, ur, uc, cell.row) <= ColCount(m, ur, uc, c)
  }

  /** The column scan's candidate wins: the first column with the fewest free zeros, at its lowest free zero, with strictly fewer than every row. */
  ghost predicate ByColumn(m: Matrix, ur: seq<bool>, uc: seq<bool>, cell: Cell)
    requires IsGrid(m, |ur|, |uc|)
  {
    && ColMinUpTo(m, ur, uc, cell.col, |uc|)
    && FirstZeroInCol(m, ur, uc, cell.col, cell.row)
    && forall r :: 0 <= r < |ur| && RowCount(m, ur, uc, r) > 0 ==>
         ColCount(m, ur, uc, cell.col) < RowCount(m, ur, uc, r)
  }

  /**
   * The cell one round of the selector picks. A row with a single free zero is never
   * beaten by a column, which is why the source skips the column scan in that case.
   */
  ghost predicate GreedyChoice(m: Matrix, ur: seq<bool>, uc: seq<bool>, cell: Cell)
    requires IsGrid(m, |ur|, |uc|)
  {
    ByRow(m, ur, uc, cell) || ByColumn(m, ur, uc, cell)
  }

  /** A round's choice is determined: at most one cell satisfies GreedyChoice. */
  lemma GreedyChoiceUnique(m: Matrix, ur: seq<bool>, uc: seq<bool>, a: Cell, b: Cell)
    requires IsGrid(m, |ur|, |uc|)
    requires GreedyChoice(m, ur, uc, a) && GreedyChoice(m, ur, uc, b)
    ensures a == b
  {
    if ByRow(m, ur, uc, a) {
      ColZerosNone(m, ur, uc, b.col, |ur|);
    }
    if ByRow(m, ur, uc, b) {
      ColZerosNone(m, ur, uc, a.col, |ur|);
    }
    if ByRow(m, ur, uc, a) {
      assert ByRow(m, ur, uc, b);
      assert a.row == b.row;
    } else {
      assert ByColumn(m, ur, uc, a) && ByColumn(m, ur, uc, b);
      assert a.col == b.col;
    }
  }

  /** The free zeros of one row: how many, and the lowest-index one. */
  method ScanRow(m: Matrix, ghost ur: seq<bool>, usedCols: array<bool>, r: nat)
    returns (count: nat, first: Option<nat>)
    requires IsGrid(m, |ur|, usedCols.Length) && r < |ur| && !ur[r]
    ensures count == RowCount(m, ur, usedCols[..], r)
    ensures first.None? <==> count == 0
    ensures first.Some? ==> FirstZeroInRow(m, ur, usedCols[..], r, first.value)
  {
    ghost var uc := usedCols[..];
    count, first := 0, None;
    var c := 0;
    while c < usedCols.Length
      invariant 0 <= c <= usedCols.Length
      invariant count == RowZeros(m, ur, uc, r, c)
      invariant first.None? <==> count == 0
      invariant first.None? ==> forall c' :: 0 <= c' < c ==> !FreeZero(m, ur, uc, r, c')
      invariant first.Some? ==> first.value < c && FirstZeroInRow(m, ur, uc, r, first.value)
    {
      if !usedCols[c] && m[r][c] == 0 {
        count := count + 1;
        if first.None? {
          first := Some(c);
        }
      }
      c := c + 1;
    }
  }

  /** The free zeros of one column: how many, and the lowest-index one. */
  method ScanColumn(m: Matrix, usedRows: array<bool>, ghost uc: seq<bool>, c: nat)
    returns (count: nat, first: Option<nat>)
    requires IsGrid(m, usedRows.Length, |uc|) && c < |uc| && !uc[c]
    ensures count == ColCount(m, usedRows[..], uc, c)
    ensures first.None? <==> count == 0
    ensures first.Some? ==> FirstZeroInCol(m, usedRows[..], uc, c, first.value)
  {
    ghost var ur := usedRows[..];
    count, first := 0, None;
    var r := 0;
    while r < usedRows.Length
      invariant 0 <= r <= usedRows.Length
      invariant count == ColZeros(m, ur, uc, c, r)
      invariant first.None? <==> count == 0
      invariant first.None? ==> forall r' :: 0 <= r' < r ==> !FreeZero(m, ur, uc, r', c)
      invariant first.Some? ==> first.value < r && FirstZeroInCol(m, ur, uc, c, first.value)
    {
      if !usedRows[r] && m[r][c] == 0 {
        count := count + 1;
        if first.None? {
          first := Some(r);
        }
      }
      r := r + 1;
    }
  }

  /** A leader with a single free zero stays the leader over all rows. */
  lemma RowLeaderWithOne(m: Matrix, ur: seq<bool>, uc: seq<bool>, r: nat, k: nat)
    requires IsGrid(m, |ur|, |uc|) && k <= |ur|
    requires RowMinUpTo(m, ur, uc, r, k) && RowCount(m, ur, uc, r) == 1
    ensures RowMinUpTo(m, ur, uc, r, |ur|)
  {
  }

  lemma ColLeaderWithOne(m: Matrix, ur: seq<bool>, uc: seq<bool>, c: nat, k: nat)
    requires IsGrid(m, |ur|, |uc|) && k <= |uc|
    requires ColMinUpTo(m, ur, uc, c, k) && ColCount(m, ur, uc, c) == 1
    ensures ColMinUpTo(m, ur, uc, c, |uc|)
  {
  }

  /**
   * The row half of a round: among the free rows, the first with the fewest free zeros and
   * its lowest free zero; the scan stops early at a row with a single free zero.
   */
  method BestRow(m: Matrix, usedRows: array<bool>, usedCols: array<bool>)
    returns (best: Option<Cell>, minZeros: Option<nat>)
    requires IsGrid(m, usedRows.Length, usedCols.Length)
    ensures best.None? <==> minZeros.None?
    ensures best.None? ==> forall r :: 0 <= r < usedRows.Length ==> RowCount(m, usedRows[..], usedCols[..], r) == 0
    ensures best.Some? ==> && RowMinUpTo(m, usedRows[..], usedCols[..], best.value.row, usedRows.Length)
                           && FirstZeroInRow(m, usedRows[..], usedCols[..], best.value.row, best.value.col)
                           && minZeros.value == RowCount(m, usedRows[..], usedCols[..], best.value.row)
  {
    ghost var ur, uc := usedRows[..], usedCols[..];
    best, minZeros := None, None;  // None plays the part of the source's infinite sentinel
    var r := 0;
    while r < usedRows.Length
      invariant 0 <= r <= usedRows.Length
      invariant best.None? <==> minZeros.None?
      invariant best.None? ==> forall r' :: 0 <= r' < r ==> RowCount(m, ur, uc, r') == 0
      invariant best.Some? ==> && RowMinUpTo(m, ur, uc, best.value.row, r)
                               && FirstZeroInRow(m, ur, uc, best.value.row, best.value.col)
                               && minZeros.value == RowCount(m, ur, uc, best.value.row)
    {
      if !usedRows[r] {
        var count, first := ScanRow(m, ur, usedCols, r);
        if 0 < count && (minZeros.None? || count < minZeros.value) {
          minZeros, best := Some(count), Some(Cell(r, first.value));
          if count == 1 {
            RowLeaderWithOne(m, ur, uc, r, r + 1);
            return;
          }
        }
      } else {
        RowZerosNone(m, ur, uc, r, usedCols.Length);
      }
      r := r + 1;
    }
  }

  /**
   * The column half of a round, starting from the row half's candidate: a free column
   * replaces it only with strictly fewer free zeros; the scan stops early at a column with
   * a single free zero. Either the row candidate stands and no column has fewer free zeros,
   * or the result is the first column with the fewest, at its lowest free zero.
   */
  method BestColumn(m: Matrix, usedRows: array<bool>, usedCols: array<bool>, rowBest: Option<Cell>, rowMin: Option<nat>)
    returns (best: Option<Cell>, minZeros: Option<nat>)
    requires IsGrid(m, usedRows.Length, usedCols.Length)
    requires rowBest.None? <==> rowMin.None?
    ensures best.None? <==> minZeros.None?
    ensures
      || (&& best == rowBest && minZeros == rowMin
          && forall c :: 0 <= c < usedCols.Length && ColCount(m, usedRows[..], usedCols[..], c) > 0 ==>
               rowMin.Some? && rowMin.value <= ColCount(m, usedRows[..], usedCols[..], c))
      || (&& best.Some? && ColMinUpTo(m, usedRows[..], usedCols[..], best.value.col, usedCols.Length)
          && FirstZeroInCol(m, usedRows[..], usedCols[..], best.value.col, best.value.row)
          && minZeros.value == ColCount(m, usedRows[..], usedCols[..], best.value.col)
          && (rowMin.None? || minZeros.value < rowMin.value))
  {
    ghost var ur, uc := usedRows[..], usedCols[..];
    best, minZeros := rowBest, rowMin;
    var c := 0;
    while c < usedCols.Length
      invariant 0 <= c <= usedCols.Length
      invariant best.None? <==> minZeros.None?
      invariant
        || (&& best == rowBest && minZeros == rowMin
            && forall c' :: 0 <= c' < c && ColCount(m, ur, uc, c') > 0 ==>
                 rowMin.Some? && rowMin.value <= ColCount(m, ur, uc, c'))
        || (&& best.Some? && ColMinUpTo(m, ur, uc, best.value.col, c)
            && FirstZeroInCol(m, ur, uc, best.value.col, best.value.row)
            && minZeros.value == ColCount(m, ur, uc, best.value.col)
            && (rowMin.None? || minZeros.value < rowMin.value))
    {
      if !usedCols[c] {
        var count, first := ScanColumn(m, usedRows, uc, c);
        if 0 < count && (minZeros.None? || count < minZeros.value) {
          minZeros, best := Some(count), Some(Cell(first.value, c));
          if count == 1 {
            ColLeaderWithOne(m, ur, uc, c, c + 1);
            return;
          }
        }
      } else {
        assert ColCount(m, ur, uc, c) == 0 by {
          ColZerosNone(m, ur, uc, c, usedRows.Length);
        }
      }
      c := c + 1;
    }
  }

  /**
   * One round of the selector: the row scan, then (unless a row had a single free zero)
   * the column scan. None exactly when no free zero is left.
   */
  method NextZero(m: Matrix, usedRows: array<bool>, usedCols: array<bool>) returns (pick: Option<Cell>)
    requires IsGrid(m, usedRows.Length, usedCols.Length)
    ensures pick.None? <==> NoFreeZero(m, usedRows[..], usedCols[..])
    ensures pick.Some? ==> GreedyChoice(m, usedRows[..], usedCols[..], pick.value)
  {
    ghost var ur, uc := usedRows[..], usedCols[..];
    var rows, cols := usedRows.Length, usedCols.Length;
    var best, minZeros := BestRow(m, usedRows, usedCols);
    ghost var rowBest, rowMin := best, minZeros;
    if !(best.Some? && minZeros == Some(1)) {
      best, minZeros := BestColumn(m, usedRows, usedCols, best, minZeros);
    }
    pick := best;
    if pick.None? {
      assert rowBest.None?;
      forall r', c' | 0 <= r' < rows && 0 <= c' < cols ensures !FreeZero(m, ur, uc, r', c') {
        assert RowCount(m, ur, uc, r') == 0;
        RowZerosNone(m, ur, uc, r', cols);
      }
    } else if pick == rowBest && minZeros == rowMin {
      assert ByRow(m, ur, uc, pick.value);
    } else {
      ColumnPickWins(m, ur, uc, pick.value, rowBest);
    }
  }

  /** A column pick with fewer free zeros than the best row beats every row. */
  lemma ColumnPickWins(m: Matrix, ur: seq<bool>, uc: seq<bool>, cell: Cell, rowBest: Option<Cell>)
    requires IsGrid(m, |ur|, |uc|)
    requires ColMinUpTo(m, ur, uc, cell.col, |uc|) && FirstZeroInCol(m, ur, uc, cell.col, cell.row)
    requires rowBest.None? ==> forall r :: 0 <= r < |ur| ==> RowCount(m, ur, uc, r) == 0
    requires rowBest.Some? ==> && RowMinUpTo(m, ur, uc, rowBest.value.row, |ur|)
                               && ColCount(m, ur, uc, cell.col) < RowCount(m, ur, uc, rowBest.value.row)
    ensures ByColumn(m, ur, uc, cell)
  {
  }

  lemma {:induction false} ColZerosNone(m: Matrix, ur: seq<bool>, uc: seq<bool>, c: nat, k: nat)
    requires IsGrid(m, |ur|, |uc|) && c < |uc| && k <= |ur|
    ensures ColZeros(m, ur, uc, c, k) == 0 <==> forall r :: 0 <= r < k ==> !FreeZero(m, ur, uc, r, c)
  {
    if k > 0 {
      ColZerosNone(m, ur, uc, c, k - 1);
    }
  }

  /** Row flags of a list of cells: row r is used when some cell stands in it. */
  function UsedRows(cells: seq<Cell>, rows: nat): (flags: seq<bool>)
    ensures |flags| == rows && forall r :: 0 <= r < rows ==> (flags[r] <==> RowTaken(cells, r))
  {
    seq(rows, r requires 0 <= r < rows => RowTaken(cells, r))
  }

  function UsedCols(cells: seq<Cell>, cols: nat): (flags: seq<bool>)
    ensures |flags| == cols && forall c :: 0 <= c < cols ==> (flags[c] <==> ColTaken(cells, c))
  {
    seq(cols, c requires 0 <= c < cols => ColTaken(cells, c))
  }

  /**
   * What the whole selection returns: zeros of `m`, no two in one row or column, each one the
   * round's GreedyChoice given the cells before it, and maximal: every zero of `m` shares a
   * row or a column with a chosen one.
   */
  ghost predicate GreedySelection(m: Matrix, rows: nat, cols: nat, zeros: seq<Cell>)
    requires IsGrid(m, rows, cols)
  {
    && WithinBounds(zeros, rows, cols) && Independent(zeros)
    && (forall k :: 0 <= k < |zeros| ==> m[zeros[k].row][zeros[k].col] == 0)
    && |zeros| <= rows && |zeros| <= cols
    && (forall k :: 0 <= k < |zeros| ==>
          GreedyChoice(m, UsedRows(zeros[..k], rows), UsedCols(zeros[..k], cols), zeros[k]))
    && forall r, c :: 0 <= r < rows && 0 <= c < cols && m[r][c] == 0 ==>
         RowTaken(zeros, r) || ColTaken(zeros, c)
  }

  /** A round's choice is a free zero. */
  lemma ChoiceIsFree(m: Matrix, ur: seq<bool>, uc: seq<bool>, cell: Cell)
    requires IsGrid(m, |ur|, |uc|) && GreedyChoice(m, ur, uc, cell)
    ensures cell.row < |ur| && cell.col < |uc| && FreeZero(m, ur, uc, cell.row, cell.col)
  {
    if ByRow(m, ur, uc, cell) {
      assert FirstZeroInRow(m, ur, uc, cell.row, cell.col);
    } else {
      assert FirstZeroInCol(m, ur, uc, cell.col, cell.row);
    }
  }

  /** Two greedy selections agree on their first k cells. */
  lemma {:induction false} SamePrefix(m: Matrix, rows: nat, cols: nat, a: seq<Cell>, b: seq<Cell>, k: nat)
    requires IsGrid(m, rows, cols)
    requires GreedySelection(m, rows, cols, a) && GreedySelection(m, rows, cols, b)
    requires k <= |a| && k <= |b|
    ensures a[..k] == b[..k]
  {
    if k > 0 {
      SamePrefix(m, rows, cols, a, b, k - 1);
      assert a[..k - 1] == b[..k - 1];
      GreedyChoiceUnique(m, UsedRows(a[..k - 1], rows), UsedCols(a[..k - 1], cols), a[k - 1], b[k - 1]);
      assert a[..k] == a[..k - 1] + [a[k - 1]];
      assert b[..k] == b[..k - 1] + [b[k - 1]];
    }
  }

  /** A greedy selection cannot be extended by another round's choice. */
  lemma NoLongerSelection(m: Matrix, rows: nat, cols: nat, a: seq<Cell>, b: seq<Cell>)
    requires IsGrid(m, rows, cols)
    requires GreedySelection(m, rows, cols, a) && GreedySelection(m, rows, cols, b)
    requires |a| <= |b| && b[..|a|] == a
    ensures |b| == |a|
  {
    if |a| < |b| {
      ChoiceIsFree(m, UsedRows(a, rows), UsedCols(a, cols), b[|a|]);
      assert false;
    }
  }

  /** The selection is determined by the matrix: two greedy selections are the same list. */
  lemma GreedySelectionUnique(m: Matrix, rows: nat, cols: nat, a: seq<Cell>, b: seq<Cell>)
    requires IsGrid(m, rows, cols)
    requires GreedySelection(m, rows, cols, a) && GreedySelection(m, rows, cols, b)
    ensures a == b
  {
    if |a| < |b| {
      SamePrefix(m, rows, cols, a, b, |a|);
      assert a[..|a|] == a;
      NoLongerSelection(m, rows, cols, a, b);
    } else if |b| < |a| {
      SamePrefix(m, rows, cols, b, a, |b|);
      assert b[..|b|] == b;
      NoLongerSelection(m, rows, cols, b, a);
    } else {
      SamePrefix(m, rows, cols, a, b, |a|);
      assert a[..|a|] == a && b[..|b|] == b;
    }
  }

  /**
   * The whole selection. The result lists zeros of `m`, no two in one row or column, in the
   * order the rounds chose them, each one the round's GreedyChoice given the cells before
   * it; and it is maximal: every zero of `m` shares a row or a column with a chosen one.
   */
  method SelectIndependentZeros(m: Matrix, rows: nat, cols: nat) returns (zeros: seq<Cell>)
    requires IsGrid(m, rows, cols)
    ensures GreedySelection(m, rows, cols, zeros)
  {
    zeros := [];
    var usedRows := new bool[rows](_ => false);
    var usedCols := new bool[cols](_ => false);
    assert usedRows[..] == UsedRows(zeros, rows);
    assert usedCols[..] == UsedCols(zeros, cols);
    while true
      invariant usedRows[..] == UsedRows(zeros, rows) && usedCols[..] == UsedCols(zeros, cols)
      invariant WithinBounds(zeros, rows, cols) && Independent(zeros)
      invariant forall k :: 0 <= k < |zeros| ==> m[zeros[k].row][zeros[k].col] == 0
      invariant |zeros| <= rows && |zeros| <= cols
      invariant forall k :: 0 <= k < |zeros| ==>
                  GreedyChoice(m, UsedRows(zeros[..k], rows), UsedCols(zeros[..k], cols), zeros[k])
      decreases rows - |zeros|
    {
      var pick := NextZero(m, usedRows, usedCols);
      if pick.None? {
        forall r, c | 0 <= r < rows && 0 <= c < cols && m[r][c] == 0
          ensures RowTaken(zeros, r) || ColTaken(zeros, c)
        {
          assert !FreeZero(m, usedRows[..], usedCols[..], r, c);
        }
        return;
      }
      var cell := pick.value;
      AppendChoice(m, zeros, cell, rows, cols);
      ghost var rowFlags, colFlags := usedRows[..], usedCols[..];
      UsedAfterAppend(zeros, cell, rows, cols);
      zeros := zeros + [cell];
      usedRows[cell.row] := true;
      usedCols[cell.col] := true;
      assert usedRows[..] == rowFlags[cell.row := true];
      assert usedCols[..] == colFlags[cell.col := true];
    }
  }

  /** Appending a round's choice keeps the selection's invariants. */
  lemma AppendChoice(m: Matrix, zeros: seq<Cell>, cell: Cell, rows: nat, cols: nat)
    requires IsGrid(m, rows, cols)
    requires WithinBounds(zeros, rows, cols) && Independent(zeros)
    requires forall k :: 0 <= k < |zeros| ==> m[zeros[k].row][zeros[k].col] == 0
    requires forall k :: 0 <= k < |zeros| ==>
               GreedyChoice(m, UsedRows(zeros[..k], rows), UsedCols(zeros[..k], cols), zeros[k])
    requires GreedyChoice(m, UsedRows(zeros, rows), UsedCols(zeros, cols), cell)
    ensures var after := zeros + [cell];
      && WithinBounds(after, rows, cols) && Independent(after)
      && (forall k :: 0 <= k < |after| ==> m[after[k].row][after[k].col] == 0)
      && |after| <= rows && |after| <= cols
      && forall k :: 0 <= k < |after| ==>
           GreedyChoice(m, UsedRows(after[..k], rows), UsedCols(after[..k], cols), after[k])
  {
    ChoiceIsFree(m, UsedRows(zeros, rows), UsedCols(zeros, cols), cell);
    assert !RowTaken(zeros, cell.row) && !ColTaken(zeros, cell.col);
    var after := zeros + [cell];
    assert forall k :: 0 <= k < |zeros| ==> after[..k] == zeros[..k];
    assert after[..|zeros|] == zeros;
    assert Independent(after);
    IndependentBound(after, rows, cols);
  }

  /** Appending a cell marks exactly its row and its column. */
  lemma UsedAfterAppend(cells: seq<Cell>, cell: Cell, rows: nat, cols: nat)
    requires cell.row < rows && cell.col < cols
    ensures UsedRows(cells + [cell], rows) == UsedRows(cells, rows)[cell.row := true]
    ensures UsedCols(cells + [cell], cols) == UsedCols(cells, cols)[cell.col := true]
  {
    var after := cells + [cell];
    forall r | 0 <= r < rows ensures RowTaken(after, r) <==> RowTaken(cells, r) || r == cell.row {
      if RowTaken(after, r) {
        var k :| 0 <= k < |after| && after[k].row == r;
        if k < |cells| { assert cells[k].row == r; }
      }
      if RowTaken(cells, r) {
        var k :| 0 <= k < |cells| && cells[k].row == r;
        assert after[k].row == r;
      }
      assert after[|cells|].row == cell.row;
    }
    forall c | 0 <= c < cols ensures ColTaken(after, c) <==> ColTaken(cells, c) || c == cell.col {
      if ColTaken(after, c) {
        var k :| 0 <= k < |after| && after[k].col == c;
        if k < |cells| { assert cells[k].col == c; }
      }
      if ColTaken(cells, c) {
        var k :| 0 <= k < |cells| && cells[k].col == c;
        assert after[k].col == c;
      }
      assert after[|cells|].col == cell.col;
    }
  }
}
