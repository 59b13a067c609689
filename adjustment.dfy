/**
 * The matrix adjustment between rounds (`zwieksz_liczbe_zer`): the smallest entry not
 * covered by any line is subtracted from every uncovered entry and added to every entry
 * covered by two lines; entries on exactly one line keep their value.
 */
module Adjustment {
  import opened Grid
  import opened Assignment

  /** Cell (i, j) lies on no line. */
  predicate IsUncovered(lineRows: seq<bool>, lineCols: seq<bool>, i: nat, j: nat)
    requires i < |lineRows| && j < |lineCols|
  {
    !lineRows[i] && !lineCols[j]
  }

  /** Some cell lies on no line (numpy's `np.any(nieprzykryte)`). */
  predicate HasUncovered(lineRows: seq<bool>, lineCols: seq<bool>) {
    (exists i :: 0 <= i < |lineRows| && !lineRows[i]) && (exists j :: 0 <= j < |lineCols| && !lineCols[j])
  }

  /** The entries of one row that lie in columns without a line, left to right. */
  function RowUncovered(row: seq<int>, lineCols: seq<bool>): (u: seq<int>)
    requires |row| == |lineCols|
    ensures forall j :: 0 <= j < |row| && !lineCols[j] ==> row[j] in u
  {
    if row == [] then []
    else
      var k := |row| - 1;
      var u := RowUncovered(row[..k], lineCols[..k]);
      assert forall j :: 0 <= j < k ==> row[..k][j] == row[j] && lineCols[..k][j] == lineCols[j];
      if lineCols[k] then u else u + [row[k]]
  }

  /** The uncovered entries of the first `k` rows, row by row (numpy's boolean indexing). */
  function Uncovered(m: Matrix, lineRows: seq<bool>, lineCols: seq<bool>, k: nat): (u: seq<int>)
    requires IsGrid(m, |lineRows|, |lineCols|) && k <= |lineRows|
    ensures forall i, j :: 0 <= i < k && 0 <= j < |lineCols| && IsUncovered(lineRows, lineCols, i, j) ==> m[i][j] in u
  {
    if k == 0 then []
    else
      var u := Uncovered(m, lineRows, lineCols, k - 1);
      if lineRows[k - 1] then u else u + RowUncovered(m[k - 1], lineCols)
  }

  /** RowUncovered lists nothing but entries in columns without a line. */
  lemma {:induction false} RowUncoveredOnly(row: seq<int>, lineCols: seq<bool>, v: int)
    requires |row| == |lineCols| && v in RowUncovered(row, lineCols)
    ensures exists j :: 0 <= j < |row| && !lineCols[j] && row[j] == v
  {
    var k := |row| - 1;
    if v !in RowUncovered(row[..k], lineCols[..k]) {
      assert row[k] == v && !lineCols[k];
    } else {
      RowUncoveredOnly(row[..k], lineCols[..k], v);
      var j :| 0 <= j < k && !lineCols[..k][j] && row[..k][j] == v;
      assert !lineCols[j] && row[j] == v;
    }
  }

  /** Uncovered lists nothing but uncovered entries. */
  lemma {:induction false} UncoveredOnly(m: Matrix, lineRows: seq<bool>, lineCols: seq<bool>, k: nat, v: int)
    requires IsGrid(m, |lineRows|, |lineCols|) && k <= |lineRows| && v in Uncovered(m, lineRows, lineCols, k)
    ensures exists i, j :: 0 <= i < k && 0 <= j < |lineCols| && IsUncovered(lineRows, lineCols, i, j) && m[i][j] == v
  {
    if v in Uncovered(m, lineRows, lineCols, k - 1) {
      UncoveredOnly(m, lineRows, lineCols, k - 1, v);
    } else {
      RowUncoveredOnly(m[k - 1], lineCols, v);
      var j :| 0 <= j < |lineCols| && !lineCols[j] && m[k - 1][j] == v;
      assert IsUncovered(lineRows, lineCols, k - 1, j);
    }
  }

  /**
   * The amount of the adjustment: the smallest uncovered entry, or 0 when every cell is
   * covered.
   */
  function Delta(m: Matrix, lineRows: seq<bool>, lineCols: seq<bool>): (d: int)
    requires IsGrid(m, |lineRows|, |lineCols|)
    ensures HasUncovered(lineRows, lineCols) ==>
              exists i, j :: 0 <= i < |lineRows| && 0 <= j < |lineCols| && IsUncovered(lineRows, lineCols, i, j) && m[i][j] == d
    ensures forall i, j :: 0 <= i < |lineRows| && 0 <= j < |lineCols| && IsUncovered(lineRows, lineCols, i, j) ==> d <= m[i][j]
    ensures !HasUncovered(lineRows, lineCols) ==> d == 0
  {
    var u := Uncovered(m, lineRows, lineCols, |lineRows|);
    if HasUncovered(lineRows, lineCols) then
      var i :| 0 <= i < |lineRows| && !lineRows[i];
      var j :| 0 <= j < |lineCols| && !lineCols[j];
      assert m[i][j] in u;
      var d := MinOf(u);
      assert forall v :: v in u ==> d <= v;
      UncoveredOnly(m, lineRows, lineCols, |lineRows|, d);
      d
    else
      0
  }

  /**
   * The adjusted matrix, entry by entry: uncovered entries lose Delta, entries on two lines
   * gain it, and entries on one line are unchanged.
   */
  function Adjust(m: Matrix, lineRows: seq<bool>, lineCols: seq<bool>): (r: Matrix)
    requires IsGrid(m, |lineRows|, |lineCols|)
    ensures IsGrid(r, |lineRows|, |lineCols|)
    ensures forall i, j :: 0 <= i < |lineRows| && 0 <= j < |lineCols| ==>
              r[i][j] == if !lineRows[i] && !lineCols[j] then m[i][j] - Delta(m, lineRows, lineCols)
                         else if lineRows[i] && lineCols[j] then m[i][j] + Delta(m, lineRows, lineCols)
                         else m[i][j]
  {
    var d := Delta(m, lineRows, lineCols);
    seq(|lineRows|, i requires 0 <= i < |lineRows| =>
      seq(|lineCols|, j requires 0 <= j < |lineCols| =>
        if !lineRows[i] && !lineCols[j] then m[i][j] - d
        else if lineRows[i] && lineCols[j] then m[i][j] + d
        else m[i][j]))
  }

  /**
   * Every assignment's cost drops by Delta times the number of rows minus the number of
   * lines: the adjustment subtracts Delta from each row without a line and adds it back to
   * each column with one.
   */
  lemma AdjustShiftsCost(m: Matrix, n: nat, lineRows: seq<bool>, lineCols: seq<bool>, p: seq<nat>)
    requires IsGrid(m, n, n) && |lineRows| == n && |lineCols| == n && IsPermutation(p, n)
    ensures Cost(m, p) == Cost(Adjust(m, lineRows, lineCols), p)
                          + Delta(m, lineRows, lineCols) * (n - (Count(lineRows, true) + Count(lineCols, true)))
  {
    AdjustAsShift(m, n, lineRows, lineCols);
    ShiftByLines(m, Adjust(m, lineRows, lineCols), n, lineRows, lineCols, Delta(m, lineRows, lineCols), p);
  }

  /** AdjustShiftsCost for all assignments at once. */
  lemma AdjustDiffers(m: Matrix, n: nat, lineRows: seq<bool>, lineCols: seq<bool>)
    requires IsGrid(m, n, n) && |lineRows| == n && |lineCols| == n
    ensures CostsDifferBy(m, Adjust(m, lineRows, lineCols), n,
              Delta(m, lineRows, lineCols) * (n - (Count(lineRows, true) + Count(lineCols, true))))
  {
    forall p | IsPermutation(p, n)
      ensures Cost(m, p) == Cost(Adjust(m, lineRows, lineCols), p)
                            + Delta(m, lineRows, lineCols) * (n - (Count(lineRows, true) + Count(lineCols, true)))
    {
      AdjustShiftsCost(m, n, lineRows, lineCols, p);
    }
  }

  /** Any shift by `d` per row without a line and `-d` per column with one. */
  lemma ShiftByLines(m: Matrix, m': Matrix, n: nat, lineRows: seq<bool>, lineCols: seq<bool>, d: int, p: seq<nat>)
    requires IsGrid(m, n, n) && IsGrid(m', n, n) && |lineRows| == n && |lineCols| == n && IsPermutation(p, n)
    requires forall i, j :: 0 <= i < n && 0 <= j < n ==>
               m'[i][j] == m[i][j] - Select(lineRows, 0, d)[i] - Select(lineCols, -d, 0)[j]
    ensures Cost(m, p) == Cost(m', p) + d * (n - (Count(lineRows, true) + Count(lineCols, true)))
  {
    var a, b := Select(lineRows, 0, d), Select(lineCols, -d, 0);
    CostShift(m, m', n, a, b, p);
    LineShiftTotal(lineRows, lineCols, n, d);
  }

  /** The per-row and per-column amounts add up to d times the number of lines missing from n. */
  lemma LineShiftTotal(lineRows: seq<bool>, lineCols: seq<bool>, n: nat, d: int)
    requires |lineRows| == n && |lineCols| == n
    ensures Sum(Select(lineRows, 0, d)) + Sum(Select(lineCols, -d, 0))
         == d * (n - (Count(lineRows, true) + Count(lineCols, true)))
  {
    var rt, rf, ct, cf := Count(lineRows, true), Count(lineRows, false), Count(lineCols, true), Count(lineCols, false);
    var sa, sb := Sum(Select(lineRows, 0, d)), Sum(Select(lineCols, -d, 0));
    assert sa == 0 * rt + d * rf by {
      SumSelect(lineRows, 0, d);
    }
    assert sb == -d * ct + 0 * cf by {
      SumSelect(lineCols, -d, 0);
    }
    assert rt + rf == n by {
      CountBoth(lineRows);
    }
    CombineShift(sa, sb, d, rt, rf, ct, cf, n);
  }

  /** The arithmetic step of LineShiftTotal, kept apart from the sequence facts. */
  lemma CombineShift(sa: int, sb: int, d: int, rt: int, rf: int, ct: int, cf: int, n: int)
    requires sa == 0 * rt + d * rf && sb == -d * ct + 0 * cf && rt + rf == n
    ensures sa + sb == d * (n - (rt + ct))
  {
    assert n - (rt + ct) == rf - ct;
  }

  /** The adjustment subtracts Delta per row without a line and adds it per column with one. */
  lemma AdjustAsShift(m: Matrix, n: nat, lineRows: seq<bool>, lineCols: seq<bool>)
    requires IsGrid(m, n, n) && |lineRows| == n && |lineCols| == n
    ensures var d := Delta(m, lineRows, lineCols);
      forall i, j :: 0 <= i < n && 0 <= j < n ==>
        Adjust(m, lineRows, lineCols)[i][j] == m[i][j] - Select(lineRows, 0, d)[i] - Select(lineCols, -d, 0)[j]
  {
  }

  /** A non-negative matrix stays non-negative: Delta is at most every uncovered entry. */
  lemma AdjustKeepsNonNegative(m: Matrix, lineRows: seq<bool>, lineCols: seq<bool>)
    requires IsGrid(m, |lineRows|, |lineCols|) && NonNegative(m)
    ensures Delta(m, lineRows, lineCols) >= 0
    ensures NonNegative(Adjust(m, lineRows, lineCols))
  {
    var d := Delta(m, lineRows, lineCols);
    assert d >= 0 by {
      if HasUncovered(lineRows, lineCols) {
        var i, j :| 0 <= i < |lineRows| && 0 <= j < |lineCols| && IsUncovered(lineRows, lineCols, i, j) && m[i][j] == d;
        assert m[i][j] >= 0;
      }
    }
    var r := Adjust(m, lineRows, lineCols);
    forall i, j | 0 <= i < |r| && 0 <= j < |r[i]| ensures r[i][j] >= 0 {
      assert m[i][j] >= 0;
      if IsUncovered(lineRows, lineCols, i, j) {
        assert d <= m[i][j];
      }
    }
  }

  /**
   * When some cell is uncovered, the adjustment creates a zero among the uncovered cells.
   * (Entries on exactly one line keep their value, by Adjust's contract, so the zeros a
   * cover puts on a single line survive too.)
   */
  lemma AdjustExposesZero(m: Matrix, lineRows: seq<bool>, lineCols: seq<bool>)
    requires IsGrid(m, |lineRows|, |lineCols|) && HasUncovered(lineRows, lineCols)
    ensures exists i, j :: 0 <= i < |lineRows| && 0 <= j < |lineCols| && IsUncovered(lineRows, lineCols, i, j)
                           && Adjust(m, lineRows, lineCols)[i][j] == 0
  {
    var d := Delta(m, lineRows, lineCols);
    var r := Adjust(m, lineRows, lineCols);
    var i, j :| 0 <= i < |lineRows| && 0 <= j < |lineCols| && IsUncovered(lineRows, lineCols, i, j) && m[i][j] == d;
    assert r[i][j] == 0;
  }

  /**
   * When the cover leaves no zero uncovered, Delta is positive as soon as some cell is
   * uncovered, so the adjustment changes the matrix.
   */
  lemma DeltaPositive(m: Matrix, lineRows: seq<bool>, lineCols: seq<bool>)
    requires IsGrid(m, |lineRows|, |lineCols|) && NonNegative(m) && HasUncovered(lineRows, lineCols)
    requires forall i, j :: 0 <= i < |lineRows| && 0 <= j < |lineCols| && m[i][j] == 0 ==> lineRows[i] || lineCols[j]
    ensures Delta(m, lineRows, lineCols) > 0
  {
    var i, j :| 0 <= i < |lineRows| && 0 <= j < |lineCols| && IsUncovered(lineRows, lineCols, i, j)
                && m[i][j] == Delta(m, lineRows, lineCols);
  }
}
