/**
 * Assignments of rows to columns: permutations, their cost on a matrix, and lists of
 * independent cells (no two in one row or one column), as the solver's stages exchange them.
 */
module Assignment {
  import opened Grid

  ghost predicate Distinct(s: seq<nat>) {
    forall i, j :: 0 <= i < j < |s| ==> s[i] != s[j]
  }

  /** `p` maps each of the rows 0..n-1 to its own column in 0..n-1. */
  ghost predicate IsPermutation(p: seq<nat>, n: nat) {
    |p| == n && (forall i :: 0 <= i < n ==> p[i] < n) && Distinct(p)
  }

  /** The entry each row picks under `p`. */
  function Picked(m: Matrix, p: seq<nat>): (entries: seq<int>)
    requires |p| == |m| && forall i :: 0 <= i < |p| ==> p[i] < |m[i]|
  {
    seq(|p|, i requires 0 <= i < |p| => m[i][p[i]])
  }

  /** Total cost of the assignment `p` on `m`. */
  function Cost(m: Matrix, p: seq<nat>): (cost: int)
    requires |p| == |m| && forall i :: 0 <= i < |p| ==> p[i] < |m[i]|
  {
    Sum(Picked(m, p))
  }

  /** `b` read through the index sequence `p`. */
  function Permuted(b: seq<int>, p: seq<nat>): (permuted: seq<int>)
    requires forall i :: 0 <= i < |p| ==> p[i] < |b|
  {
    seq(|p|, i requires 0 <= i < |p| => b[p[i]])
  }

  /** Distinct values below `n` number at most `n`. */
  lemma {:induction false} Pigeonhole(s: seq<nat>, n: nat)
    requires Distinct(s)
    requires forall i :: 0 <= i < |s| ==> s[i] < n
    ensures |s| <= n
    decreases n
  {
    if |s| > 0 {
      assert s[0] < n;
      if k :| 0 <= k < |s| && s[k] == n - 1 {
        var t := s[..k] + s[k + 1..];
        forall i | 0 <= i < |t| ensures t[i] < n - 1 {
          if i < k { assert t[i] == s[i]; } else { assert t[i] == s[i + 1]; }
        }
        Pigeonhole(t, n - 1);
      } else {
        Pigeonhole(s, n - 1);
      }
    }
  }

  /** `n` distinct values below `n` take every value below `n`. */
  lemma Onto(s: seq<nat>, n: nat, v: nat)
    requires |s| == n && Distinct(s)
    requires forall i :: 0 <= i < n ==> s[i] < n
    requires v < n
    ensures exists k :: 0 <= k < n && s[k] == v
  {
    if forall k :: 0 <= k < n ==> s[k] != v {
      var t := seq(n, i requires 0 <= i < n => if s[i] > v then s[i] - 1 else s[i]);
      Pigeonhole(t, n - 1);
      assert false;
    }
  }

  /** Dropping the position that holds n - 1 leaves a permutation of n - 1. */
  lemma RemoveLargest(p: seq<nat>, n: nat, k: nat)
    requires IsPermutation(p, n) && k < n && p[k] == n - 1
    ensures IsPermutation(p[..k] + p[k + 1..], n - 1)
  {
    var q := p[..k] + p[k + 1..];
    assert forall i :: 0 <= i < k ==> q[i] == p[i];
    assert forall i :: k <= i < n - 1 ==> q[i] == p[i + 1];
  }

  /** Taking one entry out of a sum. */
  lemma {:induction false} SumRemove(s: seq<int>, k: nat)
    requires k < |s|
    ensures Sum(s) == Sum(s[..k] + s[k + 1..]) + s[k]
  {
    var last := |s| - 1;
    var r := s[..k] + s[k + 1..];
    if k == last {
      assert r == s[..last];
    } else {
      var t := s[..last];
      SumRemove(t, k);
      assert r[..|r| - 1] == t[..k] + t[k + 1..];
      assert r[|r| - 1] == s[last];
    }
  }

  /**
   * Reading `b` through `p` sums to reading `b` without its last entry through `p` without
   * the position that picked it, plus that last entry.
   */
  lemma PermutedRemove(b: seq<int>, p: seq<nat>, k: nat)
    requires IsPermutation(p, |b|) && k < |b| && p[k] == |b| - 1
    ensures IsPermutation(p[..k] + p[k + 1..], |b| - 1)
    ensures Sum(Permuted(b, p)) == Sum(Permuted(b[..|b| - 1], p[..k] + p[k + 1..])) + b[|b| - 1]
  {
    var n := |b|;
    var q := p[..k] + p[k + 1..];
    RemoveLargest(p, n, k);
    var full := Permuted(b, p);
    var rest := full[..k] + full[k + 1..];
    forall i | 0 <= i < n - 1 ensures Permuted(b[..n - 1], q)[i] == rest[i] {
      if i < k {
        assert q[i] == p[i] && rest[i] == full[i];
      } else {
        assert q[i] == p[i + 1] && rest[i] == full[i + 1];
      }
    }
    assert Permuted(b[..n - 1], q) == rest;
    SumRemove(full, k);
  }

  /** Summing along a permutation gives the plain sum. */
  lemma {:induction false} SumPermuted(b: seq<int>, p: seq<nat>)
    requires IsPermutation(p, |b|)
    ensures Sum(Permuted(b, p)) == Sum(b)
    decreases |b|
  {
    var n := |b|;
    if n > 0 {
      Onto(p, n, n - 1);
      var k :| 0 <= k < n && p[k] == n - 1;
      PermutedRemove(b, p, k);
      SumPermuted(b[..n - 1], p[..k] + p[k + 1..]);
    }
  }

  /**
   * Subtracting a per-row amount `a[i]` and a per-column amount `b[j]` from every cell
   * lowers the cost of every assignment by the same total, Sum(a) + Sum(b).
   */
  lemma CostShift(m: Matrix, m': Matrix, n: nat, a: seq<int>, b: seq<int>, p: seq<nat>)
    requires IsGrid(m, n, n) && IsGrid(m', n, n) && |a| == n && |b| == n
    requires IsPermutation(p, n)
    requires forall i, j :: 0 <= i < n && 0 <= j < n ==> m'[i][j] == m[i][j] - a[i] - b[j]
    ensures Cost(m, p) == Cost(m', p) + Sum(a) + Sum(b)
  {
    SumPermuted(b, p);
    SumPointwise(Picked(m, p), Picked(m', p), a, Permuted(b, p));
  }

  /** Every assignment costs exactly `shift` more on `m` than on `m'`. */
  ghost predicate CostsDifferBy(m: Matrix, m': Matrix, n: nat, shift: int)
    requires IsGrid(m, n, n) && IsGrid(m', n, n)
  {
    forall p :: IsPermutation(p, n) ==> Cost(m, p) == Cost(m', p) + shift
  }

  lemma CostNonNegative(m: Matrix, n: nat, p: seq<nat>)
    requires IsGrid(m, n, n) && NonNegative(m) && IsPermutation(p, n)
    ensures Cost(m, p) >= 0
  {
    SumNonNegative(Picked(m, p));
  }

  /** Rows and columns of a list of cells. */
  predicate RowTaken(cells: seq<Cell>, r: nat) {
    exists k :: 0 <= k < |cells| && cells[k].row == r
  }

  predicate ColTaken(cells: seq<Cell>, c: nat) {
    exists k :: 0 <= k < |cells| && cells[k].col == c
  }

  ghost predicate WithinBounds(cells: seq<Cell>, rows: nat, cols: nat) {
    forall k :: 0 <= k < |cells| ==> cells[k].row < rows && cells[k].col < cols
  }

  /** No two cells share a row or a column. */
  ghost predicate Independent(cells: seq<Cell>) {
    forall i, j :: 0 <= i < j < |cells| ==> cells[i].row != cells[j].row && cells[i].col != cells[j].col
  }

  /** `n` independent cells of an n-by-n grid: one per row and one per column. */
  ghost predicate FullAssignment(cells: seq<Cell>, n: nat) {
    |cells| == n && WithinBounds(cells, n, n) && Independent(cells)
  }

  function RowsOf(cells: seq<Cell>): (rs: seq<nat>)
    ensures |rs| == |cells| && forall k :: 0 <= k < |cells| ==> rs[k] == cells[k].row
  {
    seq(|cells|, k requires 0 <= k < |cells| => cells[k].row)
  }

  function ColsOf(cells: seq<Cell>): (cs: seq<nat>)
    ensures |cs| == |cells| && forall k :: 0 <= k < |cells| ==> cs[k] == cells[k].col
  {
    seq(|cells|, k requires 0 <= k < |cells| => cells[k].col)
  }

  /** Independent cells within bounds are no more than the rows, nor than the columns. */
  lemma IndependentBound(cells: seq<Cell>, rows: nat, cols: nat)
    requires WithinBounds(cells, rows, cols) && Independent(cells)
    ensures |cells| <= rows && |cells| <= cols
  {
    Pigeonhole(RowsOf(cells), rows);
    Pigeonhole(ColsOf(cells), cols);
  }

  /** The column of the cell standing in row `r`. */
  function ColumnOf(cells: seq<Cell>, r: nat): (c: nat)
    requires RowTaken(cells, r)
    ensures Cell(r, c) in cells
  {
    var last := cells[|cells| - 1];
    if last.row == r then last.col
    else
      assert RowTaken(cells[..|cells| - 1], r) by {
        var k :| 0 <= k < |cells| && cells[k].row == r;
        assert cells[..|cells| - 1][k] == cells[k];
      }
      ColumnOf(cells[..|cells| - 1], r)
  }

  /** A full assignment read as a permutation: row r goes to the column of its cell. */
  ghost function AsPermutation(cells: seq<Cell>, n: nat): (p: seq<nat>)
    requires FullAssignment(cells, n)
    ensures IsPermutation(p, n)
    ensures forall r :: 0 <= r < n ==> Cell(r, p[r]) in cells
  {
    assert forall r :: 0 <= r < n ==> RowTaken(cells, r) by {
      forall r | 0 <= r < n ensures RowTaken(cells, r) {
        Onto(RowsOf(cells), n, r);
      }
    }
    var p := seq(n, r requires 0 <= r < n => ColumnOf(cells, r));
    assert Distinct(p) by {
      forall i, j | 0 <= i < j < n ensures p[i] != p[j] {
        var ki :| 0 <= ki < n && cells[ki] == Cell(i, p[i]);
        var kj :| 0 <= kj < n && cells[kj] == Cell(j, p[j]);
        assert ki != kj;
      }
    }
    p
  }

  /** Sum of the cells' entries in list order (the solver's reported cost). */
  function AssignedCost(m: Matrix, cells: seq<Cell>): (cost: int)
    requires forall k :: 0 <= k < |cells| ==> cells[k].row < |m| && cells[k].col < |m[cells[k].row]|
  {
    Sum(seq(|cells|, k requires 0 <= k < |cells| => m[cells[k].row][cells[k].col]))
  }

  /** Listing a full assignment in any order gives the cost of its permutation. */
  lemma AssignedCostIsCost(m: Matrix, n: nat, cells: seq<Cell>)
    requires IsGrid(m, n, n) && FullAssignment(cells, n)
    ensures AssignedCost(m, cells) == Cost(m, AsPermutation(cells, n))
  {
    var p := AsPermutation(cells, n);
    var rs := RowsOf(cells);
    forall k | 0 <= k < n ensures p[cells[k].row] == cells[k].col {
      var r := cells[k].row;
      var k' :| 0 <= k' < n && cells[k'] == Cell(r, p[r]);
      assert k' == k;
    }
    assert IsPermutation(rs, n);
    SumPermuted(Picked(m, p), rs);
    assert Permuted(Picked(m, p), rs) == seq(|cells|, k requires 0 <= k < |cells| => m[cells[k].row][cells[k].col]);
  }
}
