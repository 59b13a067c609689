/** Shared vocabulary of the solver: integer cost grids, cells, sums, counts and minima. */
module Grid {

  datatype Option<T> = None | Some(value: T)

  /** A cost matrix, stored row by row. */
  type Matrix = seq<seq<int>>

  /** A (row, column) position, as the pairs the solver passes between its stages. */
  datatype Cell = Cell(row: nat, col: nat)

  /** `m` has `rows` rows of `cols` entries each. */
  predicate IsGrid(m: Matrix, rows: nat, cols: nat) {
    |m| == rows && forall i :: 0 <= i < rows ==> |m[i]| == cols
  }

  ghost predicate NonNegative(m: Matrix) {
    forall i, j :: 0 <= i < |m| && 0 <= j < |m[i]| ==> m[i][j] >= 0
  }

  /** Sum of a sequence, peeled from the back. */
  function Sum(s: seq<int>): (total: int) {
    if s == [] then 0 else Sum(s[..|s| - 1]) + s[|s| - 1]
  }

  /** Sums add up position by position. */
  lemma {:induction false} SumPointwise(x: seq<int>, y: seq<int>, z: seq<int>, w: seq<int>)
    requires |x| == |y| == |z| == |w|
    requires forall i :: 0 <= i < |x| ==> x[i] == y[i] + z[i] + w[i]
    ensures Sum(x) == Sum(y) + Sum(z) + Sum(w)
  {
    if x != [] {
      var k := |x| - 1;
      SumPointwise(x[..k], y[..k], z[..k], w[..k]);
    }
  }

  lemma {:induction false} SumNonNegative(s: seq<int>)
    requires forall i :: 0 <= i < |s| ==> s[i] >= 0
    ensures Sum(s) >= 0
  {
    if s != [] {
      SumNonNegative(s[..|s| - 1]);
    }
  }

  lemma {:induction false} SumOfZeros(s: seq<int>)
    requires forall i :: 0 <= i < |s| ==> s[i] == 0
    ensures Sum(s) == 0
  {
    if s != [] {
      SumOfZeros(s[..|s| - 1]);
    }
  }

  /** Number of entries of `s` equal to `b`. */
  function Count(s: seq<bool>, b: bool): (k: nat)
    ensures k <= |s|
  {
    if s == [] then 0 else Count(s[..|s| - 1], b) + (if s[|s| - 1] == b then 1 else 0)
  }

  lemma {:induction false} CountBoth(s: seq<bool>)
    ensures Count(s, true) + Count(s, false) == |s|
  {
    if s != [] {
      CountBoth(s[..|s| - 1]);
    }
  }

  /** Overwriting one entry changes each count by at most one, as expected. */
  lemma {:induction false} CountUpdate(s: seq<bool>, i: nat, x: bool, b: bool)
    requires i < |s|
    ensures Count(s[i := x], b) == Count(s, b) - (if s[i] == b then 1 else 0) + (if x == b then 1 else 0)
  {
    var t := s[i := x];
    if i < |s| - 1 {
      assert t[..|t| - 1] == s[..|s| - 1][i := x];
      CountUpdate(s[..|s| - 1], i, x, b);
    } else {
      assert t[..|t| - 1] == s[..|s| - 1];
    }
  }

  /** `x` where the mask is set and `y` elsewhere. */
  function Select(s: seq<bool>, x: int, y: int): (v: seq<int>)
    ensures |v| == |s| && forall i :: 0 <= i < |s| ==> v[i] == if s[i] then x else y
  {
    seq(|s|, i requires 0 <= i < |s| => if s[i] then x else y)
  }

  lemma SumOfThree(s: seq<int>)
    requires |s| == 3
    ensures Sum(s) == s[0] + s[1] + s[2]
  {
    var two := s[..2];
    var one := two[..1];
    assert one[..0] == [];
    assert Sum(one) == s[0];
    assert Sum(two) == Sum(one) + s[1];
  }

  /** Summing a two-valued selection over a mask. */
  lemma {:induction false} SumSelect(s: seq<bool>, x: int, y: int)
    ensures Sum(Select(s, x, y)) == x * Count(s, true) + y * Count(s, false)
  {
    var v := Select(s, x, y);
    if s != [] {
      var k := |s| - 1;
      var s' := s[..k];
      assert v[..k] == Select(s', x, y);
      SumSelect(s', x, y);
      var ct, cf := Count(s', true), Count(s', false);
      assert Sum(v) == x * ct + y * cf + (if s[k] then x else y);
      assert Count(s, true) == ct + (if s[k] then 1 else 0);
      assert Count(s, false) == cf + (if s[k] then 0 else 1);
      Distribute(x, y, ct, cf, s[k]);
    }
  }

  /** One more entry of value x or y adds one to the matching count. */
  lemma Distribute(x: int, y: int, ct: int, cf: int, t: bool)
    ensures x * ct + y * cf + (if t then x else y)
         == x * (ct + (if t then 1 else 0)) + y * (cf + (if t then 0 else 1))
  {
  }

  /** The smallest entry of a non-empty sequence (numpy's `min`). */
  function MinOf(s: seq<int>): (v: int)
    requires |s| > 0
    ensures v in s
    ensures forall k :: 0 <= k < |s| ==> v <= s[k]
  {
    if |s| == 1 then s[0]
    else
      var w := MinOf(s[..|s| - 1]);
      assert forall k :: 0 <= k < |s| - 1 ==> s[..|s| - 1][k] == s[k];
      if s[|s| - 1] < w then s[|s| - 1] else w
  }

  lemma {:induction false} CountNone(s: seq<bool>)
    requires forall i :: 0 <= i < |s| ==> !s[i]
    ensures Count(s, true) == 0
  {
    if s != [] {
      CountNone(s[..|s| - 1]);
    }
  }

  /** Counting the false entries is counting the true entries of the negation `t`. */
  lemma {:induction false} CountNegate(s: seq<bool>, t: seq<bool>)
    requires |t| == |s| && forall i :: 0 <= i < |s| ==> t[i] == !s[i]
    ensures Count(t, true) == Count(s, false)
  {
    if s != [] {
      var k := |s| - 1;
      CountNegate(s[..k], t[..k]);
    }
  }

  /** The true entries of `s` split by a second mask: `both` keeps those where it is set, `only` the rest. */
  lemma {:induction false} SplitCount(s: seq<bool>, q: seq<bool>, both: seq<bool>, only: seq<bool>)
    requires |q| == |s| && |both| == |s| && |only| == |s|
    requires forall i :: 0 <= i < |s| ==> both[i] == (s[i] && q[i]) && only[i] == (s[i] && !q[i])
    ensures Count(s, true) == Count(both, true) + Count(only, true)
  {
    if s != [] {
      var k := |s| - 1;
      SplitCount(s[..k], q[..k], both[..k], only[..k]);
    }
  }
}
