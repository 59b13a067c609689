/**
 * The driver (`algorytm_wegierski`): reduce the matrix once, then repeat rounds of selecting
 * independent zeros; when they fill every row the assignment is returned, otherwise the
 * zeros are covered with lines and the matrix is adjusted. The source repeats forever; here
 * the number of rounds is bounded by a parameter.
 */
module Hungarian {
  import opened Grid
  import opened Assignment
  import opened Reduction
  import opened Selection
  import opened Cover
  import opened Adjustment

  /**
   * The result of a run: the assignment with an amount reported beside it, or no result
   * within the bound. Solve reports the first reduction's total, as the source does;
   * SolveWithCost reports the assignment's original cost.
   */
  datatype Outcome = Assigned(zeros: seq<Cell>, total: int) | NoConvergence

  /** All entries a full assignment picks are zeros, so its cost is zero. */
  lemma ZeroAssignmentCost(m: Matrix, n: nat, zeros: seq<Cell>)
    requires IsGrid(m, n, n) && FullAssignment(zeros, n)
    requires forall k :: 0 <= k < |zeros| ==> m[zeros[k].row][zeros[k].col] == 0
    ensures Cost(m, AsPermutation(zeros, n)) == 0
  {
    var q := AsPermutation(zeros, n);
    forall r | 0 <= r < n ensures Picked(m, q)[r] == 0 {
      var k :| 0 <= k < n && zeros[k] == Cell(r, q[r]);
    }
    SumOfZeros(Picked(m, q));
  }

  /** Shifts compose: costs on `m` exceed those on `mid` by s, and those on `mid` exceed those on `next` by t. */
  lemma ComposeShifts(m: Matrix, mid: Matrix, next: Matrix, n: nat, s: int, t: int)
    requires IsGrid(m, n, n) && IsGrid(mid, n, n) && IsGrid(next, n, n)
    requires CostsDifferBy(m, mid, n, s) && CostsDifferBy(mid, next, n, t)
    ensures CostsDifferBy(m, next, n, s + t)
  {
    forall p | IsPermutation(p, n) ensures Cost(m, p) == Cost(next, p) + (s + t) {
      assert Cost(m, p) == Cost(mid, p) + s;
      assert Cost(mid, p) == Cost(next, p) + t;
    }
  }

  /**
   * A full assignment of zeros in a non-negative working matrix whose costs differ from the
   * original ones by a constant is an assignment of minimum original cost.
   */
  lemma ZeroAssignmentOptimal(m: Matrix, matrix: Matrix, n: nat, shift: int, zeros: seq<Cell>)
    requires IsGrid(m, n, n) && IsGrid(matrix, n, n) && NonNegative(matrix)
    requires CostsDifferBy(m, matrix, n, shift)
    requires FullAssignment(zeros, n)
    requires forall k :: 0 <= k < |zeros| ==> matrix[zeros[k].row][zeros[k].col] == 0
    ensures forall p :: IsPermutation(p, n) ==> Cost(m, AsPermutation(zeros, n)) <= Cost(m, p)
  {
    ZeroAssignmentCost(matrix, n, zeros);
    forall p | IsPermutation(p, n) ensures Cost(m, AsPermutation(zeros, n)) <= Cost(m, p) {
      CostNonNegative(matrix, n, p);
    }
  }

  /**
   * One round that does not finish: the greedy selection in `matrix` has fewer than n cells,
   * the zeros are covered by the least marking's lines, and `next` is the adjusted matrix.
   * Selection and lines are both determined (GreedySelectionUnique, LeastCoverUnique), so
   * `next` is too.
   */
  ghost predicate Round(matrix: Matrix, n: nat, next: Matrix) {
    && IsGrid(matrix, n, n)
    && exists zeros, lineRows, lineCols ::
         && GreedySelection(matrix, n, n, zeros) && |zeros| < n
         && LeastCover(matrix, n, zeros, lineRows, lineCols)
         && next == Adjust(matrix, lineRows, lineCols)
  }

  /**
   * `rounds` lists the working matrix at the start of each round of a run on `m`: the
   * reduced matrix first, then each round's adjustment of the one before.
   */
  ghost predicate Trace(m: Matrix, n: nat, rounds: seq<Matrix>)
    requires IsGrid(m, n, n) && n > 0
  {
    && |rounds| >= 1 && rounds[0] == ReduceMatrix(m, n, n).matrix
    && forall i :: 0 <= i < |rounds| - 1 ==> Round(rounds[i], n, rounds[i + 1])
  }

  /** The round on `matrix` ends the run: its greedy selection `zeros` fills every row. */
  ghost predicate Finishes(matrix: Matrix, n: nat, zeros: seq<Cell>) {
    IsGrid(matrix, n, n) && GreedySelection(matrix, n, n, zeros) && |zeros| == n
  }

  /**
   * The solver as written. `rounds` lists the working matrix at the start of each round:
   * the reduced matrix first, then each round's adjustment of the one before. The solver
   * returns at the first round whose greedy selection has n cells, and gives up only after
   * `maxIterations` rounds that all fell short. The assignment it returns has minimum cost,
   * but the amount it reports beside it, `total`, is the sum subtracted by the first reduction only —
   * a lower bound on every assignment's cost, not the cost found.
   */
  method Solve(m: Matrix, n: nat, maxIterations: nat) returns (outcome: Outcome, ghost rounds: seq<Matrix>)
    requires IsGrid(m, n, n) && n > 0
    ensures outcome.Assigned? ==> FullAssignment(outcome.zeros, n)
    ensures outcome.Assigned? ==>
              forall p :: IsPermutation(p, n) ==> Cost(m, AsPermutation(outcome.zeros, n)) <= Cost(m, p)
    ensures outcome.Assigned? ==> outcome.total == ReduceMatrix(m, n, n).total
    ensures outcome.Assigned? ==> forall p :: IsPermutation(p, n) ==> outcome.total <= Cost(m, p)
    ensures 1 <= |rounds| <= maxIterations + 1
    ensures outcome.NoConvergence? ==> |rounds| == maxIterations + 1
    ensures outcome.Assigned? ==> |rounds| <= maxIterations && Finishes(rounds[|rounds| - 1], n, outcome.zeros)
    ensures Trace(m, n, rounds)
  {
    var reduced := ReduceMatrix(m, n, n);
    var matrix, reductionSum := reduced.matrix, reduced.total;
    ghost var shift := reductionSum;
    forall p | IsPermutation(p, n) ensures Cost(m, p) == Cost(matrix, p) + shift && reductionSum <= Cost(m, p) {
      ReductionShiftsCost(m, n, p);
      ReductionLowerBound(m, n, p);
    }
    assert CostsDifferBy(m, matrix, n, shift);
    rounds := [matrix];
    var count := 1;
    while count <= maxIterations
      invariant IsGrid(matrix, n, n) && NonNegative(matrix)
      invariant CostsDifferBy(m, matrix, n, shift)
      invariant 1 <= count <= maxIterations + 1
      invariant |rounds| == count && rounds[count - 1] == matrix && Trace(m, n, rounds)
    {
      var zeros := SelectIndependentZeros(matrix, n, n);
      if |zeros| == n {
        FinishOptimal(m, matrix, n, shift, zeros);
        return Assigned(zeros, reductionSum), rounds;
      }
      var next, step := CoverAndAdjust(m, matrix, n, shift, zeros);
      ExtendRounds(m, n, rounds, next);
      shift := shift + step;
      matrix := next;
      rounds := rounds + [next];
      count := count + 1;
    }
    return NoConvergence, rounds;
  }

  /** A selection that fills every row, in a working matrix tracking the original costs, is a minimum-cost assignment. */
  lemma FinishOptimal(m: Matrix, matrix: Matrix, n: nat, shift: int, zeros: seq<Cell>)
    requires IsGrid(m, n, n) && IsGrid(matrix, n, n) && NonNegative(matrix)
    requires CostsDifferBy(m, matrix, n, shift)
    requires GreedySelection(matrix, n, n, zeros) && |zeros| == n
    ensures Finishes(matrix, n, zeros) && FullAssignment(zeros, n)
    ensures forall p :: IsPermutation(p, n) ==> Cost(m, AsPermutation(zeros, n)) <= Cost(m, p)
  {
    ZeroAssignmentOptimal(m, matrix, n, shift, zeros);
  }

  /** A selection short of n cells, its least cover and the adjustment make up one round. */
  lemma RoundOf(matrix: Matrix, n: nat, zeros: seq<Cell>, lineRows: seq<bool>, lineCols: seq<bool>)
    requires IsGrid(matrix, n, n) && GreedySelection(matrix, n, n, zeros) && |zeros| < n
    requires LeastCover(matrix, n, zeros, lineRows, lineCols)
    ensures Round(matrix, n, Adjust(matrix, lineRows, lineCols))
  {
  }

  /**
   * One adjustment keeps the working matrix non-negative and its costs a constant below the
   * original ones; `step` is the amount this round adds to that constant.
   */
  lemma AdjustStep(m: Matrix, matrix: Matrix, n: nat, shift: int, lineRows: seq<bool>, lineCols: seq<bool>)
    returns (step: int)
    requires IsGrid(m, n, n) && IsGrid(matrix, n, n) && NonNegative(matrix)
    requires |lineRows| == n && |lineCols| == n
    requires CostsDifferBy(m, matrix, n, shift)
    ensures IsGrid(Adjust(matrix, lineRows, lineCols), n, n) && NonNegative(Adjust(matrix, lineRows, lineCols))
    ensures CostsDifferBy(m, Adjust(matrix, lineRows, lineCols), n, shift + step)
  {
    step := Delta(matrix, lineRows, lineCols) * (n - (Count(lineRows, true) + Count(lineCols, true)));
    AdjustDiffers(matrix, n, lineRows, lineCols);
    AdjustKeepsNonNegative(matrix, lineRows, lineCols);
    ComposeShifts(m, matrix, Adjust(matrix, lineRows, lineCols), n, shift, step);
  }

  /**
   * A matrix whose greedy selection fills every row starts no further round, so a run that
   * reaches it returns there.
   */
  lemma FullSelectionStops(matrix: Matrix, n: nat, zeros: seq<Cell>)
    requires Finishes(matrix, n, zeros)
    ensures forall next :: !Round(matrix, n, next)
  {
    forall next | Round(matrix, n, next) ensures false {
      var other, lineRows, lineCols :| && GreedySelection(matrix, n, n, other) && |other| < n
                                        && LeastCover(matrix, n, other, lineRows, lineCols)
                                        && next == Adjust(matrix, lineRows, lineCols);
      GreedySelectionUnique(matrix, n, n, zeros, other);
    }
  }

  /**
   * The second half of a round that does not finish: cover the zeros with lines and adjust
   * the matrix. The result is the round's successor, still non-negative, with costs a
   * constant below the original ones.
   */
  method CoverAndAdjust(m: Matrix, matrix: Matrix, n: nat, ghost shift: int, zeros: seq<Cell>)
    returns (next: Matrix, ghost step: int)
    requires IsGrid(m, n, n) && IsGrid(matrix, n, n) && NonNegative(matrix)
    requires CostsDifferBy(m, matrix, n, shift)
    requires GreedySelection(matrix, n, n, zeros) && |zeros| < n
    ensures Round(matrix, n, next)
    ensures IsGrid(next, n, n) && NonNegative(next) && CostsDifferBy(m, next, n, shift + step)
  {
    var lineRows, lineCols := CoverZeros(matrix, n, zeros);
    next := Adjust(matrix, lineRows, lineCols);
    step := AdjustStep(m, matrix, n, shift, lineRows, lineCols);
    RoundOf(matrix, n, zeros, lineRows, lineCols);
  }

  /** A trace of rounds stays a trace when one more round is appended. */
  lemma ExtendRounds(m: Matrix, n: nat, rounds: seq<Matrix>, next: Matrix)
    requires IsGrid(m, n, n) && n > 0 && Trace(m, n, rounds)
    requires Round(rounds[|rounds| - 1], n, next)
    ensures Trace(m, n, rounds + [next])
  {
    var after := rounds + [next];
    forall i | 0 <= i < |after| - 1 ensures Round(after[i], n, after[i + 1]) {
      if i < |rounds| - 1 {
        assert after[i] == rounds[i] && after[i + 1] == rounds[i + 1];
      }
    }
  }

  /**
   * The solver reporting the cost of the assignment it found (the sum the source computes
   * just before returning): here `total` is the original cost of the assignment, not the
   * reduction's total, and it is the minimum over all assignments.
   */
  method SolveWithCost(m: Matrix, n: nat, maxIterations: nat) returns (outcome: Outcome)
    requires IsGrid(m, n, n) && n > 0
    ensures outcome.Assigned? ==> FullAssignment(outcome.zeros, n)
    ensures outcome.Assigned? ==> outcome.total == Cost(m, AsPermutation(outcome.zeros, n))
    ensures outcome.Assigned? ==> forall p :: IsPermutation(p, n) ==> outcome.total <= Cost(m, p)
  {
    var result, _ := Solve(m, n, maxIterations);
    if result.Assigned? {
      AssignedCostIsCost(m, n, result.zeros);
      outcome := Assigned(result.zeros, AssignedCost(m, result.zeros));
    } else {
      outcome := NoConvergence;
    }
  }

  /**
   * On the 3-by-3 matrix whose entry (i, j) is (i + 1) * (j + 1), the reduction subtracts 9,
   * while every assignment costs more: whatever assignment Solve returns, the amount it
   * reports is not its cost.
   */
  lemma ReturnedSumMissesOptimum(m: Matrix)
    requires m == [[1, 2, 3], [2, 4, 6], [3, 6, 9]]
    ensures IsGrid(m, 3, 3) && ReduceMatrix(m, 3, 3).total == 9
    ensures forall p :: IsPermutation(p, 3) ==> ReduceMatrix(m, 3, 3).total < Cost(m, p)
  {
    assert IsGrid(m, 3, 3);
    ExampleReduction(m);
    ExampleLowerBound(m);
  }

  /** The anti-diagonal of the example is an assignment of cost 10, so the optimum there is 10. */
  lemma ExampleAntiDiagonal(m: Matrix)
    requires m == [[1, 2, 3], [2, 4, 6], [3, 6, 9]]
    ensures IsPermutation([2, 1, 0], 3) && Cost(m, [2, 1, 0]) == 10
  {
    SumOfThree(Picked(m, [2, 1, 0]));
  }

  /** A matrix reducing to the example's reduced form costs more than the 9 subtracted, under every assignment. */
  lemma ExampleLowerBound(m: Matrix)
    requires IsGrid(m, 3, 3) && ReduceMatrix(m, 3, 3) == Reduced([[0, 0, 0], [0, 1, 2], [0, 2, 4]], 9)
    ensures forall p :: IsPermutation(p, 3) ==> ReduceMatrix(m, 3, 3).total < Cost(m, p)
  {
    ExampleReducedBound(ReduceMatrix(m, 3, 3).matrix);
    ReducedBoundLifts(m, 3, 1);
  }

  /** A bound on every assignment of the reduced matrix lifts to the original, raised by the total. */
  lemma ReducedBoundLifts(m: Matrix, n: nat, k: int)
    requires IsGrid(m, n, n) && n > 0
    requires forall p :: IsPermutation(p, n) ==> Cost(ReduceMatrix(m, n, n).matrix, p) >= k
    ensures forall p :: IsPermutation(p, n) ==> Cost(m, p) >= ReduceMatrix(m, n, n).total + k
  {
    var r := ReduceMatrix(m, n, n);
    forall p | IsPermutation(p, n) ensures Cost(m, p) >= r.total + k {
      ReductionShiftsCost(m, n, p);
      assert Cost(r.matrix, p) >= k;
    }
  }

  /** Every assignment of the reduced example costs at least 1. */
  lemma ExampleReducedBound(reduced: Matrix)
    requires reduced == [[0, 0, 0], [0, 1, 2], [0, 2, 4]]
    ensures forall p :: IsPermutation(p, 3) ==> Cost(reduced, p) >= 1
  {
    forall p | IsPermutation(p, 3) ensures Cost(reduced, p) >= 1 {
      ExampleReducedCost(reduced, p);
    }
  }

  /** The reduction of the example subtracts 9 and leaves zeros only in the first row and column. */
  lemma ExampleReduction(m: Matrix)
    requires m == [[1, 2, 3], [2, 4, 6], [3, 6, 9]]
    ensures ReduceMatrix(m, 3, 3) == Reduced([[0, 0, 0], [0, 1, 2], [0, 2, 4]], 9)
  {
    ExampleColumnMinima(m);
    ExampleColumnReduced(m, ColumnMinima(m, 3));
    ExampleRowStep(ColumnReduced(m, 3));
  }

  /** The column minima of the example: 1, 2, 3. */
  lemma ExampleColumnMinima(m: Matrix)
    requires m == [[1, 2, 3], [2, 4, 6], [3, 6, 9]]
    ensures ColumnMinima(m, 3) == [1, 2, 3] && Sum(ColumnMinima(m, 3)) == 6
  {
    var colMins := ColumnMinima(m, 3);
    assert colMins[0] in Column(m, 0) && colMins[0] <= m[0][0];
    assert colMins[1] in Column(m, 1) && colMins[1] <= m[0][1];
    assert colMins[2] in Column(m, 2) && colMins[2] <= m[0][2];
    SumOfThree(colMins);
  }

  /** The example with its column minima subtracted. */
  lemma ExampleColumnReduced(m: Matrix, colMins: seq<int>)
    requires m == [[1, 2, 3], [2, 4, 6], [3, 6, 9]] && colMins == [1, 2, 3]
    ensures SubtractFromColumns(m, colMins) == [[0, 0, 0], [1, 2, 3], [2, 4, 6]]
  {
    var colReduced := SubtractFromColumns(m, colMins);
    assert colReduced[0] == [0, 0, 0];
    assert colReduced[1] == [1, 2, 3];
    assert colReduced[2] == [2, 4, 6];
  }

  /** The row step on the column-reduced example: minima 0, 1, 2. */
  lemma ExampleRowStep(c: Matrix)
    requires c == [[0, 0, 0], [1, 2, 3], [2, 4, 6]]
    ensures RowMinima(c) == [0, 1, 2] && Sum(RowMinima(c)) == 3
    ensures SubtractFromRows(c, RowMinima(c)) == [[0, 0, 0], [0, 1, 2], [0, 2, 4]]
  {
    var rowMins := RowMinima(c);
    assert rowMins[0] in c[0] && rowMins[0] <= c[0][0];
    assert rowMins[1] in c[1] && rowMins[1] <= c[1][0];
    assert rowMins[2] in c[2] && rowMins[2] <= c[2][0];
    assert rowMins == [0, 1, 2];
    SumOfThree(rowMins);
    var result := SubtractFromRows(c, rowMins);
    assert result[0] == [0, 0, 0];
    assert result[1] == [0, 1, 2];
    assert result[2] == [0, 2, 4];
  }

  /** No assignment of the reduced example picks only zeros: rows 1 and 2 have theirs in column 0 alone. */
  lemma ExampleReducedCost(reduced: Matrix, p: seq<nat>)
    requires reduced == [[0, 0, 0], [0, 1, 2], [0, 2, 4]] && IsPermutation(p, 3)
    ensures Cost(reduced, p) >= 1
  {
    assert p[1] != p[2];
    var picked := Picked(reduced, p);
    SumOfThree(picked);
  }
}
