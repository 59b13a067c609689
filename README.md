# Hungarian assignment solver (test5.py), modelled in Dafny

`test5.py` solves the assignment problem for a square integer cost matrix with the
Hungarian (Kuhn–Munkres) method, in five pieces:

- `reduceMatrix` subtracts each column's minimum, then each row's minimum, and reports the total subtracted.
- `wyznaczanie_zer_niezaleznych` greedily picks independent zeros (no two in one row or column), preferring lines with the fewest free zeros.
- `pokryj_zera_min_liczba_linii` covers all zeros with lines by König's marking procedure.
- `zwieksz_liczbe_zer` subtracts the smallest uncovered entry from every uncovered cell and adds it to every cell covered twice.
- `algorytm_wegierski` reduces once, then repeats select → (stop when n zeros are independent) → cover → adjust.

The model has one module per piece, plus shared vocabulary:

| file | module | models |
|---|---|---|
| grid.dfy | `Grid` | matrices as `seq<seq<int>>`, cells, `Sum`, `Count`, `MinOf` (numpy's `min`) |
| assignment.dfy | `Assignment` | permutations, the cost of an assignment, independent cells, shifting costs by row/column amounts |
| reduction.dfy | `Reduction` | `reduceMatrix`, as pure functions |
| selection.dfy | `Selection` | `wyznaczanie_zer_niezaleznych`, as methods over `array<bool>` used-row/used-column flags |
| cover.dfy | `Cover` | `pokryj_zera_min_liczba_linii`, as methods flipping `array<bool>` marks in place until a fixpoint |
| adjustment.dfy | `Adjustment` | `zwieksz_liczbe_zer`, as pure functions |
| hungarian.dfy | `Hungarian` | `algorytm_wegierski`, as a method with a loop |

The greedy selection is specified declaratively:

- `GreedyChoice` says which cell one round must pick: the first row with the fewest free zeros, at its lowest free zero, unless a column has strictly fewer.
- Each selection method is proved to pick exactly that cell.
- The cover is proved to cover every zero and to come from the least closed marking, so its lines are determined (`LeastCoverUnique`); the selection is determined likewise (`GreedySelectionUnique`).
- The lemma `LineCount` counts its lines against the independent zeros.

Every reduction and adjustment step is proved to shift the cost of every assignment by the same amount. So when the driver stops with n independent zeros, their assignment has minimum cost. The value the driver returns beside it is not that cost; see "## Findings".

## Model

| member | source | states |
|---|---|---|
| Grid.MinOf | test5.py:8 | the minimum of a non-empty sequence is one of its entries and at most every entry |
| Reduction.ColumnMinima | test5.py:8 | entry j lies in column j and is at most every entry of column j |
| Reduction.RowMinima | test5.py:12 | entry i lies in row i and is at most every entry of row i |
| Reduction.ColumnReduced | test5.py:8-9 | after subtracting the column minima the matrix is non-negative and every column holds a zero |
| Reduction.RowReductionFacts | test5.py:12-13 | subtracting the row minima of a non-negative matrix keeps it non-negative, puts a zero in every row and keeps every existing zero |
| Reduction.ReduceMatrix | test5.py:3-13 | the reduced matrix is non-negative with a zero in every row and every column; the total is the sum of the column minima plus the sum of the row minima of the column-reduced matrix |
| Reduction.ReductionShiftsCost | test5.py:3-13 | for every permutation, original cost = reduced cost + reported total, so the reduction keeps the optimal assignments |
| Reduction.ReductionLowerBound | test5.py:13 | the reported total is at most the cost of every assignment |
| Reduction.ColumnMinimaOfReduced | test5.py:8-9 | on a non-negative matrix with a zero in every column, all column minima are 0 and the column step changes nothing |
| Reduction.RowMinimaOfReduced | test5.py:12-13 | on a non-negative matrix with a zero in every row, all row minima are 0 and the row step changes nothing |
| Reduction.ReduceReduced | test5.py:3-13 | reducing an already reduced matrix returns it unchanged with total 0 (idempotence) |
| Assignment.CostShift | test5.py:9-13 | subtracting a[i] from row i and b[j] from column j lowers every permutation's cost by exactly Sum(a) + Sum(b) |
| Assignment.SumPermuted | test5.py:9-13 | summing a vector along a permutation gives its plain sum |
| Assignment.CostNonNegative | test5.py:13 | every assignment of a non-negative matrix costs at least 0 |
| Assignment.IndependentBound | test5.py:121-125 | independent cells within an r-by-c grid number at most r and at most c |
| Assignment.AsPermutation | test5.py:205 | n independent cells of an n-by-n grid form a permutation that sends each row to its cell's column |
| Assignment.AssignedCostIsCost | test5.py:210 | the sum of the original entries at the chosen cells, in list order, is the cost of that permutation |
| Selection.ScanRow | test5.py:92-97 | the count is the number of free zeros of the row; the candidate is none exactly when the count is 0, otherwise it is the row's lowest-index free zero |
| Selection.ScanColumn | test5.py:108-113 | the count is the number of free zeros of the column; the candidate is none exactly when the count is 0, otherwise it is the column's lowest-index free zero |
| Selection.RowLeaderWithOne | test5.py:102 | a leading row with a single free zero stays the leader over all rows, which justifies the early exit |
| Selection.ColLeaderWithOne | test5.py:118 | a leading column with a single free zero stays the leader over all columns |
| Selection.BestRow | test5.py:85-102 | no candidate exactly when no free row has a free zero; otherwise the first free row with the fewest free zeros, at its lowest free zero, with that count |
| Selection.BestColumn | test5.py:104-118 | either the row candidate stands and no column has fewer free zeros, or the result is the first column with the fewest free zeros, at its lowest free zero, strictly fewer than the row candidate |
| Selection.NextZero | test5.py:84-118 | one round returns nothing exactly when no free zero is left; otherwise it returns the cell GreedyChoice describes |
| Selection.ColumnPickWins | test5.py:114-118 | a column candidate with strictly fewer free zeros than the best row satisfies ByColumn |
| Selection.GreedyChoiceUnique | test5.py:90-118 | at most one cell satisfies GreedyChoice, so each round's pick is determined |
| Selection.UsedAfterAppend | test5.py:123-125 | appending a cell flags exactly its row and its column |
| Selection.AppendChoice | test5.py:121-125 | appending a round's choice keeps the list within bounds, independent, made of zeros, greedy in every round and no longer than the rows or the columns |
| Selection.ChoiceIsFree | test5.py:90-118 | a round's choice is a zero whose row and column are still unused |
| Selection.SamePrefix | test5.py:65-131 | two greedy selections of one matrix agree on their common prefix |
| Selection.NoLongerSelection | test5.py:65-131 | a greedy selection cannot be extended by a further round's choice: a selection that starts with it has the same length |
| Selection.GreedySelectionUnique | test5.py:65-131 | the selection is determined by the matrix: two lists both satisfying GreedySelection are equal |
| Selection.SelectIndependentZeros | test5.py:65-131 | GreedySelection holds of the result: it holds zeros of the input only, no two in one row or column, at most min(rows, cols) of them; each one is the GreedyChoice given the cells before it; and it is maximal (every zero shares a row or column with a chosen one) |
| Cover.CountGrown | test5.py:154-170 | flags that only grow have no more false entries, and the same number only if nothing changed (the fixpoint loop's termination measure) |
| Cover.MarkColumns | test5.py:157-163 | a column is marked afterwards exactly when it was already marked or holds a zero of a marked row; marks only grow; the change flag is set exactly when a mark changed |
| Cover.MarkRows | test5.py:164-170 | a row is marked afterwards exactly when it was already marked or its independent zero stands in a marked column; marks only grow; the change flag is set exactly when a mark changed |
| Cover.ReachedGrown | test5.py:158-170 | justifications for marks survive when the marks only grow |
| Cover.CoverZeros | test5.py:134-176 | every zero lies on a line; every row line holds an independent zero; no independent zero is covered twice; every column line holds a zero of an undrawn row; every undrawn row with an independent zero has it in a column line; and LeastCover: the marking behind the lines (marked rows = undrawn rows, marked columns = column lines) is closed under both passes, and every closed marking that marks the rows without an independent zero contains it |
| Cover.LeastCoverUnique | test5.py:134-176 | two markings that are both least give the same lines, so the lines drawn are determined by the matrix and the independent zeros |
| Cover.StayInside | test5.py:154-170 | one round of both passes keeps the marks inside every closed marking that contained them (the leastness invariant of the loop) |
| Cover.CountHits | test5.py:172-176 | among distinct values below n, the positions hit by the values that satisfy a mask number as many as those values |
| Cover.RowLineCount | test5.py:172-176 | row lines are as many as the independent zeros whose column has no line |
| Cover.InColsOf | test5.py:167 | a column is among the chosen cells' columns exactly when a chosen cell stands in it |
| Cover.ColumnLineCount | test5.py:172-176 | column lines are those holding an independent zero plus those holding none |
| Cover.LineCount | test5.py:135-176 | lines = independent zeros + column lines holding no independent zero, so when every column line holds one, the lines number exactly as many as the independent zeros (König) |
| Adjustment.RowUncovered | test5.py:25 | every entry of the row in a column without a line is listed |
| Adjustment.Uncovered | test5.py:21-25 | every uncovered entry of the first k rows is listed (numpy's `macierz[nieprzykryte]`) |
| Adjustment.RowUncoveredOnly | test5.py:25 | the row listing holds only entries in columns without a line |
| Adjustment.UncoveredOnly | test5.py:21-25 | the listing holds only uncovered entries |
| Adjustment.Delta | test5.py:21-25 | when some cell is uncovered, the amount is an uncovered entry and at most every uncovered entry; when none is, it is 0 |
| Adjustment.Adjust | test5.py:21-32 | per cell: uncovered entries lose Delta, doubly covered ones gain it, singly covered ones are unchanged |
| Adjustment.AdjustShiftsCost | test5.py:27-30 | every permutation's cost drops by Delta × (n − number of lines) |
| Adjustment.AdjustDiffers | test5.py:27-30 | the same shift, stated for all permutations at once |
| Adjustment.ShiftByLines | test5.py:29-30 | subtracting d from rows without a line and adding it to columns with one shifts every cost by d × (n − lines) |
| Adjustment.LineShiftTotal | test5.py:29-30 | the row and column amounts add up to d × (n − lines) |
| Adjustment.AdjustAsShift | test5.py:29-30 | the adjustment is that row/column shift with d = Delta |
| Adjustment.AdjustKeepsNonNegative | test5.py:25-30 | Delta of a non-negative matrix is ≥ 0 and the adjusted matrix stays non-negative |
| Adjustment.AdjustExposesZero | test5.py:25-29 | when some cell is uncovered, some uncovered cell becomes 0 |
| Adjustment.DeltaPositive | test5.py:25 | if the lines cover every zero and some cell is uncovered, Delta > 0 |
| Hungarian.ZeroAssignmentCost | test5.py:205 | n independent zeros form an assignment of cost 0 |
| Hungarian.ComposeShifts | test5.py:215-216 | shifts of all assignment costs by constants compose by addition |
| Hungarian.ZeroAssignmentOptimal | test5.py:205-213 | n independent zeros of a non-negative matrix whose costs differ from the original's by a constant give an assignment of minimum original cost |
| Hungarian.Solve | test5.py:182-220 | the ghost trace starts at the reduced matrix and each step is a Round; the run returns an assignment at the first round whose greedy selection has n cells (Finishes on the trace's last matrix, within the bound), and gives up only after maxIterations rounds that each fell short; the assignment is full and of minimum cost; the amount returned beside it is the first reduction's total, a lower bound on every assignment's cost |
| Hungarian.FullSelectionStops | test5.py:205 | a matrix whose greedy selection has n cells starts no further round, so a run that reaches it returns there |
| Hungarian.FinishOptimal | test5.py:205-213 | a selection of n zeros in a non-negative working matrix whose costs differ from the original by a constant is a full assignment of minimum original cost |
| Hungarian.RoundOf | test5.py:198-219 | a selection short of n cells, the least cover of it and the adjustment make up one Round |
| Hungarian.CoverAndAdjust | test5.py:215-216 | the adjusted matrix is the Round successor of the working matrix, stays non-negative, and its costs stay a constant below the original ones |
| Hungarian.AdjustStep | test5.py:216 | one adjustment keeps the working matrix non-negative and shifts the constant between original and working costs by Delta × (n − lines) |
| Hungarian.ExtendRounds | test5.py:182-220 | appending a Round successor to a trace gives a trace |
| Hungarian.SolveWithCost | test5.py:205-213 | the corrected solver returns the original cost of the assignment it found, and that amount is the minimum over all assignments |
| Hungarian.ReturnedSumMissesOptimum | test5.py:213 | on [[1,2,3],[2,4,6],[3,6,9]] the amount Solve returns is 9, strictly below the cost of every assignment |
| Hungarian.ExampleAntiDiagonal | test5.py:210 | on the same matrix the anti-diagonal costs 10, so the cost the source prints can be 10 while it returns 9 |
| Hungarian.ExampleLowerBound | test5.py:13 | a matrix whose reduction is [[0,0,0],[0,1,2],[0,2,4]] with total 9 costs more than 9 under every assignment |
| Hungarian.ReducedBoundLifts | test5.py:3-13 | a lower bound k on every reduced cost lifts to total + k on every original cost |
| Hungarian.ExampleReducedBound | test5.py:13 | every assignment of [[0,0,0],[0,1,2],[0,2,4]] costs at least 1 |
| Hungarian.ExampleReducedCost | test5.py:13 | one assignment of that matrix costs at least 1 |
| Hungarian.ExampleReduction | test5.py:3-13 | the example reduces to [[0,0,0],[0,1,2],[0,2,4]] with total 9 |
| Hungarian.ExampleColumnMinima | test5.py:8-10 | the example's column minima are 1, 2, 3, summing to 6 |
| Hungarian.ExampleColumnReduced | test5.py:9 | the example minus its column minima is [[0,0,0],[1,2,3],[2,4,6]] |
| Hungarian.ExampleRowStep | test5.py:12-13 | that matrix has row minima 0, 1, 2, summing to 3, and subtracting them gives [[0,0,0],[0,1,2],[0,2,4]] |

## Left out

- Every `print` is left out: they only trace progress and have no effect on control flow.
- `wyswietl_macierz_z_zerami` (display only) and the example run at the end of the file are left out.
- Numpy mechanics become per-cell definitions. This covers broadcasting, boolean-mask indexing and `.copy()`. Matrices are Dafny values, so the caller's matrix is never modified.
- numpy's fixed-width integers become unbounded `int`; int64 overflow is not modelled.
- Hungarian.Solve: the source's `while True` becomes a `maxIterations` bound, with a `NoConvergence` outcome when the bound runs out; the returned trace shows that every round up to the bound fell short. Termination is not proved. The greedy selection only guarantees a maximal set of independent zeros, not a maximum one. So a cover can leave nothing uncovered, Delta is then 0 and the matrix stays the same. Whether such a loop happens is neither proved nor refuted.
- Hungarian.Solve: a matrix with no rows is excluded by `n > 0`, because numpy's `min` raises on an empty array. A non-square matrix is excluded because the cover uses `shape[0]` for both dimensions.
- Cover.LineCount: it does not prove that every marked column holds an independent zero when the selection is a maximum matching (the augmenting-path half of König's theorem). So "lines = |zeros|" is stated only under that condition.
- Selection.SelectIndependentZeros: the result is proved maximal, not maximum. The source does not guarantee maximum either.
- Selection.NextZero: the `found_in_row` flag is always true where it is read (line 105), so the column scan is skipped exactly when a row had a single free zero. The model has no flag.
- Selection.BestRow: the source's `float('inf')` sentinel is `None`.
- Cover.CoverZeros: the loop at lines 150-152 that unmarks rows holding an independent zero is modelled as the initial contents of the marks array.

## Findings

| source | as written | input that shows it | evidently intended | confidence | as-written member | corrected member |
|---|---|---|---|---|---|---|
| test5.py:213 | returns `suma_redukcji`, the total of the first reduction. Adjustments lower every assignment's cost by Delta × (n − lines), but this total is never updated. | [[1,2,3],[2,4,6],[3,6,9]]: the reduction subtracts 9, while every assignment costs at least 10 (the anti-diagonal costs 10) | return the cost of the chosen assignment, `koszt_calkowity` (line 210), which the comment at line 211 takes to equal the reduction sum | not executed | Hungarian.ReturnedSumMissesOptimum | Hungarian.SolveWithCost |
