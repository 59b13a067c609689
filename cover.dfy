/**
 * Covering the zeros with lines (`pokryj_zera_min_liczba_linii`).
 *
 * Rows without an independent zero are marked; then, until nothing changes, every column
 * holding a zero of a marked row is marked, and every row whose independent zero stands in
 * a marked column is marked. Lines go through the unmarked rows and the marked columns.
 */
module Cover {
  import opened Grid
  import opened Assignment

  /** Column c holds a zero of a marked row. */
  ghost predicate ColumnReached(m: Matrix, n: nat, markedRows: seq<bool>, c: nat)
    requires IsGrid(m, n, n) && |markedRows| == n && c < n
  {
    exists r :: 0 <= r < n && markedRows[r] && m[r][c] == 0
  }

  /** Row r holds an independent zero standing in a marked column. */
  ghost predicate RowReached(zeros: seq<Cell>, n: nat, markedCols: seq<bool>, r: nat)
    requires WithinBounds(zeros, n, n) && |markedCols| == n
  {
    exists k :: 0 <= k < |zeros| && zeros[k].row == r && markedCols[zeros[k].col]
  }

  /** No marked row has a zero in an unmarked column. */
  ghost predicate ColumnsClosed(m: Matrix, n: nat, markedRows: seq<bool>, markedCols: seq<bool>)
    requires IsGrid(m, n, n) && |markedRows| == n && |markedCols| == n
  {
    forall r, c :: 0 <= r < n && 0 <= c < n && markedRows[r] && m[r][c] == 0 ==> markedCols[c]
  }

  /** No marked column holds the independent zero of an unmarked row. */
  ghost predicate RowsClosed(zeros: seq<Cell>, n: nat, markedRows: seq<bool>, markedCols: seq<bool>)
    requires WithinBounds(zeros, n, n) && |markedRows| == n && |markedCols| == n
  {
    forall k :: 0 <= k < |zeros| && markedCols[zeros[k].col] ==> markedRows[zeros[k].row]
  }

  /** Flags only ever go from false to true. */
  ghost predicate Grown(before: seq<bool>, after: seq<bool>) {
    |before| == |after| && forall i :: 0 <= i < |before| && before[i] ==> after[i]
  }

  /**
   * A marking closed under both kinds of pass that marks every row without an independent
   * zero. The procedure computes the least such marking.
   */
  ghost predicate ClosedMarking(m: Matrix, n: nat, zeros: seq<Cell>, markedRows: seq<bool>, markedCols: seq<bool>)
    requires IsGrid(m, n, n) && WithinBounds(zeros, n, n)
  {
    && |markedRows| == n && |markedCols| == n
    && (forall r :: 0 <= r < n && !RowTaken(zeros, r) ==> markedRows[r])
    && ColumnsClosed(m, n, markedRows, markedCols)
    && RowsClosed(zeros, n, markedRows, markedCols)
  }

  /** The rows without a line: the marked rows of the marking behind the lines. */
  function Undrawn(lineRows: seq<bool>): (marked: seq<bool>)
    ensures |marked| == |lineRows| && forall r :: 0 <= r < |lineRows| ==> marked[r] == !lineRows[r]
  {
    seq(|lineRows|, r requires 0 <= r < |lineRows| => !lineRows[r])
  }

  /**
   * The lines come from the least closed marking: the marking behind them is closed, and
   * every closed marking contains it.
   */
  ghost predicate LeastCover(m: Matrix, n: nat, zeros: seq<Cell>, lineRows: seq<bool>, lineCols: seq<bool>)
    requires IsGrid(m, n, n) && WithinBounds(zeros, n, n)
  {
    && |lineRows| == n && |lineCols| == n
    && ClosedMarking(m, n, zeros, Undrawn(lineRows), lineCols)
    && forall markedRows, markedCols :: ClosedMarking(m, n, zeros, markedRows, markedCols) ==>
         Grown(Undrawn(lineRows), markedRows) && Grown(lineCols, markedCols)
  }

  /** The least closed marking is unique, so the lines the procedure draws are determined. */
  lemma LeastCoverUnique(m: Matrix, n: nat, zeros: seq<Cell>, rows1: seq<bool>, cols1: seq<bool>,
                         rows2: seq<bool>, cols2: seq<bool>)
    requires IsGrid(m, n, n) && WithinBounds(zeros, n, n)
    requires LeastCover(m, n, zeros, rows1, cols1) && LeastCover(m, n, zeros, rows2, cols2)
    ensures rows1 == rows2 && cols1 == cols2
  {
    assert Grown(Undrawn(rows1), Undrawn(rows2)) && Grown(cols1, cols2);
    assert Grown(Undrawn(rows2), Undrawn(rows1)) && Grown(cols2, cols1);
    assert forall r :: 0 <= r < n ==> rows1[r] == rows2[r];
  }

  /**
   * One round of both passes keeps the marks inside every closed marking that contained
   * them: each new mark is justified by a zero or an independent zero that the closed
   * marking must follow as well.
   */
  lemma StayInside(m: Matrix, n: nat, zeros: seq<Cell>, markedRows: seq<bool>, markedCols: seq<bool>,
                   rows0: seq<bool>, cols0: seq<bool>, rows1: seq<bool>, cols1: seq<bool>)
    requires IsGrid(m, n, n) && WithinBounds(zeros, n, n)
    requires ClosedMarking(m, n, zeros, markedRows, markedCols)
    requires Grown(rows0, markedRows) && Grown(cols0, markedCols)
    requires |cols1| == n && forall c :: 0 <= c < n ==> (cols1[c] <==> cols0[c] || ColumnReached(m, n, rows0, c))
    requires |rows1| == n && forall r :: 0 <= r < n ==> (rows1[r] <==> rows0[r] || RowReached(zeros, n, cols1, r))
    ensures Grown(rows1, markedRows) && Grown(cols1, markedCols)
  {
    forall c | 0 <= c < n && cols1[c] ensures markedCols[c] {
      if !cols0[c] {
        var r :| 0 <= r < n && rows0[r] && m[r][c] == 0;
      }
    }
    forall r | 0 <= r < n && rows1[r] ensures markedRows[r] {
      if !rows0[r] {
        var k :| 0 <= k < |zeros| && zeros[k].row == r && cols1[zeros[k].col];
      }
    }
  }

  lemma {:induction false} CountGrown(before: seq<bool>, after: seq<bool>)
    requires Grown(before, after)
    ensures Count(after, false) <= Count(before, false)
    ensures Count(after, false) == Count(before, false) ==> after == before
  {
    if before != [] {
      var k := |before| - 1;
      CountGrown(before[..k], after[..k]);
      if Count(after, false) == Count(before, false) {
        assert after[..k] == before[..k] && after[k] == before[k];
        assert after == after[..k] + [after[k]];
        assert before == before[..k] + [before[k]];
      }
    }
  }

  /**
   * One pass of the first kind: every column holding a zero of a marked row becomes marked.
   * Reports whether any flag changed.
   */
  method MarkColumns(m: Matrix, n: nat, markedRows: array<bool>, markedCols: array<bool>) returns (changed: bool)
    requires IsGrid(m, n, n) && markedRows.Length == n && markedCols.Length == n
    requires markedRows != markedCols
    modifies markedCols
    ensures forall c :: 0 <= c < n ==>
              (markedCols[c] <==> old(markedCols[c]) || ColumnReached(m, n, markedRows[..], c))
    ensures ColumnsClosed(m, n, markedRows[..], markedCols[..])
    ensures Grown(old(markedCols[..]), markedCols[..])
    ensures changed <==> markedCols[..] != old(markedCols[..])
  {
    ghost var before := markedCols[..];
    ghost var rows := markedRows[..];
    changed := false;
    var r := 0;
    while r < n
      invariant 0 <= r <= n
      invariant forall c :: 0 <= c < n ==>
                  (markedCols[c] <==> before[c] || exists r' :: 0 <= r' < r && rows[r'] && m[r'][c] == 0)
      invariant changed <==> markedCols[..] != before
    {
      if markedRows[r] {
        var c := 0;
        while c < n
          invariant 0 <= c <= n
          invariant forall c' :: 0 <= c' < n ==>
                      (markedCols[c'] <==> || before[c']
                                           || (exists r' :: 0 <= r' < r && rows[r'] && m[r'][c'] == 0)
                                           || (c' < c && m[r][c'] == 0))
          invariant changed <==> markedCols[..] != before
        {
          if m[r][c] == 0 && !markedCols[c] {
            markedCols[c] := true;
            assert markedCols[..][c] != before[c];
            changed := true;
          }
          c := c + 1;
        }
      }
      r := r + 1;
    }
  }

  /**
   * One pass of the second kind: every row whose independent zero stands in a marked column
   * becomes marked. Reports whether any flag changed.
   */
  method MarkRows(zeros: seq<Cell>, n: nat, markedRows: array<bool>, markedCols: array<bool>) returns (changed: bool)
    requires WithinBounds(zeros, n, n) && markedRows.Length == n && markedCols.Length == n
    requires markedRows != markedCols
    modifies markedRows
    ensures forall r :: 0 <= r < n ==>
              (markedRows[r] <==> old(markedRows[r]) || RowReached(zeros, n, markedCols[..], r))
    ensures RowsClosed(zeros, n, markedRows[..], markedCols[..])
    ensures Grown(old(markedRows[..]), markedRows[..])
    ensures changed <==> markedRows[..] != old(markedRows[..])
  {
    ghost var before := markedRows[..];
    ghost var cols := markedCols[..];
    changed := false;
    var c := 0;
    while c < n
      invariant 0 <= c <= n
      invariant forall r :: 0 <= r < n ==>
                  (markedRows[r] <==> before[r] || exists k :: 0 <= k < |zeros| && zeros[k].row == r
                                                             && zeros[k].col < c && cols[zeros[k].col])
      invariant changed <==> markedRows[..] != before
    {
      if markedCols[c] {
        var k := 0;
        while k < |zeros|
          invariant 0 <= k <= |zeros|
          invariant forall r :: 0 <= r < n ==>
                      (markedRows[r] <==> || before[r]
                                          || (exists k' :: 0 <= k' < |zeros| && zeros[k'].row == r
                                                         && zeros[k'].col < c && cols[zeros[k'].col])
                                          || (exists k' :: 0 <= k' < k && zeros[k'].row == r && zeros[k'].col == c))
          invariant changed <==> markedRows[..] != before
        {
          var cell := zeros[k];
          if cell.col == c && !markedRows[cell.row] {
            markedRows[cell.row] := true;
            assert markedRows[..][cell.row] != before[cell.row];
            changed := true;
          }
          k := k + 1;
        }
      }
      c := c + 1;
    }
  }

  /**
   * The lines covering the zeros of `m`, given the independent zeros. Every zero lies on a
   * line; a row line always passes through an independent zero; an independent zero whose
   * column carries a line does not have its row drawn as well. The marking is the least one:
   * each column line passes through a zero of an undrawn row, and each undrawn row that has
   * an independent zero has it in a column line.
   */
  method CoverZeros(m: Matrix, n: nat, zeros: seq<Cell>) returns (lineRows: seq<bool>, lineCols: seq<bool>)
    requires IsGrid(m, n, n) && WithinBounds(zeros, n, n)
    ensures |lineRows| == n && |lineCols| == n
    ensures forall r, c :: 0 <= r < n && 0 <= c < n && m[r][c] == 0 ==> lineRows[r] || lineCols[c]
    ensures forall r :: 0 <= r < n && lineRows[r] ==> RowTaken(zeros, r)
    ensures forall k :: 0 <= k < |zeros| && lineCols[zeros[k].col] ==> !lineRows[zeros[k].row]
    ensures forall c :: 0 <= c < n && lineCols[c] ==> exists r :: 0 <= r < n && !lineRows[r] && m[r][c] == 0
    ensures forall r :: 0 <= r < n && !lineRows[r] && RowTaken(zeros, r) ==>
              exists k :: 0 <= k < |zeros| && zeros[k].row == r && lineCols[zeros[k].col]
    ensures LeastCover(m, n, zeros, lineRows, lineCols)
  {
    var markedRows := new bool[n](r => !RowTaken(zeros, r));
    var markedCols := new bool[n](_ => false);
    var changed := true;
    while changed
      invariant markedRows.Length == n && markedCols.Length == n
      invariant forall r :: 0 <= r < n && !RowTaken(zeros, r) ==> markedRows[r]
      invariant forall c :: 0 <= c < n && markedCols[c] ==> ColumnReached(m, n, markedRows[..], c)
      invariant forall r :: 0 <= r < n && markedRows[r] && RowTaken(zeros, r) ==>
                  RowReached(zeros, n, markedCols[..], r)
      invariant !changed ==> ColumnsClosed(m, n, markedRows[..], markedCols[..])
                             && RowsClosed(zeros, n, markedRows[..], markedCols[..])
      invariant forall rs, cs :: ClosedMarking(m, n, zeros, rs, cs) ==>
                  Grown(markedRows[..], rs) && Grown(markedCols[..], cs)
      decreases Count(markedRows[..], false) + Count(markedCols[..], false) + (if changed then 1 else 0)
    {
      ghost var rows0, cols0 := markedRows[..], markedCols[..];
      var colsChanged := MarkColumns(m, n, markedRows, markedCols);
      ghost var cols1 := markedCols[..];
      var rowsChanged := MarkRows(zeros, n, markedRows, markedCols);
      changed := colsChanged || rowsChanged;
      CountGrown(rows0, markedRows[..]);
      CountGrown(cols0, cols1);
      ReachedGrown(m, n, zeros, rows0, markedRows[..], cols0, cols1);
      forall rs, cs | ClosedMarking(m, n, zeros, rs, cs)
        ensures Grown(markedRows[..], rs) && Grown(markedCols[..], cs)
      {
        StayInside(m, n, zeros, rs, cs, rows0, cols0, markedRows[..], cols1);
      }
    }
    var rowsFinal, colsFinal := markedRows[..], markedCols[..];
    lineRows := seq(n, r requires 0 <= r < n => !rowsFinal[r]);
    lineCols := colsFinal;
    assert Undrawn(lineRows) == rowsFinal;
  }

  /** Both kinds of justification survive when the flags only grow. */
  lemma ReachedGrown(m: Matrix, n: nat, zeros: seq<Cell>, rows0: seq<bool>, rows1: seq<bool>,
                     cols0: seq<bool>, cols1: seq<bool>)
    requires IsGrid(m, n, n) && WithinBounds(zeros, n, n)
    requires |rows0| == n && Grown(rows0, rows1) && |cols0| == n && Grown(cols0, cols1)
    ensures forall c :: 0 <= c < n && ColumnReached(m, n, rows0, c) ==> ColumnReached(m, n, rows1, c)
    ensures forall r :: 0 <= r < n && RowReached(zeros, n, cols0, r) ==> RowReached(zeros, n, cols1, r)
  {
    forall c | 0 <= c < n && ColumnReached(m, n, rows0, c) ensures ColumnReached(m, n, rows1, c) {
      var r :| 0 <= r < n && rows0[r] && m[r][c] == 0;
      assert rows1[r];
    }
    forall r | 0 <= r < n && RowReached(zeros, n, cols0, r) ensures RowReached(zeros, n, cols1, r) {
      var k :| 0 <= k < |zeros| && zeros[k].row == r && cols0[zeros[k].col];
      assert cols1[zeros[k].col];
    }
  }

  /**
   * For distinct values below n, the positions i < n that are among the values and satisfy
   * `p` number as many as the values that satisfy `p`.
   */
  lemma {:induction false} CountHits(vals: seq<nat>, n: nat, p: seq<bool>, hits: seq<bool>, picked: seq<bool>)
    requires |p| == n && Distinct(vals)
    requires forall k :: 0 <= k < |vals| ==> vals[k] < n
    requires |hits| == n && forall i :: 0 <= i < n ==> hits[i] == (p[i] && i in vals)
    requires |picked| == |vals| && forall k :: 0 <= k < |vals| ==> picked[k] == p[vals[k]]
    ensures Count(hits, true) == Count(picked, true)
  {
    if vals == [] {
      CountNone(hits);
    } else {
      var last := |vals| - 1;
      var v, init := vals[last], vals[..last];
      assert v !in init;
      var hits0 := seq(n, i requires 0 <= i < n => p[i] && i in init);
      assert hits == hits0[v := p[v]] by {
        assert forall i :: 0 <= i < n ==> (i in vals <==> i in init || i == v);
      }
      CountUpdate(hits0, v, p[v], true);
      CountHits(init, n, p, hits0, picked[..last]);
    }
  }

  /** For each independent zero, whether its column carries a line. */
  function OnColumnLine(zeros: seq<Cell>, lineCols: seq<bool>): (x: seq<bool>)
    requires forall k :: 0 <= k < |zeros| ==> zeros[k].col < |lineCols|
    ensures |x| == |zeros| && forall k :: 0 <= k < |zeros| ==> x[k] == lineCols[zeros[k].col]
  {
    seq(|zeros|, k requires 0 <= k < |zeros| => lineCols[zeros[k].col])
  }

  /** Column lines that hold no independent zero. */
  function UnmatchedLines(zeros: seq<Cell>, lineCols: seq<bool>): (u: seq<bool>)
    ensures |u| == |lineCols|
    ensures forall c :: 0 <= c < |lineCols| ==> (u[c] <==> lineCols[c] && !ColTaken(zeros, c))
  {
    seq(|lineCols|, c requires 0 <= c < |lineCols| => lineCols[c] && !ColTaken(zeros, c))
  }

  /** Row lines are as many as the independent zeros whose column carries no line. */
  lemma RowLineCount(n: nat, zeros: seq<Cell>, lineRows: seq<bool>, lineCols: seq<bool>)
    requires WithinBounds(zeros, n, n) && Independent(zeros)
    requires |lineRows| == n && |lineCols| == n
    requires forall r :: 0 <= r < n && lineRows[r] ==> RowTaken(zeros, r)
    requires forall k :: 0 <= k < |zeros| ==> (lineRows[zeros[k].row] <==> !lineCols[zeros[k].col])
    ensures Count(lineRows, true) == Count(OnColumnLine(zeros, lineCols), false)
  {
    var rs := RowsOf(zeros);
    var x := OnColumnLine(zeros, lineCols);
    forall r | 0 <= r < n && lineRows[r] ensures r in rs {
      var k :| 0 <= k < |zeros| && zeros[k].row == r;
      assert rs[k] == r;
    }
    var notX := seq(|x|, k requires 0 <= k < |x| => !x[k]);
    CountHits(rs, n, lineRows, lineRows, notX);
    CountNegate(x, notX);
  }

  /** Column lines are those holding an independent zero plus the unmatched ones. */
  lemma ColumnLineCount(n: nat, zeros: seq<Cell>, lineCols: seq<bool>)
    requires WithinBounds(zeros, n, n) && Independent(zeros) && |lineCols| == n
    ensures Count(lineCols, true) == Count(OnColumnLine(zeros, lineCols), true)
                                     + Count(UnmatchedLines(zeros, lineCols), true)
  {
    var cs := ColsOf(zeros);
    var taken := seq(n, c requires 0 <= c < n => c in cs);
    var hits := seq(n, c requires 0 <= c < n => lineCols[c] && c in cs);
    forall c | 0 <= c < n ensures c in cs <==> ColTaken(zeros, c) {
      InColsOf(zeros, c);
    }
    SplitCount(lineCols, taken, hits, UnmatchedLines(zeros, lineCols));
    CountHits(cs, n, lineCols, hits, OnColumnLine(zeros, lineCols));
  }

  /** A column is among the columns of a list of cells exactly when some cell stands in it. */
  lemma InColsOf(cells: seq<Cell>, c: nat)
    ensures c in ColsOf(cells) <==> ColTaken(cells, c)
  {
    var cs := ColsOf(cells);
    if ColTaken(cells, c) {
      var k :| 0 <= k < |cells| && cells[k].col == c;
      assert cs[k] == c;
    }
  }

  /**
   * The number of lines equals the number of independent zeros plus the column lines that
   * hold no independent zero: each independent zero lies on exactly one line, every row line
   * holds one, and the remaining column lines hold none. When every column line holds an
   * independent zero (as it does for a maximum set of independent zeros), the lines number
   * exactly as many as the independent zeros.
   */
  lemma LineCount(m: Matrix, n: nat, zeros: seq<Cell>, lineRows: seq<bool>, lineCols: seq<bool>)
    requires IsGrid(m, n, n) && WithinBounds(zeros, n, n) && Independent(zeros)
    requires forall k :: 0 <= k < |zeros| ==> m[zeros[k].row][zeros[k].col] == 0
    requires |lineRows| == n && |lineCols| == n
    requires forall r, c :: 0 <= r < n && 0 <= c < n && m[r][c] == 0 ==> lineRows[r] || lineCols[c]
    requires forall r :: 0 <= r < n && lineRows[r] ==> RowTaken(zeros, r)
    requires forall k :: 0 <= k < |zeros| && lineCols[zeros[k].col] ==> !lineRows[zeros[k].row]
    ensures Count(lineRows, true) + Count(lineCols, true)
            == |zeros| + Count(UnmatchedLines(zeros, lineCols), true)
  {
    forall k | 0 <= k < |zeros| ensures lineRows[zeros[k].row] <==> !lineCols[zeros[k].col] {
      assert m[zeros[k].row][zeros[k].col] == 0;
    }
    RowLineCount(n, zeros, lineRows, lineCols);
    ColumnLineCount(n, zeros, lineCols);
    CountBoth(OnColumnLine(zeros, lineCols));
  }
}
