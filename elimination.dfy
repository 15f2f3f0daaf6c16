/** `simplify_matrix` as instantiated for `fraction`: forward elimination with a cursor whose
    two coordinates advance together, then back substitution from row `min(rows, columns) - 1`
    up to row 1. The grid is an array of distinct row arrays; a row swap exchanges row
    identities. Every method is proved against a function on the grid's cells. Line numbers
    in the comments refer to `matrixes.c`. */
module Elimination {
  import opened Primes
  import opened Fractions

  type Grid = seq<seq<Fraction>>

  /** Every row has `columns` cells. */
  ghost predicate IsRect(m: Grid, columns: int) {
    forall y :: 0 <= y < |m| ==> |m[y]| == columns
  }

  /** Every denominator is nonzero. */
  ghost predicate WellFormed(m: Grid) {
    forall y, x :: 0 <= y < |m| && 0 <= x < |m[y]| ==> m[y][x].den != 0
  }

  // ---------------------------------------------------------------------------
  // The specification, on the cells of the grid

  /** The row exchange of lines 179-181: rows `i` and `j` trade places, the others stay. */
  function Swap(m: Grid, i: int, j: int): (r: Grid)
    requires 0 <= i < |m| && 0 <= j < |m|
    ensures |r| == |m| && r[i] == m[j] && r[j] == m[i]
    ensures forall y :: 0 <= y < |m| && y != i && y != j ==> r[y] == m[y]
  {
    m[i := m[j]][j := m[i]]
  }

  /** The pivot row scaled: `matrix[y0][x] = mul(matrix[y0][x], multiplier)` for `x >= from`. */
  function ScaleRow(t: seq<int>, row: seq<Fraction>, from: int, c: Fraction): (r: seq<Fraction>)
    requires ValidTable(t)
    ensures |r| == |row|
  {
    seq(|row|, x requires 0 <= x < |row| => if x < from then row[x] else Mul(t, row[x], c))
  }

  /** One row of either elimination loop: unless `row[col]` is zero, that cell becomes
      `int2type(0)` and every later cell `x` loses `pivotRow[x] * row[col]`. */
  function EliminateRow(t: seq<int>, row: seq<Fraction>, pivotRow: seq<Fraction>, col: int): (r: seq<Fraction>)
    requires ValidTable(t) && 0 <= col < |row| && |pivotRow| == |row|
    ensures |r| == |row|
  {
    if IsZero(row[col]) then
      row
    else
      seq(|row|, x requires 0 <= x < |row| =>
        if x < col then row[x]
        else if x == col then FromInt(0)
        else Sub(t, row[x], Mul(t, pivotRow[x], row[col])))
  }

  /** `EliminateRow` against row `pivot` on every row with index in `[lo, hi)`. */
  function EliminateRange(t: seq<int>, m: Grid, columns: int, pivot: int, col: int, lo: int, hi: int): (r: Grid)
    requires ValidTable(t) && IsRect(m, columns) && 0 <= pivot < |m| && 0 <= col < columns
    ensures |r| == |m| && IsRect(r, columns)
  {
    seq(|m|, y requires 0 <= y < |m| => if lo <= y < hi then EliminateRow(t, m[y], m[pivot], col) else m[y])
  }

  /** The first row at or after `y` whose cell in column `col` is nonzero, or `|m|`. */
  function FirstNonzeroRow(m: Grid, columns: int, col: int, y: int): (r: int)
    requires IsRect(m, columns) && 0 <= col < columns && 0 <= y <= |m|
    ensures y <= r <= |m|
    ensures r < |m| ==> !IsZero(m[r][col])
    ensures forall k :: y <= k < r ==> IsZero(m[k][col])
    decreases |m| - y
  {
    if y == |m| then |m|
    else if !IsZero(m[y][col]) then y
    else FirstNonzeroRow(m, columns, col, y + 1)
  }

  /** The pivot search: a zero `m[p][p]` is exchanged with the first later row that is
      nonzero in column `p`, if there is one. */
  function PivotSearch(m: Grid, columns: int, p: int): (r: Grid)
    requires IsRect(m, columns) && 0 <= p < |m| && p < columns
    ensures |r| == |m| && IsRect(r, columns)
  {
    if !IsZero(m[p][p]) then m
    else
      var y := FirstNonzeroRow(m, columns, p, p + 1);
      if y < |m| then Swap(m, p, y) else m
  }

  /** The row `p` after `multiplier = div(int2type(1), matrix[p][p])` and the scaling loop. */
  function Normalize(t: seq<int>, m: Grid, columns: int, p: int): (r: Grid)
    requires ValidTable(t) && IsRect(m, columns) && 0 <= p < |m| && p < columns
    ensures |r| == |m| && IsRect(r, columns)
  {
    m[p := ScaleRow(t, m[p], p, Div(t, FromInt(1), m[p][p]))]
  }

  /** One iteration of the forward elimination, at cursor `x0 == y0 == p`. */
  function ForwardStep(t: seq<int>, m: Grid, columns: int, p: int): (r: Grid)
    requires ValidTable(t) && IsRect(m, columns) && 0 <= p < |m| && p < columns
    ensures |r| == |m| && IsRect(r, columns)
  {
    var m1 := PivotSearch(m, columns, p);
    if IsZero(m1[p][p]) then m1
    else EliminateRange(t, Normalize(t, m1, columns, p), columns, p, p, p + 1, |m|)
  }

  /** The forward elimination from cursor `p` on. */
  function Forward(t: seq<int>, m: Grid, columns: int, p: nat): (r: Grid)
    requires ValidTable(t) && IsRect(m, columns)
    ensures |r| == |m| && IsRect(r, columns)
    decreases |m| - p
  {
    if p < |m| && p < columns then Forward(t, ForwardStep(t, m, columns, p), columns, p + 1) else m
  }

  /** The pivot scan of the back substitution: the first nonzero cell before the last column,
      or the last column when there is none. */
  function LeadingColumn(row: seq<Fraction>, x: nat): (r: nat)
    requires x < |row|
    ensures x <= r < |row|
    ensures forall k :: x <= k < r ==> IsZero(row[k])
    ensures r < |row| - 1 ==> !IsZero(row[r])
    decreases |row| - x
  {
    if x < |row| - 1 && IsZero(row[x]) then LeadingColumn(row, x + 1) else x
  }

  /** One iteration of the back substitution, for row `y0`. */
  function BackStep(t: seq<int>, m: Grid, columns: int, y0: int): (r: Grid)
    requires ValidTable(t) && IsRect(m, columns) && 0 <= y0 < |m| && columns >= 1
    ensures |r| == |m| && IsRect(r, columns)
  {
    var x0 := LeadingColumn(m[y0], 0);
    if IsZero(m[y0][x0]) then m else EliminateRange(t, m, columns, y0, x0, 0, y0)
  }

  /** The back substitution from row `y0` down to row 1. */
  function Back(t: seq<int>, m: Grid, columns: int, y0: int): (r: Grid)
    requires ValidTable(t) && IsRect(m, columns) && y0 < |m| && (y0 > 0 ==> columns >= 1)
    ensures |r| == |m| && IsRect(r, columns)
    decreases y0
  {
    if y0 > 0 then Back(t, BackStep(t, m, columns, y0), columns, y0 - 1) else m
  }

  /** The whole of `simplify_matrix_fraction`. */
  function Simplified(t: seq<int>, m: Grid, columns: int): (r: Grid)
    requires ValidTable(t) && IsRect(m, columns)
    ensures |r| == |m| && IsRect(r, columns)
  {
    Back(t, Forward(t, m, columns, 0), columns, Min(|m|, columns) - 1)
  }

  // ---------------------------------------------------------------------------
  // The program, on an array of row arrays

  /** Every row has `columns` cells and no two rows share storage. */
  ghost predicate DistinctRows(rows: seq<array<Fraction>>, columns: int) {
    && columns >= 0
    && (forall y :: 0 <= y < |rows| ==> rows[y].Length == columns)
    && (forall y, z :: 0 <= y < |rows| && 0 <= z < |rows| && y != z ==> rows[y] != rows[z])
  }

  ghost predicate IsMatrix(matrix: array<array<Fraction>>, columns: int)
    reads matrix
  {
    DistinctRows(matrix[..], columns)
  }

  ghost function RowSet(matrix: array<array<Fraction>>): set<array<Fraction>>
    reads matrix
  {
    set r | r in matrix[..]
  }

  ghost function Cells(matrix: array<array<Fraction>>): (m: Grid)
    reads matrix, RowSet(matrix)
    ensures |m| == matrix.Length
  {
    seq(matrix.Length, y requires 0 <= y < matrix.Length reads matrix, RowSet(matrix) => matrix[y][..])
  }

  /** Exchanging two rows keeps them distinct and keeps the set of rows. */
  lemma SwapKeepsRows(rows: seq<array<Fraction>>, swapped: seq<array<Fraction>>, columns: int, i: int, j: int)
    requires DistinctRows(rows, columns) && 0 <= i < |rows| && 0 <= j < |rows|
    requires swapped == rows[i := rows[j]][j := rows[i]]
    ensures DistinctRows(swapped, columns)
    ensures (set r | r in swapped) == (set r | r in rows)
  {
    forall y | 0 <= y < |rows|
      ensures swapped[y] == rows[Swapped(i, j, y)] && rows[y] == swapped[Swapped(i, j, y)]
    {
    }
    forall y, z | 0 <= y < |rows| && 0 <= z < |rows| && y != z
      ensures swapped[y] != swapped[z]
    {
      assert Swapped(i, j, y) != Swapped(i, j, z);
    }
  }

  /** Where row `y` comes from when rows `i` and `j` trade places. */
  function Swapped(i: int, j: int, y: int): int {
    if y == i then j else if y == j then i else y
  }

  /** The row exchange of the pivot search: the two row references trade places. */
  method SwapRows(matrix: array<array<Fraction>>, ghost columns: int, i: int, j: int)
    requires IsMatrix(matrix, columns) && 0 <= i < matrix.Length && 0 <= j < matrix.Length
    modifies matrix
    ensures IsMatrix(matrix, columns) && RowSet(matrix) == old(RowSet(matrix))
    ensures Cells(matrix) == Swap(old(Cells(matrix)), i, j)
  {
    var tmp := matrix[i];
    matrix[i] := matrix[j];
    matrix[j] := tmp;
    SwapKeepsRows(old(matrix[..]), matrix[..], columns, i, j);
    forall y | 0 <= y < matrix.Length
      ensures Cells(matrix)[y] == Swap(old(Cells(matrix)), i, j)[y]
    {
      assert matrix[y] == old(matrix[Swapped(i, j, y)]);
    }
  }

  /** Lines 176-183: when the pivot cell is zero, swap in the first later row that is nonzero
      in the pivot column. */
  method SearchPivot(matrix: array<array<Fraction>>, columns: int, p: int)
    requires IsMatrix(matrix, columns) && 0 <= p < matrix.Length && p < columns
    modifies matrix
    ensures IsMatrix(matrix, columns) && RowSet(matrix) == old(RowSet(matrix))
    ensures Cells(matrix) == PivotSearch(old(Cells(matrix)), columns, p)
  {
    ghost var m := Cells(matrix);
    if IsZero(matrix[p][p]) {
      var y := p + 1;
      while y < matrix.Length
        invariant p + 1 <= y <= matrix.Length
        invariant matrix[..] == old(matrix[..])
        invariant FirstNonzeroRow(m, columns, p, y) == FirstNonzeroRow(m, columns, p, p + 1)
      {
        if !IsZero(matrix[y][p]) {
          SwapRows(matrix, columns, p, y);
          break;
        }
        y := y + 1;
      }
    }
  }

  /** Lines 188-189: every cell of the pivot row from column `from` on is multiplied by `multiplier`. */
  method ScalePivotRow(t: seq<int>, row: array<Fraction>, from: int, multiplier: Fraction)
    requires ValidTable(t) && 0 <= from <= row.Length
    modifies row
    ensures row[..] == ScaleRow(t, old(row[..]), from, multiplier)
  {
    var x := from;
    while x < row.Length
      invariant from <= x <= row.Length
      invariant forall k :: 0 <= k < row.Length ==>
        row[k] == (if from <= k < x then Mul(t, old(row[k]), multiplier) else old(row[k]))
    {
      var product := FractionMul(t, row[x], multiplier);
      row[x] := product;
      x := x + 1;
    }
  }

  /** Lines 192-196 and 206-210: a row that is nonzero in column `col` gets `int2type(0)` there
      and loses `pivotRow[x] * multiplier` in every later column. */
  method SubtractPivotRow(t: seq<int>, row: array<Fraction>, pivotRow: array<Fraction>, col: int)
    requires ValidTable(t) && row != pivotRow && row.Length == pivotRow.Length && 0 <= col < row.Length
    modifies row
    ensures row[..] == EliminateRow(t, old(row[..]), pivotRow[..], col)
  {
    if !IsZero(row[col]) {
      var multiplier := row[col];
      row[col] := FromInt(0);
      var x := col + 1;
      while x < row.Length
        invariant col + 1 <= x <= row.Length
        invariant forall k :: 0 <= k < row.Length ==>
          row[k] == (if k < col then old(row[k])
                     else if k == col then FromInt(0)
                     else if k < x then Sub(t, old(row[k]), Mul(t, pivotRow[k], multiplier))
                     else old(row[k]))
      {
        var product := FractionMul(t, pivotRow[x], multiplier);
        var difference := FractionSub(t, row[x], product);
        row[x] := difference;
        x := x + 1;
      }
    }
  }

  /** Lines 191-197: every row below the pivot row is eliminated against it. */
  method EliminateBelowPivot(t: seq<int>, matrix: array<array<Fraction>>, columns: int, p: int)
    requires ValidTable(t) && IsMatrix(matrix, columns) && 0 <= p < matrix.Length && p < columns
    modifies RowSet(matrix)
    ensures Cells(matrix) == EliminateRange(t, old(Cells(matrix)), columns, p, p, p + 1, matrix.Length)
  {
    ghost var m := Cells(matrix);
    var y := p + 1;
    while y < matrix.Length
      invariant p + 1 <= y <= matrix.Length
      invariant Cells(matrix) == EliminateRange(t, m, columns, p, p, p + 1, y)
    {
      ghost var before := Cells(matrix);
      assert before[y] == m[y] && before[p] == m[p];
      SubtractPivotRow(t, matrix[y], matrix[p], p);
      assert matrix[p][..] == before[p];
      assert Cells(matrix) == before[y := EliminateRow(t, m[y], m[p], p)];
      y := y + 1;
    }
  }

  /** Lines 205-211: every row above row `y0` is eliminated against it, from `y0 - 1` down to 0. */
  method EliminateAbovePivot(t: seq<int>, matrix: array<array<Fraction>>, columns: int, y0: int, x0: int)
    requires ValidTable(t) && IsMatrix(matrix, columns) && 0 <= y0 < matrix.Length && 0 <= x0 < columns
    modifies RowSet(matrix)
    ensures Cells(matrix) == EliminateRange(t, old(Cells(matrix)), columns, y0, x0, 0, y0)
  {
    ghost var m := Cells(matrix);
    var y := y0 - 1;
    while y >= 0
      invariant -1 <= y < y0
      invariant Cells(matrix) == EliminateRange(t, m, columns, y0, x0, y + 1, y0)
    {
      ghost var before := Cells(matrix);
      assert before[y] == m[y] && before[y0] == m[y0];
      SubtractPivotRow(t, matrix[y], matrix[y0], x0);
      assert matrix[y0][..] == before[y0];
      assert Cells(matrix) == before[y := EliminateRow(t, m[y], m[y0], x0)];
      y := y - 1;
    }
  }

  /** Line 201: the pivot scan of the back substitution stops at column `columns - 1`. */
  method FindPivotColumn(row: array<Fraction>) returns (x0: nat)
    requires row.Length >= 1
    ensures x0 == LeadingColumn(row[..], 0)
  {
    x0 := 0;
    while x0 < row.Length - 1 && IsZero(row[x0])
      invariant 0 <= x0 < row.Length
      invariant LeadingColumn(row[..], x0) == LeadingColumn(row[..], 0)
    {
      x0 := x0 + 1;
    }
  }

  /** Lines 176-197: one iteration of the forward elimination, at cursor `x0 == y0 == p`. */
  method ForwardIteration(t: seq<int>, matrix: array<array<Fraction>>, columns: int, p: int)
    requires ValidTable(t) && IsMatrix(matrix, columns) && 0 <= p < matrix.Length && p < columns
    modifies matrix, RowSet(matrix)
    ensures IsMatrix(matrix, columns) && RowSet(matrix) == old(RowSet(matrix))
    ensures Cells(matrix) == ForwardStep(t, old(Cells(matrix)), columns, p)
  {
    SearchPivot(matrix, columns, p);
    if !IsZero(matrix[p][p]) {
      var multiplier := FractionDiv(t, FromInt(1), matrix[p][p]);
      ghost var searched := Cells(matrix);
      ScalePivotRow(t, matrix[p], p, multiplier);
      assert Cells(matrix) == Normalize(t, searched, columns, p);
      EliminateBelowPivot(t, matrix, columns, p);
    }
  }

  /** Lines 201-211: one iteration of the back substitution, for row `y0`. */
  method BackIteration(t: seq<int>, matrix: array<array<Fraction>>, columns: int, y0: int)
    requires ValidTable(t) && IsMatrix(matrix, columns) && 0 <= y0 < matrix.Length && columns >= 1
    modifies RowSet(matrix)
    ensures Cells(matrix) == BackStep(t, old(Cells(matrix)), columns, y0)
  {
    var x0 := FindPivotColumn(matrix[y0]);
    if !IsZero(matrix[y0][x0]) {
      EliminateAbovePivot(t, matrix, columns, y0, x0);
    }
  }

  /** `tr` lists the grids the forward elimination passes through from `m`: `tr[k]` is the
      grid when the cursor reaches `k`. */
  ghost predicate IsForwardTrace(t: seq<int>, m: Grid, columns: int, tr: seq<Grid>) {
    && ValidTable(t) && IsRect(m, columns)
    && 1 <= |tr| <= |m| + 1 && |tr| <= columns + 1 && tr[0] == m
    && (forall k :: 0 <= k < |tr| ==> |tr[k]| == |m| && IsRect(tr[k], columns))
    && (forall k {:trigger ForwardStep(t, tr[k], columns, k)} :: 0 <= k < |tr| - 1 ==>
          tr[k + 1] == ForwardStep(t, tr[k], columns, k))
  }

  /** The first `n` forward steps from `m`. */
  lemma {:induction false} ForwardTraceOf(t: seq<int>, m: Grid, columns: int, n: nat) returns (tr: seq<Grid>)
    requires ValidTable(t) && IsRect(m, columns) && n <= |m| && n <= columns
    ensures IsForwardTrace(t, m, columns, tr) && |tr| == n + 1
  {
    if n == 0 {
      tr := [m];
    } else {
      var prev := ForwardTraceOf(t, m, columns, n - 1);
      tr := prev + [ForwardStep(t, prev[n - 1], columns, n - 1)];
      forall k | 0 <= k < n
        ensures tr[k + 1] == ForwardStep(t, tr[k], columns, k)
      {
        if k < n - 1 {
          assert tr[k] == prev[k] && tr[k + 1] == prev[k + 1];
          assert prev[k + 1] == ForwardStep(t, prev[k], columns, k);
        }
      }
    }
  }

  /** What remains of the forward elimination from any grid of the trace is the same. */
  lemma {:induction false} ForwardTraceRest(t: seq<int>, m: Grid, columns: int, tr: seq<Grid>, k: nat)
    requires IsForwardTrace(t, m, columns, tr) && k < |tr|
    ensures Forward(t, tr[k], columns, k) == Forward(t, m, columns, 0)
  {
    if k > 0 {
      ForwardTraceRest(t, m, columns, tr, k - 1);
      assert tr[k] == ForwardStep(t, tr[k - 1], columns, k - 1);
    }
  }

  /** A trace as long as the cursor's run ends where the forward elimination ends. */
  lemma ForwardTraceEnds(t: seq<int>, m: Grid, columns: int, tr: seq<Grid>)
    requires IsForwardTrace(t, m, columns, tr) && |tr| == Min(|m|, columns) + 1
    ensures tr[|tr| - 1] == Forward(t, m, columns, 0)
  {
    ForwardTraceRest(t, m, columns, tr, |tr| - 1);
  }

  /** Lines 174-198: the forward elimination, with the cursor `x0 == y0` advancing until it
      leaves the grid; returns where it stopped, `min(rows, columns)`. */
  method ForwardElimination(t: seq<int>, rows: int, columns: int, matrix: array<array<Fraction>>) returns (y0: int)
    requires ValidTable(t) && rows == matrix.Length && IsMatrix(matrix, columns)
    modifies matrix, RowSet(matrix)
    ensures IsMatrix(matrix, columns) && RowSet(matrix) == old(RowSet(matrix))
    ensures y0 == Min(rows, columns)
    ensures Cells(matrix) == Forward(t, old(Cells(matrix)), columns, 0)
  {
    ghost var start := Cells(matrix);
    ghost var rowSet := RowSet(matrix);
    ghost var trace := ForwardTraceOf(t, start, columns, Min(rows, columns));
    var x0 := 0;
    y0 := 0;
    while x0 < columns && y0 < rows
      invariant 0 <= x0 == y0 <= Min(rows, columns)
      invariant IsMatrix(matrix, columns) && RowSet(matrix) == rowSet
      invariant Cells(matrix) == trace[y0]
    {
      ForwardIteration(t, matrix, columns, y0);
      x0, y0 := x0 + 1, y0 + 1;
    }
    assert Cells(matrix) == trace[|trace| - 1];
    ForwardTraceEnds(t, start, columns, trace);
  }

  /** Lines 199-212: the back substitution from row `y0` up to row 1. */
  method BackSubstitution(t: seq<int>, columns: int, matrix: array<array<Fraction>>, y0: int)
    requires ValidTable(t) && IsMatrix(matrix, columns) && y0 < matrix.Length && (y0 > 0 ==> columns >= 1)
    modifies RowSet(matrix)
    ensures Cells(matrix) == Back(t, old(Cells(matrix)), columns, y0)
  {
    var y := y0;
    while y > 0
      invariant y <= y0
      invariant Back(t, Cells(matrix), columns, y) == Back(t, old(Cells(matrix)), columns, y0)
    {
      BackIteration(t, matrix, columns, y);
      y := y - 1;
    }
  }

  /** `simplify_matrix_fraction(rows, columns, matrix)`, with the prime table passed in. */
  method SimplifyMatrix(t: seq<int>, rows: int, columns: int, matrix: array<array<Fraction>>)
    requires ValidTable(t) && rows == matrix.Length && IsMatrix(matrix, columns)
    modifies matrix, RowSet(matrix)
    ensures IsMatrix(matrix, columns) && RowSet(matrix) == old(RowSet(matrix))
    ensures Cells(matrix) == Simplified(t, old(Cells(matrix)), columns)
  {
    var y0 := ForwardElimination(t, rows, columns, matrix);
    BackSubstitution(t, columns, matrix, y0 - 1);
  }
}
