/** The back substitution uses the raw cell `matrix[y][x0]` as its multiplier, which removes
    the pivot's column only when the pivot is `1/1`. The forward elimination scales only the
    pivots it finds on the diagonal, so a row whose leading cell lies right of the diagonal
    keeps a pivot of any value. This module shows the discrepancy on a concrete grid and
    proves that the multiplier `matrix[y][x0] / matrix[y0][x0]` makes every written
    `int2type(0)` exact. */
module ScaledBackSubstitution {
  import opened Primes
  import opened Fractions
  import opened Elimination
  import opened Echelon
  import opened Scenarios

  // ---------------------------------------------------------------------------
  // As written

  /** As written, the `int2type(0)` that the back step for `y0` writes into a row above equals
      `sub(matrix[y][x0], mul(matrix[y0][x0], multiplier))` exactly when the pivot has the
      value 1. */
  lemma BackStepExactIffUnitPivot(t: seq<int>, m: Grid, columns: int, y0: int, y: int)
    requires ValidTable(t) && IsRect(m, columns) && WellFormed(m) && 0 <= y < y0 < |m| && columns >= 1
    requires !IsZero(m[y0][LeadingColumn(m[y0], 0)]) && !IsZero(m[y][LeadingColumn(m[y0], 0)])
    ensures var x0 := LeadingColumn(m[y0], 0); var r := BackStep(t, m, columns, y0);
      r[y][x0] == Sub(t, m[y][x0], Mul(t, m[y0][x0], m[y][x0])) <==> SameValue(m[y0][x0], FromInt(1))
  {
    var x0 := LeadingColumn(m[y0], 0);
    EliminateRangeSpec(t, m, columns, y0, x0, 0, y0);
    PredictedZeroIffUnitPivot(t, m[y][x0], m[y0][x0]);
  }

  /** The grid of `x + y + z = 1, 2z = 2`. */
  function OffDiagonalPivot(): Grid {
    [Whole([1, 1, 1, 1]), Whole([0, 0, 2, 2])]
  }

  /** As written, `simplify_matrix_fraction` turns `x + y + z = 1, 2z = 2` into
      `x + y = -1, 2z = 2`; the solution `x = y = 0, z = 1` of the input no longer fits. */
  lemma OffDiagonalPivotAsWritten(t: seq<int>)
    requires ValidTable(t)
    ensures Simplified(t, OffDiagonalPivot(), 4) == [Whole([1, 1, 0, -1]), Whole([0, 0, 2, 2])]
  {
    var m := OffDiagonalPivot();
    OffDiagonalForward(t);
    var row := EliminateRow(t, m[0], m[1], 2);
    MulWhole(t, 2, 1);
    SubWhole(t, 1, 2);
    assert row == Whole([1, 1, 0, -1]);
    assert LeadingColumn(m[1], 0) == 2;
  }

  /** The forward elimination leaves the grid as it is: the first pivot is already `1/1` and
      the second column has no pivot. */
  lemma OffDiagonalForward(t: seq<int>)
    requires ValidTable(t)
    ensures Forward(t, OffDiagonalPivot(), 4, 0) == OffDiagonalPivot()
  {
    var m := OffDiagonalPivot();
    FromIntReduced(t, 1);
    assert Div(t, FromInt(1), FromInt(1)) == FromInt(1);
    MulWhole(t, 1, 1);
    assert ScaleRow(t, m[0], 0, FromInt(1)) == m[0];
    assert Normalize(t, m, 4, 0) == m;
    assert ForwardStep(t, m, 4, 0) == m;
    assert PivotSearch(m, 4, 1) == m;
    assert ForwardStep(t, m, 4, 1) == m;
  }

  // ---------------------------------------------------------------------------
  // Corrected

  /** One row of the corrected back substitution: the multiplier is
      `div(row[col], pivotRow[col])`. */
  function ScaledEliminateRow(t: seq<int>, row: seq<Fraction>, pivotRow: seq<Fraction>, col: int): (r: seq<Fraction>)
    requires ValidTable(t) && 0 <= col < |row| && |pivotRow| == |row|
    ensures |r| == |row|
  {
    if IsZero(row[col]) then
      row
    else
      var multiplier := Div(t, row[col], pivotRow[col]);
      seq(|row|, x requires 0 <= x < |row| =>
        if x < col then row[x]
        else if x == col then FromInt(0)
        else Sub(t, row[x], Mul(t, pivotRow[x], multiplier)))
  }

  /** The corrected back step for row `y0`. */
  function ScaledBackStep(t: seq<int>, m: Grid, columns: int, y0: int): (r: Grid)
    requires ValidTable(t) && IsRect(m, columns) && 0 <= y0 < |m| && columns >= 1
    ensures |r| == |m| && IsRect(r, columns)
  {
    var x0 := LeadingColumn(m[y0], 0);
    if IsZero(m[y0][x0]) then m
    else seq(|m|, y requires 0 <= y < |m| => if y < y0 then ScaledEliminateRow(t, m[y], m[y0], x0) else m[y])
  }

  /** The corrected back substitution from row `y0` down to row 1. */
  function ScaledBack(t: seq<int>, m: Grid, columns: int, y0: int): (r: Grid)
    requires ValidTable(t) && IsRect(m, columns) && y0 < |m| && (y0 > 0 ==> columns >= 1)
    ensures |r| == |m| && IsRect(r, columns)
    decreases y0
  {
    if y0 > 0 then ScaledBack(t, ScaledBackStep(t, m, columns, y0), columns, y0 - 1) else m
  }

  /** `simplify_matrix_fraction` with the corrected back substitution. */
  function ScaledSimplified(t: seq<int>, m: Grid, columns: int): (r: Grid)
    requires ValidTable(t) && IsRect(m, columns)
    ensures |r| == |m| && IsRect(r, columns)
  {
    ScaledBack(t, Forward(t, m, columns, 0), columns, Min(|m|, columns) - 1)
  }

  /** With the corrected multiplier, every `int2type(0)` the back step writes is what the
      subtraction at the pivot column computes, whatever the pivot's value. */
  lemma ScaledBackStepExact(t: seq<int>, m: Grid, columns: int, y0: int)
    requires ValidTable(t) && IsRect(m, columns) && WellFormed(m) && 0 <= y0 < |m| && columns >= 1
    ensures var x0 := LeadingColumn(m[y0], 0); var r := ScaledBackStep(t, m, columns, y0);
      !IsZero(m[y0][x0]) ==>
        forall y :: 0 <= y < y0 && !IsZero(m[y][x0]) ==>
          r[y][x0] == FromInt(0) &&
          r[y][x0] == Sub(t, m[y][x0], Mul(t, m[y0][x0], Div(t, m[y][x0], m[y0][x0])))
  {
    var x0 := LeadingColumn(m[y0], 0);
    if !IsZero(m[y0][x0]) {
      forall y | 0 <= y < y0 && !IsZero(m[y][x0])
        ensures FromInt(0) == Sub(t, m[y][x0], Mul(t, m[y0][x0], Div(t, m[y][x0], m[y0][x0])))
      {
        ScaledPredictionExact(t, m[y][x0], m[y0][x0]);
      }
    }
  }

  /** Corrected, `x + y + z = 1, 2z = 2` becomes `x + y = 0, 2z = 2`. */
  lemma OffDiagonalPivotScaled(t: seq<int>)
    requires ValidTable(t)
    ensures ScaledSimplified(t, OffDiagonalPivot(), 4) == [Whole([1, 1, 0, 0]), Whole([0, 0, 2, 2])]
  {
    var m := OffDiagonalPivot();
    OffDiagonalForward(t);
    var half := Fraction(1, 2);
    ReduceSmallPart(t, half);
    assert Div(t, FromInt(1), FromInt(2)) == half;
    ReduceUnit(t, Fraction(2, 2));
    assert Mul(t, FromInt(2), half) == FromInt(1);
    SubWhole(t, 1, 1);
    var row := ScaledEliminateRow(t, m[0], m[1], 2);
    assert row == Whole([1, 1, 0, 0]);
    assert LeadingColumn(m[1], 0) == 2;
  }
}
