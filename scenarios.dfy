/** Worked inputs of `simplify_matrix_fraction` and of the fraction operations, evaluated
    exactly against any valid prime table. */
module Scenarios {
  import opened Primes
  import opened Fractions
  import opened Elimination
  import opened Idempotence

  /** A row of whole numbers, as `read_matrix_fraction` stores `n` without a `/`. */
  function Whole(xs: seq<int>): (r: seq<Fraction>)
    ensures |r| == |xs| && forall i :: 0 <= i < |xs| ==> r[i] == FromInt(xs[i])
  {
    seq(|xs|, i requires 0 <= i < |xs| => FromInt(xs[i]))
  }

  /** `1/2 * 2/1` reduces to `1/1` through the `|n| == d` shortcut. */
  lemma MulExample(t: seq<int>)
    requires ValidTable(t)
    ensures Mul(t, Fraction(1, 2), Fraction(2, 1)) == FromInt(1)
  {
    ReduceUnit(t, Fraction(2, 2));
  }

  /** `fraction_div` by a zero numerator is not caught: `1/1 div 0/5` yields `5/0`. */
  lemma DivByZeroExample(t: seq<int>)
    requires ValidTable(t)
    ensures Div(t, FromInt(1), Fraction(0, 5)) == Fraction(5, 0)
  {
  }

  /** How far `reduction` gets depends on the table: with no primes `2/4` stays as it is, with
      the table `2, 0` it becomes `1/2`. Both stand for the same value. */
  lemma ReductionDependsOnTable()
    ensures ValidTable([0]) && ValidTable([2, 0])
    ensures Reduce([0], Fraction(2, 4)) == Fraction(2, 4)
    ensures Reduce([2, 0], Fraction(2, 4)) == Fraction(1, 2)
  {
    assert IsPrime(2);
    assert Listed([2, 0], 0);
    assert DivideOut(Fraction(1, 2), 2) == Fraction(1, 2);
    assert DivideOut(Fraction(2, 4), 2) == Fraction(1, 2);
  }

  lemma MulWhole(t: seq<int>, a: int, b: int)
    requires ValidTable(t)
    ensures Mul(t, FromInt(a), FromInt(b)) == FromInt(a * b)
  {
    if a * b != 0 {
      FromIntReduced(t, a * b);
    }
  }

  lemma SubWhole(t: seq<int>, a: int, b: int)
    requires ValidTable(t)
    ensures Sub(t, FromInt(a), FromInt(b)) == FromInt(a - b)
  {
    if a - b != 0 {
      FromIntReduced(t, a - b);
    }
  }

  /** `x + y = 3, x - y = 1` becomes `x = 2, y = 1`. */
  lemma SolvesTwoByTwo(t: seq<int>)
    requires ValidTable(t)
    ensures Simplified(t, [Whole([1, 1, 3]), Whole([1, -1, 1])], 3) == [Whole([1, 0, 2]), Whole([0, 1, 1])]
  {
    var m := [Whole([1, 1, 3]), Whole([1, -1, 1])];
    var f1 := [Whole([1, 1, 3]), Whole([0, -2, -2])];
    var f2 := [Whole([1, 1, 3]), Whole([0, 1, 1])];
    TwoByTwoFirstColumn(t);
    TwoByTwoSecondColumn(t);
    assert Forward(t, m, 3, 0) == f2;
    TwoByTwoBack(t);
  }

  lemma TwoByTwoFirstColumn(t: seq<int>)
    requires ValidTable(t)
    ensures ForwardStep(t, [Whole([1, 1, 3]), Whole([1, -1, 1])], 3, 0) == [Whole([1, 1, 3]), Whole([0, -2, -2])]
  {
    var m := [Whole([1, 1, 3]), Whole([1, -1, 1])];
    FromIntReduced(t, 1);
    assert Div(t, FromInt(1), FromInt(1)) == FromInt(1);
    MulWhole(t, 1, 1);
    MulWhole(t, 3, 1);
    assert ScaleRow(t, m[0], 0, FromInt(1)) == m[0];
    assert Normalize(t, m, 3, 0) == m;
    SubWhole(t, -1, 1);
    SubWhole(t, 1, 3);
    assert EliminateRow(t, m[1], m[0], 0) == Whole([0, -2, -2]);
  }

  lemma TwoByTwoSecondColumn(t: seq<int>)
    requires ValidTable(t)
    ensures ForwardStep(t, [Whole([1, 1, 3]), Whole([0, -2, -2])], 3, 1) == [Whole([1, 1, 3]), Whole([0, 1, 1])]
  {
    var f1 := [Whole([1, 1, 3]), Whole([0, -2, -2])];
    var half := Fraction(-1, 2);
    ReduceSmallPart(t, half);
    assert Div(t, FromInt(1), FromInt(-2)) == half;
    ReduceUnit(t, Fraction(2, 2));
    assert Mul(t, FromInt(-2), half) == FromInt(1);
    assert ScaleRow(t, f1[1], 1, half) == Whole([0, 1, 1]);
  }

  lemma TwoByTwoBack(t: seq<int>)
    requires ValidTable(t)
    ensures BackStep(t, [Whole([1, 1, 3]), Whole([0, 1, 1])], 3, 1) == [Whole([1, 0, 2]), Whole([0, 1, 1])]
  {
    var f2 := [Whole([1, 1, 3]), Whole([0, 1, 1])];
    assert LeadingColumn(f2[1], 0) == 1;
    MulWhole(t, 1, 1);
    SubWhole(t, 3, 1);
    assert EliminateRow(t, f2[0], f2[1], 1) == Whole([1, 0, 2]);
  }

  /** `x + y = 2, 2x + 2y = 4`: the second row cancels to zeros and the back substitution
      leaves it alone. */
  lemma DependentRows(t: seq<int>)
    requires ValidTable(t)
    ensures Simplified(t, [Whole([1, 1, 2]), Whole([2, 2, 4])], 3) == [Whole([1, 1, 2]), Whole([0, 0, 0])]
  {
    var m := [Whole([1, 1, 2]), Whole([2, 2, 4])];
    var f := [Whole([1, 1, 2]), Whole([0, 0, 0])];
    DependentFirstColumn(t);
    assert PivotSearch(f, 3, 1) == f;
    assert ForwardStep(t, f, 3, 1) == f;
    assert Forward(t, m, 3, 0) == f;
    assert LeadingColumn(f[1], 0) == 2;
  }

  lemma DependentFirstColumn(t: seq<int>)
    requires ValidTable(t)
    ensures ForwardStep(t, [Whole([1, 1, 2]), Whole([2, 2, 4])], 3, 0) == [Whole([1, 1, 2]), Whole([0, 0, 0])]
  {
    var m := [Whole([1, 1, 2]), Whole([2, 2, 4])];
    FromIntReduced(t, 1);
    assert Div(t, FromInt(1), FromInt(1)) == FromInt(1);
    MulWhole(t, 1, 1);
    MulWhole(t, 2, 1);
    assert ScaleRow(t, m[0], 0, FromInt(1)) == m[0];
    assert Normalize(t, m, 3, 0) == m;
    MulWhole(t, 1, 2);
    MulWhole(t, 2, 2);
    SubWhole(t, 2, 2);
    SubWhole(t, 4, 4);
    assert EliminateRow(t, m[1], m[0], 0) == Whole([0, 0, 0]);
  }

  /** `x = 2, y = 1` is already in reduced row-echelon form and comes back unchanged. */
  lemma SolvedFormIsFixed(t: seq<int>)
    requires ValidTable(t)
    ensures Simplified(t, [Whole([1, 0, 2]), Whole([0, 1, 1])], 3) == [Whole([1, 0, 2]), Whole([0, 1, 1])]
  {
    var m := [Whole([1, 0, 2]), Whole([0, 1, 1])];
    assert Lead(m[0], 0) == 0;
    assert Lead(m[1], 0) == 1;
    FromIntReduced(t, 0);
    FromIntReduced(t, 1);
    FromIntReduced(t, 2);
    SimplifiedIdempotent(t, m, 3);
  }

  /** Because the row and column cursors advance together, `y = 1, y = 1` ends with a zero row
      above the row that keeps the pivot: the result is not in reduced row-echelon form. */
  lemma ZeroRowAbovePivot(t: seq<int>)
    requires ValidTable(t)
    ensures Simplified(t, [Whole([0, 1]), Whole([0, 1])], 2) == [Whole([0, 0]), Whole([0, 1])]
  {
    var m := [Whole([0, 1]), Whole([0, 1])];
    assert PivotSearch(m, 2, 0) == m;
    assert ForwardStep(t, m, 2, 0) == m;
    FromIntReduced(t, 1);
    assert Div(t, FromInt(1), FromInt(1)) == FromInt(1);
    MulWhole(t, 1, 1);
    assert ScaleRow(t, m[1], 1, FromInt(1)) == m[1];
    assert Normalize(t, m, 2, 1) == m;
    assert ForwardStep(t, m, 2, 1) == m;
    assert Forward(t, m, 2, 0) == m;
    assert LeadingColumn(m[1], 0) == 1;
    assert EliminateRow(t, m[0], m[1], 1) == Whole([0, 0]);
  }
}
