/** `simplify_matrix_fraction` leaves a grid alone when the grid is already in reduced
    row-echelon form and every cell is a fraction `reduction` leaves alone. */
module Idempotence {
  import opened Primes
  import opened Fractions
  import opened Elimination

  /** The first column at or after `x` whose cell is nonzero, or `|row|` for a zero row. */
  function Lead(row: seq<Fraction>, x: nat): (r: nat)
    requires x <= |row|
    ensures x <= r <= |row|
    ensures r < |row| ==> !IsZero(row[r])
    ensures forall k :: x <= k < r ==> IsZero(row[k])
    decreases |row| - x
  {
    if x == |row| then x
    else if !IsZero(row[x]) then x
    else Lead(row, x + 1)
  }

  /** Reduced row-echelon form, with every cell already reduced: each leading cell is `1/1`;
      a row with a leading cell has one further left than every later row that has one (so
      zero rows come last); a leading cell's column is zero in every other row. */
  ghost predicate ReducedEchelon(t: seq<int>, m: Grid, columns: int)
    requires ValidTable(t) && IsRect(m, columns)
  {
    && (forall y :: 0 <= y < |m| && Lead(m[y], 0) < columns ==> m[y][Lead(m[y], 0)] == FromInt(1))
    && (forall y, z :: 0 <= y < z < |m| && Lead(m[z], 0) < columns ==> Lead(m[y], 0) < Lead(m[z], 0))
    && (forall y, z :: 0 <= y < |m| && 0 <= z < |m| && y != z && Lead(m[z], 0) < columns ==>
          IsZero(m[y][Lead(m[z], 0)]))
    && (forall y, x :: 0 <= y < |m| && 0 <= x < columns ==> Reduce(t, m[y][x]) == m[y][x])
  }

  /** In reduced row-echelon form a row's leading cell is not left of the diagonal. */
  lemma {:induction false} LeadNotLeftOfDiagonal(t: seq<int>, m: Grid, columns: int, y: int)
    requires ValidTable(t) && IsRect(m, columns) && ReducedEchelon(t, m, columns)
    requires 0 <= y < |m| && Lead(m[y], 0) < columns
    ensures y <= Lead(m[y], 0)
  {
    if y > 0 {
      assert Lead(m[y - 1], 0) < Lead(m[y], 0);
      LeadNotLeftOfDiagonal(t, m, columns, y - 1);
    }
  }

  /** Scaling a reduced row by `1/1` changes nothing. */
  lemma ScaleByOne(t: seq<int>, row: seq<Fraction>, from: int)
    requires ValidTable(t) && forall x :: 0 <= x < |row| ==> Reduce(t, row[x]) == row[x]
    ensures ScaleRow(t, row, from, FromInt(1)) == row
  {
    forall x | 0 <= x < |row|
      ensures ScaleRow(t, row, from, FromInt(1))[x] == row[x]
    {
      var c := row[x];
      assert Fraction(c.num * 1, c.den * 1) == c;
    }
  }

  /** Eliminating against any pivot row at a column where every row in the range is zero
      changes nothing. */
  lemma EliminateZeroColumn(t: seq<int>, m: Grid, columns: int, pivot: int, col: int, lo: int, hi: int)
    requires ValidTable(t) && IsRect(m, columns) && 0 <= pivot < |m| && 0 <= col < columns
    requires forall y :: 0 <= y < |m| && lo <= y < hi ==> IsZero(m[y][col])
    ensures EliminateRange(t, m, columns, pivot, col, lo, hi) == m
  {
    var r := EliminateRange(t, m, columns, pivot, col, lo, hi);
    assert forall y :: 0 <= y < |m| ==> r[y] == m[y];
  }

  /** Below row `p`, column `p` of a reduced row-echelon grid is zero. */
  lemma ZeroBelowDiagonal(t: seq<int>, m: Grid, columns: int, p: int)
    requires ValidTable(t) && IsRect(m, columns) && ReducedEchelon(t, m, columns)
    requires 0 <= p < |m| && p < columns
    ensures forall k :: p < k < |m| ==> IsZero(m[k][p])
  {
    forall k | p < k < |m|
      ensures IsZero(m[k][p])
    {
      if Lead(m[k], 0) < columns {
        LeadNotLeftOfDiagonal(t, m, columns, p);
        assert Lead(m[p], 0) < Lead(m[k], 0);
      }
    }
  }

  /** A forward step at a cursor inside the grid leaves a reduced row-echelon grid alone. */
  lemma ForwardStepFixed(t: seq<int>, m: Grid, columns: int, p: int)
    requires ValidTable(t) && IsRect(m, columns) && ReducedEchelon(t, m, columns)
    requires 0 <= p < |m| && p < columns
    ensures ForwardStep(t, m, columns, p) == m
  {
    ZeroBelowDiagonal(t, m, columns, p);
    if !IsZero(m[p][p]) {
      var lead := Lead(m[p], 0);
      assert lead <= p;
      LeadNotLeftOfDiagonal(t, m, columns, p);
      assert m[p][p] == FromInt(1);
      FromIntReduced(t, 1);
      assert Div(t, FromInt(1), m[p][p]) == FromInt(1);
      ScaleByOne(t, m[p], p);
      assert Normalize(t, m, columns, p) == m;
      EliminateZeroColumn(t, m, columns, p, p, p + 1, |m|);
    } else {
      assert FirstNonzeroRow(m, columns, p, p + 1) == |m|;
    }
  }

  lemma {:induction false} ForwardFixed(t: seq<int>, m: Grid, columns: int, p: nat)
    requires ValidTable(t) && IsRect(m, columns) && ReducedEchelon(t, m, columns)
    ensures Forward(t, m, columns, p) == m
    decreases |m| - p
  {
    if p < |m| && p < columns {
      ForwardStepFixed(t, m, columns, p);
      ForwardFixed(t, m, columns, p + 1);
    }
  }

  /** A back step leaves a reduced row-echelon grid alone. */
  lemma BackStepFixed(t: seq<int>, m: Grid, columns: int, y0: int)
    requires ValidTable(t) && IsRect(m, columns) && ReducedEchelon(t, m, columns)
    requires 0 <= y0 < |m| && columns >= 1
    ensures BackStep(t, m, columns, y0) == m
  {
    var x0 := LeadingColumn(m[y0], 0);
    var lead := Lead(m[y0], 0);
    if lead < columns {
      assert x0 == lead;
      EliminateZeroColumn(t, m, columns, y0, x0, 0, y0);
    } else {
      assert IsZero(m[y0][x0]);
    }
  }

  lemma {:induction false} BackFixed(t: seq<int>, m: Grid, columns: int, y0: int)
    requires ValidTable(t) && IsRect(m, columns) && ReducedEchelon(t, m, columns)
    requires y0 < |m| && (y0 > 0 ==> columns >= 1)
    ensures Back(t, m, columns, y0) == m
    decreases y0
  {
    if y0 > 0 {
      BackStepFixed(t, m, columns, y0);
      BackFixed(t, m, columns, y0 - 1);
    }
  }

  /** `simplify_matrix_fraction` leaves a reduced row-echelon grid of reduced cells unchanged. */
  lemma SimplifiedIdempotent(t: seq<int>, m: Grid, columns: int)
    requires ValidTable(t) && IsRect(m, columns) && ReducedEchelon(t, m, columns)
    ensures Simplified(t, m, columns) == m
  {
    ForwardFixed(t, m, columns, 0);
    BackFixed(t, m, columns, Min(|m|, columns) - 1);
  }
}
