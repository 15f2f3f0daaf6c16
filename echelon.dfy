/** What `simplify_matrix_fraction` achieves: after the forward elimination every column the
    cursor passed has a `1/1` pivot with zeros below, or no pivot at all; the back substitution
    keeps that and, for every row with a pivot, clears the pivot's column in the rows above. */
module Echelon {
  import opened Primes
  import opened Fractions
  import opened Elimination

  // ---------------------------------------------------------------------------
  // The pivot search

  lemma SwapIsPermutation(m: Grid, i: int, j: int)
    requires 0 <= i < |m| && 0 <= j < |m|
    ensures multiset(Swap(m, i, j)) == multiset(m)
  {
    ExchangePermutes(m, i, j);
  }

  /** Exchanging two entries of any sequence keeps its multiset. */
  lemma ExchangePermutes<T>(s: seq<T>, i: int, j: int)
    requires 0 <= i < |s| && 0 <= j < |s|
    ensures multiset(s[i := s[j]][j := s[i]]) == multiset(s)
  {
    if i < j {
      ExchangeOrdered(s, i, j);
    } else if j < i {
      ExchangeOrdered(s, j, i);
      assert s[i := s[j]][j := s[i]] == s[j := s[i]][i := s[j]];
    }
  }

  lemma ExchangeOrdered<T>(s: seq<T>, i: int, j: int)
    requires 0 <= i < j < |s|
    ensures multiset(s[i := s[j]][j := s[i]]) == multiset(s)
  {
    var a, b, c := s[..i], s[i + 1..j], s[j + 1..];
    assert s == a + [s[i]] + b + [s[j]] + c;
    assert s[i := s[j]][j := s[i]] == a + [s[j]] + b + [s[i]] + c;
  }

  lemma SwapRowsAt(m: Grid, i: int, j: int)
    requires 0 <= i < |m| && 0 <= j < |m|
    ensures forall y :: 0 <= y < |m| ==> Swap(m, i, j)[y] == m[Swapped(i, j, y)]
  {
  }

  /** The pivot search keeps the rows as a permutation, leaves the rows above the cursor
      alone, and finds a pivot exactly when column `p` is nonzero somewhere from row `p` on;
      a row that moves is exchanged with row `p` and is the first nonzero one in column `p`. */
  lemma PivotSearchSpec(m: Grid, columns: int, p: int)
    requires IsRect(m, columns) && 0 <= p < |m| && p < columns
    ensures var r := PivotSearch(m, columns, p);
      && multiset(r) == multiset(m)
      && (forall y :: 0 <= y < p ==> r[y] == m[y])
      && (forall y :: p <= y < |m| ==> r[y] in m[p..])
      && (!IsZero(m[p][p]) ==> r == m)
      && (IsZero(r[p][p]) <==> forall k :: p <= k < |m| ==> IsZero(m[k][p]))
      && (forall y :: p < y < |m| && r[y] != m[y] ==>
            r[y] == m[p] && r[p] == m[y] && forall k :: p <= k < y ==> IsZero(m[k][p]))
  {
    var r := PivotSearch(m, columns, p);
    if IsZero(m[p][p]) {
      var y := FirstNonzeroRow(m, columns, p, p + 1);
      if y < |m| {
        SwapIsPermutation(m, p, y);
        SwapRowsAt(m, p, y);
        forall z | p <= z < |m|
          ensures r[z] in m[p..]
        {
          assert r[z] == m[p..][Swapped(p, y, z) - p];
        }
      } else {
        forall z | p <= z < |m|
          ensures r[z] in m[p..]
        {
          assert r[z] == m[p..][z - p];
        }
      }
    } else {
      forall z | p <= z < |m|
        ensures r[z] in m[p..]
      {
        assert r[z] == m[p..][z - p];
      }
    }
  }

  // ---------------------------------------------------------------------------
  // One step of the forward elimination

  /** `EliminateRange` changes only the rows in `[lo, hi)` that are nonzero in column `col`:
      such a row keeps its cells left of `col`, gets `0/1` at `col`, and loses
      `pivotRow[x] * row[col]` at every later `x`. */
  lemma EliminateRangeSpec(t: seq<int>, m: Grid, columns: int, pivot: int, col: int, lo: int, hi: int)
    requires ValidTable(t) && IsRect(m, columns) && 0 <= pivot < |m| && 0 <= col < columns
    ensures var r := EliminateRange(t, m, columns, pivot, col, lo, hi);
      && (forall y :: 0 <= y < |m| && (!(lo <= y < hi) || IsZero(m[y][col])) ==> r[y] == m[y])
      && (forall y, x :: 0 <= y < |m| && 0 <= x < col ==> r[y][x] == m[y][x])
      && (forall y :: 0 <= y < |m| && lo <= y < hi && !IsZero(m[y][col]) ==>
            && r[y][col] == FromInt(0)
            && forall x :: col < x < columns ==> r[y][x] == Sub(t, m[y][x], Mul(t, m[pivot][x], m[y][col])))
  {
  }

  /** What one forward step leaves alone: the rows above the cursor, the columns left of it
      (on the rows as the pivot search left them), and the rows already zero in column `p`. */
  lemma ForwardStepFrame(t: seq<int>, m: Grid, columns: int, p: int)
    requires ValidTable(t) && IsRect(m, columns) && 0 <= p < |m| && p < columns
    ensures var m1 := PivotSearch(m, columns, p); var r := ForwardStep(t, m, columns, p);
      && (forall y :: 0 <= y < p ==> r[y] == m[y])
      && (forall y, x :: 0 <= y < |m| && 0 <= x < p ==> r[y][x] == m1[y][x])
      && (forall y :: p < y < |m| && IsZero(m1[y][p]) ==> r[y] == m1[y])
      && (IsZero(m1[p][p]) ==> r == m1)
  {
    var m1 := PivotSearch(m, columns, p);
    assert forall y :: 0 <= y < p ==> m1[y] == m[y];
    if !IsZero(m1[p][p]) {
      var m2 := Normalize(t, m1, columns, p);
      EliminateRangeSpec(t, m2, columns, p, p, p + 1, |m|);
      assert forall y :: 0 <= y < |m| && y != p ==> m2[y] == m1[y];
      assert forall x :: 0 <= x < p ==> m2[p][x] == m1[p][x];
    }
  }

  lemma SwapKeepsWellFormed(m: Grid, i: int, j: int)
    requires WellFormed(m) && 0 <= i < |m| && 0 <= j < |m|
    ensures WellFormed(Swap(m, i, j))
  {
    SwapRowsAt(m, i, j);
  }

  lemma PivotSearchKeepsWellFormed(m: Grid, columns: int, p: int)
    requires IsRect(m, columns) && 0 <= p < |m| && p < columns && WellFormed(m)
    ensures WellFormed(PivotSearch(m, columns, p))
  {
    if IsZero(m[p][p]) {
      var y := FirstNonzeroRow(m, columns, p, p + 1);
      if y < |m| {
        SwapKeepsWellFormed(m, p, y);
      }
    }
  }

  /** A forward step keeps every denominator nonzero. */
  lemma ForwardStepWellFormed(t: seq<int>, m: Grid, columns: int, p: int)
    requires ValidTable(t) && IsRect(m, columns) && 0 <= p < |m| && p < columns && WellFormed(m)
    ensures WellFormed(ForwardStep(t, m, columns, p))
  {
    var m1 := PivotSearch(m, columns, p);
    PivotSearchKeepsWellFormed(m, columns, p);
    if !IsZero(m1[p][p]) {
      var m2 := Normalize(t, m1, columns, p);
      assert WellFormed(m2);
      EliminateRangeSpec(t, m2, columns, p, p, p + 1, |m|);
    }
  }

  /** A forward step that finds a pivot, on a grid without zero denominators: the pivot
      becomes `1/1` and the rest of the pivot row is divided by the old pivot. */
  lemma ForwardStepPivotRow(t: seq<int>, m: Grid, columns: int, p: int)
    requires ValidTable(t) && IsRect(m, columns) && 0 <= p < |m| && p < columns && WellFormed(m)
    requires !IsZero(PivotSearch(m, columns, p)[p][p])
    ensures var m1 := PivotSearch(m, columns, p); var r := ForwardStep(t, m, columns, p);
      && r[p][p] == FromInt(1)
      && (forall x :: p <= x < columns ==> IsQuotient(r[p][x], m1[p][x], m1[p][p]))
  {
    var m1 := PivotSearch(m, columns, p);
    PivotSearchKeepsWellFormed(m, columns, p);
    var piv := m1[p][p];
    var m2 := Normalize(t, m1, columns, p);
    var r := EliminateRange(t, m2, columns, p, p, p + 1, |m|);
    assert r[p] == m2[p];
    PivotBecomesOne(t, piv);
    forall x | p <= x < columns
      ensures IsQuotient(r[p][x], m1[p][x], piv)
    {
      ScaleDividesByPivot(t, m1[p][x], piv);
    }
  }

  /** After a forward step every row below the cursor is zero in column `p`. */
  lemma ForwardStepBelow(t: seq<int>, m: Grid, columns: int, p: int)
    requires ValidTable(t) && IsRect(m, columns) && 0 <= p < |m| && p < columns
    ensures var r := ForwardStep(t, m, columns, p);
      forall y :: p < y < |m| ==> IsZero(r[y][p])
  {
    var m1 := PivotSearch(m, columns, p);
    if IsZero(m1[p][p]) {
      // a swap would have brought a nonzero cell to the pivot position
      assert m1 == m && FirstNonzeroRow(m, columns, p, p + 1) == |m|;
    } else {
      var m2 := Normalize(t, m1, columns, p);
      EliminateRangeSpec(t, m2, columns, p, p, p + 1, |m|);
      assert forall y :: p < y < |m| ==> m2[y] == m1[y];
    }
  }

  /** Where the forward step writes `int2type(0)` under a pivot, that is what the subtraction
      computes. */
  lemma ForwardStepPredictsZero(t: seq<int>, m: Grid, columns: int, p: int)
    requires ValidTable(t) && IsRect(m, columns) && 0 <= p < |m| && p < columns && WellFormed(m)
    requires !IsZero(PivotSearch(m, columns, p)[p][p])
    ensures var m1 := PivotSearch(m, columns, p); var r := ForwardStep(t, m, columns, p);
      forall y :: p < y < |m| && !IsZero(m1[y][p]) ==>
        r[y][p] == FromInt(0) && r[y][p] == Sub(t, m1[y][p], Mul(t, r[p][p], m1[y][p]))
  {
    var m1 := PivotSearch(m, columns, p);
    PivotSearchKeepsWellFormed(m, columns, p);
    var m2 := Normalize(t, m1, columns, p);
    EliminateRangeSpec(t, m2, columns, p, p, p + 1, |m|);
    assert forall y :: p < y < |m| ==> m2[y] == m1[y];
    ForwardStepPivotRow(t, m, columns, p);
    forall y | p < y < |m| && !IsZero(m1[y][p])
      ensures FromInt(0) == Sub(t, m1[y][p], Mul(t, FromInt(1), m1[y][p]))
    {
      UnitPivotPredictsZero(t, m1[y][p]);
    }
  }

  // ---------------------------------------------------------------------------
  // The forward elimination as a whole

  /** Column `p` is done: its diagonal cell is `1/1` or zero, and every cell below is zero. */
  ghost predicate ColumnReduced(m: Grid, columns: int, p: int)
    requires IsRect(m, columns) && 0 <= p < |m| && p < columns
  {
    && (m[p][p] == FromInt(1) || IsZero(m[p][p]))
    && (forall y :: p < y < |m| ==> IsZero(m[y][p]))
  }

  /** Every column before `q` is done. */
  ghost predicate ReducedBefore(m: Grid, columns: int, q: int)
    requires IsRect(m, columns)
  {
    forall p :: 0 <= p < q && p < |m| && p < columns ==> ColumnReduced(m, columns, p)
  }

  lemma ForwardStepReduces(t: seq<int>, m: Grid, columns: int, p: int)
    requires ValidTable(t) && IsRect(m, columns) && 0 <= p < |m| && p < columns && WellFormed(m)
    ensures ColumnReduced(ForwardStep(t, m, columns, p), columns, p)
  {
    ForwardStepBelow(t, m, columns, p);
    if !IsZero(PivotSearch(m, columns, p)[p][p]) {
      ForwardStepPivotRow(t, m, columns, p);
    }
    ForwardStepFrame(t, m, columns, p);
  }

  /** A later forward step leaves a finished column finished. */
  lemma ForwardStepKeepsReduced(t: seq<int>, m: Grid, columns: int, p: int, q: int)
    requires ValidTable(t) && IsRect(m, columns) && 0 <= q < p < |m| && p < columns
    requires ColumnReduced(m, columns, q)
    ensures ColumnReduced(ForwardStep(t, m, columns, p), columns, q)
  {
    var m1 := PivotSearch(m, columns, p);
    ForwardStepFrame(t, m, columns, p);
    if IsZero(m[p][p]) && FirstNonzeroRow(m, columns, p, p + 1) < |m| {
      // the pivot search exchanged row `p` with a later row; both are zero in column `q`
      assert m1 == Swap(m, p, FirstNonzeroRow(m, columns, p, p + 1));
    }
    assert forall y :: p <= y < |m| ==> IsZero(m1[y][q]);
  }

  /** A forward step at `p` finishes column `p` and keeps the earlier ones finished. */
  lemma ForwardStepAdvances(t: seq<int>, m: Grid, columns: int, p: int)
    requires ValidTable(t) && IsRect(m, columns) && 0 <= p < |m| && p < columns && WellFormed(m)
    requires ReducedBefore(m, columns, p)
    ensures WellFormed(ForwardStep(t, m, columns, p))
    ensures ReducedBefore(ForwardStep(t, m, columns, p), columns, p + 1)
  {
    var m' := ForwardStep(t, m, columns, p);
    ForwardStepWellFormed(t, m, columns, p);
    ForwardStepReduces(t, m, columns, p);
    forall q | 0 <= q < p
      ensures ColumnReduced(m', columns, q)
    {
      ForwardStepKeepsReduced(t, m, columns, p, q);
    }
  }

  /** The forward elimination keeps the denominators nonzero. */
  lemma {:induction false} ForwardWellFormed(t: seq<int>, m: Grid, columns: int, p: nat)
    requires ValidTable(t) && IsRect(m, columns) && WellFormed(m)
    ensures WellFormed(Forward(t, m, columns, p))
    decreases |m| - p
  {
    if p < |m| && p < columns {
      ForwardStepWellFormed(t, m, columns, p);
      ForwardWellFormed(t, ForwardStep(t, m, columns, p), columns, p + 1);
    }
  }

  /** The forward elimination from cursor `p` on finishes every column up to `min(rows, columns)`. */
  lemma {:induction false} ForwardReduces(t: seq<int>, m: Grid, columns: int, p: nat)
    requires ValidTable(t) && IsRect(m, columns) && WellFormed(m) && ReducedBefore(m, columns, p)
    ensures ReducedBefore(Forward(t, m, columns, p), columns, Min(|m|, columns))
    decreases |m| - p, 1
  {
    if p < |m| && p < columns {
      ForwardReducesFrom(t, m, columns, p);
    }
  }

  /** The inductive step of `ForwardReduces`: one forward step, then the rest. */
  lemma {:induction false} ForwardReducesFrom(t: seq<int>, m: Grid, columns: int, p: nat)
    requires ValidTable(t) && IsRect(m, columns) && WellFormed(m) && ReducedBefore(m, columns, p)
    requires p < |m| && p < columns
    ensures ReducedBefore(Forward(t, m, columns, p), columns, Min(|m|, columns))
    decreases |m| - p, 0
  {
    ForwardStepAdvances(t, m, columns, p);
    ForwardReduces(t, ForwardStep(t, m, columns, p), columns, p + 1);
  }

  // ---------------------------------------------------------------------------
  // One step of the back substitution

  /** A back step for row `y0` with leading column `x0`: the row has no pivot exactly when it
      is zero throughout, and then nothing changes; otherwise rows `y0` and below and the
      columns left of `x0` stay as they are, rows already zero in column `x0` are untouched,
      and every row above ends zero in column `x0`. */
  lemma BackStepSpec(t: seq<int>, m: Grid, columns: int, y0: int)
    requires ValidTable(t) && IsRect(m, columns) && 0 <= y0 < |m| && columns >= 1
    ensures var x0 := LeadingColumn(m[y0], 0); var r := BackStep(t, m, columns, y0);
      && (IsZero(m[y0][x0]) <==> forall x :: 0 <= x < columns ==> IsZero(m[y0][x]))
      && (IsZero(m[y0][x0]) ==> r == m)
      && (forall y :: y0 <= y < |m| ==> r[y] == m[y])
      && (forall y, x :: 0 <= y < |m| && 0 <= x < x0 ==> r[y][x] == m[y][x])
      && (forall y :: 0 <= y < y0 && IsZero(m[y][x0]) ==> r[y] == m[y])
      && (!IsZero(m[y0][x0]) ==> forall y :: 0 <= y < y0 ==> IsZero(r[y][x0]))
  {
  }

  /** The scan for the pivot stops at the last column: a row that is zero except in the last
      column still clears the last column of the rows above, and changes nothing else in them. */
  lemma BackStepLastColumn(t: seq<int>, m: Grid, columns: int, y0: int)
    requires ValidTable(t) && IsRect(m, columns) && 0 <= y0 < |m| && columns >= 1
    requires forall x :: 0 <= x < columns - 1 ==> IsZero(m[y0][x])
    requires !IsZero(m[y0][columns - 1])
    ensures var r := BackStep(t, m, columns, y0);
      && (forall y :: 0 <= y < y0 ==> IsZero(r[y][columns - 1]))
      && (forall y, x :: 0 <= y < |m| && 0 <= x < columns - 1 ==> r[y][x] == m[y][x])
  {
    assert LeadingColumn(m[y0], 0) == columns - 1;
    BackStepSpec(t, m, columns, y0);
  }

  // ---------------------------------------------------------------------------
  // The back substitution as a whole

  /** Row `y0` either has no pivot, or its pivot column is zero in every row above it. */
  ghost predicate ClearedAbove(m: Grid, columns: int, y0: int)
    requires IsRect(m, columns) && 0 <= y0 < |m| && columns >= 1
  {
    var x0 := LeadingColumn(m[y0], 0);
    !IsZero(m[y0][x0]) ==> forall y :: 0 <= y < y0 ==> IsZero(m[y][x0])
  }

  /** Every row in `(lo, hi]` is cleared above. */
  ghost predicate ClearedBetween(m: Grid, columns: int, lo: int, hi: int)
    requires IsRect(m, columns) && hi < |m| && columns >= 1
  {
    forall y0 :: 0 <= lo < y0 <= hi ==> ClearedAbove(m, columns, y0)
  }

  /** A back step for `y0` keeps every row below `y0` cleared above. */
  lemma BackStepKeepsCleared(t: seq<int>, m: Grid, columns: int, y0: int, z: int)
    requires ValidTable(t) && IsRect(m, columns) && 0 <= y0 < z < |m| && columns >= 1
    requires ClearedAbove(m, columns, z)
    ensures ClearedAbove(BackStep(t, m, columns, y0), columns, z)
  {
    var r := BackStep(t, m, columns, y0);
    var x0 := LeadingColumn(m[y0], 0);
    var xz := LeadingColumn(m[z], 0);
    BackStepSpec(t, m, columns, y0);
    assert r[z] == m[z];
    if !IsZero(m[z][xz]) && !IsZero(m[y0][x0]) {
      forall y | 0 <= y < y0 && xz > x0 && !IsZero(m[y][x0])
        ensures IsZero(r[y][xz])
      {
        MulZero(t, m[y0][xz], m[y][x0]);
        SubZero(t, m[y][xz], Mul(t, m[y0][xz], m[y][x0]));
      }
    }
  }

  /** Once the forward elimination has finished the columns up to `min(rows, columns)`, every
      row is zero left of the diagonal. */
  lemma ZeroLeftOfDiagonal(m: Grid, columns: int, y0: int)
    requires IsRect(m, columns) && ReducedBefore(m, columns, Min(|m|, columns))
    requires 0 <= y0 < |m|
    ensures forall x :: 0 <= x < y0 && x < columns ==> IsZero(m[y0][x])
  {
    forall x | 0 <= x < y0 && x < columns
      ensures IsZero(m[y0][x])
    {
      assert ColumnReduced(m, columns, x);
    }
  }

  /** A back step for `y0` keeps every finished column finished, given that the forward
      elimination finished every column up to `min(rows, columns)`. */
  lemma BackStepKeepsReduced(t: seq<int>, m: Grid, columns: int, y0: int, q: int)
    requires ValidTable(t) && IsRect(m, columns) && 0 <= y0 < Min(|m|, columns)
    requires ReducedBefore(m, columns, Min(|m|, columns)) && 0 <= q < Min(|m|, columns)
    ensures ColumnReduced(BackStep(t, m, columns, y0), columns, q)
  {
    var x0 := LeadingColumn(m[y0], 0);
    var r := BackStep(t, m, columns, y0);
    BackStepSpec(t, m, columns, y0);
    ZeroLeftOfDiagonal(m, columns, y0);
    assert IsZero(m[y0][x0]) || y0 <= x0;
    forall y | q <= y < |m|
      ensures r[y][q] == m[y][q]
    {
    }
    assert ColumnReduced(m, columns, q);
  }

  /** The back substitution from row `y0` down to row 1 clears every row in `(0, hi]` above,
      once the rows in `(y0, hi]` are, and keeps the finished columns finished. */
  lemma {:induction false} BackClears(t: seq<int>, m: Grid, columns: int, y0: int, hi: int)
    requires ValidTable(t) && IsRect(m, columns) && columns >= 1 && y0 <= hi < Min(|m|, columns)
    requires ClearedBetween(m, columns, if y0 < 0 then 0 else y0, hi)
    requires ReducedBefore(m, columns, Min(|m|, columns))
    ensures ClearedBetween(Back(t, m, columns, y0), columns, 0, hi)
    ensures ReducedBefore(Back(t, m, columns, y0), columns, Min(|m|, columns))
    decreases y0
  {
    if y0 > 0 {
      var m' := BackStep(t, m, columns, y0);
      BackStepSpec(t, m, columns, y0);
      assert ClearedAbove(m', columns, y0);
      forall z | y0 < z <= hi
        ensures ClearedAbove(m', columns, z)
      {
        BackStepKeepsCleared(t, m, columns, y0, z);
      }
      forall q | 0 <= q < Min(|m|, columns)
        ensures ColumnReduced(m', columns, q)
      {
        BackStepKeepsReduced(t, m, columns, y0, q);
      }
      BackClears(t, m', columns, y0 - 1, hi);
    }
  }

  /** `simplify_matrix_fraction` on a grid without zero denominators: every column up to
      `min(rows, columns)` has a `1/1` pivot or none, with zeros below it, and every row with a
      pivot has zeros above that pivot. */
  lemma SimplifiedForm(t: seq<int>, m: Grid, columns: int)
    requires ValidTable(t) && IsRect(m, columns) && WellFormed(m)
    ensures var r := Simplified(t, m, columns);
      && ReducedBefore(r, columns, Min(|m|, columns))
      && (columns >= 1 ==> ClearedBetween(r, columns, 0, Min(|m|, columns) - 1))
  {
    var f := Forward(t, m, columns, 0);
    ForwardWellFormed(t, m, columns, 0);
    ForwardReduces(t, m, columns, 0);
    if Min(|m|, columns) >= 1 {
      BackClears(t, f, columns, Min(|m|, columns) - 1, Min(|m|, columns) - 1);
    }
  }
}
