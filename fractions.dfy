/** The exact-rational element type of the elimination engine: the `fraction` record,
    `reduction` (sign fix, the zero and `|n| == d` shortcuts, trial division by the prime
    table) and the operations `fraction_mul`, `fraction_sub`, `fraction_div`,
    `fraction_int2type` and `fraction_is_zero`. */
module Fractions {
  import opened Primes

  /** The program's `fraction`: a numerator over a denominator. */
  datatype Fraction = Fraction(num: int, den: int)

  function Abs(x: int): nat {
    if x < 0 then -x else x
  }

  function Min(a: int, b: int): int {
    if a <= b then a else b
  }

  /** `fraction_int2type` */
  function FromInt(x: int): Fraction {
    Fraction(x, 1)
  }

  /** `fraction_is_zero`: only the numerator is looked at. */
  predicate IsZero(x: Fraction) {
    x.num == 0
  }

  /** `a` and `b` stand for the same rational number (meaningful when both denominators are nonzero). */
  ghost predicate SameValue(a: Fraction, b: Fraction) {
    a.num * b.den == b.num * a.den
  }

  /** `p` divides both parts of `x`. */
  ghost predicate CommonFactor(p: int, x: Fraction)
    requires p != 0
  {
    Divides(p, x.num) && Divides(p, x.den)
  }

  // ---------------------------------------------------------------------------
  // Arithmetic facts used below

  lemma QuotientBounds(d: int, p: int)
    requires d >= 1 && p >= 2 && Divides(p, d)
    ensures 1 <= d / p < d && d == p * (d / p)
  {
    var q := d / p;
    assert d == p * q;
    assert p * q >= 2 * q;
  }

  lemma SameValueTransitive(a: Fraction, b: Fraction, c: Fraction)
    requires b.den != 0 && SameValue(a, b) && SameValue(b, c)
    ensures SameValue(a, c)
  {
    calc {
      (a.num * c.den) * b.den;
      (a.num * b.den) * c.den;
      (b.num * a.den) * c.den;
      (b.num * c.den) * a.den;
      (c.num * b.den) * a.den;
      (c.num * a.den) * b.den;
    }
    CancelFactor(a.num * c.den, c.num * a.den, b.den);
  }

  lemma CancelFactor(x: int, y: int, c: int)
    requires c != 0 && x * c == y * c
    ensures x == y
  {
    assert (x - y) * c == 0;
  }

  /** Dividing both parts by a common factor keeps the value. */
  lemma DivideKeepsValue(x: Fraction, p: int)
    requires p != 0 && CommonFactor(p, x)
    ensures SameValue(Fraction(x.num / p, x.den / p), x)
  {
    var a, b := x.num / p, x.den / p;
    assert x.num == p * a && x.den == p * b;
    assert a * (p * b) == (p * a) * b;
  }

  /** A divisor of a quotient divides the dividend. */
  lemma DividesQuotient(q: int, p: int, n: int)
    requires q > 0 && p > 0 && Divides(p, n) && Divides(q, n / p)
    ensures Divides(q, n)
  {
    var a := n / p;
    var b := a / q;
    assert n == p * a && a == q * b;
    assert n == q * (p * b);
    MultipleDivides(q, p * b);
  }

  /** `n / d` is the sign of `n` when `|n| == d`. */
  lemma UnitQuotient(n: int, d: int)
    requires d > 0 && Abs(n) == d
    ensures n / d == (if n < 0 then -1 else 1) && d / d == 1
  {
    if n < 0 {
      assert n == d * -1;
    }
  }

  // ---------------------------------------------------------------------------
  // reduction, as recursive functions over the table index

  /** The inner `while` of `reduction`: divides both parts by `p` while both stay divisible. */
  function DivideOut(x: Fraction, p: int): (r: Fraction)
    requires p >= 2 && x.den >= 1
    ensures r.den >= 1 && SameValue(r, x)
    ensures !CommonFactor(p, r)
    ensures forall q :: q > 0 && CommonFactor(q, r) ==> CommonFactor(q, x)
    decreases x.den
  {
    if x.num % p == 0 && x.den % p == 0 then
      QuotientBounds(x.den, p);
      var y := Fraction(x.num / p, x.den / p);
      var r := DivideOut(y, p);
      DivideKeepsValue(x, p);
      SameValueTransitive(r, y, x);
      assert forall q :: q > 0 && CommonFactor(q, y) ==> CommonFactor(q, x) by {
        forall q | q > 0 && CommonFactor(q, y)
          ensures CommonFactor(q, x)
        {
          DividesQuotient(q, p, x.num);
          DividesQuotient(q, p, x.den);
        }
      }
      r
    else
      x
  }

  /** The `for` loop of `reduction` from table index `i` on: it goes on while the prime is at
      most both `|num|` and `den` and is not the sentinel. */
  function Sift(t: seq<int>, i: nat, x: Fraction): (r: Fraction)
    requires ValidTable(t) && i < |t| && x.den >= 0
    ensures x.den == 0 ==> r == x
    ensures x.den >= 1 ==> r.den >= 1 && SameValue(r, x)
    decreases |t| - i
  {
    if t[i] <= Abs(x.num) && t[i] <= x.den && t[i] != 0 then
      assert Listed(t, i);
      var y := DivideOut(x, t[i]);
      var r := Sift(t, i + 1, y);
      SameValueTransitive(r, y, x);
      r
    else
      x
  }

  /** `reduction`: makes the denominator nonnegative, maps a zero numerator to `0/1` and
      `|n| == d` to `±1/1`, and otherwise trial-divides by the table. */
  function Reduce(t: seq<int>, x: Fraction): (r: Fraction)
    requires ValidTable(t)
    ensures x.den != 0 ==> r.den > 0
    ensures x.num == 0 ==> r == Fraction(0, 1)
    ensures SameValue(r, x)
  {
    var y := if x.den < 0 then Fraction(-x.num, -x.den) else x;
    assert SameValue(y, x);
    if y.num == 0 then
      Fraction(0, 1)
    else if Abs(y.num) == y.den then
      UnitQuotient(y.num, y.den);
      Fraction(y.num / y.den, y.den / y.den)
    else
      var r := Sift(t, 0, y);
      if y.den == 0 then r else SameValueTransitive(r, y, x); r
  }

  /** `reduction`, with the loops of the program. */
  method Reduction(t: seq<int>, x: Fraction) returns (r: Fraction)
    requires ValidTable(t)
    ensures r == Reduce(t, x)
  {
    r := x;
    if r.den < 0 {
      r := Fraction(r.num * -1, r.den * -1);
    }
    if r.num == 0 {
      r := r.(den := 1);
    } else if Abs(r.num) == r.den {
      r := Fraction(r.num / r.den, r.den / r.den);
    } else {
      ghost var y := r;
      var i := 0;
      while t[i] <= Abs(r.num) && t[i] <= r.den && t[i] != 0
        invariant 0 <= i < |t| && r.den >= 0
        invariant Sift(t, i, r) == Sift(t, 0, y)
        decreases |t| - i
      {
        assert Listed(t, i);
        ghost var before := r;
        while r.num % t[i] == 0 && r.den % t[i] == 0
          invariant r.den >= 1
          invariant DivideOut(r, t[i]) == DivideOut(before, t[i])
          decreases r.den
        {
          QuotientBounds(r.den, t[i]);
          r := Fraction(r.num / t[i], r.den / t[i]);
        }
        i := i + 1;
      }
    }
  }

  // ---------------------------------------------------------------------------
  // The arithmetic operations: a cross product, then reduction

  /** `fraction_mul` */
  function Mul(t: seq<int>, a: Fraction, b: Fraction): (r: Fraction)
    requires ValidTable(t)
    ensures a.den != 0 && b.den != 0 ==> r.den > 0
    ensures r.num * (a.den * b.den) == (a.num * b.num) * r.den
  {
    Reduce(t, Fraction(a.num * b.num, a.den * b.den))
  }

  /** `fraction_sub` */
  function Sub(t: seq<int>, a: Fraction, b: Fraction): (r: Fraction)
    requires ValidTable(t)
    ensures a.den != 0 && b.den != 0 ==> r.den > 0
    ensures r.num * (a.den * b.den) == (a.num * b.den - b.num * a.den) * r.den
  {
    Reduce(t, Fraction(a.num * b.den - b.num * a.den, a.den * b.den))
  }

  /** `fraction_div`; the program does not check for a zero divisor. */
  function Div(t: seq<int>, a: Fraction, b: Fraction): (r: Fraction)
    requires ValidTable(t)
    ensures a.den != 0 && b.den != 0 && b.num != 0 ==> r.den > 0
    ensures r.num * (a.den * b.num) == (a.num * b.den) * r.den
    ensures b.num == 0 ==> r == (if a.num * b.den == 0 then Fraction(0, 1) else Fraction(a.num * b.den, 0))
  {
    Reduce(t, Fraction(a.num * b.den, a.den * b.num))
  }

  method FractionMul(t: seq<int>, a: Fraction, b: Fraction) returns (r: Fraction)
    requires ValidTable(t)
    ensures r == Mul(t, a, b)
  {
    r := Reduction(t, Fraction(a.num * b.num, a.den * b.den));
  }

  method FractionSub(t: seq<int>, a: Fraction, b: Fraction) returns (r: Fraction)
    requires ValidTable(t)
    ensures r == Sub(t, a, b)
  {
    r := Reduction(t, Fraction(a.num * b.den - b.num * a.den, a.den * b.den));
  }

  method FractionDiv(t: seq<int>, a: Fraction, b: Fraction) returns (r: Fraction)
    requires ValidTable(t)
    ensures r == Div(t, a, b)
  {
    r := Reduction(t, Fraction(a.num * b.den, a.den * b.num));
  }

  // ---------------------------------------------------------------------------
  // Properties of reduction

  /** The trial division leaves no table prime up to `min(|num|, den)` dividing both parts,
      provided none of the primes before index `i` divided both parts of `x`. */
  lemma {:induction false} SiftClearsTable(t: seq<int>, i: nat, x: Fraction)
    requires ValidTable(t) && i < |t| && x.den >= 0
    requires forall j :: Listed(t, j) && j < i ==> !CommonFactor(t[j], x)
    ensures var r := Sift(t, i, x);
      forall j :: Listed(t, j) && t[j] <= Min(Abs(r.num), r.den) ==> !CommonFactor(t[j], r)
    decreases |t| - i
  {
    if t[i] <= Abs(x.num) && t[i] <= x.den && t[i] != 0 {
      assert Listed(t, i);
      var y := DivideOut(x, t[i]);
      SiftClearsTable(t, i + 1, y);
    } else if t[i] != 0 {
      assert Listed(t, i);
      forall j | Listed(t, j) && t[j] <= Min(Abs(x.num), x.den)
        ensures !CommonFactor(t[j], x)
      {
        assert j < i;
      }
    } else {
      assert !Listed(t, i);
    }
  }

  /** With the trial division skipping nothing, the walk from `i` leaves `x` as it is. */
  lemma {:induction false} SiftFixed(t: seq<int>, i: nat, x: Fraction)
    requires ValidTable(t) && i < |t| && x.den >= 0
    requires forall j :: Listed(t, j) && i <= j && t[j] <= Min(Abs(x.num), x.den) ==> !CommonFactor(t[j], x)
    ensures Sift(t, i, x) == x
    decreases |t| - i
  {
    if t[i] <= Abs(x.num) && t[i] <= x.den && t[i] != 0 {
      assert Listed(t, i);
      assert !CommonFactor(t[i], x);
      assert DivideOut(x, t[i]) == x;
      SiftFixed(t, i + 1, x);
    }
  }

  /** `reduction` of a nonzero fraction with `|n| == |d|` gives `±1/1`, the sign of the quotient. */
  lemma ReduceUnit(t: seq<int>, x: Fraction)
    requires ValidTable(t) && x.num != 0 && Abs(x.num) == Abs(x.den)
    ensures Reduce(t, x) == Fraction(if (x.num < 0) == (x.den < 0) then 1 else -1, 1)
  {
    var y := if x.den < 0 then Fraction(-x.num, -x.den) else x;
    UnitQuotient(y.num, y.den);
  }

  /** Afterwards no table prime up to `min(|num|, den)` divides both parts of the result. */
  lemma ReduceLowestTerms(t: seq<int>, x: Fraction)
    requires ValidTable(t)
    ensures var r := Reduce(t, x);
      forall j :: Listed(t, j) && t[j] <= Min(Abs(r.num), r.den) ==> !CommonFactor(t[j], r)
  {
    var y := if x.den < 0 then Fraction(-x.num, -x.den) else x;
    if y.num != 0 && Abs(y.num) != y.den {
      SiftClearsTable(t, 0, y);
    } else if y.num != 0 {
      UnitQuotient(y.num, y.den);
    }
  }

  /** With the table of all primes up to `n`, no prime up to `n` and up to `min(|num|, den)`
      divides both parts of the result; larger common primes may remain. */
  lemma ReduceLowestTermsUpTo(t: seq<int>, n: int, x: Fraction)
    requires IsPrimeTable(t, n)
    ensures var r := Reduce(t, x);
      forall p :: IsPrime(p) && p <= n && p <= Min(Abs(r.num), r.den) ==> !CommonFactor(p, r)
  {
    var r := Reduce(t, x);
    ReduceLowestTerms(t, x);
    forall p | IsPrime(p) && p <= n && p <= Min(Abs(r.num), r.den)
      ensures !CommonFactor(p, r)
    {
      assert p in t;
      var j :| 0 <= j < |t| && t[j] == p;
      assert Listed(t, j);
    }
  }

  /** Reducing a reduced fraction changes nothing. */
  lemma ReduceIdempotent(t: seq<int>, x: Fraction)
    requires ValidTable(t)
    ensures Reduce(t, Reduce(t, x)) == Reduce(t, x)
  {
    var y := if x.den < 0 then Fraction(-x.num, -x.den) else x;
    var r := Reduce(t, x);
    if y.num == 0 {
    } else if Abs(y.num) == y.den {
      UnitQuotient(y.num, y.den);
      ReduceUnit(t, r);
    } else if y.den == 0 {
      assert r == y;
    } else {
      SiftIdempotent(t, y);
    }
  }

  lemma SiftIdempotent(t: seq<int>, y: Fraction)
    requires ValidTable(t) && y.num != 0 && y.den >= 1 && Abs(y.num) != y.den
    ensures Reduce(t, Sift(t, 0, y)) == Sift(t, 0, y)
  {
    var r := Sift(t, 0, y);
    RatioKeepsShape(r.num, r.den, y.num, y.den);
    SiftClearsTable(t, 0, y);
    SiftFixed(t, 0, r);
  }

  /** Two fractions of the same value with positive denominators: one is zero or `±1/1`-shaped
      exactly when the other is. */
  lemma RatioKeepsShape(rn: int, rd: int, yn: int, yd: int)
    requires rd >= 1 && yd >= 1 && rn * yd == yn * rd && yn != 0 && Abs(yn) != yd
    ensures rn != 0 && Abs(rn) != rd
  {
    if rn == rd {
      CancelFactor(yd, yn, rd);
    }
  }

  /** `fraction_int2type` gives fractions that `reduction` leaves alone. */
  lemma FromIntReduced(t: seq<int>, n: int)
    requires ValidTable(t)
    ensures Reduce(t, FromInt(n)) == FromInt(n)
  {
    if n != 0 && Abs(n) != 1 {
      if t[0] != 0 {
        assert Listed(t, 0);
      }
    }
  }

  /** `reduction` leaves a fraction alone when its denominator is positive and its numerator
      or denominator is 1: no table prime fits under `min(|num|, den)`. */
  lemma ReduceSmallPart(t: seq<int>, x: Fraction)
    requires ValidTable(t) && x.num != 0 && x.den >= 1 && (Abs(x.num) == 1 || x.den == 1)
    ensures Reduce(t, x) == x
  {
    if Abs(x.num) == x.den {
      UnitQuotient(x.num, x.den);
    } else {
      if t[0] != 0 {
        assert Listed(t, 0);
      }
    }
  }

  /** `fraction_is_zero` holds exactly of the fractions whose value is zero. */
  lemma IsZeroValue(x: Fraction)
    ensures IsZero(x) <==> SameValue(x, FromInt(0))
  {
  }

  // ---------------------------------------------------------------------------
  // The steps of the elimination engine, on one element

  /** Multiplying a nonzero pivot by `int2type(1) / pivot` gives exactly `1/1`. */
  lemma PivotBecomesOne(t: seq<int>, p: Fraction)
    requires ValidTable(t) && p.num != 0 && p.den != 0
    ensures Mul(t, p, Div(t, FromInt(1), p)) == FromInt(1)
  {
    var d := Div(t, FromInt(1), p);
    assert d.num * p.num == p.den * d.den;
    var m := Fraction(p.num * d.num, p.den * d.den);
    assert m.num == m.den;
    ReduceUnit(t, m);
  }

  /** Below a `1/1` pivot the cell the program sets to `int2type(0)` is what the subtraction
      would have computed. */
  lemma UnitPivotPredictsZero(t: seq<int>, a: Fraction)
    requires ValidTable(t) && a.den != 0
    ensures Sub(t, a, Mul(t, FromInt(1), a)) == FromInt(0)
  {
    var b := Mul(t, FromInt(1), a);
    assert b.num * a.den == a.num * b.den;
  }

  /** `q` stands for `a / b`. */
  ghost predicate IsQuotient(q: Fraction, a: Fraction, b: Fraction) {
    q.num * (a.den * b.num) == (a.num * b.den) * q.den
  }

  /** Scaling a cell by `int2type(1) / p` divides it by `p`. */
  lemma ScaleDividesByPivot(t: seq<int>, a: Fraction, p: Fraction)
    requires ValidTable(t) && a.den != 0 && p.num != 0 && p.den != 0
    ensures IsQuotient(Mul(t, a, Div(t, FromInt(1), p)), a, p)
  {
    var q := Div(t, FromInt(1), p);
    var r := Mul(t, a, q);
    ReciprocalScale(r.num, r.den, a.num, a.den, q.num, q.den, p.num, p.den);
  }

  lemma ReciprocalScale(rn: int, rd: int, an: int, ad: int, qn: int, qd: int, pn: int, pd: int)
    requires qd != 0 && qn * (1 * pn) == (1 * pd) * qd && rn * (ad * qd) == (an * qn) * rd
    ensures rn * (ad * pn) == (an * pd) * rd
  {
    calc {
      (rn * (ad * pn)) * qd;
      (rn * (ad * qd)) * pn;
      ((an * qn) * rd) * pn;
      (an * rd) * (qn * pn);
      (an * rd) * (pd * qd);
      ((an * pd) * rd) * qd;
    }
    CancelFactor(rn * (ad * pn), (an * pd) * rd, qd);
  }

  /** A product with a zero factor is exactly `0/1`. */
  lemma MulZero(t: seq<int>, z: Fraction, c: Fraction)
    requires ValidTable(t) && IsZero(z)
    ensures Mul(t, z, c) == FromInt(0)
  {
  }

  /** The difference of two zeros is exactly `0/1`. */
  lemma SubZero(t: seq<int>, a: Fraction, b: Fraction)
    requires ValidTable(t) && IsZero(a) && IsZero(b)
    ensures Sub(t, a, b) == FromInt(0)
  {
  }

  /** `sub(a, r)` is exactly `0/1` when `r` has the value of `a`, and nonzero otherwise. */
  lemma SubZeroIffSameValue(t: seq<int>, a: Fraction, r: Fraction)
    requires ValidTable(t) && a.den != 0 && r.den != 0
    ensures Sub(t, a, r) == FromInt(0) <==> SameValue(r, a)
  {
    var d := Fraction(a.num * r.den - r.num * a.den, a.den * r.den);
    assert SameValue(Sub(t, a, r), d);
  }

  /** The cell the program sets to `int2type(0)` is what `sub(a, mul(p, a))` would have
      computed exactly when the pivot `p` has the value 1. */
  lemma PredictedZeroIffUnitPivot(t: seq<int>, a: Fraction, p: Fraction)
    requires ValidTable(t) && a.den != 0 && !IsZero(a) && p.den != 0
    ensures Sub(t, a, Mul(t, p, a)) == FromInt(0) <==> SameValue(p, FromInt(1))
  {
    var r := Mul(t, p, a);
    SubZeroIffSameValue(t, a, r);
    ProductKeepsValueIffUnit(r.num, r.den, a.num, a.den, p.num, p.den);
  }

  lemma ProductKeepsValueIffUnit(rn: int, rd: int, an: int, ad: int, pn: int, pd: int)
    requires rd != 0 && an != 0 && pd != 0 && rn * (pd * ad) == (pn * an) * rd
    ensures rn * ad == an * rd <==> pn * 1 == 1 * pd
  {
    calc {
      (rn * ad) * pd;
      rn * (pd * ad);
      (pn * an) * rd;
      pn * (an * rd);
    }
    if rn * ad == an * rd {
      assert (an * rd) * pd == (an * rd) * pn;
      CancelFactor(pd, pn, an * rd);
    }
    if pn == pd {
      CancelFactor(rn * ad, an * rd, pd);
    }
  }

  /** With the multiplier `a / p` in place of `a`, the predicted zero is exact for every
      nonzero pivot `p`. */
  lemma ScaledPredictionExact(t: seq<int>, a: Fraction, p: Fraction)
    requires ValidTable(t) && a.den != 0 && p.num != 0 && p.den != 0
    ensures Sub(t, a, Mul(t, p, Div(t, a, p))) == FromInt(0)
  {
    var q := Div(t, a, p);
    var r := Mul(t, p, q);
    QuotientTimesDivisor(r.num, r.den, a.num, a.den, q.num, q.den, p.num, p.den);
    SubZeroIffSameValue(t, a, r);
  }

  lemma QuotientTimesDivisor(rn: int, rd: int, an: int, ad: int, qn: int, qd: int, pn: int, pd: int)
    requires pd * qd != 0
    requires qn * (ad * pn) == (an * pd) * qd && rn * (pd * qd) == (pn * qn) * rd
    ensures rn * ad == an * rd
  {
    calc {
      (rn * ad) * (pd * qd);
      (rn * (pd * qd)) * ad;
      ((pn * qn) * rd) * ad;
      (qn * (ad * pn)) * rd;
      ((an * pd) * qd) * rd;
      (an * rd) * (pd * qd);
    }
    CancelFactor(rn * ad, an * rd, pd * qd);
  }
}
