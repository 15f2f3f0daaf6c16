/** The prime table that fraction reduction walks: the sieve of
    `initialize_prime_numbers` and the predicates saying what the table holds. */
module Primes {

  /** The bound the program builds its table with (`USHRT_MAX`). */
  const MAX_PRIME: nat := 65535

  /** `d` divides `n`. */
  predicate Divides(d: int, n: int)
    requires d != 0
  {
    n % d == 0
  }

  ghost predicate IsPrime(p: int) {
    p >= 2 && forall d :: 2 <= d < p ==> !Divides(d, p)
  }

  /** `i` indexes an entry of the table before the sentinel. Mentioning it is what lets a proof
      use the facts `ValidTable` states about that entry. */
  ghost predicate Listed(t: seq<int>, i: int) {
    0 <= i < |t| - 1
  }

  /** A table reduction can walk: primes in strictly ascending order, ended by the sentinel 0. */
  ghost predicate ValidTable(t: seq<int>) {
    && |t| >= 1
    && t[|t| - 1] == 0
    && (forall i {:trigger Listed(t, i)} :: Listed(t, i) ==> IsPrime(t[i]))
    && (forall i, j {:trigger Listed(t, i), Listed(t, j)} :: Listed(t, i) && Listed(t, j) && i < j ==> t[i] < t[j])
  }

  /** The table holds exactly the primes up to `n`, ascending, then the sentinel. */
  ghost predicate IsPrimeTable(t: seq<int>, n: int) {
    && ValidTable(t)
    && (forall i :: 0 <= i < |t| - 1 ==> t[i] <= n)
    && (forall p :: 2 <= p <= n && IsPrime(p) ==> p in t)
  }

  /** What the sieve still marks after the multiples of every number below `i` are crossed out. */
  ghost predicate Survives(k: int, i: int) {
    k >= 2 && forall d :: 2 <= d < i && d < k ==> !Divides(d, k)
  }

  /** The ascending list of the indices at which `s` holds. */
  ghost function TrueIndices(s: seq<bool>): seq<int> {
    if |s| == 0 then [] else TrueIndices(s[..|s| - 1]) + (if s[|s| - 1] then [|s| - 1] else [])
  }

  lemma {:induction false} TrueIndicesSpec(s: seq<bool>)
    ensures forall i :: 0 <= i < |TrueIndices(s)| ==> 0 <= TrueIndices(s)[i] < |s| && s[TrueIndices(s)[i]]
    ensures forall i, j :: 0 <= i < j < |TrueIndices(s)| ==> TrueIndices(s)[i] < TrueIndices(s)[j]
    ensures forall k :: 0 <= k < |s| && s[k] ==> k in TrueIndices(s)
  {
    if |s| > 0 {
      var s' := s[..|s| - 1];
      TrueIndicesSpec(s');
      assert forall k :: 0 <= k < |s'| ==> s'[k] == s[k];
    }
  }

  lemma TrueIndicesExtend(s: seq<bool>, i: nat)
    requires i < |s|
    ensures TrueIndices(s[..i + 1]) == TrueIndices(s[..i]) + (if s[i] then [i] else [])
  {
    assert s[..i + 1][..i] == s[..i];
  }

  lemma {:induction false} TrueIndicesPrefix(s: seq<bool>, k: nat)
    requires k <= |s|
    ensures |TrueIndices(s[..k])| <= |TrueIndices(s)|
    ensures TrueIndices(s)[..|TrueIndices(s[..k])|] == TrueIndices(s[..k])
    decreases |s| - k
  {
    if k == |s| {
      assert s[..k] == s;
    } else {
      TrueIndicesPrefix(s, k + 1);
      TrueIndicesExtend(s, k);
    }
  }

  lemma MulAtLeast(d: int, e: int)
    requires d > 0 && e >= 1
    ensures d * e >= d
  {
  }

  /** A multiple of `d` leaves remainder 0. */
  lemma MultipleDivides(d: int, c: int)
    requires d > 0
    ensures Divides(d, d * c)
  {
    var q, r := (d * c) / d, (d * c) % d;
    assert d * c == d * q + r;
    assert d * (c - q) == r;
    if c - q >= 1 {
      MulAtLeast(d, c - q);
    } else if c - q <= -1 {
      MulAtLeast(d, q - c);
    }
  }

  lemma DividesTransitive(d: int, m: int, k: int)
    requires d > 0 && m > 0 && Divides(d, m) && Divides(m, k)
    ensures Divides(d, k)
  {
    var a, b := m / d, k / m;
    assert m == d * a;
    assert k == m * b;
    assert k == d * (a * b);
    MultipleDivides(d, a * b);
  }

  /** No multiple of `i` lies strictly between consecutive multiples `j` and `j + i`. */
  lemma NoMultipleBetween(i: int, j: int, k: int)
    requires i > 0 && Divides(i, j) && j < k < j + i
    ensures !Divides(i, k)
  {
    if Divides(i, k) {
      var a, b := k / i, j / i;
      assert k == i * a && j == i * b;
      var e := a - b;
      assert i * e == k - j;
      if e >= 1 {
        MulAtLeast(i, e);
      }
    }
  }

  lemma SurvivesStep(k: int, i: int)
    requires i >= 2
    ensures Survives(k, i + 1) <==> Survives(k, i) && !(i < k && Divides(i, k))
  {
  }

  /** The indices of a sieve marking exactly the primes up to `n`, followed by 0, form the table. */
  lemma PrimeFlagsTable(flags: seq<bool>, n: int)
    requires |flags| == n + 1
    requires forall k :: 0 <= k <= n ==> (flags[k] <==> IsPrime(k))
    ensures IsPrimeTable(TrueIndices(flags) + [0], n)
  {
    TrueIndicesSpec(flags);
    var idx := TrueIndices(flags);
    var table := idx + [0];
    assert forall i :: 0 <= i < |table| - 1 ==> table[i] == idx[i];
    forall i | 0 <= i < |table| - 1
      ensures IsPrime(table[i]) && table[i] <= n
    {
      assert flags[idx[i]];
    }
    forall p | 2 <= p <= n && IsPrime(p)
      ensures p in table
    {
      assert flags[p];
      assert p in idx;
    }
  }

  /** The inner loop of `initialize_prime_numbers`: clears the entries `2i, 3i, ...` of the sieve. */
  method CrossOutMultiples(sieve: array<bool>, i: nat)
    requires 2 <= i < sieve.Length
    modifies sieve
    ensures forall k :: 0 <= k < sieve.Length ==> sieve[k] == (old(sieve[k]) && !(i < k && Divides(i, k)))
  {
    var j := 2 * i;
    MultipleDivides(i, 2);
    forall k | i < k < 2 * i
      ensures !Divides(i, k)
    {
      NoMultipleBetween(i, i, k);
    }
    while j < sieve.Length
      invariant 2 * i <= j && Divides(i, j)
      invariant forall k :: 0 <= k < sieve.Length ==> sieve[k] == (old(sieve[k]) && !(i < k < j && Divides(i, k)))
    {
      sieve[j] := false;
      forall k | j < k < j + i
        ensures !Divides(i, k)
      {
        NoMultipleBetween(i, j, k);
      }
      assert j + i == i * (j / i + 1);
      MultipleDivides(i, j / i + 1);
      j := j + i;
    }
  }

  /** The second loop of `initialize_prime_numbers`: copies the marked numbers, in order, into a
      fresh table of `numberOfPrimes + 1` entries and ends it with the sentinel 0. */
  method CollectPrimes(sieve: array<bool>, numberOfPrimes: nat) returns (table: seq<int>)
    requires numberOfPrimes == |TrueIndices(sieve[..])|
    ensures table == TrueIndices(sieve[..]) + [0]
  {
    ghost var flags := sieve[..];
    var primes := new int[numberOfPrimes + 1];
    var k, j := 0, 0;
    assert flags[..sieve.Length] == flags;
    while j < numberOfPrimes
      modifies primes
      invariant 0 <= k <= sieve.Length && 0 <= j <= numberOfPrimes
      invariant j == |TrueIndices(flags[..k])|
      invariant primes[..j] == TrueIndices(flags[..k])
      decreases sieve.Length - k
    {
      TrueIndicesExtend(flags, k);
      if sieve[k] {
        primes[j] := k;
        j := j + 1;
      }
      k := k + 1;
    }
    TrueIndicesPrefix(flags, k);
    assert primes[..numberOfPrimes] == TrueIndices(flags);
    primes[numberOfPrimes] := 0;
    table := primes[..];
  }

  /** `initialize_prime_numbers`, with the bound `n` in place of `MAX_PRIME`: crosses out the
      multiples of every number still marked, counts the survivors, then copies them into a
      fresh table of `number_of_primes + 1` entries whose last entry is the sentinel 0. */
  method InitializePrimeNumbers(n: nat) returns (table: seq<int>)
    requires n >= 1
    ensures IsPrimeTable(table, n)
  {
    var sieve := new bool[n + 1](_ => true);
    sieve[0], sieve[1] := false, false;
    var numberOfPrimes := 0;
    var i := 2;
    TrueIndicesExtend(sieve[..], 0);
    TrueIndicesExtend(sieve[..], 1);
    assert sieve[..][..0] == [] && sieve[..][..1] == sieve[..1] && sieve[..][..2] == sieve[..2];
    while i < n + 1
      modifies sieve
      invariant 2 <= i <= n + 1
      invariant forall k :: 0 <= k <= n ==> (sieve[k] <==> Survives(k, i))
      invariant numberOfPrimes == |TrueIndices(sieve[..i])|
    {
      ghost var prefix := sieve[..i + 1];
      if sieve[i] {
        CrossOutMultiples(sieve, i);
        numberOfPrimes := numberOfPrimes + 1;
      } else {
        assert !Survives(i, i);
        ghost var d :| 2 <= d < i && Divides(d, i);
        forall k | i < k <= n && Divides(i, k)
          ensures !Survives(k, i)
        {
          DividesTransitive(d, i, k);
        }
      }
      forall k | 0 <= k <= n
        ensures sieve[k] <==> Survives(k, i + 1)
      {
        SurvivesStep(k, i);
      }
      assert sieve[..i + 1] == prefix;
      TrueIndicesExtend(sieve[..], i);
      assert sieve[..][..i + 1] == sieve[..i + 1] && sieve[..][..i] == sieve[..i];
      i := i + 1;
    }
    ghost var flags := sieve[..];
    assert sieve[..i] == flags;
    assert forall k :: 0 <= k <= n ==> (flags[k] <==> IsPrime(k));
    table := CollectPrimes(sieve, numberOfPrimes);
    assert table == TrueIndices(flags) + [0];
    PrimeFlagsTable(flags, n);
  }

  /** The call `initialize_prime_numbers()` of the program, with its bound `USHRT_MAX`. */
  method InitializeProgramTable() returns (table: seq<int>)
    ensures IsPrimeTable(table, MAX_PRIME)
  {
    table := InitializePrimeNumbers(MAX_PRIME);
  }
}
