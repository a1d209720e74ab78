/**
 * The sieve of Eratosthenes of Primes.java. The Java BitSet becomes an
 * array of n + 1 booleans where `true` means "marked, not prime"; a query
 * beyond n reads an unset bit, as BitSet.get does.
 */
module Primes {
  import opened Arith

  /** x is prime. */
  predicate Prime(x: int)
  {
    x >= 2 && forall d :: 2 <= d < x ==> x % d != 0
  }

  /** The smallest divisor of x that is at least d. */
  function LeastFactorFrom(x: int, d: int): (f: int)
    requires 2 <= d <= x
    ensures d <= f <= x && x % f == 0
    ensures forall e :: d <= e < f ==> x % e != 0
    decreases x - d
  {
    if x % d == 0 then d else LeastFactorFrom(x, d + 1)
  }

  /** The least factor of x >= 2 (x itself when x is prime). */
  function LeastFactor(x: int): (f: int)
    requires x >= 2
    ensures 2 <= f <= x && x % f == 0
    ensures forall e :: 2 <= e < f ==> x % e != 0
  {
    LeastFactorFrom(x, 2)
  }

  /** The number of primes in [0, n]. */
  function CountPrimes(n: int): int
    decreases if n < 0 then 0 else n + 1
  {
    if n < 0 then 0 else CountPrimes(n - 1) + (if Prime(n) then 1 else 0)
  }

  /** The number of set bits, as BitSet.cardinality. */
  function Cardinality(s: seq<bool>): int
  {
    if |s| == 0 then 0 else Cardinality(s[..|s| - 1]) + (if s[|s| - 1] then 1 else 0)
  }

  /** The integer square root, standing in for (int) Math.sqrt(n). */
  function ISqrt(n: nat): (r: nat)
    ensures r * r <= n < (r + 1) * (r + 1)
  {
    if n == 0 then 0
    else
      var r := ISqrt(n - 1);
      if (r + 1) * (r + 1) <= n then r + 1 else r
  }

  /** Divisibility is transitive. */
  lemma DividesTrans(d: int, f: int, x: int)
    requires d >= 1 && f >= 1 && f % d == 0 && x % f == 0
    ensures x % d == 0
  {
    var a, b := f / d, x / f;
    assert x == d * (a * b) by {
      assert f == d * a;
      assert x == f * b;
    }
    ModMultiple(d, a * b);
  }

  /** The least factor of x is prime, and x is prime iff it is its own least factor. */
  lemma LeastFactorPrime(x: int)
    requires x >= 2
    ensures Prime(LeastFactor(x))
    ensures Prime(x) <==> LeastFactor(x) == x
  {
    var f := LeastFactor(x);
    forall d | 2 <= d < f ensures f % d != 0 {
      if f % d == 0 {
        DividesTrans(d, f, x);
      }
    }
  }

  /** A composite x is at least the square of its least factor, and x / LeastFactor(x) is at least that factor. */
  lemma LeastFactorSquare(x: int)
    requires x >= 2 && LeastFactor(x) < x
    ensures LeastFactor(x) * LeastFactor(x) <= x
    ensures x == LeastFactor(x) * (x / LeastFactor(x)) && x / LeastFactor(x) >= LeastFactor(x)
  {
    var f := LeastFactor(x);
    var m := x / f;
    assert x == f * m;
    if m <= 1 {
      MulMono(f, m, 1);
    }
    var g := LeastFactor(m);
    ModMultiple(m, f);
    assert x % m == 0 by {
      assert x == m * f;
    }
    DividesTrans(g, m, x);
    MulMono(f, f, m);
  }

  /** The j-th multiple of c. */
  function Mult(c: int, j: int): int
  {
    c * j
  }

  /** The next multiple is c further on. */
  lemma MultNext(c: int, j: int)
    ensures Mult(c, j + 1) == Mult(c, j) + c
  {
    assert c * (j + 1) == c * j + c;
  }

  /** A proper multiple of c >= 2 is not prime. */
  lemma MultipleNotPrime(c: int, j: int)
    requires c >= 2 && j >= 2
    ensures !Prime(Mult(c, j))
  {
    ModMultiple(c, j);
    MulMono(c, 2, j);
  }

  /** The squares of non-negative numbers are ordered as the numbers. */
  lemma SquareMono(a: int, b: int)
    requires 0 <= a <= b
    ensures a * a <= b * b
  {
    MulMono(a, a, b);
    MulMono(b, a, b);
  }

  /**
   * The sieve state between rounds, on a snapshot of the bits: p is the last
   * prime sieved (1 before the first round) and c the next unmarked number
   * after it. Marked numbers are not prime; every composite whose least
   * factor is at most p is marked; everything strictly between p and c is
   * marked; and c, when in range, is not.
   */
  ghost predicate SieveInv(marks: seq<bool>, p: int, c: int)
  {
    |marks| >= 2 && marks[0] && marks[1] && 1 <= p < c &&
    (forall x :: 0 <= x < |marks| && marks[x] ==> !Prime(x)) &&
    (forall x :: 2 <= x < |marks| && LeastFactor(x) < x && LeastFactor(x) <= p ==> marks[x]) &&
    (forall y :: p < y < c && y < |marks| ==> marks[y]) &&
    (c < |marks| ==> !marks[c])
  }

  /** The next unmarked number is prime. */
  lemma NextUnmarkedIsPrime(marks: seq<bool>, p: int, c: int)
    requires SieveInv(marks, p, c) && c < |marks|
    ensures Prime(c)
  {
    LeastFactorPrime(c);
  }

  /**
   * After the round for c: every multiple c * j with p < j < k that is in
   * range has been marked (and nothing unmarked), and c * k is past the
   * end; then every composite with least factor at most c is marked.
   */
  lemma RoundComplete(before: seq<bool>, marks: seq<bool>, p: int, c: int, k: int)
    requires SieveInv(before, p, c) && c < |before| == |marks|
    requires forall x :: 0 <= x < |marks| && before[x] ==> marks[x]
    requires forall j :: p < j < k && 0 <= Mult(c, j) < |marks| ==> marks[Mult(c, j)]
    requires Mult(c, k) >= |marks|
    ensures forall x :: 2 <= x < |marks| && LeastFactor(x) < x && LeastFactor(x) <= c ==> marks[x]
  {
    forall x | 2 <= x < |marks| && LeastFactor(x) < x && LeastFactor(x) <= c ensures marks[x] {
      var f := LeastFactor(x);
      if f > p {
        LeastFactorPrime(x);
        if f == c {
          LeastFactorSquare(x);
          var m := x / c;
          if m >= k {
            MulMono(c, k, m);
          }
          assert Mult(c, m) == x;
        }
      }
    }
  }

  /** When the sieve stops (c past the square root of n), the marks are exactly the non-primes. */
  lemma SieveDone(marks: seq<bool>, n: int, p: int, c: int)
    requires SieveInv(marks, p, c) && |marks| == n + 1 && c > ISqrt(n)
    ensures forall x :: 0 <= x <= n ==> (marks[x] <==> !Prime(x))
  {
    forall x | 2 <= x <= n && !Prime(x) ensures marks[x] {
      LeastFactorPrime(x);
      var f := LeastFactor(x);
      LeastFactorSquare(x);
      var r := ISqrt(n);
      if f > r {
        SquareMono(r + 1, f);
      }
      if p < f {
        LeastFactorPrime(f);
      }
    }
  }

  /** The number of marked bits when the marks are exactly the non-primes. */
  lemma {:induction false} CardinalityOfNonPrimes(marks: seq<bool>, k: nat)
    requires k <= |marks|
    requires forall x :: 0 <= x < |marks| ==> (marks[x] <==> !Prime(x))
    ensures Cardinality(marks[..k]) == k - CountPrimes(k - 1)
  {
    if k > 0 {
      CardinalityOfNonPrimes(marks, k - 1);
      assert marks[..k][..k - 1] == marks[..k - 1];
    }
  }

  /** The length of the bit set after the constructor: bits 0..n, and at least bits 0 and 1. */
  function BitsLength(n: int): int
  {
    if n >= 1 then n + 1 else 2
  }

  class Primes {
    /** Bit x is set iff x is known not to be prime. */
    var primes: array<bool>
    var n: int

    ghost predicate Valid()
      reads this, primes
    {
      n >= 0 && primes.Length == BitsLength(n) &&
      forall x :: 0 <= x < primes.Length ==> (primes[x] <==> !Prime(x))
    }

    /**
     * Sieve the numbers 0..n: after the round for each prime c up to the
     * square root of n, its multiples from c * (p + 1) on are marked, p being
     * the previous prime; the next prime is the next unmarked number.
     */
    constructor(n: int)
      requires n >= 0
      ensures Valid() && this.n == n
    {
      this.n := n;
      var rootN := ISqrt(n);
      var marks := new bool[BitsLength(n)](_ => false);
      var currPrime := 2;
      marks[0] := true;
      marks[1] := true;
      var previousPrime := 1;
      while currPrime <= rootN
        invariant marks.Length == BitsLength(n)
        invariant SieveInv(marks[..], previousPrime, currPrime)
        decreases marks.Length - currPrime
      {
        assert currPrime <= n by {
          MulAtLeast(rootN, rootN);
        }
        MarkMultiples(marks, n, previousPrime, currPrime);
        previousPrime := currPrime;
        currPrime := NextClearBit(marks, currPrime + 1);
      }
      if n >= 1 {
        SieveDone(marks[..], n, previousPrime, currPrime);
      }
      primes := marks;
    }

    /** Whether x is prime; a number beyond n reads as an unset bit, so every x > n except 1 is reported prime. */
    function IsPrime(x: int): (b: bool)
      reads this, primes
      requires Valid() && x >= 0
      ensures x <= n ==> (b <==> Prime(x))
      ensures x > n ==> (b <==> x >= 2)
    {
      if x < primes.Length then !primes[x] else true
    }

    /** numPrimes as written: n minus the number of set bits plus one, which is -1 for n == 0. */
    function NumPrimesAsWritten(): (count: int)
      reads this, primes
      requires Valid()
      ensures n >= 1 ==> count == CountPrimes(n)
      ensures n == 0 ==> count == -1 && count != CountPrimes(n)
    {
      CardinalityOfNonPrimes(primes[..], primes.Length);
      assert primes[..][..primes.Length] == primes[..];
      n - Cardinality(primes[..]) + 1
    }

    /** The number of primes in [0, n], counting only the bits up to n. */
    function NumPrimes(): (count: int)
      reads this, primes
      requires Valid()
      ensures count == CountPrimes(n)
    {
      CardinalityOfNonPrimes(primes[..], n + 1);
      n + 1 - Cardinality(primes[..n + 1])
    }
  }

  /** One sieving round: mark c * (p + 1), c * (p + 2), ... up to n. */
  method MarkMultiples(marks: array<bool>, n: int, p: int, c: int)
    requires SieveInv(marks[..], p, c) && c <= n && marks.Length == n + 1
    modifies marks
    ensures marks[0] && marks[1]
    ensures forall x :: 0 <= x <= n && old(marks[x]) ==> marks[x]
    ensures forall x :: 0 <= x <= n && marks[x] ==> !Prime(x)
    ensures forall x :: 2 <= x <= n && LeastFactor(x) < x && LeastFactor(x) <= c ==> marks[x]
  {
    ghost var before := marks[..];
    ghost var k := p + 1;
    var mult := c * (p + 1);
    while mult <= n
      invariant mult == Mult(c, k) && k >= p + 1 && mult >= 0
      invariant forall x :: 0 <= x <= n && before[x] ==> marks[x]
      invariant forall x :: 0 <= x <= n && marks[x] ==> !Prime(x)
      invariant forall j :: p < j < k && 0 <= Mult(c, j) <= n ==> marks[Mult(c, j)]
      decreases n + 1 - mult
    {
      MultipleNotPrime(c, k);
      MultNext(c, k);
      marks[mult] := true;
      mult := mult + c;
      k := k + 1;
    }
    RoundComplete(before, marks[..], p, c, k);
  }

  /** The first index at or after `from` whose bit is clear (the length if there is none). */
  method NextClearBit(marks: array<bool>, from: int) returns (r: int)
    requires 0 <= from <= marks.Length
    ensures from <= r <= marks.Length
    ensures forall y :: from <= y < r ==> marks[y]
    ensures r < marks.Length ==> !marks[r]
  {
    r := from;
    while r < marks.Length && marks[r]
      invariant from <= r <= marks.Length
      invariant forall y :: from <= y < r ==> marks[y]
    {
      r := r + 1;
    }
  }
}
