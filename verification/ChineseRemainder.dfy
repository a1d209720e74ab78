/**
 * The generalised Chinese remainder theorem of ChineseRemainder.java:
 * extended Euclid on Java's truncating `/` and `%`, the pairwise solver on
 * BigInteger arithmetic, and the fold over arrays of congruences. Java's
 * `long` and BigInteger are both modelled by unbounded integers.
 */
module ChineseRemainder {

  import opened Arith

  /** The result of extEuc: coefficients x and y and the divisor g. */
  datatype Euclid = Euclid(x: int, y: int, g: int)

  /** One step of the recursion keeps the coefficients a Bezout identity. */
  lemma BezoutStep(a: int, b: int, c: int, r: int, x1: int, y1: int, g: int)
    requires a == c * b + r && b * x1 + r * y1 == g
    ensures a * y1 + b * (x1 - c * y1) == g
  {
    assert a * y1 == c * b * y1 + r * y1;
    assert b * (x1 - c * y1) == b * x1 - c * b * y1;
  }

  /**
   * Extended Euclid: returns (x, y, g) with a * x + b * y == g. Each call
   * recurses on (b, a % b), and the remainder is smaller than b in absolute
   * value, so the recursion ends for every input, whatever the signs. For
   * non-negative arguments g is non-negative, and positive unless both are 0.
   */
  function ExtEuc(a: int, b: int): (r: Euclid)
    ensures a * r.x + b * r.y == r.g
    ensures a >= 0 && b >= 0 ==> r.g >= 0 && (a >= 1 || b >= 1 ==> r.g >= 1)
    decreases Abs(b)
  {
    if b == 0 then Euclid(1, 0, a)
    else
      var c := JavaDiv(a, b);
      var rest := JavaRem(a, b);
      JavaDivRem(a, b);
      var e := ExtEuc(b, rest);
      BezoutStep(a, b, c, rest, e.x, e.y, e.g);
      Euclid(e.y, e.x - c * e.y, e.g)
  }

  /** A common divisor of a and b divides a * x + b * y. */
  lemma DividesBezout(a: int, b: int, x: int, y: int, g: int, d: int, ta: int, tb: int)
    requires a == d * ta && b == d * tb && a * x + b * y == g
    ensures g == d * (ta * x + tb * y)
  {
  }

  /** The g of extEuc divides both arguments, and every common divisor divides g. */
  lemma {:induction false} ExtEucDivides(a: int, b: int)
    ensures Divides(ExtEuc(a, b).g, a) && Divides(ExtEuc(a, b).g, b)
    ensures forall d :: Divides(d, a) && Divides(d, b) ==> Divides(d, ExtEuc(a, b).g)
    decreases Abs(b)
  {
    var e := ExtEuc(a, b);
    if b == 0 {
      assert a == Product(a, 1) && b == Product(a, 0);
    } else {
      var c, rest := JavaDiv(a, b), JavaRem(a, b);
      JavaDivRem(a, b);
      ExtEucDivides(b, rest);
      var tb :| b == Product(e.g, tb);
      var tr :| rest == Product(e.g, tr);
      DividesCombination(a, b, c, rest, e.g, tb, tr);
      assert a == Product(e.g, c * tb + tr);
    }
    forall d | Divides(d, a) && Divides(d, b) ensures Divides(d, e.g) {
      var ta :| a == Product(d, ta);
      var tb :| b == Product(d, tb);
      DividesBezout(a, b, e.x, e.y, e.g, d, ta, tb);
      assert e.g == Product(d, ta * e.x + tb * e.y);
    }
  }

  /**
   * For non-negative a and b, extEuc's g is gcd(a, b): the non-negative
   * common divisor that every common divisor divides.
   */
  lemma ExtEucIsGcd(a: int, b: int)
    requires a >= 0 && b >= 0
    ensures var g := ExtEuc(a, b).g;
            g >= 0 && Divides(g, a) && Divides(g, b) &&
            forall d :: Divides(d, a) && Divides(d, b) ==> Divides(d, g)
  {
    ExtEucDivides(a, b);
  }

  /** The result of a solve: x and its modulus k, or (-1, -1) when there is no solution. */
  datatype Crt = Crt(x: int, k: int)

  /** A factor of a positive number with a positive cofactor is positive. */
  lemma PositiveFactor(m: int, g: int, m': int)
    requires m >= 1 && g >= 1 && m == g * m'
    ensures m' >= 1
  {
  }

  /** Dividing the Bezout identity n * v + m * u == g by g. */
  lemma CoprimeCofactors(n: int, m: int, g: int, n': int, m': int, v: int, u: int)
    requires g >= 1 && n == g * n' && m == g * m' && n * v + m * u == g
    ensures n' * v + m' * u == 1
  {
    assert g * (n' * v + m' * u) == g * 1;
    Cancel(g, n' * v + m' * u, 1);
  }

  /**
   * On positive moduli, extEuc(n, m) gives g >= 1 with n == g * n' and
   * m == g * m' for positive n' and m', and its coefficients v and u satisfy
   * n' * v + m' * u == 1.
   */
  lemma Cofactors(n: int, m: int) returns (g: int, n': int, m': int, v: int, u: int)
    requires n >= 1 && m >= 1
    ensures g == ExtEuc(n, m).g && v == ExtEuc(n, m).x && u == ExtEuc(n, m).y
    ensures g >= 1 && n' >= 1 && m' >= 1 && n == g * n' && m == g * m'
    ensures n' == JavaDiv(n, g) && m' == JavaDiv(m, g)
    ensures n' * v + m' * u == 1
  {
    var e := ExtEuc(n, m);
    g, v, u := e.g, e.x, e.y;
    ExtEucDivides(n, m);
    n' :| n == Product(g, n');
    m' :| m == Product(g, m');
    ExactDiv(g, n');
    ExactDiv(g, m');
    PositiveFactor(n, g, n');
    PositiveFactor(m, g, m');
    CoprimeCofactors(n, m, g, n', m', v, u);
  }

  /** The combined modulus n * m / g in terms of the cofactors. */
  lemma LcmAlgebra(m: int, n: int, g: int, m': int, n': int)
    requires g >= 1 && m' >= 1 && n >= 1 && m == g * m' && n == g * n'
    ensures m * n == g * (n * m') && n * m' == m * n' && n * m' >= 1
  {
    MulAtLeast(n, m');
  }

  /** The combined modulus n * m / g is positive and a multiple of both moduli. */
  lemma CombinedModulus(n: int, m: int)
    requires n >= 1 && m >= 1
    ensures var g := ExtEuc(n, m).g;
            g >= 1 &&
            JavaDiv(m * n, g) == n * JavaDiv(m, g) && JavaDiv(m * n, g) == m * JavaDiv(n, g) &&
            JavaDiv(m * n, g) >= 1
  {
    var g, n', m', v, u := Cofactors(n, m);
    LcmAlgebra(m, n, g, m', n');
    ExactDiv(g, n * m');
  }

  /**
   * solve(a, n, b, m): with g = extEuc(n, m).g, if a and b agree modulo g
   * the answer is x = (a * u * m / g + b * v * n / g) mod (m * n / g) with
   * the extEuc coefficients v of n and u of m, and k = m * n / g;
   * otherwise (-1, -1).
   */
  function Solve(a: int, n: int, b: int, m: int): (res: Crt)
    requires n >= 1 && m >= 1
  {
    var e := ExtEuc(n, m);
    var g, v, u := e.g, e.x, e.y;
    CombinedModulus(n, m);
    if a % g == b % g then
      var x := JavaDiv(a * u * m, g) + JavaDiv(b * v * n, g);
      var k := JavaDiv(m * n, g);
      Crt(x % k, k)
    else
      Crt(-1, -1)
  }

  /** Moving the factor g of m to the front of a product. */
  lemma ShiftFactor(a: int, u: int, m: int, g: int, m': int)
    requires m == g * m'
    ensures a * u * m == g * (a * u * m')
  {
  }

  /** The candidate a * u * m' + b * v * n' is a plus a multiple of n and b plus a multiple of m. */
  lemma CandidateAlgebra(a: int, b: int, n: int, m: int, g: int, n': int, m': int, v: int, u: int, t: int)
    requires n == g * n' && m == g * m' && n' * v + m' * u == 1 && b - a == g * t
    ensures a * u * m' + b * v * n' - a == n * (t * v)
    ensures a * u * m' + b * v * n' - b == m * (-t * u)
  {
    assert a == a * (n' * v + m' * u);
    assert b == b * (n' * v + m' * u);
  }

  /** Before the reduction modulo k, the candidate is a plus a multiple of n and b plus a multiple of m. */
  lemma Candidate(a: int, n: int, b: int, m: int) returns (x0: int, t: int)
    requires n >= 1 && m >= 1 && ExtEuc(n, m).g >= 1
    requires a % ExtEuc(n, m).g == b % ExtEuc(n, m).g
    ensures var e := ExtEuc(n, m);
            x0 == JavaDiv(a * e.y * m, e.g) + JavaDiv(b * e.x * n, e.g)
    ensures x0 - a == n * (t * ExtEuc(n, m).x) && x0 - b == m * (-t * ExtEuc(n, m).y)
  {
    var g, n', m', v, u := Cofactors(n, m);
    ShiftFactor(a, u, m, g, m');
    ShiftFactor(b, v, n, g, n');
    ExactDiv(g, a * u * m');
    ExactDiv(g, b * v * n');
    x0 := a * u * m' + b * v * n';
    t := b / g - a / g;
    RemainderWitness(b, a, g);
    CandidateAlgebra(a, b, n, m, g, n', m', v, u, t);
  }

  /** Two solutions of both congruences differ by a common multiple of n and m. */
  lemma NoSolutionAlgebra(a: int, b: int, y: int, n: int, m: int, g: int, n': int, m': int, s1: int, s2: int)
    requires n == g * n' && m == g * m' && y - a == n * s1 && y - b == m * s2
    ensures a - b == g * (m' * s2 - n' * s1)
  {
  }

  /**
   * When a and b disagree modulo g, no integer is congruent to a modulo n
   * and to b modulo m.
   */
  lemma NoSolution(a: int, n: int, b: int, m: int, y: int)
    requires n >= 1 && m >= 1 && ExtEuc(n, m).g >= 1
    requires a % ExtEuc(n, m).g != b % ExtEuc(n, m).g
    ensures !(y % n == a % n && y % m == b % m)
  {
    var g, n', m', v, u := Cofactors(n, m);
    if y % n == a % n && y % m == b % m {
      RemainderWitness(y, a, n);
      RemainderWitness(y, b, m);
      var s1, s2 := y / n - a / n, y / m - b / m;
      NoSolutionAlgebra(a, b, y, n, m, g, n', m', s1, s2);
      SameRemainder(a, b, g, m' * s2 - n' * s1);
    }
  }

  /** A common multiple of n and m is a multiple of n * m', since n' and m' are coprime. */
  lemma CommonMultiple(d: int, n: int, m: int, g: int, n': int, m': int, v: int, u: int, s: int, r: int)
    requires g >= 1 && n == g * n' && m == g * m' && n' * v + m' * u == 1
    requires d == n * s && d == m * r
    ensures d == (n * m') * (r * v + s * u)
  {
    assert g * (n' * s) == g * (m' * r);
    Cancel(g, n' * s, m' * r);
    assert s == s * (n' * v + m' * u);
  }

  /** From the candidate to its reduction: y - x is a multiple of k. */
  lemma ShiftByQuotient(y: int, x: int, x0: int, k: int, q: int, w: int)
    requires x0 == k * q + x && y - x0 == k * w
    ensures y - x == k * (w + q)
  {
  }

  /** From the reduced answer back to a: y - a is a multiple of n. */
  lemma BackToResidue(y: int, a: int, x: int, x0: int, k: int, n: int, m': int, q: int, w: int, tv: int)
    requires k == n * m' && x0 == k * q + x && y - x == k * w && x0 - a == n * tv
    ensures y - a == n * (m' * (w - q) + tv)
  {
  }

  /** Euclidean division by a positive k. */
  lemma EuclidDiv(x: int, k: int)
    requires k >= 1
    ensures x == k * (x / k) + x % k && 0 <= x % k < k && (x % k) % k == x % k
  {
  }

  /** Two numbers each a multiple of n away from a are a multiple of n apart. */
  lemma Difference(y: int, a: int, x0: int, n: int, s: int, t: int)
    requires y - a == n * s && x0 - a == n * t
    ensures y - x0 == n * (s - t)
  {
  }

  /**
   * When a and b agree modulo g, the answer x lies in [0, k), and an
   * integer y is congruent to a modulo n and to b modulo m exactly when it
   * is congruent to x modulo k.
   */
  lemma Solutions(a: int, n: int, b: int, m: int, y: int)
    requires n >= 1 && m >= 1 && ExtEuc(n, m).g >= 1
    requires a % ExtEuc(n, m).g == b % ExtEuc(n, m).g
    ensures var res := Solve(a, n, b, m);
            res.k >= 1 && 0 <= res.x < res.k &&
            (y % n == a % n && y % m == b % m <==> y % res.k == res.x % res.k)
  {
    CombinedModulus(n, m);
    var g, n', m', v, u := Cofactors(n, m);
    var x0, t := Candidate(a, n, b, m);
    var tv, tu := t * v, -t * u;
    var k := JavaDiv(m * n, g);
    var q := x0 / k;
    var x := x0 % k;
    assert Solve(a, n, b, m) == Crt(x, k);
    EuclidDiv(x0, k);
    if y % n == a % n && y % m == b % m {
      RemainderWitness(y, a, n);
      RemainderWitness(y, b, m);
      Difference(y, a, x0, n, y / n - a / n, tv);
      Difference(y, b, x0, m, y / m - b / m, tu);
      var s := y / n - a / n - tv;
      var r := y / m - b / m - tu;
      CommonMultiple(y - x0, n, m, g, n', m', v, u, s, r);
      ShiftByQuotient(y, x, x0, k, q, r * v + s * u);
      SameRemainder(y, x, k, r * v + s * u + q);
    }
    if y % k == x % k {
      RemainderWitness(y, x, k);
      var w := y / k - x / k;
      BackToResidue(y, a, x, x0, k, n, m', q, w, tv);
      BackToResidue(y, b, x, x0, k, m, n', q, w, tu);
      SameRemainder(y, a, n, m' * (w - q) + tv);
      SameRemainder(y, b, m, n' * (w - q) + tu);
    }
  }

  /**
   * The pairwise solve as a whole: it fails, returning (-1, -1), exactly
   * when a and b disagree modulo g = gcd(n, m), and then nothing solves
   * both congruences; otherwise it returns x in [0, k) whose residue class
   * modulo k is exactly the set of solutions.
   */
  lemma SolveSpec(a: int, n: int, b: int, m: int)
    requires n >= 1 && m >= 1
    ensures ExtEuc(n, m).g >= 1
    ensures var res := Solve(a, n, b, m);
            var g := ExtEuc(n, m).g;
            (res == Crt(-1, -1) <==> a % g != b % g) &&
            (res == Crt(-1, -1) ==> forall y :: !(y % n == a % n && y % m == b % m)) &&
            (res != Crt(-1, -1) ==>
               res.k >= 1 && 0 <= res.x < res.k &&
               forall y :: y % n == a % n && y % m == b % m <==> y % res.k == res.x % res.k)
  {
    var g := ExtEuc(n, m).g;
    var res := Solve(a, n, b, m);
    if a % g == b % g {
      Solutions(a, n, b, m, 0);
      var x, k := res.x, res.k;
      forall y ensures y % n == a % n && y % m == b % m <==> y % k == x % k {
        Solutions(a, n, b, m, y);
      }
    } else {
      forall y ensures !(y % n == a % n && y % m == b % m) {
        NoSolution(a, n, b, m, y);
      }
    }
  }

  /** y satisfies the first i congruences y = a[j] (mod m[j]). */
  ghost predicate SolvesUpTo(y: int, a: seq<int>, m: seq<int>, i: int)
    requires 0 <= i <= |a| <= |m|
    requires forall j :: 0 <= j < |m| ==> m[j] >= 1
  {
    forall j :: 0 <= j < i ==> y % m[j] == a[j] % m[j]
  }

  /**
   * solve(a, m): folds the pairwise solve over the congruences
   * y = a[i] (mod m[i]), stopping with (-1, -1) at the first that cannot be
   * combined. On failure no integer satisfies them all; on success the
   * integers satisfying them all are exactly those congruent to x modulo k.
   */
  method SolveAll(a: seq<int>, m: seq<int>) returns (res: Crt)
    requires 1 <= |a| <= |m|
    requires forall j :: 0 <= j < |m| ==> m[j] >= 1
    ensures res == Crt(-1, -1) ==> forall y :: !SolvesUpTo(y, a, m, |a|)
    ensures res != Crt(-1, -1) ==> res.k >= 1 && forall y :: SolvesUpTo(y, a, m, |a|) <==> y % res.k == res.x % res.k
  {
    var x := a[0];
    var k := m[0];
    res := Crt(x, k);
    for i := 1 to |a|
      invariant res == Crt(x, k) && k >= 1
      invariant forall y :: SolvesUpTo(y, a, m, i) <==> y % k == x % k
    {
      ghost var x0, k0 := x, k;
      res := Solve(a[i], m[i], x, k);
      SolveSpec(a[i], m[i], x, k);
      forall y ensures SolvesUpTo(y, a, m, i + 1) <==> y % m[i] == a[i] % m[i] && y % k0 == x0 % k0 {
        assert SolvesUpTo(y, a, m, i + 1) <==> SolvesUpTo(y, a, m, i) && y % m[i] == a[i] % m[i];
      }
      x := res.x;
      k := res.k;
      if x == -1 {
        forall y ensures !SolvesUpTo(y, a, m, |a|) {
          if SolvesUpTo(y, a, m, |a|) {
            assert SolvesUpTo(y, a, m, i + 1);
          }
        }
        return Crt(-1, -1);
      }
    }
  }
}
