/**
 * Integer arithmetic shared by the number-theory modules: Java's
 * truncating division and remainder, divisibility, and the small facts
 * about multiplication and Euclidean remainders the proofs rely on.
 */
module Arith {

  /** Absolute value. */
  function Abs(a: int): nat
  {
    if a < 0 then -a else a
  }

  /** Java's `/` on integers: the quotient truncated toward zero. */
  function JavaDiv(a: int, b: int): int
    requires b != 0
  {
    if a >= 0 then (if b > 0 then a / b else -(a / -b))
    else (if b > 0 then -((-a) / b) else (-a) / (-b))
  }

  /** Java's `%` on integers: the remainder takes the sign of the dividend. */
  function JavaRem(a: int, b: int): int
    requires b != 0
  {
    if a >= 0 then a % Abs(b) else -((-a) % Abs(b))
  }

  /** Java's division identity, and the remainder is smaller than the divisor in absolute value. */
  lemma JavaDivRem(a: int, b: int)
    requires b != 0
    ensures JavaDiv(a, b) * b + JavaRem(a, b) == a
    ensures Abs(JavaRem(a, b)) < Abs(b)
    ensures a >= 0 ==> JavaRem(a, b) >= 0
  {
    var q, r := Abs(a) / Abs(b), Abs(a) % Abs(b);
    EuclidParts(Abs(a), Abs(b));
    if a >= 0 && b > 0 {
      assert JavaDiv(a, b) == q && JavaRem(a, b) == r;
    } else if a >= 0 {
      assert JavaDiv(a, b) == -q && JavaRem(a, b) == r;
      SignedProduct(q, b);
    } else if b > 0 {
      assert JavaDiv(a, b) == -q && JavaRem(a, b) == -r;
      SignedProduct(-q, b);
    } else {
      assert JavaDiv(a, b) == q && JavaRem(a, b) == -r;
      SignedProduct(-q, b);
    }
  }

  /** Euclidean division of naturals. */
  lemma EuclidParts(e: nat, d: nat)
    requires d >= 1
    ensures e == (e / d) * d + e % d && 0 <= e % d < d
  {
  }

  /** Moving a sign between the factors. */
  lemma SignedProduct(q: int, b: int)
    ensures q * b == (-q) * (-b)
    ensures -q * b == q * (-b)
  {
  }

  /** A positive multiple is at least the multiplier. */
  lemma MulAtLeast(a: int, b: int)
    requires a >= 1 && b >= 1
    ensures a * b >= a
  {
  }

  /** A positive factor can be cancelled. */
  lemma Cancel(g: int, p: int, q: int)
    requires g >= 1 && g * p == g * q
    ensures p == q
  {
    assert g * (p - q) == 0;
    if p - q >= 1 {
      MulAtLeast(g, p - q);
    } else if p - q <= -1 {
      MulAtLeast(g, q - p);
    }
  }

  /** The remainder modulo n determines congruence: differing by a multiple of n is the same as having the same remainder. */
  lemma SameRemainder(x: int, y: int, n: int, t: int)
    requires n >= 1 && x - y == n * t
    ensures x % n == y % n
  {
    var qx, qy := x / n, y / n;
    assert x == n * qx + x % n && y == n * qy + y % n;
    assert x % n - y % n == n * (t - qx + qy);
    if t - qx + qy >= 1 {
      MulAtLeast(n, t - qx + qy);
    } else if t - qx + qy <= -1 {
      MulAtLeast(n, qx - qy - t);
    }
  }

  /** Numbers with the same remainder modulo n differ by a multiple of n. */
  lemma RemainderWitness(x: int, y: int, n: int)
    requires n >= 1 && x % n == y % n
    ensures x - y == n * (x / n - y / n)
  {
  }

  /** Exact division: (g * z) / g == z, truncating or not. */
  lemma ExactDiv(g: int, z: int)
    requires g >= 1
    ensures JavaDiv(g * z, g) == z
  {
    if z >= 0 {
      SameRemainder(g * z, 0, g, z);
      RemainderWitness(g * z, 0, g);
      Cancel(g, (g * z) / g, z);
    } else {
      SameRemainder(g * -z, 0, g, -z);
      RemainderWitness(g * -z, 0, g);
      Cancel(g, (g * -z) / g, -z);
      assert -(g * z) == g * -z;
    }
  }

  /** Multiplication by a non-negative number is monotone. */
  lemma MulMono(a: int, b: int, c: int)
    requires a >= 0 && b <= c
    ensures a * b <= a * c
  {
    assert a * c - a * b == a * (c - b);
  }

  /** d divides every multiple of d. */
  lemma ModMultiple(d: int, k: int)
    requires d >= 1
    ensures (d * k) % d == 0
  {
    SameRemainder(d * k, 0, d, k);
  }

  /** A number strictly between two consecutive multiples of m is no multiple of m. */
  lemma BetweenMultiples(m: int, q: int, y: int)
    requires m >= 1 && m * q < y < m * q + m
    ensures y % m != 0
  {
    var b := y / m;
    assert y == m * b + y % m;
    if y % m == 0 {
      if b <= q {
        MulMono(m, b, q);
      } else {
        MulMono(m, q + 1, b);
      }
    }
  }

  /** d * t, named so that quantifiers over t have a term to match. */
  function Product(d: int, t: int): int
  {
    d * t
  }

  /** d divides z. */
  ghost predicate Divides(d: int, z: int)
  {
    exists t :: z == Product(d, t)
  }

  /** Exact division by a divisor of either sign. */
  lemma ExactDivAny(g: int, z: int)
    requires g != 0
    ensures JavaDiv(g * z, g) == z
  {
    if g < 0 {
      if z <= 0 {
        ExactDiv(-g, -z);
        assert g * z == (-g) * (-z);
      } else {
        ExactDiv(-g, z);
        assert -(g * z) == (-g) * z;
      }
    } else {
      ExactDiv(g, z);
    }
  }

  /** A common divisor of b and r divides c * b + r. */
  lemma DividesCombination(a: int, b: int, c: int, r: int, g: int, tb: int, tr: int)
    requires a == c * b + r && b == g * tb && r == g * tr
    ensures a == g * (c * tb + tr)
  {
  }

  /** The absolute value of a product. */
  lemma AbsMul(x: int, y: int)
    ensures Abs(x * y) == Abs(x) * Abs(y)
  {
    if x < 0 && y >= 0 {
      assert x * y == -((-x) * y);
    } else if x >= 0 && y < 0 {
      assert x * y == -(x * (-y));
    } else if x < 0 && y < 0 {
      assert x * y == (-x) * (-y);
    }
  }

  /** Divisibility ignores the sign of the divided number. */
  lemma DividesAbs(d: int, z: int)
    ensures Divides(d, z) <==> Divides(d, Abs(z))
  {
    if Divides(d, z) {
      var t :| z == Product(d, t);
      assert Abs(z) == Product(d, if z < 0 then -t else t);
    }
    if Divides(d, Abs(z)) {
      var t :| Abs(z) == Product(d, t);
      assert z == Product(d, if z < 0 then -t else t);
    }
  }

  /** z is a multiple of |d|, hence of d. */
  lemma DividesByAbs(d: int, z: int, t: int)
    requires z == Abs(d) * t
    ensures Divides(d, z)
  {
    assert z == Product(d, if d < 0 then -t else t);
  }

  /** A divisor of a positive number is at most that number. */
  lemma DividesLe(d: int, g: int)
    requires g >= 1 && Divides(d, g)
    ensures d <= g
  {
    var t :| g == Product(d, t);
    if d > g {
      if t <= 0 {
        MulMono(d, t, 0);
      } else {
        MulAtLeast(d, t);
      }
    }
  }

  /** The only integer factors of 1 are 1 and -1. */
  lemma UnitProduct(c: int, t: int)
    requires c * t == 1
    ensures c == 1 || c == -1
  {
    AbsMul(c, t);
    if Abs(c) >= 2 && Abs(t) != 0 {
      MulMono(Abs(c), 1, Abs(t));
    }
  }
}
