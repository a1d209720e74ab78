/**
 * Rational numbers as in Rational.java: an immutable numerator and
 * denominator pair whose operations return new values. Java's `long` is
 * modelled by unbounded integers; the meaning of a rational with a
 * non-zero denominator is the real number numer / denom.
 */
module Rational {
  import opened Arith

  datatype Rational = Rational(numer: int, denom: int)

  /** The real number a rational with a non-zero denominator stands for. */
  function Value(r: Rational): real
    requires r.denom != 0
  {
    r.numer as real / r.denom as real
  }

  /** Euclid's algorithm on positive numbers, by remainders, as gcd's loop runs it. */
  function EuclidGcd(big: int, small: int): (g: int)
    requires big >= 1 && small >= 1
    ensures 1 <= g <= small
    decreases small
  {
    var rest := big % small;
    if rest == 0 then small else EuclidGcd(small, rest)
  }

  /**
   * Java's gcd: b when a is 0, a when b is 0 (signs kept), and otherwise
   * Euclid on the absolute values, the larger first.
   */
  function GcdOf(a: int, b: int): int
  {
    if a == 0 then b
    else if b == 0 then a
    else
      var big, small := Abs(a), Abs(b);
      if big < small then EuclidGcd(small, big) else EuclidGcd(big, small)
  }

  /** The loop of gcd, on the locals big, small and rest. */
  method Gcd(a: int, b: int) returns (g: int)
    ensures g == GcdOf(a, b)
  {
    if a == 0 {
      return b;
    } else if b == 0 {
      return a;
    }
    var big := Abs(a);
    var small := Abs(b);
    if big < small {
      var tmp := small;
      small := big;
      big := tmp;
    }
    var rest := big % small;
    while rest != 0
      invariant big >= 1 && small >= 1 && rest == big % small
      invariant EuclidGcd(big, small) == GcdOf(a, b)
      decreases small
    {
      big := small;
      small := rest;
      rest := big % small;
    }
    return small;
  }

  /** A common divisor of big and small divides big - q * small. */
  lemma DividesDifference(big: int, small: int, q: int, rest: int, d: int, tb: int, ts: int)
    requires rest == big - small * q && big == d * tb && small == d * ts
    ensures rest == d * (tb - ts * q)
  {
  }

  /** Euclid's result divides both arguments, and every common divisor divides it. */
  lemma {:induction false} EuclidDivides(big: int, small: int)
    requires big >= 1 && small >= 1
    ensures Divides(EuclidGcd(big, small), big) && Divides(EuclidGcd(big, small), small)
    ensures forall d :: Divides(d, big) && Divides(d, small) ==> Divides(d, EuclidGcd(big, small))
    decreases small
  {
    var g := EuclidGcd(big, small);
    var q, rest := big / small, big % small;
    assert big == small * q + rest;
    if rest == 0 {
      assert small == Product(small, 1) && big == Product(small, q);
    } else {
      EuclidDivides(small, rest);
      var ts :| small == Product(g, ts);
      var tr :| rest == Product(g, tr);
      DividesCombination(big, small, q, rest, g, ts, tr);
      assert big == Product(g, q * ts + tr);
      forall d | Divides(d, big) && Divides(d, small) ensures Divides(d, g) {
        var tb :| big == Product(d, tb);
        var ts' :| small == Product(d, ts');
        DividesDifference(big, small, q, rest, d, tb, ts');
        assert rest == Product(d, tb - ts' * q);
      }
    }
  }

  /**
   * gcd(0, b) == b and gcd(a, 0) == a; for non-zero a and b the result is
   * positive, divides both, is divisible by every common divisor and so is
   * the greatest of them.
   */
  lemma GcdSpec(a: int, b: int)
    ensures a == 0 ==> GcdOf(a, b) == b
    ensures a != 0 && b == 0 ==> GcdOf(a, b) == a
    ensures a != 0 && b != 0 ==>
              var g := GcdOf(a, b);
              g >= 1 && Divides(g, a) && Divides(g, b) &&
              forall d :: Divides(d, a) && Divides(d, b) ==> Divides(d, g) && d <= g
  {
    if a != 0 && b != 0 {
      var g := GcdOf(a, b);
      if Abs(a) < Abs(b) {
        EuclidDivides(Abs(b), Abs(a));
      } else {
        EuclidDivides(Abs(a), Abs(b));
      }
      DividesAbs(g, a);
      DividesAbs(g, b);
      forall d | Divides(d, a) && Divides(d, b) ensures Divides(d, g) && d <= g {
        DividesAbs(d, a);
        DividesAbs(d, b);
        DividesLe(d, g);
      }
    }
  }

  /** Java's lcm: |a * b| / gcd(a, b). */
  function Lcm(a: int, b: int): int
    requires a != 0 || b != 0
  {
    JavaDiv(Abs(a * b), GcdOf(a, b))
  }

  /** Taking out a positive factor g commutes with the absolute value. */
  lemma ScaleAbs(x: int, g: int, t: int)
    requires g >= 1 && x == g * t
    ensures Abs(x) == g * Abs(t)
  {
    AbsMul(g, t);
  }

  /** |a * b| / g in terms of the cofactors a == g * ta and b == g * tb. */
  lemma LcmAlgebra(A: int, B: int, AB: int, g: int, TA: int, TB: int)
    requires g >= 1 && AB == A * B && A == g * TA && B == g * TB
    ensures AB == g * (A * TB) && A * TB == B * TA
  {
  }

  /** For non-zero arguments, the lcm is positive and a multiple of both. */
  lemma LcmSpec(a: int, b: int)
    requires a != 0 && b != 0
    ensures Lcm(a, b) >= 1 && Divides(a, Lcm(a, b)) && Divides(b, Lcm(a, b))
  {
    GcdSpec(a, b);
    var g := GcdOf(a, b);
    var ta :| a == Product(g, ta);
    var tb :| b == Product(g, tb);
    ScaleAbs(a, g, ta);
    ScaleAbs(b, g, tb);
    AbsMul(a, b);
    var A, B, TA, TB := Abs(a), Abs(b), Abs(ta), Abs(tb);
    LcmAlgebra(A, B, Abs(a * b), g, TA, TB);
    ExactDiv(g, A * TB);
    MulAtLeast(A, TB);
    DividesByAbs(a, Lcm(a, b), TB);
    DividesByAbs(b, Lcm(a, b), TA);
  }

  /** this + r: both numerators brought to the denominator lcm(d1, d2). */
  function Add(p: Rational, r: Rational): Rational
    requires p.denom != 0 && r.denom != 0
  {
    var lcm := Lcm(p.denom, r.denom);
    LcmSpec(p.denom, r.denom);
    Rational(p.numer * JavaDiv(lcm, p.denom) + r.numer * JavaDiv(lcm, r.denom), lcm)
  }

  /** this - r: both numerators brought to the denominator lcm(d1, d2). */
  function Sub(p: Rational, r: Rational): Rational
    requires p.denom != 0 && r.denom != 0
  {
    var lcm := Lcm(p.denom, r.denom);
    LcmSpec(p.denom, r.denom);
    Rational(p.numer * JavaDiv(lcm, p.denom) - r.numer * JavaDiv(lcm, r.denom), lcm)
  }

  /** this * r, unreduced. */
  function Mul(p: Rational, r: Rational): Rational
  {
    Rational(p.numer * r.numer, p.denom * r.denom)
  }

  /** this / r, unreduced. */
  function Div(p: Rational, r: Rational): Rational
  {
    Rational(p.numer * r.denom, p.denom * r.numer)
  }

  /** Numerator and denominator divided by their gcd. */
  function Reduced(p: Rational): Rational
    requires p.numer != 0 || p.denom != 0
  {
    var gcd := GcdOf(p.numer, p.denom);
    GcdSpec(p.numer, p.denom);
    Rational(JavaDiv(p.numer, gcd), JavaDiv(p.denom, gcd))
  }

  /** The numerator and denominator toString prints: a negative denominator's sign moves to the numerator. */
  function Displayed(p: Rational): (s: Rational)
    ensures s.denom == Abs(p.denom) && s.denom >= 0
    ensures p.denom != 0 ==> Value(s) == Value(p)
  {
    if p.denom < 0 then Rational(-p.numer, -p.denom) else p
  }

  /** Fractions over a common denominator l == d1 * q1 == d2 * q2 add and subtract by their numerators. */
  lemma CommonDenominator(n1: int, n2: int, d1: int, d2: int, q1: int, q2: int, l: int)
    requires d1 != 0 && d2 != 0 && l != 0 && l == d1 * q1 && l == d2 * q2
    ensures (n1 * q1 + n2 * q2) as real / l as real == n1 as real / d1 as real + n2 as real / d2 as real
    ensures (n1 * q1 - n2 * q2) as real / l as real == n1 as real / d1 as real - n2 as real / d2 as real
  {
    var L, Q1, Q2 := l as real, q1 as real, q2 as real;
    assert L == d1 as real * Q1 && L == d2 as real * Q2;
    assert Q1 == L / d1 as real;
    assert Q2 == L / d2 as real;
    assert (n1 * q1 + n2 * q2) as real == n1 as real * Q1 + n2 as real * Q2;
    assert (n1 * q1 - n2 * q2) as real == n1 as real * Q1 - n2 as real * Q2;
  }

  /** The quotients lcm / d1 and lcm / d2 are exact. */
  lemma LcmQuotients(d1: int, d2: int) returns (q1: int, q2: int)
    requires d1 != 0 && d2 != 0
    ensures Lcm(d1, d2) >= 1
    ensures q1 == JavaDiv(Lcm(d1, d2), d1) && Lcm(d1, d2) == d1 * q1
    ensures q2 == JavaDiv(Lcm(d1, d2), d2) && Lcm(d1, d2) == d2 * q2
  {
    LcmSpec(d1, d2);
    q1 :| Lcm(d1, d2) == Product(d1, q1);
    q2 :| Lcm(d1, d2) == Product(d2, q2);
    ExactDivAny(d1, q1);
    ExactDivAny(d2, q2);
  }

  /** add returns a positive denominator and the sum of the values. */
  lemma AddValue(p: Rational, r: Rational)
    requires p.denom != 0 && r.denom != 0
    ensures Add(p, r).denom >= 1 && Value(Add(p, r)) == Value(p) + Value(r)
  {
    var q1, q2 := LcmQuotients(p.denom, r.denom);
    var l := Lcm(p.denom, r.denom);
    assert Add(p, r) == Rational(p.numer * q1 + r.numer * q2, l);
    CommonDenominator(p.numer, r.numer, p.denom, r.denom, q1, q2, l);
  }

  /** sub returns a positive denominator and the difference of the values. */
  lemma SubValue(p: Rational, r: Rational)
    requires p.denom != 0 && r.denom != 0
    ensures Sub(p, r).denom >= 1 && Value(Sub(p, r)) == Value(p) - Value(r)
  {
    var q1, q2 := LcmQuotients(p.denom, r.denom);
    var l := Lcm(p.denom, r.denom);
    assert Sub(p, r) == Rational(p.numer * q1 - r.numer * q2, l);
    CommonDenominator(p.numer, r.numer, p.denom, r.denom, q1, q2, l);
  }

  /** mul multiplies the values. */
  lemma MulValue(p: Rational, r: Rational)
    requires p.denom != 0 && r.denom != 0
    ensures Mul(p, r).denom != 0 && Value(Mul(p, r)) == Value(p) * Value(r)
  {
  }

  /** div divides the values, when the divisor is not zero. */
  lemma DivValue(p: Rational, r: Rational)
    requires p.denom != 0 && r.denom != 0 && r.numer != 0
    ensures Div(p, r).denom != 0 && Value(Div(p, r)) == Value(p) / Value(r)
  {
  }

  /** Dividing numerator and denominator by the same positive g keeps the value. */
  lemma CancelCommon(n: int, d: int, g: int, tn: int, td: int)
    requires g >= 1 && d != 0 && n == g * tn && d == g * td
    ensures td != 0 && tn as real / td as real == n as real / d as real
  {
    var G := g as real;
    assert n as real == G * tn as real && d as real == G * td as real;
  }

  /** A divisor c of the cofactor tn of n == g * tn gives the divisor c * g of n. */
  lemma ScaleDivisor(n: int, g: int, tn: int, c: int, kn: int)
    requires n == g * tn && tn == c * kn
    ensures n == Product(c * g, kn)
  {
  }

  /** If c * g divides the positive g, then c is 1 or -1. */
  lemma UnitDivisor(g: int, c: int, t: int)
    requires g >= 1 && g == (c * g) * t
    ensures c == 1 || c == -1
  {
    assert g * (c * t) == g * 1;
    Cancel(g, c * t, 1);
    UnitProduct(c, t);
  }

  /**
   * reduced keeps the value; zero becomes 0 / 1; and otherwise the result
   * is in lowest terms: its only common divisors are 1 and -1.
   */
  lemma ReducedSpec(p: Rational)
    requires p.denom != 0
    ensures Reduced(p).denom != 0 && Value(Reduced(p)) == Value(p)
    ensures p.numer == 0 ==> Reduced(p) == Rational(0, 1)
    ensures p.numer != 0 ==>
              forall c :: Divides(c, Reduced(p).numer) && Divides(c, Reduced(p).denom) ==> c == 1 || c == -1
  {
    GcdSpec(p.numer, p.denom);
    var g := GcdOf(p.numer, p.denom);
    if p.numer == 0 {
      ExactDivAny(p.denom, 1);
      assert JavaDiv(0, p.denom) == 0;
    } else {
      var n, d := p.numer, p.denom;
      var tn :| n == Product(g, tn);
      var td :| d == Product(g, td);
      ExactDiv(g, tn);
      ExactDiv(g, td);
      assert Reduced(p) == Rational(tn, td);
      CancelCommon(n, d, g, tn, td);
      forall c | Divides(c, tn) && Divides(c, td) ensures c == 1 || c == -1 {
        var kn :| tn == Product(c, kn);
        var kd :| td == Product(c, kd);
        ScaleDivisor(n, g, tn, c, kn);
        ScaleDivisor(d, g, td, c, kd);
        assert Divides(c * g, n) && Divides(c * g, d);
        var t :| g == Product(c * g, t);
        UnitDivisor(g, c, t);
      }
    }
  }
}
