/** The arithmetic behind the rational operators: which partial gcds suffice, and what the
    resulting fractions are worth. */
module RationalLemmas {
  import opened NumberTheory

  /** The value of a fraction. */
  function Q(n: int, d: int): real
    requires d != 0
  {
    n as real / d as real
  }

  lemma RealProduct(a: int, b: int)
    ensures (a * b) as real == a as real * b as real
  {
  }

  lemma QTimes(n: int, d: int)
    requires d != 0
    ensures Q(n, d) * d as real == n as real
  {
  }

  lemma RealCancel(x: real, y: real, k: real)
    requires k != 0.0 && x * k == y * k
    ensures x == y
  {
    assert (x - y) * k == 0.0;
  }

  /** A real number times d is n. */
  lemma QUnique(x: real, n: int, d: int)
    requires d != 0 && x * d as real == n as real
    ensures x == Q(n, d)
  {
    QTimes(n, d);
    RealCancel(x, Q(n, d), d as real);
  }

  lemma QEqual(a: int, b: int, c: int, d: int)
    requires b != 0 && d != 0
    ensures Q(a, b) == Q(c, d) <==> a * d == c * b
  {
    var x, y, u, v := Q(a, b), Q(c, d), b as real, d as real;
    QTimes(a, b);
    QTimes(c, d);
    RealProduct(a, d);
    RealProduct(c, b);
    assert (x * u) * v == x * (u * v) && (y * v) * u == y * (u * v);
    assert u * v != 0.0;
    if a * d == c * b {
      RealCancel(x, y, u * v);
    }
  }

  lemma QLess(a: int, b: int, c: int, d: int)
    requires b > 0 && d > 0
    ensures Q(a, b) < Q(c, d) <==> a * d < c * b
  {
    var x, y, u, v := Q(a, b), Q(c, d), b as real, d as real;
    QTimes(a, b);
    QTimes(c, d);
    RealProduct(a, d);
    RealProduct(c, b);
    assert (x * u) * v == x * (u * v) && (y * v) * u == y * (u * v);
    assert u * v > 0.0;
    RealMonotone(x, y, u * v);
  }

  lemma RealMonotone(x: real, y: real, k: real)
    requires k > 0.0
    ensures x * k < y * k <==> x < y
  {
    assert (y - x) * k == y * k - x * k;
    if y - x > 0.0 {
      assert (y - x) * k > 0.0;
    } else {
      assert (x - y) * k >= 0.0;
    }
  }

  lemma QSum(a: int, b: int, c: int, d: int)
    requires b != 0 && d != 0
    ensures b * d != 0 && Q(a, b) + Q(c, d) == Q(a * d + c * b, b * d)
  {
    var x, y, u, v := Q(a, b), Q(c, d), b as real, d as real;
    assert b * d != 0;
    QTimes(a, b);
    QTimes(c, d);
    RealProduct(a, d);
    RealProduct(c, b);
    RealProduct(b, d);
    assert (x + y) * (u * v) == (x * u) * v + (y * v) * u;
    QUnique(x + y, a * d + c * b, b * d);
  }

  lemma QProduct(a: int, b: int, c: int, d: int)
    requires b != 0 && d != 0
    ensures b * d != 0 && Q(a, b) * Q(c, d) == Q(a * c, b * d)
  {
    var x, y, u, v := Q(a, b), Q(c, d), b as real, d as real;
    assert b * d != 0;
    QTimes(a, b);
    QTimes(c, d);
    RealProduct(a, c);
    RealProduct(b, d);
    assert (x * y) * (u * v) == (x * u) * (y * v) by {
      assert (x * y) * (u * v) == x * (y * (u * v));
      assert (x * u) * (y * v) == x * (u * (y * v));
    }
    QUnique(x * y, a * c, b * d);
  }

  /** Dividing by c/d is multiplying by d/c. */
  lemma QQuotient(a: int, b: int, c: int, d: int)
    requires b != 0 && d != 0 && c != 0
    ensures Q(c, d) != 0.0 && Q(a, b) / Q(c, d) == Q(a, b) * Q(d, c)
  {
    QTimes(c, d);
    QTimes(d, c);
    var y, z := Q(c, d), Q(d, c);
    assert (y * d as real) * z == y * (z * d as real);
    QProduct(c, d, d, c);
    QEqual(c * d, d * c, 1, 1);
    assert Q(1, 1) == 1.0;
    assert y * z == 1.0;
    RealCancel(Q(a, b) / y, Q(a, b) * z, y);
  }

  /** A common factor of numerator and denominator does not matter. */
  lemma QScale(n: int, d: int, k: int)
    requires d != 0 && k != 0
    ensures k * d != 0 && Q(k * n, k * d) == Q(n, d)
  {
    assert k * d != 0;
    assert (k * n) * d == n * (k * d);
    QEqual(k * n, k * d, n, d);
  }

  // ----- Lowest terms -----

  /** A divisor of the second operand stays coprime. */
  lemma CoprimeFactorRight(a: int, d: int, b: int)
    requires Coprime(a, d * b)
    ensures Coprime(a, b)
  {
    CoprimeSymmetric(a, d * b);
    CoprimeFactor(b, d, a);
    CoprimeSymmetric(b, a);
  }

  /** The cross term of a sum is coprime to b1. */
  lemma CrossTermCoprime(a: int, c: int, b1: int, d1: int)
    requires Coprime(a, b1) && Coprime(d1, b1)
    ensures Coprime(a * d1 + c * b1, b1)
  {
    CoprimeSymmetric(a, b1);
    CoprimeSymmetric(d1, b1);
    CoprimeProduct(b1, a, d1);
    CoprimeSymmetric(b1, a * d1);
    CoprimeShift(a * d1, b1, c);
  }

  /** The sum algorithm: with b = g b1, d = g d1, t = a d1 + c b1, it is enough to divide t
      and g by their gcd h. */
  lemma SumLowestTerms(a: int, c: int, g: int, b1: int, d1: int, h: int, t1: int, g1: int)
    requires g != 0 && h != 0 && b1 != 0 && d1 != 0
    requires Coprime(a, g * b1) && Coprime(c, g * d1) && Coprime(b1, d1)
    requires a * d1 + c * b1 == h * t1 && g == h * g1 && Coprime(t1, g1)
    ensures Coprime(t1, b1 * (g1 * d1))
    ensures b1 * (g1 * d1) != 0
    ensures Q(t1, b1 * (g1 * d1)) == Q(a, g * b1) + Q(c, g * d1)
  {
    hide Coprime, Q;
    CoprimeFactorRight(a, g, b1);
    CoprimeFactorRight(c, g, d1);
    CoprimeSymmetric(b1, d1);
    CrossTermCoprime(a, c, b1, d1);
    CrossTermCoprime(c, a, d1, b1);
    CoprimeFactor(t1, h, b1);
    CoprimeFactor(t1, h, d1);
    CoprimeProduct(t1, g1, d1);
    CoprimeProduct(t1, b1, g1 * d1);
    SumValue(a, c, g, b1, d1, h, t1, g1);
  }

  lemma SumValue(a: int, c: int, g: int, b1: int, d1: int, h: int, t1: int, g1: int)
    requires g != 0 && h != 0 && b1 != 0 && d1 != 0
    requires a * d1 + c * b1 == h * t1 && g == h * g1
    ensures b1 * (g1 * d1) != 0
    ensures Q(t1, b1 * (g1 * d1)) == Q(a, g * b1) + Q(c, g * d1)
  {
    hide Q;
    assert g1 != 0;
    assert g1 * d1 != 0;
    assert b1 * (g1 * d1) != 0;
    assert g * b1 != 0 && g * d1 != 0;
    var m := b1 * d1;
    assert m != 0;
    QSum(a, g * b1, c, g * d1);
    // (a g d1 + c g b1) / (g b1 g d1) = t / (g m) = h t1 / (h g1 m)
    assert a * (g * d1) + c * (g * b1) == g * (h * t1) by {
      assert a * (g * d1) == g * (a * d1) && c * (g * b1) == g * (c * b1);
    }
    assert (g * b1) * (g * d1) == g * (g * m) by {
      MulSwap(g, b1, g, d1);
      MulAssoc(g, g, m);
    }
    assert g * m != 0;
    QScale(h * t1, g * m, g);
    assert g * m == h * (g1 * m) by {
      MulAssoc(h, g1, m);
    }
    assert g1 * m == b1 * (g1 * d1) by {
      MulAssoc(g1, b1, d1);
      MulAssoc(b1, g1, d1);
    }
    QScale(t1, b1 * (g1 * d1), h);
  }

  /** The product algorithm: it is enough to take out the two cross gcds p and q. */
  lemma ProductLowestTerms(p: int, a1: int, d1: int, q: int, c1: int, b1: int)
    requires p != 0 && q != 0 && b1 != 0 && d1 != 0
    requires Coprime(p * a1, q * b1) && Coprime(q * c1, p * d1) && Coprime(a1, d1) && Coprime(c1, b1)
    ensures Coprime(a1 * c1, b1 * d1)
    ensures b1 * d1 != 0 && q * b1 != 0 && p * d1 != 0
    ensures Q(a1 * c1, b1 * d1) == Q(p * a1, q * b1) * Q(q * c1, p * d1)
  {
    hide Coprime, Q;
    CoprimeFactorRight(p * a1, q, b1);
    CoprimeFactor(a1, p, b1);
    CoprimeFactorRight(q * c1, p, d1);
    CoprimeFactor(c1, q, d1);
    CoprimeProduct(a1, b1, d1);
    CoprimeProduct(c1, b1, d1);
    CoprimeSymmetric(a1, b1 * d1);
    CoprimeSymmetric(c1, b1 * d1);
    CoprimeProduct(b1 * d1, a1, c1);
    CoprimeSymmetric(b1 * d1, a1 * c1);
    assert b1 * d1 != 0 && q * b1 != 0 && p * d1 != 0 && p * q != 0;
    QProduct(p * a1, q * b1, q * c1, p * d1);
    MulSwap(p, a1, q, c1);
    MulSwap(q, b1, p, d1);
    assert q * p == p * q;
    QScale(a1 * c1, b1 * d1, p * q);
  }

  lemma NegateBoth(n: int, d: int)
    requires d != 0
    ensures Q(-n, -d) == Q(n, d)
  {
    QScale(n, d, -1);
  }
}
