/** The recursive normal-form test, and greatest common divisors and least common multiples
    of rational numbers. */
module RationalGcds {
  import opened NumberTheory
  import opened RationalLemmas
  import opened Rationals

  /** Euclid's algorithm with the remainder that follows the sign of the dividend. */
  function InnerGcd(a: int, b: int): int
    decreases Abs(b)
  {
    if b == 0 then a else
      TModSmaller(a, b);
      InnerGcd(b, TMod(a, b))
  }

  lemma TModSmaller(a: int, b: int)
    requires b != 0
    ensures Abs(TMod(a, b)) == Abs(a) % Abs(b) < Abs(b)
  {
    var n, m := Abs(a), Abs(b);
    var q: int := n / m;
    assert n == m * q + n % m;
    assert b * (-q) == -(b * q) == (-b) * q;
  }

  lemma {:induction false} InnerGcdIsGcd(a: int, b: int)
    ensures Abs(InnerGcd(a, b)) == Gcd(a, b)
    decreases Abs(b)
  {
    if b != 0 {
      TModSmaller(a, b);
      InnerGcdIsGcd(b, TMod(a, b));
    }
  }

  predicate IsNormalized(n: int, d: int) {
    d > 0 && (n != 0 || d == 1) && Abs(InnerGcd(n, d)) == 1
  }

  /** The test accepts exactly the pairs that satisfy the class invariant. */
  lemma IsNormalizedIff(n: int, d: int)
    ensures IsNormalized(n, d) <==> d > 0 && Coprime(n, d)
  {
    InnerGcdIsGcd(n, d);
    if n == 0 && d > 0 && Coprime(n, d) {
      CoprimeWithZero(d);
    }
  }

  // ----- Common divisors and multiples of fractions -----

  /** n / d is an integer times u / v. */
  ghost predicate IntegerMultiple(n: int, d: int, u: int, v: int) {
    exists k: int :: Times(k * u, d) == n * v
  }

  function Scaled(k: int, y: real): real { k as real * y }

  /** x is an integer times y. */
  ghost predicate GoesInto(y: real, x: real) {
    exists k: int :: x == Scaled(k, y)
  }

  lemma ScaledIff(n: int, d: int, u: int, v: int, k: int)
    requires d != 0 && v != 0
    ensures Q(n, d) == Scaled(k, Q(u, v)) <==> Times(k * u, d) == n * v
  {
    assert Q(k, 1) == k as real;
    QProduct(k, 1, u, v);
    QEqual(n, d, k * u, v);
  }

  /** The integers say what the values are to each other. */
  lemma IntegerMultipleIff(n: int, d: int, u: int, v: int)
    requires d != 0 && v != 0
    ensures IntegerMultiple(n, d, u, v) <==> GoesInto(Q(u, v), Q(n, d))
  {
    hide Q, Scaled, Times;
    forall k: int
      ensures Q(n, d) == Scaled(k, Q(u, v)) <==> Times(k * u, d) == n * v
    {
      ScaledIff(n, d, u, v, k);
    }
  }

  /** Any fraction is one in lowest terms. */
  lemma LowestTerms(u: int, v: int) returns (n: int, d: int)
    requires v != 0
    ensures d != 0 && Coprime(n, d) && Q(n, d) == Q(u, v)
  {
    GcdPositive(u, v);
    n, d := GcdQuotients(u, v);
    QScale(n, d, Gcd(u, v));
  }

  /** If u divides n and d divides v, then n / d is an integer multiple of u / v. */
  lemma MultipleFromDivisors(n: int, d: int, u: int, v: int)
    requires Divides(u, n) && Divides(d, v)
    ensures IntegerMultiple(n, d, u, v)
  {
    hide Divides;
    var s := Quotient(u, n);
    var t := Quotient(d, v);
    MulSwap(u, s, d, t);
    assert ((s * t) * u) * d == n * v by {
      MulAssoc(s * t, u, d);
      assert (u * d) * (s * t) == (s * t) * (u * d);
    }
    assert Times((s * t) * u, d) == n * v;
  }

  /** For lowest terms the converse holds. */
  lemma DivisorsFromMultiple(n: int, d: int, u: int, v: int)
    requires Coprime(n, d) && Coprime(u, v) && IntegerMultiple(n, d, u, v)
    ensures Divides(u, n) && Divides(d, v)
  {
    hide Coprime, Divides;
    var k: int :| Times(k * u, d) == n * v;
    assert (k * u) * d == n * v;
    MulAssoc(k, u, d);
    MulAssoc(u, k, d);
    assert k * (u * d) == u * (k * d) by {
      MulAssoc(k, u, d);
      MulAssoc(u, k, d);
    }
    Multiple(u, k * d);
    assert n * v == v * n;
    CoprimeDivides(u, v, n);
    Multiple(d, k * u);
    CoprimeSymmetric(n, d);
    CoprimeDivides(d, n, v);
  }

  /** A divisor of a number coprime to b is coprime to b. */
  lemma DivisorCoprime(g: int, a: int, b: int)
    requires Coprime(a, b) && Divides(g, a)
    ensures Coprime(g, b)
  {
    var k := Quotient(g, a);
    assert a == k * g;
    CoprimeFactor(g, k, b);
  }

  /** gcd of two fractions: the gcd of the numerators over the lcm of the denominators is in
      lowest terms, goes into both an integral number of times, and every fraction that
      does so goes into it. */
  lemma FractionGcd(a: int, b: int, c: int, d: int)
    requires b > 0 && d > 0 && Coprime(a, b) && Coprime(c, d)
    ensures var g, l := Gcd(a, c), Lcm(b, d);
            && l > 0 && Coprime(g, l)
            && IntegerMultiple(a, b, g, l) && IntegerMultiple(c, d, g, l)
            && forall u: int, v: int | Coprime(u, v) && IntegerMultiple(a, b, u, v) && IntegerMultiple(c, d, u, v) ::
                 IntegerMultiple(g, l, u, v)
  {
    hide Coprime, Divides, Lcm, Gcd, IntegerMultiple;
    var g, l := Gcd(a, c), Lcm(b, d);
    GcdDivides(a, c);
    LcmProperties(b, d);
    LcmCoprime(a, b, c, d);
    MultipleFromDivisors(a, b, g, l);
    MultipleFromDivisors(c, d, g, l);
    forall u: int, v: int | Coprime(u, v) && IntegerMultiple(a, b, u, v) && IntegerMultiple(c, d, u, v)
      ensures IntegerMultiple(g, l, u, v)
    {
      DivisorsFromMultiple(a, b, u, v);
      DivisorsFromMultiple(c, d, u, v);
      GcdGreatest(u, a, c);
      MultipleFromDivisors(g, l, u, v);
    }
  }

  /** In terms of values: the gcd goes into both numbers, and every rational number that goes
      into both goes into it. */
  lemma GcdOfValues(a: int, b: int, c: int, d: int)
    requires b > 0 && d > 0 && Coprime(a, b) && Coprime(c, d)
    ensures Lcm(b, d) > 0
    ensures var x, y, g := Q(a, b), Q(c, d), Q(Gcd(a, c), Lcm(b, d));
            && GoesInto(g, x) && GoesInto(g, y)
            && forall u: int, v: int | v != 0 && GoesInto(Q(u, v), x) && GoesInto(Q(u, v), y) :: GoesInto(Q(u, v), g)
  {
    hide Q, Coprime, Gcd, Lcm, IntegerMultiple, GoesInto;
    var g, l := Gcd(a, c), Lcm(b, d);
    FractionGcd(a, b, c, d);
    IntegerMultipleIff(a, b, g, l);
    IntegerMultipleIff(c, d, g, l);
    forall u: int, v: int | v != 0 && GoesInto(Q(u, v), Q(a, b)) && GoesInto(Q(u, v), Q(c, d))
      ensures GoesInto(Q(u, v), Q(g, l))
    {
      var n, m := LowestTerms(u, v);
      IntegerMultipleIff(a, b, n, m);
      IntegerMultipleIff(c, d, n, m);
      IntegerMultipleIff(g, l, n, m);
    }
  }

  lemma LcmCoprime(a: int, b: int, c: int, d: int)
    requires b > 0 && d > 0 && Coprime(a, b) && Coprime(c, d)
    ensures Coprime(Gcd(a, c), Lcm(b, d))
  {
    hide Coprime, Divides, Lcm, Gcd;
    var g, l := Gcd(a, c), Lcm(b, d);
    GcdDivides(a, c);
    DivisorCoprime(g, a, b);
    DivisorCoprime(g, c, d);
    CoprimeProduct(g, b, d);
    LcmProperties(b, d);
    assert b * d == Gcd(b, d) * l;
    CoprimeFactorRight(g, Gcd(b, d), l);
  }

  /** lcm of two fractions: the lcm of the numerators over the gcd of the denominators is in
      lowest terms, is an integral multiple of both, and goes into every common multiple. */
  lemma FractionLcm(a: int, b: int, c: int, d: int)
    requires b > 0 && d > 0 && Coprime(a, b) && Coprime(c, d)
    ensures var l, g := Lcm(a, c), Gcd(b, d);
            && g > 0 && Coprime(l, g)
            && IntegerMultiple(l, g, a, b) && IntegerMultiple(l, g, c, d)
            && forall u: int, v: int | Coprime(u, v) && IntegerMultiple(u, v, a, b) && IntegerMultiple(u, v, c, d) ::
                 IntegerMultiple(u, v, l, g)
  {
    hide Coprime, Divides, Lcm, Gcd, IntegerMultiple;
    var l, g := Lcm(a, c), Gcd(b, d);
    GcdPositive(b, d);
    GcdDivides(b, d);
    LcmProperties(a, c);
    LcmGcdCoprime(a, b, c, d);
    MultipleFromDivisors(l, g, a, b);
    MultipleFromDivisors(l, g, c, d);
    forall u: int, v: int | Coprime(u, v) && IntegerMultiple(u, v, a, b) && IntegerMultiple(u, v, c, d)
      ensures IntegerMultiple(u, v, l, g)
    {
      DivisorsFromMultiple(u, v, a, b);
      DivisorsFromMultiple(u, v, c, d);
      GcdGreatest(v, b, d);
      MultipleFromDivisors(u, v, l, g);
    }
  }

  /** In terms of values: both numbers go into the lcm, and it goes into every rational number
      that both go into.  With a zero operand the lcm is zero. */
  lemma LcmOfValues(a: int, b: int, c: int, d: int)
    requires b > 0 && d > 0 && Coprime(a, b) && Coprime(c, d)
    ensures Gcd(b, d) > 0
    ensures var x, y, l := Q(a, b), Q(c, d), Q(Lcm(a, c), Gcd(b, d));
            && GoesInto(x, l) && GoesInto(y, l)
            && forall u: int, v: int | v != 0 && GoesInto(x, Q(u, v)) && GoesInto(y, Q(u, v)) :: GoesInto(l, Q(u, v))
  {
    hide Q, Coprime, Gcd, Lcm, IntegerMultiple, GoesInto;
    var l, g := Lcm(a, c), Gcd(b, d);
    FractionLcm(a, b, c, d);
    IntegerMultipleIff(l, g, a, b);
    IntegerMultipleIff(l, g, c, d);
    forall u: int, v: int | v != 0 && GoesInto(Q(a, b), Q(u, v)) && GoesInto(Q(c, d), Q(u, v))
      ensures GoesInto(Q(l, g), Q(u, v))
    {
      var n, m := LowestTerms(u, v);
      IntegerMultipleIff(n, m, a, b);
      IntegerMultipleIff(n, m, c, d);
      IntegerMultipleIff(n, m, l, g);
    }
  }

  lemma LcmGcdCoprime(a: int, b: int, c: int, d: int)
    requires b > 0 && d > 0 && Coprime(a, b) && Coprime(c, d)
    ensures Coprime(Lcm(a, c), Gcd(b, d))
  {
    var l, g := Lcm(a, c), Gcd(b, d);
    if a == 0 {
      CoprimeWithZero(b);
      CoprimeFromBezout(l, Gcd(1, d), 0, 1) by {
        GcdDivides(1, d);
        DivisorOfOne(Gcd(1, d));
      }
    } else if c == 0 {
      CoprimeWithZero(d);
      CoprimeFromBezout(l, Gcd(b, 1), 0, 1) by {
        GcdDivides(b, 1);
        DivisorOfOne(Gcd(b, 1));
      }
    } else {
      CoprimeSymmetric(a, b);
      CoprimeSymmetric(c, d);
      LcmOfPositive(b, a, d, c);
    }
  }

  lemma LcmOfPositive(a: int, b: int, c: int, d: int)
    requires b != 0 && d != 0 && Coprime(a, b) && Coprime(c, d)
    ensures Coprime(Lcm(b, d), Gcd(a, c))
  {
    hide Coprime, Divides, Lcm, Gcd;
    var g, l := Gcd(a, c), Lcm(b, d);
    GcdDivides(a, c);
    DivisorCoprime(g, a, b);
    DivisorCoprime(g, c, d);
    CoprimeAbs(g, b);
    CoprimeAbs(g, d);
    CoprimeProduct(g, Abs(b), Abs(d));
    LcmProperties(b, d);
    assert Abs(b) * Abs(d) == Gcd(b, d) * l;
    CoprimeFactorRight(g, Gcd(b, d), l);
    CoprimeSymmetric(g, l);
  }

  lemma CoprimeAbs(g: int, b: int)
    requires Coprime(g, b)
    ensures Coprime(g, Abs(b))
  {
  }

  /** The evaluator builds the fraction through the checked constructor, which changes nothing. */
  method GcdEvaluate(x: Rational, y: Rational, limit: int) returns (e: Outcome, r: Rational)
    requires x.Valid() && y.Valid() && limit > 0
    ensures e == Ok && r.Valid() && r.num == Gcd(x.num, y.num) && r.den == Lcm(x.den, y.den)
  {
    FractionGcd(x.num, x.den, y.num, y.den);
    e, r := BuildNormalized(Gcd(x.num, y.num), Lcm(x.den, y.den), limit);
  }

  method LcmEvaluate(x: Rational, y: Rational, limit: int) returns (e: Outcome, r: Rational)
    requires x.Valid() && y.Valid() && limit > 0
    ensures e == Ok && r.Valid() && r.num == Lcm(x.num, y.num) && r.den == Gcd(x.den, y.den)
  {
    FractionLcm(x.num, x.den, y.num, y.den);
    e, r := BuildNormalized(Lcm(x.num, y.num), Gcd(x.den, y.den), limit);
  }

  method BuildNormalized(n: int, d: int, limit: int) returns (e: Outcome, r: Rational)
    requires d > 0 && Coprime(n, d) && limit > 0
    ensures e == Ok && r.Valid() && r.num == n && r.den == d
  {
    e, r := Rational.Create(n, d, limit);
    if n != 0 {
      ExactDivision(1, d);
    }
    QEqual(r.num, r.den, n, d);
    LowestTermsUnique(r.num, r.den, n, d);
  }

  /** Unary minus: the checked constructor on the negated numerator. */
  method Negate(x: Rational, limit: int) returns (e: Outcome, r: Rational)
    requires x.Valid() && limit > 0
    ensures e == Ok && r.Valid() && r.Value() == -x.Value()
  {
    CoprimeNegate(x.num, x.den);
    NegatedNumerator(x.num, x.den);
    e, r := BuildNormalized(-x.num, x.den, limit);
  }
}
