/** Divisibility, greatest common divisors and the truncating division of the machine. */
module NumberTheory {

  function Times(d: int, k: int): int {
    d * k
  }

  ghost predicate Divides(d: int, a: int) {
    exists k: int :: Times(d, k) == a
  }

  function Abs(a: int): nat {
    if a < 0 then -a else a
  }

  function GcdNat(a: nat, b: nat): (g: nat)
    decreases b
  {
    if b == 0 then a else GcdNat(b, a % b)
  }

  /** The nonnegative greatest common divisor. */
  function Gcd(a: int, b: int): nat {
    GcdNat(Abs(a), Abs(b))
  }

  /** The least common multiple. */
  function Lcm(a: int, b: int): int {
    if a == 0 || b == 0 then 0 else
      GcdPositive(a, b);
      Abs(a) / Gcd(a, b) * Abs(b)
  }

  ghost predicate Coprime(a: int, b: int) {
    Gcd(a, b) == 1
  }

  /** Division towards zero. */
  function TDiv(a: int, b: int): int
    requires b != 0
  {
    if (a < 0) == (b < 0) then Abs(a) / Abs(b) else -(Abs(a) / Abs(b))
  }

  /** The remainder of division towards zero; it has the sign of a. */
  function TMod(a: int, b: int): int
    requires b != 0
  {
    a - b * TDiv(a, b)
  }

  /** Division truncates towards zero: the remainder is smaller than the divisor and has the
      sign of the dividend. */
  lemma TruncatingDivision(a: int, b: int)
    requires b != 0
    ensures a == b * TDiv(a, b) + TMod(a, b)
    ensures Abs(TMod(a, b)) < Abs(b)
    ensures a >= 0 ==> TMod(a, b) >= 0
    ensures a <= 0 ==> TMod(a, b) <= 0
  {
    var n, m := Abs(a), Abs(b);
    var q: nat := n / m;
    assert n == m * q + n % m;
    SignedProducts(m, q);
    assert b * TDiv(a, b) == if a < 0 then -(m * q) else m * q;
  }

  lemma SignedProducts(m: int, q: int)
    ensures m * (-q) == -(m * q) == (-m) * q && (-m) * (-q) == m * q
  {
  }


  // ----- Products -----

  lemma MulAssoc(a: int, b: int, c: int)
    ensures (a * b) * c == a * (b * c)
  {
  }

  /** The only multiple of n strictly between -n and n is zero. */
  lemma SmallMultiple(n: int, k: int)
    requires n > 0 && -n < n * k < n
    ensures k == 0
  {
  }

  lemma CancelFactor(g: int, a: int, b: int)
    requires g != 0 && g * a == g * b
    ensures a == b
  {
    assert g * (a - b) == 0;
  }

  // ----- Divides -----

  lemma Multiple(d: int, k: int)
    ensures Divides(d, d * k) && Divides(d, k * d)
  {
    assert Times(d, k) == d * k;
  }

  lemma Quotient(d: int, a: int) returns (k: int)
    requires Divides(d, a)
    ensures a == d * k
  {
    k :| Times(d, k) == a;
  }

  lemma DividesCombination(d: int, a: int, x: int, b: int, y: int)
    requires Divides(d, a) && Divides(d, b)
    ensures Divides(d, a * x + b * y)
  {
    var k := Quotient(d, a);
    var l := Quotient(d, b);
    assert a * x + b * y == d * (k * x + l * y) by {
      assert (d * k) * x == d * (k * x) && (d * l) * y == d * (l * y);
    }
    Multiple(d, k * x + l * y);
  }

  lemma DivisorOfOne(d: int)
    requires d >= 0 && Divides(d, 1)
    ensures d == 1
  {
    var k := Quotient(d, 1);
    if d >= 2 {
      SmallMultiple(d, k);
    }
  }

  lemma DividesBothWays(a: int, b: int)
    requires a >= 0 && b >= 0 && Divides(a, b) && Divides(b, a)
    ensures a == b
  {
    var k := Quotient(a, b);
    var l := Quotient(b, a);
    if a > 0 {
      MulAssoc(a, k, l);
      CancelFactor(a, k * l, 1);
      Multiple(Abs(k), if k < 0 then -l else l);
      assert Abs(k) * (if k < 0 then -l else l) == k * l;
      DivisorOfOne(Abs(k));
    }
  }

  // ----- Gcd -----

  lemma Bezout(a: int, b: int) returns (x: int, y: int)
    ensures a * x + b * y == Gcd(a, b)
  {
    x, y := BezoutNat(Abs(a), Abs(b));
    if a < 0 {
      assert a * (-x) == -a * x;
      x := -x;
    }
    if b < 0 {
      assert b * (-y) == -b * y;
      y := -y;
    }
  }

  lemma {:induction false} BezoutNat(a: nat, b: nat) returns (x: int, y: int)
    ensures a * x + b * y == GcdNat(a, b)
    decreases b
  {
    if b == 0 {
      x, y := 1, 0;
    } else {
      var u, v := BezoutNat(b, a % b);
      var q := a / b;
      x, y := v, u - q * v;
      assert a % b == a - b * q;
      assert (a - b * q) * v == a * v - b * (q * v);
      assert b * (u - q * v) == b * u - b * (q * v);
    }
  }

  lemma {:induction false} GcdNatDivides(a: nat, b: nat)
    ensures Divides(GcdNat(a, b), a) && Divides(GcdNat(a, b), b)
    decreases b
  {
    if b == 0 {
      Multiple(a, 1);
      Multiple(a, 0);
    } else {
      var g := GcdNat(a, b);
      GcdNatDivides(b, a % b);
      DividesCombination(g, b, a / b, a % b, 1);
      assert b * (a / b) + a % b * 1 == a;
    }
  }

  lemma GcdDivides(a: int, b: int)
    ensures Divides(Gcd(a, b), a) && Divides(Gcd(a, b), b)
  {
    var g := Gcd(a, b);
    GcdNatDivides(Abs(a), Abs(b));
    DividesCombination(g, Abs(a), if a < 0 then -1 else 1, 0, 0) by {
      Multiple(g, 0);
    }
    DividesCombination(g, Abs(b), if b < 0 then -1 else 1, 0, 0) by {
      Multiple(g, 0);
    }
  }

  /** Every common divisor divides the greatest. */
  lemma GcdGreatest(d: int, a: int, b: int)
    requires Divides(d, a) && Divides(d, b)
    ensures Divides(d, Gcd(a, b))
  {
    var x, y := Bezout(a, b);
    DividesCombination(d, a, x, b, y);
  }

  lemma {:induction false} GcdNatPositive(a: nat, b: nat)
    requires a > 0 || b > 0
    ensures GcdNat(a, b) > 0
    decreases b
  {
    if b > 0 {
      GcdNatPositive(b, a % b);
    }
  }

  lemma GcdPositive(a: int, b: int)
    requires a != 0 || b != 0
    ensures Gcd(a, b) > 0
  {
    GcdNatPositive(Abs(a), Abs(b));
  }

  lemma GcdSymmetric(a: int, b: int)
    ensures Gcd(a, b) == Gcd(b, a)
  {
    GcdDivides(a, b);
    GcdDivides(b, a);
    GcdGreatest(Gcd(a, b), b, a);
    GcdGreatest(Gcd(b, a), a, b);
    DividesBothWays(Gcd(a, b), Gcd(b, a));
  }

  /** Taking out the gcd: both operands are multiples of it, and exact division is exact. */
  lemma GcdQuotients(a: int, b: int) returns (a': int, b': int)
    requires a != 0 || b != 0
    ensures var g := Gcd(a, b);
            g > 0 && a == g * a' && b == g * b' && TDiv(a, g) == a' && TDiv(b, g) == b' && Coprime(a', b')
  {
    hide Gcd, TDiv;
    var g := Gcd(a, b);
    GcdPositive(a, b);
    GcdDivides(a, b);
    a' := Quotient(g, a);
    b' := Quotient(g, b);
    ExactDivision(g, a');
    ExactDivision(g, b');
    var x, y := Bezout(a, b);
    MulAssoc(g, a', x);
    MulAssoc(g, b', y);
    assert g * (a' * x + b' * y) == g * 1;
    CancelFactor(g, a' * x + b' * y, 1);
    CoprimeFromBezout(a', b', x, y);
  }

  lemma ExactDivision(d: int, k: int)
    requires d != 0
    ensures TDiv(d * k, d) == k
  {
    AbsProduct(d, k);
    NatDivision(Abs(d), Abs(k));
    ProductSign(d, k);
  }

  lemma ProductSign(d: int, k: int)
    requires d != 0
    ensures d * k < 0 <==> (d < 0 && k > 0) || (d > 0 && k < 0)
  {
  }

  lemma AbsProduct(d: int, k: int)
    ensures Abs(d * k) == Abs(d) * Abs(k)
  {
    if d == 0 {
    } else {
      ProductSign(d, k);
      assert (-d) * k == -(d * k) == d * (-k);
      assert (-d) * (-k) == d * k;
    }
  }

  lemma NatDivision(n: nat, m: nat)
    requires n > 0
    ensures (n * m) / n == m
  {
    var q, r := (n * m) / n, (n * m) % n;
    assert n * m == n * q + r;
    assert n * (m - q) == n * m - n * q;
    SmallMultiple(n, m - q);
  }

  // ----- Coprime -----

  lemma CoprimeFromBezout(a: int, b: int, x: int, y: int)
    requires a * x + b * y == 1
    ensures Coprime(a, b)
  {
    GcdDivides(a, b);
    DividesCombination(Gcd(a, b), a, x, b, y);
    DivisorOfOne(Gcd(a, b));
  }

  lemma CoprimeSymmetric(a: int, b: int)
    requires Coprime(a, b)
    ensures Coprime(b, a)
  {
    GcdSymmetric(a, b);
  }

  lemma CoprimeProduct(a: int, b: int, c: int)
    requires Coprime(a, b) && Coprime(a, c)
    ensures Coprime(a, b * c)
  {
    hide Gcd;
    var x, y := Bezout(a, b);
    var u, v := Bezout(a, c);
    MulSwap(b, c, y, v);
    ProductOfRests(a * x, a * u, b * y, c * v);
    MulAssoc(a, x, a * u);
    var w := x + u - x * (a * u);
    assert a * w == a * x + a * u - a * (x * (a * u));
    CoprimeFromBezout(a, b * c, w, y * v);
  }

  lemma ProductOfRests(s: int, t: int, p: int, q: int)
    requires s + p == 1 && t + q == 1
    ensures p * q == 1 - s - t + s * t
  {
    assert p * q == (1 - s) * (1 - t);
  }

  lemma MulSwap(a: int, b: int, c: int, d: int)
    ensures (a * b) * (c * d) == (a * c) * (b * d)
  {
    MulAssoc(a, b, c * d);
    MulAssoc(a, c, b * d);
    assert b * (c * d) == c * (b * d) by {
      MulAssoc(b, c, d);
      MulAssoc(c, b, d);
    }
  }

  lemma CoprimeFactor(a: int, d: int, b: int)
    requires Coprime(d * a, b)
    ensures Coprime(a, b)
  {
    var x, y := Bezout(d * a, b);
    assert (d * a) * x == a * (d * x);
    CoprimeFromBezout(a, b, d * x, y);
  }

  lemma CoprimeShift(a: int, b: int, k: int)
    requires Coprime(a, b)
    ensures Coprime(a + k * b, b)
  {
    var x, y := Bezout(a, b);
    assert (a + k * b) * x + b * (y - k * x) == a * x + b * y;
    CoprimeFromBezout(a + k * b, b, x, y - k * x);
  }

  lemma CoprimeNegate(a: int, b: int)
    requires Coprime(a, b)
    ensures Coprime(-a, b) && Coprime(a, -b) && Coprime(-a, -b)
  {
  }

  lemma CoprimeWithZero(b: int)
    requires Coprime(0, b)
    ensures Abs(b) == 1
  {
    GcdSymmetric(0, b);
  }

  /** Euclid's lemma. */
  lemma CoprimeDivides(a: int, b: int, c: int)
    requires Coprime(a, b) && Divides(a, b * c)
    ensures Divides(a, c)
  {
    hide Divides;
    var x, y := Bezout(a, b);
    Regroup(a, b, c, x, y);
    DividesSelf(a);
    DividesCombination(a, a, x * c, b * c, y);
  }

  lemma Regroup(a: int, b: int, c: int, x: int, y: int)
    requires a * x + b * y == 1
    ensures a * (x * c) + (b * c) * y == c
  {
    assert a * (x * c) + (b * c) * y == (a * x + b * y) * c;
  }

  lemma DividesSelf(a: int)
    ensures Divides(a, a)
  {
    Multiple(a, 1);
  }

  /** A number in lowest terms has only one representation with positive denominator. */
  lemma LowestTermsUnique(a: int, b: int, c: int, d: int)
    requires b > 0 && d > 0 && Coprime(a, b) && Coprime(c, d) && a * d == c * b
    ensures a == c && b == d
  {
    CoprimeSymmetric(a, b);
    CoprimeSymmetric(c, d);
    Multiple(b, c);
    CoprimeDivides(b, a, d);
    Multiple(d, a);
    CoprimeDivides(d, c, b);
    DividesBothWays(b, d);
    assert b * a == b * c;
    CancelFactor(b, a, c);
  }

  /** The lcm is a common multiple that divides every common multiple. */
  lemma LcmProperties(a: int, b: int)
    ensures Divides(a, Lcm(a, b)) && Divides(b, Lcm(a, b))
    ensures forall m: int :: Divides(a, m) && Divides(b, m) ==> Divides(Lcm(a, b), m)
    ensures Lcm(a, b) >= 0
    ensures a != 0 && b != 0 ==> Lcm(a, b) > 0 && Lcm(a, b) * Gcd(a, b) == Abs(a) * Abs(b)
  {
    if a == 0 || b == 0 {
      Multiple(a, 0);
      Multiple(b, 0);
    } else {
      var n, m := Abs(a), Abs(b);
      var g := Gcd(n, m);
      var a', b' := GcdQuotients(n, m);
      NatDivision(g, a');
      assert Lcm(a, b) == a' * m;
      LcmOfQuotients(a, b, g, a', b');
    }
  }

  lemma LcmOfQuotients(a: int, b: int, g: nat, a': int, b': int)
    requires a != 0 && b != 0 && g > 0 && Abs(a) == g * a' && Abs(b) == g * b' && Coprime(a', b')
    requires g == Gcd(a, b) && Lcm(a, b) == a' * Abs(b)
    ensures Divides(a, Lcm(a, b)) && Divides(b, Lcm(a, b))
    ensures forall m: int :: Divides(a, m) && Divides(b, m) ==> Divides(Lcm(a, b), m)
    ensures Lcm(a, b) > 0 && Lcm(a, b) * g == Abs(a) * Abs(b)
  {
    hide Lcm, Gcd, Coprime;
    var l, n, m := Lcm(a, b), Abs(a), Abs(b);
    ProductSign(g, a');
    MulAssoc(a', g, b');
    MulAssoc(g, a', b');
    assert l == n * b';
    MulAssoc(n, b', g);
    assert l * g == n * m;
    DividesSigned(n, a, b');
    DividesSigned(m, b, a');
    forall k: int | Divides(a, k) && Divides(b, k)
      ensures Divides(l, k)
    {
      LcmLeast(a, b, g, a', b', k);
    }
  }

  lemma LcmLeast(a: int, b: int, g: nat, a': int, b': int, k: int)
    requires a != 0 && b != 0 && g > 0 && Abs(a) == g * a' && Abs(b) == g * b' && Coprime(a', b')
    requires Divides(a, k) && Divides(b, k)
    ensures Divides(a' * Abs(b), k)
  {
    hide Coprime, Divides;
    var u := Quotient(a, k);
    var v := Quotient(b, k);
    var u', v' := if a < 0 then -u else u, if b < 0 then -v else v;
    assert k == Abs(a) * u' && k == Abs(b) * v';
    MulAssoc(g, a', u');
    MulAssoc(g, b', v');
    CancelFactor(g, a' * u', b' * v');
    Multiple(a', u');
    CoprimeDivides(a', b', v');
    var w := Quotient(a', v');
    MulAssoc(Abs(b), a', w);
    Multiple(a' * Abs(b), w);
  }

  lemma DividesSigned(n: nat, a: int, k: int)
    requires n == Abs(a)
    ensures Divides(a, n * k) && Divides(a, k * n)
  {
    Multiple(a, if a < 0 then -k else k);
    assert n * k == a * (if a < 0 then -k else k);
  }
}
