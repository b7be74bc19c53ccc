/** Rational numbers kept in lowest terms.  Integers are unbounded, except in the comparison,
    where every intermediate value is shown to fit the machine type of the operands. */
module Rationals {
  import opened NumberTheory
  import opened RationalLemmas

  datatype Outcome = Ok | ZeroDenominator | SingularDenominator

  /** The value x, known to fit the machine type with bounds min and max. */
  function Fit(x: int, ghost min: int, ghost max: int): int
    requires min <= x <= max
  {
    x
  }

  /** In lowest terms the denominator is a negative value without a negation. */
  ghost predicate Singular(n: int, d: int, limit: int) {
    n != 0 && d != 0 && (GcdPositive(n, d); TDiv(d, Gcd(n, d)) < -limit)
  }

  /** For a denominator of the machine type [-limit - 1, limit] that is the least value itself,
      with nothing to cancel. */
  lemma SingularIff(n: int, d: int, limit: int)
    requires limit > 0 && d >= -limit - 1
    ensures Singular(n, d, limit) <==> n != 0 && d == -limit - 1 && Coprime(n, d)
  {
    hide Gcd, TDiv;
    if n != 0 && d != 0 {
      var n', d' := GcdQuotients(n, d);
      ScaledBelow(Gcd(n, d), d', limit);
    }
  }

  lemma ScaledBelow(g: int, k: int, limit: int)
    requires g > 0 && limit > 0 && g * k >= -limit - 1
    ensures k < -limit <==> g == 1 && g * k == -limit - 1
  {
    if k < 0 {
      TimesNegative(g, k);
    }
    assert 1 * k == k;
  }

  lemma TimesNegative(g: int, k: int)
    requires g > 0 && k < 0
    ensures g * k <= k && (g >= 2 ==> g * k <= 2 * k)
  {
  }

  class Rational {
    var num: int
    var den: int

    /** The class invariant: lowest terms and a positive denominator. */
    ghost predicate Valid()
      reads this
    {
      den > 0 && Coprime(num, den)
    }

    ghost function Value(): real
      reads this
      requires den != 0
    {
      Q(num, den)
    }

    constructor Unnormalized(n: int, d: int)
      ensures num == n && den == d
    {
      num, den := n, d;
    }

    constructor FromInt(n: int)
      ensures Valid() && Value() == n as real
    {
      num, den := n, 1;
      new;
      CoprimeFromBezout(n, 1, 0, 1);
      assert Q(n, 1) == n as real;
    }

    /** Bring an arbitrary pair into lowest terms.  limit is the greatest value of the integer
        type, whose least value has no negation. */
    method Normalize(limit: int) returns (e: Outcome)
      requires limit > 0
      modifies this
      ensures e == ZeroDenominator <==> old(den) == 0
      ensures e == SingularDenominator <==> Singular(old(num), old(den), limit)
      ensures e == Ok ==> Valid() && Value() == Q(old(num), old(den))
      ensures old(den) == 0 ==> num == old(num) && den == 0
    {
      var zero := 0;
      if den == zero {
        return ZeroDenominator;
      }
      if num == zero {
        QEqual(0, den, 0, 1);
        den := 1;
        CoprimeFromBezout(0, 1, 0, 1);
        return Ok;
      }
      ghost var n, d := num, den;
      ghost var n', d' := GcdQuotients(num, den);
      var g := Gcd(num, den);
      num := TDiv(num, g);
      den := TDiv(den, g);
      if den < -limit {
        return SingularDenominator;
      }
      QScale(n', d', g);
      if den < zero {
        CoprimeNegate(num, den);
        NegateBoth(num, den);
        num := -num;
        den := -den;
      }
      e := Ok;
    }

    /** The checked constructor. */
    static method Create(n: int, d: int, limit: int) returns (e: Outcome, r: Rational)
      requires limit > 0
      ensures fresh(r)
      ensures e == ZeroDenominator <==> d == 0
      ensures e == SingularDenominator <==> Singular(n, d, limit)
      ensures e == Ok ==> r.Valid() && r.Value() == Q(n, d)
    {
      r := new Rational.Unnormalized(n, d);
      e := r.Normalize(limit);
    }

    method AddAssign(r: Rational)
      requires Valid() && r.Valid()
      modifies this
      ensures Valid() && Value() == old(Value()) + old(r.Value())
    {
      hide Gcd, TDiv, Q, Coprime;
      var rNum, rDen := r.num, r.den;
      ghost var a, b := num, den;
      ghost var b1, d1 := GcdQuotients(den, rDen);
      var g := Gcd(den, rDen);
      PositiveQuotient(g, b1);
      PositiveQuotient(g, d1);
      den := TDiv(den, g);
      num := num * TDiv(rDen, g) + rNum * den;
      ghost var t1, g1 := GcdQuotients(num, g);
      ghost var g0 := g;
      g := Gcd(num, g);
      num := TDiv(num, g);
      ExactScaledDivision(rDen, g, g1, d1);
      den := den * TDiv(rDen, g);
      SumLowestTerms(a, rNum, g0, b1, d1, g, t1, g1);
      PositiveQuotient(g, g1);
      PositiveProduct(g1, d1);
      PositiveProduct(b1, g1 * d1);
    }

    method SubtractAssign(r: Rational)
      requires Valid() && r.Valid()
      modifies this
      ensures Valid() && Value() == old(Value()) - old(r.Value())
    {
      hide Gcd, TDiv, Q, Coprime;
      var rNum, rDen := r.num, r.den;
      ghost var a, b := num, den;
      ghost var b1, d1 := GcdQuotients(den, rDen);
      var g := Gcd(den, rDen);
      PositiveQuotient(g, b1);
      PositiveQuotient(g, d1);
      den := TDiv(den, g);
      num := num * TDiv(rDen, g) - rNum * den;
      assert num == a * d1 + (-rNum) * b1;
      ghost var t1, g1 := GcdQuotients(num, g);
      ghost var g0 := g;
      g := Gcd(num, g);
      num := TDiv(num, g);
      ExactScaledDivision(rDen, g, g1, d1);
      den := den * TDiv(rDen, g);
      CoprimeNegate(rNum, rDen);
      SumLowestTerms(a, -rNum, g0, b1, d1, g, t1, g1);
      NegatedNumerator(rNum, rDen);
      PositiveQuotient(g, g1);
      PositiveProduct(g1, d1);
      PositiveProduct(b1, g1 * d1);
    }

    method MultiplyAssign(r: Rational)
      requires Valid() && r.Valid()
      modifies this
      ensures Valid() && Value() == old(Value()) * old(r.Value())
    {
      hide Gcd, TDiv, Q, Coprime;
      var rNum, rDen := r.num, r.den;
      ghost var a1, d1 := GcdQuotients(num, rDen);
      ghost var c1, b1 := GcdQuotients(rNum, den);
      var gcd1 := Gcd(num, rDen);
      var gcd2 := Gcd(rNum, den);
      PositiveQuotient(gcd1, d1);
      PositiveQuotient(gcd2, b1);
      ProductLowestTerms(gcd1, a1, d1, gcd2, c1, b1);
      PositiveProduct(b1, d1);
      num := TDiv(num, gcd1) * TDiv(rNum, gcd2);
      den := TDiv(den, gcd2) * TDiv(rDen, gcd1);
    }

    /** Division by zero is refused, and changes nothing. */
    method DivideAssign(r: Rational) returns (e: Outcome)
      requires Valid() && r.Valid()
      modifies this
      ensures Valid()
      ensures e == if old(r.num) == 0 then ZeroDenominator else Ok
      ensures e == ZeroDenominator ==> num == old(num) && den == old(den)
      ensures e == Ok ==> old(r.Value()) != 0.0 && Value() == old(Value()) / old(r.Value())
    {
      hide Gcd, TDiv, Q, Coprime;
      var rNum, rDen := r.num, r.den;
      var zero := 0;
      if rNum == zero {
        return ZeroDenominator;
      }
      QQuotient(num, den, rNum, rDen);
      if num == zero {
        ZeroQuotient(den, rNum, rDen);
        return Ok;
      }
      ghost var a1, c1 := GcdQuotients(num, rNum);
      ghost var d1, b1 := GcdQuotients(rDen, den);
      var gcd1 := Gcd(num, rNum);
      var gcd2 := Gcd(rDen, den);
      CoprimeSymmetric(rNum, rDen);
      ProductLowestTerms(gcd1, a1, c1, gcd2, d1, b1);
      num := TDiv(num, gcd1) * TDiv(rDen, gcd2);
      den := TDiv(den, gcd2) * TDiv(rNum, gcd1);
      if den < zero {
        CoprimeNegate(num, den);
        NegateBoth(num, den);
        num := -num;
        den := -den;
      }
      e := Ok;
    }

    method AddInt(i: int)
      requires Valid()
      modifies this
      ensures Valid() && Value() == old(Value()) + i as real
    {
      IntTerm(num, den, i);
      CoprimeShift(num, den, i);
      num := num + i * den;
    }

    method SubtractInt(i: int)
      requires Valid()
      modifies this
      ensures Valid() && Value() == old(Value()) - i as real
    {
      IntTerm(num, den, -i);
      CoprimeShift(num, den, -i);
      assert (-i) * den == -(i * den);
      num := num - i * den;
    }

    method MultiplyInt(i: int)
      requires Valid()
      modifies this
      ensures Valid() && Value() == old(Value()) * i as real
    {
      ghost var i1, b1 := GcdQuotients(i, den);
      var gcd := Gcd(i, den);
      PositiveQuotient(gcd, b1);
      CoprimeFromBezout(i, 1, 0, 1);
      CoprimeFromBezout(num, 1, 0, 1);
      ProductLowestTerms(1, num, 1, gcd, i1, b1);
      assert Q(i, 1) == i as real;
      num := num * TDiv(i, gcd);
      den := TDiv(den, gcd);
    }

    method DivideInt(i: int) returns (e: Outcome)
      requires Valid()
      modifies this
      ensures Valid()
      ensures e == if i == 0 then ZeroDenominator else Ok
      ensures e == ZeroDenominator ==> num == old(num) && den == old(den)
      ensures e == Ok ==> Value() == old(Value()) / i as real
    {
      hide Gcd, TDiv, Coprime;
      var zero := 0;
      if i == zero {
        return ZeroDenominator;
      }
      QQuotient(num, den, i, 1);
      assert Q(i, 1) == i as real;
      if num == zero {
        ZeroQuotient(den, i, 1);
        return Ok;
      }
      ghost var a1, i1 := GcdQuotients(num, i);
      var gcd := Gcd(num, i);
      CoprimeFromBezout(1, i, 1, 0);
      CoprimeFromBezout(1, den, 1, 0);
      ProductLowestTerms(gcd, a1, i1, 1, 1, den);
      num := TDiv(num, gcd);
      den := den * TDiv(i, gcd);
      if den < zero {
        CoprimeNegate(num, den);
        NegateBoth(num, den);
        num := -num;
        den := -den;
      }
      e := Ok;
    }

    /** Compare by continued fractions.  Nothing is ever cross-multiplied: if the four fields
        fit a machine type with bounds min and max, so does every value computed. */
    method LessThan(r: Rational, ghost min: int, ghost max: int) returns (less: bool)
      requires den > 0 && r.den > 0
      requires min <= 0 && min <= num <= max && den <= max && min <= r.num <= max && r.den <= max
      ensures less <==> num * r.den < r.num * den
      ensures less <==> Value() < r.Value()
    {
      QLess(num, den, r.num, r.den);
      hide TDiv, TMod, Q, Expanded;
      var zero := 0;
      var tn, td := num, den;
      var rn, rd := r.num, r.den;
      var tq, tr := FloorDivide(tn, td, min, max);
      var rq, rr := FloorDivide(rn, rd, min, max);
      var reverse := false;
      while true
        invariant Expanded(tn, td, tq, tr) && Expanded(rn, rd, rq, rr)
        invariant td <= max && rd <= max
        invariant Below(num, den, r.num, r.den) <==> if reverse then Below(rn, rd, tn, td) else Below(tn, td, rn, rd)
        decreases td
      {
        if tq != rq {
          if tq < rq {
            QuotientsDecide(tn, td, tq, tr, rn, rd, rq, rr);
          } else {
            QuotientsDecide(rn, rd, rq, rr, tn, td, tq, tr);
          }
          return if reverse then tq > rq else tq < rq;
        }
        RemaindersDecide(tn, td, tr, rn, rd, rr, tq);
        reverse := !reverse;
        if tr == zero || rr == zero {
          break;
        }
        ExpandedBounds(tn, td, tq, tr);
        ExpandedBounds(rn, rd, rq, rr);
        PositiveExpansion(td, tr);
        PositiveExpansion(rd, rr);
        QuotientBounds(td, tr, TDiv(td, tr), TMod(td, tr));
        QuotientBounds(rd, rr, TDiv(rd, rr), TMod(rd, rr));
        tn := Fit(td, min, max);
        td := Fit(tr, min, max);
        tq := Fit(TDiv(tn, td), min, max);
        tr := Fit(TMod(tn, td), min, max);
        rn := Fit(rd, min, max);
        rd := Fit(rr, min, max);
        rq := Fit(TDiv(rn, rd), min, max);
        rr := Fit(TMod(rn, rd), min, max);
      }
      ExpandedBounds(tn, td, tq, tr);
      ExpandedBounds(rn, rd, rq, rr);
      if tr == rr {
        ZerosEqual(rd, td);
        less := false;
      } else {
        RemainderSigns(tr, rd, rr, td);
        less := (tr != zero) != reverse;
      }
    }

    method GreaterThan(r: Rational, ghost min: int, ghost max: int) returns (greater: bool)
      requires den > 0 && r.den > 0
      requires min <= 0 && min <= num <= max && den <= max && min <= r.num <= max && r.den <= max
      ensures greater <==> num * r.den > r.num * den
      ensures greater <==> Value() > r.Value()
    {
      greater := r.LessThan(this, min, max);
    }

    /** Fields are compared one by one; for numbers in lowest terms that is value equality. */
    method Equals(r: Rational) returns (equal: bool)
      requires Valid() && r.Valid()
      ensures equal <==> Value() == r.Value()
    {
      QEqual(num, den, r.num, r.den);
      if num * r.den == r.num * den {
        LowestTermsUnique(num, den, r.num, r.den);
      }
      equal := num == r.num && den == r.den;
    }

    /** Compare with an integer by the floor alone. */
    method LessThanInt(i: int, ghost min: int, ghost max: int) returns (less: bool)
      requires den > 0 && min <= 0 && min <= num <= max && den <= max
      ensures less <==> num < i * den
      ensures less <==> Value() < i as real
    {
      assert Q(i, 1) == i as real;
      QLess(num, den, i, 1);
      var q, r := FloorDivide(num, den, min, max);
      FloorDecides(num, den, q, r, i);
      less := q < i;
    }

    method EqualsInt(i: int) returns (equal: bool)
      requires Valid()
      ensures equal <==> Value() == i as real
    {
      assert Q(i, 1) == i as real;
      CoprimeFromBezout(i, 1, 0, 1);
      QEqual(num, den, i, 1);
      if num * 1 == i * den {
        LowestTermsUnique(num, den, i, 1);
      }
      equal := den == 1 && num == i;
    }

    method GreaterThanInt(i: int, ghost min: int, ghost max: int) returns (greater: bool)
      requires Valid() && min <= 0 && min <= num <= max && den <= max
      ensures greater <==> num > i * den
      ensures greater <==> Value() > i as real
    {
      var equal := EqualsInt(i);
      assert Q(i, 1) == i as real;
      QEqual(num, den, i, 1);
      if equal {
        greater := false;
      } else {
        var less := LessThanInt(i, min, max);
        greater := !less;
      }
    }
  }

  /** Truncating division, corrected until the remainder is not negative. */
  method FloorDivide(n: int, d: int, ghost min: int, ghost max: int) returns (q: int, r: int)
    requires d > 0 && min <= 0 && min <= n <= max && d <= max
    ensures Expanded(n, d, q, r) && min <= q <= max
  {
    TruncatedExpansion(n, d);
    QuotientInRange(n, d, TDiv(n, d), TMod(n, d), min, max);
    q := Fit(TDiv(n, d), min, max);
    r := Fit(TMod(n, d), min, max);
    while r < 0
      invariant n == q * d + r && -d < r < d && min <= q <= max && min <= r <= max
      invariant r < 0 ==> n < 0 && q <= 0 && min <= q - 1
      decreases d - r
    {
      r := Fit(r + d, min, max);
      assert (q - 1) * d == q * d - d;
      q := Fit(q - 1, min, max);
    }
  }

  lemma QuotientInRange(n: int, d: int, q: int, r: int, min: int, max: int)
    requires d > 0 && min <= 0 && min <= n <= max && d <= max
    requires n == q * d + r && -d < r < d && (n >= 0 ==> r >= 0) && (r < 0 ==> q <= 0)
    ensures min <= q <= max && min <= r <= max
    ensures r < 0 ==> n < 0 && min <= q - 1
  {
    if r < 0 {
      assert (q - 1) * d == q * d - d;
      QuotientBounds(n, d, q - 1, r + d);
      assert q * d <= 0;
    } else {
      QuotientBounds(n, d, q, r);
    }
  }

  lemma FloorDecides(n: int, d: int, q: int, r: int, i: int)
    requires Expanded(n, d, q, r)
    ensures q < i <==> n < i * d
  {
    if q < i {
      assert (q + 1) * d <= i * d;
    } else {
      assert q * d >= i * d;
    }
  }

  lemma ExpandedBounds(n: int, d: int, q: int, r: int)
    requires Expanded(n, d, q, r)
    ensures 0 <= r < d
  {
  }

  lemma ZerosEqual(d: int, d': int)
    ensures !Below(d, 0, d', 0) && !Below(d', 0, d, 0)
  {
  }

  lemma RemainderSigns(r: int, d': int, r': int, d: int)
    requires d > 0 && d' > 0 && r >= 0 && r' >= 0 && (r == 0) != (r' == 0)
    ensures Below(d', r', d, r) <==> r == 0
    ensures Below(d, r, d', r') <==> r' == 0
  {
    if r == 0 {
      assert r' * d > 0;
    } else {
      assert r * d' > 0;
    }
  }

  // ----- Steps of the operators -----

  lemma PositiveQuotient(g: int, k: int)
    requires g > 0 && g * k > 0
    ensures k > 0
  {
  }

  lemma PositiveProduct(a: int, b: int)
    requires a > 0 && b > 0
    ensures a * b > 0
  {
  }

  lemma ExactScaledDivision(d: int, h: int, g1: int, d1: int)
    requires h != 0 && d == (h * g1) * d1
    ensures TDiv(d, h) == g1 * d1
  {
    MulAssoc(h, g1, d1);
    ExactDivision(h, g1 * d1);
  }

  lemma NegatedNumerator(n: int, d: int)
    requires d != 0
    ensures Q(-n, d) == -Q(n, d)
  {
    QProduct(n, d, -1, 1);
    assert Q(-1, 1) == -1.0;
  }

  lemma ZeroQuotient(b: int, c: int, d: int)
    requires b != 0 && c != 0 && d != 0
    ensures Q(0, b) == 0.0 && Q(c, d) != 0.0 && Q(0, b) / Q(c, d) == 0.0
  {
    QQuotient(0, b, c, d);
  }

  lemma IntTerm(n: int, d: int, i: int)
    requires d != 0
    ensures Q(n + i * d, d) == Q(n, d) + i as real
  {
    QTimes(n, d);
    RealProduct(i, d);
    var x, y := Q(n, d), i as real;
    assert (x + y) * d as real == x * d as real + y * d as real;
    QUnique(x + y, n + i * d, d);
  }

  // ----- Comparison -----

  /** One fraction of the comparison: n / d with quotient q and remainder r. */
  ghost predicate Expanded(n: int, d: int, q: int, r: int) {
    d > 0 && 0 <= r < d && n == q * d + r
  }

  lemma TruncatedExpansion(n: int, d: int)
    requires d > 0
    ensures var q := TDiv(n, d); var r := TMod(n, d);
            n == q * d + r && -d < r < d && (n >= 0 ==> r >= 0) && (r < 0 ==> q <= 0)
  {
    var m := Abs(n);
    assert m == d * (m / d) + m % d;
    assert d * (-(m / d)) == -(d * (m / d));
  }

  /** The quotient of an expansion lies between the least value and the numerator. */
  lemma QuotientBounds(n: int, d: int, q: int, r: int)
    requires Expanded(n, d, q, r)
    ensures n < 0 ==> n <= q < 0
    ensures n >= 0 ==> 0 <= q <= n
  {
    if q >= 0 {
      QuotientNonnegative(q, d);
    } else {
      QuotientNegative(q, d);
    }
  }

  lemma QuotientNonnegative(q: int, d: int)
    requires q >= 0 && d > 0
    ensures q * d >= q
  {
  }

  lemma QuotientNegative(q: int, d: int)
    requires q < 0 && d > 0
    ensures q * d <= -d && q * d + d - 1 <= q
  {
    NonPositiveProduct(q + 1, d - 1);
    assert (q + 1) * (d - 1) == q * d - q + d - 1;
  }

  lemma NonPositiveProduct(a: int, b: int)
    requires a <= 0 && b >= 0
    ensures a * b <= 0
  {
  }

  /** The order of two fractions with positive denominators. */
  ghost predicate Below(n: int, d: int, n': int, d': int) {
    n * d' < n' * d
  }

  /** Different quotients decide the order. */
  lemma QuotientsDecide(n: int, d: int, q: int, r: int, n': int, d': int, q': int, r': int)
    requires Expanded(n, d, q, r) && Expanded(n', d', q', r') && q < q'
    ensures Below(n, d, n', d') && !Below(n', d', n, d)
  {
    MulMonotone(q + 1, q', d);
    assert (q + 1) * d == q * d + d;
    MulMonotone(n + 1, q' * d, d');
    assert (n + 1) * d' == n * d' + d';
    MulMonotone(q' * d', n', d);
    MulAssoc(q', d, d');
    MulAssoc(q', d', d);
  }

  lemma MulMonotone(a: int, b: int, c: int)
    requires a <= b && c > 0
    ensures a * c <= b * c
  {
  }

  /** With equal quotients the remainders decide, and their reciprocals in reverse. */
  lemma RemaindersDecide(n: int, d: int, r: int, n': int, d': int, r': int, q: int)
    requires Expanded(n, d, q, r) && Expanded(n', d', q, r')
    ensures Below(n, d, n', d') <==> Below(d', r', d, r)
    ensures Below(n', d', n, d) <==> Below(d, r, d', r')
  {
    assert (q * d) * d' == (q * d') * d by {
      MulAssoc(q, d, d');
      MulAssoc(q, d', d);
    }
    assert n * d' == (q * d) * d' + r * d';
    assert n' * d == (q * d') * d + r' * d;
    assert n * d' - n' * d == r * d' - r' * d;
  }

  lemma PositiveExpansion(n: int, d: int)
    requires n > 0 && d > 0
    ensures Expanded(n, d, TDiv(n, d), TMod(n, d)) && TDiv(n, d) >= 0
  {
    TruncatedExpansion(n, d);
    QuotientBounds(n, d, TDiv(n, d), TMod(n, d));
  }
}
