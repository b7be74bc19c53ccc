/** Polynomials over GF(2), packed into numbers: the 2^i bit is the coefficient of x^i.
    Addition is exclusive-or, multiplication by x is doubling. */
module Gf2 {
  import opened Words

  type Poly = nat

  function Add(a: Poly, b: Poly): Poly {
    if a == 0 && b == 0 then 0 else (a + b) % 2 + 2 * Add(a / 2, b / 2)
  }

  /** Schoolbook multiplication. */
  function Mul(q: Poly, p: Poly): Poly {
    if q == 0 then 0 else Add(if q % 2 == 1 then p else 0, 2 * Mul(q / 2, p))
  }

  /** a and b differ by a multiple of p. */
  ghost predicate Congruent(a: Poly, b: Poly, p: Poly) {
    exists q: Poly :: Add(a, b) == Mul(q, p)
  }

  // ----- Addition -----

  lemma {:induction false} AddZero(a: Poly)
    ensures Add(a, 0) == a && Add(0, a) == a
  {
    if a != 0 {
      AddZero(a / 2);
    }
  }

  lemma {:induction false} AddSelf(a: Poly)
    ensures Add(a, a) == 0
  {
    if a != 0 {
      AddSelf(a / 2);
    }
  }

  lemma {:induction false} AddCommutes(a: Poly, b: Poly)
    ensures Add(a, b) == Add(b, a)
  {
    if a != 0 || b != 0 {
      AddCommutes(a / 2, b / 2);
    }
  }

  lemma {:induction false} AddAssociates(a: Poly, b: Poly, c: Poly)
    ensures Add(Add(a, b), c) == Add(a, Add(b, c))
    decreases a + b + c
  {
    hide Add;
    if a == 0 && b == 0 && c == 0 {
      AddZero(0);
    } else {
      AddAssociates(a / 2, b / 2, c / 2);
      AddHalves(a, b);
      AddHalves(b, c);
      AddHalves(Add(a, b), c);
      AddHalves(a, Add(b, c));
    }
  }

  lemma AddHalves(a: Poly, b: Poly)
    ensures Add(a, b) / 2 == Add(a / 2, b / 2) && Add(a, b) % 2 == (a + b) % 2
  {
  }

  /** Regrouping a sum of two sums. */
  lemma AddRegroup(a: Poly, b: Poly, c: Poly, d: Poly)
    ensures Add(Add(a, b), Add(c, d)) == Add(Add(a, c), Add(b, d))
  {
    AddAssociates(a, b, Add(c, d));
    AddAssociates(b, c, d);
    AddCommutes(b, c);
    AddAssociates(c, b, d);
    AddAssociates(a, c, Add(b, d));
  }

  lemma AddCancels(a: Poly, b: Poly)
    ensures Add(a, Add(a, b)) == b
  {
    AddAssociates(a, a, b);
    AddSelf(a);
    AddZero(b);
  }

  lemma AddDouble(a: Poly, b: Poly)
    ensures Add(2 * a, 2 * b) == 2 * Add(a, b)
  {
    hide Add;
    AddHalves(2 * a, 2 * b);
  }

  lemma {:induction false} AddBelow(a: Poly, b: Poly, k: nat)
    requires a < Pow2(k) && b < Pow2(k)
    ensures Add(a, b) < Pow2(k)
    decreases k
  {
    if k > 0 {
      AddBelow(a / 2, b / 2, k - 1);
    }
  }

  lemma AddAbove(a: Poly, b: Poly, k: nat)
    requires a < Pow2(k) <= b
    ensures Add(a, b) >= Pow2(k)
  {
    if Add(a, b) < Pow2(k) {
      AddBelow(a, Add(a, b), k);
      AddCancels(a, b);
    }
  }

  // ----- Multiplication and congruence -----

  lemma {:induction false} MulAdds(q: Poly, s: Poly, p: Poly)
    ensures Mul(Add(q, s), p) == Add(Mul(q, p), Mul(s, p))
    decreases q + s
  {
    hide Add, Mul;
    MulUnfold(q, p);
    MulUnfold(s, p);
    MulUnfold(Add(q, s), p);
    if q == 0 {
      AddZero(s);
      AddZero(Mul(s, p));
    } else if s == 0 {
      AddZero(q);
      AddZero(Mul(q, p));
    } else {
      var q0, s0 := if q % 2 == 1 then p else 0, if s % 2 == 1 then p else 0;
      MulAdds(q / 2, s / 2, p);
      AddHalves(q, s);
      AddDouble(Mul(q / 2, p), Mul(s / 2, p));
      AddRegroup(q0, 2 * Mul(q / 2, p), s0, 2 * Mul(s / 2, p));
      AddSelf(p);
      AddZero(p);
      AddZero(0);
    }
  }

  lemma MulUnfold(q: Poly, p: Poly)
    ensures Mul(0, p) == 0
    ensures Mul(q, p) == Add(if q % 2 == 1 then p else 0, 2 * Mul(q / 2, p))
  {
  }

  /** Multiplying by x^k moves every coefficient up k places. */
  lemma {:induction false} MulMonomial(k: nat, p: Poly)
    ensures Mul(Pow2(k), p) == Pow2(k) * p
  {
    MulUnfold(Pow2(k), p);
    if k == 0 {
      MulUnfold(0, p);
      AddZero(p);
    } else {
      MulMonomial(k - 1, p);
      AddZero(2 * Mul(Pow2(k - 1), p));
      Pow2Times(k, p);
    }
  }

  /** A nonzero multiple of a polynomial of degree n has degree at least n. */
  lemma {:induction false} MulDegree(q: Poly, p: Poly, n: nat)
    requires q > 0 && Pow2(n) <= p < Pow2(n + 1)
    ensures Mul(q, p) >= Pow2(n)
  {
    MulUnfold(q, p);
    if q / 2 == 0 {
      AddZero(p);
    } else {
      MulDegree(q / 2, p, n);
      AddAbove(if q % 2 == 1 then p else 0, 2 * Mul(q / 2, p), n + 1);
    }
  }

  lemma CongruentRefl(a: Poly, p: Poly)
    ensures Congruent(a, a, p)
  {
    AddSelf(a);
    assert Mul(0, p) == 0;
  }

  lemma CongruentSym(a: Poly, b: Poly, p: Poly)
    requires Congruent(a, b, p)
    ensures Congruent(b, a, p)
  {
    AddCommutes(a, b);
  }

  lemma CongruentTrans(a: Poly, b: Poly, c: Poly, p: Poly)
    requires Congruent(a, b, p) && Congruent(b, c, p)
    ensures Congruent(a, c, p)
  {
    var q: Poly :| Add(a, b) == Mul(q, p);
    var s: Poly :| Add(b, c) == Mul(s, p);
    MulAdds(q, s, p);
    AddAssociates(a, b, Add(b, c));
    AddCancels(b, c);
    assert Mul(Add(q, s), p) == Add(a, c);
  }

  lemma CongruentAdd(a: Poly, b: Poly, c: Poly, d: Poly, p: Poly)
    requires Congruent(a, b, p) && Congruent(c, d, p)
    ensures Congruent(Add(a, c), Add(b, d), p)
  {
    var q: Poly :| Add(a, b) == Mul(q, p);
    var s: Poly :| Add(c, d) == Mul(s, p);
    MulAdds(q, s, p);
    AddRegroup(a, b, c, d);
    assert Mul(Add(q, s), p) == Add(Add(a, c), Add(b, d));
  }

  lemma CongruentDouble(a: Poly, b: Poly, p: Poly)
    requires Congruent(a, b, p)
    ensures Congruent(2 * a, 2 * b, p)
  {
    var q: Poly :| Add(a, b) == Mul(q, p);
    AddDouble(a, b);
    AddZero(2 * Mul(q, p));
    MulUnfold(2 * q, p);
    assert Mul(2 * q, p) == Add(2 * a, 2 * b);
  }

  lemma DivisorVanishes(p: Poly)
    ensures Congruent(p, 0, p)
  {
    AddZero(p);
    assert Mul(1, p) == p;
  }

  /** Two remainders of degree below n that are congruent are the same. */
  lemma RemainderUnique(a: Poly, b: Poly, p: Poly, n: nat)
    requires a < Pow2(n) && b < Pow2(n) && Pow2(n) <= p < Pow2(n + 1)
    requires Congruent(a, b, p)
    ensures a == b
  {
    var q: Poly :| Add(a, b) == Mul(q, p);
    AddBelow(a, b, n);
    if q > 0 {
      MulDegree(q, p, n);
    }
    AddCancels(a, b);
    AddZero(a);
  }

  // ----- Words as polynomials -----

  lemma AddBits(x: bool, y: bool, a: Poly, b: Poly)
    ensures Add((if x then 1 else 0) + 2 * a, (if y then 1 else 0) + 2 * b) ==
            (if x != y then 1 else 0) + 2 * Add(a, b)
  {
    var s, t := (if x then 1 else 0) + 2 * a, (if y then 1 else 0) + 2 * b;
    assert s / 2 == a && t / 2 == b && (s + t) % 2 == if x != y then 1 else 0;
    assert Add(s, t) == (s + t) % 2 + 2 * Add(s / 2, t / 2);
  }

  lemma XorTail(a: Word, b: Word)
    requires |a| == |b| > 0
    ensures Xor(a, b)[1..] == Xor(a[1..], b[1..]) && Xor(a, b)[0] == (a[0] != b[0])
  {
  }

  lemma {:induction false} ValXor(a: Word, b: Word)
    requires |a| == |b|
    ensures Val(Xor(a, b)) == Add(Val(a), Val(b))
  {
    hide Add, Xor;
    if a == [] {
      AddZero(0);
      assert Xor(a, b) == [];
    } else {
      ValXor(a[1..], b[1..]);
      XorTail(a, b);
      AddBits(a[0], b[0], Val(a[1..]), Val(b[1..]));
    }
  }
}
