/** What the two division styles compute, in terms of polynomials: the remainder of the
    message moved up by n places (unaugmented), or of the message as it stands (augmented),
    with the initial register on top. */
module PolynomialMeaning {
  import opened Words
  import opened Division
  import opened Linearity
  import opened Gf2

  /** The full divisor x^n + p. */
  function Divisor(p: Word): Poly {
    Val(p + [true])
  }

  /** A bit string as a polynomial, the first bit being the highest coefficient. */
  function MessagePoly(bits: Word): Poly {
    Val(Rev(bits))
  }

  /** a times x^k. */
  function Raise(a: Poly, k: nat): Poly {
    Mul(Pow2(k), a)
  }

  // ----- Raising -----

  lemma {:induction false} RaiseIsScaling(a: Poly, k: nat)
    ensures Raise(a, k) == Pow2(k) * a
  {
    MulUnfold(Pow2(k), a);
    if k == 0 {
      AddZero(a);
    } else {
      RaiseIsScaling(a, k - 1);
      hide Add, Mul;
      AddZero(2 * Mul(Pow2(k - 1), a));
      Pow2Times(k, a);
    }
  }

  lemma RaiseMore(a: Poly, k: nat)
    ensures Raise(a, k + 1) == 2 * Raise(a, k) == Raise(2 * a, k)
  {
    RaiseIsScaling(a, k + 1);
    RaiseIsScaling(a, k);
    RaiseIsScaling(2 * a, k);
    Pow2Times(k + 1, a);
    assert 2 * (Pow2(k) * a) == Pow2(k) * (2 * a);
  }

  lemma {:induction false} RaiseAdd(a: Poly, b: Poly, k: nat)
    ensures Raise(Add(a, b), k) == Add(Raise(a, k), Raise(b, k))
  {
    if k == 0 {
      RaiseIsScaling(a, 0);
      RaiseIsScaling(b, 0);
      RaiseIsScaling(Add(a, b), 0);
    } else {
      RaiseMore(a, k - 1);
      RaiseMore(b, k - 1);
      RaiseMore(Add(a, b), k - 1);
      RaiseAdd(a, b, k - 1);
      AddDouble(Raise(a, k - 1), Raise(b, k - 1));
    }
  }

  lemma MessageSnoc(bits: Word, b: bool)
    ensures MessagePoly(bits + [b]) == Add(2 * MessagePoly(bits), if b then 1 else 0)
  {
    assert Rev(bits + [b]) == [b] + Rev(bits);
    assert ([b] + Rev(bits))[1..] == Rev(bits);
    AddHalves(2 * MessagePoly(bits), if b then 1 else 0);
    AddZero(MessagePoly(bits));
  }

  // ----- One step -----

  lemma ValPad(a: Word)
    ensures Val(a + [false]) == Val(a) && Val([false] + a) == 2 * Val(a)
  {
    ValConcat(a, [false]);
    assert ([false] + a)[1..] == a;
    assert Val([false]) == 0;
  }

  lemma ValBit()
    ensures Val([true]) == 1
  {
    assert [true][1..] == [];
  }

  lemma DivisorRange(p: Word)
    ensures Pow2(|p|) <= Divisor(p) < Pow2(|p| + 1)
  {
    hide Val;
    ValConcat(p, [true]);
    ValBit();
    ValBound(p);
  }

  /** Taking the divisor away from a dividend of degree n, or not. */
  lemma Reduce(full: Word, r: Word, p: Word, quotient: bool)
    requires |full| == |r| + 1 == |p| + 1
    requires r + [false] == if quotient then Xor(full, p + [true]) else full
    ensures Congruent(Val(r), Val(full), Divisor(p))
  {
    ValPad(r);
    if quotient {
      ValXor(full, p + [true]);
      CongruentRefl(Val(full), Divisor(p));
      DivisorVanishes(Divisor(p));
      CongruentAdd(Val(full), Val(full), Divisor(p), 0, Divisor(p));
      AddZero(Val(full));
    } else {
      CongruentRefl(Val(r), Divisor(p));
    }
  }

  lemma StepMeaning(n: nat, r: Word, p: Word, b: bool)
    requires 1 <= n == |r| == |p|
    ensures Congruent(Val(Step(n, r, p, b)), Add(2 * Val(r), Raise(if b then 1 else 0, n)), Divisor(p))
  {
    hide Step, Val, Add, Mul, Congruent;
    var top := if b then OneHot(n + 1, n) else Zeros(n + 1);
    var full := Xor([false] + r, top);
    ValXor([false] + r, top);
    ValPad(r);
    ValOneHot(n + 1, n);
    ValZeros(n + 1);
    RaiseIsScaling(if b then 1 else 0, n);
    StepBits(n, r, p, b, full);
    Reduce(full, Step(n, r, p, b), p, full[n]);
  }

  lemma StepBits(n: nat, r: Word, p: Word, b: bool, full: Word)
    requires 1 <= n == |r| == |p|
    requires full == Xor([false] + r, if b then OneHot(n + 1, n) else Zeros(n + 1))
    ensures Step(n, r, p, b) + [false] == if full[n] then Xor(full, p + [true]) else full
  {
    hide Step;
    var s, t := Step(n, r, p, b) + [false], if full[n] then Xor(full, p + [true]) else full;
    assert full[n] == (r[n - 1] != b);
    assert s[n] == t[n] == false;
    forall i | 0 <= i < n
      ensures s[i] == t[i]
    {
      assert full[i] == (i > 0 && r[i - 1]);
      assert s[i] == Step(n, r, p, b)[i] == (full[i] != (full[n] && p[i]));
    }
    assert s == t;
  }

  lemma AugStepMeaning(n: nat, r: Word, p: Word, b: bool)
    requires 1 <= n == |r| == |p|
    ensures Congruent(Val(AugStep(n, r, p, b)), Add(2 * Val(r), if b then 1 else 0), Divisor(p))
  {
    hide AugStep, Add, Mul, Congruent, Divisor;
    var full := [b] + r;
    AugStepBits(n, r, p, b);
    AddHalves(2 * Val(r), if b then 1 else 0);
    AddZero(Val(r));
    AddZero(0);
    Reduce(full, AugStep(n, r, p, b), p, full[n]);
  }

  lemma AugStepBits(n: nat, r: Word, p: Word, b: bool)
    requires 1 <= n == |r| == |p|
    ensures var full := [b] + r;
            AugStep(n, r, p, b) + [false] == if full[n] then Xor(full, p + [true]) else full
    ensures ([b] + r)[1..] == r
  {
  }

  // ----- Whole messages -----

  /** The dividend of the unaugmented style. */
  function Dividend(n: nat, r: Word, bits: Word): Poly {
    Add(Raise(Val(r), |bits|), Raise(MessagePoly(bits), n))
  }

  /** The dividend of the augmented style. */
  function AugDividend(r: Word, bits: Word): Poly {
    Add(Raise(Val(r), |bits|), MessagePoly(bits))
  }

  lemma {:induction false} StepsMeaning(n: nat, r: Word, p: Word, bits: Word)
    requires 1 <= n == |r| == |p|
    ensures Congruent(Val(Steps(n, r, p, bits)), Dividend(n, r, bits), Divisor(p))
    decreases |bits|
  {
    hide Step, Add, Mul, Val, Divisor;
    var d := Divisor(p);
    if bits == [] {
      EmptyMessage(n, r);
      CongruentRefl(Val(r), d);
    } else {
      var k := |bits| - 1;
      var init, b := bits[..k], bits[k];
      var s, c := Steps(n, r, p, init), Raise(if b then 1 else 0, n);
      assert bits == init + [b];
      StepsConcat(n, r, p, init, [b]);
      assert Steps(n, s, p, [b]) == Step(n, s, p, b) by {
        assert [b][1..] == [];
      }
      StepsMeaning(n, r, p, init);
      StepMeaning(n, s, p, b);
      CongruentDouble(Val(s), Dividend(n, r, init), d);
      CongruentRefl(c, d);
      CongruentAdd(2 * Val(s), 2 * Dividend(n, r, init), c, c, d);
      DividendSnoc(n, r, init, b);
      CongruentTrans(Val(Step(n, s, p, b)), Add(2 * Val(s), c), Dividend(n, r, bits), d);
    }
  }

  lemma EmptyMessage(n: nat, r: Word)
    ensures Dividend(n, r, []) == Val(r) == AugDividend(r, [])
  {
    RaiseIsScaling(Val(r), 0);
    assert MessagePoly([]) == 0;
    RaiseIsScaling(0, n);
    AddZero(Val(r));
  }

  lemma DividendSnoc(n: nat, r: Word, bits: Word, b: bool)
    ensures Dividend(n, r, bits + [b]) == Add(2 * Dividend(n, r, bits), Raise(if b then 1 else 0, n))
  {
    hide Add, Mul, Val, MessagePoly, Raise;
    var c: Poly := if b then 1 else 0;
    var u, m := Raise(Val(r), |bits|), Raise(MessagePoly(bits), n);
    MessageSnoc(bits, b);
    RaiseMore(Val(r), |bits|);
    RaiseAdd(2 * MessagePoly(bits), c, n);
    RaiseMore(MessagePoly(bits), n);
    AddDouble(u, m);
    AddAssociates(2 * u, 2 * m, Raise(c, n));
  }

  lemma {:induction false} AugStepsMeaning(n: nat, r: Word, p: Word, bits: Word)
    requires 1 <= n == |r| == |p|
    ensures Congruent(Val(AugSteps(n, r, p, bits)), AugDividend(r, bits), Divisor(p))
    decreases |bits|
  {
    hide AugStep, Add, Mul, Val, Divisor;
    var d := Divisor(p);
    if bits == [] {
      EmptyMessage(n, r);
      CongruentRefl(Val(r), d);
    } else {
      var k := |bits| - 1;
      var init, b := bits[..k], bits[k];
      var s, c: Poly := AugSteps(n, r, p, init), if b then 1 else 0;
      assert bits == init + [b];
      AugStepsConcat(n, r, p, init, [b]);
      assert AugSteps(n, s, p, [b]) == AugStep(n, s, p, b) by {
        assert [b][1..] == [];
      }
      AugStepsMeaning(n, r, p, init);
      AugStepMeaning(n, s, p, b);
      CongruentDouble(Val(s), AugDividend(r, init), d);
      CongruentRefl(c, d);
      CongruentAdd(2 * Val(s), 2 * AugDividend(r, init), c, c, d);
      AugDividendSnoc(r, init, b);
      CongruentTrans(Val(AugStep(n, s, p, b)), Add(2 * Val(s), c), AugDividend(r, bits), d);
    }
  }

  lemma AugDividendSnoc(r: Word, bits: Word, b: bool)
    ensures AugDividend(r, bits + [b]) == Add(2 * AugDividend(r, bits), if b then 1 else 0)
  {
    hide Add, Mul, Val, MessagePoly, Raise;
    var c: Poly := if b then 1 else 0;
    var u, m := Raise(Val(r), |bits|), MessagePoly(bits);
    MessageSnoc(bits, b);
    RaiseMore(Val(r), |bits|);
    AddDouble(u, m);
    AddAssociates(2 * u, 2 * m, c);
  }

  /** Among the polynomials of degree below n, the register after any message is the one and
      only that is congruent to the dividend. */
  lemma RemainderCharacterized(n: nat, r: Word, p: Word, bits: Word, x: Poly)
    requires 1 <= n == |r| == |p| && x < Pow2(n)
    ensures x == Val(Steps(n, r, p, bits)) <==> Congruent(x, Dividend(n, r, bits), Divisor(p))
    ensures x == Val(AugSteps(n, r, p, bits)) <==> Congruent(x, AugDividend(r, bits), Divisor(p))
  {
    hide Divisor, Dividend, AugDividend, Congruent, Val;
    var d, u, v := Divisor(p), Val(Steps(n, r, p, bits)), Val(AugSteps(n, r, p, bits));
    StepsMeaning(n, r, p, bits);
    AugStepsMeaning(n, r, p, bits);
    ValBound(Steps(n, r, p, bits));
    ValBound(AugSteps(n, r, p, bits));
    DivisorRange(p);
    CongruentSym(u, Dividend(n, r, bits), d);
    CongruentSym(v, AugDividend(r, bits), d);
    if Congruent(x, Dividend(n, r, bits), d) {
      CongruentTrans(x, Dividend(n, r, bits), u, d);
      RemainderUnique(x, u, d, n);
    }
    if Congruent(x, AugDividend(r, bits), d) {
      CongruentTrans(x, AugDividend(r, bits), v, d);
      RemainderUnique(x, v, d, n);
    }
  }
}
