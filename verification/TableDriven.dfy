/** The table-driven updates against bit-wise division.  Unreflected updates agree with it on
    the n low bits whatever is in the rest of the register.  Reflected updates shift the
    register towards its low end, so they agree with it exactly when nothing is above. */
module TableDriven {
  import opened Words
  import opened Division
  import opened Linearity
  import opened Tables
  import opened Updates

  // ----- Unreflected: every order from 8 up, on the low n bits -----

  lemma LeadingBits(n: nat, r: Word, b: Byte)
    requires 8 <= n <= |r|
    ensures Rev(LeadingByte(r, n)) == Lead(r, n, 8)
    ensures Rev(Xor(LeadingByte(r, n), b)) == Xor(Lead(r, n, 8), InputBits(b, 8, false))
    ensures Rev(InputBits(b, 8, false)) == b
  {
  }

  lemma LowOfShift(n: nat, r: Word, t: Word)
    requires 8 <= n <= |r| == |t|
    ensures Xor(Shl(r, 8), t)[..n] == Xor(Shl(Rest(r, n, 8), 8), t)[..n]
  {
  }

  lemma LowOfShiftIn(n: nat, r: Word, b: Word, t: Word)
    requires 8 <= n <= |r| == |t| == |b|
    ensures Xor(Or(Shl(r, 8), b), t)[..n] == Xor(Or(Shl(Rest(r, n, 8), 8), b), t)[..n]
  {
  }

  lemma DirectStepDivides(n: nat, r: Word, p: Word, b: Byte)
    requires 8 <= n <= |r| == |p|
    ensures DirectStep(n, r, p, b)[..n] == Steps(n, r, p, InputBits(b, 8, false))[..n]
  {
    var bits := InputBits(b, 8, false);
    PartialProduct(n, r, p, bits);
    LeadingBits(n, r, b);
    LowOfShift(n, r, Steps(n, Zeros(|r|), p, Xor(Lead(r, n, 8), bits)));
  }

  lemma AugDirectStepDivides(n: nat, r: Word, p: Word, b: Byte)
    requires 8 <= n <= |r| == |p|
    ensures AugDirectStep(n, r, p, b)[..n] == AugSteps(n, r, p, InputBits(b, 8, false))[..n]
  {
    var bits := InputBits(b, 8, false);
    AugPartialProduct(n, r, p, bits);
    LeadingBits(n, r, b);
    LowOfShiftIn(n, r, Resize(b, |r|), Steps(n, Zeros(|r|), p, Lead(r, n, 8)));
  }

  lemma {:induction false} DirectUpdateDivides(n: nat, r: Word, p: Word, msg: seq<Byte>)
    requires 8 <= n <= |r| == |p|
    ensures ByteUpdate(n, r, p, msg, false)[..n] == Steps(n, r, p, MessageBits(msg, false))[..n]
    decreases |msg|
  {
    if msg != [] {
      var bits, rest := InputBits(msg[0], 8, false), MessageBits(msg[1..], false);
      var r', s := DirectStep(n, r, p, msg[0]), Steps(n, r, p, bits);
      DirectStepDivides(n, r, p, msg[0]);
      DirectUpdateDivides(n, r', p, msg[1..]);
      StepsLowBits(n, r', p, rest);
      StepsLowBits(n, s, p, rest);
      StepsConcat(n, r, p, bits, rest);
    }
  }

  lemma {:induction false} AugDirectUpdateDivides(n: nat, r: Word, p: Word, msg: seq<Byte>)
    requires 8 <= n <= |r| == |p|
    ensures AugByteUpdate(n, r, p, msg, false)[..n] == AugSteps(n, r, p, MessageBits(msg, false))[..n]
    decreases |msg|
  {
    if msg != [] {
      var bits, rest := InputBits(msg[0], 8, false), MessageBits(msg[1..], false);
      var r', s := AugDirectStep(n, r, p, msg[0]), AugSteps(n, r, p, bits);
      AugDirectStepDivides(n, r, p, msg[0]);
      AugDirectUpdateDivides(n, r', p, msg[1..]);
      AugStepsLowBits(n, r', p, rest);
      AugStepsLowBits(n, s, p, rest);
      AugStepsConcat(n, r, p, bits, rest);
    }
  }

  // ----- Reflected: nothing above the low n bits -----

  ghost predicate Clean(r: Word, n: nat) {
    forall i :: n <= i < |r| ==> !r[i]
  }

  /** Above its n low coefficients the divisor has the leading coefficient and nothing else,
      as far as the register reaches. */
  ghost predicate CleanDivisor(p: Word, n: nat) {
    forall i :: n <= i < |p| ==> p[i] == (i == n)
  }

  lemma {:induction false} StepsStayClean(n: nat, r: Word, p: Word, bits: Word)
    requires 1 <= n <= |r| == |p| && Clean(r, n) && CleanDivisor(p, n)
    ensures Clean(Steps(n, r, p, bits), n)
    decreases |bits|
  {
    if bits != [] {
      assert Clean(Step(n, r, p, bits[0]), n);
      StepsStayClean(n, Step(n, r, p, bits[0]), p, bits[1..]);
    }
  }

  lemma {:induction false} AugStepsStayClean(n: nat, r: Word, p: Word, bits: Word)
    requires 1 <= n <= |r| == |p| && Clean(r, n) && CleanDivisor(p, n)
    ensures Clean(AugSteps(n, r, p, bits), n)
    decreases |bits|
  {
    if bits != [] {
      assert Clean(AugStep(n, r, p, bits[0]), n);
      AugStepsStayClean(n, AugStep(n, r, p, bits[0]), p, bits[1..]);
    }
  }

  lemma ReflectedLow(n: nat, r: Word)
    requires n <= |r|
    ensures Reflect(r, n)[..n] == Rev(r[..n])
  {
  }

  lemma ReflectXor(a: Word, b: Word, n: nat)
    requires n <= |a| == |b|
    ensures Reflect(Xor(a, b), n) == Xor(Reflect(a, n), Reflect(b, n))
  {
  }

  /** How the pieces of a reflected step mirror those of a division step. */
  lemma MirroredPieces(n: nat, r: Word, b: Byte)
    requires 8 <= n <= |r| && Clean(r, n)
    ensures InputBits(b, 8, true) == b
    ensures Reflect(r, n)[..8] == Lead(r, n, 8)
    ensures Reflect(Shl(Rest(r, n, 8), 8), n) == Shr(Reflect(r, n), 8)
  {
  }

  lemma MirroredShiftIn(n: nat, r: Word, b: Byte)
    requires 8 <= n <= |r| && Clean(r, n)
    ensures Reflect(Or(Shl(Rest(r, n, 8), 8), Resize(Rev(b), |r|)), n) ==
            Or(Shr(Reflect(r, n), 8), Shl(Resize(b, |r|), n - 8))
  {
    MirroredPieces(n, r, b);
    ReflectOr(Shl(Rest(r, n, 8), 8), Resize(Rev(b), |r|), n);
    MirroredByte(n, |r|, b);
  }

  lemma ReflectOr(a: Word, b: Word, n: nat)
    requires n <= |a| == |b|
    ensures Reflect(Or(a, b), n) == Or(Reflect(a, n), Reflect(b, n))
  {
  }

  lemma MirroredByte(n: nat, w: nat, b: Byte)
    requires 8 <= n <= w
    ensures Reflect(Resize(Rev(b), w), n) == Shl(Resize(b, w), n - 8)
  {
  }

  lemma ReflectedStepDivides(n: nat, r: Word, p: Word, b: Byte)
    requires 8 <= n <= |r| == |p| && Clean(r, n)
    ensures ReflectedStep(n, Reflect(r, n), p, b) == Reflect(Steps(n, r, p, InputBits(b, 8, true)), n)
  {
    MirroredPieces(n, r, b);
    PartialProduct(n, r, p, b);
    ReflectXor(Shl(Rest(r, n, 8), 8), Steps(n, Zeros(|r|), p, Xor(Lead(r, n, 8), b)), n);
  }

  lemma AugReflectedStepDivides(n: nat, r: Word, p: Word, b: Byte)
    requires 8 <= n <= |r| == |p| && Clean(r, n)
    ensures AugReflectedStep(n, Reflect(r, n), p, b) == Reflect(AugSteps(n, r, p, InputBits(b, 8, true)), n)
  {
    MirroredPieces(n, r, b);
    MirroredShiftIn(n, r, b);
    AugPartialProduct(n, r, p, b);
    ReflectXor(Or(Shl(Rest(r, n, 8), 8), Resize(Rev(b), |r|)), Steps(n, Zeros(|r|), p, Lead(r, n, 8)), n);
  }

  lemma {:induction false} ReflectedUpdateDivides(n: nat, r: Word, p: Word, msg: seq<Byte>)
    requires 8 <= n <= |r| == |p| && Clean(r, n) && CleanDivisor(p, n)
    ensures ByteUpdate(n, Reflect(r, n), p, msg, true) == Reflect(Steps(n, r, p, MessageBits(msg, true)), n)
    decreases |msg|
  {
    if msg != [] {
      var bits, rest := InputBits(msg[0], 8, true), MessageBits(msg[1..], true);
      ReflectedStepDivides(n, r, p, msg[0]);
      StepsStayClean(n, r, p, bits);
      ReflectedUpdateDivides(n, Steps(n, r, p, bits), p, msg[1..]);
      StepsConcat(n, r, p, bits, rest);
    }
  }

  lemma {:induction false} AugReflectedUpdateDivides(n: nat, r: Word, p: Word, msg: seq<Byte>)
    requires 8 <= n <= |r| == |p| && Clean(r, n) && CleanDivisor(p, n)
    ensures AugByteUpdate(n, Reflect(r, n), p, msg, true) == Reflect(AugSteps(n, r, p, MessageBits(msg, true)), n)
    decreases |msg|
  {
    if msg != [] {
      var bits, rest := InputBits(msg[0], 8, true), MessageBits(msg[1..], true);
      AugReflectedStepDivides(n, r, p, msg[0]);
      AugStepsStayClean(n, r, p, bits);
      AugReflectedUpdateDivides(n, AugSteps(n, r, p, bits), p, msg[1..]);
      AugStepsConcat(n, r, p, bits, rest);
    }
  }

  // ----- Reflected: what lies above the low n bits does come down -----

  /** Two reflected computers that show the same low n bits after every message. */
  ghost predicate Indistinguishable(n: nat, r: Word, p: Word, s: Word, q: Word)
    requires 8 <= n <= |r| == |p| == |s| == |q|
  {
    forall msg: seq<Byte> :: ByteUpdate(n, r, p, msg, true)[..n] == ByteUpdate(n, s, q, msg, true)[..n]
  }

  lemma IndistinguishableStep(n: nat, r: Word, p: Word, s: Word, q: Word, b: Byte)
    requires 8 <= n <= |r| == |p| == |s| == |q| && Indistinguishable(n, r, p, s, q)
    ensures Indistinguishable(n, ReflectedStep(n, r, p, b), p, ReflectedStep(n, s, q, b), q)
    ensures r[..n] == s[..n]
  {
    hide ByteUpdate, ReflectedStep;
    forall msg: seq<Byte>
      ensures ByteUpdate(n, ReflectedStep(n, r, p, b), p, msg, true)[..n] ==
              ByteUpdate(n, ReflectedStep(n, s, q, b), q, msg, true)[..n]
    {
      FirstByteFirst(n, r, p, b, msg);
      FirstByteFirst(n, s, q, b, msg);
      assert ByteUpdate(n, r, p, [b] + msg, true)[..n] == ByteUpdate(n, s, q, [b] + msg, true)[..n];
    }
    FirstByteFirst(n, r, p, b, []);
    FirstByteFirst(n, s, q, b, []);
    assert ByteUpdate(n, r, p, [], true)[..n] == ByteUpdate(n, s, q, [], true)[..n];
  }

  lemma FirstByteFirst(n: nat, r: Word, p: Word, b: Byte, msg: seq<Byte>)
    requires 8 <= n <= |r| == |p|
    ensures ByteUpdate(n, r, p, [b] + msg, true) == ByteUpdate(n, ReflectedStep(n, r, p, b), p, msg, true)
    ensures ByteUpdate(n, r, p, [], true) == r
  {
    assert ([b] + msg)[1..] == msg;
  }

  lemma EntryOfZero(n: nat, p: Word, k: nat)
    requires 1 <= n <= |p| && k <= n
    ensures TableEntry(n, p, true, Zeros(k)) == Zeros(|p|)
  {
    ShiftOnly(n, Zeros(|p|), p, k);
    ShiftedZeros(|p|, k);
    assert Reflect(Zeros(|p|), n) == Zeros(|p|);
  }

  /** A byte that equals the low end of the register selects the empty entry, so the
      register only shifts. */
  lemma ByteThatOnlyShifts(n: nat, r: Word, p: Word)
    requires 8 <= n <= |r| == |p|
    ensures ReflectedStep(n, r, p, r[..8]) == Shr(r, 8)
  {
    hide TableEntry;
    XorSelf(r[..8]);
    EntryOfZero(n, p, 8);
    XorZero(Shr(r, 8));
  }

  lemma EqualBelow(n: nat, r: Word, s: Word, k: nat)
    requires 8 <= n <= |r| == |s| && k > 0 && r[..n] == s[..n]
    requires forall i :: 0 <= i < |r| && i < n + 8 * (k - 1) ==> Shr(r, 8)[i] == Shr(s, 8)[i]
    ensures forall i :: 0 <= i < |r| && i < n + 8 * k ==> r[i] == s[i]
  {
    forall i | 0 <= i < |r| && i < n + 8 * k
      ensures r[i] == s[i]
    {
      if i < n {
        assert r[..n][i] == s[..n][i];
      } else {
        assert Shr(r, 8)[i - 8] == Shr(s, 8)[i - 8];
      }
    }
  }

  /** Feeding such bytes exposes the whole register, eight bits at a time. */
  lemma {:induction false} RegistersEqual(n: nat, r: Word, p: Word, s: Word, q: Word, k: nat)
    requires 8 <= n <= |r| == |p| == |s| == |q| && Indistinguishable(n, r, p, s, q)
    ensures forall i :: 0 <= i < |r| && i < n + 8 * k ==> r[i] == s[i]
    decreases k
  {
    hide ReflectedStep, ByteUpdate, Shr;
    var b: Byte := r[..8];
    IndistinguishableStep(n, r, p, s, q, b);
    if k > 0 {
      assert s[..8] == s[..n][..8] == r[..n][..8] == r[..8];
      ByteThatOnlyShifts(n, r, p);
      ByteThatOnlyShifts(n, s, q);
      RegistersEqual(n, Shr(r, 8), p, Shr(s, 8), q, k - 1);
      EqualBelow(n, r, s, k);
    } else {
      assert forall i :: 0 <= i < n ==> r[..n][i] == s[..n][i];
    }
  }

  lemma IndistinguishableMeansEqual(n: nat, r: Word, p: Word, s: Word, q: Word)
    requires 8 <= n <= |r| == |p| == |s| == |q| && Indistinguishable(n, r, p, s, q)
    ensures r == s
  {
    RegistersEqual(n, r, p, s, q, |r|);
  }

  /** The table entry of the byte whose last-read bit alone is set is the divisor, with the
      leading coefficient added one place above it. */
  lemma EntryOfLastBit(n: nat, p: Word)
    requires 8 <= n <= |p|
    ensures forall i :: n <= i < |p| ==> TableEntry(n, p, true, OneHot(8, 7))[i] == (p[i] != (i == n))
  {
    LastBitEntry(n, p);
    LastBitStep(n, p);
    hide TableEntry, Step, Reflect;
  }

  lemma LastBitEntry(n: nat, p: Word)
    requires 8 <= n <= |p|
    ensures TableEntry(n, p, true, OneHot(8, 7)) == Reflect(Step(n, Zeros(|p|), p, true), n)
  {
    hide Step, Steps;
    var z := Zeros(|p|);
    assert OneHot(8, 7) == Zeros(7) + [true];
    StepsConcat(n, z, p, Zeros(7), [true]);
    ShiftOnly(n, z, p, 7);
    ShiftedZeros(|p|, 7);
    OneStep(n, z, p, true);
  }

  lemma OneStep(n: nat, r: Word, p: Word, b: bool)
    requires 1 <= n <= |r| == |p|
    ensures Steps(n, r, p, [b]) == Step(n, r, p, b)
  {
    assert [b][1..] == [];
  }

  lemma LastBitStep(n: nat, p: Word)
    requires 8 <= n <= |p|
    ensures var e := Reflect(Step(n, Zeros(|p|), p, true), n);
            forall i :: n <= i < |p| ==> e[i] == (p[i] != (i == n))
  {
  }

  lemma ShiftedZeros(w: nat, k: nat)
    requires k <= w
    ensures Shl(Zeros(w), k) == Zeros(w)
  {
  }

  /** One byte exposes the upper part of the divisor. */
  lemma DivisorsEqualAbove(n: nat, r: Word, p: Word, q: Word)
    requires 8 <= n <= |r| == |p| == |q| && Indistinguishable(n, r, p, r, q)
    ensures forall i :: n <= i < |p| ==> p[i] == q[i]
  {
    hide TableEntry, Indistinguishable, Shr;
    var b: Byte := Xor(r[..8], OneHot(8, 7));
    assert Xor(r[..8], b) == OneHot(8, 7);
    IndistinguishableStep(n, r, p, r, q, b);
    IndistinguishableMeansEqual(n, ReflectedStep(n, r, p, b), p, ReflectedStep(n, r, q, b), q);
    EntryOfLastBit(n, p);
    EntryOfLastBit(n, q);
    XorCancels(Shr(r, 8), TableEntry(n, p, true, OneHot(8, 7)), TableEntry(n, q, true, OneHot(8, 7)));
  }

  lemma XorCancels(a: Word, t: Word, u: Word)
    requires |a| == |t| == |u| && Xor(a, t) == Xor(a, u)
    ensures t == u
  {
    forall i | 0 <= i < |t|
      ensures t[i] == u[i]
    {
      assert Xor(a, t)[i] == Xor(a, u)[i];
    }
  }

  /** The divisor with its upper part put right. */
  function Completed(p: Word, n: nat): (q: Word)
    requires n <= |p|
    ensures |q| == |p| && q[..n] == p[..n]
    ensures forall i :: n <= i < |p| ==> q[i] == (i == n)
  {
    seq(|p|, i requires 0 <= i < |p| => if i < n then p[i] else i == n)
  }

  /** With both put right, the reflected update divides as the original parameters should. */
  lemma CompletedDivides(n: nat, r: Word, p: Word, msg: seq<Byte>)
    requires 8 <= n <= |r| == |p|
    ensures ByteUpdate(n, Reflect(Low(r, n), n), Completed(p, n), msg, true)[..n] ==
            Rev(Steps(n, r, p, MessageBits(msg, true))[..n])
  {
    var s, q, bits := Low(r, n), Completed(p, n), MessageBits(msg, true);
    ReflectedUpdateDivides(n, s, q, msg);
    StepsLowBits(n, r, p, bits);
    StepsLowBits(n, s, q, bits);
    assert s[..n] == r[..n];
  }

  ghost predicate ReflectedAlwaysDivides(n: nat, r: Word, p: Word)
    requires 8 <= n <= |r| == |p|
  {
    forall msg: seq<Byte> ::
      ByteUpdate(n, Reflect(r, n), p, msg, true)[..n] == Rev(Steps(n, r, p, MessageBits(msg, true))[..n])
  }

  /** The reflected table-driven update computes the division of every message exactly when
      initial register and divisor are clean. */
  lemma ReflectedUpdateDividesIff(n: nat, r: Word, p: Word)
    requires 8 <= n <= |r| == |p|
    ensures ReflectedAlwaysDivides(n, r, p) <==> Clean(r, n) && CleanDivisor(p, n)
  {
    if Clean(r, n) && CleanDivisor(p, n) {
      assert r == Low(r, n) && p == Completed(p, n);
      forall msg: seq<Byte>
        ensures ByteUpdate(n, Reflect(r, n), p, msg, true)[..n] == Rev(Steps(n, r, p, MessageBits(msg, true))[..n])
      {
        CompletedDivides(n, r, p, msg);
      }
    } else if ReflectedAlwaysDivides(n, r, p) {
      ReflectedAlwaysDividesOnlyIf(n, r, p);
    }
  }

  lemma ReflectedAlwaysDividesOnlyIf(n: nat, r: Word, p: Word)
    requires 8 <= n <= |r| == |p| && ReflectedAlwaysDivides(n, r, p)
    ensures Clean(r, n) && CleanDivisor(p, n)
  {
    var s, q := Low(r, n), Completed(p, n);
    var r', s' := Reflect(r, n), Reflect(s, n);
    assert Indistinguishable(n, r', p, s', q) by {
      forall msg: seq<Byte>
        ensures ByteUpdate(n, r', p, msg, true)[..n] == ByteUpdate(n, s', q, msg, true)[..n]
      {
        CompletedDivides(n, r, p, msg);
      }
    }
    IndistinguishableMeansEqual(n, r', p, s', q);
    forall i | n <= i < |r|
      ensures !r[i]
    {
      assert r[i] == r'[i] == s'[i] == s[i];
    }
    DivisorsEqualAbove(n, r', p, q);
  }
}
