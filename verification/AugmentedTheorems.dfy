/** Results that need the polynomial meaning of division: what an interim remainder is, how
    the augmented and the unaugmented style relate, and what a checksum detects. */
module AugmentedTheorems {
  import opened Words
  import opened Division
  import opened Linearity
  import opened Tables
  import opened Updates
  import opened TableDriven
  import opened Gf2
  import opened PolynomialMeaning
  import opened CrcComputers

  /** The interim remainder of a bit-wise computer that was loaded with start and has
      processed bits is the only polynomial of degree below n that is congruent to
      start * x^L + M * x^n modulo x^n + poly. */
  lemma InterimRemainderCharacterized(n: nat, start: Word, poly: Word, bits: Word, x: Poly)
    requires 1 <= n <= |start| == |poly| && x < Pow2(n)
    ensures x == Val(Low(Steps(n, start, poly, bits), n)) <==>
            Congruent(x, Add(Raise(Val(start[..n]), |bits|), Raise(MessagePoly(bits), n)), Divisor(poly[..n]))
  {
    hide Steps, Congruent, Divisor, MessagePoly, Val;
    StepsLowBits(n, start, poly, bits);
    RemainderCharacterized(n, start[..n], poly[..n], bits, x);
    ValLow(Steps(n, start, poly, bits), n);
  }

  lemma ValLow(a: Word, n: nat)
    requires n <= |a|
    ensures Val(Low(a, n)) == Val(a[..n])
  {
    ValConcat(a[..n], Zeros(|a| - n));
    ValZeros(|a| - n);
  }

  // ----- The table serves both styles -----

  /** The entry computed with the unaugmented step is what the augmented step leaves when
      the same byte stands at the top of the register and is pushed out. */
  lemma TableServesBothStyles(n: nat, p: Word, j: Byte)
    requires 8 <= n <= |p|
    ensures TableEntry(n, p, false, j) == AugSteps(n, Top(|p|, n, Rev(j)), p, Zeros(8))
    ensures TableEntry(n, p, true, j) == Reflect(AugSteps(n, Top(|p|, n, j), p, Zeros(8)), n)
  {
    EntryPushedOut(n, p, Rev(j));
    EntryPushedOut(n, p, j);
  }

  lemma EntryPushedOut(n: nat, p: Word, bits: Word)
    requires 1 <= n <= |p| && |bits| <= n
    ensures Steps(n, Zeros(|p|), p, bits) == AugSteps(n, Top(|p|, n, bits), p, Zeros(|bits|))
  {
    var t := Top(|p|, n, bits);
    FeedAtOnce(n, Zeros(|p|), p, bits);
    assert Xor(Zeros(|p|), t) == t;
    StylesAgreeOnZeros(n, t, p, |bits|);
  }

  // ----- Augmented and unaugmented -----

  lemma {:induction false} AddDisjoint(a: Poly, b: Poly, n: nat)
    requires b < Pow2(n)
    ensures Add(Raise(a, n), b) == Pow2(n) * a + b
  {
    hide Add, Raise;
    RaiseIsScaling(a, n);
    if n == 0 {
      AddZero(a);
    } else {
      var u := Pow2(n - 1) * a;
      Pow2Times(n, a);
      AddDisjoint(a, b / 2, n - 1);
      RaiseIsScaling(a, n - 1);
      AddHalves(2 * u, b);
    }
  }

  lemma RevOfCheck(bits: Word, check: Word)
    ensures Rev(bits + Rev(check)) == check + Rev(bits)
  {
  }

  /** n further bits move the message up n places and fill them in. */
  lemma MessageThenCheck(bits: Word, check: Word)
    ensures MessagePoly(bits + Rev(check)) == Add(Raise(MessagePoly(bits), |check|), Val(check))
  {
    hide Val, Add, Raise, Pow2, Rev;
    RevOfCheck(bits, check);
    ValConcat(check, Rev(bits));
    ValBound(check);
    AddDisjoint(MessagePoly(bits), Val(check), |check|);
  }

  /** Dividing the message followed by n check bits in the augmented style leaves zero
      exactly when the check bits are the unaugmented remainder of the message; following
      it by n zeros leaves that remainder itself. */
  lemma AugmentedRemainder(n: nat, p: Word, bits: Word, check: Word)
    requires 1 <= n == |p| == |check|
    ensures AugSteps(n, Zeros(n), p, bits + Zeros(n)) == Steps(n, Zeros(n), p, bits)
    ensures AugSteps(n, Zeros(n), p, bits + Rev(check)) == Zeros(n) <==> check == Steps(n, Zeros(n), p, bits)
  {
    hide Val, Add, Mul, Congruent, Divisor, Steps, AugSteps, MessagePoly, Raise;
    var z, m, d := Zeros(n), Raise(MessagePoly(bits), n), Divisor(p);
    var u, v := Steps(n, z, p, bits), AugSteps(n, z, p, bits + z);
    ValZeros(n);
    DividendFromZero(n, bits);
    AugDividendFromZero(n, bits, check);
    AugDividendFromZero(n, bits, z);
    assert Rev(z) == z;
    AddZero(m);
    // zeros: both remainders are congruent to m
    ValBound(u);
    RemainderCharacterized(n, z, p, bits, Val(u));
    RemainderCharacterized(n, z, p, bits + z, Val(u));
    ValInjective(u, v);
    // check bits: zero is congruent to m + check iff check is congruent to m
    ValBound(check);
    RemainderCharacterized(n, z, p, bits + Rev(check), 0);
    RemainderCharacterized(n, z, p, bits, Val(check));
    ZeroSumIff(Val(check), m, d);
    assert 0 == Val(AugSteps(n, z, p, bits + Rev(check))) <==> AugSteps(n, z, p, bits + Rev(check)) == z by {
      if 0 == Val(AugSteps(n, z, p, bits + Rev(check))) {
        ValInjective(AugSteps(n, z, p, bits + Rev(check)), z);
      }
    }
    if Val(check) == Val(u) {
      ValInjective(check, u);
    }
  }

  lemma RaiseZero(k: nat)
    ensures Raise(0, k) == 0
  {
    RaiseIsScaling(0, k);
  }

  lemma DividendFromZero(n: nat, bits: Word)
    ensures Dividend(n, Zeros(n), bits) == Raise(MessagePoly(bits), n)
  {
    hide Raise, MessagePoly, Val, Add;
    ValZeros(n);
    RaiseZero(|bits|);
    AddZero(Raise(MessagePoly(bits), n));
  }

  lemma AugDividendFromZero(n: nat, bits: Word, check: Word)
    requires |check| == n
    ensures AugDividend(Zeros(n), bits + Rev(check)) == Add(Raise(MessagePoly(bits), n), Val(check))
  {
    hide Raise, MessagePoly, Val, Add;
    ValZeros(n);
    RaiseZero(|bits + Rev(check)|);
    MessageThenCheck(bits, check);
    AddZero(MessagePoly(bits + Rev(check)));
  }

  lemma ZeroSumIff(a: Poly, m: Poly, d: Poly)
    ensures Congruent(0, Add(m, a), d) <==> Congruent(a, m, d)
  {
    AddZero(Add(m, a));
    AddCommutes(m, a);
  }

  /** The conversion between initial remainders: an augmented run from r is an unaugmented
      run from r pushed through n zeros. */
  lemma InitialRemainderConversion(n: nat, r: Word, p: Word, bits: Word)
    requires 1 <= n == |r| == |p|
    ensures AugSteps(n, r, p, bits + Zeros(n)) == Steps(n, AugSteps(n, r, p, Zeros(n)), p, bits)
  {
    hide AugSteps, Steps;
    var l, z := |bits|, Zeros(|bits| + n);
    // the part of r
    AugmentedRemainder(n, p, bits, Zeros(n));
    assert Xor(z, bits + Zeros(n)) == bits + Zeros(n);
    assert Xor(r, Zeros(n)) == r;
    AugStepsLinear(n, r, Zeros(n), p, z, bits + Zeros(n));
    assert z == Zeros(n) + Zeros(l);
    AugStepsConcat(n, r, p, Zeros(n), Zeros(l));
    var s := AugSteps(n, r, p, Zeros(n));
    StylesAgreeOnZeros(n, s, p, l);
    // the part of the message
    assert Xor(Zeros(l), bits) == bits && Xor(s, Zeros(n)) == s;
    StepsLinear(n, s, Zeros(n), p, Zeros(l), bits);
  }

  // ----- The same, for the byte-wise functions -----

  /** A value of 8 * k bits as bytes, highest first. */
  function BigEndian(a: Word): (msg: seq<Byte>)
    requires |a| % 8 == 0
    decreases |a|
  {
    if a == [] then [] else [a[|a| - 8..]] + BigEndian(a[..|a| - 8])
  }

  lemma {:induction false} ZeroBytesBits(k: nat)
    ensures MessageBits(ZeroBytes(k), false) == Zeros(8 * k)
  {
    if k > 0 {
      ZeroBytesBits(k - 1);
      assert ZeroBytes(k)[1..] == ZeroBytes(k - 1);
      assert InputBits(Zeros(8), 8, false) == Zeros(8);
    }
  }

  lemma {:induction false} BigEndianBits(a: Word)
    requires |a| % 8 == 0
    ensures MessageBits(BigEndian(a), false) == Rev(a)
    decreases |a|
  {
    if a != [] {
      var k := |a| - 8;
      BigEndianBits(a[..k]);
      assert BigEndian(a)[1..] == BigEndian(a[..k]);
      assert InputBits(a[k..], 8, false) == Rev(a[k..]);
      assert a == a[..k] + a[k..];
      RevSplit(a, k);
    }
  }

  lemma RevSplit(a: Word, k: nat)
    requires k <= |a|
    ensures Rev(a) == Rev(a[k..]) + Rev(a[..k])
  {
  }

  /** The plain checksum: nothing initial, nothing reflected, nothing xored in. */
  function Plain(n: nat, p: Word): (c: Params)
    requires 8 <= n <= 64 && |p| == RegWidth(n)
    ensures c.Valid()
  {
    Params(n, p, Zeros(|p|), Zeros(|p|), false, false)
  }

  lemma PlainChecksum(n: nat, p: Word, msg: seq<Byte>)
    requires 8 <= n <= 64 && |p| == RegWidth(n)
    ensures OptimalChecksum(Plain(n, p), msg)[..n] == Steps(n, Zeros(n), p[..n], MessageBits(msg, false))
    ensures Clean(OptimalChecksum(Plain(n, p), msg), n)
  {
    var z, bits := Zeros(|p|), MessageBits(msg, false);
    DirectUpdateDivides(n, z, p, msg);
    StepsLowBits(n, z, p, bits);
    assert z[..n] == Zeros(n);
    assert Xor(ByteUpdate(n, z, p, msg, false), z) == ByteUpdate(n, z, p, msg, false);
  }

  lemma AugmentedPlain(n: nat, p: Word, msg: seq<Byte>)
    requires 8 <= n <= 64 && |p| == RegWidth(n)
    ensures AugmentedChecksum(n, p, Zeros(|p|), msg)[..n] == AugSteps(n, Zeros(n), p[..n], MessageBits(msg, false))
    ensures Clean(AugmentedChecksum(n, p, Zeros(|p|), msg), n)
  {
    AugmentedLow(n, p, Zeros(|p|), msg);
    assert Zeros(|p|)[..n] == Zeros(n);
  }

  /** The low bits of an augmented checksum, and nothing above them. */
  lemma AugmentedLow(n: nat, p: Word, r: Word, msg: seq<Byte>)
    requires 8 <= n <= 64 && |r| == |p| == RegWidth(n)
    ensures AugmentedChecksum(n, p, r, msg)[..n] == AugSteps(n, r[..n], p[..n], MessageBits(msg, false))
    ensures Clean(AugmentedChecksum(n, p, r, msg), n)
  {
    hide AugSteps, AugByteUpdate;
    AugDirectUpdateDivides(n, r, p, msg);
    AugStepsLowBits(n, r, p, MessageBits(msg, false));
    var s := AugByteUpdate(n, r, p, msg, false);
    assert Low(s, n)[..n] == s[..n];
  }

  /** A block may be read in several runs: each continues from what the one before returned. */
  lemma AugmentedResumes(n: nat, p: Word, r: Word, a: seq<Byte>, b: seq<Byte>)
    requires 8 <= n <= 64 && |r| == |p| == RegWidth(n)
    ensures AugmentedChecksum(n, p, AugmentedChecksum(n, p, r, a), b) == AugmentedChecksum(n, p, r, a + b)
  {
    hide AugSteps, AugmentedChecksum, Clean;
    var first := AugmentedChecksum(n, p, r, a);
    AugmentedLow(n, p, r, a);
    AugmentedLow(n, p, first, b);
    AugmentedLow(n, p, r, a + b);
    MessageBitsConcat(a, b, false);
    AugStepsConcat(n, r[..n], p[..n], MessageBits(a, false), MessageBits(b, false));
    CleanEqual(AugmentedChecksum(n, p, first, b), AugmentedChecksum(n, p, r, a + b), n);
  }

  lemma CleanEqual(a: Word, b: Word, n: nat)
    requires n <= |a| == |b| && Clean(a, n) && Clean(b, n)
    ensures a == b <==> a[..n] == b[..n]
  {
    if a[..n] == b[..n] {
      assert forall i :: 0 <= i < n ==> a[i] == a[..n][i] == b[..n][i] == b[i];
    }
  }

  /** Appending Bits/8 zero bytes turns the augmented checksum into the plain one. */
  lemma ZeroBytesGiveChecksum(n: nat, p: Word, msg: seq<Byte>)
    requires 8 <= n <= 64 && n % 8 == 0 && |p| == RegWidth(n)
    ensures AugmentedChecksum(n, p, Zeros(|p|), msg + ZeroBytes(n / 8)) == OptimalChecksum(Plain(n, p), msg)
  {
    hide Steps, AugSteps, MessageBits, AugmentedChecksum, OptimalChecksum;
    var whole := msg + ZeroBytes(n / 8);
    PlainChecksum(n, p, msg);
    AugmentedPlain(n, p, whole);
    MessageBitsConcat(msg, ZeroBytes(n / 8), false);
    ZeroBytesBits(n / 8);
    AugmentedRemainder(n, p[..n], MessageBits(msg, false), Zeros(n));
    CleanEqual(AugmentedChecksum(n, p, Zeros(|p|), whole), OptimalChecksum(Plain(n, p), msg), n);
  }

  /** Appending a check value in big-endian order gives zero if and only if the value is the
      checksum: neither a damaged message nor a damaged check value passes, unless the
      message still has that checksum. */
  lemma CheckedMessageIsZeroIff(n: nat, p: Word, msg: seq<Byte>, check: Word)
    requires 8 <= n <= 64 && n % 8 == 0 && |p| == RegWidth(n) && |check| == n
    ensures AugmentedChecksum(n, p, Zeros(|p|), msg + BigEndian(check)) == Zeros(|p|) <==>
            check == OptimalChecksum(Plain(n, p), msg)[..n]
  {
    hide Steps, AugSteps, MessageBits, AugmentedChecksum, OptimalChecksum;
    var whole := msg + BigEndian(check);
    PlainChecksum(n, p, msg);
    AugmentedPlain(n, p, whole);
    MessageBitsConcat(msg, BigEndian(check), false);
    BigEndianBits(check);
    AugmentedRemainder(n, p[..n], MessageBits(msg, false), check);
    CleanEqual(AugmentedChecksum(n, p, Zeros(|p|), whole), Zeros(|p|), n);
    assert Zeros(|p|)[..n] == Zeros(n);
  }

  // ----- What a checksum detects -----

  lemma StepInjective(n: nat, r: Word, s: Word, p: Word)
    requires 1 <= n == |r| == |s| == |p| && p[0] && Step(n, r, p, false) == Step(n, s, p, false)
    ensures r == s
  {
    var t, u := Step(n, r, p, false), Step(n, s, p, false);
    assert t[0] == r[n - 1] && u[0] == s[n - 1];
    forall i | 0 <= i < n - 1
      ensures r[i] == s[i]
    {
      assert t[i + 1] == u[i + 1];
    }
  }

  lemma {:induction false} ZeroStepsNonzero(n: nat, r: Word, p: Word, k: nat)
    requires 1 <= n == |r| == |p| && p[0] && r != Zeros(n)
    ensures Steps(n, r, p, Zeros(k)) != Zeros(n)
    decreases k
  {
    if k > 0 {
      assert Zeros(k)[1..] == Zeros(k - 1);
      assert Step(n, Zeros(n), p, false) == Zeros(n);
      if Step(n, r, p, false) == Zeros(n) {
        StepInjective(n, r, Zeros(n), p);
      }
      ZeroStepsNonzero(n, Step(n, r, p, false), p, k - 1);
    }
  }

  /** A nonzero error pattern of at most n bits, anywhere in a message, changes the remainder
      if the divisor has a constant term. */
  lemma BurstErrorDetected(n: nat, r: Word, p: Word, a: Word, b: Word, before: nat,
                           burst: Word, after: nat)
    requires 1 <= n == |r| == |p| && p[0] && |burst| <= n && burst != Zeros(|burst|)
    requires |a| == |b| && Xor(a, b) == Zeros(before) + burst + Zeros(after)
    ensures Steps(n, r, p, a) != Steps(n, r, p, b)
  {
    hide Step, Steps;
    var z := Zeros(n);
    StepsLinear(n, r, r, p, a, b);
    XorSelf(r);
    StepsConcat(n, z, p, Zeros(before) + burst, Zeros(after));
    StepsConcat(n, z, p, Zeros(before), burst);
    ShiftOnlyAll(n, p, before);
    FeedAtOnce(n, z, p, burst);
    var t := Xor(z, Top(n, n, burst));
    BurstOnTop(n, burst);
    ZeroStepsNonzero(n, t, p, |burst|);
    ZeroStepsNonzero(n, Steps(n, t, p, Zeros(|burst|)), p, after);
    XorSelf(Steps(n, r, p, a));
  }

  lemma BurstOnTop(n: nat, burst: Word)
    requires |burst| <= n && burst != Zeros(|burst|)
    ensures Xor(Zeros(n), Top(n, n, burst)) != Zeros(n)
  {
    var i :| 0 <= i < |burst| && burst[i];
    assert Xor(Zeros(n), Top(n, n, burst))[n - 1 - i];
  }

  lemma {:induction false} ShiftOnlyAll(n: nat, p: Word, k: nat)
    requires 1 <= n == |p|
    ensures Steps(n, Zeros(n), p, Zeros(k)) == Zeros(n)
    decreases k
  {
    if k > 0 {
      assert Zeros(k)[1..] == Zeros(k - 1);
      assert Step(n, Zeros(n), p, false) == Zeros(n);
      ShiftOnlyAll(n, p, k - 1);
    }
  }
}
