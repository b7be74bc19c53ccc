/** The reflected table-driven update of the augmented style is right, from a given register,
    exactly when register and divisor are clean.  Unlike in the unaugmented style the message
    has no influence on the table entry of the byte at hand, so the register has to be brought
    to where its upper bits show. */
module ReflectedAugmented {
  import opened Words
  import opened Division
  import opened Linearity
  import opened Tables
  import opened Updates
  import opened TableDriven

  // ----- What shows -----

  ghost predicate AugReflectedAlwaysDivides(n: nat, r: Word, p: Word)
    requires 8 <= n <= |r| == |p|
  {
    forall msg: seq<Byte> ::
      AugByteUpdate(n, Reflect(r, n), p, msg, true)[..n] == Rev(AugSteps(n, r, p, MessageBits(msg, true))[..n])
  }

  lemma AugCompletedDivides(n: nat, r: Word, p: Word, msg: seq<Byte>)
    requires 8 <= n <= |r| == |p| && Clean(r, n)
    ensures AugByteUpdate(n, Reflect(r, n), Completed(p, n), msg, true)[..n] ==
            Rev(AugSteps(n, r, p, MessageBits(msg, true))[..n])
  {
    var q, bits := Completed(p, n), MessageBits(msg, true);
    AugReflectedUpdateDivides(n, r, q, msg);
    AugStepsLowBits(n, r, p, bits);
    AugStepsLowBits(n, r, q, bits);
  }

  lemma SilentStep(n: nat, r: Word, p: Word)
    requires 8 <= n <= |r| == |p| && r[..n] == Zeros(n)
    ensures AugReflectedStep(n, r, p, Zeros(8)) == Shr(r, 8)
  {
    hide TableEntry;
    assert r[..8] == r[..n][..8] == Zeros(8);
    EntryOfZero(n, p, 8);
    SilentShift(n, r);
  }

  lemma SilentShift(n: nat, r: Word)
    requires 8 <= n <= |r|
    ensures Xor(Or(Shr(r, 8), Shl(Resize(Zeros(8), |r|), n - 8)), Zeros(|r|)) == Shr(r, 8)
  {
  }

  /** A register that shows zero through every silence is zero. */
  lemma {:induction false} SilenceShowsZero(n: nat, r: Word, p: Word, k: nat)
    requires 8 <= n <= |r| == |p|
    requires forall j :: 0 <= j <= k ==> AugByteUpdate(n, r, p, ZeroBytes(j), true)[..n] == Zeros(n)
    ensures forall i :: 0 <= i < |r| && i < n + 8 * k ==> !r[i]
    decreases k
  {
    hide AugReflectedStep, Shr;
    assert AugByteUpdate(n, r, p, ZeroBytes(0), true) == r;
    if k > 0 {
      SilentStep(n, r, p);
      forall j | 0 <= j <= k - 1
        ensures AugByteUpdate(n, Shr(r, 8), p, ZeroBytes(j), true)[..n] == Zeros(n)
      {
        assert ZeroBytes(j + 1)[1..] == ZeroBytes(j);
        assert AugByteUpdate(n, r, p, ZeroBytes(j + 1), true)[..n] == Zeros(n);
      }
      SilenceShowsZero(n, Shr(r, 8), p, k - 1);
      assert Shr(Zeros(|r|), 8) == Zeros(|r|);
      EqualBelow(n, r, Zeros(|r|), k);
    } else {
      assert forall i :: 0 <= i < n ==> r[i] == r[..n][i];
    }
  }

  lemma {:induction false} SilenceKeepsZero(n: nat, p: Word, k: nat)
    requires 8 <= n <= |p|
    ensures AugByteUpdate(n, Zeros(|p|), p, ZeroBytes(k), true) == Zeros(|p|)
  {
    hide AugReflectedStep;
    if k > 0 {
      assert Zeros(|p|)[..n] == Zeros(n);
      SilentStep(n, Zeros(|p|), p);
      assert Shr(Zeros(|p|), 8) == Zeros(|p|);
      assert ZeroBytes(k)[1..] == ZeroBytes(k - 1);
      SilenceKeepsZero(n, p, k - 1);
    }
  }

  /** The register and the byte after which the low bits are zero and what is left above
      them is the upper part of one table entry. */
  function Prepared(n: nat, p: Word): (rb: (Word, Byte))
    requires 8 <= n <= |p|
    ensures |rb.0| == |p|
  {
    var e := TableEntry(n, p, true, OneHot(8, 7));
    (Low(OneHot(8, 7) + e[..|p| - 8], n), e[n - 8..n])
  }

  lemma PreparedStep(n: nat, p: Word)
    requires 8 <= n <= |p|
    ensures var (r, b) := Prepared(n, p); var e := TableEntry(n, p, true, OneHot(8, 7));
            var s := AugReflectedStep(n, r, p, b);
            Clean(r, n) && s[..n] == Zeros(n) && forall i :: n <= i < |p| ==> s[i] == e[i]
  {
    hide TableEntry;
    PreparedBits(n, TableEntry(n, p, true, OneHot(8, 7)));
  }

  lemma PreparedBits(n: nat, e: Word)
    requires 8 <= n <= |e|
    ensures var w := |e|; var r := Low(OneHot(8, 7) + e[..w - 8], n);
            var s := Xor(Or(Shr(r, 8), Shl(Resize(e[n - 8..n], w), n - 8)), e);
            && r[..8] == OneHot(8, 7) && Clean(r, n)
            && s[..n] == Zeros(n) && forall i :: n <= i < w ==> s[i] == e[i]
  {
    var w := |e|;
    var r, b := Low(OneHot(8, 7) + e[..w - 8], n), Shl(Resize(e[n - 8..n], w), n - 8);
    var o := Or(Shr(r, 8), b);
    forall i | 0 <= i < w
      ensures o[i] == (i < n && e[i])
    {
      assert Shr(r, 8)[i] == (i + 8 < n && e[i]);
      assert b[i] == (n - 8 <= i < n && e[i]);
    }
  }

  lemma EntryLow(n: nat, p: Word, bits: Word)
    requires 1 <= n <= |p|
    ensures TableEntry(n, p, true, bits)[..n] == TableEntry(n, Completed(p, n), true, bits)[..n]
  {
    hide Steps;
    StepsLowBits(n, Zeros(|p|), p, bits);
    StepsLowBits(n, Zeros(|p|), Completed(p, n), bits);
    ReflectedLow(n, Steps(n, Zeros(|p|), p, bits));
    ReflectedLow(n, Steps(n, Zeros(|p|), Completed(p, n), bits));
  }

  lemma PreparedLow(n: nat, p: Word)
    requires 8 <= n <= |p|
    ensures Prepared(n, Completed(p, n)) == Prepared(n, p)
  {
    hide TableEntry;
    var bits := OneHot(8, 7);
    EntryLow(n, p, bits);
    SameLowPrepared(n, TableEntry(n, p, true, bits), TableEntry(n, Completed(p, n), true, bits));
  }

  lemma SameLowPrepared(n: nat, e: Word, f: Word)
    requires 8 <= n <= |e| == |f| && e[..n] == f[..n]
    ensures Low(OneHot(8, 7) + e[..|e| - 8], n) == Low(OneHot(8, 7) + f[..|f| - 8], n)
    ensures e[n - 8..n] == f[n - 8..n]
  {
    assert forall i :: 0 <= i < n ==> e[i] == e[..n][i] == f[..n][i] == f[i];
  }

  /** Two reflected augmented computers that show the same low n bits after every message. */
  ghost predicate AugIndistinguishable(n: nat, r: Word, p: Word, s: Word, q: Word)
    requires 8 <= n <= |r| == |p| == |s| == |q|
  {
    forall msg: seq<Byte> :: AugByteUpdate(n, r, p, msg, true)[..n] == AugByteUpdate(n, s, q, msg, true)[..n]
  }

  lemma {:induction false} AugByteUpdateConcat(n: nat, r: Word, p: Word, a: seq<Byte>, b: seq<Byte>)
    requires 8 <= n <= |r| == |p|
    ensures AugByteUpdate(n, r, p, a + b, true) == AugByteUpdate(n, AugByteUpdate(n, r, p, a, true), p, b, true)
    decreases |a|
  {
    hide AugReflectedStep;
    if a == [] {
      assert a + b == b;
    } else {
      assert (a + b)[1..] == a[1..] + b;
      AugByteUpdateConcat(n, AugReflectedStep(n, r, p, a[0]), p, a[1..], b);
    }
  }

  lemma AugOneByte(n: nat, r: Word, p: Word, b: Byte)
    requires 8 <= n <= |r| == |p|
    ensures AugByteUpdate(n, r, p, [b], true) == AugReflectedStep(n, r, p, b)
    ensures AugByteUpdate(n, r, p, [], true) == r
  {
    hide AugReflectedStep;
    assert [b][1..] == [];
  }

  /** They remain so. */
  lemma AugIndistinguishableAfter(n: nat, r: Word, p: Word, s: Word, q: Word, msg: seq<Byte>)
    requires 8 <= n <= |r| == |p| == |s| == |q| && AugIndistinguishable(n, r, p, s, q)
    ensures AugIndistinguishable(n, AugByteUpdate(n, r, p, msg, true), p, AugByteUpdate(n, s, q, msg, true), q)
  {
    hide AugByteUpdate;
    forall more: seq<Byte>
      ensures AugByteUpdate(n, AugByteUpdate(n, r, p, msg, true), p, more, true)[..n] ==
              AugByteUpdate(n, AugByteUpdate(n, s, q, msg, true), q, more, true)[..n]
    {
      AugByteUpdateConcat(n, r, p, msg, more);
      AugByteUpdateConcat(n, s, q, msg, more);
      assert AugByteUpdate(n, r, p, msg + more, true)[..n] == AugByteUpdate(n, s, q, msg + more, true)[..n];
    }
  }

  /** A register indistinguishable from zero is zero. */
  lemma AugZeroShows(n: nat, r: Word, p: Word, q: Word)
    requires 8 <= n <= |r| == |p| == |q| && AugIndistinguishable(n, r, p, Zeros(|p|), q)
    ensures r == Zeros(|p|)
  {
    hide AugByteUpdate;
    forall j: nat
      ensures AugByteUpdate(n, r, p, ZeroBytes(j), true)[..n] == Zeros(n)
    {
      SilenceKeepsZero(n, q, j);
      assert Zeros(|p|)[..n] == Zeros(n);
    }
    SilenceShowsZero(n, r, p, |p|);
    assert r == Zeros(|p|);
  }

  // ----- Bringing a register to a wanted value -----

  function BytesOf(bits: Word): (msg: seq<Byte>)
    requires |bits| % 8 == 0
  {
    if bits == [] then [] else [bits[..8]] + BytesOf(bits[8..])
  }

  lemma {:induction false} BytesOfBits(bits: Word)
    requires |bits| % 8 == 0
    ensures MessageBits(BytesOf(bits), true) == bits
    decreases |bits|
  {
    if bits != [] {
      BytesOfBits(bits[8..]);
      assert bits == bits[..8] + bits[8..];
    }
  }

  lemma XorClean(z: Word, n: nat)
    requires n <= |z| && Clean(z, n)
    ensures Resize(z[..n], |z|) == z && Xor(z, z) == Zeros(|z|) && Rev(Rev(z[..n])) == z[..n]
    ensures Xor(Zeros(n), Rev(z[..n])) == Rev(z[..n])
  {
  }

  /** Bits after which a clean register is zero. */
  lemma BitsToZero(n: nat, r: Word, p: Word) returns (bits: Word)
    requires 8 <= n <= |r| == |p| && Clean(r, n) && CleanDivisor(p, n)
    ensures |bits| % 8 == 0 && AugSteps(n, r, p, bits) == Zeros(|p|)
  {
    hide AugSteps, CleanDivisor;
    var y := AugSteps(n, r, p, Zeros(7 * n));
    var z := AugSteps(n, y, p, Zeros(n));
    AugStepsStayClean(n, r, p, Zeros(7 * n));
    AugStepsStayClean(n, y, p, Zeros(n));
    var x := Rev(z[..n]);
    XorClean(z, n);
    AugStepsLinear(n, y, Zeros(|p|), p, Zeros(n), x);
    ShiftIntoEmpty(n, p, x);
    assert Xor(y, Zeros(|p|)) == y;
    bits := Zeros(7 * n) + x;
    AugStepsConcat(n, r, p, Zeros(7 * n), x);
  }

  lemma MessageToZero(n: nat, r: Word, p: Word) returns (msg: seq<Byte>)
    requires 8 <= n <= |r| == |p| && Clean(r, n) && CleanDivisor(p, n)
    ensures AugByteUpdate(n, Reflect(r, n), p, msg, true) == Zeros(|p|)
  {
    hide AugSteps, CleanDivisor, AugByteUpdate;
    var bits := BitsToZero(n, r, p);
    msg := BytesOf(bits);
    BytesOfBits(bits);
    AugReflectedUpdateDivides(n, r, p, msg);
    assert Reflect(Zeros(|p|), n) == Zeros(|p|);
  }

  /** What k bytes leave of the target t in an empty register. */
  function Filling(n: nat, t: Word, k: nat): (r: Word)
    requires 8 <= n <= |t| && 8 * k <= n
    ensures |r| == |t|
  {
    seq(|t|, i requires 0 <= i < |t| =>
      var from := i - 8 * (n / 8 - k);
      n - 8 * k <= i < n && 0 <= from < |t| && t[from])
  }

  function FillBytes(n: nat, t: Word, k: nat): (msg: seq<Byte>)
    requires 8 <= n <= |t| && 8 * k <= n
  {
    if k == 0 then []
    else
      var at := n % 8 + 8 * (k - 1);
      FillBytes(n, t, k - 1) + [t[at..at + 8]]
  }

  lemma FillingStep(n: nat, t: Word, p: Word, k: nat)
    requires 8 <= n <= |t| == |p| && 8 * (k + 1) <= n
    ensures var at := n % 8 + 8 * k;
            AugReflectedStep(n, Filling(n, t, k), p, t[at..at + 8]) == Filling(n, t, k + 1)
  {
    hide TableEntry;
    var at, r := n % 8 + 8 * k, Filling(n, t, k);
    var shifted, entry := Or(Shr(r, 8), Shl(Resize(t[at..at + 8], |t|), n - 8)), TableEntry(n, p, true, r[..8]);
    assert r[..8] == Zeros(8);
    EntryOfZero(n, p, 8);
    FillingShifts(n, t, k);
    assert Xor(shifted, entry) == shifted;
  }

  lemma FillingShifts(n: nat, t: Word, k: nat)
    requires 8 <= n <= |t| && 8 * (k + 1) <= n
    ensures var at := n % 8 + 8 * k;
            Or(Shr(Filling(n, t, k), 8), Shl(Resize(t[at..at + 8], |t|), n - 8)) == Filling(n, t, k + 1)
  {
    var at, r, next := n % 8 + 8 * k, Filling(n, t, k), Filling(n, t, k + 1);
    var low, high := Shr(r, 8), Shl(Resize(t[at..at + 8], |t|), n - 8);
    forall i | 0 <= i < |t|
      ensures (low[i] || high[i]) == next[i]
    {
      if n - 8 <= i < n {
        assert high[i] == t[at..at + 8][i - (n - 8)] == t[at + i - (n - 8)];
      }
    }
  }

  lemma {:induction false} FilledUp(n: nat, t: Word, p: Word, k: nat)
    requires 8 <= n <= |t| == |p| && 8 * k <= n
    ensures AugByteUpdate(n, Zeros(|p|), p, FillBytes(n, t, k), true) == Filling(n, t, k)
  {
    hide AugReflectedStep, AugByteUpdate, Filling;
    if k == 0 {
      NothingFilled(n, t);
      AugOneByte(n, Zeros(|p|), p, Zeros(8));
    } else {
      var at := n % 8 + 8 * (k - 1);
      FilledUp(n, t, p, k - 1);
      AugByteUpdateConcat(n, Zeros(|p|), p, FillBytes(n, t, k - 1), [t[at..at + 8]]);
      AugOneByte(n, Filling(n, t, k - 1), p, t[at..at + 8]);
      FillingStep(n, t, p, k - 1);
    }
  }

  lemma NothingFilled(n: nat, t: Word)
    requires 8 <= n <= |t|
    ensures Filling(n, t, 0) == Zeros(|t|)
  {
  }

  /** Whole bytes reach every clean value whose lowest n mod 8 bits are clear. */
  lemma FilledIsTarget(n: nat, t: Word)
    requires 8 <= n <= |t| && Clean(t, n) && forall i :: 0 <= i < n % 8 ==> !t[i]
    ensures Filling(n, t, n / 8) == t
  {
  }

  // ----- The converse -----

  lemma PreparedReachable(n: nat, p: Word)
    requires 8 <= n <= |p|
    ensures var t := Prepared(n, p).0;
            Clean(t, n) && (forall i :: 0 <= i < n % 8 ==> !t[i])
  {
    hide TableEntry;
    PreparedBits(n, TableEntry(n, p, true, OneHot(8, 7)));
    var t := Prepared(n, p).0;
    assert forall i :: 0 <= i < 7 ==> t[i] == t[..8][i];
  }

  /** From zero, the divisor shows. */
  lemma AugDivisorShows(n: nat, p: Word)
    requires 8 <= n <= |p|
    requires AugIndistinguishable(n, Zeros(|p|), p, Zeros(|p|), Completed(p, n))
    ensures CleanDivisor(p, n)
  {
    hide TableEntry, AugReflectedStep, AugByteUpdate, Prepared, Completed, AugIndistinguishable, Filling;
    var q, z := Completed(p, n), Zeros(|p|);
    var (t, b) := Prepared(n, p);
    PreparedLow(n, p);
    PreparedReachable(n, p);
    FilledIsTarget(n, t);
    var fill := FillBytes(n, t, n / 8);
    FilledUp(n, t, p, n / 8);
    FilledUp(n, t, q, n / 8);
    AugIndistinguishableAfter(n, z, p, z, q, fill);
    AugIndistinguishableAfter(n, t, p, t, q, [b]);
    AugOneByte(n, t, p, b);
    AugOneByte(n, t, q, b);
    PreparedStep(n, p);
    PreparedStep(n, q);
    EntryOfLastBit(n, p);
    EntryOfLastBit(n, q);
    var s, s' := AugReflectedStep(n, t, p, b), AugReflectedStep(n, t, q, b);
    assert s' == z by {
      assert forall i :: 0 <= i < n ==> s'[i] == s'[..n][i];
      CompletedAbove(p, n);
    }
    AugZeroShows(n, s, p, q);
    var e := TableEntry(n, p, true, OneHot(8, 7));
    forall i | n <= i < |p|
      ensures p[i] == (i == n)
    {
      assert s[i] == e[i];
    }
  }

  lemma CompletedAbove(p: Word, n: nat)
    requires n <= |p|
    ensures CleanDivisor(Completed(p, n), n) && (CleanDivisor(p, n) ==> Completed(p, n) == p)
  {
  }

  /** With a clean divisor, all of the register shows. */
  lemma {:induction false} AugRegistersEqual(n: nat, r: Word, s: Word, p: Word, k: nat)
    requires 8 <= n <= |r| == |p| == |s| && AugIndistinguishable(n, r, p, s, p)
    ensures forall i :: 0 <= i < |r| && i < n + 8 * k ==> r[i] == s[i]
    decreases k
  {
    hide AugReflectedStep, AugByteUpdate, Shr;
    AugOneByte(n, r, p, Zeros(8));
    AugOneByte(n, s, p, Zeros(8));
    assert r[..n] == s[..n];
    if k > 0 {
      AugIndistinguishableAfter(n, r, p, s, p, [Zeros(8)]);
      AugRegistersEqual(n, AugReflectedStep(n, r, p, Zeros(8)), AugReflectedStep(n, s, p, Zeros(8)), p, k - 1);
      assert s[..8] == s[..n][..8] == r[..n][..8] == r[..8];
      SameEntryStep(n, r, s, p);
      EqualBelow(n, r, s, k);
    } else {
      assert forall i :: 0 <= i < n ==> r[i] == r[..n][i] == s[..n][i] == s[i];
    }
  }

  lemma SameEntryStep(n: nat, r: Word, s: Word, p: Word)
    requires 8 <= n <= |r| == |p| == |s| && r[..8] == s[..8]
    ensures forall i :: 0 <= i < |r| ==>
              (AugReflectedStep(n, r, p, Zeros(8))[i] == AugReflectedStep(n, s, p, Zeros(8))[i]
               <==> Shr(r, 8)[i] == Shr(s, 8)[i])
  {
    hide TableEntry;
  }

  lemma AugFromCompleted(n: nat, r: Word, p: Word)
    requires 8 <= n <= |r| == |p| && AugReflectedAlwaysDivides(n, r, p)
    ensures AugIndistinguishable(n, Reflect(r, n), p, Reflect(Low(r, n), n), Completed(p, n))
  {
    hide AugByteUpdate, AugSteps, Reflect;
    var c := Low(r, n);
    forall msg: seq<Byte>
      ensures AugByteUpdate(n, Reflect(r, n), p, msg, true)[..n] ==
              AugByteUpdate(n, Reflect(c, n), Completed(p, n), msg, true)[..n]
    {
      AugCompletedDivides(n, c, p, msg);
      AugStepsLowBits(n, r, p, MessageBits(msg, true));
      AugStepsLowBits(n, c, p, MessageBits(msg, true));
      assert c[..n] == r[..n];
    }
  }

  lemma AugReflectedOnlyIf(n: nat, r: Word, p: Word)
    requires 8 <= n <= |r| == |p| && AugReflectedAlwaysDivides(n, r, p)
    ensures Clean(r, n) && CleanDivisor(p, n)
  {
    hide AugByteUpdate, AugIndistinguishable, Completed, Reflect, CleanDivisor;
    var c, q := Low(r, n), Completed(p, n);
    AugFromCompleted(n, r, p);
    CompletedAbove(p, n);
    var msg := MessageToZero(n, c, q);
    AugIndistinguishableAfter(n, Reflect(r, n), p, Reflect(c, n), q, msg);
    AugZeroShows(n, AugByteUpdate(n, Reflect(r, n), p, msg, true), p, q);
    AugDivisorShows(n, p);
    AugRegistersEqual(n, Reflect(r, n), Reflect(c, n), p, |p|);
    SameUpper(r, n);
  }

  lemma SameUpper(r: Word, n: nat)
    requires n <= |r| && forall i :: 0 <= i < |r| ==> Reflect(r, n)[i] == Reflect(Low(r, n), n)[i]
    ensures Clean(r, n)
  {
    forall i | n <= i < |r|
      ensures !r[i]
    {
      assert Reflect(r, n)[i] == r[i] && Reflect(Low(r, n), n)[i] == Low(r, n)[i];
    }
  }

  /** From a given register, the reflected augmented update divides every message exactly when
      register and divisor are clean. */
  lemma AugReflectedUpdateDividesIff(n: nat, r: Word, p: Word)
    requires 8 <= n <= |r| == |p|
    ensures AugReflectedAlwaysDivides(n, r, p) <==> Clean(r, n) && CleanDivisor(p, n)
  {
    if Clean(r, n) && CleanDivisor(p, n) {
      CompletedAbove(p, n);
      forall msg: seq<Byte>
        ensures AugByteUpdate(n, Reflect(r, n), p, msg, true)[..n] ==
                Rev(AugSteps(n, r, p, MessageBits(msg, true))[..n])
      {
        AugCompletedDivides(n, r, p, msg);
      }
    }
    if AugReflectedAlwaysDivides(n, r, p) {
      AugReflectedOnlyIf(n, r, p);
    }
  }
}
