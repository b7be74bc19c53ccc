/** Division is linear over GF(2).  From that follows what a table of partial products may
    replace: k steps on any register are a shift of its lower part plus one table entry,
    chosen by the k leading bits. */
module Linearity {
  import opened Words
  import opened Division

  lemma StepLinear(n: nat, r: Word, s: Word, p: Word, b: bool, c: bool)
    requires 1 <= n <= |r| == |s| == |p|
    ensures Step(n, Xor(r, s), p, b != c) == Xor(Step(n, r, p, b), Step(n, s, p, c))
  {
  }

  lemma {:induction false} StepsLinear(n: nat, r: Word, s: Word, p: Word, a: Word, b: Word)
    requires 1 <= n <= |r| == |s| == |p| && |a| == |b|
    ensures Steps(n, Xor(r, s), p, Xor(a, b)) == Xor(Steps(n, r, p, a), Steps(n, s, p, b))
    decreases |a|
  {
    if a != [] {
      StepLinear(n, r, s, p, a[0], b[0]);
      StepsLinear(n, Step(n, r, p, a[0]), Step(n, s, p, b[0]), p, a[1..], b[1..]);
      assert Xor(a, b)[1..] == Xor(a[1..], b[1..]);
    }
  }

  lemma {:induction false} AugStepsLinear(n: nat, r: Word, s: Word, p: Word, a: Word, b: Word)
    requires 1 <= n <= |r| == |s| == |p| && |a| == |b|
    ensures AugSteps(n, Xor(r, s), p, Xor(a, b)) == Xor(AugSteps(n, r, p, a), AugSteps(n, s, p, b))
    decreases |a|
  {
    if a != [] {
      assert AugStep(n, Xor(r, s), p, a[0] != b[0]) == Xor(AugStep(n, r, p, a[0]), AugStep(n, s, p, b[0]));
      AugStepsLinear(n, AugStep(n, r, p, a[0]), AugStep(n, s, p, b[0]), p, a[1..], b[1..]);
      assert Xor(a, b)[1..] == Xor(a[1..], b[1..]);
    }
  }

  lemma {:induction false} StepsConcat(n: nat, r: Word, p: Word, a: Word, b: Word)
    requires 1 <= n <= |r| == |p|
    ensures Steps(n, r, p, a + b) == Steps(n, Steps(n, r, p, a), p, b)
    decreases |a|
  {
    if a == [] {
      assert a + b == b;
    } else {
      assert (a + b)[1..] == a[1..] + b;
      StepsConcat(n, Step(n, r, p, a[0]), p, a[1..], b);
    }
  }

  lemma {:induction false} AugStepsConcat(n: nat, r: Word, p: Word, a: Word, b: Word)
    requires 1 <= n <= |r| == |p|
    ensures AugSteps(n, r, p, a + b) == AugSteps(n, AugSteps(n, r, p, a), p, b)
    decreases |a|
  {
    if a == [] {
      assert a + b == b;
    } else {
      assert (a + b)[1..] == a[1..] + b;
      AugStepsConcat(n, AugStep(n, r, p, a[0]), p, a[1..], b);
    }
  }

  /** The low n bits of the register never depend on the bits above them. */
  lemma {:induction false} StepsLowBits(n: nat, r: Word, p: Word, bits: Word)
    requires 1 <= n <= |r| == |p|
    ensures Steps(n, r, p, bits)[..n] == Steps(n, r[..n], p[..n], bits)
    decreases |bits|
  {
    if bits != [] {
      assert Step(n, r, p, bits[0])[..n] == Step(n, r[..n], p[..n], bits[0]);
      StepsLowBits(n, Step(n, r, p, bits[0]), p, bits[1..]);
    }
  }

  lemma {:induction false} AugStepsLowBits(n: nat, r: Word, p: Word, bits: Word)
    requires 1 <= n <= |r| == |p|
    ensures AugSteps(n, r, p, bits)[..n] == AugSteps(n, r[..n], p[..n], bits)
    decreases |bits|
  {
    if bits != [] {
      assert AugStep(n, r, p, bits[0])[..n] == AugStep(n, r[..n], p[..n], bits[0]);
      AugStepsLowBits(n, AugStep(n, r, p, bits[0]), p, bits[1..]);
    }
  }

  /** bits[0] at place n - 1, bits[1] at place n - 2, and so on. */
  function Top(w: nat, n: nat, bits: Word): (t: Word)
    requires |bits| <= n <= w
    ensures |t| == w
    ensures forall i :: 0 <= i < w ==> t[i] == (n - |bits| <= i < n && bits[n - 1 - i])
  {
    seq(w, i requires 0 <= i < w => n - |bits| <= i < n && bits[n - 1 - i])
  }

  /** The k leading bits of the n-bit remainder, highest first. */
  function Lead(r: Word, n: nat, k: nat): (bits: Word)
    requires k <= n <= |r|
    ensures |bits| == k && forall i :: 0 <= i < k ==> bits[i] == r[n - 1 - i]
  {
    Rev(r[n - k..n])
  }

  /** The register without its k leading bits. */
  function Rest(r: Word, n: nat, k: nat): (s: Word)
    requires k <= n <= |r|
    ensures |s| == |r|
    ensures forall i :: 0 <= i < |r| ==> s[i] == (!(n - k <= i < n) && r[i])
  {
    seq(|r|, i requires 0 <= i < |r| => !(n - k <= i < n) && r[i])
  }

  /** Feeding bits in one by one is the same as adding them to the leading bits at once. */
  lemma {:induction false} FeedAtOnce(n: nat, r: Word, p: Word, bits: Word)
    requires 1 <= n <= |r| == |p| && |bits| <= n
    ensures Steps(n, r, p, bits) == Steps(n, Xor(r, Top(|r|, n, bits)), p, Zeros(|bits|))
    decreases |bits|
  {
    if bits == [] {
      assert Xor(r, Top(|r|, n, bits)) == r;
    } else {
      var b, rest, s := bits[0], bits[1..], Xor(r, Top(|r|, n, bits));
      assert Step(n, s, p, false) == Xor(Step(n, r, p, b), Top(|r|, n, rest));
      assert Zeros(|bits|)[1..] == Zeros(|rest|);
      FeedAtOnce(n, Step(n, r, p, b), p, rest);
    }
  }

  lemma ShlCompose(r: Word, k: nat)
    requires k < |r|
    ensures Shl(Shl(r, 1), k) == Shl(r, k + 1)
  {
  }

  lemma SplitLeading(n: nat, r: Word, bits: Word)
    requires |bits| <= n <= |r|
    ensures var k := |bits|; var index := Xor(Lead(r, n, k), bits);
            && Xor(r, Top(|r|, n, bits)) == Xor(Rest(r, n, k), Top(|r|, n, index))
            && Xor(Zeros(|r|), Top(|r|, n, index)) == Top(|r|, n, index)
  {
  }

  /** With k leading zeros, k steps without input only shift. */
  lemma {:induction false} ShiftOnly(n: nat, r: Word, p: Word, k: nat)
    requires 1 <= n <= |r| == |p| && k <= n
    requires forall i :: n - k <= i < n ==> !r[i]
    ensures Steps(n, r, p, Zeros(k)) == Shl(r, k)
    decreases k
  {
    if k == 0 {
      assert Shl(r, 0) == r;
    } else {
      assert Step(n, r, p, false) == Shl(r, 1);
      assert Zeros(k)[0] == false && Zeros(k)[1..] == Zeros(k - 1);
      ShlCompose(r, k - 1);
      ShiftOnly(n, Shl(r, 1), p, k - 1);
    }
  }

  /** k unaugmented steps are a shift of the rest plus the partial product of the leading
      bits xored with the input. */
  lemma PartialProduct(n: nat, r: Word, p: Word, bits: Word)
    requires 1 <= n <= |r| == |p| && |bits| <= n
    ensures var k := |bits|;
            Steps(n, r, p, bits) ==
            Xor(Shl(Rest(r, n, k), k), Steps(n, Zeros(|r|), p, Xor(Lead(r, n, k), bits)))
  {
    var k, w := |bits|, |r|;
    var index := Xor(Lead(r, n, k), bits);
    FeedAtOnce(n, r, p, bits);
    SplitLeading(n, r, bits);
    assert Zeros(k) == Xor(Zeros(k), Zeros(k));
    StepsLinear(n, Rest(r, n, k), Top(w, n, index), p, Zeros(k), Zeros(k));
    ShiftOnly(n, Rest(r, n, k), p, k);
    FeedAtOnce(n, Zeros(w), p, index);
  }

  lemma {:induction false} StylesAgreeOnZeros(n: nat, r: Word, p: Word, k: nat)
    requires 1 <= n <= |r| == |p|
    ensures AugSteps(n, r, p, Zeros(k)) == Steps(n, r, p, Zeros(k))
    decreases k
  {
    if k > 0 {
      assert AugStep(n, r, p, false) == Step(n, r, p, false);
      assert Zeros(k)[1..] == Zeros(k - 1);
      StylesAgreeOnZeros(n, Step(n, r, p, false), p, k - 1);
    }
  }

  /** Shifting at most n bits into an empty register stores them. */
  lemma {:induction false} ShiftIntoEmpty(n: nat, p: Word, bits: Word)
    requires 1 <= n <= |p| && |bits| <= n
    ensures AugSteps(n, Zeros(|p|), p, bits) == Resize(Rev(bits), |p|)
    decreases |bits|
  {
    if bits == [] {
      assert Zeros(|p|) == Resize(Rev(bits), |p|);
    } else {
      var k := |bits| - 1;
      ShiftIntoEmpty(n, p, bits[..k]);
      assert bits == bits[..k] + [bits[k]];
      AugStepsConcat(n, Zeros(|p|), p, bits[..k], [bits[k]]);
      var r := Resize(Rev(bits[..k]), |p|);
      assert AugSteps(n, r, p, [bits[k]]) == AugStep(n, r, p, bits[k]);
      assert AugStep(n, r, p, bits[k]) == Resize(Rev(bits), |p|);
    }
  }

  /** k augmented steps use the very same partial products; only the index and the place of
      the new bits differ. */
  lemma AugPartialProduct(n: nat, r: Word, p: Word, bits: Word)
    requires 1 <= n <= |r| == |p| && |bits| <= n
    ensures var k := |bits|;
            AugSteps(n, r, p, bits) ==
            Xor(Or(Shl(Rest(r, n, k), k), Resize(Rev(bits), |r|)),
                Steps(n, Zeros(|r|), p, Lead(r, n, k)))
  {
    var k, w := |bits|, |r|;
    assert Xor(r, Zeros(w)) == r && Xor(Zeros(k), bits) == bits;
    AugStepsLinear(n, r, Zeros(w), p, Zeros(k), bits);
    StylesAgreeOnZeros(n, r, p, k);
    ShiftIntoEmpty(n, p, bits);
    PartialProduct(n, r, p, Zeros(k));
    assert Xor(Lead(r, n, k), Zeros(k)) == Lead(r, n, k);
    var a, b, c := Shl(Rest(r, n, k), k), Steps(n, Zeros(w), p, Lead(r, n, k)), Resize(Rev(bits), w);
    assert Or(a, c) == Xor(a, c);
    assert Xor(Xor(a, b), c) == Xor(Xor(a, c), b);
  }
}
