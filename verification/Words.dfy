/** Built-in unsigned integers, bit by bit.  A word of width w is a sequence of w booleans
    whose element i is the 2^i bit, so that a word is also the list of coefficients of a
    polynomial over GF(2), lowest term first. */
module Words {

  type Word = seq<bool>
  type Byte = b: Word | |b| == 8 witness [false, false, false, false, false, false, false, false]

  function Zeros(w: nat): (z: Word)
    ensures |z| == w && forall i :: 0 <= i < w ==> !z[i]
  {
    seq(w, _ => false)
  }

  /** The word 1 << i. */
  function OneHot(w: nat, i: nat): (z: Word)
    requires i < w
    ensures |z| == w && forall j :: 0 <= j < w ==> z[j] == (j == i)
  {
    seq(w, j => j == i)
  }

  function Xor(a: Word, b: Word): (c: Word)
    requires |a| == |b|
    ensures |c| == |a| && forall i :: 0 <= i < |a| ==> c[i] == (a[i] != b[i])
  {
    seq(|a|, i requires 0 <= i < |a| => a[i] != b[i])
  }

  lemma XorSelf(a: Word)
    ensures Xor(a, a) == Zeros(|a|)
  {
  }

  lemma XorZero(a: Word)
    ensures Xor(a, Zeros(|a|)) == a
  {
  }

  function And(a: Word, b: Word): (c: Word)
    requires |a| == |b|
    ensures |c| == |a| && forall i :: 0 <= i < |a| ==> c[i] == (a[i] && b[i])
  {
    seq(|a|, i requires 0 <= i < |a| => a[i] && b[i])
  }

  function Or(a: Word, b: Word): (c: Word)
    requires |a| == |b|
    ensures |c| == |a| && forall i :: 0 <= i < |a| ==> c[i] == (a[i] || b[i])
  {
    seq(|a|, i requires 0 <= i < |a| => a[i] || b[i])
  }

  function Shl(a: Word, k: nat): (c: Word)
    requires k <= |a|
    ensures |c| == |a|
    ensures forall i :: 0 <= i < |a| ==> c[i] == (i >= k && a[i - k])
  {
    Zeros(k) + a[..|a| - k]
  }

  function Shr(a: Word, k: nat): (c: Word)
    requires k <= |a|
    ensures |c| == |a|
    ensures forall i :: 0 <= i < |a| ==> c[i] == (i + k < |a| && a[i + k])
  {
    a[k..] + Zeros(k)
  }

  /** a & ((1 << n) - 1). */
  function Low(a: Word, n: nat): (c: Word)
    requires n <= |a|
    ensures |c| == |a| && forall i :: 0 <= i < |a| ==> c[i] == (i < n && a[i])
  {
    a[..n] + Zeros(|a| - n)
  }

  /** Change the type of a value to a type of w bits. */
  function Resize(a: Word, w: nat): (c: Word)
    ensures |c| == w && forall i :: 0 <= i < w ==> c[i] == (i < |a| && a[i])
  {
    seq(w, i requires 0 <= i < w => i < |a| && a[i])
  }

  function Rev(a: Word): (c: Word)
    ensures |c| == |a| && forall i :: 0 <= i < |a| ==> c[i] == a[|a| - 1 - i]
  {
    seq(|a|, i requires 0 <= i < |a| => a[|a| - 1 - i])
  }

  /** Reverse the low n bits and leave the others alone. */
  function Reflect(a: Word, n: nat): (c: Word)
    requires n <= |a|
    ensures |c| == |a|
    ensures forall i :: 0 <= i < |a| ==> c[i] == if i < n then a[n - 1 - i] else a[i]
  {
    Rev(a[..n]) + a[n..]
  }

  // ----- Words as numbers -----

  function Pow2(k: nat): (p: nat)
    ensures p >= 1
  {
    if k == 0 then 1 else 2 * Pow2(k - 1)
  }

  function Val(a: Word): nat {
    if a == [] then 0 else (if a[0] then 1 else 0) + 2 * Val(a[1..])
  }

  /** The low w bits of the number n. */
  function Bin(n: nat, w: nat): (a: Word)
    ensures |a| == w
  {
    if w == 0 then [] else [n % 2 == 1] + Bin(n / 2, w - 1)
  }

  lemma {:induction false} ValBound(a: Word)
    ensures Val(a) < Pow2(|a|)
  {
    if a != [] {
      ValBound(a[1..]);
    }
  }

  lemma {:induction false} ValBin(n: nat, w: nat)
    requires n < Pow2(w)
    ensures Val(Bin(n, w)) == n
  {
    if w > 0 {
      ValBin(n / 2, w - 1);
      assert Bin(n, w)[1..] == Bin(n / 2, w - 1);
    }
  }

  lemma {:induction false} BinVal(a: Word)
    ensures Bin(Val(a), |a|) == a
  {
    if a != [] {
      BinVal(a[1..]);
      assert a == [a[0]] + a[1..];
    }
  }

  /** Two words of one width with the same number are the same word. */
  lemma ValInjective(a: Word, b: Word)
    requires |a| == |b| && Val(a) == Val(b)
    ensures a == b
  {
    BinVal(a);
    BinVal(b);
  }

  lemma {:induction false} ValZeros(w: nat)
    ensures Val(Zeros(w)) == 0
  {
    if w > 0 {
      ValZeros(w - 1);
      assert Zeros(w)[1..] == Zeros(w - 1);
    }
  }

  lemma {:induction false} ValOneHot(w: nat, i: nat)
    requires i < w
    ensures Val(OneHot(w, i)) == Pow2(i)
  {
    if i == 0 {
      assert OneHot(w, 0)[1..] == Zeros(w - 1);
      ValZeros(w - 1);
    } else {
      assert OneHot(w, i)[1..] == OneHot(w - 1, i - 1);
      ValOneHot(w - 1, i - 1);
    }
  }

  lemma {:induction false} Pow2Monotone(i: nat, j: nat)
    requires i < j
    ensures Pow2(i) < Pow2(j)
  {
    if i + 1 < j {
      Pow2Monotone(i, j - 1);
    }
  }

  lemma Pow2Times(k: nat, x: int)
    requires k > 0
    ensures Pow2(k) * x == 2 * (Pow2(k - 1) * x)
  {
    var p := Pow2(k - 1);
    assert (2 * p) * x == 2 * (p * x);
  }

  lemma {:induction false} ValConcat(a: Word, b: Word)
    ensures Val(a + b) == Val(a) + Pow2(|a|) * Val(b)
  {
    if a == [] {
      assert a + b == b;
    } else {
      hide Pow2;
      assert (a + b)[1..] == a[1..] + b;
      ValConcat(a[1..], b);
      Pow2Times(|a|, Val(b));
    }
  }
}
