/** Bit reflection: the in-place swap loop, the byte table built with it, and the shifted
    table look-up used below a byte. */
module Reflection {
  import opened Words

  const CHAR_BIT := 8

  /** The low n bits of x with the outermost k pairs exchanged. */
  function Exchanged(x: Word, n: nat, k: nat): (y: Word)
    requires n <= |x| && 2 * k <= n
    ensures |y| == |x|
    ensures forall i :: 0 <= i < |x| ==> y[i] == if i < k || n - 1 - k < i < n then x[n - 1 - i] else x[i]
  {
    seq(|x|, i requires 0 <= i < |x| => if i < k || n - 1 - k < i < n then x[n - 1 - i] else x[i])
  }

  lemma ExchangeStep(x: Word, n: nat, k: nat)
    requires n <= |x| && 2 * k + 1 < n
    ensures var y := Exchanged(x, n, k); var l := OneHot(|x|, k); var h := OneHot(|x|, n - 1 - k);
            var m := Or(h, l); var t := And(y, m);
            Exchanged(x, n, k + 1) == if t == h || t == l then Xor(y, m) else y
  {
    var y := Exchanged(x, n, k);
    PairDiffers(y, k, n - 1 - k);
    FlipPair(y, k, n - 1 - k);
    FlippedPair(x, n, k);
    hide Exchanged, OneHot, Or, And, Xor;
  }

  /** Flipping both bits of a pair. */
  lemma FlipPair(y: Word, i: nat, j: nat)
    requires i < j < |y|
    ensures Xor(y, Or(OneHot(|y|, j), OneHot(|y|, i))) == y[i := !y[i]][j := !y[j]]
  {
  }

  lemma FlippedPair(x: Word, n: nat, k: nat)
    requires n <= |x| && 2 * k + 1 < n
    ensures var y := Exchanged(x, n, k); var j := n - 1 - k;
            Exchanged(x, n, k + 1) == if y[k] != y[j] then y[k := !y[k]][j := !y[j]] else y
  {
  }

  lemma ExchangedEnds(x: Word, n: nat, k: nat)
    requires 0 < n <= |x| && 2 * k <= n
    ensures k == 0 ==> Exchanged(x, n, k) == x
    ensures n - 1 - k <= k ==> Exchanged(x, n, k) == Reflect(x, n)
  {
  }

  lemma MasksMove(w: nat, n: nat, k: nat)
    requires n <= w && 2 * k + 1 < n
    ensures Shr(OneHot(w, n - 1 - k), 1) == OneHot(w, n - 1 - (k + 1))
    ensures Shl(OneHot(w, k), 1) == OneHot(w, k + 1)
  {
  }

  lemma MaskOrder(w: nat, h: Word, l: Word, i: nat, j: nat)
    requires i < w && j < w && h == OneHot(w, i) && l == OneHot(w, j)
    ensures Val(h) > Val(l) <==> i > j
  {
    ValOneHot(w, i);
    ValOneHot(w, j);
    if i < j {
      Pow2Monotone(i, j);
    } else if j < i {
      Pow2Monotone(j, i);
    }
  }

  /** Walk a low and a high one-bit mask towards each other and flip both bits of every
      pair that differs. */
  method ReflectUnsigned(x: Word, wordLength: nat) returns (y: Word)
    requires 0 < wordLength <= |x|
    ensures y == Reflect(x, wordLength)
  {
    y := x;
    var l := OneHot(|x|, 0);
    var h := Shl(l, wordLength - 1);
    ghost var k := 0;
    assert h == OneHot(|x|, wordLength - 1);
    ExchangedEnds(x, wordLength, 0);
    MaskOrder(|x|, h, l, wordLength - 1, 0);
    while Val(h) > Val(l)
      invariant 2 * k <= wordLength && k < wordLength
      invariant l == OneHot(|x|, k) && h == OneHot(|x|, wordLength - 1 - k)
      invariant Val(h) > Val(l) <==> wordLength - 1 - k > k
      invariant y == Exchanged(x, wordLength, k)
      decreases wordLength - k
    {
      var m := Or(h, l);
      var t := And(y, m);
      ExchangeStep(x, wordLength, k);
      if t == h || t == l {
        y := Xor(y, m);
      }
      MasksMove(|x|, wordLength, k);
      h := Shr(h, 1);
      l := Shl(l, 1);
      k := k + 1;
      MaskOrder(|x|, h, l, wordLength - 1 - k, k);
    }
    ExchangedEnds(x, wordLength, k);
  }

  /** Masking with two distinct bits leaves exactly one of them iff the two bits differ. */
  lemma PairDiffers(y: Word, i: nat, j: nat)
    requires i < j < |y|
    ensures var h := OneHot(|y|, j); var l := OneHot(|y|, i); var t := And(y, Or(h, l));
            (t == h || t == l) <==> y[i] != y[j]
  {
    var h := OneHot(|y|, j);
    var l := OneHot(|y|, i);
    var t := And(y, Or(h, l));
    assert t[i] == y[i] && t[j] == y[j] && h[j] && !h[i] && l[i] && !l[j];
    if y[i] && !y[j] {
      assert t == l;
    } else if y[j] && !y[i] {
      assert t == h;
    }
  }

  lemma ReflectIsInvolution(x: Word, n: nat)
    requires n <= |x|
    ensures Reflect(Reflect(x, n), n) == x
  {
  }

  /** A table indexed by byte value whose entries are the reflected indices. */
  ghost predicate IsReflectionTable(table: seq<Word>) {
    |table| == 256 && forall b: Byte :: ByteIndex(b) < 256 && table[ByteIndex(b)] == Rev(b)
  }

  function ByteIndex(b: Byte): (i: nat)
    ensures i < 256
  {
    ValBound(b);
    assert Pow2(8) == 256;
    Val(b)
  }

  /** The do-while loop over all 256 byte values. */
  method MakeByteReflectionTable() returns (table: array<Word>)
    ensures fresh(table) && IsReflectionTable(table[..])
  {
    assert Pow2(8) == 256;
    table := new Word[256](_ => []);
    var i := 0;
    while i < 256
      invariant 0 <= i <= 256
      invariant forall j :: 0 <= j < i ==> table[j] == Rev(Bin(j, 8))
    {
      table[i] := ReflectUnsigned(Bin(i, 8), 8);
      assert Reflect(Bin(i, 8), 8) == Rev(Bin(i, 8));
      i := i + 1;
    }
    forall b: Byte
      ensures table[..][ByteIndex(b)] == Rev(b)
    {
      BinVal(b);
    }
  }

  method ReflectByte(x: Byte) returns (y: Byte)
    ensures y == Rev(x)
  {
    var table := MakeByteReflectionTable();
    assert table[..][ByteIndex(x)] == Rev(x);
    y := table[ByteIndex(x)];
  }

  /** The look-up followed by a right shift that drops the bits above wordLength. */
  method ReflectSubByte(x: Byte, wordLength: nat) returns (y: Byte)
    requires 0 < wordLength <= CHAR_BIT
    ensures y == SubByteReflection(x, wordLength)
  {
    var r := ReflectByte(x);
    y := Shr(r, CHAR_BIT - wordLength);
  }

  function SubByteReflection(x: Byte, n: nat): (y: Byte)
    requires 0 < n <= CHAR_BIT
    ensures y == Low(Reflect(x, n), n)
  {
    Shr(Rev(x), CHAR_BIT - n)
  }

  /** The shifted look-up and the swap loop agree on the reversed low bits; they agree on
      the whole byte exactly when the bits above them are clear. */
  lemma SubByteAgreesIff(x: Byte, n: nat)
    requires 0 < n <= CHAR_BIT
    ensures SubByteReflection(x, n)[..n] == Reflect(x, n)[..n]
    ensures SubByteReflection(x, n) == Reflect(x, n) <==> x == Low(x, n)
  {
    var y, z := SubByteReflection(x, n), Reflect(x, n);
    if y == z {
      forall i | n <= i < 8
        ensures !x[i]
      {
        assert z[i] == x[i] && !y[i];
      }
      assert x == Low(x, n);
    }
  }

  method ReflectOptionally(x: Word, reflect: bool, wordLength: nat) returns (y: Word)
    requires 0 < wordLength <= |x|
    ensures y == if reflect then Reflect(x, wordLength) else x
  {
    if reflect {
      y := ReflectUnsigned(x, wordLength);
    } else {
      y := x;
    }
  }
}
