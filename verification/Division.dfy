/** Modulo-2 polynomial division, one bit at a time, in the two styles of the library.
    The unaugmented style feeds a message bit in at the top of the register; the augmented
    style shifts it in at the bottom.  n is the order of the divisor; a register may be wider
    than n, and its bits above n are never cleared. */
module Division {
  import opened Words
  import opened Reflection

  /** One division step of the unaugmented style. */
  function Step(n: nat, r: Word, p: Word, b: bool): (s: Word)
    requires 1 <= n <= |r| == |p|
    ensures |s| == |r|
    ensures forall i :: 0 <= i < |r| ==>
      s[i] == ((i > 0 && (r[i - 1] != (b && i == n))) != ((r[n - 1] != b) && p[i]))
  {
    var fed := Xor(r, if b then OneHot(|r|, n - 1) else Zeros(|r|));
    var shifted := Shl(fed, 1);
    if fed[n - 1] then Xor(shifted, p) else shifted
  }

  function Steps(n: nat, r: Word, p: Word, bits: Word): (s: Word)
    requires 1 <= n <= |r| == |p|
    ensures |s| == |r|
    decreases |bits|
  {
    if bits == [] then r else Steps(n, Step(n, r, p, bits[0]), p, bits[1..])
  }

  /** One division step of the augmented style. */
  function AugStep(n: nat, r: Word, p: Word, b: bool): (s: Word)
    requires 1 <= n <= |r| == |p|
    ensures |s| == |r|
    ensures forall i :: 0 <= i < |r| ==>
      s[i] == ((if i == 0 then b else r[i - 1]) != (r[n - 1] && p[i]))
  {
    var shifted := Shl(r, 1)[0 := b];
    if r[n - 1] then Xor(shifted, p) else shifted
  }

  function AugSteps(n: nat, r: Word, p: Word, bits: Word): (s: Word)
    requires 1 <= n <= |r| == |p|
    ensures |s| == |r|
    decreases |bits|
  {
    if bits == [] then r else AugSteps(n, AugStep(n, r, p, bits[0]), p, bits[1..])
  }

  /** The bits of a word in the order in which a division reads them. */
  function InputBits(word: Word, wordLength: nat, reflect: bool): (bits: Word)
    requires wordLength <= |word|
    ensures |bits| == wordLength
  {
    if reflect then word[..wordLength] else Rev(word[..wordLength])
  }

  // ----- The loops -----

  lemma NoSteps(n: nat, r: Word, p: Word)
    requires 1 <= n <= |r| == |p|
    ensures Steps(n, r, p, []) == AugSteps(n, r, p, []) == r
  {
  }

  lemma TestBit(a: Word, i: nat)
    requires i < |a|
    ensures And(a, OneHot(|a|, i)) != Zeros(|a|) <==> a[i]
  {
    var t := And(a, OneHot(|a|, i));
    assert t[i] == a[i];
    if !a[i] {
      assert t == Zeros(|a|);
    }
  }

  /** Reading a word from its lowest bit up: k bits have been shifted out. */
  lemma ReadLowest(word: Word, bits: Word, k: nat)
    requires k < |bits| <= |word| && bits == word[..|bits|]
    ensures Shr(word, k)[0] == bits[k]
    ensures Shr(Shr(word, k), 1) == Shr(word, k + 1)
    ensures bits[k..][0] == bits[k] && bits[k..][1..] == bits[k + 1..]
  {
  }

  lemma WordToRead(given: Word, len: nat, reflect: bool)
    requires 0 < len <= |given|
    ensures var word := if !reflect then Reflect(given, len) else given;
            InputBits(given, len, reflect) == word[..len] && Shr(word, 0) == word
    ensures var bits := InputBits(given, len, reflect); bits[0..] == bits && bits[len..] == []
  {
  }

  lemma StepByMasks(n: nat, r: Word, p: Word, b: bool)
    requires 1 <= n <= |r| == |p|
    ensures var h := OneHot(|r|, n - 1); var fed := Xor(r, if b then h else Zeros(|r|));
            Xor(Shl(fed, 1), if And(fed, h) != Zeros(|r|) then p else Zeros(|r|)) == Step(n, r, p, b)
  {
    var h := OneHot(|r|, n - 1);
    var fed := Xor(r, if b then h else Zeros(|r|));
    TestBit(fed, n - 1);
    assert Xor(Shl(fed, 1), Zeros(|r|)) == Shl(fed, 1);
  }

  lemma AugStepByMasks(n: nat, r: Word, p: Word, word: Word)
    requires 1 <= n <= |r| == |p| && 0 < |word|
    ensures var h := OneHot(|r|, n - 1);
            var shifted := Or(Shl(r, 1), Resize(And(word, OneHot(|word|, 0)), |r|));
            Xor(shifted, if And(r, h) != Zeros(|r|) then p else Zeros(|r|)) == AugStep(n, r, p, word[0])
  {
    TestBit(r, n - 1);
    var shifted := Or(Shl(r, 1), Resize(And(word, OneHot(|word|, 0)), |r|));
    assert shifted == Shl(r, 1)[0 := word[0]];
    assert Xor(shifted, Zeros(|r|)) == shifted;
  }

  /** One round of the loop feeds the next bit. */
  lemma StepRound(n: nat, r: Word, p: Word, all: Word, bits: Word, k: nat, fed: Word, next: Word)
    requires 1 <= n <= |r| == |p| == |fed| == |next| && k < |bits| <= |all| && bits == all[..|bits|]
    requires var word := Shr(all, k); var h := OneHot(|r|, n - 1);
             var lowest := And(word, OneHot(|word|, 0)) != Zeros(|word|);
             && fed == Xor(r, if lowest then h else Zeros(|r|))
             && next == Xor(Shl(fed, 1), if And(fed, h) != Zeros(|r|) then p else Zeros(|r|))
    ensures Shr(Shr(all, k), 1) == Shr(all, k + 1)
    ensures Steps(n, next, p, bits[k + 1..]) == Steps(n, r, p, bits[k..])
  {
    hide Step;
    ReadLowest(all, bits, k);
    TestBit(Shr(all, k), 0);
    StepByMasks(n, r, p, bits[k]);
  }

  lemma AugStepRound(n: nat, r: Word, p: Word, all: Word, bits: Word, k: nat)
    requires 1 <= n <= |r| == |p| && k < |bits| <= |all| && bits == all[..|bits|]
    ensures var word := Shr(all, k); var h := OneHot(|r|, n - 1);
            var shifted := Or(Shl(r, 1), Resize(And(word, OneHot(|word|, 0)), |r|));
            var next := Xor(shifted, if And(r, h) != Zeros(|r|) then p else Zeros(|r|));
            && Shr(word, 1) == Shr(all, k + 1)
            && AugSteps(n, next, p, bits[k + 1..]) == AugSteps(n, r, p, bits[k..])
  {
    hide AugStep;
    ReadLowest(all, bits, k);
    AugStepByMasks(n, r, p, Shr(all, k));
  }

  method CrcModuloWordUpdate(registerLength: nat, remainder: Word, newDividendBits: Word,
                             truncatedDivisor: Word, wordLength: nat, reflect: bool)
    returns (r: Word)
    requires 1 <= registerLength <= |remainder| == |truncatedDivisor|
    requires 0 < wordLength <= |newDividendBits|
    ensures r == Steps(registerLength, remainder, truncatedDivisor,
                       InputBits(newDividendBits, wordLength, reflect))
  {
    hide InputBits, Reflect, Steps;
    r := remainder;
    var width := |r|;
    var highBitMask := OneHot(width, registerLength - 1);
    var word := ReflectOptionally(newDividendBits, !reflect, wordLength);
    ghost var all, bits := word, InputBits(newDividendBits, wordLength, reflect);
    WordToRead(newDividendBits, wordLength, reflect);
    var i := wordLength;
    while i > 0
      invariant 0 <= i <= wordLength && |r| == width
      invariant |word| == |all| && word == Shr(all, wordLength - i)
      invariant Steps(registerLength, r, truncatedDivisor, bits[wordLength - i..]) ==
                Steps(registerLength, remainder, truncatedDivisor, bits)
    {
      ghost var before := r;
      var lowest := And(word, OneHot(|word|, 0)) != Zeros(|word|);
      r := Xor(r, if lowest then highBitMask else Zeros(width));
      ghost var fed := r;
      var quotient := And(r, highBitMask) != Zeros(width);
      r := Shl(r, 1);
      r := Xor(r, if quotient then truncatedDivisor else Zeros(width));
      StepRound(registerLength, before, truncatedDivisor, all, bits, wordLength - i, fed, r);
      i, word := i - 1, Shr(word, 1);
    }
    NoSteps(registerLength, r, truncatedDivisor);
  }

  method CrcModuloUpdate(registerLength: nat, remainder: Word, newDividendBit: bool,
                         truncatedDivisor: Word)
    returns (r: Word)
    requires 1 <= registerLength <= |remainder| == |truncatedDivisor|
    ensures r == Step(registerLength, remainder, truncatedDivisor, newDividendBit)
  {
    r := CrcModuloWordUpdate(registerLength, remainder, Resize([newDividendBit], 32),
                             truncatedDivisor, 1, false);
    assert InputBits(Resize([newDividendBit], 32), 1, false) == [newDividendBit];
  }

  method AugmentedCrcModuloWordUpdate(registerLength: nat, remainder: Word, newDividendBits: Word,
                                      truncatedDivisor: Word, wordLength: nat, reflect: bool)
    returns (r: Word)
    requires 1 <= registerLength <= |remainder| == |truncatedDivisor|
    requires 0 < wordLength <= |newDividendBits|
    ensures r == AugSteps(registerLength, remainder, truncatedDivisor,
                          InputBits(newDividendBits, wordLength, reflect))
  {
    hide InputBits, Reflect, AugSteps;
    r := remainder;
    var width := |r|;
    var highBitMask := OneHot(width, registerLength - 1);
    var word := ReflectOptionally(newDividendBits, !reflect, wordLength);
    ghost var all, bits := word, InputBits(newDividendBits, wordLength, reflect);
    WordToRead(newDividendBits, wordLength, reflect);
    var i := wordLength;
    while i > 0
      invariant 0 <= i <= wordLength && |r| == width
      invariant |word| == |all| && word == Shr(all, wordLength - i)
      invariant AugSteps(registerLength, r, truncatedDivisor, bits[wordLength - i..]) ==
                AugSteps(registerLength, remainder, truncatedDivisor, bits)
    {
      AugStepRound(registerLength, r, truncatedDivisor, all, bits, wordLength - i);
      var quotient := And(r, highBitMask) != Zeros(width);
      r := Shl(r, 1);
      r := Or(r, Resize(And(word, OneHot(|word|, 0)), width));
      r := Xor(r, if quotient then truncatedDivisor else Zeros(width));
      i, word := i - 1, Shr(word, 1);
    }
    NoSteps(registerLength, r, truncatedDivisor);
  }
}
