/** The two CRC computers: crc_basic, which divides bit by bit, and crc_optimal, which
    goes through the byte-wise updates; and the two one-shot functions. */
module CrcComputers {
  import opened Words
  import opened Reflection
  import opened Division
  import opened Linearity
  import opened Tables
  import opened Updates

  /** The parameters of a CRC.  Words are as wide as the built-in type that holds bits bits;
      what they hold above those bits is up to the user. */
  datatype Params = Params(bits: nat, poly: Word, init: Word, xorOut: Word, rftIn: bool, rftOut: bool) {
    predicate Valid() {
      1 <= bits <= 64 && |poly| == |init| == |xorOut| == RegWidth(bits)
    }
  }

  // ----- What the computers compute, as functions of the message -----

  function BasicOutput(c: Params, rem: Word): (sum: Word)
    requires c.Valid() && |rem| == |c.poly|
    ensures |sum| == |rem|
  {
    Low(Xor(if c.rftOut then Reflect(rem, c.bits) else rem, c.xorOut), c.bits)
  }

  function BasicChecksum(c: Params, msg: seq<Byte>): (sum: Word)
    requires c.Valid()
    ensures |sum| == |c.poly|
  {
    BasicOutput(c, Steps(c.bits, c.init, c.poly, MessageBits(msg, c.rftIn)))
  }

  /** Reflection as selected by width: through the byte table up to eight bits, through the
      swap loop above. */
  function ReflectQ(x: Word, n: nat, doIt: bool): (y: Word)
    requires 1 <= n <= 64 && |x| == RegWidth(n)
    ensures |y| == |x|
  {
    if !doIt then x else if n > 8 then Reflect(x, n) else SubByteReflection(x, n)
  }

  function OptimalUpdate(c: Params, rem: Word, msg: seq<Byte>): (s: Word)
    requires c.Valid() && |rem| == |c.poly|
    ensures |s| == |rem|
  {
    if c.bits < 8 then SubByteUpdate(c.bits, rem, c.poly, msg, c.rftIn)
    else ByteUpdate(c.bits, rem, c.poly, msg, c.rftIn)
  }

  function OptimalOutput(c: Params, rem: Word): (sum: Word)
    requires c.Valid() && |rem| == |c.poly|
    ensures |sum| == |rem|
  {
    Low(Xor(ReflectQ(rem, c.bits, c.rftOut != c.rftIn), c.xorOut), c.bits)
  }

  function OptimalChecksum(c: Params, msg: seq<Byte>): (sum: Word)
    requires c.Valid()
    ensures |sum| == |c.poly|
  {
    OptimalOutput(c, OptimalUpdate(c, ReflectQ(c.init, c.bits, c.rftIn), msg))
  }

  // ----- The classes -----

  class CrcBasic {
    const bitCount: nat
    var rem: Word
    var poly: Word
    var init: Word
    var final: Word
    var rftIn: bool
    var rftOut: bool
    ghost var start: Word     // the remainder at construction or at the last reset
    ghost var processed: Word // every bit submitted since then

    /** The remainder is the division of all bits submitted so far. */
    ghost predicate Valid()
      reads this
    {
      && 1 <= bitCount <= 64
      && |rem| == |poly| == |init| == |final| == |start| == RegWidth(bitCount)
      && rem == Steps(bitCount, start, poly, processed)
    }

    ghost function Parameters(): (c: Params)
      reads this
    {
      Params(bitCount, poly, init, final, rftIn, rftOut)
    }

    constructor (bits: nat, truncatedPolynomial: Word, initialRemainder: Word, finalXorValue: Word,
                 reflectInput: bool, reflectRemainder: bool)
      requires 1 <= bits <= 64
      requires |truncatedPolynomial| == |initialRemainder| == |finalXorValue| == RegWidth(bits)
      ensures Valid() && start == initialRemainder && processed == []
      ensures Parameters() == Params(bits, truncatedPolynomial, initialRemainder, finalXorValue,
                                     reflectInput, reflectRemainder)
    {
      bitCount := bits;
      rem, poly, init, final := initialRemainder, truncatedPolynomial, initialRemainder, finalXorValue;
      rftIn, rftOut := reflectInput, reflectRemainder;
      start, processed := initialRemainder, [];
    }

    method GetInterimRemainder() returns (r: Word)
      requires Valid()
      ensures r == Low(Steps(bitCount, start, poly, processed), bitCount)
    {
      r := Low(rem, bitCount);
    }

    method ResetTo(newRem: Word)
      requires Valid() && |newRem| == |rem|
      modifies this
      ensures Valid() && Parameters() == old(Parameters()) && start == newRem && processed == []
    {
      rem := newRem;
      start, processed := newRem, [];
    }

    method Reset()
      requires Valid()
      modifies this
      ensures Valid() && Parameters() == old(Parameters()) && start == init && processed == []
    {
      ResetTo(init);
    }

    method ProcessBit(bit: bool)
      requires Valid()
      modifies this
      ensures Valid() && Parameters() == old(Parameters()) && start == old(start)
      ensures processed == old(processed) + [bit]
    {
      StepsConcat(bitCount, start, poly, processed, [bit]);
      assert [bit][1..] == [];
      rem := CrcModuloUpdate(bitCount, rem, bit, poly);
      processed := processed + [bit];
    }

    method ProcessBits(bits: Byte, bitLength: nat)
      requires Valid() && 0 < bitLength <= CHAR_BIT
      modifies this
      ensures Valid() && Parameters() == old(Parameters()) && start == old(start)
      ensures processed == old(processed) + InputBits(bits, bitLength, false)
    {
      hide Steps, InputBits, Shl;
      var byte := Shl(bits, CHAR_BIT - bitLength);
      ShlNothing(byte);
      var highBitMask := OneHot(CHAR_BIT, CHAR_BIT - 1);
      ghost var all := InputBits(bits, bitLength, false);
      var i := bitLength;
      while i > 0
        invariant 0 <= i <= bitLength && |byte| == 8
        invariant Valid() && Parameters() == old(Parameters()) && start == old(start)
        invariant processed == old(processed) + all[..bitLength - i]
        invariant byte == Shl(Shl(bits, 8 - bitLength), bitLength - i)
      {
        TestBit(byte, CHAR_BIT - 1);
        BitsFromTheTop(bits, bitLength, bitLength - i);
        ProcessBit(And(byte, highBitMask) != Zeros(CHAR_BIT));
        i, byte := i - 1, Shl(byte, 1);
      }
      assert all[..bitLength] == all;
    }

    method ProcessByte(byte: Byte)
      requires Valid()
      modifies this
      ensures Valid() && Parameters() == old(Parameters()) && start == old(start)
      ensures processed == old(processed) + InputBits(byte, 8, rftIn)
    {
      var b := byte;
      if rftIn {
        b := ReflectByte(byte);
      }
      assert InputBits(b, 8, false) == InputBits(byte, 8, rftIn);
      ProcessBits(b, CHAR_BIT);
    }

    method ProcessBlock(block: seq<Byte>)
      requires Valid()
      modifies this
      ensures Valid() && Parameters() == old(Parameters()) && start == old(start)
      ensures processed == old(processed) + MessageBits(block, rftIn)
    {
      hide Steps, InputBits;
      assert block[..0] == [];
      for p := 0 to |block|
        invariant Valid() && Parameters() == old(Parameters()) && start == old(start)
        invariant processed == old(processed) + MessageBits(block[..p], rftIn)
      {
        MessageBitsSnoc(block[..p], block[p], rftIn);
        assert block[..p + 1] == block[..p] + [block[p]];
        ProcessByte(block[p]);
      }
      assert block[..|block|] == block;
    }

    method ProcessBytes(buffer: seq<Byte>, byteCount: nat)
      requires Valid() && byteCount <= |buffer|
      modifies this
      ensures Valid() && Parameters() == old(Parameters()) && start == old(start)
      ensures processed == old(processed) + MessageBits(buffer[..byteCount], rftIn)
    {
      ProcessBlock(buffer[..byteCount]);
    }

    method Checksum() returns (sum: Word)
      requires Valid()
      ensures sum == BasicOutput(Parameters(), Steps(bitCount, start, poly, processed))
    {
      var r := ReflectOptionally(rem, rftOut, bitCount);
      sum := Low(Xor(r, final), bitCount);
    }
  }

  lemma ShlNothing(a: Word)
    ensures Shl(a, 0) == a
  {
  }

  /** The k-th bit that leaves at the top of a left-aligned byte. */
  lemma BitsFromTheTop(bits: Byte, len: nat, k: nat)
    requires k < len <= 8
    ensures var all := InputBits(bits, len, false); var byte := Shl(Shl(bits, 8 - len), k);
            && byte[7] == all[k]
            && Shl(byte, 1) == Shl(Shl(bits, 8 - len), k + 1)
            && all[..k + 1] == all[..k] + [all[k]]
  {
  }

  class CrcOptimal {
    const params: Params      // the template parameters
    var rem: Word
    ghost var start: Word          // the remainder the register was last loaded with
    ghost var processed: seq<Byte> // every byte submitted since then

    ghost predicate Valid()
      reads this
    {
      && params.Valid() && |rem| == |start| == |params.poly|
      && rem == OptimalUpdate(params, ReflectQ(start, params.bits, params.rftIn), processed)
    }

    constructor (c: Params, initRem: Word)
      requires c.Valid() && |initRem| == |c.poly|
      ensures Valid() && params == c && start == initRem && processed == []
    {
      params := c;
      rem := initRem;
      start, processed := initRem, [];
      new;
      rem := Reflected(initRem, c.rftIn);
      LoadedOnly(c, initRem);
    }

    method Reflected(x: Word, doIt: bool) returns (y: Word)
      requires params.Valid() && |x| == |params.poly|
      ensures y == ReflectQ(x, params.bits, doIt)
    {
      if !doIt {
        y := x;
      } else if params.bits > CHAR_BIT {
        y := ReflectUnsigned(x, params.bits);
      } else {
        y := ReflectSubByte(x, params.bits);
      }
    }

    method GetInterimRemainder() returns (r: Word)
      requires Valid()
      ensures r == Low(ReflectQ(OptimalUpdate(params, ReflectQ(start, params.bits, params.rftIn), processed),
                                params.bits, params.rftIn), params.bits)
    {
      r := Reflected(rem, params.rftIn);
      r := Low(r, params.bits);
    }

    method Reset(newRem: Word)
      requires Valid() && |newRem| == |rem|
      modifies this
      ensures Valid() && start == newRem && processed == []
    {
      rem := Reflected(newRem, params.rftIn);
      start, processed := newRem, [];
      LoadedOnly(params, newRem);
    }

    method ProcessBytes(buffer: seq<Byte>, byteCount: nat)
      requires Valid() && byteCount <= |buffer|
      modifies this
      ensures Valid() && start == old(start)
      ensures processed == old(processed) + buffer[..byteCount]
    {
      var bytes := buffer[..byteCount];
      OptimalUpdateConcat(params, start, processed, bytes);
      if params.bits < CHAR_BIT {
        rem := SubByteCrcUpdate(params.bits, params.poly, rem, bytes, params.rftIn);
      } else if params.rftIn {
        rem := ReflectedCrcUpdate(params.bits, params.poly, rem, bytes);
      } else {
        rem := DirectCrcUpdate(params.bits, params.poly, rem, bytes);
      }
      processed := processed + bytes;
    }

    method ProcessByte(byte: Byte)
      requires Valid()
      modifies this
      ensures Valid() && start == old(start) && processed == old(processed) + [byte]
    {
      ProcessBytes([byte], 1);
    }

    method Checksum() returns (sum: Word)
      requires Valid()
      ensures sum == OptimalOutput(params, OptimalUpdate(params, ReflectQ(start, params.bits, params.rftIn), processed))
    {
      var r := Reflected(rem, params.rftOut != params.rftIn);
      sum := Low(Xor(r, params.xorOut), params.bits);
    }
  }

  /** A freshly loaded register has processed nothing. */
  lemma LoadedOnly(c: Params, x: Word)
    requires c.Valid() && |x| == |c.poly|
    ensures OptimalUpdate(c, ReflectQ(x, c.bits, c.rftIn), []) == ReflectQ(x, c.bits, c.rftIn)
  {
    if c.bits < 8 && c.rftIn {
      SubByteTwice(x, c.bits);
      SubByteTwice(SubByteReflection(x, c.bits), c.bits);
      assert SubByteReflection(Low(x, c.bits), c.bits) == SubByteReflection(x, c.bits);
    }
  }

  lemma SubByteTwice(x: Byte, n: nat)
    requires 1 <= n <= 8
    ensures SubByteReflection(SubByteReflection(x, n), n) == Low(x, n)
  {
  }

  lemma {:induction false} ByteUpdateConcat(n: nat, r: Word, p: Word, a: seq<Byte>, b: seq<Byte>, reflect: bool)
    requires 8 <= n <= |r| == |p|
    ensures ByteUpdate(n, r, p, a + b, reflect) == ByteUpdate(n, ByteUpdate(n, r, p, a, reflect), p, b, reflect)
    decreases |a|
  {
    if a == [] {
      assert a + b == b;
    } else {
      assert (a + b)[1..] == a[1..] + b;
      var r' := if reflect then ReflectedStep(n, r, p, a[0]) else DirectStep(n, r, p, a[0]);
      ByteUpdateConcat(n, r', p, a[1..], b, reflect);
    }
  }

  lemma {:induction false} MessageBitsConcat(a: seq<Byte>, b: seq<Byte>, reflect: bool)
    ensures MessageBits(a + b, reflect) == MessageBits(a, reflect) + MessageBits(b, reflect)
  {
    if a == [] {
      assert a + b == b;
    } else {
      assert (a + b)[1..] == a[1..] + b;
      MessageBitsConcat(a[1..], b, reflect);
    }
  }

  /** Below a byte the register is reflected before and after every block; in between only
      the low bits survive, and no other bit ever mattered. */
  lemma SubByteUpdateConcat(n: nat, r: Word, p: Word, a: seq<Byte>, b: seq<Byte>, reflect: bool)
    requires 1 <= n < 8 && |r| == |p| == 8
    ensures SubByteUpdate(n, r, p, a + b, reflect) ==
            SubByteUpdate(n, SubByteUpdate(n, r, p, a, reflect), p, b, reflect)
  {
    var x, y := MessageBits(a, reflect), MessageBits(b, reflect);
    MessageBitsConcat(a, b, reflect);
    if reflect {
      var s := Steps(n, SubByteReflection(r, n), p, x);
      StepsConcat(n, SubByteReflection(r, n), p, x, y);
      SubByteTwice(s, n);
      StepsLowBits(n, s, p, y);
      StepsLowBits(n, Low(s, n), p, y);
      assert Low(s, n)[..n] == s[..n];
      SubByteLowOnly(Steps(n, s, p, y), Steps(n, Low(s, n), p, y), n);
    } else {
      StepsConcat(n, r, p, x, y);
    }
  }

  lemma SubByteLowOnly(x: Byte, y: Byte, n: nat)
    requires 1 <= n <= 8 && x[..n] == y[..n]
    ensures SubByteReflection(x, n) == SubByteReflection(y, n)
  {
    assert forall i :: 0 <= i < n ==> x[i] == x[..n][i] == y[..n][i] == y[i];
  }

  lemma OptimalUpdateConcat(c: Params, x: Word, a: seq<Byte>, b: seq<Byte>)
    requires c.Valid() && |x| == |c.poly|
    ensures var r := ReflectQ(x, c.bits, c.rftIn);
            OptimalUpdate(c, r, a + b) == OptimalUpdate(c, OptimalUpdate(c, r, a), b)
  {
    var r := ReflectQ(x, c.bits, c.rftIn);
    if c.bits < 8 {
      SubByteUpdateConcat(c.bits, r, c.poly, a, b, c.rftIn);
    } else {
      ByteUpdateConcat(c.bits, r, c.poly, a, b, c.rftIn);
    }
  }

  /** The one-shot checksum. */
  method Crc(c: Params, buffer: seq<Byte>, byteCount: nat) returns (sum: Word)
    requires c.Valid() && byteCount <= |buffer|
    ensures sum == OptimalChecksum(c, buffer[..byteCount])
  {
    var computer := new CrcOptimal(c, c.init);
    computer.ProcessBytes(buffer, byteCount);
    assert computer.processed == buffer[..byteCount];
    sum := computer.Checksum();
  }

  function AugmentedChecksum(n: nat, p: Word, r: Word, msg: seq<Byte>): (sum: Word)
    requires 8 <= n <= 64 && |r| == |p| == RegWidth(n)
    ensures |sum| == |r|
  {
    Low(AugByteUpdate(n, r, p, msg, false), n)
  }

  /** The one-shot augmented checksum. */
  method AugmentedCrc(bits: nat, poly: Word, buffer: seq<Byte>, byteCount: nat, initialRemainder: Word)
    returns (sum: Word)
    requires 8 <= bits <= 64 && |poly| == |initialRemainder| == RegWidth(bits) && byteCount <= |buffer|
    ensures sum == AugmentedChecksum(bits, poly, initialRemainder, buffer[..byteCount])
  {
    var r := DirectAugmentedCrcUpdate(bits, poly, initialRemainder, buffer[..byteCount]);
    sum := Low(r, bits);
  }
}
