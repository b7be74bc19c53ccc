/** What a checksum is, bit by bit: the remainder after output processing, the parameters of
    the named computers, and what becomes of a message that carries its own checksum. */
module CrcOutputs {
  import opened Words
  import opened Reflection
  import opened Division
  import opened Linearity
  import opened Tables
  import opened Updates
  import opened CrcComputers
  import opened CrcTheorems
  import opened AugmentedTheorems
  import opened ReflectedAugmented

  // ----- The order of the message bits -----

  /** Byte after byte, each from its lowest bit up when input is reflected, from its highest
      bit down when it is not. */
  lemma {:induction false} MessageBitsAt(msg: seq<Byte>, reflect: bool, k: nat, j: nat)
    requires k < |msg| && j < 8
    ensures MessageBits(msg, reflect)[8 * k + j] == msg[k][if reflect then j else 7 - j]
  {
    var first, rest := InputBits(msg[0], 8, reflect), MessageBits(msg[1..], reflect);
    assert MessageBits(msg, reflect) == first + rest;
    if k > 0 {
      MessageBitsAt(msg[1..], reflect, k - 1, j);
      assert (first + rest)[8 * k + j] == rest[8 * (k - 1) + j];
    }
  }

  // ----- Output processing -----

  /** Bit i of a checksum is bit i of the remainder, or the one that mirrors it, xored with bit
      i of the final value; above the order there is nothing. */
  ghost predicate IsOutput(c: Params, reflect: bool, rem: Word, sum: Word)
    requires c.Valid() && |rem| == |c.poly|
  {
    && |sum| == |rem|
    && forall i :: 0 <= i < |sum| ==> sum[i] == OutputBit(c, reflect, rem, i)
  }

  predicate OutputBit(c: Params, reflect: bool, rem: Word, i: nat)
    requires c.Valid() && i < |rem| == |c.poly|
  {
    i < c.bits && (if reflect then rem[c.bits - 1 - i] else rem[i]) != c.xorOut[i]
  }

  /** The bit-wise checksum of a message. */
  lemma BasicChecksumBits(c: Params, msg: seq<Byte>)
    requires c.Valid()
    ensures IsOutput(c, c.rftOut, Steps(c.bits, c.init, c.poly, MessageBits(msg, c.rftIn)), BasicChecksum(c, msg))
  {
    hide Steps, MessageBits;
  }

  /** The table-driven checksum, in terms of its own register, for any parameters. */
  lemma OptimalRegisterBits(c: Params, msg: seq<Byte>)
    requires c.Valid()
    ensures IsOutput(c, c.rftOut != c.rftIn, OptimalRegister(c, msg), OptimalChecksum(c, msg))
  {
    hide OptimalUpdate, ReflectQ;
    var rem := OptimalRegister(c, msg);
    ReflectQBits(rem, c.bits);
    ReflectQNot(rem, c.bits);
  }

  lemma ReflectQBits(x: Word, n: nat)
    requires 1 <= n <= 64 && |x| == RegWidth(n)
    ensures forall i :: 0 <= i < n ==> ReflectQ(x, n, true)[i] == x[n - 1 - i]
  {
  }

  /** The table-driven checksum in terms of bit-wise division, when the parameters are faithful. */
  lemma OptimalChecksumBits(c: Params, msg: seq<Byte>)
    requires c.Valid() && Faithful(c)
    ensures IsOutput(c, c.rftOut, Steps(c.bits, c.init, c.poly, MessageBits(msg, c.rftIn)), OptimalChecksum(c, msg))
  {
    hide OptimalChecksum, BasicChecksum, Steps, MessageBits, Faithful;
    TableDrivenIsBitwiseIff(c);
    BasicChecksumBits(c, msg);
    assert OptimalChecksum(c, msg) == BasicChecksum(c, msg);
  }

  /** The interim remainders of the two computers are the same, when the parameters are faithful. */
  lemma InterimRemaindersAgree(c: Params, msg: seq<Byte>)
    requires c.Valid() && Faithful(c)
    ensures OptimalInterim(c, msg) == BasicInterim(c, msg)
  {
    hide Steps, MessageBits, OptimalUpdate, Faithful;
    FaithfulCorresponds(c, msg);
    SameInterim(c, OptimalRegister(c, msg), BasicRegister(c, msg));
  }

  lemma OutputUnique(c: Params, reflect: bool, rem: Word, x: Word, y: Word)
    requires c.Valid() && |rem| == |c.poly| && IsOutput(c, reflect, rem, x) && IsOutput(c, reflect, rem, y)
    ensures x == y
  {
    forall i | 0 <= i < |x|
      ensures x[i] == y[i]
    {
    }
  }

  lemma OutputOfLow(c: Params, reflect: bool, rem: Word, low: Word, sum: Word)
    requires c.Valid() && |rem| == |c.poly| && |low| == c.bits && rem[..c.bits] == low && IsOutput(c, reflect, rem, sum)
    ensures IsOutput(c, reflect, Resize(low, |rem|), sum)
  {
    var r := Resize(low, |rem|);
    forall i | 0 <= i < c.bits
      ensures r[i] == rem[i]
    {
      assert low[i] == rem[..c.bits][i];
    }
    forall i | 0 <= i < |sum|
      ensures OutputBit(c, reflect, r, i) == OutputBit(c, reflect, rem, i)
    {
    }
  }

  // ----- A message that carries its checksum -----

  /** The bytes of a checksum in the order of processing: lowest first when input is reflected,
      highest first when it is not. */
  function ChecksumBytes(c: Params, sum: Word): seq<Byte>
    requires c.bits % 8 == 0 && c.bits <= |sum|
  {
    if c.rftIn then BytesOf(sum[..c.bits]) else BigEndian(sum[..c.bits])
  }

  lemma ChecksumBytesBits(c: Params, sum: Word)
    requires c.bits % 8 == 0 && c.bits <= |sum|
    ensures MessageBits(ChecksumBytes(c, sum), c.rftIn) == if c.rftIn then sum[..c.bits] else Rev(sum[..c.bits])
  {
    if c.rftIn {
      BytesOfBits(sum[..c.bits]);
    } else {
      BigEndianBits(sum[..c.bits]);
    }
  }

  /** The final value as it stands in the register, pushed through n zero bits. */
  function Residue(c: Params): (r: Word)
    requires c.Valid()
    ensures |r| == c.bits
  {
    var n := c.bits;
    Steps(n, if c.rftOut then Rev(c.xorOut[..n]) else c.xorOut[..n], c.poly[..n], Zeros(n))
  }

  /** The checksum cancels the remainder and leaves the final value. */
  lemma ChecksumCancels(c: Params, rem: Word, sum: Word)
    requires c.Valid() && c.rftIn == c.rftOut && |rem| == |sum| == |c.poly|
    requires IsOutput(c, c.rftOut, rem, sum)
    ensures var n := c.bits; var w := if c.rftIn then sum[..n] else Rev(sum[..n]);
            Xor(rem[..n], Top(n, n, w)) == if c.rftOut then Rev(c.xorOut[..n]) else c.xorOut[..n]
  {
    var n := c.bits;
    var w := if c.rftIn then sum[..n] else Rev(sum[..n]);
    var x := if c.rftOut then Rev(c.xorOut[..n]) else c.xorOut[..n];
    forall i | 0 <= i < n
      ensures Xor(rem[..n], Top(n, n, w))[i] == x[i]
    {
      assert Top(n, n, w)[i] == w[n - 1 - i];
      assert sum[i] == sum[..n][i] && sum[n - 1 - i] == sum[..n][n - 1 - i];
    }
  }

  lemma RegisterAfterChecksum(c: Params, msg: seq<Byte>, sum: Word)
    requires c.Valid() && c.bits % 8 == 0 && c.rftIn == c.rftOut && sum == BasicChecksum(c, msg)
    ensures Steps(c.bits, c.init, c.poly, MessageBits(msg + ChecksumBytes(c, sum), c.rftIn))[..c.bits] == Residue(c)
  {
    hide Steps, MessageBits, BasicChecksum, ChecksumBytes;
    var n, bits := c.bits, MessageBits(msg, c.rftIn);
    var rem, w := Steps(n, c.init, c.poly, bits), MessageBits(ChecksumBytes(c, sum), c.rftIn);
    BasicChecksumBits(c, msg);
    ChecksumBytesBits(c, sum);
    MessageBitsConcat(msg, ChecksumBytes(c, sum), c.rftIn);
    StepsConcat(n, c.init, c.poly, bits, w);
    StepsLowBits(n, rem, c.poly, w);
    FeedAtOnce(n, rem[..n], c.poly[..n], w);
    ChecksumCancels(c, rem, sum);
  }

  /** For whole bytes, and reflection of both ends or neither: a message followed by its own
      checksum has a checksum that depends on the parameters only, and is output for Residue. */
  lemma ResidueLaw(c: Params, msg: seq<Byte>)
    requires c.Valid() && c.bits % 8 == 0 && c.rftIn == c.rftOut
    ensures var sum := BasicChecksum(c, msg);
            IsOutput(c, c.rftOut, Resize(Residue(c), |c.poly|), BasicChecksum(c, msg + ChecksumBytes(c, sum)))
  {
    hide Steps, MessageBits, BasicChecksum, ChecksumBytes, Residue;
    var sum := BasicChecksum(c, msg);
    var sent := msg + ChecksumBytes(c, sum);
    RegisterAfterChecksum(c, msg, sum);
    BasicChecksumBits(c, sent);
    OutputOfLow(c, c.rftOut, Steps(c.bits, c.init, c.poly, MessageBits(sent, c.rftIn)), Residue(c),
                BasicChecksum(c, sent));
  }

  /** The same for the table-driven computer, any two messages compared. */
  lemma OptimalResidueLaw(c: Params, a: seq<Byte>, b: seq<Byte>)
    requires c.Valid() && Faithful(c) && c.bits % 8 == 0 && c.rftIn == c.rftOut
    ensures OptimalChecksum(c, a + ChecksumBytes(c, OptimalChecksum(c, a))) ==
            OptimalChecksum(c, b + ChecksumBytes(c, OptimalChecksum(c, b)))
  {
    hide OptimalChecksum, BasicChecksum, ChecksumBytes, Residue, Faithful, IsOutput;
    TableDrivenIsBitwiseIff(c);
    ResidueLaw(c, a);
    ResidueLaw(c, b);
    OutputUnique(c, c.rftOut, Resize(Residue(c), |c.poly|),
                 BasicChecksum(c, a + ChecksumBytes(c, BasicChecksum(c, a))),
                 BasicChecksum(c, b + ChecksumBytes(c, BasicChecksum(c, b))));
  }

  // ----- Register widths and named parameters -----

  /** The register is the narrowest of the built-in types that hold the order. */
  lemma RegWidthIsLeast(n: nat)
    requires n <= 64
    ensures n <= RegWidth(n) && RegWidth(n) in {8, 16, 32, 64}
    ensures n <= 8 ==> RegWidth(n) == 8
    ensures 8 < n <= 16 ==> RegWidth(n) == 16
    ensures 16 < n <= 32 ==> RegWidth(n) == 32
  {
  }

  lemma BinStep(n: nat, w: nat)
    ensures Bin(n, w + 1) == [n % 2 == 1] + Bin(n / 2, w)
    ensures Bin(n, 0) == []
  {
  }

  /** A nibble's worth of binary digits, and two of them. */
  function Nibble(n: nat): (b: Word)
    requires n < 16
    ensures |b| == 4
  {
    [n % 2 == 1, n / 2 % 2 == 1, n / 4 == 1 || n / 4 == 3, n >= 8]
  }

  lemma BinNibble(n: nat)
    requires n < 16
    ensures Bin(n, 4) == Nibble(n)
  {
    hide Bin;
    BinStep(n, 3);
    BinStep(n / 2, 2);
    BinStep(n / 2 / 2, 1);
    BinStep(n / 2 / 2 / 2, 0);
  }

  lemma {:induction false} BinSplit(low: nat, high: nat, k: nat, w: nat)
    requires low < Pow2(k)
    ensures Bin(low + Pow2(k) * high, k + w) == Bin(low, k) + Bin(high, w)
    decreases k
  {
    if k == 0 {
      assert Bin(low, 0) == [];
    } else {
      Pow2Times(k, high);
      BinSplit(low / 2, high, k - 1, w);
    }
  }

  lemma BinNibbles(low: nat, high: nat, w: nat)
    requires low < 16
    ensures Bin(low + 16 * high, 4 + w) == Nibble(low) + Bin(high, w)
  {
    assert Pow2(4) == 16;
    BinSplit(low, high, 4, w);
    BinNibble(low);
  }

  /** Sixteen bits, from the lowest hexadecimal digit up. */
  lemma Bin16(h0: nat, h1: nat, h2: nat, h3: nat)
    requires h0 < 16 && h1 < 16 && h2 < 16 && h3 < 16
    ensures Bin(h0 + 16 * (h1 + 16 * (h2 + 16 * h3)), 16) == Nibble(h0) + (Nibble(h1) + (Nibble(h2) + Nibble(h3)))
  {
    hide Bin, Nibble;
    BinNibbles(h0, h1 + 16 * (h2 + 16 * h3), 12);
    BinNibbles(h1, h2 + 16 * h3, 8);
    BinNibbles(h2, h3, 4);
    BinNibble(h3);
  }

  lemma Bin32(low: nat, high: nat)
    requires low < 0x1_0000
    ensures Bin(low + 0x1_0000 * high, 32) == Bin(low, 16) + Bin(high, 16)
  {
    hide Bin;
    assert Pow2(16) == 0x1_0000 by { assert Pow2(8) == 256; assert Pow2(12) == 4096; }
    BinSplit(low, high, 16, 16);
  }

  /** The polynomial of CRC-32 is that of section 8.1.1.6.2 of ITU-T V.42, and the register
      starts and ends inverted. */
  lemma Crc32Parameters(i: nat)
    requires i < 32
    ensures CRC_32.bits == 32 && CRC_32.rftIn && CRC_32.rftOut
    ensures |CRC_32.poly| == |CRC_32.init| == |CRC_32.xorOut| == 32
    ensures CRC_32.poly[i] <==> i in {0, 1, 2, 4, 5, 7, 8, 10, 11, 12, 16, 22, 23, 26}
    ensures CRC_32.init[i] && CRC_32.xorOut[i]
  {
    hide Bin;
    Bin32(0x1DB7, 0x04C1);
    Bin16(0x7, 0xB, 0xD, 0x1);
    Bin16(0x1, 0xC, 0x4, 0x0);
    Bin32(0xFFFF, 0xFFFF);
    Bin16(0xF, 0xF, 0xF, 0xF);
  }

  lemma Bits8005(i: nat)
    requires i < 16
    ensures Bin(0x8005, 16)[i] <==> i in {0, 2, 15}
  {
    hide Bin;
    Bin16(0x5, 0x0, 0x0, 0x8);
  }

  lemma Bits1021(i: nat)
    requires i < 16
    ensures Bin(0x1021, 16)[i] <==> i in {0, 5, 12}
  {
    hide Bin;
    Bin16(0x1, 0x2, 0x0, 0x1);
  }

  lemma Bits8408(i: nat)
    requires i < 16
    ensures Bin(0x8408, 16)[i] <==> i in {3, 10, 15}
  {
    hide Bin;
    Bin16(0x8, 0x0, 0x4, 0x8);
  }

  lemma BitsAll(i: nat)
    requires i < 16
    ensures Bin(0xFFFF, 16)[i]
  {
    hide Bin;
    Bin16(0xF, 0xF, 0xF, 0xF);
  }

  lemma BitsNone(i: nat)
    requires i < 16
    ensures !Bin(0, 16)[i]
  {
    hide Bin;
    Bin16(0x0, 0x0, 0x0, 0x0);
  }

  /** The polynomials and initial values of the 16-bit types; their final values are zero. */
  lemma Crc16Parameters(c: Params, i: nat)
    requires c in {CRC_16, CRC_CCITT_FALSE, CRC_CCITT_TRUE, CRC_XMODEM_MISTAKEN, CRC_XMODEM} && i < 16
    ensures c.bits == 16 && |c.poly| == |c.init| == |c.xorOut| == 16 && !c.xorOut[i]
    ensures c == CRC_16 ==> (c.poly[i] <==> i in {0, 2, 15})
    ensures c in {CRC_CCITT_FALSE, CRC_CCITT_TRUE, CRC_XMODEM} ==> (c.poly[i] <==> i in {0, 5, 12})
    ensures c == CRC_XMODEM_MISTAKEN ==> (c.poly[i] <==> i in {3, 10, 15})
    ensures c.init[i] <==> c == CRC_CCITT_FALSE
    ensures c.rftIn <==> c.rftOut
    ensures c.rftIn <==> c in {CRC_16, CRC_CCITT_TRUE, CRC_XMODEM_MISTAKEN}
  {
    hide Bin;
    Bits8005(i);
    Bits1021(i);
    Bits8408(i);
    BitsAll(i);
    BitsNone(i);
  }

  /** In particular the CRC-32 of the empty message is zero. */
  lemma Crc32OfNothing()
    ensures BasicChecksum(CRC_32, []) == Zeros(32)
  {
    hide Bin, BasicChecksum, Steps;
    forall i: nat | i < 32
      ensures CRC_32.init[i] && CRC_32.xorOut[i]
    {
      Crc32Parameters(i);
    }
    Crc32Parameters(0);
    BasicChecksumBits(CRC_32, []);
    NoSteps(32, CRC_32.init, CRC_32.poly);
    OutputUnique(CRC_32, true, CRC_32.init, BasicChecksum(CRC_32, []), Zeros(32));
  }
}
