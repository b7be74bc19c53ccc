/** The main results about the two CRC computers. */
module CrcTheorems {
  import opened Words
  import opened Reflection
  import opened Division
  import opened Linearity
  import opened Tables
  import opened Updates
  import opened TableDriven
  import opened CrcComputers

  // ----- Fast form and simple form -----

  /** What the parameters must satisfy for the table-driven computer to be right: nothing,
      unless input is reflected and bytes are looked up; then the register must hold nothing
      above its significant bits.  Widths of 8, 16, 32 and 64 have no such bits. */
  ghost predicate Faithful(c: Params)
    requires c.Valid()
  {
    c.rftIn && c.bits >= 8 ==> Clean(c.init, c.bits) && CleanDivisor(c.poly, c.bits)
  }

  /** The two registers correspond: equal low bits, mirrored when input is reflected. */
  ghost predicate Corresponds(c: Params, optimal: Word, basic: Word)
    requires c.Valid() && |optimal| == |basic| == |c.poly|
  {
    optimal[..c.bits] == if c.rftIn then Rev(basic[..c.bits]) else basic[..c.bits]
  }

  lemma ReflectQLow(x: Word, n: nat)
    requires 1 <= n <= 64 && |x| == RegWidth(n)
    ensures ReflectQ(x, n, true)[..n] == Rev(x[..n])
  {
  }

  lemma LowEqualIff(x: Word, y: Word, z: Word, n: nat)
    requires n <= |x| == |y| == |z|
    ensures Low(Xor(x, z), n) == Low(Xor(y, z), n) <==> x[..n] == y[..n]
  {
    if Low(Xor(x, z), n) == Low(Xor(y, z), n) {
      forall i | 0 <= i < n
        ensures x[i] == y[i]
      {
        assert Low(Xor(x, z), n)[i] == Low(Xor(y, z), n)[i];
      }
    } else if x[..n] == y[..n] {
      assert forall i :: 0 <= i < n ==> x[i] == x[..n][i] == y[..n][i] == y[i];
    }
  }

  lemma RevEqualIff(x: Word, y: Word)
    ensures Rev(x) == Rev(y) <==> x == y
    ensures Rev(x) == y <==> x == Rev(y)
  {
    assert Rev(Rev(x)) == x && Rev(Rev(y)) == y;
  }

  /** Output processing neither hides nor invents a difference of the registers. */
  lemma OutputsEqualIff(c: Params, optimal: Word, basic: Word)
    requires c.Valid() && |optimal| == |basic| == |c.poly|
    ensures OptimalOutput(c, optimal) == BasicOutput(c, basic) <==> Corresponds(c, optimal, basic)
  {
    hide Low, Xor, Reflect, ReflectQ, Rev;
    var n := c.bits;
    var x := ReflectQ(optimal, n, c.rftOut != c.rftIn);
    var y := if c.rftOut then Reflect(basic, n) else basic;
    LowEqualIff(x, y, c.xorOut, n);
    ReflectQLow(optimal, n);
    ReflectedLow(n, basic);
    ReflectQNot(optimal, n);
    RevEqualIff(optimal[..n], basic[..n]);
  }

  lemma ReflectQNot(x: Word, n: nat)
    requires 1 <= n <= 64 && |x| == RegWidth(n)
    ensures ReflectQ(x, n, false) == x
  {
  }

  /** The table-driven register, from an initial value as the constructor loads it. */
  function OptimalRegister(c: Params, msg: seq<Byte>): (r: Word)
    requires c.Valid()
    ensures |r| == |c.poly|
  {
    OptimalUpdate(c, ReflectQ(c.init, c.bits, c.rftIn), msg)
  }

  function BasicRegister(c: Params, msg: seq<Byte>): (r: Word)
    requires c.Valid()
    ensures |r| == |c.poly|
  {
    Steps(c.bits, c.init, c.poly, MessageBits(msg, c.rftIn))
  }

  lemma ReflectQWide(x: Word, n: nat)
    requires 8 <= n <= 64 && |x| == RegWidth(n)
    ensures ReflectQ(x, n, true) == Reflect(x, n)
  {
  }

  lemma SubByteCorresponds(c: Params, msg: seq<Byte>)
    requires c.Valid() && c.bits < 8
    ensures Corresponds(c, OptimalRegister(c, msg), BasicRegister(c, msg))
  {
    if c.rftIn {
      var n, bits := c.bits, MessageBits(msg, true);
      var s := SubByteReflection(c.init, n);
      SubByteTwice(c.init, n);
      assert SubByteReflection(s, n) == Low(c.init, n);
      assert Low(c.init, n)[..n] == c.init[..n];
      StepsLowBits(n, Low(c.init, n), c.poly, bits);
      StepsLowBits(n, c.init, c.poly, bits);
      ReflectQLow(Steps(n, Low(c.init, n), c.poly, bits), n);
    }
  }

  lemma SubByteReflectionLow(x: Byte, n: nat)
    requires 1 <= n < 8
    ensures SubByteReflection(x, n)[..n] == Rev(x[..n])
    ensures forall i :: n <= i < 8 ==> !SubByteReflection(x, n)[i]
  {
  }

  /** The augmented update below a byte leaves the bit-wise remainder in the low bits, mirrored
      on the way in and out when reflected, and then with nothing above them. */
  lemma AugSubByteDivides(n: nat, r: Byte, p: Byte, msg: seq<Byte>, reflect: bool)
    requires 1 <= n < 8
    ensures var s, bits := AugSubByteUpdate(n, r, p, msg, reflect), MessageBits(msg, reflect);
            && |s| == 8
            && s[..n] == (if reflect then Rev(AugSteps(n, Rev(r[..n]), p[..n], bits))
                          else AugSteps(n, r[..n], p[..n], bits))
            && (reflect ==> forall i :: n <= i < 8 ==> !s[i])
  {
    hide AugSteps, SubByteReflection, MessageBits;
    var bits := MessageBits(msg, reflect);
    if reflect {
      var start := SubByteReflection(r, n);
      SubByteReflectionLow(r, n);
      AugStepsLowBits(n, start, p, bits);
      SubByteReflectionLow(AugSteps(n, start, p, bits), n);
    } else {
      AugStepsLowBits(n, r, p, bits);
    }
  }

  /** The table-driven computer gives the bit-wise checksum of every message if and only if
      its parameters are faithful. */
  lemma TableDrivenIsBitwiseIff(c: Params)
    requires c.Valid()
    ensures (forall msg: seq<Byte> :: OptimalChecksum(c, msg) == BasicChecksum(c, msg)) <==> Faithful(c)
  {
    hide OptimalOutput, BasicOutput, OptimalUpdate, ByteUpdate, Steps, Rev, ReflectQ, Reflect, CleanDivisor, Clean;
    forall msg: seq<Byte>
      ensures OptimalChecksum(c, msg) == BasicChecksum(c, msg) <==>
              Corresponds(c, OptimalRegister(c, msg), BasicRegister(c, msg))
    {
      OutputsEqualIff(c, OptimalRegister(c, msg), BasicRegister(c, msg));
    }
    if c.bits < 8 {
      forall msg: seq<Byte>
        ensures OptimalChecksum(c, msg) == BasicChecksum(c, msg)
      {
        SubByteCorresponds(c, msg);
      }
    } else if !c.rftIn {
      forall msg: seq<Byte>
        ensures OptimalChecksum(c, msg) == BasicChecksum(c, msg)
      {
        DirectCorresponds(c, msg);
      }
    } else {
      ReflectedCorrespondsIff(c);
    }
  }

  lemma DirectCorresponds(c: Params, msg: seq<Byte>)
    requires c.Valid() && c.bits >= 8 && !c.rftIn
    ensures Corresponds(c, OptimalRegister(c, msg), BasicRegister(c, msg))
  {
    ReflectQNot(c.init, c.bits);
    DirectUpdateDivides(c.bits, c.init, c.poly, msg);
  }

  lemma ReflectedCorrespondsIff(c: Params)
    requires c.Valid() && c.bits >= 8 && c.rftIn
    ensures (forall msg: seq<Byte> :: Corresponds(c, OptimalRegister(c, msg), BasicRegister(c, msg)))
            <==> Faithful(c)
  {
    hide ByteUpdate, Steps, Rev, ReflectQ, Reflect, CleanDivisor, Clean;
    ReflectQWide(c.init, c.bits);
    ReflectedUpdateDividesIff(c.bits, c.init, c.poly);
    if Faithful(c) {
      forall msg: seq<Byte>
        ensures Corresponds(c, OptimalRegister(c, msg), BasicRegister(c, msg))
      {
        assert ByteUpdate(c.bits, Reflect(c.init, c.bits), c.poly, msg, true)[..c.bits] ==
               Rev(Steps(c.bits, c.init, c.poly, MessageBits(msg, true))[..c.bits]);
      }
    }
    if forall msg: seq<Byte> :: Corresponds(c, OptimalRegister(c, msg), BasicRegister(c, msg)) {
      forall msg: seq<Byte>
        ensures ByteUpdate(c.bits, Reflect(c.init, c.bits), c.poly, msg, true)[..c.bits] ==
                Rev(Steps(c.bits, c.init, c.poly, MessageBits(msg, true))[..c.bits])
      {
        assert Corresponds(c, OptimalRegister(c, msg), BasicRegister(c, msg));
      }
    }
  }

  /** A register without spare bits cannot be unfaithful. */
  lemma FullRegisterIsFaithful(c: Params)
    requires c.Valid() && c.bits in {8, 16, 32, 64}
    ensures forall msg: seq<Byte> :: OptimalChecksum(c, msg) == BasicChecksum(c, msg)
  {
    hide OptimalChecksum, BasicChecksum;
    TableDrivenIsBitwiseIff(c);
  }

  /** CRC-32 as in section 8.1.1.6.2 of ITU-T V.42: order 32, reflected, inverted at both ends. */
  const CRC_32 := Params(32, Bin(0x04C1_1DB7, 32), Bin(0xFFFF_FFFF, 32), Bin(0xFFFF_FFFF, 32), true, true)
  const CRC_16 := Params(16, Bin(0x8005, 16), Bin(0, 16), Bin(0, 16), true, true)
  const CRC_CCITT_FALSE := Params(16, Bin(0x1021, 16), Bin(0xFFFF, 16), Bin(0, 16), false, false)
  const CRC_CCITT_TRUE := Params(16, Bin(0x1021, 16), Bin(0, 16), Bin(0, 16), true, true)
  const CRC_XMODEM_MISTAKEN := Params(16, Bin(0x8408, 16), Bin(0, 16), Bin(0, 16), true, true)
  const CRC_XMODEM := Params(16, Bin(0x1021, 16), Bin(0, 16), Bin(0, 16), false, false)

  lemma NamedTypesAreFaithful(c: Params, msg: seq<Byte>)
    requires c in {CRC_32, CRC_16, CRC_CCITT_FALSE, CRC_CCITT_TRUE, CRC_XMODEM_MISTAKEN, CRC_XMODEM}
    ensures c.Valid() && OptimalChecksum(c, msg) == BasicChecksum(c, msg)
  {
    FullRegisterIsFaithful(c);
  }

  // ----- A message that goes wrong -----

  /** The byte that is read last-bit-first as a lone final one. */
  const LAST_BIT: Byte := OneHot(8, 7)

  /** With reflected input, an order strictly between two register widths and nothing stored
      above the divisor's low coefficients, this two-byte message already has a wrong
      checksum: the quotient bit of the first byte stays in the register, and the second
      byte, which equals the register's low end, lets it fall into the remainder. */
  function WrongMessage(c: Params): (msg: seq<Byte>)
    requires c.Valid() && c.bits > 8
    ensures |msg| == 2
  {
    [LAST_BIT, Rev(c.poly[..c.bits])[..8]]
  }

  lemma WrongMessageFails(c: Params)
    requires c.Valid() && c.rftIn && c.bits > 8 && c.bits < |c.poly|
    requires c.init == Zeros(|c.poly|) && Clean(c.poly, c.bits)
    ensures OptimalChecksum(c, WrongMessage(c)) != BasicChecksum(c, WrongMessage(c))
  {
    hide OptimalOutput, BasicOutput, Steps, ByteUpdate, MessageBits;
    var n, msg, z, q := c.bits, WrongMessage(c), Zeros(|c.poly|), Completed(c.poly, c.bits);
    ZerosStay(|c.poly|, n);
    QuotientFalls(n, c.poly);
    QuotientFalls(n, q);
    CompletedDivides(n, z, c.poly, msg);
    assert ByteUpdate(n, z, c.poly, msg, true)[n - 8];
    assert !ByteUpdate(n, z, q, msg, true)[..n][n - 8];
    OutputsEqualIff(c, OptimalRegister(c, msg), BasicRegister(c, msg));
  }

  lemma ZerosStay(w: nat, n: nat)
    requires n <= w
    ensures Reflect(Zeros(w), n) == Low(Zeros(w), n) == Zeros(w)
  {
  }

  /** After the two bytes the bit above the remainder has come down eight places. */
  lemma QuotientFalls(n: nat, p: Word)
    requires 8 < n < |p|
    ensures ByteUpdate(n, Zeros(|p|), p, [LAST_BIT, Rev(p[..n])[..8]], true)[n - 8] == !p[n]
  {
    hide ReflectedStep;
    var z, b := Zeros(|p|), Rev(p[..n])[..8];
    var r := ReflectedStep(n, z, p, LAST_BIT);
    assert [LAST_BIT, b][1..] == [b] && [b][1..] == [];
    assert ByteUpdate(n, r, p, [b], true) == ReflectedStep(n, r, p, b);
    FirstByte(n, p);
    ByteThatOnlyShifts(n, r, p);
  }

  lemma FirstByte(n: nat, p: Word)
    requires 8 < n < |p|
    ensures var r := ReflectedStep(n, Zeros(|p|), p, LAST_BIT);
            r[..8] == Rev(p[..n])[..8] && r[n] == !p[n]
  {
    hide Step, Steps, Reflect;
    var z, k := Zeros(|p|), Zeros(7);
    assert Xor(z[..8], LAST_BIT) == LAST_BIT == k + [true];
    StepsConcat(n, z, p, k, [true]);
    ShiftOnly(n, z, p, 7);
    ShiftedZeros(|p|, 7);
    OneStep(n, z, p, true);
    FirstByteEntry(n, p);
  }

  lemma FirstByteEntry(n: nat, p: Word)
    requires 8 < n < |p|
    ensures var e := Reflect(Step(n, Zeros(|p|), p, true), n);
            Xor(Shr(Zeros(|p|), 8), e) == e && e[..8] == Rev(p[..n])[..8] && e[n] == !p[n]
  {
  }

  // ----- Interrupting and resuming -----

  /** The interim remainder after msg: no output processing, upper bits masked off. */
  function OptimalInterim(c: Params, msg: seq<Byte>): (r: Word)
    requires c.Valid()
    ensures |r| == |c.poly|
  {
    Low(ReflectQ(OptimalRegister(c, msg), c.bits, c.rftIn), c.bits)
  }

  function BasicInterim(c: Params, msg: seq<Byte>): (r: Word)
    requires c.Valid()
    ensures |r| == |c.poly|
  {
    Low(BasicRegister(c, msg), c.bits)
  }

  /** A bit-wise computer may be interrupted anywhere: a second one that starts from the
      interim remainder ends with the checksum of the whole message. */
  lemma BasicResumes(c: Params, a: seq<Byte>, b: seq<Byte>)
    requires c.Valid()
    ensures BasicChecksum(c.(init := BasicInterim(c, a)), b) == BasicChecksum(c, a + b)
  {
    hide OptimalOutput, BasicOutput, Steps, MessageBits;
    var x, y := MessageBits(a, c.rftIn), MessageBits(b, c.rftIn);
    var r := BasicRegister(c, a);
    var d := c.(init := Low(r, c.bits));
    MessageBitsConcat(a, b, c.rftIn);
    StepsConcat(c.bits, c.init, c.poly, x, y);
    StepsLowBits(c.bits, r, c.poly, y);
    StepsLowBits(c.bits, Low(r, c.bits), c.poly, y);
    assert Low(r, c.bits)[..c.bits] == r[..c.bits];
    BasicOutputLow(c, d, BasicRegister(d, b), BasicRegister(c, a + b));
  }

  lemma BasicOutputLow(c: Params, d: Params, x: Word, y: Word)
    requires c.Valid() && d == c.(init := d.init) && d.Valid() && |x| == |y| == |c.poly|
    requires x[..c.bits] == y[..c.bits]
    ensures BasicOutput(d, x) == BasicOutput(c, y)
  {
    ReflectedLow(c.bits, x);
    ReflectedLow(c.bits, y);
    LowEqualIff(x, y, c.xorOut, c.bits);
    LowEqualIff(Reflect(x, c.bits), Reflect(y, c.bits), c.xorOut, c.bits);
  }

  ghost predicate OptimalResumes(c: Params)
    requires c.Valid()
  {
    forall a: seq<Byte>, b: seq<Byte> ::
      OptimalChecksum(c.(init := OptimalInterim(c, a)), b) == OptimalChecksum(c, a + b)
  }

  /** A table-driven computer may be interrupted anywhere if and only if its parameters are
      faithful: the interim remainder does not carry what the register holds above it. */
  lemma OptimalResumesIff(c: Params)
    requires c.Valid()
    ensures OptimalResumes(c) <==> Faithful(c)
  {
    if Faithful(c) {
      forall a: seq<Byte>, b: seq<Byte>
        ensures OptimalChecksum(c.(init := OptimalInterim(c, a)), b) == OptimalChecksum(c, a + b)
      {
        FaithfulResumes(c, a, b);
      }
    } else if OptimalResumes(c) {
      ResumingShowsFaithful(c);
    }
  }

  lemma FaithfulCorresponds(c: Params, msg: seq<Byte>)
    requires c.Valid() && Faithful(c)
    ensures Corresponds(c, OptimalRegister(c, msg), BasicRegister(c, msg))
  {
    hide OptimalOutput, BasicOutput, OptimalUpdate, Steps, ReflectQ, Faithful, Corresponds;
    TableDrivenIsBitwiseIff(c);
    OutputsEqualIff(c, OptimalRegister(c, msg), BasicRegister(c, msg));
    assert OptimalChecksum(c, msg) == BasicChecksum(c, msg);
  }

  lemma SameInterim(c: Params, optimal: Word, basic: Word)
    requires c.Valid() && |optimal| == |basic| == |c.poly| && Corresponds(c, optimal, basic)
    ensures Low(ReflectQ(optimal, c.bits, c.rftIn), c.bits) == Low(basic, c.bits)
  {
    hide ReflectQ;
    ReflectQLow(optimal, c.bits);
    ReflectQNot(optimal, c.bits);
    RevEqualIff(optimal[..c.bits], basic[..c.bits]);
  }

  lemma FaithfulResumes(c: Params, a: seq<Byte>, b: seq<Byte>)
    requires c.Valid() && Faithful(c)
    ensures OptimalChecksum(c.(init := OptimalInterim(c, a)), b) == OptimalChecksum(c, a + b)
  {
    hide OptimalChecksum, BasicChecksum, OptimalUpdate, Steps, ReflectQ;
    var d := c.(init := OptimalInterim(c, a));
    FaithfulCorresponds(c, a);
    SameInterim(c, OptimalRegister(c, a), BasicRegister(c, a));
    BasicResumes(c, a, b);
    assert Faithful(d);
    TableDrivenIsBitwiseIff(c);
    TableDrivenIsBitwiseIff(d);
  }

  lemma OptimalOutputLow(c: Params, x: Word, y: Word)
    requires c.Valid() && |x| == |y| == |c.poly| && OptimalOutput(c, x) == OptimalOutput(c, y)
    ensures x[..c.bits] == y[..c.bits]
  {
    var q := c.rftOut != c.rftIn;
    LowEqualIff(ReflectQ(x, c.bits, q), ReflectQ(y, c.bits, q), c.xorOut, c.bits);
    ReflectQLow(x, c.bits);
    ReflectQLow(y, c.bits);
    RevEqualIff(x[..c.bits], y[..c.bits]);
  }

  lemma LowThroughReflection(x: Word, n: nat)
    requires n <= |x|
    ensures Reflect(Low(Reflect(x, n), n), n) == Low(x, n)
  {
  }

  /** If resuming works after a, the register held nothing above its low bits then. */
  lemma ResumingShowsClean(c: Params, a: seq<Byte>)
    requires c.Valid() && c.rftIn && c.bits >= 8 && OptimalResumes(c)
    ensures Clean(OptimalRegister(c, a), c.bits)
  {
    hide OptimalOutput, ByteUpdate, Reflect, ReflectQ;
    var n, p, r, d := c.bits, c.poly, OptimalRegister(c, a), c.(init := OptimalInterim(c, a));
    ReflectQWide(r, n);
    ReflectQWide(d.init, n);
    LowThroughReflection(r, n);
    forall b: seq<Byte>
      ensures ByteUpdate(n, r, p, b, true)[..n] == ByteUpdate(n, Low(r, n), p, b, true)[..n]
    {
      assert OptimalChecksum(d, b) == OptimalChecksum(c, a + b);
      OptimalUpdateConcat(c, c.init, a, b);
      SameOutput(c, d, ByteUpdate(n, Low(r, n), p, b, true));
      OptimalOutputLow(c, ByteUpdate(n, r, p, b, true), ByteUpdate(n, Low(r, n), p, b, true));
    }
    assert Indistinguishable(n, r, p, Low(r, n), p);
    IndistinguishableMeansEqual(n, r, p, Low(r, n), p);
  }

  lemma SameOutput(c: Params, d: Params, x: Word)
    requires c.Valid() && d == c.(init := d.init) && d.Valid() && |x| == |c.poly|
    ensures OptimalOutput(d, x) == OptimalOutput(c, x)
  {
  }

  lemma ResumingShowsFaithful(c: Params)
    requires c.Valid() && c.rftIn && c.bits >= 8 && OptimalResumes(c)
    ensures Faithful(c)
  {
    hide OptimalResumes, Reflect, ReflectQ, TableEntry;
    var n, p, r := c.bits, c.poly, OptimalRegister(c, []);
    ReflectQWide(c.init, n);
    ResumingShowsClean(c, []);
    CleanReflected(c.init, n);
    var b: Byte := Xor(r[..8], LAST_BIT);
    assert Xor(r[..8], b) == LAST_BIT;
    assert [b][1..] == [];
    assert r == ReflectQ(c.init, n, true);
    assert ByteUpdate(n, ReflectedStep(n, r, p, b), p, [b][1..], true) == ReflectedStep(n, r, p, b);
    assert OptimalRegister(c, [b]) == ReflectedStep(n, r, p, b);
    ResumingShowsClean(c, [b]);
    EntryOfLastBit(n, p);
    CleanEntry(n, r, TableEntry(n, p, true, LAST_BIT), p);
  }

  lemma CleanReflected(x: Word, n: nat)
    requires n <= |x| && Clean(Reflect(x, n), n)
    ensures Clean(x, n)
  {
    assert forall i :: n <= i < |x| ==> x[i] == Reflect(x, n)[i];
  }

  lemma CleanEntry(n: nat, r: Word, e: Word, p: Word)
    requires 8 <= n <= |r| == |e| == |p| && Clean(r, n) && Clean(Xor(Shr(r, 8), e), n)
    requires forall i :: n <= i < |p| ==> e[i] == (p[i] != (i == n))
    ensures CleanDivisor(p, n)
  {
    forall i | n <= i < |p|
      ensures p[i] == (i == n)
    {
      assert !Xor(Shr(r, 8), e)[i];
    }
  }
}
