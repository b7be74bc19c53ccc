/** The byte-fed update loops: direct, reflected and below a byte, each in both division
    styles.  Every loop is proved against a function over the message; what those functions
    have to do with bit-wise division is the subject of CrcTheorems and AugmentedTheorems. */
module Updates {
  import opened Words
  import opened Reflection
  import opened Division
  import opened Linearity
  import opened Tables

  /** The bits of a message in processing order. */
  function MessageBits(msg: seq<Byte>, reflect: bool): (bits: Word)
    ensures |bits| == 8 * |msg|
  {
    if msg == [] then [] else InputBits(msg[0], 8, reflect) + MessageBits(msg[1..], reflect)
  }

  function ZeroBytes(k: nat): (msg: seq<Byte>)
    ensures |msg| == k
  {
    if k == 0 then [] else [Zeros(8)] + ZeroBytes(k - 1)
  }

  /** The leading byte of the remainder, as an 8-bit value. */
  function LeadingByte(r: Word, n: nat): (b: Byte)
    requires 8 <= n <= |r|
  {
    Shr(r, n - 8)[..8]
  }

  function DirectStep(n: nat, r: Word, p: Word, b: Byte): (s: Word)
    requires 8 <= n <= |r| == |p|
    ensures |s| == |r|
  {
    Xor(Shl(r, 8), TableEntry(n, p, false, Xor(LeadingByte(r, n), b)))
  }

  function ReflectedStep(n: nat, r: Word, p: Word, b: Byte): (s: Word)
    requires 8 <= n <= |r| == |p|
    ensures |s| == |r|
  {
    Xor(Shr(r, 8), TableEntry(n, p, true, Xor(r[..8], b)))
  }

  function AugDirectStep(n: nat, r: Word, p: Word, b: Byte): (s: Word)
    requires 8 <= n <= |r| == |p|
    ensures |s| == |r|
  {
    Xor(Or(Shl(r, 8), Resize(b, |r|)), TableEntry(n, p, false, LeadingByte(r, n)))
  }

  function AugReflectedStep(n: nat, r: Word, p: Word, b: Byte): (s: Word)
    requires 8 <= n <= |r| == |p|
    ensures |s| == |r|
  {
    Xor(Or(Shr(r, 8), Shl(Resize(b, |r|), n - 8)), TableEntry(n, p, true, r[..8]))
  }

  /** The table-driven update over a whole message. */
  function ByteUpdate(n: nat, r: Word, p: Word, msg: seq<Byte>, reflect: bool): (s: Word)
    requires 8 <= n <= |r| == |p|
    ensures |s| == |r|
    decreases |msg|
  {
    if msg == [] then r
    else
      var r' := if reflect then ReflectedStep(n, r, p, msg[0]) else DirectStep(n, r, p, msg[0]);
      ByteUpdate(n, r', p, msg[1..], reflect)
  }

  function AugByteUpdate(n: nat, r: Word, p: Word, msg: seq<Byte>, reflect: bool): (s: Word)
    requires 8 <= n <= |r| == |p|
    ensures |s| == |r|
    decreases |msg|
  {
    if msg == [] then r
    else
      var r' := if reflect then AugReflectedStep(n, r, p, msg[0]) else AugDirectStep(n, r, p, msg[0]);
      AugByteUpdate(n, r', p, msg[1..], reflect)
  }

  /** The update below a byte, which divides bit by bit. */
  function SubByteUpdate(n: nat, r: Word, p: Word, msg: seq<Byte>, reflect: bool): (s: Word)
    requires 1 <= n < 8 && |r| == |p| == 8
    ensures |s| == |r|
  {
    if reflect then SubByteReflection(Steps(n, SubByteReflection(r, n), p, MessageBits(msg, true)), n)
    else Steps(n, r, p, MessageBits(msg, false))
  }

  function AugSubByteUpdate(n: nat, r: Word, p: Word, msg: seq<Byte>, reflect: bool): (s: Word)
    requires 1 <= n < 8 && |r| == |p| == 8
    ensures |s| == |r|
  {
    if reflect then SubByteReflection(AugSteps(n, SubByteReflection(r, n), p, MessageBits(msg, true)), n)
    else AugSteps(n, r, p, MessageBits(msg, false))
  }

  method DirectCrcUpdate(order: nat, poly: Word, remainder: Word, bytes: seq<Byte>)
    returns (r: Word)
    requires 8 <= order <= |remainder| == |poly|
    ensures r == ByteUpdate(order, remainder, poly, bytes, false)
  {
    hide Val, TableEntry;
    var table := MakePartialXorProductsTable(CHAR_BIT, order, poly, false);
    r := remainder;
    assert bytes[0..] == bytes;
    for i := 0 to |bytes|
      invariant |r| == |remainder|
      invariant IsTable(table[..], 8, order, poly, false)
      invariant ByteUpdate(order, r, poly, bytes[i..], false) == ByteUpdate(order, remainder, poly, bytes, false)
    {
      var index := Xor(Shr(r, order - CHAR_BIT)[..8], bytes[i]);
      Lookup(table[..], 8, order, poly, false, index);
      r := Shl(r, CHAR_BIT);
      r := Xor(r, table[Val(index)]);
      assert bytes[i..][1..] == bytes[i + 1..];
    }
  }

  method ReflectedCrcUpdate(order: nat, poly: Word, remainder: Word, bytes: seq<Byte>)
    returns (r: Word)
    requires 8 <= order <= |remainder| == |poly|
    ensures r == ByteUpdate(order, remainder, poly, bytes, true)
  {
    hide Val, TableEntry;
    var table := MakePartialXorProductsTable(CHAR_BIT, order, poly, true);
    r := remainder;
    assert bytes[0..] == bytes;
    for i := 0 to |bytes|
      invariant |r| == |remainder|
      invariant IsTable(table[..], 8, order, poly, true)
      invariant ByteUpdate(order, r, poly, bytes[i..], true) == ByteUpdate(order, remainder, poly, bytes, true)
    {
      var index := Xor(r[..8], bytes[i]);
      Lookup(table[..], 8, order, poly, true, index);
      r := Shr(r, CHAR_BIT);
      r := Xor(r, table[Val(index)]);
      assert bytes[i..][1..] == bytes[i + 1..];
    }
  }

  method DirectAugmentedCrcUpdate(order: nat, poly: Word, remainder: Word, bytes: seq<Byte>)
    returns (r: Word)
    requires 8 <= order <= |remainder| == |poly|
    ensures r == AugByteUpdate(order, remainder, poly, bytes, false)
  {
    hide Val, TableEntry;
    var table := MakePartialXorProductsTable(CHAR_BIT, order, poly, false);
    r := remainder;
    assert bytes[0..] == bytes;
    for i := 0 to |bytes|
      invariant |r| == |remainder|
      invariant IsTable(table[..], 8, order, poly, false)
      invariant AugByteUpdate(order, r, poly, bytes[i..], false) == AugByteUpdate(order, remainder, poly, bytes, false)
    {
      var index := Shr(r, order - CHAR_BIT)[..8];
      Lookup(table[..], 8, order, poly, false, index);
      r := Shl(r, CHAR_BIT);
      r := Or(r, Resize(bytes[i], |r|));
      r := Xor(r, table[Val(index)]);
      assert bytes[i..][1..] == bytes[i + 1..];
    }
  }

  method ReflectedAugmentedCrcUpdate(order: nat, poly: Word, remainder: Word, bytes: seq<Byte>)
    returns (r: Word)
    requires 8 <= order <= |remainder| == |poly|
    ensures r == AugByteUpdate(order, remainder, poly, bytes, true)
  {
    hide Val, TableEntry;
    var table := MakePartialXorProductsTable(CHAR_BIT, order, poly, true);
    r := remainder;
    assert bytes[0..] == bytes;
    for i := 0 to |bytes|
      invariant |r| == |remainder|
      invariant IsTable(table[..], 8, order, poly, true)
      invariant AugByteUpdate(order, r, poly, bytes[i..], true) == AugByteUpdate(order, remainder, poly, bytes, true)
    {
      var index := r[..8];
      Lookup(table[..], 8, order, poly, true, index);
      r := Shr(r, CHAR_BIT);
      r := Or(r, Shl(Resize(bytes[i], |r|), order - CHAR_BIT));
      r := Xor(r, table[Val(index)]);
      assert bytes[i..][1..] == bytes[i + 1..];
    }
  }

  lemma {:induction false} MessageBitsSnoc(msg: seq<Byte>, b: Byte, reflect: bool)
    ensures MessageBits(msg + [b], reflect) == MessageBits(msg, reflect) + InputBits(b, 8, reflect)
  {
    if msg == [] {
      assert (msg + [b])[1..] == [] && msg + [b] == [b];
    } else {
      assert (msg + [b])[1..] == msg[1..] + [b];
      MessageBitsSnoc(msg[1..], b, reflect);
    }
  }

  method SubByteCrcUpdate(order: nat, poly: Word, remainder: Word, bytes: seq<Byte>, reflect: bool)
    returns (r: Word)
    requires 1 <= order < 8 && |remainder| == |poly| == 8
    ensures r == SubByteUpdate(order, remainder, poly, bytes, reflect)
  {
    hide Steps, AugSteps, InputBits;
    assert bytes[..0] == [];
    r := remainder;
    if reflect {
      r := ReflectSubByte(r, order);
    }
    ghost var start := r;
    NoSteps(order, start, poly);
    for i := 0 to |bytes|
      invariant |r| == 8
      invariant r == Steps(order, start, poly, MessageBits(bytes[..i], reflect))
    {
      r := CrcModuloWordUpdate(order, r, bytes[i], poly, CHAR_BIT, reflect);
      assert bytes[..i + 1] == bytes[..i] + [bytes[i]];
      MessageBitsSnoc(bytes[..i], bytes[i], reflect);
      StepsConcat(order, start, poly, MessageBits(bytes[..i], reflect), InputBits(bytes[i], 8, reflect));
    }
    assert bytes[..|bytes|] == bytes;
    if reflect {
      r := ReflectSubByte(r, order);
    }
  }

  method SubByteAugmentedCrcUpdate(order: nat, poly: Word, remainder: Word, bytes: seq<Byte>, reflect: bool)
    returns (r: Word)
    requires 1 <= order < 8 && |remainder| == |poly| == 8
    ensures r == AugSubByteUpdate(order, remainder, poly, bytes, reflect)
  {
    hide Steps, AugSteps, InputBits;
    assert bytes[..0] == [];
    r := remainder;
    if reflect {
      r := ReflectSubByte(r, order);
    }
    ghost var start := r;
    NoSteps(order, start, poly);
    for i := 0 to |bytes|
      invariant |r| == 8
      invariant r == AugSteps(order, start, poly, MessageBits(bytes[..i], reflect))
    {
      r := AugmentedCrcModuloWordUpdate(order, r, bytes[i], poly, CHAR_BIT, reflect);
      assert bytes[..i + 1] == bytes[..i] + [bytes[i]];
      MessageBitsSnoc(bytes[..i], bytes[i], reflect);
      AugStepsConcat(order, start, poly, MessageBits(bytes[..i], reflect), InputBits(bytes[i], 8, reflect));
    }
    assert bytes[..|bytes|] == bytes;
    if reflect {
      r := ReflectSubByte(r, order);
    }
  }
}
