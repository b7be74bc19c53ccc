/** Length-prefixed frames over byte streams. */
module Frames {

  type byte = x: nat | x < 256

  const TWO32 := 0x1_0000_0000

  // ----- Little-endian 32-bit numbers -----

  function LittleEndian(n: nat): (b: seq<byte>)
    requires n < TWO32
    ensures |b| == 4
  {
    [n % 256, n / 0x100 % 256, n / 0x1_0000 % 256, n / 0x100_0000]
  }

  function FromLittleEndian(b: seq<byte>): (n: nat)
    requires |b| == 4
    ensures n < TWO32
  {
    var b0: int, b1: int, b2: int, b3: int := b[0], b[1], b[2], b[3];
    b0 + 0x100 * b1 + 0x1_0000 * b2 + 0x100_0000 * b3
  }

  /** The lowest byte goes first. */
  lemma LittleEndianBytes(n: nat)
    requires n < TWO32
    ensures var b := LittleEndian(n);
            b[0] == n % 256 && b[1] == n / 256 % 256 && b[2] == n / 65536 % 256 && b[3] == n / 16777216 % 256
  {
  }

  /** The value of four bytes, whatever they are. */
  lemma FromLittleEndianValue(b0: byte, b1: byte, b2: byte, b3: byte)
    ensures FromLittleEndian([b0, b1, b2, b3]) == b0 + 256 * (b1 + 256 * (b2 + 256 * b3))
  {
  }

  /** The bytes of a frame: its length modulo 2^32, lowest byte first, then the payload. */
  lemma FrameBytes(payload: seq<byte>)
    ensures var f, n := Frame(payload), |payload| % 4294967296;
            && |f| == 4 + |payload| && f[4..] == payload
            && f[0] == n % 256 && f[1] == n / 256 % 256 && f[2] == n / 65536 % 256 && f[3] == n / 16777216 % 256
  {
    hide LittleEndian;
    LittleEndianBytes(Uint32(|payload|));
  }

  lemma LittleEndianRoundTrip(n: nat)
    requires n < TWO32
    ensures FromLittleEndian(LittleEndian(n)) == n
  {
    var a := n / 0x100;
    var b := n / 0x1_0000;
    var c := n / 0x100_0000;
    assert b == a / 256 && c == b / 256;
  }

  /** Conversion of a length to uint32 keeps the low 32 bits. */
  function Uint32(n: int): (u: nat)
    ensures u < TWO32
  {
    n % TWO32
  }

  /** The bytes of a frame. */
  function Frame(payload: seq<byte>): (f: seq<byte>)
  {
    LittleEndian(Uint32(|payload|)) + payload
  }

  datatype ReadResult = Read(n: nat) | ShortHeader | BufferTooShort | ShortPayload

  /** What reading one frame into a buffer of the given capacity comes to, when the stream
      will never hold more than s. */
  function ReadOutcome(s: seq<byte>, capacity: nat): ReadResult {
    if |s| < 4 then ShortHeader
    else
      var n := FromLittleEndian(s[..4]);
      if n > capacity then BufferTooShort
      else if |s| < 4 + n then ShortPayload
      else Read(n)
  }

  /** A reliable FIFO stream of bytes: what has been written and not yet read. */
  class Stream {
    var data: seq<byte>

    constructor ()
      ensures data == []
    {
      data := [];
    }

    method Write(b: seq<byte>)
      modifies this
      ensures data == old(data) + b
    {
      data := data + b;
    }

    /** Fill the first n elements of b, or as many as there are bytes. */
    method ReadFull(b: array<byte>, n: nat) returns (k: nat)
      requires n <= b.Length
      modifies this, b
      ensures k == if |old(data)| < n then |old(data)| else n
      ensures data == old(data)[k..]
      ensures b[..] == old(data)[..k] + old(b[k..])
    {
      k := if |data| < n then |data| else n;
      var i := 0;
      while i < k
        invariant 0 <= i <= k && data == old(data)
        invariant b[..] == old(data)[..i] + old(b[..])[i..]
      {
        b[i] := data[i];
        i := i + 1;
      }
      data := data[k..];
    }
  }

  method ReadUint32(rd: Stream) returns (ok: bool, i: nat)
    modifies rd
    ensures ok <==> |old(rd.data)| >= 4
    ensures ok ==> i == FromLittleEndian(old(rd.data)[..4]) && rd.data == old(rd.data)[4..]
    ensures ok ==> var s := old(rd.data); var b0: int, b1: int, b2: int, b3: int := s[0], s[1], s[2], s[3];
                   i == b0 + 256 * (b1 + 256 * (b2 + 256 * b3))
    ensures !ok ==> i == 0 && rd.data == []
  {
    var four := new byte[4](_ => 0);
    var n := rd.ReadFull(four, 4);
    if n < 4 {
      return false, 0;
    }
    assert four[..] == old(rd.data)[..4] == [four[0], four[1], four[2], four[3]];
    FromLittleEndianValue(four[0], four[1], four[2], four[3]);
    return true, FromLittleEndian(four[..]);
  }

  method WriteUint32(wr: Stream, i: nat)
    requires i < TWO32
    modifies wr
    ensures wr.data == old(wr.data) + LittleEndian(i)
    ensures wr.data == old(wr.data) + [i % 256, i / 256 % 256, i / 65536 % 256, i / 16777216 % 256]
  {
    LittleEndianBytes(i);
    wr.Write(LittleEndian(i));
  }

  /** Read a frame into the first limit elements of an existing buffer. */
  method ReadFrameInto(rd: Stream, b: array<byte>, limit: nat) returns (r: ReadResult)
    requires limit <= b.Length
    modifies rd, b
    ensures r == ReadOutcome(old(rd.data), limit)
    ensures r.Read? ==> rd.data == old(rd.data)[4 + r.n..]
                        && b[..] == old(rd.data)[4..4 + r.n] + old(b[..])[r.n..]
    ensures r.BufferTooShort? ==> rd.data == old(rd.data)[4..] && b[..] == old(b[..])
    ensures r.ShortHeader? ==> rd.data == [] && b[..] == old(b[..])
    ensures r.ShortPayload? ==> rd.data == []
                                && b[..] == old(rd.data)[4..] + old(b[..])[|old(rd.data)| - 4..]
  {
    var ok, nbyte := ReadUint32(rd);
    if !ok {
      return ShortHeader;
    }
    if nbyte > limit {
      return BufferTooShort;
    }
    var n := rd.ReadFull(b, nbyte);
    if n != nbyte {
      return ShortPayload;
    }
    return Read(nbyte);
  }

  method WriteFrame(wr: Stream, b: seq<byte>)
    modifies wr
    ensures wr.data == old(wr.data) + Frame(b)
  {
    var nbyte := Uint32(|b|);
    WriteUint32(wr, nbyte);
    wr.Write(b);
  }

  /** A frame that was written is read back whole, and nothing of what follows it is touched,
      exactly when its length is a 32-bit number that fits the buffer. */
  lemma FrameRoundTripIff(payload: seq<byte>, rest: seq<byte>, capacity: nat)
    ensures ReadOutcome(Frame(payload) + rest, capacity) == Read(|payload|) <==>
            |payload| < TWO32 && |payload| <= capacity
    ensures |payload| < TWO32 ==>
              (Frame(payload) + rest)[4..4 + |payload|] == payload && (Frame(payload) + rest)[4 + |payload|..] == rest
  {
    var s := Frame(payload) + rest;
    LittleEndianRoundTrip(Uint32(|payload|));
    assert s[..4] == LittleEndian(Uint32(|payload|));
    assert s[4..] == payload + rest;
  }
}
