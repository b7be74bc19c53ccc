/** The three sides of a remote procedure call over framed connections: caller, proxy, server. */
module Rpc {
  import opened Frames

  class Conn {
    const rd: Stream
    const wr: Stream

    constructor (rd: Stream, wr: Stream)
      ensures this.rd == rd && this.wr == wr
    {
      this.rd, this.wr := rd, wr;
    }
  }

  datatype RpcResult = RpcOk | ReadFailed(r: ReadResult) | WrongNumBytes(n: nat)

  /** The outcome of waiting for a reply of exactly n bytes on a stream holding s. */
  function ReplyOutcome(s: seq<byte>, n: nat): RpcResult {
    match ReadOutcome(s, n)
    case Read(k) => if k == n then RpcOk else WrongNumBytes(k)
    case r => ReadFailed(r)
  }

  method InformNRPC(conn: Conn, nrpc: int)
    modifies conn.wr
    ensures conn.wr.data == old(conn.wr.data) + LittleEndian(Uint32(nrpc))
  {
    WriteUint32(conn.wr, Uint32(nrpc));
  }

  method GetNRPC(conn: Conn) returns (ok: bool, nrpc: nat)
    modifies conn.rd
    ensures ok <==> |old(conn.rd.data)| >= 4
    ensures ok ==> nrpc == FromLittleEndian(old(conn.rd.data)[..4]) && conn.rd.data == old(conn.rd.data)[4..]
  {
    ok, nrpc := ReadUint32(conn.rd);
  }

  /** The number of calls arrives unchanged exactly when it is a 32-bit number. */
  lemma NumberOfCallsArrivesIff(nrpc: int, rest: seq<byte>)
    ensures FromLittleEndian((LittleEndian(Uint32(nrpc)) + rest)[..4]) == nrpc <==> 0 <= nrpc < TWO32
  {
    LittleEndianRoundTrip(Uint32(nrpc));
    assert (LittleEndian(Uint32(nrpc)) + rest)[..4] == LittleEndian(Uint32(nrpc));
  }

  /** Send address and the first limit bytes of b, then read the reply over them. */
  method ClientRPC(addr: seq<byte>, conn: Conn, b: array<byte>, limit: nat) returns (r: RpcResult)
    requires conn.rd != conn.wr && limit <= b.Length
    modifies conn.rd, conn.wr, b
    ensures conn.wr.data == old(conn.wr.data) + Frame(addr) + Frame(old(b[..limit]))
    ensures r == ReplyOutcome(old(conn.rd.data), limit)
    ensures r == RpcOk ==> conn.rd.data == old(conn.rd.data)[4 + limit..]
                           && b[..] == old(conn.rd.data)[4..4 + limit] + old(b[..])[limit..]
  {
    WriteFrame(conn.wr, addr);
    WriteFrame(conn.wr, b[..limit]);
    var nbyte := ReadFrameInto(conn.rd, b, limit);
    if !nbyte.Read? {
      return ReadFailed(nbyte);
    }
    if nbyte.n != limit {
      return WrongNumBytes(nbyte.n);
    }
    return RpcOk;
  }

  /** Two consecutive frames on one stream: an address and a payload. */
  datatype Request = Request(addr: seq<byte>, payload: seq<byte>, rest: seq<byte>) | BadRequest(r: ReadResult)

  function ParseRequest(s: seq<byte>, addrCapacity: nat, capacity: nat): (q: Request)
    ensures q.Request? ==> |q.addr| <= addrCapacity && |q.payload| <= capacity
  {
    match ReadOutcome(s, addrCapacity)
    case Read(n) =>
      var t := s[4 + n..];
      (match ReadOutcome(t, capacity)
       case Read(m) => Request(s[4..4 + n], t[4..4 + m], t[4 + m..])
       case r => BadRequest(r))
    case r => BadRequest(r)
  }

  /** What a caller writes is a request that parses back, with nothing left over. */
  lemma RequestRoundTrip(addr: seq<byte>, payload: seq<byte>, rest: seq<byte>,
                         addrCapacity: nat, capacity: nat)
    requires |addr| < TWO32 && |payload| < TWO32 && |addr| <= addrCapacity && |payload| <= capacity
    ensures ParseRequest(Frame(addr) + Frame(payload) + rest, addrCapacity, capacity) == Request(addr, payload, rest)
  {
    assert Frame(addr) + Frame(payload) + rest == Frame(addr) + (Frame(payload) + rest);
    FrameRoundTripIff(addr, Frame(payload) + rest, addrCapacity);
    FrameRoundTripIff(payload, rest, capacity);
  }

  /** Take a request from the client, make the same call to the server with the same buffer,
      and pass the reply back.  The client sees nothing of a call that fails. */
  method ProxyRPC(addr: array<byte>, cliConn: Conn, srvConn: Conn, b: array<byte>) returns (r: RpcResult)
    requires addr != b && cliConn.rd != cliConn.wr && srvConn.rd != srvConn.wr
    requires {cliConn.rd, cliConn.wr} !! {srvConn.rd, srvConn.wr}
    modifies cliConn.rd, cliConn.wr, srvConn.rd, srvConn.wr, addr, b
    ensures var q := ParseRequest(old(cliConn.rd.data), addr.Length, b.Length);
            if q.BadRequest? then
              r == ReadFailed(q.r)
              && cliConn.wr.data == old(cliConn.wr.data) && srvConn.wr.data == old(srvConn.wr.data)
            else
              r == ReplyOutcome(old(srvConn.rd.data), |q.payload|)
              && srvConn.wr.data == old(srvConn.wr.data) + Frame(q.addr) + Frame(q.payload)
              && cliConn.wr.data == old(cliConn.wr.data) +
                   (if r == RpcOk then Frame(old(srvConn.rd.data)[4..4 + |q.payload|]) else [])
              && (r == RpcOk ==> cliConn.rd.data == q.rest
                                 && srvConn.rd.data == old(srvConn.rd.data)[4 + |q.payload|..])
  {
    var addrNByte := ReadFrameInto(cliConn.rd, addr, addr.Length);
    if !addrNByte.Read? {
      return ReadFailed(addrNByte);
    }
    var nbyte := ReadFrameInto(cliConn.rd, b, b.Length);
    if !nbyte.Read? {
      return ReadFailed(nbyte);
    }
    ghost var q := ParseRequest(old(cliConn.rd.data), addr.Length, b.Length);
    assert addr[..addrNByte.n] == q.addr && b[..nbyte.n] == q.payload;
    r := ClientRPC(addr[..addrNByte.n], srvConn, b, nbyte.n);
    if r != RpcOk {
      return;
    }
    assert b[..nbyte.n] == old(srvConn.rd.data)[4..4 + nbyte.n];
    WriteFrame(cliConn.wr, b[..nbyte.n]);
  }

  /** Take a request and answer with its payload. */
  method ServeRPC(addr: array<byte>, conn: Conn, b: array<byte>) returns (r: RpcResult, addrNByte: nat, nbyte: nat)
    requires addr != b && conn.rd != conn.wr
    modifies conn.rd, conn.wr, addr, b
    ensures var q := ParseRequest(old(conn.rd.data), addr.Length, b.Length);
            if q.BadRequest? then
              r == ReadFailed(q.r) && addrNByte == nbyte == 0 && conn.wr.data == old(conn.wr.data)
            else
              r == RpcOk && addrNByte == |q.addr| && nbyte == |q.payload|
              && conn.wr.data == old(conn.wr.data) + Frame(q.payload) && conn.rd.data == q.rest
  {
    var an := ReadFrameInto(conn.rd, addr, addr.Length);
    if !an.Read? {
      return ReadFailed(an), 0, 0;
    }
    var n := ReadFrameInto(conn.rd, b, b.Length);
    if !n.Read? {
      return ReadFailed(n), 0, 0;
    }
    assert b[..n.n] == ParseRequest(old(conn.rd.data), addr.Length, b.Length).payload;
    WriteFrame(conn.wr, b[..n.n]);
    return RpcOk, an.n, n.n;
  }
}
