/** Client, proxy and server of the benchmark as step machines.  One step is one operation on
    a stream: a write appends, a read of k bytes is possible once k bytes are there.  A frame
    takes two steps either way, its length and its payload. */
module ProxyMachines {
  import opened Options
  import opened Frames

  const ADDR_CAPACITY := 100
  const BUF_CAPACITY := 10 * 1024 * 1024

  /** One direction of a connection: all bytes ever written, and how many have been read. */
  datatype Chan = Chan(sent: seq<byte>, taken: nat) {
    predicate Ready(k: nat) {
      taken + k <= |sent|
    }

    function Peek(k: nat): (b: seq<byte>)
      requires Ready(k)
      ensures |b| == k
    {
      sent[taken..taken + k]
    }

    function Take(k: nat): Chan {
      this.(taken := taken + k)
    }

    function Put(b: seq<byte>): Chan {
      this.(sent := sent + b)
    }
  }

  /** Fill the first |data| elements of a buffer. */
  function Fill(buf: seq<byte>, data: seq<byte>): (r: seq<byte>)
    requires |data| <= |buf|
    ensures |r| == |buf| && r[..|data|] == data
  {
    data + buf[|data|..]
  }

  // ----- Client -----

  datatype ClientPc = CInform | CAddrLen | CAddr | CLen | CBuf | CGetLen | CGetBuf(n: nat) | CDone | CFailed

  datatype Client = Client(pc: ClientPc, i: nat, nrpc: int, addr: seq<byte>, b: seq<byte>, n: nat)

  function ClientLoop(c: Client): Client {
    c.(pc := if c.i < c.nrpc then CAddrLen else CDone)
  }

  /** The next step, or none if the client must wait or has ended. */
  function StepClient(c: Client, toProxy: Chan, fromProxy: Chan): Option<(Client, Chan, Chan)> {
    match c.pc
    case CInform => Some((ClientLoop(c), toProxy.Put(LittleEndian(Uint32(c.nrpc))), fromProxy))
    case CAddrLen => Some((c.(pc := CAddr), toProxy.Put(LittleEndian(Uint32(|c.addr|))), fromProxy))
    case CAddr => Some((c.(pc := CLen), toProxy.Put(c.addr), fromProxy))
    case CLen => Some((c.(pc := CBuf), toProxy.Put(LittleEndian(Uint32(|c.b|))), fromProxy))
    case CBuf => Some((c.(pc := CGetLen), toProxy.Put(c.b), fromProxy))
    case CGetLen =>
      if !fromProxy.Ready(4) then None
      else
        var n := FromLittleEndian(fromProxy.Peek(4));
        Some((c.(pc := if n > |c.b| then CFailed else CGetBuf(n)), toProxy, fromProxy.Take(4)))
    case CGetBuf(n) =>
      if !fromProxy.Ready(n) || n > |c.b| then None
      else
        var d := c.(b := Fill(c.b, fromProxy.Peek(n)));
        Some((if n != |c.b| then d.(pc := CFailed)
              else ClientLoop(d.(i := c.i + 1, n := c.n + |c.b| + |c.addr|)),
              toProxy, fromProxy.Take(n)))
    case CDone => None
    case CFailed => None
  }

  // ----- Proxy -----

  datatype ProxyPc =
    | PGetN | PInform
    | PAddrLen | PAddr(an: nat) | PLen | PBuf(n: nat)
    | PSendAddrLen | PSendAddr | PSendLen | PSendBuf
    | PGetLen | PGetBuf(m: nat) | PReplyLen | PReplyBuf
    | PDone | PFailed

  datatype Proxy = Proxy(pc: ProxyPc, i: nat, nrpc: nat, addr: seq<byte>, addrN: nat, b: seq<byte>, bN: nat)

  function ProxyLoop(p: Proxy): Proxy {
    p.(pc := if p.i < p.nrpc then PAddrLen else PDone)
  }

  /** A step of the proxy's exchange with the client. */
  function StepProxyClient(p: Proxy, fromClient: Chan, toClient: Chan): Option<(Proxy, Chan, Chan)> {
    match p.pc
    case PGetN =>
      if !fromClient.Ready(4) then None
      else Some((p.(pc := PInform, nrpc := FromLittleEndian(fromClient.Peek(4))), fromClient.Take(4), toClient))
    case PAddrLen =>
      if !fromClient.Ready(4) then None
      else
        var n := FromLittleEndian(fromClient.Peek(4));
        Some((p.(pc := if n > |p.addr| then PFailed else PAddr(n)), fromClient.Take(4), toClient))
    case PAddr(n) =>
      if !fromClient.Ready(n) || n > |p.addr| then None
      else Some((p.(pc := PLen, addr := Fill(p.addr, fromClient.Peek(n)), addrN := n), fromClient.Take(n), toClient))
    case PLen =>
      if !fromClient.Ready(4) then None
      else
        var n := FromLittleEndian(fromClient.Peek(4));
        Some((p.(pc := if n > |p.b| then PFailed else PBuf(n)), fromClient.Take(4), toClient))
    case PBuf(n) =>
      if !fromClient.Ready(n) || n > |p.b| then None
      else Some((p.(pc := PSendAddrLen, b := Fill(p.b, fromClient.Peek(n)), bN := n), fromClient.Take(n), toClient))
    case PReplyLen => Some((p.(pc := PReplyBuf), fromClient, toClient.Put(LittleEndian(Uint32(p.bN)))))
    case PReplyBuf =>
      if p.bN > |p.b| then None
      else Some((ProxyLoop(p.(i := p.i + 1)), fromClient, toClient.Put(p.b[..p.bN])))
    case _ => None
  }

  /** A step of the proxy's exchange with the server. */
  function StepProxyServer(p: Proxy, toServer: Chan, fromServer: Chan): Option<(Proxy, Chan, Chan)> {
    match p.pc
    case PInform => Some((ProxyLoop(p), toServer.Put(LittleEndian(Uint32(p.nrpc))), fromServer))
    case PSendAddrLen => Some((p.(pc := PSendAddr), toServer.Put(LittleEndian(Uint32(p.addrN))), fromServer))
    case PSendAddr =>
      if p.addrN > |p.addr| then None
      else Some((p.(pc := PSendLen), toServer.Put(p.addr[..p.addrN]), fromServer))
    case PSendLen => Some((p.(pc := PSendBuf), toServer.Put(LittleEndian(Uint32(p.bN))), fromServer))
    case PSendBuf =>
      if p.bN > |p.b| then None
      else Some((p.(pc := PGetLen), toServer.Put(p.b[..p.bN]), fromServer))
    case PGetLen =>
      if !fromServer.Ready(4) then None
      else
        var m := FromLittleEndian(fromServer.Peek(4));
        Some((p.(pc := if m > p.bN then PFailed else PGetBuf(m)), toServer, fromServer.Take(4)))
    case PGetBuf(m) =>
      if !fromServer.Ready(m) || m > |p.b| then None
      else
        var q := p.(b := Fill(p.b, fromServer.Peek(m)));
        Some((q.(pc := if m != p.bN then PFailed else PReplyLen), toServer, fromServer.Take(m)))
    case _ => None
  }

  // ----- Server -----

  datatype ServerPc = SGetN | SAddrLen | SAddr(an: nat) | SLen | SBuf(n: nat) | SReplyLen | SReplyBuf | SDone | SFailed

  datatype Server = Server(pc: ServerPc, i: nat, nrpc: nat, addr: seq<byte>, addrN: nat, b: seq<byte>, bN: nat, n: nat)

  function ServerLoop(s: Server): Server {
    s.(pc := if s.i < s.nrpc then SAddrLen else SDone)
  }

  function StepServer(s: Server, fromClient: Chan, toClient: Chan): Option<(Server, Chan, Chan)> {
    match s.pc
    case SGetN =>
      if !fromClient.Ready(4) then None
      else Some((ServerLoop(s.(nrpc := FromLittleEndian(fromClient.Peek(4)))), fromClient.Take(4), toClient))
    case SAddrLen =>
      if !fromClient.Ready(4) then None
      else
        var n := FromLittleEndian(fromClient.Peek(4));
        Some((s.(pc := if n > |s.addr| then SFailed else SAddr(n)), fromClient.Take(4), toClient))
    case SAddr(n) =>
      if !fromClient.Ready(n) || n > |s.addr| then None
      else Some((s.(pc := SLen, addr := Fill(s.addr, fromClient.Peek(n)), addrN := n), fromClient.Take(n), toClient))
    case SLen =>
      if !fromClient.Ready(4) then None
      else
        var n := FromLittleEndian(fromClient.Peek(4));
        Some((s.(pc := if n > |s.b| then SFailed else SBuf(n)), fromClient.Take(4), toClient))
    case SBuf(n) =>
      if !fromClient.Ready(n) || n > |s.b| then None
      else Some((s.(pc := SReplyLen, b := Fill(s.b, fromClient.Peek(n)), bN := n), fromClient.Take(n), toClient))
    case SReplyLen => Some((s.(pc := SReplyBuf), fromClient, toClient.Put(LittleEndian(Uint32(s.bN)))))
    case SReplyBuf =>
      if s.bN > |s.b| then None
      else Some((ServerLoop(s.(i := s.i + 1, n := s.n + s.bN + s.addrN)), fromClient, toClient.Put(s.b[..s.bN])))
    case SDone => None
    case SFailed => None
  }

  // ----- The streams of a fault-free run -----

  /** What the client is started with. */
  datatype Setup = Setup(addr: seq<byte>, payload: seq<byte>, nrpc: int) {
    /** Every number on the wire is a 32-bit number. */
    predicate Encodable() {
      |addr| < TWO32 && |payload| < TWO32 && 0 <= nrpc < TWO32
    }

    /** And if there is a call at all, it fits the buffers of proxy and server. */
    predicate Fits() {
      Encodable() && (nrpc > 0 ==> |addr| <= ADDR_CAPACITY && |payload| <= BUF_CAPACITY)
    }
  }

  /** The pieces that a caller writes: the number of calls, then four per call. */
  function RequestPiece(u: Setup, j: nat): seq<byte>
    requires u.Encodable()
  {
    if j == 0 then LittleEndian(u.nrpc)
    else if j % 4 == 1 then LittleEndian(|u.addr|)
    else if j % 4 == 2 then u.addr
    else if j % 4 == 3 then LittleEndian(|u.payload|)
    else u.payload
  }

  /** The pieces that a server writes: two per call. */
  function ReplyPiece(u: Setup, j: nat): seq<byte>
    requires u.Encodable()
  {
    if j % 2 == 0 then LittleEndian(|u.payload|) else u.payload
  }

  function Piece(u: Setup, request: bool, j: nat): seq<byte>
    requires u.Encodable()
  {
    if request then RequestPiece(u, j) else ReplyPiece(u, j)
  }

  /** The first m pieces. */
  function Pieces(u: Setup, request: bool, m: nat): seq<byte>
    requires u.Encodable()
  {
    if m == 0 then [] else Pieces(u, request, m - 1) + Piece(u, request, m - 1)
  }

  lemma {:induction false} PiecesPrefix(u: Setup, request: bool, r: nat, w: nat)
    requires u.Encodable() && r <= w
    ensures Pieces(u, request, r) <= Pieces(u, request, w)
    decreases w
  {
    if r < w {
      PiecesPrefix(u, request, r, w - 1);
    }
  }

  /** A channel that has been written w pieces and read r pieces. */
  ghost predicate Wrote(u: Setup, request: bool, ch: Chan, w: nat)
    requires u.Encodable()
  {
    ch.sent == Pieces(u, request, w)
  }

  ghost predicate HasRead(u: Setup, request: bool, ch: Chan, r: nat)
    requires u.Encodable()
  {
    ch.taken == |Pieces(u, request, r)|
  }

  /** Whenever as many bytes as the next piece has are there, they are the next piece. */
  lemma ReadPiece(u: Setup, request: bool, ch: Chan, r: nat, w: nat)
    requires u.Encodable() && Wrote(u, request, ch, w) && HasRead(u, request, ch, r)
    requires ch.Ready(|Piece(u, request, r)|)
    ensures ch.Peek(|Piece(u, request, r)|) == Piece(u, request, r)
    ensures HasRead(u, request, ch.Take(|Piece(u, request, r)|), r + 1)
    ensures Wrote(u, request, ch.Take(|Piece(u, request, r)|), w)
  {
    if r + 1 <= w {
      PiecesPrefix(u, request, r + 1, w);
    } else {
      PiecesPrefix(u, request, w, r);
    }
  }

  /** A piece that has been written can be read. */
  lemma PieceReady(u: Setup, request: bool, ch: Chan, r: nat, w: nat)
    requires u.Encodable() && Wrote(u, request, ch, w) && HasRead(u, request, ch, r) && r < w
    ensures ch.Ready(|Piece(u, request, r)|)
  {
    PiecesPrefix(u, request, r + 1, w);
  }

  lemma WritePiece(u: Setup, request: bool, ch: Chan, w: nat)
    requires u.Encodable() && Wrote(u, request, ch, w)
    ensures Wrote(u, request, ch.Put(Piece(u, request, w)), w + 1)
    ensures forall r :: HasRead(u, request, ch, r) ==> HasRead(u, request, ch.Put(Piece(u, request, w)), r)
  {
  }
}
