/** All interleavings of client, proxy and server, and of client and server alone. */
module ProxyRuns {
  import opened Options
  import opened Frames
  import opened ProxyMachines

  // ----- Positions -----

  function ClientPhase(pc: ClientPc): int {
    match pc
    case CInform => -1 case CAddrLen => 0 case CAddr => 1 case CLen => 2 case CBuf => 3
    case CGetLen => 4 case CGetBuf(_) => 5 case CDone => 0 case CFailed => 0
  }

  function ProxyPhase(pc: ProxyPc): int {
    match pc
    case PGetN => -2 case PInform => -1
    case PAddrLen => 0 case PAddr(_) => 1 case PLen => 2 case PBuf(_) => 3
    case PSendAddrLen => 4 case PSendAddr => 5 case PSendLen => 6 case PSendBuf => 7
    case PGetLen => 8 case PGetBuf(_) => 9 case PReplyLen => 10 case PReplyBuf => 11
    case PDone => 0 case PFailed => 0
  }

  function ServerPhase(pc: ServerPc): int {
    match pc
    case SGetN => -1 case SAddrLen => 0 case SAddr(_) => 1 case SLen => 2 case SBuf(_) => 3
    case SReplyLen => 4 case SReplyBuf => 5 case SDone => 0 case SFailed => 0
  }

  /** k, kept within 0..n. */
  function Within(k: int, n: nat): (c: nat)
    ensures c <= n && (0 <= k <= n ==> c == k)
  {
    if k < 0 then 0 else if k > n then n else k
  }

  // pieces written and read so far, as functions of the position
  function ClientWrote(c: Client): nat { if c.pc == CInform then 0 else 1 + 4 * c.i + Within(ClientPhase(c.pc), 4) }
  function ClientRead(c: Client): nat { 2 * c.i + Within(ClientPhase(c.pc) - 4, 2) }
  function ProxyRead(p: Proxy): nat { if p.pc == PGetN then 0 else 1 + 4 * p.i + Within(ProxyPhase(p.pc), 4) }
  function ProxySent(p: Proxy): nat {
    if p.pc == PGetN || p.pc == PInform then 0 else 1 + 4 * p.i + Within(ProxyPhase(p.pc) - 4, 4)
  }
  function ProxyGot(p: Proxy): nat { 2 * p.i + Within(ProxyPhase(p.pc) - 8, 2) }
  function ProxyReplied(p: Proxy): nat { 2 * p.i + Within(ProxyPhase(p.pc) - 10, 2) }
  function ServerRead(s: Server): nat { if s.pc == SGetN then 0 else 1 + 4 * s.i + Within(ServerPhase(s.pc), 4) }
  function ServerWrote(s: Server): nat { 2 * s.i + Within(ServerPhase(s.pc) - 4, 2) }

  // ----- What each machine keeps -----

  ghost predicate ClientOk(u: Setup, c: Client) {
    && c.nrpc == u.nrpc && c.addr == u.addr && c.b == u.payload
    && c.i <= u.nrpc && c.pc != CFailed
    && (c.pc == CInform ==> c.i == 0)
    && (c.pc == CDone ==> c.i == u.nrpc)
    && (c.pc != CDone && c.pc != CInform ==> c.i < u.nrpc)
    && (c.pc.CGetBuf? ==> c.pc.n == |u.payload|)
    && c.n == c.i * (|u.payload| + |u.addr|)
  }

  ghost predicate ProxyOk(u: Setup, p: Proxy) {
    && |p.addr| == ADDR_CAPACITY && |p.b| == BUF_CAPACITY
    && p.i <= u.nrpc && p.pc != PFailed
    && (p.pc != PGetN ==> p.nrpc == u.nrpc)
    && (p.pc == PGetN || p.pc == PInform ==> p.i == 0)
    && (p.pc == PDone ==> p.i == u.nrpc)
    && (ProxyPhase(p.pc) >= 0 && p.pc != PDone ==> p.i < u.nrpc)
    && (p.pc.PAddr? ==> p.pc.an == |u.addr|)
    && (p.pc.PBuf? ==> p.pc.n == |u.payload|)
    && (p.pc.PGetBuf? ==> p.pc.m == |u.payload|)
    && (ProxyPhase(p.pc) >= 2 ==> p.addrN == |u.addr| <= |p.addr| && p.addr[..p.addrN] == u.addr)
    && (ProxyPhase(p.pc) >= 4 ==> p.bN == |u.payload| <= |p.b| && p.b[..p.bN] == u.payload)
  }

  ghost predicate ServerOk(u: Setup, s: Server) {
    && |s.addr| == ADDR_CAPACITY && |s.b| == BUF_CAPACITY
    && s.i <= u.nrpc && s.pc != SFailed
    && (s.pc != SGetN ==> s.nrpc == u.nrpc)
    && (s.pc == SGetN ==> s.i == 0)
    && (s.pc == SDone ==> s.i == u.nrpc)
    && (ServerPhase(s.pc) >= 0 && s.pc != SDone ==> s.i < u.nrpc)
    && (s.pc.SAddr? ==> s.pc.an == |u.addr|)
    && (s.pc.SBuf? ==> s.pc.n == |u.payload|)
    && (ServerPhase(s.pc) >= 2 ==> s.addrN == |u.addr| <= |s.addr| && s.addr[..s.addrN] == u.addr)
    && (ServerPhase(s.pc) >= 4 ==> s.bN == |u.payload| <= |s.b| && s.b[..s.bN] == u.payload)
    && s.n == s.i * (|u.payload| + |u.addr|)
  }

  /** The client next to its two channels; the other ends may stand anywhere. */
  ghost predicate ClientAt(u: Setup, c: Client, req: Chan, rep: Chan)
    requires u.Fits()
  {
    ClientOk(u, c) && Wrote(u, true, req, ClientWrote(c)) && HasRead(u, false, rep, ClientRead(c))
  }

  ghost predicate ProxyAt(u: Setup, p: Proxy, c2p: Chan, p2c: Chan, p2s: Chan, s2p: Chan)
    requires u.Fits()
  {
    && ProxyOk(u, p)
    && HasRead(u, true, c2p, ProxyRead(p)) && Wrote(u, false, p2c, ProxyReplied(p))
    && Wrote(u, true, p2s, ProxySent(p)) && HasRead(u, false, s2p, ProxyGot(p))
  }

  ghost predicate ServerAt(u: Setup, s: Server, req: Chan, rep: Chan)
    requires u.Fits()
  {
    ServerOk(u, s) && HasRead(u, true, req, ServerRead(s)) && Wrote(u, false, rep, ServerWrote(s))
  }

  // ----- The reference schedule -----

  // Twenty-four slots per call: when each step would happen if only one machine ran at a time.
  function ClientTime(c: Client): int {
    if c.pc == CInform then -4
    else 24 * c.i + (if ClientPhase(c.pc) < 4 then ClientPhase(c.pc) else ClientPhase(c.pc) + 18)
  }

  function ProxyTime(p: Proxy): int {
    var k := ProxyPhase(p.pc);
    if p.pc == PGetN then -3
    else if p.pc == PInform then -2
    else 24 * p.i + (if k < 4 then 4 + k else if k < 8 then 4 + k else 10 + k)
  }

  function ServerTime(s: Server): int {
    if s.pc == SGetN then -1 else 24 * s.i + 12 + ServerPhase(s.pc)
  }

  /** Steps taken so far. */
  function ClientSteps(c: Client): int { 6 * c.i + ClientPhase(c.pc) + 1 }
  function ProxySteps(p: Proxy): int { 12 * p.i + ProxyPhase(p.pc) + 2 }
  function ServerSteps(s: Server): int { 6 * s.i + ServerPhase(s.pc) + 1 }

  // ----- One step of one machine -----

  lemma NumbersRoundTrip(u: Setup)
    requires u.Encodable()
    ensures FromLittleEndian(LittleEndian(u.nrpc)) == u.nrpc
    ensures FromLittleEndian(LittleEndian(|u.addr|)) == |u.addr|
    ensures FromLittleEndian(LittleEndian(|u.payload|)) == |u.payload|
    ensures Uint32(u.nrpc) == u.nrpc && Uint32(|u.addr|) == |u.addr| && Uint32(|u.payload|) == |u.payload|
  {
    LittleEndianRoundTrip(u.nrpc);
    LittleEndianRoundTrip(|u.addr|);
    LittleEndianRoundTrip(|u.payload|);
  }

  /** The client's next step is possible when its piece is there, moves exactly one piece
      through one channel, and keeps the client in place. */
  ghost predicate ClientStepOk(u: Setup, c: Client, req: Chan, rep: Chan, w: nat)
    requires u.Fits()
  {
    var step := StepClient(c, req, rep);
    && (c.pc == CDone ==> step == None)
    && (c.pc != CDone && (ClientPhase(c.pc) >= 4 ==> ClientRead(c) < w) ==> step.Some?)
    && (step.Some? ==>
          var (c', req', rep') := step.value;
          && ClientAt(u, c', req', rep') && Wrote(u, false, rep', w) && req'.taken == req.taken
          && ClientSteps(c') == ClientSteps(c) + 1)
  }

  lemma ClientInforms(u: Setup, c: Client, req: Chan, rep: Chan, w: nat)
    requires u.Fits() && ClientAt(u, c, req, rep) && Wrote(u, false, rep, w) && c.pc.CInform?
    ensures ClientStepOk(u, c, req, rep, w)
  {
    hide LittleEndian, Uint32, Pieces, Wrote, HasRead, ReplyPiece;
    NumbersRoundTrip(u);
    WritePiece(u, true, req, 0);
  }

  lemma ClientWrites(u: Setup, c: Client, req: Chan, rep: Chan, w: nat)
    requires u.Fits() && ClientAt(u, c, req, rep) && Wrote(u, false, rep, w)
    requires c.pc.CAddrLen? || c.pc.CAddr? || c.pc.CLen? || c.pc.CBuf?
    ensures ClientStepOk(u, c, req, rep, w)
  {
    hide LittleEndian, FromLittleEndian, Uint32, Pieces, Wrote, HasRead, ReplyPiece, Fill, ClientLoop;
    NumbersRoundTrip(u);
    WritePiece(u, true, req, ClientWrote(c));
  }

  lemma ClientGetsReply(u: Setup, c: Client, req: Chan, rep: Chan, w: nat)
    requires u.Fits() && ClientAt(u, c, req, rep) && Wrote(u, false, rep, w) && ClientPhase(c.pc) >= 4
    ensures ClientStepOk(u, c, req, rep, w)
  {
    hide LittleEndian, FromLittleEndian, Uint32, Pieces, Wrote, HasRead, RequestPiece;
    NumbersRoundTrip(u);
    NextRound(u, c.i);
    var r := ClientRead(c);
    if rep.Ready(|Piece(u, false, r)|) {
      ReadPiece(u, false, rep, r, w);
    }
    if r < w {
      PieceReady(u, false, rep, r, w);
    }
  }

  lemma ClientStep(u: Setup, c: Client, req: Chan, rep: Chan, w: nat)
    requires u.Fits() && ClientAt(u, c, req, rep) && Wrote(u, false, rep, w)
    ensures ClientStepOk(u, c, req, rep, w)
  {
    if c.pc.CInform? {
      ClientInforms(u, c, req, rep, w);
    } else if ClientPhase(c.pc) >= 4 {
      ClientGetsReply(u, c, req, rep, w);
    } else if c.pc != CDone {
      ClientWrites(u, c, req, rep, w);
    }
  }

  lemma NextRound(u: Setup, i: nat)
    ensures (i + 1) * (|u.payload| + |u.addr|) == i * (|u.payload| + |u.addr|) + |u.payload| + |u.addr|
  {
  }

  predicate FacesClient(pc: ProxyPc) {
    var k := ProxyPhase(pc);
    pc == PGetN || (0 <= k < 4 && pc != PDone && pc != PFailed) || k >= 10
  }

  /** A step of the proxy towards the client is possible when its piece is there, and keeps
      the proxy in place. */
  ghost predicate ProxyClientStepOk(u: Setup, p: Proxy, c2p: Chan, p2c: Chan, p2s: Chan, s2p: Chan, w: nat)
    requires u.Fits()
  {
    var step := StepProxyClient(p, c2p, p2c);
    && (!FacesClient(p.pc) ==> step == None)
    && (FacesClient(p.pc) && (ProxyPhase(p.pc) < 4 ==> ProxyRead(p) < w) ==> step.Some?)
    && (step.Some? ==>
          var (p', c2p', p2c') := step.value;
          && ProxyAt(u, p', c2p', p2c', p2s, s2p) && Wrote(u, true, c2p', w) && p2c'.taken == p2c.taken
          && ProxySteps(p') == ProxySteps(p) + 1)
  }

  lemma ProxyReadsLength(u: Setup, p: Proxy, c2p: Chan, p2c: Chan, p2s: Chan, s2p: Chan, w: nat)
    requires u.Fits() && ProxyAt(u, p, c2p, p2c, p2s, s2p) && Wrote(u, true, c2p, w)
    requires p.pc.PGetN? || p.pc.PAddrLen? || p.pc.PLen?
    ensures ProxyClientStepOk(u, p, c2p, p2c, p2s, s2p, w)
  {
    hide LittleEndian, FromLittleEndian, Uint32, Pieces, Wrote, HasRead, ReplyPiece;
    NumbersRoundTrip(u);
    var r := ProxyRead(p);
    if c2p.Ready(|Piece(u, true, r)|) {
      ReadPiece(u, true, c2p, r, w);
    }
    if r < w {
      PieceReady(u, true, c2p, r, w);
    }
  }

  lemma ProxyReadsPayload(u: Setup, p: Proxy, c2p: Chan, p2c: Chan, p2s: Chan, s2p: Chan, w: nat)
    requires u.Fits() && ProxyAt(u, p, c2p, p2c, p2s, s2p) && Wrote(u, true, c2p, w)
    requires p.pc.PAddr? || p.pc.PBuf?
    ensures ProxyClientStepOk(u, p, c2p, p2c, p2s, s2p, w)
  {
    hide LittleEndian, FromLittleEndian, Uint32, Pieces, Wrote, HasRead, ReplyPiece, Fill;
    var r := ProxyRead(p);
    if c2p.Ready(|Piece(u, true, r)|) {
      ReadPiece(u, true, c2p, r, w);
    }
    if r < w {
      PieceReady(u, true, c2p, r, w);
    }
  }

  lemma ProxyReplies(u: Setup, p: Proxy, c2p: Chan, p2c: Chan, p2s: Chan, s2p: Chan, w: nat)
    requires u.Fits() && ProxyAt(u, p, c2p, p2c, p2s, s2p) && Wrote(u, true, c2p, w)
    requires p.pc.PReplyLen? || p.pc.PReplyBuf?
    ensures ProxyClientStepOk(u, p, c2p, p2c, p2s, s2p, w)
  {
    hide LittleEndian, Uint32, Pieces, Wrote, HasRead, RequestPiece;
    NumbersRoundTrip(u);
    WritePiece(u, false, p2c, ProxyReplied(p));
  }

  lemma ProxyClientStep(u: Setup, p: Proxy, c2p: Chan, p2c: Chan, p2s: Chan, s2p: Chan, w: nat)
    requires u.Fits() && ProxyAt(u, p, c2p, p2c, p2s, s2p) && Wrote(u, true, c2p, w)
    ensures ProxyClientStepOk(u, p, c2p, p2c, p2s, s2p, w)
  {
    match p.pc
    case PGetN => ProxyReadsLength(u, p, c2p, p2c, p2s, s2p, w);
    case PAddrLen => ProxyReadsLength(u, p, c2p, p2c, p2s, s2p, w);
    case PLen => ProxyReadsLength(u, p, c2p, p2c, p2s, s2p, w);
    case PAddr(_) => ProxyReadsPayload(u, p, c2p, p2c, p2s, s2p, w);
    case PBuf(_) => ProxyReadsPayload(u, p, c2p, p2c, p2s, s2p, w);
    case PReplyLen => ProxyReplies(u, p, c2p, p2c, p2s, s2p, w);
    case PReplyBuf => ProxyReplies(u, p, c2p, p2c, p2s, s2p, w);
    case _ =>
  }

  ghost predicate ProxyServerStepOk(u: Setup, p: Proxy, c2p: Chan, p2c: Chan, p2s: Chan, s2p: Chan, w: nat)
    requires u.Fits()
  {
    var step := StepProxyServer(p, p2s, s2p);
    && (FacesClient(p.pc) || p.pc == PDone ==> step == None)
    && (!FacesClient(p.pc) && p.pc != PDone && (ProxyPhase(p.pc) >= 8 ==> ProxyGot(p) < w) ==> step.Some?)
    && (step.Some? ==>
          var (p', p2s', s2p') := step.value;
          && ProxyAt(u, p', c2p, p2c, p2s', s2p') && Wrote(u, false, s2p', w) && p2s'.taken == p2s.taken
          && ProxySteps(p') == ProxySteps(p) + 1)
  }

  lemma ProxyInforms(u: Setup, p: Proxy, c2p: Chan, p2c: Chan, p2s: Chan, s2p: Chan, w: nat)
    requires u.Fits() && ProxyAt(u, p, c2p, p2c, p2s, s2p) && Wrote(u, false, s2p, w) && p.pc.PInform?
    ensures ProxyServerStepOk(u, p, c2p, p2c, p2s, s2p, w)
  {
    hide LittleEndian, Uint32, Pieces, Wrote, HasRead, ReplyPiece;
    NumbersRoundTrip(u);
    WritePiece(u, true, p2s, 0);
  }

  lemma ProxySendsAddr(u: Setup, p: Proxy, c2p: Chan, p2c: Chan, p2s: Chan, s2p: Chan, w: nat)
    requires u.Fits() && ProxyAt(u, p, c2p, p2c, p2s, s2p) && Wrote(u, false, s2p, w)
    requires p.pc.PSendAddrLen? || p.pc.PSendAddr?
    ensures ProxyServerStepOk(u, p, c2p, p2c, p2s, s2p, w)
  {
    hide LittleEndian, Uint32, Pieces, Wrote, HasRead, ReplyPiece, FromLittleEndian, Fill;
    NumbersRoundTrip(u);
    WritePiece(u, true, p2s, ProxySent(p));
  }

  lemma ProxySendsBuf(u: Setup, p: Proxy, c2p: Chan, p2c: Chan, p2s: Chan, s2p: Chan, w: nat)
    requires u.Fits() && ProxyAt(u, p, c2p, p2c, p2s, s2p) && Wrote(u, false, s2p, w)
    requires p.pc.PSendLen? || p.pc.PSendBuf?
    ensures ProxyServerStepOk(u, p, c2p, p2c, p2s, s2p, w)
  {
    hide LittleEndian, Uint32, Pieces, Wrote, HasRead, ReplyPiece, FromLittleEndian, Fill;
    NumbersRoundTrip(u);
    WritePiece(u, true, p2s, ProxySent(p));
  }

  lemma ProxyGetsReply(u: Setup, p: Proxy, c2p: Chan, p2c: Chan, p2s: Chan, s2p: Chan, w: nat)
    requires u.Fits() && ProxyAt(u, p, c2p, p2c, p2s, s2p) && Wrote(u, false, s2p, w)
    requires p.pc.PGetLen? || p.pc.PGetBuf?
    ensures ProxyServerStepOk(u, p, c2p, p2c, p2s, s2p, w)
  {
    hide LittleEndian, FromLittleEndian, Uint32, Pieces, Wrote, HasRead, RequestPiece, Fill;
    NumbersRoundTrip(u);
    var r := ProxyGot(p);
    if s2p.Ready(|Piece(u, false, r)|) {
      ReadPiece(u, false, s2p, r, w);
    }
    if r < w {
      PieceReady(u, false, s2p, r, w);
    }
  }

  lemma ProxyServerStep(u: Setup, p: Proxy, c2p: Chan, p2c: Chan, p2s: Chan, s2p: Chan, w: nat)
    requires u.Fits() && ProxyAt(u, p, c2p, p2c, p2s, s2p) && Wrote(u, false, s2p, w)
    ensures ProxyServerStepOk(u, p, c2p, p2c, p2s, s2p, w)
  {
    if p.pc.PInform? {
      ProxyInforms(u, p, c2p, p2c, p2s, s2p, w);
    } else if p.pc.PSendAddrLen? || p.pc.PSendAddr? {
      ProxySendsAddr(u, p, c2p, p2c, p2s, s2p, w);
    } else if p.pc.PSendLen? || p.pc.PSendBuf? {
      ProxySendsBuf(u, p, c2p, p2c, p2s, s2p, w);
    } else if p.pc.PGetLen? || p.pc.PGetBuf? {
      ProxyGetsReply(u, p, c2p, p2c, p2s, s2p, w);
    }
  }

  ghost predicate ServerStepOk(u: Setup, s: Server, req: Chan, rep: Chan, w: nat)
    requires u.Fits()
  {
    var step := StepServer(s, req, rep);
    && (s.pc == SDone ==> step == None)
    && (s.pc != SDone && (ServerPhase(s.pc) < 4 ==> ServerRead(s) < w) ==> step.Some?)
    && (step.Some? ==>
          var (s', req', rep') := step.value;
          && ServerAt(u, s', req', rep') && Wrote(u, true, req', w) && rep'.taken == rep.taken
          && ServerSteps(s') == ServerSteps(s) + 1)
  }

  lemma ServerReadsLength(u: Setup, s: Server, req: Chan, rep: Chan, w: nat)
    requires u.Fits() && ServerAt(u, s, req, rep) && Wrote(u, true, req, w)
    requires s.pc.SAddrLen? || s.pc.SLen?
    ensures ServerStepOk(u, s, req, rep, w)
  {
    hide LittleEndian, FromLittleEndian, Uint32, Pieces, Wrote, HasRead, ReplyPiece;
    NumbersRoundTrip(u);
    var r := ServerRead(s);
    if req.Ready(|Piece(u, true, r)|) {
      ReadPiece(u, true, req, r, w);
    }
    if r < w {
      PieceReady(u, true, req, r, w);
    }
  }

  lemma ServerReadsNumber(u: Setup, s: Server, req: Chan, rep: Chan, w: nat)
    requires u.Fits() && ServerAt(u, s, req, rep) && Wrote(u, true, req, w) && s.pc.SGetN?
    ensures ServerStepOk(u, s, req, rep, w)
  {
    hide LittleEndian, FromLittleEndian, Uint32, Pieces, Wrote, HasRead, ReplyPiece;
    NumbersRoundTrip(u);
    if req.Ready(|Piece(u, true, 0)|) {
      ReadPiece(u, true, req, 0, w);
    }
    if 0 < w {
      PieceReady(u, true, req, 0, w);
    }
  }

  lemma ServerReadsPayload(u: Setup, s: Server, req: Chan, rep: Chan, w: nat)
    requires u.Fits() && ServerAt(u, s, req, rep) && Wrote(u, true, req, w)
    requires s.pc.SAddr? || s.pc.SBuf?
    ensures ServerStepOk(u, s, req, rep, w)
  {
    hide LittleEndian, FromLittleEndian, Uint32, Pieces, Wrote, HasRead, ReplyPiece, Fill;
    var r := ServerRead(s);
    if req.Ready(|Piece(u, true, r)|) {
      ReadPiece(u, true, req, r, w);
    }
    if r < w {
      PieceReady(u, true, req, r, w);
    }
  }

  lemma ServerReplies(u: Setup, s: Server, req: Chan, rep: Chan, w: nat)
    requires u.Fits() && ServerAt(u, s, req, rep) && Wrote(u, true, req, w)
    requires s.pc.SReplyLen? || s.pc.SReplyBuf?
    ensures ServerStepOk(u, s, req, rep, w)
  {
    hide LittleEndian, Uint32, Pieces, Wrote, HasRead, RequestPiece;
    NumbersRoundTrip(u);
    WritePiece(u, false, rep, ServerWrote(s));
    NextRound(u, s.i);
  }

  lemma ServerStep(u: Setup, s: Server, req: Chan, rep: Chan, w: nat)
    requires u.Fits() && ServerAt(u, s, req, rep) && Wrote(u, true, req, w)
    ensures ServerStepOk(u, s, req, rep, w)
  {
    match s.pc
    case SGetN => ServerReadsNumber(u, s, req, rep, w);
    case SAddrLen => ServerReadsLength(u, s, req, rep, w);
    case SLen => ServerReadsLength(u, s, req, rep, w);
    case SAddr(_) => ServerReadsPayload(u, s, req, rep, w);
    case SBuf(_) => ServerReadsPayload(u, s, req, rep, w);
    case SReplyLen => ServerReplies(u, s, req, rep, w);
    case SReplyBuf => ServerReplies(u, s, req, rep, w);
    case SDone =>
  }

  // ----- The whole system -----

  datatype World = World(c: Client, p: Proxy, s: Server, c2p: Chan, p2c: Chan, p2s: Chan, s2p: Chan)

  function StartClient(u: Setup): Client {
    Client(CInform, 0, u.nrpc, u.addr, u.payload, 0)
  }

  function ZeroBuffer(n: nat): (b: seq<byte>)
    ensures |b| == n
  {
    seq(n, _ => 0)
  }

  function StartServer(): Server {
    Server(SGetN, 0, 0, ZeroBuffer(ADDR_CAPACITY), 0, ZeroBuffer(BUF_CAPACITY), 0, 0)
  }

  function Start(u: Setup): World {
    var e := Chan([], 0);
    World(StartClient(u), Proxy(PGetN, 0, 0, ZeroBuffer(ADDR_CAPACITY), 0, ZeroBuffer(BUF_CAPACITY), 0),
          StartServer(), e, e, e, e)
  }

  /** Any one machine takes a step. */
  ghost predicate Next(w: World, w': World) {
    || (StepClient(w.c, w.c2p, w.p2c).Some? &&
        var (c, a, b) := StepClient(w.c, w.c2p, w.p2c).value; w' == w.(c := c, c2p := a, p2c := b))
    || (StepProxyClient(w.p, w.c2p, w.p2c).Some? &&
        var (p, a, b) := StepProxyClient(w.p, w.c2p, w.p2c).value; w' == w.(p := p, c2p := a, p2c := b))
    || (StepProxyServer(w.p, w.p2s, w.s2p).Some? &&
        var (p, a, b) := StepProxyServer(w.p, w.p2s, w.s2p).value; w' == w.(p := p, p2s := a, s2p := b))
    || (StepServer(w.s, w.p2s, w.s2p).Some? &&
        var (s, a, b) := StepServer(w.s, w.p2s, w.s2p).value; w' == w.(s := s, p2s := a, s2p := b))
  }

  /** No machine can take a step. */
  ghost predicate Stuck(w: World) {
    forall w' :: !Next(w, w')
  }

  ghost predicate Inv(u: Setup, w: World)
    requires u.Fits()
  {
    && ClientAt(u, w.c, w.c2p, w.p2c)
    && ProxyAt(u, w.p, w.c2p, w.p2c, w.p2s, w.s2p)
    && ServerAt(u, w.s, w.p2s, w.s2p)
  }

  function StepsTaken(w: World): int {
    ClientSteps(w.c) + ProxySteps(w.p) + ServerSteps(w.s)
  }

  lemma StartInv(u: Setup)
    requires u.Fits()
    ensures Inv(u, Start(u)) && StepsTaken(Start(u)) == 0
  {
  }

  /** Every step of every machine keeps the invariant and is counted. */
  lemma NextInv(u: Setup, w: World, w': World)
    requires u.Fits() && Inv(u, w) && Next(w, w')
    ensures Inv(u, w') && StepsTaken(w') == StepsTaken(w) + 1
  {
    hide ClientOk, ProxyOk, ServerOk, StepClient, StepProxyClient, StepProxyServer, StepServer, Pieces;
    ClientStep(u, w.c, w.c2p, w.p2c, ProxyReplied(w.p));
    ProxyClientStep(u, w.p, w.c2p, w.p2c, w.p2s, w.s2p, ClientWrote(w.c));
    ProxyServerStep(u, w.p, w.c2p, w.p2c, w.p2s, w.s2p, ServerWrote(w.s));
    ServerStep(u, w.s, w.p2s, w.s2p, ProxySent(w.p));
  }

  ghost predicate AllDone(w: World) {
    w.c.pc == CDone && w.p.pc == PDone && w.s.pc == SDone
  }

  /** No deadlock: while not all have ended, the machine whose next step comes first in the
      reference schedule can take it. */
  lemma SomeStepPossible(u: Setup, w: World)
    requires u.Fits() && Inv(u, w) && !AllDone(w)
    ensures !Stuck(w)
  {
    hide StepClient, StepProxyClient, StepProxyServer, StepServer, Wrote, HasRead, Stuck;
    var t, v, x := ClientTime(w.c), ProxyTime(w.p), ServerTime(w.s);
    if t <= v && t <= x {
      ClientFirst(u, w.c, w.p, w.s);
      ClientStep(u, w.c, w.c2p, w.p2c, ProxyReplied(w.p));
      ClientMoves(w);
    } else if v <= x {
      ProxyFirst(u, w.c, w.p, w.s);
      RequestBeforeProxy(u, w.c, w.p);
      ReplyBeforeProxy(u, w.p, w.s);
      if FacesClient(w.p.pc) {
        ProxyClientStep(u, w.p, w.c2p, w.p2c, w.p2s, w.s2p, ClientWrote(w.c));
        ProxyMovesForClient(w);
      } else {
        ProxyServerStep(u, w.p, w.c2p, w.p2c, w.p2s, w.s2p, ServerWrote(w.s));
        ProxyMovesForServer(w);
      }
    } else {
      ServerFirst(u, w.c, w.p, w.s);
      ServerStep(u, w.s, w.p2s, w.s2p, ProxySent(w.p));
      ServerMoves(w);
    }
  }

  // The earliest machine is not finished, and what it waits for has been written.

  lemma ClientFirst(u: Setup, c: Client, p: Proxy, s: Server)
    requires ClientOk(u, c) && ProxyOk(u, p) && ServerOk(u, s)
    requires !(c.pc == CDone && p.pc == PDone && s.pc == SDone)
    requires ClientTime(c) <= ProxyTime(p) && ClientTime(c) <= ServerTime(s)
    ensures c.pc != CDone && (ClientPhase(c.pc) >= 4 ==> ClientRead(c) < ProxyReplied(p))
  {
  }

  lemma ProxyFirst(u: Setup, c: Client, p: Proxy, s: Server)
    requires ClientOk(u, c) && ProxyOk(u, p) && ServerOk(u, s)
    requires !(c.pc == CDone && p.pc == PDone && s.pc == SDone)
    requires ProxyTime(p) < ClientTime(c) && ProxyTime(p) <= ServerTime(s)
    ensures p.pc != PDone
  {
  }

  lemma RequestBeforeProxy(u: Setup, c: Client, p: Proxy)
    requires ClientOk(u, c) && ProxyOk(u, p) && ProxyTime(p) < ClientTime(c)
    ensures p.pc != PDone && FacesClient(p.pc) && ProxyPhase(p.pc) < 4 ==> ProxyRead(p) < ClientWrote(c)
  {
  }

  lemma ReplyBeforeProxy(u: Setup, p: Proxy, s: Server)
    requires ProxyOk(u, p) && ServerOk(u, s) && ProxyTime(p) <= ServerTime(s)
    ensures !FacesClient(p.pc) && ProxyPhase(p.pc) >= 8 ==> ProxyGot(p) < ServerWrote(s)
  {
  }

  lemma ServerFirst(u: Setup, c: Client, p: Proxy, s: Server)
    requires ClientOk(u, c) && ProxyOk(u, p) && ServerOk(u, s)
    requires !(c.pc == CDone && p.pc == PDone && s.pc == SDone)
    requires ServerTime(s) < ClientTime(c) && ServerTime(s) < ProxyTime(p)
    ensures s.pc != SDone && (ServerPhase(s.pc) < 4 ==> ServerRead(s) < ProxySent(p))
  {
  }

  lemma ClientMoves(w: World)
    requires StepClient(w.c, w.c2p, w.p2c).Some?
    ensures !Stuck(w)
  {
    var (c, a, b) := StepClient(w.c, w.c2p, w.p2c).value;
    assert Next(w, w.(c := c, c2p := a, p2c := b));
  }

  lemma ProxyMovesForClient(w: World)
    requires StepProxyClient(w.p, w.c2p, w.p2c).Some?
    ensures !Stuck(w)
  {
    var (p, a, b) := StepProxyClient(w.p, w.c2p, w.p2c).value;
    assert Next(w, w.(p := p, c2p := a, p2c := b));
  }

  lemma ProxyMovesForServer(w: World)
    requires StepProxyServer(w.p, w.p2s, w.s2p).Some?
    ensures !Stuck(w)
  {
    var (p, a, b) := StepProxyServer(w.p, w.p2s, w.s2p).value;
    assert Next(w, w.(p := p, p2s := a, s2p := b));
  }

  lemma ServerMoves(w: World)
    requires StepServer(w.s, w.p2s, w.s2p).Some?
    ensures !Stuck(w)
  {
    var (s, a, b) := StepServer(w.s, w.p2s, w.s2p).value;
    assert Next(w, w.(s := s, p2s := a, s2p := b));
  }

  // ----- Runs -----

  /** A run from the start: any machine may move at any time. */
  ghost predicate IsRun(u: Setup, ws: seq<World>) {
    && |ws| > 0 && ws[0] == Start(u)
    && forall k :: 0 <= k < |ws| - 1 ==> Next(ws[k], ws[k + 1])
  }

  lemma {:induction false} RunInv(u: Setup, ws: seq<World>)
    requires u.Fits() && IsRun(u, ws)
    ensures Inv(u, ws[|ws| - 1]) && StepsTaken(ws[|ws| - 1]) == |ws| - 1
    decreases |ws|
  {
    hide Inv, Next, StepsTaken, Start;
    if |ws| == 1 {
      StartInv(u);
    } else {
      var init := ws[..|ws| - 1];
      RunInv(u, init);
      NextInv(u, ws[|ws| - 2], ws[|ws| - 1]);
    }
  }

  /** The streams of a complete exchange, without any proxy in the picture. */
  function AllRequests(u: Setup): seq<byte>
    requires u.Fits()
  {
    Pieces(u, true, 1 + 4 * u.nrpc)
  }

  function AllReplies(u: Setup): seq<byte>
    requires u.Fits()
  {
    Pieces(u, false, 2 * u.nrpc)
  }

  /** They are the number of calls and two frames per call one way, one frame back. */
  lemma StreamsAreFrames(u: Setup, i: nat)
    requires u.Encodable()
    ensures Pieces(u, true, 1) == LittleEndian(u.nrpc)
    ensures Pieces(u, true, 1) ==
            [u.nrpc % 256, u.nrpc / 256 % 256, u.nrpc / 65536 % 256, u.nrpc / 16777216 % 256]
    ensures Pieces(u, true, 1 + 4 * (i + 1)) == Pieces(u, true, 1 + 4 * i) + Frame(u.addr) + Frame(u.payload)
    ensures Pieces(u, false, 2 * (i + 1)) == Pieces(u, false, 2 * i) + Frame(u.payload)
  {
    hide LittleEndian, Pieces;
    LittleEndianBytes(u.nrpc);
    var j := 1 + 4 * i;
    TwoPieces(u, true, j, LittleEndian(|u.addr|), u.addr);
    TwoPieces(u, true, j + 2, LittleEndian(|u.payload|), u.payload);
    TwoPieces(u, false, 2 * i, LittleEndian(|u.payload|), u.payload);
    FirstPiece(u);
  }

  lemma FirstPiece(u: Setup)
    requires u.Encodable()
    ensures Pieces(u, true, 1) == LittleEndian(u.nrpc)
  {
    assert Pieces(u, true, 0) == [];
  }

  lemma TwoPieces(u: Setup, request: bool, m: nat, a: seq<byte>, b: seq<byte>)
    requires u.Encodable() && Piece(u, request, m) == a && Piece(u, request, m + 1) == b
    ensures Pieces(u, request, m + 2) == Pieces(u, request, m) + (a + b)
  {
    hide Piece;
    assert Pieces(u, request, m + 2) == Pieces(u, request, m + 1) + b;
  }

  lemma StepsBounded(u: Setup, w: World)
    requires u.Fits() && Inv(u, w)
    ensures StepsTaken(w) <= 4 + 24 * u.nrpc
  {
    hide Wrote, HasRead;
  }

  lemma FinishedWorld(u: Setup, w: World)
    requires u.Fits() && Inv(u, w) && AllDone(w)
    ensures StepsTaken(w) == 4 + 24 * u.nrpc
    ensures w.c2p == w.p2s == Chan(AllRequests(u), |AllRequests(u)|)
    ensures w.s2p == w.p2c == Chan(AllReplies(u), |AllReplies(u)|)
    ensures w.c.b == u.payload && w.s.n == w.c.n == u.nrpc * (|u.payload| + |u.addr|)
  {
    hide Pieces;
  }

  /** No run is longer than 4 + 24 * nrpc steps, and a run that cannot be continued has ended
      all three loops: nothing is left unread, the proxy has passed on both streams byte for
      byte, the client's buffer is what it was, and the server has counted every byte. */
  lemma EveryRunFinishes(u: Setup, ws: seq<World>)
    requires u.Fits() && IsRun(u, ws)
    ensures |ws| <= 5 + 24 * u.nrpc
    ensures var w := ws[|ws| - 1];
            Stuck(w) ==>
              && AllDone(w) && |ws| == 5 + 24 * u.nrpc
              && w.c2p == w.p2s == Chan(AllRequests(u), |AllRequests(u)|)
              && w.s2p == w.p2c == Chan(AllReplies(u), |AllReplies(u)|)
              && w.c.b == u.payload
              && w.s.n == w.c.n == u.nrpc * (|u.payload| + |u.addr|)
  {
    assert |ws| > 0;
    hide Stuck, IsRun, Inv, StepsTaken, AllRequests, AllReplies, AllDone;
    var w := ws[|ws| - 1];
    RunInv(u, ws);
    StepsBounded(u, w);
    if AllDone(w) {
      FinishedWorld(u, w);
    } else {
      SomeStepPossible(u, w);
    }
  }

  // ----- When the exchange can complete -----

  lemma {:induction false} RunExtends(u: Setup, ws: seq<World>) returns (vs: seq<World>)
    requires u.Fits() && IsRun(u, ws)
    ensures IsRun(u, vs) && AllDone(vs[|vs| - 1])
    decreases 5 + 24 * u.nrpc - |ws|
  {
    hide Inv, Next, Start, AllRequests, AllReplies, AllDone, StepsTaken;
    var w := ws[|ws| - 1];
    RunInv(u, ws);
    if AllDone(w) {
      vs := ws;
    } else {
      SomeStepPossible(u, w);
      var w' :| Next(w, w');
      EveryRunFinishes(u, ws + [w']);
      vs := RunExtends(u, ws + [w']);
    }
  }

  /** A call that does not fit stops the proxy when it has passed on the number of calls and
      nothing else: the server has been told no more than that, the client nothing, and it is
      still in its first call. */
  ghost predicate Refused(u: Setup, w: World)
    requires u.Encodable()
  {
    && RefusedClient(u, w.c, w.c2p) && RefusedProxy(u, w.p, w.c2p) && RefusedServer(u, w.s, w.p2s)
    && w.p2c == Chan([], 0) && w.s2p == Chan([], 0)
    && w.p2s.sent == (if w.p.pc == PGetN || w.p.pc == PInform then [] else LittleEndian(u.nrpc))
  }

  ghost predicate RefusedClient(u: Setup, c: Client, c2p: Chan)
    requires u.Encodable()
  {
    && c.nrpc == u.nrpc && c.addr == u.addr && c.b == u.payload && c.i == 0
    && -1 <= ClientPhase(c.pc) <= 4 && c.pc != CDone && c.pc != CFailed
    && Wrote(u, true, c2p, ClientWrote(c))
  }

  ghost predicate RefusedProxy(u: Setup, p: Proxy, c2p: Chan)
    requires u.Encodable()
  {
    && |p.addr| == ADDR_CAPACITY && |p.b| == BUF_CAPACITY && p.i == 0
    && (p.pc == PFailed || (-2 <= ProxyPhase(p.pc) <= 2 && p.pc != PDone))
    && (p.pc != PFailed ==> HasRead(u, true, c2p, ProxyRead(p)))
    && (p.pc != PGetN ==> p.nrpc == u.nrpc)
    && (p.pc.PAddr? ==> p.pc.an == |u.addr|)
    && (p.pc.PAddr? || p.pc.PLen? ==> |u.addr| <= ADDR_CAPACITY)
  }

  ghost predicate RefusedServer(u: Setup, s: Server, p2s: Chan)
    requires u.Encodable()
  {
    && s.i == 0 && s.n == 0
    && (s.pc == SGetN || (s.pc == SAddrLen && s.nrpc == u.nrpc))
    && p2s.taken == if s.pc == SGetN then 0 else 4
  }

  /** Every step brings one of the three further. */
  function RefusedSteps(w: World): int {
    ClientPhase(w.c.pc) + 1 + (if w.p.pc == PFailed then 5 else ProxyPhase(w.p.pc) + 2)
    + (if w.s.pc == SGetN then 0 else 1)
  }

  lemma RefusedNext(u: Setup, w: World, w': World)
    requires u.Encodable() && !u.Fits() && Refused(u, w) && Next(w, w')
    ensures Refused(u, w') && RefusedSteps(w') > RefusedSteps(w)
  {
    hide StepClient, StepProxyClient, StepProxyServer, StepServer, Refused, RefusedSteps;
    if StepClient(w.c, w.c2p, w.p2c).Some? {
      RefusedClientMoves(u, w);
    }
    if StepProxyClient(w.p, w.c2p, w.p2c).Some? {
      RefusedProxyMoves(u, w);
    }
    if StepProxyServer(w.p, w.p2s, w.s2p).Some? {
      RefusedProxyInforms(u, w);
    }
    if StepServer(w.s, w.p2s, w.s2p).Some? {
      RefusedServerMoves(u, w);
    }
  }

  lemma RefusedClientMoves(u: Setup, w: World)
    requires u.Encodable() && !u.Fits() && Refused(u, w) && StepClient(w.c, w.c2p, w.p2c).Some?
    ensures var (c, a, b) := StepClient(w.c, w.c2p, w.p2c).value; var w' := w.(c := c, c2p := a, p2c := b);
            Refused(u, w') && RefusedSteps(w') > RefusedSteps(w)
  {
    hide LittleEndian, FromLittleEndian, Uint32, Pieces, Wrote, HasRead, Fill, RefusedServer, ReplyPiece;
    NumbersRoundTrip(u);
    WritePiece(u, true, w.c2p, ClientWrote(w.c));
  }

  lemma RefusedProxyMoves(u: Setup, w: World)
    requires u.Encodable() && !u.Fits() && Refused(u, w) && StepProxyClient(w.p, w.c2p, w.p2c).Some?
    ensures var (p, a, b) := StepProxyClient(w.p, w.c2p, w.p2c).value; var w' := w.(p := p, c2p := a, p2c := b);
            Refused(u, w') && RefusedSteps(w') > RefusedSteps(w)
  {
    hide LittleEndian, FromLittleEndian, Uint32, Pieces, Wrote, HasRead, Fill, RefusedServer, ReplyPiece;
    NumbersRoundTrip(u);
    RefusedProxyReads(u, w);
  }

  lemma RefusedProxyInforms(u: Setup, w: World)
    requires u.Encodable() && !u.Fits() && Refused(u, w) && StepProxyServer(w.p, w.p2s, w.s2p).Some?
    ensures var (p, a, b) := StepProxyServer(w.p, w.p2s, w.s2p).value; var w' := w.(p := p, p2s := a, s2p := b);
            Refused(u, w') && RefusedSteps(w') > RefusedSteps(w)
  {
    hide LittleEndian, FromLittleEndian, Uint32, Pieces, Wrote, HasRead, Fill, RefusedClient;
    NumbersRoundTrip(u);
  }

  lemma RefusedServerMoves(u: Setup, w: World)
    requires u.Encodable() && !u.Fits() && Refused(u, w) && StepServer(w.s, w.p2s, w.s2p).Some?
    ensures var (s, a, b) := StepServer(w.s, w.p2s, w.s2p).value; var w' := w.(s := s, p2s := a, s2p := b);
            Refused(u, w') && RefusedSteps(w') > RefusedSteps(w)
  {
    hide FromLittleEndian, LittleEndian, Uint32, Pieces, Wrote, HasRead, Fill, RefusedClient, RefusedProxy;
    NumbersRoundTrip(u);
    assert LittleEndian(u.nrpc)[0..4] == LittleEndian(u.nrpc);
  }

  lemma RefusedAtStart(u: Setup)
    requires u.Encodable()
    ensures Refused(u, Start(u)) && RefusedSteps(Start(u)) == 0
  {
  }

  lemma RefusedProxyReads(u: Setup, w: World)
    requires u.Encodable() && Refused(u, w) && w.p.pc != PFailed
    ensures var r := ProxyRead(w.p); var n := |Piece(u, true, r)|;
            w.c2p.Ready(n) ==> w.c2p.Peek(n) == Piece(u, true, r)
                               && HasRead(u, true, w.c2p.Take(n), r + 1)
                               && Wrote(u, true, w.c2p.Take(n), ClientWrote(w.c))
  {
    hide Pieces, Wrote, HasRead;
    var r := ProxyRead(w.p);
    if w.c2p.Ready(|Piece(u, true, r)|) {
      ReadPiece(u, true, w.c2p, r, ClientWrote(w.c));
    }
  }

  /** Until the proxy has failed, the client can write or the proxy can read or inform. */
  lemma RefusedMoves(u: Setup, w: World)
    requires u.Encodable() && !u.Fits() && Refused(u, w) && w.p.pc != PFailed
    ensures !Stuck(w)
  {
    hide LittleEndian, FromLittleEndian, Uint32, Pieces, Wrote, HasRead, Stuck;
    NumbersRoundTrip(u);
    if w.p.pc == PInform {
      ProxyMovesForServer(w);
    } else if ProxyRead(w.p) < ClientWrote(w.c) {
      PieceReady(u, true, w.c2p, ProxyRead(w.p), ClientWrote(w.c));
      ProxyMovesForClient(w);
    } else {
      ClientMoves(w);
    }
  }

  lemma {:induction false} RefusedRun(u: Setup, ws: seq<World>)
    requires u.Encodable() && !u.Fits() && IsRun(u, ws)
    ensures Refused(u, ws[|ws| - 1]) && |ws| - 1 <= RefusedSteps(ws[|ws| - 1])
    decreases |ws|
  {
    hide Refused, Next, Start, RefusedSteps;
    if |ws| == 1 {
      RefusedAtStart(u);
    } else {
      RefusedRun(u, ws[..|ws| - 1]);
      RefusedNext(u, ws[|ws| - 2], ws[|ws| - 1]);
    }
  }

  /** Every run with a call that does not fit ends after a few steps with the proxy failed. */
  lemma OversizeRefused(u: Setup, ws: seq<World>)
    requires u.Encodable() && !u.Fits() && IsRun(u, ws)
    ensures Refused(u, ws[|ws| - 1]) && |ws| <= 12
    ensures Stuck(ws[|ws| - 1]) ==> ws[|ws| - 1].p.pc == PFailed
  {
    hide Stuck, IsRun;
    assert |ws| > 0 by { RunNonempty(u, ws); }
    var w := ws[|ws| - 1];
    RefusedRun(u, ws);
    if w.p.pc != PFailed {
      RefusedMoves(u, w);
    }
  }

  lemma RunNonempty(u: Setup, ws: seq<World>)
    requires IsRun(u, ws)
    ensures |ws| > 0
  {
  }

  // ----- Client and server connected directly -----

  datatype Pair = Pair(c: Client, s: Server, c2s: Chan, s2c: Chan)

  ghost predicate PairNext(w: Pair, w': Pair) {
    || (StepClient(w.c, w.c2s, w.s2c).Some? &&
        var (c, a, b) := StepClient(w.c, w.c2s, w.s2c).value; w' == w.(c := c, c2s := a, s2c := b))
    || (StepServer(w.s, w.c2s, w.s2c).Some? &&
        var (s, a, b) := StepServer(w.s, w.c2s, w.s2c).value; w' == w.(s := s, c2s := a, s2c := b))
  }

  ghost predicate PairStuck(w: Pair) {
    forall w' :: !PairNext(w, w')
  }

  ghost predicate IsPairRun(u: Setup, ws: seq<Pair>) {
    && |ws| > 0 && ws[0] == Pair(StartClient(u), StartServer(), Chan([], 0), Chan([], 0))
    && forall k :: 0 <= k < |ws| - 1 ==> PairNext(ws[k], ws[k + 1])
  }

  ghost predicate PairInv(u: Setup, w: Pair)
    requires u.Fits()
  {
    ClientAt(u, w.c, w.c2s, w.s2c) && ServerAt(u, w.s, w.c2s, w.s2c)
  }

  lemma {:induction false} PairRunInv(u: Setup, ws: seq<Pair>)
    requires u.Fits() && IsPairRun(u, ws)
    ensures PairInv(u, ws[|ws| - 1])
    decreases |ws|
  {
    if |ws| > 1 {
      hide ClientOk, ServerOk, StepClient, StepServer, Pieces;
      var w := ws[|ws| - 2];
      PairRunInv(u, ws[..|ws| - 1]);
      ClientStep(u, w.c, w.c2s, w.s2c, ServerWrote(w.s));
      ServerStep(u, w.s, w.c2s, w.s2c, ClientWrote(w.c));
      assert PairNext(w, ws[|ws| - 1]);
    }
  }

  lemma PairStepPossible(u: Setup, w: Pair)
    requires u.Fits() && PairInv(u, w) && !(w.c.pc == CDone && w.s.pc == SDone)
    ensures !PairStuck(w)
  {
    hide StepClient, StepServer, Pieces, Wrote, HasRead, ClientOk, ServerOk, ClientTime, ServerTime;
    hide ClientPhase, ServerPhase, ClientRead, ClientWrote, ServerRead, ServerWrote;
    if ClientTime(w.c) <= ServerTime(w.s) {
      PairClientFirst(u, w.c, w.s);
      ClientStep(u, w.c, w.c2s, w.s2c, ServerWrote(w.s));
      var (c, a, b) := StepClient(w.c, w.c2s, w.s2c).value;
      assert PairNext(w, w.(c := c, c2s := a, s2c := b));
    } else {
      PairServerFirst(u, w.c, w.s);
      ServerStep(u, w.s, w.c2s, w.s2c, ClientWrote(w.c));
      var (s, a, b) := StepServer(w.s, w.c2s, w.s2c).value;
      assert PairNext(w, w.(s := s, c2s := a, s2c := b));
    }
  }

  /** Whichever is behind the reference schedule has what it waits for. */
  lemma PairClientFirst(u: Setup, c: Client, s: Server)
    requires ClientOk(u, c) && ServerOk(u, s) && !(c.pc == CDone && s.pc == SDone)
    requires ClientTime(c) <= ServerTime(s)
    ensures c.pc != CDone && (ClientPhase(c.pc) >= 4 ==> ClientRead(c) < ServerWrote(s))
  {
  }

  lemma PairServerFirst(u: Setup, c: Client, s: Server)
    requires ClientOk(u, c) && ServerOk(u, s) && ServerTime(s) < ClientTime(c)
    ensures s.pc != SDone && (ServerPhase(s.pc) < 4 ==> ServerRead(s) < ClientWrote(c))
  {
  }

  lemma PairFinished(u: Setup, v: Pair)
    requires u.Fits() && PairInv(u, v) && PairStuck(v)
    ensures v.c.pc == CDone && v.s.pc == SDone
    ensures v.c2s == Chan(AllRequests(u), |AllRequests(u)|) && v.s2c == Chan(AllReplies(u), |AllReplies(u)|)
  {
    hide PairStuck, Pieces;
    if !(v.c.pc == CDone && v.s.pc == SDone) {
      PairStepPossible(u, v);
    }
  }

  /** The proxy is invisible: whatever the interleavings, a finished run through the proxy and
      a finished direct run leave client and server in the same control states, with the same
      buffer and counts, having written and read the same bytes. */
  lemma ProxyIsInvisible(u: Setup, ws: seq<World>, vs: seq<Pair>)
    requires u.Fits() && IsRun(u, ws) && IsPairRun(u, vs)
    requires Stuck(ws[|ws| - 1]) && PairStuck(vs[|vs| - 1])
    ensures var w, v := ws[|ws| - 1], vs[|vs| - 1];
            && w.c == v.c && w.s.pc == v.s.pc && w.s.i == v.s.i && w.s.n == v.s.n
            && w.c2p == w.p2s == v.c2s && w.p2c == w.s2p == v.s2c
  {
    assert |ws| > 0 && |vs| > 0;
    hide Stuck, PairStuck, Pieces, IsRun, IsPairRun, StepsTaken;
    EveryRunFinishes(u, ws);
    RunInv(u, ws);
    PairRunInv(u, vs);
    PairFinished(u, vs[|vs| - 1]);
  }
}
