/** The step machines do what the calls promise: the steps of server and proxy, taken in
    sequence when all input is there, add up to ServeRPC and ProxyRPC. */
module RpcSteps {
  import opened Options
  import opened Frames
  import opened Rpc
  import opened ProxyMachines

  /** What has been written and not yet read. */
  function Unread(ch: Chan): seq<byte> {
    if ch.taken <= |ch.sent| then ch.sent[ch.taken..] else []
  }

  /** Reading from a channel is reading from what is unread. */
  lemma ReadUnread(ch: Chan, k: nat)
    requires ch.taken <= |ch.sent|
    ensures ch.Ready(k) <==> k <= |Unread(ch)|
    ensures ch.Ready(k) ==> ch.Peek(k) == Unread(ch)[..k] && Unread(ch.Take(k)) == Unread(ch)[k..]
                            && ch.Take(k).taken <= |ch.Take(k).sent|
  {
  }

  lemma PutFrame(ch: Chan, buf: seq<byte>, n: nat)
    requires n <= |buf|
    ensures ch.Put(LittleEndian(Uint32(n))).Put(buf[..n]) == ch.Put(Frame(buf[..n]))
  {
    var a, b := LittleEndian(Uint32(n)), buf[..n];
    assert (ch.sent + a) + b == ch.sent + (a + b);
  }

  // ----- Server -----

  /** Up to k steps. */
  function RunServer(s: Server, req: Chan, rep: Chan, k: nat): (Server, Chan, Chan)
    decreases k
  {
    if k == 0 then (s, req, rep)
    else
      match StepServer(s, req, rep)
      case None => (s, req, rep)
      case Some((s', req', rep')) => RunServer(s', req', rep', k - 1)
  }

  lemma {:induction false} RunServerMore(s: Server, req: Chan, rep: Chan, j: nat, k: nat)
    ensures var (s', req', rep') := RunServer(s, req, rep, j);
            RunServer(s, req, rep, j + k) == RunServer(s', req', rep', k)
    decreases j
  {
    hide StepServer;
    if j > 0 {
      match StepServer(s, req, rep)
      case None =>
      case Some((s', req', rep')) => RunServerMore(s', req', rep', j - 1, k);
    }
  }

  lemma ServerTwoSteps(s: Server, req: Chan, rep: Chan)
    ensures RunServer(s, req, rep, 2) == match StepServer(s, req, rep)
              case None => (s, req, rep)
              case Some((s1, req1, rep1)) =>
                (match StepServer(s1, req1, rep1) case None => (s1, req1, rep1) case Some(next) => next)
  {
    hide StepServer;
    match StepServer(s, req, rep)
    case None =>
    case Some((s1, req1, rep1)) =>
      assert RunServer(s, req, rep, 2) == RunServer(s1, req1, rep1, 1);
      match StepServer(s1, req1, rep1)
      case None =>
      case Some((s2, req2, rep2)) => assert RunServer(s2, req2, rep2, 0) == (s2, req2, rep2);
  }

  /** Two steps read a frame, or fail, or wait. */
  lemma ServerReadsAddr(s: Server, req: Chan, rep: Chan)
    requires s.pc == SAddrLen && req.taken <= |req.sent|
    ensures var (s', req', rep') := RunServer(s, req, rep, 2); var r := ReadOutcome(Unread(req), |s.addr|);
            && rep' == rep
            && (r.Read? ==> req'.taken <= |req'.sent| && Unread(req') == Unread(req)[4 + r.n..]
                            && s'.addrN == r.n <= |s.addr| && s' == s.(pc := SLen, addrN := r.n, addr := s'.addr))
            && (!r.Read? ==> (s'.pc == SFailed <==> r.BufferTooShort?) && s' == s.(pc := s'.pc)
                             && !s'.pc.SDone? && StepServer(s', req', rep') == None)
  {
    hide FromLittleEndian, Fill, Unread, RunServer;
    ServerTwoSteps(s, req, rep);
    ReadUnread(req, 4);
    if req.Ready(4) {
      ReadUnread(req.Take(4), FromLittleEndian(req.Peek(4)));
    }
  }

  lemma ServerReadsBuf(s: Server, req: Chan, rep: Chan)
    requires s.pc == SLen && req.taken <= |req.sent|
    ensures var (s', req', rep') := RunServer(s, req, rep, 2); var r := ReadOutcome(Unread(req), |s.b|);
            && rep' == rep
            && (r.Read? ==> req'.taken <= |req'.sent| && Unread(req') == Unread(req)[4 + r.n..]
                            && s'.bN == r.n <= |s'.b| == |s.b| && s'.b[..r.n] == Unread(req)[4..4 + r.n]
                            && s' == s.(pc := SReplyLen, bN := r.n, b := s'.b))
            && (!r.Read? ==> (s'.pc == SFailed <==> r.BufferTooShort?) && s' == s.(pc := s'.pc)
                             && !s'.pc.SDone? && StepServer(s', req', rep') == None)
  {
    hide FromLittleEndian, Fill, Unread, RunServer;
    ServerTwoSteps(s, req, rep);
    ReadUnread(req, 4);
    if req.Ready(4) {
      ReadUnread(req.Take(4), FromLittleEndian(req.Peek(4)));
    }
  }

  lemma ServerReplySteps(s: Server, req: Chan, rep: Chan)
    requires s.pc == SReplyLen && s.bN <= |s.b|
    ensures RunServer(s, req, rep, 2) ==
            (ServerLoop(s.(i := s.i + 1, n := s.n + s.bN + s.addrN, pc := SReplyBuf)), req, rep.Put(Frame(s.b[..s.bN])))
  {
    hide RunServer, Frame, LittleEndian, Uint32;
    ServerTwoSteps(s, req, rep);
    PutFrame(rep, s.b, s.bN);
  }

  /** Six steps of the server are one call of ServeRPC: a request that parses is answered with
      its payload and counted; one that does not is not answered.  A frame that is too long
      fails the server; where the call would report a short stream, the machine waits. */
  lemma ServerStepsServe(s: Server, req: Chan, rep: Chan)
    requires s.pc == SAddrLen && req.taken <= |req.sent|
    ensures var q := ParseRequest(Unread(req), |s.addr|, |s.b|);
            var (s', req', rep') := RunServer(s, req, rep, 6);
            if q.BadRequest? then
              rep' == rep && s'.i == s.i && s'.n == s.n && (s'.pc == SFailed <==> q.r.BufferTooShort?)
            else
              rep' == rep.Put(Frame(q.payload)) && Unread(req') == q.rest
              && s'.i == s.i + 1 && s'.n == s.n + |q.payload| + |q.addr|
              && s'.pc == if s.i + 1 < s.nrpc then SAddrLen else SDone
  {
    hide RunServer, StepServer, Unread, Frame;
    RunServerMore(s, req, rep, 2, 4);
    ServerReadsAddr(s, req, rep);
    var (s1, req1, rep1) := RunServer(s, req, rep, 2);
    if ReadOutcome(Unread(req), |s.addr|).Read? {
      RunServerMore(s1, req1, rep1, 2, 2);
      ServerReadsBuf(s1, req1, rep1);
      var (s2, req2, rep2) := RunServer(s1, req1, rep1, 2);
      if ReadOutcome(Unread(req1), |s.b|).Read? {
        ServerReplySteps(s2, req2, rep2);
      } else {
        NoMoreSteps(s2, req2, rep2, 2);
      }
    } else {
      NoMoreSteps(s1, req1, rep1, 4);
    }
  }

  lemma NoMoreSteps(s: Server, req: Chan, rep: Chan, k: nat)
    requires StepServer(s, req, rep) == None
    ensures RunServer(s, req, rep, k) == (s, req, rep)
  {
  }

  // ----- Proxy -----

  /** The proxy with its four channels. */
  datatype Relay = Relay(p: Proxy, c2p: Chan, p2c: Chan, p2s: Chan, s2p: Chan)

  /** At every position the proxy faces one side. */
  function StepRelay(w: Relay): Option<Relay> {
    match StepProxyClient(w.p, w.c2p, w.p2c)
    case Some((p, a, b)) => Some(w.(p := p, c2p := a, p2c := b))
    case None =>
      match StepProxyServer(w.p, w.p2s, w.s2p)
      case Some((p, a, b)) => Some(w.(p := p, p2s := a, s2p := b))
      case None => None
  }

  function RunRelay(w: Relay, k: nat): Relay
    decreases k
  {
    if k == 0 then w
    else
      match StepRelay(w)
      case None => w
      case Some(w') => RunRelay(w', k - 1)
  }

  lemma {:induction false} RunRelayMore(w: Relay, j: nat, k: nat)
    ensures RunRelay(w, j + k) == RunRelay(RunRelay(w, j), k)
    decreases j
  {
    hide StepRelay;
    if j > 0 {
      match StepRelay(w)
      case None =>
      case Some(w') => RunRelayMore(w', j - 1, k);
    }
  }

  lemma RelayTwoSteps(w: Relay)
    ensures RunRelay(w, 2) == match StepRelay(w)
              case None => w
              case Some(w1) => (match StepRelay(w1) case None => w1 case Some(w2) => w2)
  {
    hide StepRelay;
    match StepRelay(w)
    case None =>
    case Some(w1) =>
      assert RunRelay(w, 2) == RunRelay(w1, 1);
      match StepRelay(w1)
      case None =>
      case Some(w2) => assert RunRelay(w2, 0) == w2;
  }

  lemma RelayStays(w: Relay, k: nat)
    requires StepRelay(w) == None
    ensures RunRelay(w, k) == w
  {
  }

  lemma RelayReadsAddr(w: Relay)
    requires w.p.pc == PAddrLen && w.c2p.taken <= |w.c2p.sent|
    ensures var w' := RunRelay(w, 2); var r := ReadOutcome(Unread(w.c2p), |w.p.addr|);
            && w' == w.(p := w'.p, c2p := w'.c2p)
            && (r.Read? ==> w'.c2p.taken <= |w'.c2p.sent| && Unread(w'.c2p) == Unread(w.c2p)[4 + r.n..]
                            && r.n <= |w'.p.addr| && w'.p.addr[..r.n] == Unread(w.c2p)[4..4 + r.n]
                            && w'.p == w.p.(pc := PLen, addrN := r.n, addr := w'.p.addr))
            && (!r.Read? ==> StepRelay(w') == None && (w'.p.pc == PFailed <==> r.BufferTooShort?))
  {
    hide FromLittleEndian, Fill, Unread, RunRelay;
    RelayTwoSteps(w);
    ReadUnread(w.c2p, 4);
    if w.c2p.Ready(4) {
      ReadUnread(w.c2p.Take(4), FromLittleEndian(w.c2p.Peek(4)));
    }
  }

  lemma RelayReadsBuf(w: Relay)
    requires w.p.pc == PLen && w.c2p.taken <= |w.c2p.sent|
    ensures var w' := RunRelay(w, 2); var r := ReadOutcome(Unread(w.c2p), |w.p.b|);
            && w' == w.(p := w'.p, c2p := w'.c2p)
            && (r.Read? ==> Unread(w'.c2p) == Unread(w.c2p)[4 + r.n..]
                            && r.n <= |w'.p.b| && w'.p.b[..r.n] == Unread(w.c2p)[4..4 + r.n]
                            && w'.p == w.p.(pc := PSendAddrLen, bN := r.n, b := w'.p.b))
            && (!r.Read? ==> StepRelay(w') == None && (w'.p.pc == PFailed <==> r.BufferTooShort?))
  {
    hide FromLittleEndian, Fill, Unread, RunRelay;
    RelayTwoSteps(w);
    ReadUnread(w.c2p, 4);
    if w.c2p.Ready(4) {
      ReadUnread(w.c2p.Take(4), FromLittleEndian(w.c2p.Peek(4)));
    }
  }

  lemma RelaySendsAddr(w: Relay)
    requires w.p.pc == PSendAddrLen && w.p.addrN <= |w.p.addr|
    ensures RunRelay(w, 2) == w.(p := w.p.(pc := PSendLen), p2s := w.p2s.Put(Frame(w.p.addr[..w.p.addrN])))
  {
    hide RunRelay, Frame, LittleEndian, Uint32;
    RelayTwoSteps(w);
    PutFrame(w.p2s, w.p.addr, w.p.addrN);
  }

  lemma RelaySendsBuf(w: Relay)
    requires w.p.pc == PSendLen && w.p.bN <= |w.p.b|
    ensures RunRelay(w, 2) == w.(p := w.p.(pc := PGetLen), p2s := w.p2s.Put(Frame(w.p.b[..w.p.bN])))
  {
    hide RunRelay, Frame, LittleEndian, Uint32;
    RelayTwoSteps(w);
    PutFrame(w.p2s, w.p.b, w.p.bN);
  }

  lemma RelaySends(w: Relay)
    requires w.p.pc == PSendAddrLen && w.p.addrN <= |w.p.addr| && w.p.bN <= |w.p.b|
    ensures RunRelay(w, 4) ==
            w.(p := w.p.(pc := PGetLen), p2s := w.p2s.Put(Frame(w.p.addr[..w.p.addrN])).Put(Frame(w.p.b[..w.p.bN])))
  {
    hide RunRelay, Frame;
    RunRelayMore(w, 2, 2);
    RelaySendsAddr(w);
    RelaySendsBuf(RunRelay(w, 2));
  }

  lemma RelayAwaitsReply(w: Relay)
    ensures w.p.pc == PGetLen ==>
              StepRelay(w) ==
                if !w.s2p.Ready(4) then None
                else
                  var m := FromLittleEndian(w.s2p.Peek(4));
                  Some(w.(p := w.p.(pc := if m > w.p.bN then PFailed else PGetBuf(m)), s2p := w.s2p.Take(4)))
    ensures w.p.pc == PFailed ==> StepRelay(w) == None
    ensures w.p.pc.PGetBuf? ==>
              StepRelay(w) ==
                if !w.s2p.Ready(w.p.pc.m) || w.p.pc.m > |w.p.b| then None
                else
                  var b := Fill(w.p.b, w.s2p.Peek(w.p.pc.m));
                  Some(w.(p := w.p.(b := b, pc := if w.p.pc.m != w.p.bN then PFailed else PReplyLen),
                          s2p := w.s2p.Take(w.p.pc.m)))
  {
  }

  lemma RelayGetsReply(w: Relay)
    requires w.p.pc == PGetLen && w.p.bN <= |w.p.b| && w.s2p.taken <= |w.s2p.sent|
    ensures var w' := RunRelay(w, 2); var r := ReplyOutcome(Unread(w.s2p), w.p.bN);
            && w' == w.(p := w'.p, s2p := w'.s2p)
            && (r == RpcOk ==> Unread(w'.s2p) == Unread(w.s2p)[4 + w.p.bN..]
                               && |w'.p.b| == |w.p.b| && w'.p.b[..w.p.bN] == Unread(w.s2p)[4..4 + w.p.bN]
                               && w'.p == w.p.(pc := PReplyLen, b := w'.p.b))
            && (r != RpcOk ==> StepRelay(w') == None
                               && (w'.p.pc == PFailed <==> r.WrongNumBytes? || r == ReadFailed(BufferTooShort)))
  {
    hide FromLittleEndian, Fill, Unread, RunRelay, LittleEndian, Uint32, StepRelay, StepProxyClient, StepProxyServer;
    RelayTwoSteps(w);
    RelayAwaitsReply(w);
    ReadUnread(w.s2p, 4);
    if w.s2p.Ready(4) {
      var m := FromLittleEndian(w.s2p.Peek(4));
      ReadUnread(w.s2p.Take(4), m);
      var w1 := w.(p := w.p.(pc := if m > w.p.bN then PFailed else PGetBuf(m)), s2p := w.s2p.Take(4));
      RelayAwaitsReply(w1);
      RelayAwaitsReply(w1.(p := w1.p.(pc := PFailed)));
      if w1.p.pc.PGetBuf? && w1.s2p.Ready(m) {
        RelayAwaitsReply(w1.(p := w1.p.(b := Fill(w1.p.b, w1.s2p.Peek(m)), pc := PFailed), s2p := w1.s2p.Take(m)));
      }
    }
  }

  lemma RelayReplies(w: Relay)
    requires w.p.pc == PReplyLen && w.p.bN <= |w.p.b|
    ensures RunRelay(w, 2) ==
            w.(p := ProxyLoop(w.p.(i := w.p.i + 1, pc := PReplyBuf)), p2c := w.p2c.Put(Frame(w.p.b[..w.p.bN])))
  {
    hide RunRelay, Frame, LittleEndian, Uint32;
    RelayTwoSteps(w);
    PutFrame(w.p2c, w.p.b, w.p.bN);
  }

  /** Twelve steps of the proxy are one call of ProxyRPC: for a bad request nothing is sent; for
      a good one the request goes to the server, and a reply of the right length to the client. */
  lemma ProxyStepsRelay(w: Relay)
    requires w.p.pc == PAddrLen && w.c2p.taken <= |w.c2p.sent| && w.s2p.taken <= |w.s2p.sent|
    ensures var q := ParseRequest(Unread(w.c2p), |w.p.addr|, |w.p.b|);
            var w' := RunRelay(w, 12);
            if q.BadRequest? then
              w'.p2c == w.p2c && w'.p2s == w.p2s && (w'.p.pc == PFailed <==> q.r.BufferTooShort?)
            else
              var r := ReplyOutcome(Unread(w.s2p), |q.payload|);
              && w'.p2s == w.p2s.Put(Frame(q.addr)).Put(Frame(q.payload)) && Unread(w'.c2p) == q.rest
              && w'.p2c == (if r == RpcOk then w.p2c.Put(Frame(Unread(w.s2p)[4..4 + |q.payload|])) else w.p2c)
              && (r == RpcOk ==> Unread(w'.s2p) == Unread(w.s2p)[4 + |q.payload|..] && w'.p.i == w.p.i + 1
                                 && w'.p.pc == if w.p.i + 1 < w.p.nrpc then PAddrLen else PDone)
              && (w'.p.pc == PFailed <==> r.WrongNumBytes? || r == ReadFailed(BufferTooShort))
  {
    hide RunRelay, StepRelay, Unread, Frame, ReplyOutcome, ParseRequest;
    RunRelayMore(w, 4, 8);
    RelayReadsRequest(w);
    var w1 := RunRelay(w, 4);
    if ParseRequest(Unread(w.c2p), |w.p.addr|, |w.p.b|).Request? {
      RunRelayMore(w1, 4, 4);
      RelaySends(w1);
      RelayFinishes(RunRelay(w1, 4));
    } else {
      RelayStays(w1, 8);
    }
  }

  lemma RelayReadsRequest(w: Relay)
    requires w.p.pc == PAddrLen && w.c2p.taken <= |w.c2p.sent|
    ensures var q := ParseRequest(Unread(w.c2p), |w.p.addr|, |w.p.b|); var w' := RunRelay(w, 4);
            && w' == w.(p := w'.p, c2p := w'.c2p)
            && (q.BadRequest? ==> StepRelay(w') == None && (w'.p.pc == PFailed <==> q.r.BufferTooShort?))
            && (q.Request? ==>
                  Unread(w'.c2p) == q.rest && w'.p.pc == PSendAddrLen && w'.p.i == w.p.i && w'.p.nrpc == w.p.nrpc
                  && w'.p.addrN == |q.addr| <= |w'.p.addr| && w'.p.addr[..w'.p.addrN] == q.addr
                  && w'.p.bN == |q.payload| <= |w'.p.b| && w'.p.b[..w'.p.bN] == q.payload)
  {
    hide RunRelay, StepRelay, Unread;
    RunRelayMore(w, 2, 2);
    RelayReadsAddr(w);
    var w1 := RunRelay(w, 2);
    if ReadOutcome(Unread(w.c2p), |w.p.addr|).Read? {
      RelayReadsBuf(w1);
    } else {
      RelayStays(w1, 2);
    }
  }

  lemma RelayFinishes(w: Relay)
    requires w.p.pc == PGetLen && w.p.bN <= |w.p.b| && w.s2p.taken <= |w.s2p.sent|
    ensures var w' := RunRelay(w, 4); var r := ReplyOutcome(Unread(w.s2p), w.p.bN);
            && w'.p2s == w.p2s && w'.c2p == w.c2p
            && w'.p2c == (if r == RpcOk then w.p2c.Put(Frame(Unread(w.s2p)[4..4 + w.p.bN])) else w.p2c)
            && (r == RpcOk ==> Unread(w'.s2p) == Unread(w.s2p)[4 + w.p.bN..] && w'.p.i == w.p.i + 1
                               && w'.p.pc == if w.p.i + 1 < w.p.nrpc then PAddrLen else PDone)
            && (w'.p.pc == PFailed <==> r.WrongNumBytes? || r == ReadFailed(BufferTooShort))
  {
    hide RunRelay, StepRelay, Unread, Frame;
    RunRelayMore(w, 2, 2);
    RelayGetsReply(w);
    var w1 := RunRelay(w, 2);
    if ReplyOutcome(Unread(w.s2p), w.p.bN) == RpcOk {
      RelayReplies(w1);
    } else {
      RelayStays(w1, 2);
    }
  }
}
