/** At no moment can client and server tell that there is a proxy between them: whatever state
    the two are in, they could be in it, connected directly. */
module ProxySimulation {
  import opened Options
  import opened Frames
  import opened ProxyMachines
  import opened ProxyRuns

  /** Nothing is read that was not written. */
  ghost predicate Sane(w: World) {
    InBounds(w.c2p) && InBounds(w.p2c) && InBounds(w.p2s) && InBounds(w.s2p)
  }

  predicate InBounds(ch: Chan) { ch.taken <= |ch.sent| }

  lemma ClientSane(c: Client, req: Chan, rep: Chan)
    requires StepClient(c, req, rep).Some? && InBounds(req) && InBounds(rep)
    ensures var (_, a, b) := StepClient(c, req, rep).value; InBounds(a) && InBounds(b)
  {
    hide LittleEndian, FromLittleEndian, Uint32, Fill;
  }

  lemma ServerSane(s: Server, req: Chan, rep: Chan)
    requires StepServer(s, req, rep).Some? && InBounds(req) && InBounds(rep)
    ensures var (_, a, b) := StepServer(s, req, rep).value; InBounds(a) && InBounds(b)
  {
    hide LittleEndian, FromLittleEndian, Uint32, Fill;
  }

  lemma ProxyClientSane(p: Proxy, req: Chan, rep: Chan)
    requires StepProxyClient(p, req, rep).Some? && InBounds(req) && InBounds(rep)
    ensures var (_, a, b) := StepProxyClient(p, req, rep).value; InBounds(a) && InBounds(b)
  {
    hide LittleEndian, FromLittleEndian, Uint32, Fill;
  }

  lemma ProxyServerSane(p: Proxy, req: Chan, rep: Chan)
    requires StepProxyServer(p, req, rep).Some? && InBounds(req) && InBounds(rep)
    ensures var (_, a, b) := StepProxyServer(p, req, rep).value; InBounds(a) && InBounds(b)
  {
    hide LittleEndian, FromLittleEndian, Uint32, Fill;
  }

  lemma SaneNext(w: World, w': World)
    requires Sane(w) && Next(w, w')
    ensures Sane(w')
  {
    hide StepClient, StepServer, StepProxyClient, StepProxyServer;
    if StepClient(w.c, w.c2p, w.p2c).Some? {
      ClientSane(w.c, w.c2p, w.p2c);
    }
    if StepServer(w.s, w.p2s, w.s2p).Some? {
      ServerSane(w.s, w.p2s, w.s2p);
    }
    if StepProxyClient(w.p, w.c2p, w.p2c).Some? {
      ProxyClientSane(w.p, w.c2p, w.p2c);
    }
    if StepProxyServer(w.p, w.p2s, w.s2p).Some? {
      ProxyServerSane(w.p, w.p2s, w.s2p);
    }
  }

  /** The same two machines, and the same bytes written and read, without the proxy. */
  ghost predicate Matches(w: World, v: Pair) {
    && v.c == w.c && v.s == w.s
    && v.c2s == Chan(w.c2p.sent, w.p2s.taken) && v.s2c == Chan(w.s2p.sent, w.p2c.taken)
  }

  /** Of two channels the second holds what the first does, and perhaps more. */
  ghost predicate HoldsMore(a: Chan, b: Chan) {
    a.taken == b.taken && a.sent <= b.sent
  }

  lemma MoreToRead(a: Chan, b: Chan, k: nat)
    requires HoldsMore(a, b) && a.Ready(k)
    ensures b.Ready(k) && b.Peek(k) == a.Peek(k)
  {
  }

  /** A machine that can move with less input makes the same move with more. */
  lemma ClientSame(c: Client, req: Chan, rep: Chan, req': Chan, rep': Chan)
    requires StepClient(c, req, rep).Some? && HoldsMore(rep, rep') && req'.sent == req.sent
    ensures StepClient(c, req', rep').Some?
    ensures var (d, a, b) := StepClient(c, req, rep).value; var (d', a', b') := StepClient(c, req', rep').value;
            d' == d && a'.sent == a.sent && a'.taken == req'.taken && b'.taken == b.taken && b'.sent == rep'.sent
            && b.sent == rep.sent && a.taken == req.taken
  {
    hide LittleEndian, FromLittleEndian, Uint32, Fill;
    if c.pc == CGetLen {
      MoreToRead(rep, rep', 4);
    } else if c.pc.CGetBuf? {
      MoreToRead(rep, rep', c.pc.n);
    }
  }

  lemma ServerSame(s: Server, req: Chan, rep: Chan, req': Chan, rep': Chan)
    requires StepServer(s, req, rep).Some? && HoldsMore(req, req') && rep'.sent == rep.sent
    ensures StepServer(s, req', rep').Some?
    ensures var (d, a, b) := StepServer(s, req, rep).value; var (d', a', b') := StepServer(s, req', rep').value;
            d' == d && a'.taken == a.taken && a'.sent == req'.sent && b'.sent == b.sent && b'.taken == rep'.taken
            && a.sent == req.sent && b.taken == rep.taken
  {
    hide LittleEndian, FromLittleEndian, Uint32, Fill;
    match s.pc
    case SGetN => MoreToRead(req, req', 4);
    case SAddrLen => MoreToRead(req, req', 4);
    case SLen => MoreToRead(req, req', 4);
    case SAddr(n) => MoreToRead(req, req', n);
    case SBuf(n) => MoreToRead(req, req', n);
    case _ =>
  }

  /** Who has read no more pieces than were written has passed on a part of them. */
  lemma PassedOn(u: Setup, request: bool, wrote: nat, read: nat, sent: nat)
    requires u.Encodable() && sent <= read && |Pieces(u, request, read)| <= |Pieces(u, request, wrote)|
    ensures Pieces(u, request, sent) <= Pieces(u, request, wrote)
  {
    if sent <= wrote {
      PiecesPrefix(u, request, sent, wrote);
    } else {
      PiecesPrefix(u, request, wrote, sent);
      PiecesPrefix(u, request, sent, read);
    }
  }

  /** The proxy is never ahead of those it serves. */
  lemma ProxyNotAhead(u: Setup, w: World)
    requires u.Fits() && Inv(u, w) && Sane(w)
    ensures w.p2s.sent <= w.c2p.sent && w.p2c.sent <= w.s2p.sent
  {
    hide Pieces, ClientOk, ProxyOk, ServerOk;
    PassedOn(u, true, ClientWrote(w.c), ProxyRead(w.p), ProxySent(w.p));
    PassedOn(u, false, ServerWrote(w.s), ProxyGot(w.p), ProxyReplied(w.p));
  }

  /** Every step through the proxy is the same step without it, or, if it is the proxy's, none. */
  lemma StepSimulated(u: Setup, w: World, w': World, v: Pair) returns (v': Pair)
    requires u.Fits() && Inv(u, w) && Sane(w) && Next(w, w') && Matches(w, v)
    ensures Matches(w', v') && (v' == v || PairNext(v, v'))
  {
    hide Inv, StepClient, StepServer, StepProxyClient, StepProxyServer;
    ProxyNotAhead(u, w);
    v' := v;
    if StepClient(w.c, w.c2p, w.p2c).Some? {
      var (c, a, b) := StepClient(w.c, w.c2p, w.p2c).value;
      ClientSame(w.c, w.c2p, w.p2c, v.c2s, v.s2c);
      if w' == w.(c := c, c2p := a, p2c := b) {
        var (c', a', b') := StepClient(v.c, v.c2s, v.s2c).value;
        v' := v.(c := c', c2s := a', s2c := b');
        return;
      }
    }
    if StepServer(w.s, w.p2s, w.s2p).Some? {
      var (s, a, b) := StepServer(w.s, w.p2s, w.s2p).value;
      ServerSame(w.s, w.p2s, w.s2p, v.c2s, v.s2c);
      if w' == w.(s := s, p2s := a, s2p := b) {
        var (s', a', b') := StepServer(v.s, v.c2s, v.s2c).value;
        v' := v.(s := s', c2s := a', s2c := b');
        return;
      }
    }
    if StepProxyClient(w.p, w.c2p, w.p2c).Some? {
      ProxyTouchesLittle(w.p, w.c2p, w.p2c, w.p2s, w.s2p);
    }
    if StepProxyServer(w.p, w.p2s, w.s2p).Some? {
      ProxyTouchesLittle(w.p, w.c2p, w.p2c, w.p2s, w.s2p);
    }
  }

  /** The proxy only reads what it is sent, and only writes what is read from it. */
  lemma ProxyTouchesLittle(p: Proxy, c2p: Chan, p2c: Chan, p2s: Chan, s2p: Chan)
    ensures StepProxyClient(p, c2p, p2c).Some? ==>
              StepProxyClient(p, c2p, p2c).value.1.sent == c2p.sent
              && StepProxyClient(p, c2p, p2c).value.2.taken == p2c.taken
    ensures StepProxyServer(p, p2s, s2p).Some? ==>
              StepProxyServer(p, p2s, s2p).value.1.taken == p2s.taken
              && StepProxyServer(p, p2s, s2p).value.2.sent == s2p.sent
  {
    hide LittleEndian, FromLittleEndian, Uint32, Fill;
  }

  lemma StartMatches(u: Setup)
    ensures var v := Pair(StartClient(u), StartServer(), Chan([], 0), Chan([], 0));
            Sane(Start(u)) && Matches(Start(u), v) && IsPairRun(u, [v])
  {
  }

  lemma PairRunExtends(u: Setup, vs: seq<Pair>, v: Pair)
    requires IsPairRun(u, vs) && PairNext(vs[|vs| - 1], v)
    ensures IsPairRun(u, vs + [v])
  {
    hide PairNext;
  }

  lemma RunShortens(u: Setup, ws: seq<World>)
    requires IsRun(u, ws) && |ws| > 1
    ensures IsRun(u, ws[..|ws| - 1]) && Next(ws[|ws| - 2], ws[|ws| - 1])
  {
    hide Next, Start;
  }

  /** Whatever state a run through the proxy has reached, a direct run reaches with the same
      client and server, which have written and read the same bytes. */
  lemma {:induction false} EveryStateIsReachedDirectly(u: Setup, ws: seq<World>) returns (vs: seq<Pair>)
    requires u.Fits() && IsRun(u, ws)
    ensures |ws| > 0 && IsPairRun(u, vs) && |vs| > 0
    ensures Sane(ws[|ws| - 1]) && Matches(ws[|ws| - 1], vs[|vs| - 1])
    decreases |ws|
  {
    assert |ws| > 0 && (|ws| == 1 ==> ws[0] == Start(u));
    hide Inv, Next, Start, Sane, Matches, PairNext, IsRun;
    if |ws| == 1 {
      StartMatches(u);
      vs := [Pair(StartClient(u), StartServer(), Chan([], 0), Chan([], 0))];
    } else {
      var init, w, w' := ws[..|ws| - 1], ws[|ws| - 2], ws[|ws| - 1];
      RunShortens(u, ws);
      vs := EveryStateIsReachedDirectly(u, init);
      RunInv(u, init);
      SaneNext(w, w');
      var v := StepSimulated(u, w, w', vs[|vs| - 1]);
      if v != vs[|vs| - 1] {
        PairRunExtends(u, vs, v);
        vs := vs + [v];
      }
    }
  }
}
