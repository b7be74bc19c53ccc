/** When an exchange through the proxy can complete at all, for any number of calls and any
    payload: the number of calls is announced, and every length sent, in 32 bits. */
module ProxyLimits {
  import opened Options
  import opened Frames
  import opened ProxyMachines
  import opened ProxyRuns

  ghost predicate CanComplete(u: Setup) {
    exists ws :: IsRun(u, ws) && AllDone(ws[|ws| - 1])
  }

  /** If there are calls to make, their number is announced as it is and address and payload fit
      the buffers; if there are none, none are announced. */
  predicate Completable(u: Setup) {
    if u.nrpc > 0 then u.nrpc < 4294967296 && |u.addr| <= 100 && |u.payload| <= 10485760
    else u.nrpc % 4294967296 == 0
  }

  // ----- A payload whose length does not fit 32 bits -----

  /** No reply is ever as long as the buffer. */
  ghost predicate InFirstCall(u: Setup, c: Client) {
    && |c.b| == |u.payload| && c.nrpc == u.nrpc && c.i == 0 && c.pc != CDone
    && (c.pc.CGetBuf? ==> c.pc.n < TWO32)
  }

  lemma FirstCallNext(u: Setup, w: World, w': World)
    requires |u.payload| >= TWO32 && u.nrpc > 0 && InFirstCall(u, w.c) && Next(w, w')
    ensures InFirstCall(u, w'.c)
  {
    hide StepProxyClient, StepProxyServer, StepServer, LittleEndian, FromLittleEndian, Uint32;
  }

  lemma {:induction false} LongPayloadStaysInFirstCall(u: Setup, ws: seq<World>)
    requires |u.payload| >= TWO32 && u.nrpc > 0 && IsRun(u, ws)
    ensures InFirstCall(u, ws[|ws| - 1].c)
    decreases |ws|
  {
    if |ws| > 1 {
      hide Next, Start, InFirstCall;
      LongPayloadStaysInFirstCall(u, ws[..|ws| - 1]);
      FirstCallNext(u, ws[|ws| - 2], ws[|ws| - 1]);
    }
  }

  // ----- More calls than 32 bits can announce -----

  /** The bytes of a list of replies. */
  function Replies(l: seq<seq<byte>>): seq<byte> {
    if l == [] then [] else Replies(l[..|l| - 1]) + Frame(l[|l| - 1])
  }

  lemma RepliesExtend(l: seq<seq<byte>>, r: seq<byte>)
    ensures Replies(l + [r]) == Replies(l) + Frame(r)
  {
    assert (l + [r])[..|l|] == l;
  }

  lemma {:induction false} RepliesAt(l: seq<seq<byte>>, k: nat)
    requires k < |l|
    ensures Replies(l[..k]) + Frame(l[k]) == Replies(l[..k + 1]) <= Replies(l)
    decreases |l|
  {
    if k + 1 < |l| {
      var init := l[..|l| - 1];
      RepliesAt(init, k);
      assert init[..k] == l[..k] && init[..k + 1] == l[..k + 1];
    } else {
      assert l[..k + 1] == l && l[..|l| - 1] == l[..k];
    }
  }

  lemma FrameLength(p: seq<byte>)
    ensures |Frame(p)| == 4 + |p| && Frame(p)[..4] == LittleEndian(Uint32(|p|))
    ensures |p| < TWO32 ==> FromLittleEndian(Frame(p)[..4]) == |p|
  {
    LittleEndianRoundTrip(Uint32(|p|));
  }

  /** The proxy stands in one of its announced calls, or before them. */
  ghost predicate ProxyInBounds(p: Proxy) {
    && |p.b| == BUF_CAPACITY && p.nrpc < TWO32
    && (p.pc == PGetN || p.pc == PInform ==> p.i == 0)
    && (p.pc.PReplyLen? || p.pc.PReplyBuf? ==> p.bN <= |p.b|)
    && (p.pc.PSendAddrLen? || p.pc.PSendAddr? || p.pc.PSendLen? || p.pc.PSendBuf? || p.pc.PGetLen? || p.pc.PGetBuf? ==>
          p.bN <= |p.b|)
    && (p.pc == PDone || p.pc == PFailed || p.pc == PGetN || p.pc == PInform || p.i < p.nrpc)
    && (p.pc == PDone ==> p.i <= p.nrpc) && (p.pc == PFailed ==> p.i <= p.nrpc)
  }

  /** The proxy has written these replies, the last of them perhaps only by half. */
  ghost predicate HasReplied(p: Proxy, p2c: Chan, l: seq<seq<byte>>) {
    && |l| == (if p.pc == PReplyBuf then p.i + 1 else p.i)
    && (forall k :: 0 <= k < |l| ==> |l[k]| < TWO32)
    && (p.pc == PReplyBuf ==> p.bN <= |p.b| && l[|l| - 1] == p.b[..p.bN])
    && Replies(l) == p2c.sent + if p.pc == PReplyBuf then p.b[..p.bN] else []
  }

  /** The client has read as many of them as it has completed calls. */
  ghost predicate HasHeard(c: Client, p2c: Chan, l: seq<seq<byte>>) {
    c.pc != CFailed ==>
      && c.i <= |l|
      && (c.pc == CDone ==> c.i >= c.nrpc)
      && (c.pc.CGetBuf? ==> c.i < |l| && c.pc.n == |l[c.i]|)
      && p2c.taken == |Replies(l[..c.i])| + if c.pc.CGetBuf? then 4 else 0
  }

  ghost predicate Tallied(w: World, l: seq<seq<byte>>) {
    ProxyInBounds(w.p) && HasReplied(w.p, w.p2c, l) && HasHeard(w.c, w.p2c, l)
  }

  lemma ClientHears(w: World, l: seq<seq<byte>>)
    requires Tallied(w, l) && StepClient(w.c, w.c2p, w.p2c).Some?
    ensures var (c, a, b) := StepClient(w.c, w.c2p, w.p2c).value; Tallied(w.(c := c, c2p := a, p2c := b), l)
  {
    hide ProxyInBounds, LittleEndian, FromLittleEndian, Uint32, Frame, Replies, Fill;
    if w.c.pc == CGetLen && w.p2c.Ready(4) {
      ReadsHeader(w, l);
    } else if w.c.pc.CGetBuf? {
      ReadsReply(w, l);
    }
  }

  /** Four more bytes are the header of the next reply. */
  lemma ReadsHeader(w: World, l: seq<seq<byte>>)
    requires Tallied(w, l) && w.c.pc == CGetLen && w.p2c.Ready(4)
    ensures w.c.i < |l| && FromLittleEndian(w.p2c.Peek(4)) == |l[w.c.i]|
  {
    hide ProxyInBounds, LittleEndian, FromLittleEndian, Uint32, Frame, Replies;
    var i := w.c.i;
    var all, before := Replies(l), Replies(l[..i]);
    assert l[..|l|] == l;
    if i < |l| {
      RepliesAt(l, i);
      FrameLength(l[i]);
      HeaderIn(all, w.p2c.sent, before, Frame(l[i]));
    }
  }

  lemma HeaderIn(all: seq<byte>, sent: seq<byte>, before: seq<byte>, frame: seq<byte>)
    requires sent <= all && before + frame <= all && |frame| >= 4 && |before| + 4 <= |sent|
    ensures sent[|before|..|before| + 4] == frame[..4]
  {
    assert all[|before|..|before| + 4] == frame[..4];
  }

  lemma ReadsReply(w: World, l: seq<seq<byte>>)
    requires Tallied(w, l) && w.c.pc.CGetBuf?
    ensures w.c.i < |l| && w.c.pc.n == |l[w.c.i]|
    ensures w.p2c.taken + w.c.pc.n == |Replies(l[..w.c.i + 1])|
  {
    RepliesAt(l, w.c.i);
    FrameLength(l[w.c.i]);
  }

  lemma ProxyAnswers(w: World, l: seq<seq<byte>>) returns (l': seq<seq<byte>>)
    requires Tallied(w, l) && StepProxyClient(w.p, w.c2p, w.p2c).Some?
    ensures var (p, a, b) := StepProxyClient(w.p, w.c2p, w.p2c).value; Tallied(w.(p := p, c2p := a, p2c := b), l')
  {
    hide LittleEndian, FromLittleEndian, Uint32, Replies, Fill;
    l' := l;
    if w.p.pc == PReplyLen {
      var r := w.p.b[..w.p.bN];
      l' := l + [r];
      RepliesExtend(l, r);
      assert w.c.pc != CFailed ==> l'[..w.c.i] == l[..w.c.i];
      assert (w.p2c.sent + LittleEndian(Uint32(|r|))) + r == w.p2c.sent + Frame(r);
    } else if w.p.pc == PReplyBuf {
      assert w.p2c.sent + w.p.b[..w.p.bN] + [] == w.p2c.sent + w.p.b[..w.p.bN];
    }
  }

  lemma ProxyCalls(w: World, l: seq<seq<byte>>)
    requires Tallied(w, l) && StepProxyServer(w.p, w.p2s, w.s2p).Some?
    ensures var (p, a, b) := StepProxyServer(w.p, w.p2s, w.s2p).value; Tallied(w.(p := p, p2s := a, s2p := b), l)
  {
    hide LittleEndian, FromLittleEndian, Uint32, Replies, HasHeard, Fill;
  }

  lemma CountedNext(w: World, w': World, l: seq<seq<byte>>) returns (l': seq<seq<byte>>)
    requires Tallied(w, l) && Next(w, w')
    ensures Tallied(w', l')
  {
    hide StepClient, StepProxyClient, StepProxyServer, StepServer, ProxyInBounds, HasReplied, HasHeard;
    l' := l;
    if StepClient(w.c, w.c2p, w.p2c).Some? {
      ClientHears(w, l);
    }
    if StepProxyServer(w.p, w.p2s, w.s2p).Some? {
      ProxyCalls(w, l);
    }
    if StepProxyClient(w.p, w.c2p, w.p2c).Some? {
      var more := ProxyAnswers(w, l);
      var (p, a, b) := StepProxyClient(w.p, w.c2p, w.p2c).value;
      if w' == w.(p := p, c2p := a, p2c := b) {
        l' := more;
      }
    }
  }

  lemma {:induction false} RunCounted(u: Setup, ws: seq<World>) returns (l: seq<seq<byte>>)
    requires IsRun(u, ws)
    ensures Tallied(ws[|ws| - 1], l) && ws[|ws| - 1].c.nrpc == u.nrpc
    decreases |ws|
  {
    if |ws| == 1 {
      l := [];
    } else {
      hide Next, Start, Tallied;
      l := RunCounted(u, ws[..|ws| - 1]);
      l := CountedNext(ws[|ws| - 2], ws[|ws| - 1], l);
      NumberKept(ws[|ws| - 2], ws[|ws| - 1]);
    }
  }

  lemma NumberKept(w: World, w': World)
    requires Next(w, w')
    ensures w'.c.nrpc == w.c.nrpc
  {
    hide StepProxyClient, StepProxyServer, StepServer;
  }

  /** The client cannot complete more calls than the proxy was told of. */
  lemma CallsAreAnnounced(u: Setup, ws: seq<World>)
    requires IsRun(u, ws) && ws[|ws| - 1].c.pc == CDone
    ensures u.nrpc < TWO32
  {
    hide Replies;
    var l := RunCounted(u, ws);
  }

  // ----- Fewer than none -----

  /** A client with a negative number of calls is done at once; if what it announces is another
      number, the proxy waits for the first call. */
  ghost predicate WaitsForNothing(u: Setup, w: World) {
    && w.c.nrpc == u.nrpc && w.p.i == 0
    && ((w.c.pc == CInform && w.c2p == Chan([], 0) && w.p.pc == PGetN)
        || (w.c.pc == CDone && w.c2p.sent == LittleEndian(Uint32(u.nrpc))
            && ((w.p.pc == PGetN && w.c2p.taken == 0)
                || ((w.p.pc == PInform || w.p.pc == PAddrLen) && w.c2p.taken == 4 && w.p.nrpc == Uint32(u.nrpc)))))
  }

  lemma WaitsNext(u: Setup, w: World, w': World)
    requires u.nrpc <= 0 && Uint32(u.nrpc) > 0 && WaitsForNothing(u, w) && Next(w, w')
    ensures WaitsForNothing(u, w')
  {
    hide LittleEndian, FromLittleEndian, Uint32, StepServer;
    LittleEndianRoundTrip(Uint32(u.nrpc));
    assert LittleEndian(Uint32(u.nrpc))[0..4] == LittleEndian(Uint32(u.nrpc));
  }

  lemma {:induction false} RunWaits(u: Setup, ws: seq<World>)
    requires u.nrpc <= 0 && Uint32(u.nrpc) > 0 && IsRun(u, ws)
    ensures WaitsForNothing(u, ws[|ws| - 1])
    decreases |ws|
  {
    if |ws| > 1 {
      hide Next, Start, WaitsForNothing, Uint32;
      RunWaits(u, ws[..|ws| - 1]);
      WaitsNext(u, ws[|ws| - 2], ws[|ws| - 1]);
    }
  }

  /** With no calls to make and none announced, four steps complete the exchange. */
  lemma NothingToDo(u: Setup)
    requires u.nrpc <= 0 && Uint32(u.nrpc) == 0
    ensures CanComplete(u)
  {
    hide LittleEndian, FromLittleEndian, Uint32;
    var zero := LittleEndian(0);
    LittleEndianRoundTrip(0);
    assert zero[0..4] == zero && [] + zero == zero;
    var w0 := Start(u);
    var w1 := w0.(c := w0.c.(pc := CDone), c2p := Chan(zero, 0));
    var w2 := w1.(p := w1.p.(pc := PInform, nrpc := 0), c2p := Chan(zero, 4));
    var w3 := w2.(p := w2.p.(pc := PDone), p2s := Chan(zero, 0));
    var w4 := w3.(s := w3.s.(pc := SDone, nrpc := 0), p2s := Chan(zero, 4));
    assert Next(w0, w1);
    assert Next(w1, w2);
    assert Uint32(0) == 0 by { ZeroFits(); }
    assert Next(w2, w3);
    assert Next(w3, w4);
    assert IsRun(u, [w0, w1, w2, w3, w4]);
  }

  lemma Uint32Is(n: int)
    ensures Uint32(n) == n % 4294967296
  {
  }

  lemma ZeroFits()
    ensures Uint32(0) == 0
  {
  }

  // ----- Together -----

  /** Some run completes exactly when the calls to make are announced as they are and fit the
      buffers.  Beyond what a length field holds, an address could be taken for frames of its
      own, so its length is a 32-bit number here. */
  lemma CompletesIff(u: Setup)
    requires u.nrpc > 0 ==> |u.addr| < TWO32
    ensures CanComplete(u) <==> Completable(u)
  {
    hide Start, Next, Uint32;
    Uint32Is(u.nrpc);
    if u.nrpc <= 0 {
      if Uint32(u.nrpc) == 0 {
        NothingToDo(u);
      } else {
        forall ws | IsRun(u, ws)
          ensures !AllDone(ws[|ws| - 1])
        {
          RunWaits(u, ws);
        }
      }
    } else if u.Fits() {
      assert IsRun(u, [Start(u)]);
      var vs := RunExtends(u, [Start(u)]);
    } else {
      forall ws | IsRun(u, ws)
        ensures !AllDone(ws[|ws| - 1])
      {
        UnfitNeverCompletes(u, ws);
      }
    }
  }

  lemma UnfitNeverCompletes(u: Setup, ws: seq<World>)
    requires u.nrpc > 0 && |u.addr| < TWO32 && !u.Fits() && IsRun(u, ws)
    ensures !AllDone(ws[|ws| - 1])
  {
    hide Start, Next, IsRun;
    RunNonempty(u, ws);
    if u.Encodable() {
      OversizeRefused(u, ws);
    } else if |u.payload| >= TWO32 {
      LongPayloadStaysInFirstCall(u, ws);
    } else if ws[|ws| - 1].c.pc == CDone {
      CallsAreAnnounced(u, ws);
    }
  }
}
