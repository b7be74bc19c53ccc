/** The two-bucket request-rate counter: two integers standing in for the history of all
    calls. */
module RequestRate {

  /** A call that took effect: in which five-second window, and whether it counted a request
      (updateRequestRate) or only read the rate (getRequestRate). */
  datatype Call = Call(window: nat, update: bool)

  /** One of the two buckets. */
  type Index = i: nat | i < 2

  function Parity(window: int): Index { window % 2 }

  function Bucket(c: Call): Index { Parity(c.window) }

  function Window(ms: nat): nat { ms / 5000 }

  /** The source's bucket of a time in milliseconds. */
  function BucketAt(ms: nat): Index { ((ms / 1000) % 10) / 5 }

  lemma BucketIsWindowParity(ms: nat)
    ensures BucketAt(ms) == Parity(Window(ms))
  {
    var sec := ms / 1000;
    var tens, rest := sec / 10, sec % 10;
    assert sec == 10 * tens + rest;
    assert sec / 5 == 2 * tens + rest / 5;
    assert Window(ms) == sec / 5;
  }

  /** Window w is the time from 5000 * w milliseconds up to 5000 * (w + 1). */
  lemma WindowOfTime(ms: nat, w: nat)
    ensures Window(ms) == w <==> 5000 * w <= ms < 5000 * (w + 1)
  {
  }

  /** A call at its time in milliseconds. */
  datatype Timed = Timed(ms: nat, update: bool)

  /** The calls of a history of times. */
  function CallsAt(times: seq<Timed>): (calls: seq<Call>)
    ensures |calls| == |times|
  {
    seq(|times|, i requires 0 <= i < |times| => Call(Window(times[i].ms), times[i].update))
  }

  lemma CallsAtExtend(times: seq<Timed>, t: Timed)
    ensures CallsAt(times + [t]) == CallsAt(times) + [Call(Window(t.ms), t.update)]
  {
  }

  /** The requests that were counted from time lo up to time hi. */
  function RequestsBetween(times: seq<Timed>, lo: int, hi: int): nat {
    if times == [] then 0
    else
      var last := times[|times| - 1];
      RequestsBetween(times[..|times| - 1], lo, hi) + Bit(last.update && lo <= last.ms < hi)
  }

  lemma {:induction false} WindowCounts(times: seq<Timed>, w: int)
    ensures UpdatesIn(CallsAt(times), w) == RequestsBetween(times, 5000 * w, 5000 * (w + 1))
  {
    if times != [] {
      var init, last := times[..|times| - 1], times[|times| - 1];
      WindowCounts(init, w);
      assert CallsAt(times)[..|times| - 1] == CallsAt(init);
      if w >= 0 {
        WindowOfTime(last.ms, w);
      }
    }
  }

  function Bit(b: bool): nat { if b then 1 else 0 }

  /** How many requests were counted in a window, over the full history. */
  function UpdatesIn(calls: seq<Call>, window: int): nat {
    if calls == [] then 0
    else
      var last := calls[|calls| - 1];
      UpdatesIn(calls[..|calls| - 1], window) + Bit(last.window == window && last.update)
  }

  /** Where the block of calls that all fall into bucket b, at the end of the history, starts. */
  function BlockStart(calls: seq<Call>, b: Index): (s: nat)
    ensures s <= |calls|
  {
    if calls != [] && Bucket(calls[|calls| - 1]) == b then BlockStart(calls[..|calls| - 1], b) else |calls|
  }

  /** The requests counted in that block. */
  function BlockCount(calls: seq<Call>, b: Index): nat {
    if calls == [] || Bucket(calls[|calls| - 1]) != b then 0
    else BlockCount(calls[..|calls| - 1], b) + Bit(calls[|calls| - 1].update)
  }

  /** The requests counted in the block before it, whose calls all fall into the other bucket. */
  function PreviousCount(calls: seq<Call>, b: Index): nat {
    if calls == [] then 0
    else if Bucket(calls[|calls| - 1]) == b then PreviousCount(calls[..|calls| - 1], b)
    else BlockCount(calls, 1 - b)
  }

  lemma OneMoreCall(calls: seq<Call>, c: Call, b: Index)
    ensures BlockCount(calls + [c], b) == if Bucket(c) == b then BlockCount(calls, b) + Bit(c.update) else 0
    ensures PreviousCount(calls + [c], b) == if Bucket(c) == b then PreviousCount(calls, b)
                                             else BlockCount(calls + [c], 1 - b)
    ensures forall w :: UpdatesIn(calls + [c], w) == UpdatesIn(calls, w) + Bit(c.window == w && c.update)
  {
    assert (calls + [c])[..|calls|] == calls;
  }

  class Srv {
    var reqCntIdx: Index
    const reqCnts: array<nat>
    ghost var times: seq<Timed>   // in the order in which they took effect under the mutex
    ghost var calls: seq<Call>    // the windows they fell into

    /** The current bucket counts the last block of calls, the other one the block before. */
    ghost predicate Valid()
      reads this, reqCnts
    {
      && reqCnts.Length == 2 && calls == CallsAt(times)
      && reqCntIdx == (if calls == [] then 0 else Bucket(calls[|calls| - 1]))
      && reqCnts[reqCntIdx] == BlockCount(calls, reqCntIdx)
      && reqCnts[1 - reqCntIdx] == PreviousCount(calls, reqCntIdx)
    }

    constructor ()
      ensures Valid() && fresh(reqCnts) && times == [] && calls == []
    {
      reqCntIdx, times, calls := 0, [], [];
      reqCnts := new nat[2](_ => 0);
    }

    method MaybeClearRequestRateL(idx: Index)
      requires reqCnts.Length == 2
      modifies this`reqCntIdx, reqCnts
      ensures reqCntIdx == idx
      ensures reqCnts[idx] == if old(reqCntIdx) == idx then old(reqCnts[idx]) else 0
      ensures reqCnts[1 - idx] == old(reqCnts[1 - idx])
    {
      if reqCntIdx != idx {
        reqCntIdx := idx;
        reqCnts[idx] := 0;
      }
    }

    method UpdateRequestRate(ms: nat)
      requires Valid()
      modifies this, reqCnts
      ensures Valid() && times == old(times) + [Timed(ms, true)]
      ensures calls == old(calls) + [Call(Window(ms), true)]
    {
      hide BlockCount, PreviousCount, Parity, CallsAt, Window;
      var idx := BucketAt(ms);
      BucketIsWindowParity(ms);
      MaybeClearRequestRateL(idx);
      reqCnts[idx] := reqCnts[idx] + 1;
      RecordCall(calls, Call(Window(ms), true));
      CallsAtExtend(times, Timed(ms, true));
      times, calls := times + [Timed(ms, true)], calls + [Call(Window(ms), true)];
    }

    /** The rate that is reported is one fifth of the count of the previous block. */
    method GetRequestRate(ms: nat) returns (rate: real)
      requires Valid()
      modifies this, reqCnts
      ensures Valid() && times == old(times) + [Timed(ms, false)]
      ensures calls == old(calls) + [Call(Window(ms), false)]
      ensures rate == PreviousCount(calls, Parity(Window(ms))) as real / 5.0
      ensures InOrder(times) && NoFiveSecondsSkipped(times, ms) ==>
                rate * 5.0 == RequestsBetween(times, 5000 * (ms / 5000 - 1), 5000 * (ms / 5000)) as real
    {
      hide BlockCount, PreviousCount, Parity, CallsAt, InOrder, NoFiveSecondsSkipped, RequestsBetween, Window;
      var idx := BucketAt(ms);
      BucketIsWindowParity(ms);
      MaybeClearRequestRateL(idx);
      RecordCall(calls, Call(Window(ms), false));
      CallsAtExtend(times, Timed(ms, false));
      times, calls := times + [Timed(ms, false)], calls + [Call(Window(ms), false)];
      if InOrder(times) && NoFiveSecondsSkipped(times, ms) {
        RateOverTimes(times, ms);
      }
      return reqCnts[1 - idx] as real / 5.0;
    }
  }

  /** What a call leaves of the two counts. */
  lemma RecordCall(calls: seq<Call>, c: Call)
    ensures var idx: Index := if calls == [] then 0 else Bucket(calls[|calls| - 1]);
            var q: Index := Bucket(c);
            && BlockCount(calls + [c], q) == (if q == idx then BlockCount(calls, q) else 0) + Bit(c.update)
            && PreviousCount(calls + [c], q) == if q == idx then PreviousCount(calls, idx) else BlockCount(calls, idx)
  {
    hide BlockCount, PreviousCount, Parity;
    var q: Index := Bucket(c);
    LastBlock(calls, q);
    OneMoreCall(calls, c, q);
  }

  lemma LastBlock(calls: seq<Call>, b: Index)
    ensures calls == [] || Bucket(calls[|calls| - 1]) != b ==>
              BlockCount(calls, b) == 0 && PreviousCount(calls, b) == BlockCount(calls, 1 - b)
  {
  }

  // ----- The counter against the full history -----

  ghost predicate Called(calls: seq<Call>, window: int) {
    exists j :: 0 <= j < |calls| && calls[j].window == window
  }

  /** The requests counted in other windows. */
  function Strays(calls: seq<Call>, window: int): nat {
    if calls == [] then 0
    else
      var last := calls[|calls| - 1];
      Strays(calls[..|calls| - 1], window) + Bit(last.window != window && last.update)
  }

  lemma {:induction false} NoneIn(calls: seq<Call>, v: int)
    ensures UpdatesIn(calls, v) == 0 <==> forall j :: 0 <= j < |calls| && calls[j].update ==> calls[j].window != v
    ensures Strays(calls, v) == 0 <==> forall j :: 0 <= j < |calls| && calls[j].update ==> calls[j].window == v
  {
    if calls != [] {
      NoneIn(calls[..|calls| - 1], v);
    }
  }

  lemma {:induction false} UpdatesInConcat(a: seq<Call>, b: seq<Call>, v: int)
    ensures UpdatesIn(a + b, v) == UpdatesIn(a, v) + UpdatesIn(b, v)
    decreases |b|
  {
    if b == [] {
      assert a + b == a;
    } else {
      assert (a + b)[..|a + b| - 1] == a + b[..|b| - 1];
      UpdatesInConcat(a, b[..|b| - 1], v);
    }
  }

  /** Where the block before the last one starts. */
  function PreviousStart(calls: seq<Call>, b: Index): (t: nat)
    ensures t <= BlockStart(calls, b)
  {
    BlockStart(calls[..BlockStart(calls, b)], 1 - b)
  }

  /** The positions of the block before the last one. */
  ghost predicate InPreviousBlock(calls: seq<Call>, b: Index, j: nat) {
    PreviousStart(calls, b) <= j < BlockStart(calls, b)
  }

  /** Requests of the preceding window that the previous bucket has forgotten. */
  function Lost(calls: seq<Call>, w: nat): nat {
    UpdatesIn(calls[..PreviousStart(calls, Parity(w))], w - 1)
  }

  /** Requests of other windows that it still holds. */
  function Stale(calls: seq<Call>, w: nat): nat {
    var b := Parity(w);
    Strays(calls[PreviousStart(calls, b)..BlockStart(calls, b)], w - 1)
  }

  lemma {:induction false} BlockCountIsSlice(calls: seq<Call>, b: Index, v: int)
    ensures var block := calls[BlockStart(calls, b)..];
            BlockCount(calls, b) == UpdatesIn(block, v) + Strays(block, v)
  {
    if calls != [] && Bucket(calls[|calls| - 1]) == b {
      var init, s := calls[..|calls| - 1], BlockStart(calls, b);
      BlockCountIsSlice(init, b, v);
      assert calls[s..][..|calls| - s - 1] == init[s..];
    }
  }

  lemma {:induction false} PreviousCountIsBlock(calls: seq<Call>, b: Index)
    ensures PreviousCount(calls, b) == BlockCount(calls[..BlockStart(calls, b)], 1 - b)
  {
    if calls != [] && Bucket(calls[|calls| - 1]) == b {
      PreviousCountIsBlock(calls[..|calls| - 1], b);
      var s := BlockStart(calls, b);
      assert calls[..|calls| - 1][..s] == calls[..s];
    } else {
      assert calls[..|calls|] == calls;
    }
  }

  lemma UpdatesInPieces(calls: seq<Call>, t: nat, s: nat, v: int)
    requires t <= s <= |calls|
    ensures calls[..s][t..] == calls[t..s]
    ensures UpdatesIn(calls, v) == UpdatesIn(calls[..t], v) + UpdatesIn(calls[t..s], v) + UpdatesIn(calls[s..], v)
  {
    assert calls[..s] == calls[..t] + calls[t..s] && calls == calls[..s] + calls[s..];
    UpdatesInConcat(calls[..s], calls[s..], v);
    UpdatesInConcat(calls[..t], calls[t..s], v);
  }

  lemma {:induction false} LastBlockUniform(calls: seq<Call>, b: Index)
    ensures forall j :: BlockStart(calls, b) <= j < |calls| ==> Bucket(calls[j]) == b
    ensures BlockStart(calls, b) > 0 ==> Bucket(calls[BlockStart(calls, b) - 1]) == 1 - b
  {
    if calls != [] && Bucket(calls[|calls| - 1]) == b {
      LastBlockUniform(calls[..|calls| - 1], b);
    }
  }

  lemma PreviousBlockUniform(calls: seq<Call>, b: Index)
    ensures forall j :: 0 <= j < |calls| && InPreviousBlock(calls, b, j) ==> Bucket(calls[j]) == 1 - b
    ensures PreviousStart(calls, b) > 0 ==> Bucket(calls[PreviousStart(calls, b) - 1]) == b
  {
    hide BlockStart, Parity;
    var first := calls[..BlockStart(calls, b)];
    LastBlockUniform(first, 1 - b);
    assert forall j :: 0 <= j < |first| ==> calls[j] == first[j];
  }

  /** For every history, in whatever order calls took effect: what is reported and what is lost
      make up the requests of the preceding window and what is stale.  So the rate is exact if
      and only if as many requests are lost as are stale. */
  lemma RateIsExactIff(calls: seq<Call>, w: nat)
    ensures PreviousCount(calls, Parity(w)) + Lost(calls, w) == UpdatesIn(calls, w - 1) + Stale(calls, w)
    ensures PreviousCount(calls, Parity(w)) == UpdatesIn(calls, w - 1) <==> Lost(calls, w) == Stale(calls, w)
  {
    hide PreviousCount, BlockCount, BlockStart, PreviousStart, UpdatesIn, Strays, Parity;
    var b := Parity(w);
    var s, t := BlockStart(calls, b), PreviousStart(calls, b);
    UpdatesInPieces(calls, t, s, w - 1);
    LastBlockHasNone(calls, w);
    PreviousCountIsBlock(calls, b);
    BlockCountIsSlice(calls[..s], 1 - b, w - 1);
    StartOfPrevious(calls, b);
  }

  lemma LastBlockHasNone(calls: seq<Call>, w: nat)
    ensures UpdatesIn(calls[BlockStart(calls, Parity(w))..], w - 1) == 0
  {
    hide BlockStart, UpdatesIn;
    LastBlockUniform(calls, Parity(w));
    ParityAlternates(w);
    NoneIn(calls[BlockStart(calls, Parity(w))..], w - 1);
  }

  lemma StartOfPrevious(calls: seq<Call>, b: Index)
    ensures PreviousStart(calls, b) == BlockStart(calls[..BlockStart(calls, b)], 1 - b)
  {
  }

  lemma ParityAlternates(w: int)
    ensures Parity(w - 1) == 1 - Parity(w)
  {
  }

  // ----- Whatever the calls count -----

  ghost predicate SameTimes(a: seq<Call>, b: seq<Call>) {
    |a| == |b| && forall j :: 0 <= j < |a| ==> a[j].window == b[j].window
  }

  ghost predicate ExactAtTheseTimes(calls: seq<Call>, w: nat) {
    forall other | SameTimes(calls, other) :: PreviousCount(other, Parity(w)) == UpdatesIn(other, w - 1)
  }

  lemma {:induction false} SameBlockStart(a: seq<Call>, c: seq<Call>, b: Index)
    requires SameTimes(a, c)
    ensures BlockStart(a, b) == BlockStart(c, b)
  {
    if a != [] && Bucket(a[|a| - 1]) == b {
      SameBlockStart(a[..|a| - 1], c[..|c| - 1], b);
    }
  }

  lemma SameBlocks(a: seq<Call>, c: seq<Call>, b: Index)
    requires SameTimes(a, c)
    ensures BlockStart(a, b) == BlockStart(c, b) && PreviousStart(a, b) == PreviousStart(c, b)
  {
    SameBlockStart(a, c, b);
    var s := BlockStart(a, b);
    SameBlockStart(a[..s], c[..s], 1 - b);
  }

  /** The rate is exact whichever of the calls are requests, if and only if the previous block
      consists of just the calls of the preceding window.  The times of the calls decide. */
  lemma ExactAtTheseTimesIff(calls: seq<Call>, w: nat)
    ensures ExactAtTheseTimes(calls, w) <==>
            forall j :: 0 <= j < |calls| ==> (InPreviousBlock(calls, Parity(w), j) <==> calls[j].window == w - 1)
  {
    if forall j :: 0 <= j < |calls| ==> (InPreviousBlock(calls, Parity(w), j) <==> calls[j].window == w - 1) {
      forall other | SameTimes(calls, other)
        ensures PreviousCount(other, Parity(w)) == UpdatesIn(other, w - 1)
      {
        SameBlocks(calls, other, Parity(w));
        PreviousBlockIsWindow(other, w);
      }
    } else {
      var j :| 0 <= j < |calls| && InPreviousBlock(calls, Parity(w), j) != (calls[j].window == w - 1);
      OneRequestShows(calls, w, j);
    }
  }

  lemma PreviousBlockIsWindow(calls: seq<Call>, w: nat)
    requires forall j :: 0 <= j < |calls| ==> (InPreviousBlock(calls, Parity(w), j) <==> calls[j].window == w - 1)
    ensures PreviousCount(calls, Parity(w)) == UpdatesIn(calls, w - 1)
  {
    hide PreviousCount, BlockStart, PreviousStart, UpdatesIn, Strays, Parity;
    var b := Parity(w);
    RateIsExactIff(calls, w);
    NoneIn(calls[..PreviousStart(calls, b)], w - 1);
    NoneIn(calls[PreviousStart(calls, b)..BlockStart(calls, b)], w - 1);
  }

  /** The same calls, of which only the j-th is a request. */
  function OnlyRequest(calls: seq<Call>, j: nat): (r: seq<Call>)
    ensures SameTimes(calls, r) && forall i :: 0 <= i < |calls| ==> r[i].update == (i == j)
  {
    seq(|calls|, i requires 0 <= i < |calls| => Call(calls[i].window, i == j))
  }

  lemma OneRequestShows(calls: seq<Call>, w: nat, j: nat)
    requires j < |calls| && InPreviousBlock(calls, Parity(w), j) != (calls[j].window == w - 1)
    ensures PreviousCount(OnlyRequest(calls, j), Parity(w)) != UpdatesIn(OnlyRequest(calls, j), w - 1)
  {
    hide PreviousCount, BlockStart, PreviousStart, UpdatesIn, Strays, Parity;
    var b, one := Parity(w), OnlyRequest(calls, j);
    SameBlocks(calls, one, b);
    LastBlockUniform(calls, b);
    ParityAlternates(w);
    RateIsExactIff(one, w);
    RequestIsStray(one, PreviousStart(one, b), BlockStart(one, b), w - 1, j);
  }

  /** A single request, in the piece from t to s or before it. */
  lemma RequestIsStray(one: seq<Call>, t: nat, s: nat, v: int, j: nat)
    requires t <= s <= |one| && j < s && forall i :: 0 <= i < |one| ==> one[i].update == (i == j)
    ensures UpdatesIn(one[..t], v) > 0 <==> j < t && one[j].window == v
    ensures Strays(one[t..s], v) > 0 <==> t <= j && one[j].window != v
  {
    hide UpdatesIn, Strays;
    var before, block := one[..t], one[t..s];
    NoneIn(before, v);
    NoneIn(block, v);
    if j < t {
      assert before[j] == one[j];
    } else {
      assert block[j - t] == one[j];
    }
  }

  // ----- In the order of time -----

  /** Calls take effect in the order of their times. */
  ghost predicate Ordered(calls: seq<Call>) {
    forall i, j :: 0 <= i <= j < |calls| ==> calls[i].window <= calls[j].window
  }

  /** Then the previous block holds every call of the preceding window. */
  lemma OrderedLosesNothing(calls: seq<Call>, w: nat, j: nat)
    requires Ordered(calls) && (forall i :: 0 <= i < |calls| ==> calls[i].window <= w)
    requires j < |calls| && calls[j].window == w - 1
    ensures InPreviousBlock(calls, Parity(w), j)
  {
    hide BlockStart, PreviousStart;
    var b := Parity(w);
    LastBlockUniform(calls, b);
    PreviousBlockUniform(calls, b);
    ParityAlternates(w);
    var s, t := BlockStart(calls, b), PreviousStart(calls, b);
    assert j < s;
    if t > 0 {
      OrderedAt(calls, j, t - 1);
      OrderedAt(calls, t - 1, s - 1);
    }
  }

  lemma OrderedAt(calls: seq<Call>, i: nat, j: nat)
    requires Ordered(calls) && i < |calls| && j < |calls|
    ensures i <= j ==> calls[i].window <= calls[j].window
  {
  }

  /** So the rate is never too low, and it is exact if and only if the previous block holds no
      request of an older window. */
  lemma OrderedRateIsExactIff(calls: seq<Call>, w: nat)
    requires Ordered(calls) && forall j :: 0 <= j < |calls| ==> calls[j].window <= w
    ensures PreviousCount(calls, Parity(w)) >= UpdatesIn(calls, w - 1)
    ensures PreviousCount(calls, Parity(w)) == UpdatesIn(calls, w - 1) <==>
            forall j :: 0 <= j < |calls| && InPreviousBlock(calls, Parity(w), j) && calls[j].update ==> calls[j].window == w - 1
  {
    hide PreviousCount, BlockStart, PreviousStart, UpdatesIn, Strays, Parity, Ordered;
    var b := Parity(w);
    var s, t := BlockStart(calls, b), PreviousStart(calls, b);
    RateIsExactIff(calls, w);
    forall j | 0 <= j < |calls| && calls[j].window == w - 1
      ensures j >= t
    {
      OrderedLosesNothing(calls, w, j);
    }
    var before := calls[..t];
    NoneIn(before, w - 1);
    var block := calls[t..s];
    NoneIn(block, w - 1);
    assert forall j :: t <= j < s ==> block[j - t] == calls[j];
  }

  /** The calls of windows before v; in order of time they come first. */
  function Before(calls: seq<Call>, v: int): (n: nat)
    ensures n <= |calls|
    ensures forall j :: n <= j < |calls| ==> calls[j].window >= v
    ensures n > 0 ==> calls[n - 1].window < v
  {
    if calls == [] then 0
    else if calls[|calls| - 1].window < v then |calls| else Before(calls[..|calls| - 1], v)
  }

  /** If the preceding window was called: nothing was before it, or the last window called
      before it has the parity of this one.  If it was not: all calls are in windows of the
      parity of this one. */
  ghost predicate TimesSuffice(calls: seq<Call>, w: nat) {
    if Called(calls, w - 1) then
      var n := Before(calls, w - 1);
      n == 0 || Bucket(calls[n - 1]) == Parity(w)
    else
      forall j :: 0 <= j < |calls| ==> Bucket(calls[j]) == Parity(w)
  }

  /** In order of time, the windows that were called say exactly when the rate is right,
      whichever of the calls are requests. */
  lemma OrderedExactAtTheseTimesIff(calls: seq<Call>, w: nat)
    requires Ordered(calls) && forall j :: 0 <= j < |calls| ==> calls[j].window <= w
    ensures ExactAtTheseTimes(calls, w) <==> TimesSuffice(calls, w)
  {
    hide BlockStart, PreviousStart, ExactAtTheseTimes, Parity, Ordered, InPreviousBlock;
    var b := Parity(w);
    ExactAtTheseTimesIff(calls, w);
    if Called(calls, w - 1) {
      var m :| 0 <= m < |calls| && calls[m].window == w - 1;
      OrderedLosesNothing(calls, w, m);
      forall j | 0 <= j < |calls|
        ensures calls[j].window == w - 1 ==> InPreviousBlock(calls, b, j)
        ensures TimesSuffice(calls, w) && InPreviousBlock(calls, b, j) ==> calls[j].window == w - 1
      {
        if calls[j].window == w - 1 {
          OrderedLosesNothing(calls, w, j);
        }
        if TimesSuffice(calls, w) && InPreviousBlock(calls, b, j) {
          OlderIsCutOff(calls, w, m, j);
        }
      }
      LastOlderIsInBlock(calls, w, m);
    } else {
      NoneCalled(calls, w);
    }
  }

  /** With a call of this bucket between them, an older call is not in the block of the
      preceding window. */
  lemma OlderIsCutOff(calls: seq<Call>, w: nat, m: nat, j: nat)
    requires Ordered(calls) && forall i :: 0 <= i < |calls| ==> calls[i].window <= w
    requires m < |calls| && calls[m].window == w - 1 && InPreviousBlock(calls, Parity(w), m)
    requires j < |calls| && InPreviousBlock(calls, Parity(w), j) && TimesSuffice(calls, w)
    ensures calls[j].window == w - 1
  {
    hide BlockStart, PreviousStart, Parity;
    var n := Before(calls, w - 1);
    PreviousBlockUniform(calls, Parity(w));
    ParityAlternates(w);
    if n > 0 {
      OrderedAt(calls, m, n - 1);
    }
  }

  lemma LastOlderIsInBlock(calls: seq<Call>, w: nat, m: nat)
    requires Ordered(calls) && forall i :: 0 <= i < |calls| ==> calls[i].window <= w
    requires m < |calls| && calls[m].window == w - 1 && InPreviousBlock(calls, Parity(w), m)
    ensures var n := Before(calls, w - 1);
            !TimesSuffice(calls, w) ==> n > 0 && InPreviousBlock(calls, Parity(w), n - 1)
  {
    hide BlockStart, PreviousStart, Parity;
    var b, n := Parity(w), Before(calls, w - 1);
    var t := PreviousStart(calls, b);
    PreviousBlockUniform(calls, b);
    ParityAlternates(w);
    if n > 0 {
      OrderedAt(calls, m, n - 1);
    }
    if t > 0 {
      OrderedAt(calls, t - 1, m);
    }
  }

  lemma NoneCalled(calls: seq<Call>, w: nat)
    requires !Called(calls, w - 1)
    ensures (forall j :: 0 <= j < |calls| ==> !InPreviousBlock(calls, Parity(w), j)) <==> TimesSuffice(calls, w)
  {
    hide PreviousStart, Parity;
    var b := Parity(w);
    var s := BlockStart(calls, b);
    LastBlockUniform(calls, b);
    PreviousBlockUniform(calls, b);
    if s > 0 {
      LastIsInBlock(calls, b);
    }
  }

  lemma LastIsInBlock(calls: seq<Call>, b: Index)
    requires BlockStart(calls, b) > 0
    ensures InPreviousBlock(calls, b, BlockStart(calls, b) - 1)
  {
    hide BlockStart, PreviousStart, Parity;
    var s := BlockStart(calls, b);
    LastBlockUniform(calls, b);
    StartOfPrevious(calls, b);
    BlockNotEmpty(calls[..s], 1 - b);
  }

  lemma BlockNotEmpty(calls: seq<Call>, b: Index)
    requires calls != [] && Bucket(calls[|calls| - 1]) == b
    ensures BlockStart(calls, b) < |calls|
  {
  }

  /** With a call in each of the two preceding windows, or none before the preceding one, the
      rate is exact; what happened earlier does not matter. */
  lemma RateIsExact(calls: seq<Call>, w: nat)
    requires Ordered(calls) && forall j :: 0 <= j < |calls| ==> calls[j].window <= w
    requires Called(calls, w - 1)
    requires Called(calls, w - 2) || forall j :: 0 <= j < |calls| ==> calls[j].window >= w - 1
    ensures PreviousCount(calls, Parity(w)) == UpdatesIn(calls, w - 1)
  {
    forall j | 0 <= j < |calls| && InPreviousBlock(calls, Parity(w), j)
      ensures calls[j].window == w - 1
    {
      PreviousBlockIsRecent(calls, w, j);
    }
    OrderedRateIsExactIff(calls, w);
  }

  lemma PreviousBlockIsRecent(calls: seq<Call>, w: nat, j: nat)
    requires Ordered(calls) && (forall i :: 0 <= i < |calls| ==> calls[i].window <= w)
    requires Called(calls, w - 1)
    requires Called(calls, w - 2) || forall i :: 0 <= i < |calls| ==> calls[i].window >= w - 1
    requires j < |calls| && InPreviousBlock(calls, Parity(w), j)
    ensures calls[j].window == w - 1
  {
    hide BlockStart, PreviousStart;
    var b := Parity(w);
    PreviousBlockUniform(calls, b);
    ParityAlternates(w);
    ParityAlternates(w - 1);
    LastBlockUniform(calls, b);
    assert calls[j].window != w;
    if Called(calls, w - 2) {
      var m :| 0 <= m < |calls| && calls[m].window == w - 1;
      var k :| 0 <= k < |calls| && calls[k].window == w - 2;
      OrderedLosesNothing(calls, w, m);
      OrderedAt(calls, m, k);
      OrderedAt(calls, k, j);
      assert !InPreviousBlock(calls, b, k);
    }
  }

  /** No five-second window between the first call and the reading goes without a call. */
  ghost predicate NoWindowSkipped(calls: seq<Call>, w: nat) {
    calls != [] && forall v :: calls[0].window <= v < w ==> Called(calls, v)
  }

  /** Hence the counter is exact in every run that skips no window. */
  lemma RateIsExactWithoutGaps(calls: seq<Call>, w: nat)
    requires Ordered(calls) && (forall j :: 0 <= j < |calls| ==> calls[j].window <= w)
    requires NoWindowSkipped(calls, w)
    ensures PreviousCount(calls, Parity(w)) == UpdatesIn(calls, w - 1)
  {
    if calls[0].window == w {
      OrderedRateIsExactIff(calls, w);
      assert forall j :: 0 <= j < |calls| ==> calls[j].window == w && Bucket(calls[j]) == Parity(w);
    } else {
      RateIsExact(calls, w);
    }
  }

  // ----- In milliseconds -----

  ghost predicate InOrder(times: seq<Timed>) {
    forall i, j :: 0 <= i <= j < |times| ==> times[i].ms <= times[j].ms
  }

  ghost predicate CalledBetween(times: seq<Timed>, lo: int, hi: int) {
    exists j :: 0 <= j < |times| && lo <= times[j].ms < hi
  }

  /** From the window of the first call on, each five seconds before that of the time now saw one. */
  ghost predicate NoFiveSecondsSkipped(times: seq<Timed>, now: nat) {
    times != [] && forall k: nat :: times[0].ms < 5000 * (k + 1) <= now ==> CalledBetween(times, 5000 * k, 5000 * (k + 1))
  }

  /** In order of time and without five seconds skipped, what is reported at the last call's
      time are the requests of the five seconds before those it falls into. */
  lemma {:induction false} RateOverTimes(times: seq<Timed>, now: nat)
    requires InOrder(times) && NoFiveSecondsSkipped(times, now) && times[|times| - 1].ms == now
    ensures PreviousCount(CallsAt(times), Parity(Window(now))) ==
            RequestsBetween(times, 5000 * (now / 5000 - 1), 5000 * (now / 5000))
  {
    hide PreviousCount, UpdatesIn, RequestsBetween, Window, Parity;
    var calls, w: nat := CallsAt(times), Window(now);
    var before: int := w - 1;
    WindowOfTime(now, now / 5000);
    WindowCounts(times, before);
    forall i, j | 0 <= i <= j < |times|
      ensures calls[i].window <= calls[j].window
    {
      WindowsAscend(times[i].ms, times[j].ms);
    }
    forall j | 0 <= j < |calls|
      ensures calls[j].window <= w
    {
      WindowsAscend(times[j].ms, now);
    }
    forall v | calls[0].window <= v < w
      ensures Called(calls, v)
    {
      WindowSeen(times, now, v);
    }
    RateIsExactWithoutGaps(calls, w);
  }

  lemma WindowsAscend(s: nat, t: nat)
    requires s <= t
    ensures Window(s) <= Window(t)
  {
  }

  lemma WindowSeen(times: seq<Timed>, now: nat, v: nat)
    requires NoFiveSecondsSkipped(times, now) && Window(times[0].ms) <= v < Window(now)
    ensures Called(CallsAt(times), v)
  {
    hide Window;
    WindowOfTime(times[0].ms, Window(times[0].ms));
    WindowOfTime(now, Window(now));
    assert CalledBetween(times, 5000 * v, 5000 * (v + 1));
    var j :| 0 <= j < |times| && 5000 * v <= times[j].ms < 5000 * (v + 1);
    WindowOfTime(times[j].ms, v);
    assert CallsAt(times)[j].window == v;
  }

  /** n requests in one window. */
  function Burst(n: nat, window: nat): seq<Call> {
    if n == 0 then [] else Burst(n - 1, window) + [Call(window, true)]
  }

  lemma {:induction false} BurstCounts(n: nat, window: nat)
    ensures BlockCount(Burst(n, window), Parity(window)) == n == UpdatesIn(Burst(n, window), window)
    ensures |Burst(n, window)| == n && forall j :: 0 <= j < n ==> Burst(n, window)[j] == Call(window, true)
  {
    if n > 0 {
      BurstCounts(n - 1, window);
      OneMoreCall(Burst(n - 1, window), Call(window, true), Parity(window));
    }
  }

  /** Two windows without a call: the requests of three windows ago are reported as those of
      the preceding one, which had none. */
  lemma SkippedWindowsReportStale(n: nat, w: nat)
    requires n > 0
    ensures var calls := Burst(n, w) + [Call(w + 3, false)];
            && Ordered(calls) && UpdatesIn(calls, w + 2) == 0
            && PreviousCount(calls, Parity(w + 3)) == n
  {
    var read := Call(w + 3, false);
    BurstCounts(n, w);
    OneMoreCall(Burst(n, w), read, Parity(w + 3));
    NoneIn(Burst(n, w) + [read], w + 2);
  }

  /** The time is read before the mutex is taken, so calls can take effect out of order.  One
      late request then makes all others of its window disappear. */
  lemma LateCallLosesRequests(n: nat, w: nat)
    ensures var calls := Burst(n, w) + [Call(w + 1, false)] + [Call(w, true)] + [Call(w + 1, false)];
            && UpdatesIn(calls, w) == n + 1 && Lost(calls, w + 1) == n && Stale(calls, w + 1) == 0
            && PreviousCount(calls, Parity(w + 1)) == 1
  {
    hide BlockCount, PreviousCount, UpdatesIn, Burst, Strays;
    var burst := Burst(n, w);
    BurstCounts(n, w);
    var first := burst + [Call(w + 1, false)];
    var second := first + [Call(w, true)];
    var calls := second + [Call(w + 1, false)];
    var b := Parity(w + 1);
    ParityAlternates(w + 1);
    LateBlocks(first, w);
    OneMoreCall(burst, Call(w + 1, false), b);
    OneMoreCall(first, Call(w, true), b);
    OneMoreCall(second, Call(w + 1, false), b);
    assert calls[n + 1..n + 2] == [Call(w, true)];
    NoneIn([Call(w, true)], w);
    assert calls[..n + 1] == first;
    RateIsExactIff(calls, w + 1);
  }

  /** After a reading, a request and a reading, the request alone is the previous block. */
  lemma LateBlocks(first: seq<Call>, w: nat)
    requires first != [] && first[|first| - 1].window == w + 1
    ensures var calls := first + [Call(w, true)] + [Call(w + 1, false)];
            BlockStart(calls, Parity(w + 1)) == |first| + 1 && PreviousStart(calls, Parity(w + 1)) == |first|
  {
    var calls, b := first + [Call(w, true)] + [Call(w + 1, false)], Parity(w + 1);
    ParityAlternates(w + 1);
    assert calls[..|calls| - 1] == first + [Call(w, true)];
    assert (first + [Call(w, true)])[..|first|] == first;
    assert BlockStart(first, 1 - b) == |first|;
  }
}
