/** The thread pool of the peak-to-trough computation: chunks, workers, a shared progress
    counter and the polling main thread, in every interleaving. */
module WorkerPool {
  import opened Options
  import opened PeakToTrough
  import opened Instances

  const WINDOW_1MIN := 60000
  const WINDOW_5MIN := 300000

  // ----- Chunks -----

  /** The number of threads actually started. */
  function Clamp(threads: int, count: nat): (t: nat)
    requires count > 0
    ensures 1 <= t <= count
    ensures 1 <= threads <= count ==> t == threads
    ensures threads < 1 ==> t == 1
    ensures threads > count ==> t == count
  {
    var atLeastOne := if threads < 1 then 1 else threads;
    if atLeastOne > count then count else atLeastOne
  }

  function ChunkSize(count: nat, threads: nat): (c: nat)
    requires 1 <= threads <= count
    ensures c >= 1
  {
    (count + threads - 1) / threads
  }

  /** As many as it takes, and no more: the ceiling of the quotient. */
  lemma ChunkSizeIsCeiling(count: nat, threads: nat)
    requires 1 <= threads <= count
    ensures threads * (ChunkSize(count, threads) - 1) < count <= threads * ChunkSize(count, threads)
  {
    var c := ChunkSize(count, threads);
    CeilingCovers(count, threads);
    assert threads * c <= count + threads - 1;
    assert threads * (c - 1) == threads * c - threads;
  }

  /** Chunk t is the t-th stretch of that many instances, cut off at the end. */
  lemma ChunkIsStretch(count: nat, threads: nat, t: nat, i: nat)
    requires 1 <= threads <= count
    ensures InChunk(count, threads, t, i) <==>
            t * ChunkSize(count, threads) <= i < (t + 1) * ChunkSize(count, threads) && i < count
  {
    var c := ChunkSize(count, threads);
    assert (t + 1) * c == t * c + c;
  }

  function ChunkStart(count: nat, threads: nat, t: nat): nat
    requires 1 <= threads <= count
  {
    t * ChunkSize(count, threads)
  }

  /** A chunk may begin at or beyond the end; then it is empty. */
  function ChunkEnd(count: nat, threads: nat, t: nat): (e: nat)
    requires 1 <= threads <= count
    ensures e <= count
  {
    var end := ChunkStart(count, threads, t) + ChunkSize(count, threads);
    if end > count then count else end
  }

  ghost predicate InChunk(count: nat, threads: nat, t: nat, i: nat)
    requires 1 <= threads <= count
  {
    ChunkStart(count, threads, t) <= i < ChunkEnd(count, threads, t)
  }

  /** Every instance is in the chunk of exactly one thread. */
  lemma ChunksPartition(count: nat, threads: nat, i: nat)
    requires 1 <= threads <= count && i < count
    ensures var owner := i / ChunkSize(count, threads);
            owner < threads && forall t: nat :: InChunk(count, threads, t, i) <==> t == owner
  {
    var c := ChunkSize(count, threads);
    var owner := i / c;
    CeilingCovers(count, threads);
    MultipleBelow(owner, c, i, threads, count);
    forall t: nat
      ensures InChunk(count, threads, t, i) <==> t == owner
    {
      OneMultiple(t, owner, c, i);
    }
  }

  lemma MultipleBelow(owner: nat, c: nat, i: nat, threads: nat, count: nat)
    requires c > 0 && owner == i / c && i < count <= threads * c
    ensures owner < threads
  {
    assert owner * c <= i;
    ProductMonotone(threads, owner, c);
  }

  /** The multiples of c between which i lies are those at its quotient. */
  lemma OneMultiple(t: nat, owner: nat, c: nat, i: nat)
    requires c > 0 && owner == i / c
    ensures t * c <= i < t * c + c <==> t == owner
  {
    assert owner * c <= i < owner * c + c;
    ProductMonotone(t + 1, owner, c);
    ProductMonotone(owner + 1, t, c);
    assert (t + 1) * c == t * c + c && (owner + 1) * c == owner * c + c;
  }

  lemma CeilingCovers(count: nat, threads: nat)
    requires 1 <= threads <= count
    ensures threads * ChunkSize(count, threads) >= count
  {
    var n := count + threads - 1;
    assert n == threads * (n / threads) + n % threads;
  }

  lemma ProductMonotone(a: nat, b: nat, c: nat)
    ensures a <= b ==> a * c <= b * c
  {
  }

  // ----- The machines -----

  /** Where a worker stands with its current instance. */
  datatype Phase = First | Second | Bump

  datatype Thread = Thread(i: nat, phase: Phase)

  /** The shared memory: both results of every instance, the counter, the workers' positions,
      and the last value the main thread has seen. */
  datatype Pool = Pool(ptt1: seq<Option<real>>, ptt5: seq<Option<real>>, done: nat,
                       threads: seq<Thread>, seen: Option<nat>)

  function Ptt(l: Loaded, w: int): real
    requires |l.ts| == |l.vals|
  {
    MaxRatio(l.ts, l.vals, w, |l.ts|)
  }

  /** What the sliding window asks of every instance, and a clamped number of threads. */
  ghost predicate Usable(data: seq<Loaded>, threads: nat) {
    1 <= threads <= |data| && forall i :: 0 <= i < |data| ==> |data[i].ts| == |data[i].vals| && Ascending(data[i].ts)
  }

  /** The call a worker makes for one of its two results. */
  method ComputePtt(inst: Instance, window: int) returns (r: real)
    requires inst.Valid() && Ascending(inst.Contents().ts) && window >= 0
    ensures r == Ptt(inst.Contents(), window)
  {
    r := SlidingMaxPtt(inst.timestamps, inst.values, inst.n, window);
  }

  ghost function Start(data: seq<Loaded>, threads: nat): Pool
    requires Usable(data, threads)
  {
    Pool(seq(|data|, _ => None), seq(|data|, _ => None), 0,
         seq(threads, t requires 0 <= t < threads => Thread(ChunkStart(|data|, threads, t), First)), None)
  }

  /** A worker writes a result, writes the other, then adds one to the counter. */
  ghost predicate WorkerStep(data: seq<Loaded>, p: Pool, t: nat, p': Pool)
    requires Usable(data, |p.threads|)
  {
    && t < |p.threads| && |p.ptt1| == |p.ptt5| == |data|
    && var th := p.threads[t];
       th.i < ChunkEnd(|data|, |p.threads|, t)
       && match th.phase
          case First => p' == p.(ptt1 := p.ptt1[th.i := Some(Ptt(data[th.i], WINDOW_1MIN))],
                                 threads := p.threads[t := Thread(th.i, Second)])
          case Second => p' == p.(ptt5 := p.ptt5[th.i := Some(Ptt(data[th.i], WINDOW_5MIN))],
                                  threads := p.threads[t := Thread(th.i, Bump)])
          case Bump => p' == p.(done := p.done + 1, threads := p.threads[t := Thread(th.i + 1, First)])
  }

  /** The main thread reads the counter, until it has seen the number of instances. */
  ghost predicate PollStep(data: seq<Loaded>, p: Pool, p': Pool) {
    !Exited(data, p) && p' == p.(seen := Some(p.done))
  }

  ghost predicate Exited(data: seq<Loaded>, p: Pool) {
    p.seen.Some? && p.seen.value >= |data|
  }

  ghost predicate Next(data: seq<Loaded>, p: Pool, p': Pool)
    requires Usable(data, |p.threads|)
  {
    PollStep(data, p, p') || exists t :: WorkerStep(data, p, t, p')
  }

  // ----- The invariant -----

  /** Thread t has counted instance i. */
  ghost predicate CountedBy(data: seq<Loaded>, p: Pool, t: nat, i: nat)
    requires Usable(data, |p.threads|)
  {
    t < |p.threads| && ChunkStart(|data|, |p.threads|, t) <= i < p.threads[t].i
  }

  /** The instances that have been counted. */
  ghost function Counted(data: seq<Loaded>, p: Pool): (s: set<nat>)
    requires Usable(data, |p.threads|)
  {
    set i: nat, t: nat | t < |p.threads| && i < |data| && CountedBy(data, p, t, i) :: i
  }

  ghost predicate Written(data: seq<Loaded>, p: Pool, i: nat)
    requires i < |data| == |p.ptt1| == |p.ptt5| && |data[i].ts| == |data[i].vals|
  {
    p.ptt1[i] == Some(Ptt(data[i], WINDOW_1MIN)) && p.ptt5[i] == Some(Ptt(data[i], WINDOW_5MIN))
  }

  /** Every thread stands in its chunk, what it has passed is written, what it is at is
      written as far as its phase says, and the counter is the number of counted instances. */
  ghost predicate ThreadOk(data: seq<Loaded>, p: Pool, t: nat)
    requires Usable(data, |p.threads|) && t < |p.threads| && |p.ptt1| == |p.ptt5| == |data|
  {
    var th, start, end := p.threads[t], ChunkStart(|data|, |p.threads|, t), ChunkEnd(|data|, |p.threads|, t);
    && start <= th.i && (th.i <= end || th.i == start)
    && (th.i >= end ==> th.phase == First)
    && (forall i :: start <= i < th.i && i < |data| ==>
          p.ptt1[i] == Some(Ptt(data[i], WINDOW_1MIN)) && p.ptt5[i] == Some(Ptt(data[i], WINDOW_5MIN)))
    && (th.phase != First ==> p.ptt1[th.i] == Some(Ptt(data[th.i], WINDOW_1MIN)))
    && (th.phase == Bump ==> p.ptt5[th.i] == Some(Ptt(data[th.i], WINDOW_5MIN)))
  }

  ghost predicate Inv(data: seq<Loaded>, p: Pool)
    requires Usable(data, |p.threads|)
  {
    && |p.ptt1| == |p.ptt5| == |data|
    && (forall t :: 0 <= t < |p.threads| ==> ThreadOk(data, p, t))
    && p.done == |Counted(data, p)|
    && (p.seen.Some? ==> p.seen.value <= p.done)
  }

  /** Different threads work on different instances. */
  lemma ChunksDisjoint(count: nat, threads: nat, t: nat, u: nat, i: nat)
    requires 1 <= threads <= count && i < count
    requires InChunk(count, threads, t, i) && InChunk(count, threads, u, i)
    ensures t == u
  {
    ChunksPartition(count, threads, i);
  }

  lemma StartInv(data: seq<Loaded>, threads: nat)
    requires Usable(data, threads)
    ensures Inv(data, Start(data, threads))
  {
    assert Counted(data, Start(data, threads)) == {};
  }

  /** A write to an instance of one thread's chunk leaves the other threads alone. */
  lemma OthersKept(data: seq<Loaded>, p: Pool, t: nat, p': Pool, u: nat)
    requires Usable(data, |p.threads|) && Inv(data, p) && WorkerStep(data, p, t, p') && u < |p.threads| && u != t
    ensures |p'.threads| == |p.threads| && ThreadOk(data, p', u)
  {
    hide Ptt, ChunkStart, ChunkEnd;
    var i := p.threads[t].i;
    assert ThreadOk(data, p, t) && ThreadOk(data, p, u);
    assert InChunk(|data|, |p.threads|, t, i);
    if InChunk(|data|, |p.threads|, u, i) {
      ChunksDisjoint(|data|, |p.threads|, t, u, i);
    }
  }

  lemma SelfKept(data: seq<Loaded>, p: Pool, t: nat, p': Pool)
    requires Usable(data, |p.threads|) && Inv(data, p) && WorkerStep(data, p, t, p')
    ensures ThreadOk(data, p', t)
  {
    hide Ptt, ChunkStart, ChunkEnd;
    assert ThreadOk(data, p, t);
  }

  /** No other thread has counted what one is about to count. */
  lemma NotYetCounted(data: seq<Loaded>, p: Pool, t: nat, u: nat)
    requires Usable(data, |p.threads|) && Inv(data, p) && t < |p.threads|
    requires p.threads[t].i < ChunkEnd(|data|, |p.threads|, t)
    ensures !CountedBy(data, p, u, p.threads[t].i)
  {
    hide Ptt, ChunkStart, ChunkEnd;
    var i := p.threads[t].i;
    assert ThreadOk(data, p, t);
    assert InChunk(|data|, |p.threads|, t, i);
    if u != t && CountedBy(data, p, u, i) {
      assert ThreadOk(data, p, u);
      assert InChunk(|data|, |p.threads|, u, i);
      ChunksDisjoint(|data|, |p.threads|, t, u, i);
    }
  }

  /** Counting adds one new instance, and nothing else does. */
  lemma CountedStep(data: seq<Loaded>, p: Pool, t: nat, p': Pool)
    requires Usable(data, |p.threads|) && Inv(data, p) && WorkerStep(data, p, t, p')
    ensures |Counted(data, p')| == |Counted(data, p)| + p'.done - p.done
  {
    hide Ptt, ChunkStart, ChunkEnd, Inv;
    var i := p.threads[t].i;
    var before, after := Counted(data, p), Counted(data, p');
    if p.threads[t].phase == Bump {
      forall u: nat
        ensures !CountedBy(data, p, u, i)
      {
        NotYetCounted(data, p, t, u);
      }
      assert ThreadOk(data, p, t) by {
        ThreadIsOk(data, p, t);
      }
      forall u: nat, j: nat
        ensures CountedBy(data, p', u, j) <==> CountedBy(data, p, u, j) || (u == t && j == i)
      {
      }
      CountedAdds(data, p, p', t, i);
    } else {
      assert forall u: nat, j: nat :: CountedBy(data, p', u, j) <==> CountedBy(data, p, u, j);
      assert after == before;
    }
  }

  lemma ThreadIsOk(data: seq<Loaded>, p: Pool, t: nat)
    requires Usable(data, |p.threads|) && Inv(data, p) && t < |p.threads|
    ensures |p.ptt1| == |p.ptt5| == |data| && ThreadOk(data, p, t)
  {
  }

  lemma CountedAdds(data: seq<Loaded>, p: Pool, p': Pool, t: nat, i: nat)
    requires Usable(data, |p.threads|) && |p'.threads| == |p.threads| && t < |p.threads| && i < |data|
    requires forall u: nat, j: nat :: CountedBy(data, p', u, j) <==> CountedBy(data, p, u, j) || (u == t && j == i)
    requires forall u: nat :: !CountedBy(data, p, u, i)
    ensures |Counted(data, p')| == |Counted(data, p)| + 1
  {
    hide CountedBy;
    var before, after := Counted(data, p), Counted(data, p');
    forall j: nat | j in before
      ensures j in after
    {
      var u: nat :| u < |p.threads| && CountedBy(data, p, u, j);
      assert CountedBy(data, p', u, j);
    }
    assert CountedBy(data, p', t, i);
    assert after == before + {i};
  }

  lemma NextInv(data: seq<Loaded>, p: Pool, p': Pool)
    requires Usable(data, |p.threads|) && Inv(data, p) && Next(data, p, p')
    ensures |p'.threads| == |p.threads| && Inv(data, p')
  {
    hide Ptt, ChunkStart, ChunkEnd, WorkerStep;
    if PollStep(data, p, p') {
      assert forall u: nat, j: nat :: CountedBy(data, p', u, j) <==> CountedBy(data, p, u, j);
      assert Counted(data, p') == Counted(data, p);
      assert forall u :: 0 <= u < |p.threads| ==> ThreadOk(data, p, u) ==> ThreadOk(data, p', u);
    } else {
      var t :| WorkerStep(data, p, t, p');
      StepShape(data, p, t, p');
      forall u | 0 <= u < |p.threads|
        ensures ThreadOk(data, p', u)
      {
        if u == t {
          SelfKept(data, p, t, p');
        } else {
          OthersKept(data, p, t, p', u);
        }
      }
      CountedStep(data, p, t, p');
    }
  }

  lemma StepShape(data: seq<Loaded>, p: Pool, t: nat, p': Pool)
    requires Usable(data, |p.threads|) && WorkerStep(data, p, t, p')
    ensures |p'.threads| == |p.threads| && |p'.ptt1| == |p'.ptt5| == |data|
    ensures p'.seen == p.seen && p'.done >= p.done
  {
  }

  // ----- Runs -----

  ghost predicate IsRun(data: seq<Loaded>, threads: nat, ps: seq<Pool>)
    requires Usable(data, threads)
  {
    && |ps| > 0 && ps[0] == Start(data, threads)
    && (forall k :: 0 <= k < |ps| ==> |ps[k].threads| == threads)
    && forall k :: 0 <= k < |ps| - 1 ==> Next(data, ps[k], ps[k + 1])
  }

  lemma {:induction false} RunInv(data: seq<Loaded>, threads: nat, ps: seq<Pool>)
    requires Usable(data, threads) && IsRun(data, threads, ps)
    ensures Inv(data, ps[|ps| - 1])
    decreases |ps|
  {
    hide Inv, Next, Start, Usable;
    if |ps| == 1 {
      StartInv(data, threads);
    } else {
      RunInv(data, threads, ps[..|ps| - 1]);
      NextInv(data, ps[|ps| - 2], ps[|ps| - 1]);
    }
  }

  /** The instances below n. */
  function Below(n: nat): (s: set<nat>)
    ensures |s| == n && forall i: nat :: i in s <==> i < n
  {
    if n == 0 then {} else Below(n - 1) + {n - 1}
  }

  lemma CountedIsWritten(data: seq<Loaded>, p: Pool)
    requires Usable(data, |p.threads|) && Inv(data, p)
    ensures Counted(data, p) <= Below(|data|)
    ensures forall i: nat :: i in Counted(data, p) ==> Written(data, p, i)
  {
    forall i: nat | i in Counted(data, p)
      ensures i < |data| && Written(data, p, i)
    {
      WrittenWhenCounted(data, p, i);
    }
  }

  lemma WrittenWhenCounted(data: seq<Loaded>, p: Pool, i: nat)
    requires Usable(data, |p.threads|) && Inv(data, p) && i in Counted(data, p)
    ensures i < |data| && Written(data, p, i)
  {
    hide Ptt, ChunkStart, ChunkEnd;
    var t: nat :| t < |p.threads| && CountedBy(data, p, t, i);
    assert ThreadOk(data, p, t);
  }

  lemma {:induction false} SubsetFull(a: set<nat>, b: set<nat>)
    requires a <= b && |a| >= |b|
    ensures a == b
    decreases |b|
  {
    if a == {} {
    } else {
      var x :| x in a;
      SubsetFull(a - {x}, b - {x});
      assert a == (a - {x}) + {x} && b == (b - {x}) + {x};
    }
  }

  /** In every interleaving the counter never exceeds the number of instances with both
      results written, and when the main thread has left its polling loop, every result of
      every instance is in place and is the brute-force ratio of its samples. */
  lemma PollingIsSafe(data: seq<Loaded>, threads: nat, ps: seq<Pool>)
    requires Usable(data, threads) && IsRun(data, threads, ps)
    ensures var p := ps[|ps| - 1];
            && |p.ptt1| == |p.ptt5| == |data|
            && p.done == |Counted(data, p)| <= |data|
            && (forall i: nat :: i in Counted(data, p) ==> i < |data| && Written(data, p, i))
            && (Exited(data, p) ==> forall i: nat :: i < |data| ==> Written(data, p, i))
  {
    hide Ptt, ThreadOk, Counted;
    var p := ps[|ps| - 1];
    RunInv(data, threads, ps);
    CountedIsWritten(data, p);
    SubsetSize(Counted(data, p), Below(|data|));
    if Exited(data, p) {
      SubsetFull(Counted(data, p), Below(|data|));
    }
  }

  lemma {:induction false} SubsetSize(a: set<nat>, b: set<nat>)
    requires a <= b
    ensures |a| <= |b|
    decreases |a|
  {
    if a != {} {
      var x :| x in a;
      SubsetSize(a - {x}, b - {x});
    }
  }

  // ----- Progress -----

  /** Unless every instance has been counted, some worker can take a step. */
  lemma WorkerCanStep(data: seq<Loaded>, p: Pool)
    requires Usable(data, |p.threads|) && Inv(data, p) && p.done < |data|
    ensures exists t, p' :: WorkerStep(data, p, t, p')
  {
    hide Ptt, ChunkStart, ChunkEnd;
    if forall i: nat :: i < |data| ==> i in Counted(data, p) {
      SubsetSize(Below(|data|), Counted(data, p));
    }
    var i: nat :| i < |data| && i !in Counted(data, p);
    ChunksPartition(|data|, |p.threads|, i);
    var t: nat := i / ChunkSize(|data|, |p.threads|);
    assert InChunk(|data|, |p.threads|, t, i);
    assert ThreadOk(data, p, t) && !CountedBy(data, p, t, i);
    var th := p.threads[t];
    var p' := match th.phase
              case First => p.(ptt1 := p.ptt1[th.i := Some(Ptt(data[th.i], WINDOW_1MIN))],
                               threads := p.threads[t := Thread(th.i, Second)])
              case Second => p.(ptt5 := p.ptt5[th.i := Some(Ptt(data[th.i], WINDOW_5MIN))],
                                threads := p.threads[t := Thread(th.i, Bump)])
              case Bump => p.(done := p.done + 1, threads := p.threads[t := Thread(th.i + 1, First)]);
    assert WorkerStep(data, p, t, p');
  }

  // ----- How much there is to do -----

  /** Where the first t chunks end. */
  function Cut(count: nat, threads: nat, t: nat): (c: nat)
    requires 1 <= threads <= count
    ensures c <= count
  {
    var start := ChunkStart(count, threads, t);
    if start < count then start else count
  }

  function Done(ph: Phase): nat {
    match ph case First => 0 case Second => 1 case Bump => 2
  }

  /** The steps thread t has taken. */
  function Work(data: seq<Loaded>, p: Pool, t: nat): int
    requires 1 <= |p.threads| <= |data| && t < |p.threads|
  {
    3 * (p.threads[t].i - ChunkStart(|data|, |p.threads|, t)) + Done(p.threads[t].phase)
  }

  function TotalWork(data: seq<Loaded>, p: Pool, k: nat): int
    requires 1 <= |p.threads| <= |data| && k <= |p.threads|
  {
    if k == 0 then 0 else TotalWork(data, p, k - 1) + Work(data, p, k - 1)
  }

  ghost predicate ChunkDone(data: seq<Loaded>, p: Pool, t: nat)
    requires 1 <= |p.threads| <= |data| && t < |p.threads|
  {
    p.threads[t].i >= ChunkEnd(|data|, |p.threads|, t)
  }

  /** Three steps for each instance of the chunk, when it is done and not before. */
  lemma WorkOfThread(data: seq<Loaded>, p: Pool, t: nat)
    requires Usable(data, |p.threads|) && Inv(data, p) && t < |p.threads|
    ensures var quota := 3 * (Cut(|data|, |p.threads|, t + 1) - Cut(|data|, |p.threads|, t));
            Work(data, p, t) <= quota && (Work(data, p, t) == quota <==> ChunkDone(data, p, t))
  {
    hide Inv;
    ThreadIsOk(data, p, t);
    NextChunk(|data|, |p.threads|, t);
    hide ChunkStart;
  }

  lemma NextChunk(count: nat, threads: nat, t: nat)
    requires 1 <= threads <= count
    ensures ChunkStart(count, threads, t) <= ChunkStart(count, threads, t + 1)
    ensures ChunkEnd(count, threads, t) == Cut(count, threads, t + 1)
    ensures ChunkStart(count, threads, 0) == 0
  {
  }

  lemma NothingCut(count: nat, threads: nat)
    requires 1 <= threads <= count
    ensures Cut(count, threads, 0) == 0
  {
    NextChunk(count, threads, 0);
  }

  lemma {:induction false} TotalWorkBound(data: seq<Loaded>, p: Pool, k: nat)
    requires Usable(data, |p.threads|) && Inv(data, p) && k <= |p.threads|
    ensures TotalWork(data, p, k) <= 3 * Cut(|data|, |p.threads|, k)
    ensures TotalWork(data, p, k) == 3 * Cut(|data|, |p.threads|, k) <==>
            forall t :: 0 <= t < k ==> ChunkDone(data, p, t)
  {
    hide Inv, ChunkDone, Work, Cut;
    if k == 0 {
      NothingCut(|data|, |p.threads|);
    } else {
      TotalWorkBound(data, p, k - 1);
      WorkOfThread(data, p, k - 1);
    }
  }

  /** Everything is counted exactly when every chunk is done. */
  lemma AllCountedIff(data: seq<Loaded>, p: Pool)
    requires Usable(data, |p.threads|) && Inv(data, p)
    ensures p.done <= |data|
    ensures p.done == |data| <==> forall t :: 0 <= t < |p.threads| ==> ChunkDone(data, p, t)
  {
    hide Ptt, ChunkStart, ChunkEnd, ThreadOk;
    CountedIsWritten(data, p);
    SubsetSize(Counted(data, p), Below(|data|));
    if p.done == |data| {
      SubsetFull(Counted(data, p), Below(|data|));
      forall t | 0 <= t < |p.threads|
        ensures ChunkDone(data, p, t)
      {
        ChunkDoneWhenCounted(data, p, t);
      }
    }
    if forall t :: 0 <= t < |p.threads| ==> ChunkDone(data, p, t) {
      forall i: nat | i < |data|
        ensures i in Counted(data, p)
      {
        CountedWhenChunksDone(data, p, i);
      }
      SubsetSize(Below(|data|), Counted(data, p));
    }
  }

  lemma ChunkDoneWhenCounted(data: seq<Loaded>, p: Pool, t: nat)
    requires Usable(data, |p.threads|) && Inv(data, p) && t < |p.threads|
    requires forall i: nat :: i < |data| ==> i in Counted(data, p)
    ensures ChunkDone(data, p, t)
  {
    hide Inv, Counted;
    if p.threads[t].i < ChunkEnd(|data|, |p.threads|, t) {
      NotInCounted(data, p, t);
    }
  }

  lemma NotInCounted(data: seq<Loaded>, p: Pool, t: nat)
    requires Usable(data, |p.threads|) && Inv(data, p) && t < |p.threads|
    requires p.threads[t].i < ChunkEnd(|data|, |p.threads|, t)
    ensures p.threads[t].i !in Counted(data, p)
  {
    hide Inv, Ptt, CountedBy;
    forall u: nat
      ensures !CountedBy(data, p, u, p.threads[t].i)
    {
      NotYetCounted(data, p, t, u);
    }
  }

  lemma CountedWhenChunksDone(data: seq<Loaded>, p: Pool, i: nat)
    requires Usable(data, |p.threads|) && i < |data|
    requires forall t :: 0 <= t < |p.threads| ==> ChunkDone(data, p, t)
    ensures i in Counted(data, p)
  {
    hide ChunkStart, ChunkEnd;
    ChunksPartition(|data|, |p.threads|, i);
    var t: nat := i / ChunkSize(|data|, |p.threads|);
    assert InChunk(|data|, |p.threads|, t, i) && ChunkDone(data, p, t);
    assert CountedBy(data, p, t, i);
  }

  lemma {:induction false} TotalWorkStep(data: seq<Loaded>, p: Pool, t: nat, p': Pool, k: nat)
    requires Usable(data, |p.threads|) && WorkerStep(data, p, t, p') && k <= |p.threads| == |p'.threads|
    ensures TotalWork(data, p', k) == TotalWork(data, p, k) + if t < k then 1 else 0
  {
    if k > 0 {
      hide ChunkStart, ChunkEnd, Ptt;
      TotalWorkStep(data, p, t, p', k - 1);
    }
  }

  lemma {:induction false} TotalWorkSame(data: seq<Loaded>, p: Pool, p': Pool, k: nat)
    requires 1 <= |p.threads| <= |data| && p'.threads == p.threads && k <= |p.threads|
    ensures TotalWork(data, p', k) == TotalWork(data, p, k)
  {
    if k > 0 {
      TotalWorkSame(data, p, p', k - 1);
    }
  }

  lemma {:induction false} NoWorkYet(data: seq<Loaded>, threads: nat, k: nat)
    requires Usable(data, threads) && k <= threads
    ensures TotalWork(data, Start(data, threads), k) == 0
  {
    if k > 0 {
      NoWorkYet(data, threads, k - 1);
    }
  }

  /** The steps of a run that were taken by workers: those that move a thread. */
  function WorkerSteps(ps: seq<Pool>): nat {
    if |ps| <= 1 then 0
    else
      var k := |ps| - 1;
      WorkerSteps(ps[..k]) + if ps[k].threads != ps[k - 1].threads then 1 else 0
  }

  lemma StepWorks(data: seq<Loaded>, p: Pool, p': Pool)
    requires Usable(data, |p.threads|) && |p'.threads| == |p.threads| && Next(data, p, p')
    ensures TotalWork(data, p', |p.threads|) ==
            TotalWork(data, p, |p.threads|) + if p'.threads != p.threads then 1 else 0
  {
    hide ChunkStart, ChunkEnd, Ptt, TotalWork;
    if PollStep(data, p, p') {
      TotalWorkSame(data, p, p', |p.threads|);
    } else {
      var t: nat :| WorkerStep(data, p, t, p');
      TotalWorkStep(data, p, t, p', |p.threads|);
      assert p'.threads[t] != p.threads[t];
    }
  }

  lemma {:induction false} RunWorks(data: seq<Loaded>, threads: nat, ps: seq<Pool>)
    requires Usable(data, threads) && IsRun(data, threads, ps)
    ensures WorkerSteps(ps) == TotalWork(data, ps[|ps| - 1], threads)
    decreases |ps|
  {
    hide Next, Start, TotalWork;
    if |ps| == 1 {
      NoWorkYet(data, threads, threads);
    } else {
      RunWorks(data, threads, ps[..|ps| - 1]);
      StepWorks(data, ps[|ps| - 2], ps[|ps| - 1]);
    }
  }

  /** No run holds more than three worker steps for each instance, and it holds that many just
      when everything is counted; the next look at the counter then ends the polling. */
  lemma {:induction false} WorkIsBounded(data: seq<Loaded>, threads: nat, ps: seq<Pool>)
    requires Usable(data, threads) && IsRun(data, threads, ps)
    ensures var p := ps[|ps| - 1];
            && WorkerSteps(ps) <= 3 * |data|
            && (WorkerSteps(ps) == 3 * |data| <==> p.done == |data|)
            && (p.done == |data| <==> Exited(data, p.(seen := Some(p.done))))
  {
    hide Inv, Cut, Next, Start, TotalWork, ChunkDone;
    var p := ps[|ps| - 1];
    RunInv(data, threads, ps);
    RunWorks(data, threads, ps);
    TotalWorkBound(data, p, threads);
    CutAll(|data|, threads);
    AllCountedIff(data, p);
  }

  lemma CutAll(count: nat, threads: nat)
    requires 1 <= threads <= count
    ensures Cut(count, threads, threads) == count
  {
    CeilingCovers(count, threads);
  }

  // ----- From sorted rows to written ratios -----

  /** The instances made of sorted rows are what the workers need. */
  lemma GroupsAreUsable(rows: seq<Row>, cuts: seq<nat>, data: seq<Loaded>, threads: nat)
    requires Sorted(rows) && Partition(rows, |rows|, cuts, data) && 1 <= threads <= |data|
    ensures Usable(data, threads)
  {
    hide IsGroup, Sorted, Ascending;
    forall g | 0 <= g < |data|
      ensures |data[g].ts| == |data[g].vals| && Ascending(data[g].ts)
    {
      assert IsGroup(rows, cuts[g], cuts[g + 1], data[g]);
      GroupAscends(rows, cuts[g], cuts[g + 1], data[g]);
    }
  }

  /** Samples i and j are among the rows from a to k that are at most length milliseconds older
      than row k, and all of those are positive. */
  ghost predicate RowsShare(rows: seq<Row>, a: nat, length: int, k: nat, i: nat, j: nat): (s: bool)
    ensures s ==> i < |rows| && j < |rows| && rows[j].val > 0.0
  {
    && a <= i <= k < |rows| && a <= j <= k
    && rows[k].ts - rows[i].ts <= length && rows[k].ts - rows[j].ts <= length
    && rows[j].val > 0.0
    && forall m :: a <= m <= k && rows[k].ts - rows[m].ts <= length ==> rows[m].val > 0.0
  }

  /** r is one, or the greatest ratio of two such samples of the rows a up to b. */
  ghost predicate IsGreatestRatio(rows: seq<Row>, a: nat, b: nat, length: int, r: real) {
    && r >= 1.0
    && (forall k: nat, i: nat, j: nat :: k < b && RowsShare(rows, a, length, k, i, j) ==> rows[i].val / rows[j].val <= r)
    && (r == 1.0 || exists k: nat, i: nat, j: nat ::
          k < b && RowsShare(rows, a, length, k, i, j) && rows[i].val / rows[j].val == r)
  }

  lemma ShareOfRows(rows: seq<Row>, a: nat, b: nat, w: int, k: nat, i: nat, j: nat)
    requires a <= k < b <= |rows| && a <= i && a <= j
    ensures var ts, pos := Timestamps(rows[a..b]), Signs(Values(rows[a..b]));
            SharedAt(ts, pos, w, k - a, i - a, j - a) <==> RowsShare(rows, a, w, k, i, j)
  {
    var ts, pos := Timestamps(rows[a..b]), Signs(Values(rows[a..b]));
    assert forall m :: a <= m < b ==> ts[m - a] == rows[m].ts && pos[m - a] == (rows[m].val > 0.0);
    if SharedAt(ts, pos, w, k - a, i - a, j - a) {
      forall m | a <= m <= k && rows[k].ts - rows[m].ts <= w
        ensures rows[m].val > 0.0
      {
        assert InWindow(ts, w, k - a, m - a);
      }
    }
  }

  lemma GreatestRatioOfRows(rows: seq<Row>, a: nat, b: nat, w: int)
    requires a < b <= |rows| && w >= 0
    ensures IsGreatestRatio(rows, a, b, w, MaxRatio(Timestamps(rows[a..b]), Values(rows[a..b]), w, b - a))
  {
    hide SharedAt, RowsShare, MaxRatio;
    var ts, vals := Timestamps(rows[a..b]), Values(rows[a..b]);
    var r := MaxRatio(ts, vals, w, b - a);
    forall k: nat, i: nat, j: nat | k < b && RowsShare(rows, a, w, k, i, j)
      ensures rows[i].val / rows[j].val <= r
    {
      RowsShareInRange(rows, a, w, k, i, j);
      ShareOfRows(rows, a, b, w, k, i, j);
      SharedRatioBounds(ts, vals, w, b - a, k - a, i - a, j - a);
    }
    if r > 1.0 {
      var k, i, j := SharedRatioAttained(ts, vals, w, b - a);
      SharedInRange(ts, Signs(vals), w, k, i, j);
      ShareOfRows(rows, a, b, w, k + a, i + a, j + a);
      assert RowsShare(rows, a, w, k + a, i + a, j + a) && rows[i + a].val / rows[j + a].val == r;
    }
  }

  lemma RowsShareInRange(rows: seq<Row>, a: nat, w: int, k: nat, i: nat, j: nat)
    requires RowsShare(rows, a, w, k, i, j)
    ensures a <= i <= k < |rows| && a <= j <= k
  {
  }

  lemma SharedInRange(ts: seq<int>, pos: seq<bool>, w: int, k: nat, i: nat, j: nat)
    requires |ts| == |pos| && SharedAt(ts, pos, w, k, i, j)
    ensures k < |ts| && i <= k && j <= k
  {
  }

  /** Rows a up to b have one identifier, and this is their result for windows of that length. */
  ghost predicate GroupResult(rows: seq<Row>, a: nat, b: nat, id: string, length: int, r: Option<real>) {
    && a < b <= |rows| && (forall i :: a <= i < b ==> rows[i].id == id)
    && r.Some? && IsGreatestRatio(rows, a, b, length, r.value)
  }

  predicate PositiveRows(rows: seq<Row>, a: nat, b: nat) {
    forall i :: a <= i < b && i < |rows| ==> rows[i].val > 0.0
  }

  predicate NotBelow(x: Option<real>, y: Option<real>) {
    x.Some? && y.Some? && x.value >= y.value
  }

  /** Whatever the interleaving: when the main thread stops polling, each group of sorted rows
      has its result for windows of one minute, and its result for windows of five, which is not
      below the first when all its values are positive. */
  lemma RowsToRatios(rows: seq<Row>, cuts: seq<nat>, data: seq<Loaded>, threads: nat, ps: seq<Pool>)
    requires Sorted(rows) && Partition(rows, |rows|, cuts, data) && 1 <= threads <= |data|
    requires Usable(data, threads) && IsRun(data, threads, ps) && Exited(data, ps[|ps| - 1])
    ensures var p := ps[|ps| - 1];
            && |p.ptt1| == |p.ptt5| == |data|
            && forall g :: 0 <= g < |data| ==>
                 && GroupResult(rows, cuts[g], cuts[g + 1], data[g].id, 60000, p.ptt1[g])
                 && GroupResult(rows, cuts[g], cuts[g + 1], data[g].id, 300000, p.ptt5[g])
                 && (PositiveRows(rows, cuts[g], cuts[g + 1]) ==> NotBelow(p.ptt5[g], p.ptt1[g]))
  {
    hide Sorted, Exited, IsGroup, GroupResult, PositiveRows, NotBelow;
    var p := ps[|ps| - 1];
    PollingIsSafe(data, threads, ps);
    forall g | 0 <= g < |data|
      ensures GroupResult(rows, cuts[g], cuts[g + 1], data[g].id, 60000, p.ptt1[g])
      ensures GroupResult(rows, cuts[g], cuts[g + 1], data[g].id, 300000, p.ptt5[g])
      ensures PositiveRows(rows, cuts[g], cuts[g + 1]) ==> NotBelow(p.ptt5[g], p.ptt1[g])
    {
      WrittenGroup(rows, cuts[g], cuts[g + 1], data, p, g);
    }
  }

  lemma WrittenGroup(rows: seq<Row>, a: nat, b: nat, data: seq<Loaded>, p: Pool, g: nat)
    requires g < |data| == |p.ptt1| == |p.ptt5| && IsGroup(rows, a, b, data[g])
    requires |data[g].ts| == |data[g].vals| && Ascending(data[g].ts) && Written(data, p, g)
    ensures GroupResult(rows, a, b, data[g].id, 60000, p.ptt1[g])
    ensures GroupResult(rows, a, b, data[g].id, 300000, p.ptt5[g])
    ensures PositiveRows(rows, a, b) ==> NotBelow(p.ptt5[g], p.ptt1[g])
  {
    hide IsGreatestRatio, MaxRatio;
    var ts, vals := Timestamps(rows[a..b]), Values(rows[a..b]);
    GreatestRatioOfRows(rows, a, b, 60000);
    GreatestRatioOfRows(rows, a, b, 300000);
    if PositiveRows(rows, a, b) {
      MaxRatioMonotone(ts, vals, 60000, 300000);
    }
  }
}
