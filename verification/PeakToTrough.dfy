/** The largest peak-to-trough ratio over backward-looking time windows. */
module PeakToTrough {

  /** j is in the backward window of i. */
  predicate InWindow(ts: seq<int>, w: int, i: nat, j: nat)
    requires i < |ts| && j < |ts|
  {
    j <= i && ts[i] - ts[j] <= w
  }

  ghost predicate Ascending(ts: seq<int>) {
    forall i, j :: 0 <= i <= j < |ts| ==> ts[i] <= ts[j]
  }

  // ----- By brute force -----

  /** The least value in the window of i, looking at every index below k and at i itself. */
  function WindowMin(ts: seq<int>, vals: seq<real>, w: int, i: nat, k: nat): real
    requires i < |ts| == |vals| && k <= i
  {
    if k == 0 then vals[i]
    else
      var m := WindowMin(ts, vals, w, i, k - 1);
      if InWindow(ts, w, i, k - 1) && vals[k - 1] < m then vals[k - 1] else m
  }

  function WindowMax(ts: seq<int>, vals: seq<real>, w: int, i: nat, k: nat): real
    requires i < |ts| == |vals| && k <= i
  {
    if k == 0 then vals[i]
    else
      var m := WindowMax(ts, vals, w, i, k - 1);
      if InWindow(ts, w, i, k - 1) && vals[k - 1] > m then vals[k - 1] else m
  }

  /** One, or the greatest ratio of a window with positive minimum among the first n. */
  function MaxRatio(ts: seq<int>, vals: seq<real>, w: int, n: nat): (r: real)
    requires n <= |ts| == |vals|
    ensures r >= 1.0
  {
    if n == 0 then 1.0
    else
      var m := MaxRatio(ts, vals, w, n - 1);
      var lo, hi := WindowMin(ts, vals, w, n - 1, n - 1), WindowMax(ts, vals, w, n - 1, n - 1);
      if lo > 0.0 && hi / lo > m then hi / lo else m
  }

  // ----- With two pointers -----

  /** left is where the window of right begins. */
  ghost predicate Begins(ts: seq<int>, w: int, right: nat, left: nat)
    requires right < |ts|
  {
    left <= right && forall j :: 0 <= j <= right ==> (InWindow(ts, w, right, j) <==> left <= j)
  }

  /** Scanning from where the window begins gives the same extremes as looking everywhere. */
  ghost predicate IsMin(ts: seq<int>, vals: seq<real>, w: int, i: nat, m: real)
    requires i < |ts| == |vals|
  {
    && (forall j :: 0 <= j <= i && InWindow(ts, w, i, j) ==> m <= vals[j])
    && exists j :: 0 <= j <= i && InWindow(ts, w, i, j) && vals[j] == m
  }

  ghost predicate IsMax(ts: seq<int>, vals: seq<real>, w: int, i: nat, m: real)
    requires i < |ts| == |vals|
  {
    && (forall j :: 0 <= j <= i && InWindow(ts, w, i, j) ==> m >= vals[j])
    && exists j :: 0 <= j <= i && InWindow(ts, w, i, j) && vals[j] == m
  }

  lemma {:induction false} WindowExtremes(ts: seq<int>, vals: seq<real>, w: int, i: nat, k: nat)
    requires i < |ts| == |vals| && k <= i && w >= 0
    ensures var m := WindowMin(ts, vals, w, i, k);
            && m <= vals[i] && (forall j :: 0 <= j < k && InWindow(ts, w, i, j) ==> m <= vals[j])
            && exists j :: (0 <= j < k || j == i) && InWindow(ts, w, i, j) && vals[j] == m
    ensures var m := WindowMax(ts, vals, w, i, k);
            && m >= vals[i] && (forall j :: 0 <= j < k && InWindow(ts, w, i, j) ==> m >= vals[j])
            && exists j :: (0 <= j < k || j == i) && InWindow(ts, w, i, j) && vals[j] == m
  {
    if k == 0 {
      assert InWindow(ts, w, i, i);
    } else {
      WindowExtremes(ts, vals, w, i, k - 1);
    }
  }

  lemma ExtremesUnique(ts: seq<int>, vals: seq<real>, w: int, i: nat, lo: real, hi: real)
    requires i < |ts| == |vals| && w >= 0
    ensures IsMin(ts, vals, w, i, lo) <==> lo == WindowMin(ts, vals, w, i, i)
    ensures IsMax(ts, vals, w, i, hi) <==> hi == WindowMax(ts, vals, w, i, i)
  {
    WindowExtremes(ts, vals, w, i, i);
  }

  method SlidingMaxPtt(ts: array<int>, vals: array<real>, n: nat, window: int) returns (maxRatio: real)
    requires n <= ts.Length && n <= vals.Length && Ascending(ts[..n]) && window >= 0
    ensures maxRatio == MaxRatio(ts[..n], vals[..n], window, n)
  {
    hide WindowMin, WindowMax, Ascending, InWindow;
    ghost var T, V := ts[..n], vals[..n];
    maxRatio := 1.0;
    var left := 0;
    for right := 0 to n
      invariant left <= right && (n > 0 ==> left < n)
      invariant forall j :: 0 <= j < left && right < n ==> T[right] - T[j] > window
      invariant maxRatio == MaxRatio(T, V, window, right)
    {
      while ts[right] - ts[left] > window
        invariant left <= right
        invariant forall j :: 0 <= j < left ==> T[right] - T[j] > window
        decreases right - left
      {
        left := left + 1;
      }
      WindowBegins(T, window, right, left);
      var winMin, winMax := vals[left], vals[left];
      for k := left + 1 to right + 1
        invariant forall j :: left <= j < k ==> winMin <= V[j] <= winMax
        invariant exists j :: left <= j < k && V[j] == winMin
        invariant exists j :: left <= j < k && V[j] == winMax
      {
        if vals[k] < winMin {
          winMin := vals[k];
        }
        if vals[k] > winMax {
          winMax := vals[k];
        }
      }
      ScannedExtremes(T, V, window, right, left, winMin, winMax);
      ExtremesUnique(T, V, window, right, winMin, winMax);
      if winMin > 0.0 {
        var ratio := winMax / winMin;
        if ratio > maxRatio {
          maxRatio := ratio;
        }
      }
    }
  }

  /** What is too old for one index is too old for the next, and all else is in the window. */
  lemma WindowBegins(ts: seq<int>, w: int, right: nat, left: nat)
    requires Ascending(ts) && left <= right < |ts| && ts[right] - ts[left] <= w
    requires forall j :: 0 <= j < left ==> ts[right] - ts[j] > w
    ensures Begins(ts, w, right, left)
    ensures right + 1 < |ts| ==> forall j :: 0 <= j < left ==> ts[right + 1] - ts[j] > w
  {
  }

  lemma ScannedExtremes(ts: seq<int>, vals: seq<real>, w: int, right: nat, left: nat, lo: real, hi: real)
    requires right < |ts| == |vals| && Begins(ts, w, right, left)
    requires forall j :: left <= j <= right ==> lo <= vals[j] <= hi
    requires exists j :: left <= j <= right && vals[j] == lo
    requires exists j :: left <= j <= right && vals[j] == hi
    ensures IsMin(ts, vals, w, right, lo) && IsMax(ts, vals, w, right, hi)
  {
    var a :| left <= a <= right && vals[a] == lo;
    var b :| left <= b <= right && vals[b] == hi;
    assert InWindow(ts, w, right, a) && InWindow(ts, w, right, b);
  }

  // ----- What the ratio means -----

  /** Which values are positive. */
  function Signs(vals: seq<real>): (pos: seq<bool>)
    ensures |pos| == |vals| && forall i :: 0 <= i < |vals| ==> pos[i] == (vals[i] > 0.0)
  {
    seq(|vals|, i requires 0 <= i < |vals| => vals[i] > 0.0)
  }

  /** i and j are in the window of k, and the minimum of that window is positive. */
  ghost predicate SharedAt(ts: seq<int>, pos: seq<bool>, w: int, k: nat, i: nat, j: nat)
    requires |ts| == |pos|
  {
    && k < |ts| && i <= k && j <= k && InWindow(ts, w, k, i) && InWindow(ts, w, k, j)
    && forall m :: 0 <= m <= k && InWindow(ts, w, k, m) ==> pos[m]
  }

  /** Some window with positive minimum holds both samples. */
  ghost predicate Share(ts: seq<int>, pos: seq<bool>, w: int, i: nat, j: nat)
    requires |ts| == |pos|
  {
    exists k: nat :: SharedAt(ts, pos, w, k, i, j)
  }

  lemma RatioGrows(a: real, b: real, hi: real, lo: real)
    requires 0.0 < lo <= b && 0.0 < a <= hi
    ensures a / b <= hi / lo
  {
    var x, y, z := a / b, a / lo, hi / lo;
    assert x * b == a && y * lo == a && z * lo == hi;
    LessByProduct(x, y, b, lo);
    assert (z - y) * lo >= 0.0;
    NonnegativeFactor(z - y, lo);
  }

  lemma LessByProduct(x: real, y: real, b: real, lo: real)
    requires 0.0 < lo <= b && x * b == y * lo && y * lo > 0.0
    ensures x <= y
  {
    NonnegativeFactor(y, lo);
    GreaterProduct(x, y, b, lo);
  }

  lemma GreaterProduct(x: real, y: real, b: real, lo: real)
    requires 0.0 < lo <= b && y >= 0.0
    ensures x > y ==> x * b > y * lo
  {
    if x > y {
      SignOfProduct(y - x, b);
      assert y * (b - lo) >= 0.0;
      assert x * b - y * lo == y * (b - lo) - (y - x) * b;
    }
  }

  lemma SignOfProduct(x: real, k: real)
    requires k > 0.0
    ensures x < 0.0 ==> x * k < 0.0
  {
  }

  lemma NonnegativeFactor(x: real, k: real)
    requires k > 0.0 && x * k >= 0.0
    ensures x >= 0.0
  {
    SignOfProduct(x, k);
  }

  /** No ratio of two samples that share a window exceeds the result. */
  lemma {:induction false} SharedRatioBounds(ts: seq<int>, vals: seq<real>, w: int, n: nat, k: nat, i: nat, j: nat)
    requires k < n <= |ts| == |vals| && w >= 0 && SharedAt(ts, Signs(vals), w, k, i, j)
    ensures vals[i] / vals[j] <= MaxRatio(ts, vals, w, n)
    decreases n
  {
    if k < n - 1 {
      SharedRatioBounds(ts, vals, w, n - 1, k, i, j);
    } else {
      var lo, hi := WindowMin(ts, vals, w, k, k), WindowMax(ts, vals, w, k, k);
      ExtremesUnique(ts, vals, w, k, lo, hi);
      RatioGrows(vals[i], vals[j], hi, lo);
    }
  }

  /** A result above one is the ratio of two samples that share a window. */
  lemma {:induction false} SharedRatioAttained(ts: seq<int>, vals: seq<real>, w: int, n: nat)
    returns (k: nat, i: nat, j: nat)
    requires n <= |ts| == |vals| && w >= 0 && MaxRatio(ts, vals, w, n) > 1.0
    ensures k < n && SharedAt(ts, Signs(vals), w, k, i, j) && i != j
    ensures vals[j] > 0.0 && vals[i] / vals[j] == MaxRatio(ts, vals, w, n)
    decreases n
  {
    k := n - 1;
    var lo, hi := WindowMin(ts, vals, w, k, k), WindowMax(ts, vals, w, k, k);
    if lo > 0.0 && hi / lo > MaxRatio(ts, vals, w, k) {
      ExtremesUnique(ts, vals, w, k, lo, hi);
      i :| 0 <= i <= k && InWindow(ts, w, k, i) && vals[i] == hi;
      j :| 0 <= j <= k && InWindow(ts, w, k, j) && vals[j] == lo;
      SelfRatio(lo);
    } else {
      k, i, j := SharedRatioAttained(ts, vals, w, k);
    }
  }

  lemma SelfRatio(x: real)
    requires x > 0.0
    ensures x / x == 1.0
  {
  }

  // ----- Longer windows -----

  /** Two samples that share a window of length w also share one of length w'. */
  ghost predicate Covers(ts: seq<int>, pos: seq<bool>, w: int, w': int)
    requires |ts| == |pos|
  {
    forall i: nat, j: nat :: i != j && Share(ts, pos, w, i, j) ==> Share(ts, pos, w', i, j)
  }

  ghost predicate NeverLowers(ts: seq<int>, pos: seq<bool>, w: int, w': int)
    requires |ts| == |pos|
  {
    forall vals: seq<real> | |vals| == |ts| && Signs(vals) == pos ::
      MaxRatio(ts, vals, w, |ts|) <= MaxRatio(ts, vals, w', |ts|)
  }

  /** Whatever the positive values are, another window does not lower the result, if and only
      if every two samples that share a window still share one.  Timestamps and signs decide. */
  lemma NeverLowersIff(ts: seq<int>, pos: seq<bool>, w: int, w': int)
    requires |ts| == |pos| && w >= 0 && w' >= 0
    ensures NeverLowers(ts, pos, w, w') <==> Covers(ts, pos, w, w')
  {
    if Covers(ts, pos, w, w') {
      forall vals: seq<real> | |vals| == |ts| && Signs(vals) == pos
        ensures MaxRatio(ts, vals, w, |ts|) <= MaxRatio(ts, vals, w', |ts|)
      {
        CoveredIsNotLowered(ts, vals, w, w');
      }
    } else {
      var i: nat, j: nat :| i != j && Share(ts, pos, w, i, j) && !Share(ts, pos, w', i, j);
      UncoveredIsLowered(ts, pos, w, w', i, j);
    }
  }

  lemma CoveredIsNotLowered(ts: seq<int>, vals: seq<real>, w: int, w': int)
    requires |ts| == |vals| && w >= 0 && w' >= 0 && Covers(ts, Signs(vals), w, w')
    ensures MaxRatio(ts, vals, w, |ts|) <= MaxRatio(ts, vals, w', |ts|)
  {
    if MaxRatio(ts, vals, w, |ts|) > 1.0 {
      var k, i, j := SharedRatioAttained(ts, vals, w, |ts|);
      assert Share(ts, Signs(vals), w, i, j);
      var k': nat :| SharedAt(ts, Signs(vals), w', k', i, j);
      SharedRatioBounds(ts, vals, w', |ts|, k', i, j);
    }
  }

  /** Two at i, one half at j, one at every other positive sample. */
  function Contrast(pos: seq<bool>, i: nat, j: nat): (vals: seq<real>)
    requires i != j && i < |pos| && j < |pos| && pos[i] && pos[j]
    ensures |vals| == |pos| && Signs(vals) == pos
    ensures vals[i] == 2.0 && vals[j] == 0.5
    ensures forall m :: 0 <= m < |pos| && m != i && m != j && pos[m] ==> vals[m] == 1.0
  {
    var vals := seq(|pos|, m requires 0 <= m < |pos| =>
      if !pos[m] then 0.0 else if m == i then 2.0 else if m == j then 0.5 else 1.0);
    assert Signs(vals) == pos;
    vals
  }

  lemma UncoveredIsLowered(ts: seq<int>, pos: seq<bool>, w: int, w': int, i: nat, j: nat)
    requires |ts| == |pos| && w >= 0 && w' >= 0 && i != j
    requires Share(ts, pos, w, i, j) && !Share(ts, pos, w', i, j)
    ensures i < |pos| && j < |pos| && pos[i] && pos[j]
    ensures MaxRatio(ts, Contrast(pos, i, j), w, |ts|) >= 4.0
    ensures MaxRatio(ts, Contrast(pos, i, j), w', |ts|) <= 2.0
  {
    var k: nat :| SharedAt(ts, pos, w, k, i, j);
    var vals := Contrast(pos, i, j);
    SharedRatioBounds(ts, vals, w, |ts|, k, i, j);
    if MaxRatio(ts, vals, w', |ts|) > 2.0 {
      OnlyThatPairExceedsTwo(ts, pos, w', i, j);
    }
  }

  lemma OnlyThatPairExceedsTwo(ts: seq<int>, pos: seq<bool>, w: int, i: nat, j: nat)
    requires |ts| == |pos| && w >= 0 && i != j && i < |pos| && j < |pos| && pos[i] && pos[j]
    requires MaxRatio(ts, Contrast(pos, i, j), w, |ts|) > 2.0
    ensures Share(ts, pos, w, i, j)
  {
    var vals := Contrast(pos, i, j);
    var k, a, b := SharedRatioAttained(ts, vals, w, |ts|);
    FourAtMost(vals[a], vals[b]);
    assert SharedAt(ts, pos, w, k, i, j);
  }

  lemma FourAtMost(a: real, b: real)
    requires a in {0.5, 1.0, 2.0} && b in {0.5, 1.0, 2.0} && a / b > 2.0
    ensures a == 2.0 && b == 0.5
  {
  }

  // ----- When all values are positive -----

  ghost predicate AllPositive(vals: seq<real>) {
    forall i :: 0 <= i < |vals| ==> vals[i] > 0.0
  }

  /** Two samples at most w apart. */
  predicate Near(ts: seq<int>, w: int, i: nat, j: nat)
    requires i < |ts| && j < |ts|
  {
    -w <= ts[i] - ts[j] <= w
  }

  /** Then two samples share a window when they are near. */
  lemma ShareIsNear(ts: seq<int>, pos: seq<bool>, w: int, i: nat, j: nat)
    requires |ts| == |pos| && w >= 0 && Ascending(ts) && i < |ts| && j < |ts|
    requires forall m :: 0 <= m < |pos| ==> pos[m]
    ensures Share(ts, pos, w, i, j) <==> Near(ts, w, i, j)
  {
    var k := if i < j then j else i;
    if Near(ts, w, i, j) {
      assert SharedAt(ts, pos, w, k, i, j);
    }
  }

  /** No ratio of two near samples exceeds the result, whichever comes first in time. */
  lemma MaxRatioBounds(ts: seq<int>, vals: seq<real>, w: int, i: nat, j: nat)
    requires |ts| == |vals| && w >= 0 && Ascending(ts) && AllPositive(vals)
    requires i < |ts| && j < |ts| && Near(ts, w, i, j)
    ensures vals[i] / vals[j] <= MaxRatio(ts, vals, w, |ts|)
  {
    ShareIsNear(ts, Signs(vals), w, i, j);
    var k: nat :| SharedAt(ts, Signs(vals), w, k, i, j);
    SharedRatioBounds(ts, vals, w, |ts|, k, i, j);
  }

  /** And some pair of near samples attains it. */
  lemma MaxRatioAttained(ts: seq<int>, vals: seq<real>, w: int) returns (i: nat, j: nat)
    requires 0 < |ts| == |vals| && w >= 0 && Ascending(ts) && AllPositive(vals)
    ensures i < |ts| && j < |ts| && Near(ts, w, i, j) && vals[i] / vals[j] == MaxRatio(ts, vals, w, |ts|)
  {
    if MaxRatio(ts, vals, w, |ts|) > 1.0 {
      var k;
      k, i, j := SharedRatioAttained(ts, vals, w, |ts|);
      ShareIsNear(ts, Signs(vals), w, i, j);
    } else {
      i, j := 0, 0;
      SelfRatio(vals[0]);
    }
  }

  /** For positive values a longer window cannot lower the result. */
  lemma MaxRatioMonotone(ts: seq<int>, vals: seq<real>, w: int, w': int)
    requires |ts| == |vals| && 0 <= w <= w' && Ascending(ts) && AllPositive(vals)
    ensures MaxRatio(ts, vals, w, |ts|) <= MaxRatio(ts, vals, w', |ts|)
  {
    var pos := Signs(vals);
    forall i: nat, j: nat | Share(ts, pos, w, i, j)
      ensures Share(ts, pos, w', i, j)
    {
      ShareIsNear(ts, pos, w, i, j);
      ShareIsNear(ts, pos, w', i, j);
    }
    CoveredIsNotLowered(ts, vals, w, w');
  }

  lemma NothingShared(ts: seq<int>, pos: seq<bool>, w: int, i: nat, j: nat)
    requires |ts| == |pos| && |ts| > 0 && !pos[0]
    requires forall k :: 0 <= k < |ts| ==> InWindow(ts, w, k, 0)
    ensures !Share(ts, pos, w, i, j)
  {
  }

  /** With other values it can, for the two windows that are used: a zero that only the longer
      window reaches makes that window count for nothing. */
  lemma NotMonotoneWithZero()
    ensures var ts, vals := [0, 60000, 120000], [0.0, 0.5, 2.0];
            Ascending(ts) && MaxRatio(ts, vals, 60000, 3) >= 4.0 && MaxRatio(ts, vals, 300000, 3) <= 2.0
  {
    var ts, vals, pos := [0, 60000, 120000], [0.0, 0.5, 2.0], [false, true, true];
    assert Share(ts, pos, 60000, 2, 1) by {
      assert SharedAt(ts, pos, 60000, 2, 2, 1);
    }
    NothingShared(ts, pos, 300000, 2, 1);
    UncoveredIsLowered(ts, pos, 60000, 300000, 2, 1);
    assert Contrast(pos, 2, 1) == vals;
  }
}
