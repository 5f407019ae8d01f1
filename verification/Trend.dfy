/** The memory trend of a run: a series cut into windows, each window's largest sample kept, and the
    check that calls a never-falling, rising trend a leak. */
module Trend {
  import opened Integers

  /** Where window `w` of `n` starts. */
  function Cut(len: nat, n: nat, w: nat): (c: nat)
    requires n > 0
  {
    QuotientNonNegative(w * len, n);
    w * len / n
  }

  function Windows(series: seq<nat>, windows: nat): nat {
    if windows < |series| then windows else |series|
  }

  /** `m` is the largest of `s`. */
  ghost predicate IsMax(s: seq<nat>, m: nat) {
    m in s && forall i :: 0 <= i < |s| ==> s[i] <= m
  }

  /** Window `w` of the series. */
  function Piece(series: seq<nat>, n: nat, w: nat): seq<nat>
    requires n > 0
  {
    Between(series, Cut(|series|, n, w), Cut(|series|, n, w + 1))
  }

  function Between(series: seq<nat>, a: nat, b: nat): seq<nat> {
    if a <= b <= |series| then series[a..b] else []
  }

  lemma CutEnds(len: nat, n: nat)
    requires 0 < n <= len
    ensures Cut(len, n, 0) == 0 && Cut(len, n, n) == len
  {
    QuotientIs(n * len, n, len, 0) by { assert n * len == len * n; }
    QuotientIs(0, n, 0, 0);
  }

  lemma CutStep(len: nat, n: nat, w: nat)
    requires 0 < n <= len && w < n
    ensures Cut(len, n, w) < Cut(len, n, w + 1) <= len
  {
    var x := w * len;
    assert (w + 1) * len == x + len;
    QuotientIs(x + n, n, x / n + 1, x % n) by { assert (x / n + 1) * n == x / n * n + n; }
    QuotientMonotone(x + n, x + len, n);
    MulMonotone(w + 1, n, len);
    QuotientMonotone((w + 1) * len, n * len, n);
    CutEnds(len, n);
  }

  /** The windows are consecutive, none is empty, and together they are the whole series. */
  lemma {:induction false} WindowsPartition(series: seq<nat>, n: nat, k: nat)
    requires 0 < n <= |series| && k <= n
    ensures Cut(|series|, n, k) <= |series|
    ensures Joined(series, n, k) == series[..Cut(|series|, n, k)]
    ensures k > 0 ==> Piece(series, n, k - 1) != []
    ensures k == n ==> Joined(series, n, k) == series
  {
    CutEnds(|series|, n);
    hide Cut;
    if k == 0 {
    } else {
      WindowsPartition(series, n, k - 1);
      CutStep(|series|, n, k - 1);
    }
  }

  /** The windows are as equal as they can be: none is longer than another by more than one. */
  lemma WindowsEven(series: seq<nat>, n: nat, w: nat)
    requires 0 < n <= |series| && w < n
    ensures var len := |Piece(series, n, w)|; len == |series| / n || len == |series| / n + 1
  {
    CutStep(|series|, n, w);
    hide Cut;
    CutDistance(|series|, n, w);
  }

  lemma CutDistance(len: nat, n: nat, w: nat)
    requires 0 < n <= len && w < n
    ensures Cut(len, n, w) + len / n <= Cut(len, n, w + 1) <= Cut(len, n, w) + len / n + 1
  {
    assert (w + 1) * len == w * len + len;
    SumOfQuotients(w * len, len, n);
  }

  lemma SumOfQuotients(x: nat, y: nat, n: nat)
    requires n > 0
    ensures x / n + y / n <= (x + y) / n <= x / n + y / n + 1
  {
    Split(x, n);
    Split(y, n);
    Carry(x, y, n, x / n, y / n, x % n, y % n);
  }

  lemma Carry(x: nat, y: nat, n: nat, p: nat, q: nat, a: nat, b: nat)
    requires n > 0 && a < n && b < n && x == p * n + a && y == q * n + b
    ensures p + q <= (x + y) / n <= p + q + 1
  {
    Distributed(p, q, n);
    if a + b < n { QuotientIs(x + y, n, p + q, a + b); } else { QuotientIs(x + y, n, p + q + 1, a + b - n); }
  }

  lemma Split(x: nat, n: nat)
    requires n > 0
    ensures x == x / n * n + x % n
  {}

  lemma Distributed(p: int, q: int, n: int)
    ensures (p + q) * n == p * n + q * n && (p + q + 1) * n == p * n + q * n + n
  {}

  /** The first `k` windows, end to end. */
  function Joined(series: seq<nat>, n: nat, k: nat): seq<nat>
    requires n > 0
  {
    if k == 0 then [] else Joined(series, n, k - 1) + Piece(series, n, k - 1)
  }

  /** `trend` holds each window's largest sample, in order. */
  ghost predicate IsTrend(series: seq<nat>, n: nat, trend: seq<nat>)
    requires n > 0
  {
    |trend| == n && forall w :: 0 <= w < n ==> IsMax(Piece(series, n, w), trend[w])
  }

  /** The largest sample, 0 for none. */
  function MaxOf(s: seq<nat>): (m: nat)
    ensures s != [] ==> m in s && forall i :: 0 <= i < |s| ==> s[i] <= m
  {
    if s == [] then 0
    else
      var front, last := MaxOf(s[..|s| - 1]), s[|s| - 1];
      assert s == s[..|s| - 1] + [last];
      if last >= front then last else front
  }

  function WindowMax(series: seq<nat>, windows: nat): seq<nat> {
    if series == [] || windows == 0 then []
    else
      var n := Windows(series, windows);
      seq(n, w requires 0 <= w < n => MaxOf(Piece(series, n, w)))
  }

  /** The fallback for an empty window is never taken: each entry is its window's largest sample. */
  lemma WindowMaxIsTrend(series: seq<nat>, windows: nat)
    requires series != [] && windows > 0
    ensures IsTrend(series, Windows(series, windows), WindowMax(series, windows))
  {
    hide Piece, Cut;
    var n := Windows(series, windows);
    forall w | 0 <= w < n
      ensures IsMax(Piece(series, n, w), WindowMax(series, windows)[w])
    {
      WindowsPartition(series, n, w + 1);
    }
  }

  /** Never falling. */
  predicate NeverFalls(s: seq<nat>) {
    forall i :: 0 < i < |s| ==> s[i - 1] <= s[i]
  }

  predicate MonotonicGrowth(trend: seq<nat>) {
    |trend| >= 3 && NeverFalls(trend) && trend[|trend| - 1] > trend[0]
  }

  lemma {:induction false} NeverFallsFar(s: seq<nat>, i: nat, j: nat)
    requires NeverFalls(s) && i <= j < |s|
    ensures s[i] <= s[j]
  {
    if i == j {
    } else {
      NeverFallsFar(s, i, j - 1);
    }
  }

  /** The window a sample lies in. */
  lemma {:induction false} WindowOfSample(series: seq<nat>, n: nat, i: nat, k: nat) returns (w: nat)
    requires 0 < n <= |series| && k <= n && i < Cut(|series|, n, k) <= |series|
    ensures w < k && series[i] in Piece(series, n, w)
  {
    CutEnds(|series|, n);
    CutStep(|series|, n, k - 1);
    hide Cut;
    var a, b := Cut(|series|, n, k - 1), Cut(|series|, n, k);
    if i >= a {
      w := k - 1;
      assert series[i] == series[a..b][i - a];
    } else {
      w := WindowOfSample(series, n, i, k - 1);
    }
  }

  /** The largest sample of the run is the largest of the trend. */
  lemma OverallMaxKept(series: seq<nat>, n: nat, trend: seq<nat>, m: nat)
    requires 0 < n <= |series| && IsTrend(series, n, trend)
    ensures IsMax(series, m) <==> IsMax(trend, m)
  {
    CutEnds(|series|, n);
    hide Cut, Piece;
    forall w | 0 <= w < n ensures trend[w] in series { PieceInside(series, n, w, trend[w]); }
    if IsMax(series, m) {
      var i :| 0 <= i < |series| && series[i] == m;
      var w := WindowOfSample(series, n, i, n);
      assert m <= trend[w];
    }
    if IsMax(trend, m) {
      forall i | 0 <= i < |series| ensures series[i] <= m {
        var w := WindowOfSample(series, n, i, n);
        assert series[i] <= trend[w];
      }
    }
  }

  lemma PieceInside(series: seq<nat>, n: nat, w: nat, x: nat)
    requires n > 0 && x in Piece(series, n, w)
    ensures x in series
  {
    hide Cut;
  }

  /** A series that never falls has a trend that never falls. */
  lemma MonotoneKept(series: seq<nat>, n: nat, trend: seq<nat>)
    requires 0 < n <= |series| && IsTrend(series, n, trend) && NeverFalls(series)
    ensures NeverFalls(trend)
  {
    hide Cut;
    forall w | 0 < w < n ensures trend[w - 1] <= trend[w] {
      CutStep(|series|, n, w - 1);
      CutStep(|series|, n, w);
      NextPeak(series, Cut(|series|, n, w - 1), Cut(|series|, n, w), Cut(|series|, n, w + 1), trend[w - 1], trend[w]);
    }
  }

  lemma NextPeak(series: seq<nat>, a: nat, b: nat, c: nat, before: nat, here: nat)
    requires a < b < c <= |series| && NeverFalls(series)
    requires IsMax(series[a..b], before) && IsMax(series[b..c], here)
    ensures before <= here
  {
    hide NeverFalls;
    var k :| 0 <= k < b - a && series[a..b][k] == before;
    NeverFallsFar(series, a + k, b);
    assert series[b..c][0] == series[b];
  }

  ghost predicate AboveAll(s: seq<nat>, x: nat) {
    forall i :: 0 <= i < |s| ==> s[i] < x
  }

  /** A run is called a leak, judged from window `skip` on (the sampled memory of a GPU leaves out its
      first), exactly when at least three windows are judged, no later one's peak is below an earlier
      one's, and the last holds a sample above every sample of the first. */
  lemma GrowthIsReal(series: seq<nat>, n: nat, trend: seq<nat>, skip: nat)
    requires 0 < n <= |series| && IsTrend(series, n, trend) && skip <= n
    ensures MonotonicGrowth(trend[skip..]) <==>
        n - skip >= 3 && PeaksRise(trend, skip)
        && exists x :: x in Piece(series, n, n - 1) && AboveAll(Piece(series, n, skip), x)
  {
    hide Piece;
    if MonotonicGrowth(trend[skip..]) {
      assert trend[n - 1] in Piece(series, n, n - 1) && AboveAll(Piece(series, n, skip), trend[n - 1]);
      forall v, w | skip <= v <= w < n ensures trend[v] <= trend[w] {
        NeverFallsFar(trend[skip..], v - skip, w - skip);
      }
    } else if n - skip >= 3 && PeaksRise(trend, skip) {
      assert trend[skip] in Piece(series, n, skip);
      assert trend[n - 1] <= trend[skip];
    }
  }

  ghost predicate PeaksRise(trend: seq<nat>, skip: nat) {
    forall v, w :: skip <= v <= w < |trend| ==> trend[v] <= trend[w]
  }
}
