/** The gap-fill run's correctness gate, against the corpus its outages were cut from: which grids of
    buckets pass. */
module GapGate {
  import opened Wrappers
  import opened Integers
  import opened Points
  import opened GapFill

  /** A bucket of a query's answer: its timestamp and how many samples it holds, 0 if synthesized. */
  datatype Bucket = Bucket(at: int, count: nat)

  /** The timestamps of the synthesized buckets, in grid order. */
  function Filled(grid: seq<Bucket>): seq<int> {
    if grid == [] then []
    else Filled(grid[..|grid| - 1]) + if grid[|grid| - 1].count == 0 then [grid[|grid| - 1].at] else []
  }

  function Counted(grid: seq<Bucket>): nat {
    if grid == [] then 0 else Counted(grid[..|grid| - 1]) + grid[|grid| - 1].count
  }

  /** One bucket a step, from the span's start to its end. */
  ghost predicate Dense(step: int, grid: seq<Bucket>, span: (int, int))
    requires step > 0
  {
    && (forall i :: 0 <= i < |grid| ==> BucketIndex(step, grid[i].at).Some?)
    && (forall i :: 0 < i < |grid| ==> Step(step, grid[i]) == Step(step, grid[i - 1]) + 1)
    && grid != [] && grid[0].at == span.0 && grid[|grid| - 1].at == span.1
  }

  function Step(step: int, b: Bucket): int
    requires step > 0
  {
    match BucketIndex(step, b.at) case Some(i) => i case None => 0
  }

  ghost predicate Sorted(s: seq<int>) { forall i, j :: 0 <= i < j < |s| ==> s[i] <= s[j] }

  /** The gate's verdict; `expected` is the corpus's truth and gaps, sorted. */
  ghost predicate Passes(step: int, corpus: Corpus, expected: seq<int>, grid: seq<Bucket>)
    requires step > 0
  {
    Dense(step, grid, corpus.span) && Filled(grid) == expected && Counted(grid) == |corpus.points|
  }

  ghost predicate ExpectedOf(corpus: Corpus, expected: seq<int>) {
    Sorted(expected) && multiset(expected) == multiset(Starts(corpus.truth)) + multiset(corpus.naturalGaps)
  }

  /** The corpus a cut leaves of a series. */
  ghost predicate CutOf(step: int, series: seq<Point>, removed: set<int>, corpus: Corpus)
    requires step > 0
  {
    && series != [] && TimeSorted(series) && Indexed(step, series)
    && var first, last := BucketOf(step, series[0]), BucketOf(step, series[|series| - 1]);
    && corpus.points == Survivors(step, series, removed)
    && corpus.truth == TruthOf(step, series, removed, first, last + 1)
    && corpus.naturalGaps == GapsOf(step, series, first, last + 1)
    && corpus.span == (first * step, last * step)
  }

  /** One bucket for every step `first..=last`; synthesized at its own start exactly where no survivor
      falls; and as many samples in all as survived. */
  ghost predicate Faithful(step: int, points: seq<Point>, first: int, last: int, grid: seq<Bucket>)
    requires step > 0
  {
    && |grid| == last - first + 1 > 0
    && grid[0].at == first * step && grid[|grid| - 1].at == last * step
    && (forall i :: 0 <= i < |grid| ==> BucketIndex(step, grid[i].at) == Some(first + i))
    && (forall i :: 0 <= i < |grid| ==> SameGap(step, points, first + i, grid[i]))
    && Counted(grid) == |points|
  }

  predicate SameGap(step: int, points: seq<Point>, b: int, bucket: Bucket)
    requires step > 0
  {
    (bucket.count == 0 <==> CountIn(step, points, b) == 0) && (bucket.count == 0 ==> bucket.at == b * step)
  }

  // ---------- sorted lists ----------

  lemma FrontOf(s: seq<int>)
    requires s != []
    ensures multiset(s[..|s| - 1]) == multiset(s) - multiset{s[|s| - 1]} && s[|s| - 1] in multiset(s)
  {
    assert s == s[..|s| - 1] + [s[|s| - 1]];
  }

  lemma LastIsLargest(s: seq<int>, x: int)
    requires Sorted(s) && x in multiset(s)
    ensures s != [] && x <= s[|s| - 1]
  {
    var i :| 0 <= i < |s| && s[i] == x;
  }

  lemma AscendingIsSorted(s: seq<int>)
    requires Ascending(s)
    ensures Sorted(s)
  {}

  lemma SortedFront(s: seq<int>)
    requires Sorted(s) && s != []
    ensures Sorted(s[..|s| - 1])
  {}

  lemma SameLast(s: seq<int>, a: seq<int>)
    requires Sorted(s) && Sorted(a) && multiset(s) == multiset(a) && s != []
    ensures a != [] && s[|s| - 1] == a[|a| - 1] && multiset(s[..|s| - 1]) == multiset(a[..|a| - 1])
  {
    hide Sorted;
    FrontOf(s);
    LastIsLargest(a, s[|s| - 1]);
    FrontOf(a);
    LastIsLargest(s, a[|a| - 1]);
  }

  /** Two sorted lists of the same elements are the same list. */
  lemma {:induction false} SortedIs(s: seq<int>, a: seq<int>)
    requires Sorted(s) && Sorted(a) && multiset(s) == multiset(a)
    ensures s == a
  {
    if s == [] {
      if a != [] { FrontOf(a); }
    } else {
      SameLast(s, a);
      SortedFront(s);
      SortedFront(a);
      hide Sorted;
      SortedIs(s[..|s| - 1], a[..|a| - 1]);
      Rejoined(s, a);
    }
  }

  lemma Rejoined(s: seq<int>, a: seq<int>)
    requires s != [] && a != [] && s[..|s| - 1] == a[..|a| - 1] && s[|s| - 1] == a[|a| - 1]
    ensures s == a
  {
    assert s == s[..|s| - 1] + [s[|s| - 1]];
    assert a == a[..|a| - 1] + [a[|a| - 1]];
  }

  lemma ExpectedIs(step: int, series: seq<Point>, removed: set<int>, corpus: Corpus, expected: seq<int>)
    requires step > 0 && CutOf(step, series, removed, corpus) && ExpectedOf(corpus, expected)
    ensures expected == SynthesizedOf(step, corpus.points, BucketOf(step, series[0]),
        BucketOf(step, series[|series| - 1]) + 1)
  {
    hide BucketOf, TruthOf, GapsOf, SynthesizedOf, Survivors, Indexed, TimeSorted;
    var first, last := BucketOf(step, series[0]), BucketOf(step, series[|series| - 1]);
    ExpectedIsSynthesized(step, series, removed, first, last + 1);
    SynthesizedAscends(step, corpus.points, first, last + 1);
    AscendingIsSorted(SynthesizedOf(step, corpus.points, first, last + 1));
    SortedIs(expected, SynthesizedOf(step, corpus.points, first, last + 1));
  }

  // ---------- synthesized buckets ----------

  lemma {:induction false} InSynthesized(step: int, points: seq<Point>, lo: int, hi: int, x: int)
    requires step > 0
    ensures x in SynthesizedOf(step, points, lo, hi) <==> exists b :: lo <= b < hi && EmptyAt(step, points, b, x)
    decreases hi - lo
  {
    hide CountIn;
    if hi <= lo {
    } else {
      InSynthesized(step, points, lo, hi - 1, x);
      if EmptyAt(step, points, hi - 1, x) {
        assert x in SynthesizedOf(step, points, lo, hi);
      }
      if x in SynthesizedOf(step, points, lo, hi) && x !in SynthesizedOf(step, points, lo, hi - 1) {
        assert EmptyAt(step, points, hi - 1, x);
      }
    }
  }

  predicate EmptyAt(step: int, points: seq<Point>, b: int, x: int)
    requires step > 0
  {
    CountIn(step, points, b) == 0 && x == b * step
  }

  lemma {:induction false} InFilled(grid: seq<Bucket>, x: int)
    ensures x in Filled(grid) <==> exists i :: 0 <= i < |grid| && EmptyBucket(grid[i], x)
  {
    if grid == [] {
    } else {
      var front, last := grid[..|grid| - 1], grid[|grid| - 1];
      InFilled(front, x);
      forall i | 0 <= i < |front| ensures front[i] == grid[i] {}
      if i :| 0 <= i < |grid| && EmptyBucket(grid[i], x) {
        if i < |front| { assert EmptyBucket(front[i], x); }
      }
    }
  }

  predicate EmptyBucket(b: Bucket, x: int) { b.count == 0 && b.at == x }

  /** Where the grid is synthesized exactly as the survivors ask, the synthesized lists are the same. */
  lemma {:induction false} SameFilled(step: int, points: seq<Point>, first: int, grid: seq<Bucket>)
    requires step > 0 && forall i :: 0 <= i < |grid| ==> SameGap(step, points, first + i, grid[i])
    ensures Filled(grid) == SynthesizedOf(step, points, first, first + |grid|)
  {
    hide CountIn;
    if grid == [] {
    } else {
      var n := |grid| - 1;
      forall i | 0 <= i < n
        ensures SameGap(step, points, first + i, grid[..n][i])
      {
        assert SameGap(step, points, first + i, grid[i]);
      }
      SameFilled(step, points, first, grid[..n]);
      assert SameGap(step, points, first + n, grid[n]);
    }
  }

  /** And conversely, since each timestamp names its bucket. */
  lemma SameGaps(step: int, points: seq<Point>, first: int, grid: seq<Bucket>, i: nat)
    requires step > 0 && i < |grid|
    requires forall j :: 0 <= j < |grid| ==> BucketIndex(step, grid[j].at) == Some(first + j)
    requires Filled(grid) == SynthesizedOf(step, points, first, first + |grid|)
    requires WholeSeconds(step) || (IsI64(first) && IsI64(first + |grid| - 1))
    ensures SameGap(step, points, first + i, grid[i])
  {
    hide CountIn, BucketIndex, WholeSeconds;
    var b := first + i;
    ProductInBucket(step, b);
    InFilled(grid, grid[i].at);
    InSynthesized(step, points, first, first + |grid|, grid[i].at);
    if grid[i].count == 0 {
      assert EmptyBucket(grid[i], grid[i].at);
      var c :| first <= c < first + |grid| && EmptyAt(step, points, c, grid[i].at);
      ProductInBucket(step, c);
      assert c == b;
    }
    if CountIn(step, points, b) == 0 {
      assert EmptyAt(step, points, b, b * step);
      InSynthesized(step, points, first, first + |grid|, b * step);
      InFilled(grid, b * step);
      var j :| 0 <= j < |grid| && EmptyBucket(grid[j], b * step);
      assert j == i;
    }
  }

  // ---------- the gate ----------

  lemma {:induction false} DenseSteps(step: int, grid: seq<Bucket>, span: (int, int), i: nat)
    requires step > 0 && Dense(step, grid, span) && i < |grid|
    ensures Step(step, grid[i]) == Step(step, grid[0]) + i
  {
    if i == 0 {
    } else {
      DenseSteps(step, grid, span, i - 1);
    }
  }

  lemma EndBuckets(step: int, series: seq<Point>)
    requires step > 0 && series != [] && TimeSorted(series) && Indexed(step, series)
    ensures var first, last := BucketOf(step, series[0]), BucketOf(step, series[|series| - 1]);
      first <= last && (WholeSeconds(step) || (IsI64(first) && IsI64(last)))
      && BucketIndex(step, first * step) == Some(first) && BucketIndex(step, last * step) == Some(last)
  {
    BucketsWithinSpan(step, series, 0);
    ProductInBucket(step, BucketOf(step, series[0]));
    ProductInBucket(step, BucketOf(step, series[|series| - 1]));
  }

  /** The grids that pass the gate over a cut series are the faithful ones. */
  lemma PassesExactly(step: int, series: seq<Point>, removed: set<int>, corpus: Corpus, expected: seq<int>,
        grid: seq<Bucket>)
    requires step > 0 && CutOf(step, series, removed, corpus) && ExpectedOf(corpus, expected)
    ensures Passes(step, corpus, expected, grid) <==>
      Faithful(step, corpus.points, BucketOf(step, series[0]), BucketOf(step, series[|series| - 1]), grid)
  {
    hide BucketOf, WholeSeconds, SynthesizedOf, Filled, Counted, SameGap, Survivors, TruthOf, GapsOf, Indexed,
      TimeSorted, ExpectedOf;
    var first, last := BucketOf(step, series[0]), BucketOf(step, series[|series| - 1]);
    EndBuckets(step, series);
    ExpectedIs(step, series, removed, corpus, expected);
    hide BucketIndex;
    if Passes(step, corpus, expected, grid) {
      forall i | 0 <= i < |grid|
        ensures BucketIndex(step, grid[i].at) == Some(first + i)
      {
        DenseSteps(step, grid, corpus.span, i);
      }
      assert |grid| == last - first + 1;
      forall i | 0 <= i < |grid|
        ensures SameGap(step, corpus.points, first + i, grid[i])
      {
        SameGaps(step, corpus.points, first, grid, i);
      }
    }
    if Faithful(step, corpus.points, first, last, grid) {
      SameFilled(step, corpus.points, first, grid);
    }
  }

  // ---------- the right grid passes ----------

  /** One bucket a step, each at its start with the survivors it holds: what reducing and filling the
      survivors should give. */
  function RightGrid(step: int, points: seq<Point>, first: int, n: nat): (grid: seq<Bucket>)
    requires step > 0
    ensures |grid| == n
  {
    seq(n, i requires 0 <= i < n => Bucket((first + i) * step, CountIn(step, points, first + i)))
  }

  lemma RightGridSnoc(step: int, points: seq<Point>, first: int, n: nat)
    requires step > 0 && n > 0
    ensures Counted(RightGrid(step, points, first, n))
         == Counted(RightGrid(step, points, first, n - 1)) + CountIn(step, points, first + n - 1)
  {
    hide CountIn;
    assert RightGrid(step, points, first, n)[..n - 1] == RightGrid(step, points, first, n - 1);
  }

  lemma {:induction false} NoneCounted(step: int, first: int, n: nat)
    requires step > 0
    ensures Counted(RightGrid(step, [], first, n)) == 0
  {
    if n == 0 {
    } else {
      NoneCounted(step, first, n - 1);
      RightGridSnoc(step, [], first, n);
    }
  }

  lemma CountSnoc(step: int, points: seq<Point>, p: Point, b: int)
    requires step > 0
    ensures CountIn(step, points + [p], b) == CountIn(step, points, b) + if BucketOf(step, p) == b then 1 else 0
  {
    hide BucketOf;
    assert (points + [p])[..|points|] == points;
  }

  lemma {:induction false} OneMoreCounted(step: int, points: seq<Point>, p: Point, first: int, n: nat)
    requires step > 0
    ensures Counted(RightGrid(step, points + [p], first, n))
      == Counted(RightGrid(step, points, first, n)) + if first <= BucketOf(step, p) < first + n then 1 else 0
  {
    hide BucketOf, CountIn;
    if n == 0 {
    } else {
      hide Counted, RightGrid;
      OneMoreCounted(step, points, p, first, n - 1);
      RightGridSnoc(step, points, first, n);
      RightGridSnoc(step, points + [p], first, n);
      CountSnoc(step, points, p, first + n - 1);
    }
  }

  lemma {:induction false} AllCounted(step: int, points: seq<Point>, first: int, n: nat)
    requires step > 0 && forall i :: 0 <= i < |points| ==> first <= BucketOf(step, points[i]) < first + n
    ensures Counted(RightGrid(step, points, first, n)) == |points|
  {
    hide BucketOf, Counted, RightGrid;
    if points == [] {
      NoneCounted(step, first, n);
    } else {
      var front, last := points[..|points| - 1], points[|points| - 1];
      AllCounted(step, front, first, n);
      OneMoreCounted(step, front, last, first, n);
      assert points == front + [last];
    }
  }

  lemma {:induction false} SurvivorsAmong(step: int, series: seq<Point>, removed: set<int>)
    requires step > 0
    ensures forall p :: p in Survivors(step, series, removed) ==> p in series
  {
    hide BucketOf;
    if series == [] {
    } else {
      SurvivorsAmong(step, series[..|series| - 1], removed);
    }
  }

  /** Every survivor's bucket lies between the grid's ends. */
  lemma SurvivorsWithin(step: int, series: seq<Point>, removed: set<int>)
    requires step > 0 && series != [] && TimeSorted(series) && Indexed(step, series)
    ensures var first, last := BucketOf(step, series[0]), BucketOf(step, series[|series| - 1]);
      var points := Survivors(step, series, removed);
      forall i :: 0 <= i < |points| ==> first <= BucketOf(step, points[i]) <= last
  {
    SurvivorsAmong(step, series, removed);
    hide Survivors, BucketOf, TimeSorted;
    var points := Survivors(step, series, removed);
    forall i | 0 <= i < |points|
      ensures BucketOf(step, series[0]) <= BucketOf(step, points[i]) <= BucketOf(step, series[|series| - 1])
    {
      assert points[i] in points;
      var k :| 0 <= k < |series| && series[k] == points[i];
      BucketsWithinSpan(step, series, k);
    }
  }

  lemma RightGridIsFaithful(step: int, points: seq<Point>, first: int, last: int)
    requires step > 0 && first <= last && (WholeSeconds(step) || (IsI64(first) && IsI64(last)))
    requires forall i :: 0 <= i < |points| ==> first <= BucketOf(step, points[i]) <= last
    ensures Faithful(step, points, first, last, RightGrid(step, points, first, last - first + 1))
  {
    hide BucketIndex, BucketOf, WholeSeconds, Counted, CountIn;
    var grid := RightGrid(step, points, first, last - first + 1);
    AllCounted(step, points, first, |grid|);
    forall i | 0 <= i < |grid|
      ensures BucketIndex(step, grid[i].at) == Some(first + i)
    {
      BetweenBuckets(step, first, last, first + i);
    }
  }

  /** So the grid the reduction and the fill should give passes, whatever was cut. */
  lemma RightGridPasses(step: int, series: seq<Point>, removed: set<int>, corpus: Corpus, expected: seq<int>)
    requires step > 0 && CutOf(step, series, removed, corpus) && ExpectedOf(corpus, expected)
    ensures var first, last := BucketOf(step, series[0]), BucketOf(step, series[|series| - 1]);
      last >= first && Passes(step, corpus, expected, RightGrid(step, corpus.points, first, last - first + 1))
  {
    hide BucketOf, WholeSeconds, Survivors, Passes, Faithful, RightGrid, TruthOf, GapsOf, TimeSorted, Indexed,
      ExpectedOf;
    var first, last := BucketOf(step, series[0]), BucketOf(step, series[|series| - 1]);
    EndBuckets(step, series);
    SurvivorsWithin(step, series, removed);
    assert corpus.points == Survivors(step, series, removed);
    forall i | 0 <= i < |corpus.points| ensures first <= BucketOf(step, corpus.points[i]) <= last {
      assert corpus.points[i] == Survivors(step, series, removed)[i];
    }
    RightGridIsFaithful(step, corpus.points, first, last);
    PassesExactly(step, series, removed, corpus, expected, RightGrid(step, corpus.points, first, last - first + 1));
  }

  lemma BetweenBuckets(step: int, first: int, last: int, b: int)
    requires step > 0 && first <= b <= last && (WholeSeconds(step) || (IsI64(first) && IsI64(last)))
    ensures BucketIndex(step, b * step) == Some(b)
  {
    ProductInBucket(step, b);
  }
}
