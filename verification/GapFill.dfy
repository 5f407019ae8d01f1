/** The gap-fill workload's reference sets: outages cut whole buckets out of a series, and the
    buckets a query must synthesize are the cut ones plus the series' own gaps. */
module GapFill {
  import opened Wrappers
  import opened Integers
  import opened Points

  const NANOS_PER_SECOND: int := 1_000_000_000

  // ---------- buckets ----------

  predicate WholeSeconds(step: int) { step >= NANOS_PER_SECOND && step % NANOS_PER_SECOND == 0 }

  /** The bucket of an instant: whole-second steps divide the instant's whole seconds, rounding
      toward the epoch; finer steps divide its nanoseconds, rounding down. */
  function BucketIndex(step: int, at: int): Option<int>
    requires step > 0
  {
    if WholeSeconds(step) then
      Some(TruncDiv(at / NANOS_PER_SECOND, step / NANOS_PER_SECOND))
    else if IsI64(at / step) then Some(at / step) else None
  }

  lemma FloorMonotone(a: int, b: int, d: int)
    requires a <= b && d > 0
    ensures a / d <= b / d
  {
    var q, p := a / d, b / d;
    assert a == q * d + a % d && b == p * d + b % d;
    assert (q - p) * d == q * d - p * d;
    if q > p { MulMonotone(1, q - p, d); }
  }

  lemma BucketMonotone(step: int, a: int, b: int)
    requires step > 0 && a <= b && BucketIndex(step, a).Some? && BucketIndex(step, b).Some?
    ensures BucketIndex(step, a).value <= BucketIndex(step, b).value
  {
    if WholeSeconds(step) {
      var s, d := step / NANOS_PER_SECOND, NANOS_PER_SECOND;
      FloorMonotone(a, b, d);
      var x, y := a / d, b / d;
      if y < 0 { FloorMonotone(-y, -x, s); }
      else if x >= 0 { FloorMonotone(x, y, s); }
      else { FloorMonotone(0, -x, s); FloorMonotone(0, y, s); }
    } else {
      FloorMonotone(a, b, step);
    }
  }

  /** The instants of a bucket: one step from its start on; but, counted in whole seconds, up to its
      start where the start is at or before the epoch, since the seconds round toward it. */
  predicate InBucket(step: int, b: int, at: int) {
    var (second, whole) := (1_000_000_000, step >= 1_000_000_000 && step % 1_000_000_000 == 0);
    if whole && at < 0 then (b - 1) * step + second <= at < b * step + second
    else b * step <= at < (b + 1) * step && (whole || IsI64(b))
  }

  /** An instant's bucket is the one it lies in, for every step. */
  lemma BucketIs(step: int, at: int, b: int)
    requires step > 0
    ensures BucketIndex(step, at) == Some(b) <==> InBucket(step, b, at)
  {
    if WholeSeconds(step) {
      var s, sec := step / NANOS_PER_SECOND, at / NANOS_PER_SECOND;
      assert step == s * NANOS_PER_SECOND && at == sec * NANOS_PER_SECOND + at % NANOS_PER_SECOND;
      SecondsOf(step, s, b);
      SecondsOf(step, s, b - 1);
      SecondsOf(step, s, b + 1);
      if sec >= 0 { FloorIs(sec, s, b); } else { FloorIs(-sec, s, -b); CeilingProducts(b, s); }
    } else {
      FloorIs(at, step, b);
    }
  }

  lemma SecondsOf(step: int, s: int, b: int)
    requires step == s * NANOS_PER_SECOND
    ensures b * step == b * s * NANOS_PER_SECOND
  {}

  lemma CeilingProducts(b: int, s: int)
    ensures -b * s == -(b * s) && (-b + 1) * s == -((b - 1) * s)
  {}

  lemma FloorIs(x: int, d: int, q: int)
    requires d > 0
    ensures x / d == q <==> q * d <= x < (q + 1) * d
  {
    var p := x / d;
    assert x == p * d + x % d;
    assert (p + 1) * d == p * d + d;
    if q * d <= x < (q + 1) * d {
      ProductsRise(d, q, p + 1);
      ProductsRise(d, p, q + 1);
    }
  }

  /** The grid start of a bucket, where the calendar represents it. */
  function StartOf(step: int, calendar: int -> bool, bucket: int): Option<int> {
    if calendar(bucket * step) then Some(bucket * step) else None
  }

  lemma ProductsRise(step: int, a: int, b: int)
    requires step > 0
    ensures a < b <==> a * step < b * step
  {
    if a < b { assert (b - a) * step > 0; assert (b - a) * step == b * step - a * step; }
    if b < a { assert (a - b) * step > 0; assert (a - b) * step == a * step - b * step; }
  }

  /** Starts order and identify their buckets. */
  lemma StartInjective(step: int, calendar: int -> bool, a: int, b: int)
    requires step > 0 && StartOf(step, calendar, a).Some? && StartOf(step, calendar, b).Some?
    ensures a < b <==> StartOf(step, calendar, a).value < StartOf(step, calendar, b).value
    ensures a == b <==> StartOf(step, calendar, a) == StartOf(step, calendar, b)
  {
    ProductsRise(step, a, b);
    ProductsRise(step, b, a);
  }

  lemma ExactQuotient(b: int, s: int)
    requires s > 0
    ensures b * s / s == b && TruncDiv(b * s, s) == b
  {
    if b >= 0 { QuotientIs(b * s, s, b, 0); } else { assert -(b * s) == (-b) * s; QuotientIs((-b) * s, s, -b, 0); }
    assert b * s == b * s / s * s + b * s % s;
    ProductsRise(s, b, b * s / s);
  }

  /** A bucket's start lies in that bucket, whatever the step; a sub-second step's bucket is a 64-bit
      number. */
  lemma StartInBucket(step: int, calendar: int -> bool, b: int)
    requires step > 0 && StartOf(step, calendar, b).Some? && (WholeSeconds(step) || IsI64(b))
    ensures BucketIndex(step, StartOf(step, calendar, b).value) == Some(b)
  {
    ProductInBucket(step, b);
  }

  lemma ProductInBucket(step: int, b: int)
    requires step > 0 && (WholeSeconds(step) || IsI64(b))
    ensures BucketIndex(step, b * step) == Some(b)
  {
    if WholeSeconds(step) {
      var s := step / NANOS_PER_SECOND;
      assert b * step == (b * s) * NANOS_PER_SECOND;
      ExactQuotient(b, s);
    } else {
      ExactQuotient(b, step);
    }
  }

  // ---------- outages ----------

  /** Outage runs as half-open bucket intervals: never empty, at most `longest` long, inside the
      interior, and each ending before the next begins, so a kept bucket separates them. */
  ghost predicate Runs(runs: seq<(int, int)>, first: int, last: int, longest: int) {
    && (forall r :: 0 <= r < |runs| ==> first < runs[r].0 < runs[r].1 <= last && runs[r].1 - runs[r].0 <= longest)
    && (forall r, s :: 0 <= r < s < |runs| ==> runs[r].1 < runs[s].0)
  }

  ghost predicate InRun(runs: seq<(int, int)>, b: int) {
    exists r :: 0 <= r < |runs| && runs[r].0 <= b < runs[r].1
  }

  function Span(b: int, end: int): (s: set<int>)
    ensures forall x :: x in s <==> b <= x < end
    decreases end - b
  {
    if b >= end then {} else Span(b, end - 1) + {end - 1}
  }

  ghost predicate Marks(removed: set<int>, runs: seq<(int, int)>) {
    forall b :: b in removed <==> InRun(runs, b)
  }

  /** A step of the walk: the bucket it is at, its draw, and the length of the outage it starts there, 0
      for none. */
  datatype WalkStep = WalkStep(at: int, draw: real, length: nat)

  /** Where the walk is after some steps: past the bucket, or past the outage and one kept bucket. */
  function WalkedTo(walk: seq<WalkStep>, first: int): int {
    if walk == [] then first + 1 else walk[|walk| - 1].at + walk[|walk| - 1].length + 1
  }

  /** A step where the walk is, before the last bucket; an outage exactly where its draw is below the
      probability. */
  predicate IsStep(s: WalkStep, at: int, last: int, p: real, longest: nat) {
    s.at == at < last && 0.0 <= s.draw < 1.0 && s.length <= longest && (s.length > 0 <==> s.draw < p)
  }

  /** A walk from the bucket after the first, each step where the one before it left off. */
  ghost predicate IsWalk(walk: seq<WalkStep>, first: int, last: int, p: real, longest: nat) {
    forall i :: 0 <= i < |walk| ==> IsStep(walk[i], WalkedTo(walk[..i], first), last, p, longest)
  }

  /** A bucket within an outage of the walk. */
  ghost predicate Covered(walk: seq<WalkStep>, last: int, x: int) {
    x < last && exists i :: 0 <= i < |walk| && walk[i].at <= x < walk[i].at + walk[i].length
  }

  ghost predicate Clears(removed: set<int>, walk: seq<WalkStep>, last: int) {
    forall x :: x in removed <==> Covered(walk, last, x)
  }

  lemma WalkOn(walk: seq<WalkStep>, at: int, draw: real, length: nat, end: int, first: int, last: int, p: real,
        longest: nat, removed: set<int>)
    returns (longer: seq<WalkStep>)
    requires IsWalk(walk, first, last, p, longest) && Clears(removed, walk, last) && WalkedTo(walk, first) == at < last
    requires 0.0 <= draw < 1.0 && length <= longest && (length > 0 <==> draw < p)
    requires end == if at + length <= last then at + length else last
    ensures IsWalk(longer, first, last, p, longest) && WalkedTo(longer, first) == at + length + 1
    ensures Clears(removed + Span(at, end), longer, last)
    ensures length == 0 ==> Clears(removed, longer, last)
  {
    var s := WalkStep(at, draw, length);
    longer := walk + [s];
    LongerWalk(walk, s, first, last, p, longest);
    CoveredOn(walk, s, last);
    hide IsWalk, Covered;
  }

  lemma LongerWalk(walk: seq<WalkStep>, s: WalkStep, first: int, last: int, p: real, longest: nat)
    requires IsWalk(walk, first, last, p, longest) && IsStep(s, WalkedTo(walk, first), last, p, longest)
    ensures IsWalk(walk + [s], first, last, p, longest)
  {
    hide IsStep, WalkedTo;
    var longer := walk + [s];
    assert longer[..|walk|] == walk;
    forall i | 0 <= i < |longer| ensures IsStep(longer[i], WalkedTo(longer[..i], first), last, p, longest) {
      if i < |walk| { assert longer[..i] == walk[..i] && longer[i] == walk[i]; }
    }
  }

  lemma CoveredOn(walk: seq<WalkStep>, s: WalkStep, last: int)
    ensures forall x ::
      Covered(walk + [s], last, x) <==> Covered(walk, last, x) || (x < last && s.at <= x < s.at + s.length)
  {
    var longer := walk + [s];
    forall x
      ensures Covered(longer, last, x) <==> Covered(walk, last, x) || (x < last && s.at <= x < s.at + s.length)
    {
      assert longer[|walk|] == s;
      if Covered(walk, last, x) {
        var i :| 0 <= i < |walk| && walk[i].at <= x < walk[i].at + walk[i].length;
        assert longer[i] == walk[i];
      }
    }
  }

  /** Walks the interior, starting an outage with the probability that makes the expected removed
      share `percent`; the draws are arbitrary. */
  method Outages(first: int, last: int, percent: nat, mean: nat)
    returns (removed: set<int>, ghost runs: seq<(int, int)>, ghost walk: seq<WalkStep>, ghost p: real)
    requires percent <= 90 && mean >= 1
    ensures Runs(runs, first, last, 2 * mean - 1) && Marks(removed, runs)
    ensures percent == 0 ==> removed == {}
    ensures AsksFor(p, percent as real / 100.0, mean as real)
    ensures IsWalk(walk, first, last, p, 2 * mean - 1) && WalkedTo(walk, first) >= last && Clears(removed, walk, last)
  {
    var startProbability := StartProbability(percent as real / 100.0, mean as real);
    removed, runs, walk, p := {}, [], [], startProbability;
    var b := first + 1;
    NoRuns(first, last, 2 * mean - 1);
    NoWalk(first, last, p, 2 * mean - 1);
    hide *;
    while b < last
      invariant b > first && IsWalk(walk, first, last, p, 2 * mean - 1) && WalkedTo(walk, first) == b
      invariant Clears(removed, walk, last)
      invariant Runs(runs, first, last, 2 * mean - 1) && Marks(removed, runs)
      invariant b < last ==> EndBefore(runs, b)
      invariant percent == 0 ==> removed == {}
      decreases last - b
    {
      var draw: real :| 0.0 <= draw < 1.0;
      if draw < startProbability {
        var length: int :| 1 <= length <= 2 * mean - 1;
        var end := if b + length <= last then b + length else last;
        RunAdded(removed, runs, first, last, 2 * mean - 1, b, end);
        EndsBefore(runs, b, end, b + length + 1);
        walk := WalkOn(walk, b, draw, length, end, first, last, p, 2 * mean - 1, removed);
        removed := removed + Span(b, end);
        runs := runs + [(b, end)];
        b := b + length + 1;
      } else {
        walk := WalkOn(walk, b, draw, 0, b, first, last, p, 2 * mean - 1, removed);
        StillBefore(runs, b);
        b := b + 1;
      }
    }
  }

  lemma NoWalk(first: int, last: int, p: real, longest: nat)
    ensures IsWalk([], first, last, p, longest) && Clears({}, [], last) && WalkedTo([], first) == first + 1
  {}

  /** Every run ends before bucket `b`. */
  ghost predicate EndBefore(runs: seq<(int, int)>, b: int) { forall r :: 0 <= r < |runs| ==> runs[r].1 < b }

  lemma StillBefore(runs: seq<(int, int)>, b: int)
    requires EndBefore(runs, b)
    ensures EndBefore(runs, b + 1)
  {}

  lemma EndsBefore(runs: seq<(int, int)>, b: int, end: int, next: int)
    requires EndBefore(runs, b) && b < next
    ensures end < next ==> EndBefore(runs + [(b, end)], next)
  {}

  lemma NoRuns(first: int, last: int, longest: int)
    ensures Runs([], first, last, longest) && Marks({}, []) && EndBefore([], first + 1)
  {}

  lemma RunAdded(removed: set<int>, runs: seq<(int, int)>, first: int, last: int, longest: int, b: int, end: int)
    requires Runs(runs, first, last, longest) && Marks(removed, runs)
    requires first < b < end <= last && end - b <= longest && EndBefore(runs, b)
    ensures Runs(runs + [(b, end)], first, last, longest) && Marks(removed + Span(b, end), runs + [(b, end)])
  {
    RunsOn(runs, first, last, longest, b, end);
    hide Runs, InRun, EndBefore;
    forall x ensures InRun(runs + [(b, end)], x) <==> InRun(runs, x) || b <= x < end { InLonger(runs, b, end, x); }
  }

  lemma RunsOn(runs: seq<(int, int)>, first: int, last: int, longest: int, b: int, end: int)
    requires Runs(runs, first, last, longest)
    requires first < b < end <= last && end - b <= longest && EndBefore(runs, b)
    ensures Runs(runs + [(b, end)], first, last, longest)
  {}

  lemma InLonger(runs: seq<(int, int)>, b: int, end: int, x: int)
    ensures InRun(runs + [(b, end)], x) <==> InRun(runs, x) || b <= x < end
  {
    var longer := runs + [(b, end)];
    assert longer[|runs|] == (b, end);
    if InRun(runs, x) {
      var r :| 0 <= r < |runs| && runs[r].0 <= x < runs[r].1;
      assert longer[r] == runs[r];
    }
  }

  /** The probability is the share over the share and the mean kept back. */
  ghost predicate AsksFor(p: real, share: real, mean: real) {
    p * (mean * (1.0 - share) + share) == share
  }

  method StartProbability(share: real, mean: real) returns (p: real)
    requires 0.0 <= share <= 0.9 && mean >= 1.0
    ensures 0.0 <= p < 1.0 && (share == 0.0 ==> p == 0.0)
    ensures AsksFor(p, share, mean)
  {
    if share > 0.0 {
      var d := mean * (1.0 - share) + share;
      KeptAtLeast(mean, 1.0 - share);
      p := share / d;
      assert p * d == share;
      FractionOf(p, d, share);
      if p > 1.0 { p := 1.0; }
    } else {
      p := 0.0;
      assert p * (mean * (1.0 - share) + share) == 0.0;
    }
  }

  lemma KeptAtLeast(mean: real, kept: real)
    requires mean >= 1.0 && kept >= 0.0
    ensures mean * kept >= kept
  {
    assert (mean - 1.0) * kept >= 0.0;
  }

  lemma FractionOf(p: real, d: real, x: real)
    requires p * d == x && d >= 1.0 && 0.0 <= x < 1.0
    ensures 0.0 <= p < 1.0
  {}

  /** The share of buckets the walk removes in the long run: a step starts an outage of `mean` buckets
      with probability `p`, and leaves one bucket kept either way. */
  function ShareRemoved(p: real, mean: real): real
    requires p >= 0.0 && mean >= 1.0
  {
    Walked(p, mean);
    p * mean / (p * mean + 1.0)
  }

  lemma Walked(p: real, mean: real)
    requires p >= 0.0 && mean >= 1.0
    ensures p * mean >= 0.0
  {}

  /** The probability is meant to make that the share asked for; it does so exactly for a share of zero,
      and otherwise removes `mean / (mean + share)` of it: the bucket kept after an outage is left out. */
  lemma ShareFallsShort(share: real, mean: real, p: real)
    requires 0.0 <= share <= 0.9 && mean >= 1.0 && p >= 0.0
    requires AsksFor(p, share, mean)
    ensures ShareRemoved(p, mean) * (mean + share) == share * mean
    ensures ShareRemoved(p, mean) <= share && (ShareRemoved(p, mean) == share <==> share == 0.0)
  {
    var r, m := ShareRemoved(p, mean), p * mean;
    Walked(p, mean);
    assert r * (m + 1.0) == m;
    RatioIs(share, mean, p, r);
    LessThanAsked(share, mean, r);
  }

  lemma RatioIs(share: real, mean: real, p: real, r: real)
    requires mean >= 1.0 && 0.0 <= share <= 0.9 && p * (mean * (1.0 - share) + share) == share
    requires r * (p * mean + 1.0) == p * mean
    ensures r * (mean + share) == share * mean
  {
    var d := mean * (1.0 - share) + share;
    KeptAtLeast(mean, 1.0 - share);
    assert p * mean * d == share * mean by { assert p * mean * d == (p * d) * mean; }
    assert (p * mean + 1.0) * d == mean + share by {
      assert (p * mean + 1.0) * d == p * mean * d + d;
      assert mean * (1.0 - share) == mean - mean * share;
    }
    assert r * (mean + share) == (r * (p * mean + 1.0)) * d;
  }

  lemma LessThanAsked(share: real, mean: real, r: real)
    requires mean >= 1.0 && 0.0 <= share && r * (mean + share) == share * mean
    ensures r <= share && (r == share <==> share == 0.0)
  {
    assert share * (mean + share) == share * mean + share * share;
    assert (share - r) * (mean + share) == share * (mean + share) - r * (mean + share);
    SignOf(share - r, mean + share, share * share);
    SignOf(share, share, share * share);
  }

  lemma SignOf(x: real, y: real, z: real)
    requires x * y == z && y >= 0.0 && (y > 0.0 || x == y)
    ensures (z > 0.0 <==> x > 0.0) && (z == 0.0 <==> x == 0.0)
  {
    if y > 0.0 {
      if x > 0.0 { PositiveProduct(x, y); }
      if x < 0.0 { PositiveProduct(-x, y); assert (-x) * y == -z; }
    }
  }

  lemma PositiveProduct(a: real, b: real)
    requires a > 0.0 && b > 0.0
    ensures a * b > 0.0
  {}

  /** Hence no outage is longer than `longest`: among that many buckets and one more, one is kept. */
  lemma KeptBucketNear(runs: seq<(int, int)>, first: int, last: int, longest: nat, b: int)
    requires Runs(runs, first, last, longest)
    ensures exists k :: b <= k <= b + longest && !InRun(runs, k)
  {
    if InRun(runs, b) {
      var r :| 0 <= r < |runs| && runs[r].0 <= b < runs[r].1;
      var k := runs[r].1;
      forall s | 0 <= s < |runs| ensures !(runs[s].0 <= k < runs[s].1) {
        if s > r { assert runs[r].1 < runs[s].0; }
        if s < r { assert runs[s].1 < runs[r].0; }
      }
      assert b <= k <= b + longest && !InRun(runs, k);
    }
  }

  // ---------- cutting a series ----------

  datatype Corpus = Corpus(points: seq<Point>, truth: seq<(int, real)>, generated: nat, span: (int, int),
    naturalGaps: seq<int>)

  datatype Error = BadSeries | Unindexable | Unscorable | Unrepresentable

  predicate TimeSorted(series: seq<Point>) {
    forall i :: 0 <= i < |series| - 1 ==> series[i].at <= series[i + 1].at
  }

  lemma {:induction false} SortedEnds(series: seq<Point>, i: nat, j: nat)
    requires TimeSorted(series) && i <= j < |series|
    ensures series[i].at <= series[j].at
    decreases j
  {
    if i == j {
    } else {
      SortedEnds(series, i, j - 1);
      assert series[j - 1].at <= series[j - 1 + 1].at;
    }
  }

  /** A series is sorted exactly when no two samples are out of order, however far apart. */
  lemma SortedPairs(series: seq<Point>)
    ensures TimeSorted(series) <==> forall i, j :: 0 <= i < j < |series| ==> series[i].at <= series[j].at
  {
    if TimeSorted(series) {
      forall i, j | 0 <= i < j < |series| ensures series[i].at <= series[j].at { SortedEnds(series, i, j); }
    }
  }

  /** The bucket of a sample that has one. */
  function BucketOf(step: int, p: Point): int
    requires step > 0
  {
    match BucketIndex(step, p.at) case Some(b) => b case None => 0
  }

  /** The samples an outage does not remove, in order. */
  function Survivors(step: int, series: seq<Point>, removed: set<int>): seq<Point>
    requires step > 0
  {
    if series == [] then []
    else
      var p := series[|series| - 1];
      Survivors(step, series[..|series| - 1], removed) + if BucketOf(step, p) in removed then [] else [p]
  }

  function CountIn(step: int, series: seq<Point>, b: int): nat
    requires step > 0
  {
    if series == [] then 0
    else CountIn(step, series[..|series| - 1], b) + if BucketOf(step, series[|series| - 1]) == b then 1 else 0
  }

  function SumIn(step: int, series: seq<Point>, b: int): real
    requires step > 0
  {
    if series == [] then 0.0
    else
      SumIn(step, series[..|series| - 1], b)
      + if BucketOf(step, series[|series| - 1]) == b then series[|series| - 1].value else 0.0
  }

  /** A sample is kept or removed, once, and a bucket keeps all its samples or none. */
  lemma {:induction false} SurvivorsCount(step: int, series: seq<Point>, removed: set<int>, b: int)
    requires step > 0
    ensures CountIn(step, Survivors(step, series, removed), b) == if b in removed then 0 else CountIn(step, series, b)
  {
    if series == [] {
    } else {
      var front, p := series[..|series| - 1], series[|series| - 1];
      SurvivorsCount(step, front, removed, b);
      var kept := Survivors(step, front, removed);
      assert (kept + [p])[..|kept|] == kept;
      assert kept + [] == kept;
    }
  }

  lemma {:induction false} OccupiedCounts(step: int, series: seq<Point>, b: int)
    requires step > 0
    ensures CountIn(step, series, b) > 0 <==> exists i :: 0 <= i < |series| && BucketOf(step, series[i]) == b
  {
    if series == [] {
    } else {
      OccupiedCounts(step, series[..|series| - 1], b);
      if CountIn(step, series[..|series| - 1], b) > 0 {
        var i :| 0 <= i < |series| - 1 && BucketOf(step, series[..|series| - 1][i]) == b;
        assert BucketOf(step, series[i]) == b;
      }
      if i :| 0 <= i < |series| - 1 && BucketOf(step, series[i]) == b {
        assert BucketOf(step, series[..|series| - 1][i]) == b;
      }
    }
  }

  /** The truth recorded for buckets `lo..hi`: each removed bucket that held samples, at its start,
      with their mean; ascending. */
  function TruthOf(step: int, series: seq<Point>, removed: set<int>, lo: int, hi: int): seq<(int, real)>
    requires step > 0
    decreases hi - lo
  {
    if hi <= lo then []
    else
      var b := hi - 1;
      TruthOf(step, series, removed, lo, b) +
      if b in removed && CountIn(step, series, b) > 0
      then [(b * step, SumIn(step, series, b) / CountIn(step, series, b) as real)]
      else []
  }

  /** The series' own empty buckets among `lo..hi`, as starts, ascending. */
  function GapsOf(step: int, series: seq<Point>, lo: int, hi: int): seq<int>
    requires step > 0
    decreases hi - lo
  {
    if hi <= lo then []
    else GapsOf(step, series, lo, hi - 1) + if CountIn(step, series, hi - 1) == 0 then [(hi - 1) * step] else []
  }

  /** The starts of the buckets among `lo..hi` that no surviving sample falls in: what a dense
      query must synthesize. */
  function SynthesizedOf(step: int, points: seq<Point>, lo: int, hi: int): seq<int>
    requires step > 0
    decreases hi - lo
  {
    if hi <= lo then []
    else SynthesizedOf(step, points, lo, hi - 1) + if CountIn(step, points, hi - 1) == 0 then [(hi - 1) * step] else []
  }

  function Starts(truth: seq<(int, real)>): (s: seq<int>)
    ensures |s| == |truth|
  {
    seq(|truth|, i requires 0 <= i < |truth| => truth[i].0)
  }

  ghost predicate Ascending(s: seq<int>) { forall i, j :: 0 <= i < j < |s| ==> s[i] < s[j] }

  /** The list the gate expects, truth and natural gaps together, is exactly the grid buckets no
      survivor maps to, each once. */
  lemma {:induction false} ExpectedIsSynthesized(step: int, series: seq<Point>, removed: set<int>, lo: int, hi: int)
    requires step > 0
    ensures multiset(Starts(TruthOf(step, series, removed, lo, hi))) + multiset(GapsOf(step, series, lo, hi))
      == multiset(SynthesizedOf(step, Survivors(step, series, removed), lo, hi))
    decreases hi - lo
  {
    hide Starts, CountIn, Survivors;
    if lo < hi {
      var b := hi - 1;
      ExpectedIsSynthesized(step, series, removed, lo, b);
      SurvivorsCount(step, series, removed, b);
      ghost var count := if CountIn(step, series, b) == 0 then 1.0 else CountIn(step, series, b) as real;
      StartsSnoc(TruthOf(step, series, removed, lo, b), (b * step, SumIn(step, series, b) / count));
    } else {
      StartsSnoc([], (0, 0.0));
    }
  }

  lemma StartsSnoc(t: seq<(int, real)>, e: (int, real))
    ensures Starts(t + [e]) == Starts(t) + [e.0] && Starts(t + []) == Starts(t) && Starts([]) == []
  {
    assert t + [] == t;
  }

  lemma {:induction false} SynthesizedAscends(step: int, points: seq<Point>, lo: int, hi: int)
    requires step > 0
    ensures Ascending(SynthesizedOf(step, points, lo, hi))
    ensures forall i :: 0 <= i < |SynthesizedOf(step, points, lo, hi)| ==>
        SynthesizedOf(step, points, lo, hi)[i] < hi * step
    decreases hi - lo
  {
    if hi <= lo {
    } else {
      SynthesizedAscends(step, points, lo, hi - 1);
      assert hi * step == (hi - 1) * step + step;
    }
  }

  /** Every instant has a bucket. */
  ghost predicate Indexed(step: int, series: seq<Point>)
    requires step > 0
  {
    forall i :: 0 <= i < |series| ==> BucketIndex(step, series[i].at).Some?
  }

  /** Every removed sample can be scored against. */
  ghost predicate Scored(step: int, scorable: real -> bool, series: seq<Point>, removed: set<int>)
    requires step > 0
  {
    forall i :: 0 <= i < |series| && BucketOf(step, series[i]) in removed ==> scorable(series[i].value)
  }

  /** Every bucket that is recorded (one with truth, a gap, or an end of the grid) has a start. */
  ghost predicate Placed(step: int, calendar: int -> bool, series: seq<Point>, removed: set<int>, first: int, last: int)
    requires step > 0
  {
    TruthPlaced(step, calendar, series, removed, first, last) && GapsPlaced(step, calendar, series, first, last)
    && calendar(first * step) && calendar(last * step)
  }

  ghost predicate TruthPlaced(step: int, calendar: int -> bool, series: seq<Point>, removed: set<int>, first: int,
        last: int)
    requires step > 0
  {
    forall b :: first <= b <= last && b in removed && CountIn(step, series, b) > 0 ==> calendar(b * step)
  }

  ghost predicate GapsPlaced(step: int, calendar: int -> bool, series: seq<Point>, first: int, last: int)
    requires step > 0
  {
    forall b :: first <= b <= last && CountIn(step, series, b) == 0 ==> calendar(b * step)
  }

  /** Cuts the profile's outages from a series. It is refused exactly when the series is too short or
      unsorted, or an instant, a removed value or a recorded grid start cannot be represented, in that
      order. Otherwise each sample is kept or
      removed once, in order; the first and last are kept; and the truth and the gaps are recorded
      for exactly the buckets left empty. */
  method Cut(step: int, calendar: int -> bool, scorable: real -> bool, percent: nat, mean: nat, series: seq<Point>)
    returns (r: Result<Corpus, Error>, ghost removed: set<int>, ghost runs: seq<(int, int)>)
    requires step > 0 && percent <= 90 && mean >= 1
    ensures r == Err(BadSeries) <==>
        |series| < 2 || exists i, j :: 0 <= i < j < |series| && series[i].at > series[j].at
    ensures r != Err(BadSeries) ==> (r == Err(Unindexable) <==> !Indexed(step, series))
    ensures r != Err(BadSeries) && r != Err(Unindexable) ==> (
      var first, last := BucketOf(step, series[0]), BucketOf(step, series[|series| - 1]);
      && Runs(runs, first, last, 2 * mean - 1) && Marks(removed, runs)
      && (r == Err(Unscorable) <==> !Scored(step, scorable, series, removed))
      && (r == Err(Unrepresentable) <==>
        Scored(step, scorable, series, removed) && !Placed(step, calendar, series, removed, first, last)))
    ensures r.Ok? ==> (
      var first, last := BucketOf(step, series[0]), BucketOf(step, series[|series| - 1]);
      && r.value.points == Survivors(step, series, removed) && r.value.generated == |series|
      && r.value.truth == TruthOf(step, series, removed, first, last + 1)
      && r.value.naturalGaps == GapsOf(step, series, first, last + 1)
      && r.value.span == (first * step, last * step))
  {
    removed, runs := {}, [];
    SortedPairs(series);
    if |series| < 2 || !TimeSorted(series) { return Err(BadSeries), removed, runs; }
    for i := 0 to |series|
      invariant forall j :: 0 <= j < i ==> BucketIndex(step, series[j].at).Some?
    {
      if BucketIndex(step, series[i].at).None? { return Err(Unindexable), removed, runs; }
    }
    hide Runs, Marks, BucketIndex, StartOf, TruthOf, GapsOf, Survivors, Scored, TruthPlaced, GapsPlaced;
    var first, last := BucketOf(step, series[0]), BucketOf(step, series[|series| - 1]);
    var cut: set<int>;
    ghost var walk, p;
    cut, runs, walk, p := Outages(first, last, percent, mean);
    removed := cut;
    var split := Split(step, scorable, series, cut);
    if split.Err? { return Err(split.error), removed, runs; }
    var (points, sums) := split.value;
    var truth := RecordTruth(step, calendar, series, cut, sums, first, last);
    if truth.Err? { return Err(truth.error), removed, runs; }
    var gaps := RecordGaps(step, calendar, series, first, last);
    if gaps.Err? { return Err(gaps.error), removed, runs; }
    BucketsWithinSpan(step, series, 0);
    if StartOf(step, calendar, first).None? || StartOf(step, calendar, last).None? {
      return Err(Unrepresentable), removed, runs;
    }
    return Ok(Corpus(points, truth.value, |series|, (first * step, last * step), gaps.value)), removed, runs;
  }

  /** The removed samples' sums and counts, by bucket. */
  ghost predicate Sums(step: int, series: seq<Point>, cut: set<int>, sums: map<int, (real, nat)>)
    requires step > 0
  {
    && (forall b :: b in sums <==> b in cut && CountIn(step, series, b) > 0)
    && (forall b :: b in sums ==> sums[b] == (SumIn(step, series, b), CountIn(step, series, b)))
  }

  method Split(step: int, scorable: real -> bool, series: seq<Point>, cut: set<int>)
    returns (r: Result<(seq<Point>, map<int, (real, nat)>), Error>)
    requires step > 0
    ensures r.Ok? <==> Scored(step, scorable, series, cut)
    ensures r.Err? ==> r.error == Unscorable
    ensures r.Ok? ==> r.value.0 == Survivors(step, series, cut) && Sums(step, series, cut, r.value.1)
  {
    hide BucketIndex;
    var points: seq<Point> := [];
    var sums: map<int, (real, nat)> := map[];
    for i := 0 to |series|
      invariant points == Survivors(step, series[..i], cut)
      invariant Sums(step, series[..i], cut, sums)
      invariant forall j :: 0 <= j < i && BucketOf(step, series[j]) in cut ==> scorable(series[j].value)
    {
      assert series[..i + 1][..i] == series[..i];
      var s := BucketOf(step, series[i]);
      if s in cut {
        if !scorable(series[i].value) { return Err(Unscorable); }
        var entry := if s in sums then sums[s] else (0.0, 0);
        EmptySum(step, series[..i], s);
        sums := sums[s := (entry.0 + series[i].value, entry.1 + 1)];
      } else {
        points := points + [series[i]];
      }
    }
    assert series[..|series|] == series;
    return Ok((points, sums));
  }

  /** The map's entries in bucket order, each as its grid start and mean. */
  method RecordTruth(step: int, calendar: int -> bool, series: seq<Point>, cut: set<int>, sums: map<int, (real, nat)>,
        first: int, last: int)
    returns (r: Result<seq<(int, real)>, Error>)
    requires step > 0 && Sums(step, series, cut, sums)
    ensures r.Ok? <==> TruthPlaced(step, calendar, series, cut, first, last)
    ensures r.Err? ==> r.error == Unrepresentable
    ensures r.Ok? ==> r.value == TruthOf(step, series, cut, first, last + 1)
  {
    hide CountIn, SumIn;
    var truth: seq<(int, real)> := [];
    var b := first;
    while b <= last
      invariant b <= last + 1 || b == first
      invariant truth == TruthOf(step, series, cut, first, b)
      invariant forall c :: first <= c < b && c in cut && CountIn(step, series, c) > 0 ==>
          StartOf(step, calendar, c).Some?
      decreases last - b
    {
      if b in sums {
        var start := StartOf(step, calendar, b);
        if start.None? { return Err(Unrepresentable); }
        truth := truth + [(start.value, sums[b].0 / sums[b].1 as real)];
      }
      b := b + 1;
    }
    return Ok(truth);
  }

  method RecordGaps(step: int, calendar: int -> bool, series: seq<Point>, first: int, last: int)
    returns (r: Result<seq<int>, Error>)
    requires step > 0
    ensures r.Ok? <==> GapsPlaced(step, calendar, series, first, last)
    ensures r.Err? ==> r.error == Unrepresentable
    ensures r.Ok? ==> r.value == GapsOf(step, series, first, last + 1)
  {
    hide BucketIndex;
    var occupied := set i | 0 <= i < |series| :: BucketOf(step, series[i]);
    var gaps: seq<int> := [];
    var b := first;
    while b <= last
      invariant b <= last + 1 || b == first
      invariant gaps == GapsOf(step, series, first, b)
      invariant forall c :: first <= c < b && CountIn(step, series, c) == 0 ==> StartOf(step, calendar, c).Some?
      decreases last - b
    {
      OccupiedCounts(step, series, b);
      if b !in occupied {
        var start := StartOf(step, calendar, b);
        if start.None? { return Err(Unrepresentable); }
        gaps := gaps + [start.value];
      }
      b := b + 1;
    }
    return Ok(gaps);
  }

  lemma {:induction false} EmptySum(step: int, series: seq<Point>, b: int)
    requires step > 0
    ensures CountIn(step, series, b) == 0 ==> SumIn(step, series, b) == 0.0
  {
    if series == [] {
    } else {
      EmptySum(step, series[..|series| - 1], b);
    }
  }

  /** The first and the last sample survive every cut, so the grid's ends are measured. */
  lemma EndsSurvive(step: int, series: seq<Point>, removed: set<int>, runs: seq<(int, int)>, longest: int)
    requires step > 0 && series != []
    requires Runs(runs, BucketOf(step, series[0]), BucketOf(step, series[|series| - 1]), longest)
    requires Marks(removed, runs)
    ensures var kept := Survivors(step, series, removed);
      kept != [] && kept[0] == series[0] && kept[|kept| - 1] == series[|series| - 1]
  {
    hide BucketIndex;
    assert BucketOf(step, series[0]) !in removed && BucketOf(step, series[|series| - 1]) !in removed;
    FirstSurvives(step, series, removed);
  }

  lemma {:induction false} FirstSurvives(step: int, series: seq<Point>, removed: set<int>)
    requires step > 0 && series != [] && BucketOf(step, series[0]) !in removed
    ensures var kept := Survivors(step, series, removed); kept != [] && kept[0] == series[0]
  {
    if |series| == 1 {
    } else {
      FirstSurvives(step, series[..|series| - 1], removed);
    }
  }

  /** Every bucket of a sorted series lies between its first sample's and its last sample's. */
  lemma BucketsWithinSpan(step: int, series: seq<Point>, i: nat)
    requires step > 0 && TimeSorted(series) && i < |series|
    requires forall j :: 0 <= j < |series| ==> BucketIndex(step, series[j].at).Some?
    ensures BucketOf(step, series[0]) <= BucketOf(step, series[i]) <= BucketOf(step, series[|series| - 1])
  {
    hide BucketIndex;
    SortedEnds(series, 0, i);
    SortedEnds(series, i, |series| - 1);
    BucketMonotone(step, series[0].at, series[i].at);
    BucketMonotone(step, series[i].at, series[|series| - 1].at);
  }
}
