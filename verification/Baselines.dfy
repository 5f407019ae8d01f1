/** The two portable baselines: piecewise-linear reconstruction and forward fill, each over the
    outcome of a library binary search, compared with the exact reference. */
module Baselines {
  import opened Wrappers
  import opened Integers
  import opened Lagrange
  import opened Points
  import opened Conformance

  /** A duration's nanoseconds, when they fit a signed 64-bit integer. */
  function NumNanoseconds(d: int): Option<int> {
    if IsI64(d) then Some(d) else None
  }

  datatype SearchResult = Found(index: nat) | Missing(index: nat)

  /** What the library promises of a binary search over ascending instants: some hit if there is
      one, else the insertion point. */
  ghost predicate SearchOutcome(points: seq<Point>, t: int, r: SearchResult) {
    match r
    case Found(i) => i < |points| && points[i].at == t
    case Missing(i) =>
      i <= |points| &&
      (forall j :: 0 <= j < i ==> points[j].at < t) && (forall j :: i <= j < |points| ==> points[j].at > t)
  }

  function InterpolateSegment(a: Point, b: Point, t: int): real {
    var span, offset := NumNanoseconds(b.at - a.at), NumNanoseconds(t - a.at);
    if span.Some? && offset.Some? && span.value != 0 then
      a.value + (b.value - a.value) * (offset.value as real / span.value as real)
    else a.value
  }

  /** The left end of the segment a missed instant is read from. */
  function SegmentOf(points: seq<Point>, i: nat): (s: nat)
    requires |points| >= 2 && i <= |points|
    ensures s + 1 < |points|
  {
    if i == 0 then 0 else if i > |points| - 1 then |points| - 2 else i - 1
  }

  function LinearValueAt(points: seq<Point>, t: int, r: SearchResult): real
    requires points != [] && r.index <= |points| && (r.Found? ==> r.index < |points|)
  {
    if |points| == 1 then points[0].value
    else match r
      case Found(i) => points[i].value
      case Missing(i) => InterpolateSegment(points[SegmentOf(points, i)], points[SegmentOf(points, i) + 1], t)
  }

  /** The reference's linear method: a window of two knots and no clamp. */
  const LINEAR := Spline(false, 2, None)

  /** Both durations the segment at `s` divides are representable. */
  predicate Representable(points: seq<Point>, s: nat, t: int)
    requires s + 1 < |points|
  {
    IsI64(points[s + 1].at - points[s].at) && IsI64(t - points[s].at)
  }

  /** The value the series says at an instant: that of its last sample there. */
  ghost function LastAt(points: seq<Point>, at: int): real {
    var m := LastValues(points);
    if at in m then m[at] else 0.0
  }

  /** When the linear baseline reads what the reference does. On a hit: the sample hit is the last at
      its instant. Between or beyond samples at two instants: the segment's end is the last at its
      own, if its durations are representable; else its start has that value already. Beyond a tie
      at an end of the data, where the baseline is flat: its value lies on the reference's line. */
  ghost predicate LinearAgrees(points: seq<Point>, t: int, r: SearchResult)
    requires points != [] && r.index <= |points| && (r.Found? ==> r.index < |points|)
  {
    |points| == 1 || match r
      case Found(i) => points[i].value == LastAt(points, t)
      case Missing(i) =>
        var s := SegmentOf(points, i);
        var a, b := points[s], points[s + 1];
        if a.at < b.at then (if Representable(points, s, t) then b.value else a.value) == LastAt(points, b.at)
        else OnEndLine(DistinctOf(points), i == 0, t, a.value)
  }

  /** On the line the first or the last two knots extrapolate to `t`. */
  ghost predicate OnEndLine(knots: seq<Point>, first: bool, t: int, value: real) {
    knots != [] &&
    if |knots| == 1 then value == knots[0].value
    else
      var e := if first then 0 else |knots| - 2;
      (value - knots[e].value) * (knots[e + 1].at - knots[e].at) as real
        == (knots[e + 1].value - knots[e].value) * (t - knots[e].at) as real
  }

  /** Over sorted samples, ties included, and for every outcome of the search: inside the data, at its
      knots and beyond both ends, the linear baseline is the reference under the linear method exactly
      when the two agree as `LinearAgrees` says. Without ties that leaves only the durations that no
      64-bit number of nanoseconds holds. */
  lemma LinearMatchesReference(points: seq<Point>, t: int, r: SearchResult)
    requires points != [] && Sorted(points) && SearchOutcome(points, t, r)
    ensures Rising(DistinctOf(points)) && DistinctOf(points) != []
    ensures LinearValueAt(points, t, r) == Reference(DistinctOf(points), LINEAR, t) <==> LinearAgrees(points, t, r)
    ensures Rising(points) ==> DistinctOf(points) == points
    ensures Rising(points) ==> forall i :: 0 <= i < |points| ==> LastAt(points, points[i].at) == points[i].value
  {
    DistinctCorrect(points);
    RisingSaysItself(points);
    hide Reference, InterpolateSegment, Representable, LastValues, DistinctOf, OnEndLine;
    var d := DistinctOf(points);
    if |points| == 1 {
      assert Rising(points);
      SingleKnot(points, t);
    } else if r.Found? {
      HitAgrees(points, d, t, r.index);
    } else {
      var s := SegmentOf(points, r.index);
      if points[s].at < points[s + 1].at {
        SegmentAgrees(points, d, t, r.index);
      } else {
        TieAgrees(points, d, t, r.index);
      }
    }
  }

  function Below(points: seq<Point>, t: int): (n: nat)
    ensures n <= |points|
  {
    if points == [] then 0 else Below(points[..|points| - 1], t) + if points[|points| - 1].at < t then 1 else 0
  }

  lemma {:induction false} BelowSplits(points: seq<Point>, t: int)
    requires Sorted(points)
    ensures forall i :: 0 <= i < |points| ==> (points[i].at < t <==> i < Below(points, t))
  {
    if points == [] {
    } else {
      var front, last := points[..|points| - 1], points[|points| - 1];
      BelowSplits(front, t);
      forall i | 0 <= i < |front| ensures points[i].at < t <==> i < Below(front, t) { assert front[i] == points[i]; }
      if last.at < t { assert Below(front, t) == |front| by { FrontBelow(points, t); } }
    }
  }

  lemma FrontBelow(points: seq<Point>, t: int)
    requires Sorted(points) && points != [] && points[|points| - 1].at < t
    requires forall i :: 0 <= i < |points| - 1 ==> (points[i].at < t <==> i < Below(points[..|points| - 1], t))
    ensures Below(points[..|points| - 1], t) == |points| - 1
  {
    hide Below;
    if |points| > 1 { assert points[|points| - 2].at < t; }
  }

  /** When the linear baseline reads what the reference does, whichever hit the search reports: every
      sample at the instant carries the last one's value, or, between or beyond samples, as
      `LinearAgrees` says of the place the instant would take. */
  ghost predicate LinearAgreesAt(points: seq<Point>, t: int)
    requires points != []
  {
    || |points| == 1
    || (if exists i :: 0 <= i < |points| && points[i].at == t
        then forall i :: 0 <= i < |points| && points[i].at == t ==> points[i].value == LastAt(points, t)
        else LinearAgrees(points, t, Missing(Below(points, t))))
  }

  /** The same for every outcome of the search at once: a condition on the samples and the instant. */
  lemma LinearForEveryOutcome(points: seq<Point>, t: int)
    requires points != [] && Sorted(points)
    ensures Rising(DistinctOf(points)) && DistinctOf(points) != []
    ensures (forall r :: SearchOutcome(points, t, r) ==>
        LinearValueAt(points, t, r) == Reference(DistinctOf(points), LINEAR, t))
      <==> LinearAgreesAt(points, t)
  {
    DistinctCorrect(points);
    BelowSplits(points, t);
    hide Reference, LinearValueAt, LastValues, LastAt, DistinctOf, OnEndLine, Below;
    forall r | SearchOutcome(points, t, r)
      ensures LinearValueAt(points, t, r) == Reference(DistinctOf(points), LINEAR, t) <==> LinearAgrees(points, t, r)
    {
      LinearMatchesReference(points, t, r);
    }
    hide Sorted, LinearAgrees;
    EveryOutcomeAgrees(points, t);
  }

  lemma EveryOutcomeAgrees(points: seq<Point>, t: int)
    requires points != [] && forall i :: 0 <= i < |points| ==> (points[i].at < t <==> i < Below(points, t))
    ensures (forall r :: SearchOutcome(points, t, r) ==> LinearAgrees(points, t, r)) <==> LinearAgreesAt(points, t)
  {
    hide Below;
    if i :| 0 <= i < |points| && points[i].at == t {
      EveryHitAgrees(points, t, i);
    } else {
      hide LinearAgrees;
      assert SearchOutcome(points, t, Missing(Below(points, t)));
      forall r | SearchOutcome(points, t, r) ensures r == Missing(Below(points, t)) { OnlyMiss(points, t, r); }
    }
  }

  lemma EveryHitAgrees(points: seq<Point>, t: int, i: nat)
    requires i < |points| && points[i].at == t
    ensures (forall r :: SearchOutcome(points, t, r) ==> LinearAgrees(points, t, r))
      <==> |points| == 1 || forall j :: 0 <= j < |points| && points[j].at == t ==> points[j].value == LastAt(points, t)
  {
    hide LastAt, Representable, OnEndLine;
    forall j | 0 <= j < |points| && points[j].at == t ensures SearchOutcome(points, t, Found(j)) {}
    if forall r :: SearchOutcome(points, t, r) ==> LinearAgrees(points, t, r) {
      forall j | 0 <= j < |points| && points[j].at == t ensures LinearAgrees(points, t, Found(j)) {
        assert SearchOutcome(points, t, Found(j));
      }
    }
  }

  lemma OnlyMiss(points: seq<Point>, t: int, r: SearchResult)
    requires SearchOutcome(points, t, r)
    requires forall i :: 0 <= i < |points| ==> (points[i].at < t <==> i < Below(points, t))
    requires forall i :: 0 <= i < |points| ==> points[i].at != t
    ensures r == Missing(Below(points, t))
  {
    hide Below;
    var n := Below(points, t);
    if r.Missing? {
      if r.index > 0 { assert points[r.index - 1].at < t; }
      if n > 0 { assert points[n - 1].at < t; }
    }
  }

  lemma RisingSaysItself(points: seq<Point>)
    ensures Rising(points) ==> DistinctOf(points) == points
    ensures Rising(points) ==> forall i :: 0 <= i < |points| ==> LastAt(points, points[i].at) == points[i].value
  {
    if Rising(points) {
      DistinctCorrect(points);
      RisingUnique(DistinctOf(points), points);
      forall i | 0 <= i < |points|
        ensures LastAt(points, points[i].at) == points[i].value
      {
        LastValuesMeaning(points, i);
      }
    }
  }

  /** The knots of a series: rising, and saying what it says. */
  ghost predicate KnotsOf(d: seq<Point>, points: seq<Point>) {
    Rising(d) && d != [] && LastValues(d) == LastValues(points)
  }

  lemma KnotSays(points: seq<Point>, d: seq<Point>, k: nat) returns (i: nat)
    requires KnotsOf(d, points) && k < |d|
    ensures LastAt(points, d[k].at) == d[k].value
    ensures i < |points| && points[i].at == d[k].at
  {
    LastValuesMeaning(d, k);
    i := LastValuesPresent(points, d[k].at);
  }

  lemma SampleHasKnot(points: seq<Point>, d: seq<Point>, i: nat) returns (k: nat)
    requires KnotsOf(d, points) && i < |points|
    ensures k < |d| && d[k].at == points[i].at
  {
    LastValuesMeaning(points, i);
    k := LastValuesPresent(d, points[i].at);
  }

  lemma HitAgrees(points: seq<Point>, d: seq<Point>, t: int, i: nat)
    requires KnotsOf(d, points) && i < |points| && points[i].at == t
    ensures points[i].value == Reference(d, LINEAR, t) <==> points[i].value == LastAt(points, t)
  {
    hide LastValues, Reference;
    var k := SampleHasKnot(points, d, i);
    var j := KnotSays(points, d, k);
    ReferenceAtKnot(d, LINEAR, k);
  }

  /** Samples next to each other at two instants come from knots next to each other. */
  lemma NextKnots(points: seq<Point>, d: seq<Point>, s: nat) returns (e: nat)
    requires KnotsOf(d, points) && Sorted(points) && s + 1 < |points| && points[s].at < points[s + 1].at
    ensures e + 1 < |d| && d[e].at == points[s].at && d[e + 1].at == points[s + 1].at
    ensures points[s].value == d[e].value == LastAt(points, points[s].at)
    ensures d[e + 1].value == LastAt(points, points[s + 1].at)
  {
    e := SampleHasKnot(points, d, s);
    var f := SampleHasKnot(points, d, s + 1);
    var i := KnotSays(points, d, e);
    i := KnotSays(points, d, f);
    LastValuesMeaning(points, s);
    hide LastValues;
    assert e < f;
    if f > e + 1 {
      var k := KnotSays(points, d, e + 1);
      assert false;
    }
  }

  /** Beyond an end of the samples is beyond the same end of the knots. */
  lemma BeyondKnots(points: seq<Point>, d: seq<Point>, t: int, i: nat)
    requires KnotsOf(d, points) && SearchOutcome(points, t, Missing(i)) && (i == 0 || i == |points|)
    ensures SearchOutcome(d, t, Missing(if i == 0 then 0 else |d|))
  {
    hide LastValues;
    forall k | 0 <= k < |d| ensures if i == 0 then d[k].at > t else d[k].at < t { var j := KnotSays(points, d, k); }
  }

  /** A missed instant's segment of samples at two instants is the reference's segment of knots. */
  lemma SameSegment(points: seq<Point>, d: seq<Point>, t: int, i: nat, e: nat)
    requires KnotsOf(d, points) && |points| >= 2 && Sorted(points) && SearchOutcome(points, t, Missing(i))
    requires var s := SegmentOf(points, i); e + 1 < |d| && d[e].at == points[s].at && d[e + 1].at == points[s + 1].at
    ensures exists j: nat :: SearchOutcome(d, t, Missing(j)) && SegmentOf(d, j) == e
  {
    hide LastValues;
    if i == 0 {
      BeyondKnots(points, d, t, i);
      var k := KnotSays(points, d, 0);
      assert d[0].at >= points[0].at;
      assert SegmentOf(d, 0) == e;
    } else if i == |points| {
      BeyondKnots(points, d, t, i);
      var k := KnotSays(points, d, |d| - 1);
      assert d[|d| - 1].at <= points[|points| - 1].at;
      assert SegmentOf(d, |d|) == e;
    } else {
      assert SearchOutcome(d, t, Missing(e + 1)) && SegmentOf(d, e + 1) == e;
    }
  }

  lemma SegmentAgrees(points: seq<Point>, d: seq<Point>, t: int, i: nat)
    requires KnotsOf(d, points) && |points| >= 2 && Sorted(points) && SearchOutcome(points, t, Missing(i))
    requires var s := SegmentOf(points, i); points[s].at < points[s + 1].at
    ensures var s := SegmentOf(points, i);
      (InterpolateSegment(points[s], points[s + 1], t) == Reference(d, LINEAR, t)) <==>
        (if Representable(points, s, t) then points[s + 1].value else points[s].value)
          == LastAt(points, points[s + 1].at)
  {
    hide Reference, LastValues, InterpolateSegment, Representable, LastAt;
    var s := SegmentOf(points, i);
    var e := NextKnots(points, d, s);
    SameSegment(points, d, t, i, e);
    NotAtStart(points, t, i);
    hide Sorted, SegmentOf, SearchOutcome, Rising;
    var j: nat :| SearchOutcome(d, t, Missing(j)) && SegmentOf(d, j) == e;
    SegmentLine(points, d, t, s, e, j);
  }

  lemma SegmentLine(points: seq<Point>, d: seq<Point>, t: int, s: nat, e: nat, j: nat)
    requires s + 1 < |points| && e + 1 < |d| && Rising(d) && SearchOutcome(d, t, Missing(j)) && j <= |d|
    requires SegmentOf(d, j) == e
    requires points[s].at == d[e].at && points[s + 1].at == d[e + 1].at && points[s].value == d[e].value
    requires points[s].at < points[s + 1].at && t != points[s].at
    ensures (InterpolateSegment(points[s], points[s + 1], t) == Reference(d, LINEAR, t)) <==>
      (if Representable(points, s, t) then points[s + 1].value else points[s].value) == d[e + 1].value
  {
    hide Reference, InterpolateSegment, Representable, SegmentOf, SearchOutcome, Rising;
    SegmentReference(d, t, j);
    SegmentMatches(points, s, t, Reference(d, LINEAR, t), d[e + 1].value);
  }

  lemma NotAtStart(points: seq<Point>, t: int, i: nat)
    requires |points| >= 2 && SearchOutcome(points, t, Missing(i))
    ensures points[SegmentOf(points, i)].at != t
  {}

  lemma TieAgrees(points: seq<Point>, d: seq<Point>, t: int, i: nat)
    requires KnotsOf(d, points) && |points| >= 2 && Sorted(points) && SearchOutcome(points, t, Missing(i))
    requires var s := SegmentOf(points, i); points[s].at >= points[s + 1].at
    ensures var s := SegmentOf(points, i);
      InterpolateSegment(points[s], points[s + 1], t) == Reference(d, LINEAR, t) <==>
        OnEndLine(d, i == 0, t, points[s].value)
  {
    hide Reference, LastValues;
    var s := SegmentOf(points, i);
    assert points[s].at == points[s + 1].at;
    BeyondKnots(points, d, t, i);
    if |d| == 1 {
      SingleKnot(d, t);
    } else {
      var j := if i == 0 then 0 else |d|;
      SegmentReference(d, t, j);
      OnLine(d, SegmentOf(d, j), t, Reference(d, LINEAR, t), points[s].value);
    }
  }

  lemma OnLine(d: seq<Point>, e: nat, t: int, reference: real, value: real)
    requires Rising(d) && e + 1 < |d|
    requires (reference - d[e].value) * (d[e + 1].at - d[e].at) as real
          == (d[e + 1].value - d[e].value) * (t - d[e].at) as real
    ensures value == reference <==>
        (value - d[e].value) * (d[e + 1].at - d[e].at) as real == (d[e + 1].value - d[e].value) * (t - d[e].at) as real
  {
    var span := (d[e + 1].at - d[e].at) as real;
    if (value - d[e].value) * span == (reference - d[e].value) * span {
      CancelRight(value - d[e].value, reference - d[e].value, span);
    }
  }

  /** Two samples 2^63 nanoseconds apart (292 years): halfway between them the baseline still holds
      the first value, and the reference has climbed. */
  lemma LongSpanHeldFlat()
    ensures var points := [Point(0, 0.0), Point(I64_MAX + 1, 1.0)]; var t := 0x4000_0000_0000_0000;
      Rising(points) && SearchOutcome(points, t, Missing(1))
        && LinearValueAt(points, t, Missing(1)) != Reference(points, LINEAR, t)
  {
    hide Reference, LinearValueAt, LastValues, LastAt, DistinctOf;
    var points := [Point(0, 0.0), Point(I64_MAX + 1, 1.0)];
    LinearMatchesReference(points, 0x4000_0000_0000_0000, Missing(1));
    assert LastAt(points, points[1].at) == 1.0;
  }

  lemma SingleKnot(points: seq<Point>, t: int)
    requires |points| == 1
    ensures Rising(points) && Reference(points, LINEAR, t) == points[0].value
  {
    hide Basis, Total, Eval;
    assert Eval([points[0].value], points[0].at as real) == points[0].value == Eval([points[0].value], t as real) by {
      EvalConstant(points[0].value, points[0].at as real);
      EvalConstant(points[0].value, t as real);
    }
    WindowIs(points, LINEAR, t, Start(points, LINEAR, t), WindowSize(LINEAR, |points|));
    ReferenceReproduces(points, LINEAR, [points[0].value], t, Start(points, LINEAR, t), WindowSize(LINEAR, |points|));
  }

  lemma EvalConstant(c: real, t: real)
    ensures Eval([c], t) == c
  {
    assert Eval([c][1..], t) == 0.0;
  }

  lemma EvalLine(c: real, m: real, t: real)
    ensures Eval([c, m], t) == c + t * m
  {
    assert [c, m][1..] == [m];
    EvalConstant(m, t);
  }

  /** The reference's window for a missed instant is the segment the baseline picks, so its value
      is the segment's straight line. */
  lemma SegmentReference(points: seq<Point>, t: int, i: nat)
    requires |points| >= 2 && Rising(points) && SearchOutcome(points, t, Missing(i))
    ensures var s := SegmentOf(points, i);
      (Reference(points, LINEAR, t) - points[s].value) * (points[s + 1].at - points[s].at) as real
        == (points[s + 1].value - points[s].value) * (t - points[s].at) as real
  {
    hide Basis, Total, Start, Offsets, Values;
    SegmentStart(points, t, i);
    TwoNodes(Offsets(points), Values(points), Target(points, t), SegmentOf(points, i));
    OffsetDifference(points, t, SegmentOf(points, i));
  }

  /** Over two nodes the interpolant is the straight line through them. */
  lemma TwoNodes(x: seq<real>, y: seq<real>, t: real, s: nat)
    requires s + 1 < |x| == |y| && Ascending(x)
    ensures (Total(x, y, t, s, s + 2, s + 2) - y[s]) * (x[s + 1] - x[s]) == (y[s + 1] - y[s]) * (t - x[s])
  {
    hide Basis, Total, Eval, Fraction;
    var m := Fraction(1.0, y[s + 1] - y[s], x[s + 1] - x[s]);
    var c := y[s] - x[s] * m;
    EvalLine(c, m, x[s]);
    EvalLine(c, m, x[s + 1]);
    EvalLine(c, m, t);
    LineEnds(x[s], x[s + 1], y[s], y[s + 1], m);
    forall j | s <= j < s + 2 ensures y[j] == Eval([c, m], x[j]) {
      if j != s { assert j == s + 1; }
    }
    Reproduces(x, y, [c, m], t, s, s + 2);
    LineThrough(x[s], x[s + 1], y[s], y[s + 1], m, t, Total(x, y, t, s, s + 2, s + 2));
  }

  lemma LineEnds(a: real, b: real, u: real, v: real, m: real)
    requires m * (b - a) == 1.0 * (v - u)
    ensures u - a * m + b * m == v && u - a * m + a * m == u
  {}

  lemma LineThrough(a: real, b: real, u: real, v: real, m: real, t: real, w: real)
    requires m * (b - a) == 1.0 * (v - u) && w == u - a * m + t * m
    ensures (w - u) * (b - a) == (v - u) * (t - a)
  {
    assert w - u == m * (t - a);
    assert (w - u) * (b - a) == (m * (b - a)) * (t - a);
  }

  lemma SegmentStart(points: seq<Point>, t: int, i: nat)
    requires |points| >= 2 && Rising(points) && SearchOutcome(points, t, Missing(i))
    ensures Start(points, LINEAR, t) == SegmentOf(points, i)
  {
    var x := Offsets(points);
    CountSplits(x, Target(points, t));
    assert CountAtOrBelow(x, Target(points, t)) == i by {
      assert i < |x| ==> x[i] > Target(points, t);
      assert i > 0 ==> x[i - 1] <= Target(points, t);
    }
  }

  lemma OffsetDifference(points: seq<Point>, t: int, s: nat)
    requires s + 1 < |points|
    ensures Offsets(points)[s + 1] - Offsets(points)[s] == (points[s + 1].at - points[s].at) as real
    ensures Target(points, t) - Offsets(points)[s] == (t - points[s].at) as real
    ensures Values(points)[s] == points[s].value && Values(points)[s + 1] == points[s + 1].value
  {}

  /** A segment's value against the line from its start to `end` at the segment's last instant. */
  lemma SegmentMatches(points: seq<Point>, s: nat, t: int, reference: real, end: real)
    requires s + 1 < |points| && points[s].at < points[s + 1].at && t != points[s].at
    requires (reference - points[s].value) * (points[s + 1].at - points[s].at) as real
          == (end - points[s].value) * (t - points[s].at) as real
    ensures InterpolateSegment(points[s], points[s + 1], t) == reference
      <==> (if Representable(points, s, t) then points[s + 1].value else points[s].value) == end
  {
    var a, b := points[s], points[s + 1];
    var span, offset := (b.at - a.at) as real, (t - a.at) as real;
    var ratio := offset / span;
    Ratio(offset, span, ratio);
    SameClimb(reference - a.value, end - a.value, span, offset, ratio);
    if (b.value - a.value) * ratio == (end - a.value) * ratio { CancelRight(b.value - a.value, end - a.value, ratio); }
  }

  lemma Ratio(offset: real, span: real, ratio: real)
    requires span != 0.0 && ratio == offset / span
    ensures ratio * span == offset && (offset != 0.0 ==> ratio != 0.0)
  {}

  lemma SameClimb(climb: real, rise: real, span: real, offset: real, ratio: real)
    requires span != 0.0 && offset != 0.0 && climb * span == rise * offset && ratio * span == offset
    ensures rise * ratio == climb
    ensures climb == 0.0 <==> rise == 0.0
  {
    assert (rise * ratio) * span == rise * (ratio * span);
    CancelRight(rise * ratio, climb, span);
    if rise == 0.0 { CancelRight(climb, 0.0, span); }
    if climb == 0.0 { CancelRight(rise, 0.0, offset); }
  }

  // ---------- forward fill ----------

  function ForwardFillAt(points: seq<Point>, t: int, r: SearchResult): real
    requires points != [] && r.index <= |points| && (r.Found? ==> r.index < |points|)
  {
    match r
    case Found(i) => points[i].value
    case Missing(i) => if i == 0 then points[0].value else points[i - 1].value
  }

  /** The instant forward fill holds at `t`: the latest at or before it, else the earliest. */
  ghost predicate HeldInstant(points: seq<Point>, t: int, k: int) {
    k in LastValues(points) &&
    if k <= t then forall k' :: k' in LastValues(points) && k' <= t ==> k' <= k
    else forall k' :: k' in LastValues(points) ==> k <= k'
  }

  /** Every series has one at every instant, and only one. */
  lemma {:induction false} HeldInstantIs(points: seq<Point>, t: int) returns (k: int)
    requires points != []
    ensures HeldInstant(points, t, k)
    ensures forall k' :: HeldInstant(points, t, k') ==> k' == k
  {
    var n := |points| - 1;
    var front, at := points[..n], points[n].at;
    hide LastValues;
    SaidStep(points);
    if front == [] {
      SaidNothing(front);
      k := at;
    } else {
      var held := HeldInstantIs(front, t);
      k := if (held <= t && (at <= held || at > t)) || (t < held <= at) then held else at;
    }
  }

  lemma SaidStep(points: seq<Point>)
    requires points != []
    ensures var n := |points| - 1;
      forall k :: k in LastValues(points) <==> k in LastValues(points[..n]) || k == points[n].at
  {}

  lemma SaidNothing(points: seq<Point>)
    requires points == []
    ensures forall k :: k !in LastValues(points)
  {}

  /** Over sorted samples, duplicates included, forward fill reads the last sample of the held
      instant whichever hit the search reports, exactly when: nothing hits `t`; or all samples at
      `t` carry one value; or, before the data, the first sample agrees with its last duplicate. */
  lemma ForwardFillExact(points: seq<Point>, t: int, k: int)
    requires points != [] && Sorted(points) && HeldInstant(points, t, k)
    ensures (forall r :: SearchOutcome(points, t, r) ==> ForwardFillAt(points, t, r) == LastValues(points)[k])
      <==> (k < t
            || (k == t && forall i :: 0 <= i < |points| && points[i].at == t ==>
              points[i].value == LastValues(points)[k])
            || (k > t && points[0].value == LastValues(points)[k]))
  {
    hide LastValues;
    var last := LastValuesPresent(points, k);
    LastValuesMeaning(points, 0);
    if k < t {
      forall r | SearchOutcome(points, t, r) ensures ForwardFillAt(points, t, r) == points[last].value {
        HeldBefore(points, t, k, last, r);
      }
    } else if k == t {
      forall r | SearchOutcome(points, t, r) ensures r.Found? {
        assert points[last].at == t;
      }
      forall i | 0 <= i < |points| && points[i].at == t ensures SearchOutcome(points, t, Found(i)) {}
      if forall r :: SearchOutcome(points, t, r) ==> ForwardFillAt(points, t, r) == LastValues(points)[k] {
        forall i | 0 <= i < |points| && points[i].at == t ensures points[i].value == LastValues(points)[k] {
          assert SearchOutcome(points, t, Found(i));
          assert ForwardFillAt(points, t, Found(i)) == points[i].value;
        }
      }
    } else {
      assert SearchOutcome(points, t, Missing(0)) by {
        forall j | 0 <= j < |points| ensures points[j].at > t { LastValuesMeaning(points, j); }
      }
      assert ForwardFillAt(points, t, Missing(0)) == points[0].value;
      forall r | SearchOutcome(points, t, r) ensures r == Missing(0) {
        assert points[0].at > t;
      }
    }
  }

  lemma HeldBefore(points: seq<Point>, t: int, k: int, last: nat, r: SearchResult)
    requires Sorted(points) && HeldInstant(points, t, k) && k < t && SearchOutcome(points, t, r)
    requires last < |points| && points[last].at == k && forall j :: last < j < |points| ==> points[j].at != k
    ensures ForwardFillAt(points, t, r) == points[last].value
  {
    hide LastValues;
    match r
    case Found(i) =>
      LastValuesMeaning(points, i);
      assert false;
    case Missing(i) =>
      assert last < i;
      LastValuesMeaning(points, i - 1);
      assert points[i - 1].at <= k;
      assert points[last].at <= points[i - 1].at;
      assert i - 1 == last;
  }

  /** Two samples at one instant: a search may hit the first, and forward fill then reads it where the
      reference keeps the last. */
  lemma DuplicateHit()
    ensures var points := [Point(0, 1.0), Point(0, 2.0)];
      && Sorted(points) && HeldInstant(points, 0, 0) && SearchOutcome(points, 0, Found(0))
      && ForwardFillAt(points, 0, Found(0)) == 1.0 && LastValues(points)[0] == 2.0
  {
    var points := [Point(0, 1.0), Point(0, 2.0)];
    LastValuesMeaning(points, 1);
    forall k | k in LastValues(points) ensures k == 0 { var i := LastValuesPresent(points, k); }
  }
}
