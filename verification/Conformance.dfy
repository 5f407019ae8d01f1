/** The exact reference of the conformance suite: sort and dedupe the input, pick a window of
    knots around the instant, interpolate over it and clamp. Decimals are exact reals. */
module Conformance {
  import opened Wrappers
  import opened Lagrange
  import opened Points

  // ---------- sort and dedupe ----------

  ghost predicate Sorted(points: seq<Point>) {
    forall i, j :: 0 <= i < j < |points| ==> points[i].at <= points[j].at
  }

  ghost predicate Rising(points: seq<Point>) {
    forall i, j :: 0 <= i < j < |points| ==> points[i].at < points[j].at
  }

  /** What a series says: each instant with the value at its last input position. */
  ghost function LastValues(points: seq<Point>): map<int, real> {
    if points == [] then map[]
    else var p := points[|points| - 1]; LastValues(points[..|points| - 1])[p.at := p.value]
  }

  function Insert(points: seq<Point>, p: Point): seq<Point> {
    var n := |points|;
    if n == 0 || points[n - 1].at <= p.at then points + [p]
    else Insert(points[..n - 1], p) + [points[n - 1]]
  }

  /** The library's stable sort by instant: a later point goes after its equals. */
  function StableSort(points: seq<Point>): seq<Point> {
    if points == [] then []
    else Insert(StableSort(points[..|points| - 1]), points[|points| - 1])
  }

  lemma {:induction false} InsertAdds(points: seq<Point>, p: Point)
    ensures multiset(Insert(points, p)) == multiset(points) + multiset{p}
  {
    var n := |points|;
    if n == 0 || points[n - 1].at <= p.at {
    } else {
      InsertAdds(points[..n - 1], p);
      assert points == points[..n - 1] + [points[n - 1]];
    }
  }

  lemma {:induction false} InsertSorts(points: seq<Point>, p: Point)
    requires Sorted(points)
    ensures Sorted(Insert(points, p))
  {
    var n := |points|;
    if n == 0 || points[n - 1].at <= p.at {
    } else {
      var front, r := points[..n - 1], Insert(points[..n - 1], p);
      InsertSorts(front, p);
      InsertAdds(front, p);
      forall i | 0 <= i < |r| ensures r[i].at <= points[n - 1].at {
        assert r[i] in multiset(r);
        if r[i] != p { assert r[i] in front; }
      }
    }
  }

  lemma {:induction false} InsertSays(points: seq<Point>, p: Point)
    ensures LastValues(Insert(points, p)) == LastValues(points)[p.at := p.value]
  {
    var n := |points|;
    if n == 0 || points[n - 1].at <= p.at {
      assert (points + [p])[..n] == points;
    } else {
      var r := Insert(points[..n - 1], p);
      InsertSays(points[..n - 1], p);
      assert (r + [points[n - 1]])[..|r|] == r;
    }
  }

  lemma {:induction false} StableSortKeeps(points: seq<Point>)
    ensures Sorted(StableSort(points))
    ensures multiset(StableSort(points)) == multiset(points)
    ensures LastValues(StableSort(points)) == LastValues(points)
  {
    if points == [] {
    } else {
      var front, last := points[..|points| - 1], points[|points| - 1];
      assert points == front + [last];
      StableSortKeeps(front);
      InsertAdds(StableSort(front), last);
      InsertSorts(StableSort(front), last);
      InsertSays(StableSort(front), last);
    }
  }

  /** Keeps the last of each run of equal instants. */
  function Dedupe(sorted: seq<Point>): seq<Point> {
    if sorted == [] then []
    else
      var out, p := Dedupe(sorted[..|sorted| - 1]), sorted[|sorted| - 1];
      if out != [] && out[|out| - 1].at == p.at then out[..|out| - 1] + [p] else out + [p]
  }

  function DistinctOf(points: seq<Point>): seq<Point> {
    Dedupe(StableSort(points))
  }

  lemma {:induction false} DedupeRises(sorted: seq<Point>)
    requires Sorted(sorted)
    ensures Rising(Dedupe(sorted))
    ensures sorted != [] ==> Dedupe(sorted) != [] && Dedupe(sorted)[|Dedupe(sorted)| - 1] == sorted[|sorted| - 1]
  {
    if sorted == [] {
    } else {
      var front, last := sorted[..|sorted| - 1], sorted[|sorted| - 1];
      DedupeRises(front);
      if front != [] {
        assert front[|front| - 1] == sorted[|sorted| - 2] && sorted[|sorted| - 2].at <= last.at;
      }
      hide Sorted, Rising;
      RisesWithLast(Dedupe(front), last);
    }
  }

  lemma RisesWithLast(out: seq<Point>, p: Point)
    requires Rising(out) && (out != [] ==> out[|out| - 1].at <= p.at)
    ensures Rising(if out != [] && out[|out| - 1].at == p.at then out[..|out| - 1] + [p] else out + [p])
  {}

  lemma {:induction false} DedupeSays(sorted: seq<Point>)
    ensures LastValues(Dedupe(sorted)) == LastValues(sorted)
  {
    if sorted == [] {
    } else {
      var out, r := Dedupe(sorted[..|sorted| - 1]), Dedupe(sorted);
      DedupeSays(sorted[..|sorted| - 1]);
      if |r| == |out| {
        assert r[..|r| - 1] == out[..|out| - 1];
      } else {
        assert r[..|r| - 1] == out;
      }
    }
  }

  /** Strictly rising instants, covering exactly the input's, each with its last value. */
  lemma DistinctCorrect(points: seq<Point>)
    ensures Rising(DistinctOf(points))
    ensures LastValues(DistinctOf(points)) == LastValues(points)
    ensures points != [] ==> DistinctOf(points) != []
  {
    StableSortKeeps(points);
    DedupeRises(StableSort(points));
    DedupeSays(StableSort(points));
    if points != [] { assert points[0] in multiset(StableSort(points)); }
  }

  method Distinct(points: seq<Point>) returns (out: seq<Point>)
    ensures out == DistinctOf(points)
    ensures Rising(out) && LastValues(out) == LastValues(points)
  {
    hide LastValues, Rising, StableSort, Dedupe;
    DistinctCorrect(points);
    var sorted := StableSort(points);
    out := [];
    DedupeStep(sorted, 0);
    for i := 0 to |sorted|
      invariant out == Dedupe(sorted[..i])
    {
      DedupeStep(sorted, i);
      if out != [] && out[|out| - 1].at == sorted[i].at {
        out := out[..|out| - 1] + [sorted[i]];
      } else {
        out := out + [sorted[i]];
      }
    }
    assert sorted[..|sorted|] == sorted;
  }

  lemma DedupeStep(sorted: seq<Point>, i: nat)
    ensures Dedupe([]) == [] && sorted[..0] == []
    ensures i < |sorted| ==>
      var out, p := Dedupe(sorted[..i]), sorted[i];
      Dedupe(sorted[..i + 1]) == if out != [] && out[|out| - 1].at == p.at then out[..|out| - 1] + [p] else out + [p]
  {
    if i < |sorted| { assert sorted[..i + 1][..i] == sorted[..i]; }
  }

  /** The meaning of `LastValues`: the keys are the instants present, and each maps to the value
      at the last position that carries it. */
  lemma {:induction false} LastValuesMeaning(points: seq<Point>, i: nat)
    requires i < |points|
    ensures points[i].at in LastValues(points)
    ensures (forall j :: i < j < |points| ==> points[j].at != points[i].at) ==>
        LastValues(points)[points[i].at] == points[i].value
  {
    if i == |points| - 1 {
    } else {
      LastValuesMeaning(points[..|points| - 1], i);
    }
  }

  lemma {:induction false} LastValuesPresent(points: seq<Point>, k: int) returns (i: nat)
    requires k in LastValues(points)
    ensures i < |points| && points[i].at == k && LastValues(points)[k] == points[i].value
    ensures forall j :: i < j < |points| ==> points[j].at != k
  {
    var n := |points| - 1;
    if points[n].at == k { i := n; } else { i := LastValuesPresent(points[..n], k); }
  }

  /** Two strictly rising series that say the same are the same series. */
  lemma {:induction false} RisingUnique(a: seq<Point>, b: seq<Point>)
    requires Rising(a) && Rising(b) && LastValues(a) == LastValues(b)
    ensures a == b
  {
    if a == [] || b == [] {
      if b != [] { LastValuesMeaning(b, 0); }
      if a != [] { LastValuesMeaning(a, 0); }
    } else {
      var p, q := a[|a| - 1], b[|b| - 1];
      LastValuesMeaning(a, |a| - 1);
      LastValuesMeaning(b, |b| - 1);
      var i := LastValuesPresent(b, p.at);
      var j := LastValuesPresent(a, q.at);
      assert p == q;
      var fa, fb := a[..|a| - 1], b[..|b| - 1];
      NotAfterLast(a);
      NotAfterLast(b);
      assert LastValues(fa) == LastValues(a) - {p.at} == LastValues(fb);
      RisingUnique(fa, fb);
      assert a == fa + [p] && b == fb + [q];
    }
  }

  lemma NotAfterLast(a: seq<Point>)
    requires Rising(a) && a != []
    ensures a[|a| - 1].at !in LastValues(a[..|a| - 1])
  {
    var front := a[..|a| - 1];
    if a[|a| - 1].at in LastValues(front) {
      var i := LastValuesPresent(front, a[|a| - 1].at);
      assert false;
    }
  }

  /** With unique instants the input order does not matter: any rearrangement has the same knots. */
  lemma OrderIndependent(a: seq<Point>, b: seq<Point>)
    requires forall i, j :: 0 <= i < j < |a| ==> a[i].at != a[j].at
    requires forall i, j :: 0 <= i < j < |b| ==> b[i].at != b[j].at
    requires multiset(a) == multiset(b)
    ensures DistinctOf(a) == DistinctOf(b)
  {
    SameSaying(a, b);
    SameSaying(b, a);
    var m, m' := LastValues(a), LastValues(b);
    assert m.Keys == m'.Keys;
    assert m == m' by { forall k | k in m ensures m[k] == m'[k] {} }
    SameKnots(a, b);
  }

  lemma SameSaying(a: seq<Point>, b: seq<Point>)
    requires forall i, j :: 0 <= i < j < |b| ==> b[i].at != b[j].at
    requires multiset(a) == multiset(b)
    ensures LastValues(a).Keys <= LastValues(b).Keys
    ensures forall k :: k in LastValues(a) ==> LastValues(b)[k] == LastValues(a)[k]
  {
    forall k | k in LastValues(a)
      ensures k in LastValues(b) && LastValues(b)[k] == LastValues(a)[k]
    {
      var i := LastValuesPresent(a, k);
      assert a[i] in multiset(b);
      var j :| 0 <= j < |b| && b[j] == a[i];
      LastValuesMeaning(b, j);
    }
  }

  /** The knots depend on nothing but what the series says. */
  lemma SameKnots(a: seq<Point>, b: seq<Point>)
    ensures LastValues(a) == LastValues(b) <==> DistinctOf(a) == DistinctOf(b)
  {
    DistinctCorrect(a);
    DistinctCorrect(b);
    if LastValues(a) == LastValues(b) { RisingUnique(DistinctOf(a), DistinctOf(b)); }
  }

  // ---------- the reference ----------

  /** What the reference asks of a method: whether it is the cubic one, how many knots its window
      holds, and how far (in ranges of the data) an extrapolated value may leave the data. */
  datatype Spline = Spline(cubic: bool, minPoints: nat, bounds: Option<real>)

  function Offsets(knots: seq<Point>): (x: seq<real>)
    requires knots != []
    ensures |x| == |knots|
    ensures Rising(knots) ==> Ascending(x)
  {
    seq(|knots|, i requires 0 <= i < |knots| => (knots[i].at - knots[0].at) as real)
  }

  function Values(knots: seq<Point>): (y: seq<real>)
    ensures |y| == |knots|
  {
    seq(|knots|, i requires 0 <= i < |knots| => knots[i].value)
  }

  function CountAtOrBelow(x: seq<real>, target: real): (c: nat)
    ensures c <= |x|
  {
    if x == [] then 0
    else CountAtOrBelow(x[..|x| - 1], target) + if x[|x| - 1] <= target then 1 else 0
  }

  lemma {:induction false} CountSplits(x: seq<real>, target: real)
    requires Ascending(x)
    ensures forall i :: 0 <= i < |x| ==> (x[i] <= target <==> i < CountAtOrBelow(x, target))
  {
    if x == [] {
    } else {
      var front := x[..|x| - 1];
      CountSplits(front, target);
      forall i | 0 <= i < |x| ensures x[i] <= target <==> i < CountAtOrBelow(x, target) {
        if i < |front| {
          assert front[i] == x[i];
          assert CountAtOrBelow(front, target) < |front| ==> front[|front| - 1] > target;
        } else if x[i] <= target && front != [] {
          assert front[|front| - 1] == x[|front| - 1] < x[i];
        }
      }
    }
  }

  function Min(a: int, b: int): int { if a <= b then a else b }

  function WindowSize(m: Spline, n: nat): nat { Min(m.minPoints, n) }

  /** `clamp(at_or_below - window / 2, 0, n - window)`. */
  function WindowStart(window: nat, atOrBelow: nat, n: nat): (s: nat)
    requires window <= n
    ensures s + window <= n
  {
    var raw := atOrBelow - window / 2;
    if raw < 0 then 0 else if raw > n - window then n - window else raw
  }

  function MinValue(points: seq<Point>): real
    requires points != []
  {
    if |points| == 1 then points[0].value
    else
      var m := MinValue(points[..|points| - 1]);
      if points[|points| - 1].value < m then points[|points| - 1].value else m
  }

  function MaxValue(points: seq<Point>): real
    requires points != []
  {
    if |points| == 1 then points[0].value
    else
      var m := MaxValue(points[..|points| - 1]);
      if points[|points| - 1].value > m then points[|points| - 1].value else m
  }

  /** `total.max(lo).min(hi)` with the bounds `b` data ranges beyond the data. */
  function Clamp(total: real, knots: seq<Point>, b: real): real
    requires knots != []
  {
    var min, max := MinValue(knots), MaxValue(knots);
    var range := max - min;
    var lo, hi := min - range * b, max + range * b;
    var raised := if total < lo then lo else total;
    if raised > hi then hi else raised
  }

  predicate Outside(knots: seq<Point>, t: int)
    requires knots != []
  {
    t < knots[0].at || t > knots[|knots| - 1].at
  }

  function Target(knots: seq<Point>, t: int): real
    requires knots != []
  {
    (t - knots[0].at) as real
  }

  /** The first knot of the window chosen for `t`. */
  function Start(knots: seq<Point>, m: Spline, t: int): (s: nat)
    requires knots != []
    ensures s + WindowSize(m, |knots|) <= |knots|
  {
    WindowStart(WindowSize(m, |knots|), CountAtOrBelow(Offsets(knots), Target(knots, t)), |knots|)
  }

  /** The interpolant over the chosen window, before any edge rule. */
  ghost function Unclamped(knots: seq<Point>, m: Spline, t: int): real
    requires knots != [] && Rising(knots)
  {
    var s := Start(knots, m, t);
    var end := s + WindowSize(m, |knots|);
    Total(Offsets(knots), Values(knots), Target(knots, t), s, end, end)
  }

  /** The window's Lebesgue sum, not yet raised to 1. */
  ghost function RawLebesgue(knots: seq<Point>, m: Spline, t: int): real
    requires knots != [] && Rising(knots)
  {
    var s := Start(knots, m, t);
    var end := s + WindowSize(m, |knots|);
    Lebesgue(Offsets(knots), Target(knots, t), s, end, end)
  }

  /** The reference value: a cubic holds its edge values outside the data; a method with a bounds
      factor is clamped there; every other value is the window's interpolant. */
  ghost function Reference(knots: seq<Point>, m: Spline, t: int): real
    requires knots != [] && Rising(knots)
  {
    if Outside(knots, t) && m.cubic then (if t < knots[0].at then knots[0].value else knots[|knots| - 1].value)
    else if Outside(knots, t) && m.bounds.Some? then Clamp(Unclamped(knots, m, t), knots, m.bounds.value)
    else Unclamped(knots, m, t)
  }

  ghost function RoundedKnots(points: seq<Point>, round: real -> real): (knots: seq<Point>)
    requires points != []
    ensures knots != [] && Rising(knots)
  {
    DistinctCorrect(points);
    var d := DistinctOf(points);
    seq(|d|, i requires 0 <= i < |d| => Point(d[i].at, round(d[i].value)))
  }

  /** The port of the reference: `fallback` is the method's own choice for a knot count, `round`
      its rounding of each value to an `f64`. */
  method ExactWithLebesgue(points: seq<Point>, fallback: nat -> Spline, round: real -> real, t: int)
    returns (value: real, lebesgue: real)
    requires points != []
    ensures var knots := RoundedKnots(points, round);
      var m := fallback(|knots|);
      value == Reference(knots, m, t) &&
      lebesgue == if Outside(knots, t)
        && m.cubic then 1.0 else if RawLebesgue(knots, m, t) < 1.0 then 1.0 else RawLebesgue(knots, m, t)
  {
    hide Reference, RawLebesgue;
    var d := Distinct(points);
    var knots := seq(|d|, i requires 0 <= i < |d| => Point(d[i].at, round(d[i].value)));
    assert knots == RoundedKnots(points, round);
    value, lebesgue := Evaluate(knots, fallback(|knots|), t);
  }

  method Evaluate(knots: seq<Point>, spline: Spline, t: int) returns (value: real, lebesgue: real)
    requires knots != [] && Rising(knots)
    ensures value == Reference(knots, spline, t)
    ensures lebesgue == if Outside(knots, t)
        && spline.cubic then 1.0 else if RawLebesgue(knots, spline, t) < 1.0 then 1.0 else RawLebesgue(knots, spline, t)
  {
    hide Basis, Total, Lebesgue, Clamp, CountAtOrBelow;
    var n := |knots|;
    var x := Offsets(knots);
    var target := Target(knots, t);
    var below, above := target < x[0], target > x[n - 1];
    assert (below || above) == Outside(knots, t) && below == (t < knots[0].at);
    if spline.cubic && (below || above) {
      return if below then knots[0].value else knots[n - 1].value, 1.0;
    }
    var window := WindowSize(spline, n);
    var start := WindowStart(window, CountAtOrBelow(x, target), n);
    var total, sum := WindowSums(x, Values(knots), target, start, start + window);
    lebesgue := if sum < 1.0 then 1.0 else sum;
    value := total;
    if spline.bounds.Some? && (below || above) {
      value := Clamp(total, knots, spline.bounds.value);
    }
  }

  method WindowSums(x: seq<real>, y: seq<real>, target: real, start: nat, end: nat) returns (total: real, sum: real)
    requires start <= end <= |x| == |y| && Ascending(x)
    ensures total == Total(x, y, target, start, end, end)
    ensures sum == Lebesgue(x, target, start, end, end)
  {
    hide Basis;
    total, sum := 0.0, 0.0;
    for j := start to end
      invariant total == Total(x, y, target, start, end, j)
      invariant sum == Lebesgue(x, target, start, end, j)
    {
      var basis := WindowBasis(x, target, j, start, end);
      total := total + y[j] * basis;
      sum := sum + Abs(basis);
    }
  }

  lemma BasisEmpty(x: seq<real>, target: real, j: nat, start: nat)
    requires start <= |x| && j < |x| && Ascending(x)
    ensures Basis(x, target, j, start, start) == 1.0
  {}

  lemma BasisNext(x: seq<real>, target: real, j: nat, start: nat, k: nat)
    requires start <= k < |x| && j < |x| && Ascending(x)
    ensures k != j ==> x[j] - x[k] != 0.0
    ensures Basis(x, target, j, start, k + 1)
      == if k == j then Basis(x, target, j, start, k) else Fraction(Basis(x, target, j, start, k), target - x[k],
        x[j] - x[k])
  {
    hide Fraction;
  }

  method WindowBasis(x: seq<real>, target: real, j: nat, start: nat, end: nat) returns (basis: real)
    requires start <= j < end <= |x| && Ascending(x)
    ensures basis == Basis(x, target, j, start, end)
  {
    hide Fraction, Basis, Ascending;
    basis := 1.0;
    BasisEmpty(x, target, j, start);
    for k := start to end
      invariant basis == Basis(x, target, j, start, k)
    {
      BasisNext(x, target, j, start, k);
      if k != j {
        basis := Fraction(basis, target - x[k], x[j] - x[k]);
      }
    }
  }

  // ---------- what the reference is for ----------

  /** Every method the suite measures takes at least two knots, or the only one there is. */
  predicate Measured(m: Spline) { m.minPoints >= 2 }

  lemma WindowHolds(knots: seq<Point>, m: Spline, i: nat)
    requires i < |knots| && Rising(knots) && Measured(m)
    ensures Start(knots, m, knots[i].at) <= i < Start(knots, m, knots[i].at) + WindowSize(m, |knots|)
  {
    var x := Offsets(knots);
    CountSplits(x, x[i]);
    assert CountAtOrBelow(x, x[i]) == i + 1 by {
      if i + 1 < |x| { assert x[i + 1] > x[i]; }
    }
  }

  /** The reference passes through every knot, whatever the method. */
  lemma ReferenceAtKnot(knots: seq<Point>, m: Spline, i: nat)
    requires i < |knots| && Rising(knots) && Measured(m)
    ensures Reference(knots, m, knots[i].at) == knots[i].value
  {
    hide Basis, Total, Start;
    WindowHolds(knots, m, i);
    var s := Start(knots, m, knots[i].at);
    var end := s + WindowSize(m, |knots|);
    TotalAtNode(Offsets(knots), Values(knots), i, s, end, end);
  }

  /** Knots `s..s + w` are the window for `t`: as many as the method asks for, or all there are; with
      half of them, rounded down, at or before `t` and the others after it, as far as the ends of the
      data allow. */
  predicate IsWindow(knots: seq<Point>, m: Spline, t: int, s: nat, w: nat) {
    && w <= m.minPoints && w <= |knots| && (w == m.minPoints || w == |knots|)
    && s + w <= |knots|
    && (s > 0 ==> knots[s + w / 2 - 1].at <= t)
    && (s + w < |knots| ==> t < knots[s + w / 2].at)
  }

  /** The window chosen is that one, for every instant, and no other is. */
  lemma WindowIs(knots: seq<Point>, m: Spline, t: int, s: nat, w: nat)
    requires knots != [] && Rising(knots)
    ensures IsWindow(knots, m, t, s, w) <==> s == Start(knots, m, t) && w == WindowSize(m, |knots|)
  {
    var x, target := Offsets(knots), Target(knots, t);
    CountSplits(x, target);
    var c := CountAtOrBelow(x, target);
    forall i | 0 <= i < |knots| ensures knots[i].at <= t <==> i < c { assert x[i] <= target <==> i < c; }
  }

  /** Whenever the window's own knots lie on a polynomial of degree below its size, the interpolant is
      that polynomial at `t`, up to the edge rules of the method. */
  lemma ReferenceReproduces(knots: seq<Point>, m: Spline, p: seq<real>, t: int, s: nat, w: nat)
    requires knots != [] && Rising(knots) && IsWindow(knots, m, t, s, w) && |p| <= w
    requires forall i :: s <= i < s + w ==> knots[i].value == Eval(p, knots[i].at as real)
    ensures Unclamped(knots, m, t) == Eval(p, t as real)
    ensures !Outside(knots, t) || (!m.cubic && m.bounds.None?) ==> Reference(knots, m, t) == Eval(p, t as real)
  {
    WindowIs(knots, m, t, s, w);
    hide Basis, Total, Eval, Start, IsWindow, WindowSize;
    WindowReproduces(knots, p, t, s, s + w);
    hide Offsets, Values, Target;
  }

  lemma WindowReproduces(knots: seq<Point>, p: seq<real>, t: int, s: nat, end: nat)
    requires knots != [] && Rising(knots) && s <= end <= |knots| && |p| <= end - s
    requires forall i :: s <= i < end ==> knots[i].value == Eval(p, knots[i].at as real)
    ensures Total(Offsets(knots), Values(knots), Target(knots, t), s, end, end) == Eval(p, t as real)
  {
    hide Basis, Total, Eval;
    var instants := seq(|knots|, i requires 0 <= i < |knots| => knots[i].at as real);
    assert 1.0 * Target(knots, t) + knots[0].at as real == t as real;
    assert AffineImage(Offsets(knots), instants, 1.0, knots[0].at as real);
    assert Values(knots) == seq(|knots|, i requires 0 <= i < |knots| => knots[i].value);
    hide Offsets, Target, AffineImage;
    TotalRescaled(Offsets(knots), instants, Values(knots), 1.0, knots[0].at as real, Target(knots, t), t as real, s,
      end, end);
    Reproduces(instants, Values(knots), p, t as real, s, end);
  }

  /** The Lebesgue sum never drops below 1, so raising it to 1 changes nothing. */
  lemma RaisingIsIdle(knots: seq<Point>, m: Spline, t: int)
    requires knots != [] && Rising(knots) && m.minPoints >= 1
    ensures RawLebesgue(knots, m, t) >= 1.0
  {
    hide Basis, Lebesgue, Start;
    LebesgueAtLeastOne(Offsets(knots), Target(knots, t), Start(knots, m, t),
      Start(knots, m, t) + WindowSize(m, |knots|));
  }

  /** The series with every instant moved to `c * at + d`. */
  ghost function Retimed(knots: seq<Point>, c: int, d: int): (r: seq<Point>)
    ensures |r| == |knots|
  {
    seq(|knots|, i requires 0 <= i < |knots| => Point(c * knots[i].at + d, knots[i].value))
  }

  lemma ScaleRises(a: int, b: int, c: int)
    requires c > 0
    ensures a < b <==> c * a < c * b
  {}

  lemma RetimedRises(knots: seq<Point>, c: int, d: int)
    requires Rising(knots) && c > 0
    ensures Rising(Retimed(knots, c, d))
  {
    forall i, j | 0 <= i < j < |knots|
      ensures c * knots[i].at < c * knots[j].at
    {
      ScaleRises(knots[i].at, knots[j].at, c);
    }
  }

  lemma AffineFront(x: seq<real>, x': seq<real>, target: real, target': real, c: real)
    requires AffineImage(x, x', c, 0.0) && c > 0.0 && x != [] && target' == c * target
    ensures var n := |x| - 1; AffineImage(x[..n], x'[..n], c, 0.0) && (x'[n] <= target' <==> x[n] <= target)
  {
    var v := x[|x| - 1];
    assert x'[|x| - 1] == c * v;
    if v <= target { assert c * (target - v) >= 0.0; } else { assert c * (v - target) > 0.0; }
  }

  lemma {:induction false} CountRescaled(x: seq<real>, x': seq<real>, target: real, target': real, c: real)
    requires AffineImage(x, x', c, 0.0) && c > 0.0 && target' == c * target
    ensures |x'| == |x| && CountAtOrBelow(x', target') == CountAtOrBelow(x, target)
  {
    assert |x'| == |x|;
    hide AffineImage;
    if x == [] {
    } else {
      AffineFront(x, x', target, target', c);
      CountRescaled(x[..|x| - 1], x'[..|x| - 1], target, target', c);
    }
  }

  lemma {:induction false} SameExtremes(a: seq<Point>, b: seq<Point>)
    requires |a| == |b| > 0 && forall i :: 0 <= i < |a| ==> a[i].value == b[i].value
    ensures MinValue(a) == MinValue(b) && MaxValue(a) == MaxValue(b)
  {
    if |a| == 1 {
    } else {
      SameExtremes(a[..|a| - 1], b[..|b| - 1]);
    }
  }

  lemma SameClamp(a: seq<Point>, b: seq<Point>, total: real, factor: real)
    requires |a| == |b| > 0 && forall i :: 0 <= i < |a| ==> a[i].value == b[i].value
    ensures Clamp(total, a, factor) == Clamp(total, b, factor)
  {
    hide MinValue, MaxValue;
    SameExtremes(a, b);
  }

  lemma ScaledOffset(a: int, b: int, c: int, d: int)
    ensures (c * a + d - (c * b + d)) as real == c as real * (a - b) as real
  {
    assert c * a + d - (c * b + d) == c * (a - b);
    IntProduct(c, a - b);
  }

  lemma {:induction false} IntProduct(c: int, k: int)
    ensures (c * k) as real == c as real * k as real
    decreases if k < 0 then -k else k
  {
    if k > 0 {
      IntProduct(c, k - 1);
      assert c * k == c * (k - 1) + c;
      assert c as real * k as real == c as real * (k - 1) as real + c as real;
    } else if k < 0 {
      IntProduct(c, k + 1);
      assert c * k == c * (k + 1) - c;
      assert c as real * k as real == c as real * (k + 1) as real - c as real;
    }
  }

  lemma AffineOffsets(knots: seq<Point>, c: int, d: int)
    requires knots != []
    ensures AffineImage(Offsets(knots), Offsets(Retimed(knots, c, d)), c as real, 0.0)
  {
    forall i | 0 <= i < |knots|
      ensures Offsets(Retimed(knots, c, d))[i] == c as real * Offsets(knots)[i] + 0.0
    {
      ScaledOffset(knots[i].at, knots[0].at, c, d);
    }
  }

  lemma StartRetimed(knots: seq<Point>, m: Spline, c: int, d: int, t: int)
    requires knots != [] && c > 0
    ensures Target(Retimed(knots, c, d), c * t + d) == c as real * Target(knots, t)
    ensures Start(Retimed(knots, c, d), m, c * t + d) == Start(knots, m, t)
  {
    hide AffineImage, Offsets, CountAtOrBelow;
    AffineOffsets(knots, c, d);
    ScaledOffset(t, knots[0].at, c, d);
    CountRescaled(Offsets(knots), Offsets(Retimed(knots, c, d)), Target(knots, t),
      Target(Retimed(knots, c, d), c * t + d), c as real);
  }

  lemma WindowRetimed(knots: seq<Point>, m: Spline, c: int, d: int, t: int)
    requires knots != [] && Rising(knots) && c > 0 && Rising(Retimed(knots, c, d))
    ensures Unclamped(Retimed(knots, c, d), m, c * t + d) == Unclamped(knots, m, t)
    ensures RawLebesgue(Retimed(knots, c, d), m, c * t + d) == RawLebesgue(knots, m, t)
  {
    hide Basis, AffineImage, Start, Offsets, Target;
    var moved := Retimed(knots, c, d);
    AffineOffsets(knots, c, d);
    StartRetimed(knots, m, c, d, t);
    assert Values(moved) == Values(knots);
    var s := Start(knots, m, t);
    var end := s + WindowSize(m, |knots|);
    TotalRescaled(Offsets(knots), Offsets(moved), Values(knots), c as real, 0.0, Target(knots, t),
      Target(moved, c * t + d), s, end, end);
  }

  /** Shifting all instants, or stretching them by a positive factor, changes nothing: the same
      value and the same Lebesgue sum at the moved instant. */
  lemma ReferenceRetimed(knots: seq<Point>, m: Spline, c: int, d: int, t: int)
    requires knots != [] && Rising(knots) && c > 0
    ensures Rising(Retimed(knots, c, d))
    ensures Reference(Retimed(knots, c, d), m, c * t + d) == Reference(knots, m, t)
    ensures RawLebesgue(Retimed(knots, c, d), m, c * t + d) == RawLebesgue(knots, m, t)
  {
    hide Unclamped, RawLebesgue, Clamp;
    RetimedRises(knots, c, d);
    if m.bounds.Some? { SameClamp(knots, Retimed(knots, c, d), Unclamped(knots, m, t), m.bounds.value); }
    ScaleRises(t, knots[0].at, c);
    ScaleRises(knots[|knots| - 1].at, t, c);
    WindowRetimed(knots, m, c, d, t);
  }

  /** An extrapolated value of a bounded method stays within `b` data ranges of the data, and is
      changed no further than that takes: it is kept where it lies within them, and is the nearer of
      the two bounds where it does not. */
  lemma ClampedStaysNear(knots: seq<Point>, m: Spline, t: int)
    requires knots != [] && Rising(knots) && Outside(knots, t) && !m.cubic && m.bounds.Some? && m.bounds.value >= 0.0
    ensures var range := MaxValue(knots) - MinValue(knots);
      var lo, hi := MinValue(knots) - range * m.bounds.value, MaxValue(knots) + range * m.bounds.value;
      var r, u := Reference(knots, m, t), Unclamped(knots, m, t);
      lo <= r <= hi && (lo <= u <= hi ==> r == u) && (u < lo ==> r == lo) && (u > hi ==> r == hi)
  {
    hide Unclamped, MinValue, MaxValue;
    RangeOfData(knots);
    NonNegativeProduct(MaxValue(knots) - MinValue(knots), m.bounds.value);
  }

  /** Beyond the data a cubic holds the value of the knot nearest the instant. */
  lemma CubicHoldsNearest(knots: seq<Point>, m: Spline, t: int, i: nat)
    requires knots != [] && Rising(knots) && Outside(knots, t) && m.cubic && i < |knots|
    requires forall k :: 0 <= k < |knots| ==>
        var d, e := t - knots[i].at, t - knots[k].at; -e <= d <= e || e <= d <= -e
    ensures Reference(knots, m, t) == knots[i].value
  {
    hide Unclamped;
    assert knots[0].at <= knots[i].at <= knots[|knots| - 1].at;
  }

  lemma NonNegativeProduct(a: real, b: real)
    requires a >= 0.0 && b >= 0.0
    ensures a * b >= 0.0
  {}

  /** The range is that of the data: values of it, and no value lies beyond them. */
  lemma {:induction false} RangeOfData(points: seq<Point>)
    requires points != []
    ensures forall i :: 0 <= i < |points| ==> MinValue(points) <= points[i].value <= MaxValue(points)
    ensures exists i :: 0 <= i < |points| && points[i].value == MinValue(points)
    ensures exists i :: 0 <= i < |points| && points[i].value == MaxValue(points)
    ensures MinValue(points) <= MaxValue(points)
  {
    var n := |points| - 1;
    if n == 0 {
      assert points[0].value == MinValue(points) == MaxValue(points);
    } else {
      var front := points[..n];
      RangeOfData(front);
      var i :| 0 <= i < n && front[i].value == MinValue(front);
      var j :| 0 <= j < n && front[j].value == MaxValue(front);
      hide MinValue, MaxValue;
      RangeStep(points);
      assert points[i].value == front[i].value && points[j].value == front[j].value;
      forall k | 0 <= k < |points| ensures MinValue(points) <= points[k].value <= MaxValue(points) {
        if k < n { assert points[k] == front[k]; }
      }
    }
  }

  lemma RangeStep(points: seq<Point>)
    requires |points| > 1
    ensures var n := |points| - 1;
      var front, v := points[..n], points[n].value;
      && MinValue(points) == (if v < MinValue(front) then v else MinValue(front))
      && MaxValue(points) == (if v > MaxValue(front) then v else MaxValue(front))
  {}
}
