/** The analytics gate: on strictly rising whole minutes, the strict local extremes at the global
    extreme of the linearly resampled minute series are the reference's rows. */
module Extremes {

  /** Instants in whole minutes, strictly rising. */
  ghost predicate Rising(ts: seq<int>) { forall i, j :: 0 <= i < j < |ts| ==> ts[i] < ts[j] }

  function Max(values: seq<real>): (m: real)
    requires values != []
    ensures m in values && forall i :: 0 <= i < |values| ==> values[i] <= m
  {
    if |values| == 1 then values[0]
    else
      var front := Max(values[..|values| - 1]);
      assert forall i :: 0 <= i < |values| - 1 ==> values[..|values| - 1][i] == values[i];
      if values[|values| - 1] > front then values[|values| - 1] else front
  }

  function Negated(values: seq<real>): (n: seq<real>)
    ensures |n| == |values| && forall i :: 0 <= i < |values| ==> n[i] == -values[i]
  {
    seq(|values|, i requires 0 <= i < |values| => -values[i])
  }

  function Min(values: seq<real>): real
    requires values != []
  {
    -Max(Negated(values))
  }

  /** Rows at the extreme whose neighbouring rows are both strictly beyond it. */
  function ExtremeReference(ts: seq<int>, values: seq<real>, peaks: bool): set<int>
    requires |ts| == |values|
  {
    if values == [] then {}
    else
      var extreme := if peaks then Max(values) else Min(values);
      set i | 1 <= i < |values| - 1 && values[i] == extreme && Beyond(values[i - 1], extreme, peaks)
        && Beyond(values[i + 1], extreme, peaks) :: ts[i]
  }

  predicate Beyond(neighbour: real, extreme: real, peaks: bool) {
    if peaks then neighbour < extreme else neighbour > extreme
  }

  // ---------- linear resampling on the minute grid ----------

  /** The row at or before minute `m`. */
  function RowBefore(ts: seq<int>, m: int): (i: nat)
    requires ts != [] && ts[0] <= m
    ensures i < |ts| && ts[i] <= m && (i + 1 < |ts| && Rising(ts) ==> m < ts[i + 1])
  {
    if ts[|ts| - 1] <= m then |ts| - 1 else RowBefore(ts[..|ts| - 1], m)
  }

  function Part(d: real, f: real): real { d * f }

  /** The point a fraction `f` of the way from `u` to `v`. */
  function Mix(u: real, v: real, f: real): real { u + Part(v - u, f) }

  /** The resampled value at minute `m`: a row's own value, else on the line to the next row. */
  function Resampled(ts: seq<int>, values: seq<real>, m: int): real
    requires |ts| == |values| > 0 && Rising(ts) && ts[0] <= m <= ts[|ts| - 1]
  {
    var i := RowBefore(ts, m);
    if ts[i] == m then values[i]
    else Mix(values[i], values[i + 1], (m - ts[i]) as real / (ts[i + 1] - ts[i]) as real)
  }

  /** `m` is the middle of a three-minute window of the resampled series that is strictly highest
      there, at the series' global maximum. */
  ghost predicate StrictPeak(ts: seq<int>, values: seq<real>, m: int)
    requires |ts| == |values| > 0 && Rising(ts)
  {
    && ts[0] < m < ts[|ts| - 1]
    && (forall k :: ts[0] <= k <= ts[|ts| - 1] ==> Resampled(ts, values, k) <= Resampled(ts, values, m))
    && Resampled(ts, values, m - 1) < Resampled(ts, values, m)
    && Resampled(ts, values, m + 1) < Resampled(ts, values, m)
  }

  ghost predicate StrictValley(ts: seq<int>, values: seq<real>, m: int)
    requires |ts| == |values| > 0 && Rising(ts)
  {
    && ts[0] < m < ts[|ts| - 1]
    && (forall k :: ts[0] <= k <= ts[|ts| - 1] ==> Resampled(ts, values, k) >= Resampled(ts, values, m))
    && Resampled(ts, values, m - 1) > Resampled(ts, values, m)
    && Resampled(ts, values, m + 1) > Resampled(ts, values, m)
  }

  // ---------- filling a gap ----------

  lemma Ratio(a: int, b: int) returns (f: real)
    requires 0 < a < b
    ensures f == a as real / b as real && 0.0 < f < 1.0
  {
    f := a as real / b as real;
    assert f * b as real == a as real;
  }

  lemma PartPositive(d: real, f: real)
    requires d > 0.0 && f > 0.0
    ensures Part(d, f) > 0.0
  {}

  lemma PartRest(d: real, f: real)
    ensures Part(d, 1.0 - f) == d - Part(d, f)
  {}

  /** A proper fraction of a positive length. */
  lemma Portion(d: real, f: real)
    requires d > 0.0 && 0.0 < f < 1.0
    ensures 0.0 < Part(d, f) < d
  {
    hide Part;
    PartPositive(d, f);
    PartPositive(d, 1.0 - f);
    PartRest(d, f);
  }

  lemma PartNegated(d: real, f: real)
    ensures Part(-d, f) == -Part(d, f)
  {}

  lemma MixUp(u: real, v: real, f: real)
    requires u < v && 0.0 < f < 1.0
    ensures u < Mix(u, v, f) < v
  {
    hide Part;
    Portion(v - u, f);
  }

  lemma MixDown(u: real, v: real, f: real)
    requires u > v && 0.0 < f < 1.0
    ensures v < Mix(u, v, f) < u
  {
    hide Part;
    var d := u - v;
    assert v - u == -d;
    Portion(d, f);
    PartNegated(d, f);
  }

  lemma Blend(u: real, v: real, f: real)
    requires 0.0 < f < 1.0
    ensures u == v ==> Mix(u, v, f) == u
    ensures u < v ==> u < Mix(u, v, f) < v
    ensures u > v ==> v < Mix(u, v, f) < u
  {
    if u < v {
      MixUp(u, v, f);
    } else if u > v {
      MixDown(u, v, f);
    }
  }

  /** A minute inside a gap takes a value strictly between the gap's ends, or theirs if equal. */
  lemma InsideGap(ts: seq<int>, values: seq<real>, m: int)
    requires |ts| == |values| > 0 && Rising(ts) && ts[0] <= m <= ts[|ts| - 1]
    ensures var i := RowBefore(ts, m);
      ts[i] == m || (i + 1 < |ts| &&
        var r, u, v := Resampled(ts, values, m), values[i], values[i + 1];
        (u == v ==> r == u) && (u < v ==> u < r < v) && (u > v ==> v < r < u))
  {
    hide *;
    var i := RowBefore(ts, m);
    if ts[i] != m {
      var f := ResampledInGap(ts, values, m);
      Blend(values[i], values[i + 1], f);
    }
  }

  lemma ResampledInGap(ts: seq<int>, values: seq<real>, m: int) returns (f: real)
    requires |ts| == |values| > 0 && Rising(ts) && ts[0] <= m <= ts[|ts| - 1] && ts[RowBefore(ts, m)] != m
    ensures 0.0 < f < 1.0
    ensures var i := RowBefore(ts, m); i + 1 < |ts| && Resampled(ts, values, m) == Mix(values[i], values[i + 1], f)
  {
    hide RowBefore;
    var i := RowBefore(ts, m);
    f := Ratio(m - ts[i], ts[i + 1] - ts[i]);
  }

  lemma RowIsItself(ts: seq<int>, values: seq<real>, i: nat)
    requires |ts| == |values| && Rising(ts) && i < |ts|
    ensures ts[0] <= ts[i] <= ts[|ts| - 1] && RowBefore(ts, ts[i]) == i && Resampled(ts, values, ts[i]) == values[i]
  {
  }

  /** Resampling never rises above the rows' maximum. */
  lemma ResampledAtMostMax(ts: seq<int>, values: seq<real>, m: int)
    requires |ts| == |values| > 0 && Rising(ts) && ts[0] <= m <= ts[|ts| - 1]
    ensures Resampled(ts, values, m) <= Max(values)
  {
    hide Resampled, RowBefore, Max;
    InsideGap(ts, values, m);
    RowAt(ts, values, m);
  }

  lemma RowAt(ts: seq<int>, values: seq<real>, m: int)
    requires |ts| == |values| > 0 && Rising(ts) && ts[0] <= m <= ts[|ts| - 1]
    ensures var i := RowBefore(ts, m); ts[i] == m ==> Resampled(ts, values, m) == values[i]
  {}

  /** The minute beside row `i`, on the side of its neighbour `j`, is lower than the maximum exactly
      when that neighbouring row is. */
  lemma BesideRow(ts: seq<int>, values: seq<real>, i: nat, m: int)
    requires |ts| == |values| && Rising(ts) && i + 1 < |ts|
    requires ts[i] <= m <= ts[i + 1]
    ensures ts[0] <= m <= ts[|ts| - 1]
    ensures values[i] == Max(values) && m > ts[i] ==>
        (Resampled(ts, values, m) < Max(values) <==> values[i + 1] < Max(values))
    ensures values[i + 1] == Max(values) && m < ts[i + 1] ==>
        (Resampled(ts, values, m) < Max(values) <==> values[i] < Max(values))
  {
    RowIsItself(ts, values, i);
    RowIsItself(ts, values, i + 1);
    assert ts[0] <= m <= ts[|ts| - 1];
    RowBeside(ts, i, m);
    hide Resampled, RowBefore, Max, Rising;
    InsideGap(ts, values, m);
    RowAt(ts, values, m);
  }

  lemma RowBeside(ts: seq<int>, i: nat, m: int)
    requires Rising(ts) && i + 1 < |ts| && ts[0] <= ts[i] <= m <= ts[i + 1]
    ensures RowBefore(ts, m) == if m == ts[i + 1] then i + 1 else i
  {
    hide RowBefore;
  }

  /** A minute at the maximum that is not a row lies in a gap level with it on both sides. */
  lemma PeakIsRow(ts: seq<int>, values: seq<real>, m: int)
    requires |ts| == |values| > 0 && Rising(ts) && StrictPeak(ts, values, m)
    ensures var i := RowBefore(ts, m); ts[i] == m && 1 <= i < |ts| - 1 && values[i] == Max(values)
  {
    hide Resampled, RowBefore, Max;
    var i := RowBefore(ts, m);
    RowAt(ts, values, m);
    var top :| 0 <= top < |values| && values[top] == Max(values);
    RowIsItself(ts, values, top);
    ResampledAtMostMax(ts, values, m);
    InsideGap(ts, values, m);
    if ts[i] != m {
      assert values[i] == Max(values) && values[i + 1] == Max(values);
      BesideRow(ts, values, i, m + 1);
    }
  }

  ghost predicate ReferencePeak(ts: seq<int>, values: seq<real>, m: int, i: nat)
    requires |ts| == |values| > 0
  {
    1 <= i < |values| - 1 && ts[i] == m && values[i] == Max(values) && values[i - 1] < Max(values)
      && values[i + 1] < Max(values)
  }

  lemma InReference(ts: seq<int>, values: seq<real>, m: int)
    requires |ts| == |values| > 0
    ensures m in ExtremeReference(ts, values, true) <==> exists i :: ReferencePeak(ts, values, m, i)
  {
    hide Max;
    if m in ExtremeReference(ts, values, true) {
      var i :| 1 <= i < |values| - 1 && values[i] == Max(values) && Beyond(values[i - 1], Max(values), true)
        && Beyond(values[i + 1], Max(values), true) && ts[i] == m;
      assert ReferencePeak(ts, values, m, i);
    }
    if i :| ReferencePeak(ts, values, m, i) {
      assert Beyond(values[i - 1], Max(values), true) && Beyond(values[i + 1], Max(values), true);
    }
  }

  lemma PeakIsReference(ts: seq<int>, values: seq<real>, m: int) returns (i: nat)
    requires |ts| == |values| > 0 && Rising(ts) && StrictPeak(ts, values, m)
    ensures ReferencePeak(ts, values, m, i)
  {
    hide Resampled, RowBefore, Max;
    PeakIsRow(ts, values, m);
    i := RowBefore(ts, m);
    RowIsItself(ts, values, i);
    BesideRow(ts, values, i, m + 1);
    BesideRow(ts, values, i - 1, m - 1);
  }

  lemma ReferenceIsPeak(ts: seq<int>, values: seq<real>, m: int, i: nat)
    requires |ts| == |values| > 0 && Rising(ts) && ReferencePeak(ts, values, m, i)
    ensures StrictPeak(ts, values, m)
  {
    hide Resampled, RowBefore, Max;
    RowIsItself(ts, values, i);
    BesideRow(ts, values, i, m + 1);
    BesideRow(ts, values, i - 1, m - 1);
    forall k | ts[0] <= k <= ts[|ts| - 1] ensures Resampled(ts, values, k) <= Resampled(ts, values, m) {
      ResampledAtMostMax(ts, values, k);
    }
  }

  /** The strict peaks of the resampled series at its global maximum are exactly the reference. */
  lemma PeaksAreReference(ts: seq<int>, values: seq<real>, m: int)
    requires |ts| == |values| > 0 && Rising(ts)
    ensures StrictPeak(ts, values, m) <==> m in ExtremeReference(ts, values, true)
  {
    hide StrictPeak, ExtremeReference, ReferencePeak;
    InReference(ts, values, m);
    if StrictPeak(ts, values, m) { var i := PeakIsReference(ts, values, m); }
    if i :| ReferencePeak(ts, values, m, i) { ReferenceIsPeak(ts, values, m, i); }
  }

  lemma ResampledNegated(ts: seq<int>, values: seq<real>, m: int)
    requires |ts| == |values| > 0 && Rising(ts) && ts[0] <= m <= ts[|ts| - 1]
    ensures Resampled(ts, Negated(values), m) == -Resampled(ts, values, m)
  {
    var i := RowBefore(ts, m);
    if ts[i] != m {
      var f := (m - ts[i]) as real / (ts[i + 1] - ts[i]) as real;
      var u, v := values[i], values[i + 1];
      assert (-v - -u) * f == -((v - u) * f);
    }
  }

  /** And the strict valleys at the global minimum are the dual reference. */
  lemma ValleysAreReference(ts: seq<int>, values: seq<real>, m: int)
    requires |ts| == |values| > 0 && Rising(ts)
    ensures StrictValley(ts, values, m) <==> m in ExtremeReference(ts, values, false)
  {
    var n := Negated(values);
    PeaksAreReference(ts, n, m);
    DualReference(ts, values);
    hide Resampled, ExtremeReference, Negated;
    forall k | ts[0] <= k <= ts[|ts| - 1]
      ensures Resampled(ts, n, k) == -Resampled(ts, values, k)
    {
      ResampledNegated(ts, values, k);
    }
    if StrictValley(ts, values, m) { assert StrictPeak(ts, n, m); }
    if StrictPeak(ts, n, m) { assert StrictValley(ts, values, m); }
  }

  lemma DualReference(ts: seq<int>, values: seq<real>)
    requires |ts| == |values| > 0
    ensures ExtremeReference(ts, values, false) == ExtremeReference(ts, Negated(values), true)
  {
    hide Max;
    var n := Negated(values);
    forall i | 1 <= i < |values| - 1
      ensures (values[i] == Min(values) && Beyond(values[i - 1], Min(values), false)
          && Beyond(values[i + 1], Min(values), false))
        <==> (n[i] == Max(n) && Beyond(n[i - 1], Max(n), true) && Beyond(n[i + 1], Max(n), true)) {}
  }
}
