/** Scoring one run of the conformance suite against the exact reference, per method, over exact
    reals: what a method's pass flag means. */
module Scoring {
  import opened Lagrange

  /** The methods measured, by their position in the source's list. */
  const METHODS: nat := 6

  /** The distance from 1 to the next binary64. */
  const EPSILON: real := 1.0 / 4503599627370496.0

  datatype Kind = Raw | Interpolated | Extrapolated

  /** A returned value: a finite one, or a NaN or infinity. */
  datatype Got = Finite(value: real) | NotFinite

  datatype Fixture = Fixture(spline: nat, exact: seq<real>, scale: seq<real>)

  datatype Outcome =
    | Values(got: seq<Got>, kinds: seq<Kind>, rawMismatches: nat)
    | NonFinite(justified: bool)
    | Failed

  /** An error measure: infinite for a value the bound cannot express. */
  datatype Measure = Bounded(e: real) | Infinite

  predicate AtMost(m: Measure, b: real) { m.Bounded? && m.e <= b }

  function Larger(a: Measure, b: Measure): Measure {
    if a.Infinite? || b.Infinite? then Infinite else if a.e >= b.e then a else b
  }

  datatype Stats = Stats(insidePoints: nat, insideMax: Measure, outsidePoints: nat, outsideMax: Measure, rawPoints: nat,
                         rawMismatches: nat, justified: nat, unjustified: nat, errors: nat)

  const NO_STATS := Stats(0, Bounded(0.0), 0, Bounded(0.0), 0, 0, 0, 0, 0)

  /** `(|got - exact| - EPSILON * |exact|)+ / scale`. */
  function ContractError(got: real, exact: real, scale: real): real
    requires scale > 0.0
  {
    var excess := EPSILON * -Abs(exact) + Abs(got - exact);
    (if excess > 0.0 then excess else 0.0) / scale
  }

  lemma ContractErrorBound(got: real, exact: real, scale: real, b: real)
    requires scale > 0.0 && b >= 0.0
    ensures ContractError(got, exact, scale) <= b <==> Abs(got - exact) <= b * scale + EPSILON * Abs(exact)
    ensures EPSILON * 4503599627370496.0 == 1.0
  {
    var excess := EPSILON * -Abs(exact) + Abs(got - exact);
    var e := if excess > 0.0 then excess else 0.0;
    Divided(e, scale, b);
    assert b * scale >= 0.0;
  }

  lemma Divided(e: real, scale: real, b: real)
    requires scale > 0.0
    ensures e / scale <= b <==> e <= b * scale
  {
    var q := e / scale;
    assert q * scale == e;
    if q <= b { assert (b - q) * scale >= 0.0; } else { assert (q - b) * scale > 0.0; }
  }

  // ---------- what passing means ----------

  function Shortest(a: nat, b: nat): nat { if a <= b then a else b }

  /** The points of a grid that are measured: the shortest of its columns decides. */
  function Measured(f: Fixture, got: seq<Got>, kinds: seq<Kind>): nat {
    Shortest(Shortest(|got|, |kinds|), Shortest(|f.exact|, |f.scale|))
  }

  /** An interpolated or extrapolated point within the bound; raw points are gated apart. */
  predicate PointOk(f: Fixture, got: Got, kind: Kind, k: nat, b: real)
    requires k < |f.exact| && k < |f.scale|
  {
    kind.Raw? || (got.Finite? && Abs(got.value - f.exact[k]) <= b * f.scale[k] + EPSILON * Abs(f.exact[k]))
  }

  /** A fixture that breaks nothing at bound `b`. */
  ghost predicate FixtureOk(f: Fixture, o: Outcome, b: real) {
    match o
    case Values(got, kinds, raw) =>
      raw == 0 && |got| == |f.exact| && PointsOk(f, got, kinds, Measured(f, got, kinds), b)
    case NonFinite(justified) => justified
    case Failed => false
  }

  ghost predicate PointsOk(f: Fixture, got: seq<Got>, kinds: seq<Kind>, upto: nat, b: real)
    requires upto <= Measured(f, got, kinds)
  {
    forall k :: 0 <= k < upto ==> PointOk(f, got[k], kinds[k], k, b)
  }

  predicate Pass(s: Stats, b: real) {
    AtMost(s.insideMax, b) && AtMost(s.outsideMax, b) && s.rawMismatches == 0 && s.unjustified == 0 && s.errors == 0
  }

  ghost predicate Positive(f: Fixture) { forall k :: 0 <= k < |f.scale| ==> f.scale[k] > 0.0 }

  function Points(s: Stats): nat { s.insidePoints + s.outsidePoints + s.rawPoints }

  method ScorePoint(row: Stats, f: Fixture, got: Got, kind: Kind, k: nat) returns (out: Stats)
    requires k < |f.exact| && k < |f.scale| && f.scale[k] > 0.0
    ensures forall b :: b >= 0.0 ==> (Pass(out, b) <==> Pass(row, b) && PointOk(f, got, kind, k, b))
    ensures forall b :: b >= 0.0 ==>
      (AtMost(out.insideMax, b) <==>
        AtMost(row.insideMax, b) && (kind.Interpolated? ==> PointOk(f, got, kind, k, b)))
    ensures forall b :: b >= 0.0 ==>
      (AtMost(out.outsideMax, b) <==>
        AtMost(row.outsideMax, b) && (kind.Extrapolated? ==> PointOk(f, got, kind, k, b)))
    ensures out.insidePoints == row.insidePoints + (if kind.Interpolated? then 1 else 0)
    ensures out.outsidePoints == row.outsidePoints + (if kind.Extrapolated? then 1 else 0)
    ensures out.rawPoints == row.rawPoints + (if kind.Raw? then 1 else 0)
    ensures out.rawMismatches == row.rawMismatches && out.errors == row.errors && out.justified == row.justified
    ensures out.unjustified == row.unjustified
  {
    var err := if got.Finite? then Bounded(ContractError(got.value, f.exact[k], f.scale[k])) else Infinite;
    match kind {
      case Raw => out := row.(rawPoints := row.rawPoints + 1);
      case Interpolated => out := row.(insidePoints := row.insidePoints + 1, insideMax := Larger(row.insideMax, err));
      case Extrapolated => out := row.(outsidePoints := row.outsidePoints + 1,
        outsideMax := Larger(row.outsideMax, err));
    }
    forall b | b >= 0.0
      ensures Pass(out, b) <==> Pass(row, b) && PointOk(f, got, kind, k, b)
      ensures AtMost(out.insideMax, b) <==>
          AtMost(row.insideMax, b) && (kind.Interpolated? ==> PointOk(f, got, kind, k, b))
      ensures AtMost(out.outsideMax, b) <==>
          AtMost(row.outsideMax, b) && (kind.Extrapolated? ==> PointOk(f, got, kind, k, b))
    {
      if got.Finite? { ContractErrorBound(got.value, f.exact[k], f.scale[k], b); }
      hide ContractError;
      LargerAtMost(row.insideMax, err, b);
      LargerAtMost(row.outsideMax, err, b);
    }
  }

  lemma LargerAtMost(x: Measure, y: Measure, b: real)
    ensures AtMost(Larger(x, y), b) <==> AtMost(x, b) && AtMost(y, b)
  {}

  /** What is counted: points, raw mismatches, non-finite results justified or not, and errors. */
  datatype Counts = Counts(points: nat, raw: nat, justified: nat, unjustified: nat, errors: nat)

  function CountsOf(s: Stats): Counts { Counts(Points(s), s.rawMismatches, s.justified, s.unjustified, s.errors) }

  function Plus(a: Counts, b: Counts): Counts {
    Counts(a.points + b.points, a.raw + b.raw, a.justified + b.justified, a.unjustified + b.unjustified,
      a.errors + b.errors)
  }

  /** What one outcome adds. */
  function Adds(f: Fixture, o: Outcome): Counts {
    match o
    case Values(got, kinds, raw) =>
      if |got| == |f.exact| then Counts(Measured(f, got, kinds), raw, 0, 0, 0) else Counts(0, raw, 0, 0, 1)
    case NonFinite(true) => Counts(0, 0, 1, 0, 0)
    case NonFinite(false) => Counts(0, 0, 0, 1, 0)
    case Failed => Counts(0, 0, 0, 0, 1)
  }

  /** What the first `upto` fixtures of method `m` add up to. */
  function CountsUpTo(fixtures: seq<Fixture>, outcomes: seq<Outcome>, m: nat, upto: nat): Counts
    requires upto <= Shortest(|fixtures|, |outcomes|)
  {
    if upto == 0 then Counts(0, 0, 0, 0, 0)
    else
      var before := CountsUpTo(fixtures, outcomes, m, upto - 1);
      if fixtures[upto - 1].spline == m then Plus(before, Adds(fixtures[upto - 1], outcomes[upto - 1])) else before
  }

  /** One fixture's outcome added to its method's row. At every bound the row passes after it
      exactly when it passed before and the fixture breaks nothing. */
  method ScoreFixture(row: Stats, f: Fixture, o: Outcome) returns (out: Stats)
    requires Positive(f)
    ensures forall b :: b >= 0.0 ==> (Pass(out, b) <==> Pass(row, b) && FixtureOk(f, o, b))
    ensures CountsOf(out) == Plus(CountsOf(row), Adds(f, o))
  {
    match o {
      case Values(got, kinds, raw) =>
        out := row.(rawMismatches := row.rawMismatches + raw);
        if |got| != |f.exact| {
          out := out.(errors := out.errors + 1);
          return;
        }
        ghost var before := out;
        for k := 0 to Measured(f, got, kinds)
          invariant forall b :: b >= 0.0 ==> (Pass(out, b) <==> Pass(before, b) && PointsOk(f, got, kinds, k, b))
          invariant CountsOf(out) == CountsOf(before).(points := Points(row) + k)
        {
          hide Pass, PointOk;
          out := ScorePoint(out, f, got[k], kinds[k], k);
        }
      case NonFinite(true) => out := row.(justified := row.justified + 1);
      case NonFinite(false) => out := row.(unjustified := row.unjustified + 1);
      case Failed => out := row.(errors := row.errors + 1);
    }
  }

  /** Scores a run: a method passes its bound exactly when every interpolated and extrapolated point
      of every one of its fixtures is finite and within `bound * scale + EPSILON * |exact|`, and no
      fixture of it has a raw mismatch, a wrong length, an unjustified non-finite result or an error. */
  method Score(fixtures: seq<Fixture>, outcomes: seq<Outcome>, bound: real) returns (rows: seq<Stats>, pass: seq<bool>)
    requires bound >= 0.0 && forall i :: 0 <= i < |fixtures| ==> fixtures[i].spline < METHODS && Positive(fixtures[i])
    ensures |rows| == |pass| == 6
    ensures forall m :: 0 <= m < METHODS ==>
      (pass[m] <==> forall i :: 0 <= i < Shortest(|fixtures|, |outcomes|) && fixtures[i].spline == m ==>
        FixtureOk(fixtures[i], outcomes[i], bound))
    ensures forall m :: 0 <= m < METHODS ==> (pass[m] <==> Pass(rows[m], bound))
    ensures forall m :: 0 <= m < METHODS ==>
      CountsOf(rows[m]) == CountsUpTo(fixtures, outcomes, m, Shortest(|fixtures|, |outcomes|))
  {
    rows := seq(METHODS, _ => NO_STATS);
    for i := 0 to Shortest(|fixtures|, |outcomes|)
      invariant |rows| == METHODS
      invariant forall m :: 0 <= m < METHODS ==> (Pass(rows[m], bound) <==> MethodOk(fixtures, outcomes, bound, m, i))
      invariant forall m :: 0 <= m < METHODS ==> CountsOf(rows[m]) == CountsUpTo(fixtures, outcomes, m, i)
    {
      hide Pass, FixtureOk, Positive, CountsOf, Plus, Adds;
      var m := fixtures[i].spline;
      var row := ScoreFixture(rows[m], fixtures[i], outcomes[i]);
      rows := rows[m := row];
    }
    pass := seq(METHODS, m requires 0 <= m < METHODS => Pass(rows[m], bound));
  }

  ghost predicate MethodOk(fixtures: seq<Fixture>, outcomes: seq<Outcome>, bound: real, m: nat, upto: nat)
    requires upto <= Shortest(|fixtures|, |outcomes|)
  {
    forall i :: 0 <= i < upto && fixtures[i].spline == m ==> FixtureOk(fixtures[i], outcomes[i], bound)
  }
}
