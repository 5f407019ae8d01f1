/** Lagrange interpolation over a range `lo..hi` of strictly ascending nodes, as the exact
    reference accumulates it, with the polynomial identities that make it a reference. */
module Lagrange {

  ghost predicate Ascending(x: seq<real>) {
    forall i, j :: 0 <= i < j < |x| ==> x[i] < x[j]
  }

  /** One inner step: `basis * (t - x[k]) / (x[j] - x[k])`. */
  function Fraction(b: real, n: real, m: real): (r: real)
    requires m != 0.0
    ensures r * m == b * n
  {
    b * n / m
  }

  /** The inner loop: the product over `k in lo..hi`, `k != j`, of `(t - x[k]) / (x[j] - x[k])`. */
  function Basis(x: seq<real>, t: real, j: nat, lo: nat, hi: nat): real
    requires lo <= hi <= |x| && j < |x| && Ascending(x)
    decreases hi
  {
    if lo == hi then 1.0
    else if hi - 1 == j then Basis(x, t, j, lo, hi - 1)
    else Fraction(Basis(x, t, j, lo, hi - 1), t - x[hi - 1], x[j] - x[hi - 1])
  }

  /** The outer loop: values weighted by their basis, over the nodes `lo..upto` of window `lo..hi`. */
  function Total(x: seq<real>, y: seq<real>, t: real, lo: nat, hi: nat, upto: nat): real
    requires lo <= upto <= hi <= |x| == |y| && Ascending(x)
    decreases upto
  {
    if lo == upto then 0.0
    else Total(x, y, t, lo, hi, upto - 1) + y[upto - 1] * Basis(x, t, upto - 1, lo, hi)
  }

  function Abs(r: real): real { if r < 0.0 then -r else r }

  /** The Lebesgue sum: the absolute basis weights over the nodes `lo..upto` of window `lo..hi`. */
  function Lebesgue(x: seq<real>, t: real, lo: nat, hi: nat, upto: nat): real
    requires lo <= upto <= hi <= |x| && Ascending(x)
    decreases upto
  {
    if lo == upto then 0.0
    else Lebesgue(x, t, lo, hi, upto - 1) + Abs(Basis(x, t, upto - 1, lo, hi))
  }

  /** The Lebesgue sum bounds every interpolated value: no node values within `[-1, 1]` give more. */
  lemma {:induction false} LebesgueBounds(x: seq<real>, y: seq<real>, t: real, lo: nat, hi: nat, upto: nat)
    requires lo <= upto <= hi <= |x| == |y| && Ascending(x)
    requires forall j :: lo <= j < upto ==> -1.0 <= y[j] <= 1.0
    ensures -Lebesgue(x, t, lo, hi, upto) <= Total(x, y, t, lo, hi, upto) <= Lebesgue(x, t, lo, hi, upto)
    decreases upto
  {
    hide Basis;
    if lo == upto {
    } else {
      LebesgueBounds(x, y, t, lo, hi, upto - 1);
      SmallWeight(y[upto - 1], Basis(x, t, upto - 1, lo, hi));
    }
  }

  // A product named, so that a proof can pass it on without the solver multiplying out.
  ghost function Times(y: real, b: real): real { y * b }

  lemma SmallWeight(y: real, b: real)
    requires -1.0 <= y <= 1.0
    ensures -Abs(b) <= Times(y, b) <= Abs(b)
  {
    hide Times;
    var a := if b < 0.0 then -b else b;
    NoLarger(y, a);
    NoLarger(-y, a);
    Signs(y, a);
    assert b == a || b == -a;
  }

  lemma Signs(y: real, a: real)
    ensures Times(-y, a) == -Times(y, a) && Times(y, -a) == -Times(y, a)
  {}

  lemma NoLarger(y: real, a: real)
    requires y <= 1.0 && a >= 0.0
    ensures Times(y, a) <= a
  {
    hide Times;
    NonNegative(1.0 - y, a);
    Remainder(y, a);
  }

  lemma Remainder(y: real, a: real)
    ensures Times(1.0 - y, a) == a - Times(y, a)
  {}

  lemma NonNegative(a: real, b: real)
    requires a >= 0.0 && b >= 0.0
    ensures Times(a, b) >= 0.0
  {}

  /** And it is reached: it is the largest value interpolated from node values within `[-1, 1]`. */
  lemma {:induction false} LebesgueReached(x: seq<real>, t: real, lo: nat, hi: nat, upto: nat) returns (y: seq<real>)
    requires lo <= upto <= hi <= |x| && Ascending(x)
    ensures |y| == |x| && forall j :: 0 <= j < |y| ==> -1.0 <= y[j] <= 1.0
    ensures Total(x, y, t, lo, hi, upto) == Lebesgue(x, t, lo, hi, upto)
    decreases upto
  {
    hide Basis;
    if lo == upto {
      y := seq(|x|, _ => 1.0);
    } else {
      var front := LebesgueReached(x, t, lo, hi, upto - 1);
      y := front[upto - 1 := if Basis(x, t, upto - 1, lo, hi) < 0.0 then -1.0 else 1.0];
      SameTotal(x, front, y, t, lo, hi, upto - 1);
    }
  }

  lemma {:induction false} SameTotal(x: seq<real>, y: seq<real>, z: seq<real>, t: real, lo: nat, hi: nat, upto: nat)
    requires lo <= upto <= hi <= |x| == |y| == |z| && Ascending(x)
    requires forall j :: lo <= j < upto ==> y[j] == z[j]
    ensures Total(x, y, t, lo, hi, upto) == Total(x, z, t, lo, hi, upto)
    decreases upto
  {
    hide Basis;
    if lo == upto {
    } else {
      SameTotal(x, y, z, t, lo, hi, upto - 1);
    }
  }

  // ---------- removing a node from the window ----------

  lemma CancelRight(p: real, q: real, m: real)
    requires m != 0.0 && p * m == q * m
    ensures p == q
  {}

  lemma BasisStep(x: seq<real>, t: real, j: nat, lo: nat, hi: nat)
    requires lo <= hi <= |x| && j < |x| && Ascending(x)
    ensures lo == hi ==> Basis(x, t, j, lo, hi) == 1.0
    ensures lo < hi && j == hi - 1 ==> Basis(x, t, j, lo, hi) == Basis(x, t, j, lo, hi - 1)
    ensures lo < hi && j != hi - 1 ==>
      x[j] - x[hi - 1] != 0.0 &&
      Basis(x, t, j, lo, hi) * (x[j] - x[hi - 1]) == Basis(x, t, j, lo, hi - 1) * (t - x[hi - 1])
  {
    hide Fraction;
  }

  /** `a * b == c * d` survives multiplying both `b` and `d` by the same fraction `n / m`. */
  lemma Exchange(a: real, b: real, b': real, c: real, d: real, d': real, n: real, m: real)
    requires a * b == c * d && m != 0.0 && b' * m == b * n && d' * m == d * n
    ensures a * b' == c * d'
  {
    assert (a * b') * m == a * (b' * m) == (a * b) * n;
    assert (c * d') * m == c * (d' * m) == (c * d) * n;
    CancelRight(a * b', c * d', m);
  }

  lemma {:induction false} DropLow(x: seq<real>, t: real, j: nat, lo: nat, hi: nat)
    requires lo < hi <= |x| && lo < j < |x| && Ascending(x)
    ensures (x[j] - x[lo]) * Basis(x, t, j, lo, hi) == (t - x[lo]) * Basis(x, t, j, lo + 1, hi)
    decreases hi
  {
    hide Basis;
    BasisStep(x, t, j, lo, hi);
    BasisStep(x, t, j, lo + 1, hi);
    BasisStep(x, t, j, lo, lo);
    if hi == lo + 1 {
    } else {
      DropLow(x, t, j, lo, hi - 1);
      if hi - 1 != j {
        Exchange(x[j] - x[lo], Basis(x, t, j, lo, hi - 1), Basis(x, t, j, lo, hi),
                 t - x[lo], Basis(x, t, j, lo + 1, hi - 1), Basis(x, t, j, lo + 1, hi), t - x[hi - 1],
                 x[j] - x[hi - 1]);
      }
    }
  }

  // ---------- linearity of the weighted sum ----------

  // The same as relations.
  ghost predicate Product(p: real, a: real, b: real) { p == a * b }

  ghost predicate Linear(w: real, a: real, y: real, b: real, z: real) { w == a * y + b * z }

  ghost predicate Combination(w: seq<real>, a: real, y: seq<real>, b: real, z: seq<real>, lo: nat, upto: nat) {
    upto <= |w| == |y| == |z| && forall j :: lo <= j < upto ==> w[j] == a * y[j] + b * z[j]
  }

  lemma {:induction false} Combine(x: seq<real>, w: seq<real>, a: real, y: seq<real>, b: real, z: seq<real>, t: real,
        lo: nat, hi: nat, upto: nat)
    requires lo <= upto <= hi <= |x| == |w| == |y| == |z| && Ascending(x)
    requires Combination(w, a, y, b, z, lo, upto)
    ensures Linear(Total(x, w, t, lo, hi, upto), a, Total(x, y, t, lo, hi, upto), b, Total(x, z, t, lo, hi, upto))
    decreases upto
  {
    hide Basis;
    if lo == upto {
    } else {
      Combine(x, w, a, y, b, z, t, lo, hi, upto - 1);
      var c := Basis(x, t, upto - 1, lo, hi);
      assert w[upto - 1] * c == a * (y[upto - 1] * c) + b * (z[upto - 1] * c);
    }
  }

  lemma Weighted(u: real, a: real, y: real, b: real, c: real, d: real, rest: real)
    requires u == a * y && a * b == c * d
    ensures c * rest + u * b == c * (rest + y * d)
  {
    assert u * b == y * (a * b) == y * (c * d);
    assert c * (y * d) == y * (c * d);
  }

  /** Values scaled by their distance to `c`. */
  ghost function Scaled(x: seq<real>, y: seq<real>, c: real): (u: seq<real>)
    requires |x| == |y|
    ensures |u| == |x|
  {
    seq(|x|, j requires 0 <= j < |x| => (x[j] - c) * y[j])
  }

  lemma ScaledAt(x: seq<real>, y: seq<real>, c: real, j: nat)
    requires j < |x| == |y|
    ensures Scaled(x, y, c)[j] == (x[j] - c) * y[j]
  {}

  /** Values scaled by the distance to the first node leave the window without that node. */
  lemma {:induction false} DropLowTotal(x: seq<real>, y: seq<real>, t: real, lo: nat, hi: nat, upto: nat)
    requires lo < upto <= hi <= |x| == |y| && Ascending(x)
    ensures Product(Total(x, Scaled(x, y, x[lo]), t, lo, hi, upto), t - x[lo], Total(x, y, t, lo + 1, hi, upto))
    decreases upto
  {
    hide Basis, Scaled;
    var j, u := upto - 1, Scaled(x, y, x[lo]);
    ScaledAt(x, y, x[lo], j);
    if lo < j {
      DropLowTotal(x, y, t, lo, hi, j);
      DropLow(x, t, j, lo, hi);
      Weighted(u[j], x[j] - x[lo], y[j], Basis(x, t, j, lo, hi), t - x[lo], Basis(x, t, j, lo + 1, hi),
               Total(x, y, t, lo + 1, hi, j));
    } else {
      assert u[j] == 0.0 && Total(x, u, t, lo, hi, j) == 0.0;
    }
  }

  /** Likewise for the last node, whose own scaled value is 0. */
  lemma {:induction false} DropHighTotal(x: seq<real>, y: seq<real>, t: real, lo: nat, hi: nat, upto: nat)
    requires lo <= upto < hi <= |x| == |y| && Ascending(x)
    ensures Product(Total(x, Scaled(x, y, x[hi - 1]), t, lo, hi, upto), t - x[hi - 1], Total(x, y, t, lo, hi - 1, upto))
    decreases upto
  {
    hide Basis, Scaled;
    if lo == upto {
    } else {
      var j, u := upto - 1, Scaled(x, y, x[hi - 1]);
      ScaledAt(x, y, x[hi - 1], j);
      DropHighTotal(x, y, t, lo, hi, j);
      BasisStep(x, t, j, lo, hi);
      Weighted(u[j], x[j] - x[hi - 1], y[j], Basis(x, t, j, lo, hi), t - x[hi - 1], Basis(x, t, j, lo, hi - 1),
               Total(x, y, t, lo, hi - 1, j));
    }
  }

  lemma DropHighWhole(x: seq<real>, y: seq<real>, t: real, lo: nat, hi: nat)
    requires lo < hi <= |x| == |y| && Ascending(x)
    ensures Product(Total(x, Scaled(x, y, x[hi - 1]), t, lo, hi, hi), t - x[hi - 1], Total(x, y, t, lo, hi - 1, hi - 1))
  {
    hide Basis, Scaled;
    DropHighTotal(x, y, t, lo, hi, hi - 1);
    ScaledAt(x, y, x[hi - 1], hi - 1);
  }

  // ---------- partition of unity ----------

  ghost function Constant(n: nat, c: real): (s: seq<real>)
    ensures |s| == n
  {
    seq(n, _ => c)
  }

  lemma ScaledDifference(x: seq<real>, c: real, d: real, lo: nat, hi: nat)
    requires lo <= hi <= |x|
    ensures var one := Constant(|x|, 1.0); Combination(Scaled(x, one, c), d - c, one, 1.0, Scaled(x, one, d), lo, hi)
  {}

  /** The basis weights of any nonempty window sum to 1 (a Neville recursion: the window without
      its first node and the window without its last one both already do). */
  lemma {:induction false} Unity(x: seq<real>, t: real, lo: nat, hi: nat)
    requires lo < hi <= |x| && Ascending(x)
    ensures Total(x, Constant(|x|, 1.0), t, lo, hi, hi) == 1.0
    decreases hi - lo
  {
    var one := Constant(|x|, 1.0);
    if hi == lo + 1 {
      UnitySingle(x, t, lo);
    } else {
      hide Basis, Total, Scaled, Constant, Combination, Product, Linear;
      Unity(x, t, lo + 1, hi);
      Unity(x, t, lo, hi - 1);
      DropLowTotal(x, one, t, lo, hi, hi);
      DropHighWhole(x, one, t, lo, hi);
      ScaledDifference(x, x[lo], x[hi - 1], lo, hi);
      Combine(x, Scaled(x, one, x[lo]), x[hi - 1] - x[lo], one, 1.0, Scaled(x, one, x[hi - 1]), t, lo, hi, hi);
      Neville(Total(x, one, t, lo, hi, hi), Total(x, Scaled(x, one, x[lo]), t, lo, hi, hi),
        Total(x, Scaled(x, one, x[hi - 1]), t, lo, hi, hi), x[lo], x[hi - 1], t);
    }
  }

  lemma UnitySingle(x: seq<real>, t: real, lo: nat)
    requires lo < |x| && Ascending(x)
    ensures Total(x, Constant(|x|, 1.0), t, lo, lo + 1, lo + 1) == 1.0
  {
    assert Basis(x, t, lo, lo, lo) == 1.0;
    assert Total(x, Constant(|x|, 1.0), t, lo, lo + 1, lo) == 0.0;
  }

  lemma Neville(s: real, low: real, high: real, a: real, b: real, t: real)
    requires a < b && Product(low, t - a, 1.0) && Product(high, t - b, 1.0) && Linear(low, b - a, s, 1.0, high)
    ensures s == 1.0
  {
    CancelRight(s, 1.0, b - a);
  }

  /** Hence the Lebesgue sum is at least 1. */
  lemma LebesgueAtLeastOne(x: seq<real>, t: real, lo: nat, hi: nat)
    requires lo < hi <= |x| && Ascending(x)
    ensures Lebesgue(x, t, lo, hi, hi) >= 1.0
  {
    Unity(x, t, lo, hi);
    LebesgueBounds(x, Constant(|x|, 1.0), t, lo, hi, hi);
  }

  // ---------- reproduction of polynomials ----------

  /** Polynomials by their coefficients, lowest degree first: degree below `|p|`. */
  ghost function Eval(p: seq<real>, t: real): real {
    if p == [] then 0.0 else p[0] + t * Eval(p[1..], t)
  }

  /** Synthetic division by `t - a`. */
  ghost function Quotient(p: seq<real>, a: real): (q: seq<real>)
    ensures |q| == if p == [] then 0 else |p| - 1
  {
    if |p| <= 1 then [] else [Eval(p[1..], a)] + Quotient(p[1..], a)
  }

  lemma Synthetic(t: real, a: real, q: real, e: real, f: real)
    requires f - e == (t - a) * q
    ensures t * f - a * e == (t - a) * (e + t * q)
  {
    assert t * (f - e) == t * ((t - a) * q) == (t - a) * (t * q);
  }

  lemma {:induction false} Division(p: seq<real>, a: real, t: real)
    ensures Product(Eval(p, t) - Eval(p, a), t - a, Eval(Quotient(p, a), t))
  {
    if |p| <= 1 {
      if |p| == 1 { assert Eval(p[1..], t) == 0.0 == Eval(p[1..], a); }
    } else {
      var r := p[1..];
      Division(r, a, t);
      assert Quotient(p, a)[1..] == Quotient(r, a);
      Synthetic(t, a, Eval(Quotient(r, a), t), Eval(r, a), Eval(r, t));
    }
  }

  /** Values taken from a polynomial of degree below the window's size are interpolated to that
      polynomial, at every `t` inside or outside the window. */
  lemma {:induction false} Reproduces(x: seq<real>, y: seq<real>, p: seq<real>, t: real, lo: nat, hi: nat)
    requires lo <= hi <= |x| == |y| && Ascending(x) && |p| <= hi - lo
    requires forall j :: lo <= j < hi ==> y[j] == Eval(p, x[j])
    ensures Total(x, y, t, lo, hi, hi) == Eval(p, t)
    decreases |p|
  {
    if p == [] {
      hide Basis, Total;
      Combine(x, y, 0.0, y, 0.0, y, t, lo, hi, hi);
    } else {
      hide Basis, Total, Eval, Quotient, Scaled, Constant, Combination, Product, Linear;
      var q, one := Quotient(p, x[lo]), Constant(|x|, 1.0);
      var z := seq(|x|, j requires 0 <= j < |x| => Eval(q, x[j]));
      Reproduces(x, z, q, t, lo + 1, hi);
      DropLowTotal(x, z, t, lo, hi, hi);
      Unity(x, t, lo, hi);
      DividedValues(x, y, p, z, lo, hi);
      Combine(x, y, 1.0, Scaled(x, z, x[lo]), Eval(p, x[lo]), one, t, lo, hi, hi);
      Division(p, x[lo], t);
      Recombine(Total(x, y, t, lo, hi, hi), Total(x, Scaled(x, z, x[lo]), t, lo, hi, hi), Eval(q, t), t - x[lo],
        Eval(p, x[lo]), Eval(p, t));
    }
  }

  lemma Recombine(s: real, low: real, q: real, d: real, pa: real, pt: real)
    requires Linear(s, 1.0, low, pa, 1.0) && Product(low, d, q) && Product(pt - pa, d, q)
    ensures s == pt
  {}

  lemma DividedValues(x: seq<real>, y: seq<real>, p: seq<real>, z: seq<real>, lo: nat, hi: nat)
    requires lo < hi <= |x| == |y| == |z|
    requires forall j :: lo <= j < hi ==> y[j] == Eval(p, x[j])
    requires forall j :: lo <= j < hi ==> z[j] == Eval(Quotient(p, x[lo]), x[j])
    ensures Combination(y, 1.0, Scaled(x, z, x[lo]), Eval(p, x[lo]), Constant(|x|, 1.0), lo, hi)
  {
    hide Eval, Quotient, Scaled;
    forall j | lo <= j < hi
      ensures y[j] == 1.0 * Scaled(x, z, x[lo])[j] + Eval(p, x[lo]) * Constant(|x|, 1.0)[j]
    {
      Division(p, x[lo], x[j]);
      ScaledAt(x, z, x[lo], j);
    }
  }

  // ---------- values at the nodes ----------

  lemma {:induction false} BasisAtNode(x: seq<real>, i: nat, j: nat, lo: nat, hi: nat)
    requires lo <= hi <= |x| && j < |x| && i < |x| && Ascending(x)
    ensures i == j ==> Basis(x, x[i], j, lo, hi) == 1.0
    ensures i != j && lo <= i < hi ==> Basis(x, x[i], j, lo, hi) == 0.0
    decreases hi
  {
    hide Basis;
    BasisStep(x, x[i], j, lo, hi);
    if lo == hi {
    } else {
      BasisAtNode(x, i, j, lo, hi - 1);
      if i == j && hi - 1 != j {
        CancelRight(Basis(x, x[i], j, lo, hi), 1.0, x[j] - x[hi - 1]);
      } else if hi - 1 != j && lo <= i < hi {
        assert i == hi - 1 ==> x[i] - x[hi - 1] == 0.0;
        CancelRight(Basis(x, x[i], j, lo, hi), 0.0, x[j] - x[hi - 1]);
      }
    }
  }

  /** At a node of the window the interpolant is that node's value. */
  lemma {:induction false} TotalAtNode(x: seq<real>, y: seq<real>, i: nat, lo: nat, hi: nat, upto: nat)
    requires lo <= upto <= hi <= |x| == |y| && lo <= i < hi && Ascending(x)
    ensures Total(x, y, x[i], lo, hi, upto) == if i < upto then y[i] else 0.0
    decreases upto
  {
    if lo == upto {
    } else {
      TotalAtNode(x, y, i, lo, hi, upto - 1);
      BasisAtNode(x, i, upto - 1, lo, hi);
    }
  }

  // ---------- change of time axis ----------

  ghost predicate AffineImage(x: seq<real>, x': seq<real>, c: real, d: real) {
    |x'| == |x| && forall i :: 0 <= i < |x| ==> x'[i] == c * x[i] + d
  }

  lemma {:induction false} BasisRescaled(x: seq<real>, x': seq<real>, c: real, d: real, t: real, t': real, j: nat,
        lo: nat, hi: nat)
    requires lo <= hi <= |x| && j < |x| && Ascending(x) && c != 0.0 && t' == c * t + d && AffineImage(x, x', c, d)
    requires Ascending(x')
    ensures Basis(x', t', j, lo, hi) == Basis(x, t, j, lo, hi)
    decreases hi
  {
    hide Basis;
    BasisStep(x, t, j, lo, hi);
    BasisStep(x', t', j, lo, hi);
    if lo == hi {
    } else {
      BasisRescaled(x, x', c, d, t, t', j, lo, hi - 1);
      if hi - 1 != j {
        SameFraction(Basis(x, t, j, lo, hi - 1), Basis(x, t, j, lo, hi), Basis(x', t', j, lo, hi),
                     t - x[hi - 1], x[j] - x[hi - 1], t' - x'[hi - 1], x'[j] - x'[hi - 1], c);
      }
    }
  }

  lemma SameFraction(b: real, p: real, q: real, n: real, m: real, n': real, m': real, c: real)
    requires c != 0.0 && m != 0.0 && n' == c * n && m' == c * m
    requires p * m == b * n && q * m' == b * n'
    ensures p == q
  {
    assert c * (q * m) == q * m' == c * (b * n);
    CancelRight(q * m, b * n, c);
    CancelRight(p, q, m);
  }

  /** Shifting or scaling all instants together changes neither the value nor the Lebesgue sum. */
  lemma {:induction false} TotalRescaled(x: seq<real>, x': seq<real>, y: seq<real>, c: real, d: real, t: real,
        t': real, lo: nat, hi: nat, upto: nat)
    requires lo <= upto <= hi <= |x| == |y| && Ascending(x) && c != 0.0 && t' == c * t + d && AffineImage(x, x', c, d)
    requires Ascending(x')
    ensures Total(x', y, t', lo, hi, upto) == Total(x, y, t, lo, hi, upto)
    ensures Lebesgue(x', t', lo, hi, upto) == Lebesgue(x, t, lo, hi, upto)
    decreases upto
  {
    hide Basis;
    if lo == upto {
    } else {
      TotalRescaled(x, x', y, c, d, t, t', lo, hi, upto - 1);
      BasisRescaled(x, x', c, d, t, t', upto - 1, lo, hi);
    }
  }
}
