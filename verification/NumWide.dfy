/** The 128-bit integer conversion, which rounds up to three times: how far it strays, and when it is
    the value one rounding gives. */
module NumWide {
  import opened Integers
  import opened Num

  // ---------- 128-bit integers ----------

  /** The pattern of `2^64`. */
  const TWO_POW_64: nat := 1087 * P52

  /** What the fused operation makes of the two rounded halves, exactly. */
  function HalvesSum(n: nat): nat { Rounded(n / P64) * P64 + Rounded(n % P64) }

  function U128ToF64(n: nat): nat
    requires n < P128
  {
    HalvesExact(n);
    MulAdd(U64ToF64(n / P64), TWO_POW_64, U64ToF64(n % P64))
  }

  lemma PowerTwelve()
    ensures Grid(P52, 12) == P64
  {
    Powers();
    assert Pow2(12) == 2 * Pow2(11);
  }

  lemma HalvesExact(n: nat)
    requires n < P128
    ensures Exactly(U64ToF64(n / P64), TWO_POW_64, U64ToF64(n % P64)) == HalvesSum(n) as real
    ensures (HalvesSum(n) as real).Floor == HalvesSum(n) < 2 * P128
    ensures -1024 * P64 - 1024 <= HalvesSum(n) - n <= 1024 * P64 + 1024
  {
    var high, low := n / P64, n % P64;
    assert n == high * P64 + low && high < P64;
    RoundedHalf(high);
    RoundedHalf(low);
    U64ToF64Value(high);
    U64ToF64Value(low);
    PowerTwelve();
    assert Assemble(64, P52) == TWO_POW_64;
    hide Rounded, Value, Assemble, Grid, U64ToF64;
    AssembledValue(64, P52, P64);
    IntTimes(Rounded(high), P64);
  }

  lemma RoundedHalf(x: nat)
    requires x < P64
    ensures -1024 <= Rounded(x) - x <= 1024
  {
    Powers();
    hide Pow2, Log2, Rounded;
    if x >= P53 { LargeRange(x); }
    RoundedNear(x, 11);
  }

  lemma U128ToF64Value(n: nat)
    requires n < P128
    ensures
      var f := U128ToF64(n);
      f == RoundToF64(HalvesSum(n)) && IsBits(f) && IsFinite(f) && Value(f) == Rounded(HalvesSum(n)) as real
  {
    hide Exactly, RoundToF64, HalvesSum, U64ToF64, Value, IsFinite;
    HalvesExact(n);
    WideIsModerate(HalvesSum(n));
    RoundToF64Value(HalvesSum(n));
  }

  /** A `u128` is rounded up to three times: never more than `3 * 2^74 + 2^10` off, and once, to the
      nearest, when both its halves have at most 53 significant bits. */
  lemma U128ToF64Near(n: nat)
    requires n < P128
    ensures IsBits(U128ToF64(n)) && IsFinite(U128ToF64(n))
    ensures Distance(Value(U128ToF64(n)), n as real) <= (3 * 1024 * P64 + 1024) as real
    ensures Representable(n / P64) && Representable(n % P64) ==> U128ToF64(n) == RoundToF64(n)
  {
    U128ToF64Value(n);
    HalvesExact(n);
    HalvesWhole(n);
    hide RoundToF64, U64ToF64, Value, IsFinite, Rounded, Representable, Log2, Exactly, U128ToF64, HalvesSum;
    WideNear(HalvesSum(n));
  }

  lemma HalvesWhole(n: nat)
    requires n < P128
    ensures Representable(n / P64) && Representable(n % P64) ==> HalvesSum(n) == n
  {
    hide Rounded, Representable;
    RoundedWhole(n / P64);
    RoundedWhole(n % P64);
    assert n == n / P64 * P64 + n % P64;
  }

  lemma WideNear(x: nat)
    requires x < 2 * P128
    ensures -2048 * P64 <= Rounded(x) - x <= 2048 * P64
  {
    Powers();
    PowAdd(64, 12);
    PowerTwelve();
    WideIsModerate(x);
    assert Pow2(12) == 4096;
    hide Pow2, Log2, Rounded, Representable;
    RoundedNear(x, 76);
  }

  lemma RoundedWhole(x: nat)
    requires x < P64
    ensures Representable(x) ==> Rounded(x) == x
  {
    Powers();
    hide Pow2, Log2, Rounded, Representable;
    if x >= P53 { LargeRange(x); }
    RoundedNear(x, 11);
  }

  /** An integer whose conversion is not the nearest: the low half's rounding loses the one bit that
      breaks a tie. */
  lemma U128NotNearest()
    ensures var n := P52 * P64 + P63 + 1;
      && Value(U128ToF64(n)) == (P52 * P64) as real
      && Value(RoundToF64(n)) == ((P52 + 1) * P64) as real
      && Distance(Value(RoundToF64(n)), n as real) < Distance(Value(U128ToF64(n)), n as real)
  {
    var n := P52 * P64 + P63 + 1;
    Powers();
    hide Log2, Pow2, RoundedSignificand, RoundToF64, Value;
    QuotientIs(n, P64, P52, P63 + 1);
    RoundsTo(P63 + 1, 11, P52, 1);
    RoundsTo(P52 * P64 + P63, 64, P52, P63);
    RoundsTo(n, 64, P52, P63 + 1);
    U128ToF64Value(n);
    WideIsModerate(n);
    RoundToF64Value(n);
  }

  /** Rounding by quotient and remainder. */
  lemma RoundsTo(x: nat, s: nat, q: nat, r: nat)
    requires s > 0 && P52 <= q < P53 && r < Pow2(s) && x == q * Pow2(s) + r
    ensures Rounded(x) == RoundHalfEven(q, r, Pow2(s - 1)) * Pow2(s) && x >= P53
  {
    assert Pow2(s) == 2 * Pow2(s - 1);
    Powers();
    PowAdd(52, s);
    hide Pow2, Log2, RoundHalfEven;
    QuotientIs(x, Pow2(s), q, r);
    MulMonotone(P52, q, Pow2(s));
    MulMonotone(q + 1, P53, Pow2(s));
    assert (q + 1) * Pow2(s) == q * Pow2(s) + Pow2(s);
    assert P53 * Pow2(s) == 2 * (P52 * Pow2(s));
    LogIs(x, 52 + s);
    MulMonotone(2, Pow2(s), P52);
  }

  // ---------- when a 128-bit integer is rounded as if once ----------

  /** The half step of the result where the high half has at most 53 bits: a multiple of the low
      half's own step. */
  function HalfStepOf(h: nat): nat
    requires h > 0
  {
    Pow2(11 + Log2(h))
  }

  /** The low half is rounded onto the middle between two results, and the tie then goes the wrong
      way. */
  predicate TieMade(h: nat, l: nat)
    requires 0 < h < P53 && l < P64
  {
    var m, half := Rounded(l), HalfStepOf(h);
    m != l && m % (2 * half) == half && (m < l <==> (h * P64 + m) / (2 * half) % 2 == 0)
  }

  /** The high half is a tie of its own that the low half would have broken. */
  predicate TieUnbroken(h: nat, l: nat)
    requires P53 <= h < P64
  {
    LargeRange(h);
    var s := Log2(h) - 52;
    QuotientNonNegative(h, Pow2(s));
    l > 0 && h % Pow2(s) == Pow2(s - 1) && h / Pow2(s) % 2 == 0
  }

  /** The low half is rounded up to the middle between two results, over an odd one. */
  predicate TieCarried(h: nat, l: nat)
    requires P53 <= h < P64 && l < P64
  {
    Log2(h) == 53 && Rounded(l) == P64 && h % 2 == 0 && h / 2 % 2 == 1
  }

  /** Rounding both halves first makes no difference. */
  predicate RoundsOnce(n: nat)
    requires n < P128
  {
    HalvesRoundOnce(n / P64, n % P64)
  }

  predicate HalvesRoundOnce(h: nat, l: nat)
    requires h < P64 && l < P64
  {
    if h == 0 then true
    else if h < P53 then !TieMade(h, l)
    else !TieUnbroken(h, l) && !TieCarried(h, l)
  }

  // The low half against the multiples of 2048: rounding crosses none of them.

  lemma MultipleRepresentable(k: nat)
    requires 2048 * k < P64
    ensures Rounded(2048 * k) == 2048 * k
  {
    var x := 2048 * k;
    Powers();
    hide Log2, Pow2, Rounded;
    if x >= P53 {
      LargeRange(x);
      var s := Log2(x) - 52;
      PowAdd(s, 11 - s);
      MultipleOfPower(k, Pow2(11 - s), Pow2(s));
    }
    RoundedWhole(x);
  }

  lemma MultipleOfPower(k: nat, a: nat, b: nat)
    requires b > 0 && a * b == 2048
    ensures 2048 * k % b == 0
  {
    assert 2048 * k == (k * a) * b;
    QuotientIs(2048 * k, b, k * a, 0);
  }

  lemma RoundedMonotone(x: nat, y: nat)
    requires x <= y < P64
    ensures Rounded(x) <= Rounded(y)
  {
    hide U64ToF64, Rounded, Value, IsFinite;
    U64ToF64Monotone(x, y);
    U64ToF64Value(x);
    U64ToF64Value(y);
  }

  lemma RoundedAtMostP64(l: nat)
    requires l < P64
    ensures Rounded(l) <= P64
  {
    hide Rounded;
    AllOnesRoundUp(U64_MAX);
    RoundedMonotone(l, U64_MAX);
  }

  /** Rounding a low half crosses no multiple of 2048. */
  lemma KeepsSide(l: nat, k: nat)
    requires l < P64 && 2048 * k <= P64
    ensures l <= 2048 * k ==> Rounded(l) <= 2048 * k
    ensures l >= 2048 * k ==> Rounded(l) >= 2048 * k
    ensures l == 2048 * k ==> Rounded(l) == l
  {
    hide Rounded;
    RoundedAtMostP64(l);
    if 2048 * k < P64 {
      MultipleRepresentable(k);
      if l <= 2048 * k { RoundedMonotone(l, 2048 * k); } else { RoundedMonotone(2048 * k, l); }
    }
  }

  lemma KeepsMultiple(l: nat, x: nat)
    requires l < P64 && x <= P64 && x % 2048 == 0
    ensures l <= x ==> Rounded(l) <= x
    ensures l >= x ==> Rounded(l) >= x
    ensures l == x ==> Rounded(l) == l
  {
    hide Rounded;
    KeepsSide(l, x / 2048);
  }

  // Rounding at a step, its upper end included.

  lemma RoundsWithin(x: nat, s: nat, q: nat, r: nat)
    requires s > 0 && P52 <= q <= P53 && r < Pow2(s) && x == q * Pow2(s) + r
    ensures q < P53 ==> Rounded(x) == RoundHalfEven(q, r, Pow2(s - 1)) * Pow2(s)
    ensures q == P53 ==> Rounded(x) == P53 * Pow2(s)
  {
    if q < P53 {
      RoundsTo(x, s, q, r);
    } else {
      assert Pow2(s + 1) == 2 * Pow2(s);
      assert P53 * Pow2(s) == P52 * (2 * Pow2(s));
      hide Pow2;
      RoundsTo(x, s + 1, P52, r);
    }
  }

  lemma SameProduct(a: nat, b: nat, d: nat)
    requires d > 0
    ensures a * d == b * d <==> a == b
  {
    if a < b { MulMonotone(a + 1, b, d); assert (a + 1) * d == a * d + d; }
    if b < a { MulMonotone(b + 1, a, d); assert (b + 1) * d == b * d + d; }
  }

  // A high half of at most 53 bits.

  /** The half step is a multiple of 2048, and the step divides `2^64`. */
  lemma StepSizes(e: nat)
    requires e <= 52
    ensures Pow2(12 + e) == 2 * Pow2(11 + e)
    ensures Pow2(11 + e) % 2048 == 0
    ensures Pow2(12 + e) * Pow2(52 - e) == P64
  {
    Powers();
    hide Pow2;
    PowAdd(1, 11 + e);
    PowOne();
    PowAdd(11, e);
    MultipleOf2048(Pow2(e));
    PowAdd(12 + e, 52 - e);
  }

  lemma MultipleOf2048(k: nat)
    ensures 2048 * k % 2048 == 0
  {}

  /** The high half, in units of the result's step, is a significand. */
  lemma HighInSteps(h: nat, e: nat)
    requires e <= 52 && Pow2(e) <= h < 2 * Pow2(e)
    ensures P52 <= h * Pow2(52 - e) && (h + 1) * Pow2(52 - e) <= P53
  {
    Powers();
    hide Pow2;
    var c := Pow2(52 - e);
    PowAdd(e, 52 - e);
    MulMonotone(Pow2(e), h, c);
    MulMonotone(h + 1, 2 * Pow2(e), c);
    assert (2 * Pow2(e)) * c == 2 * (Pow2(e) * c);
  }

  /** What the steps of result and low half are for a high half of at most 53 bits. */
  lemma LowSteps(h: nat) returns (s: nat, c: nat)
    requires 0 < h < P53
    ensures s == 12 + Log2(h) && Pow2(s) == 2 * HalfStepOf(h) && Pow2(s - 1) == HalfStepOf(h)
    ensures HalfStepOf(h) > 0 && HalfStepOf(h) % 2048 == 0 && Pow2(s) * c == P64
    ensures P52 <= h * c && (h + 1) * c <= P53
  {
    LogRange(h);
    var e := Log2(h);
    hide Pow2, Log2;
    s, c := 12 + e, Pow2(52 - e);
    StepSizes(e);
    HighInSteps(h, e);
  }

  // A division named, so that a proof can pass it on without the solver multiplying out.
  ghost predicate Splits(x: nat, d: nat, q: nat, r: nat) { r < d && x == q * d + r }

  lemma Division(x: nat, d: nat) returns (q: nat, r: nat)
    requires d > 0
    ensures Splits(x, d, q, r)
  {
    QuotientNonNegative(x, d);
    q, r := x / d, x % d;
    assert x == q * d + r;
  }

  lemma SplitsOnce(x: nat, d: nat, q: nat, r: nat)
    requires d > 0 && Splits(x, d, q, r)
    ensures x / d == q && x % d == r
  {
    QuotientIs(x, d, q, r);
  }

  /** Where a low half of quotient `a` puts the whole: at quotient `h * c + a`. */
  lemma LowPlace(h: nat, x: nat, d: nat, c: nat, a: nat, r: nat)
    requires d * c == P64 && Splits(x, d, a, r)
    ensures Splits(h * P64 + x, d, h * c + a, r)
  {
    assert (h * c) * d == h * P64 by { assert (h * c) * d == h * (d * c); }
    assert (h * c + a) * d == (h * c) * d + a * d;
  }

  /** And that quotient is a significand. */
  lemma LowRange(h: nat, x: nat, d: nat, c: nat, a: nat, r: nat)
    requires d > 0 && d * c == P64 && P52 <= h * c && (h + 1) * c <= P53 && x <= P64 && Splits(x, d, a, r)
    ensures P52 <= h * c + a <= P53 && (x < P64 ==> h * c + a < P53) && (h * c + a == P53 ==> r == 0)
  {
    assert (h + 1) * c == h * c + c;
    assert (c + 1) * d == c * d + d;
    if a > c { MulMonotone(c + 1, a, d); }
  }

  /** Two integers at one step round to the same where their quotients do. */
  lemma SameRounding(x: nat, s: nat, q: nat, r: nat, y: nat, p: nat, t: nat)
    requires s > 0 && Splits(x, Pow2(s), q, r) && Splits(y, Pow2(s), p, t) && P52 <= q < P53 && P52 <= p <= P53
    ensures (Rounded(y) == Rounded(x)) <==> (Significand(p, t, Pow2(s - 1)) == Significand(q, r, Pow2(s - 1)))
  {
    hide Rounded, Pow2, RoundHalfEven;
    RoundsWithin(x, s, q, r);
    RoundsWithin(y, s, p, t);
    SameProduct(Significand(p, t, Pow2(s - 1)), Significand(q, r, Pow2(s - 1)), Pow2(s));
  }

  /** The significand kept of a quotient, the step's upper end included. */
  function Significand(q: nat, r: nat, half: nat): nat {
    if q < P53 then RoundHalfEven(q, r, half) else P53
  }

  /** A low half and its rounding, by the half step `l` lies in: quotients `a` and `b`, remainders `r`
      and `t`. */
  ghost predicate Stays(l: nat, m: nat, half: nat, a: nat, r: nat, b: nat, t: nat) {
    && r < 2 * half && t < 2 * half
    && (r < half ==> b == a && t <= half && m - l == t - r)
    && (r == half ==> m == l && b == a && t == r)
    && (r > half ==> (b == a && t >= half && m - l == t - r) || (b == a + 1 && t == 0))
  }

  /** Multiples of the half step are multiples of 2048. */
  lemma StepBase(a: nat, half: nat)
    requires half % 2048 == 0
    ensures a * (2 * half) % 2048 == 0
  {
    var w := half / 2048;
    assert a * (2 * half) == 2048 * (a * (2 * w));
  }

  lemma BaseWithin(l: nat, d: nat, c: nat, a: nat, r: nat)
    requires l < P64 && d > 0 && d * c == P64 && Splits(l, d, a, r)
    ensures a * d + d <= P64
  {
    if a >= c { MulMonotone(c, a, d); }
    MulMonotone(a + 1, c, d);
    assert (a + 1) * d == a * d + d;
  }

  ghost predicate BaseOf(base: nat, a: nat, half: nat) { base == a * (2 * half) }

  /** The step a low half lies in, and where it begins. */
  lemma StepAt(l: nat, half: nat, c: nat) returns (a: nat, r: nat, base: nat)
    requires l < P64 && half > 0 && half % 2048 == 0 && (2 * half) * c == P64
    ensures Splits(l, 2 * half, a, r) && BaseOf(base, a, half) && r < 2 * half && l == base + r
    ensures base % 2048 == 0 && (base + half) % 2048 == 0 && (base + 2 * half) % 2048 == 0 && base + 2 * half <= P64
  {
    a, r := Division(l, 2 * half);
    StepBase(a, half);
    BaseWithin(l, 2 * half, c, a, r);
    base := a * (2 * half);
    NextMultiples(base, half);
  }

  lemma NextMultiples(base: nat, half: nat)
    requires base % 2048 == 0 && half % 2048 == 0
    ensures (base + half) % 2048 == 0 && (base + 2 * half) % 2048 == 0
  {
    var u, w := base / 2048, half / 2048;
    assert base == 2048 * u && half == 2048 * w;
    MultipleOf2048(u + w);
    MultipleOf2048(u + 2 * w);
  }

  lemma StaysInStep(l: nat, half: nat, c: nat) returns (a: nat, r: nat, b: nat, t: nat)
    requires l < P64 && half > 0 && half % 2048 == 0 && (2 * half) * c == P64
    ensures Splits(l, 2 * half, a, r) && Splits(Rounded(l), 2 * half, b, t) && Stays(l, Rounded(l), half, a, r, b, t)
  {
    hide Rounded, Stays, Splits, BaseOf;
    var base: nat;
    a, r, base := StepAt(l, half, c);
    KeepsMultiple(l, base);
    KeepsMultiple(l, base + half);
    KeepsMultiple(l, base + 2 * half);
    b, t := Moves(l, Rounded(l), half, a, r, base);
  }

  /** The quotient and remainder a number moves to, within its half step. */
  lemma Moves(l: nat, m: nat, half: nat, a: nat, r: nat, base: nat) returns (b: nat, t: nat)
    requires half > 0 && BaseOf(base, a, half) && l == base + r && r < 2 * half && base <= m <= base + 2 * half
    requires r == half ==> m == l
    requires (r < half ==> m <= base + half) && (r > half ==> m >= base + half)
    ensures Splits(m, 2 * half, b, t) && Stays(l, m, half, a, r, b, t)
  {
    assert (a + 1) * (2 * half) == base + 2 * half;
    if m < base + 2 * half { b, t := a, m - base; } else { b, t := a + 1, 0; }
  }

  /** The two significands, by how the low half moved. */
  lemma LowHalfCompared(l: nat, m: nat, half: nat, a: nat, r: nat, b: nat, t: nat, q: nat, p: nat)
    requires half > 0 && q < P53 && p <= P53 && (p == P53 ==> t == 0) && p - q == b - a
    requires Stays(l, m, half, a, r, b, t)
    ensures (Significand(p, t, half) == Significand(q, r, half)) <==> !(m != l && t == half && (m < l <==> p % 2 == 0))
  {}

  lemma MadeTie(h: nat, l: nat, half: nat, b: nat, t: nat, p: nat)
    requires 0 < h < P53 && l < P64 && half == HalfStepOf(h) > 0
    requires Splits(Rounded(l), 2 * half, b, t) && Splits(h * P64 + Rounded(l), 2 * half, p, t)
    ensures TieMade(h, l) <==> Rounded(l) != l && t == half && (Rounded(l) < l <==> p % 2 == 0)
  {
    hide Rounded, HalfStepOf;
    SplitsOnce(Rounded(l), 2 * half, b, t);
    SplitsOnce(h * P64 + Rounded(l), 2 * half, p, t);
  }

  lemma LowHalfOnce(h: nat, l: nat)
    requires 0 < h < P53 && l < P64
    ensures Rounded(h * P64 + Rounded(l)) == Rounded(h * P64 + l) <==> !TieMade(h, l)
  {
    var s, c := LowSteps(h);
    var half := HalfStepOf(h);
    RoundedAtMostP64(l);
    hide Rounded, HalfStepOf, Pow2, Log2, TieMade, Splits, Stays, Significand;
    var a, r, b, t := StaysInStep(l, half, c);
    LowHalfPlaced(h, l, s, half, c, a, r, b, t);
  }

  lemma LowHalfPlaced(h: nat, l: nat, s: nat, half: nat, c: nat, a: nat, r: nat, b: nat, t: nat)
    requires 0 < h < P53 && l < P64 && Rounded(l) <= P64
    requires s > 0 && Pow2(s) == 2 * half && Pow2(s - 1) == half == HalfStepOf(h) && half > 0
    requires (2 * half) * c == P64 && P52 <= h * c && (h + 1) * c <= P53
    requires Splits(l, 2 * half, a, r) && Splits(Rounded(l), 2 * half, b, t) && Stays(l, Rounded(l), half, a, r, b, t)
    ensures Rounded(h * P64 + Rounded(l)) == Rounded(h * P64 + l) <==> !TieMade(h, l)
  {
    hide Rounded, HalfStepOf, Pow2, Log2, TieMade, Splits, Stays, Significand;
    LowPlace(h, l, 2 * half, c, a, r);
    LowPlace(h, Rounded(l), 2 * half, c, b, t);
    LowRange(h, l, 2 * half, c, a, r);
    LowRange(h, Rounded(l), 2 * half, c, b, t);
    SameRounding(h * P64 + l, s, h * c + a, r, h * P64 + Rounded(l), h * c + b, t);
    LowHalfCompared(l, Rounded(l), half, a, r, b, t, h * c + a, h * c + b);
    MadeTie(h, l, half, b, t, h * c + b);
  }

  // A high half of more than 53 bits.

  lemma HighCompared(q: nat, r: nat, half: nat, l: nat, m: nat)
    requires half > 0 && r < 2 * half && l < P64 && m <= P64 && (l == 0 ==> m == 0) && q < P53
    ensures var w := RoundHalfEven(q, r, half);
      (Significand(w, m, half * P64) == Significand(q, r * P64 + l, half * P64)) <==>
        !(l > 0 && r == half && q % 2 == 0) && !(half == 1 && m == P64 && r == 0 && q % 2 == 1)
  {}

  lemma HighPlaces(h: nat, l: nat, s: nat, q: nat, r: nat)
    requires Splits(h, Pow2(s), q, r) && s > 0 && l < P64
    ensures Splits(h * P64 + l, Pow2(s + 64), q, r * P64 + l)
    ensures Pow2(s + 63) == Pow2(s - 1) * P64
  {
    Powers();
    PowAdd(s, 64);
    PowAdd(s - 1, 64);
    hide Pow2;
    assert q * (Pow2(s) * P64) == (q * Pow2(s)) * P64;
  }

  lemma RoundedPlaces(x: nat, m: nat, s: nat, w: nat)
    requires x == w * Pow2(s) && s > 0 && m <= P64
    ensures Splits(x * P64 + m, Pow2(s + 64), w, m)
  {
    Powers();
    PowAdd(s, 64);
    PowAdd(1, s - 1);
    PowOne();
    hide Pow2;
    assert w * (Pow2(s) * P64) == x * P64;
  }

  /** The quotient and remainder an integer of more than 53 bits is rounded by. */
  lemma RoundedBy(h: nat) returns (s: nat, q: nat, r: nat)
    requires P53 <= h < P64
    ensures s == Log2(h) - 52 && 0 < s <= 11 && q == h / Pow2(s) && r == h % Pow2(s)
    ensures Splits(h, Pow2(s), q, r) && P52 <= q < P53 && r < 2 * Pow2(s - 1)
    ensures var w := RoundHalfEven(q, r, Pow2(s - 1)); Rounded(h) == w * Pow2(s) && P52 <= w <= P53
  {
    LargeRange(h);
    s := Log2(h) - 52;
    SignificandRange(h, s);
    assert Pow2(s) == 2 * Pow2(s - 1);
    hide Log2, Pow2, RoundedSignificand;
    q, r := h / Pow2(s), h % Pow2(s);
    RoundsTo(h, s, q, r);
  }

  lemma UnbrokenTie(h: nat, l: nat, s: nat, q: nat, r: nat)
    requires P53 <= h < P64 && l < P64 && s == Log2(h) - 52 && s > 0 && q == h / Pow2(s) && r == h % Pow2(s)
    ensures TieUnbroken(h, l) <==> l > 0 && r == Pow2(s - 1) && q % 2 == 0
    ensures TieCarried(h, l) <==> Pow2(s - 1) == 1 && Rounded(l) == P64 && r == 0 && q % 2 == 1
  {
    hide Rounded, Log2;
    PowOne();
    PowZero();
    if s > 1 { PowMonotone(1, s - 1); }
  }

  /** The two integers over a high half of more than 53 bits, at the result's step. */
  lemma HighSetup(h: nat, l: nat) returns (k: nat, half: nat, q: nat, r: nat, w: nat)
    requires P53 <= h < P64 && l < P64
    ensures k > 0 && half > 0 && r < 2 * half && P52 <= q < P53 && Pow2(k - 1) == half * P64
    ensures Splits(h * P64 + l, Pow2(k), q, r * P64 + l)
    ensures w == RoundHalfEven(q, r, half) && P52 <= w <= P53
    ensures Splits(Rounded(h) * P64 + Rounded(l), Pow2(k), w, Rounded(l)) && Rounded(l) <= P64
    ensures TieUnbroken(h, l) <==> l > 0 && r == half && q % 2 == 0
    ensures TieCarried(h, l) <==> half == 1 && Rounded(l) == P64 && r == 0 && q % 2 == 1
  {
    var s: nat;
    s, q, r := RoundedBy(h);
    k, half := s + 64, Pow2(s - 1);
    UnbrokenTie(h, l, s, q, r);
    RoundedAtMostP64(l);
    hide Rounded, Pow2, Log2, RoundHalfEven, TieUnbroken, TieCarried, Splits;
    HighPlaces(h, l, s, q, r);
    w := RoundHalfEven(q, r, half);
    RoundedPlaces(Rounded(h), Rounded(l), s, w);
  }

  lemma HighHalfOnce(h: nat, l: nat)
    requires P53 <= h < P64 && l < P64
    ensures Rounded(Rounded(h) * P64 + Rounded(l)) == Rounded(h * P64 + l) <==> !TieUnbroken(h, l) && !TieCarried(h, l)
  {
    RoundedShort(0);
    hide Rounded, Pow2, Log2, RoundHalfEven, TieUnbroken, TieCarried, Splits, Significand;
    var k, half, q, r, w := HighSetup(h, l);
    SameRounding(h * P64 + l, k, q, r * P64 + l, Rounded(h) * P64 + Rounded(l), w, Rounded(l));
    HighCompared(q, r, half, l, Rounded(l));
  }

  lemma RoundedShort(h: nat)
    requires h < P53
    ensures Rounded(h) == h
  {}

  // Every 128-bit integer.

  lemma RoundedAgain(l: nat)
    requires l < P64
    ensures Rounded(Rounded(l)) == Rounded(l)
  {
    RoundedAtMostP64(l);
    if l >= P53 {
      var s, q, r := RoundedBy(l);
      var w := RoundHalfEven(q, r, Pow2(s - 1));
      hide Rounded, Log2, RoundHalfEven;
      RoundsWithin(w * Pow2(s), s, w, 0);
      assert w < P53 ==> RoundHalfEven(w, 0, Pow2(s - 1)) == w by { NoRemainder(w, Pow2(s - 1)); }
    }
  }

  lemma NoRemainder(w: nat, half: nat)
    requires half > 0
    ensures RoundHalfEven(w, 0, half) == w
  {}

  lemma HalvesRound(h: nat, l: nat)
    requires h < P64 && l < P64
    ensures Rounded(Rounded(h) * P64 + Rounded(l)) == Rounded(h * P64 + l) <==> HalvesRoundOnce(h, l)
  {
    hide TieMade, TieUnbroken, TieCarried, Rounded;
    if h == 0 {
      RoundedShort(0);
      RoundedAgain(l);
    } else if h < P53 {
      RoundedShort(h);
      LowHalfOnce(h, l);
    } else {
      HighHalfOnce(h, l);
    }
  }

  /** A `u128` converts to the value a single rounding gives it, the nearest with ties to even, exactly
      when rounding its halves first neither makes nor leaves a tie that goes the wrong way. */
  lemma U128ToF64Exact(n: nat)
    requires n < P128
    ensures Value(U128ToF64(n)) == Value(RoundToF64(n)) <==> RoundsOnce(n)
  {
    U128ToF64Value(n);
    WideIsModerate(n);
    RoundToF64Value(n);
    hide Rounded, HalvesSum, RoundsOnce, Value, RoundToF64, U128ToF64, IsFinite, Moderate;
    SumRounds(n);
  }

  lemma SumRounds(n: nat)
    requires n < P128
    ensures Rounded(HalvesSum(n)) == Rounded(n) <==> RoundsOnce(n)
  {
    hide Rounded, HalvesRoundOnce;
    HalvesRound(n / P64, n % P64);
    assert n == n / P64 * P64 + n % P64;
  }
}
