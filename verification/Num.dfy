/** Integer and binary64 conversions, on the bit patterns of IEEE 754-2019 section 3.4, with
    rounding as its section 4.3.1 defines it. */
module Num {
  import opened Integers

  const P52: nat := 0x10_0000_0000_0000
  const P53: nat := 0x20_0000_0000_0000
  const P63: nat := 0x8000_0000_0000_0000
  const P64: nat := 0x1_0000_0000_0000_0000
  const P32: nat := 0x1_0000_0000
  const P128: nat := 0x1_0000_0000_0000_0000_0000_0000_0000_0000

  function Pow2(n: nat): (p: nat)
    ensures p > 0
  {
    if n == 0 then 1 else 2 * Pow2(n - 1)
  }

  // ---------- the format ----------

  /** A 64-bit pattern. */
  predicate IsBits(b: nat) { b < P64 }

  /** The top bit. */
  predicate Negative(b: nat) { b >= P63 }

  function Exponent(b: nat): (e: nat)
    ensures e < 2048
  {
    b / P52 % 2048
  }

  function Trailing(b: nat): (f: nat)
    ensures f < P52
  {
    b % P52
  }

  predicate IsNan(b: nat) { Exponent(b) == 2047 && Trailing(b) != 0 }

  predicate IsInfinite(b: nat) { Exponent(b) == 2047 && Trailing(b) == 0 }

  predicate IsFinite(b: nat) { Exponent(b) != 2047 }

  /** `m * 2^e`, exactly. */
  function Scale(m: nat, e: int): real {
    if e >= 0 then (m * Pow2(e)) as real else m as real / Pow2(-e) as real
  }

  /** A finite pattern's magnitude: subnormals have no implicit bit and exponent -1074. */
  function Magnitude(b: nat): real {
    if Exponent(b) == 0 then Scale(Trailing(b), -1074) else Scale(P52 + Trailing(b), Exponent(b) - 1075)
  }

  function Value(b: nat): real {
    if Negative(b) then -Magnitude(b) else Magnitude(b)
  }

  /** The ordered comparisons `<` and `>=` against a real constant: false on NaN. */
  predicate LessThan(b: nat, r: real) {
    !IsNan(b) && if IsInfinite(b) then Negative(b) else Value(b) < r
  }

  predicate AtLeast(b: nat, r: real) {
    !IsNan(b) && if IsInfinite(b) then !Negative(b) else Value(b) >= r
  }

  // ---------- float to integer ----------

  /** The 64-bit shifts. */
  function ShiftLeft(m: nat, s: nat): nat { m * Pow2(s) % P64 }

  function ShiftRight(m: nat, s: nat): nat {
    QuotientNonNegative(m, Pow2(s));
    m / Pow2(s)
  }

  function F64ToU64(b: nat): nat {
    if IsNan(b) || LessThan(b, 1.0) then 0
    else if AtLeast(b, P64 as real) then U64_MAX
    else
      var exponent := Exponent(b) - 1075;
      var mantissa := Trailing(b) + P52;
      if exponent >= 0 then ShiftLeft(mantissa, exponent) else ShiftRight(mantissa, -exponent)
  }

  /** Clears the sign bit. */
  function AbsBits(b: nat): nat { if Negative(b) then b - P63 else b }

  function F64ToI64(b: nat): int {
    if IsNan(b) then 0
    else if AtLeast(b, P63 as real) then I64_MAX
    else if LessThan(b, I64_MIN as real) || (IsFinite(b) && Value(b) == I64_MIN as real) then I64_MIN
    else
      var m := F64ToU64(AbsBits(b));
      var magnitude := if m <= I64_MAX then m else I64_MAX;
      if LessThan(b, 0.0) then -magnitude else magnitude
  }

  /** Toward zero. */
  function Truncate(v: real): int {
    if v >= 0.0 then v.Floor else -((-v).Floor)
  }

  function Saturate(x: int, lo: int, hi: int): int {
    if x < lo then lo else if x > hi then hi else x
  }

  /** What an `as` cast promises: NaN is zero, an infinity its bound, and every finite value its
      truncation, saturated. */
  function AsCast(b: nat, lo: int, hi: int): int {
    if IsNan(b) then 0
    else if IsInfinite(b) then if Negative(b) then lo else hi
    else Saturate(Truncate(Value(b)), lo, hi)
  }

  /** By pattern: an infinity is all ones in the exponent and zeros after it, a NaN anything above. */
  lemma SpecialPatterns(b: nat)
    requires IsBits(b)
    ensures b % P63 > 0x7ff0_0000_0000_0000 ==> F64ToU64(b) == 0 && F64ToI64(b) == 0
    ensures b == 0x7ff0_0000_0000_0000 ==> F64ToU64(b) == U64_MAX && F64ToI64(b) == I64_MAX
    ensures b == 0xfff0_0000_0000_0000 ==> F64ToU64(b) == 0 && F64ToI64(b) == I64_MIN
  {
    hide Pow2, Value;
  }

  // ---------- powers of two ----------

  lemma {:induction false} PowAdd(a: nat, b: nat)
    ensures Pow2(a + b) == Pow2(a) * Pow2(b)
  {
    if a == 0 {
    } else {
      PowAdd(a - 1, b);
      assert Pow2(a + b) == 2 * Pow2(a - 1 + b);
      assert 2 * (Pow2(a - 1) * Pow2(b)) == (2 * Pow2(a - 1)) * Pow2(b);
    }
  }

  lemma {:induction false} PowMonotone(a: nat, b: nat)
    requires a <= b
    ensures Pow2(a) <= Pow2(b)
  {
    if a == b {
    } else {
      PowMonotone(a, b - 1);
    }
  }

  lemma Powers()
    ensures Pow2(11) == 2048 && Pow2(52) == P52 && Pow2(53) == P53 && Pow2(63) == P63 && Pow2(64) == P64
    ensures Pow2(10) == 1024
  {
    assert Pow2(1) == 2;
    hide Pow2;
    PowStep(1, 1, 2, 2);
    PowStep(2, 2, 4, 4);
    PowStep(4, 4, 16, 16);
    PowStep(8, 2, 256, 4);
    PowStep(10, 1, 1024, 2);
    PowStep(8, 8, 256, 256);
    PowStep(16, 16, 0x1_0000, 0x1_0000);
    PowStep(32, 16, 0x1_0000_0000, 0x1_0000);
    PowStep(48, 4, 0x1_0000_0000_0000, 16);
    PowStep(52, 1, P52, 2);
    PowStep(52, 11, P52, 2048);
    PowStep(63, 1, P63, 2);
  }

  lemma PowStep(a: nat, b: nat, va: nat, vb: nat)
    requires Pow2(a) == va && Pow2(b) == vb
    ensures Pow2(a + b) == va * vb
  {
    PowAdd(a, b);
  }

  lemma FloorOfQuotient(m: nat, d: nat)
    requires d > 0
    ensures (m as real / d as real).Floor == m / d
  {
    var q, v := m / d, m as real / d as real;
    assert v * d as real == m as real;
    assert m == q * d + m % d;
    IntTimes(q, d);
    IntTimes(q + 1, d);
    assert q * d <= m < (q + 1) * d;
    assert (q * d) as real <= m as real < ((q + 1) * d) as real;
    RealCancel(q as real, v, d as real);
    RealCancelStrict(v, (q + 1) as real, d as real);
  }

  lemma {:induction false} IntTimes(a: nat, b: nat)
    ensures (a * b) as real == a as real * b as real
  {
    if a == 0 {
    } else {
      IntTimes(a - 1, b);
      assert a * b == (a - 1) * b + b;
      assert a as real * b as real == (a - 1) as real * b as real + b as real;
    }
  }

  lemma RealCancel(a: real, b: real, d: real)
    requires d > 0.0 && a * d <= b * d
    ensures a <= b
  {}

  lemma RealCancelStrict(a: real, b: real, d: real)
    requires d > 0.0 && a * d < b * d
    ensures a < b
  {}

  // ---------- bounds of a scaled significand ----------

  /** `Scale(m, e)` against the power of two `2^k`, `k >= 0`: below it when `m < 2^(k - e)`, at
      least it when `m >= 2^(k - e)`. */
  lemma ScaleBelow(m: nat, e: int, k: nat)
    requires e <= k && m < Pow2(k - e)
    ensures Scale(m, e) < Pow2(k) as real
  {
    hide Pow2;
    if e >= 0 {
      PowAdd(k - e, e);
      MulMonotone(m + 1, Pow2(k - e), Pow2(e));
      assert (m + 1) * Pow2(e) == m * Pow2(e) + Pow2(e);
    } else {
      PowAdd(k, -e);
      IntTimes(Pow2(k), Pow2(-e));
      var v, d := m as real / Pow2(-e) as real, Pow2(-e) as real;
      assert v * d == m as real;
      RealCancelStrict(v, Pow2(k) as real, d);
    }
  }

  lemma ScaleAtLeast(m: nat, e: int, k: nat)
    requires e <= k && m >= Pow2(k - e)
    ensures Scale(m, e) >= Pow2(k) as real
  {
    hide Pow2;
    if e >= 0 {
      PowAdd(k - e, e);
      MulMonotone(Pow2(k - e), m, Pow2(e));
    } else {
      PowAdd(k, -e);
      IntTimes(Pow2(k), Pow2(-e));
      var v, d := m as real / Pow2(-e) as real, Pow2(-e) as real;
      assert v * d == m as real;
      RealCancel(Pow2(k) as real, v, d);
    }
  }

  lemma ScaleNonNegative(m: nat, e: int)
    ensures Scale(m, e) >= 0.0
  {
    if e < 0 {
      var v, d := m as real / Pow2(-e) as real, Pow2(-e) as real;
      assert v * d == m as real;
      RealCancel(0.0, v, d);
    }
  }

  /** The exponent field places a finite magnitude. */
  lemma MagnitudeBelow(b: nat, k: nat)
    requires IsFinite(b) && Exponent(b) <= 1022 + k
    ensures Magnitude(b) < Pow2(k) as real
  {
    Powers();
    hide Pow2, Scale;
    if Exponent(b) == 0 {
      PowMonotone(53, k + 1074);
      ScaleBelow(Trailing(b), -1074, k);
    } else {
      PowMonotone(53, k - (Exponent(b) - 1075));
      ScaleBelow(P52 + Trailing(b), Exponent(b) - 1075, k);
    }
  }

  lemma MagnitudeAtLeast(b: nat, k: nat)
    requires IsFinite(b) && Exponent(b) >= 1023 + k
    ensures Magnitude(b) >= Pow2(k) as real
  {
    Powers();
    hide Pow2, Scale;
    var e := Exponent(b) - 1075;
    if e <= k {
      PowMonotone(k - e, 52);
      ScaleAtLeast(P52 + Trailing(b), e, k);
    } else {
      PowZero();
      PowMonotone(k, e);
      ScaleAtLeast(P52 + Trailing(b), e, e);
    }
  }

  lemma PowZero() ensures Pow2(0) == 1 {}

  // ---------- the float-to-integer theorems ----------

  /** Truncation of a magnitude from 1 up to `2^64` is what the shifts compute. */
  lemma ShiftTruncates(b: nat)
    requires IsFinite(b) && 1023 <= Exponent(b) <= 1086
    ensures var e := Exponent(b) - 1075; var m := P52 + Trailing(b);
      (if e >= 0 then ShiftLeft(m, e) else ShiftRight(m, -e)) == Magnitude(b).Floor
    ensures 0 <= Magnitude(b).Floor < P64
  {
    Powers();
    hide Pow2, Exponent, Trailing, Scale, ShiftLeft;
    var e, m := Exponent(b) - 1075, P52 + Trailing(b);
    MagnitudeBelow(b, 64);
    assert Magnitude(b) == Scale(m, e);
    if e >= 0 { ScaleFloorLeft(m, e); } else { ScaleFloorRight(m, -e); }
  }

  lemma ScaleFloorLeft(m: nat, e: nat)
    ensures Scale(m, e).Floor >= 0
    ensures Scale(m, e) < P64 as real ==> Scale(m, e).Floor == ShiftLeft(m, e)
  {
    hide Pow2;
    assert Scale(m, e) == (m * Pow2(e)) as real;
  }

  lemma ScaleFloorRight(m: nat, e: nat)
    requires e > 0
    ensures Scale(m, 0 - e).Floor == ShiftRight(m, e)
  {
    hide Pow2;
    FloorOfQuotient(m, Pow2(e));
  }

  lemma MagnitudeNonNegative(b: nat)
    ensures Magnitude(b) >= 0.0
  {
    if Exponent(b) == 0 {
      ScaleNonNegative(Trailing(b), -1074);
    } else {
      ScaleNonNegative(P52 + Trailing(b), Exponent(b) - 1075);
    }
  }

  /** For every pattern: NaN, infinities, subnormals and negatives included. */
  lemma F64ToU64IsAsCast(b: nat)
    requires IsBits(b)
    ensures F64ToU64(b) == AsCast(b, 0, U64_MAX)
  {
    hide Pow2, Magnitude, Exponent, Trailing, ShiftLeft, ShiftRight;
    if IsFinite(b) {
      Powers();
      PowZero();
      MagnitudeNonNegative(b);
      if Exponent(b) <= 1022 { MagnitudeBelow(b, 0); }
      else if Exponent(b) >= 1087 { MagnitudeAtLeast(b, 64); }
      else { MagnitudeAtLeast(b, 0); ShiftTruncates(b); MagnitudeBelow(b, 64); }
    }
  }

  /** The sign bit leaves the other fields alone. */
  lemma SignIsApart(a: nat)
    ensures Exponent(a + P63) == Exponent(a) && Trailing(a + P63) == Trailing(a)
  {
    assert P63 == 2048 * P52;
    assert (a + P63) / P52 == a / P52 + 2048;
    assert (a / P52 + 2048) % 2048 == a / P52 % 2048;
  }

  lemma AbsKeeps(b: nat)
    requires IsBits(b)
    ensures IsBits(AbsBits(b)) && !Negative(AbsBits(b)) && Exponent(AbsBits(b)) == Exponent(b)
    ensures Trailing(AbsBits(b)) == Trailing(b)
    ensures Value(AbsBits(b)) == Magnitude(b)
  {
    hide Exponent, Trailing, Scale;
    if Negative(b) { SignIsApart(b - P63); }
  }

  lemma F64ToI64IsAsCast(b: nat)
    requires IsBits(b)
    ensures F64ToI64(b) == AsCast(b, I64_MIN, I64_MAX)
  {
    hide Magnitude, F64ToU64, AbsBits, Exponent, Trailing;
    AbsKeeps(b);
    F64ToU64IsAsCast(AbsBits(b));
    MagnitudeNonNegative(b);
  }

  // ---------- integer to float ----------

  /** The `k`th multiple of `2^s`. */
  function Grid(k: nat, s: nat): nat { k * Pow2(s) }

  function Log2(x: nat): (e: nat)
    requires x > 0
    ensures Pow2(e) <= x < 2 * Pow2(e)
  {
    if x == 1 then 0 else 1 + Log2(x / 2)
  }

  /** The significand kept when `2^52 * 2^s <= x < 2^53 * 2^s`, to nearest, ties to even. */
  function RoundedSignificand(x: nat, s: nat): nat
    requires s > 0
  {
    QuotientNonNegative(x, Pow2(s));
    RoundHalfEven(x / Pow2(s), x % Pow2(s), Pow2(s - 1))
  }

  function RoundHalfEven(q: nat, r: nat, half: nat): nat {
    if r > half || (r == half && q % 2 == 1) then q + 1 else q
  }

  /** The one rounding of an exact non-negative integer to binary64. A significand that rounds up
      to `2^53` carries into the exponent field by itself. */
  function RoundToF64(x: nat): nat {
    if x == 0 then 0
    else
      var e := Log2(x);
      if e <= 52 then Assemble(e, Grid(x, 52 - e)) else Assemble(e, RoundedSignificand(x, e - 52))
  }

  /** The pattern of a significand from `2^52` to `2^53` at exponent `e`. */
  function Assemble(e: nat, m: nat): nat {
    (1022 + e) * P52 + m
  }

  /** The fused operation's exact value. */
  function Exactly(a: nat, b: nat, c: nat): real { Value(a) * Value(b) + Value(c) }

  /** The fused multiply-add of three patterns, on operands whose exact result is a whole number of
      129 bits at most: that number, rounded once. */
  function MulAdd(a: nat, b: nat, c: nat): nat
    requires 0 <= Exactly(a, b, c).Floor < 2 * P128 && Exactly(a, b, c) == Exactly(a, b, c).Floor as real
  {
    RoundToF64(Exactly(a, b, c).Floor)
  }

  /** The pattern of `2^32`. */
  const TWO_POW_32: nat := 1055 * P52

  function U32ToF64(x: nat): nat
    requires x < P32
  {
    RoundToF64(x)
  }

  function U64ToF64(n: nat): nat
    requires n < P64
  {
    OperandsExact(n);
    MulAdd(U32ToF64(n / P32), TWO_POW_32, U32ToF64(n % P32))
  }

  function I64ToF64(n: int): nat
    requires IsI64(n)
  {
    var magnitude := U64ToF64(if n < 0 then -n else n);
    if n < 0 then NegateBits(magnitude) else magnitude
  }

  /** Flips the sign bit. */
  function NegateBits(b: nat): nat { if Negative(b) then b - P63 else b + P63 }

  /** The value rounding gives `x`. */
  function Rounded(x: nat): nat {
    if x < P53 then x
    else var s := Log2(x) - 52; if s > 0 then Grid(RoundedSignificand(x, s), s) else x
  }

  lemma SignificandRange(x: nat, s: nat)
    requires s > 0 && Grid(P52, s) <= x < Grid(P53, s)
    ensures P52 <= RoundedSignificand(x, s) <= P53
    ensures var q, r := x / Pow2(s), x % Pow2(s); x == q * Pow2(s) + r && P52 <= q < P53
  {
    hide Pow2;
    var d := Pow2(s);
    var q, r := x / d, x % d;
    assert x == q * d + r;
    assert (q + 1) * d == q * d + d;
    if q < P52 { MulMonotone(q + 1, P52, d); }
    if q >= P53 { MulMonotone(P53, q, d); }
  }

  lemma AssembledFields(e: nat, m: nat)
    requires e <= 1000 && P52 <= m <= P53
    ensures var b := Assemble(e, m); IsBits(b) && !Negative(b) && IsFinite(b) && Exponent(b) > 0
    ensures var b := Assemble(e, m);
      if m < P53 then Exponent(b) == 1023 + e && P52 + Trailing(b) == m else Exponent(b) == 1024 + e && Trailing(b) == 0
  {
    if m < P53 { Fields(1023 + e, m - P52); } else { Fields(1024 + e, 0); }
  }

  lemma Fields(e: nat, f: nat)
    requires e < 2047 && f < P52
    ensures var b := e * P52 + f; Exponent(b) == e && Trailing(b) == f
  {
    assert (e * P52 + f) / P52 == e;
  }

  /** Assembling a significand and an exponent gives their product, carry or no carry. */
  lemma AssembledValue(e: nat, m: nat, x: nat)
    requires e <= 1000 && P52 <= m <= P53
    requires if e >= 52 then x == Grid(m, e - 52) else m == Grid(x, 52 - e)
    ensures Value(Assemble(e, m)) == x as real
  {
    hide Pow2, Grid, Assemble, Exponent, Trailing, Scale;
    AssembledFields(e, m);
    ScaleOfGrid(if e >= 52 then m else x, if e >= 52 then e - 52 else 52 - e, e);
    if m == P53 { ScaleCarries(e); }
  }

  /** `Scale` of a significand at the exponent that grids it. */
  lemma ScaleOfGrid(k: nat, s: nat, e: nat)
    ensures e >= 52 && s == e - 52 ==> Scale(k, e - 52) == Grid(k, s) as real
    ensures e < 52 && s == 52 - e ==> Scale(Grid(k, s), e - 52) == k as real
  {
    hide Pow2;
    if e < 52 && s == 52 - e { ScaleOfProduct(k, s); }
  }

  lemma ScaleCarries(e: nat)
    ensures Scale(P53, e - 52) == Scale(P52, e - 51)
  {
    if e >= 52 {
      assert Pow2(e - 51) == 2 * Pow2(e - 52);
    } else if e == 51 {
      PowZero();
      assert Pow2(1) == 2;
    } else {
      assert Pow2(52 - e) == 2 * Pow2(51 - e);
      hide Pow2;
      HalveBoth(P52 as real, Pow2(51 - e) as real);
    }
  }

  lemma HalveBoth(a: real, b: real)
    requires b > 0.0
    ensures 2.0 * a / (2.0 * b) == a / b
  {}

  lemma ProductQuotient(a: real, b: real, p: real)
    requires b > 0.0 && p == a * b
    ensures p / b == a
  {
    var v := p / b;
    assert v * b == a * b;
    RealCancel(v, a, b);
    RealCancel(a, v, b);
  }

  lemma ScaleOfProduct(x: nat, k: nat)
    requires k > 0
    ensures Scale(x * Pow2(k), 0 - k) == x as real
  {
    hide Pow2;
    IntTimes(x, Pow2(k));
    ProductQuotient(x as real, Pow2(k) as real, (x * Pow2(k)) as real);
  }

  lemma LogRange(x: nat)
    requires x > 0
    ensures var e := Log2(x); (x < P64 ==> e <= 63) && (e <= 52 <==> x < P53)
    ensures var e := Log2(x); e > 52 ==> Grid(P52, e - 52) <= x < Grid(P53, e - 52)
    ensures var e := Log2(x); e <= 52 ==> P52 <= Grid(x, 52 - e) < P53
  {
    Powers();
    hide Pow2, Log2;
    var e := Log2(x);
    if e >= 64 { PowMonotone(64, e); }
    if e > 52 {
      PowMonotone(53, e);
      PowAdd(52, e - 52);
      assert P53 * Pow2(e - 52) == 2 * (P52 * Pow2(e - 52));
    } else {
      PowMonotone(e, 52);
      PowAdd(e, 52 - e);
      MulMonotone(Pow2(e), x, Pow2(52 - e));
      MulMonotone(x + 1, 2 * Pow2(e), Pow2(52 - e));
      assert (x + 1) * Pow2(52 - e) == x * Pow2(52 - e) + Pow2(52 - e);
      assert (2 * Pow2(e)) * Pow2(52 - e) == 2 * (Pow2(e) * Pow2(52 - e));
    }
  }

  /** Far below the format's largest value. */
  predicate Moderate(x: nat) { x == 0 || Log2(x) <= 1000 }

  lemma WideIsModerate(x: nat)
    requires x < 2 * P128
    ensures Moderate(x) && (x > 0 ==> Log2(x) <= 128)
  {
    Powers();
    PowAdd(64, 64);
    PowAdd(1, 128);
    PowOne();
    hide Pow2, Log2;
    if x > 0 && Log2(x) > 128 { PowMonotone(129, Log2(x)); }
  }

  lemma PowOne() ensures Pow2(1) == 2 { PowZero(); }

  /** The pattern rounding assembles is a finite non-negative one of value `Rounded(x)`. */
  lemma RoundToF64Value(x: nat)
    requires Moderate(x)
    ensures var b := RoundToF64(x); IsBits(b) && !Negative(b) && IsFinite(b) && Value(b) == Rounded(x) as real
  {
    hide Value, IsFinite, Negative, Exponent, Pow2, Log2, RoundedSignificand, Assemble, Grid;
    if x == 0 {
      ZeroValue();
    } else {
      LogRange(x);
      var e := Log2(x);
      if e <= 52 {
        AssembledFields(e, Grid(x, 52 - e));
        if e == 52 { GridOfOne(x); }
        AssembledValue(e, Grid(x, 52 - e), x);
      } else {
        SignificandRange(x, e - 52);
        AssembledFields(e, RoundedSignificand(x, e - 52));
        AssembledValue(e, RoundedSignificand(x, e - 52), Rounded(x));
      }
    }
  }

  lemma ZeroValue()
    ensures IsFinite(0) && !Negative(0) && Value(0) == 0.0
  {
    hide Pow2;
    ProductQuotient(0.0, Pow2(1074) as real, 0.0);
  }

  lemma GridOfOne(x: nat)
    ensures Grid(x, 0) == x
  {
    PowZero();
  }

  /** The multiplier and the two halves convert exactly. */
  lemma ConvertedExactly(x: nat)
    requires x < P32
    ensures IsFinite(U32ToF64(x)) && Value(U32ToF64(x)) == x as real
    ensures IsFinite(TWO_POW_32) && Value(TWO_POW_32) == P32 as real
  {
    hide Value, IsFinite, Pow2, Log2, RoundedSignificand, RoundToF64;
    WideIsModerate(x);
    RoundToF64Value(x);
    assert Assemble(32, P52) == TWO_POW_32;
    AssembledFields(32, P52);
    assert Grid(P32, 20) == P52 by { Power20(); }
    AssembledValue(32, P52, P32);
  }

  lemma Power20() ensures Pow2(20) == 0x10_0000 {
    assert Pow2(10) == 1024;
    PowAdd(10, 10);
  }

  /** So the fused operation's exact result is the integer itself. */
  lemma OperandsExact(n: nat)
    requires n < P64
    ensures Exactly(U32ToF64(n / P32), TWO_POW_32, U32ToF64(n % P32)) == n as real
    ensures (n as real).Floor == n
  {
    hide Value, U32ToF64;
    ConvertedExactly(n / P32);
    ConvertedExactly(n % P32);
    assert n == n / P32 * P32 + n % P32;
    IntTimes(n / P32, P32);
  }

  /** Splitting, converting and fusing round the integer once. */
  lemma MulAddExact(n: nat)
    requires n < P64
    ensures U64ToF64(n) == RoundToF64(n)
  {
    hide Exactly, RoundToF64, U32ToF64;
    OperandsExact(n);
  }

  // ---------- nearest, ties to even ----------

  /** A finite value is below `2^(52 + s)` or a whole number of `2^s`. */
  lemma OnGrid(b: nat, s: nat) returns (k: nat)
    requires IsFinite(b)
    ensures Magnitude(b) < Grid(P52, s) as real || Magnitude(b) == Grid(k, s) as real
  {
    Powers();
    hide Pow2;
    PowAdd(52, s);
    k := 0;
    if Exponent(b) < 1075 + s {
      MagnitudeBelow(b, 52 + s);
    } else {
      var t := Exponent(b) - 1075 - s;
      PowAdd(t, s);
      k := (P52 + Trailing(b)) * Pow2(t);
      assert k * Pow2(s) == (P52 + Trailing(b)) * (Pow2(t) * Pow2(s));
    }
  }

  function Distance(a: real, b: real): real { if a < b then b - a else a - b }

  function Gap(a: nat, b: nat): nat { if a < b then b - a else a - b }

  /** Rounding to a grid of spacing `2^s`: no grid point is nearer, a tie goes to the even one, and
      nothing below `2^(52 + s)` is as near. */
  lemma GridNearest(x: nat, s: nat, k: nat)
    requires s > 0 && Grid(P52, s) <= x < Grid(P53, s)
    ensures var m := RoundedSignificand(x, s);
      && 2 * Gap(Grid(m, s), x) <= Pow2(s)
      && Gap(Grid(m, s), x) <= x - Grid(P52, s)
      && Gap(Grid(m, s), x) <= Gap(Grid(k, s), x)
      && (k != m && Gap(Grid(m, s), x) == Gap(Grid(k, s), x) ==> m % 2 == 0)
      && (Grid(m, s) == x <==> x % Pow2(s) == 0)
  {
    assert Pow2(s) == 2 * Pow2(s - 1);
    hide Pow2, Grid, RoundHalfEven;
    SignificandRange(x, s);
    var q, m := x / Pow2(s), RoundedSignificand(x, s);
    HalfStep(q, x % Pow2(s), Pow2(s - 1));
    GridIs(q, s);
    GridSteps(q, k, s);
    GridSteps(P52, q, s);
    GridSteps(q, m, s);
    assert q == P52 || Grid(P52, s) + Pow2(s) <= Grid(q, s);
  }

  /** The rounding decision, by the remainder. */
  lemma HalfStep(q: nat, r: nat, half: nat)
    ensures var m := RoundHalfEven(q, r, half);
      && (m == q || m == q + 1) && (m == q ==> r <= half) && (m == q + 1 ==> r >= half) && (r == half ==> m % 2 == 0)
  {}

  lemma GridIs(k: nat, s: nat) ensures Grid(k, s) == k * Pow2(s) {}

  lemma GridSteps(q: nat, k: nat, s: nat)
    ensures k < q ==> Grid(k, s) + Pow2(s) <= Grid(q, s)
    ensures k > q ==> Grid(k, s) >= Grid(q, s) + Pow2(s)
    ensures k == q + 1 ==> Grid(k, s) == Grid(q, s) + Pow2(s)
    ensures k > q + 1 ==> Grid(k, s) >= Grid(q, s) + 2 * Pow2(s)
  {
    hide Pow2;
    var d := Pow2(s);
    assert (q + 1) * d == q * d + d && (q + 2) * d == q * d + 2 * d && (k + 1) * d == k * d + d;
    if k < q { MulMonotone(k + 1, q, d); }
    if k > q { MulMonotone(q + 1, k, d); }
    if k > q + 1 { MulMonotone(q + 2, k, d); }
  }

  lemma LargeRange(n: nat)
    requires n >= P53
    ensures var s := Log2(n) - 52; 0 < s && (n < P64 ==> s <= 11) && Grid(P52, s) <= n < Grid(P53, s)
  {
    LogRange(n);
  }

  /** Rounding gives a finite value nearest to the integer: none is nearer, and where another is as
      near, the one given has an even significand. */
  lemma RoundIsNearest(n: nat, b: nat)
    requires Moderate(n) && IsBits(b) && IsFinite(b)
    ensures var f := RoundToF64(n);
      && IsBits(f) && IsFinite(f)
      && Distance(Value(f), n as real) <= Distance(Value(b), n as real)
      && (Value(b) != Value(f) && Distance(Value(f), n as real) == Distance(Value(b), n as real) ==> f % 2 == 0)
  {
    hide Pow2, Log2, Grid, RoundedSignificand, Magnitude, RoundToF64, IsFinite, Exponent, Negative;
    RoundToF64Value(n);
    if n >= P53 {
      LargeRange(n);
      var s := Log2(n) - 52;
      var k := OnGrid(b, s);
      MagnitudeNonNegative(b);
      GridNearest(n, s, k);
      ParityKept(n);
    }
  }

  lemma ParityKept(n: nat)
    requires n >= P53 && Log2(n) > 52
    ensures RoundToF64(n) % 2 == RoundedSignificand(n, Log2(n) - 52) % 2
  {
    hide RoundedSignificand, Log2, Assemble, Grid;
    AssembledParity(Log2(n), RoundedSignificand(n, Log2(n) - 52));
  }

  lemma AssembledParity(e: nat, m: nat)
    ensures Assemble(e, m) % 2 == m % 2
  {}

  /** So is what a `u64` converts to. */
  lemma U64ToF64IsNearest(n: nat, b: nat)
    requires n < P64 && IsBits(b) && IsFinite(b)
    ensures var f := U64ToF64(n);
      && IsBits(f) && IsFinite(f)
      && Distance(Value(f), n as real) <= Distance(Value(b), n as real)
      && (Value(b) != Value(f) && Distance(Value(f), n as real) == Distance(Value(b), n as real) ==> f % 2 == 0)
  {
    hide RoundToF64, U64ToF64, Value, IsFinite;
    MulAddExact(n);
    WideIsModerate(n);
    RoundIsNearest(n, b);
  }

  /** Likewise for `i64`, on either side of zero. */
  lemma I64ToF64IsNearest(n: int, b: nat)
    requires IsI64(n) && IsBits(b) && IsFinite(b)
    ensures var f := I64ToF64(n);
      && IsBits(f) && IsFinite(f)
      && Distance(Value(f), n as real) <= Distance(Value(b), n as real)
      && (Value(b) != Value(f) && Distance(Value(f), n as real) == Distance(Value(b), n as real) ==> f % 2 == 0)
  {
    var m := if n < 0 then -n else n;
    U64ToF64Value(m);
    U64ToF64IsNearest(m, b);
    hide U64ToF64, Value, Negative, IsFinite, NegateBits;
    if n < 0 {
      NegatedAny(b);
      NegatedAny(U64ToF64(m));
      U64ToF64IsNearest(m, NegateBits(b));
    }
  }

  lemma NegatedAny(b: nat)
    requires IsBits(b) && IsFinite(b)
    ensures var g := NegateBits(b); IsBits(g) && IsFinite(g) && Value(g) == -Value(b) && g % 2 == b % 2
  {
    hide Exponent, Trailing, Magnitude;
    AbsKeeps(b);
    if !Negative(b) { Negated(b); }
  }

  lemma U64ToF64Value(n: nat)
    requires n < P64
    ensures var f := U64ToF64(n); IsBits(f) && !Negative(f) && IsFinite(f) && Value(f) == Rounded(n) as real
  {
    MulAddExact(n);
    hide RoundToF64;
    WideIsModerate(n);
    RoundToF64Value(n);
  }

  lemma U64ToF64Monotone(n: nat, m: nat)
    requires n <= m < P64
    ensures Value(U64ToF64(n)) <= Value(U64ToF64(m))
  {
    hide *;
    U64ToF64Value(n);
    U64ToF64Value(m);
    U64ToF64IsNearest(n, U64ToF64(m));
    U64ToF64IsNearest(m, U64ToF64(n));
    if n < m { NearestInOrder(Value(U64ToF64(n)), Value(U64ToF64(m)), n as real, m as real); }
  }

  lemma NearestInOrder(x: real, y: real, n: real, m: real)
    requires n < m && Distance(x, n) <= Distance(y, n) && Distance(y, m) <= Distance(x, m)
    ensures x <= y
  {}

  // ---------- there and back ----------

  /** An integer with at most 53 significant bits. */
  predicate Representable(n: nat) {
    n < P53 || n % Pow2(var e := Log2(n); if e < 52 then 0 else e - 52) == 0
  }

  /** Converting a `u64` there and back: within 1024 of it always, and exact exactly for the
      representable integers and for `u64::MAX`, which saturation restores. */
  lemma RoundTripU64(n: nat)
    requires n < P64
    ensures var back := F64ToU64(U64ToF64(n));
      && -1024 <= back - n <= 1024
      && (back == n <==> Representable(n) || n == U64_MAX)
  {
    hide Rounded, U64ToF64, F64ToU64, Value, Negative, Exponent, Trailing, Representable, Pow2, Log2, Grid;
    U64ToF64Value(n);
    F64ToU64IsAsCast(U64ToF64(n));
    assert Truncate(Rounded(n) as real) == Rounded(n);
    if n >= P53 { LargeRange(n); }
    if n == U64_MAX { AllOnesRoundUp(n); }
    RoundedNear(n, 11);
    Powers();
  }

  /** How far rounding moves an integer of at most `53 + k` bits. */
  lemma RoundedNear(n: nat, k: nat)
    requires n >= P53 ==> Log2(n) <= 52 + k
    ensures 0 - Pow2(k) <= 2 * (Rounded(n) - n) <= Pow2(k)
    ensures Rounded(n) == n <==> Representable(n)
    ensures n < P53 ==> Representable(n)
  {
    hide Pow2, Log2, Grid, RoundedSignificand;
    if n >= P53 {
      LargeRange(n);
      GridNearest(n, Log2(n) - 52, 0);
      PowMonotone(Log2(n) - 52, k);
    }
  }

  lemma LogGap(a: nat, b: nat)
    requires a < b
    ensures 2 * Pow2(a) <= Pow2(b)
  {
    PowMonotone(a + 1, b);
  }

  lemma LogIs(n: nat, e: nat)
    requires 0 < n && Pow2(e) <= n < 2 * Pow2(e)
    ensures Log2(n) == e
  {
    var f := Log2(n);
    hide Log2, Pow2;
    if f < e { LogGap(f, e); }
    if e < f { LogGap(e, f); }
  }

  lemma LastBeforeCarry(x: nat, s: nat)
    requires s >= 2 && x + 1 == Grid(P53, s)
    ensures x > 0 && Log2(x) == 52 + s && RoundedSignificand(x, s) == P53
  {
    Powers();
    PowAdd(52, s);
    assert Pow2(s) == 4 * Pow2(s - 2) && Pow2(s - 1) == 2 * Pow2(s - 2);
    assert P53 * Pow2(s) == 2 * (P52 * Pow2(s));
    LogIs(x, 52 + s);
    hide Pow2, Log2, RoundHalfEven, Grid;
    LastQuotient(x, Pow2(s)) by { GridIs(P53, s); }
    RoundsUp(P53 - 1, Pow2(s) - 1, Pow2(s - 1));
  }

  lemma LastQuotient(x: nat, d: nat)
    requires d > 0 && x + 1 == P53 * d
    ensures x / d == P53 - 1 && x % d == d - 1
  {
    assert x == (P53 - 1) * d + (d - 1);
    QuotientIs(x, d, P53 - 1, d - 1);
  }

  lemma RoundsUp(q: nat, r: nat, half: nat)
    requires r > half
    ensures RoundHalfEven(q, r, half) == q + 1
  {}

  /** The largest integers of 63 and 64 bits round up to the next power of two. */
  lemma AllOnesRoundUp(n: nat)
    requires n == I64_MAX || n == U64_MAX
    ensures Rounded(n) == n + 1
  {
    Powers();
    assert n + 1 == P53 * if n == I64_MAX then 1024 else 2048;
    LastBeforeCarry(n, if n == I64_MAX then 10 else 11);
    hide Log2, Pow2, RoundedSignificand;
  }

  lemma Negated(f: nat)
    requires IsBits(f) && !Negative(f) && IsFinite(f)
    ensures var g := NegateBits(f); IsBits(g) && Negative(g) && IsFinite(g) && Value(g) == -Value(f)
  {
    hide Exponent, Trailing, Scale;
    SignIsApart(f);
  }

  lemma LogOf63Bits(m: nat)
    requires 0 < m <= P63
    ensures m < P63 ==> Log2(m) <= 62
    ensures m == P63 ==> Log2(m) == 63 && Representable(m)
  {
    Powers();
    var e := Log2(m);
    hide Log2, Pow2;
    if m == P63 {
      LogIs(m, 63);
      assert P63 % 2048 == 0;
    } else if e >= 63 {
      PowMonotone(63, e);
    }
  }

  /** Likewise for `i64`: within 512, and exact exactly for representable magnitudes and
      `i64::MAX`. */
  lemma RoundTripI64(n: int)
    requires IsI64(n)
    ensures var back := F64ToI64(I64ToF64(n)); var m := if n < 0 then -n else n;
      && -512 <= back - n <= 512
      && (back == n <==> Representable(m) || n == I64_MAX)
  {
    hide Rounded, U64ToF64, F64ToI64, Value, Negative, Exponent, Trailing, Representable, Pow2, Log2;
    var m := if n < 0 then -n else n;
    U64ToF64Value(m);
    if n < 0 { Negated(U64ToF64(m)); }
    F64ToI64IsAsCast(I64ToF64(n));
    var r: int := Rounded(m);
    assert Truncate(r as real) == r && Truncate(-(r as real)) == -r;
    if m > 0 { LogOf63Bits(m); }
    if n == I64_MAX { AllOnesRoundUp(m); }
    RoundedNear(m, if m == P63 then 11 else 10);
    Powers();
  }
}
