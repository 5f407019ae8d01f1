/** The source's signed 64-bit range, and the facts about products and quotients the modules share. */
module Integers {
  const I64_MIN: int := -0x8000_0000_0000_0000
  const I64_MAX: int := 0x7fff_ffff_ffff_ffff

  const U64_MAX: nat := 0xffff_ffff_ffff_ffff

  predicate IsI64(x: int) { I64_MIN <= x <= I64_MAX }

  /** An unchecked 64-bit result. */
  function Wrapped(x: int): (w: int)
    ensures IsI64(w) && (IsI64(x) ==> w == x)
  {
    (x - I64_MIN) % 0x1_0000_0000_0000_0000 + I64_MIN
  }

  /** Division rounding toward zero. */
  function TruncDiv(a: int, b: int): int
    requires b > 0
  {
    if a >= 0 then a / b else -((-a) / b)
  }

  lemma WrappedSum(x: int, y: int)
    ensures Wrapped(Wrapped(x) + Wrapped(y)) == Wrapped(x + y)
  {
    var k := WrappedBy(x);
    var l := WrappedBy(y);
    WrappedShift(x + y, k + l);
  }

  lemma WrappedBy(x: int) returns (k: int)
    ensures Wrapped(x) == x + k * 0x1_0000_0000_0000_0000
  {
    k := -((x - I64_MIN) / 0x1_0000_0000_0000_0000);
  }

  lemma WrappedShift(x: int, k: int)
    ensures Wrapped(x + k * 0x1_0000_0000_0000_0000) == Wrapped(x)
  {}

  lemma MulMonotone(a: nat, b: nat, c: nat)
    requires a <= b
    ensures a * c <= b * c
  {}

  lemma QuotientIs(x: nat, d: nat, q: nat, r: nat)
    requires r < d && x == q * d + r
    ensures x / d == q && x % d == r
  {
    var q', r' := x / d, x % d;
    assert x == q' * d + r';
    assert (q' + 1) * d == q' * d + d && (q + 1) * d == q * d + d;
    if q' < q { MulMonotone(q' + 1, q, d); }
    if q < q' { MulMonotone(q + 1, q', d); }
  }

  lemma QuotientMonotone(i: nat, j: nat, n: nat)
    requires i <= j && n > 0
    ensures i / n <= j / n
  {
    var q, p := i / n, j / n;
    assert i == q * n + i % n && j == p * n + j % n;
    assert (p + 1) * n == p * n + n;
    if q > p { MulMonotone(p + 1, q, n); }
  }

  lemma QuotientNonNegative(m: nat, d: nat)
    requires d > 0
    ensures m / d >= 0
  {}

  lemma NextMultiple(i: nat, n: nat)
    requires n > 0
    ensures i < (i / n + 1) * n == i - i % n + n
  {
    assert i == i / n * n + i % n;
    assert (i / n + 1) * n == i / n * n + n;
  }
}
