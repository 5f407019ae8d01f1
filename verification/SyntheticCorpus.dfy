/** The synthetic corpus of the end-to-end benchmark and the window a grid size reconstructs: the
    corpus is sized so that the largest window, with a margin on each side, lies inside it. */
module SyntheticCorpus {
  import opened Integers
  import opened Wrappers

  /** 2020-01-01T00:00:00Z in nanoseconds. */
  const ANCHOR: int := 1_577_836_800_000_000_000

  datatype Error =
    | StepNotPositive | WidthOverflows | SpanOverflows
    | MarginOverflows | StartOverflows | EndOverflows | TooShort

  datatype Info = Info(rows: nat, step: int, first: int, last: int)

  datatype Corpus = Corpus(info: Info, timestamps: seq<int>)

  datatype Window = Window(start: int, end: int, margin: int)

  function Checked(x: int, error: Error): Result<int, Error> {
    if IsI64(x) then Ok(x) else Err(error)
  }

  function Saturated(x: int): int {
    if x < I64_MIN then I64_MIN else if x > I64_MAX then I64_MAX else x
  }

  // ---------- the window ----------

  /** Nanoseconds between the first and the last of `size` grid points. */
  function Width(size: nat, gridStep: int): Result<int, Error>
    requires size > 0
  {
    if size - 1 > I64_MAX then Err(WidthOverflows) else Checked((size - 1) * gridStep, WidthOverflows)
  }

  /** The window of `size` points, one margin after the corpus's first knot. */
  function WindowOf(info: Info, size: nat, gridStep: int, marginKnots: int): Result<Window, Error>
    requires size > 0
  {
    match Checked(info.step * marginKnots, MarginOverflows)
    case Err(e) => Err(e)
    case Ok(margin) =>
      match Checked(info.first + margin, StartOverflows)
      case Err(e) => Err(e)
      case Ok(start) =>
        match Width(size, gridStep)
        case Err(e) => Err(e)
        case Ok(width) =>
          match Checked(start + width, EndOverflows)
          case Err(e) => Err(e)
          case Ok(end) => if Saturated(end + margin) <= info.last then Ok(Window(start, end, margin)) else Err(TooShort)
  }

  /** A window is given exactly when the arithmetic stays within 64 bits and the window with both margins
      lies inside the corpus, where the corpus does not end at the last 64-bit instant. */
  lemma WindowIs(info: Info, size: nat, gridStep: int, marginKnots: int, w: Window)
    requires size > 0 && IsI64(info.last)
    ensures WindowOf(info, size, gridStep, marginKnots) == Ok(w) <==>
        w.margin == info.step * marginKnots && w.start == info.first + w.margin
        && w.end == w.start + (size - 1) * gridStep
        && size - 1 <= I64_MAX && IsI64((size - 1) * gridStep) && IsI64(w.margin) && IsI64(w.start) && IsI64(w.end)
        && (w.end + w.margin <= info.last || info.last == I64_MAX)
  {}

  // ---------- the corpus ----------

  /** What a run's settings guarantee: at least two points, a margin of at least one knot spacing,
      and a margin count whose double plus four is still a 64-bit number. */
  predicate Settings(largest: nat, gridStep: int, marginKnots: int) {
    largest >= 2 && gridStep > 0 && marginKnots >= 1 && 2 * marginKnots + 4 <= I64_MAX
  }

  /** The nanoseconds the corpus must span, or why it cannot. */
  function Span(step: int, largest: nat, gridStep: int, marginKnots: int): Result<int, Error>
    requires Settings(largest, gridStep, marginKnots)
  {
    if step <= 0 then Err(StepNotPositive)
    else match Width(largest, gridStep)
      case Err(e) => Err(e)
      case Ok(width) => Checked(width + Saturated(step * (2 * marginKnots + 4)), SpanOverflows)
  }

  function Jitter(step: int): int { step * 2 / 5 }

  /** One random draw a knot, each within the jitter. */
  ghost predicate Draws(draw: nat -> int, step: int) {
    forall i :: -Jitter(step) <= draw(i) <= Jitter(step)
  }

  /** The instant of knot `i` before it is stored in 64 bits. */
  function Instant(step: int, draw: nat -> int, i: nat): int {
    ANCHOR + i * step + (if i == 0 || Jitter(step) == 0 then 0 else draw(i))
  }

  ghost predicate Built(c: Corpus, step: int, span: int, draw: nat -> int) {
    step > 0 && span >= 0 && |c.timestamps| == span / step + 2
    && (forall i :: 0 <= i < |c.timestamps| ==> c.timestamps[i] == Wrapped(Instant(step, draw, i)))
    && c.info == Info(|c.timestamps|, step, c.timestamps[0], c.timestamps[|c.timestamps| - 1])
  }

  lemma SpanParts(step: int, largest: nat, gridStep: int, marginKnots: int)
    requires Settings(largest, gridStep, marginKnots) && Span(step, largest, gridStep, marginKnots).Ok?
    ensures step > 0 && Width(largest, gridStep).Ok? && Width(largest, gridStep).value > 0
    ensures Span(step, largest, gridStep, marginKnots).value
      == Width(largest, gridStep).value + 2 * (step * marginKnots) + 4 * step
    ensures step * marginKnots >= step
  {
    Positive(largest - 1, gridStep);
    MulMonotone(1, marginKnots, step);
    assert step * (2 * marginKnots + 4) == 2 * (step * marginKnots) + 4 * step;
  }

  lemma Positive(a: int, b: int)
    requires a > 0 && b > 0
    ensures a * b > 0
  {}

  /** Builds the corpus for one stream of draws. */
  method BuildCorpus(step: int, largest: nat, gridStep: int, marginKnots: int, draw: nat -> int)
    returns (r: Result<Corpus, Error>)
    requires Settings(largest, gridStep, marginKnots) && Draws(draw, step)
    ensures Span(step, largest, gridStep, marginKnots).Err? ==>
        r == Err(Span(step, largest, gridStep, marginKnots).error)
    ensures Span(step, largest, gridStep, marginKnots).Ok? ==>
      r.Ok? && Built(r.value, step, Span(step, largest, gridStep, marginKnots).value, draw)
  {
    var spanned := Span(step, largest, gridStep, marginKnots);
    if spanned.Err? { return Err(spanned.error); }
    SpanParts(step, largest, gridStep, marginKnots);
    hide Span, Wrapped;
    var span := spanned.value;
    QuotientNonNegative(span, step);
    var rows := span / step + 2;
    var jitter := step * 2 / 5;
    var timestamps: seq<int> := [];
    for i := 0 to rows
      invariant |timestamps| == i
      invariant forall j :: 0 <= j < i ==> timestamps[j] == Wrapped(Instant(step, draw, j))
    {
      var base := ANCHOR + i * step;
      var t := if i == 0 || jitter == 0 then base else base + draw(i);
      timestamps := timestamps + [Wrapped(t)];
    }
    return Ok(Corpus(Info(rows, step, timestamps[0], timestamps[rows - 1]), timestamps));
  }

  // ---------- ascending, and long enough ----------

  ghost predicate StrictlyAscending(ts: seq<int>) {
    forall i, j :: 0 <= i < j < |ts| ==> ts[i] < ts[j]
  }

  /** Jitter is under half a step, so no draws can reorder the knots. */
  lemma InstantsRise(step: int, draw: nat -> int, i: nat, j: nat)
    requires step > 0 && Draws(draw, step) && i < j
    ensures Instant(step, draw, i) < Instant(step, draw, j)
    ensures Instant(step, draw, j) >= ANCHOR + j * step - Jitter(step)
    ensures Instant(step, draw, j) <= ANCHOR + j * step + Jitter(step)
  {
    MulMonotone(i + 1, j, step);
    assert (i + 1) * step == i * step + step;
    assert -Jitter(step) <= draw(i) <= Jitter(step) && -Jitter(step) <= draw(j) <= Jitter(step);
  }

  lemma WrappedIs(x: int)
    requires I64_MIN <= x <= I64_MAX + 0x1_0000_0000_0000_0000
    ensures Wrapped(x) == if x <= I64_MAX then x else x - 0x1_0000_0000_0000_0000
  {}

  /** The last knot's offset: at least one step past the span, at most two. */
  lemma LastOffset(step: int, span: int)
    requires step > 0 && span >= 0
    ensures span < (span / step + 1) * step <= span + step
    ensures span / step >= 0
  {
    assert span == span / step * step + span % step;
    assert (span / step + 1) * step == span / step * step + step;
    QuotientNonNegative(span, step);
  }

  /** The last knot still fits 64 bits. */
  ghost predicate LastFits(step: int, span: int, draw: nat -> int)
    requires step > 0 && span >= 0
  {
    QuotientNonNegative(span, step);
    Instant(step, draw, span / step + 1) <= I64_MAX
  }

  /** The stored knots are strictly ascending, whatever the draws, exactly when the last one fits:
      the instants themselves are added without an overflow check. */
  lemma Ascends(c: Corpus, step: int, largest: nat, gridStep: int, marginKnots: int, draw: nat -> int)
    requires Settings(largest, gridStep, marginKnots) && Span(step, largest, gridStep, marginKnots).Ok?
    requires Draws(draw, step) && Built(c, step, Span(step, largest, gridStep, marginKnots).value, draw)
    ensures (forall i, j :: 0 <= i < j < |c.timestamps| ==> c.timestamps[i] < c.timestamps[j])
      <==> LastFits(step, Span(step, largest, gridStep, marginKnots).value, draw)
    ensures c.info.first == 1_577_836_800_000_000_000
    ensures LastFits(step, Span(step, largest, gridStep, marginKnots).value, draw) ==>
      c.info.last > ANCHOR + Span(step, largest, gridStep, marginKnots).value - Jitter(step)
    ensures !LastFits(step, Span(step, largest, gridStep, marginKnots).value, draw) ==> c.info.last < 0
  {
    SpanParts(step, largest, gridStep, marginKnots);
    var span := Span(step, largest, gridStep, marginKnots).value;
    assert 6 * step <= span <= I64_MAX;
    hide Span, Wrapped, Width;
    LastOffset(step, span);
    var n := span / step + 1;
    var ts := c.timestamps;
    assert Instant(step, draw, 0) == ANCHOR;
    WrappedIs(ANCHOR);
    InstantsRise(step, draw, 0, n);
    WrappedIs(Instant(step, draw, n));
    if LastFits(step, span, draw) {
      forall i, j | 0 <= i < j < |ts| ensures ts[i] < ts[j] {
        InstantsRise(step, draw, i, j);
        if i > 0 { InstantsRise(step, draw, 0, i); }
        if j < n { InstantsRise(step, draw, j, n); }
        WrappedIs(Instant(step, draw, i));
        WrappedIs(Instant(step, draw, j));
      }
    } else {
      assert ts[0] == ANCHOR && ts[n] < 0;
    }
  }

  /** The corpus covers the largest window with both margins inside it, and every smaller one,
      exactly when its last knot fits 64 bits. */
  lemma CoversEverySize(c: Corpus, step: int, largest: nat, gridStep: int, marginKnots: int, draw: nat -> int,
        size: nat)
    requires Settings(largest, gridStep, marginKnots) && Span(step, largest, gridStep, marginKnots).Ok?
    requires Draws(draw, step) && Built(c, step, Span(step, largest, gridStep, marginKnots).value, draw)
    requires 2 <= size <= largest
    ensures WindowOf(c.info, size, gridStep, marginKnots).Ok? <==>
        LastFits(step, Span(step, largest, gridStep, marginKnots).value, draw)
    ensures LastFits(step, Span(step, largest, gridStep, marginKnots).value, draw) ==>
      var w := WindowOf(c.info, size, gridStep, marginKnots).value;
      w.margin == step * marginKnots && c.info.first + w.margin == w.start < w.end
      && w.end - w.start == (size - 1) * gridStep && w.end + w.margin < c.info.last
  {
    SpanParts(step, largest, gridStep, marginKnots);
    Ascends(c, step, largest, gridStep, marginKnots, draw);
    MulMonotone(size - 1, largest - 1, gridStep);
    Positive(size - 1, gridStep);
    hide Span, LastFits;
  }

  /** No draws at all can break the corpus exactly when its last knot fits with the whole jitter
      added: a check on the settings alone. */
  lemma SafeForEveryDraw(step: int, span: int)
    requires step > 0 && span >= 0
    ensures (forall draw: nat -> int :: Draws(draw, step) ==> LastFits(step, span, draw))
      <==> ANCHOR + (span / step + 1) * step + step * 2 / 5 <= I64_MAX
  {
    QuotientNonNegative(span, step);
    var n := span / step + 1;
    var most: nat -> int := i => Jitter(step);
    assert Draws(most, step);
    assert Instant(step, most, n) == ANCHOR + n * step + Jitter(step);
    forall draw: nat -> int | Draws(draw, step) ensures Instant(step, draw, n) <= ANCHOR + n * step + Jitter(step) {
      InstantsRise(step, draw, 0, n);
    }
  }

  /** Settings that pass every check and wrap whatever the draws: knots 1.2e18 nanoseconds apart. */
  lemma WideStepWraps(c: Corpus, draw: nat -> int)
    requires Draws(draw, 1_200_000_000_000_000_000)
    requires Built(c, 1_200_000_000_000_000_000, 7_200_000_000_000_000_001, draw)
    ensures Settings(2, 1, 1) && Span(1_200_000_000_000_000_000, 2, 1, 1) == Ok(7_200_000_000_000_000_001)
    ensures !StrictlyAscending(c.timestamps) && WindowOf(c.info, 2, 1, 1).Err?
  {
    var step := 1_200_000_000_000_000_000;
    assert Width(2, 1) == Ok(1);
    assert step * (2 * 1 + 4) == 7_200_000_000_000_000_000;
    Ascends(c, step, 2, 1, 1, draw);
    CoversEverySize(c, step, 2, 1, 1, draw, 2);
    assert !LastFits(step, 7_200_000_000_000_000_001, draw) by { InstantsRise(step, draw, 0, 7); }
  }
}
