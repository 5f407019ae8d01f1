/** The ingest growth curve: one store takes the tiled corpus up to each checkpoint, and each
    checkpoint is checked against the corpus. */
module Growth {
  import opened Wrappers
  import opened Integers
  import opened Tiling

  const GROWTH_VERIFY_ROWS: nat := 65536

  datatype GrowthPoint = GrowthPoint(rowsTotal: nat, rowsStage: nat, rowsVerified: nat, outputCountOk: bool)

  predicate AdjacentRising(s: seq<int>) {
    forall i :: 0 <= i < |s| - 1 ==> s[i] < s[i + 1]
  }

  /** The checks the run makes before it seals anything (that the last checkpoint is at least 2
      follows from the first being so). */
  predicate Accepted(timestamps: seq<int>, values: seq<real>, batch: nat, checkpoints: seq<nat>) {
    && |timestamps| >= 2
    && |timestamps| == |values|
    && batch > 0
    && checkpoints != [] && checkpoints[0] >= 2 && AdjacentRising(checkpoints)
    && Wrapped(timestamps[1] - timestamps[0]) > 0 && AdjacentRising(timestamps)
    && checkpoints[|checkpoints| - 1] >= 2
    && Timestamp(Corpus(timestamps, values), checkpoints[|checkpoints| - 1] - 1).Ok?
  }

  function Corpus(timestamps: seq<int>, values: seq<real>): Tiled
    requires |timestamps| >= 2
  {
    Tiled(timestamps, values, PeriodOf(timestamps))
  }

  lemma {:induction false} AdjacentIsStrict(s: seq<int>, i: nat, j: nat)
    requires AdjacentRising(s) && i < j < |s|
    ensures s[i] < s[j]
    decreases j
  {
    assert s[j - 1] < s[j - 1 + 1];
    if i == j - 1 {
    } else {
      AdjacentIsStrict(s, i, j - 1);
    }
  }

  /** The checks, row by row: two rows or more, as many values; a batch size; strictly rising checkpoints
      of at least two rows; strictly rising instants, the first two at most a 64-bit number apart; and a
      timestamp for the last row. */
  lemma AcceptedIs(timestamps: seq<int>, values: seq<real>, batch: nat, checkpoints: seq<nat>)
    requires forall t :: t in timestamps ==> IsI64(t)
    ensures Accepted(timestamps, values, batch, checkpoints) <==>
        && 2 <= |timestamps| == |values| && batch > 0 && checkpoints != []
        && (forall k :: 0 <= k < |checkpoints| ==> checkpoints[k] >= 2)
        && (forall k, l :: 0 <= k < l < |checkpoints| ==> checkpoints[k] < checkpoints[l])
        && (forall i, j :: 0 <= i < j < |timestamps| ==> timestamps[i] < timestamps[j])
        && timestamps[1] - timestamps[0] <= 0x7fff_ffff_ffff_ffff
        && Timestamp(Corpus(timestamps, values), checkpoints[|checkpoints| - 1] - 1).Ok?
  {
    hide Timestamp, PeriodOf, Wrapped;
    AdjacentPairs(timestamps);
    AdjacentPairs(checkpoints);
    hide AdjacentRising;
    if |timestamps| >= 2 && timestamps[0] < timestamps[1] { StridePositive(timestamps[0], timestamps[1]); }
    if |timestamps| >= 2 && AdjacentRising(timestamps) { assert timestamps[0] < timestamps[1]; }
    if checkpoints != [] && checkpoints[0] >= 2 && AdjacentRising(checkpoints) {
      forall k | 0 <= k < |checkpoints| ensures checkpoints[k] >= 2 {
        if k > 0 { assert checkpoints[0] < checkpoints[k]; }
      }
    }
  }

  lemma AdjacentPairs(s: seq<int>)
    ensures AdjacentRising(s) <==> forall i, j :: 0 <= i < j < |s| ==> s[i] < s[j]
  {
    if AdjacentRising(s) {
      forall i, j | 0 <= i < j < |s| ensures s[i] < s[j] { AdjacentIsStrict(s, i, j); }
    }
  }

  lemma StridePositive(a: int, b: int)
    requires IsI64(a) && IsI64(b) && a < b
    ensures Wrapped(b - a) > 0 <==> b - a <= 0x7fff_ffff_ffff_ffff
  {}

  lemma AcceptedIsFormed(timestamps: seq<int>, values: seq<real>, batch: nat, checkpoints: seq<nat>)
    requires Accepted(timestamps, values, batch, checkpoints) && forall t :: t in timestamps ==> IsI64(t)
    ensures Formed(Corpus(timestamps, values))
    ensures forall k, l :: 0 <= k < l < |checkpoints| ==> 2 <= checkpoints[k] < checkpoints[l]
    ensures checkpoints != [] && checkpoints[0] >= 2 && checkpoints[|checkpoints| - 1] >= 2 && batch > 0
    ensures Timestamp(Corpus(timestamps, values), checkpoints[|checkpoints| - 1] - 1).Ok?
  {
    hide Timestamp, PeriodOf, Wrapped;
    forall i, j | 0 <= i < j < |timestamps|
      ensures timestamps[i] < timestamps[j]
    {
      AdjacentIsStrict(timestamps, i, j);
    }
    forall k, l | 0 <= k < l < |checkpoints| ensures 2 <= checkpoints[k] < checkpoints[l] {
      if k > 0 { AdjacentIsStrict(checkpoints, 0, k); }
      AdjacentIsStrict(checkpoints, k, l);
    }
    if |checkpoints| > 1 { AdjacentIsStrict(checkpoints, 0, |checkpoints| - 1); }
  }

  /** Rows `from..to` of the corpus, compared one copy at a time. */
  method ExpectedRows(c: Tiled, from: nat, to: nat) returns (rows: seq<Row>)
    requires Formed(c) && from <= to && Stamped(c, to)
    ensures rows == Rows(c, from, to)
  {
    hide Timestamp, Window, At, Formed;
    var n := CorpusSize(c);
    var at := from;
    rows := [];
    while at < to
      invariant from <= at <= to && rows == Rows(c, from, at)
    {
      var end := BatchEnd(at, to - at, to, n);
      BatchFits(at, to - at, to, n);
      WindowGives(c, at, end);
      RowsJoin(c, from, at, end);
      rows := rows + Window(c, at, end).value;
      at := end;
    }
  }

  /** The store's own account: row count, first and last instant, and whether its rows are in
      strictly rising order. */
  method AspectStats(store: SegmentStore) returns (total: nat, span: Option<(int, int)>, ordered: bool)
    ensures total == |store.rows|
    ensures span == if store.rows == [] then None else Some((store.rows[0].at, store.rows[|store.rows| - 1].at))
    ensures ordered == InOrder(store.rows)
  {
    total := |store.rows|;
    span := if store.rows == [] then None else Some((store.rows[0].at, store.rows[|store.rows| - 1].at));
    ordered := InOrder(store.rows);
  }

  /** The store accounts for exactly `checkpoint` rows: their number, their span and their order. */
  ghost predicate Accounts(c: Tiled, stored: seq<Row>, checkpoint: nat)
    requires Formed(c) && checkpoint >= 2
  {
    |stored| == checkpoint && stored[0].at == At(c, 0) && stored[checkpoint - 1].at == At(c, checkpoint - 1)
      && InOrder(stored)
  }

  /** A read of the span of rows `from..to` gives exactly them. */
  ghost predicate ReadsBack(c: Tiled, stored: seq<Row>, from: nat, to: nat)
    requires Formed(c) && from < to
  {
    Between(stored, At(c, from), At(c, to - 1)) == Rows(c, from, to)
  }

  function VerifyWindow(checkpoint: nat): nat {
    if GROWTH_VERIFY_ROWS <= checkpoint then GROWTH_VERIFY_ROWS else checkpoint
  }

  /** The check at one checkpoint, of any store: whether it accounts for its rows, and whether its
      first and its last window read back. */
  method CheckStage(c: Tiled, store: SegmentStore, checkpoint: nat)
    returns (accounted: bool, exact: bool, verified: nat)
    requires Formed(c) && checkpoint >= 2 && Stamped(c, checkpoint)
    ensures accounted <==> Accounts(c, store.rows, checkpoint)
    ensures var w := VerifyWindow(checkpoint);
      exact <==> ReadsBack(c, store.rows, 0, w) && ReadsBack(c, store.rows, checkpoint - w, checkpoint)
    ensures exact ==> verified == 2 * VerifyWindow(checkpoint)
  {
    accounted := CheckAccount(c, store, checkpoint);
    exact, verified := CheckWindows(c, store, checkpoint);
  }

  method CheckAccount(c: Tiled, store: SegmentStore, checkpoint: nat) returns (accounted: bool)
    requires Formed(c) && checkpoint >= 2 && Stamped(c, checkpoint)
    ensures accounted <==> Accounts(c, store.rows, checkpoint)
  {
    assert c.timestamps != [];
    hide Timestamp, At, Formed, InOrder;
    var total, span, ordered := AspectStats(store);
    TimestampIsAt(c, 0);
    TimestampIsAt(c, checkpoint - 1);
    var first, last := Timestamp(c, 0), Timestamp(c, checkpoint - 1);
    accounted := total == checkpoint && span == Some((first.value, last.value)) && ordered;
  }

  method CheckWindows(c: Tiled, store: SegmentStore, checkpoint: nat) returns (exact: bool, verified: nat)
    requires Formed(c) && checkpoint >= 2 && Stamped(c, checkpoint)
    ensures var w := VerifyWindow(checkpoint);
      exact <==> ReadsBack(c, store.rows, 0, w) && ReadsBack(c, store.rows, checkpoint - w, checkpoint)
    ensures exact ==> verified == 2 * VerifyWindow(checkpoint)
  {
    assert c.timestamps != [];
    hide Formed, Stamped, ReadsBack;
    var w := VerifyWindow(checkpoint);
    exact, verified := true, 0;
    for i := 0 to 2
      invariant i > 0 ==> (exact ==> ReadsBack(c, store.rows, 0, w))
      invariant i > 1 ==> (exact ==> ReadsBack(c, store.rows, checkpoint - w, checkpoint))
      invariant !exact ==>
          i > 0 && !(ReadsBack(c, store.rows, 0, w) && ReadsBack(c, store.rows, checkpoint - w, checkpoint))
      invariant exact ==> verified == i * w
    {
      var from, to := if i == 0 then 0 else checkpoint - w, if i == 0 then w else checkpoint;
      var read, same := ReadBack(c, store, checkpoint, from, to);
      exact := exact && same;
      verified := verified + read;
    }
  }

  /** Reads the span of rows `from..to` back from any store and compares it with the corpus. */
  method ReadBack(c: Tiled, store: SegmentStore, checkpoint: nat, from: nat, to: nat) returns (read: nat, same: bool)
    requires Formed(c) && from < to <= checkpoint && Stamped(c, checkpoint)
    ensures same <==> ReadsBack(c, store.rows, from, to)
    ensures same ==> read == to - from
  {
    assert c.timestamps != [];
    hide Timestamp, At, Formed, Between;
    TimestampIsAt(c, from);
    TimestampIsAt(c, to - 1);
    var lo, hi := Timestamp(c, from), Timestamp(c, to - 1);
    var rows := store.ReadTimeRange(lo.value, hi.value);
    var expected := ExpectedRows(c, from, to);
    return |rows|, rows == expected;
  }

  /** What the gate at a checkpoint asks of the store. */
  ghost predicate StagePasses(c: Tiled, stored: seq<Row>, checkpoint: nat)
    requires Formed(c) && checkpoint >= 2
  {
    var w := VerifyWindow(checkpoint);
    Accounts(c, stored, checkpoint) && ReadsBack(c, stored, 0, w) && ReadsBack(c, stored, checkpoint - w, checkpoint)
  }

  /** The stores that pass: `checkpoint` rows in rising order, the first and the last window of them
      the corpus's own. */
  lemma PassesExactly(c: Tiled, stored: seq<Row>, checkpoint: nat)
    requires Tiles(c, checkpoint) && checkpoint >= 2
    ensures var w := if checkpoint <= 65536 then checkpoint else 65536;
      StagePasses(c, stored, checkpoint) <==>
        |stored| == checkpoint && InOrder(stored) && stored[..w] == Rows(c, 0, w)
          && stored[checkpoint - w..] == Rows(c, checkpoint - w, checkpoint)
  {
    hide StagePasses, InOrder;
    if StagePasses(c, stored, checkpoint) { PassingWindows(c, stored, checkpoint); }
    if |stored| == checkpoint && InOrder(stored) { WindowsPass(c, stored, checkpoint); }
  }

  lemma PassingWindows(c: Tiled, stored: seq<Row>, checkpoint: nat)
    requires Formed(c) && checkpoint >= 2 && StagePasses(c, stored, checkpoint)
    ensures |stored| == checkpoint && InOrder(stored)
    ensures var w := VerifyWindow(checkpoint);
      stored[..w] == Rows(c, 0, w) && stored[checkpoint - w..] == Rows(c, checkpoint - w, checkpoint)
  {
    assert c.timestamps != [];
    hide At, Between, Formed, InOrder, Rows, ReadsBack;
    FirstWindow(c, stored, VerifyWindow(checkpoint));
    LastWindow(c, stored, VerifyWindow(checkpoint));
  }

  lemma FirstWindow(c: Tiled, stored: seq<Row>, w: nat)
    requires Formed(c) && 0 < w <= |stored| && InOrder(stored) && stored[0].at == At(c, 0) && ReadsBack(c, stored, 0, w)
    ensures stored[..w] == Rows(c, 0, w)
  {
    assert c.timestamps != [];
    hide At, Between, Formed, InOrder;
    BetweenPrefix(stored, At(c, 0), At(c, w - 1));
  }

  lemma LastWindow(c: Tiled, stored: seq<Row>, w: nat)
    requires Formed(c) && 0 < w <= |stored| && InOrder(stored) && stored[|stored| - 1].at == At(c, |stored| - 1)
    requires ReadsBack(c, stored, |stored| - w, |stored|)
    ensures stored[|stored| - w..] == Rows(c, |stored| - w, |stored|)
  {
    assert c.timestamps != [];
    hide At, Between, Formed, InOrder;
    var k := BetweenSuffix(stored, At(c, |stored| - w), At(c, |stored| - 1));
  }

  lemma SliceReads(c: Tiled, stored: seq<Row>, a: nat, b: nat)
    requires Formed(c) && InOrder(stored) && a < b <= |stored| && stored[a..b] == Rows(c, a, b)
    ensures ReadsBack(c, stored, a, b) && stored[a].at == At(c, a) && stored[b - 1].at == At(c, b - 1)
  {
    assert c.timestamps != [];
    hide At, Between, Formed, InOrder;
    assert stored[a] == stored[a..b][0] == RowAt(c, a) && stored[b - 1] == stored[a..b][b - 1 - a] == RowAt(c, b - 1);
    BetweenSlice(stored, a, b);
  }

  lemma WindowsPass(c: Tiled, stored: seq<Row>, checkpoint: nat)
    requires Formed(c) && checkpoint >= 2 && |stored| == checkpoint && InOrder(stored)
    ensures var w := VerifyWindow(checkpoint);
      stored[..w] == Rows(c, 0, w) && stored[checkpoint - w..] == Rows(c, checkpoint - w, checkpoint) ==>
        StagePasses(c, stored, checkpoint)
  {
    assert c.timestamps != [];
    hide At, Between, Formed, InOrder, Rows, ReadsBack;
    var w := VerifyWindow(checkpoint);
    if stored[..w] == Rows(c, 0, w) && stored[checkpoint - w..] == Rows(c, checkpoint - w, checkpoint) {
      assert stored[0..w] == stored[..w] && stored[checkpoint - w..checkpoint] == stored[checkpoint - w..];
      SliceReads(c, stored, 0, w);
      SliceReads(c, stored, checkpoint - w, checkpoint);
    }
  }

  lemma FrontInOrder(rows: seq<Row>)
    requires InOrder(rows) && rows != []
    ensures InOrder(rows[..|rows| - 1])
    ensures forall k :: 0 <= k < |rows| - 1 ==> rows[0].at <= rows[k].at < rows[|rows| - 1].at
  {
    var front := rows[..|rows| - 1];
    forall i | 0 <= i < |front| - 1 ensures front[i].at < front[i + 1].at { assert rows[i].at < rows[i + 1].at; }
    forall k | 0 <= k < |rows| - 1 ensures rows[0].at <= rows[k].at < rows[|rows| - 1].at {
      InOrderFar(rows, 0, k);
      InOrderFar(rows, k, |rows| - 1);
    }
  }

  /** Of rows in order, a read from the first row's instant is a prefix. */
  lemma {:induction false} BetweenPrefix(rows: seq<Row>, lo: int, hi: int)
    requires InOrder(rows) && (rows != [] ==> lo <= rows[0].at)
    ensures |Between(rows, lo, hi)| <= |rows| && Between(rows, lo, hi) == rows[..|Between(rows, lo, hi)|]
  {
    if rows == [] {
    } else {
      var front, last := rows[..|rows| - 1], rows[|rows| - 1];
      FrontInOrder(rows);
      hide InOrder;
      BetweenPrefix(front, lo, hi);
      if lo <= last.at <= hi { BetweenAll(front, lo, hi); }
    }
  }

  /** And a read up to the last row's instant is a suffix. */
  lemma {:induction false} BetweenSuffix(rows: seq<Row>, lo: int, hi: int) returns (k: nat)
    requires InOrder(rows) && (rows != [] ==> rows[|rows| - 1].at <= hi)
    ensures k <= |rows| && Between(rows, lo, hi) == rows[k..]
  {
    if rows == [] || rows[|rows| - 1].at < lo {
      k := |rows|;
      NoneReached(rows, lo, hi);
    } else {
      var front, last := rows[..|rows| - 1], rows[|rows| - 1];
      FrontInOrder(rows);
      hide InOrder;
      k := BetweenSuffix(front, lo, hi);
      hide Between;
      BetweenSnoc(rows, lo, hi);
      assert rows[k..] == front[k..] + [last];
    }
  }

  lemma BetweenSnoc(rows: seq<Row>, lo: int, hi: int)
    requires rows != [] && lo <= rows[|rows| - 1].at <= hi
    ensures Between(rows, lo, hi) == Between(rows[..|rows| - 1], lo, hi) + [rows[|rows| - 1]]
  {}

  lemma NoneReached(rows: seq<Row>, lo: int, hi: int)
    requires InOrder(rows) && (rows != [] ==> rows[|rows| - 1].at < lo)
    ensures Between(rows, lo, hi) == []
  {
    hide InOrder, Between;
    forall k | 0 <= k < |rows| ensures rows[k].at < lo { InOrderFar(rows, k, |rows| - 1); }
    BetweenNone(rows, lo, hi);
  }

  lemma {:induction false} InOrderFar(rows: seq<Row>, i: nat, j: nat)
    requires InOrder(rows) && i <= j < |rows|
    ensures i < j ==> rows[i].at < rows[j].at
    ensures rows[i].at <= rows[j].at
  {
    if i == j {
    } else {
      InOrderFar(rows, i, j - 1);
      assert rows[j - 1].at < rows[j - 1 + 1].at;
    }
  }

  /** Of rows in order, a read from row `a`'s instant to row `b - 1`'s is rows `a..b`. */
  lemma BetweenSlice(rows: seq<Row>, a: nat, b: nat)
    requires InOrder(rows) && a < b <= |rows|
    ensures Between(rows, rows[a].at, rows[b - 1].at) == rows[a..b]
  {
    hide InOrder, Between;
    var lo, hi := rows[a].at, rows[b - 1].at;
    assert rows == rows[..a] + rows[a..b] + rows[b..];
    BetweenJoin(rows[..a] + rows[a..b], rows[b..], lo, hi);
    BetweenJoin(rows[..a], rows[a..b], lo, hi);
    forall k | 0 <= k < a ensures rows[k].at < lo { InOrderFar(rows, k, a); }
    forall k | a <= k < b ensures lo <= rows[k].at <= hi { InOrderFar(rows, a, k); InOrderFar(rows, k, b - 1); }
    forall k | b <= k < |rows| ensures hi < rows[k].at { InOrderFar(rows, b - 1, k); }
    BetweenNone(rows[..a], lo, hi);
    BetweenAll(rows[a..b], lo, hi);
    BetweenNone(rows[b..], lo, hi);
  }

  /** A store holding exactly the checkpoint's rows passes; and while the two windows cover all of
      them, no other store does. */
  lemma ExactRowsPass(c: Tiled, stored: seq<Row>, checkpoint: nat)
    requires Tiles(c, checkpoint) && checkpoint >= 2
    ensures stored == Rows(c, 0, checkpoint) ==> StagePasses(c, stored, checkpoint)
    ensures checkpoint <= 131072 && StagePasses(c, stored, checkpoint) ==>
        stored == Rows(c, 0, checkpoint)
  {
    assert c.timestamps != [];
    hide At, InOrder, StagePasses, Formed, PeriodHolds;
    RowsInOrder(c, checkpoint);
    PassesExactly(c, stored, checkpoint);
    var w := VerifyWindow(checkpoint);
    var rows := Rows(c, 0, checkpoint);
    assert rows[..w] == Rows(c, 0, w) && rows[checkpoint - w..] == Rows(c, checkpoint - w, checkpoint);
    if checkpoint <= 2 * GROWTH_VERIFY_ROWS && StagePasses(c, stored, checkpoint) {
      hide *;
      SameEnds(stored, rows, w);
    }
  }

  /** Two windows that meet are the whole. */
  lemma SameEnds(a: seq<Row>, b: seq<Row>, w: nat)
    requires w <= |a| == |b| <= 2 * w
    requires a[..w] == b[..w] && a[|a| - w..] == b[|a| - w..]
    ensures a == b
  {
    var n := |a|;
    assert a[w..] == a[n - w..][2 * w - n..] && b[w..] == b[n - w..][2 * w - n..];
    assert a == a[..w] + a[w..] && b == b[..w] + b[w..];
  }

  /** Rows sealed before the stage that reaches checkpoint `k`. */
  function Before(checkpoints: seq<nat>, k: nat): nat
    requires k <= |checkpoints|
  {
    if k == 0 then 0 else checkpoints[k - 1]
  }

  /** What a stage that loses nothing reports. */
  function PassedStage(before: nat, checkpoint: nat): GrowthPoint
    requires before <= checkpoint
  {
    GrowthPoint(checkpoint, checkpoint - before, 2 * VerifyWindow(checkpoint), true)
  }

  /** At checkpoint `k` the store held exactly the checkpoint's rows, and the point says whether that
      passes. */
  ghost predicate Reported(c: Tiled, checkpoints: seq<nat>, k: nat, held: seq<Row>, point: GrowthPoint)
    requires Formed(c) && k < |checkpoints|
  {
    && Before(checkpoints, k) < checkpoints[k] && checkpoints[k] >= 2
    && held == Rows(c, 0, checkpoints[k])
    && StageReport(c, held, Before(checkpoints, k), checkpoints[k], point)
  }

  ghost predicate StageReport(c: Tiled, held: seq<Row>, before: nat, checkpoint: nat, point: GrowthPoint)
    requires Formed(c) && before < checkpoint && checkpoint >= 2
  {
    && (point.outputCountOk <==> StagePasses(c, held, checkpoint))
    && (point.outputCountOk ==> point == PassedStage(before, checkpoint))
    && point.rowsTotal == checkpoint && point.rowsStage == checkpoint - before
  }

  lemma ReportIs(c: Tiled, held: seq<Row>, before: nat, checkpoint: nat, accounted: bool, exact: bool, verified: nat)
    requires Formed(c) && before < checkpoint && checkpoint >= 2
    requires accounted <==> Accounts(c, held, checkpoint)
    requires
      var w := VerifyWindow(checkpoint);
      exact <==> ReadsBack(c, held, 0, w) && ReadsBack(c, held, checkpoint - w, checkpoint)
    requires exact ==> verified == 2 * VerifyWindow(checkpoint)
    ensures StageReport(c, held, before, checkpoint,
        GrowthPoint(checkpoint, checkpoint - before, verified, accounted && exact))
  {
    hide Formed, Accounts, ReadsBack;
  }

  method RunStage(c: Tiled, store: SegmentStore, mark: Watermark, sealed: nat, checkpoint: nat, batch: nat)
    returns (r: Result<GrowthPoint, Error>, ghost ends: seq<nat>)
    requires Formed(c) && batch > 0 && sealed < checkpoint && checkpoint >= 2 && Stamped(c, sealed)
    requires store.rows == Rows(c, 0, sealed) && mark.sealed <= sealed
    modifies store, mark
    ensures store.rows == Rows(c, 0, |store.rows|)
    ensures r.Ok? <==> Stamped(c, checkpoint)
    ensures r.Ok? ==>
        store.rows == Rows(c, 0, checkpoint) && mark.sealed == checkpoint
          && StageReport(c, store.rows, sealed, checkpoint, r.value)
    ensures Batches(ends, sealed, checkpoint, batch, |c.timestamps|)
  {
    assert c.timestamps != [];
    hide Timestamp, At, Formed, StageReport, Rows, Accounts, ReadsBack, Batches;
    var reached: Result<nat, Error>;
    reached, ends := SealTiled(c, store, mark, sealed, checkpoint, batch);
    if reached.Err? { return Err(reached.error), ends; }
    var accounted, exact, verified := CheckStage(c, store, checkpoint);
    ReportIs(c, store.rows, sealed, checkpoint, accounted, exact, verified);
    return Ok(GrowthPoint(checkpoint, checkpoint - sealed, verified, accounted && exact)), ends;
  }

  /** Each stage's batches, one stage after another. */
  ghost predicate CutUp(cuts: seq<seq<nat>>, checkpoints: seq<nat>, batch: nat, n: nat)
    requires n > 0
  {
    |cuts| <= |checkpoints| &&
    forall k :: 0 <= k < |cuts| ==> Batches(cuts[k], Before(checkpoints, k), checkpoints[k], batch, n)
  }

  lemma CutOn(cuts: seq<seq<nat>>, ends: seq<nat>, checkpoints: seq<nat>, batch: nat, n: nat)
    requires n > 0 && CutUp(cuts, checkpoints, batch, n) && |cuts| < |checkpoints|
    requires Batches(ends, Before(checkpoints, |cuts|), checkpoints[|cuts|], batch, n)
    ensures CutUp(cuts + [ends], checkpoints, batch, n)
  {
    hide Batches, Before;
  }

  /** Checkpoint `k` passed. */
  ghost predicate Passed(c: Tiled, checkpoints: seq<nat>, k: nat, held: seq<Row>, point: GrowthPoint)
    requires Formed(c) && k < |checkpoints|
  {
    Before(checkpoints, k) < checkpoints[k] && held == Rows(c, 0, checkpoints[k])
      && point == PassedStage(Before(checkpoints, k), checkpoints[k])
  }

  ghost predicate AllPassed(c: Tiled, checkpoints: seq<nat>, held: seq<seq<Row>>, points: seq<GrowthPoint>)
    requires Formed(c)
  {
    |points| == |held| == |checkpoints| && forall k {:trigger points[k]} :: 0 <= k < |checkpoints| ==>
      Passed(c, checkpoints, k, held[k], points[k])
  }

  /** Runs the curve over a fresh store. It is refused exactly when one of its checks fails, and gets
      through exactly when besides every row has a timestamp; then at every checkpoint the store held
      exactly the checkpoint's rows (`held`). It gets through with every checkpoint passed exactly when
      the period held. */
  method RunIngestGrowth(timestamps: seq<int>, values: seq<real>, batch: nat, checkpoints: seq<nat>,
        store: SegmentStore)
    returns (result: Result<seq<GrowthPoint>, Error>, ghost held: seq<seq<Row>>, ghost cuts: seq<seq<nat>>)
    requires store.rows == [] && forall t :: t in timestamps ==> IsI64(t)
    modifies store
    ensures !Accepted(timestamps, values, batch, checkpoints) ==> result == Err(BadInput) && store.rows == []
    ensures Accepted(timestamps, values, batch, checkpoints) ==>
      && Formed(Corpus(timestamps, values))
      && (result.Ok? <==> Stamped(Corpus(timestamps, values), checkpoints[|checkpoints| - 1]))
      && store.rows == Rows(Corpus(timestamps, values), 0, |store.rows|)
    ensures result.Ok? ==> Accepted(timestamps, values, batch, checkpoints) && |result.value| == |held| == |checkpoints|
    ensures result.Ok? ==> forall k {:trigger result.value[k]} :: 0 <= k < |checkpoints| ==>
      Reported(Corpus(timestamps, values), checkpoints, k, held[k], result.value[k])
    ensures Accepted(timestamps, values, batch, checkpoints) ==>
      (PeriodHolds(timestamps, checkpoints[|checkpoints| - 1]) <==>
        result.Ok? && AllPassed(Corpus(timestamps, values), checkpoints, held, result.value))
    ensures result.Ok? ==> |cuts| == |checkpoints| && CutUp(cuts, checkpoints, batch, |timestamps|)
  {
    hide *;
    held, cuts := [], [];
    if !Accepted(timestamps, values, batch, checkpoints) {
      return Err(BadInput), held, cuts;
    }
    ReadyToRun(timestamps, values, batch, checkpoints);
    var c := Corpus(timestamps, values);
    StartsEmpty(c, checkpoints);
    ghost var rows := checkpoints[|checkpoints| - 1];
    var mark := new Watermark();
    var points: seq<GrowthPoint> := [];
    for k := 0 to |checkpoints|
      invariant fresh(mark) && mark.sealed <= Before(checkpoints, k)
      invariant store.rows == Rows(c, 0, Before(checkpoints, k)) && Stamped(c, Before(checkpoints, k))
      invariant |points| == |held| == |cuts| == k && CutUp(cuts, checkpoints, batch, |timestamps|)
      invariant forall l {:trigger points[l]} :: 0 <= l < k ==> Reported(c, checkpoints, l, held[l], points[l])
    {
      BeforeNext(checkpoints, k);
      var point, ends := RunStage(c, store, mark, Before(checkpoints, k), checkpoints[k], batch);
      if point.Err? {
        FailedStage(c, checkpoints, k);
        return Err(point.error), held, cuts;
      }
      StageReported(c, checkpoints, k, store.rows, point.value);
      CutOn(cuts, ends, checkpoints, batch, |timestamps|);
      cuts := cuts + [ends];
      held := held + [store.rows];
      points := points + [point.value];
    }
    BeforeNext(checkpoints, |checkpoints| - 1);
    RowsLength(c, rows);
    AllPassedIs(c, checkpoints, held, points);
    return Ok(points), held, cuts;
  }

  /** What a run that passes the checks starts from. */
  lemma ReadyToRun(timestamps: seq<int>, values: seq<real>, batch: nat, checkpoints: seq<nat>)
    requires Accepted(timestamps, values, batch, checkpoints) && forall t :: t in timestamps ==> IsI64(t)
    ensures |timestamps| >= 2 && batch > 0 && checkpoints != [] && checkpoints[0] >= 2
    ensures forall k, l :: 0 <= k < l < |checkpoints| ==> 2 <= checkpoints[k] < checkpoints[l]
    ensures var c := Corpus(timestamps, values);
      && Formed(c) && c.timestamps == timestamps
      && (PeriodHolds(timestamps, checkpoints[|checkpoints| - 1]) ==> Stamped(c, checkpoints[|checkpoints| - 1]))
    ensures CutUp([], checkpoints, batch, |timestamps|)
  {
    AcceptedIsFormed(timestamps, values, batch, checkpoints);
    NoneCut(checkpoints, batch, |timestamps|);
    var c, rows := Corpus(timestamps, values), checkpoints[|checkpoints| - 1];
    hide Timestamp, At, PeriodOf, PeriodHolds, Batches;
    if PeriodHolds(timestamps, rows) { LastStampsAll(c, rows); }
  }

  lemma StartsEmpty(c: Tiled, checkpoints: seq<nat>)
    requires Formed(c)
    ensures Before(checkpoints, 0) == 0 && Rows(c, 0, 0) == [] && Stamped(c, 0)
  {}

  lemma BeforeNext(checkpoints: seq<nat>, k: nat)
    requires k < |checkpoints| && checkpoints[0] >= 2
    requires forall k, l :: 0 <= k < l < |checkpoints| ==> 2 <= checkpoints[k] < checkpoints[l]
    ensures Before(checkpoints, k) < checkpoints[k] == Before(checkpoints, k + 1) && checkpoints[k] >= 2
  {}

  lemma StageReported(c: Tiled, checkpoints: seq<nat>, k: nat, held: seq<Row>, point: GrowthPoint)
    requires Formed(c) && k < |checkpoints| && Before(checkpoints, k) < checkpoints[k] && checkpoints[k] >= 2
    requires held == Rows(c, 0, checkpoints[k])
    requires StageReport(c, held, Before(checkpoints, k), checkpoints[k], point)
    ensures Reported(c, checkpoints, k, held, point)
  {
    hide StageReport, Formed, Rows;
  }

  /** A stage fails on a row without a timestamp, which the last stage would need too. */
  lemma FailedStage(c: Tiled, checkpoints: seq<nat>, k: nat)
    requires Formed(c) && k < |checkpoints| && !Stamped(c, checkpoints[k])
    requires forall k, l :: 0 <= k < l < |checkpoints| ==> 2 <= checkpoints[k] < checkpoints[l]
    ensures !Stamped(c, checkpoints[|checkpoints| - 1])
  {
    hide Timestamp, Formed;
    assert k < |checkpoints| - 1 ==> checkpoints[k] < checkpoints[|checkpoints| - 1];
  }

  lemma NoneCut(checkpoints: seq<nat>, batch: nat, n: nat)
    requires n > 0
    ensures CutUp([], checkpoints, batch, n)
  {}

  /** Once every stage is reported, all have passed exactly when the period held. */
  lemma AllPassedIs(c: Tiled, checkpoints: seq<nat>, held: seq<seq<Row>>, points: seq<GrowthPoint>)
    requires Formed(c) && checkpoints != [] && |points| == |held| == |checkpoints|
    requires forall k, l :: 0 <= k < l < |checkpoints| ==> checkpoints[k] < checkpoints[l]
    requires forall k {:trigger points[k]} :: 0 <= k < |checkpoints| ==>
        Reported(c, checkpoints, k, held[k], points[k])
    ensures PeriodHolds(c.timestamps, checkpoints[|checkpoints| - 1]) <==> AllPassed(c, checkpoints, held, points)
  {
    var last := |checkpoints| - 1;
    assert PeriodHolds(c.timestamps, checkpoints[last]) ==> Tiles(c, checkpoints[last]);
    hide Reported, Passed, PeriodHolds, Formed, Tiles;
    if PeriodHolds(c.timestamps, checkpoints[last]) {
      forall k | 0 <= k < |checkpoints| ensures Passed(c, checkpoints, k, held[k], points[k]) {
        assert k < last ==> checkpoints[k] < checkpoints[last];
        TiledStagePasses(c, checkpoints, k, held[k], points[k]);
      }
    } else {
      LastStageFails(c, checkpoints, held[last], points[last]);
      assert points[last] == points[last];
    }
  }

  lemma TiledStagePasses(c: Tiled, checkpoints: seq<nat>, k: nat, held: seq<Row>, point: GrowthPoint)
    requires k < |checkpoints| && checkpoints[k] <= checkpoints[|checkpoints| - 1]
    requires Tiles(c, checkpoints[|checkpoints| - 1])
    requires Reported(c, checkpoints, k, held, point)
    ensures Passed(c, checkpoints, k, held, point)
  {
    hide StagePasses, Formed, Rows;
    ExactRowsPass(c, held, checkpoints[k]);
  }

  /** Rows that fall, beyond a period that did not fit, never pass. */
  lemma WrappedNeverPasses(c: Tiled, checkpoint: nat)
    requires Formed(c) && checkpoint >= 2 && !PeriodHolds(c.timestamps, checkpoint)
    ensures !StagePasses(c, Rows(c, 0, checkpoint), checkpoint)
  {
    RowsFall(c, checkpoint);
    hide Formed, ReadsBack, Rows, InOrder;
  }

  lemma RowsFall(c: Tiled, checkpoint: nat)
    requires Formed(c) && !PeriodHolds(c.timestamps, checkpoint)
    ensures !InOrder(Rows(c, 0, checkpoint))
  {
    SecondCopy(c);
    hide At, PeriodOf;
    var n := |c.timestamps|;
    assert Rows(c, 0, checkpoint)[n - 1] == RowAt(c, n - 1) && Rows(c, 0, checkpoint)[n - 1 + 1] == RowAt(c, n);
  }

  lemma LastStageFails(c: Tiled, checkpoints: seq<nat>, held: seq<Row>, point: GrowthPoint)
    requires Formed(c) && checkpoints != [] && !PeriodHolds(c.timestamps, checkpoints[|checkpoints| - 1])
    requires Reported(c, checkpoints, |checkpoints| - 1, held, point)
    ensures !Passed(c, checkpoints, |checkpoints| - 1, held, point)
  {
    WrappedNeverPasses(c, checkpoints[|checkpoints| - 1]);
    hide StagePasses, Formed, Rows, PeriodHolds;
  }

  /** A corpus that passes every check and tiles wrongly: its span and first stride sum beyond 64 bits,
      and row 2 gets an instant below row 1's. */
  lemma WrappedPeriodAccepted(values: seq<real>)
    requires |values| == 2
    ensures var ts := [-5_000_000_000_000_000_000, 4_000_000_000_000_000_000];
      && Accepted(ts, values, 1, [3]) && !PeriodHolds(ts, 3)
      && Timestamp(Corpus(ts, values), 2) == Ok(-5_446_744_073_709_551_616)
      && Timestamp(Corpus(ts, values), 1) == Ok(4_000_000_000_000_000_000)
  {
    var ts := [-5_000_000_000_000_000_000, 4_000_000_000_000_000_000];
    assert PeriodOf(ts) == -446_744_073_709_551_616;
    QuotientIs(2, 2, 1, 0);
    QuotientIs(1, 2, 0, 1);
  }
}
