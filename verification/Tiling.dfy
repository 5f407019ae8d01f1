/** A corpus laid end to end: copy `k` is the corpus shifted by `k` periods, in checked 64-bit
    arithmetic; and the store it is sealed into, as the sequence of its rows. */
module Tiling {
  import opened Wrappers
  import opened Integers

  datatype Row = Row(at: int, value: real)

  datatype Error = Overflow | BadInput

  datatype Tiled = Tiled(timestamps: seq<int>, values: seq<real>, period: int)

  ghost predicate StrictlyRising(ts: seq<int>) {
    forall i, j :: 0 <= i < j < |ts| ==> ts[i] < ts[j]
  }

  /** The span of a corpus plus its first stride. */
  function ExactPeriod(ts: seq<int>): int
    requires |ts| >= 2
  {
    ts[|ts| - 1] - ts[0] + (ts[1] - ts[0])
  }

  /** The period as computed, in unchecked 64-bit arithmetic. */
  function PeriodOf(ts: seq<int>): int
    requires |ts| >= 2
  {
    Wrapped(Wrapped(ts[|ts| - 1] - ts[0]) + Wrapped(ts[1] - ts[0]))
  }

  /** A corpus of at least two rows on strictly rising 64-bit instants, with the period computed
      from them. */
  ghost predicate Formed(c: Tiled) {
    && |c.timestamps| == |c.values| >= 2
    && StrictlyRising(c.timestamps)
    && (forall i :: 0 <= i < |c.timestamps| ==> IsI64(c.timestamps[i]))
    && c.period == PeriodOf(c.timestamps)
  }

  /** The first `rows` rows stay in the first copy, or the period did not overflow. */
  predicate PeriodHolds(ts: seq<int>, rows: nat)
    requires |ts| >= 2
  {
    rows <= |ts| || IsI64(ExactPeriod(ts))
  }

  ghost predicate Tiles(c: Tiled, rows: nat) {
    Formed(c) && PeriodHolds(c.timestamps, rows)
  }

  function Timestamp(c: Tiled, index: nat): Result<int, Error>
    requires c.timestamps != []
  {
    var n := |c.timestamps|;
    var copy := index / n;
    var shift := copy * c.period;
    if copy > I64_MAX || !IsI64(shift) then Err(Overflow)
    else
      var t := c.timestamps[index % n] + shift;
      if IsI64(t) then Ok(t) else Err(Overflow)
  }

  /** The instant of row `i` in unbounded arithmetic. */
  ghost function At(c: Tiled, i: nat): int
    requires c.timestamps != []
  {
    c.timestamps[i % |c.timestamps|] + i / |c.timestamps| * c.period
  }

  ghost function RowAt(c: Tiled, i: nat): Row
    requires Formed(c)
  {
    Row(At(c, i), c.values[i % |c.timestamps|])
  }

  /** Rows `from..to` of the tiled corpus. */
  ghost function Rows(c: Tiled, from: nat, to: nat): (rows: seq<Row>)
    requires Formed(c) && from <= to
    ensures |rows| == to - from
    ensures forall k :: 0 <= k < to - from ==> rows[k] == RowAt(c, from + k)
  {
    seq(to - from, k requires 0 <= k < to - from => RowAt(c, from + k))
  }

  lemma TilesFewer(c: Tiled, rows: nat, fewer: nat)
    requires Tiles(c, rows) && fewer <= rows
    ensures Tiles(c, fewer)
  {}

  // ---------- positions in a copy ----------

  lemma NextIndex(i: nat, n: nat)
    requires n > 0
    ensures (i + 1) / n == if (i + 1) % n == 0 then i / n + 1 else i / n
    ensures (i + 1) % n == if i % n == n - 1 then 0 else i % n + 1
  {
    var q, r := i / n, i % n;
    assert i == q * n + r;
    if r == n - 1 {
      assert i + 1 == (q + 1) * n + 0;
      QuotientIs(i + 1, n, q + 1, 0);
    } else {
      assert i + 1 == q * n + (r + 1);
      QuotientIs(i + 1, n, q, r + 1);
    }
  }

  lemma PeriodExact(ts: seq<int>)
    requires |ts| >= 2 && StrictlyRising(ts) && forall i :: 0 <= i < |ts| ==> IsI64(ts[i])
    ensures PeriodOf(ts) == Wrapped(ExactPeriod(ts))
    ensures IsI64(ExactPeriod(ts)) ==> PeriodOf(ts) == ExactPeriod(ts)
    ensures !IsI64(ExactPeriod(ts)) ==> PeriodOf(ts) < ts[|ts| - 1] - ts[0]
  {
    WrappedSum(ts[|ts| - 1] - ts[0], ts[1] - ts[0]);
    assert ts[0] < ts[1] <= ts[|ts| - 1];
  }

  /** Beyond the first copy of rows that tile, the period is the corpus's span plus its first stride. */
  lemma PeriodBeyond(c: Tiled, rows: nat)
    requires Tiles(c, rows) && rows > |c.timestamps|
    ensures c.period == ExactPeriod(c.timestamps) > c.timestamps[|c.timestamps| - 1] - c.timestamps[0]
  {
    PeriodExact(c.timestamps);
  }

  lemma FirstCopy(c: Tiled, i: nat)
    requires i < |c.timestamps|
    ensures i / |c.timestamps| == 0 && At(c, i) == c.timestamps[i]
  {
    QuotientIs(i, |c.timestamps|, 0, i);
  }

  lemma NextRises(c: Tiled, i: nat)
    requires Tiles(c, i + 2)
    ensures At(c, i) < At(c, i + 1)
  {
    hide PeriodOf, Wrapped;
    var n := |c.timestamps|;
    if i + 2 <= n {
      FirstCopy(c, i);
      FirstCopy(c, i + 1);
    } else {
      NextIndex(i, n);
      PeriodBeyond(c, i + 2);
      var q := i / n;
      assert (q + 1) * c.period == q * c.period + c.period;
    }
  }

  /** Instants rise strictly across all copies. */
  lemma {:induction false} AtRises(c: Tiled, i: nat, j: nat)
    requires Tiles(c, j + 1) && i < j
    ensures At(c, i) < At(c, j)
    decreases j
  {
    NextRises(c, j - 1);
    if i == j - 1 {
    } else {
      AtRises(c, i, j - 1);
    }
  }

  /** The first row of the second copy follows the last of the first exactly when the period did not
      overflow. */
  lemma SecondCopy(c: Tiled)
    requires Formed(c)
    ensures var n := |c.timestamps|; At(c, n - 1) < At(c, n) <==> IsI64(ExactPeriod(c.timestamps))
  {
    var n := |c.timestamps|;
    PeriodExact(c.timestamps);
    hide PeriodOf, Wrapped;
    FirstCopy(c, n - 1);
    QuotientIs(n, n, 1, 0);
  }

  /** The first `rows` rows rise strictly exactly when they lie in one copy or the period is a 64-bit
      number: the period itself is formed without an overflow check. */
  lemma RisesExactly(c: Tiled, rows: nat)
    requires Formed(c)
    ensures (forall i, j :: 0 <= i < j < rows ==> At(c, i) < At(c, j)) <==> PeriodHolds(c.timestamps, rows)
  {
    if PeriodHolds(c.timestamps, rows) {
      forall i, j | 0 <= i < j < rows ensures At(c, i) < At(c, j) { AtRises(c, i, j); }
    } else {
      SecondCopy(c);
    }
  }

  /** A timestamp that is given is the row's own instant. */
  lemma TimestampIsAt(c: Tiled, i: nat)
    requires c.timestamps != [] && Timestamp(c, i).Ok?
    ensures Timestamp(c, i) == Ok(At(c, i))
  {}

  /** When one is given: the copy's number, its shift and the instant all fit 64 bits. */
  lemma TimestampGiven(c: Tiled, i: nat)
    requires c.timestamps != []
    ensures Timestamp(c, i).Ok? <==>
        var copy := i / |c.timestamps|;
        copy <= 0x7fff_ffff_ffff_ffff && IsI64(copy * c.period) && IsI64(At(c, i))
  {}

  lemma StampBelow(c: Tiled, i: nat, last: nat)
    requires c.timestamps != [] && Timestamp(c, last).Ok? && i / |c.timestamps| <= last / |c.timestamps|
    requires IsI64(c.timestamps[i % |c.timestamps|]) && At(c, i) <= At(c, last)
    requires 0 <= i / |c.timestamps| * c.period <= last / |c.timestamps| * c.period
    ensures Timestamp(c, i) == Ok(At(c, i))
  {}

  /** If a timestamp is given for one row it is given for every earlier row. */
  lemma TimestampDownward(c: Tiled, i: nat, last: nat)
    requires Tiles(c, last + 1) && i <= last && Timestamp(c, last).Ok?
    ensures Timestamp(c, i) == Ok(At(c, i))
  {
    hide PeriodOf, Wrapped, At, Timestamp;
    var n := |c.timestamps|;
    if i < last { AtRises(c, i, last); }
    if last < n {
      FirstCopy(c, i);
      FirstCopy(c, last);
    } else {
      PeriodBeyond(c, last + 1);
      QuotientMonotone(i, last, n);
      QuotientNonNegative(i, n);
      MulMonotone(0, i / n, c.period);
      MulMonotone(i / n, last / n, c.period);
    }
    StampBelow(c, i, last);
  }

  /** Every one of the first `rows` rows has a timestamp. */
  ghost predicate Stamped(c: Tiled, rows: nat)
    requires c.timestamps != []
  {
    forall i :: 0 <= i < rows ==> Timestamp(c, i).Ok?
  }

  lemma LastStampsAll(c: Tiled, rows: nat)
    requires Tiles(c, rows) && (rows > 0 ==> Timestamp(c, rows - 1).Ok?)
    ensures Stamped(c, rows)
  {
    hide Timestamp;
    forall i | 0 <= i < rows ensures Timestamp(c, i).Ok? { TimestampDownward(c, i, rows - 1); }
  }

  // ---------- windows and batches ----------

  /** The end of the batch begun at `at`: full, cut by the rows asked for, or by the copy's end. */
  function BatchEnd(at: nat, batch: nat, rows: nat, n: nat): nat
    requires n > 0
  {
    var a := if at + batch <= rows then at + batch else rows;
    var b := (at / n + 1) * n;
    if a <= b then a else b
  }

  /** No batch is empty, none is too long, and none crosses a copy; and each is as long as that lets it
      be. */
  lemma BatchFits(at: nat, batch: nat, rows: nat, n: nat)
    requires n > 0 && batch > 0 && at < rows
    ensures var end := BatchEnd(at, batch, rows, n);
      && at < end <= rows && end - at <= batch && at % n + (end - at) <= n && end <= (at / n + 1) * n
      && (end - at == batch || end == rows || end == (at / n + 1) * n)
  {
    NextMultiple(at, n);
  }

  /** Rows `start..end` with their checked timestamps; they must lie within one copy. */
  function Window(c: Tiled, start: nat, end: nat): Result<seq<Row>, Error>
    requires c.timestamps != [] && start <= end && start % |c.timestamps| + (end - start) <= |c.values|
    decreases end
  {
    if start == end then Ok([])
    else match Window(c, start, end - 1)
      case Err(e) => Err(e)
      case Ok(front) =>
        match Timestamp(c, end - 1)
        case Err(e) => Err(e)
        case Ok(t) => Ok(front + [Row(t, c.values[start % |c.timestamps| + (end - 1 - start)])])
  }

  lemma SameCopy(start: nat, k: nat, n: nat)
    requires n > 0 && start % n + k < n
    ensures (start + k) % n == start % n + k
  {
    assert start + k == start / n * n + (start % n + k);
    QuotientIs(start + k, n, start / n, start % n + k);
  }

  /** A window given is exactly its rows, and it is given when each of its rows has a timestamp. */
  lemma {:induction false} WindowGives(c: Tiled, start: nat, end: nat)
    requires Formed(c) && start <= end && start % |c.timestamps| + (end - start) <= |c.timestamps|
    ensures Window(c, start, end).Ok? <==> forall i :: start <= i < end ==> Timestamp(c, i).Ok?
    ensures Window(c, start, end).Ok? ==> Window(c, start, end).value == Rows(c, start, end)
    decreases end
  {
    hide Timestamp, At, PeriodOf, Wrapped, Rows;
    if start == end {
      assert Rows(c, start, end) == [];
    } else {
      WindowGives(c, start, end - 1);
      if Timestamp(c, end - 1).Ok? { TimestampIsAt(c, end - 1); }
      SameCopy(start, end - 1 - start, |c.timestamps|);
      RowsSnoc(c, start, end);
    }
  }

  lemma RowsSnoc(c: Tiled, start: nat, end: nat)
    requires Formed(c) && start < end
    ensures Rows(c, start, end) == Rows(c, start, end - 1) + [RowAt(c, end - 1)]
  {
    hide At, PeriodOf;
  }

  lemma WindowIsRows(c: Tiled, start: nat, end: nat, last: nat)
    requires Tiles(c, last + 1) && start <= end <= last + 1 && start % |c.timestamps| + (end - start) <= |c.timestamps|
    requires Timestamp(c, last).Ok?
    ensures Window(c, start, end) == Ok(Rows(c, start, end))
  {
    hide Timestamp, Window, Formed;
    WindowGives(c, start, end);
    LastStampsAll(c, last + 1);
  }

  // ---------- the store ----------

  /** The rows at instants `lo..hi`, both included, in stored order. */
  function Between(rows: seq<Row>, lo: int, hi: int): seq<Row> {
    if rows == [] then []
    else Between(rows[..|rows| - 1], lo, hi) + if lo <= rows[|rows| - 1].at <= hi then [rows[|rows| - 1]] else []
  }

  /** The segment store, as what it holds: a seal appends whole or not at all. */
  class SegmentStore {
    var rows: seq<Row>

    constructor ()
      ensures rows == []
    {
      rows := [];
    }

    method Seal(chunk: seq<Row>)
      modifies this
      ensures rows == old(rows) + chunk
    {
      rows := rows + chunk;
    }

    method ReadTimeRange(lo: int, hi: int) returns (read: seq<Row>)
      ensures read == Between(rows, lo, hi)
    {
      read := Between(rows, lo, hi);
    }
  }

  lemma {:induction false} BetweenJoin(a: seq<Row>, b: seq<Row>, lo: int, hi: int)
    ensures Between(a + b, lo, hi) == Between(a, lo, hi) + Between(b, lo, hi)
  {
    if b == [] {
      assert a + b == a;
    } else {
      BetweenJoin(a, b[..|b| - 1], lo, hi);
      assert (a + b)[..|a + b| - 1] == a + b[..|b| - 1];
    }
  }

  lemma {:induction false} BetweenAll(rows: seq<Row>, lo: int, hi: int)
    requires forall k :: 0 <= k < |rows| ==> lo <= rows[k].at <= hi
    ensures Between(rows, lo, hi) == rows
  {
    if rows == [] {
    } else {
      var front, last := rows[..|rows| - 1], rows[|rows| - 1];
      BetweenStep(rows, lo, hi);
      hide Between;
      forall k | 0 <= k < |front| ensures lo <= front[k].at <= hi { assert front[k] == rows[k]; }
      BetweenAll(front, lo, hi);
      assert rows == front + [last];
    }
  }

  lemma BetweenStep(rows: seq<Row>, lo: int, hi: int)
    requires rows != []
    ensures var front, last := rows[..|rows| - 1], rows[|rows| - 1];
      Between(rows, lo, hi) == if lo <= last.at <= hi then Between(front, lo, hi) + [last] else Between(front, lo, hi)
  {}

  lemma {:induction false} BetweenNone(rows: seq<Row>, lo: int, hi: int)
    requires forall k :: 0 <= k < |rows| ==> !(lo <= rows[k].at <= hi)
    ensures Between(rows, lo, hi) == []
  {
    if rows == [] {
    } else {
      var front := rows[..|rows| - 1];
      BetweenStep(rows, lo, hi);
      hide Between;
      forall k | 0 <= k < |front| ensures !(lo <= front[k].at <= hi) { assert front[k] == rows[k]; }
      BetweenNone(front, lo, hi);
    }
  }

  lemma AtAtMost(c: Tiled, i: nat, j: nat)
    requires Tiles(c, i + 1) && Tiles(c, j + 1)
    ensures i <= j <==> At(c, i) <= At(c, j)
  {
    if i < j { AtRises(c, i, j); }
    if j < i { AtRises(c, j, i); }
  }

  lemma BetweenRows(c: Tiled, from: nat, to: nat, a: nat, b: nat)
    requires Tiles(c, to) && Tiles(c, b) && from < to && a <= b && (b <= from || from <= a <= b <= to || to <= a)
    ensures Between(Rows(c, a, b), At(c, from), At(c, to - 1)) == if from <= a && b <= to then Rows(c, a, b) else []
  {
    hide At;
    var rows := Rows(c, a, b);
    forall k | 0 <= k < |rows| ensures At(c, from) <= rows[k].at <= At(c, to - 1) <==> from <= a + k <= to - 1 {
      AtAtMost(c, from, a + k);
      AtAtMost(c, a + k, to - 1);
    }
    if from <= a && b <= to {
      BetweenAll(rows, At(c, from), At(c, to - 1));
    } else {
      BetweenNone(rows, At(c, from), At(c, to - 1));
    }
  }

  /** Reading the span of rows `from..to` gives exactly those rows, whatever was stored since. */
  lemma ReadsExactly(c: Tiled, from: nat, to: nat, stored: nat)
    requires Tiles(c, stored) && from < to <= stored
    ensures Between(Rows(c, 0, stored), At(c, from), At(c, to - 1)) == Rows(c, from, to)
  {
    hide At, Between;
    var lo, hi := At(c, from), At(c, to - 1);
    RowsJoin(c, 0, from, to);
    RowsJoin(c, 0, to, stored);
    BetweenJoin(Rows(c, 0, from), Rows(c, from, to), lo, hi);
    BetweenJoin(Rows(c, 0, to), Rows(c, to, stored), lo, hi);
    BetweenRows(c, from, to, 0, from);
    BetweenRows(c, from, to, from, to);
    BetweenRows(c, from, to, to, stored);
  }

  lemma RowsJoin(c: Tiled, from: nat, mid: nat, to: nat)
    requires Formed(c) && from <= mid <= to
    ensures Rows(c, from, mid) + Rows(c, mid, to) == Rows(c, from, to)
  {}

  /** Strictly rising from row to row: no segment unsorted, none overlapping another. */
  predicate InOrder(rows: seq<Row>) {
    forall i :: 0 <= i < |rows| - 1 ==> rows[i].at < rows[i + 1].at
  }

  lemma RowsInOrder(c: Tiled, rows: nat)
    requires Tiles(c, rows)
    ensures InOrder(Rows(c, 0, rows))
  {
    hide At;
    forall i | 0 <= i < rows - 1 ensures Rows(c, 0, rows)[i].at < Rows(c, 0, rows)[i + 1].at { AtRises(c, i, i + 1); }
  }

  /** What the writer publishes to its readers. */
  class Watermark {
    var sealed: nat

    constructor ()
      ensures sealed == 0
    {
      sealed := 0;
    }
  }

  /** Where the batch before batch `i` ends. */
  function StartsAt(ends: seq<nat>, from: nat, i: nat): nat
    requires i <= |ends|
  {
    if i == 0 then from else ends[i - 1]
  }

  /** Rows `at..end` are a batch: nonempty, at most `batch` rows, in one copy, and cut short only by the
      copy's end or the last row. */
  predicate IsBatch(at: nat, end: nat, batch: nat, rows: nat, n: nat)
    requires n > 0
  {
    && at < end <= rows && end - at <= batch && end <= (at / n + 1) * n
    && (end - at == batch || end == rows || end == (at / n + 1) * n)
  }

  /** The ends of consecutive batches from `from` on. */
  ghost predicate Batches(ends: seq<nat>, from: nat, rows: nat, batch: nat, n: nat)
    requires n > 0
  {
    forall i {:trigger ends[i]} :: 0 <= i < |ends| ==> IsBatch(StartsAt(ends, from, i), ends[i], batch, rows, n)
  }

  lemma NextBatch(ends: seq<nat>, from: nat, rows: nat, batch: nat, n: nat)
    requires n > 0 && batch > 0 && Batches(ends, from, rows, batch, n) && StartsAt(ends, from, |ends|) < rows
    ensures Batches(ends + [BatchEnd(StartsAt(ends, from, |ends|), batch, rows, n)], from, rows, batch, n)
  {
    hide *;
    EndIsBatch(StartsAt(ends, from, |ends|), batch, rows, n);
    LongerBatches(ends, from, BatchEnd(StartsAt(ends, from, |ends|), batch, rows, n), rows, batch, n);
  }

  lemma EndIsBatch(at: nat, batch: nat, rows: nat, n: nat)
    requires n > 0 && batch > 0 && at < rows
    ensures IsBatch(at, BatchEnd(at, batch, rows, n), batch, rows, n)
  {
    hide BatchEnd;
    BatchFits(at, batch, rows, n);
  }

  lemma LongerBatches(ends: seq<nat>, from: nat, end: nat, rows: nat, batch: nat, n: nat)
    requires n > 0 && Batches(ends, from, rows, batch, n)
    requires IsBatch(StartsAt(ends, from, |ends|), end, batch, rows, n)
    ensures Batches(ends + [end], from, rows, batch, n)
  {
    hide IsBatch;
    var longer := ends + [end];
    forall i {:trigger longer[i]} | 0 <= i < |longer|
      ensures IsBatch(StartsAt(longer, from, i), longer[i], batch, rows, n)
    {
      if i < |ends| { assert longer[i] == ends[i]; }
    }
  }

  /** Seals rows `from..rows` in batches that never span two copies, publishing each end once its
      seal has returned. What is sealed is always exactly the corpus's first rows; only a row without
      a timestamp stops it. */
  method SealTiled(c: Tiled, store: SegmentStore, mark: Watermark, from: nat, rows: nat, batch: nat)
    returns (r: Result<nat, Error>, ghost ends: seq<nat>)
    requires Formed(c) && batch > 0
    requires store.rows == Rows(c, 0, from) && mark.sealed <= from
    modifies store, mark
    ensures store.rows == Rows(c, 0, |store.rows|) && mark.sealed <= |store.rows|
    ensures r.Ok? <==> forall i :: from <= i < rows ==> Timestamp(c, i).Ok?
    ensures r.Ok? ==>
        r.value == |store.rows| == (if from <= rows then rows else from) && (from < rows ==> mark.sealed == rows)
    ensures Batches(ends, from, rows, batch, |c.timestamps|) && |store.rows| == StartsAt(ends, from, |ends|)
  {
    ends := [];
    hide Timestamp, Window, Formed, Rows;
    var n := CorpusSize(c);
    var at := from;
    RowsLength(c, from);
    while at < rows
      invariant from <= at && (from <= rows ==> at <= rows) && (from > rows ==> at == from)
      invariant store.rows == Rows(c, 0, at) && |store.rows| == at && mark.sealed <= at
      invariant at > from ==> mark.sealed == at
      invariant forall i :: from <= i < at ==> Timestamp(c, i).Ok?
      invariant Batches(ends, from, rows, batch, n) && at == StartsAt(ends, from, |ends|)
    {
      hide Batches;
      var end := BatchEnd(at, batch, rows, n);
      BatchFits(at, batch, rows, n);
      NextBatch(ends, from, rows, batch, n);
      WindowGives(c, at, end);
      var chunk := Window(c, at, end);
      if chunk.Err? { return Err(chunk.error), ends; }
      store.Seal(chunk.value);
      ends := ends + [end];
      RowsJoin(c, 0, at, end);
      RowsLength(c, end);
      mark.sealed := end;
      at := end;
    }
    return Ok(at), ends;
  }

  lemma RowsLength(c: Tiled, rows: nat)
    requires Formed(c)
    ensures |Rows(c, 0, rows)| == rows
  {}

  method CorpusSize(c: Tiled) returns (n: nat)
    requires Formed(c)
    ensures n == |c.timestamps| == |c.values| >= 2
  {
    n := |c.timestamps|;
  }
}
