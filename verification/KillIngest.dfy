/** The kill-and-resume test: a child process seals the tiled corpus and announces each batch; it is
    killed at any moment; the harness reopens the store, gates what it holds and resumes. */
module KillIngest {
  import opened Wrappers
  import opened Integers
  import opened Tiling

  datatype Params = Params(c: Tiled, rows: nat, batch: nat)

  ghost predicate ValidParams(p: Params) {
    Tiles(p.c, p.rows) && p.rows >= 2 && p.batch > 0 && Timestamp(p.c, p.rows - 1).Ok?
  }

  function Size(p: Params): nat { |p.c.timestamps| }

  /** What the batch arithmetic needs of the settings. */
  predicate Sizes(p: Params) { Size(p) >= 2 && p.rows >= 2 && p.batch > 0 }

  // ---------- the child ----------

  /** About to seal the next batch, or with that batch stored and its end not yet announced. */
  datatype ChildPc = Sealing | Saying(end: nat)

  datatype Child = Child(stored: seq<Row>, at: nat, pc: ChildPc, emitted: seq<nat>)

  ghost function ChildNext(p: Params, s: Child): Child
    requires ValidParams(p)
  {
    match s.pc
    case Sealing =>
      if s.at < p.rows then
        BatchFits(s.at, p.batch, p.rows, Size(p));
        var end := BatchEnd(s.at, p.batch, p.rows, Size(p));
        WindowIsRows(p.c, s.at, end, p.rows - 1);
        s.(stored := s.stored + Window(p.c, s.at, end).value, pc := Saying(end))
      else s
    case Saying(end) => s.(at := end, pc := Sealing, emitted := s.emitted + [end])
  }

  /** The child after `j` atomic steps: the states a kill can leave behind. */
  ghost function ChildAfter(p: Params, j: nat): Child
    requires ValidParams(p)
  {
    if j == 0 then Child([], 0, Sealing, []) else ChildNext(p, ChildAfter(p, j - 1))
  }

  /** The end of the child's `k`th batch; the last one repeats. */
  function Boundary(p: Params, k: nat): (b: nat)
    requires Size(p) > 0 && p.batch > 0
    ensures b <= p.rows
  {
    if k == 0 then 0
    else
      var at := Boundary(p, k - 1);
      if at < p.rows then BatchFits(at, p.batch, p.rows, Size(p)); BatchEnd(at, p.batch, p.rows, Size(p)) else at
  }

  ghost function Announced(p: Params, m: nat): seq<nat>
    requires Size(p) > 0 && p.batch > 0
  {
    seq(m, i requires 0 <= i < m => Boundary(p, i + 1))
  }

  lemma BoundaryStep(p: Params, k: nat)
    requires Size(p) > 0 && p.batch > 0
    ensures Boundary(p, k) < p.rows ==>
      Boundary(p, k + 1) == BatchEnd(Boundary(p, k), p.batch, p.rows, Size(p)) && Boundary(p, k) < Boundary(p, k + 1)
    ensures Boundary(p, k) == p.rows ==> Boundary(p, k + 1) == p.rows
  {
    if Boundary(p, k) < p.rows { BatchFits(Boundary(p, k), p.batch, p.rows, Size(p)); }
  }

  lemma {:induction false} BoundaryMonotone(p: Params, i: nat, j: nat)
    requires Size(p) > 0 && p.batch > 0 && i <= j
    ensures Boundary(p, i) <= Boundary(p, j)
    decreases j
  {
    hide Boundary;
    if i == j {
    } else {
      BoundaryMonotone(p, i, j - 1);
      BoundaryStep(p, j - 1);
    }
  }

  /** What every reachable child state is: `m` batches announced and, in between, one more stored. */
  ghost predicate ChildInv(p: Params, s: Child, m: nat)
    requires ValidParams(p)
  {
    && s.at == Boundary(p, m)
    && s.emitted == Announced(p, m)
    && s.stored == Rows(p.c, 0, |s.stored|)
    && (match s.pc
        case Sealing => |s.stored| == s.at
        case Saying(end) => s.at < p.rows && end == |s.stored| == Boundary(p, m + 1))
  }

  lemma {:induction false} ChildKeeps(p: Params, j: nat) returns (m: nat)
    requires ValidParams(p)
    ensures ChildInv(p, ChildAfter(p, j), m)
  {
    hide Boundary, Timestamp, Window, At;
    if j == 0 {
      m := 0;
      assert Boundary(p, 0) == 0 by { BoundaryZero(p); }
    } else {
      m := ChildKeeps(p, j - 1);
      var s := ChildAfter(p, j - 1);
      BoundaryStep(p, m);
      if s.pc.Saying? {
        assert Announced(p, m + 1) == Announced(p, m) + [s.pc.end];
        m := m + 1;
      } else if s.at < p.rows {
        BatchFits(s.at, p.batch, p.rows, Size(p));
        var end := BatchEnd(s.at, p.batch, p.rows, Size(p));
        WindowIsRows(p.c, s.at, end, p.rows - 1);
        RowsJoin(p.c, 0, s.at, end);
      }
    }
  }

  lemma BoundaryZero(p: Params)
    requires Size(p) > 0 && p.batch > 0
    ensures Boundary(p, 0) == 0
  {}

  /** Whatever the kill point, the store holds a prefix of the corpus that every announcement made
      is within and that ends at the last announced boundary or the next. */
  lemma KillLeavesPrefix(p: Params, j: nat)
    requires ValidParams(p)
    ensures var s := ChildAfter(p, j); var held := |s.stored|; var m := |s.emitted|;
      && s.stored == Rows(p.c, 0, held) && held <= p.rows
      && (forall i :: 0 <= i < m ==> s.emitted[i] == Boundary(p, i + 1) && s.emitted[i] <= held)
      && (held == Boundary(p, m) || held == Boundary(p, m + 1))
  {
    hide Boundary, ChildAfter;
    var m := ChildKeeps(p, j);
    BoundaryStep(p, m);
    forall k | 1 <= k <= m ensures Boundary(p, k) <= |ChildAfter(p, j).stored| { BoundaryMonotone(p, k, m); }
  }

  /** The states of an undisturbed child: batch `k` announced, and batch `k + 1` stored unannounced. */
  lemma {:induction false} ChildReaches(p: Params, k: nat)
    requires ValidParams(p) && (k > 0 ==> Boundary(p, k - 1) < p.rows)
    ensures var s := ChildAfter(p, 2 * k); s.pc.Sealing? && ChildInv(p, s, k) && |s.emitted| == k
    ensures Boundary(p, k) < p.rows ==>
      var s := ChildAfter(p, 2 * k + 1);
      s.pc.Saying? && ChildInv(p, s, k) && |s.emitted| == k && |s.stored| == Boundary(p, k + 1)
  {
    hide Boundary, Timestamp, Window, At;
    if k == 0 {
      BoundaryZero(p);
    } else {
      BoundaryMonotone(p, k - 1, k);
      if k > 1 { BoundaryMonotone(p, k - 2, k - 1); }
      ChildReaches(p, k - 1);
      var s := ChildAfter(p, 2 * (k - 1) + 1);
      assert ChildAfter(p, 2 * k) == ChildNext(p, s);
      assert Announced(p, k) == Announced(p, k - 1) + [s.pc.end];
    }
    Seals(p, k);
  }

  lemma Seals(p: Params, k: nat)
    requires ValidParams(p) && ChildInv(p, ChildAfter(p, 2 * k), k) && ChildAfter(p, 2 * k).pc.Sealing?
    ensures Boundary(p, k) < p.rows ==>
      var s := ChildAfter(p, 2 * k + 1);
      s.pc.Saying? && ChildInv(p, s, k) && |s.emitted| == k && |s.stored| == Boundary(p, k + 1)
  {
    hide Boundary, Timestamp, Window, At;
    var s := ChildAfter(p, 2 * k);
    assert ChildAfter(p, 2 * k + 1) == ChildNext(p, s);
    BoundaryStep(p, k);
    if s.at < p.rows {
      BatchFits(s.at, p.batch, p.rows, Size(p));
      var end := BatchEnd(s.at, p.batch, p.rows, Size(p));
      WindowIsRows(p.c, s.at, end, p.rows - 1);
      RowsJoin(p.c, 0, s.at, end);
    }
  }

  // ---------- the harness ----------

  /** How many announcements the harness may wait for before it kills. */
  predicate KillAfter(p: Params, k: nat)
    requires p.batch > 0
  {
    var batches := (p.rows + p.batch - 1) / p.batch;
    1 <= k <= if batches > 2 then batches - 1 else 1
  }

  /** It waits for one, or for any number whose full batches would leave rows to seal. */
  lemma KillAfterIs(p: Params, k: nat)
    requires p.batch > 0
    ensures KillAfter(p, k) <==> k == 1 || (k >= 1 && k * p.batch < p.rows)
  {
    var x, b := p.rows + p.batch - 1, p.batch;
    var q := x / b;
    assert x == q * b + x % b;
    assert (k + 1) * b == k * b + b && (q + 1) * b == q * b + b;
    if k + 1 <= q { MulMonotone(k + 1, q, b); }
    if q <= k { MulMonotone(q, k, b); }
  }

  /** The gate on what the reopened store holds, after `acked` acknowledged rows. Its next boundary
      leaves out the copy's end. */
  predicate Gate(p: Params, acked: nat, held: nat) {
    held == acked || held == if acked + p.batch <= p.rows then acked + p.batch else p.rows
  }

  /** Rows the gate lets a store hold after `acked` acknowledged ones: those, one full batch more, or
      all there are where those are fewer. */
  predicate MayHold(p: Params, acked: nat, held: nat) {
    held <= p.rows && (held == acked || held == acked + p.batch || (held == p.rows && acked + p.batch >= p.rows))
  }

  lemma GateMeans(p: Params, acked: nat, held: nat)
    requires held <= p.rows
    ensures Gate(p, acked, held) <==> MayHold(p, acked, held)
  {}

  /** Hence nothing acknowledged may be missing, and at most one batch may be there unacknowledged. */
  lemma NothingLost(p: Params, acked: nat, held: nat)
    requires acked <= p.rows && Gate(p, acked, held)
    ensures acked <= held <= p.rows && held <= acked + p.batch
    ensures acked < held < acked + p.batch ==> held == p.rows
  {}

  /** A read of the span of rows `0..rows` gives exactly them. */
  ghost predicate ReadsWhole(p: Params, stored: seq<Row>, rows: nat)
    requires ValidParams(p)
  {
    rows == 0 || Between(stored, At(p.c, 0), At(p.c, rows - 1)) == Rows(p.c, 0, rows)
  }

  /** Whether rows `0..rows` read back exactly, of any store. */
  method Exact(p: Params, store: SegmentStore, rows: nat) returns (same: bool)
    requires ValidParams(p) && rows <= p.rows
    ensures same <==> ReadsWhole(p, store.rows, rows)
  {
    hide At, Timestamp, StrictlyRising, Between;
    if rows == 0 { return true; }
    TimestampDownward(p.c, 0, p.rows - 1);
    TimestampDownward(p.c, rows - 1, p.rows - 1);
    var lo, hi := Timestamp(p.c, 0), Timestamp(p.c, rows - 1);
    var read := store.ReadTimeRange(lo.value, hi.value);
    if |read| != rows { return false; }
    for i := 0 to rows
      invariant forall j :: 0 <= j < i ==> read[j] == RowAt(p.c, j)
    {
      TimestampDownward(p.c, i, p.rows - 1);
      if Timestamp(p.c, i) != Ok(read[i].at) || read[i].value != p.c.values[i % |p.c.timestamps|] {
        assert read[i] != RowAt(p.c, i) == Rows(p.c, 0, rows)[i];
        return false;
      }
    }
    return true;
  }

  lemma PrefixIsExact(p: Params, rows: nat)
    requires ValidParams(p) && rows <= p.rows
    ensures ReadsWhole(p, Rows(p.c, 0, rows), rows)
  {
    hide Formed, At, Between, Rows;
    TilesFewer(p.c, p.rows, rows);
    if rows > 0 { ReadsExactly(p.c, 0, rows, rows); }
  }

  lemma KillHolds(p: Params, j: nat)
    requires ValidParams(p)
    ensures var stored := ChildAfter(p, j).stored; |stored| <= p.rows && stored == Rows(p.c, 0, |stored|)
  {
    KillLeavesPrefix(p, j);
  }

  /** A store of `rows` rows reads back exactly when it holds exactly the first ones. */
  lemma WholeIsPrefix(p: Params, stored: seq<Row>)
    requires ValidParams(p) && |stored| <= p.rows
    ensures ReadsWhole(p, stored, |stored|) <==> stored == Rows(p.c, 0, |stored|)
  {
    if stored == [] {
    } else {
      PrefixIsExact(p, |stored|);
      BetweenFull(stored, At(p.c, 0), At(p.c, |stored| - 1));
    }
  }

  lemma {:induction false} BetweenFull(rows: seq<Row>, lo: int, hi: int)
    ensures |Between(rows, lo, hi)| <= |rows|
    ensures |Between(rows, lo, hi)| == |rows| ==> Between(rows, lo, hi) == rows
  {
    if rows == [] {
    } else {
      BetweenFull(rows[..|rows| - 1], lo, hi);
    }
  }

  /** Seals the corpus from row `held` on, onto whatever the store holds, in batches that never span two
      copies. */
  method Resume(p: Params, store: SegmentStore, held: nat) returns (ghost ends: seq<nat>)
    requires ValidParams(p)
    modifies store
    ensures Batches(ends, held, p.rows, p.batch, Size(p))
    ensures held < p.rows ==> StartsAt(ends, held, |ends|) == p.rows
    ensures store.rows == old(store.rows) + if held < p.rows then Rows(p.c, held, p.rows) else []
  {
    assert Size(p) > 0 && p.batch > 0 && p.c.timestamps != [] && |p.c.values| == |p.c.timestamps|;
    NoneSealed(p, held, store.rows);
    hide *;
    var at := held;
    ghost var before := store.rows;
    ends := [];
    assert StartsAt(ends, held, |ends|) == held by { StartsHere(held); }
    while at < p.rows
      invariant Batches(ends, held, p.rows, p.batch, Size(p)) && at == StartsAt(ends, held, |ends|)
      invariant held <= at && (held < p.rows ==> at <= p.rows)
      invariant store.rows == before + SealedFrom(p, held, at)
    {
      NextBatch(ends, held, p.rows, p.batch, Size(p));
      SealedOn(p, held, at, before);
      var end := BatchEnd(at, p.batch, p.rows, Size(p));
      var chunk := Window(p.c, at, end);
      store.Seal(chunk.value);
      StartsNext(ends, held, end);
      ends := ends + [end];
      at := end;
    }
  }

  /** The rows sealed by a resumed ingest that has reached row `at`. */
  ghost function SealedFrom(p: Params, held: nat, at: nat): seq<Row>
    requires ValidParams(p)
  {
    if held <= at <= p.rows then Rows(p.c, held, at) else []
  }

  lemma NoneSealed(p: Params, held: nat, before: seq<Row>)
    requires ValidParams(p)
    ensures before + SealedFrom(p, held, held) == before && Batches([], held, p.rows, p.batch, Size(p))
    ensures SealedFrom(p, held, p.rows) == if held < p.rows then Rows(p.c, held, p.rows) else []
    ensures held >= p.rows ==> SealedFrom(p, held, held) == []
  {}

  lemma StartsHere(from: nat) ensures StartsAt([], from, 0) == from {}

  lemma StartsNext(ends: seq<nat>, from: nat, end: nat)
    ensures StartsAt(ends + [end], from, |ends + [end]|) == end
  {}

  lemma SealedOn(p: Params, held: nat, at: nat, before: seq<Row>)
    requires ValidParams(p) && held <= at < p.rows
    ensures Size(p) == |p.c.timestamps| == |p.c.values|
    ensures var end := BatchEnd(at, p.batch, p.rows, Size(p));
      && at < end <= p.rows && at % Size(p) + (end - at) <= Size(p) && Window(p.c, at, end).Ok?
      && before + SealedFrom(p, held, end) == before + SealedFrom(p, held, at) + Window(p.c, at, end).value
  {
    hide At, Timestamp, Window, StrictlyRising;
    BatchFits(at, p.batch, p.rows, Size(p));
    hide BatchEnd;
    var end := BatchEnd(at, p.batch, p.rows, Size(p));
    WindowIsRows(p.c, at, end, p.rows - 1);
    RowsJoin(p.c, held, at, end);
  }

  /** Gates the reopened store and resumes from what it holds, whatever that is. The verdict is ok
      exactly when the store came back with exactly the first `held` rows, and `held` is all that was
      acknowledged, or that and the next full batch, or everything; the ingest then finishes whole. */
  method RecoverAndResume(p: Params, store: SegmentStore, acked: nat) returns (held: nat, ok: bool)
    requires ValidParams(p)
    modifies store
    ensures held == |old(store.rows)|
    ensures store.rows == old(store.rows) + if held < p.rows then Rows(p.c, held, p.rows) else []
    ensures ok <==> MayHold(p, acked, held) && old(store.rows) == Rows(p.c, 0, held)
    ensures ok ==> store.rows == Rows(p.c, 0, p.rows)
    ensures ok && acked <= p.rows ==> acked <= held <= acked + p.batch
  {
    held := |store.rows|;
    ok := false;
    if held <= p.rows {
      GateMeans(p, acked, held);
      WholeIsPrefix(p, store.rows);
      PrefixGrows(p, held);
      hide ReadsWhole, ValidParams, Gate, Rows;
      var whole := Exact(p, store, held);
      ok := Gate(p, acked, held) && whole;
    }
    var _ := Resume(p, store, held);
    if |store.rows| == p.rows {
      WholeIsPrefix(p, store.rows);
      hide ReadsWhole, ValidParams, Gate, Rows;
      var whole := Exact(p, store, p.rows);
      ok := ok && whole;
    } else {
      ok := false;
    }
  }

  lemma PrefixGrows(p: Params, held: nat)
    requires ValidParams(p) && held <= p.rows
    ensures Rows(p.c, 0, held) + (if held < p.rows then Rows(p.c, held, p.rows) else []) == Rows(p.c, 0, p.rows)
    ensures |Rows(p.c, 0, held)| == held && |Rows(p.c, 0, p.rows)| == p.rows
    ensures held < p.rows ==> |Rows(p.c, held, p.rows)| == p.rows - held
  {
    if held < p.rows { RowsJoin(p.c, 0, held, p.rows); }
  }

  /** So after any kill the ingest ends with exactly the corpus's rows, and the verdict is the gate's. */
  lemma KilledVerdict(p: Params, j: nat, acked: nat)
    requires ValidParams(p)
    ensures var stored := ChildAfter(p, j).stored; var held := |stored|;
      && stored + (if held < p.rows then Rows(p.c, held, p.rows) else []) == Rows(p.c, 0, p.rows)
      && (MayHold(p, acked, held) && stored == Rows(p.c, 0, held) <==> Gate(p, acked, held))
  {
    KillHolds(p, j);
    hide ChildAfter, ValidParams, Rows;
    var held := |ChildAfter(p, j).stored|;
    PrefixGrows(p, held);
    GateMeans(p, acked, held);
  }

  // ---------- when the gate is right ----------

  /** The gate accepts every kill that comes before the child announces another batch. */
  ghost predicate AcceptsPromptKills(p: Params)
    requires ValidParams(p)
  {
    forall k, j :: KillAfter(p, k) && |ChildAfter(p, j).emitted| == k ==>
      Gate(p, ChildAfter(p, j).emitted[k - 1], |ChildAfter(p, j).stored|)
  }

  /** The gate accepts every kill, however far the child ran past the announcements read. */
  ghost predicate AcceptsAllKills(p: Params)
    requires ValidParams(p)
  {
    forall k, j :: KillAfter(p, k) && |ChildAfter(p, j).emitted| >= k ==>
      Gate(p, ChildAfter(p, j).emitted[k - 1], |ChildAfter(p, j).stored|)
  }

  /** No copy end cuts a batch that a kill can follow: one copy, whole batches to a copy, or batches
      longer than a copy and at most two copies. */
  predicate NoBatchCut(p: Params)
    requires p.batch > 0
  {
    p.rows <= Size(p) || Size(p) % p.batch == 0 || (p.batch > Size(p) && p.rows <= 2 * Size(p))
  }

  lemma FirstBatchLong(p: Params)
    requires Sizes(p) && p.batch >= Size(p) && p.rows > Size(p)
    ensures Boundary(p, 1) == Size(p)
    ensures var n := Size(p); Boundary(p, 2) == if p.rows <= 2 * n then p.rows else 2 * n
  {
    var n := Size(p);
    QuotientIs(0, n, 0, 0);
    QuotientIs(n, n, 1, 0);
    assert Boundary(p, 0) == 0 && Boundary(p, 1) == n;
  }

  /** Whole batches to a copy: every boundary before the last is a whole number of batches. */
  lemma {:induction false} WholeBatches(p: Params, k: nat) returns (q: nat)
    requires Sizes(p) && Size(p) % p.batch == 0
    ensures Boundary(p, k) == p.rows || Boundary(p, k) == q * p.batch
    decreases k
  {
    BoundaryZero(p);
    hide Boundary;
    q := 0;
    if k == 0 {
    } else {
      q := WholeBatches(p, k - 1);
      BoundaryStep(p, k - 1);
      if Boundary(p, k - 1) < p.rows {
        WholeBatchEnd(p, Boundary(p, k - 1), q);
        assert (q + 1) * p.batch == q * p.batch + p.batch;
        q := q + 1;
      }
    }
  }

  lemma WholeBatchEnd(p: Params, at: nat, q: nat)
    requires Sizes(p) && Size(p) % p.batch == 0 && at == q * p.batch
    ensures BatchEnd(at, p.batch, p.rows, Size(p)) == if at + p.batch <= p.rows then at + p.batch else p.rows
  {
    CopyEndBeyond(q, p.batch, Size(p));
  }

  lemma CopyEndBeyond(q: nat, batch: nat, n: nat)
    requires batch > 0 && n > 0 && n % batch == 0
    ensures q * batch + batch <= (q * batch / n + 1) * n
  {
    var c, m := q * batch / n + 1, n / batch;
    assert n == m * batch;
    NextMultiple(q * batch, n);
    ProductsApart(q, c * m, batch) by { Associate(c, m, batch); }
  }

  lemma Associate(a: nat, b: nat, c: nat)
    ensures (a * b) * c == a * (b * c)
  {}

  lemma ProductsApart(q: nat, e: nat, d: nat)
    requires q * d < e * d
    ensures q * d + d <= e * d
  {
    assert (q + 1) * d == q * d + d;
    if e <= q { MulMonotone(e, q, d); } else { MulMonotone(q + 1, e, d); }
  }

  /** Batches shorter than a copy: the first copy is cut into full batches up to its last one. */
  lemma {:induction false} FullBatches(p: Params, k: nat)
    requires Sizes(p) && p.rows > Size(p) && k * p.batch <= Size(p)
    ensures Boundary(p, k) == k * p.batch
    decreases k
  {
    if k > 0 {
      var n := Size(p);
      assert k * p.batch == (k - 1) * p.batch + p.batch;
      FullBatches(p, k - 1);
      QuotientIs((k - 1) * p.batch, n, 0, (k - 1) * p.batch);
    } else {
      BoundaryZero(p);
    }
  }

  lemma PromptBoundary(p: Params, k: nat)
    requires Sizes(p) && NoBatchCut(p) && k >= 1
    ensures Gate(p, Boundary(p, k), Boundary(p, k + 1))
  {
    var n, at := Size(p), Boundary(p, k);
    if p.rows > n && n % p.batch != 0 {
      FirstBatchLong(p);
      BoundaryMonotone(p, 1, k);
      if k > 1 { BoundaryMonotone(p, 2, k); }
    }
    hide Boundary;
    BoundaryStep(p, k);
    if n % p.batch == 0 {
      var q := WholeBatches(p, k);
      if at < p.rows { WholeBatchEnd(p, at, q); }
    }
    if at < p.rows <= n { QuotientIs(at, n, 0, at); }
  }

  /** A cut batch: the gate's next boundary is beyond the one the child reached. */
  lemma CutBatch(p: Params) returns (k: nat)
    requires Sizes(p) && !NoBatchCut(p)
    ensures KillAfter(p, k) && Boundary(p, k - 1) < Boundary(p, k) < Boundary(p, k + 1)
    ensures !Gate(p, Boundary(p, k), Boundary(p, k + 1))
  {
    var n, b := Size(p), p.batch;
    if b > n {
      k := 1;
      FirstBatchLong(p);
      BoundaryZero(p);
      hide Boundary;
    } else {
      k := n / b;
      FullFirstCopy(p, k);
      hide Boundary;
      EnoughBatches(p.rows, b, n);
    }
  }

  /** The last full batch of the first copy, and the cut one after it. */
  lemma FullFirstCopy(p: Params, k: nat)
    requires Sizes(p) && p.batch <= Size(p) < p.rows && Size(p) % p.batch != 0 && k == Size(p) / p.batch
    ensures k >= 1 && Boundary(p, k - 1) == Boundary(p, k) - p.batch
    ensures Boundary(p, k) < Boundary(p, k + 1) == Size(p) < Boundary(p, k) + p.batch
  {
    var n, b := Size(p), p.batch;
    assert n == k * b + n % b;
    assert (k - 1) * b == k * b - b;
    FullBatches(p, k);
    FullBatches(p, k - 1);
    QuotientIs(k * b, n, 0, k * b);
    hide Boundary;
    BoundaryStep(p, k);
  }

  lemma EnoughBatches(rows: nat, b: nat, n: nat)
    requires 0 < b && rows > n && n % b != 0
    ensures (rows + b - 1) / b >= n / b + 1
  {
    var k := n / b;
    assert n == k * b + n % b;
    assert (k + 1) * b == k * b + b;
    QuotientMonotone((k + 1) * b, rows + b - 1, b);
    QuotientIs((k + 1) * b, b, k + 1, 0);
  }

  /** If no announcement goes unread the gate is right for every kill exactly when no copy end cuts
      a batch: otherwise it refuses a child that did nothing wrong. */
  lemma GateRightForPromptKills(p: Params)
    requires ValidParams(p)
    ensures AcceptsPromptKills(p) <==> NoBatchCut(p)
  {
    hide Boundary, ChildAfter, Gate, NoBatchCut;
    if NoBatchCut(p) {
      forall k, j | KillAfter(p, k) && |ChildAfter(p, j).emitted| == k
        ensures Gate(p, ChildAfter(p, j).emitted[k - 1], |ChildAfter(p, j).stored|)
      {
        AtLeastOne(p, k);
        KillLeavesPrefix(p, j);
        PromptBoundary(p, k);
        GateReflexive(p, Boundary(p, k));
      }
    } else {
      var k := CutBatch(p);
      AtLeastOne(p, k);
      BoundaryAtMost(p, k + 1);
      ChildReaches(p, k);
      var s := ChildAfter(p, 2 * k + 1);
      assert s.emitted[k - 1] == Boundary(p, k);
    }
  }

  lemma AtLeastOne(p: Params, k: nat)
    requires p.batch > 0 && KillAfter(p, k)
    ensures k >= 1
  {}

  lemma OneIsAllowed(p: Params)
    requires p.batch > 0
    ensures KillAfter(p, 1)
  {}

  lemma GateReflexive(p: Params, b: nat) ensures Gate(p, b, b) {}

  lemma BoundaryAtMost(p: Params, k: nat)
    requires Size(p) > 0 && p.batch > 0
    ensures Boundary(p, k) <= p.rows
  {}

  /** Allowing the child to run on past the announcements read, the gate is right for every kill
      exactly when the child has at most two batches to seal. */
  lemma GateRightForAllKills(p: Params)
    requires ValidParams(p)
    ensures AcceptsAllKills(p) <==> AtMostTwoBatches(p)
  {
    SecondBoundary(p);
    if Boundary(p, 2) == p.rows { TwoBatchesAccepted(p); } else { ThirdBatchRefused(p); }
  }

  /** Two batches reach the end: within one copy, or a batch a copy and at most two copies. */
  predicate AtMostTwoBatches(p: Params) {
    (p.rows <= Size(p) && p.rows <= 2 * p.batch) || (p.batch >= Size(p) && p.rows <= 2 * Size(p))
  }

  lemma SecondBoundary(p: Params)
    requires Sizes(p)
    ensures Boundary(p, 2) == p.rows <==> AtMostTwoBatches(p)
  {
    var n := Size(p);
    if p.batch >= n && p.rows > n {
      FirstBatchLong(p);
    } else {
      var first := if p.batch <= p.rows then p.batch else p.rows;
      QuotientIs(0, n, 0, 0);
      assert Boundary(p, 0) == 0 && Boundary(p, 1) == first;
      if first < n { QuotientIs(first, n, 0, first); } else { QuotientIs(n, n, 1, 0); }
    }
  }

  lemma TwoBatchesAccepted(p: Params)
    requires ValidParams(p) && Boundary(p, 2) == p.rows
    ensures AcceptsAllKills(p)
  {
    hide ChildAfter, Boundary, Gate;
    forall k, j | KillAfter(p, k) && |ChildAfter(p, j).emitted| >= k
      ensures Gate(p, ChildAfter(p, j).emitted[k - 1], |ChildAfter(p, j).stored|)
    {
      KillLeavesPrefix(p, j);
      TwoBatches(p, k, |ChildAfter(p, j).emitted|, |ChildAfter(p, j).stored|);
    }
  }

  lemma ThirdBatchRefused(p: Params)
    requires ValidParams(p) && Boundary(p, 2) != p.rows
    ensures !AcceptsAllKills(p)
  {
    hide ChildAfter, Boundary;
    BoundaryZero(p);
    BoundaryStep(p, 0);
    BoundaryStep(p, 1);
    BoundaryStep(p, 2);
    BoundaryAtMost(p, 2);
    ChildReaches(p, 1);
    ChildReaches(p, 2);
    OneIsAllowed(p);
    var second, third := ChildAfter(p, 3), ChildAfter(p, 5);
    assert second.emitted[1 - 1] == Boundary(p, 1) == third.emitted[1 - 1];
    assert |second.stored| == Boundary(p, 2) && |third.stored| == Boundary(p, 3);
    hide KillAfter;
    assert !Gate(p, Boundary(p, 1), Boundary(p, 2)) || !Gate(p, Boundary(p, 1), Boundary(p, 3));
  }

  lemma TwoBatches(p: Params, k: nat, m: nat, held: nat)
    requires Sizes(p) && Boundary(p, 2) == p.rows && 1 <= k <= m
    requires held == Boundary(p, m) || held == Boundary(p, m + 1)
    ensures Gate(p, Boundary(p, k), held)
  {
    hide Boundary;
    BoundaryStep(p, 1);
    BoundaryMonotone(p, 1, k);
    if k >= 2 { BoundaryMonotone(p, 2, k); }
    if m >= 2 { BoundaryMonotone(p, 2, m); }
    BoundaryMonotone(p, 2, m + 1);
    BoundaryAtMost(p, k);
    BoundaryAtMost(p, m);
    BoundaryAtMost(p, m + 1);
  }

  /** A child that did nothing wrong and is refused: copies of three rows, batches of two. It
      announces row 2, seals the third row up to the copy's end and is killed; the gate expects 4. */
  lemma HonestChildRefused(values: seq<real>)
    requires |values| == 3
    ensures var p := Params(Tiled([0, 1, 2], values, 3), 6, 2);
      && ValidParams(p) && KillAfter(p, 1)
      && ChildAfter(p, 3).emitted == [2] && |ChildAfter(p, 3).stored| == 3
      && !Gate(p, 2, 3)
  {
    var p := Params(Tiled([0, 1, 2], values, 3), 6, 2);
    QuotientIs(5, 3, 1, 2);
    QuotientIs(2, 3, 0, 2);
    QuotientIs(0, 3, 0, 0);
    assert Boundary(p, 0) == 0 && Boundary(p, 1) == 2 && Boundary(p, 2) == 3;
    ChildReaches(p, 1);
    hide ChildAfter, Boundary;
    assert Announced(p, 1) == [2];
  }
}
