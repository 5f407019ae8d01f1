/** Queries against a store that is being written: one writer seals a batch and then publishes its
    end, any number of readers load the published end, pick a window and read it later. Every
    interleaving of their atomic steps is a run of this state machine. */
module OnlineIngest {
  import opened Wrappers
  import opened Integers
  import opened Tiling

  datatype Params = Params(c: Tiled, rows: nat, batch: nat, window: nat, readers: nat)

  /** What the run checks first. */
  ghost predicate ValidParams(p: Params) {
    Formed(p.c) && p.rows >= 2 && p.batch > 0 && p.window > 0 && p.readers > 0 && Timestamp(p.c, p.rows - 1).Ok?
  }

  function Size(p: Params): nat { |p.c.timestamps| }

  /** The rows lie in one copy, or the period did not overflow: the rows tile. */
  predicate Holds(p: Params) { Size(p) >= 2 && PeriodHolds(p.c.timestamps, p.rows) }

  /** What one reader saw. */
  datatype Tally = Tally(answered: nat, tail: nat, verified: nat, read: nat, mismatched: nat, failed: nat)

  /** Where a reader stands: about to test whether to stop, about to load the watermark, about to
      pick a window, about to read it, or stopped. */
  datatype ReaderPc = Testing | Loading | Picking(loaded: nat) | Asking(from: nat, to: nat) | Stopped

  /** `fixed` is the number of queries an idle reader runs. */
  datatype Reader = Reader(pc: ReaderPc, asked: nat, fixed: Option<nat>, tally: Tally)

  /** `Failed`: a row had no timestamp. */
  datatype WriterPc = Sealing | Publishing(end: nat) | Finished | Failed

  /** `online` holds the online readers as they stopped, once the idle readers have replaced them. */
  datatype State = State(stored: seq<Row>, at: nat, writer: WriterPc, sealed: nat, done: bool,
                         readers: seq<Reader>, online: Option<seq<Reader>>)

  /** A reader's step carries its random draw and whether the store refuses the read. */
  datatype Step = WriterStep | ReaderStep(i: nat, draw: nat, refused: bool) | StartIdle

  const NO_QUERIES := Tally(0, 0, 0, 0, 0, 0)

  function Init(p: Params): State {
    State([], 0, Sealing, 0, false, seq(p.readers, _ => Reader(Testing, 0, None, NO_QUERIES)), None)
  }

  // ---------- the reader's pure parts ----------

  /** A window of at most `window` sealed rows within one copy: ending at the newest sealed row, or
      starting at `draw`. */
  function PickWindow(sealed: nat, n: nat, window: nat, tail: bool, draw: nat): (int, int)
    requires n > 0 && 0 < sealed && draw < sealed
  {
    if tail then
      var copyStart := (sealed - 1) / n * n;
      var from := if sealed >= window then sealed - window else 0;
      (if from >= copyStart then from else copyStart, sealed)
    else
      var a := if draw + window <= sealed then draw + window else sealed;
      var b := (draw / n + 1) * n;
      (draw, if a <= b then a else b)
  }

  lemma PickWindowFits(sealed: nat, n: nat, window: nat, tail: bool, draw: nat)
    requires n > 0 && 0 < sealed && draw < sealed && window > 0
    ensures var (from, to) := PickWindow(sealed, n, window, tail, draw);
      && 0 <= from < to <= sealed && to - from <= window && from % n + (to - from) <= n
      && (if tail then to == sealed else from == draw)
      && (to - from == window || (if tail then from % n == 0 else to == sealed || to % n == 0))
  {
    if tail { TailFits(sealed, n, window); } else { DrawFits(sealed, n, window, draw); }
  }

  lemma DrawFits(sealed: nat, n: nat, window: nat, draw: nat)
    requires n > 0 && draw < sealed && window > 0
    ensures var (from, to) := PickWindow(sealed, n, window, false, draw);
      && from == draw < to <= sealed && to - from <= window && from % n + (to - from) <= n
      && (to - from == window || to == sealed || to % n == 0)
  {
    NextMultiple(draw, n);
    QuotientIs((draw / n + 1) * n, n, draw / n + 1, 0);
  }

  lemma TailFits(sealed: nat, n: nat, window: nat)
    requires n > 0 && sealed > 0 && window > 0
    ensures var copyStart := (sealed - 1) / n * n;
      var from := if sealed >= window && sealed - window >= copyStart then sealed - window else copyStart;
      && 0 <= copyStart <= from < sealed && from % n + (sealed - from) <= n
      && (sealed - from == window || from % n == 0)
  {
    var q := (sealed - 1) / n;
    var copyStart := q * n;
    assert sealed - 1 == copyStart + (sealed - 1) % n;
    var from := if sealed >= window && sealed - window >= copyStart then sealed - window else copyStart;
    QuotientIs(from, n, q, from - copyStart);
  }

  /** One answered query: the rows read are compared with the corpus. */
  function Answer(c: Tiled, stored: seq<Row>, from: nat, to: nat, t: Tally): Tally
    requires c.timestamps != [] && from < to && from % |c.timestamps| + (to - from) <= |c.values|
    requires Timestamp(c, from).Ok? && Timestamp(c, to - 1).Ok? && Window(c, from, to).Ok?
  {
    var read := Between(stored, Timestamp(c, from).value, Timestamp(c, to - 1).value);
    t.(answered := t.answered + 1,
       mismatched := t.mismatched + (if read != Window(c, from, to).value then 1 else 0),
       verified := t.verified + (to - from),
       read := t.read + |read|)
  }

  function Sum(a: Tally, b: Tally): Tally {
    Tally(a.answered + b.answered, a.tail + b.tail, a.verified + b.verified, a.read + b.read,
      a.mismatched + b.mismatched, a.failed + b.failed)
  }

  function Merge(readers: seq<Reader>): Tally {
    if readers == [] then NO_QUERIES else Sum(Merge(readers[..|readers| - 1]), readers[|readers| - 1].tally)
  }

  /** Merging adds up: a list joined from two has the sum of their totals, in every count. */
  lemma {:induction false} MergeJoins(a: seq<Reader>, b: seq<Reader>)
    ensures var (s, t, all) := (Merge(a), Merge(b), Merge(a + b));
      && all.answered == s.answered + t.answered && all.tail == s.tail + t.tail
      && all.verified == s.verified + t.verified && all.read == s.read + t.read
      && all.mismatched == s.mismatched + t.mismatched && all.failed == s.failed + t.failed
  {
    if b == [] {
      assert a + b == a;
    } else {
      MergeJoins(a, b[..|b| - 1]);
      assert (a + b)[..|a + b| - 1] == a + b[..|b| - 1];
    }
  }

  /** And one reader's total is what it saw. */
  lemma MergeOne(r: Reader)
    ensures Merge([r]) == r.tally
  {
    assert [r][..0] == [];
  }

  /** A merged count is zero exactly when it is for every reader. */
  lemma {:induction false} MergeZero(readers: seq<Reader>)
    ensures Merge(readers).failed == 0 <==> forall i :: 0 <= i < |readers| ==> readers[i].tally.failed == 0
    ensures Merge(readers).mismatched == 0 <==> forall i :: 0 <= i < |readers| ==> readers[i].tally.mismatched == 0
  {
    if readers == [] {
    } else {
      var front, last := readers[..|readers| - 1], readers[|readers| - 1];
      MergeZero(front);
      assert readers == front + [last];
    }
  }

  // ---------- steps ----------

  predicate InCopy(p: Params, from: nat, to: nat) {
    Size(p) > 0 && from < to <= p.rows && from % Size(p) + (to - from) <= Size(p)
  }

  /** A window whose rows all have timestamps. */
  ghost predicate Askable(p: Params, from: nat, to: nat) {
    InCopy(p, from, to) && Stamped(p.c, to)
  }

  ghost predicate Enabled(p: Params, s: State, step: Step)
    requires ValidParams(p)
  {
    match step
    case WriterStep => !s.writer.Finished? && !s.writer.Failed?
    case ReaderStep(i, draw, _) =>
      i < |s.readers| && s.readers[i].pc != Stopped &&
      (s.readers[i].pc.Picking? ==> draw < s.readers[i].pc.loaded) &&
      (s.readers[i].pc.Asking? ==> Askable(p, s.readers[i].pc.from, s.readers[i].pc.to))
    case StartIdle => s.online.None? && s.writer.Finished? && forall i :: 0 <= i < |s.readers| ==>
      s.readers[i].pc.Stopped?
  }

  ghost function WriterNext(p: Params, s: State): State
    requires ValidParams(p)
  {
    match s.writer
    case Sealing =>
      if s.at < p.rows then
        BatchFits(s.at, p.batch, p.rows, Size(p));
        var end := BatchEnd(s.at, p.batch, p.rows, Size(p));
        (match Window(p.c, s.at, end)
         case Ok(chunk) => s.(stored := s.stored + chunk, writer := Publishing(end))
         case Err(_) => s.(done := true, writer := Failed))
      else s.(done := true, writer := Finished)
    case Publishing(end) => s.(sealed := end, at := end, writer := Sealing)
    case Finished => s
    case Failed => s
  }

  /** A reader back from a query, whose tally is now `t`. */
  function Asked(r: Reader, t: Tally): Reader {
    Reader(Testing, r.asked + 1, r.fixed, t.(tail := t.tail + if r.asked % 2 == 0 then 1 else 0))
  }

  ghost function ReaderNext(p: Params, s: State, r: Reader, draw: nat, refused: bool): Reader
    requires ValidParams(p)
    requires r.pc.Picking? ==> draw < r.pc.loaded
    requires r.pc.Asking? ==> Askable(p, r.pc.from, r.pc.to)
  {
    match r.pc
    case Testing =>
      if match r.fixed case Some(count) => r.asked == count case None => s.done then r.(pc := Stopped)
      else r.(pc := Loading)
    case Loading => r.(pc := if s.sealed == 0 then Testing else Picking(s.sealed))
    case Picking(loaded) =>
      PickWindowFits(loaded, Size(p), p.window, r.asked % 2 == 0, draw);
      var (from, to) := PickWindow(loaded, Size(p), p.window, r.asked % 2 == 0, draw);
      r.(pc := Asking(from, to))
    case Asking(from, to) =>
      WindowGives(p.c, from, to);
      var t := if refused then r.tally.(failed := r.tally.failed + 1) else Answer(p.c, s.stored, from, to, r.tally);
      Asked(r, t)
    case Stopped => r
  }

  function IdleCount(answered: nat): nat { if answered >= 64 then answered else 64 }

  /** The idle readers: each runs as many queries as it answered online, at least 64. */
  function IdleReaders(readers: seq<Reader>): seq<Reader> {
    seq(|readers|,
      i requires 0 <= i < |readers| => Reader(Testing, 0, Some(IdleCount(readers[i].tally.answered)), NO_QUERIES))
  }

  ghost function Next(p: Params, s: State, step: Step): State
    requires ValidParams(p) && Enabled(p, s, step)
  {
    match step
    case WriterStep => WriterNext(p, s)
    case ReaderStep(i, draw, refused) => s.(readers := s.readers[i := ReaderNext(p, s, s.readers[i], draw, refused)])
    case StartIdle => s.(online := Some(s.readers), readers := IdleReaders(s.readers))
  }

  /** A run: each step enabled where it is taken. */
  ghost predicate Run(p: Params, s: State, steps: seq<Step>)
    requires ValidParams(p)
    decreases |steps|
  {
    steps == [] || (Enabled(p, s, steps[0]) && Run(p, Next(p, s, steps[0]), steps[1..]))
  }

  ghost function After(p: Params, s: State, steps: seq<Step>): State
    requires ValidParams(p) && Run(p, s, steps)
    decreases |steps|
  {
    if steps == [] then s else After(p, Next(p, s, steps[0]), steps[1..])
  }

  // ---------- the invariant ----------

  /** Where the rows tile, no answered query ever differed and the rows read are the rows asked for. */
  predicate Clean(p: Params, t: Tally) {
    (Holds(p) ==> t.mismatched == 0 && t.read == t.verified) && t.answered <= t.verified <= t.answered * p.window
  }

  ghost predicate WriterInv(p: Params, s: State)
    requires ValidParams(p)
  {
    && s.at <= p.rows
    && s.sealed == s.at
    && s.stored == Rows(p.c, 0, |s.stored|) && Stamped(p.c, |s.stored|)
    && (match s.writer
        case Sealing => |s.stored| == s.at
        case Publishing(end) => s.at < p.rows && |s.stored| == end == BatchEnd(s.at, p.batch, p.rows, Size(p))
        case Finished => |s.stored| == s.at == p.rows
        case Failed => |s.stored| == s.at < p.rows && !Holds(p))
    && (s.done <==> s.writer.Finished? || s.writer.Failed?)
  }

  ghost predicate ReaderInv(p: Params, s: State, r: Reader)
    requires ValidParams(p)
  {
    && (r.pc.Picking? ==> 0 < r.pc.loaded <= s.sealed)
    && (r.pc.Asking? ==> InCopy(p, r.pc.from, r.pc.to) && r.pc.to <= s.sealed && r.pc.to - r.pc.from <= p.window)
    && Clean(p, r.tally)
    && r.tally.answered + r.tally.failed == r.asked
    && r.tally.tail == (r.asked + 1) / 2
    && (match r.fixed
        case None => s.online.None? && (r.pc.Stopped? ==> s.done)
        case Some(count) => s.online.Some? && count >= 64 && r.asked <= count && (r.pc.Stopped? ==> r.asked == count)
                            && (r.pc.Loading? || r.pc.Picking? || r.pc.Asking? ==> r.asked < count))
  }

  ghost predicate Inv(p: Params, s: State)
    requires ValidParams(p)
  {
    && WriterInv(p, s)
    && |s.readers| == p.readers
    && (forall i :: 0 <= i < |s.readers| ==> ReaderInv(p, s, s.readers[i]))
    && (s.online.Some? ==> s.writer.Finished? && Replaced(p, s.online.value, s.readers))
  }

  /** The idle readers stand in for the online ones, each with its own count to run. */
  ghost predicate Replaced(p: Params, online: seq<Reader>, idle: seq<Reader>) {
    && |online| == |idle|
    && (forall i :: 0 <= i < |online| ==> Clean(p, online[i].tally))
    && (forall i :: 0 <= i < |idle| ==> idle[i].fixed == Some(IdleCount(online[i].tally.answered)))
  }

  lemma InitInv(p: Params)
    requires ValidParams(p)
    ensures Inv(p, Init(p))
  {}

  /** Where the rows tile, a query over rows already published reads exactly those rows, whatever was
      stored since. */
  lemma AnswerIsClean(p: Params, s: State, from: nat, to: nat, t: Tally)
    requires ValidParams(p) && WriterInv(p, s) && Askable(p, from, to)
    requires to <= s.sealed && to - from <= p.window && Clean(p, t)
    ensures Timestamp(p.c, from).Ok? && Timestamp(p.c, to - 1).Ok? && Window(p.c, from, to).Ok?
    ensures Holds(p) ==>
        Between(s.stored, Timestamp(p.c, from).value, Timestamp(p.c, to - 1).value) == Rows(p.c, from, to)
    ensures Clean(p, Answer(p.c, s.stored, from, to, t))
  {
    hide Timestamp, Window, Between, Rows, At, PeriodOf, PeriodHolds, StrictlyRising;
    TimestampIsAt(p.c, from);
    TimestampIsAt(p.c, to - 1);
    WindowGives(p.c, from, to);
    SealedIsStored(p, s);
    if Holds(p) {
      TilesFewer(p.c, p.rows, |s.stored|);
      ReadsExactly(p.c, from, to, |s.stored|);
    }
    assert (t.answered + 1) * p.window == t.answered * p.window + p.window;
  }

  lemma SealedIsStored(p: Params, s: State)
    requires ValidParams(p) && WriterInv(p, s)
    ensures s.sealed <= |s.stored| <= s.sealed + p.batch && |s.stored| <= p.rows
  {
    if s.writer.Publishing? { BatchFits(s.at, p.batch, p.rows, Size(p)); }
  }

  lemma WriterKeeps(p: Params, s: State)
    requires ValidParams(p) && WriterInv(p, s)
    ensures WriterInv(p, WriterNext(p, s))
    ensures s.sealed <= WriterNext(p, s).sealed && s.stored <= WriterNext(p, s).stored
    ensures WriterNext(p, s).online == s.online && WriterNext(p, s).readers == s.readers
    ensures s.done ==> WriterNext(p, s) == s
  {
    hide Timestamp, Window, At, PeriodOf, PeriodHolds, StrictlyRising;
    if s.writer.Sealing? && s.at < p.rows { ChunkKeeps(p, s); }
  }

  /** A batch sealed continues the prefix; only rows that do not tile can lack a timestamp. */
  lemma ChunkKeeps(p: Params, s: State)
    requires ValidParams(p) && WriterInv(p, s) && s.writer.Sealing? && s.at < p.rows
    ensures WriterInv(p, WriterNext(p, s)) && s.stored <= WriterNext(p, s).stored
  {
    BatchFits(s.at, p.batch, p.rows, Size(p));
    var end := BatchEnd(s.at, p.batch, p.rows, Size(p));
    WindowGives(p.c, s.at, end);
    RowsJoin(p.c, 0, s.at, end);
    hide Timestamp, Window, At, PeriodOf, PeriodHolds, StrictlyRising, BatchEnd;
    if Holds(p) { LastStampsAll(p.c, p.rows); }
  }

  lemma AskedKeeps(p: Params, s: State, r: Reader, t: Tally)
    requires ValidParams(p) && ReaderInv(p, s, r) && r.pc.Asking?
    requires Clean(p, t) && t.answered + t.failed == r.asked + 1 && t.tail == r.tally.tail
    ensures ReaderInv(p, s, Asked(r, t))
  {
    hide Formed, Timestamp, PeriodHolds, InCopy;
  }

  lemma ReaderFacts(p: Params, s: State, r: Reader)
    requires ValidParams(p) && WriterInv(p, s) && ReaderInv(p, s, r) && r.pc.Asking?
    ensures Askable(p, r.pc.from, r.pc.to) && r.pc.to <= s.sealed && r.pc.to - r.pc.from <= p.window
    ensures Clean(p, r.tally) && Clean(p, r.tally.(failed := r.tally.failed + 1))
    ensures r.tally.answered + r.tally.failed == r.asked
  {
    SealedIsStored(p, s);
    hide Formed, Timestamp, PeriodHolds, InCopy;
  }

  lemma AskingKeeps(p: Params, s: State, r: Reader, draw: nat, refused: bool)
    requires ValidParams(p) && WriterInv(p, s) && ReaderInv(p, s, r) && r.pc.Asking?
    ensures Askable(p, r.pc.from, r.pc.to) && ReaderInv(p, s, ReaderNext(p, s, r, draw, refused))
  {
    ReaderFacts(p, s, r);
    AnswerIsClean(p, s, r.pc.from, r.pc.to, r.tally);
    AskedKeeps(p, s, r, r.tally.(failed := r.tally.failed + 1));
    hide ReaderInv, Formed, Clean, WriterInv, Answer, Timestamp, Window, PeriodHolds, At, Asked;
    AnswerCounts(p.c, s.stored, r.pc.from, r.pc.to, r.tally);
    AskedKeeps(p, s, r, Answer(p.c, s.stored, r.pc.from, r.pc.to, r.tally));
  }

  lemma PickingKeeps(p: Params, s: State, r: Reader, draw: nat, refused: bool)
    requires ValidParams(p) && WriterInv(p, s) && ReaderInv(p, s, r) && r.pc.Picking? && draw < r.pc.loaded
    ensures ReaderInv(p, s, ReaderNext(p, s, r, draw, refused))
  {
    hide Timestamp, Window, At, Formed, PeriodHolds, WriterInv, PickWindow;
    SealedWithinRows(p, s);
    SizePositive(p);
    PickWindowFits(r.pc.loaded, Size(p), p.window, r.asked % 2 == 0, draw);
  }

  lemma SizePositive(p: Params)
    requires ValidParams(p)
    ensures Size(p) > 0 && p.window > 0
  {}

  lemma ReaderKeeps(p: Params, s: State, r: Reader, draw: nat, refused: bool)
    requires ValidParams(p) && WriterInv(p, s) && ReaderInv(p, s, r)
    requires r.pc.Picking? ==> draw < r.pc.loaded
    ensures r.pc.Asking? ==> Askable(p, r.pc.from, r.pc.to)
    ensures ReaderInv(p, s, ReaderNext(p, s, r, draw, refused))
  {
    if r.pc.Asking? {
      AskingKeeps(p, s, r, draw, refused);
    } else if r.pc.Picking? {
      PickingKeeps(p, s, r, draw, refused);
    } else {
      hide Formed, WriterInv;
    }
  }

  lemma SealedWithinRows(p: Params, s: State)
    requires ValidParams(p) && WriterInv(p, s)
    ensures s.sealed <= p.rows
  {}

  lemma AnswerCounts(c: Tiled, stored: seq<Row>, from: nat, to: nat, t: Tally)
    requires c.timestamps != [] && from < to && from % |c.timestamps| + (to - from) <= |c.values|
    requires Timestamp(c, from).Ok? && Timestamp(c, to - 1).Ok? && Window(c, from, to).Ok?
    ensures
      var a := Answer(c, stored, from, to, t);
      a.answered == t.answered + 1 && a.tail == t.tail && a.failed == t.failed
  {}

  /** What a query adds on any store: the rows asked for, the rows read, and a mismatch exactly when
      those are not the corpus's own. */
  lemma AnswerTells(c: Tiled, stored: seq<Row>, from: nat, to: nat, t: Tally)
    requires Formed(c) && from < to && from % |c.timestamps| + (to - from) <= |c.timestamps| && Stamped(c, to)
    ensures Timestamp(c, from).Ok? && Timestamp(c, to - 1).Ok? && Window(c, from, to).Ok?
    ensures
      var a, read := Answer(c, stored, from, to, t), Between(stored, At(c, from), At(c, to - 1));
      && a.verified == t.verified + (to - from) && a.read == t.read + |read|
      && a.mismatched == t.mismatched + (if read == Rows(c, from, to) then 0 else 1)
  {
    TimestampIsAt(c, from);
    TimestampIsAt(c, to - 1);
    WindowGives(c, from, to);
    hide Timestamp, Window, Between, Rows, At, PeriodOf, PeriodHolds, StrictlyRising;
  }

  lemma {:induction false} MergeIsClean(p: Params, readers: seq<Reader>)
    requires forall i :: 0 <= i < |readers| ==> Clean(p, readers[i].tally)
    ensures Clean(p, Merge(readers))
  {
    if readers == [] {
    } else {
      var front, t := readers[..|readers| - 1], readers[|readers| - 1].tally;
      MergeIsClean(p, front);
      var m := Merge(front);
      assert (m.answered + t.answered) * p.window == m.answered * p.window + t.answered * p.window;
    }
  }

  /** Every step keeps the invariant; the watermark only rises and stored rows only grow. */
  lemma NextKeeps(p: Params, s: State, step: Step)
    requires ValidParams(p) && Inv(p, s) && Enabled(p, s, step)
    ensures Inv(p, Next(p, s, step))
    ensures s.sealed <= Next(p, s, step).sealed && s.stored <= Next(p, s, step).stored
  {
    hide WriterInv, Clean, WriterNext, ReaderNext, Merge;
    var s' := Next(p, s, step);
    match step
    case WriterStep => WriterKeeps(p, s);
    case ReaderStep(i, draw, refused) =>
      ReaderKeeps(p, s, s.readers[i], draw, refused);
      SameCount(p, s, s.readers[i], draw, refused);
      SameWriter(p, s, s');
    case StartIdle =>
      SameWriter(p, s, s');
      CleanStart(p);
      WriterDone(p, s);
  }

  lemma SameCount(p: Params, s: State, r: Reader, draw: nat, refused: bool)
    requires ValidParams(p) && (r.pc.Picking? ==> draw < r.pc.loaded)
    requires r.pc.Asking? ==> Askable(p, r.pc.from, r.pc.to)
    ensures ReaderNext(p, s, r, draw, refused).fixed == r.fixed
  {
    hide Timestamp, Window, At, Answer, PickWindow;
  }

  lemma SameWriter(p: Params, s: State, s': State)
    requires ValidParams(p) && WriterInv(p, s) && s'.(readers := s.readers, online := s.online) == s
    ensures WriterInv(p, s')
  {}

  lemma WriterDone(p: Params, s: State)
    requires ValidParams(p) && WriterInv(p, s)
    ensures s.done <==> s.writer.Finished? || s.writer.Failed?
  {}

  lemma CleanStart(p: Params) ensures Clean(p, NO_QUERIES) {}

  // ---------- whole runs ----------

  /** Every phase over: the idle readers have replaced the online ones and all have stopped. */
  ghost predicate Over(s: State) {
    s.online.Some? && forall i :: 0 <= i < |s.readers| ==> s.readers[i].pc.Stopped?
  }

  /** Nothing is left to do: every phase over, or the writer failed and every reader stopped. */
  ghost predicate Ended(s: State) {
    Over(s) || (s.writer.Failed? && forall i :: 0 <= i < |s.readers| ==> s.readers[i].pc.Stopped?)
  }

  lemma {:induction false} RunKeeps(p: Params, s: State, steps: seq<Step>)
    requires ValidParams(p) && Inv(p, s) && Run(p, s, steps)
    ensures Inv(p, After(p, s, steps))
    ensures s.sealed <= After(p, s, steps).sealed && s.stored <= After(p, s, steps).stored
    decreases |steps|
  {
    hide Inv, Next, Enabled;
    if steps == [] {
    } else {
      NextKeeps(p, s, steps[0]);
      RunKeeps(p, Next(p, s, steps[0]), steps[1..]);
    }
  }

  /** No run gets stuck: until it has ended some step is enabled. */
  lemma SomeStepEnabled(p: Params, steps: seq<Step>)
    requires ValidParams(p) && Run(p, Init(p), steps)
    ensures var s := After(p, Init(p), steps); Ended(s) || exists step :: Enabled(p, s, step)
  {
    InitInv(p);
    RunKeeps(p, Init(p), steps);
    hide WriterInv, Run, After, Clean;
    var s := After(p, Init(p), steps);
    if i :| 0 <= i < |s.readers| && !s.readers[i].pc.Stopped? {
      ReaderEnabled(p, s, i);
    } else if !s.writer.Finished? && !s.writer.Failed? {
      assert Enabled(p, s, WriterStep);
    } else if s.writer.Finished? && s.online.None? {
      assert Enabled(p, s, StartIdle);
    }
  }

  lemma ReaderEnabled(p: Params, s: State, i: nat)
    requires ValidParams(p) && Inv(p, s) && i < |s.readers| && !s.readers[i].pc.Stopped?
    ensures Enabled(p, s, ReaderStep(i, 0, false))
  {
    assert ReaderInv(p, s, s.readers[i]);
    if s.readers[i].pc.Asking? { ReaderFacts(p, s, s.readers[i]); }
    hide WriterInv, Formed, Clean;
  }

  /** In every run from the start: the store holds a prefix of the corpus, the watermark never
      exceeds it and is at most one batch behind. Where the rows tile, what a reader is about to read
      is published and would be read exactly, and no answered query has differed from the corpus. */
  lemma RunIsSafe(p: Params, steps: seq<Step>)
    requires ValidParams(p) && Run(p, Init(p), steps)
    ensures var s := After(p, Init(p), steps);
      && s.stored == Rows(p.c, 0, |s.stored|) && |s.stored| <= p.rows
      && s.sealed <= |s.stored| <= s.sealed + p.batch
      && (Holds(p) ==> forall i :: 0 <= i < |s.readers| ==> ReaderSafe(p, s, s.readers[i]))
  {
    InitInv(p);
    RunKeeps(p, Init(p), steps);
    hide WriterInv, Run, After, ReaderInv, ReaderSafe, Formed, Timestamp, Holds;
    var s := After(p, Init(p), steps);
    SealedIsStored(p, s);
    StoredIsPrefix(p, s);
    if Holds(p) {
      forall i | 0 <= i < |s.readers| ensures ReaderSafe(p, s, s.readers[i]) { ReaderIsSafe(p, s, s.readers[i]); }
    }
  }

  /** What a reader has read matched, and what it is about to read will. */
  ghost predicate ReaderSafe(p: Params, s: State, r: Reader)
    requires ValidParams(p)
  {
    r.tally.mismatched == 0 && r.tally.read == r.tally.verified
      && (r.pc.Asking? ==> ReadsItsWindow(p, s, r.pc.from, r.pc.to))
  }

  lemma ReaderIsSafe(p: Params, s: State, r: Reader)
    requires ValidParams(p) && WriterInv(p, s) && ReaderInv(p, s, r) && Holds(p)
    ensures ReaderSafe(p, s, r)
  {
    if r.pc.Asking? { ReaderFacts(p, s, r); }
    hide WriterInv, Formed, Timestamp;
    if r.pc.Asking? { AnswerIsClean(p, s, r.pc.from, r.pc.to, r.tally); }
  }

  lemma StoredIsPrefix(p: Params, s: State)
    requires ValidParams(p) && WriterInv(p, s)
    ensures s.stored == Rows(p.c, 0, |s.stored|)
  {}

  ghost predicate ReadsItsWindow(p: Params, s: State, from: nat, to: nat)
    requires ValidParams(p)
  {
    && from < to <= s.sealed
    && Timestamp(p.c, from).Ok? && Timestamp(p.c, to - 1).Ok?
    && Between(s.stored, Timestamp(p.c, from).value, Timestamp(p.c, to - 1).value) == Rows(p.c, from, to)
  }

  // ---------- what the readers count ----------

  /** A reader is at the store, and is answered or refused. */
  predicate Queries(s: State, step: Step, refused: bool) {
    step.ReaderStep? && step.i < |s.readers| && s.readers[step.i].pc.Asking? && step.refused == refused
  }

  /** How many queries of a run the store refused, or answered. */
  ghost function QueriesIn(p: Params, s: State, steps: seq<Step>, refused: bool): nat
    requires ValidParams(p) && Run(p, s, steps)
    decreases |steps|
  {
    if steps == [] then 0
    else (if Queries(s, steps[0], refused) then 1 else 0) + QueriesIn(p, Next(p, s, steps[0]), steps[1..], refused)
  }

  /** The totals of both phases. */
  function Totals(s: State): Tally {
    Sum(match s.online case Some(online) => Merge(online) case None => NO_QUERIES, Merge(s.readers))
  }

  lemma {:induction false} MergeUpdate(readers: seq<Reader>, i: nat, r: Reader)
    requires i < |readers|
    ensures Merge(readers[i := r]).failed + readers[i].tally.failed == Merge(readers).failed + r.tally.failed
    ensures Merge(readers[i := r]).answered + readers[i].tally.answered == Merge(readers).answered + r.tally.answered
  {
    var n := |readers| - 1;
    if i == n {
      assert readers[i := r][..n] == readers[..n];
    } else {
      MergeUpdate(readers[..n], i, r);
      assert readers[i := r][..n] == readers[..n][i := r];
    }
  }

  lemma {:induction false} NoneYet(readers: seq<Reader>)
    requires forall i :: 0 <= i < |readers| ==> readers[i].tally == NO_QUERIES
    ensures Merge(readers) == NO_QUERIES
  {
    if readers == [] {
    } else {
      assert Merge(readers) == Sum(Merge(readers[..|readers| - 1]), readers[|readers| - 1].tally);
      hide Merge;
      NoneYet(readers[..|readers| - 1]);
    }
  }

  lemma NoneAtFirst(p: Params)
    ensures Totals(Init(p)) == NO_QUERIES
  {
    hide Merge;
    NoneYet(Init(p).readers);
  }

  lemma ReaderCounts(p: Params, s: State, r: Reader, draw: nat, refused: bool)
    requires ValidParams(p) && (r.pc.Picking? ==> draw < r.pc.loaded)
    requires r.pc.Asking? ==> Askable(p, r.pc.from, r.pc.to)
    ensures
      var t := ReaderNext(p, s, r, draw, refused).tally;
      && t.failed == r.tally.failed + (if r.pc.Asking? && refused then 1 else 0)
      && t.answered == r.tally.answered + (if r.pc.Asking? && !refused then 1 else 0)
  {
    if r.pc.Asking? { WindowGives(p.c, r.pc.from, r.pc.to); }
    hide Timestamp, Window, At, PickWindow, Rows, Between;
  }

  lemma StepCounts(p: Params, s: State, step: Step)
    requires ValidParams(p) && Enabled(p, s, step)
    ensures Totals(Next(p, s, step)).failed == Totals(s).failed + (if Queries(s, step, true) then 1 else 0)
    ensures Totals(Next(p, s, step)).answered == Totals(s).answered + (if Queries(s, step, false) then 1 else 0)
  {
    hide Merge, ReaderNext, Formed, Timestamp, Window;
    match step
    case WriterStep =>
    case ReaderStep(i, draw, refused) =>
      var r := ReaderNext(p, s, s.readers[i], draw, refused);
      ReaderCounts(p, s, s.readers[i], draw, refused);
      MergeUpdate(s.readers, i, r);
    case StartIdle => NoneYet(IdleReaders(s.readers));
  }

  lemma {:induction false} RunCounts(p: Params, s: State, steps: seq<Step>)
    requires ValidParams(p) && Run(p, s, steps)
    ensures Totals(After(p, s, steps)).failed == Totals(s).failed + QueriesIn(p, s, steps, true)
    ensures Totals(After(p, s, steps)).answered == Totals(s).answered + QueriesIn(p, s, steps, false)
    decreases |steps|
  {
    hide Totals, Queries, Next, Enabled;
    if steps == [] {
    } else {
      StepCounts(p, s, steps[0]);
      RunCounts(p, Next(p, s, steps[0]), steps[1..]);
    }
  }

  /** Every run's counts are its own: as many failed queries as reads the store refused, as many
      answered as it did not. */
  lemma CountsAreTheRuns(p: Params, steps: seq<Step>)
    requires ValidParams(p) && Run(p, Init(p), steps)
    ensures Totals(After(p, Init(p), steps)).failed == QueriesIn(p, Init(p), steps, true)
    ensures Totals(After(p, Init(p), steps)).answered == QueriesIn(p, Init(p), steps, false)
  {
    NoneAtFirst(p);
    hide Init, Totals, Run, After, QueriesIn;
    RunCounts(p, Init(p), steps);
  }

  // ---------- the report ----------

  /** The gate of the finished run: the store accounts for every row in order, no query differed,
      and none was refused. */
  ghost predicate OutputCountOk(p: Params, s: State)
    requires s.online.Some? && ValidParams(p)
  {
    var all := Sum(Merge(s.online.value), Merge(s.readers));
    && |s.stored| == p.rows && InOrder(s.stored)
    && s.stored != [] && Timestamp(p.c, 0) == Ok(s.stored[0].at)
    && Timestamp(p.c, p.rows - 1) == Ok(s.stored[|s.stored| - 1].at)
    && all.mismatched == 0 && all.failed == 0
  }

  /** No reader of either phase had a read refused. */
  ghost predicate NoneRefused(s: State)
    requires s.online.Some? && |s.online.value| == |s.readers|
  {
    forall i :: 0 <= i < |s.readers| ==> s.online.value[i].tally.failed == 0 && s.readers[i].tally.failed == 0
  }

  /** A finished run passes its gate exactly when the rows tile and the store refused no reader a
      read, that is, no step of the run was a refused read; where they tile, the points it expects and
      the points it got are equal either way; and every idle reader ran exactly as many queries as its
      online one answered, or 64 if those were fewer. */
  lemma FinishedRunReport(p: Params, steps: seq<Step>)
    requires ValidParams(p) && Run(p, Init(p), steps) && Over(After(p, Init(p), steps))
    ensures var s := After(p, Init(p), steps);
      var all := Sum(Merge(s.online.value), Merge(s.readers));
      && |s.online.value| == |s.readers| == p.readers
      && (OutputCountOk(p, s) <==> Holds(p) && NoneRefused(s))
      && (OutputCountOk(p, s) <==> Holds(p) && QueriesIn(p, Init(p), steps, true) == 0)
      && (Holds(p) ==> all.verified == all.read && all.mismatched == 0)
      && forall i :: 0 <= i < |s.readers| ==> RanItsCount(s.online.value[i].tally, s.readers[i].tally)
  {
    InitInv(p);
    RunKeeps(p, Init(p), steps);
    CountsAreTheRuns(p, steps);
    hide Run, After, QueriesIn;
    var s := After(p, Init(p), steps);
    StoredAccounts(p, s);
    ReadersRan(p, s);
    hide WriterInv, ReaderInv, Clean, IdleCount, Formed, Timestamp, InOrder, Holds, Merge, RanItsCount;
    MergeIsClean(p, s.readers);
    MergeIsClean(p, s.online.value);
    CleanTotals(p, Merge(s.online.value), Merge(s.readers));
    MergeZero(s.readers);
    MergeZero(s.online.value);
  }

  lemma CleanTotals(p: Params, a: Tally, b: Tally)
    requires Clean(p, a) && Clean(p, b)
    ensures Holds(p) ==> Sum(a, b).verified == Sum(a, b).read && Sum(a, b).mismatched == 0
  {
    hide Holds;
  }

  lemma ReadersRan(p: Params, s: State)
    requires ValidParams(p) && Inv(p, s) && Over(s)
    ensures s.writer.Finished? && |s.online.value| == |s.readers| == p.readers
    ensures forall i :: 0 <= i < |s.readers| ==> Clean(p, s.readers[i].tally) && Clean(p, s.online.value[i].tally)
    ensures forall i :: 0 <= i < |s.readers| ==> RanItsCount(s.online.value[i].tally, s.readers[i].tally)
  {
    hide WriterInv, Formed, Timestamp, Holds, Clean;
    forall i | 0 <= i < |s.readers|
      ensures Clean(p, s.readers[i].tally) && RanItsCount(s.online.value[i].tally, s.readers[i].tally)
    {
      assert ReaderInv(p, s, s.readers[i]);
    }
  }

  /** An idle reader's queries, refused ones included: as many as its online one answered, or 64 if
      those were fewer, every other one at the tail. */
  predicate RanItsCount(online: Tally, idle: Tally) {
    var ran := idle.answered + idle.failed;
    && ran >= online.answered && ran >= 64 && (ran == online.answered || ran == 64)
    && idle.tail == (ran + 1) / 2
  }

  lemma StoredAccounts(p: Params, s: State)
    requires ValidParams(p) && WriterInv(p, s) && s.writer.Finished?
    ensures |s.stored| == p.rows && (InOrder(s.stored) <==> Holds(p))
    ensures s.stored != [] && Timestamp(p.c, 0) == Ok(s.stored[0].at)
    ensures Timestamp(p.c, p.rows - 1) == Ok(s.stored[|s.stored| - 1].at)
  {
    TimestampIsAt(p.c, 0);
    TimestampIsAt(p.c, p.rows - 1);
    hide At, Timestamp, PeriodOf;
    if Holds(p) {
      RowsInOrder(p.c, p.rows);
    } else {
      SecondCopy(p.c);
      var n := Size(p);
      assert s.stored[n - 1] == RowAt(p.c, n - 1) && s.stored[n - 1 + 1] == RowAt(p.c, n);
    }
  }

  // ---------- every run can be finished ----------

  function WriterLeft(p: Params, s: State): nat {
    match s.writer
    case Sealing => if s.at <= p.rows then 2 * (p.rows - s.at) + 2 else 0
    case Publishing(_) => if s.at <= p.rows then 2 * (p.rows - s.at) + 1 else 0
    case Finished => 0
    case Failed => 0
  }

  /** Steps a reader has before it stops, with the writer done. */
  function ReaderLeft(r: Reader): nat {
    var queries := match r.fixed case Some(count) => (if count >= r.asked then count - r.asked else 0) case None => 0;
    match r.pc
    case Testing => 4 * queries + 1
    case Loading => if r.fixed.Some? then 4 * queries else 4
    case Picking(_) => if r.fixed.Some? then (if queries > 0 then 4 * queries - 1 else 0) else 3
    case Asking(_, _) => if r.fixed.Some? then (if queries > 0 then 4 * queries - 2 else 0) else 2
    case Stopped => 0
  }

  function ReadersLeft(readers: seq<Reader>): nat {
    if readers == [] then 0 else ReadersLeft(readers[..|readers| - 1]) + ReaderLeft(readers[|readers| - 1])
  }

  lemma {:induction false} OneLess(readers: seq<Reader>, i: nat, r: Reader)
    requires i < |readers| && ReaderLeft(r) < ReaderLeft(readers[i])
    ensures ReadersLeft(readers[i := r]) < ReadersLeft(readers)
  {
    hide ReaderLeft;
    var n := |readers| - 1;
    if i == n {
      assert readers[i := r][..n] == readers[..n];
    } else {
      OneLess(readers[..n], i, r);
      assert readers[i := r][..n] == readers[..n][i := r];
    }
  }

  lemma WriterAdvances(p: Params, s: State)
    requires ValidParams(p) && WriterInv(p, s) && !s.writer.Finished? && !s.writer.Failed?
    ensures WriterLeft(p, WriterNext(p, s)) < WriterLeft(p, s)
  {
    hide Timestamp, Window, At, PeriodOf, PeriodHolds, StrictlyRising, Rows;
    if s.at < p.rows { BatchFits(s.at, p.batch, p.rows, Size(p)); }
  }

  /** With the writer done each step of a reader brings it nearer its end. */
  lemma ReaderAdvances(p: Params, s: State, r: Reader)
    requires ValidParams(p) && ReaderInv(p, s, r) && s.done && (s.online.Some? ==> s.sealed > 0) && !r.pc.Stopped?
    requires r.pc.Asking? ==> Askable(p, r.pc.from, r.pc.to)
    ensures ReaderLeft(ReaderNext(p, s, r, 0, false)) < ReaderLeft(r)
  {
    hide Timestamp, Window, At, Formed, PeriodHolds, Answer, PickWindow, Clean;
  }

  lemma DoneSealed(p: Params, s: State)
    requires ValidParams(p) && WriterInv(p, s)
    ensures s.writer.Finished? || s.writer.Failed? <==> s.done
    ensures s.writer.Finished? ==> s.sealed == p.rows > 0
  {}

  /** The next step of a state that has not ended, and its progress: in phase, then in the
      writer's steps, then in the readers'. */
  lemma SomeProgress(p: Params, s: State) returns (step: Step)
    requires ValidParams(p) && Inv(p, s) && !Ended(s)
    ensures Enabled(p, s, step) && Progress(p, s, Next(p, s, step))
  {
    DoneSealed(p, s);
    if !s.writer.Finished? && !s.writer.Failed? {
      step := WriterStep;
      WriterAdvances(p, s);
      WriterKeeps(p, s);
    } else if i :| 0 <= i < |s.readers| && !s.readers[i].pc.Stopped? {
      assert ReaderInv(p, s, s.readers[i]);
      step := ReaderStep(i, 0, false);
      ReaderEnabled(p, s, i);
      ReaderAdvances(p, s, s.readers[i]);
      hide ReaderNext, ReaderLeft, WriterInv;
      OneLess(s.readers, i, ReaderNext(p, s, s.readers[i], 0, false));
    } else {
      step := StartIdle;
    }
  }

  ghost predicate Progress(p: Params, s: State, s': State) {
    if s.online.None? && s'.online.Some? then true
    else
      s'.online == s.online
      && (WriterLeft(p, s') < WriterLeft(p, s)
          || (WriterLeft(p, s') == WriterLeft(p, s) && ReadersLeft(s'.readers) < ReadersLeft(s.readers)))
  }

  /** Every state that keeps the invariant can be continued to its end. */
  lemma {:induction false} CanFinish(p: Params, s: State) returns (steps: seq<Step>)
    requires ValidParams(p) && Inv(p, s)
    ensures Run(p, s, steps) && Ended(After(p, s, steps))
    decreases if s.online.None? then 1 else 0, WriterLeft(p, s), ReadersLeft(s.readers)
  {
    if Ended(s) {
      steps := [];
    } else {
      var step := SomeProgress(p, s);
      NextKeeps(p, s, step);
      hide Inv, Next, Enabled, Ended, WriterLeft, ReadersLeft;
      var rest := CanFinish(p, Next(p, s, step));
      steps := [step] + rest;
      assert steps[1..] == rest;
    }
  }

  lemma {:induction false} RunJoins(p: Params, s: State, a: seq<Step>, b: seq<Step>)
    requires ValidParams(p) && Run(p, s, a) && Run(p, After(p, s, a), b)
    ensures Run(p, s, a + b) && After(p, s, a + b) == After(p, After(p, s, a), b)
    decreases |a|
  {
    hide Next, Enabled;
    if a == [] {
      assert a + b == b;
    } else {
      assert (a + b)[1..] == a[1..] + b && (a + b)[0] == a[0];
      RunJoins(p, Next(p, s, a[0]), a[1..], b);
    }
  }

  /** Every run has a continuation that ends it; where the rows tile, with all phases over. */
  lemma EveryRunFinishes(p: Params, steps: seq<Step>) returns (rest: seq<Step>)
    requires ValidParams(p) && Run(p, Init(p), steps)
    ensures Run(p, Init(p), steps + rest) && Ended(After(p, Init(p), steps + rest))
    ensures Holds(p) ==> Over(After(p, Init(p), steps + rest))
  {
    InitInv(p);
    RunKeeps(p, Init(p), steps);
    hide Run, After, Inv, Over, Enabled, Next;
    rest := CanFinish(p, After(p, Init(p), steps));
    RunJoins(p, Init(p), steps, rest);
    RunKeeps(p, Init(p), steps + rest);
    if Holds(p) { NeverFails(p, After(p, Init(p), steps + rest)); }
  }

  lemma NeverFails(p: Params, s: State)
    requires ValidParams(p) && Inv(p, s) && Holds(p)
    ensures !s.writer.Failed?
  {}
}
