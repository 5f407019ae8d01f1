# WeftDB benchmark harness, Arrow bridge and release check: a verified model

The repository ships a benchmark harness whose verdicts are only worth something if its own
references, gates and bookkeeping are right. This project models that part of it in Dafny and proves
what each piece is for:

| file | component |
|---|---|
| `Lagrange.dfy`, `Conformance.dfy` | the exact spline reference: sort and dedupe, window choice, Lagrange basis and Lebesgue sum, edge rules |
| `Baselines.dfy` | the piecewise-linear and forward-fill adapters, compared with that reference |
| `Scoring.dfy` | the contract error and a method's pass flag |
| `ValuesSidecar.dfy` | the binary sidecar of a run's values, written and read |
| `Tiling.dfy`, `Growth.dfy` | a corpus laid end to end, sealed in batches and checked at each checkpoint |
| `OnlineIngest.dfy` | one writer and any number of readers, every interleaving |
| `KillIngest.dfy` | a child process killed at any step, the gate on what it left, the resumed ingest |
| `CrateGraph.dfy` | the release check's cycle finder and its publish order |
| `Num.dfy`, `NumWide.dfy` | integer/binary64 conversion, bit by bit (IEEE 754-2019, sections 3.4 and 4.3.1) |
| `GapFill.dfy`, `GapGate.dfy`, `Extremes.dfy` | reference sets: the buckets a query must synthesize and the gate on them, the extremes a detector must report |
| `HttpBody.dfy`, `TailKeys.dfy`, `Utf8.dfy` | the chunked-body reader (section 7.1 of RFC 9112), its bounded tail, a number read from the tail's text, and the decoding both rest on (section 3 of RFC 3629) |
| `ArrowColumns.dfy` | decimal export and the strict and lenient column readers |
| `SyntheticCorpus.dfy`, `Trend.dfy` | corpus construction against window fit; windowed memory trends |

`Wrappers.dfy`, `Integers.dfy` and `Points.dfy` hold what they share.

How things are represented:

- Decimals and, in scoring, floats are exact reals; only `Num.dfy` and `NumWide.dfy` work on bit patterns. Instants are
  integers, bounded to 64 bits where the code checks or wraps them.
- Random draws are arbitrary: a nondeterministic choice in a loop, or a function from the draw's index
  to its value over which a lemma quantifies.
- The segment store is the sequence of its rows. A seal appends a whole batch or nothing; a time-range
  read returns the rows in the range. Concurrency is a state machine over atomic steps.
- What the code asks of other crates is a parameter: a spline's minimum points, fallback and bounds
  factor; text parsing and the decimal domain; the calendar's range.

Where the code does less than it or its documentation says, the model keeps the code, a lemma names an
input, and an if-and-only-if lemma gives the exact condition:

- `failure.rs` gates the reopened store against a next boundary that leaves out the copy's end, so it
  refuses a child that did nothing wrong (`HonestChildRefused`); it is right exactly when no copy end
  cuts a batch a kill can follow (`GateRightForPromptKills`), and, if the child may run on past the
  announcements read, exactly when there are at most two batches (`GateRightForAllKills`).
- The period of a tiled corpus is formed without an overflow check, so a corpus can pass every guard
  and tile into falling instants (`WrappedPeriodAccepted`); rows rise exactly when they lie in one copy
  or the period fits (`RisesExactly`). A growth run then gets through with every checkpoint passed
  exactly when the period held (`RunIngestGrowth`), and an online run passes its gate only where the
  rows tile (`FinishedRunReport`). The kill-and-resume model starts from rows that tile.
- A chunk size line with blanks before its extension, legal in section 7.1.1 of RFC 9112, is refused
  (`PaddedExtensionRefused`, `EverySplitDelivered`).
- The linear baseline holds a segment flat when its durations leave 64-bit nanoseconds, and reads the
  first of samples at one instant where the reference keeps the last (`LongSpanHeldFlat`,
  `LinearMatchesReference`). Forward fill may hit any duplicate of an instant (`DuplicateHit`,
  `ForwardFillExact`).
- A `u128` converts by up to three roundings, so not always to the nearest value (`U128NotNearest`); it
  does exactly when the roundings of the halves neither make, break nor carry into a tie
  (`U128ToF64Exact`).
- A values grid as long as the sentinel is written and read back as no grid (`SentinelGridLost`,
  `RoundTrip`).
- `try_decimal128_array` is documented to return `None` for a value that does not fit the scale
  exactly; it cuts the value instead (`HalfIsCut`, `ExportImports`).
- The outage probability is documented to make the expected removed share the one asked for; it leaves
  out the bucket kept after each outage and always falls short of a share above zero
  (`ShareFallsShort`).
- The synthetic corpus adds instants without an overflow check (`WideStepWraps`, `Ascends`,
  `SafeForEveryDraw`); without overflow checks in the build the sum wraps, which is what is modelled.
- A `u64` or `i64` there and back is exact for more than the integers up to 2^53, and for all ones
  (`RoundTripU64`, `RoundTripI64`).

Run `dafny verify dfyconfig.toml` to check everything.

## Model

| member | source | states |
|---|---|---|
| `Lagrange.Unity` | weft-bench/src/conformance.rs:328-337 | The basis weights of any nonempty window of strictly rising nodes sum to 1, at every target |
| `Lagrange.LebesgueAtLeastOne` | weft-bench/src/conformance.rs:336-346 | Hence the sum of their absolute values is at least 1 |
| `Lagrange.LebesgueBounds` | weft-bench/src/conformance.rs:336-346 | No node values within [-1, 1] interpolate to more than the Lebesgue sum in absolute value |
| `Lagrange.LebesgueReached` | weft-bench/src/conformance.rs:336-346 | Some node values within [-1, 1] interpolate to exactly it: the sum is the largest such value |
| `Lagrange.Reproduces` | weft-bench/src/conformance.rs:328-337 | Node values of any polynomial of degree below the window's size interpolate to that polynomial everywhere, inside and outside the window |
| `Lagrange.TotalAtNode` | weft-bench/src/conformance.rs:328-337 | At a node of the window the weighted sum is that node's value |
| `Lagrange.TotalRescaled` | weft-bench/src/conformance.rs:315-337 | An affine change of all instants and the target changes neither the value nor the Lebesgue sum |
| `Conformance.StableSortKeeps` | weft-bench/src/conformance.rs:269-271 | The stable sort is sorted, a permutation, and keeps the last value of each instant last |
| `Conformance.DistinctCorrect` | weft-bench/src/conformance.rs:266-280 | Sort and dedupe gives strictly rising instants, exactly the input's, each with the value at its last input position |
| `Conformance.Distinct` | weft-bench/src/conformance.rs:268-280 | The loop computes that series |
| `Conformance.LastValuesMeaning` | weft-bench/src/conformance.rs:266-280 | Every instant present is a key, and maps to the value at the last position carrying it |
| `Conformance.LastValuesPresent` | weft-bench/src/conformance.rs:266-280 | Every key is an instant of the input, with a last position that carries it |
| `Conformance.RisingUnique` | weft-bench/src/conformance.rs:266-280 | A strictly rising series is determined by what it says of each instant |
| `Conformance.SameKnots` | weft-bench/src/conformance.rs:266-280 | Two inputs have the same knots exactly when they say the same of each instant |
| `Conformance.OrderIndependent` | weft-bench/src/conformance.rs:268-280 | With unique instants any rearrangement of the input has the same knots, so the same reference |
| `Conformance.ExactWithLebesgue` | weft-bench/src/conformance.rs:311-347 | The whole reference: value and Lebesgue sum of the rounded distinct knots under the method chosen for their count, over the one window `WindowIs` names |
| `Conformance.Evaluate` | weft-bench/src/conformance.rs:313-346 | Cubic edge values, window choice, weighted sum and clamp, against the specification |
| `Conformance.WindowSums` | weft-bench/src/conformance.rs:326-337 | The outer loop computes the weighted sum and the sum of absolute weights |
| `Conformance.WindowBasis` | weft-bench/src/conformance.rs:329-334 | The inner loop computes the Lagrange basis weight |
| `Conformance.WindowIs` | weft-bench/src/conformance.rs:322-325 | For every instant the window is as many knots as the method asks, or all, with half of them (rounded down) at or before the instant and the others after it as far as the ends of the data allow; no other window is |
| `Conformance.WindowHolds` | weft-bench/src/conformance.rs:322-325 | The window chosen for a knot's instant contains that knot |
| `Conformance.ReferenceAtKnot` | weft-bench/src/conformance.rs:311-347 | The reference passes through every knot, for every method |
| `Conformance.ReferenceReproduces` | weft-bench/src/conformance.rs:322-346 | Whenever the window's own knots lie on a polynomial of degree below its size, the interpolant is that polynomial at the instant, up to the method's edge rules; the knots outside the window are free |
| `Conformance.RaisingIsIdle` | weft-bench/src/conformance.rs:346 | Raising the Lebesgue sum to 1 never changes it |
| `Conformance.ReferenceRetimed` | weft-bench/src/conformance.rs:313-346 | Shifting all instants, or stretching them by a positive factor, changes neither value nor Lebesgue sum |
| `Conformance.ClampedStaysNear` | weft-bench/src/conformance.rs:338-345 | An extrapolated value of a bounded method stays within the bounds factor's data ranges of the data: kept where it lies within them, else the nearer bound |
| `Conformance.RangeOfData` | weft-bench/src/conformance.rs:338-341 | The range used is that of the data: its ends are values of the data and no value lies beyond them |
| `Conformance.CubicHoldsNearest` | weft-bench/src/conformance.rs:319-321 | Beyond the data a cubic holds the value of the knot nearest the instant |
| `Baselines.LinearMatchesReference` | weft-bench/src/baseline_adapter.rs:81-114 | Over sorted samples, ties included, and every outcome of the binary search, the linear baseline equals the two-knot reference of the distinct samples exactly when a hit is the last of its instant, a segment's end is (or, with durations beyond 64 bits, its start has that value), and a tie at an end lies on the end line |
| `Baselines.LinearForEveryOutcome` | weft-bench/src/baseline_adapter.rs:81-114 | Every outcome of the search at once gives the reference's value exactly under a condition on the samples and the instant alone: every sample at the instant carries the last one's value, or, with none there, the line through the place it would take agrees |
| `Baselines.SegmentReference` | weft-bench/src/baseline_adapter.rs:86-95 | For a missed instant the reference lies on the line through the segment the baseline picks, inside or beyond the data |
| `Baselines.LongSpanHeldFlat` | weft-bench/src/baseline_adapter.rs:98-113 | Two samples 2^63 ns apart on which they differ |
| `Baselines.ForwardFillExact` | weft-bench/src/forward_fill_adapter.rs:86-96 | Over sorted samples with duplicates, forward fill reads the last sample of the held instant, whichever hit the search reports, exactly under the stated condition on ties |
| `Baselines.HeldInstantIs` | weft-bench/src/forward_fill_adapter.rs:81-96 | Every series has exactly one held instant at every instant: the latest at or before it, else the earliest |
| `Baselines.DuplicateHit` | weft-bench/src/forward_fill_adapter.rs:86-89 | Two samples at one instant on which it reads the first |
| `CrateGraph.Search.Visit` | scripts/crates/check.py:499-512 | From any valid search state: a path returned is a real closed path; otherwise the path is restored, the crate has settled and settled crates stay in dependencies-first order |
| `CrateGraph.ClosesCycle` | scripts/crates/check.py:500-501 | The path from the crate's first occurrence, closed by the crate, is a cycle of real edges |
| `CrateGraph.DependencyCycle` | scripts/crates/check.py:493-519 | Returns a cycle of publishable-to-publishable edges whenever one exists, and nothing exactly when there is none |
| `CrateGraph.OrderedReachesNoCycle` | scripts/crates/check.py:510-512 | A crate in a dependencies-first order reaches no cycle |
| `CrateGraph.AcyclicMeansNoneReaches` | scripts/crates/check.py:493-519 | The publishable graph is acyclic exactly when no crate reaches a cycle |
| `CrateGraph.PublishOrder` | scripts/crates/check.py:535-556 | A permutation of the publishable crates; a dependencies-first part, then, empty exactly when acyclic, exactly the crates that can reach a cycle, in member order; when acyclic, the least dependencies-first order |
| `CrateGraph.GreedyIsLeast` | scripts/crates/check.py:544-551 | Taking the first ready member each time is lexicographically least by member position among dependencies-first orders |
| `CrateGraph.StuckReachesCycle` | scripts/crates/check.py:552-555 | When everything left needs something left, each crate left can reach a cycle |
| `CrateGraph.Finish` | scripts/crates/check.py:544-556 | What the loop's invariant means on either exit: the fallback is taken exactly when there is a cycle |
| `Num.F64ToU64IsAsCast` | weft-bench/src/num.rs:49-69 | For every 64-bit pattern the shifts equal truncation toward zero with saturation, NaN to zero |
| `Num.F64ToI64IsAsCast` | weft-bench/src/num.rs:71-90 | Likewise for `i64`, signs included |
| `Num.SpecialPatterns` | weft-bench/src/num.rs:49-90 | By bit pattern: a NaN gives zero, an infinity the bound on its side |
| `Num.MulAddExact` | weft-bench/src/num.rs:18-21 | Splitting, converting both halves and fusing them rounds the integer once |
| `Num.OperandsExact` | weft-bench/src/num.rs:18-21 | The halves and the multiplier convert exactly, so the fused operation's exact value is the integer |
| `Num.RoundIsNearest` | weft-bench/src/num.rs:15-22 | Rounding an integer of up to 1000 bits is nearest, ties to even, over all finite patterns |
| `Num.RoundToF64Value` | weft-bench/src/num.rs:15-22 | The assembled bit pattern has the rounded integer as its value, carries into the exponent included |
| `Num.U64ToF64IsNearest` | weft-bench/src/num.rs:15-22 | No finite bit pattern is nearer to the integer, and where another is as near, the result's significand is even |
| `Num.I64ToF64IsNearest` | weft-bench/src/num.rs:38-47 | The same for every `i64`, on either side of zero |
| `NumWide.U128ToF64Near` | weft-bench/src/num.rs:30-36 | Rounding up to three times stays within 3 * 2^74 + 2^10 of the integer, and is a single rounding when both halves have at most 53 significant bits |
| `NumWide.U128ToF64Exact` | weft-bench/src/num.rs:30-36 | For every `u128` the result is the integer rounded once exactly when: the high half is zero; or, with it below 2^53, rounding the low half makes no tie that then goes the wrong way; or, with it wider, it is not a midpoint over an even quotient that a nonzero low half would have broken, nor, at 54 bits, does the low half round up to 2^64 into a tie over an odd quotient |
| `NumWide.U128NotNearest` | weft-bench/src/num.rs:30-36 | A `u128` that does not convert to a nearest value |
| `Num.U64ToF64Monotone` | weft-bench/src/num.rs:17-22 | Conversion is monotone |
| `Num.RoundTripU64` | weft-bench/src/num.rs:17-69 | There and back is within 1024 for every `u64`, and exact exactly for integers of at most 53 significant bits and `u64::MAX` |
| `Num.RoundTripI64` | weft-bench/src/num.rs:40-90 | There and back is within 512 for every `i64`, and exact exactly for magnitudes of at most 53 significant bits and `i64::MAX` |
| `Tiling.AtRises` | weft-bench/src/ingest.rs:200-215 | Where the first rows tile (they lie in one copy, or the period did not overflow), instants rise strictly across all copies |
| `Tiling.RisesExactly` | weft-bench/src/ingest.rs:268-271 | For every corpus, with the period computed in unchecked 64-bit arithmetic, the first rows rise strictly exactly when they lie in one copy or span plus first stride is a 64-bit number |
| `Tiling.TimestampIsAt` | weft-bench/src/ingest.rs:210-215 | A checked timestamp that is given is the row's own instant, whatever the period |
| `Tiling.TimestampGiven` | weft-bench/src/ingest.rs:210-215 | It is given exactly when the copy's number, its shift and the instant all fit 64 bits |
| `Tiling.TimestampDownward` | weft-bench/src/ingest.rs:210-215 | Where the rows tile, if the checked timestamp of an index succeeds it does for every earlier index |
| `Tiling.WindowGives` | weft-bench/src/ingest.rs:217-224 | For every corpus, a window is given exactly when each of its rows has a timestamp, and is then exactly those rows |
| `Tiling.WindowIsRows` | weft-bench/src/ingest.rs:217-224 | So where the rows tile, a window within one copy is exactly its rows |
| `Tiling.BatchFits` | weft-bench/src/ingest.rs:288-291 | No batch is empty, too long, or across two copies, and each is as long as that lets it be |
| `Tiling.ReadsExactly` | weft-bench/src/ingest.rs:499-515 | Where the rows tile, a read of the span of rows `from..to` returns exactly them, whatever was stored since |
| `Tiling.SealTiled` | weft-bench/src/ingest.rs:481-495 | For every corpus, what is sealed is exactly its first rows, in such batches, and the published mark never passes it; it ends at `rows` exactly when every row has a timestamp |
| `Growth.AcceptedIs` | weft-bench/src/ingest.rs:263-271 | What the checks on neighbours accept, pair by pair: strictly rising instants whose first two are at most a 64-bit number apart, strictly rising checkpoints of at least two rows, and a timestamp for the last row |
| `Growth.AcceptedIsFormed` | weft-bench/src/ingest.rs:263-271 | The checks give a rising corpus with its wrapped period, and strictly rising checkpoints of at least two rows |
| `Growth.ExpectedRows` | weft-bench/src/ingest.rs:312-321 | The expected window, built one copy at a time, is exactly rows `from..to` |
| `Growth.ReadBack` | weft-bench/src/ingest.rs:306-324 | On any store, the comparison says whether the span of rows `from..to` reads back as exactly them |
| `Growth.CheckStage` | weft-bench/src/ingest.rs:298-325 | On any store, whether it accounts for its rows (number, span, order), and whether its first and last windows read back |
| `Growth.PassesExactly` | weft-bench/src/ingest.rs:298-325 | At every size, the stores that pass are those with the checkpoint's number of rows, in rising order, whose first and last windows are the corpus's own |
| `Growth.WrappedNeverPasses` | weft-bench/src/ingest.rs:298-299 | Where the period did not hold, the corpus's own rows fall, and a store of exactly them does not pass |
| `Growth.ExactRowsPass` | weft-bench/src/ingest.rs:298-325 | A store holding exactly the checkpoint's rows passes, and while the two windows cover them all (up to 131072 rows) no other store does |
| `Growth.RunStage` | weft-bench/src/ingest.rs:284-330 | A stage takes the store from one checkpoint's rows to the next one's, exactly when each has a timestamp, in batches as `Tiling.SealTiled`'s, and reports whether the store passes |
| `Growth.RunIngestGrowth` | weft-bench/src/ingest.rs:261-337 | Refused exactly when a check fails; through exactly when besides every row has a timestamp, and then at every checkpoint the store held exactly its rows; each stage sealed in its own batches; through with every checkpoint passed exactly when the period held |
| `Growth.WrappedPeriodAccepted` | weft-bench/src/ingest.rs:263-271 | A corpus that passes every check and whose row 2 gets an instant below row 1's |
| `OnlineIngest.PickWindowFits` | weft-bench/src/ingest.rs:522-533 | For any draw the window is nonempty, sealed, within one copy and no longer than asked, and as long as that allows; a tail window ends at the newest sealed row, another starts at the draw |
| `OnlineIngest.AnswerIsClean` | weft-bench/src/ingest.rs:499-520 | A query of published rows has both its timestamps and its expected rows; where the rows tile it reads exactly those rows, however many batches were sealed since the load |
| `OnlineIngest.AnswerTells` | weft-bench/src/ingest.rs:499-520 | On any store a query adds the rows asked for and the rows read, and a mismatch exactly when those read are not the corpus's own |
| `OnlineIngest.MergeJoins` | weft-bench/src/ingest.rs:575-589 | Merging adds up every count: a list of readers joined from two has the sum of their totals |
| `OnlineIngest.MergeOne` | weft-bench/src/ingest.rs:575-589 | One reader's total is what it saw |
| `OnlineIngest.NextKeeps` | weft-bench/src/ingest.rs:481-561 | For every corpus, every atomic step of the writer, a reader or the phase change keeps the invariant; the mark and the store only grow |
| `OnlineIngest.RunIsSafe` | weft-bench/src/ingest.rs:481-561 | In every run over any corpus the checks let in: the store is a prefix of the corpus and the mark is at or below it by at most one batch; where the rows tile, every window about to be read is read exactly, with no mismatch, and rows read equal rows verified |
| `OnlineIngest.SomeStepEnabled` | weft-bench/src/ingest.rs:536-624 | No run is stuck before it has ended: every phase over, or a row without a timestamp and every reader stopped |
| `OnlineIngest.EveryRunFinishes` | weft-bench/src/ingest.rs:536-624 | Every run has a finite continuation that ends it; where the rows tile, with all phases over |
| `OnlineIngest.CountsAreTheRuns` | weft-bench/src/ingest.rs:499-589 | In every run the reported failed and answered queries are as many as the run's refused and answered reads |
| `OnlineIngest.FinishedRunReport` | weft-bench/src/ingest.rs:456-463 | A finished run passes its gate exactly when the rows tile and no reader of either phase had a read refused, that is, no step of the run was one; where they tile, expected and read rows are equal either way; each idle reader ran as many queries as its online one answered, or 64 if those were fewer |
| `KillIngest.KillLeavesPrefix` | weft-bench/src/failure.rs:228-235 | After any number of atomic steps the child's store is a prefix ending at the last announced batch boundary or the next, and every announcement is within it |
| `KillIngest.ChildReaches` | weft-bench/src/failure.rs:228-235 | Every one of those states is reached: each batch announced, and each stored but unannounced |
| `KillIngest.Exact` | weft-bench/src/failure.rs:314-332 | On any store, whether the span of rows `0..rows` reads back as exactly them |
| `KillIngest.Resume` | weft-bench/src/failure.rs:138-145 | The resumed ingest adds exactly the corpus's rows from `held` on, whatever the store holds, in batches within one copy and as long as that lets them be |
| `KillIngest.RecoverAndResume` | weft-bench/src/failure.rs:132-146 | Whatever the store came back with, the verdict is ok exactly when it is the corpus's first `held` rows and `held` is all that was acknowledged, or that and one full batch, or everything; then nothing acknowledged is missing and the ingest ends whole |
| `KillIngest.GateMeans` | weft-bench/src/failure.rs:136-137 | The gate against those cases, for every acknowledged count and every store size |
| `KillIngest.NothingLost` | weft-bench/src/failure.rs:136-137 | What the gate accepts holds every acknowledged row and at most one batch more; less than a full batch more only at the end |
| `KillIngest.KilledVerdict` | weft-bench/src/failure.rs:132-146 | After any kill the store is a prefix, so the ingest ends whole and the verdict is the gate's |
| `KillIngest.KillAfterIs` | weft-bench/src/failure.rs:124-125 | The announcements waited for before the kill are one, or any number whose full batches leave rows to seal |
| `KillIngest.GateRightForPromptKills` | weft-bench/src/failure.rs:136-137 | The gate accepts every kill before another announcement exactly when no copy end cuts a batch a kill can follow |
| `KillIngest.GateRightForAllKills` | weft-bench/src/failure.rs:127-137 | It accepts every kill, announcements unread included, exactly when two batches reach the end: a condition on rows, batch and copy size |
| `KillIngest.SecondBoundary` | weft-bench/src/failure.rs:229-230 | The child's second boundary is the end exactly under that condition |
| `KillIngest.HonestChildRefused` | weft-bench/src/failure.rs:136-137 | Copies of three rows and batches of two: a correct child is refused |
| `GapFill.Outages` | weft-bench/src/gap_fill.rs:121-142 | For any draws the removed buckets are exactly the outages of a walk over the interior: where a draw is below the probability an outage of the drawn length, then one kept bucket, else one kept bucket; they are runs of bounded length each two separated by a kept bucket, none at a share of zero |
| `GapFill.StartProbability` | weft-bench/src/gap_fill.rs:127-129 | The probability is the share over `mean * (1 - share) + share`, below 1, so its cap never applies |
| `GapFill.ShareFallsShort` | weft-bench/src/gap_fill.rs:121-140 | With it the walk removes `mean / (mean + share)` of the share asked for in the long run: the share itself exactly when that is zero |
| `GapFill.KeptBucketNear` | weft-bench/src/gap_fill.rs:133-137 | Hence no outage spans more buckets than the longest draw |
| `GapFill.Split` | weft-bench/src/gap_fill.rs:206-217 | One pass keeps the survivors in order and sums and counts exactly the removed samples of each bucket |
| `GapFill.RecordTruth` | weft-bench/src/gap_fill.rs:218 | Each removed bucket that held samples, at its start with their mean, ascending; refused exactly when such a start does not exist |
| `GapFill.RecordGaps` | weft-bench/src/gap_fill.rs:219-221 | The series' own empty buckets at their starts, ascending; refused exactly when such a start does not exist |
| `GapFill.SurvivorsCount` | weft-bench/src/gap_fill.rs:208-217 | Each sample is kept or removed once: a bucket keeps all its samples or none |
| `GapFill.Cut` | weft-bench/src/gap_fill.rs:195-223 | The whole cut: exactly when each refusal happens, the survivors in order, and the truth and natural gaps recorded |
| `GapFill.ExpectedIsSynthesized` | weft-bench/src/gap_fill.rs:281-287 | Truth and natural gaps together are exactly the grid buckets no survivor maps to, each once |
| `GapFill.SynthesizedAscends` | weft-bench/src/gap_fill.rs:283-287 | The list the gate compares with is strictly ascending |
| `GapFill.EndsSurvive` | weft-bench/src/gap_fill.rs:131-141 | The first and the last sample survive every cut |
| `GapFill.BucketsWithinSpan` | weft-bench/src/gap_fill.rs:198-200 | Every sample's bucket lies between the first's and the last's |
| `GapFill.BucketMonotone` | weft-reduce/src/lib.rs:817-823 | Bucketing is monotone in the instant, on both sides of the epoch and for both step kinds |
| `GapFill.BucketIs` | weft-reduce/src/lib.rs:817-823 | For every instant and step: the bucket given is the one whose instants include it, one step from its start on, with whole-second steps rounding toward the epoch; none is given exactly when a sub-second step's bucket leaves 64 bits |
| `GapFill.StartInjective` | weft-reduce/src/lib.rs:830-836 | Starts, where there are any, order and identify their buckets |
| `GapFill.StartInBucket` | weft-reduce/src/lib.rs:817-836 | A bucket's start lies in that bucket, for every step |
| `GapGate.PassesExactly` | weft-bench/src/gap_fill.rs:278-290 | Over any cut series the gate passes exactly the grids with one bucket a step, synthesized at its start exactly where no survivor falls, and as many samples in all as survived |
| `GapGate.RightGridPasses` | weft-bench/src/gap_fill.rs:278-290 | The grid of the survivors' own counts passes, whatever was cut |
| `GapGate.SortedIs` | weft-bench/src/gap_fill.rs:285-287 | Sorting the expected list determines it |
| `Extremes.InsideGap` | weft-bench/src/analytics.rs:10-15 | A resampled minute inside a gap is strictly between the gap's ends, or equal to both |
| `Extremes.ResampledAtMostMax` | weft-bench/src/analytics.rs:10-15 | Resampling never leaves the rows' range upwards |
| `Extremes.PeaksAreReference` | weft-bench/src/analytics.rs:103-111 | The strict three-minute peaks of the resampled series at its global maximum are exactly the reference's rows |
| `Extremes.ValleysAreReference` | weft-bench/src/analytics.rs:103-111 | The dual for minima |
| `Scoring.ContractErrorBound` | weft-bench/src/conformance.rs:636-640 | The contract error is within `b` exactly when the difference is within `b * scale + epsilon * abs(exact)` |
| `Scoring.ScorePoint` | weft-bench/src/conformance.rs:662-679 | At every bound a row passes after a point exactly when it did before and the point is within it; the inside and outside maxima each change by the points of their own kind |
| `Scoring.ScoreFixture` | weft-bench/src/conformance.rs:651-687 | Likewise for a whole fixture: raw mismatches, lengths, non-finite results and errors included, each counted once |
| `Scoring.Score` | weft-bench/src/conformance.rs:649-697 | A method passes exactly when every fixture of it breaks nothing, and its row counts are the sums of its fixtures' |
| `ValuesSidecar.WriteValues` | weft-bench/src/conformance.rs:916-934 | Writes the encoding, or fails exactly when some count does not fit 32 bits |
| `ValuesSidecar.Layout` | weft-bench/src/conformance.rs:904-924 | Every file begins with the letters WGCVAL01, and a missing grid is four bytes of ones |
| `ValuesSidecar.ReadValues` | weft-bench/src/conformance.rs:941-974 | The nested reading loops compute the decoder, errors included |
| `ValuesSidecar.ReadsBack` | weft-bench/src/conformance.rs:916-974 | What was written is read back, whatever follows it |
| `ValuesSidecar.RoundTrip` | weft-bench/src/conformance.rs:904-974 | Everything writable is read back exactly when no grid has the sentinel's length |
| `ValuesSidecar.TargetsHaveNoSentinel` | weft-bench/src/conformance.rs:957-970 | The reader never returns a grid of the sentinel's length |
| `ValuesSidecar.DecodeSound` | weft-bench/src/conformance.rs:941-974 | Whatever the reader accepts begins with the encoding of what it returns |
| `ValuesSidecar.SentinelGridLost` | weft-bench/src/conformance.rs:958-961 | Any grid of that length comes back as no grid |
| `ValuesSidecar.EncodeInjective` | weft-bench/src/conformance.rs:916-934 | The encoding is injective on lists without such a grid |
| `HttpBody.TailStays` | weft-bench/src/e2e_interpolation.rs:1005-1012 | One write keeps the tail a suffix of the stream of between min(count, 4096) and 8192 bytes |
| `HttpBody.TailSink.Write` | weft-bench/src/e2e_interpolation.rs:1004-1013 | The in-place sink does that and counts every byte |
| `HttpBody.TailSink.CopyFrom` | weft-bench/src/e2e_interpolation.rs:983 | However the library cuts the copy into writes, all of it reaches the stream |
| `TailKeys.AfterWritesIsTail` | weft-bench/src/e2e_interpolation.rs:997-1013 | The same after any sequence of writes |
| `HttpBody.ReadChunkedBody` | weft-bench/src/e2e_interpolation.rs:974-987 | The loop delivers what the chunks say, with the exact count, or stops with the matching error: a line that is not UTF-8, no size, or a short chunk |
| `HttpBody.EverySplitRead` | weft-bench/src/e2e_interpolation.rs:974-987 | For any body and any split into well-formed chunks, with any size spelling, blanks and extension bytes, the reader delivers exactly the body or stops with the first size line's fault |
| `HttpBody.EverySplitDelivered` | weft-bench/src/e2e_interpolation.rs:974-987 | It delivers exactly when no size line has blanks before its extensions and every extension is UTF-8 |
| `HttpBody.PaddedExtensionRefused` | weft-bench/src/e2e_interpolation.rs:978-979 | A legal one-chunk body with a blank before its extension is refused |
| `HttpBody.SpacesAre` | weft-bench/src/e2e_interpolation.rs:978-979 | The characters trimmed are Unicode's white space, one by one |
| `HttpBody.SizesHaveSpellings` | weft-bench/src/e2e_interpolation.rs:978-979 | Every hexadecimal spelling of a number, leading zeros, letters of either case and a plus sign included, is read as it, or refused where it leaves 64 bits |
| `HttpBody.OnlySpellingsRead` | weft-bench/src/e2e_interpolation.rs:978-979 | And nothing but such a spelling of a number is read as it |
| `Utf8.DecodeExactly` | weft-bench/src/e2e_interpolation.rs:976-978 | A line decodes to a text exactly when its bytes are the text's UTF-8: no longer form, surrogate or number beyond the last character |
| `Utf8.LossyOfText` | weft-bench/src/e2e_interpolation.rs:1079 | Bytes that are text are that text to the lossy reading too |
| `Utf8.BadLengthIs` | weft-bench/src/e2e_interpolation.rs:1079 | Elsewhere one replacement stands for as many bytes as could still begin a character, or for one byte |
| `TailKeys.SuffixReads` | weft-bench/src/e2e_interpolation.rs:1020-1025 | A suffix gives the whole stream's number, read from the lossy UTF-8 text of each, unless the key occurs only before it in the stream, when it gives none |
| `TailKeys.TextFinds` | weft-bench/src/e2e_interpolation.rs:1020-1025 | The last occurrence of ASCII text in any bytes is its last occurrence in their lossy UTF-8 text, and the text that follows it is that of the bytes that follow |
| `TailKeys.NumberFromBytes` | weft-bench/src/e2e_interpolation.rs:1020-1025 | So the number the text gives is the one at the head of the text after the key's last occurrence in the bytes |
| `TailKeys.TailNumberIs` | weft-bench/src/e2e_interpolation.rs:1020-1025 | What a tail gives, whatever its bytes: none where no digit follows the last key and blanks or the digits leave 64 bits, else the number they spell |
| `TailKeys.SpelledNumberRead` | weft-bench/src/e2e_interpolation.rs:1020-1025 | A quoted key with its colon, any blanks and the decimal spelling of `n`, leading zeros or not, with no later key and no digit next, is read as `n`, or as none beyond 64 bits |
| `TailKeys.KeyReadFromAnyTail` | weft-bench/src/e2e_interpolation.rs:1004-1025 | Every cut into writes reads the key as the whole stream does exactly when it has no number, or its last occurrence starts in the final 4096 bytes, or the stream is at most 8192 bytes |
| `ArrowColumns.TryDecimal128` | weft-arrow/src/lib.rs:445-457 | Mantissas for the whole column, nulls kept, or none when one leaves 128 bits or the scale exceeds 38 |
| `ArrowColumns.ExportReadBack` | weft-arrow/src/lib.rs:582-598 | The reader refuses an exported column exactly when a rescaled value is outside the domain, and otherwise returns the rescaled values |
| `ArrowColumns.WithScaleKeeps` | weft-arrow/src/lib.rs:450 | Rescaling keeps a number exactly when no nonzero digit is cut |
| `ArrowColumns.WithScaleCuts` | weft-arrow/src/lib.rs:450 | Otherwise it cuts less than one unit of the last digit kept, toward zero |
| `ArrowColumns.ExportImports` | weft-arrow/src/lib.rs:445-457 | An exported column read back by either reader is the same timestamps and numbers, nulls included, exactly when every value has at most the column's fractional digits |
| `ArrowColumns.HalfIsCut` | weft-arrow/src/lib.rs:441-450 | One half at scale 0 is exported as zero |
| `ArrowColumns.ReadCellsLoop` | weft-arrow/src/lib.rs:543-590 | The cell loops read all cells in row order, or stop at the first refusal |
| `ArrowColumns.ColumnsFromBatch` | weft-arrow/src/lib.rs:532-598 | One batch: the checks in their order, the decimal domain last |
| `ArrowColumns.ColumnsFromBatches` | weft-arrow/src/lib.rs:700-709 | The loop over batches, rows numbered across them |
| `ArrowColumns.BatchByRow` | weft-arrow/src/lib.rs:532-598 | A batch is read exactly when each of its rows can be, with what the rows say, wherever it starts |
| `ArrowColumns.SplitIndependent` | weft-arrow/src/lib.rs:700-709 | A batch set is read exactly when each row can be, with what the rows say |
| `ArrowColumns.BatchSays` | weft-arrow/src/lib.rs:532-598 | A batch is read as given columns exactly when they say what its cells do: a null none, a text its parse, a finite float its decimal, a NaN or infinity none to the lenient reader only, a mantissa at the column's scale, all in the domain; otherwise it is refused |
| `ArrowColumns.SetSays` | weft-arrow/src/lib.rs:700-709 | The same of a batch set, over the rows of all its batches |
| `ArrowColumns.SameRowsSameColumns` | weft-arrow/src/lib.rs:700-709 | Two ways to cut the same rows into batches read the same |
| `ArrowColumns.StrictNamesFirst` | weft-arrow/src/lib.rs:528-598 | With all other cells valid, the strict reader names the first non-finite row, counted across the set; with none it agrees with the lenient reader |
| `SyntheticCorpus.BuildCorpus` | weft-bench/src/e2e_interpolation.rs:337-359 | The loop builds the corpus for any draws, or fails as its span does |
| `SyntheticCorpus.InstantsRise` | weft-bench/src/e2e_interpolation.rs:344-350 | Jitter never reorders knots |
| `SyntheticCorpus.Ascends` | weft-bench/src/e2e_interpolation.rs:340-357 | The stored knots are strictly ascending exactly when the last one fits 64 bits |
| `SyntheticCorpus.WindowIs` | weft-bench/src/e2e_interpolation.rs:323-330 | For any corpus a window is given exactly when its arithmetic stays within 64 bits and it lies inside the corpus with both margins, where the corpus does not end at the last 64-bit instant |
| `SyntheticCorpus.CoversEverySize` | weft-bench/src/e2e_interpolation.rs:322-342 | Every size up to the largest is accepted, both margins inside the corpus, exactly then |
| `SyntheticCorpus.SafeForEveryDraw` | weft-bench/src/e2e_interpolation.rs:344-350 | The last knot fits for every draw exactly when it does with the whole jitter added |
| `SyntheticCorpus.WideStepWraps` | weft-bench/src/e2e_interpolation.rs:341-350 | Settings that pass every check and wrap whatever the draws |
| `Trend.WindowMaxIsTrend` | weft-bench/src/gpu_memory.rs:152-158 | Each entry is its window's largest sample; the empty-window fallback is never taken |
| `Trend.WindowsPartition` | weft-bench/src/gpu_memory.rs:156-157 | The windows are nonempty, consecutive and together the whole series |
| `Trend.WindowsEven` | weft-bench/src/gpu_memory.rs:156-157 | Each window has the series' length over their number of samples, rounded down or one more |
| `Trend.OverallMaxKept` | weft-bench/src/gpu_memory.rs:149-158 | The trend's maximum is the series' |
| `Trend.MonotoneKept` | weft-bench/src/gpu_memory.rs:152-164 | A series that never falls has a trend that never falls |
| `Trend.GrowthIsReal` | weft-bench/src/gpu_memory.rs:160-179 | Growth is flagged exactly when at least three windows are judged, no later peak is below an earlier one, and the last window holds a sample above every sample of the first judged |

## Left out

- Files, subprocesses, sockets, signals, clocks and GPU devices: foreign or timing-only.
- splimes, `weft_reduce`, `weft_physical_type` and `SegmentStore` beyond the functions cited: their answers are parameters, and the store is a sequence of rows with atomic seals and filtering reads.
- Conformance.ExactWithLebesgue: the 60-digit precision of the decimal steps is not modelled, and the rounding of each value to a float is a parameter.
- Conformance.ReferenceAtKnot: asks a window of at least two knots (or all there are), which every measured method has.
- Baselines.LinearMatchesReference: the adapters' sort and their output grid are not modelled; the samples are taken as sorted.
- Scoring.Score: means, recomputation counts and float rounding of the measures are not modelled.
- Tiling.SealTiled: row counts are unbounded (a start plus a batch beyond 2^64 is not modelled); what the store itself would refuse or report of falling rows is not modelled beyond their order.
- OnlineIngest.RunIsSafe: what a read returns once rows fall is not stated; atomics are taken in one total order; the first phase (ingest alone) is `Tiling.SealTiled`; refused reads are a nondeterministic choice.
- KillIngest.RecoverAndResume: starts from rising rows that tile, as the corpus loader's seconds do; of a store reopened with more rows than the run's it says only that the verdict is not ok, not which error stops it; the compaction and corruption tests, quarantine and the choice of kill points beyond their range are not modelled; they depend on the store's recovery.
- GapFill.Cut: the calendar range and which values have a finite float are parameters; sums are exact; the generated corpus (its signal, noise and empty list of natural gaps) is not modelled.
- Extremes.PeaksAreReference: instants are counted in minutes; the detectors and the pipeline are not modelled.
- HttpBody.ReadChunkedBody: headers, content-length and until-close bodies are not modelled.
- TailKeys.KeyReadFromAnyTail: keys are ASCII, as the one key read is.
- ValuesSidecar.WriteValues: the bytes already written when a count does not fit are not modelled.
- ArrowColumns.StrictNamesFirst: which error wins when a batch has several kinds of bad cell depends on chunking and is not stated; text parsing, the finite-float decimal and the decimal domain are parameters; schemas, metadata and Parquet are not modelled.
- SyntheticCorpus.BuildCorpus: the values' text and the run's settings outside the validated range (fewer than two points, a margin whose double overflows) are not modelled.
- Num.U64ToF64IsNearest: the `usize` helpers and the saturating `u128` to `u64` only add case splits.
- Semver matching, report rendering, manifests, redaction, run comparison and the claims and exec-bit linters: policy and formatting without an invariant to state.
