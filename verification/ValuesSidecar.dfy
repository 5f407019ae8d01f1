/** The binary sidecar of a run's values: a little-endian encoding of nested lists, and its reader. */
module ValuesSidecar {
  import opened Wrappers
  import opened Integers

  type Byte = b: nat | b < 256

  const U32_MAX: nat := 0xffff_ffff
  /** The length that stands for a fixture without a grid. */
  const NO_GRID: nat := U32_MAX

  const MAGIC: seq<Byte> := [87, 71, 67, 86, 65, 76, 48, 49]

  /** A fixture's values as 64-bit patterns, where it returned a grid. */
  type Grid = Option<seq<nat>>

  datatype Error = TooLong | Truncated | NotAValuesFile

  // ---------- little-endian words ----------

  function Encoded(n: nat, size: nat): (bytes: seq<Byte>)
    ensures |bytes| == size
  {
    if size == 0 then [] else [n % 256] + Encoded(n / 256, size - 1)
  }

  function Word(bytes: seq<Byte>): nat {
    if bytes == [] then 0 else bytes[0] + 256 * Word(bytes[1..])
  }

  ghost function Power256(size: nat): nat { if size == 0 then 1 else 256 * Power256(size - 1) }

  lemma {:induction false} WordOfEncoded(n: nat, size: nat)
    requires n < Power256(size)
    ensures Word(Encoded(n, size)) == n
  {
    if size == 0 {
    } else {
      WordOfEncoded(n / 256, size - 1);
      assert Encoded(n, size)[1..] == Encoded(n / 256, size - 1);
    }
  }

  lemma WordSizes()
    ensures Power256(4) == U32_MAX + 1 && Power256(8) == U64_MAX + 1
  {
    assert Power256(2) == 0x1_0000;
    assert Power256(4) == 0x1_0000_0000;
    assert Power256(6) == 0x1_0000_0000_0000;
  }

  // ---------- the encoding ----------

  function EncodeBits(bits: seq<nat>): (bytes: seq<Byte>)
    ensures |bytes| == 8 * |bits|
  {
    if bits == [] then [] else EncodeBits(bits[..|bits| - 1]) + Encoded(bits[|bits| - 1], 8)
  }

  function EncodeGrid(g: Grid): seq<Byte> {
    match g
    case None => Encoded(NO_GRID, 4)
    case Some(bits) => Encoded(|bits|, 4) + EncodeBits(bits)
  }

  function EncodeGrids(grids: seq<Grid>): seq<Byte> {
    if grids == [] then [] else EncodeGrids(grids[..|grids| - 1]) + EncodeGrid(grids[|grids| - 1])
  }

  function EncodeTargets(values: seq<seq<Grid>>): seq<Byte> {
    if values == [] then []
    else var t := values[|values| - 1]; EncodeTargets(values[..|values| - 1]) + Encoded(|t|, 4) + EncodeGrids(t)
  }

  function Encode(values: seq<seq<Grid>>): seq<Byte> {
    MAGIC + Encoded(|values|, 4) + EncodeTargets(values)
  }

  predicate GridFits(g: Grid) { g.Some? ==> |g.value| <= U32_MAX }

  predicate TargetFits(grids: seq<Grid>) {
    |grids| <= U32_MAX && forall f :: 0 <= f < |grids| ==> GridFits(grids[f])
  }

  /** Every count fits 32 bits: what the writer can write. */
  predicate Countable(values: seq<seq<Grid>>) {
    |values| <= U32_MAX && forall t :: 0 <= t < |values| ==> TargetFits(values[t])
  }

  predicate Words(g: Grid) { g.Some? ==> forall i :: 0 <= i < |g.value| ==> g.value[i] <= U64_MAX }

  /** Every value is a 64-bit pattern. */
  predicate Patterns(values: seq<seq<Grid>>) {
    forall t, f :: 0 <= t < |values| && 0 <= f < |values[t]| ==> Words(values[t][f])
  }

  /** No grid is as long as the sentinel. */
  predicate NoSentinelGrid(values: seq<seq<Grid>>) {
    forall t, f :: 0 <= t < |values| && 0 <= f < |values[t]| ==> values[t][f].None? || |values[t][f].value| != NO_GRID
  }

  /** Writes the encoding, or fails exactly when some count does not fit. */
  method WriteValues(values: seq<seq<Grid>>) returns (r: Result<seq<Byte>, Error>)
    ensures r == if Countable(values) then Ok(Encode(values)) else Err(TooLong)
  {
    hide TargetFits, EncodeTargets, Encoded;
    if |values| > U32_MAX { return Err(TooLong); }
    var body := WriteBody(values);
    match body {
      case Err(e) => return Err(e);
      case Ok(bytes) => return Ok(MAGIC + Encoded(|values|, 4) + bytes);
    }
  }

  method WriteBody(values: seq<seq<Grid>>) returns (r: Result<seq<Byte>, Error>)
    ensures r == if forall t :: 0 <= t < |values| ==> TargetFits(values[t]) then Ok(EncodeTargets(values))
                 else Err(TooLong)
  {
    hide TargetFits, EncodeTargets, Encoded, EncodeGrids;
    EncodeTargetsSnoc(values, |values|);
    var body: seq<Byte> := [];
    for t := 0 to |values|
      invariant body == EncodeTargets(values[..t])
      invariant forall u :: 0 <= u < t ==> TargetFits(values[u])
    {
      EncodeTargetsSnoc(values, t);
      var target := WriteTarget(values[t]);
      if target.Err? { return Err(TooLong); }
      body := body + Encoded(|values[t]|, 4) + target.value;
    }
    return Ok(body);
  }

  lemma EncodeTargetsSnoc(values: seq<seq<Grid>>, t: nat)
    requires t <= |values|
    ensures EncodeTargets(values[..0]) == [] && values[..|values|] == values
    ensures t < |values| ==>
      EncodeTargets(values[..t + 1]) == EncodeTargets(values[..t]) + Encoded(|values[t]|, 4) + EncodeGrids(values[t])
  {
    if t < |values| { assert values[..t + 1][..t] == values[..t]; }
  }

  method WriteTarget(grids: seq<Grid>) returns (r: Result<seq<Byte>, Error>)
    ensures r == if TargetFits(grids) then Ok(EncodeGrids(grids)) else Err(TooLong)
  {
    hide GridFits, EncodeGrid;
    if |grids| > U32_MAX { return Err(TooLong); }
    var out: seq<Byte> := [];
    for f := 0 to |grids|
      invariant out == EncodeGrids(grids[..f])
      invariant forall e :: 0 <= e < f ==> GridFits(grids[e])
    {
      assert grids[..f + 1][..f] == grids[..f];
      var grid := WriteGrid(grids[f]);
      if grid.Err? { return Err(TooLong); }
      out := out + grid.value;
    }
    assert grids[..|grids|] == grids;
    return Ok(out);
  }

  method WriteGrid(g: Grid) returns (r: Result<seq<Byte>, Error>)
    ensures r == if GridFits(g) then Ok(EncodeGrid(g)) else Err(TooLong)
  {
    hide Encoded;
    match g {
      case None => return Ok(Encoded(NO_GRID, 4));
      case Some(bits) =>
        if |bits| > U32_MAX { return Err(TooLong); }
        var words: seq<Byte> := [];
        for i := 0 to |bits|
          invariant words == EncodeBits(bits[..i])
        {
          assert bits[..i + 1][..i] == bits[..i];
          words := words + Encoded(bits[i], 8);
        }
        assert bits[..|bits|] == bits;
        return Ok(Encoded(|bits|, 4) + words);
    }
  }

  // ---------- the reader ----------

  /** Reads `size` bytes at `at` as a word, with the position after it. */
  function ReadWord(bytes: seq<Byte>, at: nat, size: nat): Result<(nat, nat), Error> {
    if at + size <= |bytes| then Ok((Word(bytes[at..at + size]), at + size)) else Err(Truncated)
  }

  function ReadBits(bytes: seq<Byte>, at: nat, count: nat): Result<(seq<nat>, nat), Error> {
    if count == 0 then Ok(([], at))
    else match ReadBits(bytes, at, count - 1)
      case Err(e) => Err(e)
      case Ok((front, mid)) =>
        match ReadWord(bytes, mid, 8)
        case Err(e) => Err(e)
        case Ok((w, end)) => Ok((front + [w], end))
  }

  function ReadGrid(bytes: seq<Byte>, at: nat): Result<(Grid, nat), Error> {
    match ReadWord(bytes, at, 4)
    case Err(e) => Err(e)
    case Ok((len, mid)) =>
      if len == NO_GRID then Ok((None, mid))
      else match ReadBits(bytes, mid, len)
        case Err(e) => Err(e)
        case Ok((bits, end)) => Ok((Some(bits), end))
  }

  function ReadGrids(bytes: seq<Byte>, at: nat, count: nat): Result<(seq<Grid>, nat), Error> {
    if count == 0 then Ok(([], at))
    else match ReadGrids(bytes, at, count - 1)
      case Err(e) => Err(e)
      case Ok((front, mid)) =>
        match ReadGrid(bytes, mid)
        case Err(e) => Err(e)
        case Ok((g, end)) => Ok((front + [g], end))
  }

  function ReadTarget(bytes: seq<Byte>, at: nat): Result<(seq<Grid>, nat), Error> {
    match ReadWord(bytes, at, 4)
    case Err(e) => Err(e)
    case Ok((count, mid)) => ReadGrids(bytes, mid, count)
  }

  function ReadTargets(bytes: seq<Byte>, at: nat, count: nat): Result<(seq<seq<Grid>>, nat), Error> {
    if count == 0 then Ok(([], at))
    else match ReadTargets(bytes, at, count - 1)
      case Err(e) => Err(e)
      case Ok((front, mid)) =>
        match ReadTarget(bytes, mid)
        case Err(e) => Err(e)
        case Ok((t, end)) => Ok((front + [t], end))
  }

  function Decode(bytes: seq<Byte>): Result<seq<seq<Grid>>, Error> {
    if |bytes| < 8 then Err(Truncated)
    else if bytes[..8] != MAGIC then Err(NotAValuesFile)
    else match ReadWord(bytes, 8, 4)
      case Err(e) => Err(e)
      case Ok((count, at)) =>
        match ReadTargets(bytes, at, count)
        case Err(e) => Err(e)
        case Ok((values, _)) => Ok(values)
  }

  /** The loop form of the reader, nested as the file is. */
  method ReadValues(bytes: seq<Byte>) returns (r: Result<seq<seq<Grid>>, Error>)
    ensures r == Decode(bytes)
  {
    if |bytes| < 8 { return Err(Truncated); }
    if bytes[..8] != MAGIC { return Err(NotAValuesFile); }
    var head := ReadWord(bytes, 8, 4);
    if head.Err? { return Err(head.error); }
    var (targets, at) := head.value;
    ghost var start := at;
    var out: seq<seq<Grid>> := [];
    for t := 0 to targets
      invariant ReadTargets(bytes, start, t) == Ok((out, at))
    {
      var count := ReadWord(bytes, at, 4);
      if count.Err? { ErrStays(bytes, start, t + 1, targets); return Err(count.error); }
      var grids := ReadGridLoop(bytes, count.value.1, count.value.0);
      if grids.Err? { ErrStays(bytes, start, t + 1, targets); return Err(grids.error); }
      out, at := out + [grids.value.0], grids.value.1;
    }
    return Ok(out);
  }

  method ReadGridLoop(bytes: seq<Byte>, from: nat, count: nat) returns (r: Result<(seq<Grid>, nat), Error>)
    ensures r == ReadGrids(bytes, from, count)
  {
    var at := from;
    var grids: seq<Grid> := [];
    for f := 0 to count
      invariant ReadGrids(bytes, from, f) == Ok((grids, at))
    {
      var len := ReadWord(bytes, at, 4);
      if len.Err? { GridErrStays(bytes, from, f + 1, count); return Err(len.error); }
      if len.value.0 == NO_GRID {
        grids, at := grids + [None], len.value.1;
      } else {
        var bits := ReadBitsLoop(bytes, len.value.1, len.value.0);
        if bits.Err? { GridErrStays(bytes, from, f + 1, count); return Err(bits.error); }
        grids, at := grids + [Some(bits.value.0)], bits.value.1;
      }
    }
    return Ok((grids, at));
  }

  method ReadBitsLoop(bytes: seq<Byte>, from: nat, count: nat) returns (r: Result<(seq<nat>, nat), Error>)
    ensures r == ReadBits(bytes, from, count)
  {
    var at := from;
    var bits: seq<nat> := [];
    for i := 0 to count
      invariant ReadBits(bytes, from, i) == Ok((bits, at))
    {
      var word := ReadWord(bytes, at, 8);
      if word.Err? { BitErrStays(bytes, from, i + 1, count); return Err(word.error); }
      bits, at := bits + [word.value.0], word.value.1;
    }
    return Ok((bits, at));
  }

  lemma {:induction false} BitErrStays(bytes: seq<Byte>, at: nat, i: nat, count: nat)
    requires i <= count && ReadBits(bytes, at, i).Err?
    ensures ReadBits(bytes, at, count) == Err(ReadBits(bytes, at, i).error)
    decreases count
  {
    if i == count {
    } else {
      BitErrStays(bytes, at, i, count - 1);
    }
  }

  lemma {:induction false} GridErrStays(bytes: seq<Byte>, at: nat, i: nat, count: nat)
    requires i <= count && ReadGrids(bytes, at, i).Err?
    ensures ReadGrids(bytes, at, count) == Err(ReadGrids(bytes, at, i).error)
    decreases count
  {
    if i == count {
    } else {
      GridErrStays(bytes, at, i, count - 1);
    }
  }

  lemma {:induction false} ErrStays(bytes: seq<Byte>, at: nat, i: nat, count: nat)
    requires i <= count && ReadTargets(bytes, at, i).Err?
    ensures ReadTargets(bytes, at, count) == Err(ReadTargets(bytes, at, i).error)
    decreases count
  {
    if i == count {
    } else {
      ErrStays(bytes, at, i, count - 1);
    }
  }

  // ---------- the round trip ----------

  /** `part` lies in `bytes` at `at`. */
  ghost predicate At(bytes: seq<Byte>, at: nat, part: seq<Byte>) {
    at + |part| <= |bytes| && bytes[at..at + |part|] == part
  }

  lemma AtSplit(bytes: seq<Byte>, at: nat, a: seq<Byte>, b: seq<Byte>)
    requires At(bytes, at, a + b)
    ensures At(bytes, at, a) && At(bytes, at + |a|, b)
  {
    assert bytes[at..at + |a|] == (a + b)[..|a|] == a;
    assert bytes[at + |a|..at + |a| + |b|] == (a + b)[|a|..] == b;
  }

  lemma ReadWordBack(bytes: seq<Byte>, at: nat, n: nat, size: nat)
    requires At(bytes, at, Encoded(n, size)) && ((size == 4 && n <= U32_MAX) || (size == 8 && n <= U64_MAX))
    ensures ReadWord(bytes, at, size) == Ok((n, at + size))
  {
    WordSizes();
    WordOfEncoded(n, size);
  }

  lemma {:induction false} ReadBitsBack(bytes: seq<Byte>, at: nat, bits: seq<nat>)
    requires At(bytes, at, EncodeBits(bits)) && forall i :: 0 <= i < |bits| ==> bits[i] <= U64_MAX
    ensures ReadBits(bytes, at, |bits|) == Ok((bits, at + |EncodeBits(bits)|))
  {
    hide At, ReadWord, Encoded;
    if bits == [] {
    } else {
      var front, last := bits[..|bits| - 1], bits[|bits| - 1];
      AtSplit(bytes, at, EncodeBits(front), Encoded(last, 8));
      ReadBitsBack(bytes, at, front);
      ReadWordBack(bytes, at + |EncodeBits(front)|, last, 8);
      assert bits == front + [last];
    }
  }

  lemma ReadGridBack(bytes: seq<Byte>, at: nat, g: Grid)
    requires At(bytes, at, EncodeGrid(g)) && GridFits(g) && Words(g) && (g.Some? ==> |g.value| != NO_GRID)
    ensures ReadGrid(bytes, at) == Ok((g, at + |EncodeGrid(g)|))
  {
    hide At, ReadWord, Encoded, ReadBits, EncodeBits;
    match g
    case None => ReadWordBack(bytes, at, NO_GRID, 4);
    case Some(bits) =>
      AtSplit(bytes, at, Encoded(|bits|, 4), EncodeBits(bits));
      ReadWordBack(bytes, at, |bits|, 4);
      ReadBitsBack(bytes, at + 4, bits);
  }

  ghost predicate Readable(grids: seq<Grid>) {
    |grids| <= U32_MAX && forall f :: 0 <= f < |grids| ==>
      GridFits(grids[f]) && Words(grids[f]) && (grids[f].Some? ==> |grids[f].value| != NO_GRID)
  }

  lemma {:induction false} ReadGridsBack(bytes: seq<Byte>, at: nat, grids: seq<Grid>)
    requires At(bytes, at, EncodeGrids(grids)) && Readable(grids)
    ensures ReadGrids(bytes, at, |grids|) == Ok((grids, at + |EncodeGrids(grids)|))
  {
    hide At, ReadGrid, EncodeGrid;
    if grids == [] {
    } else {
      var front, last := grids[..|grids| - 1], grids[|grids| - 1];
      ReadableFront(grids);
      assert EncodeGrids(grids) == EncodeGrids(front) + EncodeGrid(last);
      assert grids == front + [last];
      hide *;
      AtSplit(bytes, at, EncodeGrids(front), EncodeGrid(last));
      ReadGridsBack(bytes, at, front);
      ReadGridBack(bytes, at + |EncodeGrids(front)|, last);
      GridsSnoc(bytes, at, front, at + |EncodeGrids(front)|, last, at + |EncodeGrids(grids)|);
    }
  }

  lemma ReadableFront(grids: seq<Grid>)
    requires Readable(grids) && grids != []
    ensures Readable(grids[..|grids| - 1])
    ensures var g := grids[|grids| - 1]; GridFits(g) && Words(g) && (g.Some? ==> |g.value| != NO_GRID)
  {
    hide GridFits, Words;
  }

  lemma GridsSnoc(bytes: seq<Byte>, at: nat, front: seq<Grid>, mid: nat, last: Grid, end: nat)
    requires ReadGrids(bytes, at, |front|) == Ok((front, mid)) && ReadGrid(bytes, mid) == Ok((last, end))
    ensures ReadGrids(bytes, at, |front| + 1) == Ok((front + [last], end))
  {
    hide ReadGrid;
  }

  lemma {:induction false} ReadTargetsBack(bytes: seq<Byte>, at: nat, values: seq<seq<Grid>>)
    requires At(bytes, at, EncodeTargets(values)) && forall t :: 0 <= t < |values| ==> Readable(values[t])
    ensures ReadTargets(bytes, at, |values|) == Ok((values, at + |EncodeTargets(values)|))
  {
    hide *;
    if values == [] {
      NoTargets(bytes, at);
    } else {
      var front, last := values[..|values| - 1], values[|values| - 1];
      var mid := at + |EncodeTargets(front)|;
      TargetsStep(values);
      AtSplit(bytes, at, EncodeTargets(front) + Encoded(|last|, 4), EncodeGrids(last));
      AtSplit(bytes, at, EncodeTargets(front), Encoded(|last|, 4));
      ReadTargetsBack(bytes, at, front);
      ReadableFits(last);
      ReadWordBack(bytes, mid, |last|, 4);
      ReadGridsBack(bytes, mid + 4, last);
      TargetsSnoc(bytes, at, front, mid, last, mid + 4 + |EncodeGrids(last)|);
    }
  }

  lemma NoTargets(bytes: seq<Byte>, at: nat)
    ensures EncodeTargets([]) == [] && ReadTargets(bytes, at, 0) == Ok(([], at))
  {}

  lemma TargetsStep(values: seq<seq<Grid>>)
    requires values != []
    ensures var front, last := values[..|values| - 1], values[|values| - 1];
      && EncodeTargets(values) == EncodeTargets(front) + Encoded(|last|, 4) + EncodeGrids(last)
      && values == front + [last]
  {
    hide Encoded, EncodeGrids;
  }

  lemma TargetsSnoc(bytes: seq<Byte>, at: nat, front: seq<seq<Grid>>, mid: nat, last: seq<Grid>, end: nat)
    requires ReadTargets(bytes, at, |front|) == Ok((front, mid))
    requires ReadWord(bytes, mid, 4) == Ok((|last|, mid + 4)) && ReadGrids(bytes, mid + 4, |last|) == Ok((last, end))
    ensures ReadTargets(bytes, at, |front| + 1) == Ok((front + [last], end))
  {
    hide ReadWord, ReadGrids;
  }

  lemma ReadableFits(grids: seq<Grid>)
    requires Readable(grids)
    ensures |grids| <= U32_MAX
  {}

  /** What the writer wrote is read back, whatever follows it, when no grid has the sentinel's
      length. */
  lemma ReadsBack(values: seq<seq<Grid>>, rest: seq<Byte>)
    requires Countable(values) && Patterns(values) && NoSentinelGrid(values)
    ensures Decode(Encode(values) + rest) == Ok(values)
  {
    hide ReadWord, Encoded, ReadTargets, EncodeTargets;
    var bytes := Encode(values) + rest;
    var count, body := Encoded(|values|, 4), EncodeTargets(values);
    assert At(bytes, 0, MAGIC + (count + body)) by { assert MAGIC + (count + body) == Encode(values); }
    AtSplit(bytes, 0, MAGIC, count + body);
    AtSplit(bytes, 8, count, body);
    ReadWordBack(bytes, 8, |values|, 4);
    forall t | 0 <= t < |values| ensures Readable(values[t]) {}
    ReadTargetsBack(bytes, 12, values);
    assert bytes[..8] == MAGIC;
  }

  lemma {:induction false} BitsLength(bytes: seq<Byte>, at: nat, count: nat)
    ensures ReadBits(bytes, at, count).Ok? ==> |ReadBits(bytes, at, count).value.0| == count
  {
    if count == 0 {
    } else {
      BitsLength(bytes, at, count - 1);
    }
  }

  lemma {:induction false} GridsHaveNoSentinel(bytes: seq<Byte>, at: nat, count: nat)
    ensures ReadGrids(bytes, at, count).Ok? ==>
      forall f :: 0 <= f < |ReadGrids(bytes, at, count).value.0| ==>
        var g := ReadGrids(bytes, at, count).value.0[f]; g.Some? ==> |g.value| != NO_GRID
  {
    if count == 0 {
    } else {
      GridsHaveNoSentinel(bytes, at, count - 1);
      if ReadGrids(bytes, at, count - 1).Ok? {
        var mid := ReadGrids(bytes, at, count - 1).value.1;
        if ReadWord(bytes, mid, 4).Ok? { BitsLength(bytes, mid + 4, ReadWord(bytes, mid, 4).value.0); }
      }
    }
  }

  /** The reader never returns a grid of the sentinel's length. */
  lemma {:induction false} TargetsHaveNoSentinel(bytes: seq<Byte>, at: nat, count: nat)
    ensures ReadTargets(bytes, at, count).Ok? ==> NoSentinelGrid(ReadTargets(bytes, at, count).value.0)
  {
    hide ReadGrids;
    if count == 0 {
    } else {
      TargetsHaveNoSentinel(bytes, at, count - 1);
      if ReadTargets(bytes, at, count - 1).Ok? {
        var mid := ReadTargets(bytes, at, count - 1).value.1;
        if ReadWord(bytes, mid, 4).Ok? { GridsHaveNoSentinel(bytes, mid + 4, ReadWord(bytes, mid, 4).value.0); }
      }
    }
  }

  /** Everything the writer writes is read back exactly when no grid has the sentinel's length: a
      grid of `u32::MAX` values is written, and read as no grid at all. */
  lemma RoundTrip(values: seq<seq<Grid>>)
    requires Countable(values) && Patterns(values)
    ensures Decode(Encode(values)) == Ok(values) <==> NoSentinelGrid(values)
  {
    var bytes := Encode(values);
    assert bytes + [] == bytes;
    if NoSentinelGrid(values) {
      ReadsBack(values, []);
    } else if Decode(bytes) == Ok(values) {
      var head := ReadWord(bytes, 8, 4);
      TargetsHaveNoSentinel(bytes, head.value.1, head.value.0);
      assert false;
    }
  }

  /** The encoding is injective there. */
  lemma EncodeInjective(a: seq<seq<Grid>>, b: seq<seq<Grid>>)
    requires Countable(a) && Patterns(a) && NoSentinelGrid(a)
    requires Countable(b) && Patterns(b) && NoSentinelGrid(b)
    requires Encode(a) == Encode(b)
    ensures a == b
  {
    RoundTrip(a);
    RoundTrip(b);
  }

  lemma OneGrid(g: Grid)
    ensures Encode([[g]]) == MAGIC + Encoded(1, 4) + (Encoded(1, 4) + EncodeGrid(g))
  {
    hide Encoded, EncodeGrid;
    var target: seq<Grid>, none: seq<Grid> := [g], [];
    var values, no: seq<seq<Grid>> := [target], [];
    assert target[..0] == none && EncodeGrids(none) == [];
    assert EncodeGrids(target) == [] + EncodeGrid(g) == EncodeGrid(g);
    assert values[..0] == no && EncodeTargets(no) == [];
    assert EncodeTargets(values) == [] + Encoded(1, 4) + EncodeGrids(target);
    assert [] + Encoded(1, 4) == Encoded(1, 4);
  }

  /** What the bytes of a file are, by the format's own name and sentinel: a missing grid is four bytes
      of ones, and every file begins with eight letters. */
  lemma Layout(values: seq<seq<Grid>>)
    ensures EncodeGrid(None) == [0xff, 0xff, 0xff, 0xff]
    ensures |Encode(values)| >= 12 && forall i :: 0 <= i < 8 ==> Encode(values)[i] == "WGCVAL01"[i] as nat
  {
    assert Encoded(NO_GRID, 4) == [0xff] + Encoded(0xff_ffff, 3);
    assert Encoded(0xff_ffff, 3) == [0xff] + Encoded(0xffff, 2);
    assert Encoded(0xffff, 2) == [0xff, 0xff];
    hide Encoded, EncodeTargets;
    assert Encode(values)[..8] == MAGIC;
    forall i | 0 <= i < 8 ensures Encode(values)[i] == MAGIC[i] { assert Encode(values)[i] == Encode(values)[..8][i]; }
  }

  /** A grid of `u32::MAX` values comes back as no grid, without an error. */
  lemma SentinelGridLost(bits: seq<nat>)
    requires |bits| == 0xffff_ffff
    ensures Countable([[Some(bits)]])
    ensures Decode(Encode([[Some(bits)]])) == Ok([[None]])
  {
    OneGrid(None);
    OneGrid(Some(bits));
    SplitBody(MAGIC + Encoded(1, 4), Encoded(1, 4), bits);
    hide Encode, Encoded, Decode, EncodeBits;
    NoneReadsBack(EncodeBits(bits));
  }

  lemma SplitBody(head: seq<Byte>, count: seq<Byte>, bits: seq<nat>)
    requires |bits| == NO_GRID
    ensures head + (count + EncodeGrid(Some(bits))) == head + (count + EncodeGrid(None)) + EncodeBits(bits)
  {
    hide Encoded, EncodeBits;
  }

  lemma NoneReadsBack(rest: seq<Byte>)
    ensures Decode(Encode([[None]]) + rest) == Ok([[None]])
  {
    hide Encode, Decode;
    ReadsBack([[None]], rest);
  }

  // ---------- soundness of the reader ----------

  lemma {:induction false} EncodedOfWord(bytes: seq<Byte>)
    ensures Encoded(Word(bytes), |bytes|) == bytes
  {
    if bytes == [] {
    } else {
      EncodedOfWord(bytes[1..]);
      QuotientIs(Word(bytes), 256, Word(bytes[1..]), bytes[0]);
      assert bytes == [bytes[0]] + bytes[1..];
    }
  }

  lemma ReadWordSound(bytes: seq<Byte>, at: nat, size: nat)
    requires ReadWord(bytes, at, size).Ok?
    ensures
      var (w, end) := ReadWord(bytes, at, size).value;
      At(bytes, at, Encoded(w, size)) && end == at + size <= |bytes|
  {
    EncodedOfWord(bytes[at..at + size]);
  }

  lemma AtJoin(bytes: seq<Byte>, at: nat, a: seq<Byte>, b: seq<Byte>)
    requires At(bytes, at, a) && At(bytes, at + |a|, b)
    ensures At(bytes, at, a + b)
  {
    assert bytes[at..at + |a + b|] == bytes[at..at + |a|] + bytes[at + |a|..at + |a| + |b|];
  }

  lemma {:induction false} ReadBitsSound(bytes: seq<Byte>, at: nat, count: nat)
    requires at <= |bytes| && ReadBits(bytes, at, count).Ok?
    ensures
      var (bits, end) := ReadBits(bytes, at, count).value;
      |bits| == count && At(bytes, at, EncodeBits(bits)) && end == at + |EncodeBits(bits)|
  {
    hide ReadWord, Encoded;
    if count == 0 {
    } else {
      ReadBitsSound(bytes, at, count - 1);
      var (front, mid) := ReadBits(bytes, at, count - 1).value;
      ReadWordSound(bytes, mid, 8);
      var w := ReadWord(bytes, mid, 8).value.0;
      AtJoin(bytes, at, EncodeBits(front), Encoded(w, 8));
      assert (front + [w])[..|front|] == front;
    }
  }

  lemma ReadGridSound(bytes: seq<Byte>, at: nat)
    requires at <= |bytes| && ReadGrid(bytes, at).Ok?
    ensures var (g, end) := ReadGrid(bytes, at).value; At(bytes, at, EncodeGrid(g)) && end == at + |EncodeGrid(g)|
  {
    hide ReadWord, Encoded, ReadBits, EncodeBits, At;
    ReadWordSound(bytes, at, 4);
    var (len, mid) := ReadWord(bytes, at, 4).value;
    if len != NO_GRID {
      ReadBitsSound(bytes, mid, len);
      AtJoin(bytes, at, Encoded(len, 4), EncodeBits(ReadBits(bytes, mid, len).value.0));
    }
  }

  lemma AtEnds(bytes: seq<Byte>, at: nat, part: seq<Byte>)
    requires At(bytes, at, part)
    ensures at + |part| <= |bytes|
  {}

  lemma {:induction false} ReadGridsSound(bytes: seq<Byte>, at: nat, count: nat)
    requires at <= |bytes| && ReadGrids(bytes, at, count).Ok?
    ensures
      var (grids, end) := ReadGrids(bytes, at, count).value;
      |grids| == count && At(bytes, at, EncodeGrids(grids)) && end == at + |EncodeGrids(grids)|
  {
    hide ReadGrid, EncodeGrid;
    if count == 0 {
    } else {
      ReadGridsSound(bytes, at, count - 1);
      var (front, mid) := ReadGrids(bytes, at, count - 1).value;
      AtEnds(bytes, at, EncodeGrids(front));
      ReadGridSound(bytes, mid);
      var g := ReadGrid(bytes, mid).value.0;
      AtJoin(bytes, at, EncodeGrids(front), EncodeGrid(g));
      assert (front + [g])[..|front|] == front;
    }
  }

  lemma {:induction false} ReadTargetsSound(bytes: seq<Byte>, at: nat, count: nat)
    requires at <= |bytes| && ReadTargets(bytes, at, count).Ok?
    ensures
      var (values, end) := ReadTargets(bytes, at, count).value;
      |values| == count && At(bytes, at, EncodeTargets(values)) && end == at + |EncodeTargets(values)|
  {
    hide ReadGrids, EncodeGrids, ReadWord, Encoded;
    if count == 0 {
    } else {
      ReadTargetsSound(bytes, at, count - 1);
      var (front, mid) := ReadTargets(bytes, at, count - 1).value;
      AtEnds(bytes, at, EncodeTargets(front));
      ReadWordSound(bytes, mid, 4);
      var (n, start) := ReadWord(bytes, mid, 4).value;
      ReadGridsSound(bytes, start, n);
      var t := ReadGrids(bytes, start, n).value.0;
      AtJoin(bytes, at, EncodeTargets(front), Encoded(n, 4));
      AtJoin(bytes, at, EncodeTargets(front) + Encoded(n, 4), EncodeGrids(t));
      assert (front + [t])[..|front|] == front;
    }
  }

  /** Whatever the reader accepts begins with the encoding of what it returns. */
  lemma DecodeSound(bytes: seq<Byte>)
    requires Decode(bytes).Ok?
    ensures Encode(Decode(bytes).value) <= bytes
  {
    hide ReadWord, Encoded, ReadTargets, EncodeTargets;
    ReadWordSound(bytes, 8, 4);
    var (count, at) := ReadWord(bytes, 8, 4).value;
    ReadTargetsSound(bytes, at, count);
    var values := ReadTargets(bytes, at, count).value.0;
    AtJoin(bytes, 8, Encoded(count, 4), EncodeTargets(values));
    AtJoin(bytes, 0, MAGIC, Encoded(count, 4) + EncodeTargets(values));
    assert Encode(values) == MAGIC + (Encoded(count, 4) + EncodeTargets(values));
  }
}
