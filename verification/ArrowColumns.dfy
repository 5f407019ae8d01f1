/** The Arrow bridge: exporting a fixed-scale value column as exact decimals, and reading columns
    back from batches, strictly (an ingest) or leniently (an export with holes). */
module ArrowColumns {
  import opened Wrappers
  import opened Integers

  // ---------- decimals ----------

  /** `digits * 10^-scale`. */
  datatype Decimal = Decimal(digits: int, scale: int)

  function Pow10(n: nat): (p: nat)
    ensures p > 0
  {
    if n == 0 then 1 else 10 * Pow10(n - 1)
  }

  /** The same number. */
  predicate Same(a: Decimal, b: Decimal) {
    if a.scale <= b.scale then a.digits * Pow10(b.scale - a.scale) == b.digits
    else a.digits == b.digits * Pow10(a.scale - b.scale)
  }

  /** The decimal carried at `scale` fractional digits: padded with zeros, or cut short. */
  function WithScale(d: Decimal, scale: int): Decimal {
    if scale >= d.scale then Decimal(d.digits * Pow10(scale - d.scale), scale)
    else Decimal(TruncDiv(d.digits, Pow10(d.scale - scale)), scale)
  }

  /** No nonzero digit beyond `scale` fractional ones. */
  predicate FitsScale(d: Decimal, scale: int) {
    d.scale <= scale || (if d.digits >= 0 then d.digits else -d.digits) % Pow10(d.scale - scale) == 0
  }

  lemma TruncDivExact(a: int, b: nat)
    requires b > 0
    ensures TruncDiv(a, b) * b == a <==> (if a >= 0 then a else -a) % b == 0
  {
    var m := if a >= 0 then a else -a;
    assert m == m / b * b + m % b;
    assert (-(m / b)) * b == -(m / b * b);
  }

  /** Rescaling keeps the number exactly when no nonzero digit is cut. */
  lemma WithScaleKeeps(d: Decimal, scale: int)
    ensures Same(WithScale(d, scale), d) <==> FitsScale(d, scale)
  {
    hide Pow10;
    if scale < d.scale { TruncDivExact(d.digits, Pow10(d.scale - scale)); }
    if scale == d.scale { PowZero(); }
  }

  lemma PowZero() ensures Pow10(0) == 1 {}

  /** What it cuts otherwise is less than one unit of the last digit kept, toward zero. */
  lemma WithScaleCuts(d: Decimal, scale: int)
    requires scale < d.scale
    ensures var (kept, unit) := (WithScale(d, scale).digits, Pow10(d.scale - scale));
      if d.digits >= 0 then kept * unit <= d.digits < (kept + 1) * unit else (kept - 1) * unit < d.digits <= kept * unit
  {
    hide Pow10;
    var unit, m := Pow10(d.scale - scale), if d.digits >= 0 then d.digits else -d.digits;
    var q := m / unit;
    assert m == q * unit + m % unit;
    assert (q + 1) * unit == q * unit + unit && (-q) * unit == -(q * unit) && (-q - 1) * unit == -(q * unit) - unit;
  }

  // ---------- the exact export ----------

  const I128_MIN: int := -0x8000_0000_0000_0000_0000_0000_0000_0000
  const I128_MAX: int := 0x7fff_ffff_ffff_ffff_ffff_ffff_ffff_ffff

  predicate IsI128(x: int) { I128_MIN <= x <= I128_MAX }

  const DECIMAL128_MAX_PRECISION: nat := 38

  /** A present value's mantissa at the column's scale. */
  function MantissaAt(v: Option<Decimal>, scale: nat): Option<int> {
    match v case Some(d) => Some(WithScale(d, scale).digits) case None => None
  }

  /** A present value's mantissa at the column's scale has at most 128 bits, sign included. */
  predicate Fits128(v: Option<Decimal>, scale: nat) {
    v.Some? ==> -(TWO_64 * TWO_63) <= WithScale(v.value, scale).digits < TWO_64 * TWO_63
  }

  const TWO_63: int := 0x8000_0000 * TWO_32
  const TWO_64: int := TWO_32 * TWO_32
  const TWO_32: int := 0x1_0000_0000

  /** The mantissas of a fixed-scale column, nulls kept; none at all when any mantissa leaves 128
      bits or the scale exceeds the format's precision. */
  method TryDecimal128(values: seq<Option<Decimal>>, scale: nat) returns (r: Option<seq<Option<int>>>)
    requires scale < 256
    ensures r.Some? <==> scale <= 38 && forall i :: 0 <= i < |values| ==> Fits128(values[i], scale)
    ensures r.Some? ==>
        |r.value| == |values| && forall i :: 0 <= i < |values| ==> r.value[i] == MantissaAt(values[i], scale)
  {
    hide WithScale;
    var mantissas: seq<Option<int>> := [];
    for i := 0 to |values|
      invariant |mantissas| == i
      invariant forall j :: 0 <= j < i ==>
          Fits128(values[j], scale) && mantissas[j] == MantissaAt(values[j], scale)
    {
      match values[i] {
        case Some(d) =>
          var m := WithScale(d, scale).digits;
          if !IsI128(m) { return None; }
          mantissas := mantissas + [Some(m)];
        case None => mantissas := mantissas + [None];
      }
    }
    if scale > 127 || scale > DECIMAL128_MAX_PRECISION { return None; }
    return Some(mantissas);
  }

  predicate SameCell(a: Option<Decimal>, b: Option<Decimal>) {
    match (a, b) case (Some(x), Some(y)) => Same(x, y) case (None, None) => true case _ => false
  }

  /** One half in a whole-number column is exported as zero, not refused. */
  lemma HalfIsCut()
    ensures var half := Some(Decimal(5, 1));
      Fits128(half, 0) && MantissaAt(half, 0) == Some(0) && !SameCell(Some(Decimal(0, 0)), half)
  {
    assert Pow10(1) == 10;
  }

  // ---------- batches ----------

  /** A value column's type, as far as the reader knows types. */
  datatype Kind = Utf8 | Float | Decimal128(scale: int) | Unsupported

  /** A cell: null, a text, a finite number, a NaN or infinity, or a mantissa. */
  datatype Cell = Null | Text(text: string) | Number(value: real) | NonNumber | Mantissa(mantissa: int)

  datatype Timestamps = Missing | NotInt64 | Int64(cells: seq<Option<int>>)

  /** `kind` is absent when there is no value column. */
  datatype Batch = Batch(timestamps: Timestamps, kind: Option<Kind>, cells: seq<Cell>)

  datatype Error = MissingColumn | WrongType | NonFinite(row: nat) | BadValue(text: string) | OutOfRange

  datatype Columns = Columns(timestamps: seq<int>, values: seq<Option<Decimal>>)

  /** The conversions the reader calls: parsing a text, spotting a text that names a non-finite
      value, the decimal of a finite float, and the domain a decimal must lie in. */
  datatype Library = Library(parse: string -> Option<Decimal>, namesNonFinite: string -> bool,
                             fromFloat: real -> Decimal, inDomain: Decimal -> bool)

  predicate CellFits(kind: Kind, cell: Cell) {
    cell.Null? || match kind
      case Utf8 => cell.Text?
      case Float => cell.Number? || cell.NonNumber?
      case Decimal128(_) => cell.Mantissa?
      case Unsupported => true
  }

  /** Columns of one length, cells of the column's type: what the format guarantees. */
  predicate Formed(b: Batch) {
    (b.timestamps.Int64? ==> |b.timestamps.cells| == |b.cells|) &&
    (b.kind.Some? ==> forall i :: 0 <= i < |b.cells| ==> CellFits(b.kind.value, b.cells[i]))
  }

  function ReadCell(lib: Library, kind: Kind, cell: Cell, strict: bool, row: nat): Result<Option<Decimal>, Error> {
    match cell
    case Null => Ok(None)
    case Text(text) =>
      if strict && lib.namesNonFinite(text) then Err(NonFinite(row))
      else (match lib.parse(text) case Some(d) => Ok(Some(d)) case None => Err(BadValue(text)))
    case Number(v) => Ok(Some(lib.fromFloat(v)))
    case NonNumber => if strict then Err(NonFinite(row)) else Ok(None)
    case Mantissa(m) => Ok(Some(Decimal(m, if kind.Decimal128? then kind.scale else 0)))
  }

  /** The values of the cells in row order, or the first refusal. */
  function ReadCells(lib: Library, kind: Kind, cells: seq<Cell>, strict: bool, offset: nat)
    : Result<seq<Option<Decimal>>, Error>
  {
    if cells == [] then Ok([])
    else match ReadCells(lib, kind, cells[..|cells| - 1], strict, offset)
      case Err(e) => Err(e)
      case Ok(front) =>
        match ReadCell(lib, kind, cells[|cells| - 1], strict, offset + |cells| - 1)
        case Err(e) => Err(e)
        case Ok(v) => Ok(front + [v])
  }

  predicate InDomain(lib: Library, v: Option<Decimal>) { v.Some? ==> lib.inDomain(v.value) }

  function Present(cells: seq<Option<int>>): (ts: seq<int>)
    requires forall i :: 0 <= i < |cells| ==> cells[i].Some?
    ensures |ts| == |cells|
  {
    seq(|cells|, i requires 0 <= i < |cells| => cells[i].value)
  }

  /** One batch: its columns, or the first check that fails. The decimal domain is checked after
      every cell has been read. */
  function ReadBatch(lib: Library, b: Batch, strict: bool, offset: nat): Result<Columns, Error> {
    match b.timestamps
    case Missing => Err(MissingColumn)
    case NotInt64 => Err(WrongType)
    case Int64(cells) =>
      if !(forall i :: 0 <= i < |cells| ==> cells[i].Some?) then Err(WrongType)
      else if b.kind.None? then Err(MissingColumn)
      else if b.kind.value.Unsupported? then Err(WrongType)
      else match ReadCells(lib, b.kind.value, b.cells, strict, offset)
        case Err(e) => Err(e)
        case Ok(values) =>
          if forall i :: 0 <= i < |values| ==> InDomain(lib, values[i]) then Ok(Columns(Present(cells), values))
          else Err(OutOfRange)
  }

  function ReadBatches(lib: Library, batches: seq<Batch>, strict: bool): Result<Columns, Error> {
    if batches == [] then Ok(Columns([], []))
    else match ReadBatches(lib, batches[..|batches| - 1], strict)
      case Err(e) => Err(e)
      case Ok(front) =>
        match ReadBatch(lib, batches[|batches| - 1], strict, |front.timestamps|)
        case Err(e) => Err(e)
        case Ok(c) => Ok(Columns(front.timestamps + c.timestamps, front.values + c.values))
  }

  /** The loop over a batch set, rows numbered across it. */
  method ColumnsFromBatches(lib: Library, batches: seq<Batch>, strict: bool) returns (r: Result<Columns, Error>)
    ensures r == ReadBatches(lib, batches, strict)
  {
    hide ReadBatch;
    var timestamps: seq<int> := [];
    var values: seq<Option<Decimal>> := [];
    for i := 0 to |batches|
      invariant ReadBatches(lib, batches[..i], strict) == Ok(Columns(timestamps, values))
    {
      assert batches[..i + 1][..i] == batches[..i];
      var c := ColumnsFromBatch(lib, batches[i], strict, |timestamps|);
      if c.Err? {
        BatchErrStays(lib, batches, strict, i + 1, |batches|);
        return Err(c.error);
      }
      timestamps := timestamps + c.value.timestamps;
      values := values + c.value.values;
    }
    assert batches[..|batches|] == batches;
    return Ok(Columns(timestamps, values));
  }

  lemma {:induction false} BatchErrStays(lib: Library, batches: seq<Batch>, strict: bool, i: nat, n: nat)
    requires i <= n <= |batches| && ReadBatches(lib, batches[..i], strict).Err?
    ensures ReadBatches(lib, batches[..n], strict) == Err(ReadBatches(lib, batches[..i], strict).error)
    ensures batches[..|batches|] == batches
    decreases n
  {
    if i == n {
    } else {
      BatchErrStays(lib, batches, strict, i, n - 1);
      assert batches[..n][..n - 1] == batches[..n - 1];
    }
  }

  method ColumnsFromBatch(lib: Library, b: Batch, strict: bool, offset: nat) returns (r: Result<Columns, Error>)
    ensures r == ReadBatch(lib, b, strict, offset)
  {
    if b.timestamps.Missing? { return Err(MissingColumn); }
    if b.timestamps.NotInt64? { return Err(WrongType); }
    var cells := b.timestamps.cells;
    if !(forall i :: 0 <= i < |cells| ==> cells[i].Some?) { return Err(WrongType); }
    if b.kind.None? { return Err(MissingColumn); }
    if b.kind.value.Unsupported? { return Err(WrongType); }
    var values := ReadCellsLoop(lib, b.kind.value, b.cells, strict, offset);
    if values.Err? { return Err(values.error); }
    for i := 0 to |values.value|
      invariant forall j :: 0 <= j < i ==> InDomain(lib, values.value[j])
    {
      if !InDomain(lib, values.value[i]) { return Err(OutOfRange); }
    }
    return Ok(Columns(Present(cells), values.value));
  }

  method ReadCellsLoop(lib: Library, kind: Kind, cells: seq<Cell>, strict: bool, offset: nat)
    returns (r: Result<seq<Option<Decimal>>, Error>)
    ensures r == ReadCells(lib, kind, cells, strict, offset)
  {
    hide ReadCell;
    var out: seq<Option<Decimal>> := [];
    for row := 0 to |cells|
      invariant ReadCells(lib, kind, cells[..row], strict, offset) == Ok(out)
    {
      assert cells[..row + 1][..row] == cells[..row];
      var v := ReadCell(lib, kind, cells[row], strict, offset + row);
      if v.Err? {
        CellErrStays(lib, kind, cells, strict, offset, row + 1, |cells|);
        return Err(v.error);
      }
      out := out + [v.value];
    }
    assert cells[..|cells|] == cells;
    return Ok(out);
  }

  lemma {:induction false} CellErrStays(lib: Library, kind: Kind, cells: seq<Cell>, strict: bool, offset: nat, i: nat,
        n: nat)
    requires i <= n <= |cells| && ReadCells(lib, kind, cells[..i], strict, offset).Err?
    ensures ReadCells(lib, kind, cells[..n], strict, offset)
         == Err(ReadCells(lib, kind, cells[..i], strict, offset).error)
    ensures cells[..|cells|] == cells
    decreases n
  {
    if i == n {
    } else {
      CellErrStays(lib, kind, cells, strict, offset, i, n - 1);
      assert cells[..n][..n - 1] == cells[..n - 1];
    }
  }

  // ---------- rows, however they are split ----------

  /** A row: its timestamp, and its cell with the column's type. */
  datatype Row = Row(at: Option<int>, kind: Kind, cell: Cell)

  predicate Readable(b: Batch) {
    b.timestamps.Int64? && b.kind.Some? && !b.kind.value.Unsupported? && Formed(b)
  }

  function RowsOf(b: Batch): (rows: seq<Row>)
    requires Readable(b)
    ensures |rows| == |b.cells|
  {
    seq(|b.cells|, i requires 0 <= i < |b.cells| => Row(b.timestamps.cells[i], b.kind.value, b.cells[i]))
  }

  function AllRows(batches: seq<Batch>): seq<Row>
    requires forall b :: b in batches ==> Readable(b)
  {
    if batches == [] then [] else AllRows(batches[..|batches| - 1]) + RowsOf(batches[|batches| - 1])
  }

  function RowValue(lib: Library, row: Row, strict: bool): Result<Option<Decimal>, Error> {
    ReadCell(lib, row.kind, row.cell, strict, 0)
  }

  predicate RowOk(lib: Library, row: Row, strict: bool) {
    row.at.Some? && RowValue(lib, row, strict).Ok? && InDomain(lib, RowValue(lib, row, strict).value)
  }

  ghost predicate RowsOk(lib: Library, rows: seq<Row>, strict: bool) {
    forall i :: 0 <= i < |rows| ==> RowOk(lib, rows[i], strict)
  }

  function TimeOf(row: Row): int {
    match row.at case Some(t) => t case None => 0
  }

  function ValueOf(lib: Library, row: Row, strict: bool): Option<Decimal> {
    match RowValue(lib, row, strict) case Ok(v) => v case Err(_) => None
  }

  /** What the rows say, where all of them can be read. */
  function RowColumns(lib: Library, rows: seq<Row>, strict: bool): Columns {
    Columns(seq(|rows|, i requires 0 <= i < |rows| => TimeOf(rows[i])),
            seq(|rows|, i requires 0 <= i < |rows| => ValueOf(lib, rows[i], strict)))
  }

  lemma CellRow(lib: Library, kind: Kind, cell: Cell, strict: bool, row: nat)
    ensures ReadCell(lib, kind, cell, strict, row).Ok? <==> ReadCell(lib, kind, cell, strict, 0).Ok?
    ensures ReadCell(lib, kind, cell, strict, row).Ok? ==>
        ReadCell(lib, kind, cell, strict, row) == ReadCell(lib, kind, cell, strict, 0)
  {}

  lemma {:induction false} ReadCellsByRow(lib: Library, kind: Kind, cells: seq<Cell>, strict: bool, offset: nat)
    ensures ReadCells(lib, kind, cells, strict, offset).Ok? <==>
        forall i :: 0 <= i < |cells| ==> ReadCell(lib, kind, cells[i], strict, 0).Ok?
    ensures ReadCells(lib, kind, cells, strict, offset).Ok? ==>
      var values := ReadCells(lib, kind, cells, strict, offset).value;
      |values| == |cells| && forall i :: 0 <= i < |cells| ==> Ok(values[i]) == ReadCell(lib, kind, cells[i], strict, 0)
  {
    hide ReadCell;
    if cells == [] {
    } else {
      var front, last := cells[..|cells| - 1], |cells| - 1;
      ReadCellsByRow(lib, kind, front, strict, offset);
      CellRow(lib, kind, cells[last], strict, offset + last);
      if forall i :: 0 <= i < |cells| ==> ReadCell(lib, kind, cells[i], strict, 0).Ok? {
        forall i | 0 <= i < |front|
          ensures ReadCell(lib, kind, front[i], strict, 0).Ok?
        {
          assert front[i] == cells[i];
        }
      }
    }
  }

  lemma BatchOkRows(lib: Library, b: Batch, strict: bool, offset: nat)
    requires Readable(b)
    ensures ReadBatch(lib, b, strict, offset).Ok? ==> RowsOk(lib, RowsOf(b), strict)
  {
    ReadCellsByRow(lib, b.kind.value, b.cells, strict, offset);
    hide ReadCell, ReadCells;
    if ReadBatch(lib, b, strict, offset).Ok? {
      var values := ReadCells(lib, b.kind.value, b.cells, strict, offset).value;
      forall i | 0 <= i < |b.cells| ensures RowOk(lib, RowsOf(b)[i], strict) {
        assert Ok(values[i]) == ReadCell(lib, b.kind.value, b.cells[i], strict, 0);
        assert InDomain(lib, values[i]);
      }
    }
  }

  lemma BatchByRow(lib: Library, b: Batch, strict: bool, offset: nat)
    requires Readable(b)
    ensures ReadBatch(lib, b, strict, offset).Ok? <==> RowsOk(lib, RowsOf(b), strict)
    ensures RowsOk(lib, RowsOf(b), strict) ==>
        ReadBatch(lib, b, strict, offset) == Ok(RowColumns(lib, RowsOf(b), strict))
  {
    ReadCellsByRow(lib, b.kind.value, b.cells, strict, offset);
    hide ReadCell, ReadCells;
    var rows := RowsOf(b);
    if RowsOk(lib, rows, strict) {
      forall i | 0 <= i < |b.cells|
        ensures ReadCell(lib, b.kind.value, b.cells[i], strict, 0).Ok? && b.timestamps.cells[i].Some?
      {
        assert RowOk(lib, rows[i], strict);
      }
      var values := ReadCells(lib, b.kind.value, b.cells, strict, offset).value;
      forall i | 0 <= i < |values|
        ensures InDomain(lib, values[i]) && values[i] == RowValue(lib, rows[i], strict).value
      {
        assert RowOk(lib, rows[i], strict);
      }
      assert values == RowColumns(lib, rows, strict).values;
      assert Present(b.timestamps.cells) == RowColumns(lib, rows, strict).timestamps;
    }
    BatchOkRows(lib, b, strict, offset);
  }

  // ---------- the decimal export read back ----------

  function MantissaCell(m: Option<int>): Cell {
    match m case Some(digits) => Mantissa(digits) case None => Null
  }

  /** The batch a typed export assembles: dense timestamps, and the column's mantissas. */
  function ExportedBatch(timestamps: seq<int>, mantissas: seq<Option<int>>, scale: nat): Batch {
    Batch(Int64(seq(|timestamps|, i requires 0 <= i < |timestamps| => Some(timestamps[i]))), Some(Decimal128(scale)),
          seq(|mantissas|, i requires 0 <= i < |mantissas| => MantissaCell(mantissas[i])))
  }

  function Rescaled(v: Option<Decimal>, scale: nat): Option<Decimal> {
    match v case Some(d) => Some(WithScale(d, scale)) case None => None
  }

  lemma ExportedRow(lib: Library, v: Option<Decimal>, t: int, scale: nat, strict: bool)
    ensures var row := Row(Some(t), Decimal128(scale), MantissaCell(MantissaAt(v, scale)));
      (RowOk(lib, row, strict) <==> InDomain(lib, Rescaled(v, scale)))
        && ValueOf(lib, row, strict) == Rescaled(v, scale) && TimeOf(row) == t
  {}

  /** An exported column read back by either reader, whole: it is refused exactly when a rescaled
      value is outside the domain; otherwise it holds the same timestamps and the rescaled values. */
  lemma ExportReadBack(lib: Library, timestamps: seq<int>, values: seq<Option<Decimal>>, mantissas: seq<Option<int>>,
        scale: nat, strict: bool, offset: nat)
    requires |timestamps| == |values| == |mantissas|
    requires forall i :: 0 <= i < |values| ==> mantissas[i] == MantissaAt(values[i], scale)
    ensures var r := ReadBatch(lib, ExportedBatch(timestamps, mantissas, scale), strict, offset);
      && (r.Ok? <==> forall i :: 0 <= i < |values| ==> InDomain(lib, Rescaled(values[i], scale)))
      && (r.Ok? ==>
          r.value.timestamps == timestamps && |r.value.values| == |values|
          && forall i :: 0 <= i < |values| ==> r.value.values[i] == Rescaled(values[i], scale))
  {
    hide WithScale, ReadBatch, InDomain, RowOk, ValueOf, TimeOf, Rescaled;
    var b := ExportedBatch(timestamps, mantissas, scale);
    assert Readable(b);
    BatchByRow(lib, b, strict, offset);
    var rows := RowsOf(b);
    forall i | 0 <= i < |values|
      ensures (RowOk(lib, rows[i], strict) <==> InDomain(lib, Rescaled(values[i], scale)))
        && ValueOf(lib, rows[i], strict) == Rescaled(values[i], scale) && TimeOf(rows[i]) == timestamps[i]
    {
      ExportedRow(lib, values[i], timestamps[i], scale, strict);
      assert rows[i] == Row(Some(timestamps[i]), Decimal128(scale), MantissaCell(MantissaAt(values[i], scale)));
    }
    if RowsOk(lib, rows, strict) { assert RowColumns(lib, rows, strict).timestamps == timestamps; }
  }

  lemma RescaledSame(v: Option<Decimal>, scale: nat)
    ensures SameCell(Rescaled(v, scale), v) <==> (v.Some? ==> FitsScale(v.value, scale))
  {
    if v.Some? { WithScaleKeeps(v.value, scale); }
  }

  /** What is read back is the same numbers, nulls included, exactly when every present value has at
      most the column's fractional digits: the export does not refuse longer values, it cuts them. */
  lemma ExportImports(lib: Library, timestamps: seq<int>, values: seq<Option<Decimal>>, mantissas: seq<Option<int>>,
        scale: nat, strict: bool, offset: nat)
    requires |timestamps| == |values| == |mantissas|
    requires forall i :: 0 <= i < |values| ==> mantissas[i] == MantissaAt(values[i], scale)
    ensures var r := ReadBatch(lib, ExportedBatch(timestamps, mantissas, scale), strict, offset);
      r.Ok? ==> (r.value.timestamps == timestamps && |r.value.values| == |values| &&
        ((forall i :: 0 <= i < |values| ==> SameCell(r.value.values[i], values[i]))
          <==> forall i :: 0 <= i < |values| ==> (values[i].Some? ==> FitsScale(values[i].value, scale))))
  {
    hide SameCell, FitsScale, ReadBatch, ExportedBatch, InDomain, Rescaled;
    ExportReadBack(lib, timestamps, values, mantissas, scale, strict, offset);
    forall i | 0 <= i < |values|
      ensures SameCell(Rescaled(values[i], scale), values[i]) <==>
          (values[i].Some? ==> FitsScale(values[i].value, scale))
    {
      RescaledSame(values[i], scale);
    }
  }

  // ---------- batch sets ----------

  /** Reading a batch set depends on its rows alone, not on how they are split into batches: it
      succeeds exactly when every row can be read, with what the rows say. */
  lemma {:induction false} SplitIndependent(lib: Library, batches: seq<Batch>, strict: bool)
    requires forall b :: b in batches ==> Readable(b)
    ensures ReadBatches(lib, batches, strict).Ok? <==> RowsOk(lib, AllRows(batches), strict)
    ensures RowsOk(lib, AllRows(batches), strict) ==>
        ReadBatches(lib, batches, strict) == Ok(RowColumns(lib, AllRows(batches), strict))
  {
    hide ReadBatch, RowOk, RowsOf;
    if batches != [] {
      var front, last := batches[..|batches| - 1], batches[|batches| - 1];
      SplitIndependent(lib, front, strict);
      RowsOkJoin(lib, AllRows(front), RowsOf(last), strict);
      if RowsOk(lib, AllRows(front), strict) {
        BatchByRow(lib, last, strict, |ReadBatches(lib, front, strict).value.timestamps|);
      }
    } else {
      assert RowColumns(lib, AllRows(batches), strict) == Columns([], []);
    }
  }

  /** Two batch sets holding the same rows read the same, however each is cut. */
  lemma SameRowsSameColumns(a: seq<Batch>, b: seq<Batch>, lib: Library, strict: bool)
    requires (forall x :: x in a ==> Readable(x)) && (forall x :: x in b ==> Readable(x)) && AllRows(a) == AllRows(b)
    ensures ReadBatches(lib, a, strict).Ok? <==> ReadBatches(lib, b, strict).Ok?
    ensures ReadBatches(lib, a, strict).Ok? ==> ReadBatches(lib, a, strict) == ReadBatches(lib, b, strict)
  {
    hide ReadBatches, AllRows, RowsOk;
    SplitIndependent(lib, a, strict);
    SplitIndependent(lib, b, strict);
  }

  lemma RowsOkJoin(lib: Library, a: seq<Row>, b: seq<Row>, strict: bool)
    ensures RowsOk(lib, a + b, strict) <==> RowsOk(lib, a, strict) && RowsOk(lib, b, strict)
    ensures RowColumns(lib, a + b, strict).timestamps
         == RowColumns(lib, a, strict).timestamps + RowColumns(lib, b, strict).timestamps
    ensures RowColumns(lib, a + b, strict).values
         == RowColumns(lib, a, strict).values + RowColumns(lib, b, strict).values
  {
    hide RowOk, ValueOf, TimeOf;
    if RowsOk(lib, a + b, strict) {
      forall i | 0 <= i < |a| ensures RowOk(lib, a[i], strict) { assert (a + b)[i] == a[i]; }
      forall i | 0 <= i < |b| ensures RowOk(lib, b[i], strict) { assert (a + b)[|a| + i] == b[i]; }
    }
  }

  // ---------- what each cell says ----------

  /** What a row says, cell by cell: a null is none; a text is its parse; a finite number its decimal;
      a NaN or infinity is none, to the lenient reader only; a mantissa stands at the column's scale.
      The strict reader takes no text that names a non-finite value. */
  predicate Says(lib: Library, row: Row, strict: bool, at: int, v: Option<Decimal>) {
    && row.at == Some(at) && InDomain(lib, v)
    && match row.cell
      case Null => v.None?
      case Text(text) => v.Some? && lib.parse(text) == v && !(strict && lib.namesNonFinite(text))
      case Number(x) => v == Some(lib.fromFloat(x))
      case NonNumber => v.None? && !strict
      case Mantissa(m) => row.kind.Decimal128? && v == Some(Decimal(m, row.kind.scale))
  }

  lemma RowSays(lib: Library, row: Row, strict: bool, at: int, v: Option<Decimal>)
    requires CellFits(row.kind, row.cell) && !row.kind.Unsupported?
    ensures Says(lib, row, strict, at, v)
      <==> RowOk(lib, row, strict) && TimeOf(row) == at && ValueOf(lib, row, strict) == v
  {}

  /** What the rows of a set say, in order. */
  ghost predicate SaysAll(lib: Library, rows: seq<Row>, strict: bool, c: Columns) {
    |c.timestamps| == |c.values| == |rows| &&
    forall i :: 0 <= i < |rows| ==> Says(lib, rows[i], strict, c.timestamps[i], c.values[i])
  }

  ghost predicate AllFit(rows: seq<Row>) {
    forall i :: 0 <= i < |rows| ==> CellFits(rows[i].kind, rows[i].cell) && !rows[i].kind.Unsupported?
  }

  lemma {:induction false} AllRowsFit(batches: seq<Batch>)
    requires forall b :: b in batches ==> Readable(b)
    ensures AllFit(AllRows(batches))
  {
    if batches == [] {
    } else {
      var front, last := batches[..|batches| - 1], batches[|batches| - 1];
      AllRowsFit(front);
      RowsFit(last);
      assert AllRows(batches) == AllRows(front) + RowsOf(last);
      hide AllRows, CellFits, RowsOf, Readable;
      FitJoin(AllRows(front), RowsOf(last));
    }
  }

  lemma RowsFit(b: Batch)
    requires Readable(b)
    ensures AllFit(RowsOf(b))
  {
    hide CellFits;
  }

  lemma FitJoin(a: seq<Row>, b: seq<Row>)
    requires AllFit(a) && AllFit(b)
    ensures AllFit(a + b)
  {
    hide CellFits;
  }

  lemma RowsSay(lib: Library, rows: seq<Row>, strict: bool, c: Columns)
    requires AllFit(rows)
    ensures SaysAll(lib, rows, strict, c) <==> RowsOk(lib, rows, strict) && c == RowColumns(lib, rows, strict)
  {
    hide Says, RowOk, TimeOf, ValueOf, CellFits;
    var all := RowColumns(lib, rows, strict);
    if SaysAll(lib, rows, strict, c) {
      forall i | 0 <= i < |rows|
        ensures RowOk(lib, rows[i], strict)
        ensures c.timestamps[i] == all.timestamps[i] && c.values[i] == all.values[i]
      {
        RowSays(lib, rows[i], strict, c.timestamps[i], c.values[i]);
      }
      assert c.timestamps == all.timestamps && c.values == all.values;
    }
    if RowsOk(lib, rows, strict) && c == all {
      forall i | 0 <= i < |rows| ensures Says(lib, rows[i], strict, c.timestamps[i], c.values[i]) {
        assert RowOk(lib, rows[i], strict);
        RowSays(lib, rows[i], strict, c.timestamps[i], c.values[i]);
      }
    }
  }

  /** A batch is read, wherever it starts, exactly as columns that say what its cells do; it is refused
      exactly when no columns do. */
  lemma BatchSays(lib: Library, b: Batch, strict: bool, offset: nat, c: Columns)
    requires Readable(b)
    ensures ReadBatch(lib, b, strict, offset) == Ok(c) <==> SaysAll(lib, RowsOf(b), strict, c)
  {
    RowsFit(b);
    hide ReadBatch, RowsOk, RowsOf, SaysAll, AllFit, Readable;
    BatchByRow(lib, b, strict, offset);
    RowsSay(lib, RowsOf(b), strict, c);
  }

  /** The same of a batch set, over the rows of all its batches. */
  lemma SetSays(lib: Library, batches: seq<Batch>, strict: bool, c: Columns)
    requires forall b :: b in batches ==> Readable(b)
    ensures ReadBatches(lib, batches, strict) == Ok(c) <==> SaysAll(lib, AllRows(batches), strict, c)
  {
    AllRowsFit(batches);
    hide ReadBatches, RowsOk, AllRows, SaysAll, AllFit, Readable;
    SplitIndependent(lib, batches, strict);
    RowsSay(lib, AllRows(batches), strict, c);
  }

  // ---------- the strict reader ----------

  /** A cell the strict reader refuses by row: a NaN or infinity, or a text naming one. */
  predicate NamesNonFinite(lib: Library, cell: Cell) {
    cell.NonNumber? || (cell.Text? && lib.namesNonFinite(cell.text))
  }

  /** Nothing wrong with the row but possibly a non-finite cell. */
  predicate OtherwiseOk(lib: Library, row: Row) {
    row.at.Some? && (NamesNonFinite(lib, row.cell) || RowOk(lib, row, false))
  }

  lemma StrictRow(lib: Library, row: Row)
    requires OtherwiseOk(lib, row)
    ensures RowOk(lib, row, true) <==> !NamesNonFinite(lib, row.cell)
    ensures !NamesNonFinite(lib, row.cell) ==>
        RowOk(lib, row, false) && RowValue(lib, row, true) == RowValue(lib, row, false)
  {}

  lemma {:induction false} FirstNonFinite(lib: Library, kind: Kind, cells: seq<Cell>, offset: nat, k: nat)
    requires k < |cells| && NamesNonFinite(lib, cells[k])
    requires forall i :: 0 <= i < k ==> ReadCell(lib, kind, cells[i], true, 0).Ok?
    ensures ReadCells(lib, kind, cells, true, offset) == Err(NonFinite(offset + k))
  {
    hide ReadCell;
    if k < |cells| - 1 {
      FirstNonFinite(lib, kind, cells[..|cells| - 1], offset, k);
    } else {
      ReadCellsByRow(lib, kind, cells[..k], true, offset);
      RefusedCell(lib, kind, cells[k], offset + k);
    }
  }

  lemma RefusedCell(lib: Library, kind: Kind, cell: Cell, row: nat)
    requires NamesNonFinite(lib, cell)
    ensures ReadCell(lib, kind, cell, true, row) == Err(NonFinite(row))
  {}

  /** With every other cell valid, the strict reader names the first non-finite row, counted across
      the whole batch set; with none, it agrees with the lenient one. */
  lemma {:induction false} StrictNamesFirst(lib: Library, batches: seq<Batch>)
    requires forall b :: b in batches ==> Readable(b)
    requires forall i :: 0 <= i < |AllRows(batches)| ==> OtherwiseOk(lib, AllRows(batches)[i])
    ensures var rows := AllRows(batches);
      (exists k :: 0 <= k < |rows| && NamesNonFinite(lib, rows[k].cell)) ==>
        exists k :: 0 <= k < |rows| && NamesNonFinite(lib, rows[k].cell)
                    && (forall i :: 0 <= i < k ==> !NamesNonFinite(lib, rows[i].cell))
                    && ReadBatches(lib, batches, true) == Err(NonFinite(k))
    ensures (forall k :: 0 <= k < |AllRows(batches)| ==> !NamesNonFinite(lib, AllRows(batches)[k].cell)) ==>
      ReadBatches(lib, batches, true) == ReadBatches(lib, batches, false) && ReadBatches(lib, batches, true).Ok?
  {
    var rows := AllRows(batches);
    if exists k :: 0 <= k < |rows| && NamesNonFinite(lib, rows[k].cell) {
      var k := TheFirst(lib, rows);
      FirstAcrossBatches(lib, batches, k);
    } else {
      AllStrictlyOk(lib, batches);
    }
  }

  lemma TheFirst(lib: Library, rows: seq<Row>) returns (k: nat)
    requires exists k :: 0 <= k < |rows| && NamesNonFinite(lib, rows[k].cell)
    ensures k < |rows| && IsFirst(lib, rows, k)
  {
    hide NamesNonFinite;
    k := 0;
    while k < |rows| && !NamesNonFinite(lib, rows[k].cell)
      invariant k <= |rows| && forall i :: 0 <= i < k ==> !NamesNonFinite(lib, rows[i].cell)
    {
      k := k + 1;
    }
  }

  /** Row `k` is the first with a non-finite cell. */
  ghost predicate IsFirst(lib: Library, rows: seq<Row>, k: nat)
    requires k < |rows|
  {
    NamesNonFinite(lib, rows[k].cell) && forall i :: 0 <= i < k ==> !NamesNonFinite(lib, rows[i].cell)
  }

  lemma AllStrictlyOk(lib: Library, batches: seq<Batch>)
    requires forall b :: b in batches ==> Readable(b)
    requires forall i :: 0 <= i < |AllRows(batches)| ==>
        OtherwiseOk(lib, AllRows(batches)[i]) && !NamesNonFinite(lib, AllRows(batches)[i].cell)
    ensures ReadBatches(lib, batches, true) == ReadBatches(lib, batches, false) && ReadBatches(lib, batches, true).Ok?
  {
    hide RowOk, RowValue, NamesNonFinite, OtherwiseOk, ReadBatches, AllRows;
    var rows := AllRows(batches);
    forall i | 0 <= i < |rows|
      ensures RowOk(lib, rows[i], true) && RowOk(lib, rows[i], false)
      ensures RowValue(lib, rows[i], true) == RowValue(lib, rows[i], false)
    {
      StrictRow(lib, rows[i]);
    }
    SplitIndependent(lib, batches, true);
    SplitIndependent(lib, batches, false);
    assert RowColumns(lib, rows, true) == RowColumns(lib, rows, false);
  }

  lemma {:induction false} FirstAcrossBatches(lib: Library, batches: seq<Batch>, k: nat)
    requires forall b :: b in batches ==> Readable(b)
    requires forall i :: 0 <= i < |AllRows(batches)| ==> OtherwiseOk(lib, AllRows(batches)[i])
    requires k < |AllRows(batches)| && IsFirst(lib, AllRows(batches), k)
    ensures ReadBatches(lib, batches, true) == Err(NonFinite(k))
  {
    hide RowOk, RowValue, NamesNonFinite, OtherwiseOk, RowsOf, ReadBatch;
    var front, last := batches[..|batches| - 1], batches[|batches| - 1];
    var rows, before := AllRows(batches), AllRows(front);
    assert rows == before + RowsOf(last);
    forall i | 0 <= i < |before| ensures before[i] == rows[i] {}
    if k < |before| {
      FirstAcrossBatches(lib, front, k);
    } else {
      AllStrictlyOk(lib, front);
      SplitIndependent(lib, front, true);
      FirstInBatch(lib, last, |before|, k - |before|) by {
        forall i | 0 <= i < |RowsOf(last)| ensures RowsOf(last)[i] == rows[|before| + i] {}
      }
    }
  }

  lemma FirstInBatch(lib: Library, b: Batch, offset: nat, k: nat)
    requires Readable(b) && k < |RowsOf(b)| && IsFirst(lib, RowsOf(b), k)
    requires forall i :: 0 <= i < |RowsOf(b)| ==> OtherwiseOk(lib, RowsOf(b)[i])
    ensures ReadBatch(lib, b, true, offset) == Err(NonFinite(offset + k))
  {
    hide ReadCell, ReadCells, NamesNonFinite;
    forall i | 0 <= i < |b.cells| ensures b.timestamps.cells[i].Some? { assert OtherwiseOk(lib, RowsOf(b)[i]); }
    forall i | 0 <= i < k ensures ReadCell(lib, b.kind.value, b.cells[i], true, 0).Ok? { StrictRow(lib, RowsOf(b)[i]); }
    FirstNonFinite(lib, b.kind.value, b.cells, offset, k);
  }
}
