/** List projections (internal/domain/masterdata/projection.go): selected fields
    of every record of an entity, stored by column in the narrowest kind that
    holds the column's values. Their gob and zstd encoding is an inverse pair
    and is left as the projection itself. */
module Projections {
  import opened Text
  import opened Json

  datatype ColumnKind = ColumnEmpty | ColumnInt | ColumnFloat | ColumnString | ColumnBool | ColumnRaw

  /** One slice per kind; only the column's own is filled. Missing is None when
      every row has a value. */
  datatype Column = Column(
    kind: ColumnKind,
    missing: Option<seq<bool>>,
    ints: seq<int>,
    floats: seq<Float64>,
    strings: seq<string>,
    bools: seq<bool>,
    raw: seq<Value>)

  const EMPTY_COLUMN := Column(ColumnEmpty, None, [], [], [], [], [])

  /** 1 << 53: every integer below it in magnitude is a float64. */
  const MAX_EXACT_INT := 0x20_0000_0000_0000

  // ---------------------------------------------------------------- kinds

  /** typed == math.Trunc(typed) && math.Abs(typed) < 1<<53 */
  predicate IsSmallInteger(number: Float64) {
    var unit := PowerOfTen(number.scale);
    number.mantissa % unit == 0 && -MAX_EXACT_INT < number.mantissa / unit < MAX_EXACT_INT
  }

  /** int64(number) */
  function Truncated(number: Float64): int {
    number.mantissa / PowerOfTen(number.scale)
  }

  /** float64(i), exact for the integers an integer column holds. */
  function FloatOf(i: int): Float64 {
    Decimal(i, 0)
  }

  lemma WholeNumbersHaveNoFraction(number: Float64)
    requires number.mantissa % PowerOfTen(number.scale) == 0
    ensures number.scale == 0
  {
    if number.scale > 0 {
      var p := PowerOfTen(number.scale - 1);
      MultipleOfTen(number.mantissa, p);
    }
  }

  lemma MultipleOfTen(m: int, p: nat)
    requires p > 0 && m % (10 * p) == 0
    ensures m % 10 == 0
  {
    var q := m / (10 * p);
    assert m == (10 * p) * q;
    assert m == 10 * (p * q);
  }

  /** Converting a small whole number to int64 and back changes nothing. */
  lemma IntegersRoundTrip(number: Float64)
    requires IsSmallInteger(number)
    ensures FloatOf(Truncated(number)) == number && -MAX_EXACT_INT < Truncated(number) < MAX_EXACT_INT
  {
    WholeNumbersHaveNoFraction(number);
  }

  /** The kind one value asks for; null and absent values ask for none. */
  function ValueKind(value: Value): ColumnKind {
    match value
    case Null => ColumnEmpty
    case Number(number) => if IsSmallInteger(number) then ColumnInt else ColumnFloat
    case String(_) => ColumnString
    case Bool(_) => ColumnBool
    case _ => ColumnRaw
  }

  /** The kinds of value in a column, in any order and number. */
  function KindsIn(values: seq<Value>): set<ColumnKind> {
    set i | 0 <= i < |values| && values[i] != Null :: ValueKind(values[i])
  }

  /** The narrowest kind holding some kinds of value: nothing needs no column,
      one kind is kept, whole and fractional numbers share a float column, and
      any other mix is kept raw. */
  function NarrowestKind(kinds: set<ColumnKind>): ColumnKind {
    if kinds == {} then ColumnEmpty
    else if kinds == {ColumnInt} then ColumnInt
    else if kinds == {ColumnFloat} || kinds == {ColumnInt, ColumnFloat} then ColumnFloat
    else if kinds == {ColumnString} then ColumnString
    else if kinds == {ColumnBool} then ColumnBool
    else ColumnRaw
  }

  lemma KindsGrow(values: seq<Value>, row: nat)
    requires row < |values|
    ensures KindsIn(values[..row + 1])
         == KindsIn(values[..row]) + if values[row] == Null then {} else {ValueKind(values[row])}
  {
    var next, before := values[..row + 1], values[..row];
    forall kind
      ensures kind in KindsIn(next) <==> kind in KindsIn(before) || (values[row] != Null && kind == ValueKind(values[row]))
    {
      if kind in KindsIn(next) {
        var i :| 0 <= i < |next| && next[i] != Null && ValueKind(next[i]) == kind;
        assert i < row ==> before[i] == next[i];
      }
      if kind in KindsIn(before) {
        var i :| 0 <= i < |before| && before[i] != Null && ValueKind(before[i]) == kind;
        assert next[i] == before[i];
      }
      if values[row] != Null && kind == ValueKind(values[row]) {
        assert next[row] == values[row];
      }
    }
  }

  predicate Numeric(kind: ColumnKind) {
    kind == ColumnInt || kind == ColumnFloat
  }

  /** One more kind of value: what the fold does is what the set asks for. */
  lemma KindStep(seen: set<ColumnKind>, next: ColumnKind)
    requires ColumnEmpty !in seen && next != ColumnEmpty && NarrowestKind(seen) != ColumnRaw
    ensures NarrowestKind(seen + {next})
         == var kind := NarrowestKind(seen);
            if kind == ColumnEmpty || kind == next then next
            else if Numeric(kind) && Numeric(next) then ColumnFloat
            else ColumnRaw
  {
    if seen == {} {
      assert seen + {next} == {next};
    }
  }

  /** A column that mixes kinds stays raw whatever else it holds. */
  lemma RawStays(kinds: set<ColumnKind>, more: set<ColumnKind>)
    requires ColumnEmpty !in more && kinds <= more && NarrowestKind(kinds) == ColumnRaw
    ensures NarrowestKind(more) == ColumnRaw
  {
  }

  lemma KindsMonotone(values: seq<Value>, row: nat)
    requires row <= |values|
    ensures KindsIn(values[..row]) <= KindsIn(values)
  {
    forall kind | kind in KindsIn(values[..row]) ensures kind in KindsIn(values) {
      var i :| 0 <= i < row && values[..row][i] != Null && ValueKind(values[..row][i]) == kind;
      assert values[i] == values[..row][i];
    }
  }

  /** One value's kind merged into the column's. */
  method MergeKind(kind: ColumnKind, valueKind: ColumnKind, ghost seen: set<ColumnKind>) returns (merged: ColumnKind)
    requires ColumnEmpty !in seen && valueKind != ColumnEmpty && kind == NarrowestKind(seen) && kind != ColumnRaw
    ensures merged == NarrowestKind(seen + {valueKind})
  {
    KindStep(seen, valueKind);
    if valueKind == ColumnRaw {
      return ColumnRaw;
    }
    if kind == ColumnEmpty || kind == valueKind {
      return valueKind;
    }
    if (kind == ColumnInt && valueKind == ColumnFloat) || (kind == ColumnFloat && valueKind == ColumnInt) {
      return ColumnFloat;
    }
    return ColumnRaw;
  }

  /** projectionColumnKind: the fold's result depends only on the set of kinds. */
  method ProjectionColumnKind(values: seq<Value>) returns (kind: ColumnKind)
    ensures kind == NarrowestKind(KindsIn(values))
  {
    kind := ColumnEmpty;
    for row := 0 to |values|
      invariant kind == NarrowestKind(KindsIn(values[..row])) && kind != ColumnRaw
    {
      KindsGrow(values, row);
      if values[row] == Null {
        continue;
      }
      kind := MergeKind(kind, ValueKind(values[row]), KindsIn(values[..row]));
      if kind == ColumnRaw {
        RawForGood(values, row + 1);
        return ColumnRaw;
      }
    }
    assert values[..|values|] == values;
  }

  predicate WholeSmall(value: Value) {
    value.Number? && value.number.scale == 0 && -0x20_0000_0000_0000 < value.number.mantissa < 0x20_0000_0000_0000
  }

  lemma SmallIntegersAreWhole(value: Value)
    ensures value.Number? ==> (IsSmallInteger(value.number) <==> WholeSmall(value))
  {
    if value.Number? && IsSmallInteger(value.number) {
      WholeNumbersHaveNoFraction(value.number);
    }
  }

  /** Every present value asks for the same kind of column. */
  lemma OneKind(values: seq<Value>, kind: ColumnKind)
    requires exists i :: 0 <= i < |values| && values[i] != Null
    requires forall i :: 0 <= i < |values| && values[i] != Null ==> ValueKind(values[i]) == kind
    ensures KindsIn(values) == {kind}
  {
    var i :| 0 <= i < |values| && values[i] != Null;
    assert ValueKind(values[i]) in KindsIn(values);
  }

  /** A column is stored in the narrowest kind that holds its present values: none
      without any, whole numbers below 2^53 as integers, other numbers as floats,
      texts and booleans as themselves. */
  lemma ColumnKindExact(values: seq<Value>)
    ensures var kind := NarrowestKind(KindsIn(values));
            if forall i :: 0 <= i < |values| ==> values[i] == Null then kind == ColumnEmpty
            else if forall i :: 0 <= i < |values| && values[i] != Null ==> WholeSmall(values[i]) then kind == ColumnInt
            else if forall i :: 0 <= i < |values| && values[i] != Null ==> values[i].Number? then kind == ColumnFloat
            else if forall i :: 0 <= i < |values| && values[i] != Null ==> values[i].String? then kind == ColumnString
            else if forall i :: 0 <= i < |values| && values[i] != Null ==> values[i].Bool? then kind == ColumnBool
            else kind == ColumnRaw
  {
    forall i | 0 <= i < |values| && values[i] != Null ensures ValueKind(values[i]) in KindsIn(values) {
    }
    forall i | 0 <= i < |values| && values[i].Number?
      ensures ValueKind(values[i]) == if WholeSmall(values[i]) then ColumnInt else ColumnFloat
    {
      SmallIntegersAreWhole(values[i]);
    }
  }

  lemma RawForGood(values: seq<Value>, row: nat)
    requires row <= |values| && NarrowestKind(KindsIn(values[..row])) == ColumnRaw
    ensures NarrowestKind(KindsIn(values)) == ColumnRaw
  {
    KindsMonotone(values, row);
    RawStays(KindsIn(values[..row]), KindsIn(values));
  }

  // ---------------------------------------------------------------- columns

  /** The column some values are stored as. */
  function ColumnOf(values: seq<Value>): Column {
    var kind := NarrowestKind(KindsIn(values));
    if kind == ColumnEmpty then EMPTY_COLUMN
    else
      Column(kind, MissingRows(values),
             if kind == ColumnInt then seq(|values|, i requires 0 <= i < |values| => IntCell(values[i])) else [],
             if kind == ColumnFloat then seq(|values|, i requires 0 <= i < |values| => FloatCell(values[i])) else [],
             if kind == ColumnString then seq(|values|, i requires 0 <= i < |values| => StringCell(values[i])) else [],
             if kind == ColumnBool then seq(|values|, i requires 0 <= i < |values| => BoolCell(values[i])) else [],
             if kind == ColumnRaw then values else [])
  }

  function MissingRows(values: seq<Value>): Option<seq<bool>> {
    if Null in values then Some(seq(|values|, i requires 0 <= i < |values| => values[i] == Null)) else None
  }

  function IntCell(value: Value): int {
    if value.Number? then Truncated(value.number) else 0
  }

  function FloatCell(value: Value): Float64 {
    if value.Number? then value.number else Decimal(0, 0)
  }

  function StringCell(value: Value): string {
    if value.String? then value.text else ""
  }

  function BoolCell(value: Value): bool {
    value.Bool? && value.b
  }

  method MarkMissing(values: seq<Value>) returns (missing: Option<seq<bool>>)
    ensures missing == MissingRows(values)
  {
    missing := None;
    for row := 0 to |values|
      invariant missing.None? <==> Null !in values[..row]
      invariant missing.Some? ==> |missing.value| == |values|
      invariant missing.Some? ==> forall i :: 0 <= i < |values| ==> missing.value[i] == (i < row && values[i] == Null)
    {
      assert values[..row + 1] == values[..row] + [values[row]];
      if values[row] == Null {
        if missing.None? {
          missing := Some(seq(|values|, _ => false));
        }
        missing := Some(missing.value[row := true]);
      }
    }
    assert values[..|values|] == values;
    if missing.Some? {
      assert missing.value == MissingRows(values).value;
    }
  }

  method FillCells<T>(values: seq<Value>, cell: Value -> T) returns (cells: seq<T>)
    ensures cells == seq(|values|, i requires 0 <= i < |values| => cell(values[i]))
  {
    cells := [];
    for row := 0 to |values|
      invariant |cells| == row && forall i :: 0 <= i < row ==> cells[i] == cell(values[i])
    {
      cells := cells + [cell(values[row])];
    }
  }

  method BuildProjectionColumn(values: seq<Value>) returns (column: Column)
    ensures column == ColumnOf(values)
  {
    var kind := ProjectionColumnKind(values);
    column := EMPTY_COLUMN.(kind := kind);
    if kind == ColumnEmpty {
      return;
    }
    var missing := MarkMissing(values);
    column := column.(missing := missing);
    match kind {
      case ColumnInt =>
        var cells := FillCells(values, IntCell);
        column := column.(ints := cells);
      case ColumnFloat =>
        var cells := FillCells(values, FloatCell);
        column := column.(floats := cells);
      case ColumnString =>
        var cells := FillCells(values, StringCell);
        column := column.(strings := cells);
      case ColumnBool =>
        var cells := FillCells(values, BoolCell);
        column := column.(bools := cells);
      case ColumnRaw =>
        column := column.(raw := values);
      case ColumnEmpty =>
    }
  }

  /** Projection.Value on one column: a row's value, and whether it has one. */
  predicate HasRow(column: Column, row: nat) {
    && (column.missing.Some? ==> row < |column.missing.value|)
    && (column.kind == ColumnInt ==> row < |column.ints|)
    && (column.kind == ColumnFloat ==> row < |column.floats|)
    && (column.kind == ColumnString ==> row < |column.strings|)
    && (column.kind == ColumnBool ==> row < |column.bools|)
    && (column.kind == ColumnRaw ==> row < |column.raw|)
  }

  function ColumnValue(column: Column, row: nat): Option<Value>
    requires HasRow(column, row)
  {
    if column.missing.Some? && column.missing.value[row] then None
    else match column.kind
      case ColumnEmpty => None
      case ColumnInt => Some(Number(FloatOf(column.ints[row])))
      case ColumnFloat => Some(Number(column.floats[row]))
      case ColumnString => Some(String(column.strings[row]))
      case ColumnBool => Some(Bool(column.bools[row]))
      case ColumnRaw => Some(column.raw[row])
  }

  lemma PresentKind(values: seq<Value>, row: nat)
    requires row < |values| && values[row] != Null
    ensures ValueKind(values[row]) in KindsIn(values) && NarrowestKind(KindsIn(values)) != ColumnEmpty
    ensures NarrowestKind(KindsIn(values)) in {ValueKind(values[row]), ColumnFloat, ColumnRaw}
    ensures NarrowestKind(KindsIn(values)) == ColumnFloat ==> ValueKind(values[row]) in {ColumnInt, ColumnFloat}
  {
  }

  lemma MissingExact(values: seq<Value>, row: nat)
    requires row < |values|
    ensures MissingRows(values).Some? ==> |MissingRows(values).value| == |values|
    ensures (MissingRows(values).Some? && MissingRows(values).value[row]) <==> values[row] == Null
  {
  }

  /** Every present value comes back unchanged, and exactly the null or absent
      rows are reported missing. */
  lemma ColumnRoundTrip(values: seq<Value>, row: nat)
    requires row < |values|
    ensures HasRow(ColumnOf(values), row)
    ensures ColumnValue(ColumnOf(values), row) == if values[row] == Null then None else Some(values[row])
  {
    var value := values[row];
    MissingExact(values, row);
    if value != Null {
      PresentKind(values, row);
      if ColumnOf(values).kind == ColumnInt {
        IntegersRoundTrip(value.number);
      }
    }
  }

  /** Columns tell their values apart. */
  lemma ColumnInjective(a: seq<Value>, b: seq<Value>)
    requires |a| == |b| && ColumnOf(a) == ColumnOf(b)
    ensures a == b
  {
    forall row | 0 <= row < |a| ensures a[row] == b[row] {
      ColumnRoundTrip(a, row);
      ColumnRoundTrip(b, row);
    }
  }

  // ---------------------------------------------------------------- projections

  datatype Projection = Projection(keys: seq<string>, columns: map<string, Column>)

  /** record[field]: absent fields read as nil. */
  function Cell(record: Record, field: string): Value {
    if field in record then record[field] else Null
  }

  function Cells(records: seq<Record>, field: string): seq<Value> {
    seq(|records|, i requires 0 <= i < |records| => Cell(records[i], field))
  }

  /** The projection of records stored under keys. */
  function ProjectionOf(fields: seq<string>, keys: seq<string>, records: seq<Record>): Projection {
    Projection(keys, map field | field in fields :: ColumnOf(Cells(records, field)))
  }

  class ProjectionBuilder {
    const fields: seq<string>
    var keys: seq<string>
    var values: map<string, seq<Value>>
    ghost var records: seq<Record>

    ghost predicate Valid()
      reads this
    {
      && |keys| == |records|
      && (forall field :: field in fields <==> field in values)
      && (forall field :: field in values ==> values[field] == Cells(records, field))
    }

    constructor (fields: seq<string>)
      ensures Valid() && this.fields == fields && keys == [] && records == []
    {
      this.fields := fields;
      keys := [];
      values := map field | field in fields :: [];
      records := [];
    }

    method Add(key: string, record: Record)
      requires Valid()
      modifies this
      ensures Valid() && keys == old(keys) + [key] && records == old(records) + [record]
    {
      keys := keys + [key];
      values := map field | field in values :: values[field] + [Cell(record, field)];
      records := records + [record];
    }

    method Build() returns (projection: Projection)
      requires Valid()
      ensures projection == ProjectionOf(fields, keys, records)
    {
      var columns: map<string, Column> := map[];
      for i := 0 to |fields|
        invariant forall field :: field in columns <==> field in fields[..i]
        invariant forall field :: field in columns ==> columns[field] == ColumnOf(Cells(records, field))
      {
        assert fields[..i + 1] == fields[..i] + [fields[i]];
        var column := BuildProjectionColumn(values[fields[i]]);
        columns := columns[fields[i] := column];
      }
      assert fields[..|fields|] == fields;
      return Projection(keys, columns);
    }
  }

  /** Projection.Value: every field of every row reads back as in its record. */
  lemma ProjectionRoundTrip(fields: seq<string>, keys: seq<string>, records: seq<Record>, field: string, row: nat)
    requires |keys| == |records| && row < |records| && field in fields
    ensures var column := ProjectionOf(fields, keys, records).columns[field];
            HasRow(column, row) &&
            ColumnValue(column, row)
              == if field in records[row] && records[row][field] != Null then Some(records[row][field]) else None
  {
    ColumnRoundTrip(Cells(records, field), row);
  }
}
