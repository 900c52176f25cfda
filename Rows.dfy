/** ReadRowsFromReader: checks the shape of the output argument, derives the
    schema, optionally consumes the header, decodes every record into a new
    row and, only when all of that succeeded, stores the caller's previous
    rows followed by the new ones. */
module Rows {
  import opened Types
  import opened Coerce
  import opened Records
  import opened Columns
  import opened Strconv

  const ErrNotPointer := Message("rows not a pointer")
  const ErrNotSlice := Message("rows not a pointer to slice")
  const ErrNotStruct := Message("rows not a pointer to slice of struct")

  /** The `rows interface{}` argument: its dynamic type, and the slice the
      pointer designates (meaningful when the type is a pointer to a slice). */
  class RowsArg {
    const typ: GoType
    var slice: seq<Row>

    constructor (typ: GoType, slice: seq<Row>)
      ensures this.typ == typ && this.slice == slice
    {
      this.typ := typ;
      this.slice := slice;
    }
  }

  /** The first shape check the type fails, in the order the source makes them. */
  function ShapeError(t: GoType): (r: Option<Error>)
    ensures r == None <==> t.PointerTo? && t.elem.SliceOf? && t.elem.elem.StructType?
  {
    if !t.PointerTo? then Some(ErrNotPointer)
    else if !t.elem.SliceOf? then Some(ErrNotSlice)
    else if !t.elem.elem.StructType? then Some(ErrNotStruct)
    else None
  }

  function RowFields(t: GoType): seq<Field>
    requires ShapeError(t) == None
  {
    t.elem.elem.fields
  }

  /** The records that are decoded as rows. */
  function DataRecords(source: Source, hasHeader: bool): seq<seq<string>>
  {
    if hasHeader && |source.records| > 0 then source.records[1..] else source.records
  }

  /** Every data record has a cell for every field (csv2.go:230 panics otherwise). */
  predicate RecordsFit(records: seq<seq<string>>, n: nat)
  {
    forall k :: 0 <= k < |records| ==> |records[k]| >= n
  }

  predicate ColumnsFit(columns: seq<ColumnInfo>, nFields: nat, nCells: nat)
  {
    forall c :: 0 <= c < |columns| ==> columns[c].FieldIndex < nFields && columns[c].ColumnIndex < nCells
  }

  function ZeroRow(fields: seq<Field>): (row: Row)
    ensures |row| == |fields|
  {
    seq(|fields|, i requires 0 <= i < |fields| => ZeroValue(fields[i].kind))
  }

  /** The column loop: coerce record[ColumnIndex] into field FieldIndex, in
      column order, stopping at the first error. */
  function FillRow(fields: seq<Field>, columns: seq<ColumnInfo>, record: seq<string>, env: Env, row: Row): (r: Result<Row>)
    requires |row| == |fields| && ColumnsFit(columns, |fields|, |record|)
    ensures r.Ok? ==> |r.value| == |row|
    ensures r.Ok? ==> forall c :: 0 <= c < |columns| ==>
      SetFieldValue(fields[columns[c].FieldIndex].kind, record[columns[c].ColumnIndex], columns[c].Format, env).Ok?
    decreases |columns|
  {
    if columns == [] then Ok(row)
    else
      var c := columns[0];
      match SetFieldValue(fields[c.FieldIndex].kind, record[c.ColumnIndex], c.Format, env)
      case Err(e) => Err(e)
      case Ok(v) => FillRow(fields, columns[1..], record, env, row[c.FieldIndex := v])
  }

  /** One record decoded into a fresh row. */
  function DecodeRecord(fields: seq<Field>, record: seq<string>, env: Env): (r: Result<Row>)
    requires |record| >= |fields|
    ensures r.Ok? ==> |r.value| == |fields|
    ensures r.Ok? ==> forall i :: 0 <= i < |fields| ==>
      SetFieldValue(fields[i].kind, record[i], DerivedSchema(fields)[i].Format, env).Ok?
  {
    FillRow(fields, DerivedSchema(fields), record, env, ZeroRow(fields))
  }

  /** The record loop: rows are appended to acc; the first failing record
      ends it with that record's error; after the last record the reader's
      ending is an error unless it is EOF. */
  function DecodeRecords(fields: seq<Field>, records: seq<seq<string>>, ending: Error, env: Env, acc: seq<Row>)
    : (r: Result<seq<Row>>)
    requires RecordsFit(records, |fields|)
    ensures r.Ok? ==> ending == EOF && |r.value| == |acc| + |records| && r.value[..|acc|] == acc
    decreases |records|
  {
    if records == [] then (if ending == EOF then Ok(acc) else Err(ending))
    else
      match DecodeRecord(fields, records[0], env)
      case Err(e) => Err(e)
      case Ok(row) => DecodeRecords(fields, records[1..], ending, env, acc + [row])
  }

  /** What ReadRowsFromReader returns and, on success, stores through the
      pointer. The header pass changes no descriptor, so decoding uses the
      derived schema as it is. */
  function ReadRows(t: GoType, source: Source, hasHeader: bool, env: Env, existing: seq<Row>): (r: Result<seq<Row>>)
    requires ShapeError(t) == None ==> RecordsFit(DataRecords(source, hasHeader), |RowFields(t)|)
    ensures ShapeError(t).Some? ==> r == Err(ShapeError(t).value)
    ensures r.Ok? ==> source.ending == EOF && (hasHeader ==> source.records != [])
    ensures r.Ok? ==> |r.value| == |existing| + |DataRecords(source, hasHeader)| && r.value[..|existing|] == existing
  {
    match ShapeError(t)
    case Some(e) => Err(e)
    case None =>
      if hasHeader && source.records == [] then Err(source.ending)
      else DecodeRecords(RowFields(t), DataRecords(source, hasHeader), source.ending, env, existing)
  }

  /** One iteration's row: a zero-valued row (reflect.New) into which the
      column loop stores each coerced cell, stopping at the first error. */
  method BuildRow(fields: seq<Field>, columns: array<ColumnInfo>, record: seq<string>, env: Env)
    returns (result: Result<Row>)
    requires columns[..] == DerivedSchema(fields) && |record| >= |fields|
    ensures result == DecodeRecord(fields, record, env)
  {
    var row := ZeroRow(fields);
    var c := 0;
    while c < columns.Length
      invariant 0 <= c <= columns.Length && |row| == |fields|
      invariant DecodeRecord(fields, record, env) == FillRow(fields, columns[c..], record, env, row)
    {
      var column := columns[c];
      var value := SetFieldValue(fields[column.FieldIndex].kind, record[column.ColumnIndex], column.Format, env);
      if value.Err? {
        return Err(value.error);
      }
      row := row[column.FieldIndex := value.value];
      c := c + 1;
      assert columns[c - 1..][1..] == columns[c..];
    }
    return Ok(row);
  }

  /** ReadRowsFromReader. */
  method ReadRowsFromReader(source: Source, hasHeader: bool, rows: RowsArg, env: Env) returns (err: Option<Error>)
    requires ShapeError(rows.typ) == None ==> RecordsFit(DataRecords(source, hasHeader), |RowFields(rows.typ)|)
    modifies rows
    ensures ReadRows(rows.typ, source, hasHeader, env, old(rows.slice)).Ok? ==>
      err == None && rows.slice == ReadRows(rows.typ, source, hasHeader, env, old(rows.slice)).value
    ensures ReadRows(rows.typ, source, hasHeader, env, old(rows.slice)).Err? ==>
      err == Some(ReadRows(rows.typ, source, hasHeader, env, old(rows.slice)).error) && rows.slice == old(rows.slice)
  {
    var rowsPtrType := rows.typ;
    if !rowsPtrType.PointerTo? {
      return Some(ErrNotPointer);
    }
    var rowsSliceType := rowsPtrType.elem;
    if !rowsSliceType.SliceOf? {
      return Some(ErrNotSlice);
    }
    var rowType := rowsSliceType.elem;
    if !rowType.StructType? {
      return Some(ErrNotStruct);
    }
    var fields := rowType.fields;
    var rowsSlice := rows.slice;

    var columns := GetStructFieldsAsColumns(fields);
    var csvReader := new RecordReader(source);
    if hasHeader {
      ghost var matched;
      err, matched := ReadHeader(csvReader, columns);
      if err.Some? {
        return;
      }
    }

    ghost var start := csvReader.pos;
    ghost var spec := DecodeRecords(fields, source.records[start..], source.ending, env, old(rows.slice));
    assert source.records[start..] == DataRecords(source, hasHeader);
    while true
      invariant csvReader.Valid() && csvReader.source == source
      invariant start <= csvReader.pos <= |source.records|
      invariant columns[..] == DerivedSchema(fields)
      invariant RecordsFit(source.records[csvReader.pos..], |fields|)
      invariant rows.slice == old(rows.slice)
      invariant spec == DecodeRecords(fields, source.records[csvReader.pos..], source.ending, env, rowsSlice)
      decreases |source.records| - csvReader.pos
    {
      var record, e := csvReader.Read();
      if e == Some(EOF) {
        break;
      }
      if e.Some? {
        return e;
      }
      DecodeRecordsStep(fields, source.records, csvReader.pos - 1, source.ending, env, rowsSlice);

      var decoded := BuildRow(fields, columns, record, env);
      if decoded.Err? {
        return Some(decoded.error);
      }
      var row := decoded.value;
      rowsSlice := rowsSlice + [row];
    }
    rows.slice := rowsSlice;
    err := None;
  }

  /** One iteration of the record loop, at position pos of the records. */
  lemma DecodeRecordsStep(fields: seq<Field>, records: seq<seq<string>>, pos: nat, ending: Error, env: Env, acc: seq<Row>)
    requires pos < |records| && RecordsFit(records[pos..], |fields|)
    ensures RecordsFit(records[pos + 1..], |fields|) && |records[pos]| >= |fields|
    ensures DecodeRecords(fields, records[pos..], ending, env, acc)
         == match DecodeRecord(fields, records[pos], env)
            case Err(e) => Err(e)
            case Ok(row) => DecodeRecords(fields, records[pos + 1..], ending, env, acc + [row])
  {
    assert records[pos..][0] == records[pos] && records[pos..][1..] == records[pos + 1..];
  }

  /** The value field i of a row gets from a record: record[i] coerced to the
      field's kind with the field's format. */
  function Cell(fields: seq<Field>, record: seq<string>, env: Env, i: nat): Result<Value>
    requires i < |fields| <= |record|
  {
    SetFieldValue(fields[i].kind, record[i], DerivedSchema(fields)[i].Format, env)
  }

  /** One step of the column loop over the derived schema. */
  lemma FillRowStep(fields: seq<Field>, record: seq<string>, env: Env, c: nat, row: Row)
    requires c < |fields| <= |record| && |row| == |fields|
    ensures ColumnsFit(DerivedSchema(fields)[c + 1..], |fields|, |record|)
    ensures FillRow(fields, DerivedSchema(fields)[c..], record, env, row)
         == match Cell(fields, record, env, c)
            case Err(e) => Err(e)
            case Ok(v) => FillRow(fields, DerivedSchema(fields)[c + 1..], record, env, row[c := v])
  {
    var schema := DerivedSchema(fields);
    assert schema[c..][0] == schema[c] && schema[c..][1..] == schema[c + 1..];
  }

  lemma {:induction false} FillRowFrom(fields: seq<Field>, record: seq<string>, env: Env, c: nat, row: Row)
    requires c <= |fields| <= |record| && |row| == |fields|
    ensures var r := FillRow(fields, DerivedSchema(fields)[c..], record, env, row);
      && (r.Ok? <==> forall i :: c <= i < |fields| ==> Cell(fields, record, env, i).Ok?)
      && (r.Ok? ==> |r.value| == |fields|)
      && (r.Ok? ==> forall i :: 0 <= i < c ==> r.value[i] == row[i])
      && (r.Ok? ==> forall i :: c <= i < |fields| ==> r.value[i] == Cell(fields, record, env, i).value)
    decreases |fields| - c
  {
    if c == |fields| {
      assert DerivedSchema(fields)[c..] == [];
    } else {
      FillRowStep(fields, record, env, c, row);
      var v := Cell(fields, record, env, c);
      if v.Ok? {
        var row' := row[c := v.value];
        FillRowFrom(fields, record, env, c + 1, row');
      }
    }
  }

  lemma {:induction false} FillRowFirstError(fields: seq<Field>, record: seq<string>, env: Env, c: nat, row: Row)
    requires c <= |fields| <= |record| && |row| == |fields|
    ensures var r := FillRow(fields, DerivedSchema(fields)[c..], record, env, row);
      r.Err? ==> exists i :: c <= i < |fields| && Cell(fields, record, env, i) == Err(r.error)
                           && forall j :: c <= j < i ==> Cell(fields, record, env, j).Ok?
    decreases |fields| - c
  {
    if c == |fields| {
      assert DerivedSchema(fields)[c..] == [];
    } else {
      FillRowStep(fields, record, env, c, row);
      var v := Cell(fields, record, env, c);
      if v.Ok? {
        FillRowFirstError(fields, record, env, c + 1, row[c := v.value]);
      }
    }
  }

  /** A record decodes exactly when every one of its cells coerces; the row
      then holds, in field i, the coercion of record[i] (no zero value is
      left), and otherwise the error is that of the first failing cell. */
  lemma DecodeRecordSpec(fields: seq<Field>, record: seq<string>, env: Env)
    requires |record| >= |fields|
    ensures var r := DecodeRecord(fields, record, env);
      && (r.Ok? <==> forall i :: 0 <= i < |fields| ==> Cell(fields, record, env, i).Ok?)
      && (r.Ok? ==> |r.value| == |fields| && forall i :: 0 <= i < |fields| ==> r.value[i] == Cell(fields, record, env, i).value)
      && (r.Err? ==> exists i :: 0 <= i < |fields| && Cell(fields, record, env, i) == Err(r.error)
                                && forall j :: 0 <= j < i ==> Cell(fields, record, env, j).Ok?)
  {
    assert DerivedSchema(fields)[0..] == DerivedSchema(fields);
    FillRowFrom(fields, record, env, 0, ZeroRow(fields));
    FillRowFirstError(fields, record, env, 0, ZeroRow(fields));
  }

  /** The record loop succeeds exactly when every record decodes and the
      reader ends with EOF; the result is acc followed by one row per record,
      in order. Otherwise the error is that of the first failing record, or
      the reader's ending when every record decoded. */
  lemma DecodeRecordsSpec(fields: seq<Field>, records: seq<seq<string>>, ending: Error, env: Env, acc: seq<Row>)
    requires RecordsFit(records, |fields|)
    ensures var r := DecodeRecords(fields, records, ending, env, acc);
      && (r.Ok? <==> ending == EOF && forall k :: 0 <= k < |records| ==> DecodeRecord(fields, records[k], env).Ok?)
      && (r.Ok? ==> |r.value| == |acc| + |records| && r.value[..|acc|] == acc)
      && (r.Ok? ==> forall k :: 0 <= k < |records| ==> r.value[|acc| + k] == DecodeRecord(fields, records[k], env).value)
      && (r.Err? ==>
            (exists k :: 0 <= k < |records| && DecodeRecord(fields, records[k], env) == Err(r.error)
                         && forall j :: 0 <= j < k ==> DecodeRecord(fields, records[j], env).Ok?)
            || ((forall k :: 0 <= k < |records| ==> DecodeRecord(fields, records[k], env).Ok?)
                && ending != EOF && r.error == ending))
  {
    DecodeRecordsOk(fields, records, ending, env, acc);
    DecodeRecordsErr(fields, records, ending, env, acc);
  }

  lemma DecodeRecordsOk(fields: seq<Field>, records: seq<seq<string>>, ending: Error, env: Env, acc: seq<Row>)
    requires RecordsFit(records, |fields|)
    ensures var r := DecodeRecords(fields, records, ending, env, acc);
      && (r.Ok? <==> ending == EOF && forall k :: 0 <= k < |records| ==> DecodeRecord(fields, records[k], env).Ok?)
      && (r.Ok? ==> |r.value| == |acc| + |records| && r.value[..|acc|] == acc)
      && (r.Ok? ==> forall k :: 0 <= k < |records| ==> r.value[|acc| + k] == DecodeRecord(fields, records[k], env).value)
  {
    DecodeRecordsOkIff(fields, records, ending, env, acc);
    DecodeRecordsRows(fields, records, ending, env, acc);
  }

  lemma {:induction false} DecodeRecordsOkIff(fields: seq<Field>, records: seq<seq<string>>, ending: Error, env: Env, acc: seq<Row>)
    requires RecordsFit(records, |fields|)
    ensures DecodeRecords(fields, records, ending, env, acc).Ok? <==>
      ending == EOF && forall k :: 0 <= k < |records| ==> DecodeRecord(fields, records[k], env).Ok?
    decreases |records|
  {
    if records != [] {
      var d := DecodeRecord(fields, records[0], env);
      if d.Ok? {
        var rest := records[1..];
        assert RecordsFit(rest, |fields|);
        DecodeRecordsOkIff(fields, rest, ending, env, acc + [d.value]);
        assert forall k :: 1 <= k < |records| ==> records[k] == rest[k - 1];
      }
    }
  }

  lemma {:induction false} DecodeRecordsRows(fields: seq<Field>, records: seq<seq<string>>, ending: Error, env: Env, acc: seq<Row>)
    requires RecordsFit(records, |fields|)
    ensures var r := DecodeRecords(fields, records, ending, env, acc);
      r.Ok? ==> forall k :: 0 <= k < |records| ==>
        DecodeRecord(fields, records[k], env).Ok? && r.value[|acc| + k] == DecodeRecord(fields, records[k], env).value
    decreases |records|
  {
    var r := DecodeRecords(fields, records, ending, env, acc);
    if records != [] && r.Ok? {
      var d := DecodeRecord(fields, records[0], env);
      var rest := records[1..];
      assert RecordsFit(rest, |fields|);
      DecodeRecordsRows(fields, rest, ending, env, acc + [d.value]);
      assert r == DecodeRecords(fields, rest, ending, env, acc + [d.value]);
      assert r.value[..|acc| + 1] == acc + [d.value];
      forall k | 0 <= k < |records|
        ensures DecodeRecord(fields, records[k], env).Ok? && r.value[|acc| + k] == DecodeRecord(fields, records[k], env).value
      {
        if k > 0 {
          assert records[k] == rest[k - 1];
          assert DecodeRecord(fields, rest[k - 1], env).Ok? && r.value[|acc| + 1 + (k - 1)] == DecodeRecord(fields, rest[k - 1], env).value;
        } else {
          assert r.value[|acc|] == r.value[..|acc| + 1][|acc|];
        }
      }
    }
  }

  lemma {:induction false} DecodeRecordsErr(fields: seq<Field>, records: seq<seq<string>>, ending: Error, env: Env, acc: seq<Row>)
    requires RecordsFit(records, |fields|)
    ensures var r := DecodeRecords(fields, records, ending, env, acc);
      r.Err? ==>
        (exists k :: 0 <= k < |records| && DecodeRecord(fields, records[k], env) == Err(r.error)
                     && forall j :: 0 <= j < k ==> DecodeRecord(fields, records[j], env).Ok?)
        || ((forall k :: 0 <= k < |records| ==> DecodeRecord(fields, records[k], env).Ok?)
            && ending != EOF && r.error == ending)
    decreases |records|
  {
    if records != [] {
      var d := DecodeRecord(fields, records[0], env);
      if d.Ok? {
        var rest := records[1..];
        assert RecordsFit(rest, |fields|);
        DecodeRecordsErr(fields, rest, ending, env, acc + [d.value]);
        var r := DecodeRecords(fields, rest, ending, env, acc + [d.value]);
        assert forall k :: 1 <= k < |records| ==> records[k] == rest[k - 1];
        if r.Err? && exists k :: 0 <= k < |rest| && DecodeRecord(fields, rest[k], env) == Err(r.error)
                                 && forall j :: 0 <= j < k ==> DecodeRecord(fields, rest[j], env).Ok? {
          var k :| 0 <= k < |rest| && DecodeRecord(fields, rest[k], env) == Err(r.error)
                   && forall j :: 0 <= j < k ==> DecodeRecord(fields, rest[j], env).Ok?;
          assert records[k + 1] == rest[k];
          assert forall j :: 0 <= j < k + 1 ==> DecodeRecord(fields, records[j], env).Ok?;
        }
      } else {
        assert DecodeRecord(fields, records[0], env) == Err(d.error);
      }
    }
  }

  /** The shape checks come first and in a fixed order, each with its own
      message; none of them depends on the records. */
  lemma ShapeChecks(t: GoType, source: Source, hasHeader: bool, env: Env, existing: seq<Row>)
    requires ShapeError(t) == None ==> RecordsFit(DataRecords(source, hasHeader), |RowFields(t)|)
    ensures !t.PointerTo? ==> ReadRows(t, source, hasHeader, env, existing) == Err(ErrNotPointer)
    ensures t.PointerTo? && !t.elem.SliceOf? ==> ReadRows(t, source, hasHeader, env, existing) == Err(ErrNotSlice)
    ensures t.PointerTo? && t.elem.SliceOf? && !t.elem.elem.StructType? ==>
      ReadRows(t, source, hasHeader, env, existing) == Err(ErrNotStruct)
    ensures ErrNotPointer != ErrNotSlice && ErrNotSlice != ErrNotStruct && ErrNotPointer != ErrNotStruct
  {
  }

  /** On success the caller's slice becomes its previous contents followed by
      one row per data record, in record order, where field i of row k is the
      coercion of cell i of record k; and success happens exactly when the
      header (if asked for) is there, every cell coerces and the reader ends
      with EOF. */
  lemma {:induction false} ReadRowsSuccess(t: GoType, source: Source, hasHeader: bool, env: Env, existing: seq<Row>)
    requires ShapeError(t) == None && RecordsFit(DataRecords(source, hasHeader), |RowFields(t)|)
    ensures var r := ReadRows(t, source, hasHeader, env, existing);
      var fields := RowFields(t);
      var data := DataRecords(source, hasHeader);
      && (r.Ok? <==>
            && (hasHeader ==> source.records != [])
            && source.ending == EOF
            && forall k, i :: 0 <= k < |data| && 0 <= i < |fields| ==> Cell(fields, data[k], env, i).Ok?)
      && (r.Ok? ==> |r.value| == |existing| + |data| && r.value[..|existing|] == existing)
      && (r.Ok? ==> forall k :: 0 <= k < |data| ==> |r.value[|existing|..][k]| == |fields|)
      && (r.Ok? ==> forall k, i :: 0 <= k < |data| && 0 <= i < |fields| ==>
            r.value[|existing|..][k][i] == Cell(fields, data[k], env, i).value)
  {
    var fields := RowFields(t);
    var data := DataRecords(source, hasHeader);
    DecodeRecordsSpec(fields, data, source.ending, env, existing);
    forall k | 0 <= k < |data| {
      DecodeRecordSpec(fields, data[k], env);
    }
    var r := ReadRows(t, source, hasHeader, env, existing);
    if r.Ok? {
      assert r == DecodeRecords(fields, data, source.ending, env, existing);
      forall k | 0 <= k < |data|
        ensures |r.value[|existing|..][k]| == |fields|
        ensures forall i :: 0 <= i < |fields| ==> r.value[|existing|..][k][i] == Cell(fields, data[k], env, i).value
      {
        DecodeRecordSpec(fields, data[k], env);
        assert r.value[|existing|..][k] == r.value[|existing| + k] == DecodeRecord(fields, data[k], env).value;
      }
    }
  }

  /** With the header asked for and no record at all, the header read's
      error (EOF for an empty source) is returned; without the header an
      empty source adds no rows. */
  lemma EmptySource(t: GoType, env: Env, existing: seq<Row>)
    requires ShapeError(t) == None
    ensures ReadRows(t, Source([], EOF), true, env, existing) == Err(EOF)
    ensures ReadRows(t, Source([], EOF), false, env, existing) == Ok(existing)
  {
  }

  /** The header record is consumed and otherwise ignored: decoding with a
      header equals decoding the remaining records positionally, whatever
      the header cells say. */
  lemma HeaderIgnored(t: GoType, header: seq<string>, records: seq<seq<string>>, ending: Error, env: Env, existing: seq<Row>)
    requires ShapeError(t) == None && RecordsFit(records, |RowFields(t)|)
    ensures ReadRows(t, Source([header] + records, ending), true, env, existing)
         == ReadRows(t, Source(records, ending), false, env, existing)
  {
    assert ([header] + records)[1..] == records;
  }

  /** Every cell of the record coerces into its field. */
  predicate RecordDecodes(fields: seq<Field>, record: seq<string>, env: Env)
    requires |record| >= |fields|
  {
    forall i :: 0 <= i < |fields| ==> Cell(fields, record, env, i).Ok?
  }

  /** A failed call returns the first error met: the header read's error,
      else the error of the first failing cell of the first failing record,
      else the reader's ending; no later record is looked at. */
  lemma {:induction false} ReadRowsFailure(t: GoType, source: Source, hasHeader: bool, env: Env, existing: seq<Row>)
    requires ShapeError(t) == None && RecordsFit(DataRecords(source, hasHeader), |RowFields(t)|)
    ensures var r := ReadRows(t, source, hasHeader, env, existing);
      var fields := RowFields(t);
      var data := DataRecords(source, hasHeader);
      r.Err? ==>
        || (hasHeader && source.records == [] && r.error == source.ending)
        || FirstFailure(fields, data, env, r.error)
        || ((forall k :: 0 <= k < |data| ==> RecordDecodes(fields, data[k], env))
              && source.ending != EOF && r.error == source.ending)
  {
    var r := ReadRows(t, source, hasHeader, env, existing);
    if r.Err? && !(hasHeader && source.records == []) {
      DecodeRecordsFailure(RowFields(t), DataRecords(source, hasHeader), source.ending, env, existing);
    }
  }

  /** Cell i of record k fails with e, after every earlier record and every
      earlier cell of record k coerced. */
  ghost predicate FirstFailure(fields: seq<Field>, records: seq<seq<string>>, env: Env, e: Error)
    requires RecordsFit(records, |fields|)
  {
    exists k, i :: 0 <= k < |records| && 0 <= i < |fields|
      && (forall j :: 0 <= j < k ==> RecordDecodes(fields, records[j], env))
      && (forall i' :: 0 <= i' < i ==> Cell(fields, records[k], env, i').Ok?)
      && Cell(fields, records[k], env, i) == Err(e)
  }

  lemma DecodeRecordsFailure(fields: seq<Field>, records: seq<seq<string>>, ending: Error, env: Env, acc: seq<Row>)
    requires RecordsFit(records, |fields|)
    ensures var r := DecodeRecords(fields, records, ending, env, acc);
      r.Err? ==>
        || FirstFailure(fields, records, env, r.error)
        || ((forall k :: 0 <= k < |records| ==> RecordDecodes(fields, records[k], env))
              && ending != EOF && r.error == ending)
  {
    var r := DecodeRecords(fields, records, ending, env, acc);
    if r.Err? {
      DecodeRecordsErr(fields, records, ending, env, acc);
      if exists k :: 0 <= k < |records| && DecodeRecord(fields, records[k], env) == Err(r.error)
                     && forall j :: 0 <= j < k ==> DecodeRecord(fields, records[j], env).Ok? {
        var k :| 0 <= k < |records| && DecodeRecord(fields, records[k], env) == Err(r.error)
                 && forall j :: 0 <= j < k ==> DecodeRecord(fields, records[j], env).Ok?;
        FirstFailureAt(fields, records, env, k);
      } else {
        forall k | 0 <= k < |records|
          ensures RecordDecodes(fields, records[k], env)
        {
          DecodeRecordOk(fields, records[k], env);
        }
      }
    }
  }

  /** A record that fails after every earlier one decoded is the first failure. */
  lemma FirstFailureAt(fields: seq<Field>, records: seq<seq<string>>, env: Env, k: nat)
    requires RecordsFit(records, |fields|) && k < |records|
    requires DecodeRecord(fields, records[k], env).Err?
    requires forall j :: 0 <= j < k ==> DecodeRecord(fields, records[j], env).Ok?
    ensures FirstFailure(fields, records, env, DecodeRecord(fields, records[k], env).error)
  {
    var i := FirstFailingCell(fields, records[k], env);
    forall j | 0 <= j < k
      ensures RecordDecodes(fields, records[j], env)
    {
      DecodeRecordOk(fields, records[j], env);
    }
  }

  lemma DecodeRecordOk(fields: seq<Field>, record: seq<string>, env: Env)
    requires |record| >= |fields|
    ensures DecodeRecord(fields, record, env).Ok? <==> RecordDecodes(fields, record, env)
  {
    DecodeRecordSpec(fields, record, env);
  }

  /** The column whose error a failed record decode reports. */
  lemma FirstFailingCell(fields: seq<Field>, record: seq<string>, env: Env) returns (i: nat)
    requires |record| >= |fields| && DecodeRecord(fields, record, env).Err?
    ensures i < |fields| && Cell(fields, record, env, i) == Err(DecodeRecord(fields, record, env).error)
    ensures forall j :: 0 <= j < i ==> Cell(fields, record, env, j).Ok?
  {
    DecodeRecordSpec(fields, record, env);
    i :| 0 <= i < |fields| && Cell(fields, record, env, i) == Err(DecodeRecord(fields, record, env).error)
         && forall j :: 0 <= j < i ==> Cell(fields, record, env, j).Ok?;
  }

  /** Header names do not steer decoding: with aliases "b" then "a" and the
      header "a,b", field 0 still takes column 0 and field 1 column 1. */
  lemma HeaderScenario(env: Env)
    ensures ReadRows(PointerTo(SliceOf(StructType("row", ScenarioFields()))),
                     Source([["a", "b"], ["1", "2"], ["3", "4"]], EOF), true, env, [])
         == Ok([[IntV(1), IntV(2)], [IntV(3), IntV(4)]])
  {
    var fields := ScenarioFields();
    var source := Source([["a", "b"], ["1", "2"], ["3", "4"]], EOF);
    var data := DataRecords(source, true);
    assert data == [["1", "2"], ["3", "4"]];
    ScenarioCells(env);
    ScenarioRecord(env, "1", "2", 1, 2);
    ScenarioRecord(env, "3", "4", 3, 4);
    TwoRecords(fields, ["1", "2"], ["3", "4"], env);
  }

  /** Two records that decode give their two rows, in order. */
  lemma TwoRecords(fields: seq<Field>, first: seq<string>, second: seq<string>, env: Env)
    requires |first| >= |fields| && |second| >= |fields|
    requires DecodeRecord(fields, first, env).Ok? && DecodeRecord(fields, second, env).Ok?
    ensures DecodeRecords(fields, [first, second], EOF, env, [])
         == Ok([DecodeRecord(fields, first, env).value, DecodeRecord(fields, second, env).value])
  {
    var records := [first, second];
    var row1, row2 := DecodeRecord(fields, first, env).value, DecodeRecord(fields, second, env).value;
    assert records[0] == first && records[1..] == [second] && [second][1..] == [];
    assert [] + [row1] == [row1] && [row1] + [row2] == [row1, row2];
    assert DecodeRecords(fields, [second], EOF, env, [row1]) == DecodeRecords(fields, [], EOF, env, [row1, row2]);
  }

  /** A two-cell record of int8 numerals decodes into their values, in field order. */
  lemma ScenarioRecord(env: Env, a: string, b: string, x: int, y: int)
    requires Cell(ScenarioFields(), [a, b], env, 0) == Ok(IntV(x))
    requires Cell(ScenarioFields(), [a, b], env, 1) == Ok(IntV(y))
    ensures DecodeRecord(ScenarioFields(), [a, b], env) == Ok([IntV(x), IntV(y)])
  {
    DecodeRecordSpec(ScenarioFields(), [a, b], env);
    var r := DecodeRecord(ScenarioFields(), [a, b], env);
    assert r.value == [r.value[0], r.value[1]];
  }

  function ScenarioFields(): seq<Field>
  {
    [Field("B", map[TagHeader := "b"], Int8), Field("A", map[TagHeader := "a"], Int8)]
  }

  lemma ScenarioCells(env: Env)
    ensures Cell(ScenarioFields(), ["1", "2"], env, 0) == Ok(IntV(1))
    ensures Cell(ScenarioFields(), ["1", "2"], env, 1) == Ok(IntV(2))
    ensures Cell(ScenarioFields(), ["3", "4"], env, 0) == Ok(IntV(3))
    ensures Cell(ScenarioFields(), ["3", "4"], env, 1) == Ok(IntV(4))
  {
    assert Pow2(8) == 256 && HalfPow2(8) == 128;
    assert ParseInt("1", 8) == Ok(1) && ParseInt("2", 8) == Ok(2);
    assert ParseInt("3", 8) == Ok(3) && ParseInt("4", 8) == Ok(4);
  }
}
