/** Column descriptors: their derivation from a struct's fields
    (getStructFieldsAsColumns) and the header pass (readHeader). */
module Columns {
  import opened Types
  import opened Strings
  import opened Records

  const TagHeader := "header"
  const TagFormat := "format"
  /** The default time layout, in Go's reference-date notation. */
  const TimeFormat := "2006-01-02 15:04:05"

  datatype ColumnInfo = ColumnInfo(Header: string, ColumnIndex: nat, FieldIndex: nat, Format: string)

  /** StructTag.Lookup: the tag's value when the key is present. */
  function Lookup(tags: map<string, string>, key: string): Option<string>
  {
    if key in tags then Some(tags[key]) else None
  }

  function TagOr(tags: map<string, string>, key: string, default: string): string
  {
    match Lookup(tags, key)
    case Some(v) => v
    case None => default
  }

  function ColumnFor(field: Field, i: nat): ColumnInfo
  {
    ColumnInfo(TagOr(field.tags, TagHeader, field.name), i, i, TagOr(field.tags, TagFormat, TimeFormat))
  }

  /** The schema of a struct: one entry per field, positional, with the
      header alias defaulting to the field name and the format to TimeFormat. */
  function DerivedSchema(fields: seq<Field>): (columns: seq<ColumnInfo>)
    ensures |columns| == |fields|
    ensures forall i :: 0 <= i < |fields| ==> columns[i].FieldIndex == i && columns[i].ColumnIndex == i
    ensures forall i :: 0 <= i < |fields| ==>
      columns[i].Header == (if TagHeader in fields[i].tags then fields[i].tags[TagHeader] else fields[i].name)
    ensures forall i :: 0 <= i < |fields| ==>
      columns[i].Format == (if TagFormat in fields[i].tags then fields[i].tags[TagFormat] else TimeFormat)
  {
    seq(|fields|, i requires 0 <= i < |fields| => ColumnFor(fields[i], i))
  }

  /** getStructFieldsAsColumns: fills a preallocated slice in a counting loop. */
  method GetStructFieldsAsColumns(fields: seq<Field>) returns (columns: array<ColumnInfo>)
    ensures fresh(columns)
    ensures columns[..] == DerivedSchema(fields)
  {
    columns := new ColumnInfo[|fields|];
    var i := 0;
    while i < |fields|
      invariant 0 <= i <= |fields| && columns.Length == |fields|
      invariant forall j :: 0 <= j < i ==> columns[j] == ColumnFor(fields[j], j)
    {
      var field := fields[i];
      var header := TagOr(field.tags, TagHeader, field.name);
      var format := TagOr(field.tags, TagFormat, TimeFormat);
      columns[i] := ColumnInfo(header, i, i, format);
      i := i + 1;
    }
    assert forall j :: 0 <= j < |fields| ==> DerivedSchema(fields)[j] == ColumnFor(fields[j], j);
  }

  /** The first header cell that EqualFold-matches the alias, if any: the
      index readHeader would store. */
  function FirstMatch(alias: string, headers: seq<string>, from: nat): (r: Option<nat>)
    requires from <= |headers|
    ensures r.Some? ==> from <= r.value < |headers| && EqualFold(alias, headers[r.value])
    ensures r.Some? ==> forall j :: from <= j < r.value ==> !EqualFold(alias, headers[j])
    ensures r.None? ==> forall j :: from <= j < |headers| ==> !EqualFold(alias, headers[j])
    decreases |headers| - from
  {
    if from == |headers| then None
    else if EqualFold(alias, headers[from]) then Some(from)
    else FirstMatch(alias, headers, from + 1)
  }

  /** The descriptor readHeader builds for a column: its ColumnIndex moved to
      the first matching header cell. It is built on a copy and dropped. */
  function Matched(column: ColumnInfo, headers: seq<string>): (r: ColumnInfo)
    ensures r.Header == column.Header && r.FieldIndex == column.FieldIndex && r.Format == column.Format
    ensures r != column ==> r.ColumnIndex < |headers| && EqualFold(column.Header, headers[r.ColumnIndex])
    ensures (forall j :: 0 <= j < |headers| ==> !EqualFold(column.Header, headers[j])) ==> r == column
  {
    match FirstMatch(column.Header, headers, 0)
    case Some(i) => column.(ColumnIndex := i)
    case None => column
  }

  /** readHeader: reads the header record (returning the reader's error if
      there is none) and, for every column, searches the header cells for its
      alias. The match is written to the loop's copy of the descriptor, so
      the descriptors in `columns` keep their positional indexes; the copies,
      each Matched against the header, are returned as `matched` for the
      proof only. */
  method ReadHeader(reader: RecordReader, columns: array<ColumnInfo>)
    returns (err: Option<Error>, ghost matched: seq<ColumnInfo>)
    requires reader.Valid()
    modifies reader
    ensures reader.Valid()
    ensures old(reader.pos) < |reader.source.records| ==> err == None && reader.pos == old(reader.pos) + 1
    ensures old(reader.pos) == |reader.source.records| ==>
      err == Some(reader.source.ending) && reader.pos == old(reader.pos)
    ensures err == None ==> |matched| == columns.Length
    ensures err == None ==> forall k :: 0 <= k < columns.Length ==>
      matched[k] == Matched(columns[k], reader.source.records[old(reader.pos)])
    ensures columns[..] == old(columns[..])
  {
    var headers;
    headers, err := reader.Read();
    matched := [];
    if err.Some? {
      return;
    }
    for k := 0 to columns.Length
      invariant |matched| == k
      invariant forall j :: 0 <= j < k ==> matched[j] == Matched(columns[j], headers)
    {
      var column := columns[k];
      var i := 0;
      while i < |headers|
        invariant 0 <= i <= |headers|
        invariant column == columns[k]
        invariant FirstMatch(column.Header, headers, 0) == FirstMatch(column.Header, headers, i)
      {
        if EqualFold(column.Header, headers[i]) {
          column := column.(ColumnIndex := i);
          break;
        }
        i := i + 1;
      }
      matched := matched + [column];
    }
  }

  /** The header pass leaves the descriptors positional even when the header
      names the columns in another order: aliases "b", "a" against the header
      "a", "b" would match columns 1 and 0, yet keep 0 and 1. */
  lemma HeaderMatchIsDropped()
    ensures var fields := [Field("B", map[TagHeader := "b"], Int), Field("A", map[TagHeader := "a"], Int)];
      var schema := DerivedSchema(fields);
      && Matched(schema[0], ["a", "b"]).ColumnIndex == 1
      && Matched(schema[1], ["a", "b"]).ColumnIndex == 0
      && schema[0].ColumnIndex == 0 && schema[1].ColumnIndex == 1
  {
    var fields := [Field("B", map[TagHeader := "b"], Int), Field("A", map[TagHeader := "a"], Int)];
    var schema := DerivedSchema(fields);
    assert schema[0].Header == "b" && schema[1].Header == "a";
    assert !EqualFold("b", "a") && EqualFold("b", "b");
    assert EqualFold("a", "a");
  }
}
