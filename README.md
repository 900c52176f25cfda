# csv2 row decoder — a Dafny model

csv2 reads CSV records into a Go slice of structs. The model covers its one
source file, `csv2.go`:

- **Schema derivation.** `getStructFieldsAsColumns` builds one column
  descriptor per struct field. The header alias comes from the `header` tag,
  or is the field name. The time layout comes from the `format` tag, or is
  `2006-01-02 15:04:05`. Column and field index are both the field's position.
- **The header pass.** `readHeader` consumes the first record. For every
  descriptor it looks for the first header cell equal to the alias under
  `strings.EqualFold`.
- **Value coercion.** `setFieldValue` and its `set*FieldValue` helpers turn one
  cell into the value of a field of a given kind.
- **Row decoding.** `ReadRowsFromReader` works in this order:
  - checks the shape of the `rows` argument;
  - derives the schema;
  - optionally consumes the header;
  - decodes each record into a fresh row, stopping at the first error;
  - stores the rows through the pointer, only when everything succeeded.

Go reflection is replaced by explicit descriptions:

- a struct type is a list of `Field(name, tags, kind)`;
- the `rows` argument is a `RowsArg` object with a dynamic type and a mutable slice;
- a decoded field is a `Value`.

The CSV tokenizer is replaced by a `RecordReader` over a given list of records.
After the last record it reports an ending: `EOF`, or the framing error it met.
The library parsers `strconv.ParseFloat` and `time.Parse` are fields of an
`Env` parameter. So is `bits.UintSize`, which may be 32 or 64.
`strconv.ParseBool`, `strconv.ParseUint` and `strconv.ParseInt` in base 10
are modelled exactly, digit loop included, because they decide which cells a
field accepts.

Modules, in dependency order:

- `Types`: kinds, fields, values, errors, bit widths.
- `Strconv`: boolean and integer parsing.
- `Strings`: `EqualFold`.
- `Coerce`: `setFieldValue`.
- `Records`: the record reader.
- `Columns`: `getStructFieldsAsColumns` and `readHeader`.
- `Rows`: `ReadRowsFromReader`.

The imperative parts are methods proved against specification functions:

- `GetStructFieldsAsColumns` fills a fresh array in a counting loop. It is
  proved equal to `DerivedSchema`.
- `ReadHeader` runs the nested loops with `break`.
- `BuildRow` runs the column loop of one record. It is proved equal to `DecodeRecord`.
- `ReadRowsFromReader` runs the read loop over an accumulator. It is proved
  equal to `ReadRows`.

The properties of the source are then lemmas about those functions.

Two behaviours of the code shape the model:

- **The header pass changes nothing.** `readHeader` writes the matched index
  into the `range` copy of each descriptor (csv2.go:175-178). So `columns` is
  never changed, and decoding stays positional whatever the header says.
  - `ReadHeader` returns the would-be descriptors as a ghost output and
    ensures the array itself is unchanged.
  - `HeaderMatchIsDropped` and `HeaderScenario` show that a header in another
    order has no effect.
  - `HeaderIgnored` proves that a header record is simply skipped.
- **Rows are appended after the caller's existing ones.** The accumulator
  starts from the caller's slice (csv2.go:205). So on success the slice holds
  the previous rows followed by the new ones.

With a header asked for, an empty source returns the header read's EOF as an
error.

## Model

| member | source | states |
|---|---|---|
| Columns.DerivedSchema | csv2.go:143-166 | one descriptor per field; entry i has FieldIndex == ColumnIndex == i, Header = the `header` tag or else the field name, Format = the `format` tag or else the default layout |
| Columns.GetStructFieldsAsColumns | csv2.go:143-166 | the counting loop returns a fresh array whose contents are exactly the derived schema |
| Columns.Matched | csv2.go:175-181 | the descriptor the inner loop builds keeps its alias, field index and format; a changed column index names a header cell that EqualFold-matches the alias, and with no matching cell the descriptor is unchanged |
| Columns.FirstMatch | csv2.go:176-181 | the index the inner loop stops at: the first header cell EqualFold-equal to the alias, with no earlier match; None exactly when no cell matches |
| Columns.ReadHeader | csv2.go:169-185 | with no header record left, returns the reader's ending without consuming; otherwise consumes one record, returns nil and yields (as a ghost output) every descriptor Matched against that record, which the nested loops compute and drop; in both cases every stored descriptor is unchanged |
| Columns.HeaderMatchIsDropped | csv2.go:175-182 | aliases "b","a" against the header "a","b" would match cells 1 and 0, yet the schema keeps indexes 0 and 1 |
| Strings.EqualFold | csv2.go:177 | fold-equal strings have the same length, and every string is fold-equal to itself |
| Strings.Lower | csv2.go:177 | the reference for case folding: each character lower-cased, length kept |
| Strings.FoldEqIsLowerEq | csv2.go:177 | two characters fold-match exactly when their lower-case forms are equal |
| Strings.EqualFoldFromSpec | csv2.go:177 | the scan from position i succeeds exactly when every later pair of characters agrees after lower-casing |
| Strings.EqualFoldSymmetric | csv2.go:177 | the order of the two strings does not matter |
| Strings.EqualFoldSpec | csv2.go:177 | EqualFold holds exactly when both strings agree once lower-cased |
| Strings.EqualFoldExample | csv2.go:177 | "Date" matches "date" and "DATE" but not "Data" |
| Records.RecordReader.constructor | csv2.go:209 | a new reader is positioned before the first record |
| Records.RecordReader.Read | csv2.go:218-225 | returns the next record and advances by one, or the ending (EOF or framing error) once none is left, without advancing |
| Strconv.ParseBool | csv2.go:36 | succeeds exactly on the true and false literal sets, yields true exactly on a true literal, and otherwise gives a ParseBool syntax error |
| Strconv.ParseBoolSpec | csv2.go:36 | true exactly on `1 t T TRUE true True`, false exactly on `0 f F FALSE false False`, a ParseBool syntax error on anything else |
| Strconv.ScanDigits | csv2.go:54 | the digit loop never yields a value above its maximum |
| Strconv.ScanDigitsSpec | csv2.go:54 | from a valid prefix, the loop succeeds exactly on an all-digit string within the maximum, yields its decimal value, and a well-formed numeral above the maximum gives a range error |
| Strconv.ScanUint | csv2.go:54 | an empty text is a syntax error, and a scanned value is at most 2^w-1 |
| Strconv.ScanDigitsSyntax | csv2.go:54 | from a valid prefix, the digit loop gives a syntax error exactly when a non-digit comes while the digits before it are still within the maximum |
| Strconv.ScanUintSyntax | csv2.go:54 | the unsigned scan gives a syntax error exactly on an empty text or a non-digit met before the value exceeds 2^w-1 |
| Strconv.ErrorKinds | csv2.go:45 | ParseUint, and ParseInt after its sign, give a syntax error exactly on an empty text or a non-digit met before overflow; every other failure is a range error, so "999x" into 8 bits is a range error |
| Strconv.ScanUintSpec | csv2.go:54 | the unsigned scan succeeds exactly on a non-empty digit string of value at most 2^w-1, with that value |
| Strconv.ParseUint | csv2.go:54 | a parsed value is at most 2^w-1 |
| Strconv.ParseUintSpec | csv2.go:53-60 | ParseUint succeeds exactly on one or more digits, no sign, of value at most 2^w-1, with that value; a too-large numeral is a range error; every error names ParseUint and the text |
| Strconv.SignedCheck | csv2.go:45 | the signed range check accepts exactly a magnitude of at most 2^(w-1) when negative and at most 2^(w-1)-1 otherwise, returns the signed value, and otherwise gives a ParseInt range error |
| Strconv.ParseInt | csv2.go:45 | a parsed value lies in [-2^(w-1), 2^(w-1)-1] |
| Strconv.ParseIntSpec | csv2.go:44-51 | ParseInt succeeds exactly on an optional sign and one or more digits whose value lies in [-2^(w-1), 2^(w-1)-1], with that value; an out-of-range numeral is a range error; every error names ParseInt and the text |
| Strconv.ParseIntSyntax | csv2.go:45 | when the digit scan finds a non-digit or nothing, the text is no numeral and ParseInt gives a syntax error |
| Strconv.ParseIntRange | csv2.go:45 | when the digit scan overflows, ParseInt gives a range error and a numeral text is out of the signed range |
| Strconv.ParseIntScanned | csv2.go:45 | when the digit scan succeeds, the text is a numeral and ParseInt is the signed range check on its magnitude |
| Coerce.SetBoolFieldValue | csv2.go:35-42 | stores a value exactly on a boolean literal, the value being true exactly on a true literal |
| Coerce.SetIntFieldValue | csv2.go:44-51 | a stored value is a signed integer within the width's range |
| Coerce.SetFloatFieldValue | csv2.go:62-69 | stores the float parser's value when it succeeds and returns its error unchanged when it fails |
| Coerce.SetTimeFieldValue | csv2.go:71-78 | stores the time parser's value (layout, then cell) when it succeeds and returns its error unchanged when it fails |
| Coerce.SetUintFieldValue | csv2.go:53-60 | a stored value is an unsigned integer of at most 2^w-1 |
| Coerce.SetFieldValue | csv2.go:80-141 | a stored value always fits the field's kind and width; another kind, or a struct type other than time.Time, is always an error |
| Coerce.StringCoercion | csv2.go:84-86 | a string field always succeeds and holds the cell verbatim |
| Coerce.BoolCoercion | csv2.go:35-42 | a bool field holds true exactly on the true literals, false exactly on the false literals, and errors on anything else |
| Coerce.SignedCoercion | csv2.go:91-104 | a signed field of width w (the word size for int) succeeds exactly on an optional sign and one or more digits within [-2^(w-1), 2^(w-1)-1], holds that value, and otherwise returns a ParseInt error |
| Coerce.UnsignedCoercion | csv2.go:106-119 | an unsigned field of width w succeeds exactly on one or more digits without a sign of value at most 2^w-1, holds that value, and otherwise returns a ParseUint error |
| Coerce.OtherCoercions | csv2.go:121-139 | float fields defer to the float parser at 32 or 64 bits and time.Time fields to the time parser with the column's layout, passing errors through; other struct types and other kinds give the "unsupported struct type" and "unsupported field kind" errors |
| Coerce.CoercionExamples | csv2.go:91-119 | "300" into int8 is a range error, "-128" fits int8, "+1" into uint8 is a syntax error, "255" fits uint8 |
| Rows.RowsArg.constructor | csv2.go:188 | the argument holds the given dynamic type and slice |
| Rows.ShapeError | csv2.go:189-202 | no shape error exactly when the type is a pointer to a slice of struct |
| Rows.ZeroRow | csv2.go:227 | the fresh row has one value per field |
| Rows.FillRow | csv2.go:229-233 | a completed column loop keeps the row's length, and every column's cell coerced into its field's kind |
| Rows.DecodeRecord | csv2.go:227-233 | a decoded row has one value per field, and every cell i coerced into field i's kind |
| Rows.DecodeRecords | csv2.go:217-236 | a completed record loop ended on EOF and holds the accumulator followed by one row per record |
| Rows.ReadRows | csv2.go:188-241 | a shape error is returned as it is; a success means EOF and, if asked for, a header record, and holds the caller's previous rows followed by one row per data record |
| Rows.BuildRow | csv2.go:227-233 | the column loop over one record yields exactly the decoded record: the row, or the first coercion error |
| Rows.ReadRowsFromReader | csv2.go:188-241 | returns the specified result; on success the caller's slice becomes the decoded rows, and on any error it is left as it was |
| Rows.FillRowFrom | csv2.go:229-233 | from column c on, the column loop succeeds exactly when every remaining cell coerces, keeps the earlier fields, and stores cell i's coercion in field i |
| Rows.FillRowFirstError | csv2.go:229-233 | a failing column loop returns the error of its first failing cell, all earlier cells having coerced |
| Rows.DecodeRecordSpec | csv2.go:227-233 | a record decodes exactly when every cell coerces; the row then holds cell i's coercion in field i and no zero value is left; otherwise the error is the first failing cell's |
| Rows.DecodeRecordOk | csv2.go:227-233 | a record decodes exactly when every one of its cells coerces |
| Rows.FirstFailingCell | csv2.go:229-233 | names the cell whose error a failed record reports, every earlier cell having coerced |
| Rows.DecodeRecordsSpec | csv2.go:217-236 | the record loop succeeds exactly when every record decodes and the reader ends with EOF; the result is the accumulator followed by one row per record in order; otherwise the error is the first failing record's, or the reader's ending |
| Rows.DecodeRecordsOk | csv2.go:217-236 | the success half of the record loop: the iff, the kept prefix and the rows in record order |
| Rows.DecodeRecordsOkIff | csv2.go:217-236 | the record loop succeeds exactly when the reader ends with EOF and every record decodes |
| Rows.DecodeRecordsRows | csv2.go:217-236 | a successful record loop puts record k's decoded row right after the accumulator, at position k |
| Rows.DecodeRecordsStep | csv2.go:217-233 | one loop iteration: the record at the reader's position fits the fields, and the loop from there is that record's error or the loop from the next record with its row appended |
| Rows.DecodeRecordsErr | csv2.go:217-236 | the failure half of the record loop: the first failing record's error, or a non-EOF ending after all records decoded |
| Rows.DecodeRecordsFailure | csv2.go:218-233 | a failed record loop reports the first failing cell of the first failing record, or the non-EOF ending |
| Rows.FirstFailureAt | csv2.go:229-233 | a record that fails after every earlier one decoded gives the first failure |
| Rows.ShapeChecks | csv2.go:189-202 | not a pointer, then not a pointer to a slice, then not a pointer to a slice of struct, each with its own message, whatever the records |
| Rows.ReadRowsSuccess | csv2.go:205-238 | success happens exactly when the header (if asked for) is there, every cell of every data record coerces and the reader ends with EOF; the slice then holds the previous rows followed by one row per data record, field i of row k being cell i of record k coerced |
| Rows.ReadRowsFailure | csv2.go:211-233 | a failure returns the header read's error, else the first failing cell of the first failing record, else the non-EOF ending |
| Rows.EmptySource | csv2.go:211-221 | with the header asked for, an empty source gives EOF as an error; without it, an empty source succeeds and adds no rows |
| Rows.HeaderIgnored | csv2.go:211-215 | decoding with a header equals decoding the remaining records without one, whatever the header cells say |
| Rows.HeaderScenario | csv2.go:169-238 | aliases "b","a", header "a,b", records "1,2" and "3,4" into two int8 fields give rows (1,2) and (3,4): positional decoding |

## Left out

- `ReadRowsFromFile` (csv2.go:244-253): it only opens and closes a file before
  calling `ReadRowsFromReader`.
- The `encoding/csv` tokenizer (quoting, delimiters, line counting) is not part
  of this model. Records arrive already split, with an ending error.
- The header is read through a copy of the `csv.Reader` (csv2.go:212), so the
  original reader does not learn the header's field count. With the default
  `FieldsPerRecord` it would take its count from the first data record
  instead. Field-count checks belong to the tokenizer and are not modelled.
- `strconv.ParseFloat` and `time.Parse` are not modelled. They are the
  `parseFloat` and `parseTime` parameters of `Env`, and a float is a `real`.
- `strings.EqualFold` is modelled for ASCII letters only. Unicode simple case
  folding is not modelled.
- Reflection panics are not modelled: an unexported field whose value cannot
  be set, and a nil `rows` argument.
- Rows.ReadRowsFromReader: requires every data record to have a cell for
  every field (`RecordsFit`). A record shorter than the struct makes
  csv2.go:230 panic, and that panic is not modelled as an outcome. The
  requirement also excludes short records that Go never indexes past their
  end: a record whose earlier cell fails to coerce, and any record after a
  failing one. For those inputs Go returns the coercion error; the model
  promises nothing.
- Rows.ReadRows: the same `RecordsFit` requirement as `ReadRowsFromReader`,
  for the same reason.
- Aliasing through `reflect.Append` is not modelled. The caller's slice is a
  value stored in the `RowsArg` object, and the decoded rows are values.
- `ParseInt` and `ParseUint` skip Go's underscore handling. It applies only
  to base 0, and the source always passes base 10.
- `csv2_test.go` reads an external file. Its one check, a row count, is not
  modelled.
