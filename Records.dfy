/** The boundary to the CSV tokenizer (encoding/csv). The byte stream is
    given already split into records; after the last record the reader
    reports `ending`: EOF for a clean end, or the framing error it met. */
module Records {
  import opened Types

  datatype Source = Source(records: seq<seq<string>>, ending: Error)

  /** A csv.Reader over a source: each Read consumes one record. */
  class RecordReader {
    const source: Source
    var pos: nat

    ghost predicate Valid()
      reads this
    {
      pos <= |source.records|
    }

    constructor (source: Source)
      ensures Valid() && this.source == source && pos == 0
    {
      this.source := source;
      pos := 0;
    }

    /** csv.Reader.Read: the next record, or the ending once none is left. */
    method Read() returns (record: seq<string>, err: Option<Error>)
      requires Valid()
      modifies this
      ensures Valid()
      ensures old(pos) < |source.records| ==>
        err == None && record == source.records[old(pos)] && pos == old(pos) + 1
      ensures old(pos) == |source.records| ==>
        err == Some(source.ending) && record == [] && pos == old(pos)
    {
      if pos < |source.records| {
        record, err := source.records[pos], None;
        pos := pos + 1;
      } else {
        record, err := [], Some(source.ending);
      }
    }
  }
}
