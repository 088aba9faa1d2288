/** Records as `csv.DictReader` hands them out: each non-blank record of the
    file becomes a dictionary from header name to cell. */
module CsvRows {
  import opened Outcomes

  /** A cell: `None` when the record was shorter than the header (the
      reader's `restval`), otherwise the text of the field. */
  type Cell = Option<string>

  type Row = map<string, Cell>

  /** The cell at position `i` of a record, `None` past its end. */
  function CellAt(rec: seq<string>, i: nat): Cell {
    if i < |rec| then Some(rec[i]) else None
  }

  /** The header names as a set. */
  function Names(header: seq<string>): set<string> {
    set i | 0 <= i < |header| :: header[i]
  }

  /** One record as a dictionary: `dict(zip(header, rec))`, then `restval`
      for every header name past the end of the record.  When a name occurs
      twice in the header, its last column wins (see `DictRowCell`). */
  function DictRow(header: seq<string>, rec: seq<string>): (row: Row)
    ensures row.Keys == Names(header)
    decreases |header|
  {
    if |header| == 0 then map[]
    else
      var last := |header| - 1;
      assert Names(header) == Names(header[..last]) + {header[last]} by {
        assert forall i :: 0 <= i < last ==> header[..last][i] == header[i];
      }
      DictRow(header[..last], rec)[header[last] := CellAt(rec, last)]
  }

  /** Each header name maps to the cell below its last occurrence. */
  lemma {:induction false} DictRowCell(header: seq<string>, rec: seq<string>, i: nat)
    requires i < |header| && header[i] !in header[i + 1..]
    ensures DictRow(header, rec)[header[i]] == CellAt(rec, i)
    decreases |header|
  {
    var last := |header| - 1;
    if i < last {
      assert header[last] == header[i + 1..][last - i - 1];
      assert header[..last][i + 1..] == header[i + 1..last];
      assert header[..last][i] == header[i];
      DictRowCell(header[..last], rec, i);
    }
  }

  /** `list(csv.DictReader(...))` over the parsed records: blank lines (empty
      records) are skipped, every other record becomes one row. */
  function ReadDicts(header: seq<string>, records: seq<seq<string>>): (rows: seq<Row>)
    ensures |rows| <= |records|
    ensures forall k :: 0 <= k < |rows| ==> rows[k].Keys == Names(header)
    decreases |records|
  {
    if |records| == 0 then []
    else if |records[0]| == 0 then ReadDicts(header, records[1..])
    else [DictRow(header, records[0])] + ReadDicts(header, records[1..])
  }

  /** The number of non-blank records. */
  function NonBlank(records: seq<seq<string>>): nat
    decreases |records|
  {
    if |records| == 0 then 0
    else NonBlank(records[1..]) + (if |records[0]| == 0 then 0 else 1)
  }

  /** The reader yields one row per non-blank record and no other. */
  lemma {:induction false} ReadDictsCount(header: seq<string>, records: seq<seq<string>>)
    ensures |ReadDicts(header, records)| == NonBlank(records)
    decreases |records|
  {
    if |records| > 0 {
      ReadDictsCount(header, records[1..]);
    }
  }

  /** `row.get(key, "")`: the cell, or the empty text when the header has no
      such column. */
  function Get(row: Row, key: string): (c: Cell)
    ensures key !in row ==> c == Some("")
    ensures key in row ==> c == row[key]
  {
    if key in row then row[key] else Some("")
  }
}
