/** The upload page's CSV rules: the seven required columns, the per-row
    validator, the guards in front of an import, the bookkeeping of the
    import loop, and the five-row preview. */
module Upload {
  import opened Outcomes
  import opened Text
  import opened Numbers
  import opened Dates
  import opened CsvRows
  import opened Seqs
  import Farms

  /** The columns every uploaded CSV must carry, in template order. */
  const CsvFields: seq<string> :=
    ["date", "temp_max", "temp_min", "rainfall", "daily_gdd", "eff_rain", "cum_gdd"]

  /** `validate_csv_header`: every required column is present. */
  predicate ValidateCsvHeader(header: set<string>) {
    forall i :: 0 <= i < |CsvFields| ==> CsvFields[i] in header
  }

  /** The header check is exactly "the required columns are a subset", so
      extra columns never matter. */
  lemma HeaderIsSubset(header: set<string>, extra: set<string>)
    ensures ValidateCsvHeader(header) <==> (set i | 0 <= i < |CsvFields| :: CsvFields[i]) <= header
    ensures ValidateCsvHeader(header) ==> ValidateCsvHeader(header + extra)
  {
  }

  // ---------------------------------------------------------------------
  // validate_row

  /** The date cell parses with `strptime(..., "%Y-%m-%d")`; a missing cell
      (`None`) makes `strptime` raise. */
  predicate DateOk(c: Cell) {
    c.Some? && IsIsoDate(c.value)
  }

  /** The cell parses with `float()`; `float(None)` raises. */
  predicate NumberOk(c: Cell) {
    c.Some? && IsNumber(c.value)
  }

  /** The message naming a column that failed to parse. */
  function Invalid(f: string): string {
    "Invalid " + f
  }

  /** Different columns get different messages. */
  lemma InvalidDistinct(a: string, b: string)
    requires a != b
    ensures Invalid(a) != Invalid(b)
  {
    assert Invalid(a)[8..] == a;
    assert Invalid(b)[8..] == b;
  }

  /** The message of every column of `fields`, in order. */
  function Messages(fields: seq<string>): (r: seq<string>)
    ensures |r| == |fields|
    ensures forall k :: 0 <= k < |fields| ==> r[k] == Invalid(fields[k])
  {
    seq(|fields|, k requires 0 <= k < |fields| => Invalid(fields[k]))
  }

  /** Every message `validate_row` can produce, in the order it produces them. */
  function AllErrors(): seq<string> {
    ["Invalid date"] + Messages(CsvFields[1..])
  }

  /** The loop over the numeric columns, with the cell check as a
      parameter: one message per column that `ok` rejects, in column
      order. */
  function ErrorsOf(ok: string -> bool, fields: seq<string>): (r: seq<string>)
    ensures |r| <= |fields|
    decreases |fields|
  {
    if |fields| == 0 then []
    else (if ok(fields[0]) then [] else [Invalid(fields[0])]) + ErrorsOf(ok, fields[1..])
  }

  /** The check `validate_row` applies to a numeric column of `row`. */
  function NumberCheck(row: Row): string -> bool {
    f => NumberOk(Get(row, f))
  }

  /** The messages come in column order: a subsequence of all messages. */
  lemma {:induction false} ErrorsOrdered(ok: string -> bool, fields: seq<string>)
    ensures IsSubseq(ErrorsOf(ok, fields), Messages(fields))
    decreases |fields|
  {
    if |fields| > 0 {
      ErrorsOrdered(ok, fields[1..]);
      var rest := ErrorsOf(ok, fields[1..]);
      var all := Messages(fields);
      assert all[1..] == Messages(fields[1..]);
      if ok(fields[0]) {
        assert ErrorsOf(ok, fields) == rest;
        SubseqDropHead(rest, all);
      } else {
        var r := [Invalid(fields[0])] + rest;
        assert ErrorsOf(ok, fields) == r;
        assert r[0] == all[0] && r[1..] == rest;
      }
    }
  }

  /** A column outside the list is never named. */
  lemma {:induction false} ErrorsOmit(ok: string -> bool, fields: seq<string>, g: string)
    requires g !in fields
    ensures Invalid(g) !in ErrorsOf(ok, fields)
    decreases |fields|
  {
    if |fields| > 0 {
      InvalidDistinct(fields[0], g);
      ErrorsOmit(ok, fields[1..], g);
    }
  }

  /** With distinct columns, a column is named exactly when its check
      fails. */
  lemma {:induction false} ErrorsNames(ok: string -> bool, fields: seq<string>, k: nat)
    requires NoDup(fields) && k < |fields|
    ensures Invalid(fields[k]) in ErrorsOf(ok, fields) <==> !ok(fields[k])
    decreases |fields|
  {
    if k == 0 {
      assert fields[0] !in fields[1..];
      ErrorsOmit(ok, fields[1..], fields[0]);
    } else {
      assert fields[k] != fields[0];
      InvalidDistinct(fields[k], fields[0]);
      assert NoDup(fields[1..]);
      assert fields[1..][k - 1] == fields[k];
      ErrorsNames(ok, fields[1..], k - 1);
    }
  }

  /** No message exactly when every check passes. */
  lemma {:induction false} ErrorsEmpty(ok: string -> bool, fields: seq<string>)
    ensures ErrorsOf(ok, fields) == [] <==> forall k :: 0 <= k < |fields| ==> ok(fields[k])
    decreases |fields|
  {
    if |fields| > 0 {
      ErrorsEmpty(ok, fields[1..]);
      assert forall k :: 1 <= k < |fields| ==> fields[1..][k - 1] == fields[k];
    }
  }

  /** `validate_row`: the date check, then the numeric columns in order. */
  function ValidateRow(row: Row): (r: seq<string>)
    ensures |r| <= |CsvFields|
  {
    (if DateOk(Get(row, "date")) then [] else ["Invalid date"])
    + ErrorsOf(NumberCheck(row), CsvFields[1..])
  }

  /** What `validate_row` reports: "Invalid date" first when the date does
      not parse, then "Invalid <column>" for each numeric column that does
      not parse, in column order; nothing exactly for a valid row. */
  lemma ValidateRowSpec(row: Row)
    ensures IsSubseq(ValidateRow(row), AllErrors())
    ensures "Invalid date" in ValidateRow(row) <==> !DateOk(Get(row, "date"))
    ensures forall k :: 1 <= k < |CsvFields| ==>
              (Invalid(CsvFields[k]) in ValidateRow(row) <==> !NumberOk(Get(row, CsvFields[k])))
    ensures ValidateRow(row) == [] <==> RowValid(row)
  {
    var head := if DateOk(Get(row, "date")) then [] else ["Invalid date"];
    ValidateRowParts(row, head, ErrorsOf(NumberCheck(row), CsvFields[1..]));
  }

  /** The numeric columns are distinct and none of them is "date". */
  lemma NumericFieldsDistinct()
    ensures NoDup(CsvFields[1..]) && "date" !in CsvFields[1..]
  {
    var fields := CsvFields[1..];
    assert fields == ["temp_max", "temp_min", "rainfall", "daily_gdd", "eff_rain", "cum_gdd"];
    assert "temp_max"[6] != "temp_min"[6];
  }

  /** Each numeric column is named exactly when its check fails, and its
      message differs from the date's. */
  lemma ErrorsByColumn(ok: string -> bool)
    ensures forall k :: 1 <= k < |CsvFields| ==>
              (Invalid(CsvFields[k]) in ErrorsOf(ok, CsvFields[1..]) <==> !ok(CsvFields[k]))
    ensures forall k :: 1 <= k < |CsvFields| ==> Invalid(CsvFields[k]) != "Invalid date"
  {
    var fields := CsvFields[1..];
    NumericFieldsDistinct();
    forall k | 1 <= k < |CsvFields|
      ensures Invalid(CsvFields[k]) in ErrorsOf(ok, fields) <==> !ok(CsvFields[k])
      ensures Invalid(CsvFields[k]) != "Invalid date"
    {
      assert fields[k - 1] == CsvFields[k];
      ErrorsNames(ok, fields, k - 1);
      InvalidDistinct(CsvFields[k], "date");
    }
  }

  /** The facts behind `ValidateRow`'s contract, about its two parts. */
  lemma ValidateRowParts(row: Row, head: seq<string>, nums: seq<string>)
    requires head == if DateOk(Get(row, "date")) then [] else ["Invalid date"]
    requires nums == ErrorsOf(NumberCheck(row), CsvFields[1..])
    ensures IsSubseq(head + nums, AllErrors())
    ensures "Invalid date" in head + nums <==> !DateOk(Get(row, "date"))
    ensures forall k :: 1 <= k < |CsvFields| ==>
              (Invalid(CsvFields[k]) in head + nums <==> !NumberOk(Get(row, CsvFields[k])))
    ensures head + nums == [] <==> RowValid(row)
  {
    var dateOk, ok := DateOk(Get(row, "date")), NumberCheck(row);
    PartsOrdered(dateOk, ok, head, nums);
    PartsNamed(dateOk, ok, head, nums);
    PartsEmpty(dateOk, ok, head, nums);
  }

  lemma PartsOrdered(dateOk: bool, ok: string -> bool, head: seq<string>, nums: seq<string>)
    requires head == if dateOk then [] else ["Invalid date"]
    requires nums == ErrorsOf(ok, CsvFields[1..])
    ensures IsSubseq(head + nums, AllErrors())
  {
    var fields := CsvFields[1..];
    ErrorsOrdered(ok, fields);
    if head == [] {
      assert head + nums == nums;
      SubseqDropHead(nums, AllErrors());
    } else {
      assert AllErrors()[1..] == Messages(fields);
      assert (head + nums)[1..] == nums;
    }
  }

  lemma PartsNamed(dateOk: bool, ok: string -> bool, head: seq<string>, nums: seq<string>)
    requires head == if dateOk then [] else ["Invalid date"]
    requires nums == ErrorsOf(ok, CsvFields[1..])
    ensures "Invalid date" in head + nums <==> !dateOk
    ensures forall k :: 1 <= k < |CsvFields| ==> (Invalid(CsvFields[k]) in head + nums <==> !ok(CsvFields[k]))
  {
    NumericFieldsDistinct();
    ErrorsOmit(ok, CsvFields[1..], "date");
    ErrorsByColumn(ok);
    assert Invalid("date") == "Invalid date";
    if head == [] {
      assert head + nums == nums;
    } else {
      assert (head + nums)[0] == "Invalid date";
    }
  }

  lemma PartsEmpty(dateOk: bool, ok: string -> bool, head: seq<string>, nums: seq<string>)
    requires head == if dateOk then [] else ["Invalid date"]
    requires nums == ErrorsOf(ok, CsvFields[1..])
    ensures head + nums == [] <==> dateOk && forall k :: 1 <= k < |CsvFields| ==> ok(CsvFields[k])
  {
    var fields := CsvFields[1..];
    ErrorsEmpty(ok, fields);
    assert forall k :: 0 <= k < |fields| ==> fields[k] == CsvFields[k + 1];
  }

  /** A row passes when its date and its six numbers all parse. */
  predicate RowValid(row: Row) {
    DateOk(Get(row, "date"))
    && forall k :: 1 <= k < |CsvFields| ==> NumberOk(Get(row, CsvFields[k]))
  }

  // ---------------------------------------------------------------------
  // import_data: the guards before the import thread starts

  /** How `import_data` ends before any row is read, or that it started
      the import over `total` rows. */
  datatype ImportStart = NoFarm | NoFile | ReadFailed | BadHeader | NoData | Started(total: nat)

  /** The set of the required column names. */
  function RequiredSet(): set<string> {
    set i | 0 <= i < |CsvFields| :: CsvFields[i]
  }

  /** `import_data` up to the start of the import thread.  `contents` is
      the list of rows read from the file, `None` when reading raised.  The
      header checked is the first row's keys, or the required columns
      themselves for a file without rows. */
  function ImportData(farm: Option<int>, file: Option<string>, contents: Option<seq<Row>>): (s: ImportStart)
    ensures s.Started? <==>
              && Farms.Truthy(farm)
              && file.Some? && file.value != ""
              && contents.Some? && |contents.value| > 0
              && ValidateCsvHeader(contents.value[0].Keys)
    ensures s.Started? ==> s.total == |contents.value|
    ensures s == NoFarm <==> !Farms.Truthy(farm)
  {
    if !Farms.Truthy(farm) then NoFarm
    else if file.None? || file.value == "" then NoFile
    else if contents.None? then ReadFailed
    else
      var rows := contents.value;
      var header := if |rows| > 0 then rows[0].Keys else RequiredSet();
      if !ValidateCsvHeader(header) then BadHeader
      else if |rows| == 0 then NoData
      else Started(|rows|)
  }

  // ---------------------------------------------------------------------
  // import_thread: per-row bookkeeping

  /** A row the import gave up on: its 1-based number and the reason, shown
      as `Row <n>: <detail>`. */
  datatype RowError = RowError(row: nat, detail: string)

  function ErrorLine(e: RowError): string {
    "Row " + NatToString(e.row) + ": " + e.detail
  }

  /** A row validator: `ValidateRow`, passed as a value so that the loop's
      accounting does not depend on how rows are checked. */
  type Validator = Row -> seq<string>

  /** Row `i` (0-based) gets written: it validates and the database insert
      does not raise.  `insertError(i)` is the message of the exception the
      insert of row `i` raises, if any. */
  predicate Written(rows: seq<Row>, validate: Validator, insertError: nat -> Option<string>, i: nat)
    requires i < |rows|
  {
    validate(rows[i]) == [] && insertError(i).None?
  }

  /** An error entry that truthfully describes its row: the validation
      messages joined by "; ", or the insert's exception. */
  predicate ErrorFits(rows: seq<Row>, validate: Validator, insertError: nat -> Option<string>, e: RowError) {
    && 1 <= e.row <= |rows|
    && var errs := validate(rows[e.row - 1]);
       if errs != [] then e.detail == JoinWith(errs, "; ")
       else insertError(e.row - 1).Some? && e.detail == insertError(e.row - 1).value
  }

  predicate StrictlyIncreasing(s: seq<nat>) {
    forall j, k :: 0 <= j < k < |s| ==> s[j] < s[k]
  }

  function ErrorRows(errors: seq<RowError>): (r: seq<nat>)
    ensures |r| == |errors|
    ensures forall j :: 0 <= j < |errors| ==> r[j] == errors[j].row
  {
    seq(|errors|, j requires 0 <= j < |errors| => errors[j].row)
  }

  lemma ErrorRowsAppend(errors: seq<RowError>, e: RowError)
    ensures ErrorRows(errors + [e]) == ErrorRows(errors) + [e.row]
  {
  }

  /** Appending a number above every present one keeps a sequence strictly
      increasing, and adds no number below it. */
  lemma IncreasingAppend(s: seq<nat>, x: nat)
    requires StrictlyIncreasing(s)
    requires forall j :: 0 <= j < |s| ==> s[j] < x
    ensures StrictlyIncreasing(s + [x])
    ensures forall y :: y < x ==> (y in s + [x] <==> y in s)
  {
  }

  /** What the import loop has gathered so far. */
  datatype Tally = Tally(count: nat, errors: seq<RowError>, progress: seq<nat>)

  /** One pass of the loop body over row `i` (0-based): a row with
      validation messages is reported and skipped; otherwise the insert is
      attempted, counted when it does not raise and reported when it does,
      and progress is reported either way. */
  function NextTally(rows: seq<Row>, validate: Validator, insertError: nat -> Option<string>, i: nat, t: Tally): Tally
    requires i < |rows|
  {
    var rowErrors := validate(rows[i]);
    if rowErrors != [] then
      t.(errors := t.errors + [RowError(i + 1, JoinWith(rowErrors, "; "))])
    else if insertError(i).None? then
      t.(count := t.count + 1, progress := t.progress + [i + 1])
    else
      t.(errors := t.errors + [RowError(i + 1, insertError(i).value)], progress := t.progress + [i + 1])
  }

  /** The error list after the first `n` rows: in row order, each entry
      truthful, and naming exactly the rows not written. */
  predicate ErrorsAccounted(rows: seq<Row>, validate: Validator, insertError: nat -> Option<string>, n: nat, t: Tally)
    requires n <= |rows|
  {
    && t.count + |t.errors| == n
    && StrictlyIncreasing(ErrorRows(t.errors))
    && (forall j :: 0 <= j < |t.errors| ==> ErrorFits(rows, validate, insertError, t.errors[j]))
    && (forall j :: 0 <= j < |t.errors| ==> t.errors[j].row <= n)
    && (forall k :: 0 <= k < n ==> (Written(rows, validate, insertError, k) <==> k + 1 !in ErrorRows(t.errors)))
  }

  /** The progress reports after the first `n` rows: in row order, one for
      each row that validated. */
  predicate ProgressAccounted(rows: seq<Row>, validate: Validator, n: nat, t: Tally)
    requires n <= |rows|
  {
    && StrictlyIncreasing(t.progress)
    && (forall k :: 0 <= k < n ==> (k + 1 in t.progress <==> validate(rows[k]) == []))
    && (forall j :: 0 <= j < |t.progress| ==> 1 <= t.progress[j] <= n)
  }

  lemma ErrorsStep(rows: seq<Row>, validate: Validator, insertError: nat -> Option<string>, i: nat, t: Tally)
    requires i < |rows| && ErrorsAccounted(rows, validate, insertError, i, t)
    ensures ErrorsAccounted(rows, validate, insertError, i + 1, NextTally(rows, validate, insertError, i, t))
  {
    var t' := NextTally(rows, validate, insertError, i, t);
    assert i + 1 !in ErrorRows(t.errors);
    if t'.errors != t.errors {
      var e := t'.errors[|t.errors|];
      assert t'.errors == t.errors + [e];
      ErrorRowsAppend(t.errors, e);
      IncreasingAppend(ErrorRows(t.errors), i + 1);
      assert ErrorFits(rows, validate, insertError, e);
    }
  }

  lemma ProgressStep(rows: seq<Row>, validate: Validator, insertError: nat -> Option<string>, i: nat, t: Tally)
    requires i < |rows| && ProgressAccounted(rows, validate, i, t)
    ensures ProgressAccounted(rows, validate, i + 1, NextTally(rows, validate, insertError, i, t))
  {
    var t' := NextTally(rows, validate, insertError, i, t);
    assert i + 1 !in t.progress;
    if validate(rows[i]) == [] {
      assert t'.progress == t.progress + [i + 1];
      IncreasingAppend(t.progress, i + 1);
    } else {
      assert t'.progress == t.progress;
    }
  }

  /** The loop of `import_thread` over the rows read.  Every row is either
      written (and counted) or reported once, in row order with its 1-based
      number and a truthful reason; progress is reported, in row order, for
      exactly the rows that validated, whether or not their insert then
      raised. */
  method ImportThread(rows: seq<Row>, insertError: nat -> Option<string>)
    returns (count: nat, errors: seq<RowError>, progress: seq<nat>)
    ensures count + |errors| == |rows|
    ensures ErrorsAccounted(rows, ValidateRow, insertError, |rows|, Tally(count, errors, progress))
    ensures ProgressAccounted(rows, ValidateRow, |rows|, Tally(count, errors, progress))
  {
    var t := Tally(0, [], []);
    var i := 0;
    while i < |rows|
      invariant 0 <= i <= |rows|
      invariant ErrorsAccounted(rows, ValidateRow, insertError, i, t)
      invariant ProgressAccounted(rows, ValidateRow, i, t)
    {
      ErrorsStep(rows, ValidateRow, insertError, i, t);
      ProgressStep(rows, ValidateRow, insertError, i, t);
      t := NextTally(rows, ValidateRow, insertError, i, t);
      i := i + 1;
    }
    count, errors, progress := t.count, t.errors, t.progress;
  }

  /** The message shown when the import finishes. */
  function Summary(count: nat, errorCount: nat): (m: string)
    ensures |m| >= 9 && m[..9] == "Imported "
    ensures '\n' in m <==> errorCount > 0
  {
    var first := "Imported " + NatToString(count) + " entries.";
    assert '\n' !in first by {
      NoCharInDigits(NatToString(count), '\n');
    }
    if errorCount == 0 then first
    else first + "\n" + NatToString(errorCount) + " rows skipped due to errors."
  }

  /** The message reads back: the number after "Imported " is the count of
      rows written, and the number opening the second line is the number
      of rows skipped. */
  lemma SummaryCounts(count: nat, errorCount: nat)
    ensures var m, d := Summary(count, errorCount), NatToString(count);
            && |m| >= 18 + |d|
            && m[..18 + |d|] == "Imported " + d + " entries."
            && ParseInt(m[9..9 + |d|]) == Some(count)
    ensures errorCount > 0 ==>
              var m, d, e := Summary(count, errorCount), NatToString(count), NatToString(errorCount);
              && |m| >= 19 + |d| + |e|
              && m[18 + |d|] == '\n'
              && ParseInt(m[19 + |d|..19 + |d| + |e|]) == Some(errorCount)
  {
    var d, e := NatToString(count), NatToString(errorCount);
    var first := "Imported " + d + " entries.";
    var m := Summary(count, errorCount);
    assert m == if errorCount == 0 then first else first + "\n" + e + " rows skipped due to errors.";
    SummaryShape(d, e, m);
    ParseIntOfDigits(d);
    if errorCount > 0 {
      ParseIntOfDigits(e);
    }
  }

  /** Where the two numbers sit in the message, whatever their digits. */
  lemma SummaryShape(d: string, e: string, m: string)
    requires var first := "Imported " + d + " entries.";
             m == first || m == first + "\n" + e + " rows skipped due to errors."
    ensures |m| >= 18 + |d| && m[..18 + |d|] == "Imported " + d + " entries." && m[9..9 + |d|] == d
    ensures m != "Imported " + d + " entries." ==>
              |m| >= 19 + |d| + |e| && m[18 + |d|] == '\n' && m[19 + |d|..19 + |d| + |e|] == e
  {
    var first := "Imported " + d + " entries.";
    assert first[9..9 + |d|] == d;
    if m != first {
      assert m[..18 + |d|] == first;
      assert m[19 + |d|..19 + |d| + |e|] == e;
    }
  }

  // ---------------------------------------------------------------------
  // preview_csv

  /** How the preview ended. */
  datatype PreviewEnd = Complete | HeaderRejected | Failed

  /** What the preview shows and which rows it kept in `preview_rows`. */
  datatype Preview = Preview(lines: seq<string>, rows: seq<Row>, end: PreviewEnd)

  /** The cells of `row` under the header's columns (`row.get(col, "")`). */
  function CellsOf(row: Row, header: seq<string>): (cells: seq<Cell>)
    ensures |cells| == |header|
  {
    seq(|header|, k requires 0 <= k < |header| => Get(row, header[k]))
  }

  predicate AllPresent(cells: seq<Cell>) {
    forall k :: 0 <= k < |cells| ==> cells[k].Some?
  }

  function Texts(cells: seq<Cell>): (r: seq<string>)
    requires AllPresent(cells)
    ensures |r| == |cells|
  {
    seq(|cells|, k requires 0 <= k < |cells| => cells[k].value)
  }

  /** One preview line: the row's cells joined with commas, followed by its
      validation messages when there are any. */
  function PreviewLine(cells: seq<Cell>, errs: seq<string>): (line: string)
    requires AllPresent(cells)
    ensures errs == [] <==> line == JoinWith(Texts(cells), ",")
  {
    var bare := JoinWith(Texts(cells), ",");
    if errs == [] then bare
    else
      var marked := bare + "   <-- " + JoinWith(errs, "; ");
      assert |marked| > |bare|;
      marked
  }

  /** `line` shows `row` under `header` as the preview does: every cell is
      present, and the line is the bare comma-joined row exactly when `errs`
      is empty. */
  predicate LineShows(header: seq<string>, row: Row, line: string, errs: seq<string>) {
    AllPresent(CellsOf(row, header)) && (errs == [] <==> line == JoinWith(Texts(CellsOf(row, header)), ","))
  }

  /** The message shown for a header lacking a required column. */
  const HeaderError: string := "Header error: CSV must contain fields: " + JoinWith(CsvFields, ", ")

  /** The preview loop from some row on, with `budget` rows still allowed:
      each row is kept, then shown as its comma-joined cells plus its
      validation messages; a missing cell makes the join raise, which ends
      the preview as failed. */
  function PreviewLoop(header: seq<string>, rows: seq<Row>, budget: nat, validate: Validator): (p: Preview)
    ensures |p.rows| <= budget && |p.rows| <= |rows|
    ensures p.rows == rows[..|p.rows|]
    ensures p.end != HeaderRejected
    ensures p.end == Complete ==> |p.rows| == (if |rows| < budget then |rows| else budget)
    ensures p.end == Complete ==> |p.lines| == |p.rows|
    decreases budget
  {
    if |rows| == 0 || budget == 0 then Preview([], [], Complete)
    else
      var cells := CellsOf(rows[0], header);
      if !AllPresent(cells) then Preview([], [rows[0]], Failed)
      else
        var line := PreviewLine(cells, validate(rows[0]));
        var rest := PreviewLoop(header, rows[1..], budget - 1, validate);
        assert [rows[0]] + rest.rows == rows[..|rest.rows| + 1];
        Preview([line] + rest.lines, [rows[0]] + rest.rows, rest.end)
  }

  /** `preview_csv`: `fieldnames` is `None` for an empty file, which makes
      the header check raise.  At most five rows are kept, always the first
      ones, and a complete preview shows the header line plus one line per
      kept row. */
  function PreviewCsv(fieldnames: Option<seq<string>>, rows: seq<Row>): (p: Preview)
    ensures |p.rows| <= 5 && |p.rows| <= |rows|
    ensures p.rows == rows[..|p.rows|]
    ensures p.end == HeaderRejected <==> fieldnames.Some? && !ValidateCsvHeader(Names(fieldnames.value))
    ensures p.end == Complete ==> |p.rows| == (if |rows| < 5 then |rows| else 5) && |p.lines| == |p.rows| + 1
  {
    match fieldnames
    case None => Preview([], [], Failed)
    case Some(header) =>
      if !ValidateCsvHeader(Names(header)) then
        Preview([HeaderError], [], HeaderRejected)
      else
        var body := PreviewLoop(header, rows, 5, ValidateRow);
        Preview([JoinWith(header, ",")] + body.lines, body.rows, body.end)
  }

  /** Each line the preview loop shows belongs to a kept row whose cells are
      all present, and it is the bare comma-joined row exactly when the row
      has no validation messages; otherwise the messages are appended. */
  lemma {:induction false} PreviewLoopLines(header: seq<string>, rows: seq<Row>, budget: nat, validate: Validator)
    ensures |PreviewLoop(header, rows, budget, validate).lines| <= |PreviewLoop(header, rows, budget, validate).rows|
    ensures var p := PreviewLoop(header, rows, budget, validate);
            forall i :: 0 <= i < |p.lines| ==> LineShows(header, rows[i], p.lines[i], validate(rows[i]))
    decreases budget
  {
    var p := PreviewLoop(header, rows, budget, validate);
    if |rows| > 0 && budget > 0 && AllPresent(CellsOf(rows[0], header)) {
      var rest := PreviewLoop(header, rows[1..], budget - 1, validate);
      PreviewLoopLines(header, rows[1..], budget - 1, validate);
      assert p.lines[0] == PreviewLine(CellsOf(rows[0], header), validate(rows[0]));
      forall i | 1 <= i < |p.lines|
        ensures LineShows(header, rows[i], p.lines[i], validate(rows[i]))
      {
        assert p.lines[i] == rest.lines[i - 1] && rows[i] == rows[1..][i - 1];
      }
    }
  }

  /** The preview marks exactly the rows the import would reject: below the
      header line, a kept row is shown bare precisely when `validate_row`
      finds nothing wrong with it. */
  lemma PreviewMarksInvalidRows(header: seq<string>, rows: seq<Row>, lines: seq<string>)
    requires ValidateCsvHeader(Names(header)) && lines == PreviewCsv(Some(header), rows).lines
    ensures |lines| <= |rows| + 1
    ensures forall i :: 1 <= i < |lines| ==> LineShows(header, rows[i - 1], lines[i], ValidateRow(rows[i - 1]))
  {
    PreviewCsvBody(header, rows);
    ValidatedLines(header, rows, 5, JoinWith(header, ","), lines);
  }

  /** `HeaderedLines` for `validate_row`. */
  lemma ValidatedLines(header: seq<string>, rows: seq<Row>, budget: nat, top: string, lines: seq<string>)
    requires lines == [top] + PreviewLoop(header, rows, budget, ValidateRow).lines
    ensures |lines| <= |rows| + 1
    ensures forall i :: 1 <= i < |lines| ==> LineShows(header, rows[i - 1], lines[i], ValidateRow(rows[i - 1]))
  {
    var validate: Validator := ValidateRow;
    HeaderedLines(header, rows, budget, validate, top, lines);
    forall i | 1 <= i < |lines|
      ensures LineShows(header, rows[i - 1], lines[i], ValidateRow(rows[i - 1]))
    {
      assert validate(rows[i - 1]) == ValidateRow(rows[i - 1]);
    }
  }

  /** Under a valid header the preview is the header line over the loop's lines. */
  lemma PreviewCsvBody(header: seq<string>, rows: seq<Row>)
    requires ValidateCsvHeader(Names(header))
    ensures PreviewCsv(Some(header), rows).lines
            == [JoinWith(header, ",")] + PreviewLoop(header, rows, 5, ValidateRow).lines
  {
  }

  /** The loop's line property, read below a header line. */
  lemma HeaderedLines(header: seq<string>, rows: seq<Row>, budget: nat, validate: Validator, top: string,
                      lines: seq<string>)
    requires lines == [top] + PreviewLoop(header, rows, budget, validate).lines
    ensures |lines| <= |rows| + 1
    ensures forall i :: 1 <= i < |lines| ==> LineShows(header, rows[i - 1], lines[i], validate(rows[i - 1]))
  {
    var body := PreviewLoop(header, rows, budget, validate);
    PreviewLoopLines(header, rows, budget, validate);
    forall i | 1 <= i < |lines|
      ensures LineShows(header, rows[i - 1], lines[i], validate(rows[i - 1]))
    {
      assert lines[i] == body.lines[i - 1];
    }
  }
}
