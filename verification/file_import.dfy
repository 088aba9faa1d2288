/** The spreadsheet import helper: which files it accepts, how it names
    columns, which rows it keeps and which tables each kept row reaches.
    The file system and the spreadsheet reader are parameters: whether the
    path names a file, and the header and cells the reader produced. */
module FileImport {
  import opened Outcomes
  import opened Text
  import opened Seqs

  // ---------------------------------------------------------------------
  // Extension dispatch

  /** The index of the last `c` in `s`, or -1 (`str.rfind`). */
  function RFind(s: string, c: char): (i: int)
    ensures -1 <= i < |s|
    ensures i >= 0 ==> s[i] == c
    ensures forall j :: i < j < |s| ==> s[j] != c
    decreases |s|
  {
    if |s| == 0 then -1
    else if s[|s| - 1] == c then |s| - 1
    else RFind(s[..|s| - 1], c)
  }

  /** `os.path.splitext(p)[1]` as on POSIX: from the last dot of the last
      path component, provided some character before it in that component
      is not a dot (so `.csv` alone has no extension); otherwise empty.
      Only `/` separates components here; on Windows `\` separates them
      too, so there `a.b\c` has no extension while this gives `.b\c`. */
  function Ext(p: string): (e: string)
    ensures e == [] || (e[0] == '.' && '.' !in e[1..] && '/' !in e)
  {
    var slash := RFind(p, '/');
    var dot := RFind(p, '.');
    if dot > slash && exists k :: slash < k < dot && p[k] != '.' then
      var e := p[dot..];
      assert forall j :: 1 <= j < |e| ==> e[j] == p[dot + j];
      e
    else ""
  }

  /** A file name ending in an extension: the extension is found, whatever
      the name before it holds. */
  lemma ExtOfName(stem: string, e: string)
    requires |stem| > 0 && stem[|stem| - 1] != '.' && stem[|stem| - 1] != '/'
    requires |e| > 0 && e[0] == '.' && '.' !in e[1..] && '/' !in e
    ensures Ext(stem + e) == e
  {
    var p := stem + e;
    var dot := RFind(p, '.');
    var slash := RFind(p, '/');
    assert forall j :: 0 <= j < |e| ==> p[|stem| + j] == e[j];
    assert dot == |stem|;
    assert slash < |stem| - 1;
    assert p[|stem| - 1] != '.';
    assert p[dot..] == e;
  }

  datatype Kind = Csv | Excel

  datatype ImportError = FileNotFound | Unsupported

  /** The reader chosen for a path: an absent file fails first, then the
      lower-cased extension decides. */
  function Dispatch(isFile: bool, path: string): (r: Result<Kind, ImportError>)
    ensures !isFile ==> r == Err(FileNotFound)
    ensures isFile ==> (r == Ok(Csv) <==> Lower(Ext(path)) == ".csv")
    ensures isFile ==> (r == Ok(Excel) <==> Lower(Ext(path)) in [".xls", ".xlsx"])
    ensures isFile ==> (r == Err(Unsupported) <==> Lower(Ext(path)) !in [".csv", ".xls", ".xlsx"])
  {
    if !isFile then Err(FileNotFound)
    else
      var ext := Lower(Ext(path));
      if ext in [".csv"] then Ok(Csv)
      else if ext in [".xls", ".xlsx"] then Ok(Excel)
      else Err(Unsupported)
  }

  /** Case does not matter: an existing file named `stem + e`, for any
      capitalisation `e` of ".csv", goes to the CSV reader. */
  lemma DispatchIgnoresCase(stem: string, e: string)
    requires |stem| > 0 && stem[|stem| - 1] != '.' && stem[|stem| - 1] != '/'
    requires |e| == 4 && Lower(e) == ".csv"
    ensures Dispatch(true, stem + e) == Ok(Csv)
  {
    assert e[0] == LowerChar(e[0]) == '.';
    assert '.' !in e[1..] && '/' !in e by {
      forall i | 0 <= i < 4
        ensures e[i] == '.' <==> i == 0
        ensures e[i] != '/'
      {
        assert LowerChar(e[i]) == Lower(e)[i];
      }
    }
    ExtOfName(stem, e);
  }

  // ---------------------------------------------------------------------
  // Column names

  /** `c.strip().lower()` for one column name. */
  function NormalizeName(c: string): (r: string)
    ensures |r| <= |c|
    ensures r == [] || (!IsSpace(r[0]) && !IsSpace(r[|r| - 1]))
    ensures forall i :: 0 <= i < |r| ==> !('A' <= r[i] <= 'Z')
  {
    var t := Strip(c);
    LowerKeepsEnds(t);
    LowerIdempotent(t);
    Lower(t)
  }

  /** A name padded with blanks normalises to the lower-cased name:
      `"  Farm_ID "` and `"farm_id"` are the same column. */
  lemma NormalizeNameOfPadded(pre: string, x: string, post: string)
    requires AllSpace(pre) && AllSpace(post) && |x| > 0 && Trimmed(x)
    ensures NormalizeName(pre + x + post) == Lower(x)
  {
    StripAround(pre, x, post);
  }

  /** Lower-casing neither makes nor removes whitespace at the ends. */
  lemma LowerKeepsEnds(t: string)
    requires t == [] || (!IsSpace(t[0]) && !IsSpace(t[|t| - 1]))
    ensures Lower(t) == [] || (!IsSpace(Lower(t)[0]) && !IsSpace(Lower(t)[|t| - 1]))
  {
    if t != [] {
      assert Lower(t)[0] == LowerChar(t[0]);
      assert Lower(t)[|t| - 1] == LowerChar(t[|t| - 1]);
    }
  }

  function NormalizeColumns(cols: seq<string>): (r: seq<string>)
    ensures |r| == |cols|
    ensures forall i :: 0 <= i < |cols| ==> r[i] == NormalizeName(cols[i])
  {
    seq(|cols|, i requires 0 <= i < |cols| => NormalizeName(cols[i]))
  }


  /** Normalising a normalised name changes nothing. */
  lemma NormalizeNameIdempotent(c: string)
    ensures NormalizeName(NormalizeName(c)) == NormalizeName(c)
  {
    var t := Strip(c);
    var r := Lower(t);
    if r != [] {
      StripTrimmed(r);
    }
    assert Strip(r) == r;
    LowerIdempotent(t);
    assert Lower(r) == r;
  }

  /** Normalising the column list is idempotent. */
  lemma NormalizeColumnsIdempotent(cols: seq<string>)
    ensures NormalizeColumns(NormalizeColumns(cols)) == NormalizeColumns(cols)
  {
    forall i | 0 <= i < |cols|
      ensures NormalizeName(NormalizeName(cols[i])) == NormalizeName(cols[i])
    {
      NormalizeNameIdempotent(cols[i]);
    }
  }

  // ---------------------------------------------------------------------
  // Rows

  /** A cell as the spreadsheet reader returns it: a number, a text, or the
      not-a-number the reader puts in a blank cell. */
  datatype Value = NaN | Num(x: real) | Txt(s: string)

  /** Python truthiness of a looked-up cell; `None` is the missing column.
      A not-a-number is truthy. */
  predicate Truthy(v: Option<Value>) {
    match v
    case None => false
    case Some(NaN) => true
    case Some(Num(x)) => x != 0.0
    case Some(Txt(s)) => s != ""
  }

  /** The frame after reading: column labels (already normalised) and one
      sequence of cells per data row; the reader pads short rows with
      not-a-number. */
  datatype Frame = Frame(columns: seq<string>, rows: seq<seq<Value>>)

  function Index(cols: seq<string>, name: string): (i: int)
    ensures -1 <= i < |cols|
    ensures i >= 0 ==> cols[i] == name && name !in cols[..i]
    ensures i == -1 <==> name !in cols
    decreases |cols|
  {
    if |cols| == 0 then -1
    else if cols[0] == name then 0
    else
      var i := Index(cols[1..], name);
      assert i >= 0 ==> cols[..i + 1] == [cols[0]] + cols[1..][..i];
      if i >= 0 then i + 1 else -1
  }

  /** `row.get(name)` for a label occurring once.  A label occurring twice
      after normalisation is looked up at its first occurrence here, where
      pandas gives a Series whose truth test raises. */
  function Get(cols: seq<string>, rec: seq<Value>, name: string): (v: Option<Value>)
    ensures v.None? <==> name !in cols
  {
    var i := Index(cols, name);
    if i < 0 then None else if i < |rec| then Some(rec[i]) else Some(NaN)
  }

  const ClimateCols: seq<string> := ["date", "temp_max", "temp_min", "rainfall"]
  const AgriCols: seq<string> := ["date", "daily_gdd", "effective_rainfall", "cumulative_gdd"]

  predicate HasAll(cols: seq<string>, need: seq<string>) {
    forall c :: c in need ==> c in cols
  }

  /** The farm id a row is written under: a truthy argument wins, otherwise
      the row's own `farm_id` cell. */
  function RowFarm(arg: Option<int>, cols: seq<string>, rec: seq<Value>): (fid: Option<Value>)
    ensures arg.Some? && arg.value != 0 ==> fid == Some(Num(arg.value as real))
  {
    if arg.Some? && arg.value != 0 then Some(Num(arg.value as real)) else Get(cols, rec, "farm_id")
  }

  /** A row written to a table: the farm id, then the row's cells for the
      table's four columns. */
  function Record(fid: Option<Value>, cols: seq<string>, rec: seq<Value>, need: seq<string>): (r: seq<Option<Value>>)
    ensures |r| == |need| + 1 && r[0] == fid
  {
    [fid] + seq(|need|, i requires 0 <= i < |need| => Get(cols, rec, need[i]))
  }

  /** What an import run produced. */
  datatype Imported = Imported(count: nat, climate: seq<seq<Option<Value>>>, agri: seq<seq<Option<Value>>>)

  /** Rows as a table receives them: five values, the first a farm id
      that passes the filter. */
  predicate Filed(ws: seq<seq<Option<Value>>>, keep: Option<Value> -> bool) {
    forall w :: w in ws ==> |w| == 5 && keep(w[0])
  }

  /** Every row in a table carries the farm id `fid`. */
  predicate AllUnder(ws: seq<seq<Option<Value>>>, fid: Option<Value>) {
    forall w :: w in ws ==> |w| == 5 && w[0] == fid
  }

  /** The row loop, with the row filter as a parameter: `keep(fid)` decides
      whether a row with that farm id is processed. */
  function ImportRows(keep: Option<Value> -> bool, arg: Option<int>, f: Frame): (r: Imported)
    ensures r.count == Count((rec: seq<Value>) => keep(RowFarm(arg, f.columns, rec)), f.rows)
    ensures |r.climate| == if HasAll(f.columns, ClimateCols) then r.count else 0
    ensures |r.agri| == if HasAll(f.columns, AgriCols) then r.count else 0
    ensures Filed(r.climate, keep) && Filed(r.agri, keep)
    ensures arg.Some? && arg.value != 0 ==>
              AllUnder(r.climate, Some(Num(arg.value as real))) && AllUnder(r.agri, Some(Num(arg.value as real)))
    decreases |f.rows|
  {
    if |f.rows| == 0 then Imported(0, [], [])
    else
      var rec := f.rows[0];
      var rest := ImportRows(keep, arg, Frame(f.columns, f.rows[1..]));
      var fid := RowFarm(arg, f.columns, rec);
      if !keep(fid) then rest
      else
        var c := if HasAll(f.columns, ClimateCols) then [Record(fid, f.columns, rec, ClimateCols)] else [];
        var a := if HasAll(f.columns, AgriCols) then [Record(fid, f.columns, rec, AgriCols)] else [];
        FiledCons(c, rest.climate, keep, fid);
        FiledCons(a, rest.agri, keep, fid);
        Imported(rest.count + 1, c + rest.climate, a + rest.agri)
  }

  lemma FiledCons(c: seq<seq<Option<Value>>>, ws: seq<seq<Option<Value>>>, keep: Option<Value> -> bool, fid: Option<Value>)
    requires forall w :: w in c ==> |w| == 5 && w[0] == fid
    requires keep(fid) && Filed(ws, keep)
    ensures Filed(c + ws, keep)
    ensures AllUnder(ws, fid) ==> AllUnder(c + ws, fid)
  {
  }

  /** `import_file_to_db` as written: the path is checked, the columns
      normalised, and every row whose farm id is truthy is counted and
      written to each table whose four columns are all present. */
  function ImportFileToDb(isFile: bool, path: string, read: Frame, arg: Option<int>): (r: Result<Imported, ImportError>)
    ensures r.Err? <==> Dispatch(isFile, path).Err?
    ensures r.Ok? ==> r.value.count <= |read.rows|
  {
    match Dispatch(isFile, path)
    case Err(e) => Err(e)
    case Ok(_) =>
      var f := Frame(NormalizeColumns(read.columns), read.rows);
      Ok(ImportRows(Truthy, arg, f))
  }

  /** A blank `farm_id` cell reaches the loop as not-a-number, which is
      truthy, so without a farm id argument the row is counted and written
      although it names no farm; the intended filter skips it. */
  lemma BlankFarmIdCounted(cols: seq<string>, rec: seq<Value>)
    requires Get(cols, rec, "farm_id") == Some(NaN)
    ensures ImportRows(Truthy, None, Frame(cols, [rec])).count == 1
    ensures ImportRows(HasFarm, None, Frame(cols, [rec])).count == 0
  {
    assert [rec][1..] == [];
  }

  /** A farm id that names a farm: truthy and not the blank-cell marker. */
  predicate HasFarm(v: Option<Value>) {
    Truthy(v) && v != Some(NaN)
  }

  /** `import_file_to_db` as intended: rows without a farm id, blank cells
      included, are skipped and not counted. */
  function ImportFileToDbFixed(isFile: bool, path: string, read: Frame, arg: Option<int>): (r: Result<Imported, ImportError>)
    ensures r.Err? <==> Dispatch(isFile, path).Err?
    ensures r.Ok? ==> r.value.count <= |read.rows|
    ensures r.Ok? ==> Filed(r.value.climate, HasFarm) && Filed(r.value.agri, HasFarm)
  {
    match Dispatch(isFile, path)
    case Err(e) => Err(e)
    case Ok(_) =>
      var f := Frame(NormalizeColumns(read.columns), read.rows);
      Ok(ImportRows(HasFarm, arg, f))
  }

  /** With a truthy farm id argument both versions agree: the argument
      overrides every row, so every row is counted. */
  lemma ArgumentOverrides(isFile: bool, path: string, read: Frame, id: int)
    requires id != 0
    ensures ImportFileToDb(isFile, path, read, Some(id)) == ImportFileToDbFixed(isFile, path, read, Some(id))
    ensures ImportFileToDb(isFile, path, read, Some(id)).Ok? ==>
              ImportFileToDb(isFile, path, read, Some(id)).value.count == |read.rows|
  {
    if Dispatch(isFile, path).Ok? {
      var f := Frame(NormalizeColumns(read.columns), read.rows);
      OverrideAgrees(Some(id), f);
    }
  }

  lemma {:induction false} OverrideAgrees(arg: Option<int>, f: Frame)
    requires arg.Some? && arg.value != 0
    ensures ImportRows(Truthy, arg, f) == ImportRows(HasFarm, arg, f)
    ensures ImportRows(Truthy, arg, f).count == |f.rows|
    decreases |f.rows|
  {
    if |f.rows| > 0 {
      OverrideAgrees(arg, Frame(f.columns, f.rows[1..]));
    }
  }
}
