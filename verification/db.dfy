/** The rules inside the database handler that do not depend on SQLite:
    the season of a date, the whitelisting and parameters of the user
    listing query, the header and type-map logic of the bulk CSV import,
    and what deleting a farm removes.  Tables are sequences of records and
    a query is the filter it stands for. */
module Db {
  import opened Outcomes
  import opened Text
  import opened Numbers
  import opened Dates
  import opened CsvRows
  import opened Seqs
  import opened Farms

  // ---------------------------------------------------------------------
  // detect_season

  /** `int(date_str.split("-")[1])`; `None` for the `IndexError` (no second
      part) or the `ValueError` (not an integer). */
  function MonthField(s: string): (m: Option<int>)
    ensures |SplitOn(s, '-')| < 2 ==> m.None?
  {
    var parts := SplitOn(s, '-');
    if |parts| < 2 then None else ParseInt(parts[1])
  }

  /** The five answers of `detect_season`, each standing for the name the
      source returns ("Winter", "Spring", "Summer", "Fall", "Unknown"). */
  datatype Season = Winter | Spring | Summer | Fall | Unknown

  function SeasonName(s: Season): string {
    match s
    case Winter => "Winter"
    case Spring => "Spring"
    case Summer => "Summer"
    case Fall => "Fall"
    case Unknown => "Unknown"
  }

  /** The season of a month as `detect_season` decides it: December to
      February is winter, then three months for each further season, and
      "Unknown" exactly when there is no month or it lies outside 1..12. */
  function SeasonOf(month: Option<int>): (r: Season)
    ensures r == Unknown <==> month.None? || !(1 <= month.value <= 12)
    ensures r == Winter <==> month in {Some(12), Some(1), Some(2)}
    ensures r == Spring <==> month in {Some(3), Some(4), Some(5)}
    ensures r == Summer <==> month in {Some(6), Some(7), Some(8)}
    ensures r == Fall <==> month in {Some(9), Some(10), Some(11)}
  {
    match month
    case None => Unknown
    case Some(m) =>
      if m in [12, 1, 2] then Winter
      else if m in [3, 4, 5] then Spring
      else if m in [6, 7, 8] then Summer
      else if m in [9, 10, 11] then Fall
      else Unknown
  }

  /** `detect_season(date_str)`. */
  function DetectSeason(s: string): Season {
    SeasonOf(MonthField(s))
  }

  /** Every real day, written the way `date.isoformat()` writes it, gets a
      proper season: never "Unknown". */
  lemma SeasonOfIsoDate(d: Date)
    requires ValidDate(d)
    ensures MonthField(FormatDate(d)) == Some(d.month as int)
    ensures DetectSeason(FormatDate(d)) != Unknown
  {
    var y, m, dd := Pad(d.year, 4), Pad(d.month, 2), Pad(d.day, 2);
    assert Pow10(2) == 100 && Pow10(4) == 10000;
    PadSmall(d.year, 4);
    PadSmall(d.month, 2);
    PadSmall(d.day, 2);
    SplitThree(y, m, dd);
    assert SplitOn(FormatDate(d), '-')[1] == m;
    ParseIntOfDigits(m);
  }

  // ---------------------------------------------------------------------
  // get_users

  const SortColumns: seq<string> := ["username", "role", "id"]
  const Directions: seq<string> := ["asc", "desc"]

  /** A query parameter: a `LIKE` pattern or a number. */
  datatype Param = Pattern(text: string) | Number(n: int)

  /** What the listing query is built from: the whitelisted column and
      direction, whether a search filter applies, and the parameters bound
      to its placeholders in order. */
  datatype UsersQuery = UsersQuery(filtered: bool, column: string, direction: string, params: seq<Param>)

  function Whitelist(value: string, allowed: seq<string>, fallback: string): (r: string)
    ensures value in allowed ==> r == value
    ensures value !in allowed ==> r == fallback
  {
    if value in allowed then value else fallback
  }

  /** `get_users`: sort column and direction come from fixed lists whatever
      the caller passes; two `%search%` patterns come first, and only for a
      non-empty search; the limit and then the offset close the list. */
  function GetUsersQuery(search: string, sort: string, order: string, limit: int, offset: int): (q: UsersQuery)
    ensures q.column in SortColumns && q.direction in Directions
    ensures sort in SortColumns ==> q.column == sort
    ensures sort !in SortColumns ==> q.column == "username"
    ensures order in Directions ==> q.direction == order
    ensures order !in Directions ==> q.direction == "asc"
    ensures q.filtered <==> search != ""
    ensures |q.params| == if search != "" then 4 else 2
    ensures q.params[|q.params| - 2..] == [Number(limit), Number(offset)]
    ensures forall i :: 0 <= i < |q.params| - 2 ==> q.params[i] == Pattern("%" + search + "%")
  {
    var patterns := if search != "" then [Pattern("%" + search + "%"), Pattern("%" + search + "%")] else [];
    UsersQuery(search != "", Whitelist(sort, SortColumns, "username"),
               Whitelist(order, Directions, "asc"), patterns + [Number(limit), Number(offset)])
  }

  /** Whitelisting is idempotent: a query built from an already whitelisted
      column and direction keeps them. */
  lemma WhitelistStable(search: string, sort: string, order: string, limit: int, offset: int)
    ensures var q := GetUsersQuery(search, sort, order, limit, offset);
            GetUsersQuery(search, q.column, q.direction, limit, offset) == q
  {
  }

  /** SQLite's `LIKE`: `%` matches any run of characters, `_` any single
      character, and other characters match ignoring ASCII case. */
  predicate Like(p: string, t: string)
    decreases |p| + |t|
  {
    if |p| == 0 then |t| == 0
    else if p[0] == '%' then Like(p[1..], t) || (|t| > 0 && Like(p, t[1..]))
    else |t| > 0 && (p[0] == '_' || LowerChar(p[0]) == LowerChar(t[0])) && Like(p[1..], t[1..])
  }

  /** The search text occurs in `t` at position `i`, ignoring ASCII case. */
  predicate OccursAt(s: string, t: string, i: nat) {
    i + |s| <= |t| && Lower(t[i..i + |s|]) == Lower(s)
  }

  predicate Contains(t: string, s: string) {
    exists i: nat :: i <= |t| && OccursAt(s, t, i)
  }

  predicate Literal(s: string) {
    '%' !in s && '_' !in s
  }

  /** A trailing `%` matches everything. */
  lemma {:induction false} LikeAny(t: string)
    ensures Like("%", t)
    decreases |t|
  {
    if |t| > 0 {
      LikeAny(t[1..]);
    }
  }

  /** A literal text followed by `%` matches exactly the texts it begins. */
  lemma {:induction false} LikePrefix(s: string, t: string)
    requires Literal(s)
    ensures Like(s + "%", t) <==> |s| <= |t| && Lower(t[..|s|]) == Lower(s)
    decreases |s|
  {
    if |s| == 0 {
      assert s + "%" == "%";
      LikeAny(t);
    } else {
      assert (s + "%")[1..] == s[1..] + "%";
      if |t| > 0 {
        LikePrefix(s[1..], t[1..]);
        if |s| <= |t| {
          assert Lower(t[..|s|]) == [LowerChar(t[0])] + Lower(t[1..][..|s| - 1]) by {
            assert t[..|s|] == [t[0]] + t[1..][..|s| - 1];
          }
          assert Lower(s) == [LowerChar(s[0])] + Lower(s[1..]);
        }
      }
    }
  }

  /** A leading `%` lets the rest of the pattern match any suffix. */
  lemma {:induction false} LikeSuffix(p: string, t: string)
    ensures Like("%" + p, t) <==> exists i: nat :: i <= |t| && Like(p, t[i..])
    decreases |t|
  {
    assert ("%" + p)[1..] == p;
    assert t[0..] == t;
    if |t| > 0 {
      LikeSuffix(p, t[1..]);
      forall i: nat | 1 <= i <= |t|
        ensures t[i..] == t[1..][i - 1..]
      {
      }
      if exists i: nat :: i <= |t| && Like(p, t[i..]) {
        var i: nat :| i <= |t| && Like(p, t[i..]);
        if i > 0 {
          assert Like(p, t[1..][i - 1..]);
        }
      }
      if exists i: nat :: i <= |t[1..]| && Like(p, t[1..][i..]) {
        var i: nat :| i <= |t[1..]| && Like(p, t[1..][i..]);
        assert Like(p, t[i + 1..]);
      }
    }
  }

  /** The `%search%` pattern of `get_users` selects a username or role
      exactly when the search text occurs in it, ignoring ASCII case (for a
      search text without `LIKE` wildcards of its own). */
  lemma SearchMatches(search: string, t: string)
    requires Literal(search)
    ensures Like("%" + search + "%", t) <==> Contains(t, search)
  {
    assert "%" + search + "%" == "%" + (search + "%");
    LikeSuffix(search + "%", t);
    forall i: nat | i <= |t|
      ensures Like(search + "%", t[i..]) <==> OccursAt(search, t, i)
    {
      LikePrefix(search, t[i..]);
      if i + |search| <= |t| {
        assert t[i..][..|search|] == t[i..i + |search|];
      }
    }
    if Contains(t, search) {
      var i: nat :| i <= |t| && OccursAt(search, t, i);
      assert Like(search + "%", t[i..]);
    }
  }

  // ---------------------------------------------------------------------
  // import_csv

  /** The converters a type map may name. */
  datatype Conv = ToFloat | ToInt | ToStr

  /** A value bound to an `INSERT` placeholder. */
  datatype Val = Null | Str(s: string) | Real(f: Float) | Integer(i: int)

  /** `type_map[field](val) if val != '' else None`; `None` for the
      exception the converter raises.  A missing cell (`None` from the
      reader) is not `''`, so it reaches the converter: `float(None)` and
      `int(None)` raise, `str(None)` is "None". */
  function Convert(c: Conv, cell: Cell): (v: Option<Val>)
    ensures cell == Some("") ==> v == Some(Null)
    ensures c == ToStr ==> v.Some?
    ensures c == ToInt && cell.Some? && cell.value != "" ==> (v.Some? <==> ParseInt(cell.value).Some?)
    ensures c == ToFloat && cell.Some? && cell.value != "" ==> (v.Some? <==> ParseFloat(cell.value).Some?)
    ensures cell.None? ==> (v.Some? <==> c == ToStr)
  {
    match cell
    case None => if c == ToStr then Some(Str("None")) else None
    case Some(t) =>
      if t == "" then Some(Null)
      else match c
        case ToStr => Some(Str(t))
        case ToInt => if ParseInt(t).Some? then Some(Integer(ParseInt(t).value)) else None
        case ToFloat => if ParseFloat(t).Some? then Some(Real(ParseFloat(t).value)) else None
  }

  /** A cell the type map does not mention, passed through: text as text,
      a missing cell as `NULL`. */
  function Raw(cell: Cell): Val {
    if cell.Some? then Str(cell.value) else Null
  }

  /** The values of one row for the required fields, in their order, or
      `None` when a lookup or a conversion fails. */
  function RowValues(row: Row, fields: seq<string>, typeMap: map<string, Conv>): (vs: Option<seq<Val>>)
    ensures vs.Some? ==> |vs.value| == |fields|
    ensures vs.Some? <==> forall f :: f in fields ==> f in row && (f in typeMap ==> Convert(typeMap[f], row[f]).Some?)
    decreases |fields|
  {
    if |fields| == 0 then Some([])
    else
      var f := fields[0];
      var v := if f !in row then None
               else if f in typeMap then Convert(typeMap[f], row[f])
               else Some(Raw(row[f]));
      var rest := RowValues(row, fields[1..], typeMap);
      assert forall g :: g in fields <==> g == f || g in fields[1..];
      if v.Some? && rest.Some? then Some([v.value] + rest.value) else None
  }

  /** The header is usable: present, non-empty and holding every required
      field.  Extra columns are allowed (they only draw a warning). */
  predicate HeaderAccepted(header: Option<seq<string>>, fields: seq<string>) {
    header.Some? && |header.value| > 0 && forall f :: f in fields ==> f in header.value
  }

  /** What one import run does: the rows inserted, in order, and the
      1-based numbers of the rows skipped. */
  datatype ImportReport = ImportReport(inserted: nat, written: seq<seq<Val>>, skipped: seq<nat>)

  /** The row loop, numbering rows from `first`. */
  function ImportRows(rows: seq<Row>, fields: seq<string>, typeMap: map<string, Conv>, first: nat): (r: ImportReport)
    ensures r.inserted == |r.written| && r.inserted + |r.skipped| == |rows|
    ensures forall w :: w in r.written ==> |w| == |fields|
    ensures forall k :: k in r.skipped <==>
              first <= k < first + |rows| && RowValues(rows[k - first], fields, typeMap).None?
    decreases |rows|
  {
    if |rows| == 0 then ImportReport(0, [], [])
    else
      var rest := ImportRows(rows[1..], fields, typeMap, first + 1);
      match RowValues(rows[0], fields, typeMap)
      case Some(vs) => ImportReport(rest.inserted + 1, [vs] + rest.written, rest.skipped)
      case None => ImportReport(rest.inserted, rest.written, [first] + rest.skipped)
  }

  /** `import_csv`: nothing happens without an acceptable header; otherwise
      each data row is either inserted or skipped, a row is skipped exactly
      when one of its required values is missing or fails its converter,
      and the count returned is the number inserted. */
  function ImportCsv(header: Option<seq<string>>, rows: seq<Row>, fields: seq<string>, typeMap: map<string, Conv>): (r: ImportReport)
    ensures !HeaderAccepted(header, fields) ==> r == ImportReport(0, [], [])
    ensures HeaderAccepted(header, fields) ==> r.inserted + |r.skipped| == |rows|
    ensures r.inserted == |r.written| <= |rows|
    ensures HeaderAccepted(header, fields) ==>
              forall k :: k in r.skipped <==>
                1 <= k <= |rows| && RowValues(rows[k - 1], fields, typeMap).None?
  {
    if HeaderAccepted(header, fields) then ImportRows(rows, fields, typeMap, 1)
    else ImportReport(0, [], [])
  }

  /** Rows read under an acceptable header always hold every required
      field, so only a failed conversion can skip one, and an empty cell
      never does. */
  lemma ImportedRowKeys(header: seq<string>, rec: seq<string>, fields: seq<string>, typeMap: map<string, Conv>)
    requires HeaderAccepted(Some(header), fields)
    requires forall f :: f in fields && f in typeMap ==> Convert(typeMap[f], DictRow(header, rec)[f]).Some?
    ensures RowValues(DictRow(header, rec), fields, typeMap).Some?
  {
    var row := DictRow(header, rec);
    forall f | f in fields
      ensures f in row
    {
      var i :| 0 <= i < |header| && header[i] == f;
      assert f in Names(header);
    }
  }

  // ---------------------------------------------------------------------
  // delete_farm

  /** A row of `climate_data` or `agri_metrics`: the farm it belongs to and
      the day it describes; the measurements themselves do not matter here. */
  datatype DataRow = DataRow(farmId: int, date: string)

  datatype Tables = Tables(farms: seq<Farm>, climate: seq<DataRow>, agri: seq<DataRow>)

  function OtherFarm(id: int): Farm -> bool {
    (f: Farm) => f.id != id
  }

  function OtherData(id: int): DataRow -> bool {
    (d: DataRow) => d.farmId != id
  }

  /** `delete_farm`: the three deletes keyed on the farm id. */
  function DeleteFarm(t: Tables, id: int): (r: Tables)
    ensures forall f :: f in r.farms ==> f.id != id
    ensures forall d :: d in r.climate + r.agri ==> d.farmId != id
    ensures forall f :: f in t.farms && f.id != id ==> f in r.farms
    ensures forall d :: d in t.climate && d.farmId != id ==> d in r.climate
    ensures forall d :: d in t.agri && d.farmId != id ==> d in r.agri
  {
    Tables(Filter(OtherFarm(id), t.farms), Filter(OtherData(id), t.climate), Filter(OtherData(id), t.agri))
  }

  /** The rows of every other farm come through a deletion exactly as they
      were: same rows, same order, in all three tables. */
  lemma DeleteKeepsOthers(t: Tables, id: int, other: int)
    requires other != id
    ensures var r := DeleteFarm(t, id);
            && Filter((d: DataRow) => d.farmId == other, r.climate) == Filter((d: DataRow) => d.farmId == other, t.climate)
            && Filter((d: DataRow) => d.farmId == other, r.agri) == Filter((d: DataRow) => d.farmId == other, t.agri)
            && Filter((f: Farm) => f.id == other, r.farms) == Filter((f: Farm) => f.id == other, t.farms)
  {
    FilterNarrow(OtherData(id), (d: DataRow) => d.farmId == other, t.climate);
    FilterNarrow(OtherData(id), (d: DataRow) => d.farmId == other, t.agri);
    FilterNarrow(OtherFarm(id), (f: Farm) => f.id == other, t.farms);
  }

  /** Deleting a farm twice is deleting it once. */
  lemma DeleteIdempotent(t: Tables, id: int)
    ensures DeleteFarm(DeleteFarm(t, id), id) == DeleteFarm(t, id)
  {
    FilterNarrow(OtherData(id), OtherData(id), t.climate);
    FilterNarrow(OtherData(id), OtherData(id), t.agri);
    FilterNarrow(OtherFarm(id), OtherFarm(id), t.farms);
  }
}
