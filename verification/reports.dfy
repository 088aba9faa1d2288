/** The report page apart from its scheduler: which columns a report
    template selects, how choosing a template sets the custom field list,
    the date-order guard of report generation, and the user list offered
    for reports. */
module Reports {
  import opened Outcomes
  import opened Text
  import opened Seqs
  import opened Dates
  import opened DateRange

  // ---------------------------------------------------------------------
  // Templates

  /** The entries of the read-only template box. */
  datatype Template = Standard | YieldFocused | ClimateTrends | Customize | Minimal | RainfallOnly | AnomalyDetection

  /** The report columns the built-in templates draw from. */
  datatype Column = Day | TempMax | TempMin | Rainfall | DailyGdd | EffectiveRainfall | CumulativeGdd

  function ColumnName(c: Column): string {
    match c
    case Day => "date"
    case TempMax => "temp_max"
    case TempMin => "temp_min"
    case Rainfall => "rainfall"
    case DailyGdd => "daily_gdd"
    case EffectiveRainfall => "effective_rainfall"
    case CumulativeGdd => "cumulative_gdd"
  }

  function Names(cs: seq<Column>): (r: seq<string>)
    ensures |r| == |cs|
    ensures forall i :: 0 <= i < |cs| ==> r[i] == ColumnName(cs[i])
  {
    seq(|cs|, i requires 0 <= i < |cs| => ColumnName(cs[i]))
  }

  const StandardColumns: seq<Column> := [Day, TempMax, TempMin, Rainfall, DailyGdd, EffectiveRainfall, CumulativeGdd]
  const GddColumns: seq<Column> := [Day, TempMax, Rainfall, CumulativeGdd]
  const TrendColumns: seq<Column> := [Day, TempMax, TempMin, Rainfall]

  /** The template box and the custom field list it may have set. */
  datatype Choice = Choice(template: Template, custom: Option<seq<string>>)

  /** `get_template_fields`: a non-empty custom list wins; otherwise the
      template's own columns, anything unrecognised meaning Standard. */
  function TemplateFields(c: Choice): seq<string> {
    if c.custom.Some? && |c.custom.value| > 0 then c.custom.value
    else match c.template
      case YieldFocused => Names(GddColumns)
      case ClimateTrends => Names(TrendColumns)
      case AnomalyDetection => Names(GddColumns)
      case _ => Names(StandardColumns)
  }

  /** The columns a template selects when no custom list is set. */
  function BuiltinColumns(t: Template): seq<Column> {
    match t
    case YieldFocused => GddColumns
    case ClimateTrends => TrendColumns
    case AnomalyDetection => GddColumns
    case _ => StandardColumns
  }

  /** Without a custom list every template reports a selection of the
      Standard columns, in the Standard order, always starting with the
      date and never repeating a column. */
  lemma BuiltinWithinStandard(t: Template)
    ensures TemplateFields(Choice(t, None)) == Names(BuiltinColumns(t))
    ensures IsSubseq(BuiltinColumns(t), StandardColumns)
    ensures BuiltinColumns(t)[0] == Day && NoDup(BuiltinColumns(t))
  {
    match t
    case YieldFocused => GddWithinStandard(); GddNoDup();
    case AnomalyDetection => GddWithinStandard(); GddNoDup();
    case ClimateTrends => TrendWithinStandard(); TrendNoDup();
    case _ => SubseqRefl(StandardColumns); StandardNoDup();
  }

  lemma StandardNoDup()
    ensures NoDup(StandardColumns)
  {
  }

  lemma GddNoDup()
    ensures NoDup(GddColumns)
  {
  }

  lemma TrendNoDup()
    ensures NoDup(TrendColumns)
  {
  }

  lemma GddWithinStandard()
    ensures IsSubseq(GddColumns, StandardColumns)
  {
    var s := StandardColumns;
    assert IsSubseq([CumulativeGdd], [CumulativeGdd]);
    assert IsSubseq([CumulativeGdd], [EffectiveRainfall, CumulativeGdd]);
    assert IsSubseq([CumulativeGdd], [DailyGdd, EffectiveRainfall, CumulativeGdd]);
    assert IsSubseq([Rainfall, CumulativeGdd], s[3..]);
    assert IsSubseq([Rainfall, CumulativeGdd], s[2..]);
    assert IsSubseq([TempMax, Rainfall, CumulativeGdd], s[1..]);
  }

  lemma TrendWithinStandard()
    ensures IsSubseq(TrendColumns, StandardColumns)
  {
    var s := StandardColumns;
    assert IsSubseq([], s[4..]);
    assert IsSubseq([Rainfall], s[3..]);
    assert IsSubseq([TempMin, Rainfall], s[2..]);
    assert IsSubseq([TempMax, TempMin, Rainfall], s[1..]);
  }

  lemma {:induction false} SubseqRefl<T>(s: seq<T>)
    ensures IsSubseq(s, s)
    decreases |s|
  {
    if |s| > 0 {
      SubseqRefl(s[1..]);
    }
  }

  /** `handle_custom_template`, with the text the dialog returned (`None`
      when it was cancelled).  Customize with text sets the comma-separated,
      stripped fields; Customize without text falls back to Standard; the
      fixed templates set their own list; the others clear it. */
  function ChooseTemplate(t: Template, dialog: Option<string>): (r: Choice)
    ensures t != Customize ==> r.template == t
    ensures t == Customize && dialog.Some? && dialog.value != "" ==>
              r.template == Customize && r.custom.Some?
              && |r.custom.value| == |SplitOn(dialog.value, ',')|
              && forall i :: 0 <= i < |r.custom.value| ==> r.custom.value[i] == Strip(SplitOn(dialog.value, ',')[i])
    ensures t == Customize && (dialog.None? || dialog.value == "") ==> r == Choice(Standard, None)
    ensures t in {Standard, YieldFocused, ClimateTrends} ==> r.custom == None
  {
    match t
    case Customize =>
      if dialog.Some? && dialog.value != "" then
        var parts := SplitOn(dialog.value, ',');
        Choice(t, Some(seq(|parts|, i requires 0 <= i < |parts| => Strip(parts[i]))))
      else Choice(Standard, None)
    case Minimal => Choice(t, Some(Names([Day, TempMax])))
    case RainfallOnly => Choice(t, Some(Names([Day, Rainfall])))
    case AnomalyDetection => Choice(t, Some(Names(GddColumns)))
    case _ => Choice(t, None)
  }

  /** After a choice in the template box the report uses: for Customize
      with text, one stripped field per comma-separated piece; for
      Customize cancelled or empty, the Standard columns; for every other
      template a fixed selection of the Standard columns. */
  lemma FieldsAfterChoice(t: Template, dialog: Option<string>)
    ensures var f := TemplateFields(ChooseTemplate(t, dialog));
            && (t == Customize && dialog.Some? && dialog.value != "" ==>
                  f == ChooseTemplate(t, dialog).custom.value && |f| == |SplitOn(dialog.value, ',')|)
            && (t == Customize && (dialog.None? || dialog.value == "") ==> f == Names(StandardColumns))
            && (t == Minimal ==> f == Names([Day, TempMax]))
            && (t == RainfallOnly ==> f == Names([Day, Rainfall]))
            && (t != Customize && t != Minimal && t != RainfallOnly ==> f == Names(BuiltinColumns(t)))
  {
  }

  // ---------------------------------------------------------------------
  // Report generation

  /** One entry of `report_data`: a row the query gave (its fields in
      template order), with the farm's name and the current user. */
  datatype Entry = Entry(farm: string, user: string, row: seq<string>)

  /** How generation ended.  `Raised` is the `ValueError` that leaves
      `generate_report` part-way through its farm loop. */
  datatype Outcome = WidgetGone | NoFarmSelected | DateError | NoData | Built | Raised

  /** What the report reads: the date-range query of one farm, the farm
      name lookup, and whether `np.array(rows, dtype=float)` accepts a
      farm's rows. */
  datatype Source = Source(fetch: (int, seq<Param>) -> seq<seq<string>>,
                           name: int -> Option<string>,
                           toFloats: seq<seq<string>> -> bool)

  /** The rows one farm's query returns, the stripped dates bounding it. */
  function FarmRows(src: Source, farm: int, start: string, end: string): seq<seq<string>> {
    src.fetch(farm, RangeParams(farm, Some(start), Some(end)))
  }

  /** The farm column: the name found, or "Farm". */
  function FarmLabel(name: Option<string>): string {
    if name.Some? then name.value else "Farm"
  }

  /** The user column: `current_user.get("username", "N/A")`. */
  function UserLabel(user: Option<string>): string {
    if user.Some? then user.value else "N/A"
  }

  function EntriesOf(farm: string, user: string, rows: seq<seq<string>>): (r: seq<Entry>)
    ensures |r| == |rows|
    ensures forall i :: 0 <= i < |rows| ==> r[i] == Entry(farm, user, rows[i])
  {
    seq(|rows|, i requires 0 <= i < |rows| => Entry(farm, user, rows[i]))
  }

  /** Whether the summary statistics of a farm's rows go through: the rows
      convert to a float array and "date" is a field (`fields.index`
      raises otherwise). */
  predicate StatsOk(src: Source, fields: seq<string>, rows: seq<seq<string>>) {
    src.toFloats(rows) && "date" in fields
  }

  /** The farm loop of `generate_report` as written: a farm without rows is
      skipped; a farm with rows appends its entries and then computes its
      statistics, which raise unless `StatsOk`.  Gives whether the loop
      raised and the entries appended until then. */
  function Collect(farms: seq<int>, start: string, end: string, fields: seq<string>,
                   user: Option<string>, src: Source): (r: (bool, seq<Entry>))
    ensures r.0 ==> |r.1| > 0
    ensures forall i :: 0 <= i < |r.1| ==> r.1[i].user == UserLabel(user)
    decreases |farms|
  {
    if |farms| == 0 then (false, [])
    else
      var rows := FarmRows(src, farms[0], start, end);
      if rows == [] then Collect(farms[1..], start, end, fields, user, src)
      else
        var es := EntriesOf(FarmLabel(src.name(farms[0])), UserLabel(user), rows);
        if !StatsOk(src, fields, rows) then (true, es)
        else
          var rest := Collect(farms[1..], start, end, fields, user, src);
          (rest.0, es + rest.1)
  }

  /** The early returns of `generate_report`: a widget already gone, no
      farm selected, or two stripped, non-empty dates with the start after
      the end (compared as text). */
  function ReportGuard(widgetExists: bool, farms: seq<int>, startText: string, endText: string): (r: Option<Outcome>)
    ensures r.Some? ==> r.value in {WidgetGone, NoFarmSelected, DateError}
    ensures r == Some(WidgetGone) <==> !widgetExists
    ensures r == Some(NoFarmSelected) <==> widgetExists && farms == []
    ensures r == Some(DateError) <==>
              widgetExists && farms != [] && Strip(startText) != "" && Strip(endText) != ""
              && LexLess(Strip(endText), Strip(startText))
  {
    if !widgetExists then Some(WidgetGone)
    else if farms == [] then Some(NoFarmSelected)
    else if Strip(startText) != "" && Strip(endText) != "" && LexLess(Strip(endText), Strip(startText)) then Some(DateError)
    else None
  }

  /** `generate_report` up to filling `report_data`, as written: after the
      guards the old data is cleared and the farm loop runs; it either
      raises, leaving the entries appended so far, or ends with no data or
      a built report. */
  function GenerateReport(widgetExists: bool, farms: seq<int>, startText: string, endText: string,
                          data: seq<Entry>, choice: Choice, user: Option<string>, src: Source): (r: (Outcome, seq<Entry>))
    ensures ReportGuard(widgetExists, farms, startText, endText).Some? ==>
              r == (ReportGuard(widgetExists, farms, startText, endText).value, data)
    ensures ReportGuard(widgetExists, farms, startText, endText).None? ==>
              var c := Collect(farms, Strip(startText), Strip(endText), TemplateFields(choice), user, src);
              r.1 == c.1 && (r.0 == Raised <==> c.0) && (r.0 == NoData <==> !c.0 && c.1 == [])
              && r.0 in {NoData, Built, Raised}
  {
    var g := ReportGuard(widgetExists, farms, startText, endText);
    if g.Some? then (g.value, data)
    else
      var c := Collect(farms, Strip(startText), Strip(endText), TemplateFields(choice), user, src);
      (if c.0 then Raised else if c.1 == [] then NoData else Built, c.1)
  }

  /** When no farm's rows convert to floats (the date column holds
      `YYYY-MM-DD` text), the loop raises exactly when some farm has rows,
      and what it leaves is the entries of the first such farm alone. */
  lemma {:induction false} RaisesAtFirstFarmWithRows(farms: seq<int>, start: string, end: string, fields: seq<string>,
                                                      user: Option<string>, src: Source)
    requires forall rows :: rows != [] ==> !src.toFloats(rows)
    ensures var c := Collect(farms, start, end, fields, user, src);
            && (c.0 <==> exists i :: 0 <= i < |farms| && FarmRows(src, farms[i], start, end) != [])
            && (!c.0 ==> c.1 == [])
            && (c.0 ==> exists i :: 0 <= i < |farms| && FarmRows(src, farms[i], start, end) != []
                          && (forall j :: 0 <= j < i ==> FarmRows(src, farms[j], start, end) == [])
                          && c.1 == EntriesOf(FarmLabel(src.name(farms[i])), UserLabel(user), FarmRows(src, farms[i], start, end)))
    decreases |farms|
  {
    if |farms| > 0 {
      var rows := FarmRows(src, farms[0], start, end);
      if rows == [] {
        RaisesAtFirstFarmWithRows(farms[1..], start, end, fields, user, src);
        var c := Collect(farms[1..], start, end, fields, user, src);
        if c.0 {
          var i :| 0 <= i < |farms[1..]| && FarmRows(src, farms[1..][i], start, end) != []
                   && (forall j :: 0 <= j < i ==> FarmRows(src, farms[1..][j], start, end) == [])
                   && c.1 == EntriesOf(FarmLabel(src.name(farms[1..][i])), UserLabel(user), FarmRows(src, farms[1..][i], start, end));
          assert farms[i + 1] == farms[1..][i];
          forall j | 0 <= j < i + 1
            ensures FarmRows(src, farms[j], start, end) == []
          {
            if j > 0 {
              assert farms[j] == farms[1..][j - 1];
            }
          }
        } else {
          forall i | 0 <= i < |farms|
            ensures FarmRows(src, farms[i], start, end) == []
          {
            if i > 0 {
              assert farms[i] == farms[1..][i - 1];
            }
          }
        }
      }
    }
  }

  /** The smallest report that shows it: one farm with one row, the
      default template, no dates.  The program raises instead of building
      the report. */
  lemma ReportWithDataRaises(farm: int, row: seq<string>, data: seq<Entry>, user: Option<string>, src: Source)
    requires src.fetch(farm, [FarmId(farm)]) == [row]
    requires !src.toFloats([row])
    ensures GenerateReport(true, [farm], "", "", data, Choice(Standard, None), user, src).0 == Raised
  {
    assert RangeParams(farm, Some(""), Some("")) == [FarmId(farm)];
    assert Strip("") == "";
  }

  /** The intended farm loop: every farm's rows are added, in farm order,
      and the statistics never abort the report. */
  function CollectAll(farms: seq<int>, start: string, end: string, user: Option<string>, src: Source): (r: seq<Entry>)
    ensures forall i :: 0 <= i < |r| ==> r[i].user == UserLabel(user)
    decreases |farms|
  {
    if |farms| == 0 then []
    else
      EntriesOf(FarmLabel(src.name(farms[0])), UserLabel(user), FarmRows(src, farms[0], start, end))
        + CollectAll(farms[1..], start, end, user, src)
  }

  /** Corrected `generate_report`: the same guards, then the entries of
      every selected farm; a report is built exactly when some farm has
      rows. */
  function GenerateReportFixed(widgetExists: bool, farms: seq<int>, startText: string, endText: string,
                               data: seq<Entry>, user: Option<string>, src: Source): (r: (Outcome, seq<Entry>))
    ensures r.0 != Raised
    ensures ReportGuard(widgetExists, farms, startText, endText).Some? ==>
              r == (ReportGuard(widgetExists, farms, startText, endText).value, data)
    ensures ReportGuard(widgetExists, farms, startText, endText).None? ==>
              r.1 == CollectAll(farms, Strip(startText), Strip(endText), user, src)
              && (r.0 == Built <==> r.1 != []) && r.0 in {NoData, Built}
  {
    var g := ReportGuard(widgetExists, farms, startText, endText);
    if g.Some? then (g.value, data)
    else
      var es := CollectAll(farms, Strip(startText), Strip(endText), user, src);
      (if es == [] then NoData else Built, es)
  }

  /** The corrected report holds every row of every selected farm, under
      that farm's name ... */
  lemma {:induction false} CollectAllComplete(farms: seq<int>, start: string, end: string, user: Option<string>, src: Source,
                                              i: nat, row: seq<string>)
    requires i < |farms| && row in FarmRows(src, farms[i], start, end)
    ensures Entry(FarmLabel(src.name(farms[i])), UserLabel(user), row) in CollectAll(farms, start, end, user, src)
    decreases |farms|
  {
    var head := EntriesOf(FarmLabel(src.name(farms[0])), UserLabel(user), FarmRows(src, farms[0], start, end));
    if i == 0 {
      var k :| 0 <= k < |FarmRows(src, farms[0], start, end)| && FarmRows(src, farms[0], start, end)[k] == row;
      assert head[k] == Entry(FarmLabel(src.name(farms[0])), UserLabel(user), row);
    } else {
      assert farms[i] == farms[1..][i - 1];
      CollectAllComplete(farms[1..], start, end, user, src, i - 1, row);
    }
  }

  /** ... and nothing else: every entry is a row of a selected farm. */
  lemma {:induction false} CollectAllSound(farms: seq<int>, start: string, end: string, user: Option<string>, src: Source, k: nat)
    requires k < |CollectAll(farms, start, end, user, src)|
    ensures exists i :: 0 <= i < |farms|
              && CollectAll(farms, start, end, user, src)[k].row in FarmRows(src, farms[i], start, end)
              && CollectAll(farms, start, end, user, src)[k].farm == FarmLabel(src.name(farms[i]))
    decreases |farms|
  {
    var rows := FarmRows(src, farms[0], start, end);
    var head := EntriesOf(FarmLabel(src.name(farms[0])), UserLabel(user), rows);
    var all := CollectAll(farms, start, end, user, src);
    if k < |head| {
      assert all[k] == head[k];
      assert rows[k] in rows;
    } else {
      var rest := CollectAll(farms[1..], start, end, user, src);
      assert all[k] == rest[k - |head|];
      CollectAllSound(farms[1..], start, end, user, src, k - |head|);
      var i :| 0 <= i < |farms[1..]| && rest[k - |head|].row in FarmRows(src, farms[1..][i], start, end)
               && rest[k - |head|].farm == FarmLabel(src.name(farms[1..][i]));
      assert farms[1..][i] == farms[i + 1];
    }
  }

  /** Where the statistics never raise, the program as written and the
      corrected one build the same report. */
  lemma {:induction false} AgreeWhenStatsOk(farms: seq<int>, start: string, end: string, fields: seq<string>,
                                             user: Option<string>, src: Source)
    requires forall rows :: StatsOk(src, fields, rows)
    ensures Collect(farms, start, end, fields, user, src) == (false, CollectAll(farms, start, end, user, src))
    decreases |farms|
  {
    if |farms| > 0 {
      AgreeWhenStatsOk(farms[1..], start, end, fields, user, src);
      var es := EntriesOf(FarmLabel(src.name(farms[0])), UserLabel(user), FarmRows(src, farms[0], start, end));
      assert FarmRows(src, farms[0], start, end) == [] ==> es + CollectAll(farms[1..], start, end, user, src) == CollectAll(farms[1..], start, end, user, src);
    }
  }

  /** For dates typed as `YYYY-MM-DD` the text guard rejects exactly the
      ranges whose end day comes before the start day on the calendar; a
      range of one day passes. */
  lemma DateGuardIsCalendarOrder(farms: seq<int>, s: Date, e: Date)
    requires ValidDate(s) && ValidDate(e) && farms != []
    ensures ReportGuard(true, farms, FormatDate(s), FormatDate(e)) == Some(DateError) <==> Before(e, s)
  {
    var a, b := FormatDate(s), FormatDate(e);
    assert |a| == 10 && |b| == 10;
    assert a[0] == Pad(s.year, 4)[0] && a[9] == Pad(s.day, 2)[1];
    assert b[0] == Pad(e.year, 4)[0] && b[9] == Pad(e.day, 2)[1];
    StripTrimmed(a);
    StripTrimmed(b);
    IsoTextOrder(e, s);
  }

  // ---------------------------------------------------------------------
  // The user list

  /** Strictly increasing in text order: sorted and free of duplicates. */
  predicate StrictlySorted(s: seq<string>) {
    forall i, j :: 0 <= i < j < |s| ==> LexLess(s[i], s[j])
  }

  /** The names a list holds. */
  function Members(s: seq<string>): set<string> {
    set x | x in s
  }

  /** Place `x` into a strictly sorted list, unless it is already there. */
  function Insert(x: string, s: seq<string>): (r: seq<string>)
    requires StrictlySorted(s)
    ensures StrictlySorted(r)
    ensures Members(r) == Members(s) + {x}
    decreases |s|
  {
    if |s| == 0 then [x]
    else if x == s[0] then s
    else if LexLess(x, s[0]) then
      assert forall j :: 0 <= j < |s| ==> LexLess(x, s[j]) by {
        forall j | 0 <= j < |s|
          ensures LexLess(x, s[j])
        {
          if j > 0 {
            LexTransitive(x, s[0], s[j]);
          }
        }
      }
      [x] + s
    else
      assert LexLess(s[0], x) by {
        LexTrichotomy(x, s[0]);
      }
      var rest := Insert(x, s[1..]);
      assert s == [s[0]] + s[1..];
      assert Members(s) == {s[0]} + Members(s[1..]);
      assert forall j :: 0 <= j < |rest| ==> LexLess(s[0], rest[j]) by {
        forall j | 0 <= j < |rest|
          ensures LexLess(s[0], rest[j])
        {
          assert rest[j] in Members(rest);
        }
      }
      assert Members([s[0]] + rest) == {s[0]} + Members(rest);
      [s[0]] + rest
  }

  /** `sorted(set(names))`. */
  function SortedSet(names: seq<string>): (r: seq<string>)
    ensures StrictlySorted(r)
    ensures Members(r) == Members(names)
    decreases |names|
  {
    if |names| == 0 then []
    else
      var init := names[..|names| - 1];
      assert names == init + [names[|names| - 1]];
      assert Members(names) == Members(init) + {names[|names| - 1]};
      Insert(names[|names| - 1], SortedSet(init))
  }

  /** The fixed names the page offers next to the current user's. */
  const DemoUsers: seq<string> := ["admin", "alice", "bob", "charlie"]

  /** The user box after `load_users`: its values and its selection. */
  datatype UserBox = UserBox(values: seq<string>, selected: string)

  /** `load_users`: the demo names plus the current user's name (`Guest`
      when the user record has none), sorted without duplicates, with the
      current name selected. */
  function LoadUsers(current: Option<string>): (r: UserBox)
    ensures StrictlySorted(r.values) && r.selected in r.values
    ensures Members(r.values) == Members(DemoUsers) + {r.selected}
    ensures r.selected == if current.Some? then current.value else "Guest"
  {
    var name := if current.Some? then current.value else "Guest";
    var all := DemoUsers + [name];
    var values := SortedSet(all);
    assert Members(all) == Members(DemoUsers) + {name};
    assert name in Members(values);
    UserBox(values, name)
  }

  /** Loading the users again after selecting one from the box offers the
      same list: the selection is always among the names already there. */
  lemma LoadUsersStable(current: Option<string>)
    ensures var b := LoadUsers(current);
            LoadUsers(Some(b.selected)).values == b.values
  {
    var b := LoadUsers(current);
    var b2 := LoadUsers(Some(b.selected));
    SortedUnique(b.values, b2.values);
  }

  /** Two strictly sorted lists of the same names are the same list. */
  lemma {:induction false} SortedUnique(a: seq<string>, b: seq<string>)
    requires StrictlySorted(a) && StrictlySorted(b)
    requires Members(a) == Members(b)
    ensures a == b
    decreases |a|
  {
    FirstMember(b);
    if |a| > 0 {
      assert a[0] in Members(b);
      assert b[0] in Members(a);
      var j :| 0 <= j < |b| && b[j] == a[0];
      var k :| 0 <= k < |a| && a[k] == b[0];
      if j > 0 {
        assert LexLess(b[0], a[0]);
        if k > 0 {
          LexAsymmetric(a[0], b[0]);
        } else {
          LexIrreflexive(a[0]);
        }
      }
      assert a[0] == b[0];
      assert a == [a[0]] + a[1..] && b == [b[0]] + b[1..];
      assert Members(a[1..]) == Members(a) - {a[0]} by {
        assert Members(a) == {a[0]} + Members(a[1..]);
        assert a[0] !in Members(a[1..]) by {
          if a[0] in a[1..] {
            var i :| 0 <= i < |a[1..]| && a[1..][i] == a[0];
            assert LexLess(a[0], a[i + 1]);
            LexIrreflexive(a[0]);
          }
        }
      }
      assert Members(b[1..]) == Members(b) - {b[0]} by {
        assert Members(b) == {b[0]} + Members(b[1..]);
        assert b[0] !in Members(b[1..]) by {
          if b[0] in b[1..] {
            var i :| 0 <= i < |b[1..]| && b[1..][i] == b[0];
            assert LexLess(b[0], b[i + 1]);
            LexIrreflexive(b[0]);
          }
        }
      }
      SortedUnique(a[1..], b[1..]);
    }
  }

  lemma FirstMember(s: seq<string>)
    ensures |s| > 0 ==> s[0] in Members(s)
  {
  }
}
