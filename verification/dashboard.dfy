/** The dashboard page: the trend query behind its chart and table (climate
    rows of the selected farm, left-joined with their agricultural metrics
    and bounded by the date filter), the alert scan over the latest rows,
    and the normalisation of the date-filter entries.  Temperatures and
    rainfall are exact reals; SQL `NULL` is `None`. */
module Dashboard {
  import opened Outcomes
  import opened Text
  import opened Seqs
  import opened Farms
  import opened DateRange

  /** A row of `climate_data`. */
  datatype Climate = Climate(farm: int, date: string, tempMax: Option<real>, tempMin: Option<real>, rainfall: Option<real>)

  /** A row of `agri_metrics`. */
  datatype Metric = Metric(farm: int, date: string, dailyGdd: Option<real>, effRain: Option<real>, cumGdd: Option<real>)

  /** One row of the joined result, in the column order of the query. */
  datatype Row = Row(date: string, tempMax: Option<real>, tempMin: Option<real>, rain: Option<real>,
                     dailyGdd: Option<real>, effRain: Option<real>, cumGdd: Option<real>)

  // ---------------------------------------------------------------------
  // The joined query

  /** The metrics rows on the same farm and date, in table order.  The
      `agri_metrics` table has no unique key on farm and date, so a day
      imported twice has two of them. */
  function MetricsFor(ms: seq<Metric>, farm: int, date: string): (r: seq<Metric>)
    ensures |r| <= |ms|
    ensures forall m :: m in r <==> m in ms && m.farm == farm && m.date == date
    ensures r == [] <==> forall m :: m in ms ==> !(m.farm == farm && m.date == date)
    decreases |ms|
  {
    if |ms| == 0 then []
    else
      var rest := MetricsFor(ms[1..], farm, date);
      assert forall m :: m in ms[1..] ==> m in ms;
      if ms[0].farm == farm && ms[0].date == date then [ms[0]] + rest else rest
  }

  /** A climate row joined with one metrics row, or with `NULL` metrics. */
  function Pair(c: Climate, m: Option<Metric>): Row {
    match m
    case None => Row(c.date, c.tempMax, c.tempMin, c.rainfall, None, None, None)
    case Some(x) => Row(c.date, c.tempMax, c.tempMin, c.rainfall, x.dailyGdd, x.effRain, x.cumGdd)
  }

  /** `climate_data c LEFT JOIN agri_metrics m ON c.farm_id = m.farm_id AND
      c.date = m.date` for one climate row: one result row per matching
      metrics row, or a single row with `NULL` in the three metric columns
      when none matches. */
  function Join(c: Climate, ms: seq<Metric>): (rs: seq<Row>)
    ensures var found := MetricsFor(ms, c.farm, c.date);
            |rs| == if |found| == 0 then 1 else |found|
    ensures forall i :: 0 <= i < |rs| ==>
              rs[i].date == c.date && rs[i].tempMax == c.tempMax && rs[i].tempMin == c.tempMin && rs[i].rain == c.rainfall
    ensures MetricsFor(ms, c.farm, c.date) == [] ==> rs[0] == Pair(c, None)
    ensures forall i :: 0 <= i < |MetricsFor(ms, c.farm, c.date)| ==> rs[i] == Pair(c, Some(MetricsFor(ms, c.farm, c.date)[i]))
  {
    var found := MetricsFor(ms, c.farm, c.date);
    if |found| == 0 then [Pair(c, None)]
    else seq(|found|, i requires 0 <= i < |found| => Pair(c, Some(found[i])))
  }

  /** The `WHERE c.farm_id=? [AND c.date >= ?] [AND c.date <= ?]` part. */
  predicate Selected(c: Climate, farm: int, start: Option<string>, end: Option<string>) {
    c.farm == farm && Keeps(start, end, c.date)
  }

  /** The rows the trend query returns, in table order: the joined rows of
      each selected climate row in turn.  Each passes the date filter;
      which rows they are is `SelectSound` and `SelectComplete`, how many
      is `SelectCount`. */
  function Select(cs: seq<Climate>, ms: seq<Metric>, farm: int, start: Option<string>, end: Option<string>): (rows: seq<Row>)
    ensures forall i :: 0 <= i < |rows| ==> Keeps(start, end, rows[i].date)
    decreases |cs|
  {
    if |cs| == 0 then []
    else
      var rest := Select(cs[1..], ms, farm, start, end);
      if Selected(cs[0], farm, start, end) then Join(cs[0], ms) + rest else rest
  }

  /** Every row returned belongs to the join of a selected climate row. */
  lemma {:induction false} SelectSound(cs: seq<Climate>, ms: seq<Metric>, farm: int, start: Option<string>, end: Option<string>, i: nat)
    requires i < |Select(cs, ms, farm, start, end)|
    ensures exists c :: c in cs && Selected(c, farm, start, end) && Select(cs, ms, farm, start, end)[i] in Join(c, ms)
    decreases |cs|
  {
    var rest := Select(cs[1..], ms, farm, start, end);
    var n := if Selected(cs[0], farm, start, end) then |Join(cs[0], ms)| else 0;
    if i < n {
      assert Select(cs, ms, farm, start, end)[i] == Join(cs[0], ms)[i];
      assert cs[0] in cs;
    } else {
      assert Select(cs, ms, farm, start, end)[i] == rest[i - n];
      SelectSound(cs[1..], ms, farm, start, end, i - n);
      var c :| c in cs[1..] && Selected(c, farm, start, end) && rest[i - n] in Join(c, ms);
      assert c in cs;
    }
  }

  /** Every joined row of every selected climate row is returned. */
  lemma {:induction false} SelectComplete(cs: seq<Climate>, ms: seq<Metric>, farm: int, start: Option<string>, end: Option<string>,
                                          c: Climate, r: Row)
    requires c in cs && Selected(c, farm, start, end) && r in Join(c, ms)
    ensures r in Select(cs, ms, farm, start, end)
    decreases |cs|
  {
    if c != cs[0] {
      assert c in cs[1..];
      SelectComplete(cs[1..], ms, farm, start, end, c, r);
    }
  }

  /** The key `agri_metrics` would need: no two metrics rows share a farm
      and a date. */
  predicate UniqueMetrics(ms: seq<Metric>) {
    forall i, j :: 0 <= i < j < |ms| ==> !(ms[i].farm == ms[j].farm && ms[i].date == ms[j].date)
  }

  lemma {:induction false} UniqueMetricsFor(ms: seq<Metric>, farm: int, date: string)
    requires UniqueMetrics(ms)
    ensures |MetricsFor(ms, farm, date)| <= 1
    decreases |ms|
  {
    if |ms| > 0 {
      assert UniqueMetrics(ms[1..]) by {
        forall a, b | 0 <= a < b < |ms[1..]|
          ensures !(ms[1..][a].farm == ms[1..][b].farm && ms[1..][a].date == ms[1..][b].date)
        {
          assert ms[1..][a] == ms[a + 1] && ms[1..][b] == ms[b + 1];
        }
      }
      UniqueMetricsFor(ms[1..], farm, date);
      if ms[0].farm == farm && ms[0].date == date {
        var rest := MetricsFor(ms[1..], farm, date);
        forall k | 0 <= k < |ms[1..]|
          ensures !(ms[1..][k].farm == farm && ms[1..][k].date == date)
        {
          assert ms[1..][k] == ms[k + 1];
        }
      }
    }
  }

  /** With a unique key on farm and date the query returns exactly one row
      per selected climate row; without it, a day whose metrics were
      imported twice comes back twice. */
  lemma {:induction false} SelectCount(cs: seq<Climate>, ms: seq<Metric>, farm: int, start: Option<string>, end: Option<string>)
    requires UniqueMetrics(ms)
    ensures |Select(cs, ms, farm, start, end)| == Count((c: Climate) => Selected(c, farm, start, end), cs)
    decreases |cs|
  {
    if |cs| > 0 {
      SelectCount(cs[1..], ms, farm, start, end);
      UniqueMetricsFor(ms, cs[0].farm, cs[0].date);
    }
  }

  /** The same day imported twice: two identical metrics rows give two
      result rows for one climate row. */
  lemma DuplicateMetricsDoubleRows(c: Climate, m: Metric)
    requires m.farm == c.farm && m.date == c.date
    ensures Join(c, [m, m]) == [Pair(c, Some(m)), Pair(c, Some(m))]
    ensures |Select([c], [m, m], c.farm, None, None)| == 2
  {
    assert [m, m][1..] == [m];
    assert [m][1..] == [];
    assert MetricsFor([m, m], c.farm, c.date) == [m, m];
    assert Select([c], [m, m], c.farm, None, None) == Join(c, [m, m]) + Select([], [m, m], c.farm, None, None);
  }

  // ---------------------------------------------------------------------
  // get_trends

  /** The seven parallel lists `get_trends` returns. */
  datatype Trends = Trends(dates: seq<string>, tempMax: seq<Option<real>>, tempMin: seq<Option<real>>,
                           rain: seq<Option<real>>, dailyGdd: seq<Option<real>>, effRain: seq<Option<real>>,
                           cumGdd: seq<Option<real>>)

  predicate Parallel(t: Trends) {
    var n := |t.dates|;
    |t.tempMax| == n && |t.tempMin| == n && |t.rain| == n && |t.dailyGdd| == n && |t.effRain| == n && |t.cumGdd| == n
  }

  const NoTrends := Trends([], [], [], [], [], [], [])

  /** Split the rows column by column, keeping their order. */
  function Columns(rows: seq<Row>): (t: Trends)
    ensures Parallel(t) && |t.dates| == |rows|
    ensures forall i :: 0 <= i < |rows| ==>
              t.dates[i] == rows[i].date && t.tempMax[i] == rows[i].tempMax && t.tempMin[i] == rows[i].tempMin
              && t.rain[i] == rows[i].rain && t.dailyGdd[i] == rows[i].dailyGdd
              && t.effRain[i] == rows[i].effRain && t.cumGdd[i] == rows[i].cumGdd
    decreases |rows|
  {
    if |rows| == 0 then NoTrends
    else
      var r, t := rows[0], Columns(rows[1..]);
      Trends([r.date] + t.dates, [r.tempMax] + t.tempMax, [r.tempMin] + t.tempMin, [r.rain] + t.rain,
             [r.dailyGdd] + t.dailyGdd, [r.effRain] + t.effRain, [r.cumGdd] + t.cumGdd)
  }

  /** The table rows: the seven lists zipped back together. */
  function Table(t: Trends): (rows: seq<Row>)
    requires Parallel(t)
    ensures |rows| == |t.dates|
  {
    seq(|t.dates|, i requires 0 <= i < |t.dates| =>
      Row(t.dates[i], t.tempMax[i], t.tempMin[i], t.rain[i], t.dailyGdd[i], t.effRain[i], t.cumGdd[i]))
  }

  /** Zipping the columns back gives the query rows, every one, in order:
      the table shows exactly what the query returned. */
  lemma TableIsQueryRows(rows: seq<Row>)
    ensures Table(Columns(rows)) == rows
  {
    var t := Columns(rows);
    assert forall i :: 0 <= i < |rows| ==> Table(t)[i] == rows[i];
  }

  /** `get_trends`: seven empty lists without a farm; otherwise the
      selected farm's rows within the given bounds, column by column. */
  function GetTrends(farm: Option<int>, start: Option<string>, end: Option<string>,
                     cs: seq<Climate>, ms: seq<Metric>): (t: Trends)
    ensures Parallel(t)
    ensures !Truthy(farm) ==> t == NoTrends
    ensures Truthy(farm) ==> Table(t) == Select(cs, ms, farm.value, start, end)
  {
    if !Truthy(farm) then NoTrends
    else
      var rows := Select(cs, ms, farm.value, start, end);
      TableIsQueryRows(rows);
      Columns(rows)
  }

  /** What the trend query returns is exactly the farm's climate rows whose
      date passes the filter, each as often as the left join repeats it:
      every such row's date is shown, every date shown passes the filter,
      and with one metrics row per farm and date at most, there is one
      entry per selected climate row. */
  lemma TrendsExact(farm: int, start: Option<string>, end: Option<string>, cs: seq<Climate>, ms: seq<Metric>, c: Climate)
    requires farm != 0 && c in cs
    ensures Selected(c, farm, start, end) ==> c.date in GetTrends(Some(farm), start, end, cs, ms).dates
    ensures forall d :: d in GetTrends(Some(farm), start, end, cs, ms).dates ==> Keeps(start, end, d)
    ensures UniqueMetrics(ms) ==>
              |GetTrends(Some(farm), start, end, cs, ms).dates| == Count((x: Climate) => Selected(x, farm, start, end), cs)
  {
    var rows := Select(cs, ms, farm, start, end);
    var t := Columns(rows);
    assert GetTrends(Some(farm), start, end, cs, ms) == t;
    if Selected(c, farm, start, end) {
      var r := Join(c, ms)[0];
      SelectComplete(cs, ms, farm, start, end, c, r);
      SelectedShown(rows, t, r);
    }
    forall d | d in t.dates
      ensures Keeps(start, end, d)
    {
      var k :| 0 <= k < |t.dates| && t.dates[k] == d;
      assert rows[k].date == d;
    }
    if UniqueMetrics(ms) {
      SelectCount(cs, ms, farm, start, end);
    }
  }

  lemma SelectedShown(rows: seq<Row>, t: Trends, r: Row)
    requires t == Columns(rows) && r in rows
    ensures r.date in t.dates
  {
    var k :| 0 <= k < |rows| && rows[k] == r;
    assert t.dates[k] == r.date;
  }

  // ---------------------------------------------------------------------
  // apply_date_filter

  /** A filter entry: stripped, and `None` when nothing is left. */
  function Normalize(text: string): (b: Option<string>)
    ensures b.None? <==> AllSpace(text)
    ensures b.Some? ==> b.value == Strip(text) && b.value != ""
  {
    var s := Strip(text);
    if s == "" then None else Some(s)
  }

  /** `apply_date_filter`: both entries normalised, then the chart update. */
  function ApplyDateFilter(farm: Option<int>, startText: string, endText: string,
                           cs: seq<Climate>, ms: seq<Metric>): Trends
  {
    GetTrends(farm, Normalize(startText), Normalize(endText), cs, ms)
  }

  /** A normalised entry is given exactly when it is present, and
      normalising it again changes nothing. */
  lemma NormalizeStable(text: string)
    ensures Given(Normalize(text)) <==> Normalize(text).Some?
    ensures Normalize(text).Some? ==> Normalize(Normalize(text).value) == Normalize(text)
  {
    StripIdempotent(text);
  }

  /** Whitespace-only entries filter nothing, and whitespace around a date
      does not change which rows the filter keeps. */
  lemma BlankFilterIsNoFilter(farm: Option<int>, startText: string, endText: string, pre: string, post: string,
                              cs: seq<Climate>, ms: seq<Metric>)
    requires AllSpace(startText) && AllSpace(endText)
    ensures ApplyDateFilter(farm, startText, endText, cs, ms) == GetTrends(farm, None, None, cs, ms)
    ensures ApplyDateFilter(farm, startText, endText, cs, ms) == ApplyDateFilter(farm, pre + startText, post, cs, ms)
            || !AllSpace(pre) || !AllSpace(post)
  {
    if AllSpace(pre) && AllSpace(post) {
      assert AllSpace(pre + startText);
    }
  }

  /** An entry that strips to a date selects the same rows as the bare
      date, whichever bound it is typed into (with the other entry left
      blank); by `Text.StripAround` this covers a date padded with blanks. */
  lemma StrippedDateSameRows(farm: Option<int>, entry: string, blank: string, date: string, cs: seq<Climate>, ms: seq<Metric>)
    requires date != "" && Strip(entry) == date && AllSpace(blank)
    ensures ApplyDateFilter(farm, entry, blank, cs, ms) == GetTrends(farm, Some(date), None, cs, ms)
    ensures ApplyDateFilter(farm, blank, entry, cs, ms) == GetTrends(farm, None, Some(date), cs, ms)
  {
  }

  // ---------------------------------------------------------------------
  // show_alerts

  const TempAlertThreshold: real := 35.0
  const RainAlertThreshold: real := 5.0
  const AlertWindow := 20

  /** A temperature alert: a recorded maximum above the threshold. */
  predicate Hot(r: Row) {
    r.tempMax.Some? && r.tempMax.value > TempAlertThreshold
  }

  /** A rain alert: a recorded effective rainfall below the threshold. */
  predicate Dry(r: Row) {
    r.effRain.Some? && r.effRain.value < RainAlertThreshold
  }

  /** The alert query's rows: the first twenty of the farm's joined rows
      (`LIMIT 20`). */
  function Latest(rows: seq<Row>): (r: seq<Row>)
    ensures |r| <= AlertWindow && |r| <= |rows|
    ensures r == rows[..|r|]
    ensures |rows| <= AlertWindow ==> r == rows
    ensures |rows| > AlertWindow ==> |r| == AlertWindow
  {
    if |rows| <= AlertWindow then rows else rows[..AlertWindow]
  }

  datatype Alerts = NoFarmSelected | AllNormal | Warning(hot: seq<Row>, dry: seq<Row>)

  /** The verdict on the alert query's rows. */
  function Classify(results: seq<Row>): (a: Alerts)
    ensures !a.NoFarmSelected?
    ensures a.Warning? ==> |a.hot| + |a.dry| > 0 && |a.hot| <= |results| && |a.dry| <= |results|
  {
    var hot := Filter(Hot, results);
    var dry := Filter(Dry, results);
    if |hot| == 0 && |dry| == 0 then AllNormal else Warning(hot, dry)
  }

  /** `show_alerts`: warn that no farm is selected, report that all is
      normal, or warn with the hot and the dry rows among the latest
      twenty, each list in the query's order. */
  function ShowAlerts(farm: Option<int>, cs: seq<Climate>, ms: seq<Metric>): (a: Alerts)
    ensures a.NoFarmSelected? <==> !Truthy(farm)
    ensures a.Warning? ==> |a.hot| + |a.dry| > 0 && |a.hot| <= AlertWindow && |a.dry| <= AlertWindow
  {
    if !Truthy(farm) then NoFarmSelected
    else Classify(Latest(Select(cs, ms, farm.value, None, None)))
  }

  /** The alerts are exactly right: the page reports all normal precisely
      when no row is hot or dry, and otherwise a row is listed as hot (dry)
      precisely when it is among the results and hot (dry). */
  lemma ClassifyExact(results: seq<Row>, r: Row)
    ensures Classify(results).AllNormal? <==> forall i :: 0 <= i < |results| ==> !Hot(results[i]) && !Dry(results[i])
    ensures Classify(results).Warning? ==> (r in Classify(results).hot <==> r in results && Hot(r))
    ensures Classify(results).Warning? ==> (r in Classify(results).dry <==> r in results && Dry(r))
  {
    var hot := Filter(Hot, results);
    var dry := Filter(Dry, results);
    if |hot| == 0 && |dry| == 0 {
      forall i | 0 <= i < |results|
        ensures !Hot(results[i]) && !Dry(results[i])
      {
        var x := results[i];
        assert x !in hot && x !in dry;
      }
    } else {
      if |hot| > 0 {
        assert hot[0] in results && Hot(hot[0]);
      } else {
        assert dry[0] in results && Dry(dry[0]);
      }
      if r in hot {
        var k :| 0 <= k < |hot| && hot[k] == r;
      }
      if r in dry {
        var k :| 0 <= k < |dry| && dry[k] == r;
      }
    }
  }

  /** What the page shows for a selected farm is exactly right about the
      alert query's rows: all normal precisely when none of them is hot or
      dry, and otherwise a row is listed as hot (dry) precisely when it is
      one of them and hot (dry). */
  lemma ShowAlertsExact(farm: Option<int>, cs: seq<Climate>, ms: seq<Metric>, r: Row)
    requires Truthy(farm)
    ensures var w := Latest(Select(cs, ms, farm.value, None, None));
            ShowAlerts(farm, cs, ms).AllNormal? <==> forall i :: 0 <= i < |w| ==> !Hot(w[i]) && !Dry(w[i])
    ensures var w := Latest(Select(cs, ms, farm.value, None, None));
            ShowAlerts(farm, cs, ms).Warning? ==> (r in ShowAlerts(farm, cs, ms).hot <==> r in w && Hot(r))
    ensures var w := Latest(Select(cs, ms, farm.value, None, None));
            ShowAlerts(farm, cs, ms).Warning? ==> (r in ShowAlerts(farm, cs, ms).dry <==> r in w && Dry(r))
  {
    var w := Latest(Select(cs, ms, farm.value, None, None));
    assert ShowAlerts(farm, cs, ms) == Classify(w);
    ClassifyExact(w, r);
  }

  /** A day whose metrics row is missing never raises a rain alert: the
      left join leaves its effective rainfall `NULL`. */
  lemma MissingMetricsNeverDry(c: Climate, ms: seq<Metric>)
    requires forall m :: m in ms ==> !(m.farm == c.farm && m.date == c.date)
    ensures Join(c, ms) == [Pair(c, None)] && !Dry(Join(c, ms)[0])
  {
    var found := MetricsFor(ms, c.farm, c.date);
  }

  // ---------------------------------------------------------------------
  // Farm list on first show

  /** With no farm in the database the first show selects none, and the
      chart and the alerts then have nothing to work on. */
  lemma NoFarmsNothingShown(cs: seq<Climate>, ms: seq<Metric>, start: Option<string>, end: Option<string>)
    ensures var sel := LoadFarms([], NameOnly).selected;
            GetTrends(sel, start, end, cs, ms) == NoTrends && ShowAlerts(sel, cs, ms) == NoFarmSelected
  {
  }
}
