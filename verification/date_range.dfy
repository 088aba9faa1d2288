/** The date-range query shared by the dashboard trends and the report
    page: rows of one farm, optionally bounded below and above by a date,
    with the bounds bound as parameters after the farm id and SQLite
    comparing the `date` column as text. */
module DateRange {
  import opened Outcomes
  import opened Text
  import opened Dates

  /** One bound parameter of the query. */
  datatype Param = FarmId(id: int) | Bound(date: string)

  /** Whether a bound was given: Python truthiness of `None` or a `str`. */
  predicate Given(b: Option<string>) {
    b.Some? && b.value != ""
  }

  /** `[farm_id]`, then the start date if given, then the end date if
      given. */
  function RangeParams(farm: int, start: Option<string>, end: Option<string>): (r: seq<Param>)
    ensures |r| == 1 + (if Given(start) then 1 else 0) + (if Given(end) then 1 else 0)
    ensures r[0] == FarmId(farm)
    ensures forall i :: 1 <= i < |r| ==> r[i].Bound?
    ensures Given(start) ==> r[1] == Bound(start.value)
    ensures Given(end) ==> r[|r| - 1] == Bound(end.value)
  {
    [FarmId(farm)]
      + (if Given(start) then [Bound(start.value)] else [])
      + (if Given(end) then [Bound(end.value)] else [])
  }

  /** The `WHERE` filter on the date column: `date >= start` and
      `date <= end` as text, each only when its bound is given. */
  predicate Keeps(start: Option<string>, end: Option<string>, date: string) {
    && (!Given(start) || !LexLess(date, start.value))
    && (!Given(end) || !LexLess(end.value, date))
  }

  /** For dates stored and entered as `YYYY-MM-DD`, the text filter keeps
      exactly the days that fall within the range on the calendar, both
      ends included. */
  lemma KeepsCalendarRange(s: Date, e: Date, d: Date)
    requires ValidDate(s) && ValidDate(e) && ValidDate(d)
    ensures Keeps(Some(FormatDate(s)), Some(FormatDate(e)), FormatDate(d))
            <==> !Before(d, s) && !Before(e, d)
  {
    IsoTextOrder(d, s);
    IsoTextOrder(e, d);
    assert FormatDate(s) != "" && FormatDate(e) != "" by {
      assert |FormatDate(s)| == 10 && |FormatDate(e)| == 10;
    }
  }
}
