/** The visualization page: the debounced redraw that every control change
    requests, the resolution of the metric and overlay choices, the
    loading spinner's angle, and the query a plot request leads to. */
module Visualization {
  import opened Outcomes
  import opened Farms
  import opened DateRange
  import opened Text

  // ---------------------------------------------------------------------
  // Debounced plotting

  /** The event-loop side of the page: the ids of plot timers still
      pending, `_plot_after_id`, the id the next timer gets, the plots
      drawn so far and whether the UI gate lets calls through. */
  datatype Debounce = Debounce(pending: set<nat>, lastId: Option<nat>, nextId: nat, plots: nat, live: bool)

  function Quiet(live: bool): Debounce {
    Debounce({}, None, 0, 0, live)
  }

  /** At most one timer is pending, and it is the one `_plot_after_id`
      names; timer ids are handed out in increasing order. */
  predicate OnePending(d: Debounce) {
    && (d.lastId.None? ==> d.pending == {})
    && (d.lastId.Some? ==> d.pending <= {d.lastId.value} && d.lastId.value < d.nextId)
  }

  /** `schedule_plot`: cancel the timer last scheduled, then schedule a new
      one; should `after` raise, the plot is requested through the UI gate
      at once and the old id stays recorded. */
  function SchedulePlot(d: Debounce, afterFails: bool): (r: Debounce)
    ensures r.live == d.live
    ensures !afterFails ==> r.pending == (if d.lastId.Some? then d.pending - {d.lastId.value} else d.pending) + {d.nextId}
    ensures !afterFails ==> r.lastId == Some(d.nextId) && r.plots == d.plots
    ensures afterFails ==> r.plots == d.plots + (if d.live then 1 else 0)
  {
    var kept := if d.lastId.Some? then d.pending - {d.lastId.value} else d.pending;
    if afterFails then d.(pending := kept, plots := d.plots + (if d.live then 1 else 0))
    else d.(pending := kept + {d.nextId}, lastId := Some(d.nextId), nextId := d.nextId + 1)
  }

  /** The event loop fires timer `id`: a pending one leaves the queue and
      asks the UI gate for a plot. */
  function Fire(d: Debounce, id: nat): (r: Debounce)
    ensures id !in d.pending ==> r == d
    ensures id in d.pending ==> r.pending == d.pending - {id} && r.plots == d.plots + (if d.live then 1 else 0)
  {
    if id in d.pending then d.(pending := d.pending - {id}, plots := d.plots + (if d.live then 1 else 0))
    else d
  }

  /** Let the loop run the plot timer last scheduled. */
  function Settle(d: Debounce): (r: Debounce)
    ensures r.live == d.live
    ensures OnePending(d) ==> r.pending == {} && r.plots == d.plots + (if d.pending != {} && d.live then 1 else 0)
  {
    if d.lastId.Some? then Fire(d, d.lastId.value) else d
  }

  /** `n` calls of `schedule_plot` in a row, with `after` working. */
  function Burst(d: Debounce, n: nat): Debounce
    decreases n
  {
    if n == 0 then d else Burst(SchedulePlot(d, false), n - 1)
  }

  /** Every scheduling step and every timer keeps at most one plot pending. */
  lemma OnePendingKept(d: Debounce, afterFails: bool, id: nat)
    requires OnePending(d)
    ensures OnePending(SchedulePlot(d, afterFails))
    ensures OnePending(Fire(d, id))
  {
  }

  /** A burst of calls draws nothing by itself and leaves exactly one plot
      pending. */
  lemma {:induction false} BurstLeavesOne(d: Debounce, n: nat)
    requires OnePending(d) && n > 0
    ensures var r := Burst(d, n);
            OnePending(r) && r.plots == d.plots && r.live == d.live && r.lastId.Some? && r.pending == {r.lastId.value}
    decreases n
  {
    var d1 := SchedulePlot(d, false);
    OnePendingKept(d, false, 0);
    if n > 1 {
      BurstLeavesOne(d1, n - 1);
    } else {
      assert d1.pending == {d.nextId};
    }
  }

  /** Any number of rapid requests, once the loop has run, draw the plot
      exactly once: twelve in a row give one plot. */
  lemma BurstDrawsOnce(n: nat)
    requires n > 0
    ensures Settle(Burst(Quiet(true), n)).plots == 1
    ensures Settle(Burst(Quiet(true), 12)).plots == 1
  {
    BurstLeavesOne(Quiet(true), n);
    BurstLeavesOne(Quiet(true), 12);
  }

  // ---------------------------------------------------------------------
  // Metric and overlay choices

  /** One entry of `METRIC_CHOICES`: the label shown and the column key. */
  datatype Choice = Choice(caption: string, key: string)

  const MetricChoices: seq<Choice> := [
    Choice("Max Temp", "temp_max"), Choice("Min Temp", "temp_min"),
    Choice("Rainfall", "rainfall"), Choice("Daily GDD", "daily_gdd"),
    Choice("Effective Rain", "effective_rainfall"), Choice("Cum GDD", "cumulative_gdd")]

  predicate Matches(c: Choice, v: string) {
    v == c.key || v == c.caption
  }

  /** The first choice that a value names by key or by label. */
  function FindChoice(cs: seq<Choice>, v: string): (r: Option<nat>)
    ensures r.Some? ==> r.value < |cs| && Matches(cs[r.value], v)
    ensures r.Some? ==> forall j :: 0 <= j < r.value ==> !Matches(cs[j], v)
    ensures r.None? ==> forall j :: 0 <= j < |cs| ==> !Matches(cs[j], v)
    decreases |cs|
  {
    if |cs| == 0 then None
    else if Matches(cs[0], v) then Some(0)
    else match FindChoice(cs[1..], v)
      case None => None
      case Some(i) => Some(i + 1)
  }

  /** The metric the plot uses: the key of the first matching choice, and
      the first choice's key when nothing matches. */
  function ResolveMetric(cs: seq<Choice>, v: string): (key: string)
    requires |cs| > 0
    ensures FindChoice(cs, v).None? ==> key == cs[0].key
    ensures FindChoice(cs, v).Some? ==> key == cs[FindChoice(cs, v).value].key
  {
    match FindChoice(cs, v)
    case None => cs[0].key
    case Some(i) => cs[i].key
  }

  /** The overlay: resolved only when the overlay box is ticked, and absent
      when the value matches no choice. */
  function ResolveOverlay(cs: seq<Choice>, enabled: bool, v: string): (key: Option<string>)
    ensures !enabled ==> key.None?
    ensures enabled && FindChoice(cs, v).None? ==> key.None?
    ensures enabled && FindChoice(cs, v).Some? ==> key == Some(cs[FindChoice(cs, v).value].key)
  {
    if !enabled then None
    else match FindChoice(cs, v)
      case None => None
      case Some(i) => Some(cs[i].key)
  }

  /** No label or key is used twice and no label doubles as another
      entry's key. */
  predicate Unambiguous(cs: seq<Choice>) {
    forall i, j :: 0 <= i < |cs| && 0 <= j < |cs| && i != j ==>
      cs[i].key != cs[j].key && cs[i].caption != cs[j].caption && cs[i].caption != cs[j].key
  }

  /** In an unambiguous choice list a value resolves to the entry it names,
      whether it names it by key or by label. */
  lemma ResolveByKeyOrLabel(cs: seq<Choice>, i: nat)
    requires Unambiguous(cs) && i < |cs|
    ensures ResolveMetric(cs, cs[i].key) == cs[i].key
    ensures ResolveMetric(cs, cs[i].caption) == cs[i].key
    ensures ResolveOverlay(cs, true, cs[i].caption) == Some(cs[i].key)
  {
    var a := FindChoice(cs, cs[i].key);
    var b := FindChoice(cs, cs[i].caption);
    assert a.Some? && b.Some?;
    assert a.value == i;
    assert b.value == i;
  }

  // ---------------------------------------------------------------------
  // Spinner

  /** One frame of the spinner: the angle advances by 30 degrees, mod 360. */
  function NextAngle(a: int): (r: int)
    ensures 0 <= r < 360
    ensures a % 30 == 0 ==> r % 30 == 0
  {
    ThirtyStep(a);
    (a + 30) % 360
  }

  /** Advancing a multiple of 30 by 30 and reducing mod 360 (a multiple
      of 30) leaves a multiple of 30. */
  lemma ThirtyStep(a: int)
    ensures a % 30 == 0 ==> ((a + 30) % 360) % 30 == 0
  {
    if a % 30 == 0 {
      var b := a + 30;
      var k, q := a / 30, b / 360;
      assert a == 30 * k;
      assert b % 360 == 30 * (k + 1 - 12 * q);
    }
  }

  /** The twelve positions of the dots. */
  predicate OnDial(a: int) {
    0 <= a < 360 && a % 30 == 0
  }

  /** The angle after `n` frames. */
  function Spin(a: int, n: nat): int
    decreases n
  {
    if n == 0 then a else NextAngle(Spin(a, n - 1))
  }

  /** On the dial, a frame moves to the next of the twelve positions,
      wrapping from 330 to 0. */
  lemma NextOnDial(k: nat)
    requires k < 12
    ensures NextAngle(30 * k) == if k == 11 then 0 else 30 * (k + 1)
  {
  }

  lemma ModTwelveSucc(m: nat)
    ensures (m + 1) % 12 == if m % 12 == 11 then 0 else m % 12 + 1
  {
  }

  /** The spinner never leaves the dial: after `n` frames from position
      `k` it stands at position `k + n` round the twelve. */
  lemma {:induction false} SpinCycle(k: nat, n: nat)
    requires k < 12
    ensures Spin(30 * k, n) == 30 * ((k + n) % 12)
    ensures OnDial(Spin(30 * k, n))
    decreases n
  {
    if n > 0 {
      SpinCycle(k, n - 1);
      NextOnDial((k + n - 1) % 12);
      ModTwelveSucc(k + n - 1);
    }
  }

  /** Every twelve frames the spinner is back where it began. */
  lemma SpinFullTurns(k: nat, n: nat)
    requires k < 12 && n % 12 == 0
    ensures Spin(30 * k, n) == 30 * k
  {
    SpinCycle(k, n);
    assert k + n == 12 * (n / 12) + k;
    DivModUnique12(k + n, n / 12, k);
  }

  lemma DivModUnique12(x: nat, q: nat, r: nat)
    requires r < 12 && x == 12 * q + r
    ensures x % 12 == r
  {
  }

  // ---------------------------------------------------------------------
  // Plot request

  /** What `plot` does: warn that no farm is selected, or run the query
      for the metric (and overlay) over the farm's date range. */
  datatype PlotAction = NeedFarm | Query(metric: string, overlay: Option<string>, params: seq<Param>)

  /** `plot` up to its query: the metric and overlay resolve first, the
      farm check comes next, and the stripped dates bound the query. */
  function PlotRequest(metricText: string, overlayOn: bool, overlayText: string, farm: Option<int>,
                       start: string, end: string): (r: PlotAction)
    ensures r.NeedFarm? <==> !Truthy(farm)
    ensures r.Query? ==> |r.params| > 0 && r.params[0] == FarmId(farm.value)
                         && r.metric == ResolveMetric(MetricChoices, metricText)
                         && (!overlayOn ==> r.overlay.None?)
  {
    var metric := ResolveMetric(MetricChoices, metricText);
    var overlay := ResolveOverlay(MetricChoices, overlayOn, overlayText);
    if !Truthy(farm) then NeedFarm
    else
      var s, e := Strip(start), Strip(end);
      Query(metric, overlay, RangeParams(farm.value, Some(s), Some(e)))
  }

  /** A request without a farm never reaches the database, whatever the
      other controls say; with a farm, the query carries exactly the dates
      that are left after stripping, start before end, and blank entries
      bound nothing. */
  lemma PlotNeedsFarm(metricText: string, overlayOn: bool, overlayText: string, farm: Option<int>,
                      start: string, end: string)
    ensures farm.None? ==> PlotRequest(metricText, overlayOn, overlayText, farm, start, end) == NeedFarm
    ensures Truthy(farm) ==>
              var ps := PlotRequest(metricText, overlayOn, overlayText, farm, start, end).params;
              && |ps| == 1 + (if !AllSpace(start) then 1 else 0) + (if !AllSpace(end) then 1 else 0)
              && (!AllSpace(start) ==> ps[1] == Bound(Strip(start)))
              && (!AllSpace(end) ==> ps[|ps| - 1] == Bound(Strip(end)))
  {
  }

  /** Blanks typed around a date do not change the request: the padded
      entry asks for the same rows as the bare date. */
  lemma PaddedDatesSameRequest(metricText: string, overlayOn: bool, overlayText: string, farm: Option<int>,
                               pre: string, start: string, post: string, end: string)
    requires AllSpace(pre) && AllSpace(post) && Trimmed(start) && Trimmed(end)
    ensures PlotRequest(metricText, overlayOn, overlayText, farm, pre + start + post, pre + end + post)
            == PlotRequest(metricText, overlayOn, overlayText, farm, start, end)
  {
    PaddedStrip(pre, start, post);
    PaddedStrip(pre, end, post);
    TrimmedStrip(start);
    TrimmedStrip(end);
    SameStrippedSameRequest(metricText, overlayOn, overlayText, farm, pre + start + post, pre + end + post, start, end);
  }

  /** The request depends on the typed dates only through their stripped
      forms. */
  lemma SameStrippedSameRequest(metricText: string, overlayOn: bool, overlayText: string, farm: Option<int>,
                                start: string, end: string, start2: string, end2: string)
    requires Strip(start) == Strip(start2) && Strip(end) == Strip(end2)
    ensures PlotRequest(metricText, overlayOn, overlayText, farm, start, end)
            == PlotRequest(metricText, overlayOn, overlayText, farm, start2, end2)
  {
  }

  /** A date with no blank at either end strips back to itself from
      inside any padding of blanks. */
  lemma PaddedStrip(pre: string, d: string, post: string)
    requires AllSpace(pre) && AllSpace(post)
    requires Trimmed(d)
    ensures Strip(pre + d + post) == d
  {
    if d != [] {
      StripAround(pre, d, post);
    } else {
      BlankPadding(pre, post);
      assert pre + d + post == pre + post;
    }
  }

  lemma TrimmedStrip(d: string)
    requires Trimmed(d)
    ensures Strip(d) == d
  {
    if d != [] {
      StripTrimmed(d);
    }
  }

  /** Two runs of blanks make one. */
  lemma BlankPadding(pre: string, post: string)
    requires AllSpace(pre) && AllSpace(post)
    ensures AllSpace(pre + post)
  {
    var s := pre + post;
    forall i | 0 <= i < |s|
      ensures IsSpace(s[i])
    {
      if i < |pre| {
        assert s[i] == pre[i];
      } else {
        assert s[i] == post[i - |pre|];
      }
    }
  }
}
