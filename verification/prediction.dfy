/** The prediction page: the range check on the three inputs, the batch
    prediction over a CSV file, the per-farm batch, and the prediction
    history both of them grow.  The farm picker is the shared one of
    `Farms` (labels are farm names).  A loaded model is a parameter: a
    prediction per reading, or `None` where calling it raises. */
module Prediction {
  import opened Outcomes
  import opened Numbers
  import opened Seqs
  import opened Farms

  /** A validated input: maximum temperature, rainfall, cumulative GDD. */
  datatype Reading = Reading(temp: real, rain: real, gdd: real)

  const TempLow: real := -50.0
  const TempHigh: real := 60.0
  const RainHigh: real := 1000.0
  const GddHigh: real := 10000.0

  /** `validate_input`: all three texts must read as numbers, and the
      temperature must lie in [-50, 60], rainfall in [0, 1000] and GDD in
      [0, 10000], bounds included; otherwise `None` (after an error box).
      NaN and the infinities are out of every range. */
  function ValidateInput(temp: string, rain: string, gdd: string): (r: Option<Reading>)
    ensures r.Some? <==> && IsNumber(temp) && IsNumber(rain) && IsNumber(gdd)
                         && InRange(ParseFloat(temp).value, TempLow, TempHigh)
                         && InRange(ParseFloat(rain).value, 0.0, RainHigh)
                         && InRange(ParseFloat(gdd).value, 0.0, GddHigh)
    ensures r.Some? ==> && Finite(r.value.temp) == ParseFloat(temp).value
                        && Finite(r.value.rain) == ParseFloat(rain).value
                        && Finite(r.value.gdd) == ParseFloat(gdd).value
    ensures r.Some? ==> TempLow <= r.value.temp <= TempHigh && 0.0 <= r.value.rain <= RainHigh
                        && 0.0 <= r.value.gdd <= GddHigh
  {
    CheckRanges(ParseFloat(temp), ParseFloat(rain), ParseFloat(gdd))
  }

  /** The range check on the three conversions; a failed conversion
      (`None`) fails the whole check. */
  function CheckRanges(temp: Option<Float>, rain: Option<Float>, gdd: Option<Float>): Option<Reading> {
    match (temp, rain, gdd)
    case (Some(t), Some(w), Some(g)) =>
      if InRange(t, TempLow, TempHigh) && InRange(w, 0.0, RainHigh) && InRange(g, 0.0, GddHigh)
      then Some(Reading(t.v, w.v, g.v)) else None
    case _ => None
  }

  /** For whole numbers written out in decimal, validation accepts exactly
      the ones within the ranges and gives back their values. */
  lemma ValidateWholeNumbers(t: nat, w: nat, g: nat)
    ensures ValidateInput(NatToString(t), NatToString(w), NatToString(g)).Some?
            <==> t <= 60 && w <= 1000 && g <= 10000
    ensures ValidateInput(NatToString(t), NatToString(w), NatToString(g)).Some?
            ==> ValidateInput(NatToString(t), NatToString(w), NatToString(g)).value
                == Reading(t as real, w as real, g as real)
  {
    ParseFloatOfNat(t);
    ParseFloatOfNat(w);
    ParseFloatOfNat(g);
    ValidateParsed(NatToString(t), NatToString(w), NatToString(g), t as real, w as real, g as real);
  }

  /** Validation of texts that read as finite numbers depends on their
      values only. */
  lemma ValidateParsed(temp: string, rain: string, gdd: string, t: real, w: real, g: real)
    requires ParseFloat(temp) == Some(Finite(t)) && ParseFloat(rain) == Some(Finite(w)) && ParseFloat(gdd) == Some(Finite(g))
    ensures ValidateInput(temp, rain, gdd)
            == if TempLow <= t <= TempHigh && 0.0 <= w <= RainHigh && 0.0 <= g <= GddHigh
               then Some(Reading(t, w, g)) else None
  {
    CheckFiniteRanges(t, w, g);
    assert ValidateInput(temp, rain, gdd) == CheckRanges(Some(Finite(t)), Some(Finite(w)), Some(Finite(g)));
  }

  lemma CheckFiniteRanges(t: real, w: real, g: real)
    ensures CheckRanges(Some(Finite(t)), Some(Finite(w)), Some(Finite(g)))
            == if TempLow <= t <= TempHigh && 0.0 <= w <= RainHigh && 0.0 <= g <= GddHigh
               then Some(Reading(t, w, g)) else None
  {
  }

  // ---------------------------------------------------------------------
  // Predicting

  /** The model in use: none (the built-in formula) or a loaded one. */
  datatype Model = NoModel | Loaded(predict: Reading -> Option<real>)

  /** The built-in formula `0.8*temp + 0.5*rain + 0.03*gdd + 10`. */
  function Formula(x: Reading): real {
    0.8 * x.temp + 0.5 * x.rain + 0.03 * x.gdd + 10.0
  }

  /** One history entry: farm label, inputs, model name, predicted yield
      (`None` where the model raised). */
  datatype Entry = Entry(farm: string, reading: Reading, model: string, predicted: Option<real>)

  /** The farm name an entry records: the combo box text, or "N/A". */
  function FarmName(comboText: string): string {
    if comboText != "" then comboText else "N/A"
  }

  /** Predictions for a whole batch at once: the formula's values, or the
      model's values, or `None` when the model raises on any row. */
  function PredictAll(model: Model, xs: seq<Reading>): (r: Option<seq<real>>)
    ensures r.Some? ==> |r.value| == |xs|
    ensures model.NoModel? ==> r.Some? && forall i :: 0 <= i < |xs| ==> r.value[i] == Formula(xs[i])
    ensures model.Loaded? ==> (r.Some? <==> forall i :: 0 <= i < |xs| ==> model.predict(xs[i]).Some?)
    ensures model.Loaded? && r.Some? ==> forall i :: 0 <= i < |xs| ==> Some(r.value[i]) == model.predict(xs[i])
    decreases |xs|
  {
    if |xs| == 0 then Some([])
    else
      var head := match model
                  case NoModel => Some(Formula(xs[0]))
                  case Loaded(p) => p(xs[0]);
      var rest := PredictAll(model, xs[1..]);
      if head.None? || rest.None? then None else Some([head.value] + rest.value)
  }

  // ---------------------------------------------------------------------
  // Batch prediction from CSV

  /** A CSV record the batch takes: at least three cells whose first three
      validate. */
  predicate Acceptable(rec: seq<string>) {
    |rec| >= 3 && ValidateInput(rec[0], rec[1], rec[2]).Some?
  }

  /** The readings of the acceptable records, in file order; short and
      invalid records are skipped. */
  function Accepted(records: seq<seq<string>>): (xs: seq<Reading>)
    ensures |xs| == Count(Acceptable, records)
    decreases |records|
  {
    if |records| == 0 then []
    else
      var rec := records[0];
      var rest := Accepted(records[1..]);
      if |rec| >= 3 then
        match ValidateInput(rec[0], rec[1], rec[2])
        case Some(x) => [x] + rest
        case None => rest
      else rest
  }

  lemma {:induction false} AcceptedAppend(a: seq<seq<string>>, b: seq<seq<string>>)
    ensures Accepted(a + b) == Accepted(a) + Accepted(b)
    decreases |a|
  {
    if |a| == 0 {
      assert a + b == b;
    } else {
      assert (a + b)[0] == a[0];
      assert (a + b)[1..] == a[1..] + b;
      AcceptedAppend(a[1..], b);
    }
  }

  /** A record that is too short or fails validation adds nothing, wherever
      it sits in the file. */
  lemma SkippedRecord(before: seq<seq<string>>, rec: seq<string>, after: seq<seq<string>>)
    requires !Acceptable(rec)
    ensures Accepted(before + [rec] + after) == Accepted(before + after)
  {
    AcceptedAppend(before + [rec], after);
    AcceptedAppend(before, [rec]);
    AcceptedAppend(before, after);
    AcceptedSkips(rec);
  }

  lemma AcceptedSkips(rec: seq<string>)
    requires !Acceptable(rec)
    ensures Accepted([rec]) == []
  {
    assert [rec][0] == rec && [rec][1..] == [];
  }

  datatype Batch = NoValidRows | ModelError | Added(history: seq<Entry>)

  /** `batch_predict_csv` once the file is read: no acceptable record gives
      a warning, a model that raises gives an error, and otherwise one entry
      per accepted record is appended to the history, in file order. */
  function BatchPredictCsv(history: seq<Entry>, records: seq<seq<string>>, model: Model,
                           comboText: string, modelName: string): (r: Batch)
    ensures r.NoValidRows? <==> Count(Acceptable, records) == 0
    ensures r.ModelError? ==> model.Loaded?
    ensures r.Added? ==> |r.history| == |history| + Count(Acceptable, records) && r.history[..|history|] == history
    ensures r.Added? ==> forall i :: 0 <= i < Count(Acceptable, records) ==>
              var e := r.history[|history| + i];
              e.reading == Accepted(records)[i] && e.farm == FarmName(comboText) && e.model == modelName && e.predicted.Some?
    ensures r.Added? && model.NoModel? ==> forall i :: 0 <= i < Count(Acceptable, records) ==>
              r.history[|history| + i].predicted == Some(Formula(Accepted(records)[i]))
  {
    var xs := Accepted(records);
    if |xs| == 0 then NoValidRows
    else match PredictAll(model, xs)
      case None => ModelError
      case Some(ys) =>
        var added := seq(|xs|, i requires 0 <= i < |xs| => Entry(FarmName(comboText), xs[i], modelName, Some(ys[i])));
        assert (history + added)[..|history|] == history;
        Added(history + added)
  }

  /** Without a model the batch always succeeds when a record is acceptable,
      and the history grows by exactly the number of acceptable records. */
  lemma BatchGrowth(history: seq<Entry>, records: seq<seq<string>>, comboText: string, modelName: string)
    ensures var r := BatchPredictCsv(history, records, NoModel, comboText, modelName);
            !r.ModelError? && (r.Added? <==> exists k :: 0 <= k < |records| && Acceptable(records[k]))
  {
    var r := BatchPredictCsv(history, records, NoModel, comboText, modelName);
    if exists k :: 0 <= k < |records| && Acceptable(records[k]) {
      var k :| 0 <= k < |records| && Acceptable(records[k]);
      CountPositive(Acceptable, records, k);
    } else {
      CountZero(Acceptable, records);
    }
  }

  lemma {:induction false} CountPositive<T>(p: T -> bool, s: seq<T>, k: nat)
    requires k < |s| && p(s[k])
    ensures Count(p, s) > 0
    decreases k
  {
    if k > 0 {
      CountPositive(p, s[1..], k - 1);
    }
  }

  lemma {:induction false} CountZero<T>(p: T -> bool, s: seq<T>)
    requires forall k :: 0 <= k < |s| ==> !p(s[k])
    ensures Count(p, s) == 0
    decreases |s|
  {
    if |s| > 0 {
      CountZero(p, s[1..]);
    }
  }

  // ---------------------------------------------------------------------
  // Per-farm batch

  /** `per_farm_batch`: with no farm, or with invalid inputs, nothing is
      added; otherwise one entry per farm, in picker order, each with that
      farm's label, the same inputs, and the model's prediction (`None`
      where the model raises). */
  method PerFarmBatch(history: seq<Entry>, picker: Picker, temp: string, rain: string, gdd: string,
                      model: Model, modelName: string) returns (h: seq<Entry>)
    requires |picker.labels| == |picker.ids|
    ensures |picker.ids| == 0 || ValidateInput(temp, rain, gdd).None? ==> h == history
    ensures |picker.ids| > 0 && ValidateInput(temp, rain, gdd).Some? ==>
              && |h| == |history| + |picker.ids| && h[..|history|] == history
              && forall i :: 0 <= i < |picker.ids| ==>
                   h[|history| + i] == Entry(picker.labels[i], ValidateInput(temp, rain, gdd).value, modelName,
                                             Predict(model, ValidateInput(temp, rain, gdd).value))
  {
    h := history;
    if |picker.ids| == 0 {
      return;
    }
    var validated := ValidateInput(temp, rain, gdd);
    if validated.None? {
      return;
    }
    h := AppendPerFarm(history, picker.labels, validated.value, model, modelName);
  }

  /** The loop of `per_farm_batch`: one entry per farm label, in order. */
  method AppendPerFarm(history: seq<Entry>, labels: seq<string>, x: Reading, model: Model, modelName: string)
    returns (h: seq<Entry>)
    ensures |h| == |history| + |labels| && h[..|history|] == history
    ensures forall i :: 0 <= i < |labels| ==> h[|history| + i] == Entry(labels[i], x, modelName, Predict(model, x))
  {
    h := history;
    var i := 0;
    while i < |labels|
      invariant 0 <= i <= |labels|
      invariant |h| == |history| + i && h[..|history|] == history
      invariant forall j :: 0 <= j < i ==> h[|history| + j] == Entry(labels[j], x, modelName, Predict(model, x))
    {
      h := h + [Entry(labels[i], x, modelName, Predict(model, x))];
      i := i + 1;
    }
  }

  /** One prediction: the formula, or the model's value, `None` when it
      raises. */
  function Predict(model: Model, x: Reading): (y: Option<real>)
    ensures model.NoModel? ==> y == Some(Formula(x))
  {
    match model
    case NoModel => Some(Formula(x))
    case Loaded(p) => p(x)
  }

  /** A single-reading batch and a per-farm prediction agree: the batch of
      one accepted record predicts what the per-farm batch records for each
      farm. */
  lemma BatchOfOneAgrees(model: Model, x: Reading)
    ensures PredictAll(model, [x]).Some? <==> Predict(model, x).Some?
    ensures PredictAll(model, [x]).Some? ==> Some(PredictAll(model, [x]).value[0]) == Predict(model, x)
  {
  }
}
