/** The farm picker several pages share: the list loaded from the `farms`
    table, the combo-box labels kept parallel to the farm ids, and the
    selection that follows the combo box. */
module Farms {
  import opened Outcomes

  datatype Farm = Farm(id: int, name: string, location: string)

  /** Python truthiness of an optional farm id: `None` and `0` are false. */
  predicate Truthy(id: Option<int>) {
    id.Some? && id.value != 0
  }

  /** How a page labels a farm in its combo box. */
  datatype LabelStyle = NameAndLocation | NameOnly

  function Label(style: LabelStyle, f: Farm): string {
    match style
    case NameAndLocation => f.name + " (" + f.location + ")"
    case NameOnly => f.name
  }

  /** The picker of a page: labels shown, ids behind them, the selection. */
  datatype Picker = Picker(labels: seq<string>, ids: seq<int>, selected: Option<int>)

  /** `load_farms`: labels and ids are parallel to the farm list and the
      first farm is selected; with no farm nothing is. */
  function LoadFarms(farms: seq<Farm>, style: LabelStyle): (p: Picker)
    ensures |p.labels| == |p.ids| == |farms|
    ensures forall i :: 0 <= i < |farms| ==>
              p.ids[i] == farms[i].id && p.labels[i] == Label(style, farms[i])
    ensures p.selected.None? <==> |farms| == 0
    ensures |farms| > 0 ==> p.selected == Some(farms[0].id)
  {
    var ids := seq(|farms|, i requires 0 <= i < |farms| => farms[i].id);
    var labels := seq(|farms|, i requires 0 <= i < |farms| => Label(style, farms[i]));
    Picker(labels, ids, if |ids| > 0 then Some(ids[0]) else None)
  }

  /** `on_farm_selected`: the id at the combo box's index, or `None` when
      the index (`-1` for no choice) is out of range. */
  function OnFarmSelected(ids: seq<int>, idx: int): (sel: Option<int>)
    ensures sel.Some? <==> 0 <= idx < |ids|
    ensures sel.Some? ==> sel.value == ids[idx]
  {
    if idx < 0 || idx >= |ids| then None else Some(ids[idx])
  }

  /** Selecting through the combo box after loading picks exactly the farm
      whose label sits at that index. */
  lemma SelectAfterLoad(farms: seq<Farm>, style: LabelStyle, idx: int)
    requires 0 <= idx < |farms|
    ensures OnFarmSelected(LoadFarms(farms, style).ids, idx) == Some(farms[idx].id)
    ensures LoadFarms(farms, style).labels[idx] == Label(style, farms[idx])
  {
  }
}
