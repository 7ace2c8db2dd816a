/** The item the generation job's `apply` hook runs on, and the hook itself:
    it removes `units`, reads `mostRecentData` and the API response, and
    replaces `data` with the batch of new features. */
module GenerationJob {
  import opened Common
  import opened Values
  import opened Watermark
  import opened Generation

  /** What `item.data` holds: the API response before `apply` and the batch
      of features after it. */
  datatype ItemData = ApiResponse(actualGenerationsPerUnit: seq<GenRecord>) | Batch(features: seq<Feature>)

  /** `_.get(item, 'data.actual_generations_per_unit', [])`. */
  function GenerationOf(d: ItemData): seq<GenRecord> {
    if d.ApiResponse? then d.actualGenerationsPerUnit else []
  }

  /** The inner loop of the hook: `values.forEach` pushing a feature for each
      value that is newer than the watermark entry `latestData`. */
  method PushNewValues(features: seq<Feature>, values: seq<GenValue>, unit: CatalogUnit, latestData: Option<Entry>, parse: string -> Number)
    returns (pushed: seq<Feature>)
    ensures pushed == features + NewFeatures(values, unit, latestData, parse)
  {
    pushed := features;
    var j := 0;
    while j < |values|
      invariant 0 <= j <= |values|
      invariant pushed == features + NewFeatures(values[..j], unit, latestData, parse)
    {
      var value := values[j];
      NewFeaturesAppend(values[..j], [value], unit, latestData, parse);
      assert values[..j + 1] == values[..j] + [value];
      j := j + 1;
      // A value no newer than the watermark is skipped.
      if !IsNew(value, latestData) {
        continue;
      }
      pushed := pushed + [MakeFeature(unit, value, parse)];
    }
    assert values[..j] == values;
  }

  lemma ReconcileAllSnoc(gen: seq<GenRecord>, i: nat, units: seq<CatalogUnit>, wm: seq<Entry>, parse: string -> Number)
    requires i < |gen|
    ensures ReconcileAll(gen[..i + 1], units, wm, parse) == ReconcileAll(gen[..i], units, wm, parse) + FeaturesOf(gen[i], units, wm, parse)
  {
    var x := gen[i];
    var head := FeaturesOf(x, units, wm, parse);
    assert gen[..i + 1] == gen[..i] + [x];
    ReconcileAllAppend(gen[..i], [x], units, wm, parse);
    assert [x][1..] == [];
    assert ReconcileAll([x], units, wm, parse) == head + ReconcileAll([], units, wm, parse);
    assert head + [] == head;
  }

  class GenerationItem {
    /** `item.units`: the catalog read from the units collection. */
    var units: Option<seq<CatalogUnit>>
    /** `item.mostRecentData`: the result of the watermark aggregation. */
    var mostRecentData: Option<seq<Entry>>
    var data: ItemData

    constructor (units: Option<seq<CatalogUnit>>, mostRecentData: Option<seq<Entry>>, data: ItemData)
      ensures this.units == units && this.mostRecentData == mostRecentData && this.data == data
    {
      this.units := units;
      this.mostRecentData := mostRecentData;
      this.data := data;
    }

    /** The hook. `typeFilter` is the configured allow-list and `parse` the
        string-to-number reading of `_.toNumber`. */
    method Apply(typeFilter: seq<string>, parse: string -> Number)
      modifies this
      ensures units == None
      ensures mostRecentData == old(mostRecentData)
      ensures data == Batch(Reconcile(GenerationOf(old(data)), old(units).GetOr([]), old(mostRecentData).GetOr([]), typeFilter, parse))
    {
      var catalog := units.GetOr([]);
      units := None;
      var latest := mostRecentData.GetOr([]);
      var generation := GenerationOf(data);
      generation := FilterByType(generation, typeFilter);
      var features: seq<Feature> := [];
      var i := 0;
      while i < |generation|
        invariant 0 <= i <= |generation|
        invariant features == ReconcileAll(generation[..i], catalog, latest, parse)
        invariant units == None && mostRecentData == old(mostRecentData)
      {
        var record := generation[i];
        var unit := MatchUnit(catalog, record.eicCode);
        if unit.Some? {
          features := PushNewValues(features, record.values, unit.value, LatestFor(latest, record.eicCode), parse);
        }
        ReconcileAllSnoc(generation, i, catalog, latest, parse);
        i := i + 1;
      }
      assert generation[..i] == generation;
      data := Batch(features);
    }
  }
}
