/** What the `apply` hook of the generation job computes: the production-type
    filter, the match of each generation record to a catalog unit by EIC code,
    and the features for the values that are newer than the unit's
    watermark. */
module Generation {
  import opened Common
  import opened Values
  import opened Window
  import opened Watermark

  /** A GeoJSON point, as catalog units carry it. */
  datatype Geometry = Point(longitude: real, latitude: real)

  /** A unit of the catalog, as far as `apply` reads it:
      `properties.eicCode`, `properties.name` and `geometry`. */
  datatype CatalogUnit = CatalogUnit(eicCode: Option<string>, name: Option<string>, geometry: Option<Geometry>)

  /** One element of a record's `values`: its `end_date` as moment parses it,
      and its raw `value`. */
  datatype GenValue = GenValue(endDate: Instant, value: Value)

  /** One element of `actual_generations_per_unit`: `unit.eic_code`,
      `unit.production_type` and `values` (a missing array is empty). */
  datatype GenRecord = GenRecord(eicCode: Option<string>, productionType: Option<string>, values: seq<GenValue>)

  /** An emitted feature: `properties.eicCode` and `properties.name` picked
      from the unit (absent when the unit has none), the unit's `geometry`,
      `time` and `properties.power`. */
  datatype Feature = Feature(eicCode: Option<string>, name: Option<string>, geometry: Option<Geometry>, time: Instant, power: Number)

  /** `typeFilter.includes(data.unit.production_type)`: a record without a
      production type is never included. */
  predicate Accepted(r: GenRecord, typeFilter: seq<string>) {
    r.productionType.Some? && r.productionType.value in typeFilter
  }

  /** `generation.filter(...)` with the allow-list. */
  function FilterByType(gen: seq<GenRecord>, typeFilter: seq<string>): (r: seq<GenRecord>)
    ensures |r| <= |gen|
  {
    if gen == [] then []
    else
      var rest := FilterByType(gen[1..], typeFilter);
      if Accepted(gen[0], typeFilter) then [gen[0]] + rest else rest
  }

  /** The filter keeps exactly the accepted records. */
  lemma {:induction false} FilterByTypeMember(gen: seq<GenRecord>, typeFilter: seq<string>)
    ensures forall x :: x in FilterByType(gen, typeFilter) <==> x in gen && Accepted(x, typeFilter)
  {
    if gen != [] {
      FilterByTypeMember(gen[1..], typeFilter);
      assert forall x :: x in gen <==> x == gen[0] || x in gen[1..];
    }
  }

  /** The first catalog unit whose `properties.eicCode` is `===` to the
      record's code; two missing codes are equal here (`undefined ===
      undefined`). */
  function MatchUnit(units: seq<CatalogUnit>, code: Option<string>): (r: Option<CatalogUnit>)
    ensures r.Some? ==> r.value in units && r.value.eicCode == code
    ensures r.None? <==> forall u :: u in units ==> u.eicCode != code
    ensures r.Some? ==>
      exists i :: (0 <= i < |units| && units[i] == r.value && forall j :: 0 <= j < i ==> units[j].eicCode != code)
  {
    Find(units, (u: CatalogUnit) => u.eicCode == code)
  }

  /** A value is kept unless the unit has a watermark entry and the value's
      end date is the same as or before it. */
  predicate IsNew(v: GenValue, latest: Option<Entry>): (r: bool)
    ensures latest.None? ==> r
    ensures v.endDate.Invalid? ==> r
    ensures latest.Some? && v.endDate.At? ==> (r <==> v.endDate.secs > latest.value.time)
  {
    latest.None? || !SameOrBefore(v.endDate, latest.value.time)
  }

  /** The feature pushed for a kept value. */
  function MakeFeature(u: CatalogUnit, v: GenValue, parse: string -> Number): Feature {
    Feature(u.eicCode, u.name, u.geometry, v.endDate, ToNumber(parse, v.value))
  }

  /** The features pushed for `values`, in order: at most one per value,
      each carrying the unit's code, name and geometry, and each with a
      valid time later than the watermark entry. */
  function NewFeatures(values: seq<GenValue>, u: CatalogUnit, latest: Option<Entry>, parse: string -> Number): (fs: seq<Feature>)
    ensures |fs| <= |values|
    ensures forall i :: 0 <= i < |fs| ==> fs[i].eicCode == u.eicCode && fs[i].name == u.name && fs[i].geometry == u.geometry
    ensures latest.Some? ==> forall i :: 0 <= i < |fs| && fs[i].time.At? ==> fs[i].time.secs > latest.value.time
  {
    if values == [] then []
    else (if IsNew(values[0], latest) then [MakeFeature(u, values[0], parse)] else [])
         + NewFeatures(values[1..], u, latest, parse)
  }

  /** The features one record contributes: none when no unit matches, and
      otherwise at most one per value, each with the record's code. */
  function FeaturesOf(r: GenRecord, units: seq<CatalogUnit>, wm: seq<Entry>, parse: string -> Number): (fs: seq<Feature>)
    ensures |fs| <= |r.values|
    ensures fs != [] ==> MatchUnit(units, r.eicCode).Some?
    ensures forall i :: 0 <= i < |fs| ==> fs[i].eicCode == r.eicCode
  {
    match MatchUnit(units, r.eicCode)
    case None => []
    case Some(u) => NewFeatures(r.values, u, LatestFor(wm, r.eicCode), parse)
  }

  /** The features of the records, in record order: at most one per value. */
  function ReconcileAll(gen: seq<GenRecord>, units: seq<CatalogUnit>, wm: seq<Entry>, parse: string -> Number): (fs: seq<Feature>)
    ensures |fs| <= TotalValues(gen)
  {
    if gen == [] then [] else FeaturesOf(gen[0], units, wm, parse) + ReconcileAll(gen[1..], units, wm, parse)
  }

  /** The batch `apply` stores in `item.data`. The allow-list is always
      applied. The batch holds at most one feature per value of the accepted
      records, and every feature carries the code, name and geometry of a
      catalog unit. */
  function Reconcile(gen: seq<GenRecord>, units: seq<CatalogUnit>, wm: seq<Entry>, typeFilter: seq<string>, parse: string -> Number): (r: seq<Feature>)
    ensures |r| <= TotalValues(FilterByType(gen, typeFilter)) <= TotalValues(gen)
    ensures forall f :: f in r ==>
      exists u :: u in units && u.eicCode == f.eicCode && u.name == f.name && u.geometry == f.geometry
  {
    var accepted := FilterByType(gen, typeFilter);
    FilterByTypeTotal(gen, typeFilter);
    ReconcileAllFromUnits(accepted, units, wm, parse);
    ReconcileAll(accepted, units, wm, parse)
  }

  /** The number of values the records carry. */
  function TotalValues(gen: seq<GenRecord>): nat {
    if gen == [] then 0 else |gen[0].values| + TotalValues(gen[1..])
  }

  // ---------------------------------------------------------------------------
  // Order and size of the batch

  /** Values are handled one after the other, in order. */
  lemma {:induction false} NewFeaturesAppend(a: seq<GenValue>, b: seq<GenValue>, u: CatalogUnit, latest: Option<Entry>, parse: string -> Number)
    ensures NewFeatures(a + b, u, latest, parse) == NewFeatures(a, u, latest, parse) + NewFeatures(b, u, latest, parse)
  {
    if a != [] {
      var head := if IsNew(a[0], latest) then [MakeFeature(u, a[0], parse)] else [];
      var tail := NewFeatures(a[1..], u, latest, parse);
      var rb := NewFeatures(b, u, latest, parse);
      assert (a + b)[0] == a[0] && (a + b)[1..] == a[1..] + b;
      assert NewFeatures(a + b, u, latest, parse) == head + NewFeatures(a[1..] + b, u, latest, parse);
      NewFeaturesAppend(a[1..], b, u, latest, parse);
      assert NewFeatures(a, u, latest, parse) == head + tail;
      ConcatAssoc(head, tail, rb);
    } else {
      assert a + b == b;
    }
  }

  /** Records are handled one after the other, in order: the batch for a
      concatenation is the concatenation of the batches. */
  lemma {:induction false} ReconcileAllAppend(a: seq<GenRecord>, b: seq<GenRecord>, units: seq<CatalogUnit>, wm: seq<Entry>, parse: string -> Number)
    ensures ReconcileAll(a + b, units, wm, parse) == ReconcileAll(a, units, wm, parse) + ReconcileAll(b, units, wm, parse)
  {
    if a != [] {
      var head := FeaturesOf(a[0], units, wm, parse);
      var tail := ReconcileAll(a[1..], units, wm, parse);
      var rb := ReconcileAll(b, units, wm, parse);
      ReconcileAllCons(a, b, units, wm, parse);
      ReconcileAllAppend(a[1..], b, units, wm, parse);
      assert ReconcileAll(a, units, wm, parse) == head + tail;
      ConcatAssoc(head, tail, rb);
    } else {
      assert a + b == b;
    }
  }

  lemma ConcatAssoc(x: seq<Feature>, y: seq<Feature>, z: seq<Feature>)
    ensures x + (y + z) == (x + y) + z
  {
  }

  lemma ReconcileAllCons(a: seq<GenRecord>, b: seq<GenRecord>, units: seq<CatalogUnit>, wm: seq<Entry>, parse: string -> Number)
    requires a != []
    ensures ReconcileAll(a + b, units, wm, parse) == FeaturesOf(a[0], units, wm, parse) + ReconcileAll(a[1..] + b, units, wm, parse)
  {
    assert (a + b)[0] == a[0] && (a + b)[1..] == a[1..] + b;
  }

  /** The type filter keeps the order of the records it accepts. */
  lemma {:induction false} FilterByTypeAppend(a: seq<GenRecord>, b: seq<GenRecord>, typeFilter: seq<string>)
    ensures FilterByType(a + b, typeFilter) == FilterByType(a, typeFilter) + FilterByType(b, typeFilter)
  {
    if a != [] {
      var head := if Accepted(a[0], typeFilter) then [a[0]] else [];
      var tail := FilterByType(a[1..], typeFilter);
      var rb := FilterByType(b, typeFilter);
      FilterByTypeCons(a, b, typeFilter);
      FilterByTypeAppend(a[1..], b, typeFilter);
      assert FilterByType(a, typeFilter) == head + tail;
      RecordsAssoc(head, tail, rb);
    } else {
      assert a + b == b;
    }
  }

  lemma RecordsAssoc(x: seq<GenRecord>, y: seq<GenRecord>, z: seq<GenRecord>)
    ensures x + (y + z) == (x + y) + z
  {
  }

  lemma FilterByTypeCons(a: seq<GenRecord>, b: seq<GenRecord>, typeFilter: seq<string>)
    requires a != []
    ensures FilterByType(a + b, typeFilter) == (if Accepted(a[0], typeFilter) then [a[0]] else []) + FilterByType(a[1..] + b, typeFilter)
  {
    assert (a + b)[0] == a[0] && (a + b)[1..] == a[1..] + b;
    if !Accepted(a[0], typeFilter) {
      assert [] + FilterByType(a[1..] + b, typeFilter) == FilterByType(a[1..] + b, typeFilter);
    }
  }

  /** Output order is input record order: the batch of a concatenation of
      raw batches is the concatenation of their batches. */
  lemma ReconcileAppend(a: seq<GenRecord>, b: seq<GenRecord>, units: seq<CatalogUnit>, wm: seq<Entry>, typeFilter: seq<string>, parse: string -> Number)
    ensures Reconcile(a + b, units, wm, typeFilter, parse) == Reconcile(a, units, wm, typeFilter, parse) + Reconcile(b, units, wm, typeFilter, parse)
  {
    FilterByTypeAppend(a, b, typeFilter);
    ReconcileAllAppend(FilterByType(a, typeFilter), FilterByType(b, typeFilter), units, wm, parse);
  }

  /** A record rejected by the type filter, or matching no catalog unit,
      contributes no features wherever it stands. */
  lemma DroppedRecordContributesNothing(a: seq<GenRecord>, r: GenRecord, b: seq<GenRecord>, units: seq<CatalogUnit>, wm: seq<Entry>, typeFilter: seq<string>, parse: string -> Number)
    requires !Accepted(r, typeFilter) || forall u :: u in units ==> u.eicCode != r.eicCode
    ensures Reconcile(a + [r] + b, units, wm, typeFilter, parse) == Reconcile(a + b, units, wm, typeFilter, parse)
  {
    ReconcileAppend(a + [r], b, units, wm, typeFilter, parse);
    ReconcileAppend(a, [r], units, wm, typeFilter, parse);
    ReconcileAppend(a, b, units, wm, typeFilter, parse);
    SingleRecord(r, units, wm, typeFilter, parse);
  }

  /** The batch of a single record. */
  lemma SingleRecord(r: GenRecord, units: seq<CatalogUnit>, wm: seq<Entry>, typeFilter: seq<string>, parse: string -> Number)
    ensures Reconcile([r], units, wm, typeFilter, parse) ==
      if Accepted(r, typeFilter) then FeaturesOf(r, units, wm, parse) else []
  {
    assert [r][1..] == [];
    if Accepted(r, typeFilter) {
      assert FilterByType([r], typeFilter) == [r];
      assert ReconcileAll([r], units, wm, parse) == FeaturesOf(r, units, wm, parse) + ReconcileAll([], units, wm, parse);
    } else {
      assert FilterByType([r], typeFilter) == [];
    }
  }


  lemma {:induction false} FilterByTypeTotal(gen: seq<GenRecord>, typeFilter: seq<string>)
    ensures TotalValues(FilterByType(gen, typeFilter)) <= TotalValues(gen)
  {
    if gen != [] {
      FilterByTypeTotal(gen[1..], typeFilter);
      var rest := FilterByType(gen[1..], typeFilter);
      if Accepted(gen[0], typeFilter) {
        assert ([gen[0]] + rest)[0] == gen[0] && ([gen[0]] + rest)[1..] == rest;
      }
    }
  }

  // ---------------------------------------------------------------------------
  // Which features the batch holds

  lemma {:induction false} NewFeaturesMember(values: seq<GenValue>, u: CatalogUnit, latest: Option<Entry>, parse: string -> Number, f: Feature)
    ensures f in NewFeatures(values, u, latest, parse) <==>
      exists v :: v in values && IsNew(v, latest) && f == MakeFeature(u, v, parse)
  {
    if values != [] {
      NewFeaturesMember(values[1..], u, latest, parse, f);
      assert forall v :: v in values <==> v == values[0] || v in values[1..];
    }
  }

  lemma {:induction false} ReconcileAllMember(gen: seq<GenRecord>, units: seq<CatalogUnit>, wm: seq<Entry>, parse: string -> Number, f: Feature)
    ensures f in ReconcileAll(gen, units, wm, parse) <==>
      exists r :: r in gen && f in FeaturesOf(r, units, wm, parse)
  {
    if gen != [] {
      ReconcileAllMember(gen[1..], units, wm, parse, f);
      assert forall r :: r in gen <==> r == gen[0] || r in gen[1..];
    }
  }

  /** Every feature of the batch copies its code, name and geometry from a
      catalog unit. */
  lemma ReconcileAllFromUnits(gen: seq<GenRecord>, units: seq<CatalogUnit>, wm: seq<Entry>, parse: string -> Number)
    ensures forall f :: f in ReconcileAll(gen, units, wm, parse) ==>
      exists u :: u in units && u.eicCode == f.eicCode && u.name == f.name && u.geometry == f.geometry
  {
    forall f | f in ReconcileAll(gen, units, wm, parse)
      ensures exists u :: u in units && u.eicCode == f.eicCode && u.name == f.name && u.geometry == f.geometry
    {
      ReconcileAllMember(gen, units, wm, parse, f);
      var r :| r in gen && f in FeaturesOf(r, units, wm, parse);
      var u := MatchUnit(units, r.eicCode).value;
      NewFeaturesMember(r.values, u, LatestFor(wm, r.eicCode), parse, f);
      assert u in units;
    }
  }

  /** A value of a record becomes a feature exactly when the record passes
      the type filter, some catalog unit has its code, and the value is newer
      than the watermark of that code. */
  ghost predicate Emits(gen: seq<GenRecord>, units: seq<CatalogUnit>, wm: seq<Entry>, typeFilter: seq<string>, r: GenRecord, v: GenValue) {
    r in gen && v in r.values && Accepted(r, typeFilter) && MatchUnit(units, r.eicCode).Some? &&
    IsNew(v, LatestFor(wm, r.eicCode))
  }

  /** The batch holds exactly the features of the emitted values, and each
      feature copies the code, name and geometry of the first matching unit,
      takes the value's end date as its time and the value's numeric
      coercion as its power. */
  lemma ReconcileMember(gen: seq<GenRecord>, units: seq<CatalogUnit>, wm: seq<Entry>, typeFilter: seq<string>, parse: string -> Number, f: Feature)
    ensures f in Reconcile(gen, units, wm, typeFilter, parse) <==>
      exists r, v :: Emits(gen, units, wm, typeFilter, r, v) &&
        var u := MatchUnit(units, r.eicCode).value;
        f.eicCode == u.eicCode && f.name == u.name && f.geometry == u.geometry &&
        f.time == v.endDate && f.power == ToNumber(parse, v.value)
  {
    var accepted := FilterByType(gen, typeFilter);
    FilterByTypeMember(gen, typeFilter);
    ReconcileAllMember(accepted, units, wm, parse, f);
    if f in Reconcile(gen, units, wm, typeFilter, parse) {
      var r :| r in accepted && f in FeaturesOf(r, units, wm, parse);
      var u := MatchUnit(units, r.eicCode);
      assert u.Some?;
      NewFeaturesMember(r.values, u.value, LatestFor(wm, r.eicCode), parse, f);
      var v :| v in r.values && IsNew(v, LatestFor(wm, r.eicCode)) && f == MakeFeature(u.value, v, parse);
      assert Emits(gen, units, wm, typeFilter, r, v);
    }
    if exists r, v :: Emits(gen, units, wm, typeFilter, r, v) && f == MakeFeature(MatchUnit(units, r.eicCode).value, v, parse) {
      var r, v :| Emits(gen, units, wm, typeFilter, r, v) && f == MakeFeature(MatchUnit(units, r.eicCode).value, v, parse);
      var u := MatchUnit(units, r.eicCode).value;
      NewFeaturesMember(r.values, u, LatestFor(wm, r.eicCode), parse, f);
      assert f in FeaturesOf(r, units, wm, parse);
    }
  }

  // ---------------------------------------------------------------------------
  // The properties the job relies on

  /** Every feature comes from a record of the input whose production type
      is in the allow-list and whose code it carries; that a catalog unit
      supplies its code, name and geometry is `Reconcile`'s contract. */
  lemma EmittedPassFilter(gen: seq<GenRecord>, units: seq<CatalogUnit>, wm: seq<Entry>, typeFilter: seq<string>, parse: string -> Number, f: Feature)
    requires f in Reconcile(gen, units, wm, typeFilter, parse)
    ensures exists r :: r in gen && Accepted(r, typeFilter) && r.productionType.value in typeFilter && r.eicCode == f.eicCode
  {
    ReconcileMember(gen, units, wm, typeFilter, parse, f);
  }

  /** A feature whose code has a watermark entry is strictly later than the
      entry when its time is valid; a value at the watermark time is dropped. */
  lemma EmittedAfterWatermark(gen: seq<GenRecord>, units: seq<CatalogUnit>, wm: seq<Entry>, typeFilter: seq<string>, parse: string -> Number, f: Feature)
    requires f in Reconcile(gen, units, wm, typeFilter, parse)
    requires LatestFor(wm, f.eicCode).Some?
    ensures f.time.At? ==> f.time.secs > LatestFor(wm, f.eicCode).value.time
  {
    ReconcileMember(gen, units, wm, typeFilter, parse, f);
  }

  /** With no watermark entry for its code, a matched record of an accepted
      production type has every one of its values emitted, in order. */
  lemma AllValuesWithoutWatermark(r: GenRecord, units: seq<CatalogUnit>, wm: seq<Entry>, typeFilter: seq<string>, parse: string -> Number)
    requires Accepted(r, typeFilter)
    requires MatchUnit(units, r.eicCode).Some?
    requires LatestFor(wm, r.eicCode).None?
    ensures |Reconcile([r], units, wm, typeFilter, parse)| == |r.values|
    ensures forall k :: 0 <= k < |r.values| ==>
      Reconcile([r], units, wm, typeFilter, parse)[k] == MakeFeature(MatchUnit(units, r.eicCode).value, r.values[k], parse)
  {
    var u := MatchUnit(units, r.eicCode).value;
    AllNew(r.values, u, parse);
    SingleRecord(r, units, wm, typeFilter, parse);
  }

  lemma {:induction false} AllNew(values: seq<GenValue>, u: CatalogUnit, parse: string -> Number)
    ensures |NewFeatures(values, u, None, parse)| == |values|
    ensures forall k :: 0 <= k < |values| ==> NewFeatures(values, u, None, parse)[k] == MakeFeature(u, values[k], parse)
  {
    if values != [] {
      AllNew(values[1..], u, parse);
    }
  }

  // ---------------------------------------------------------------------------
  // Running again after the batch is stored

  /** The document stored for a feature: the feature always carries a
      `properties.power` key, even when its value is NaN. */
  function Stored(f: Feature): (s: StoredRecord)
    ensures s.eicCode == f.eicCode && s.time == f.time
    ensures forall start :: Qualifies(s, start) <==> f.time.At? && f.time.secs >= start
  {
    StoredRecord(f.eicCode, f.time, true)
  }

  /** The documents the write appends, one per feature, in order. */
  function StoredBatch(batch: seq<Feature>): (sb: seq<StoredRecord>)
    ensures |sb| == |batch|
    ensures forall i :: 0 <= i < |batch| ==> sb[i].eicCode == batch[i].eicCode && sb[i].time == batch[i].time && sb[i].hasPower
    ensures forall i, start :: 0 <= i < |batch| ==>
      (Qualifies(sb[i], start) <==> batch[i].time.At? && batch[i].time.secs >= start)
  {
    seq(|batch|, i requires 0 <= i < |batch| => Stored(batch[i]))
  }

  /** Idempotence: once the batch is written and the watermark recomputed over
      the same window, the same raw batch yields nothing new. This needs every
      record to carry a code and every end date to be valid and inside the
      window; `InvalidEndDateEmittedAgain` shows the rerun is not empty
      otherwise. */
  lemma RerunIsEmpty(gen: seq<GenRecord>, units: seq<CatalogUnit>, store: seq<StoredRecord>, start: int, typeFilter: seq<string>, parse: string -> Number)
    requires forall r :: r in gen ==> r.eicCode.Some?
    requires forall r, v :: r in gen && v in r.values ==> v.endDate.At? && v.endDate.secs >= start
    ensures var batch := Reconcile(gen, units, Aggregate(store, start), typeFilter, parse);
      Reconcile(gen, units, Aggregate(store + StoredBatch(batch), start), typeFilter, parse) == []
  {
    var batch := Reconcile(gen, units, Aggregate(store, start), typeFilter, parse);
    var wm2 := Aggregate(store + StoredBatch(batch), start);
    var rerun := Reconcile(gen, units, wm2, typeFilter, parse);
    if rerun != [] {
      ReconcileMember(gen, units, wm2, typeFilter, parse, rerun[0]);
      var r, v :| Emits(gen, units, wm2, typeFilter, r, v);
      CoveredAfterWrite(gen, units, store, start, typeFilter, parse, r, v);
    }
  }

  /** A value of an accepted, matched record is covered by the recomputed
      watermark: either it was emitted and is now stored, or it was already
      covered by a stored record, which is still there. */
  lemma CoveredAfterWrite(gen: seq<GenRecord>, units: seq<CatalogUnit>, store: seq<StoredRecord>, start: int, typeFilter: seq<string>, parse: string -> Number, r: GenRecord, v: GenValue)
    requires r in gen && v in r.values && Accepted(r, typeFilter) && MatchUnit(units, r.eicCode).Some?
    requires r.eicCode.Some? && v.endDate.At? && v.endDate.secs >= start
    ensures var batch := Reconcile(gen, units, Aggregate(store, start), typeFilter, parse);
      !IsNew(v, LatestFor(Aggregate(store + StoredBatch(batch), start), r.eicCode))
  {
    var wm1 := Aggregate(store, start);
    var batch := Reconcile(gen, units, wm1, typeFilter, parse);
    var store2 := store + StoredBatch(batch);
    LatestForAggregate(store2, start, r.eicCode.value);
    if IsNew(v, LatestFor(wm1, r.eicCode)) {
      var k := EmittedIsStored(gen, units, wm1, typeFilter, parse, r, v);
      assert store2[|store| + k] == StoredBatch(batch)[k];
    } else {
      var w := CoveringRecord(store, start, r.eicCode.value, v);
      assert w in store2;
    }
  }

  /** A value that is emitted sits at some position of the stored batch. */
  lemma EmittedIsStored(gen: seq<GenRecord>, units: seq<CatalogUnit>, wm: seq<Entry>, typeFilter: seq<string>, parse: string -> Number, r: GenRecord, v: GenValue) returns (k: nat)
    requires Emits(gen, units, wm, typeFilter, r, v)
    ensures var batch := Reconcile(gen, units, wm, typeFilter, parse);
      k < |batch| && StoredBatch(batch)[k] == StoredRecord(r.eicCode, v.endDate, true)
  {
    var batch := Reconcile(gen, units, wm, typeFilter, parse);
    var g := MakeFeature(MatchUnit(units, r.eicCode).value, v, parse);
    ReconcileMember(gen, units, wm, typeFilter, parse, g);
    k :| 0 <= k < |batch| && batch[k] == g;
  }

  /** A value that is not new against the aggregated watermark is covered by
      a qualifying stored record of its code. */
  lemma CoveringRecord(store: seq<StoredRecord>, start: int, code: string, v: GenValue) returns (w: StoredRecord)
    requires !IsNew(v, LatestFor(Aggregate(store, start), Some(code)))
    ensures w in store && Qualifies(w, start) && w.eicCode == Some(code)
    ensures v.endDate.At? && v.endDate.secs <= w.time.secs
  {
    LatestForAggregate(store, start, code);
    w :| w in store && Qualifies(w, start) && w.eicCode == Some(code) && w.time.secs == LatestFor(Aggregate(store, start), Some(code)).value.time;
  }

  /** An `end_date` that moment cannot parse is never "same or before" the
      watermark, so its value is emitted again on every run. */
  lemma InvalidEndDateEmittedAgain(parse: string -> Number)
    ensures var u := CatalogUnit(Some("U"), Some("Unit"), None);
      var r := GenRecord(Some("U"), Some("NUCLEAR"), [GenValue(Invalid, Num(Real(5.0)))]);
      var batch := Reconcile([r], [u], Aggregate([], 0), ["NUCLEAR"], parse);
      batch != [] &&
      Reconcile([r], [u], Aggregate(StoredBatch(batch), 0), ["NUCLEAR"], parse) == batch
  {
    var u := CatalogUnit(Some("U"), Some("Unit"), None);
    var r := GenRecord(Some("U"), Some("NUCLEAR"), [GenValue(Invalid, Num(Real(5.0)))]);
    assert MatchUnit([u], r.eicCode) == Some(u);
    SingleRecord(r, [u], [], ["NUCLEAR"], parse);
    var batch := Reconcile([r], [u], Aggregate([], 0), ["NUCLEAR"], parse);
    assert batch == [MakeFeature(u, r.values[0], parse)];
    assert StoredBatch(batch) == [StoredRecord(Some("U"), Invalid, true)];
    assert Aggregate(StoredBatch(batch), 0) == [];
  }

  /** Nothing removes repeated values: a record listing the same value twice
      yields two identical features. */
  lemma RepeatedValueEmittedTwice(parse: string -> Number)
    ensures var u := CatalogUnit(Some("U"), Some("Unit"), None);
      var v := GenValue(At(3600), Num(Real(5.0)));
      var r := GenRecord(Some("U"), Some("NUCLEAR"), [v, v]);
      var batch := Reconcile([r], [u], [], ["NUCLEAR"], parse);
      |batch| == 2 && batch[0] == batch[1]
  {
    var u := CatalogUnit(Some("U"), Some("Unit"), None);
    var v := GenValue(At(3600), Num(Real(5.0)));
    var r := GenRecord(Some("U"), Some("NUCLEAR"), [v, v]);
    assert MatchUnit([u], r.eicCode) == Some(u);
    SingleRecord(r, [u], [], ["NUCLEAR"], parse);
    AllNew(r.values, u, parse);
  }
}
