/** What the `apply` hook of the units job does to each row of the reactor
    CSV: join the owning plant row by `plantId`, copy in the plant's fields
    other than `id` and `name`, then rewrite `*_MW` fields as numbers and
    `*Date` fields as dates. */
module Units {
  import opened Common
  import opened Strings
  import opened Values

  /** A CSV row (or a row after conversion): field name to value. */
  type Row = map<string, Value>

  /** `unit.plantId`: `undefined` when the row has no such field. */
  function PlantIdOf(unit: Row): Value {
    if "plantId" in unit then unit["plantId"] else Undefined
  }

  /** Whether `_.matches({ id: unit.plantId })` accepts a plant: the plant has
      an `id` field (even one holding `undefined`) that is `===` to the unit's
      `plantId`. */
  predicate MatchesPlant(unit: Row, p: Row) {
    "id" in p && p["id"] == PlantIdOf(unit)
  }

  /** `_.find(plants, { id: unit.plantId })`: the first plant whose `id` is
      the unit's `plantId`. */
  function PlantOf(unit: Row, plants: seq<Row>): (r: Option<Row>)
    ensures r.Some? ==> r.value in plants && "id" in r.value && r.value["id"] == PlantIdOf(unit)
    ensures r.None? <==> forall p :: p in plants ==> !("id" in p && p["id"] == PlantIdOf(unit))
    ensures r.Some? ==> exists i :: (0 <= i < |plants| && plants[i] == r.value &&
      forall j :: 0 <= j < i ==> !("id" in plants[j] && plants[j]["id"] == PlantIdOf(unit)))
  {
    Find(plants, (p: Row) => MatchesPlant(unit, p))
  }

  /** The plant fields the unit does not take: `_.omit(plant, ['id', 'name'])`. */
  const OMITTED: set<string> := {"id", "name"}

  /** Whether `_.merge` assigns the plant's field `k` to the unit: `id` and
      `name` are omitted, and a plant value that is `undefined` is skipped
      when the unit already has the key. */
  predicate Takes(unit: Row, plant: Row, k: string) {
    k in plant && k !in OMITTED && !(plant[k] == Undefined && k in unit)
  }

  /** `_.merge(unit, _.omit(plant, ['id', 'name']))` on flat rows: the
      plant's other fields are added, replacing the unit's, except that an
      `undefined` plant value leaves an existing unit value in place. */
  function Merge(unit: Row, plant: Option<Row>): (r: Row)
    ensures plant.None? ==> r == unit
    ensures plant.Some? ==> r.Keys == unit.Keys + (plant.value.Keys - OMITTED)
    ensures plant.Some? ==> forall k :: k in r ==>
      r[k] == if Takes(unit, plant.value, k) then plant.value[k] else unit[k]
    ensures plant.Some? ==> forall k :: k in unit && k in plant.value && plant.value[k] == Undefined ==> r[k] == unit[k]
  {
    if plant.Some? then unit + (map k | k in plant.value && Takes(unit, plant.value, k) :: plant.value[k]) else unit
  }

  /** The rewrite `_.forOwn` applies to one field: first the `_MW` rule, then
      the `Date` rule. */
  function ConvertField(key: string, v: Value, parse: string -> Number): (r: Value)
    ensures EndsWith(key, "_MW") ==> r == Num(ToNumber(parse, v))
    ensures EndsWith(key, "Date") ==> r == ParseDate(v)
    ensures !EndsWith(key, "_MW") && !EndsWith(key, "Date") ==> r == v
  {
    EndsWithExclusive(key, "_MW", "Date");
    var afterNumber := if EndsWith(key, "_MW") then Num(ToNumber(parse, v)) else v;
    if EndsWith(key, "Date") then ParseDate(afterNumber) else afterNumber
  }

  /** Every field of the row rewritten by its key's rule. */
  function Converted(row: Row, parse: string -> Number): (r: Row)
    ensures r.Keys == row.Keys
    ensures forall k :: k in row && EndsWith(k, "_MW") ==> r[k] == Num(ToNumber(parse, row[k]))
    ensures forall k :: k in row && EndsWith(k, "Date") ==> r[k] == ParseDate(row[k])
    ensures forall k :: k in row && !EndsWith(k, "_MW") && !EndsWith(k, "Date") ==> r[k] == row[k]
  {
    map k | k in row :: ConvertField(k, row[k], parse)
  }

  /** The row `apply` leaves for `unit`. */
  function Normalised(unit: Row, plants: seq<Row>, parse: string -> Number): (r: Row)
    ensures unit.Keys <= r.Keys
    ensures forall k :: k in r && k !in unit ==>
      PlantOf(unit, plants).Some? && k in PlantOf(unit, plants).value && k !in OMITTED
  {
    Converted(Merge(unit, PlantOf(unit, plants)), parse)
  }

  /** The normalised row has the unit's fields and, when a plant matches,
      the plant's fields other than `id` and `name`; with no matching plant
      it has exactly the unit's fields. */
  lemma NormalisedKeys(unit: Row, plants: seq<Row>, parse: string -> Number)
    ensures PlantOf(unit, plants).Some? ==>
      Normalised(unit, plants, parse).Keys == unit.Keys + (PlantOf(unit, plants).value.Keys - OMITTED)
    ensures PlantOf(unit, plants).None? ==> Normalised(unit, plants, parse).Keys == unit.Keys
  {
  }

  /** A field of the matching plant, other than `id` and `name`, overrides
      the unit's field of that name and is converted by its key's rule,
      unless it is `undefined` and the unit has the field. */
  lemma PlantFieldWins(unit: Row, plants: seq<Row>, parse: string -> Number, k: string)
    requires PlantOf(unit, plants).Some?
    requires k in PlantOf(unit, plants).value && k !in OMITTED
    requires !(PlantOf(unit, plants).value[k] == Undefined && k in unit)
    ensures k in Normalised(unit, plants, parse)
    ensures Normalised(unit, plants, parse)[k] == ConvertField(k, PlantOf(unit, plants).value[k], parse)
  {
  }

  /** A field of the unit that the plant does not supply (or that the plant
      may not supply: `id` and `name`, or supplies as `undefined`) keeps the
      unit's value, converted by its key's rule. */
  lemma UnitFieldKept(unit: Row, plants: seq<Row>, parse: string -> Number, k: string)
    requires k in unit
    requires PlantOf(unit, plants).None? || k !in PlantOf(unit, plants).value || k in OMITTED ||
      PlantOf(unit, plants).value[k] == Undefined
    ensures k in Normalised(unit, plants, parse)
    ensures Normalised(unit, plants, parse)[k] == ConvertField(k, unit[k], parse)
  {
  }

  /** The unit's own `id` and `name` are never overwritten, whatever plant
      matches. */
  lemma IdentityKept(unit: Row, plants: seq<Row>, parse: string -> Number)
    ensures "id" in unit ==> "id" in Normalised(unit, plants, parse) && Normalised(unit, plants, parse)["id"] == unit["id"]
    ensures "name" in unit ==> "name" in Normalised(unit, plants, parse) && Normalised(unit, plants, parse)["name"] == unit["name"]
  {
    assert !EndsWith("id", "_MW") && !EndsWith("id", "Date");
    assert "name"[0] != "Date"[0] && "name"[1] != "_MW"[0];
    assert !EndsWith("name", "_MW") && !EndsWith("name", "Date");
    if "id" in unit {
      UnitFieldKept(unit, plants, parse, "id");
    }
    if "name" in unit {
      UnitFieldKept(unit, plants, parse, "name");
    }
  }

  /** A plant field holding `undefined` does not erase the unit's value:
      `900` in the unit's `cap_MW` survives and is coerced to a number. */
  lemma UndefinedPlantFieldSkipped(parse: string -> Number)
    ensures var unit := map["plantId" := Text("P"), "cap_MW" := Text("900")];
      var plant := map["id" := Text("P"), "cap_MW" := Undefined];
      Normalised(unit, [plant], parse)["cap_MW"] == Num(parse("900"))
  {
    var unit := map["plantId" := Text("P"), "cap_MW" := Text("900")];
    var plant := map["id" := Text("P"), "cap_MW" := Undefined];
    assert MatchesPlant(unit, plant);
    assert PlantOf(unit, [plant]) == Some(plant);
    assert EndsWith("cap_MW", "_MW") by {
      assert "cap_MW"[|"cap_MW"| - |"_MW"|..] == "_MW";
    }
    UnitFieldKept(unit, [plant], parse, "cap_MW");
  }

  /** With no matching plant the row only has its own fields converted. */
  lemma NoPlantNoPlantFields(unit: Row, plants: seq<Row>, parse: string -> Number)
    requires forall p :: p in plants ==> !("id" in p && p["id"] == PlantIdOf(unit))
    ensures Normalised(unit, plants, parse) == Converted(unit, parse)
  {
  }

  /** The first plant with the unit's `plantId` is the one merged in, however
      many plants carry that id. */
  lemma FirstPlantUsed(unit: Row, plants: seq<Row>, i: nat, parse: string -> Number)
    requires i < |plants|
    requires "id" in plants[i] && plants[i]["id"] == PlantIdOf(unit)
    requires forall j :: 0 <= j < i ==> !("id" in plants[j] && plants[j]["id"] == PlantIdOf(unit))
    ensures Normalised(unit, plants, parse) == Converted(Merge(unit, Some(plants[i])), parse)
  {
    FindAt(plants, (p: Row) => MatchesPlant(unit, p), i);
  }

  /** One field converted twice is converted once. */
  lemma ConvertFieldIdempotent(key: string, v: Value, parse: string -> Number)
    ensures ConvertField(key, ConvertField(key, v, parse), parse) == ConvertField(key, v, parse)
  {
    EndsWithExclusive(key, "_MW", "Date");
    var once := ConvertField(key, v, parse);
    if EndsWith(key, "_MW") {
      assert once.Num? && ToNumber(parse, once) == once.n;
    } else if EndsWith(key, "Date") {
      assert once.Day? || once == InvalidDate;
    }
  }

  /** Converting an already converted row changes nothing: numbers stay
      numbers and dates stay dates. */
  lemma ConvertedIdempotent(row: Row, parse: string -> Number)
    ensures Converted(Converted(row, parse), parse) == Converted(row, parse)
  {
    var once := Converted(row, parse);
    var twice := Converted(once, parse);
    forall k | k in once ensures twice[k] == once[k] {
      assert once[k] == ConvertField(k, row[k], parse);
      assert twice[k] == ConvertField(k, once[k], parse);
      ConvertFieldIdempotent(k, row[k], parse);
    }
    assert twice.Keys == once.Keys;
  }

  /** The `_.forOwn` loop: every field of `unit` is rewritten in place by its
      key's rule; the order of the keys does not matter. */
  method ConvertFields(unit: Row, parse: string -> Number) returns (r: Row)
    ensures r == Converted(unit, parse)
  {
    r := unit;
    var pending := unit.Keys;
    while pending != {}
      invariant pending <= unit.Keys
      invariant r.Keys == unit.Keys
      invariant forall k :: k in unit && k !in pending ==> r[k] == ConvertField(k, unit[k], parse)
      invariant forall k :: k in pending ==> r[k] == unit[k]
      decreases pending
    {
      var key :| key in pending;
      if EndsWith(key, "_MW") {
        r := r[key := Num(ToNumber(parse, r[key]))];
      }
      if EndsWith(key, "Date") {
        r := r[key := ParseDate(r[key])];
      }
      pending := pending - {key};
    }
  }

  /** The body of `units.forEach`: merge the unit's plant, if any, then
      convert its fields. */
  method NormaliseRow(unit: Row, plants: seq<Row>, parse: string -> Number) returns (r: Row)
    ensures r == Normalised(unit, plants, parse)
  {
    r := unit;
    var plant := PlantOf(unit, plants);
    if plant.Some? {
      r := Merge(r, plant);
    }
    r := ConvertFields(r, parse);
  }

  /** The item the units job's `apply` hook runs on. */
  class UnitsItem {
    /** `item.data`: the unit rows read from the reactor CSV. */
    var data: seq<Row>
    /** `item.plants`: the plant rows read from the plant CSV. */
    var plants: Option<seq<Row>>

    constructor (data: seq<Row>, plants: Option<seq<Row>>)
      ensures this.data == data && this.plants == plants
    {
      this.data := data;
      this.plants := plants;
    }

    /** The hook: `plants` is removed, and each unit row is merged with its
        plant and converted, in place; no row is added or removed. */
    method Apply(parse: string -> Number)
      modifies this
      ensures plants == None
      ensures |data| == |old(data)|
      ensures forall i :: 0 <= i < |data| ==> data[i] == Normalised(old(data)[i], old(plants).GetOr([]), parse)
    {
      var owners := plants.GetOr([]);
      plants := None;
      var i := 0;
      while i < |data|
        invariant 0 <= i <= |data| && |data| == |old(data)|
        invariant plants == None
        invariant forall k :: 0 <= k < i ==> data[k] == Normalised(old(data)[k], owners, parse)
        invariant forall k :: i <= k < |data| ==> data[k] == old(data)[k]
      {
        var unit := NormaliseRow(data[i], owners, parse);
        data := data[i := unit];
        i := i + 1;
      }
    }
  }
}
