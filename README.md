# k-rte ingestion core in Dafny

This project models the two transforms of k-rte, the job files that feed RTE's
actual generation per production unit into a MongoDB store. Both transforms run
in the `apply` hooks of their job files.

- **Generation reconciliation** (`jobfile-generation.js`). The raw API batch
  is filtered by production type. Each record is matched to the first catalog
  unit with its EIC code. One GeoJSON-like feature is emitted for every value
  whose `end_date` is strictly after that code's watermark. The watermark is
  the latest stored time per code, computed by an aggregation over the fetch
  window. The window runs from the midnight at or before `now - history` to
  the midnight after `now`.
- **Unit catalog normalisation** (`jobfile-units.js`). Each reactor row is
  joined with its plant row by `plantId`. It takes the plant's fields except
  `id` and `name`. Then every `*_MW` field is coerced to a number and every
  `*Date` field is parsed as a `DD/MM/YYYY` UTC date. The rows are then
  upserted into the units collection, keyed on `properties.eicCode`.

Files, one module each:

- `common.dfy` (`Common`): `Option`, and `Find`, the first-match search that `_.find` performs.
- `strings.dfy` (`Strings`): `split`/`join` on one character, `endsWith`, and decimal digit runs.
- `values.dfy` (`Values`): field values, the `_.toNumber` coercion, and the `DD/MM/YYYY` parser.
- `window.dfy` (`Window`): instants, day flooring, the fetch window, and the default allow-list.
- `watermark.dfy` (`Watermark`): what the watermark aggregation computes, and the per-code lookup.
- `generation.dfy` (`Generation`): the reconciliation as functions, and its properties.
- `generation_job.dfy` (`GenerationJob`): the item object and its imperative `apply` hook.
- `units.dfy` (`Units`): plant join, suffix conversion, and the item object with its `apply` hook.
- `units_store.dfy` (`UnitsStore`): the keyed upsert of the units collection.

Time is whole seconds since the epoch, in UTC, and a day-floor is `t - t % 86400`.
A timestamp that moment cannot parse is the instant `Invalid`.
`_.toNumber` on a string is a parameter `parse: string -> Number` that may give
`NaN`. NaN is never treated as zero.

Notable behaviours of the code, which the model follows:

- An `end_date` that does not parse is emitted, not dropped. moment's `isSameOrBefore` is false for an invalid date (`InvalidEndDateEmittedAgain`).
- The production-type filter is always applied, because an array is truthy even when empty. The allow-list read from the environment is never empty (`TypeFilterFromEnv`).
- Nothing makes `(code, time)` unique within a batch. The generation collection has no unique index either (`RepeatedValueEmittedTwice`).
- Matching is by exact EIC code only. There is no name-based matching in this code.
- A record without `unit.eic_code` matches the first catalog unit without `properties.eicCode` (`undefined === undefined`). It never finds a watermark entry, since the aggregation groups such documents under `null`.

## Model

| member | source | states |
|---|---|---|
| Common.Find | jobfile-generation.js:76 | the result is the first element that satisfies the predicate; it is None exactly when no element does |
| Common.FindAt | jobfile-units.js:37 | when an element satisfies the predicate and none before it does, that element is what is found |
| Strings.Split | jobfile-generation.js:7 | `split(',')` yields at least one piece, and no piece contains the separator |
| Strings.JoinSplit | jobfile-generation.js:7 | joining the pieces of a split gives back the original string |
| Strings.SplitJoin | jobfile-generation.js:7 | splitting a join of separator-free pieces gives the pieces back |
| Strings.EndsWithExclusive | jobfile-units.js:43-44 | no key ends both with `_MW` and with `Date`, so at most one rule rewrites a field |
| Strings.DigitsValuePad | jobfile-units.js:44 | a zero-padded number read back as digits gives the number |
| Window.FloorDay | jobfile-generation.js:8-9 | `startOf('day')` gives the midnight at or before `t`, a whole number of days |
| Window.WindowAt | jobfile-generation.js:8-9 | start is the midnight at or before `now - history`; end is a midnight with `end - 1 day <= now < end` |
| Window.WindowContainsNow | jobfile-generation.js:8-9 | with a non-negative history, `start <= now < end`, `end` is `floorDay(now) + 1 day`, and the window spans whole days and more than `history` |
| Window.WindowExample | jobfile-generation.js:8-9 | 2024-03-10T15:00Z with one day of history gives 2024-03-09T00:00Z to 2024-03-11T00:00Z |
| Window.TypeFilterFromEnv | jobfile-generation.js:7 | the allow-list is never empty; unset or empty means `['NUCLEAR']`; otherwise no entry contains a comma and the entries joined with commas give back the variable's value |
| Window.TypeFilterIsSplit | jobfile-generation.js:7 | a non-empty variable that is a comma-join of comma-free names gives exactly those names |
| Window.TypeFilterExample | jobfile-generation.js:7 | `NUCLEAR,WIND` gives the allow-list `['NUCLEAR', 'WIND']` |
| Watermark.Insert | jobfile-generation.js:47-52 | folding one record into the groups changes the number of groups by at most one; `InsertGrows` and `InsertFrom` show no group is lost and a code's time only grows |
| Watermark.Aggregate | jobfile-generation.js:42-54 | there are no more groups than stored documents, and every group's time is at or after the window start |
| Watermark.AggregateIsLatestPerCode | jobfile-generation.js:42-54 | one entry per code with qualifying records (`Qualifies`: the `$match` stage, power present and a valid `time >= start`); each entry's time is that of such a record and no qualifying record of that code is later |
| Watermark.LatestFor | jobfile-generation.js:84 | the entry found has the record's code and comes from the aggregation; an undefined code finds no entry |
| Watermark.LatestForAggregate | jobfile-generation.js:42-54 | looking up a code finds an entry exactly when a qualifying record has that code, and the entry's time is the latest qualifying time for that code |
| Generation.FilterByType | jobfile-generation.js:70 | the filtered list is no longer than the input; which records it keeps is `FilterByTypeMember` |
| Generation.NewFeatures | jobfile-generation.js:86-97 | at most one feature per value; every feature carries the unit's code, name and geometry; with a watermark entry, every feature with a valid time is strictly later than it |
| Generation.FeaturesOf | jobfile-generation.js:74-98 | a record contributes at most one feature per value, none unless a catalog unit matches its code, and each feature carries the record's code |
| Generation.ReconcileAll | jobfile-generation.js:73-99 | the features of the records number at most their values |
| Generation.FilterByTypeMember | jobfile-generation.js:69-71 | a record is in the filtered list exactly when it is in the input and its production type is in the allow-list |
| Generation.IsNew | jobfile-generation.js:89 | a value is kept unless it is `isSameOrBefore` (`SameOrBefore`) the watermark entry: kept when the unit has no entry or its end date is invalid, and otherwise exactly when its end date is strictly later than the entry's time |
| Generation.Reconcile | jobfile-generation.js:69-99 | the batch has at most one feature per value of the accepted records, so no more than the raw values, and every feature carries the code, name and geometry of a catalog unit (via `ReconcileAllFromUnits`) |
| Generation.FilterByTypeTotal | jobfile-generation.js:70 | the type filter never adds values |
| Generation.MatchUnit | jobfile-generation.js:74-77 | the unit found has the record's code and no earlier unit does; none is found exactly when no unit has the code |
| Generation.NewFeaturesAppend | jobfile-generation.js:86-97 | values are processed in order, so the features for `a + b` are those for `a` followed by those for `b` |
| Generation.ReconcileAllAppend | jobfile-generation.js:73-99 | records are processed in order, so the features for `a + b` are those for `a` followed by those for `b` |
| Generation.FilterByTypeAppend | jobfile-generation.js:70 | the type filter keeps the input order |
| Generation.ReconcileAppend | jobfile-generation.js:69-99 | the output is in input record order: the batch of a concatenation is the concatenation of the batches |
| Generation.SingleRecord | jobfile-generation.js:69-98 | one record contributes its matched, new values when accepted and nothing otherwise |
| Generation.DroppedRecordContributesNothing | jobfile-generation.js:69-77 | a record of a filtered-out type, or one that no unit matches, contributes no feature anywhere in the batch |
| Generation.ReconcileMember | jobfile-generation.js:69-97 | a feature is in the batch exactly when an accepted, matched record has a value newer than its watermark; the feature (`MakeFeature`) copies the unit's code, name and geometry, takes the value's end date as time and `_.toNumber` of the value (`ToNumber`) as power |
| Generation.EmittedPassFilter | jobfile-generation.js:69-82 | every feature comes from a record of the input whose type is in the allow-list and whose code it carries |
| Generation.EmittedAfterWatermark | jobfile-generation.js:84-89 | a feature with a watermark entry for its code and a valid time is strictly later than the entry, so equal times are dropped |
| Generation.AllValuesWithoutWatermark | jobfile-generation.js:84-97 | with no watermark entry, every value of an accepted, matched record is emitted, in order |
| Generation.RerunIsEmpty | jobfile-generation.js:42-97 | after the batch is stored and the watermark recomputed over the same window, the same input yields an empty batch (all codes present, all end dates valid and in the window) |
| Generation.CoveredAfterWrite | jobfile-generation.js:84-89 | for a record that has a code and a value whose end date is valid and at or after the window start: after the write, the value of an accepted, matched record is no newer than the recomputed watermark of its code |
| Generation.Stored | jobfile-generation.js:91-96 | the stored document keeps the feature's code and time and always has a power key, so it qualifies for the watermark exactly when its time is valid and not before the window start |
| Generation.StoredBatch | jobfile-generation.js:102-113 | the write stores one document per feature, in order, and each document qualifies for the next watermark exactly when its feature's time is valid and not before the window start |
| Generation.InvalidEndDateEmittedAgain | jobfile-generation.js:87-89 | a value with an unparseable end date is emitted, and it is emitted again after it is stored |
| Generation.RepeatedValueEmittedTwice | jobfile-generation.js:86-96 | a value listed twice gives two identical features |
| GenerationJob.PushNewValues | jobfile-generation.js:86-97 | the inner loop appends exactly the features of the new values, in order |
| GenerationJob.ReconcileAllSnoc | jobfile-generation.js:73-99 | processing one more record appends that record's features |
| GenerationJob.GenerationItem.Apply | jobfile-generation.js:61-103 | `units` is deleted, `mostRecentData` is untouched, and `data` becomes the reconciled batch of the filtered records of `_.get(item, 'data.actual_generations_per_unit', [])` (`GenerationOf`) |
| Values.DaysFromEpoch | jobfile-units.js:43-44 | the day count of a date, which is 0 at 1970-01-01; `DaysFromEpochNext` shows it grows by one from each day to the next |
| Values.YearOf | jobfile-units.js:44 | a two-digit year is read as 1969-2068 keeping its two digits (moment's pivot); any other width is read as written |
| Values.DaysFromEpochAnchor | jobfile-units.js:43-44 | 1970-01-01 is day 0 of the day count behind a date's milliseconds |
| Values.DaysFromEpochNext | jobfile-units.js:43-44 | the day after any existing day is the next day number, across month ends, Februaries of leap and common years and year ends |
| Values.DaysFromEpochExamples | jobfile-units.js:43-44 | 2000-03-01 is day 11017 and 2024-03-10 is day 19792 |
| Values.MarchYearLength | jobfile-units.js:43-44 | the year from March 1 of `y` has 366 days exactly when `y + 1` is a Gregorian leap year |
| Values.NextDay | jobfile-units.js:44 | the day after an existing day exists, in the same year or on January 1 of the next one |
| Values.ToNumber | jobfile-units.js:43 | `_.toNumber`: `undefined` and an invalid date give NaN, a number stays itself, a string is read by `parse`; a date's number is 0 at 1970-01-01 |
| Values.ToNumberNextDay | jobfile-units.js:43 | with the anchor above, a date's number is its milliseconds since the epoch: each next day adds 86400000 |
| Values.ParseDayMonthYear | jobfile-units.js:44 | the result is a date that exists or an invalid date |
| Values.ParseFields | jobfile-units.js:44 | fields of 1-2, 1-2 and 1-4 digits joined by `/` parse to the day they name when it exists, with a two-digit year read through the pivot, and to an invalid date otherwise |
| Values.ParsedFields | jobfile-units.js:44 | a successful parse came from exactly three digit fields of those widths joined by `/`, and the day is the one they name |
| Values.YearOfRange | jobfile-units.js:44 | a year token of one to four digits names a year from 0 to 9999 |
| Values.FormatInvalidDay | jobfile-units.js:44 | the `DD/MM/YYYY` text of a day that does not exist parses to an invalid date, not a rolled-over day |
| Values.ParseOverflowExample | jobfile-units.js:44 | `31/02/2020` is an invalid date |
| Values.ParsePivotExample | jobfile-units.js:44 | `1/3/69` is 1 March 1969 |
| Values.ParseFormatDayMonthYear | jobfile-units.js:44 | the `DD/MM/YYYY` text of a day, with a year from 0 to 9999, parses back to that day |
| Values.ParseDate | jobfile-units.js:44 | the conversion of a `*Date` field always gives a date or an invalid date |
| Units.PlantOf | jobfile-units.js:37 | the plant found has an `id` equal to the unit's `plantId` (`undefined` when the unit has none, so a plant whose `id` holds `undefined` matches) and no earlier plant does; none is found exactly when no plant matches |
| Units.Merge | jobfile-units.js:38-39 | with no plant the unit is unchanged; otherwise the row has the unit's keys plus the plant's keys other than `id` and `name`; the plant's value wins for those, except that an `undefined` plant value leaves a value the unit has; the unit's value stays for the rest |
| Units.ConvertField | jobfile-units.js:42-44 | a `*_MW` field holds the numeric coercion of its value, a `*Date` field holds the parsed date, and any other field is unchanged |
| Units.Normalised | jobfile-units.js:35-45 | the row keeps every key of the unit, and any key it gains comes from the matching plant and is neither `id` nor `name` |
| Units.Converted | jobfile-units.js:42-45 | the converted row has the same keys, and each field is rewritten by the rule of its key's suffix |
| Units.NormalisedKeys | jobfile-units.js:37-39 | the row keeps its keys and gains the matching plant's keys except `id` and `name`; with no plant the keys are unchanged |
| Units.PlantFieldWins | jobfile-units.js:37-44 | a plant field other than `id` and `name` overrides the unit's field, unless it is `undefined` and the unit has the field; then it is converted |
| Units.UnitFieldKept | jobfile-units.js:37-44 | a unit field the plant does not supply, may not supply (`id`, `name`) or supplies as `undefined` keeps the unit's value, then is converted |
| Units.UndefinedPlantFieldSkipped | jobfile-units.js:37-44 | a unit's `cap_MW` of `"900"` survives a plant whose `cap_MW` is `undefined`, and is coerced to a number |
| Units.IdentityKept | jobfile-units.js:39 | the unit's own `id` and `name` are never overwritten |
| Units.NoPlantNoPlantFields | jobfile-units.js:37-38 | a unit whose `plantId` matches no plant only has its own fields converted |
| Units.FirstPlantUsed | jobfile-units.js:37 | when several plants share the `id`, the first one is merged |
| Units.ConvertedIdempotent | jobfile-units.js:42-45 | converting a converted row again changes nothing |
| Units.ConvertFields | jobfile-units.js:42-45 | the `_.forOwn` loop rewrites every field in place to its converted value |
| Units.NormaliseRow | jobfile-units.js:35-45 | the body of the loop over units leaves exactly the normalised row: plant merged when one matches, then fields converted |
| Units.UnitsItem.Apply | jobfile-units.js:31-48 | `plants` is deleted, the number of units is unchanged, and each unit row becomes its normalised row |
| UnitsStore.KeyOf | jobfile-units.js:56 | the key is the document's `eicCode` text, and the empty string when the document has no text code |
| UnitsStore.Upsert | jobfile-units.js:54-58 | the key's document is the stored one (or a new empty one) with the document's fields set over it; every other stored document is unchanged, and only the key is added |
| UnitsStore.UpsertAll | jobfile-units.js:54-58 | writing the batch in order keeps every stored key and stores a document under the key of each document in the batch |
| UnitsStore.UpsertAllTwiceAt | jobfile-units.js:54-58 | writing the batch a second time leaves each key's document as it is |
| UnitsStore.UpsertAllAt | jobfile-units.js:54-58 | after the batch, a code is stored exactly when it was stored or a document carries it; its document is the old one with the batch's documents for that code set over it in order |
| UnitsStore.UpsertAllIdempotent | jobfile-units.js:54-58 | writing the same batch twice leaves the collection as writing it once |
| UnitsStore.LastWriteWins | jobfile-units.js:54-58 | the stored document for a code holds every field of the last document written for that code |

## Left out

- The HTTP task, the OAuth token exchange and the RTE URLs are network I/O. The raw batch is an input.
- The MongoDB side is store plumbing: connect and disconnect, collection and index creation, the TTL index, `allowDiskUse` and the 256-document chunks. The aggregation is modelled only for what it computes. The generation write is modelled as appending the stored documents.
- `readJson`, `readCSV`, `convertToGeoJson`, `createStores`, `removeStores` and `clearData` are library hooks whose source is not part of this model. For the upsert, a unit's converted row stands for its `properties`.
- The environment reads at module load become parameters. `TTL` and `HISTORY` are plain integers, and the DB URL is not modelled.
- The window is computed once, when the job file loads. The model takes a single `now`, so the two `moment.utc()` calls are one instant.
- `console.log` output is left out, because it does not affect results.
- ISO-8601 parsing of `end_date` is left out. A value carries the instant moment would produce, or `Invalid`.
- Calendar and time-zone behaviour of moment beyond a UTC day-floor is left out.
- The time comparison in the `$match` stage is modelled on instants. The stage compares `time` with `startDate.format()`, a string, while the write stores `time` as a `Date`; the model assumes the aggregation hook compares the two as instants. `RerunIsEmpty` and `CoveredAfterWrite` hold only under that assumption.
- Values.ParseDayMonthYear: only the strict shape `D{1,2}/M{1,2}/Y{1,4}` parses. moment's forgiving mode reads `01-03-2020` as 1 March 2020, and the model gives an invalid date.
- Values.ParsedFields: states that a successful parse has the strict shape, which moment's forgiving mode does not guarantee.
- Values.ParseDate: moment's forgiving `DD/MM/YYYY` mode is not modelled. That mode skips stray characters and accepts partial input. Strings outside `D{1,2}/M{1,2}/Y{1,4}` are modelled as an invalid date. A non-string, non-`Date` input is also modelled as an invalid date.
- Values.ToNumber: float semantics are left out. Numbers are reals or NaN, and reading a string as a number is the `parse` parameter.
- UnitsStore.KeyOf: a document without a text `eicCode` is keyed by the empty string, which is how the filter template renders a missing code. A numeric code is keyed by the empty string rather than its printed form; CSV cells are always text. On an insert, the filter's `properties.eicCode: ''` is not added to the stored document.
- Units.Merge: lodash's deep merge into nested objects is modelled as a flat merge of top-level fields. lodash's rule for `undefined` source values is kept: such a value is assigned only when the unit lacks the key.
- Units.PlantOf, Generation.MatchUnit: matching uses equality of modelled values, which is JavaScript's `===` for text and `undefined` only. JavaScript has `NaN !== NaN`, and two `Date` objects are never `===`. Neither case arises from CSV text or JSON strings, so it is not modelled.
- UnitsStore.Upsert: the update operator of the upsert hook is not part of this model. It is modelled as a per-field `$set` inside `properties` (the row stands for `properties`): each field of the new document is set over the stored one and the other stored fields stay. A top-level `$set` of the whole feature would replace `properties` outright instead; the model does not cover that reading. A replacing update would keep the idempotence.
- `workersLimit` and job serialisation are concurrency concerns and are left out.
- Generation.RerunIsEmpty: idempotence is proved only for records with an EIC code and end dates that are valid and at or after the window start. `InvalidEndDateEmittedAgain` shows the end-date condition is needed. Without a code, a record never finds a watermark entry.
