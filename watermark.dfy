/** The per-unit watermark: what the aggregation run against the generation
    collection before each fetch means. It keeps the stored records that have a
    power and a time at or after the window start, and then for each
    `properties.eicCode` keeps the latest time (sort by time descending, group
    by code, take the first). */
module Watermark {
  import opened Common
  import opened Window

  /** A stored generation document, as far as the aggregation looks at it. A
      document with no `properties.eicCode` has `None`, which the `$group`
      stage collects under a `null` key. */
  datatype StoredRecord = StoredRecord(eicCode: Option<string>, time: Instant, hasPower: bool)

  /** One result of the aggregation: the group key and the latest time. */
  datatype Entry = Entry(id: Option<string>, time: int)

  /** The `$match` stage: `properties.power` exists and `time >= start`. */
  predicate Qualifies(r: StoredRecord, start: int) {
    r.hasPower && r.time.At? && r.time.secs >= start
  }

  /** Folds one qualifying time into the groups found so far. */
  function Insert(wm: seq<Entry>, id: Option<string>, t: int): (r: seq<Entry>)
    ensures |wm| <= |r| <= |wm| + 1
  {
    if wm == [] then [Entry(id, t)]
    else if wm[0].id == id then [Entry(id, if t > wm[0].time then t else wm[0].time)] + wm[1..]
    else [wm[0]] + Insert(wm[1..], id, t)
  }

  /** The aggregation result, groups in the order their codes first occur. */
  function Aggregate(store: seq<StoredRecord>, start: int): (wm: seq<Entry>)
    ensures |wm| <= |store|
    ensures forall e :: e in wm ==> e.time >= start
  {
    if store == [] then []
    else
      var rest := Aggregate(store[..|store| - 1], start);
      var r := store[|store| - 1];
      if Qualifies(r, start) then
        InsertFrom(rest, r.eicCode, r.time.secs);
        Insert(rest, r.eicCode, r.time.secs)
      else rest
  }

  /** The group keys are distinct. */
  ghost predicate DistinctIds(wm: seq<Entry>) {
    forall i, j :: 0 <= i < j < |wm| ==> wm[i].id != wm[j].id
  }

  /** Every group after the fold was there before, or is the new one. */
  lemma {:induction false} InsertFrom(wm: seq<Entry>, id: Option<string>, t: int)
    ensures forall e :: e in Insert(wm, id, t) ==> e in wm || e == Entry(id, t)
  {
    if wm != [] && wm[0].id != id {
      InsertFrom(wm[1..], id, t);
      assert Insert(wm, id, t) == [wm[0]] + Insert(wm[1..], id, t);
    }
  }

  /** The fold never lowers a group's time, and the folded code ends up with
      a time at least `t`. */
  lemma {:induction false} InsertGrows(wm: seq<Entry>, id: Option<string>, t: int)
    ensures exists e :: e in Insert(wm, id, t) && e.id == id && e.time >= t
    ensures forall e :: e in wm ==> exists e' :: e' in Insert(wm, id, t) && e'.id == e.id && e'.time >= e.time
  {
    var r := Insert(wm, id, t);
    if wm == [] {
      assert r[0] == Entry(id, t);
    } else if wm[0].id == id {
      assert r[0].id == id && r[0].time >= t && r[0].time >= wm[0].time;
      forall e | e in wm ensures exists e' :: e' in r && e'.id == e.id && e'.time >= e.time {
        if e != wm[0] {
          assert e in wm[1..] && r == [r[0]] + wm[1..];
          assert e in r;
        } else {
          assert r[0] in r;
        }
      }
    } else {
      InsertGrows(wm[1..], id, t);
      assert r == [wm[0]] + Insert(wm[1..], id, t);
      var n :| n in Insert(wm[1..], id, t) && n.id == id && n.time >= t;
      assert n in r;
      forall e | e in wm ensures exists e' :: e' in r && e'.id == e.id && e'.time >= e.time {
        if e == wm[0] {
          assert r[0] == e;
        } else {
          assert e in wm[1..];
          var e' :| e' in Insert(wm[1..], id, t) && e'.id == e.id && e'.time >= e.time;
          assert e' in r;
        }
      }
    }
  }

  /** The fold keeps the group keys distinct. */
  lemma {:induction false} InsertDistinct(wm: seq<Entry>, id: Option<string>, t: int)
    requires DistinctIds(wm)
    ensures DistinctIds(Insert(wm, id, t))
  {
    if wm != [] && wm[0].id != id {
      InsertDistinct(wm[1..], id, t);
      InsertFrom(wm[1..], id, t);
      var r := Insert(wm, id, t);
      assert r == [wm[0]] + Insert(wm[1..], id, t);
      forall i, j | 0 <= i < j < |r| ensures r[i].id != r[j].id {
        if i == 0 {
          assert r[j] in Insert(wm[1..], id, t);
          if r[j] !in wm[1..] {
            assert r[j].id == id;
          } else {
            var k :| 0 <= k < |wm[1..]| && wm[1..][k] == r[j];
            assert wm[k + 1] == r[j];
          }
        }
      }
    }
  }

  /** The aggregation has one group per code. */
  lemma {:induction false} AggregateDistinct(store: seq<StoredRecord>, start: int)
    ensures DistinctIds(Aggregate(store, start))
  {
    if store != [] {
      var init := store[..|store| - 1];
      var last := store[|store| - 1];
      AggregateDistinct(init, start);
      if Qualifies(last, start) {
        InsertDistinct(Aggregate(init, start), last.eicCode, last.time.secs);
      }
    }
  }

  /** Each group's time is the time of a qualifying record of its code. */
  lemma {:induction false} AggregateWitnessed(store: seq<StoredRecord>, start: int)
    ensures forall e :: e in Aggregate(store, start) ==>
      exists r :: r in store && Qualifies(r, start) && r.eicCode == e.id && r.time.secs == e.time
  {
    if store != [] {
      var init := store[..|store| - 1];
      var last := store[|store| - 1];
      AggregateWitnessed(init, start);
      assert store == init + [last];
      var rest := Aggregate(init, start);
      var wm := Aggregate(store, start);
      if Qualifies(last, start) {
        InsertFrom(rest, last.eicCode, last.time.secs);
        forall e | e in wm
          ensures exists r :: r in store && Qualifies(r, start) && r.eicCode == e.id && r.time.secs == e.time
        {
          if e in rest {
            var r :| r in init && Qualifies(r, start) && r.eicCode == e.id && r.time.secs == e.time;
            assert r in store;
          } else {
            assert e == Entry(last.eicCode, last.time.secs);
            assert last in store;
          }
        }
      } else {
        forall e | e in wm
          ensures exists r :: r in store && Qualifies(r, start) && r.eicCode == e.id && r.time.secs == e.time
        {
          var r :| r in init && Qualifies(r, start) && r.eicCode == e.id && r.time.secs == e.time;
          assert r in store;
        }
      }
    }
  }

  /** Every qualifying record has the group of its code, at its time or
      later. */
  lemma {:induction false} AggregateCovers(store: seq<StoredRecord>, start: int)
    ensures forall r :: r in store && Qualifies(r, start) ==>
      exists e :: e in Aggregate(store, start) && e.id == r.eicCode && r.time.secs <= e.time
  {
    if store != [] {
      var init := store[..|store| - 1];
      var last := store[|store| - 1];
      AggregateCovers(init, start);
      assert store == init + [last];
      var rest := Aggregate(init, start);
      var wm := Aggregate(store, start);
      forall r | r in store && Qualifies(r, start)
        ensures exists e :: e in wm && e.id == r.eicCode && r.time.secs <= e.time
      {
        if Qualifies(last, start) {
          InsertGrows(rest, last.eicCode, last.time.secs);
          if r != last {
            assert r in init;
            var e :| e in rest && e.id == r.eicCode && r.time.secs <= e.time;
            var e' :| e' in wm && e'.id == e.id && e'.time >= e.time;
          }
        } else {
          assert r in init;
        }
      }
    }
  }

  /** What the aggregation computes: one entry per code that has a qualifying
      record, holding the latest qualifying time of that code. */
  lemma AggregateIsLatestPerCode(store: seq<StoredRecord>, start: int)
    ensures DistinctIds(Aggregate(store, start))
    ensures forall e :: e in Aggregate(store, start) ==>
      exists r :: r in store && Qualifies(r, start) && r.eicCode == e.id && r.time.secs == e.time
    ensures forall r :: r in store && Qualifies(r, start) ==>
      exists e :: e in Aggregate(store, start) && e.id == r.eicCode && r.time.secs <= e.time
  {
    AggregateDistinct(store, start);
    AggregateWitnessed(store, start);
    AggregateCovers(store, start);
  }

  /** The entry that `_.find(mostRecentData, d => d._id === eicCode)` picks. The
      code of a generation record without `unit.eic_code` is `undefined`, which
      is never `===` to a group key, not even the `null` one. */
  function LatestFor(wm: seq<Entry>, code: Option<string>): (r: Option<Entry>)
    ensures r.Some? ==> code.Some? && r.value.id == code && r.value in wm
    ensures r.None? <==> code.None? || forall e :: e in wm ==> e.id != code
  {
    Find(wm, (e: Entry) => code.Some? && e.id == code)
  }

  /** Some qualifying record carries `code`. */
  ghost predicate HasQualifying(store: seq<StoredRecord>, start: int, code: string) {
    exists r :: r in store && Qualifies(r, start) && r.eicCode == Some(code)
  }

  /** `t` is the time of a qualifying record of `code`, and no qualifying
      record of `code` is later. */
  ghost predicate IsLatestTime(store: seq<StoredRecord>, start: int, code: string, t: int) {
    (exists r :: r in store && Qualifies(r, start) && r.eicCode == Some(code) && r.time.secs == t) &&
    (forall r :: r in store && Qualifies(r, start) && r.eicCode == Some(code) ==> r.time.secs <= t)
  }

  /** Looking up a code in the aggregation result: there is an entry exactly
      when some qualifying record carries that code, and its time is the
      latest such record's time. */
  lemma LatestForAggregate(store: seq<StoredRecord>, start: int, code: string)
    ensures LatestFor(Aggregate(store, start), Some(code)).Some? <==> HasQualifying(store, start, code)
    ensures LatestFor(Aggregate(store, start), Some(code)).Some? ==>
      IsLatestTime(store, start, code, LatestFor(Aggregate(store, start), Some(code)).value.time)
  {
    var wm := Aggregate(store, start);
    var found := LatestFor(wm, Some(code));
    assert HasQualifying(store, start, code) ==> found.Some? by {
      AggregateCovers(store, start);
      LatestForCovered(store, start, wm, code);
    }
    assert found.Some? ==> exists r :: r in store && Qualifies(r, start) && r.eicCode == Some(code) && r.time.secs == found.value.time by {
      AggregateWitnessed(store, start);
      LatestForWitnessed(store, start, wm, code);
    }
    assert found.Some? ==> forall r :: r in store && Qualifies(r, start) && r.eicCode == Some(code) ==> r.time.secs <= found.value.time by {
      AggregateDistinct(store, start);
      AggregateCovers(store, start);
      LatestForUpper(store, start, wm, code);
    }
  }

  lemma LatestForCovered(store: seq<StoredRecord>, start: int, wm: seq<Entry>, code: string)
    requires forall r :: r in store && Qualifies(r, start) ==>
      exists e :: e in wm && e.id == r.eicCode && r.time.secs <= e.time
    ensures HasQualifying(store, start, code) ==> LatestFor(wm, Some(code)).Some?
  {
    if HasQualifying(store, start, code) {
      var r :| r in store && Qualifies(r, start) && r.eicCode == Some(code);
      var e :| e in wm && e.id == r.eicCode && r.time.secs <= e.time;
    }
  }

  lemma LatestForWitnessed(store: seq<StoredRecord>, start: int, wm: seq<Entry>, code: string)
    requires forall e :: e in wm ==>
      exists r :: r in store && Qualifies(r, start) && r.eicCode == e.id && r.time.secs == e.time
    ensures LatestFor(wm, Some(code)).Some? ==>
      exists r :: r in store && Qualifies(r, start) && r.eicCode == Some(code) && r.time.secs == LatestFor(wm, Some(code)).value.time
  {
  }

  lemma LatestForUpper(store: seq<StoredRecord>, start: int, wm: seq<Entry>, code: string)
    requires DistinctIds(wm)
    requires forall r :: r in store && Qualifies(r, start) ==>
      exists e :: e in wm && e.id == r.eicCode && r.time.secs <= e.time
    ensures LatestFor(wm, Some(code)).Some? ==>
      forall r :: r in store && Qualifies(r, start) && r.eicCode == Some(code) ==> r.time.secs <= LatestFor(wm, Some(code)).value.time
  {
    var found := LatestFor(wm, Some(code));
    if found.Some? {
      var e := found.value;
      forall r | r in store && Qualifies(r, start) && r.eicCode == Some(code)
        ensures r.time.secs <= e.time
      {
        var e' :| e' in wm && e'.id == r.eicCode && r.time.secs <= e'.time;
        var i :| 0 <= i < |wm| && wm[i] == e;
        var j :| 0 <= j < |wm| && wm[j] == e';
        assert !(i < j) && !(j < i);
      }
    }
  }
}
