/** The write of the units job: every converted unit is upserted into the
    units collection, matched on `properties.eicCode` (a unique index), its
    fields set over those of the stored document. The collection is a map from
    that code to the stored document, so the unique index holds by
    construction. */
module UnitsStore {
  import opened Values
  import opened Units

  /** The units collection: `properties.eicCode` to stored document. */
  type Store = map<string, Row>

  /** The filter value the template `<%= properties.eicCode %>` renders: the
      code's text, or the empty string when the document has none. */
  function KeyOf(doc: Row): (key: string)
    ensures "eicCode" in doc && doc["eicCode"].Text? ==> key == doc["eicCode"].s
    ensures key != "" ==> "eicCode" in doc && doc["eicCode"] == Text(key)
  {
    if "eicCode" in doc && doc["eicCode"].Text? then doc["eicCode"].s else ""
  }

  /** The stored document for `key`, empty when there is none yet. */
  function StoredAt(store: Store, key: string): Row {
    if key in store then store[key] else map[]
  }

  /** One upsert: the stored document (or a new one) with the document's
      fields set over it. */
  function Upsert(store: Store, doc: Row): (r: Store)
    ensures r.Keys == store.Keys + {KeyOf(doc)}
    ensures forall k :: k in store && k != KeyOf(doc) ==> r[k] == store[k]
    ensures r[KeyOf(doc)].Keys == StoredAt(store, KeyOf(doc)).Keys + doc.Keys
    ensures forall f :: f in r[KeyOf(doc)] ==>
      r[KeyOf(doc)][f] == if f in doc then doc[f] else store[KeyOf(doc)][f]
  {
    store[KeyOf(doc) := StoredAt(store, KeyOf(doc)) + doc]
  }

  /** The batch written in order. */
  function UpsertAll(store: Store, batch: seq<Row>): (r: Store)
    ensures store.Keys <= r.Keys
    ensures forall i :: 0 <= i < |batch| ==> KeyOf(batch[i]) in r
    decreases |batch|
  {
    if batch == [] then store else UpsertAll(Upsert(store, batch[0]), batch[1..])
  }

  /** The fields the batch sets under `key`, later documents winning. */
  function Overlay(batch: seq<Row>, key: string): Row {
    if batch == [] then map[]
    else (if KeyOf(batch[0]) == key then batch[0] else map[]) + Overlay(batch[1..], key)
  }

  lemma UnionAssoc(a: Row, b: Row, c: Row)
    ensures (a + b) + c == a + (b + c)
  {
  }

  /** After the batch, a key is stored exactly when it was stored before or
      a document of the batch carries it. */
  lemma {:induction false} UpsertAllKeys(store: Store, batch: seq<Row>, key: string)
    ensures key in UpsertAll(store, batch) <==> key in store || exists d :: d in batch && KeyOf(d) == key
    decreases |batch|
  {
    if batch != [] {
      UpsertAllKeys(Upsert(store, batch[0]), batch[1..], key);
      assert forall d :: d in batch <==> d == batch[0] || d in batch[1..];
    }
  }

  /** The stored document under a key after the batch is the old document
      with the fields of the batch's documents for that key set over it, in
      batch order. */
  lemma {:induction false} UpsertAllValue(store: Store, batch: seq<Row>, key: string)
    ensures StoredAt(UpsertAll(store, batch), key) == StoredAt(store, key) + Overlay(batch, key)
    decreases |batch|
  {
    if batch != [] {
      var next := Upsert(store, batch[0]);
      var later := Overlay(batch[1..], key);
      if KeyOf(batch[0]) == key {
        calc {
          StoredAt(UpsertAll(store, batch), key);
          StoredAt(UpsertAll(next, batch[1..]), key);
          { UpsertAllValue(next, batch[1..], key); }
          StoredAt(next, key) + later;
          (StoredAt(store, key) + batch[0]) + later;
          { UnionAssoc(StoredAt(store, key), batch[0], later); }
          StoredAt(store, key) + (batch[0] + later);
          StoredAt(store, key) + Overlay(batch, key);
        }
      } else {
        calc {
          StoredAt(UpsertAll(store, batch), key);
          StoredAt(UpsertAll(next, batch[1..]), key);
          { UpsertAllValue(next, batch[1..], key); }
          StoredAt(next, key) + later;
          StoredAt(store, key) + later;
          { assert Overlay(batch, key) == map[] + later == later; }
          StoredAt(store, key) + Overlay(batch, key);
        }
      }
    } else {
      assert StoredAt(store, key) + map[] == StoredAt(store, key);
    }
  }

  /** After the batch, the document under a key is the old document with the
      fields of the batch's documents for that key set over it, and the keys
      are the old keys plus those of the batch. */
  lemma UpsertAllAt(store: Store, batch: seq<Row>, key: string)
    ensures key in UpsertAll(store, batch) <==> key in store || exists d :: d in batch && KeyOf(d) == key
    ensures key in UpsertAll(store, batch) ==> UpsertAll(store, batch)[key] == StoredAt(store, key) + Overlay(batch, key)
  {
    UpsertAllKeys(store, batch, key);
    UpsertAllValue(store, batch, key);
  }

  /** Writing the same batch twice leaves the collection as writing it once. */
  lemma UpsertAllIdempotent(store: Store, batch: seq<Row>)
    ensures UpsertAll(UpsertAll(store, batch), batch) == UpsertAll(store, batch)
  {
    var once := UpsertAll(store, batch);
    var twice := UpsertAll(once, batch);
    forall key | key in once || key in twice
      ensures key in once && key in twice && twice[key] == once[key]
    {
      UpsertAllTwiceAt(store, batch, key);
    }
    assert once.Keys == twice.Keys;
  }

  /** Writing the batch a second time changes nothing under one key. */
  lemma UpsertAllTwiceAt(store: Store, batch: seq<Row>, key: string)
    ensures key in UpsertAll(UpsertAll(store, batch), batch) <==> key in UpsertAll(store, batch)
    ensures key in UpsertAll(store, batch) ==>
      UpsertAll(UpsertAll(store, batch), batch)[key] == UpsertAll(store, batch)[key]
  {
    var once := UpsertAll(store, batch);
    UpsertAllAt(store, batch, key);
    UpsertAllAt(once, batch, key);
    if key in once {
      var o := Overlay(batch, key);
      assert StoredAt(once, key) == StoredAt(store, key) + o;
      UnionAssoc(StoredAt(store, key), o, o);
      UnionSelf(o);
    }
  }

  lemma UnionSelf(a: Row)
    ensures a + a == a
  {
  }

  /** The last document of the batch for a key sets every one of its
      fields. */
  lemma {:induction false} LastWriteWins(store: Store, batch: seq<Row>, i: nat)
    requires i < |batch|
    requires forall j :: i < j < |batch| ==> KeyOf(batch[j]) != KeyOf(batch[i])
    ensures KeyOf(batch[i]) in UpsertAll(store, batch)
    ensures forall f :: f in batch[i] ==>
      (f in UpsertAll(store, batch)[KeyOf(batch[i])] && UpsertAll(store, batch)[KeyOf(batch[i])][f] == batch[i][f])
  {
    var key := KeyOf(batch[i]);
    UpsertAllAt(store, batch, key);
    OverlayLast(batch, i);
  }

  lemma {:induction false} OverlayLast(batch: seq<Row>, i: nat)
    requires i < |batch|
    requires forall j :: i < j < |batch| ==> KeyOf(batch[j]) != KeyOf(batch[i])
    ensures forall f :: f in batch[i] ==> f in Overlay(batch, KeyOf(batch[i])) && Overlay(batch, KeyOf(batch[i]))[f] == batch[i][f]
  {
    var key := KeyOf(batch[i]);
    if i == 0 {
      OverlayNone(batch[1..], key);
    } else {
      OverlayLast(batch[1..], i - 1);
    }
  }

  lemma {:induction false} OverlayNone(batch: seq<Row>, key: string)
    requires forall j :: 0 <= j < |batch| ==> KeyOf(batch[j]) != key
    ensures Overlay(batch, key) == map[]
  {
    if batch != [] {
      OverlayNone(batch[1..], key);
    }
  }
}
