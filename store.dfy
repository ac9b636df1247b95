/** The keyed record store under the four database classes (users, sessions,
    invitations, meetings). Each class keeps a collection of raw records, one
    per storage key; a raw record carries its logical `_id` and its creation
    and update times beside the entity's own fields. Reads take a snapshot of
    the whole collection and filter it in memory; an upsert deletes the first
    record with the same logical id and writes the new one under that record's
    storage key. */
module Store {
  import opened Common

  /** A document's storage key (the Firestore document id). */
  type Key = string

  /** A stored record: its logical id (`_id` in the raw shape), the entity's
      own fields, and the creation and update times in milliseconds. */
  datatype Raw<R> = Raw(id: string, body: R, createdAt: int, updatedAt: int)

  /** A record together with the storage key it lives under. The typed records
      the database classes return are this pair: their `_id` is the key and
      their `id` is the raw record's logical id. */
  datatype Doc<R> = Doc(key: Key, raw: Raw<R>)

  predicate UniqueKeys<R>(docs: seq<Doc<R>>)
  {
    forall i, j | 0 <= i < j < |docs| :: docs[i].key != docs[j].key
  }

  predicate UniqueIds<R>(docs: seq<Doc<R>>)
  {
    forall i, j | 0 <= i < j < |docs| :: docs[i].raw.id != docs[j].raw.id
  }

  ghost function KeysOf<R>(docs: seq<Doc<R>>): set<Key>
  {
    set d | d in docs :: d.key
  }

  /** The filter that selects the raw record with a given logical id. */
  function HasId<R>(id: string): Raw<R> -> bool
  {
    (r: Raw<R>) => r.id == id
  }

  /** The filter of `getAllX`. */
  function Everything<R>(): Raw<R> -> bool
  {
    (r: Raw<R>) => true
  }

  /** `getXByFilter`: the records whose raw shape satisfies the filter, in
      store order. */
  function Select<R>(docs: seq<Doc<R>>, f: Raw<R> -> bool): (r: seq<Doc<R>>)
    ensures |r| <= |docs|
    ensures forall d | d in r :: d in docs && f(d.raw)
    ensures forall d | d in docs && f(d.raw) :: d in r
  {
    if docs == [] then []
    else (if f(docs[0].raw) then [docs[0]] else []) + Select(docs[1..], f)
  }

  /** Filtering keeps order and multiplicity: the selection from two stretches
      of the store is the selection from the first followed by the selection
      from the second. */
  lemma {:induction false} SelectAppend<R>(a: seq<Doc<R>>, b: seq<Doc<R>>, f: Raw<R> -> bool)
    ensures Select(a + b, f) == Select(a, f) + Select(b, f)
  {
    if a == [] {
      assert a + b == b;
    } else {
      var head := if f(a[0].raw) then [a[0]] else [];
      assert (a + b)[0] == a[0];
      assert (a + b)[1..] == a[1..] + b;
      SelectAppend(a[1..], b, f);
      calc {
        Select(a + b, f);
        head + Select(a[1..] + b, f);
        head + (Select(a[1..], f) + Select(b, f));
        (head + Select(a[1..], f)) + Select(b, f);
      }
    }
  }

  /** A single record is kept exactly when it passes the filter. */
  lemma SelectOne<R>(d: Doc<R>, f: Raw<R> -> bool)
    ensures Select([d], f) == if f(d.raw) then [d] else []
  {
    assert [d][1..] == [];
  }

  /** The position of the first record that satisfies the filter, or the
      length of the store when none does. */
  function FirstIndex<R>(docs: seq<Doc<R>>, f: Raw<R> -> bool): (i: nat)
    ensures i <= |docs|
    ensures forall j | 0 <= j < i :: !f(docs[j].raw)
    ensures i < |docs| ==> f(docs[i].raw)
  {
    if docs == [] then 0
    else if f(docs[0].raw) then 0
    else 1 + FirstIndex(docs[1..], f)
  }

  lemma {:induction false} SelectHead<R>(docs: seq<Doc<R>>, f: Raw<R> -> bool)
    ensures Select(docs, f) == [] <==> FirstIndex(docs, f) == |docs|
    ensures Select(docs, f) != [] ==> Select(docs, f)[0] == docs[FirstIndex(docs, f)]
  {
    if docs != [] && !f(docs[0].raw) {
      SelectHead(docs[1..], f);
    }
  }

  /** `getXByFilter(filter)[0] || null`: the first matching record in store
      order, or nothing. */
  function First<R>(docs: seq<Doc<R>>, f: Raw<R> -> bool): (r: Option<Doc<R>>)
    ensures r.None? <==> forall d | d in docs :: !f(d.raw)
    ensures r.Some? ==> r.value in docs && f(r.value.raw)
    ensures r.Some? ==> r.value == docs[FirstIndex(docs, f)]
  {
    SelectHead(docs, f);
    var matches := Select(docs, f);
    if matches == [] then None else Some(matches[0])
  }

  /** What deleting the document under each key of `ks` leaves behind. */
  function Drop<R>(docs: seq<Doc<R>>, ks: set<Key>): seq<Doc<R>>
  {
    if docs == [] then []
    else (if docs[0].key in ks then [] else [docs[0]]) + Drop(docs[1..], ks)
  }

  /** A deletion keeps exactly the records under the other keys. */
  lemma {:induction false} DropMembers<R>(docs: seq<Doc<R>>, ks: set<Key>)
    ensures forall d | d in Drop(docs, ks) :: d in docs && d.key !in ks
    ensures forall d | d in docs && d.key !in ks :: d in Drop(docs, ks)
  {
    if docs != [] {
      DropMembers(docs[1..], ks);
      assert docs == [docs[0]] + docs[1..];
    }
  }

  /** `doc(key).set(raw)`: overwrites the document stored under `key` in place,
      or adds it at the end when no document has that key. */
  function Put<R>(docs: seq<Doc<R>>, k: Key, raw: Raw<R>): (r: seq<Doc<R>>)
    ensures Doc(k, raw) in r
  {
    if docs == [] then [Doc(k, raw)]
    else if docs[0].key == k then [Doc(k, raw)] + docs[1..]
    else [docs[0]] + Put(docs[1..], k, raw)
  }

  /** A record under a key no other record has keeps keys unique. */
  lemma ConsKeepsKeysUnique<R>(x: Doc<R>, docs: seq<Doc<R>>)
    requires UniqueKeys(docs)
    requires forall d | d in docs :: d.key != x.key
    ensures UniqueKeys([x] + docs)
  {
    forall i, j | 0 <= i < j < |[x] + docs|
      ensures ([x] + docs)[i].key != ([x] + docs)[j].key
    {
      if i == 0 {
        assert ([x] + docs)[j] == docs[j - 1];
        assert docs[j - 1] in docs;
      }
    }
  }

  /** Under unique keys, a write leaves the written record and every record
      under another key, nothing else, and keys stay unique. */
  lemma {:induction false} PutMembers<R>(docs: seq<Doc<R>>, k: Key, raw: Raw<R>)
    requires UniqueKeys(docs)
    ensures UniqueKeys(Put(docs, k, raw))
    ensures forall d | d in Put(docs, k, raw) :: d == Doc(k, raw) || (d in docs && d.key != k)
    ensures forall d | d in docs && d.key != k :: d in Put(docs, k, raw)
  {
    if docs != [] {
      var rest := docs[1..];
      HeadKeyFresh(docs);
      assert docs == [docs[0]] + rest;
      if docs[0].key == k {
        ConsKeepsKeysUnique(Doc(k, raw), rest);
      } else {
        PutMembers(rest, k, raw);
        ConsKeepsKeysUnique(docs[0], Put(rest, k, raw));
      }
    }
  }

  /** A write under an unused key appends the record. */
  lemma {:induction false} PutAbsent<R>(docs: seq<Doc<R>>, k: Key, raw: Raw<R>)
    requires forall d | d in docs :: d.key != k
    ensures Put(docs, k, raw) == docs + [Doc(k, raw)]
  {
    if docs != [] {
      assert docs[0] in docs;
      assert forall d | d in docs[1..] :: d in docs;
      PutAbsent(docs[1..], k, raw);
      assert docs == [docs[0]] + docs[1..];
    }
  }

  /** The record `createOrUpdateX` writes for logical id `id`: under the storage
      key of the first record with that id, keeping its `createdAt`, or under a
      fresh key with `createdAt` now; `updatedAt` is always now. */
  function Stamped<R>(docs: seq<Doc<R>>, id: string, body: R, now: int, freshKey: Key): (d: Doc<R>)
    ensures d.raw.id == id && d.raw.body == body && d.raw.updatedAt == now
    ensures FirstIndex(docs, HasId(id)) < |docs| ==>
              d.key == docs[FirstIndex(docs, HasId(id))].key &&
              d.raw.createdAt == docs[FirstIndex(docs, HasId(id))].raw.createdAt
    ensures FirstIndex(docs, HasId(id)) == |docs| ==> d.key == freshKey && d.raw.createdAt == now
  {
    match First(docs, HasId(id))
    case Some(e) => Doc(e.key, Raw(id, body, e.raw.createdAt, now))
    case None => Doc(freshKey, Raw(id, body, now, now))
  }

  /** The collection after `createOrUpdateX`: the first record with the same id
      is deleted and the stamped record is set under its key. */
  function Upserted<R>(docs: seq<Doc<R>>, id: string, body: R, now: int, freshKey: Key): seq<Doc<R>>
  {
    var d := Stamped(docs, id, body, now, freshKey);
    match First(docs, HasId(id))
    case Some(e) => Put(Drop(docs, {e.key}), e.key, d.raw)
    case None => Put(docs, freshKey, d.raw)
  }

  lemma {:induction false} DropKeepsKeysUnique<R>(docs: seq<Doc<R>>, ks: set<Key>)
    requires UniqueKeys(docs)
    ensures UniqueKeys(Drop(docs, ks))
  {
    if docs != [] {
      var rest := docs[1..];
      DropKeepsKeysUnique(rest, ks);
      DropMembers(rest, ks);
      forall x | x in Drop(rest, ks)
        ensures x.key != docs[0].key
      {
        DropMembers(rest, ks);
        assert x in rest;
        var j :| 0 <= j < |rest| && rest[j] == x;
        assert docs[j + 1] == x;
      }
    }
  }

  /** Deleting key by key is deleting all the keys at once. */
  lemma {:induction false} DropDrop<R>(docs: seq<Doc<R>>, a: set<Key>, b: set<Key>)
    ensures Drop(Drop(docs, a), b) == Drop(docs, a + b)
  {
    if docs != [] {
      var rest := docs[1..];
      DropDrop(rest, a, b);
      if docs[0].key in a {
        assert Drop(docs, a) == Drop(rest, a);
        assert Drop(docs, a + b) == Drop(rest, a + b);
      } else {
        assert Drop(docs, a) == [docs[0]] + Drop(rest, a);
        DropCons(docs[0], Drop(rest, a), b);
        assert Drop(docs, a + b) == (if docs[0].key in b then [] else [docs[0]]) + Drop(rest, a + b);
      }
    }
  }

  lemma DropCons<R>(d: Doc<R>, docs: seq<Doc<R>>, ks: set<Key>)
    ensures Drop([d] + docs, ks) == (if d.key in ks then [] else [d]) + Drop(docs, ks)
  {
    assert ([d] + docs)[1..] == docs;
  }

  lemma {:induction false} DropNothing<R>(docs: seq<Doc<R>>)
    ensures Drop(docs, {}) == docs
  {
    if docs != [] {
      DropNothing(docs[1..]);
    }
  }

  lemma KeysOfPrefix<R>(items: seq<Doc<R>>, i: nat)
    requires i < |items|
    ensures KeysOf(items[..i + 1]) == KeysOf(items[..i]) + {items[i].key}
  {
    assert items[..i + 1] == items[..i] + [items[i]];
  }

  /** One deletion of `removeXs`: deleting the next record's key after the
      keys of the records before it deletes the keys of the longer prefix,
      and keys stay unique. */
  lemma RemoveStep<R>(orig: seq<Doc<R>>, docs: seq<Doc<R>>, items: seq<Doc<R>>, i: nat)
    requires i < |items| && UniqueKeys(docs)
    requires docs == Drop(orig, KeysOf(items[..i]))
    ensures UniqueKeys(Drop(docs, {items[i].key}))
    ensures Drop(docs, {items[i].key}) == Drop(orig, KeysOf(items[..i + 1]))
  {
    DropKeepsKeysUnique(docs, {items[i].key});
    DropDrop(orig, KeysOf(items[..i]), {items[i].key});
    KeysOfPrefix(items, i);
  }

  lemma KeysOfOne<R>(d: Doc<R>)
    ensures KeysOf([d]) == {d.key}
  {
    assert forall x | x in [d] :: x == d;
  }

  /** Only the keys actually present matter to a deletion. */
  lemma {:induction false} DropSameKeys<R>(docs: seq<Doc<R>>, a: set<Key>, b: set<Key>)
    requires forall d | d in docs :: d.key in a <==> d.key in b
    ensures Drop(docs, a) == Drop(docs, b)
  {
    if docs != [] {
      DropSameKeys(docs[1..], a, b);
    }
  }

  /** Under unique keys, the first record's key occurs nowhere else. */
  lemma HeadKeyFresh<R>(docs: seq<Doc<R>>)
    requires UniqueKeys(docs) && docs != []
    ensures UniqueKeys(docs[1..])
    ensures forall d | d in docs[1..] :: d.key != docs[0].key
  {
    forall d | d in docs[1..]
      ensures d.key != docs[0].key
    {
      var k :| 0 <= k < |docs[1..]| && docs[1..][k] == d;
      assert docs[k + 1] == d;
    }
  }

  lemma KeysOfAppend<R>(a: seq<Doc<R>>, b: seq<Doc<R>>)
    ensures KeysOf(a + b) == KeysOf(a) + KeysOf(b)
  {
    assert forall d | d in a + b :: d in a || d in b;
  }

  /** Deleting the storage keys of the records a filter selects deletes exactly
      the records the filter selects, as long as keys are unique. */
  lemma {:induction false} DropSelected<R>(docs: seq<Doc<R>>, f: Raw<R> -> bool)
    requires UniqueKeys(docs)
    ensures Drop(docs, KeysOf(Select(docs, f))) == Select(docs, (r: Raw<R>) => !f(r))
  {
    if docs != [] {
      var rest := docs[1..];
      HeadKeyFresh(docs);
      DropSelected(rest, f);
      var head := if f(docs[0].raw) then [docs[0]] else [];
      assert Select(docs, f) == head + Select(rest, f);
      KeysOfAppend(head, Select(rest, f));
      DropSameKeys(rest, KeysOf(Select(docs, f)), KeysOf(Select(rest, f)));
    }
  }

  /** `getAllX` returns every stored record. */
  lemma {:induction false} SelectEverything<R>(docs: seq<Doc<R>>)
    ensures Select(docs, Everything()) == docs
  {
    if docs != [] {
      SelectEverything(docs[1..]);
    }
  }

  /** After an upsert the store holds the stamped record and every earlier
      record under another storage key, and nothing else. */
  lemma UpsertedMembers<R>(docs: seq<Doc<R>>, id: string, body: R, now: int, freshKey: Key)
    requires UniqueKeys(docs)
    ensures UniqueKeys(Upserted(docs, id, body, now, freshKey))
    ensures var d := Stamped(docs, id, body, now, freshKey);
            d in Upserted(docs, id, body, now, freshKey) &&
            (forall x | x in Upserted(docs, id, body, now, freshKey) :: x == d || (x in docs && x.key != d.key)) &&
            (forall x | x in docs && x.key != d.key :: x in Upserted(docs, id, body, now, freshKey))
  {
    var d := Stamped(docs, id, body, now, freshKey);
    var r := Upserted(docs, id, body, now, freshKey);
    var base := if First(docs, HasId(id)).Some? then Drop(docs, {d.key}) else docs;
    DropKeepsKeysUnique(docs, {d.key});
    DropMembers(docs, {d.key});
    assert UniqueKeys(base);
    assert r == Put(base, d.key, d.raw);
    PutMembers(base, d.key, d.raw);
    forall x | x in docs && x.key != d.key
      ensures x in r
    {
      assert x in base;
    }
    forall x | x in r
      ensures x == d || (x in docs && x.key != d.key)
    {
    }
  }

  /** An upsert for a new id under an unused key adds exactly one record at the end. */
  lemma UpsertedFresh<R>(docs: seq<Doc<R>>, id: string, body: R, now: int, freshKey: Key)
    requires forall d | d in docs :: d.raw.id != id && d.key != freshKey
    ensures Stamped(docs, id, body, now, freshKey) == Doc(freshKey, Raw(id, body, now, now))
    ensures Upserted(docs, id, body, now, freshKey) == docs + [Doc(freshKey, Raw(id, body, now, now))]
  {
    PutAbsent(docs, freshKey, Raw(id, body, now, now));
  }

  /** Records with another logical id survive an upsert unchanged, unless the
      fresh key the upsert draws collides with theirs. */
  lemma UpsertedKeepsOthers<R>(docs: seq<Doc<R>>, id: string, body: R, now: int, freshKey: Key, x: Doc<R>)
    requires UniqueKeys(docs)
    requires x in docs && x.raw.id != id && x.key != freshKey
    ensures x in Upserted(docs, id, body, now, freshKey)
  {
    UpsertedMembers(docs, id, body, now, freshKey);
    var i := FirstIndex(docs, HasId(id));
    if i < |docs| {
      var k :| 0 <= k < |docs| && docs[k] == x;
      assert k != i;
    }
  }

  /** Apart from the stamped record, an upsert leaves only earlier records
      whose logical id differs, when ids were unique. */
  lemma UpsertedOtherIds<R>(docs: seq<Doc<R>>, id: string, body: R, now: int, freshKey: Key, x: Doc<R>)
    requires UniqueKeys(docs) && UniqueIds(docs)
    requires x in Upserted(docs, id, body, now, freshKey)
    requires x != Stamped(docs, id, body, now, freshKey)
    ensures x in docs && x.raw.id != id
  {
    var d := Stamped(docs, id, body, now, freshKey);
    UpsertedMembers(docs, id, body, now, freshKey);
    var i := FirstIndex(docs, HasId(id));
    var k :| 0 <= k < |docs| && docs[k] == x;
    if i < |docs| {
      assert x.key != docs[i].key;
      assert docs[k].raw.id != docs[i].raw.id;
    } else {
      assert !HasId(id)(docs[k].raw);
    }
  }

  /** If logical ids are unique before an upsert they are unique after it, and
      a lookup by that id then finds the stamped record. */
  lemma UpsertedKeepsIdsUnique<R>(docs: seq<Doc<R>>, id: string, body: R, now: int, freshKey: Key)
    requires UniqueKeys(docs) && UniqueIds(docs)
    ensures UniqueIds(Upserted(docs, id, body, now, freshKey))
    ensures First(Upserted(docs, id, body, now, freshKey), HasId(id)) == Some(Stamped(docs, id, body, now, freshKey))
  {
    var d := Stamped(docs, id, body, now, freshKey);
    var r := Upserted(docs, id, body, now, freshKey);
    UpsertedMembers(docs, id, body, now, freshKey);
    forall p, q | 0 <= p < q < |r|
      ensures r[p].raw.id != r[q].raw.id
    {
      if r[p] == d {
        UpsertedOtherIds(docs, id, body, now, freshKey, r[q]);
      } else if r[q] == d {
        UpsertedOtherIds(docs, id, body, now, freshKey, r[p]);
      } else {
        UpsertedOtherIds(docs, id, body, now, freshKey, r[p]);
        UpsertedOtherIds(docs, id, body, now, freshKey, r[q]);
        var kp :| 0 <= kp < |docs| && docs[kp] == r[p];
        var kq :| 0 <= kq < |docs| && docs[kq] == r[q];
        assert kp != kq;
      }
    }
    forall x | x in r && x != d
      ensures x.raw.id != id
    {
      UpsertedOtherIds(docs, id, body, now, freshKey, x);
    }
  }

  /** Deleting the key of a record appended under a new key gives back the
      records before it. */
  lemma {:induction false} DropAppended<R>(docs: seq<Doc<R>>, d: Doc<R>)
    requires forall x | x in docs :: x.key != d.key
    ensures Drop(docs + [d], {d.key}) == docs
  {
    if docs == [] {
      assert ([] + [d])[1..] == [];
    } else {
      assert docs[0] in docs;
      assert (docs + [d])[1..] == docs[1..] + [d];
      DropAppended(docs[1..], d);
      assert docs == [docs[0]] + docs[1..];
    }
  }

  /** When exactly one record satisfies the filter, the lookup finds it. */
  lemma FirstOnly<R>(docs: seq<Doc<R>>, f: Raw<R> -> bool, x: Doc<R>)
    requires x in docs && f(x.raw)
    requires forall d | d in docs && f(d.raw) :: d == x
    ensures First(docs, f) == Some(x)
  {
  }

  /** With unique logical ids, looking a stored record up by its id finds it. */
  lemma FirstUniqueId<R>(docs: seq<Doc<R>>, x: Doc<R>)
    requires UniqueIds(docs) && x in docs
    ensures First(docs, HasId(x.raw.id)) == Some(x)
    ensures FirstIndex(docs, HasId(x.raw.id)) < |docs| && docs[FirstIndex(docs, HasId(x.raw.id))] == x
  {
    var k :| 0 <= k < |docs| && docs[k] == x;
    var i := FirstIndex(docs, HasId(x.raw.id));
    assert i <= k;
    assert HasId(x.raw.id)(docs[i].raw);
  }

  /** One collection of the document store. */
  class Collection<R> {
    var docs: seq<Doc<R>>

    /** Storage keys identify documents. */
    ghost predicate Valid()
      reads this
    {
      UniqueKeys(docs)
    }

    constructor ()
      ensures Valid() && docs == []
    {
      docs := [];
    }

    /** `removeXs`: deletes, one by one, the document under each given
        record's storage key. */
    method Remove(items: seq<Doc<R>>)
      requires Valid()
      modifies this
      ensures Valid()
      ensures docs == Drop(old(docs), KeysOf(items))
    {
      DropNothing(docs);
      assert KeysOf(items[..0]) == {};
      var i := 0;
      while i < |items|
        invariant 0 <= i <= |items|
        invariant Valid()
        invariant docs == Drop(old(docs), KeysOf(items[..i]))
      {
        RemoveStep(old(docs), docs, items, i);
        docs := Drop(docs, {items[i].key});
        i := i + 1;
      }
      assert items[..i] == items;
    }

    /** `removeXsByFilter`: deletes exactly the records the filter selects. */
    method RemoveByFilter(f: Raw<R> -> bool)
      requires Valid()
      modifies this
      ensures Valid()
      ensures docs == Select(old(docs), (r: Raw<R>) => !f(r))
    {
      DropSelected(docs, f);
      Remove(Select(docs, f));
    }

    /** `createOrUpdateX`: deletes the first record with the same logical id,
        then writes the new record under that record's storage key (keeping its
        creation time) or under a fresh key; returns the record written. */
    method Upsert(id: string, body: R, now: int, freshKey: Key) returns (d: Doc<R>)
      requires Valid()
      modifies this
      ensures Valid()
      ensures d == Stamped(old(docs), id, body, now, freshKey)
      ensures docs == Upserted(old(docs), id, body, now, freshKey)
    {
      var existing := First(docs, HasId(id));
      var key, createdAt;
      if existing.Some? {
        KeysOfOne(existing.value);
        Remove([existing.value]);
        key, createdAt := existing.value.key, existing.value.raw.createdAt;
      } else {
        key, createdAt := freshKey, now;
      }
      d := Doc(key, Raw(id, body, createdAt, now));
      PutMembers(docs, key, d.raw);
      docs := Put(docs, key, d.raw);
    }
  }
}
