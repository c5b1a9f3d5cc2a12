/**
 The view mapper: how re-mapping some documents updates a view's index in place.

 A view keeps two trees. `entries` holds, per emitted key, the mappings of all
 documents that emitted it; `documentMap` remembers which keys each document
 emitted, so that a later mapping can clean up the keys it no longer emits.
 */
module ViewMapper {
  import opened ByteStrings
  import opened Documents

  datatype Mapping = Mapping(source: Header, value: Bytes)

  datatype ViewEntry = ViewEntry(mappings: seq<Mapping>, reducedValue: Bytes)

  datatype ViewTrees = ViewTrees(
    documentMap: map<DocId, set<Bytes>>,
    entries: map<Bytes, ViewEntry>,
    invalidated: set<DocId>)

  const EMPTY_VIEW := ViewTrees(map[], map[], {})

  // ---------------------------------------------------------------- what a view should hold

  // The emissions of a document; a document that is gone emits nothing.
  function Emitted(view: View, doc: Option<Document>): seq<Emission> {
    if doc.Some? && view.mapping(doc.value).Some? then view.mapping(doc.value).value else []
  }

  predicate Mappable(view: View, doc: Option<Document>) {
    doc.Some? ==> view.mapping(doc.value).Some?
  }

  function KeysOf(es: seq<Emission>): set<Bytes> {
    set i | 0 <= i < |es| :: es[i].key
  }

  // When a document emits one key repeatedly, the last value stands.
  function LastValue(es: seq<Emission>, key: Bytes): Option<Bytes> {
    if es == [] then None
    else if es[|es| - 1].key == key then Some(es[|es| - 1].value)
    else LastValue(es[..|es| - 1], key)
  }

  // What one document contributes to one key of the index, by definition of the view.
  function Contribution(view: View, doc: Option<Document>, key: Bytes): Option<Mapping> {
    if doc.None? then None
    else match LastValue(Emitted(view, doc), key)
      case None => None
      case Some(value) => Some(Mapping(doc.value.header, value))
  }

  // ---------------------------------------------------------------- what a view holds

  function MappingsAt(vt: ViewTrees, key: Bytes): seq<Mapping> {
    if key in vt.entries then vt.entries[key].mappings else []
  }

  function KeysAt(vt: ViewTrees, id: DocId): set<Bytes> {
    if id in vt.documentMap then vt.documentMap[id] else {}
  }

  function Find(ms: seq<Mapping>, id: DocId): Option<Mapping> {
    if ms == [] then None else if ms[0].source.id == id then Some(ms[0]) else Find(ms[1..], id)
  }

  ghost predicate OnePerDocument(ms: seq<Mapping>) {
    forall i, j :: 0 <= i < j < |ms| ==> ms[i].source.id != ms[j].source.id
  }

  function Values(ms: seq<Mapping>): seq<Bytes> {
    seq(|ms|, i requires 0 <= i < |ms| => ms[i].value)
  }

  function Reduced(view: View, key: Bytes, ms: seq<Mapping>): Bytes {
    if view.reduce.Some? then view.reduce.value(key, Values(ms)) else []
  }

  ghost predicate WellFormed(view: View, vt: ViewTrees) {
    forall k :: k in vt.entries ==>
      && vt.entries[k].mappings != []
      && OnePerDocument(vt.entries[k].mappings)
      && vt.entries[k].reducedValue == Reduced(view, k, vt.entries[k].mappings)
  }

  // The index is exactly the one recomputed from `seen`, the version of each document last mapped.
  ghost predicate Indexes(view: View, vt: ViewTrees, seen: map<DocId, Document>) {
    && WellFormed(view, vt)
    && (forall k: Bytes, id: DocId :: Find(MappingsAt(vt, k), id) == Contribution(view, Get(seen, id), k))
    && (forall id: DocId :: KeysAt(vt, id) == KeysOf(Emitted(view, Get(seen, id))))
  }

  function Get(seen: map<DocId, Document>, id: DocId): Option<Document> {
    if id in seen then Some(seen[id]) else None
  }

  // `seen` after the documents `ids` have been mapped again.
  ghost function Refresh(seen: map<DocId, Document>, docs: Docs, collection: CollectionName, ids: set<DocId>)
    : (r: map<DocId, Document>)
    ensures forall id: DocId ::
      Get(r, id) == if id in ids then Lookup(docs, collection, id) else Get(seen, id)
  {
    var live := set id | id in ids && DocKey(collection, id) in docs;
    map id | id in (seen.Keys - ids) + live :: if id in ids then docs[DocKey(collection, id)] else seen[id]
  }

  // ---------------------------------------------------------------- one batch, key by key

  // Replaces the document's mapping in place, or appends it.
  function Upsert(ms: seq<Mapping>, m: Mapping): seq<Mapping> {
    if ms == [] then [m]
    else if ms[0].source.id == m.source.id then [m] + ms[1..]
    else [ms[0]] + Upsert(ms[1..], m)
  }

  function UpsertAll(ms: seq<Mapping>, news: seq<Mapping>): seq<Mapping> {
    if news == [] then ms else Upsert(UpsertAll(ms, news[..|news| - 1]), news[|news| - 1])
  }

  function Retain(ms: seq<Mapping>, drop: set<DocId>): seq<Mapping> {
    if ms == [] then []
    else (if ms[0].source.id in drop then [] else [ms[0]]) + Retain(ms[1..], drop)
  }

  // The mappings one document sends to one key, in emission order.
  function ToKey(header: Header, es: seq<Emission>, key: Bytes): seq<Mapping> {
    if es == [] then []
    else
      var init := ToKey(header, es[..|es| - 1], key);
      var last := es[|es| - 1];
      if last.key == key then init + [Mapping(header, last.value)] else init
  }

  function SentBy(view: View, doc: Option<Document>, key: Bytes): seq<Mapping> {
    if doc.None? then [] else ToKey(doc.value.header, Emitted(view, doc), key)
  }

  // The mappings a batch sends to one key; `schedule` lists the batch in the order its results arrive.
  function Sent(view: View, docs: Docs, schedule: seq<DocId>, key: Bytes): seq<Mapping> {
    if schedule == [] then []
    else
      Sent(view, docs, schedule[..|schedule| - 1], key)
      + SentBy(view, Lookup(docs, view.collection, schedule[|schedule| - 1]), key)
  }

  function NewKeys(view: View, docs: Docs, id: DocId): set<Bytes> {
    KeysOf(Emitted(view, Lookup(docs, view.collection, id)))
  }

  function BatchKeys(view: View, docs: Docs, schedule: seq<DocId>): set<Bytes> {
    if schedule == [] then {}
    else BatchKeys(view, docs, schedule[..|schedule| - 1]) + NewKeys(view, docs, schedule[|schedule| - 1])
  }

  // Documents of the batch that used to emit `key` and no longer do.
  function Stale(view: View, docs: Docs, schedule: seq<DocId>, vt: ViewTrees, key: Bytes): set<DocId> {
    set id | id in schedule && key in KeysAt(vt, id) && key !in NewKeys(view, docs, id)
  }

  function Kept(view: View, docs: Docs, schedule: seq<DocId>, vt: ViewTrees, key: Bytes): seq<Mapping> {
    Retain(MappingsAt(vt, key), Stale(view, docs, schedule, vt, key))
  }

  function Updated(view: View, docs: Docs, schedule: seq<DocId>, vt: ViewTrees, key: Bytes): seq<Mapping> {
    UpsertAll(Kept(view, docs, schedule, vt, key), Sent(view, docs, schedule, key))
  }

  // Adding `news` one by one to a key of a unique view meets a mapping of another document.
  predicate Collides(ms: seq<Mapping>, news: seq<Mapping>) {
    news != [] && (
      || Collides(ms, news[..|news| - 1])
      || var before := UpsertAll(ms, news[..|news| - 1]);
         before != [] && before[0].source.id != news[|news| - 1].source.id)
  }

  predicate Violates(view: View, docs: Docs, schedule: seq<DocId>, vt: ViewTrees, key: Bytes) {
    view.policy.Unique? && Collides(Kept(view, docs, schedule, vt, key), Sent(view, docs, schedule, key))
  }

  // The outcome of saving one batch, stated key by key.
  function Save(view: View, docs: Docs, schedule: seq<DocId>, vt: ViewTrees): Result<ViewTrees, Error> {
    if exists id :: id in schedule && !Mappable(view, Lookup(docs, view.collection, id)) then Err(ViewMapFailed)
    else
      var keys := BatchKeys(view, docs, schedule);
      if exists k :: k in keys && Violates(view, docs, schedule, vt, k) then Err(UniqueKeyViolation)
      else
        var ids := set id | id in schedule;
        Ok(ViewTrees(
             map id | id in vt.documentMap.Keys + ids ::
               if id in ids then NewKeys(view, docs, id) else vt.documentMap[id],
             map k | k in vt.entries.Keys + keys && Updated(view, docs, schedule, vt, k) != [] ::
               ViewEntry(Updated(view, docs, schedule, vt, k),
                         Reduced(view, k, Updated(view, docs, schedule, vt, k))),
             vt.invalidated))
  }

  // ---------------------------------------------------------------- lemmas on mappings

  lemma {:induction false} FindUpsert(ms: seq<Mapping>, m: Mapping, id: DocId)
    ensures Find(Upsert(ms, m), id) == if id == m.source.id then Some(m) else Find(ms, id)
  {
    if ms != [] && ms[0].source.id != m.source.id {
      FindUpsert(ms[1..], m, id);
      assert Upsert(ms, m)[1..] == Upsert(ms[1..], m);
    } else if ms != [] {
      assert Upsert(ms, m)[1..] == ms[1..];
    }
  }

  lemma {:induction false} FindNone(ms: seq<Mapping>, id: DocId)
    ensures Find(ms, id).None? <==> forall i :: 0 <= i < |ms| ==> ms[i].source.id != id
    ensures Find(ms, id).Some? ==> Find(ms, id).value in ms && Find(ms, id).value.source.id == id
  {
    if ms != [] {
      FindNone(ms[1..], id);
      if Find(ms[1..], id).None? && ms[0].source.id != id {
        forall i | 0 <= i < |ms| ensures ms[i].source.id != id {
          if i > 0 {
            assert ms[i] == ms[1..][i - 1];
          }
        }
      } else if ms[0].source.id != id {
        assert !forall i :: 0 <= i < |ms[1..]| ==> ms[1..][i].source.id != id;
        var i :| 0 <= i < |ms[1..]| && ms[1..][i].source.id == id;
        assert ms[i + 1].source.id == id;
      }
    }
  }

  lemma {:induction false} UpsertKeepsOnePerDocument(ms: seq<Mapping>, m: Mapping)
    requires OnePerDocument(ms)
    ensures OnePerDocument(Upsert(ms, m))
    ensures forall x :: x in Upsert(ms, m) ==> x == m || x in ms
  {
    if ms != [] && ms[0].source.id != m.source.id {
      UpsertKeepsOnePerDocument(ms[1..], m);
      var rest := Upsert(ms[1..], m);
      forall j | 0 <= j < |rest| ensures rest[j].source.id != ms[0].source.id {
        assert rest[j] in rest;
        if rest[j] != m {
          var i :| 0 <= i < |ms[1..]| && ms[1..][i] == rest[j];
          assert ms[i + 1] == rest[j];
        }
      }
    }
  }

  lemma {:induction false} UpsertAllKeepsOnePerDocument(ms: seq<Mapping>, news: seq<Mapping>)
    requires OnePerDocument(ms)
    ensures OnePerDocument(UpsertAll(ms, news))
  {
    if news != [] {
      UpsertAllKeepsOnePerDocument(ms, news[..|news| - 1]);
      UpsertKeepsOnePerDocument(UpsertAll(ms, news[..|news| - 1]), news[|news| - 1]);
    }
  }

  lemma {:induction false} FindRetain(ms: seq<Mapping>, drop: set<DocId>, id: DocId)
    ensures Find(Retain(ms, drop), id) == if id in drop then None else Find(ms, id)
  {
    if ms != [] {
      FindRetain(ms[1..], drop, id);
      if ms[0].source.id !in drop {
        assert Retain(ms, drop)[1..] == Retain(ms[1..], drop);
      } else {
        assert Retain(ms, drop) == Retain(ms[1..], drop);
      }
    }
  }

  lemma {:induction false} RetainKeepsOnePerDocument(ms: seq<Mapping>, drop: set<DocId>)
    requires OnePerDocument(ms)
    ensures OnePerDocument(Retain(ms, drop))
    ensures forall x :: x in Retain(ms, drop) ==> x in ms
  {
    if ms != [] {
      RetainKeepsOnePerDocument(ms[1..], drop);
      var rest := Retain(ms[1..], drop);
      forall j | 0 <= j < |rest| ensures rest[j].source.id != ms[0].source.id {
        assert rest[j] in rest;
        var i :| 0 <= i < |ms[1..]| && ms[1..][i] == rest[j];
        assert ms[i + 1] == rest[j];
      }
    }
  }

  lemma {:induction false} RetainNothingDropped(ms: seq<Mapping>)
    ensures Retain(ms, {}) == ms
  {
    if ms != [] {
      RetainNothingDropped(ms[1..]);
    }
  }

  // The last mapping of a document among the new ones.
  function LastOf(news: seq<Mapping>, id: DocId): Option<Mapping> {
    if news == [] then None
    else if news[|news| - 1].source.id == id then Some(news[|news| - 1])
    else LastOf(news[..|news| - 1], id)
  }

  lemma {:induction false} FindUpsertAll(ms: seq<Mapping>, news: seq<Mapping>, id: DocId)
    ensures Find(UpsertAll(ms, news), id) == if LastOf(news, id).Some? then LastOf(news, id) else Find(ms, id)
  {
    if news != [] {
      FindUpsertAll(ms, news[..|news| - 1], id);
      FindUpsert(UpsertAll(ms, news[..|news| - 1]), news[|news| - 1], id);
    }
  }

  lemma {:induction false} LastOfConcat(a: seq<Mapping>, b: seq<Mapping>, id: DocId)
    ensures LastOf(a + b, id) == if LastOf(b, id).Some? then LastOf(b, id) else LastOf(a, id)
  {
    if b == [] {
      assert a + b == a;
    } else {
      assert (a + b)[..|a + b| - 1] == a + b[..|b| - 1];
      LastOfConcat(a, b[..|b| - 1], id);
    }
  }

  lemma {:induction false} LastOfToKey(header: Header, es: seq<Emission>, key: Bytes, id: DocId)
    ensures LastOf(ToKey(header, es, key), id) ==
            if id != header.id || LastValue(es, key).None? then None
            else Some(Mapping(header, LastValue(es, key).value))
  {
    if es != [] {
      var init := ToKey(header, es[..|es| - 1], key);
      LastOfToKey(header, es[..|es| - 1], key, id);
      if es[|es| - 1].key == key {
        LastOfConcat(init, [Mapping(header, es[|es| - 1].value)], id);
      }
    }
  }

  // What a batch sends to a key ends, per document, with that document's contribution.
  lemma {:induction false} LastOfSent(view: View, docs: Docs, schedule: seq<DocId>, key: Bytes, id: DocId)
    requires Keyed(docs)
    ensures LastOf(Sent(view, docs, schedule, key), id) ==
            if id in schedule then Contribution(view, Lookup(docs, view.collection, id), key) else None
  {
    if schedule != [] {
      var init, last := schedule[..|schedule| - 1], schedule[|schedule| - 1];
      assert schedule == init + [last];
      LastOfSent(view, docs, init, key, id);
      var doc := Lookup(docs, view.collection, last);
      LastOfConcat(Sent(view, docs, init, key), SentBy(view, doc, key), id);
      if doc.Some? {
        LastOfToKey(doc.value.header, Emitted(view, doc), key, id);
      }
    }
  }

  lemma {:induction false} LastValueExists(es: seq<Emission>, key: Bytes)
    ensures LastValue(es, key).Some? <==> key in KeysOf(es)
  {
    if es != [] {
      var init := es[..|es| - 1];
      LastValueExists(init, key);
      if key in KeysOf(es) {
        var i :| 0 <= i < |es| && es[i].key == key;
        assert i < |init| ==> init[i].key == key;
      }
      if key in KeysOf(init) {
        var i :| 0 <= i < |init| && init[i].key == key;
        assert es[i].key == key;
      }
      assert es[|es| - 1].key in KeysOf(es);
    }
  }

  lemma {:induction false} SentNonEmpty(view: View, docs: Docs, schedule: seq<DocId>, key: Bytes)
    requires Keyed(docs)
    ensures Sent(view, docs, schedule, key) != [] <==> key in BatchKeys(view, docs, schedule)
  {
    if schedule != [] {
      var init, last := schedule[..|schedule| - 1], schedule[|schedule| - 1];
      SentNonEmpty(view, docs, init, key);
      var doc := Lookup(docs, view.collection, last);
      LastValueExists(Emitted(view, doc), key);
      if doc.Some? {
        ToKeyNonEmpty(doc.value.header, Emitted(view, doc), key);
      }
    }
  }

  lemma {:induction false} ToKeyNonEmpty(header: Header, es: seq<Emission>, key: Bytes)
    ensures ToKey(header, es, key) != [] <==> LastValue(es, key).Some?
  {
    if es != [] {
      ToKeyNonEmpty(header, es[..|es| - 1], key);
    }
  }

  // ---------------------------------------------------------------- the index stays a recomputation

  lemma FindUpdated(view: View, docs: Docs, schedule: seq<DocId>, vt: ViewTrees, seen: map<DocId, Document>,
                    key: Bytes, id: DocId)
    requires Keyed(docs)
    requires Indexes(view, vt, seen)
    ensures Find(Updated(view, docs, schedule, vt, key), id) ==
            Contribution(view, if id in schedule then Lookup(docs, view.collection, id) else Get(seen, id), key)
  {
    var before := MappingsAt(vt, key);
    var stale := Stale(view, docs, schedule, vt, key);
    FindRetain(before, stale, id);
    FindUpsertAll(Kept(view, docs, schedule, vt, key), Sent(view, docs, schedule, key), id);
    LastOfSent(view, docs, schedule, key, id);
    assert Find(before, id) == Contribution(view, Get(seen, id), key);
    LastValueExists(Emitted(view, Get(seen, id)), key);
    LastValueExists(Emitted(view, Lookup(docs, view.collection, id)), key);
    assert KeysAt(vt, id) == KeysOf(Emitted(view, Get(seen, id)));
  }

  lemma UpdatedElsewhere(view: View, docs: Docs, schedule: seq<DocId>, vt: ViewTrees, key: Bytes)
    requires Keyed(docs)
    requires key !in BatchKeys(view, docs, schedule) && key !in vt.entries
    ensures Updated(view, docs, schedule, vt, key) == []
  {
    SentNonEmpty(view, docs, schedule, key);
  }

  lemma SavedMappingsAt(view: View, docs: Docs, schedule: seq<DocId>, vt: ViewTrees, key: Bytes)
    requires Keyed(docs)
    requires Save(view, docs, schedule, vt).Ok?
    ensures MappingsAt(Save(view, docs, schedule, vt).value, key) == Updated(view, docs, schedule, vt, key)
  {
    if key !in vt.entries && key !in BatchKeys(view, docs, schedule) {
      UpdatedElsewhere(view, docs, schedule, vt, key);
    }
  }

  lemma SavedKeysAt(view: View, docs: Docs, schedule: seq<DocId>, vt: ViewTrees, id: DocId)
    requires Save(view, docs, schedule, vt).Ok?
    ensures KeysAt(Save(view, docs, schedule, vt).value, id) ==
            if id in schedule then NewKeys(view, docs, id) else KeysAt(vt, id)
  {
  }

  lemma SavedWellFormed(view: View, docs: Docs, schedule: seq<DocId>, vt: ViewTrees)
    requires WellFormed(view, vt)
    requires Save(view, docs, schedule, vt).Ok?
    ensures WellFormed(view, Save(view, docs, schedule, vt).value)
  {
    var vt' := Save(view, docs, schedule, vt).value;
    forall k | k in vt'.entries
      ensures OnePerDocument(Updated(view, docs, schedule, vt, k))
    {
      RetainKeepsOnePerDocument(MappingsAt(vt, k), Stale(view, docs, schedule, vt, k));
      UpsertAllKeepsOnePerDocument(Kept(view, docs, schedule, vt, k), Sent(view, docs, schedule, k));
    }
  }

  // Saving a batch re-indexes exactly the documents of the batch, at their current version.
  lemma SaveIndexes(view: View, docs: Docs, schedule: seq<DocId>, vt: ViewTrees, vt': ViewTrees,
                    seen: map<DocId, Document>, seen': map<DocId, Document>)
    requires Keyed(docs)
    requires Indexes(view, vt, seen)
    requires Save(view, docs, schedule, vt) == Ok(vt')
    requires seen' == Refresh(seen, docs, view.collection, set id | id in schedule)
    ensures Indexes(view, vt', seen')
  {
    SavedWellFormed(view, docs, schedule, vt);
    forall k: Bytes, id: DocId
      ensures Find(MappingsAt(vt', k), id) == Contribution(view, Get(seen', id), k)
    {
      FindUpdated(view, docs, schedule, vt, seen, k, id);
      SavedMappingsAt(view, docs, schedule, vt, k);
      assert Get(seen', id) == if id in schedule then Lookup(docs, view.collection, id) else Get(seen, id);
    }
    forall id: DocId
      ensures KeysAt(vt', id) == KeysOf(Emitted(view, Get(seen', id)))
    {
      SavedKeysAt(view, docs, schedule, vt, id);
      assert Get(seen', id) == if id in schedule then Lookup(docs, view.collection, id) else Get(seen, id);
      assert KeysAt(vt, id) == KeysOf(Emitted(view, Get(seen, id)));
    }
  }

  // ---------------------------------------------------------------- several batches

  // Batches are saved one after another; the first failure stops.
  function SaveAll(view: View, docs: Docs, batches: seq<seq<DocId>>, vt: ViewTrees): Result<ViewTrees, Error> {
    if batches == [] then Ok(vt)
    else match SaveAll(view, docs, batches[..|batches| - 1], vt)
      case Err(e) => Err(e)
      case Ok(vt1) => Save(view, docs, batches[|batches| - 1], vt1)
  }

  function Members(batches: seq<seq<DocId>>): set<DocId> {
    if batches == [] then {}
    else
      var last := batches[|batches| - 1];
      Members(batches[..|batches| - 1]) + set id | id in last
  }

  lemma RefreshTwice(seen: map<DocId, Document>, docs: Docs, collection: CollectionName, a: set<DocId>, b: set<DocId>)
    ensures Refresh(Refresh(seen, docs, collection, a), docs, collection, b) == Refresh(seen, docs, collection, a + b)
  {
    var twice := Refresh(Refresh(seen, docs, collection, a), docs, collection, b);
    var once := Refresh(seen, docs, collection, a + b);
    forall id: DocId ensures Get(twice, id) == Get(once, id) {
    }
    SameSeen(twice, once);
  }

  lemma SameSeen(a: map<DocId, Document>, b: map<DocId, Document>)
    requires forall id: DocId :: Get(a, id) == Get(b, id)
    ensures a == b
  {
    forall id: DocId ensures id in a <==> id in b {
      assert Get(a, id) == Get(b, id);
    }
    forall id | id in a ensures a[id] == b[id] {
      assert Get(a, id) == Get(b, id);
    }
  }

  // Whatever the batching and whatever the order results arrive in, mapping `ids` leaves the recomputed index.
  lemma {:induction false} SaveAllIndexes(view: View, docs: Docs, batches: seq<seq<DocId>>,
                                          vt: ViewTrees, vt': ViewTrees, seen: map<DocId, Document>)
    requires Keyed(docs)
    requires Indexes(view, vt, seen)
    requires SaveAll(view, docs, batches, vt) == Ok(vt')
    ensures Indexes(view, vt', Refresh(seen, docs, view.collection, Members(batches)))
    ensures vt'.invalidated == vt.invalidated
  {
    if batches == [] {
      SameSeen(seen, Refresh(seen, docs, view.collection, {}));
    } else {
      var init, last := batches[..|batches| - 1], batches[|batches| - 1];
      var vt1 := SaveAll(view, docs, init, vt).value;
      SaveAllIndexes(view, docs, init, vt, vt1, seen);
      var seen1 := Refresh(seen, docs, view.collection, Members(init));
      var ids := set id | id in last;
      SaveIndexes(view, docs, last, vt1, vt', seen1, Refresh(seen1, docs, view.collection, ids));
      RefreshTwice(seen, docs, view.collection, Members(init), ids);
    }
  }

  // ---------------------------------------------------------------- unique views

  // No two documents emit the same key.
  ghost predicate Unambiguous(view: View, seen: map<DocId, Document>) {
    forall k: Bytes :: SoleEmitter(view, seen, k)
  }

  ghost predicate SoleEmitter(view: View, seen: map<DocId, Document>, key: Bytes) {
    forall a: DocId, b: DocId ::
      Contribution(view, Get(seen, a), key).Some? && Contribution(view, Get(seen, b), key).Some? ==> a == b
  }

  ghost predicate Mentions(ms: seq<Mapping>, id: DocId) {
    exists i :: 0 <= i < |ms| && ms[i].source.id == id
  }

  lemma MentionsConcat(a: seq<Mapping>, b: seq<Mapping>, id: DocId)
    ensures Mentions(a + b, id) <==> Mentions(a, id) || Mentions(b, id)
  {
    if i :| 0 <= i < |a| && a[i].source.id == id {
      assert (a + b)[i].source.id == id;
    }
    if i :| 0 <= i < |b| && b[i].source.id == id {
      assert (a + b)[|a| + i].source.id == id;
    }
  }

  ghost predicate OneDocument(ms: seq<Mapping>) {
    forall i, j :: 0 <= i < |ms| && 0 <= j < |ms| ==> ms[i].source.id == ms[j].source.id
  }

  lemma {:induction false} CollidesExactly(ms: seq<Mapping>, news: seq<Mapping>)
    requires |ms| <= 1
    ensures !Collides(ms, news) <==> OneDocument(ms + news)
    ensures !Collides(ms, news) ==>
      && |UpsertAll(ms, news)| <= 1
      && (ms + news != [] ==> UpsertAll(ms, news) != [] && UpsertAll(ms, news)[0].source.id == (ms + news)[0].source.id)
  {
    if news == [] {
      assert ms + news == ms;
    } else {
      var init, last := news[..|news| - 1], news[|news| - 1];
      CollidesExactly(ms, init);
      assert ms + news == ms + init + [last];
      assert OneDocument(ms + news) ==> OneDocument(ms + init) by {
        if OneDocument(ms + news) {
          forall i, j | 0 <= i < |ms + init| && 0 <= j < |ms + init|
            ensures (ms + init)[i].source.id == (ms + init)[j].source.id
          {
            assert (ms + news)[i] == (ms + init)[i] && (ms + news)[j] == (ms + init)[j];
          }
        }
      }
      if OneDocument(ms + init) && ms + init != [] {
        assert (ms + news)[0] == (ms + init)[0];
        assert (ms + news)[|ms + init|] == last;
      }
    }
  }

  lemma {:induction false} LastOfExists(news: seq<Mapping>, id: DocId)
    ensures LastOf(news, id).Some? <==> Mentions(news, id)
  {
    if news != [] {
      var init, last := news[..|news| - 1], news[|news| - 1];
      LastOfExists(init, id);
      MentionsConcat(init, [last], id);
      assert news == init + [last] && [last][0].source.id == last.source.id;
    }
  }

  // The documents under a key after the batch are those kept and those sent.
  lemma UpdatedDocuments(view: View, docs: Docs, schedule: seq<DocId>, vt: ViewTrees, key: Bytes, id: DocId)
    ensures Find(Updated(view, docs, schedule, vt, key), id).Some? <==>
            Mentions(Kept(view, docs, schedule, vt, key) + Sent(view, docs, schedule, key), id)
  {
    var kept, sent := Kept(view, docs, schedule, vt, key), Sent(view, docs, schedule, key);
    FindUpsertAll(kept, sent, id);
    LastOfExists(sent, id);
    FindNone(kept, id);
    MentionsConcat(kept, sent, id);
  }

  lemma KeptAtMostOne(view: View, docs: Docs, schedule: seq<DocId>, vt: ViewTrees, seen: map<DocId, Document>,
                      key: Bytes)
    requires Indexes(view, vt, seen) && Unambiguous(view, seen)
    ensures |Kept(view, docs, schedule, vt, key)| <= 1
  {
    var before := MappingsAt(vt, key);
    var kept := Kept(view, docs, schedule, vt, key);
    forall i | 0 <= i < |kept|
      ensures Contribution(view, Get(seen, kept[i].source.id), key).Some?
    {
      RetainKeepsOnePerDocument(before, Stale(view, docs, schedule, vt, key));
      assert kept[i] in before;
      FindNone(before, kept[i].source.id);
      assert Find(before, kept[i].source.id) == Contribution(view, Get(seen, kept[i].source.id), key);
    }
    assert SoleEmitter(view, seen, key);
    assert |kept| > 1 ==> kept[0].source.id == kept[1].source.id;
    RetainKeepsOnePerDocument(before, Stale(view, docs, schedule, vt, key));
  }

  lemma ViolatesExactly(view: View, docs: Docs, schedule: seq<DocId>, vt: ViewTrees,
                        seen: map<DocId, Document>, seen': map<DocId, Document>, key: Bytes)
    requires view.policy.Unique? && Keyed(docs)
    requires Indexes(view, vt, seen) && Unambiguous(view, seen)
    requires seen' == Refresh(seen, docs, view.collection, set id | id in schedule)
    ensures !Violates(view, docs, schedule, vt, key) <==> SoleEmitter(view, seen', key)
  {
    var kept, sent := Kept(view, docs, schedule, vt, key), Sent(view, docs, schedule, key);
    var both := kept + sent;
    KeptAtMostOne(view, docs, schedule, vt, seen, key);
    CollidesExactly(kept, sent);
    forall id: DocId
      ensures Contribution(view, Get(seen', id), key).Some? <==> Mentions(both, id)
    {
      FindUpdated(view, docs, schedule, vt, seen, key, id);
      UpdatedDocuments(view, docs, schedule, vt, key, id);
      assert Get(seen', id) == if id in schedule then Lookup(docs, view.collection, id) else Get(seen, id);
    }
    forall i | 0 <= i < |both| ensures Mentions(both, both[i].source.id) {
    }
  }

  // A unique view rejects a batch exactly when two documents would emit the same key.
  lemma UniqueExactly(view: View, docs: Docs, schedule: seq<DocId>, vt: ViewTrees, seen: map<DocId, Document>)
    requires view.policy.Unique? && Keyed(docs)
    requires Indexes(view, vt, seen) && Unambiguous(view, seen)
    requires forall id :: id in schedule ==> Mappable(view, Lookup(docs, view.collection, id))
    ensures Save(view, docs, schedule, vt).Ok? <==>
            Unambiguous(view, Refresh(seen, docs, view.collection, set id | id in schedule))
  {
    var seen' := Refresh(seen, docs, view.collection, set id | id in schedule);
    forall k: Bytes
      ensures !Violates(view, docs, schedule, vt, k) <==> SoleEmitter(view, seen', k)
      ensures Violates(view, docs, schedule, vt, k) ==> k in BatchKeys(view, docs, schedule)
    {
      ViolatesExactly(view, docs, schedule, vt, seen, seen', k);
      SentNonEmpty(view, docs, schedule, k);
    }
  }
}
