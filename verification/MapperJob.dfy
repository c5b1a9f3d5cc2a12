/**
 The loops of the mapper job, each proved against the key-by-key description of
 module `ViewMapper`.
 */
module MapperJob {
  import opened ByteStrings
  import Sorting
  import opened Documents
  import opened ViewMapper

  const BATCH_SIZE: nat := 1024

  // The ids of one batch and the results of mapping its documents, gathered in arrival order.
  datatype Batch = Batch(
    documentIds: seq<DocId>,
    documentKeys: map<DocId, set<Bytes>>,
    newMappings: map<Bytes, seq<Mapping>>,
    allKeys: set<Bytes>)

  function NewAt(news: map<Bytes, seq<Mapping>>, key: Bytes): seq<Mapping> {
    if key in news then news[key] else []
  }

  function CleanAt(clean: map<Bytes, set<DocId>>, key: Bytes): set<DocId> {
    if key in clean then clean[key] else {}
  }

  function StoredAt(entries: map<Bytes, ViewEntry>, key: Bytes): Option<ViewEntry> {
    if key in entries then Some(entries[key]) else None
  }

  ghost predicate Distinct(ids: seq<DocId>) {
    forall i, j :: 0 <= i < j < |ids| ==> ids[i] != ids[j]
  }

  // Sorted and without duplicates, as ids come out of a tree.
  ghost predicate Ascending(ids: seq<DocId>) {
    forall i, j :: 0 <= i < j < |ids| ==> Less(ids[i], ids[j])
  }

  lemma AscendingIsDistinct(ids: seq<DocId>)
    requires Ascending(ids)
    ensures Distinct(ids)
  {
    forall i, j | 0 <= i < j < |ids| ensures ids[i] != ids[j] {
      LessAsymmetric(ids[i], ids[j]);
    }
  }

  // ---------------------------------------------------------------- generating a batch

  // `found` holds exactly the documents of `ids` that exist, each with its id.
  ghost predicate Found(docs: Docs, collection: CollectionName, ids: seq<DocId>, found: seq<(DocId, Document)>) {
    && (forall p :: p in found ==> p.0 in ids && Lookup(docs, collection, p.0) == Some(p.1))
    && (forall id :: id in ids && DocKey(collection, id) in docs ==> (id, docs[DocKey(collection, id)]) in found)
  }

  ghost predicate SortedById(found: seq<(DocId, Document)>) {
    forall i, j :: 0 <= i < j < |found| ==> Less(found[i].0, found[j].0)
  }

  ghost predicate DistinctIds(found: seq<(DocId, Document)>) {
    forall i, j :: 0 <= i < j < |found| ==> found[i].0 != found[j].0
  }

  // `get_multiple` of the documents' tree.
  method GetMultiple(docs: Docs, collection: CollectionName, ids: seq<DocId>) returns (found: seq<(DocId, Document)>)
    requires Distinct(ids)
    ensures Found(docs, collection, ids, found) && DistinctIds(found)
  {
    found := [];
    for i := 0 to |ids|
      invariant forall p :: p in found ==> p.0 in ids[..i] && Lookup(docs, collection, p.0) == Some(p.1)
      invariant forall j :: 0 <= j < i && DocKey(collection, ids[j]) in docs ==>
        (ids[j], docs[DocKey(collection, ids[j])]) in found
      invariant DistinctIds(found)
    {
      var key := DocKey(collection, ids[i]);
      if key in docs {
        assert forall p :: p in found ==> p.0 != ids[i];
        found := found + [(ids[i], docs[key])];
      }
    }
  }

  function ById(a: (DocId, Document), b: (DocId, Document)): bool {
    AtMost(a.0, b.0)
  }

  lemma ByIdIsTotal()
    ensures Sorting.TotalPreorder(ById)
  {
    forall a: (DocId, Document), b: (DocId, Document) ensures ById(a, b) || ById(b, a) {
      LessTotal(a.0, b.0);
    }
    forall a: (DocId, Document), b: (DocId, Document), c: (DocId, Document) | ById(a, b) && ById(b, c)
      ensures ById(a, c)
    {
      if Less(a.0, b.0) && Less(b.0, c.0) {
        LessTransitive(a.0, b.0, c.0);
      }
    }
  }

  // The sort by id that follows.
  method SortById(found: seq<(DocId, Document)>) returns (r: seq<(DocId, Document)>)
    requires DistinctIds(found)
    ensures SortedById(r) && forall p :: p in r <==> p in found
  {
    ByIdIsTotal();
    forall i, j | 0 <= i < j < |found| ensures !ById(found[i], found[j]) || !ById(found[j], found[i]) {
      if Less(found[i].0, found[j].0) {
        LessAsymmetric(found[i].0, found[j].0);
      }
    }
    r := Sorting.SortBy(found, ById);
    Sorting.SameElements(r, found);
    forall i, j | 0 <= i < j < |r| ensures Less(r[i].0, r[j].0) {
      LessTotal(r[i].0, r[j].0);
    }
  }

  // Walks ids and fetched documents from their ends, pairing each id with its document or with nothing.
  method GenerateBatch(docs: Docs, collection: CollectionName, ids: seq<DocId>)
    returns (payload: seq<(DocId, Option<Document>)>)
    requires Ascending(ids)
    ensures |payload| == |ids|
    ensures forall i :: 0 <= i < |ids| ==>
      payload[i] == (ids[|ids| - 1 - i], Lookup(docs, collection, ids[|ids| - 1 - i]))
  {
    AscendingIsDistinct(ids);
    var found := GetMultiple(docs, collection, ids);
    var rest := SortById(found);
    payload := [];
    var i := |ids|;
    assert ids[..i] == ids;
    while i > 0
      invariant 0 <= i <= |ids| && |payload| == |ids| - i
      invariant forall j :: 0 <= j < |payload| ==>
        payload[j] == (ids[|ids| - 1 - j], Lookup(docs, collection, ids[|ids| - 1 - j]))
      invariant Found(docs, collection, ids[..i], rest) && SortedById(rest)
    {
      i := i - 1;
      var id := ids[i];
      var document := None;
      if |rest| > 0 && rest[|rest| - 1].0 == id {
        document := Some(rest[|rest| - 1].1);
        assert rest[|rest| - 1] in rest;
        FoundInit(docs, collection, ids[..i + 1], rest);
        rest := rest[..|rest| - 1];
      } else {
        FoundMiss(docs, collection, ids[..i + 1], rest);
      }
      assert ids[..i + 1][..i] == ids[..i];
      payload := payload + [(id, document)];
    }
  }

  lemma FoundInit(docs: Docs, collection: CollectionName, ids: seq<DocId>, found: seq<(DocId, Document)>)
    requires Ascending(ids) && ids != [] && found != [] && SortedById(found)
    requires Found(docs, collection, ids, found)
    requires found[|found| - 1].0 == ids[|ids| - 1]
    ensures Found(docs, collection, ids[..|ids| - 1], found[..|found| - 1])
  {
    var n, m := |ids| - 1, |found| - 1;
    forall p | p in found[..m] ensures p in found && p.0 in ids[..n] {
      var i :| 0 <= i < m && found[i] == p;
      LessAsymmetric(found[i].0, found[m].0);
      assert found[i] in found;
    }
    forall id | id in ids[..n] && DocKey(collection, id) in docs
      ensures (id, docs[DocKey(collection, id)]) in found[..m]
    {
      var j :| 0 <= j < n && ids[j] == id;
      LessAsymmetric(ids[j], ids[n]);
      assert ids[j] in ids;
    }
  }

  lemma FoundMiss(docs: Docs, collection: CollectionName, ids: seq<DocId>, found: seq<(DocId, Document)>)
    requires Ascending(ids) && ids != [] && SortedById(found)
    requires Found(docs, collection, ids, found)
    requires found != [] ==> found[|found| - 1].0 != ids[|ids| - 1]
    ensures Found(docs, collection, ids[..|ids| - 1], found)
    ensures Lookup(docs, collection, ids[|ids| - 1]).None?
  {
    var n := |ids| - 1;
    forall p | p in found ensures p.0 != ids[n] && p.0 in ids[..n] {
      var m := |found| - 1;
      if p.0 == ids[n] {
        var i :| 0 <= i < |found| && found[i] == p;
        assert i < m && Less(found[i].0, found[m].0) && found[m] in found;
        var j :| 0 <= j < |ids| && ids[j] == found[m].0;
        LessAsymmetric(ids[n], ids[j]);
      }
    }
    assert ids[n] in ids;
    forall id | id in ids[..n] ensures id in ids {
    }
  }

  // The channel between the stages: `schedule` is the order in which the payload is received and mapped.
  method Receive(payload: seq<(DocId, Option<Document>)>, schedule: seq<DocId>)
    returns (received: seq<(DocId, Option<Document>)>)
    requires forall id :: id in schedule ==> exists j :: 0 <= j < |payload| && payload[j].0 == id
    ensures |received| == |schedule|
    ensures forall i :: 0 <= i < |schedule| ==> received[i] in payload && received[i].0 == schedule[i]
  {
    received := [];
    for i := 0 to |schedule|
      invariant |received| == i
      invariant forall m :: 0 <= m < i ==> received[m] in payload && received[m].0 == schedule[m]
    {
      assert schedule[i] in schedule;
      var j :| 0 <= j < |payload| && payload[j].0 == schedule[i];
      received := received + [payload[j]];
    }
  }

  // ---------------------------------------------------------------- mapping a batch

  // Appends the emissions of one document to the lists of their keys.
  method AddEmissions(header: Header, es: seq<Emission>, news: map<Bytes, seq<Mapping>>)
    returns (r: map<Bytes, seq<Mapping>>, keys: set<Bytes>)
    requires forall k :: k in news ==> news[k] != []
    ensures forall k: Bytes :: NewAt(r, k) == NewAt(news, k) + ToKey(header, es, k)
    ensures forall k :: k in r ==> r[k] != []
    ensures keys == KeysOf(es)
  {
    r, keys := news, {};
    for j := 0 to |es|
      invariant forall k: Bytes :: NewAt(r, k) == NewAt(news, k) + ToKey(header, es[..j], k)
      invariant forall k :: k in r ==> r[k] != []
      invariant keys == KeysOf(es[..j])
    {
      var e := es[j];
      KeysOfGrows(es, j);
      keys := keys + {e.key};
      var added := r[e.key := NewAt(r, e.key) + [Mapping(header, e.value)]];
      forall k: Bytes ensures NewAt(added, k) == NewAt(news, k) + ToKey(header, es[..j + 1], k) {
        AddedAt(header, es, j, NewAt(news, k), r, k);
      }
      r := added;
    }
    assert es[..|es|] == es;
  }

  lemma AddedAt(header: Header, es: seq<Emission>, j: nat, before: seq<Mapping>, r: map<Bytes, seq<Mapping>>,
                key: Bytes)
    requires j < |es|
    requires NewAt(r, key) == before + ToKey(header, es[..j], key)
    ensures NewAt(r[es[j].key := NewAt(r, es[j].key) + [Mapping(header, es[j].value)]], key) ==
            before + ToKey(header, es[..j + 1], key)
  {
    assert es[..j + 1][..j] == es[..j];
  }

  // `news` holds exactly what the documents mapped so far send to each key.
  ghost predicate NewsGathered(view: View, docs: Docs, mapped: seq<DocId>, news: map<Bytes, seq<Mapping>>) {
    && (forall k: Bytes :: NewAt(news, k) == Sent(view, docs, mapped, k))
    && (forall k :: k in news ==> news[k] != [])
  }

  // `documentKeys` holds the keys each of them emits.
  ghost predicate KeysGathered(view: View, docs: Docs, mapped: seq<DocId>, documentKeys: map<DocId, set<Bytes>>) {
    && documentKeys.Keys == (set id | id in mapped)
    && (forall id :: id in documentKeys ==> documentKeys[id] == NewKeys(view, docs, id))
  }

  lemma NewsSnoc(view: View, docs: Docs, mapped: seq<DocId>, more: seq<DocId>, id: DocId,
                 news: map<Bytes, seq<Mapping>>, news': map<Bytes, seq<Mapping>>)
    requires NewsGathered(view, docs, mapped, news) && more == mapped + [id]
    requires forall k: Bytes :: NewAt(news', k) == NewAt(news, k) + SentBy(view, Lookup(docs, view.collection, id), k)
    requires forall k :: k in news' ==> news'[k] != []
    ensures NewsGathered(view, docs, more, news')
  {
    assert more[..|mapped|] == mapped;
    forall k: Bytes ensures NewAt(news', k) == Sent(view, docs, more, k) {
      assert NewAt(news, k) == Sent(view, docs, mapped, k);
    }
  }

  lemma KeysSnoc(view: View, docs: Docs, mapped: seq<DocId>, more: seq<DocId>, id: DocId,
                 documentKeys: map<DocId, set<Bytes>>, documentKeys': map<DocId, set<Bytes>>)
    requires KeysGathered(view, docs, mapped, documentKeys) && more == mapped + [id]
    requires documentKeys' == documentKeys[id := NewKeys(view, docs, id)]
    ensures KeysGathered(view, docs, more, documentKeys')
    ensures BatchKeys(view, docs, more) == BatchKeys(view, docs, mapped) + NewKeys(view, docs, id)
  {
    assert more[..|mapped|] == mapped;
    forall x: DocId ensures x in more <==> x in mapped || x == id {
    }
  }

  ghost predicate Gathered(view: View, docs: Docs, mapped: seq<DocId>, documentKeys: map<DocId, set<Bytes>>,
                           news: map<Bytes, seq<Mapping>>, all: set<Bytes>)
  {
    && NewsGathered(view, docs, mapped, news)
    && KeysGathered(view, docs, mapped, documentKeys)
    && all == BatchKeys(view, docs, mapped)
  }

  lemma GatherNext(view: View, docs: Docs, schedule: seq<DocId>, i: nat, documentKeys: map<DocId, set<Bytes>>,
                   news: map<Bytes, seq<Mapping>>, all: set<Bytes>, news': map<Bytes, seq<Mapping>>, keys: set<Bytes>)
    requires i < |schedule| && Gathered(view, docs, schedule[..i], documentKeys, news, all)
    requires keys == NewKeys(view, docs, schedule[i])
    requires forall k: Bytes ::
      NewAt(news', k) == NewAt(news, k) + SentBy(view, Lookup(docs, view.collection, schedule[i]), k)
    requires forall k :: k in news' ==> news'[k] != []
    ensures Gathered(view, docs, schedule[..i + 1], documentKeys[schedule[i] := keys], news', all + keys)
  {
    assert schedule[..i + 1] == schedule[..i] + [schedule[i]];
    NewsSnoc(view, docs, schedule[..i], schedule[..i + 1], schedule[i], news, news');
    KeysSnoc(view, docs, schedule[..i], schedule[..i + 1], schedule[i], documentKeys,
             documentKeys[schedule[i] := keys]);
  }

  ghost predicate MappableUpTo(view: View, docs: Docs, schedule: seq<DocId>, n: nat)
    requires n <= |schedule|
  {
    || n == 0
    || (Mappable(view, Lookup(docs, view.collection, schedule[n - 1])) && MappableUpTo(view, docs, schedule, n - 1))
  }

  lemma {:induction false} MappableAll(view: View, docs: Docs, schedule: seq<DocId>, n: nat)
    requires n <= |schedule|
    ensures MappableUpTo(view, docs, schedule, n) <==>
            forall i :: 0 <= i < n ==> Mappable(view, Lookup(docs, view.collection, schedule[i]))
  {
    if n > 0 {
      MappableAll(view, docs, schedule, n - 1);
    }
  }

  // Each of the pairs is an id of the schedule with its document, or with nothing.
  ghost predicate Delivered(docs: Docs, collection: CollectionName, schedule: seq<DocId>,
                            received: seq<(DocId, Option<Document>)>)
  {
    && |received| == |schedule|
    && forall i :: 0 <= i < |received| ==> received[i] == (schedule[i], Lookup(docs, collection, schedule[i]))
  }

  // `map_batches` for one batch of received documents: fails iff the map of some document fails.
  method MapBatch(view: View, ids: seq<DocId>, received: seq<(DocId, Option<Document>)>,
                  ghost docs: Docs, ghost schedule: seq<DocId>)
    returns (r: Option<Batch>)
    requires Delivered(docs, view.collection, schedule, received)
    ensures r.Some? <==> forall id :: id in schedule ==> Mappable(view, Lookup(docs, view.collection, id))
    ensures r.Some? ==>
      && r.value.documentIds == ids
      && Gathered(view, docs, schedule, r.value.documentKeys, r.value.newMappings, r.value.allKeys)
  {
    var documentKeys: map<DocId, set<Bytes>> := map[];
    var news: map<Bytes, seq<Mapping>> := map[];
    var all: set<Bytes> := {};
    for i := 0 to |received|
      invariant MappableUpTo(view, docs, schedule, i)
      invariant Gathered(view, docs, schedule[..i], documentKeys, news, all)
    {
      var (id, document) := received[i];
      var added, keys := MapDocument(view, document, news);
      if added.None? {
        MappableAll(view, docs, schedule, |schedule|);
        return None;
      }
      GatherNext(view, docs, schedule, i, documentKeys, news, all, added.value, keys);
      news := added.value;
      documentKeys := documentKeys[id := keys];
      all := all + keys;
    }
    MappableAll(view, docs, schedule, |schedule|);
    assert schedule[..|schedule|] == schedule;
    r := Some(Batch(ids, documentKeys, news, all));
  }

  // Maps one document, or nothing where a document is gone.
  method MapDocument(view: View, doc: Option<Document>, news: map<Bytes, seq<Mapping>>)
    returns (r: Option<map<Bytes, seq<Mapping>>>, keys: set<Bytes>)
    requires forall k :: k in news ==> news[k] != []
    ensures r.Some? <==> Mappable(view, doc)
    ensures r.Some? ==>
      && (forall k: Bytes :: NewAt(r.value, k) == NewAt(news, k) + SentBy(view, doc, k))
      && (forall k :: k in r.value ==> r.value[k] != [])
      && keys == KeysOf(Emitted(view, doc))
  {
    if doc.None? {
      return Some(news), {};
    }
    if view.mapping(doc.value).None? {
      return None, {};
    }
    var added;
    added, keys := AddEmissions(doc.value.header, Emitted(view, doc), news);
    r := Some(added);
  }

  lemma KeysOfGrows(es: seq<Emission>, j: nat)
    requires j < |es|
    ensures KeysOf(es[..j + 1]) == KeysOf(es[..j]) + {es[j].key}
  {
    forall k | k in KeysOf(es[..j + 1]) ensures k in KeysOf(es[..j]) + {es[j].key} {
      var i :| 0 <= i <= j && es[..j + 1][i].key == k;
      assert i < j ==> es[..j][i].key == k;
    }
    forall k | k in KeysOf(es[..j]) + {es[j].key} ensures k in KeysOf(es[..j + 1]) {
      if k in KeysOf(es[..j]) {
        var i :| 0 <= i < j && es[..j][i].key == k;
        assert es[..j + 1][i].key == k;
      } else {
        assert es[..j + 1][j].key == k;
      }
    }
  }

  // Replaces the record of every document in the batch; returns the records replaced.
  method RecordKeys(schedule: seq<DocId>, documentMap: map<DocId, set<Bytes>>, documentKeys: map<DocId, set<Bytes>>)
    returns (r: map<DocId, set<Bytes>>, toClear: seq<(DocId, set<Bytes>)>)
    requires Distinct(schedule)
    requires documentKeys.Keys == set id | id in schedule
    ensures r == documentMap + documentKeys
    ensures forall p :: p in toClear <==> p.0 in schedule && p.0 in documentMap && p.1 == documentMap[p.0]
  {
    r, toClear := documentMap, [];
    ghost var done: set<DocId> := {};
    for i := 0 to |schedule|
      invariant done == set j | 0 <= j < i :: schedule[j]
      invariant r.Keys == documentMap.Keys + done
      invariant forall id :: id in r ==> r[id] == if id in done then documentKeys[id] else documentMap[id]
      invariant forall p :: p in toClear <==> p.0 in done && p.0 in documentMap && p.1 == documentMap[p.0]
    {
      var id := schedule[i];
      assert id !in done && id in documentKeys.Keys;
      if id in r {
        toClear := toClear + [(id, r[id])];
      }
      r := r[id := documentKeys[id]];
      done := done + {id};
    }
    assert done == documentKeys.Keys;
  }

  // Records the new keys of every document and finds the keys to clean.
  method UpdateDocumentMap(schedule: seq<DocId>, vt: ViewTrees, documentKeys: map<DocId, set<Bytes>>)
    returns (documentMap: map<DocId, set<Bytes>>, clean: map<Bytes, set<DocId>>)
    requires Distinct(schedule)
    requires documentKeys.Keys == set id | id in schedule
    ensures documentMap == vt.documentMap + documentKeys
    ensures forall k: Bytes, id: DocId ::
      id in CleanAt(clean, k) <==> id in schedule && k in KeysAt(vt, id) && k !in documentKeys[id]
    ensures forall k :: k in clean ==> clean[k] != {}
  {
    var toClear;
    documentMap, toClear := RecordKeys(schedule, vt.documentMap, documentKeys);
    clean := map[];
    assert toClear[..0] == [];
    for i := 0 to |toClear|
      invariant forall k: Bytes, id: DocId ::
        id in CleanAt(clean, k) <==> Outdated(toClear[..i], documentKeys, k, id)
      invariant forall k :: k in clean ==> clean[k] != {}
    {
      assert toClear[i] in toClear;
      clean := CleanDifference(clean, toClear[i].0, toClear[i].1 - documentKeys[toClear[i].0]);
      assert toClear[..i + 1] == toClear[..i] + [toClear[i]];
    }
    assert toClear[..|toClear|] == toClear;
    forall k: Bytes, id: DocId
      ensures id in CleanAt(clean, k) <==> id in schedule && k in KeysAt(vt, id) && k !in documentKeys[id]
    {
      if id in schedule && k in KeysAt(vt, id) && k !in documentKeys[id] {
        assert (id, vt.documentMap[id]) in toClear;
      }
    }
  }

  // Some old record of `id` has `key`, and the new one has not.
  ghost predicate Outdated(records: seq<(DocId, set<Bytes>)>, documentKeys: map<DocId, set<Bytes>>, key: Bytes,
                           id: DocId)
  {
    exists p :: p in records && p.0 == id && key in p.1 && id in documentKeys && key !in documentKeys[id]
  }

  // Marks document `id` for removal under every key of `keys`.
  method CleanDifference(clean: map<Bytes, set<DocId>>, id: DocId, keys: set<Bytes>)
    returns (r: map<Bytes, set<DocId>>)
    requires forall k :: k in clean ==> clean[k] != {}
    ensures forall k: Bytes, d: DocId :: d in CleanAt(r, k) <==> d in CleanAt(clean, k) || (k in keys && d == id)
    ensures forall k :: k in r ==> r[k] != {}
  {
    r := clean;
    var rest := keys;
    while rest != {}
      invariant rest <= keys
      invariant forall k: Bytes, d: DocId ::
        d in CleanAt(r, k) <==> d in CleanAt(clean, k) || (k in keys && k !in rest && d == id)
      invariant forall k :: k in r ==> r[k] != {}
      decreases |rest|
    {
      var key :| key in rest;
      var marked := r[key := CleanAt(r, key) + {id}];
      forall k: Bytes, d: DocId
        ensures d in CleanAt(marked, k) <==> d in CleanAt(clean, k) || (k in keys && k !in rest - {key} && d == id)
      {
        assert CleanAt(marked, k) == if k == key then CleanAt(r, key) + {id} else CleanAt(r, k);
        assert d in CleanAt(r, k) <==> d in CleanAt(clean, k) || (k in keys && k !in rest && d == id);
      }
      r := marked;
      rest := rest - {key};
    }
  }

  // The in-place search for the document's mapping in an entry.
  method UpsertMapping(ms: seq<Mapping>, m: Mapping) returns (r: seq<Mapping>)
    ensures r == Upsert(ms, m)
  {
    var i := 0;
    while i < |ms|
      invariant 0 <= i <= |ms|
      invariant forall j :: 0 <= j < i ==> ms[j].source.id != m.source.id
    {
      if ms[i].source.id == m.source.id {
        UpsertAt(ms, m, i);
        return ms[i := m];
      }
      i := i + 1;
    }
    UpsertAt(ms, m, i);
    r := ms + [m];
  }

  lemma {:induction false} UpsertAt(ms: seq<Mapping>, m: Mapping, i: nat)
    requires i <= |ms| && forall j :: 0 <= j < i ==> ms[j].source.id != m.source.id
    requires i < |ms| ==> ms[i].source.id == m.source.id
    ensures Upsert(ms, m) == if i < |ms| then ms[i := m] else ms + [m]
  {
    if i > 0 {
      UpsertAt(ms[1..], m, i - 1);
      assert ms == [ms[0]] + ms[1..];
    }
  }

  // `compare_swap_view_entry`: the stored entry after cleaning and adding, or nothing to remove the key.
  method CompareSwapViewEntry(view: View, key: Bytes, stored: Option<ViewEntry>,
                              clean: Option<set<DocId>>, news: Option<seq<Mapping>>)
    returns (r: Result<Option<ViewEntry>, Error>)
    requires clean.Some? || news.Some?
    requires news.Some? ==> news.value != []
    ensures
      var kept := Retain(if stored.Some? then stored.value.mappings else [], if clean.Some? then clean.value else {});
      var sent := if news.Some? then news.value else [];
      var all := UpsertAll(kept, sent);
      r == if view.policy.Unique? && Collides(kept, sent) then Err(UniqueKeyViolation)
           else if all == [] then Ok(None)
           else Ok(Some(ViewEntry(all, Reduced(view, key, all))))
  {
    var mappings := if stored.Some? then stored.value.mappings else [];
    var reduced := if stored.Some? then stored.value.reducedValue else [];
    RetainNothingDropped(mappings);
    if clean.Some? {
      mappings := Retain(mappings, clean.value);
      if mappings == [] && news.None? {
        return Ok(None);
      }
      reduced := Reduced(view, key, mappings);
    }
    if news.Some? {
      UpsertAllNonEmpty(mappings, news.value);
      var added := AddMappings(view, mappings, news.value);
      if added.Err? {
        return Err(added.error);
      }
      mappings := added.value;
      reduced := Reduced(view, key, mappings);
    }
    r := Ok(Some(ViewEntry(mappings, reduced)));
  }

  // Adds new mappings one by one; in a unique view the first one of another document is an error.
  method AddMappings(view: View, kept: seq<Mapping>, sent: seq<Mapping>) returns (r: Result<seq<Mapping>, Error>)
    ensures r == if view.policy.Unique? && Collides(kept, sent) then Err(UniqueKeyViolation)
                 else Ok(UpsertAll(kept, sent))
  {
    var mappings := kept;
    for i := 0 to |sent|
      invariant mappings == UpsertAll(kept, sent[..i])
      invariant view.policy.Unique? ==> !Collides(kept, sent[..i])
    {
      assert sent[..i + 1][..i] == sent[..i];
      if view.policy.Unique? && mappings != [] && mappings[0].source.id != sent[i].source.id {
        CollisionPersists(kept, sent, i + 1);
        return Err(UniqueKeyViolation);
      }
      mappings := UpsertMapping(mappings, sent[i]);
    }
    assert sent[..|sent|] == sent;
    r := Ok(mappings);
  }

  lemma {:induction false} CollisionPersists(ms: seq<Mapping>, news: seq<Mapping>, i: nat)
    requires i <= |news| && Collides(ms, news[..i])
    ensures Collides(ms, news)
    decreases |news|
  {
    if i < |news| {
      assert news[..|news| - 1][..i] == news[..i];
      CollisionPersists(ms, news[..|news| - 1], i);
    } else {
      assert news[..i] == news;
    }
  }

  lemma UpsertAllNonEmpty(ms: seq<Mapping>, news: seq<Mapping>)
    requires news != []
    ensures UpsertAll(ms, news) != []
  {
  }

  // What compare-and-swap leaves under one key.
  function Swapped(view: View, vt: ViewTrees, clean: map<Bytes, set<DocId>>, news: map<Bytes, seq<Mapping>>, key: Bytes)
    : Option<ViewEntry>
  {
    var ms := UpsertAll(Retain(MappingsAt(vt, key), CleanAt(clean, key)), NewAt(news, key));
    if ms == [] then None else Some(ViewEntry(ms, Reduced(view, key, ms)))
  }

  predicate Blocked(view: View, vt: ViewTrees, clean: map<Bytes, set<DocId>>, news: map<Bytes, seq<Mapping>>,
                    key: Bytes)
  {
    view.policy.Unique? && Collides(Retain(MappingsAt(vt, key), CleanAt(clean, key)), NewAt(news, key))
  }

  // Compare-and-swap on one key, as the tree carries it out.
  method SwapKey(view: View, vt: ViewTrees, key: Bytes, entries: map<Bytes, ViewEntry>,
                 clean: map<Bytes, set<DocId>>, news: map<Bytes, seq<Mapping>>)
    returns (r: map<Bytes, ViewEntry>, failed: bool)
    requires key in news || key in clean
    requires key in news ==> news[key] != []
    requires StoredAt(entries, key) == StoredAt(vt.entries, key)
    ensures failed <==> Blocked(view, vt, clean, news, key)
    ensures !failed ==> StoredAt(r, key) == Swapped(view, vt, clean, news, key)
    ensures forall k: Bytes :: k != key ==> StoredAt(r, k) == StoredAt(entries, k)
  {
    var swapped := CompareSwapViewEntry(view, key, StoredAt(entries, key),
                                        if key in clean then Some(clean[key]) else None,
                                        if key in news then Some(news[key]) else None);
    failed := swapped.Err?;
    r := if failed then entries
         else if swapped.value.None? then entries - {key}
         else entries[key := swapped.value.value];
  }

  // `update_view_entries`: compare-and-swap on every affected key.
  method UpdateViewEntries(view: View, vt: ViewTrees,
                           keys: set<Bytes>, clean: map<Bytes, set<DocId>>, news: map<Bytes, seq<Mapping>>)
    returns (entries: map<Bytes, ViewEntry>, failed: bool)
    requires forall k :: k in news ==> news[k] != []
    requires keys == news.Keys + clean.Keys
    ensures failed <==> exists k :: k in keys && Blocked(view, vt, clean, news, k)
    ensures !failed ==> forall k :: k in keys ==> StoredAt(entries, k) == Swapped(view, vt, clean, news, k)
    ensures forall k: Bytes :: k !in keys ==> StoredAt(entries, k) == StoredAt(vt.entries, k)
  {
    entries, failed := vt.entries, false;
    var rest := keys;
    ghost var done: set<Bytes> := {};
    while rest != {}
      invariant done + rest == keys && done !! rest
      invariant SwappedOn(view, vt, clean, news, done, entries, failed)
      decreases rest
    {
      var k :| k in rest;
      var next, bad := SwapKey(view, vt, k, entries, clean, news);
      SwapOneMore(view, vt, clean, news, done, k, entries, failed, next, bad);
      entries, failed := next, failed || bad;
      rest := rest - {k};
      done := done + {k};
    }
    assert done == keys;
  }

  // The keys `done` have been swapped, and no others.
  ghost predicate SwappedOn(view: View, vt: ViewTrees, clean: map<Bytes, set<DocId>>, news: map<Bytes, seq<Mapping>>,
                            done: set<Bytes>, entries: map<Bytes, ViewEntry>, failed: bool)
  {
    && (failed <==> exists k :: k in done && Blocked(view, vt, clean, news, k))
    && (!failed ==> forall k :: k in done ==> StoredAt(entries, k) == Swapped(view, vt, clean, news, k))
    && (forall k: Bytes :: k !in done ==> StoredAt(entries, k) == StoredAt(vt.entries, k))
  }

  lemma SwapOneMore(view: View, vt: ViewTrees, clean: map<Bytes, set<DocId>>, news: map<Bytes, seq<Mapping>>,
                    done: set<Bytes>, key: Bytes, entries: map<Bytes, ViewEntry>, failed: bool,
                    entries': map<Bytes, ViewEntry>, bad: bool)
    requires SwappedOn(view, vt, clean, news, done, entries, failed) && key !in done
    requires bad <==> Blocked(view, vt, clean, news, key)
    requires !bad ==> StoredAt(entries', key) == Swapped(view, vt, clean, news, key)
    requires forall k: Bytes :: k != key ==> StoredAt(entries', k) == StoredAt(entries, k)
    ensures SwappedOn(view, vt, clean, news, done + {key}, entries', failed || bad)
  {
    assert forall k :: k in done + {key} <==> k in done || k == key;
  }

  // What the mapping stage receives of one batch.
  method DeliverBatch(docs: Docs, collection: CollectionName, ids: seq<DocId>, schedule: seq<DocId>)
    returns (received: seq<(DocId, Option<Document>)>)
    requires Ascending(ids) && forall id :: id in schedule ==> id in ids
    ensures Delivered(docs, collection, schedule, received)
  {
    var payload := GenerateBatch(docs, collection, ids);
    PayloadCovers(docs, collection, ids, payload);
    received := Receive(payload, schedule);
  }

  // `save_mappings` of one batch.
  method SaveMappings(view: View, batch: Batch, vt: ViewTrees, ghost docs: Docs, ghost schedule: seq<DocId>)
    returns (r: Result<ViewTrees, Error>)
    requires Keyed(docs) && WellFormed(view, vt)
    requires Distinct(batch.documentIds) && forall id :: id in batch.documentIds <==> id in schedule
    requires forall id :: id in schedule ==> Mappable(view, Lookup(docs, view.collection, id))
    requires Gathered(view, docs, schedule, batch.documentKeys, batch.newMappings, batch.allKeys)
    ensures r == Save(view, docs, schedule, vt)
  {
    var Batch(documentIds, documentKeys, news, allKeys) := batch;
    var documentMap, clean := UpdateDocumentMap(documentIds, vt, documentKeys);
    NewAndBatchKeys(view, docs, schedule, news, allKeys);
    CleanIsStale(view, docs, schedule, vt, documentKeys, clean);
    var keys := allKeys + clean.Keys;
    var entries, failed := UpdateViewEntries(view, vt, keys, clean, news);
    r := if failed then Err(UniqueKeyViolation) else Ok(ViewTrees(documentMap, entries, vt.invalidated));
    SavedAsSpecified(view, docs, schedule, vt, documentKeys, clean, news, keys, entries, failed);
  }

  lemma SavedAsSpecified(view: View, docs: Docs, schedule: seq<DocId>, vt: ViewTrees,
                         documentKeys: map<DocId, set<Bytes>>, clean: map<Bytes, set<DocId>>,
                         news: map<Bytes, seq<Mapping>>, keys: set<Bytes>, entries: map<Bytes, ViewEntry>, failed: bool)
    requires Keyed(docs) && WellFormed(view, vt)
    requires forall id :: id in schedule ==> Mappable(view, Lookup(docs, view.collection, id))
    requires KeysGathered(view, docs, schedule, documentKeys)
    requires forall k: Bytes :: NewAt(news, k) == Sent(view, docs, schedule, k)
    requires forall k: Bytes :: CleanAt(clean, k) == Stale(view, docs, schedule, vt, k)
    requires news.Keys == BatchKeys(view, docs, schedule) && keys == news.Keys + clean.Keys
    requires failed <==> exists k :: k in keys && Blocked(view, vt, clean, news, k)
    requires !failed ==> forall k :: k in keys ==> StoredAt(entries, k) == Swapped(view, vt, clean, news, k)
    requires forall k: Bytes :: k !in keys ==> StoredAt(entries, k) == StoredAt(vt.entries, k)
    ensures Save(view, docs, schedule, vt) ==
      if failed then Err(UniqueKeyViolation)
      else Ok(ViewTrees(vt.documentMap + documentKeys, entries, vt.invalidated))
  {
    BlockedIsViolating(view, docs, schedule, vt, clean, news, keys);
    if !failed {
      SavedDocumentMap(view, docs, schedule, vt, documentKeys);
      SavedEntries(view, docs, schedule, vt, entries, keys, clean, news);
    }
  }

  // One batch through the pipeline: generated from ascending ids, mapped in the order of arrival, saved.
  method SaveBatch(view: View, docs: Docs, ids: seq<DocId>, schedule: seq<DocId>, vt: ViewTrees)
    returns (r: Result<ViewTrees, Error>)
    requires Keyed(docs)
    requires Ascending(ids) && multiset(schedule) == multiset(ids)
    requires WellFormed(view, vt)
    ensures r == Save(view, docs, schedule, vt)
  {
    SameMembers(schedule, ids);
    AscendingIsDistinct(ids);
    var received := DeliverBatch(docs, view.collection, ids, schedule);
    var batch := MapBatch(view, ids, received, docs, schedule);
    if batch.None? {
      return Err(ViewMapFailed);
    }
    r := SaveMappings(view, batch.value, vt, docs, schedule);
  }

  lemma SameMembers(a: seq<DocId>, b: seq<DocId>)
    requires multiset(a) == multiset(b)
    ensures forall id :: id in a <==> id in b
  {
    assert forall id :: id in a <==> id in multiset(a);
    assert forall id :: id in b <==> id in multiset(b);
  }

  lemma PayloadCovers(docs: Docs, collection: CollectionName, ids: seq<DocId>, payload: seq<(DocId, Option<Document>)>)
    requires |payload| == |ids|
    requires forall i :: 0 <= i < |ids| ==>
      payload[i] == (ids[|ids| - 1 - i], Lookup(docs, collection, ids[|ids| - 1 - i]))
    ensures forall id :: id in ids ==> exists j :: 0 <= j < |payload| && payload[j].0 == id
    ensures forall p :: p in payload ==> p.1 == Lookup(docs, collection, p.0)
  {
    forall id | id in ids ensures exists j :: 0 <= j < |payload| && payload[j].0 == id {
      var i :| 0 <= i < |ids| && ids[i] == id;
      assert payload[|ids| - 1 - i].0 == id;
    }
  }

  lemma NewAndBatchKeys(view: View, docs: Docs, schedule: seq<DocId>, news: map<Bytes, seq<Mapping>>, keys: set<Bytes>)
    requires Keyed(docs)
    requires forall k: Bytes :: NewAt(news, k) == Sent(view, docs, schedule, k)
    requires forall k :: k in news ==> news[k] != []
    requires keys == BatchKeys(view, docs, schedule)
    ensures news.Keys == keys
  {
    forall k: Bytes ensures k in news.Keys <==> k in keys {
      SentNonEmpty(view, docs, schedule, k);
      assert NewAt(news, k) == Sent(view, docs, schedule, k);
    }
  }

  lemma CleanIsStale(view: View, docs: Docs, schedule: seq<DocId>, vt: ViewTrees,
                     documentKeys: map<DocId, set<Bytes>>, clean: map<Bytes, set<DocId>>)
    requires documentKeys.Keys == set id | id in schedule
    requires forall id :: id in schedule ==> documentKeys[id] == NewKeys(view, docs, id)
    requires forall k: Bytes, id: DocId ::
      id in CleanAt(clean, k) <==> id in schedule && k in KeysAt(vt, id) && k !in documentKeys[id]
    ensures forall k: Bytes :: CleanAt(clean, k) == Stale(view, docs, schedule, vt, k)
  {
  }

  lemma BlockedIsViolating(view: View, docs: Docs, schedule: seq<DocId>, vt: ViewTrees,
                           clean: map<Bytes, set<DocId>>, news: map<Bytes, seq<Mapping>>, keys: set<Bytes>)
    requires forall k: Bytes :: NewAt(news, k) == Sent(view, docs, schedule, k)
    requires forall k: Bytes :: CleanAt(clean, k) == Stale(view, docs, schedule, vt, k)
    requires news.Keys == BatchKeys(view, docs, schedule)
    requires keys == news.Keys + clean.Keys
    ensures (exists k :: k in keys && Blocked(view, vt, clean, news, k)) <==>
            (exists k :: k in BatchKeys(view, docs, schedule) && Violates(view, docs, schedule, vt, k))
  {
    forall k | k in keys
      ensures Blocked(view, vt, clean, news, k) <==> Violates(view, docs, schedule, vt, k)
      ensures Blocked(view, vt, clean, news, k) ==> k in news
    {
      assert NewAt(news, k) == Sent(view, docs, schedule, k);
      assert CleanAt(clean, k) == Stale(view, docs, schedule, vt, k);
    }
  }

  lemma SavedEntries(view: View, docs: Docs, schedule: seq<DocId>, vt: ViewTrees, entries: map<Bytes, ViewEntry>,
                     keys: set<Bytes>, clean: map<Bytes, set<DocId>>, news: map<Bytes, seq<Mapping>>)
    requires Keyed(docs) && WellFormed(view, vt)
    requires Save(view, docs, schedule, vt).Ok?
    requires forall k: Bytes :: NewAt(news, k) == Sent(view, docs, schedule, k)
    requires forall k: Bytes :: CleanAt(clean, k) == Stale(view, docs, schedule, vt, k)
    requires keys == news.Keys + clean.Keys
    requires forall k :: k in keys ==> StoredAt(entries, k) == Swapped(view, vt, clean, news, k)
    requires forall k: Bytes :: k !in keys ==> StoredAt(entries, k) == StoredAt(vt.entries, k)
    ensures Save(view, docs, schedule, vt).value.entries == entries
  {
    var saved := Save(view, docs, schedule, vt).value.entries;
    forall k: Bytes ensures StoredAt(saved, k) == StoredAt(entries, k) {
      SavedEntryAt(view, docs, schedule, vt, k);
      assert NewAt(news, k) == Sent(view, docs, schedule, k);
      assert CleanAt(clean, k) == Stale(view, docs, schedule, vt, k);
      if k !in keys {
        RetainNothingDropped(MappingsAt(vt, k));
      }
    }
    SameEntries(saved, entries);
  }

  lemma SavedDocumentMap(view: View, docs: Docs, schedule: seq<DocId>, vt: ViewTrees,
                         documentKeys: map<DocId, set<Bytes>>)
    requires Save(view, docs, schedule, vt).Ok?
    requires documentKeys.Keys == set id | id in schedule
    requires forall id :: id in schedule ==> documentKeys[id] == NewKeys(view, docs, id)
    ensures Save(view, docs, schedule, vt).value.documentMap == vt.documentMap + documentKeys
    ensures Save(view, docs, schedule, vt).value.invalidated == vt.invalidated
  {
  }

  lemma SavedEntryAt(view: View, docs: Docs, schedule: seq<DocId>, vt: ViewTrees, key: Bytes)
    requires Keyed(docs) && WellFormed(view, vt)
    requires Save(view, docs, schedule, vt).Ok?
    ensures
      var ms := Updated(view, docs, schedule, vt, key);
      StoredAt(Save(view, docs, schedule, vt).value.entries, key) ==
        if ms == [] then None else Some(ViewEntry(ms, Reduced(view, key, ms)))
  {
    if key !in vt.entries && key !in BatchKeys(view, docs, schedule) {
      UpdatedElsewhere(view, docs, schedule, vt, key);
    }
  }

  lemma SameEntries(a: map<Bytes, ViewEntry>, b: map<Bytes, ViewEntry>)
    requires forall k: Bytes :: StoredAt(a, k) == StoredAt(b, k)
    ensures a == b
  {
    forall k: Bytes ensures k in a <==> k in b {
      assert StoredAt(a, k) == StoredAt(b, k);
    }
    forall k | k in a ensures a[k] == b[k] {
      assert StoredAt(a, k) == StoredAt(b, k);
    }
  }

  // ---------------------------------------------------------------- all batches

  function BatchCount(ids: seq<DocId>): nat {
    (|ids| + BATCH_SIZE - 1) / BATCH_SIZE
  }

  // The `i`-th chunk of the ids.
  function BatchAt(ids: seq<DocId>, i: nat): seq<DocId>
    requires i < BatchCount(ids)
  {
    var from, to := i * BATCH_SIZE, (i + 1) * BATCH_SIZE;
    ids[from..if to < |ids| then to else |ids|]
  }

  // Batches hold 1024 ids each, except that the last one holds what is left.
  lemma BatchShape(ids: seq<DocId>, i: nat)
    requires i < BatchCount(ids)
    ensures |BatchAt(ids, i)| == if (i + 1) * 1024 <= |ids| then 1024 else |ids| - i * 1024
    ensures 0 < |BatchAt(ids, i)| && (i < BatchCount(ids) - 1 ==> |BatchAt(ids, i)| == 1024)
  {
  }

  // Every batch arrives in some order of its own.
  ghost predicate Arrivals(ids: seq<DocId>, batches: seq<seq<DocId>>) {
    && |batches| == BatchCount(ids)
    && forall i :: 0 <= i < |batches| ==> multiset(batches[i]) == multiset(BatchAt(ids, i))
  }

  // `DocumentRequest::map`: chunks of the ids pass through the pipeline in order, each as one batch.
  method MapDocuments(view: View, docs: Docs, ids: seq<DocId>, batches: seq<seq<DocId>>, vt: ViewTrees)
    returns (r: Result<ViewTrees, Error>)
    requires Keyed(docs)
    requires Ascending(ids) && Arrivals(ids, batches)
    requires WellFormed(view, vt)
    ensures r == SaveAll(view, docs, batches, vt) && Members(batches) == set id | id in ids
    ensures r.Ok? ==> WellFormed(view, r.value)
  {
    ArrivalsCover(ids, batches);
    var current := vt;
    for i := 0 to BatchCount(ids)
      invariant SaveAll(view, docs, batches[..i], vt) == Ok(current)
      invariant WellFormed(view, current)
    {
      BatchAscends(ids, i);
      SaveAllNext(view, docs, batches, i, vt);
      var saved := SaveBatch(view, docs, BatchAt(ids, i), batches[i], current);
      if saved.Err? {
        FailureStops(view, docs, batches, i + 1, vt);
        return saved;
      }
      SavedWellFormed(view, docs, batches[i], current);
      current := saved.value;
    }
    assert batches[..|batches|] == batches;
    r := Ok(current);
  }

  lemma BatchAscends(ids: seq<DocId>, i: nat)
    requires Ascending(ids) && i < BatchCount(ids)
    ensures Ascending(BatchAt(ids, i))
  {
    var from := i * BATCH_SIZE;
    assert forall j :: 0 <= j < |BatchAt(ids, i)| ==> BatchAt(ids, i)[j] == ids[from + j];
  }

  lemma SaveAllNext(view: View, docs: Docs, batches: seq<seq<DocId>>, i: nat, vt: ViewTrees)
    requires i < |batches| && SaveAll(view, docs, batches[..i], vt).Ok?
    ensures SaveAll(view, docs, batches[..i + 1], vt) ==
            Save(view, docs, batches[i], SaveAll(view, docs, batches[..i], vt).value)
  {
    assert batches[..i + 1][..i] == batches[..i];
  }

  lemma {:induction false} InMembers(batches: seq<seq<DocId>>, id: DocId)
    ensures id in Members(batches) <==> exists i :: 0 <= i < |batches| && id in batches[i]
  {
    if batches != [] {
      var n := |batches| - 1;
      InMembers(batches[..n], id);
      if i :| 0 <= i < n && id in batches[..n][i] {
        assert id in batches[i];
      }
      if i :| 0 <= i < |batches| && id in batches[i] {
        assert i < n ==> id in batches[..n][i];
      }
    }
  }

  // Together the batches hold exactly the ids.
  lemma ArrivalsCover(ids: seq<DocId>, batches: seq<seq<DocId>>)
    requires Arrivals(ids, batches)
    ensures Members(batches) == set id | id in ids
  {
    forall id: DocId ensures id in Members(batches) <==> id in ids {
      InMembers(batches, id);
      if i :| 0 <= i < |batches| && id in batches[i] {
        SameMembers(batches[i], BatchAt(ids, i));
      }
      if j :| 0 <= j < |ids| && ids[j] == id {
        var i := j / BATCH_SIZE;
        SameMembers(batches[i], BatchAt(ids, i));
        assert BatchAt(ids, i)[j - i * BATCH_SIZE] == id;
      }
    }
  }

  // A request for a single document, which makes a single batch.
  method MapOneDocument(view: View, docs: Docs, id: DocId, vt: ViewTrees) returns (r: Result<ViewTrees, Error>)
    requires Keyed(docs) && WellFormed(view, vt)
    ensures r == SaveAll(view, docs, [[id]], vt)
    ensures r.Ok? ==> WellFormed(view, r.value)
  {
    assert BatchAt([id], 0) == [id];
    r := MapDocuments(view, docs, [id], [[id]], vt);
  }

  lemma {:induction false} FailureStops(view: View, docs: Docs, batches: seq<seq<DocId>>, i: nat, vt: ViewTrees)
    requires i <= |batches|
    requires SaveAll(view, docs, batches[..i], vt).Err?
    ensures SaveAll(view, docs, batches, vt) == SaveAll(view, docs, batches[..i], vt)
    decreases |batches|
  {
    if i == |batches| {
      assert batches[..i] == batches;
    } else {
      assert batches[..|batches| - 1][..i] == batches[..i];
      FailureStops(view, docs, batches[..|batches| - 1], i, vt);
    }
  }
}
