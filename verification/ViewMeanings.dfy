/**
 What a view's index means, in terms of the view's own map and reduce functions
 and of the stored entries alone.
 */
module ViewMeanings {
  import opened ByteStrings
  import opened Documents
  import opened ViewMapper

  // Mapping the document emits `value` under `key`, and nothing under that key afterwards.
  ghost predicate Emits(view: View, doc: Document, key: Bytes, value: Bytes) {
    && view.mapping(doc).Some?
    && var es := view.mapping(doc).value;
       exists i :: 0 <= i < |es| && es[i] == Emission(key, value) && forall j :: i < j < |es| ==> es[j].key != key
  }

  // The index holds of document `id` exactly what mapping that version of it emits; of a missing document nothing.
  ghost predicate Shows(view: View, vt: ViewTrees, id: DocId, doc: Option<Document>) {
    forall key: Bytes, m: Mapping ::
      (key in vt.entries && m in vt.entries[key].mappings && m.source.id == id) <==>
      (doc.Some? && m.source == doc.value.header && Emits(view, doc.value, key, m.value))
  }

  // An entry holds something, one mapping per document, and the reduction of all its values in order.
  ghost predicate Condensed(view: View, key: Bytes, entry: ViewEntry) {
    && entry.mappings != []
    && (forall i, j :: 0 <= i < j < |entry.mappings| ==> entry.mappings[i].source.id != entry.mappings[j].source.id)
    && (view.reduce.None? ==> entry.reducedValue == [])
    && (view.reduce.Some? ==> exists values: seq<Bytes> ::
          && |values| == |entry.mappings| && (forall i :: 0 <= i < |values| ==> values[i] == entry.mappings[i].value)
          && entry.reducedValue == view.reduce.value(key, values))
  }

  // The index shows each document in the version last mapped, and every entry is condensed.
  ghost predicate Recomputed(view: View, vt: ViewTrees, seen: map<DocId, Document>) {
    && (forall id: DocId :: Shows(view, vt, id, if id in seen then Some(seen[id]) else None))
    && (forall key :: key in vt.entries ==> Condensed(view, key, vt.entries[key]))
  }

  lemma {:induction false} LastValueMeans(es: seq<Emission>, key: Bytes, value: Bytes)
    ensures LastValue(es, key) == Some(value) <==>
      exists i :: 0 <= i < |es| && es[i] == Emission(key, value) && forall j :: i < j < |es| ==> es[j].key != key
  {
    if es != [] {
      var n := |es| - 1;
      LastValueMeans(es[..n], key, value);
      if es[n].key != key {
        if i :| 0 <= i < n && es[..n][i] == Emission(key, value) && forall j :: i < j < n ==> es[..n][j].key != key {
          assert es[i] == Emission(key, value);
          assert forall j :: i < j < n ==> es[..n][j] == es[j];
        }
        if i :| 0 <= i < |es| && es[i] == Emission(key, value) && forall j :: i < j < |es| ==> es[j].key != key {
          assert es[..n][i] == es[i] && forall j :: i < j < n ==> es[..n][j] == es[j];
        }
      } else if es[n].value == value {
        assert es[n] == Emission(key, value);
      }
    }
  }

  // What a document contributes to a key is what its mapping emits there last.
  lemma ContributionMeans(view: View, doc: Option<Document>, key: Bytes, m: Mapping)
    ensures Contribution(view, doc, key) == Some(m) <==>
            doc.Some? && m.source == doc.value.header && Emits(view, doc.value, key, m.value)
  {
    if doc.Some? && view.mapping(doc.value).Some? {
      LastValueMeans(view.mapping(doc.value).value, key, m.value);
    }
  }

  lemma FindMeans(ms: seq<Mapping>, id: DocId, m: Mapping)
    requires OnePerDocument(ms)
    ensures Find(ms, id) == Some(m) <==> m in ms && m.source.id == id
  {
    FindNone(ms, id);
    if m in ms && m.source.id == id {
      var i :| 0 <= i < |ms| && ms[i] == m;
      var found := Find(ms, id).value;
      var j :| 0 <= j < |ms| && ms[j] == found;
      assert i == j;
    }
  }

  // An index that equals the recomputation, in the terms the maintenance is proved in, is one in these terms.
  lemma IndexesMeans(view: View, vt: ViewTrees, seen: map<DocId, Document>)
    requires Indexes(view, vt, seen)
    ensures Recomputed(view, vt, seen)
  {
    forall id: DocId ensures Shows(view, vt, id, if id in seen then Some(seen[id]) else None) {
      IndexShows(view, vt, seen, id);
    }
    forall key | key in vt.entries ensures Condensed(view, key, vt.entries[key]) {
      var entry := vt.entries[key];
      assert |Values(entry.mappings)| == |entry.mappings|;
    }
  }

  lemma IndexShows(view: View, vt: ViewTrees, seen: map<DocId, Document>, id: DocId)
    requires Indexes(view, vt, seen)
    ensures Shows(view, vt, id, if id in seen then Some(seen[id]) else None)
  {
    forall key: Bytes, m: Mapping
      ensures (key in vt.entries && m in vt.entries[key].mappings && m.source.id == id) <==>
              (Get(seen, id).Some? && m.source == Get(seen, id).value.header &&
               Emits(view, Get(seen, id).value, key, m.value))
    {
      assert Find(MappingsAt(vt, key), id) == Contribution(view, Get(seen, id), key);
      ContributionMeans(view, Get(seen, id), key, m);
      FindMeans(MappingsAt(vt, key), id, m);
    }
  }

  // ---------------------------------------------------------------- when mapping succeeds

  // The documents of the collection that emit `key`.
  ghost predicate EmitsKey(view: View, doc: Document, key: Bytes) {
    exists value: Bytes :: Emits(view, doc, key, value)
  }

  // No two documents emit one key.
  ghost predicate NoneShared(view: View, seen: map<DocId, Document>) {
    forall a, b, key: Bytes ::
      a in seen && b in seen && EmitsKey(view, seen[a], key) && EmitsKey(view, seen[b], key) ==> a == b
  }

  lemma ContributesMeans(view: View, seen: map<DocId, Document>, id: DocId, key: Bytes)
    ensures Contribution(view, Get(seen, id), key).Some? <==> id in seen && EmitsKey(view, seen[id], key)
  {
    if Contribution(view, Get(seen, id), key).Some? {
      ContributionMeans(view, Get(seen, id), key, Contribution(view, Get(seen, id), key).value);
    }
    if id in seen && EmitsKey(view, seen[id], key) {
      var value: Bytes :| Emits(view, seen[id], key, value);
      ContributionMeans(view, Get(seen, id), key, Mapping(seen[id].header, value));
    }
  }

  lemma UnambiguousMeans(view: View, seen: map<DocId, Document>)
    ensures Unambiguous(view, seen) <==> NoneShared(view, seen)
  {
    forall id: DocId, key: Bytes
      ensures Contribution(view, Get(seen, id), key).Some? <==> id in seen && EmitsKey(view, seen[id], key)
    {
      ContributesMeans(view, seen, id, key);
    }
    if Unambiguous(view, seen) {
      forall a, b, key: Bytes | a in seen && b in seen && EmitsKey(view, seen[a], key) && EmitsKey(view, seen[b], key)
        ensures a == b
      {
        assert SoleEmitter(view, seen, key);
      }
    }
    if NoneShared(view, seen) {
      forall key: Bytes ensures SoleEmitter(view, seen, key) {
      }
    }
  }

  // A batch is saved iff every document in it can be mapped and, in a unique view, no two documents of the
  // collection then emit one key.
  lemma SaveExactly(view: View, docs: Docs, schedule: seq<DocId>, vt: ViewTrees, seen: map<DocId, Document>)
    requires Keyed(docs) && Indexes(view, vt, seen)
    requires view.policy.Unique? ==> NoneShared(view, seen)
    ensures
      var after := Refresh(seen, docs, view.collection, set id | id in schedule);
      Save(view, docs, schedule, vt).Ok? <==>
        && (forall id :: id in schedule && DocKey(view.collection, id) in docs ==>
              view.mapping(docs[DocKey(view.collection, id)]).Some?)
        && (view.policy.Unique? ==> NoneShared(view, after))
  {
    var after := Refresh(seen, docs, view.collection, set id | id in schedule);
    AllMappable(view, docs, schedule);
    if view.policy.Unique? && forall id :: id in schedule ==> Mappable(view, Lookup(docs, view.collection, id)) {
      UnambiguousMeans(view, seen);
      UnambiguousMeans(view, after);
      UniqueExactly(view, docs, schedule, vt, seen);
    }
  }

  lemma AllMappable(view: View, docs: Docs, schedule: seq<DocId>)
    ensures (forall id :: id in schedule ==> Mappable(view, Lookup(docs, view.collection, id))) <==>
            (forall id :: id in schedule && DocKey(view.collection, id) in docs ==>
               view.mapping(docs[DocKey(view.collection, id)]).Some?)
  {
    forall id | id in schedule
      ensures Mappable(view, Lookup(docs, view.collection, id)) <==>
              (DocKey(view.collection, id) in docs ==> view.mapping(docs[DocKey(view.collection, id)]).Some?)
    {
    }
  }
}
