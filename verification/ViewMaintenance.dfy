/** What every transaction and every mapped chunk keep true of the views. */
module ViewMaintenance {
  import opened ByteStrings
  import opened Documents
  import opened ViewMapper
  import opened Transactions
  import opened TransactionProperties

  // The documents of one collection, by id.
  function Contents(docs: Docs, collection: CollectionName): (r: map<DocId, Document>)
    ensures forall id: DocId :: Get(r, id) == Lookup(docs, collection, id)
  {
    map id | id in IdsIn(docs, collection) :: docs[DocKey(collection, id)]
  }

  // The index is a recomputation from `seen`, and every document whose current version was not the
  // one last mapped waits in the invalidated set.
  ghost predicate Tracked(view: View, vt: ViewTrees, docs: Docs, seen: map<DocId, Document>) {
    && Indexes(view, vt, seen)
    && (forall id: DocId :: Get(seen, id) != Lookup(docs, view.collection, id) ==> id in vt.invalidated)
    && (view.policy.IsEager() ==> vt.invalidated == {})
    && (view.policy.Unique? ==> Unambiguous(view, seen))
  }

  ghost predicate AllTracked(schema: Schema, trees: Trees, seen: seq<map<DocId, Document>>) {
    && |trees.views| == |schema.views| == |seen|
    && Keyed(trees.docs)
    && forall i :: 0 <= i < |seen| ==> Tracked(schema.views[i], trees.views[i], trees.docs, seen[i])
  }

  // A view with nothing invalidated, as every eager view is, has seen exactly the current documents.
  lemma NothingInvalidated(view: View, vt: ViewTrees, docs: Docs, seen: map<DocId, Document>)
    requires Tracked(view, vt, docs, seen) && vt.invalidated == {}
    ensures seen == Contents(docs, view.collection)
  {
    SameSeen(seen, Contents(docs, view.collection));
  }

  // ---------------------------------------------------------------- one operation

  lemma {:induction false} UpdateEagerAt(schema: Schema, docs: Docs, views: seq<ViewTrees>,
                                         collection: CollectionName, id: DocId, n: nat, i: nat)
    requires n <= |schema.views| == |views| && i < |views|
    requires UpdateEager(schema, docs, views, collection, id, n).Ok?
    ensures
      var after := UpdateEager(schema, docs, views, collection, id, n).value;
      if i < n then UpdateView(schema, docs, i, views[i], collection, id) == Ok(after[i]) else after[i] == views[i]
  {
    if n > 0 {
      UpdateEagerAt(schema, docs, views, collection, id, n - 1, i);
      UpdateEagerAt(schema, docs, views, collection, id, n - 1, n - 1);
    }
  }

  // Re-mapping the one document that changed brings an eager view up to date.
  lemma EagerRemap(view: View, docs: Docs, docs': Docs, id: DocId, vt: ViewTrees, vt': ViewTrees)
    requires Keyed(docs')
    requires Indexes(view, vt, Contents(docs, view.collection))
    requires view.policy.Unique? ==> Unambiguous(view, Contents(docs, view.collection))
    requires forall x: DocId :: x != id ==> Lookup(docs', view.collection, x) == Lookup(docs, view.collection, x)
    requires SaveAll(view, docs', [[id]], vt) == Ok(vt')
    ensures Indexes(view, vt', Contents(docs', view.collection))
    ensures view.policy.Unique? ==> Unambiguous(view, Contents(docs', view.collection))
    ensures vt'.invalidated == vt.invalidated
  {
    var seen := Contents(docs, view.collection);
    var ids := set x | x in [id];
    SingleBatch(view, docs', id, vt);
    SameSeen(Refresh(seen, docs', view.collection, ids), Contents(docs', view.collection));
    SaveIndexes(view, docs', [id], vt, vt', seen, Refresh(seen, docs', view.collection, ids));
    if view.policy.Unique? {
      UniqueExactly(view, docs', [id], vt, seen);
    }
  }

  lemma SingleBatch(view: View, docs: Docs, id: DocId, vt: ViewTrees)
    ensures SaveAll(view, docs, [[id]], vt) == Save(view, docs, [id], vt)
  {
    assert [[id]][..0] == [];
    assert SaveAll(view, docs, [[id]][..0], vt) == Ok(vt);
  }

  lemma ExecuteTracks(schema: Schema, trees: Trees, op: Operation, after: Trees, i: nat)
    requires |trees.views| == |schema.views| && i < |schema.views|
    requires Keyed(trees.docs)
    requires Execute(schema, trees, op).Ok? && Execute(schema, trees, op).value.0 == after
    requires schema.views[i].policy.IsEager()
    requires Tracked(schema.views[i], trees.views[i], trees.docs, Contents(trees.docs, schema.views[i].collection))
    ensures Tracked(schema.views[i], after.views[i], after.docs, Contents(after.docs, schema.views[i].collection))
  {
    var view := schema.views[i];
    var effect := Step(schema, trees.docs, op).value;
    StepFrame(schema, trees.docs, op, effect);
    if effect.written.Some? {
      var id := effect.written.value;
      var k := DocKey(op.collection, id);
      UpdateEagerAt(schema, effect.docs, trees.views, op.collection, id, |schema.views|, i);
      forall x: DocId | DocKey(view.collection, x) != k
        ensures Lookup(effect.docs, view.collection, x) == Lookup(trees.docs, view.collection, x)
      {
        assert LookupKey(effect.docs, DocKey(view.collection, x)) == LookupKey(trees.docs, DocKey(view.collection, x));
      }
      if view.collection == op.collection {
        EagerRemap(view, trees.docs, effect.docs, id, trees.views[i], after.views[i]);
      } else {
        SameSeen(Contents(trees.docs, view.collection), Contents(effect.docs, view.collection));
      }
    }
  }

  lemma ExecuteSkipsLazy(schema: Schema, trees: Trees, op: Operation, after: Trees, i: nat)
    requires |trees.views| == |schema.views| && i < |schema.views|
    requires Execute(schema, trees, op).Ok? && Execute(schema, trees, op).value.0 == after
    requires !schema.views[i].policy.IsEager()
    ensures after.views[i] == trees.views[i]
  {
    var effect := Step(schema, trees.docs, op).value;
    if effect.written.Some? {
      UpdateEagerAt(schema, effect.docs, trees.views, op.collection, effect.written.value, |schema.views|, i);
    }
  }

  // ---------------------------------------------------------------- a transaction

  lemma {:induction false} RunTracks(schema: Schema, trees: Trees, ops: seq<Operation>, i: nat)
    requires |trees.views| == |schema.views| && i < |schema.views|
    requires Keyed(trees.docs)
    requires schema.views[i].policy.IsEager() ==>
      Tracked(schema.views[i], trees.views[i], trees.docs, Contents(trees.docs, schema.views[i].collection))
    requires Run(schema, trees, ops).Ok?
    ensures
      var after := Run(schema, trees, ops).value.0;
      && Keyed(after.docs)
      && (if schema.views[i].policy.IsEager()
          then Tracked(schema.views[i], after.views[i], after.docs, Contents(after.docs, schema.views[i].collection))
          else after.views[i] == trees.views[i])
  {
    if ops != [] {
      var init, op := ops[..|ops| - 1], ops[|ops| - 1];
      RunTracks(schema, trees, init, i);
      var before := Run(schema, trees, init).value.0;
      var after := Execute(schema, before, op).value.0;
      StepFrame(schema, before.docs, op, Step(schema, before.docs, op).value);
      if schema.views[i].policy.IsEager() {
        ExecuteTracks(schema, before, op, after, i);
      } else {
        ExecuteSkipsLazy(schema, before, op, after, i);
      }
    }
  }

  // A document that a transaction changed is among the changes of its collection.
  lemma ChangedIsLogged(schema: Schema, trees: Trees, ops: seq<Operation>, collection: CollectionName, id: DocId)
    requires |trees.views| == |schema.views| && Keyed(trees.docs)
    requires Run(schema, trees, ops).Ok?
    requires Lookup(Run(schema, trees, ops).value.0.docs, collection, id) != Lookup(trees.docs, collection, id)
    ensures !Dangling(Run(schema, trees, ops).value.2)
    ensures id in ChangedIn(Run(schema, trees, ops).value.2, collection)
  {
    var (after, results, changes) := Run(schema, trees, ops).value;
    RunIsFold(schema, trees, ops);
    RunLogs(schema, trees, ops);
    var k := DocKey(collection, id);
    LogTellsOutcome(schema, trees.docs, ops, k);
    LastLoggedExists(Entries(changes), k);
    var i :| 0 <= i < |Entries(changes)| && DocKey(Entries(changes)[i].0, Entries(changes)[i].1) == k;
    assert changes.documents[i].id == id && changes.collections[changes.documents[i].collection] == collection;
  }

  // What each view has seen after a transaction: eager views everything, lazy views what they had.
  ghost function SeenAfter(schema: Schema, docs: Docs, seen: seq<map<DocId, Document>>): (r: seq<map<DocId, Document>>)
    requires |seen| == |schema.views|
    ensures |r| == |seen|
  {
    seq(|seen|, i requires 0 <= i < |seen| =>
      if schema.views[i].policy.IsEager() then Contents(docs, schema.views[i].collection) else seen[i])
  }

  // Every committed transaction keeps every view tracked, however its operations interleave collections.
  lemma ApplyTracks(schema: Schema, trees: Trees, ops: seq<Operation>, seen: seq<map<DocId, Document>>)
    requires AllTracked(schema, trees, seen)
    requires Apply(schema, trees, ops).Ok?
    ensures
      var after := Apply(schema, trees, ops).value.trees;
      AllTracked(schema, after, SeenAfter(schema, after.docs, seen))
  {
    var (ran, _, changes) := Run(schema, trees, ops).value;
    var after := Apply(schema, trees, ops).value.trees;
    RunLogs(schema, trees, ops);
    RunKeyed(schema, trees, ops);
    forall i | 0 <= i < |seen|
      ensures Tracked(schema.views[i], after.views[i], after.docs, SeenAfter(schema, after.docs, seen)[i])
    {
      ApplyTracksView(schema, trees, ops, seen, i);
    }
  }

  lemma RunKeyed(schema: Schema, trees: Trees, ops: seq<Operation>)
    requires |trees.views| == |schema.views| && Keyed(trees.docs)
    requires Run(schema, trees, ops).Ok?
    ensures Keyed(Run(schema, trees, ops).value.0.docs)
  {
    RunIsFold(schema, trees, ops);
    FoldStaysKeyed(schema, trees.docs, ops);
  }

  lemma ApplyTracksView(schema: Schema, trees: Trees, ops: seq<Operation>, seen: seq<map<DocId, Document>>, i: nat)
    requires AllTracked(schema, trees, seen) && i < |seen|
    requires Apply(schema, trees, ops).Ok?
    ensures
      var after := Apply(schema, trees, ops).value.trees;
      Tracked(schema.views[i], after.views[i], after.docs, SeenAfter(schema, after.docs, seen)[i])
  {
    var view := schema.views[i];
    var (ran, _, changes) := Run(schema, trees, ops).value;
    var after := Apply(schema, trees, ops).value.trees;
    RunLogs(schema, trees, ops);
    assert Tracked(view, trees.views[i], trees.docs, seen[i]);
    if view.policy.IsEager() {
      NothingInvalidated(view, trees.views[i], trees.docs, seen[i]);
      RunTracks(schema, trees, ops, i);
    } else {
      RunTracks(schema, trees, ops, i);
      var vt' := after.views[i];
      assert vt' == trees.views[i].(invalidated := trees.views[i].invalidated + ChangedIn(changes, view.collection));
      InvalidationKeepsIndex(view, trees.views[i], vt', seen[i]);
      forall id: DocId | Get(seen[i], id) != Lookup(after.docs, view.collection, id)
        ensures id in vt'.invalidated
      {
        if Lookup(after.docs, view.collection, id) != Lookup(trees.docs, view.collection, id) {
          ChangedIsLogged(schema, trees, ops, view.collection, id);
        }
      }
    }
  }

  lemma InvalidationKeepsIndex(view: View, vt: ViewTrees, vt': ViewTrees, seen: map<DocId, Document>)
    requires Indexes(view, vt, seen)
    requires vt'.documentMap == vt.documentMap && vt'.entries == vt.entries
    ensures Indexes(view, vt', seen)
  {
    forall k: Bytes, id: DocId ensures Find(MappingsAt(vt', k), id) == Contribution(view, Get(seen, id), k) {
      assert MappingsAt(vt', k) == MappingsAt(vt, k);
    }
    forall id: DocId ensures KeysAt(vt', id) == KeysOf(Emitted(view, Get(seen, id))) {
      assert KeysAt(vt', id) == KeysAt(vt, id);
    }
  }

  // ---------------------------------------------------------------- a mapped chunk

  // One transaction of `map_view`: map the chunk at its current version and take it off the invalidated set.
  function MapChunk(schema: Schema, trees: Trees, v: nat, batches: seq<seq<DocId>>): (r: Result<Trees, Error>)
    requires v < |schema.views| == |trees.views|
    ensures r.Ok? ==> |r.value.views| == |trees.views| && r.value.docs == trees.docs
  {
    match SaveAll(schema.views[v], trees.docs, batches, trees.views[v])
    case Err(e) => Err(e)
    case Ok(vt) =>
      Ok(trees.(views := trees.views[v := vt.(invalidated := vt.invalidated - Members(batches))]))
  }

  lemma MapChunkTracks(schema: Schema, trees: Trees, v: nat, batches: seq<seq<DocId>>, seen: seq<map<DocId, Document>>)
    requires AllTracked(schema, trees, seen) && v < |seen|
    requires !schema.views[v].policy.IsEager()
    requires MapChunk(schema, trees, v, batches).Ok?
    ensures
      var view := schema.views[v];
      AllTracked(schema, MapChunk(schema, trees, v, batches).value,
                 seen[v := Refresh(seen[v], trees.docs, view.collection, Members(batches))])
  {
    var view := schema.views[v];
    var ids := Members(batches);
    var vt := SaveAll(view, trees.docs, batches, trees.views[v]).value;
    var after := MapChunk(schema, trees, v, batches).value;
    assert Tracked(view, trees.views[v], trees.docs, seen[v]);
    SaveAllIndexes(view, trees.docs, batches, trees.views[v], vt, seen[v]);
    var seen' := Refresh(seen[v], trees.docs, view.collection, ids);
    InvalidationKeepsIndex(view, vt, after.views[v], seen');
    forall id: DocId | Get(seen', id) != Lookup(trees.docs, view.collection, id)
      ensures id in after.views[v].invalidated
    {
      assert id !in ids && Get(seen', id) == Get(seen[v], id);
    }
    assert Tracked(view, after.views[v], after.docs, seen');
  }
}
