/**
 What every command does, in terms of the documents it is given: the document it
 stores or removes, the result it reports and exactly when and how it fails.
 */
module CommandMeanings {
  import opened ByteStrings
  import opened Documents
  import opened ViewMapper
  import opened Transactions
  import opened TransactionProperties
  import opened ViewMaintenance
  import opened ViewMeanings

  // ---------------------------------------------------------------- the five commands

  // The effect of storing `doc`, and nothing else.
  ghost predicate Stores(docs: Docs, collection: CollectionName, doc: Document, effect: Effect) {
    && effect.docs == docs[DocKey(collection, doc.header.id) := doc]
    && effect.result == DocumentUpdated(collection, doc.header)
    && effect.written == Some(doc.header.id)
  }

  // An insert stores a first revision of the contents, and fails iff the id is in use.
  lemma InsertMeans(schema: Schema, docs: Docs, c: CollectionName, id: DocId, contents: Bytes)
    ensures match Step(schema, docs, Operation(c, Insert(Some(id), contents)))
            case Ok(effect) =>
              && DocKey(c, id) !in docs
              && Stores(docs, c, Document(Header(id, Revision(0, schema.digest(contents))), contents), effect)
            case Err(e) => DocKey(c, id) in docs && e == DocumentConflict(c, docs[DocKey(c, id)].header)
  {
  }

  // An insert without an id is one under the generated id.
  lemma AutomaticInsertMeans(schema: Schema, docs: Docs, c: CollectionName, contents: Bytes)
    ensures
      var id := FreshId(schema, docs, c);
      Step(schema, docs, Operation(c, Insert(None, contents))) ==
        if id.Ok? then Step(schema, docs, Operation(c, Insert(Some(id.value), contents))) else Err(id.error)
  {
  }

  // Replacing the contents of a stored document: the next revision with the new contents, nothing for equal
  // digests, and no revision after the last one.
  ghost predicate Replaces(schema: Schema, docs: Docs, c: CollectionName, id: DocId, contents: Bytes,
                           r: Result<Effect, Error>)
    requires DocKey(c, id) in docs
  {
    var current := docs[DocKey(c, id)].header;
    if schema.digest(contents) == current.revision.sha256 then
      r.Ok? && r.value.docs == docs && r.value.result == DocumentUpdated(c, current) && r.value.written == None
    else if current.revision.id >= 0xFFFF_FFFF then r == Err(RevisionOverflow)
    else
      r.Ok? &&
      Stores(docs, c, Document(Header(id, Revision(current.revision.id + 1, schema.digest(contents))), contents),
             r.value)
  }

  // An update replaces the document iff it carries the current revision.
  lemma UpdateMeans(schema: Schema, docs: Docs, c: CollectionName, header: Header, contents: Bytes)
    ensures
      var r := Step(schema, docs, Operation(c, Update(header, contents)));
      var k := DocKey(c, header.id);
      if k !in docs then r == Err(DocumentNotFound(c, header.id))
      else if docs[k].header.revision != header.revision then r == Err(DocumentConflict(c, docs[k].header))
      else Replaces(schema, docs, c, header.id, contents, r)
  {
  }

  // An overwrite replaces the document whatever its revision, or stores a first revision.
  lemma OverwriteMeans(schema: Schema, docs: Docs, c: CollectionName, id: DocId, contents: Bytes)
    ensures
      var r := Step(schema, docs, Operation(c, Overwrite(id, contents)));
      if DocKey(c, id) in docs then Replaces(schema, docs, c, id, contents, r)
      else r.Ok? && Stores(docs, c, Document(Header(id, Revision(0, schema.digest(contents))), contents), r.value)
  {
  }

  // A delete removes the document iff it carries exactly the current header.
  lemma DeleteMeans(schema: Schema, docs: Docs, c: CollectionName, header: Header)
    ensures
      var r := Step(schema, docs, Operation(c, Delete(header)));
      var k := DocKey(c, header.id);
      && (r.Ok? <==> k in docs && docs[k].header == header)
      && (r.Ok? ==> r.value.docs == docs - {k} && r.value.result == DocumentDeleted(c, header.id) &&
                    r.value.written == Some(header.id))
      && (r.Err? ==> r.error == if k in docs then DocumentConflict(c, header) else DocumentNotFound(c, header.id))
  {
  }

  // A check succeeds iff the document is there, with the revision asked for if there is one, and changes nothing.
  lemma CheckMeans(schema: Schema, docs: Docs, c: CollectionName, id: DocId, revision: Option<Revision>)
    ensures
      var r := Step(schema, docs, Operation(c, Check(id, revision)));
      var k := DocKey(c, id);
      && (r.Ok? <==> k in docs && (revision.None? || docs[k].header.revision == revision.value))
      && (r.Ok? ==> r.value.docs == docs && r.value.result == Success && r.value.written == None)
      && (r.Err? ==> r.error == if k in docs then DocumentConflict(c, Header(id, revision.value))
                                else DocumentNotFound(c, id))
  {
  }

  // After a changing update a delete carrying the old header conflicts, unless the document was deleted in between.
  lemma StaleDeleteConflicts(schema: Schema, docs: Docs, collection: CollectionName, header: Header,
                             contents: Bytes, effect: Effect, ops: seq<Operation>)
    requires Keyed(docs)
    requires Step(schema, docs, Operation(collection, Update(header, contents))) == Ok(effect) && effect.written.Some?
    requires Fold(schema, effect.docs, ops).Ok?
    requires forall i :: 0 <= i < |ops| ==> !Deletes(ops[i], DocKey(collection, header.id))
    ensures Step(schema, Fold(schema, effect.docs, ops).value.0, Operation(collection, Delete(header))) ==
            Err(DocumentConflict(collection, header))
  {
    var k := DocKey(collection, header.id);
    StepFrame(schema, docs, Operation(collection, Update(header, contents)), effect);
    RevisionCounts(schema, effect.docs, ops, k);
    DeleteMeans(schema, Fold(schema, effect.docs, ops).value.0, collection, header);
  }

  // ---------------------------------------------------------------- transactions and runs

  // A transaction of one command is that command.
  lemma FoldOne(schema: Schema, docs: Docs, op: Operation)
    ensures Fold(schema, docs, []) == Ok((docs, []))
    ensures Fold(schema, docs, [op]) ==
      match Step(schema, docs, op)
      case Err(e) => Err(e)
      case Ok(effect) => Ok((effect.docs, [effect.result]))
  {
    assert [op][..0] == [];
    assert Fold(schema, docs, [op][..0]) == Ok((docs, []));
    var step := Step(schema, docs, op);
    if step.Ok? {
      assert [] + [step.value.result] == [step.value.result];
    }
  }

  // A transaction on an unknown collection changes nothing; any other one commits iff it can be carried out.
  lemma UnknownCollection(schema: Schema, trees: Trees, ops: seq<Operation>, i: nat)
    requires |trees.views| == |schema.views| && i < |ops| && ops[i].collection !in schema.collections
    ensures Apply(schema, trees, ops) == Err(CollectionNotFound)
  {
  }

  // Runs of transactions are put together from single ones.
  lemma RunOfOne(schema: Schema, trees: Trees, ops: seq<Operation>)
    requires |trees.views| == |schema.views|
    ensures ApplyAll(schema, trees, []) == trees && Committed(schema, trees, []) == []
    ensures Apply(schema, trees, ops).Ok? ==>
      ApplyAll(schema, trees, [ops]) == Apply(schema, trees, ops).value.trees && Committed(schema, trees, [ops]) == ops
    ensures Apply(schema, trees, ops).Err? ==>
      ApplyAll(schema, trees, [ops]) == trees && Committed(schema, trees, [ops]) == []
  {
    assert [ops][..0] == [];
    assert [] + ops == ops;
  }

  // One more transaction takes the trees the run left, and commits or leaves them.
  lemma RunSnoc(schema: Schema, trees: Trees, txs: seq<seq<Operation>>, ops: seq<Operation>)
    requires |trees.views| == |schema.views|
    ensures
      var before := ApplyAll(schema, trees, txs);
      && ApplyAll(schema, trees, txs + [ops]) == ApplyAll(schema, before, [ops])
      && Committed(schema, trees, txs + [ops]) == Committed(schema, trees, txs) + Committed(schema, before, [ops])
  {
    assert (txs + [ops])[..|txs|] == txs;
    RunOfOne(schema, ApplyAll(schema, trees, txs), ops);
  }

  // ---------------------------------------------------------------- the change log

  // How many results other than `Success` there are among the first `n`.
  function Reported(results: seq<OperationResult>, n: nat): nat
    requires n <= |results|
  {
    if n == 0 then 0 else Reported(results, n - 1) + if results[n - 1].Success? then 0 else 1
  }

  // A log entry names the document a result is about and tells whether it was deleted.
  predicate Names(entry: (CollectionName, DocId, bool), result: OperationResult) {
    match result
    case Success => false
    case DocumentUpdated(collection, header) => entry == (collection, header.id, false)
    case DocumentDeleted(collection, id) => entry == (collection, id, true)
  }

  // Result `i`, unless it is `Success`, is logged behind all that are reported before it.
  ghost predicate LogsResult(entries: seq<(CollectionName, DocId, bool)>, results: seq<OperationResult>, i: nat)
    requires i < |results|
  {
    !results[i].Success? ==>
      Reported(results, i) < |entries| && Names(entries[Reported(results, i)], results[i])
  }

  // Entry by entry, the log holds the results other than `Success`, in order.
  ghost predicate LogsResults(entries: seq<(CollectionName, DocId, bool)>, results: seq<OperationResult>) {
    |entries| == Reported(results, |results|) && forall i :: 0 <= i < |results| ==> LogsResult(entries, results, i)
  }

  lemma {:induction false} ReportedPrefix(results: seq<OperationResult>, n: nat, i: nat)
    requires i <= n <= |results|
    ensures Reported(results[..n], i) == Reported(results, i)
  {
    if i > 0 {
      ReportedPrefix(results, n, i - 1);
    }
  }

  lemma {:induction false} LoggedAllMeans(results: seq<OperationResult>)
    ensures LogsResults(LoggedAll(results), results)
  {
    if results != [] {
      var n := |results| - 1;
      LoggedAllMeans(results[..n]);
      LogsOneMore(LoggedAll(results[..n]), results, LoggedAll(results));
    }
  }

  lemma LogsOneMore(init: seq<(CollectionName, DocId, bool)>, results: seq<OperationResult>,
                    entries: seq<(CollectionName, DocId, bool)>)
    requires results != [] && LogsResults(init, results[..|results| - 1])
    requires
      if results[|results| - 1].Success? then entries == init
      else |entries| == |init| + 1 && entries[..|init|] == init && Names(entries[|init|], results[|results| - 1])
    ensures LogsResults(entries, results)
  {
    var n := |results| - 1;
    ReportedPrefix(results, n, n);
    assert |init| == Reported(results, n);
    forall i | 0 <= i < |results| ensures LogsResult(entries, results, i) {
      if i < n && !results[i].Success? {
        LogsEarlier(init, results, n, i);
        assert entries[..|init|][Reported(results, i)] == entries[Reported(results, i)];
      }
    }
  }

  lemma LogsEarlier(init: seq<(CollectionName, DocId, bool)>, results: seq<OperationResult>, n: nat, i: nat)
    requires i < n <= |results| && LogsResults(init, results[..n]) && !results[i].Success?
    ensures Reported(results, i) < |init| && Names(init[Reported(results, i)], results[i])
  {
    ReportedPrefix(results, n, i);
    assert LogsResult(init, results[..n], i);
  }

  // The change log of a committed transaction, spelled out, is its results other than `Success`, one by one.
  lemma AppliedLogMeans(schema: Schema, trees: Trees, ops: seq<Operation>, applied: Applied)
    requires |trees.views| == |schema.views| && Apply(schema, trees, ops) == Ok(applied)
    ensures !Dangling(applied.changes) && LogsResults(Entries(applied.changes), applied.results)
  {
    RunLogs(schema, trees, ops);
    LoggedAllMeans(applied.results);
  }

  // A result concerns document `id` of the collection.
  predicate Concerns(result: OperationResult, collection: CollectionName, id: DocId) {
    match result
    case Success => false
    case DocumentUpdated(c, header) => c == collection && header.id == id
    case DocumentDeleted(c, x) => c == collection && x == id
  }

  // A committed transaction leaves the index of a lazy view alone and adds to its invalidated set exactly the
  // documents of its collection that the results concern.
  lemma LazyViewsWait(schema: Schema, trees: Trees, ops: seq<Operation>, applied: Applied, v: nat)
    requires |trees.views| == |schema.views| && Keyed(trees.docs) && v < |schema.views|
    requires schema.views[v].policy == Lazy && Apply(schema, trees, ops) == Ok(applied)
    ensures
      var before, after := trees.views[v], applied.trees.views[v];
      && after.entries == before.entries && after.documentMap == before.documentMap
      && forall id: DocId :: id in after.invalidated <==>
           id in before.invalidated ||
           exists i :: 0 <= i < |applied.results| && Concerns(applied.results[i], schema.views[v].collection, id)
  {
    var collection := schema.views[v].collection;
    RunLogs(schema, trees, ops);
    RunTracks(schema, trees, ops, v);
    forall id: DocId
      ensures id in ChangedIn(applied.changes, collection) <==>
              exists i :: 0 <= i < |applied.results| && Concerns(applied.results[i], collection, id)
    {
      LoggedMembers(applied.results, collection, id);
      EntriesMembers(applied.changes, collection, id);
    }
  }

  ghost predicate Mentioned(entries: seq<(CollectionName, DocId, bool)>, collection: CollectionName, id: DocId) {
    exists i :: 0 <= i < |entries| && entries[i].0 == collection && entries[i].1 == id
  }

  lemma EntriesMembers(changes: DocumentChanges, collection: CollectionName, id: DocId)
    requires !Dangling(changes)
    ensures id in ChangedIn(changes, collection) <==> Mentioned(Entries(changes), collection, id)
  {
    if Mentioned(Entries(changes), collection, id) {
      var i :| 0 <= i < |Entries(changes)| && Entries(changes)[i].0 == collection && Entries(changes)[i].1 == id;
      assert changes.collections[changes.documents[i].collection] == collection && changes.documents[i].id == id;
    }
    if id in ChangedIn(changes, collection) {
      var i :| 0 <= i < |changes.documents| && changes.collections[changes.documents[i].collection] == collection &&
        changes.documents[i].id == id;
      assert Entries(changes)[i].0 == collection && Entries(changes)[i].1 == id;
    }
  }

  lemma {:induction false} LoggedMembers(results: seq<OperationResult>, collection: CollectionName, id: DocId)
    ensures Mentioned(LoggedAll(results), collection, id) <==>
            exists i :: 0 <= i < |results| && Concerns(results[i], collection, id)
  {
    if results != [] {
      var n := |results| - 1;
      LoggedMembers(results[..n], collection, id);
      var entries, init := LoggedAll(results), LoggedAll(results[..n]);
      if i :| 0 <= i < n && Concerns(results[..n][i], collection, id) {
        assert Concerns(results[i], collection, id);
      }
      if i :| 0 <= i < |results| && Concerns(results[i], collection, id) {
        assert i < n ==> Concerns(results[..n][i], collection, id);
        if i == n {
          assert entries[|init|].0 == collection && entries[|init|].1 == id;
        }
      }
      if i :| 0 <= i < |init| && init[i].0 == collection && init[i].1 == id {
        assert entries[i] == init[i];
      }
      if i :| 0 <= i < |entries| && entries[i].0 == collection && entries[i].1 == id {
        assert i < |init| ==> init[i] == entries[i];
        assert i == |init| ==> Concerns(results[n], collection, id);
      }
    }
  }

  // ---------------------------------------------------------------- when a command is carried out

  // A view that is not lazy takes the changed document: it can be mapped, and in a unique view no two documents of
  // the collection emit one key.
  ghost predicate Accepts(view: View, docs: Docs, id: DocId) {
    && (DocKey(view.collection, id) in docs ==> view.mapping(docs[DocKey(view.collection, id)]).Some?)
    && (view.policy == Unique ==> NoneShared(view, Contents(docs, view.collection)))
  }

  // Views that are not lazy equal the documents.
  ghost predicate EagerCurrent(schema: Schema, trees: Trees)
    requires |trees.views| == |schema.views|
  {
    forall i :: 0 <= i < |schema.views| && schema.views[i].policy != Lazy ==>
      Tracked(schema.views[i], trees.views[i], trees.docs, Contents(trees.docs, schema.views[i].collection))
  }

  // Nothing but the command itself and the views that are not lazy can make it fail: it is carried out iff its
  // own conditions hold and every such view of the collection takes the changed document.
  lemma ExecuteExactly(schema: Schema, trees: Trees, op: Operation)
    requires |trees.views| == |schema.views| && Keyed(trees.docs) && EagerCurrent(schema, trees)
    ensures
      var step := Step(schema, trees.docs, op);
      Execute(schema, trees, op).Ok? <==>
        && step.Ok?
        && (step.value.written.Some? ==>
              forall i :: 0 <= i < |schema.views| && schema.views[i].policy != Lazy &&
                          schema.views[i].collection == op.collection ==>
                Accepts(schema.views[i], step.value.docs, step.value.written.value))
  {
    var step := Step(schema, trees.docs, op);
    if step.Ok? && step.value.written.Some? {
      var docs, id := step.value.docs, step.value.written.value;
      StepFrame(schema, trees.docs, op, step.value);
      UpdateEagerExactly(schema, docs, trees.views, op.collection, id, |schema.views|);
      forall i | 0 <= i < |schema.views|
        ensures Updates(schema, docs, trees.views, op.collection, id, i) <==>
                (schema.views[i].policy != Lazy && schema.views[i].collection == op.collection ==>
                   Accepts(schema.views[i], docs, id))
      {
        if schema.views[i].policy != Lazy && schema.views[i].collection == op.collection {
          forall x: DocId | x != id
            ensures Lookup(docs, op.collection, x) == Lookup(trees.docs, op.collection, x)
          {
            assert LookupKey(docs, DocKey(op.collection, x)) == LookupKey(trees.docs, DocKey(op.collection, x));
          }
          UpdateViewExactly(schema.views[i], trees.docs, docs, id, trees.views[i]);
        }
      }
    }
  }

  lemma UpdateViewExactly(view: View, docs: Docs, docs': Docs, id: DocId, vt: ViewTrees)
    requires Keyed(docs') && Tracked(view, vt, docs, Contents(docs, view.collection))
    requires forall x: DocId :: x != id ==> Lookup(docs', view.collection, x) == Lookup(docs, view.collection, x)
    ensures SaveAll(view, docs', [[id]], vt).Ok? <==> Accepts(view, docs', id)
  {
    var seen := Contents(docs, view.collection);
    SingleBatch(view, docs', id, vt);
    SameSeen(Refresh(seen, docs', view.collection, set x | x in [id]), Contents(docs', view.collection));
    UnambiguousMeans(view, seen);
    SaveExactly(view, docs', [id], vt, seen);
    assert id in [id];
  }

  ghost predicate Updates(schema: Schema, docs: Docs, views: seq<ViewTrees>, collection: CollectionName, id: DocId,
                          i: nat)
    requires i < |schema.views| == |views|
  {
    UpdateView(schema, docs, i, views[i], collection, id).Ok?
  }

  lemma {:induction false} UpdateEagerExactly(schema: Schema, docs: Docs, views: seq<ViewTrees>,
                                              collection: CollectionName, id: DocId, n: nat)
    requires n <= |schema.views| == |views|
    ensures UpdateEager(schema, docs, views, collection, id, n).Ok? <==>
            forall i :: 0 <= i < n ==> Updates(schema, docs, views, collection, id, i)
  {
    if n > 0 {
      UpdateEagerExactly(schema, docs, views, collection, id, n - 1);
      UpdateEagerNext(schema, docs, views, collection, id, n - 1);
    }
  }

  lemma UpdateEagerNext(schema: Schema, docs: Docs, views: seq<ViewTrees>, collection: CollectionName, id: DocId,
                        n: nat)
    requires n < |schema.views| == |views|
    ensures UpdateEager(schema, docs, views, collection, id, n + 1).Ok? <==>
            UpdateEager(schema, docs, views, collection, id, n).Ok? && Updates(schema, docs, views, collection, id, n)
  {
    if UpdateEager(schema, docs, views, collection, id, n).Ok? {
      UpdateEagerAt(schema, docs, views, collection, id, n, n);
    }
  }

  // A chunk of a lazy view is mapped iff every document in it can be mapped; its documents leave the invalidated set
  // and no others do.
  lemma MapChunkExactly(schema: Schema, trees: Trees, v: nat, batches: seq<seq<DocId>>)
    requires v < |schema.views| == |trees.views| && schema.views[v].policy == Lazy
    ensures
      var view, r := schema.views[v], MapChunk(schema, trees, v, batches);
      && (r.Ok? <==> forall id :: id in Members(batches) && DocKey(view.collection, id) in trees.docs ==>
                       view.mapping(trees.docs[DocKey(view.collection, id)]).Some?)
      && (r.Ok? ==> r.value.docs == trees.docs)
      && (r.Ok? ==> r.value.views[v].invalidated == trees.views[v].invalidated - Members(batches))
      && (r.Ok? ==> forall w :: 0 <= w < |trees.views| && w != v ==> r.value.views[w] == trees.views[w])
  {
    LazySaveExactly(schema.views[v], trees.docs, batches, trees.views[v]);
  }

  lemma {:induction false} LazySaveExactly(view: View, docs: Docs, batches: seq<seq<DocId>>, vt: ViewTrees)
    requires view.policy == Lazy
    ensures
      var r := SaveAll(view, docs, batches, vt);
      && (r.Ok? <==> forall id :: id in Members(batches) && DocKey(view.collection, id) in docs ==>
                       view.mapping(docs[DocKey(view.collection, id)]).Some?)
      && (r.Ok? ==> r.value.invalidated == vt.invalidated)
  {
    if batches != [] {
      var init, last := batches[..|batches| - 1], batches[|batches| - 1];
      LazySaveExactly(view, docs, init, vt);
      AllMappable(view, docs, last);
      assert forall id :: id in Members(batches) <==> id in Members(init) || id in last;
    }
  }

  // ---------------------------------------------------------------- too many collections

  ghost function CollectionsOf(ops: seq<Operation>): set<CollectionName> {
    set i | 0 <= i < |ops| :: ops[i].collection
  }

  lemma {:induction false} DistinctCount(names: seq<CollectionName>, all: set<CollectionName>)
    requires forall i, j :: 0 <= i < j < |names| ==> names[i] != names[j]
    requires forall i :: 0 <= i < |names| ==> names[i] in all
    ensures |names| <= |all|
    decreases |names|
  {
    if names != [] {
      var n := |names| - 1;
      DistinctCount(names[..n], all - {names[n]});
      assert |all - {names[n]}| == |all| - 1;
    }
  }

  // Interned names are names of collections the operations work on.
  lemma {:induction false} NamesUsed(schema: Schema, trees: Trees, ops: seq<Operation>)
    requires |trees.views| == |schema.views| && Keyed(trees.docs) && Run(schema, trees, ops).Ok?
    ensures forall c :: c in Run(schema, trees, ops).value.2.collections ==> c in CollectionsOf(ops)
  {
    if ops != [] {
      var init, op := ops[..|ops| - 1], ops[|ops| - 1];
      NamesUsed(schema, trees, init);
      UsedByMore(ops);
      RunKeyed(schema, trees, init);
      var before := Run(schema, trees, init).value.0;
      StepFrame(schema, before.docs, op, Step(schema, before.docs, op).value);
    }
  }

  lemma UsedByMore(ops: seq<Operation>)
    requires ops != []
    ensures CollectionsOf(ops[..|ops| - 1]) + {ops[|ops| - 1].collection} <= CollectionsOf(ops)
  {
    var init := ops[..|ops| - 1];
    forall c | c in CollectionsOf(init) ensures c in CollectionsOf(ops) {
      var i :| 0 <= i < |init| && init[i].collection == c;
      assert ops[i].collection == c;
    }
  }

  // A transaction is too large only if it works on more than 65536 collections.
  lemma {:induction false} TooLargeMeans(schema: Schema, trees: Trees, ops: seq<Operation>)
    requires |trees.views| == |schema.views| && Keyed(trees.docs)
    requires Run(schema, trees, ops) == Err(TransactionTooLarge)
    ensures |CollectionsOf(ops)| > 0x1_0000
  {
    if ops != [] {
      var init, op := ops[..|ops| - 1], ops[|ops| - 1];
      UsedByMore(ops);
      if Run(schema, trees, init).Err? {
        TooLargeMeans(schema, trees, init);
        Subset(CollectionsOf(init), CollectionsOf(ops));
      } else {
        NamesUsed(schema, trees, init);
        RunLogs(schema, trees, init);
        RunKeyed(schema, trees, init);
        var (before, _, changes) := Run(schema, trees, init).value;
        ExecuteFailsSmall(schema, before, op);
        StepFrame(schema, before.docs, op, Step(schema, before.docs, op).value);
        var names := changes.collections + [op.collection];
        assert forall i :: 0 <= i < |changes.collections| ==> changes.collections[i] in changes.collections;
        DistinctCount(names, CollectionsOf(ops));
      }
    } else {
      assert false;
    }
  }

  lemma Subset(a: set<CollectionName>, b: set<CollectionName>)
    requires a <= b
    ensures |a| <= |b|
  {
    assert |b| == |a| + |b - a| by {
      assert b == a + (b - a);
    }
  }

  lemma ExecuteFailsSmall(schema: Schema, trees: Trees, op: Operation)
    requires |trees.views| == |schema.views|
    ensures Execute(schema, trees, op) != Err(TransactionTooLarge)
  {
    var step := Step(schema, trees.docs, op);
    if step.Ok? && step.value.written.Some? {
      EagerFailsSmall(schema, step.value.docs, trees.views, op.collection, step.value.written.value, |schema.views|);
    }
  }

  lemma {:induction false} EagerFailsSmall(schema: Schema, docs: Docs, views: seq<ViewTrees>,
                                           collection: CollectionName, id: DocId, n: nat)
    requires n <= |schema.views| == |views|
    ensures UpdateEager(schema, docs, views, collection, id, n) != Err(TransactionTooLarge)
  {
    if n > 0 {
      EagerFailsSmall(schema, docs, views, collection, id, n - 1);
      var before := UpdateEager(schema, docs, views, collection, id, n - 1);
      if before.Ok? {
        SingleBatch(schema.views[n - 1], docs, id, before.value[n - 1]);
      }
    }
  }
}
