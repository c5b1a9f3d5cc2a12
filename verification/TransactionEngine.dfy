/**
 The transaction engine: commands executed in place on a working copy of the
 trees, which replaces the committed trees only when every step succeeded.
 */
module TransactionEngine {
  import opened ByteStrings
  import opened Documents
  import opened ViewMapper
  import opened MapperJob
  import opened Transactions

  // The trees hold what earlier transactions can have left in them.
  ghost predicate Sane(schema: Schema, trees: Trees) {
    && |trees.views| == |schema.views|
    && Keyed(trees.docs)
    && forall i :: 0 <= i < |schema.views| ==> WellFormed(schema.views[i], trees.views[i])
  }

  // `r` and the trees `after` are what the specification gives for `op` on `before`. After an error the
  // working copy is worthless and nothing is said about it.
  ghost predicate Follows(schema: Schema, before: Trees, op: Operation, after: Trees, r: Result<OperationResult, Error>)
    requires |before.views| == |schema.views|
  {
    match Execute(schema, before, op)
    case Err(e) => r == Err(e)
    case Ok((trees, result)) => r == Ok(result) && after == trees && Sane(schema, after)
  }

  class ExecutingTransaction {
    const schema: Schema
    var trees: Trees

    constructor (schema: Schema, trees: Trees)
      ensures this.schema == schema && this.trees == trees
    {
      this.schema := schema;
      this.trees := trees;
    }

    method UpdateEagerViews(collection: CollectionName, id: DocId) returns (r: Result<(), Error>)
      requires Sane(schema, trees)
      modifies this
      ensures trees.docs == old(trees.docs)
      ensures match UpdateEager(schema, old(trees.docs), old(trees.views), collection, id, |schema.views|)
              case Err(e) => r == Err(e)
              case Ok(views) => r == Ok(()) && trees.views == views && Sane(schema, trees)
    {
      ghost var docs, views := trees.docs, trees.views;
      for i := 0 to |schema.views|
        invariant trees.docs == docs && Sane(schema, trees)
        invariant UpdateEager(schema, docs, views, collection, id, i) == Ok(trees.views)
      {
        var mapped := MapIfEager(i, collection, id);
        if mapped.Err? {
          EagerFailure(schema, docs, views, collection, id, i + 1, |schema.views|);
          return Err(mapped.error);
        }
        trees := trees.(views := trees.views[i := mapped.value]);
      }
      r := Ok(());
    }

    // Maps the document again if view `i` is one of the eager views of the collection.
    method MapIfEager(i: nat, collection: CollectionName, id: DocId) returns (r: Result<ViewTrees, Error>)
      requires Sane(schema, trees) && i < |schema.views|
      ensures r == UpdateView(schema, trees.docs, i, trees.views[i], collection, id)
      ensures r.Ok? ==> WellFormed(schema.views[i], r.value)
    {
      if schema.views[i].policy.IsEager() && schema.views[i].collection == collection {
        r := MapOneDocument(schema.views[i], trees.docs, id, trees.views[i]);
      } else {
        r := Ok(trees.views[i]);
      }
    }

    // `execute_update`, for `Update` with a revision to check and for `Overwrite` without one.
    method ExecuteUpdate(collection: CollectionName, id: DocId, checkRevision: Option<Revision>, contents: Bytes)
      returns (r: Result<OperationResult, Error>)
      requires Sane(schema, trees)
      modifies this
      ensures
        var command :=
          if checkRevision.Some? then Update(Header(id, checkRevision.value), contents) else Overwrite(id, contents);
        Follows(schema, old(trees), Operation(collection, command), trees, r)
    {
      var key := DocKey(collection, id);
      var updated := false;
      if key in trees.docs {
        var doc := trees.docs[key];
        if checkRevision.None? || checkRevision == Some(doc.header.revision) {
          var next := NextRevision(schema, doc.header.revision, contents);
          if next.Err? {
            return Err(next.error);
          }
          if next.value.Some? {
            var header := Header(id, next.value.value);
            r := Ok(DocumentUpdated(collection, header));
            updated := true;
            trees := trees.(docs := trees.docs[key := Document(header, contents)]);
          } else {
            r := Ok(DocumentUpdated(collection, doc.header));
          }
        } else {
          r := Err(DocumentConflict(collection, doc.header));
        }
      } else if checkRevision.None? {
        var doc := FirstVersion(schema, id, contents);
        r := Ok(DocumentUpdated(collection, doc.header));
        updated := true;
        trees := trees.(docs := trees.docs[key := doc]);
      } else {
        r := Err(DocumentNotFound(collection, id));
      }
      if updated {
        var eager := UpdateEagerViews(collection, id);
        if eager.Err? {
          return Err(eager.error);
        }
      }
    }

    // `execute_insert` replaces first and detects the conflict from what it replaced.
    method ExecuteInsert(collection: CollectionName, newId: Option<DocId>, contents: Bytes)
      returns (r: Result<OperationResult, Error>)
      requires Sane(schema, trees)
      modifies this
      ensures Follows(schema, old(trees), Operation(collection, Insert(newId, contents)), trees, r)
    {
      var id: DocId;
      if newId.Some? {
        id := newId.value;
      } else {
        var ids := IdsIn(trees.docs, collection);
        var last: Option<DocId> := None;
        if ids != {} {
          LastKeyExists(ids);
          var l :| l in ids && IsLastKey(ids, l);
          LastKeyUnique(ids, l, LastKey(ids).value);
          last := Some(l);
        }
        var next := NextId(schema, collection, last);
        if next.Err? {
          return Err(next.error);
        }
        id := next.value;
      }
      var doc := FirstVersion(schema, id, contents);
      var key := DocKey(collection, id);
      var replaced := Lookup(trees.docs, collection, id);
      trees := trees.(docs := trees.docs[key := doc]);
      if replaced.Some? {
        return Err(DocumentConflict(collection, replaced.value.header));
      }
      var eager := UpdateEagerViews(collection, id);
      if eager.Err? {
        return Err(eager.error);
      }
      r := Ok(DocumentUpdated(collection, doc.header));
    }

    // `execute_delete` removes first and compares headers afterwards.
    method ExecuteDelete(collection: CollectionName, header: Header) returns (r: Result<OperationResult, Error>)
      requires Sane(schema, trees)
      modifies this
      ensures Follows(schema, old(trees), Operation(collection, Delete(header)), trees, r)
    {
      var removed := Lookup(trees.docs, collection, header.id);
      trees := trees.(docs := trees.docs - {DocKey(collection, header.id)});
      if removed.None? {
        return Err(DocumentNotFound(collection, header.id));
      }
      if removed.value.header != header {
        return Err(DocumentConflict(collection, header));
      }
      var eager := UpdateEagerViews(collection, header.id);
      if eager.Err? {
        return Err(eager.error);
      }
      r := Ok(DocumentDeleted(collection, header.id));
    }

    method ExecuteCheck(collection: CollectionName, id: DocId, revision: Option<Revision>)
      returns (r: Result<OperationResult, Error>)
      requires Sane(schema, trees)
      ensures Follows(schema, trees, Operation(collection, Check(id, revision)), trees, r)
    {
      var found := Lookup(trees.docs, collection, id);
      if found.None? {
        return Err(DocumentNotFound(collection, id));
      }
      if revision.Some? && found.value.header.revision != revision.value {
        return Err(DocumentConflict(collection, Header(id, revision.value)));
      }
      r := Ok(Success);
    }

    method ExecuteOperation(op: Operation) returns (r: Result<OperationResult, Error>)
      requires Sane(schema, trees)
      modifies this
      ensures Follows(schema, old(trees), op, trees, r)
    {
      match op.command {
        case Insert(newId, contents) => r := ExecuteInsert(op.collection, newId, contents);
        case Update(header, contents) =>
          r := ExecuteUpdate(op.collection, header.id, Some(header.revision), contents);
        case Overwrite(id, contents) => r := ExecuteUpdate(op.collection, id, None, contents);
        case Delete(header) => r := ExecuteDelete(op.collection, header);
        case Check(id, revision) => r := ExecuteCheck(op.collection, id, revision);
      }
    }

    // `invalidate_changed_documents`: consecutive changes of one collection form a group, and every lazy view of
    // that collection gets every id of the group.
    method InvalidateChangedDocuments(changes: DocumentChanges)
      requires |trees.views| == |schema.views|
      requires !Dangling(changes)
      modifies this
      ensures trees.docs == old(trees.docs)
      ensures trees.views == Invalidate(schema, old(trees.views), changes)
    {
      ghost var views := trees.views;
      var documents := changes.documents;
      var start := 0;
      NothingToInvalidate(schema, views, changes);
      while start < |documents|
        invariant 0 <= start <= |documents|
        invariant trees.docs == old(trees.docs) && |trees.views| == |schema.views|
        invariant trees.views == Invalidate(schema, views, Prefix(changes, start))
      {
        var collection := changes.collections[documents[start].collection];
        var end := start + 1;
        while end < |documents| && changes.collections[documents[end].collection] == collection
          invariant start < end <= |documents|
          invariant forall j :: start <= j < end ==> changes.collections[documents[j].collection] == collection
        {
          end := end + 1;
        }
        InvalidateGroup(collection, documents[start..end]);
        GroupInvalidated(schema, views, changes, start, end, collection);
        start := end;
      }
      assert Prefix(changes, start) == changes;
    }

    method InvalidateGroup(collection: CollectionName, group: seq<ChangedDocument>)
      requires |trees.views| == |schema.views|
      modifies this
      ensures trees.docs == old(trees.docs)
      ensures trees.views == AddGroup(schema, old(trees.views), collection, group)
    {
      for v := 0 to |schema.views|
        invariant trees.docs == old(trees.docs) && |trees.views| == |schema.views|
        invariant forall w :: 0 <= w < |schema.views| ==>
          trees.views[w] ==
            if w < v then AddGroup(schema, old(trees.views), collection, group)[w] else old(trees.views)[w]
      {
        if schema.views[v].collection == collection && !schema.views[v].policy.IsEager() {
          var ids := trees.views[v].invalidated;
          for j := 0 to |group|
            invariant ids == trees.views[v].invalidated + set i | 0 <= i < j :: group[i].id
          {
            ids := ids + {group[j].id};
          }
          trees := trees.(views := trees.views[v := trees.views[v].(invalidated := ids)]);
        }
      }
    }
  }

  function Prefix(changes: DocumentChanges, n: nat): (r: DocumentChanges)
    requires n <= |changes.documents|
    ensures !Dangling(changes) ==> !Dangling(r)
  {
    changes.(documents := changes.documents[..n])
  }

  function AddGroup(schema: Schema, views: seq<ViewTrees>, collection: CollectionName, group: seq<ChangedDocument>)
    : (r: seq<ViewTrees>)
    requires |views| == |schema.views|
    ensures |r| == |views|
  {
    seq(|views|, w requires 0 <= w < |views| =>
      if schema.views[w].collection == collection && !schema.views[w].policy.IsEager()
      then views[w].(invalidated := views[w].invalidated + set i | 0 <= i < |group| :: group[i].id)
      else views[w])
  }

  lemma NothingToInvalidate(schema: Schema, views: seq<ViewTrees>, changes: DocumentChanges)
    requires |views| == |schema.views| && !Dangling(changes)
    ensures Invalidate(schema, views, Prefix(changes, 0)) == views
  {
    var same := Invalidate(schema, views, Prefix(changes, 0));
    forall w | 0 <= w < |views| ensures same[w] == views[w] {
      assert ChangedIn(Prefix(changes, 0), schema.views[w].collection) == {};
    }
  }

  lemma InvalidateSane(schema: Schema, trees: Trees, changes: DocumentChanges)
    requires Sane(schema, trees) && !Dangling(changes)
    ensures Sane(schema, Trees(trees.docs, Invalidate(schema, trees.views, changes)))
  {
    var views := Invalidate(schema, trees.views, changes);
    forall i | 0 <= i < |schema.views| ensures WellFormed(schema.views[i], views[i]) {
      assert views[i].entries == trees.views[i].entries;
      assert WellFormed(schema.views[i], trees.views[i]);
    }
  }

  lemma ChangedInGroup(changes: DocumentChanges, start: nat, end: nat, collection: CollectionName, c: CollectionName)
    requires !Dangling(changes) && start <= end <= |changes.documents|
    requires forall j :: start <= j < end ==> changes.collections[changes.documents[j].collection] == collection
    ensures ChangedIn(Prefix(changes, end), c) == ChangedIn(Prefix(changes, start), c) +
      if c == collection then (set i | 0 <= i < end - start :: changes.documents[start..end][i].id) else {}
  {
    var a, b := ChangedIn(Prefix(changes, end), c), ChangedIn(Prefix(changes, start), c);
    var g := set i | 0 <= i < end - start :: changes.documents[start..end][i].id;
    forall id | id in a ensures id in b || (c == collection && id in g) {
      var i :| 0 <= i < end && changes.documents[..end][i].id == id &&
        changes.collections[changes.documents[..end][i].collection] == c;
      if i < start {
        assert changes.documents[..start][i].id == id;
      } else {
        assert changes.documents[start..end][i - start].id == id;
      }
    }
    forall id | id in b ensures id in a {
      var i :| 0 <= i < start && changes.documents[..start][i].id == id &&
        changes.collections[changes.documents[..start][i].collection] == c;
      assert changes.documents[..end][i].id == id;
    }
    if c == collection {
      forall id | id in g ensures id in a {
        var i :| 0 <= i < end - start && changes.documents[start..end][i].id == id;
        assert changes.documents[..end][start + i].id == id;
      }
    }
  }

  lemma GroupInvalidated(schema: Schema, views: seq<ViewTrees>, changes: DocumentChanges,
                         start: nat, end: nat, collection: CollectionName)
    requires |views| == |schema.views|
    requires !Dangling(changes) && start <= end <= |changes.documents|
    requires forall j :: start <= j < end ==> changes.collections[changes.documents[j].collection] == collection
    ensures AddGroup(schema, Invalidate(schema, views, Prefix(changes, start)), collection,
                     changes.documents[start..end])
         == Invalidate(schema, views, Prefix(changes, end))
  {
    var added := AddGroup(schema, Invalidate(schema, views, Prefix(changes, start)), collection,
                          changes.documents[start..end]);
    var whole := Invalidate(schema, views, Prefix(changes, end));
    forall w | 0 <= w < |views| ensures added[w] == whole[w] {
      ChangedInGroup(changes, start, end, collection, schema.views[w].collection);
    }
  }

  lemma {:induction false} EagerFailure(schema: Schema, docs: Docs, views: seq<ViewTrees>,
                                        collection: CollectionName, id: DocId, n: nat, m: nat)
    requires n <= m <= |schema.views| == |views|
    requires UpdateEager(schema, docs, views, collection, id, n).Err?
    ensures UpdateEager(schema, docs, views, collection, id, m) == UpdateEager(schema, docs, views, collection, id, n)
  {
    if n < m {
      EagerFailure(schema, docs, views, collection, id, n, m - 1);
    }
  }

  // One operation more.
  lemma RunNext(schema: Schema, trees: Trees, ops: seq<Operation>, i: nat)
    requires |trees.views| == |schema.views| && i < |ops| && Run(schema, trees, ops[..i]).Ok?
    ensures
      var (before, results, changes) := Run(schema, trees, ops[..i]).value;
      Run(schema, trees, ops[..i + 1]) ==
        match Execute(schema, before, ops[i])
        case Err(e) => Err(e)
        case Ok((after, result)) =>
          match Record(changes, result)
          case None => Err(TransactionTooLarge)
          case Some(changes') => Ok((after, results + [result], changes'))
  {
    assert ops[..i + 1][..i] == ops[..i];
  }

  lemma {:induction false} RunFailure(schema: Schema, trees: Trees, ops: seq<Operation>, n: nat)
    requires |trees.views| == |schema.views| && n <= |ops|
    requires Run(schema, trees, ops[..n]).Err?
    ensures Run(schema, trees, ops) == Run(schema, trees, ops[..n])
    decreases |ops|
  {
    if n == |ops| {
      assert ops[..n] == ops;
    } else {
      assert ops[..|ops| - 1][..n] == ops[..n];
      RunFailure(schema, trees, ops[..|ops| - 1], n);
    }
  }

  lemma {:induction false} IndexOfAppended(names: seq<CollectionName>, name: CollectionName, c: CollectionName)
    requires c in names || c == name
    ensures c in names ==> IndexOf(names + [name], c) == IndexOf(names, c)
    ensures c !in names ==> IndexOf(names + [name], c) == |names|
  {
    if names != [] && names[0] != c {
      assert (names + [name])[1..] == names[1..] + [name];
      assert c in names ==> c in names[1..];
      IndexOfAppended(names[1..], name, c);
    }
  }

  // The index cache agrees with the interned names.
  ghost predicate CacheAgrees(indexes: map<CollectionName, nat>, names: seq<CollectionName>) {
    && (forall c :: c in indexes <==> c in names)
    && (forall c :: c in indexes ==> indexes[c] == IndexOf(names, c))
  }

  // The committed trees, and the log with one entry per committed transaction.
  class Database {
    const schema: Schema
    var trees: Trees
    var log: seq<DocumentChanges>

    constructor (schema: Schema)
      ensures this.schema == schema && log == []
      ensures trees == Trees(map[], seq(|schema.views|, _ => EMPTY_VIEW)) && Sane(schema, trees)
    {
      this.schema := schema;
      trees := Trees(map[], seq(|schema.views|, _ => EMPTY_VIEW));
      log := [];
    }

    // Interns the collection of a result and appends its change.
    method LogResult(result: OperationResult, names: seq<CollectionName>, indexes: map<CollectionName, nat>,
                     documents: seq<ChangedDocument>)
      returns (r: Option<(seq<CollectionName>, map<CollectionName, nat>, seq<ChangedDocument>)>)
      requires CacheAgrees(indexes, names)
      ensures match Record(DocumentChanges(names, documents), result)
              case None => r.None?
              case Some(changes) =>
                r.Some? && changes == DocumentChanges(r.value.0, r.value.2) && CacheAgrees(r.value.1, r.value.0)
    {
      var entry := Logged(result);
      if entry.None? {
        return Some((names, indexes, documents));
      }
      var (collection, id, deleted) := entry.value;
      if collection in indexes {
        return Some((names, indexes, documents + [ChangedDocument(indexes[collection], id, deleted)]));
      }
      if |names| > 0xFFFF {
        return None;
      }
      forall c | c in names || c == collection
        ensures IndexOf(names + [collection], c) == if c in names then IndexOf(names, c) else |names|
      {
        IndexOfAppended(names, collection, c);
      }
      r := Some((names + [collection], indexes[collection := |names|],
                 documents + [ChangedDocument(|names|, id, deleted)]));
    }

    // Executes the operations on the working copy, gathering results and changes.
    method ExecuteAll(tx: ExecutingTransaction, ops: seq<Operation>)
      returns (r: Result<(seq<OperationResult>, DocumentChanges), Error>)
      requires tx.schema == schema && Sane(schema, tx.trees)
      modifies tx
      ensures match Run(schema, old(tx.trees), ops)
              case Err(e) => r == Err(e)
              case Ok((after, results, changes)) =>
                r == Ok((results, changes)) && tx.trees == after && Sane(schema, after)
    {
      ghost var before := tx.trees;
      var results: seq<OperationResult> := [];
      var names: seq<CollectionName> := [];
      var indexes: map<CollectionName, nat> := map[];
      var documents: seq<ChangedDocument> := [];
      for i := 0 to |ops|
        invariant Sane(schema, tx.trees) && CacheAgrees(indexes, names)
        invariant Run(schema, before, ops[..i]) == Ok((tx.trees, results, DocumentChanges(names, documents)))
      {
        RunNext(schema, before, ops, i);
        var executed := tx.ExecuteOperation(ops[i]);
        if executed.Err? {
          RunFailure(schema, before, ops, i + 1);
          return Err(executed.error);
        }
        var logged := LogResult(executed.value, names, indexes, documents);
        if logged.None? {
          RunFailure(schema, before, ops, i + 1);
          return Err(TransactionTooLarge);
        }
        names, indexes, documents := logged.value.0, logged.value.1, logged.value.2;
        results := results + [executed.value];
      }
      assert ops[..|ops|] == ops;
      r := Ok((results, DocumentChanges(names, documents)));
    }

    // `apply_transaction_to_roots`: all or nothing.
    method ApplyTransaction(ops: seq<Operation>) returns (r: Result<seq<OperationResult>, Error>)
      requires Sane(schema, trees)
      modifies this
      ensures Sane(schema, trees)
      ensures match Apply(schema, old(trees), ops)
              case Err(e) => r == Err(e) && trees == old(trees) && log == old(log)
              case Ok(applied) =>
                r == Ok(applied.results) && trees == applied.trees && log == old(log) + [applied.changes]
    {
      for i := 0 to |ops|
        invariant forall j :: 0 <= j < i ==> ops[j].collection in schema.collections
      {
        if ops[i].collection !in schema.collections {
          return Err(CollectionNotFound);
        }
      }
      var tx := new ExecutingTransaction(schema, trees);
      var executed := ExecuteAll(tx, ops);
      if executed.Err? {
        return Err(executed.error);
      }
      var (results, changes) := executed.value;
      RunLogs(schema, trees, ops);
      InvalidateSane(schema, tx.trees, changes);
      tx.InvalidateChangedDocuments(changes);
      log := log + [changes];
      trees := tx.trees;
      r := Ok(results);
    }
  }

  // `DocumentChanges::iter`
  class DocumentChangesIter {
    const changes: DocumentChanges
    var index: nat

    constructor (changes: DocumentChanges)
      ensures this.changes == changes && index == 0
    {
      this.changes := changes;
      index := 0;
    }

    method Next() returns (r: Option<(CollectionName, ChangedDocument)>)
      modifies this
      ensures r == GetChange(changes, old(index))
      ensures index == if r.Some? then old(index) + 1 else old(index)
    {
      r := GetChange(changes, index);
      if r.Some? {
        index := index + 1;
      }
    }
  }

  // Draining the iterator yields the entries up to the first one whose collection index is out of range.
  method CollectChanges(changes: DocumentChanges) returns (r: seq<(CollectionName, ChangedDocument)>)
    ensures |r| <= |changes.documents|
    ensures forall i :: 0 <= i < |r| ==> GetChange(changes, i) == Some(r[i])
    ensures |r| < |changes.documents| ==> changes.documents[|r|].collection >= |changes.collections|
  {
    var iter := new DocumentChangesIter(changes);
    r := [];
    var item := iter.Next();
    while item.Some?
      invariant fresh(iter) && iter.changes == changes
      invariant item == GetChange(changes, |r|)
      invariant item.Some? ==> iter.index == |r| + 1
      invariant |r| <= |changes.documents|
      invariant forall i :: 0 <= i < |r| ==> GetChange(changes, i) == Some(r[i])
      decreases |changes.documents| - |r|
    {
      r := r + [item.value];
      item := iter.Next();
    }
  }

  // Iterating the log of a committed transaction yields exactly its results other than `Success`.
  lemma CommittedLogIterates(schema: Schema, trees: Trees, ops: seq<Operation>, applied: Applied,
                             items: seq<(CollectionName, ChangedDocument)>)
    requires |trees.views| == |schema.views|
    requires Apply(schema, trees, ops) == Ok(applied)
    requires |items| <= |applied.changes.documents|
    requires forall i :: 0 <= i < |items| ==> GetChange(applied.changes, i) == Some(items[i])
    requires |items| < |applied.changes.documents| ==>
      applied.changes.documents[|items|].collection >= |applied.changes.collections|
    ensures LoggedAll(applied.results) ==
      seq(|items|, i requires 0 <= i < |items| => (items[i].0, items[i].1.id, items[i].1.deleted))
  {
    RunLogs(schema, trees, ops);
    assert !Dangling(applied.changes);
    var spelled := seq(|items|, i requires 0 <= i < |items| => (items[i].0, items[i].1.id, items[i].1.deleted));
    assert Entries(applied.changes) == spelled;
  }
}
