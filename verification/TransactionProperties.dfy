/** What holds of every transaction and every run of transactions. */
module TransactionProperties {
  import opened ByteStrings
  import opened Documents
  import opened ViewMapper
  import opened Transactions

  // ---------------------------------------------------------------- refinement and framing

  // View maintenance and logging never change what the commands do to the documents.
  lemma {:induction false} RunIsFold(schema: Schema, trees: Trees, ops: seq<Operation>)
    requires |trees.views| == |schema.views|
    ensures Run(schema, trees, ops).Ok? ==>
      var (after, results, _) := Run(schema, trees, ops).value;
      Fold(schema, trees.docs, ops) == Ok((after.docs, results))
    ensures Fold(schema, trees.docs, ops).Err? ==> Run(schema, trees, ops).Err?
    ensures Run(schema, trees, ops).Err? ==>
      || MaintenanceError(Run(schema, trees, ops).error)
      || Fold(schema, trees.docs, ops) == Err(Run(schema, trees, ops).error)
  {
    if ops != [] {
      var init, op := ops[..|ops| - 1], ops[|ops| - 1];
      RunIsFold(schema, trees, init);
      if Run(schema, trees, init).Ok? {
        ExecuteFails(schema, Run(schema, trees, init).value.0, op);
      }
    }
  }

  // What only view maintenance and logging can fail with.
  predicate MaintenanceError(e: Error) {
    e.ViewMapFailed? || e.UniqueKeyViolation? || e.TransactionTooLarge?
  }

  lemma ExecuteFails(schema: Schema, trees: Trees, op: Operation)
    requires |trees.views| == |schema.views|
    ensures Execute(schema, trees, op).Err? ==>
      || MaintenanceError(Execute(schema, trees, op).error)
      || Step(schema, trees.docs, op) == Err(Execute(schema, trees, op).error)
  {
    var step := Step(schema, trees.docs, op);
    if step.Ok? && step.value.written.Some? {
      EagerFails(schema, step.value.docs, trees.views, op.collection, step.value.written.value, |schema.views|);
    }
  }

  lemma {:induction false} EagerFails(schema: Schema, docs: Docs, views: seq<ViewTrees>, collection: CollectionName,
                                      id: DocId, n: nat)
    requires n <= |schema.views| == |views|
    ensures
      var r := UpdateEager(schema, docs, views, collection, id, n);
      r.Err? ==> MaintenanceError(r.error)
  {
    if n > 0 {
      EagerFails(schema, docs, views, collection, id, n - 1);
      var before := UpdateEager(schema, docs, views, collection, id, n - 1);
      if before.Ok? {
        SaveAllFails(schema.views[n - 1], docs, [[id]], before.value[n - 1]);
      }
    }
  }

  lemma {:induction false} SaveAllFails(view: View, docs: Docs, batches: seq<seq<DocId>>, vt: ViewTrees)
    ensures SaveAll(view, docs, batches, vt).Err? ==> MaintenanceError(SaveAll(view, docs, batches, vt).error)
  {
    if batches != [] {
      SaveAllFails(view, docs, batches[..|batches| - 1], vt);
    }
  }

  function LookupKey(docs: Docs, k: DocKey): Option<Document> {
    Lookup(docs, k.collection, k.id)
  }

  // The effect touches only the document it logs, and logs it as deleted iff it is gone.
  ghost predicate Framed(docs: Docs, collection: CollectionName, effect: Effect) {
    && Keyed(effect.docs)
    && (effect.written.None? ==> effect.docs == docs)
    && (Logged(effect.result).None? ==> effect.docs == docs && effect.written.None?)
    && (Logged(effect.result).Some? ==>
          var (c, id, deleted) := Logged(effect.result).value;
          && c == collection
          && (deleted <==> DocKey(c, id) !in effect.docs)
          && (effect.written.Some? ==> effect.written.value == id)
          && (forall k :: k != DocKey(c, id) ==> LookupKey(effect.docs, k) == LookupKey(docs, k)))
  }

  lemma WriteFramed(docs: Docs, collection: CollectionName, doc: Document)
    requires Keyed(docs)
    ensures Framed(docs, collection, Write(docs, collection, doc))
  {
  }

  lemma RewriteFramed(schema: Schema, docs: Docs, collection: CollectionName, id: DocId, contents: Bytes)
    requires Keyed(docs) && DocKey(collection, id) in docs
    ensures
      var r := Rewrite(schema, docs, collection, id, docs[DocKey(collection, id)], contents);
      r.Ok? ==> Framed(docs, collection, r.value)
  {
    var current := docs[DocKey(collection, id)];
    var next := NextRevision(schema, current.header.revision, contents);
    if next.Ok? && next.value.Some? {
      WriteFramed(docs, collection, Document(Header(id, next.value.value), contents));
    }
  }

  lemma DeleteFramed(docs: Docs, collection: CollectionName, id: DocId)
    requires Keyed(docs)
    ensures Framed(docs, collection, Effect(docs - {DocKey(collection, id)}, DocumentDeleted(collection, id), Some(id)))
  {
  }

  // Every command is framed.
  lemma StepFrame(schema: Schema, docs: Docs, op: Operation, effect: Effect)
    requires Keyed(docs)
    requires Step(schema, docs, op) == Ok(effect)
    ensures Framed(docs, op.collection, effect)
  {
    match op.command
    case Insert(newId, contents) =>
      var id := if newId.Some? then newId.value else FreshId(schema, docs, op.collection).value;
      WriteFramed(docs, op.collection, FirstVersion(schema, id, contents));
    case Update(header, contents) => RewriteFramed(schema, docs, op.collection, header.id, contents);
    case Overwrite(id, contents) =>
      if DocKey(op.collection, id) in docs {
        RewriteFramed(schema, docs, op.collection, id, contents);
      } else {
        WriteFramed(docs, op.collection, FirstVersion(schema, id, contents));
      }
    case Delete(header) => DeleteFramed(docs, op.collection, header.id);
    case Check(_, _) =>
  }

  // The deletion flag of the last log entry about `k`.
  function LastLogged(entries: seq<(CollectionName, DocId, bool)>, k: DocKey): Option<bool> {
    if entries == [] then None
    else
      var (collection, id, deleted) := entries[|entries| - 1];
      if DocKey(collection, id) == k then Some(deleted) else LastLogged(entries[..|entries| - 1], k)
  }

  // The log tells what happened: an unlogged document is unchanged, and the last entry about a
  // document says `deleted` iff it is absent afterwards.
  lemma {:induction false} LogTellsOutcome(schema: Schema, docs: Docs, ops: seq<Operation>, k: DocKey)
    requires Keyed(docs)
    requires Fold(schema, docs, ops).Ok?
    ensures
      var (after, results) := Fold(schema, docs, ops).value;
      && Keyed(after)
      && (LastLogged(LoggedAll(results), k) == None ==> LookupKey(after, k) == LookupKey(docs, k))
      && (LastLogged(LoggedAll(results), k) == Some(true) ==> k !in after)
      && (LastLogged(LoggedAll(results), k) == Some(false) ==> k in after)
  {
    if ops != [] {
      var init, op := ops[..|ops| - 1], ops[|ops| - 1];
      LogTellsOutcome(schema, docs, init, k);
      var (before, results) := Fold(schema, docs, init).value;
      var effect := Step(schema, before, op).value;
      StepFrame(schema, before, op, effect);
      assert (results + [effect.result])[..|results|] == results;
      assert k == DocKey(k.collection, k.id);
      if Logged(effect.result).Some? {
        var entries := LoggedAll(results);
        assert (entries + [Logged(effect.result).value])[..|entries|] == entries;
        var (collection, id, _) := Logged(effect.result).value;
        assert k != DocKey(collection, id) ==> LookupKey(effect.docs, k) == LookupKey(before, k);
      }
    }
  }

  // The change log a committed transaction leaves behind tells its outcome.
  lemma AppliedLogTells(schema: Schema, trees: Trees, ops: seq<Operation>, applied: Applied, k: DocKey)
    requires |trees.views| == |schema.views| && Keyed(trees.docs)
    requires Apply(schema, trees, ops) == Ok(applied)
    ensures !Dangling(applied.changes)
    ensures match LastLogged(Entries(applied.changes), k)
            case None => LookupKey(applied.trees.docs, k) == LookupKey(trees.docs, k)
            case Some(deleted) => deleted <==> k !in applied.trees.docs
  {
    RunLogs(schema, trees, ops);
    RunIsFold(schema, trees, ops);
    LogTellsOutcome(schema, trees.docs, ops, k);
  }

  lemma {:induction false} LastLoggedExists(entries: seq<(CollectionName, DocId, bool)>, k: DocKey)
    requires LastLogged(entries, k).Some?
    ensures exists i :: 0 <= i < |entries| && DocKey(entries[i].0, entries[i].1) == k
  {
    var n := |entries| - 1;
    if DocKey(entries[n].0, entries[n].1) != k {
      LastLoggedExists(entries[..n], k);
      var i :| 0 <= i < n && DocKey(entries[..n][i].0, entries[..n][i].1) == k;
      assert DocKey(entries[i].0, entries[i].1) == k;
    }
  }

  lemma {:induction false} FoldConcat(schema: Schema, docs: Docs, a: seq<Operation>, b: seq<Operation>)
    requires Fold(schema, docs, a).Ok?
    ensures
      var (mid, results) := Fold(schema, docs, a).value;
      Fold(schema, docs, a + b) ==
        match Fold(schema, mid, b)
        case Err(e) => Err(e)
        case Ok((after, more)) => Ok((after, results + more))
  {
    if b == [] {
      assert a + b == a;
      var (_, results) := Fold(schema, docs, a).value;
      assert results + [] == results;
    } else {
      assert (a + b)[..|a + b| - 1] == a + b[..|b| - 1];
      FoldConcat(schema, docs, a, b[..|b| - 1]);
      var (mid, results) := Fold(schema, docs, a).value;
      if Fold(schema, mid, b).Ok? {
        var more := Fold(schema, mid, b[..|b| - 1]).value.1;
        var last := Fold(schema, mid, b).value.1;
        assert results + more + last[|more|..] == results + (more + last[|more|..]);
      }
    }
  }

  // The committed trees after a run of transactions; one that fails leaves them alone.
  ghost function ApplyAll(schema: Schema, trees: Trees, txs: seq<seq<Operation>>): (r: Trees)
    requires |trees.views| == |schema.views|
    ensures |r.views| == |schema.views|
  {
    if txs == [] then trees
    else
      var before := ApplyAll(schema, trees, txs[..|txs| - 1]);
      match Apply(schema, before, txs[|txs| - 1])
      case Err(_) => before
      case Ok(applied) => applied.trees
  }

  // The operations of the transactions that committed, in order.
  ghost function Committed(schema: Schema, trees: Trees, txs: seq<seq<Operation>>): seq<Operation>
    requires |trees.views| == |schema.views|
  {
    if txs == [] then []
    else
      var init, last := txs[..|txs| - 1], txs[|txs| - 1];
      Committed(schema, trees, init) + if Apply(schema, ApplyAll(schema, trees, init), last).Ok? then last else []
  }

  // A run of transactions does to the documents exactly what the operations of the committed ones do, one after
  // another: nothing of a failed transaction remains, and transactions do not interleave.
  lemma {:induction false} RunsAreFolds(schema: Schema, trees: Trees, txs: seq<seq<Operation>>)
    requires |trees.views| == |schema.views|
    ensures
      var folded := Fold(schema, trees.docs, Committed(schema, trees, txs));
      folded.Ok? && folded.value.0 == ApplyAll(schema, trees, txs).docs
  {
    if txs != [] {
      var init, last := txs[..|txs| - 1], txs[|txs| - 1];
      RunsAreFolds(schema, trees, init);
      var before := ApplyAll(schema, trees, init);
      var ops := Committed(schema, trees, init);
      if Apply(schema, before, last).Ok? {
        RunIsFold(schema, before, last);
        FoldConcat(schema, trees.docs, ops, last);
      } else {
        assert ops + [] == ops;
      }
    }
  }

  // ---------------------------------------------------------------- no lost updates

  predicate Deletes(op: Operation, k: DocKey) {
    op.collection == k.collection && op.command.Delete? && op.command.header.id == k.id
  }

  // How many of the commands really rewrote document `k`.
  ghost function Rewrites(schema: Schema, docs: Docs, ops: seq<Operation>, k: DocKey): nat
    requires Fold(schema, docs, ops).Ok?
  {
    if ops == [] then 0
    else
      var init, op := ops[..|ops| - 1], ops[|ops| - 1];
      var effect := Step(schema, Fold(schema, docs, init).value.0, op).value;
      Rewrites(schema, docs, init, k) + if op.collection == k.collection && effect.written == Some(k.id) then 1 else 0
  }

  lemma StepRevision(schema: Schema, docs: Docs, op: Operation, effect: Effect, k: DocKey)
    requires Keyed(docs) && k in docs
    requires Step(schema, docs, op) == Ok(effect)
    requires !Deletes(op, k)
    ensures k in effect.docs
    ensures effect.docs[k].header.revision.id ==
      docs[k].header.revision.id + if op.collection == k.collection && effect.written == Some(k.id) then 1 else 0
    ensures !(op.collection == k.collection && effect.written == Some(k.id)) ==> effect.docs[k] == docs[k]
  {
    StepFrame(schema, docs, op, effect);
    assert k == DocKey(k.collection, k.id);
    if Logged(effect.result).Some? {
      var (collection, id, _) := Logged(effect.result).value;
      assert k != DocKey(collection, id) ==> LookupKey(effect.docs, k) == LookupKey(docs, k);
    }
  }

  // Without a delete, the revision counter rises by exactly one per rewrite.
  lemma {:induction false} RevisionCounts(schema: Schema, docs: Docs, ops: seq<Operation>, k: DocKey)
    requires Keyed(docs) && k in docs
    requires Fold(schema, docs, ops).Ok?
    requires forall i :: 0 <= i < |ops| ==> !Deletes(ops[i], k)
    ensures
      var after := Fold(schema, docs, ops).value.0;
      Keyed(after) && k in after &&
      after[k].header.revision.id == docs[k].header.revision.id + Rewrites(schema, docs, ops, k)
  {
    if ops != [] {
      var init, op := ops[..|ops| - 1], ops[|ops| - 1];
      RevisionCounts(schema, docs, init, k);
      var before := Fold(schema, docs, init).value.0;
      StepRevision(schema, before, op, Step(schema, before, op).value, k);
      StepFrame(schema, before, op, Step(schema, before, op).value);
    }
  }

  // Once an update carrying `header` has changed the document, every later update carrying the same
  // header conflicts, as long as the document was not deleted in between.
  lemma {:induction false} StaleUpdateConflicts(schema: Schema, docs: Docs, collection: CollectionName, header: Header,
                                                contents: Bytes, effect: Effect, ops: seq<Operation>, contents': Bytes)
    requires Keyed(docs)
    requires Step(schema, docs, Operation(collection, Update(header, contents))) == Ok(effect)
    requires effect.written.Some?
    requires Fold(schema, effect.docs, ops).Ok?
    requires forall i :: 0 <= i < |ops| ==> !Deletes(ops[i], DocKey(collection, header.id))
    ensures
      var later := Fold(schema, effect.docs, ops).value.0;
      var k := DocKey(collection, header.id);
      k in later &&
      Step(schema, later, Operation(collection, Update(header, contents'))) ==
        Err(DocumentConflict(collection, later[k].header))
  {
    StepFrame(schema, docs, Operation(collection, Update(header, contents)), effect);
    RevisionCounts(schema, effect.docs, ops, DocKey(collection, header.id));
  }

  lemma {:induction false} FoldPrefix(schema: Schema, docs: Docs, ops: seq<Operation>, i: nat)
    requires Fold(schema, docs, ops).Ok? && i < |ops|
    ensures Fold(schema, docs, ops[..i]).Ok?
    ensures Step(schema, Fold(schema, docs, ops[..i]).value.0, ops[i]).Ok?
    ensures Fold(schema, docs, ops[..i + 1]).Ok?
    ensures Fold(schema, docs, ops[..i + 1]).value.0 ==
            Step(schema, Fold(schema, docs, ops[..i]).value.0, ops[i]).value.docs
    decreases |ops|
  {
    var n := |ops| - 1;
    if i < n {
      FoldPrefix(schema, docs, ops[..n], i);
      assert ops[..n][..i] == ops[..i] && ops[..n][..i + 1] == ops[..i + 1];
    } else {
      assert ops[..i + 1] == ops;
    }
  }

  // The `i`-th operation is an update carrying `header`.
  predicate UpdatesFrom(ops: seq<Operation>, i: nat, collection: CollectionName, header: Header) {
    i < |ops| && ops[i].collection == collection && ops[i].command.Update? && ops[i].command.header == header
  }

  // The `i`-th operation changed a document.
  ghost predicate Changes(schema: Schema, docs: Docs, ops: seq<Operation>, i: nat)
    requires Fold(schema, docs, ops).Ok? && i < |ops|
  {
    FoldPrefix(schema, docs, ops, i);
    Step(schema, Fold(schema, docs, ops[..i]).value.0, ops[i]).value.written.Some?
  }

  lemma FoldSuffix(schema: Schema, docs: Docs, a: seq<Operation>, b: seq<Operation>, ops: seq<Operation>)
    requires ops == a + b && Fold(schema, docs, a).Ok? && Fold(schema, docs, ops).Ok?
    ensures Fold(schema, Fold(schema, docs, a).value.0, b).Ok?
    ensures Fold(schema, Fold(schema, docs, a).value.0, b).value.0 == Fold(schema, docs, ops).value.0
  {
    FoldConcat(schema, docs, a, b);
  }

  lemma NoLostUpdatesFolded(schema: Schema, docs: Docs, ops: seq<Operation>, collection: CollectionName,
                            header: Header, i: nat, j: nat)
    requires Keyed(docs) && Fold(schema, docs, ops).Ok? && i < j
    requires UpdatesFrom(ops, i, collection, header) && UpdatesFrom(ops, j, collection, header)
    requires Changes(schema, docs, ops, i)
    ensures exists d :: i < d < j && Deletes(ops[d], DocKey(collection, header.id))
  {
    if forall d :: i < d < j ==> !Deletes(ops[d], DocKey(collection, header.id)) {
      var front := ops[..j];
      FoldPrefix(schema, docs, ops, j);
      assert front[..i] == ops[..i] && front[i] == ops[i];
      assert forall d :: i < d < j ==> front[d] == ops[d];
      SecondUpdateFails(schema, docs, front, collection, header, i, ops[j].command.contents);
      assert false;
    }
  }

  lemma SecondUpdateFails(schema: Schema, docs: Docs, ops: seq<Operation>, collection: CollectionName,
                          header: Header, i: nat, contents: Bytes)
    requires Keyed(docs) && Fold(schema, docs, ops).Ok?
    requires UpdatesFrom(ops, i, collection, header) && Changes(schema, docs, ops, i)
    requires forall d :: i < d < |ops| ==> !Deletes(ops[d], DocKey(collection, header.id))
    ensures Step(schema, Fold(schema, docs, ops).value.0, Operation(collection, Update(header, contents))).Err?
  {
    FoldFrom(schema, docs, ops, i);
    NoDeletesLater(ops, i, ops[i + 1..], DocKey(collection, header.id));
    var before := Fold(schema, docs, ops[..i]).value.0;
    assert ops[i] == Operation(collection, Update(header, ops[i].command.contents));
    StaleUpdateConflicts(schema, before, collection, header, ops[i].command.contents,
                         Step(schema, before, ops[i]).value, ops[i + 1..], contents);
  }

  lemma NoDeletesLater(ops: seq<Operation>, i: nat, later: seq<Operation>, k: DocKey)
    requires i < |ops| && later == ops[i + 1..] && forall d :: i < d < |ops| ==> !Deletes(ops[d], k)
    ensures forall m :: 0 <= m < |later| ==> !Deletes(later[m], k)
  {
    assert forall m :: 0 <= m < |later| ==> later[m] == ops[i + 1 + m];
  }

  // The operations behind the `i`-th one continue from what it left.
  lemma FoldFrom(schema: Schema, docs: Docs, ops: seq<Operation>, i: nat)
    requires Keyed(docs) && i < |ops| && Fold(schema, docs, ops).Ok?
    ensures Fold(schema, docs, ops[..i]).Ok? && Keyed(Fold(schema, docs, ops[..i]).value.0)
    ensures
      var effect := Step(schema, Fold(schema, docs, ops[..i]).value.0, ops[i]);
      && effect.Ok? && Fold(schema, effect.value.docs, ops[i + 1..]).Ok?
      && Fold(schema, effect.value.docs, ops[i + 1..]).value.0 == Fold(schema, docs, ops).value.0
  {
    FoldPrefix(schema, docs, ops, i);
    FoldStaysKeyed(schema, docs, ops[..i]);
    FoldSuffix(schema, docs, ops[..i + 1], ops[i + 1..], ops);
  }

  lemma FoldStaysKeyed(schema: Schema, docs: Docs, ops: seq<Operation>)
    requires Keyed(docs) && Fold(schema, docs, ops).Ok?
    ensures Keyed(Fold(schema, docs, ops).value.0)
  {
    LogTellsOutcome(schema, docs, ops, DocKey("", []));
  }

  // The `i`-th operation among those of the committed transactions changed a document.
  ghost predicate CommittedChanges(schema: Schema, trees: Trees, txs: seq<seq<Operation>>, i: nat)
    requires |trees.views| == |schema.views|
  {
    RunsAreFolds(schema, trees, txs);
    i < |Committed(schema, trees, txs)| && Changes(schema, trees.docs, Committed(schema, trees, txs), i)
  }

  // No lost updates, over any run of transactions of which some may fail: when two committed updates carry the same
  // header and the first one changed the document, the document was deleted between them.
  lemma NoLostUpdates(schema: Schema, trees: Trees, txs: seq<seq<Operation>>, collection: CollectionName,
                      header: Header, i: nat, j: nat)
    requires |trees.views| == |schema.views| && Keyed(trees.docs) && i < j
    requires UpdatesFrom(Committed(schema, trees, txs), i, collection, header)
    requires UpdatesFrom(Committed(schema, trees, txs), j, collection, header)
    requires CommittedChanges(schema, trees, txs, i)
    ensures
      var ops := Committed(schema, trees, txs);
      exists d :: i < d < j && ops[d].collection == collection && ops[d].command.Delete? &&
                  ops[d].command.header.id == header.id
  {
    RunsAreFolds(schema, trees, txs);
    NoLostUpdatesFolded(schema, trees.docs, Committed(schema, trees, txs), collection, header, i, j);
  }

  // A delete restarts the counter, so a header from before it can become current again: after
  // insert, update, delete and re-insert the documents are back where they were, and an update
  // carrying the very first header changes the document a second time.
  lemma StaleHeaderRevives(schema: Schema, c: CollectionName, id: DocId, first: Bytes, second: Bytes, third: Bytes)
    requires schema.digest(first) != schema.digest(second) && schema.digest(first) != schema.digest(third)
    ensures
      var h0 := FirstVersion(schema, id, first).header;
      var h1 := Header(id, Revision(1, schema.digest(second)));
      var insert := Operation(c, Insert(Some(id), first));
      var ops := [insert, Operation(c, Update(h0, second)), Operation(c, Delete(h1)), insert];
      var docs: Docs := map[DocKey(c, id) := FirstVersion(schema, id, first)];
      && Fold(schema, map[], ops).Ok?
      && Fold(schema, map[], ops).value.0 == docs
      && Step(schema, docs, Operation(c, Update(h0, third))).Ok?
      && Step(schema, docs, Operation(c, Update(h0, third))).value.written == Some(id)
  {
    var h0 := FirstVersion(schema, id, first).header;
    var h1 := Header(id, Revision(1, schema.digest(second)));
    var insert := Operation(c, Insert(Some(id), first));
    var update, delete := Operation(c, Update(h0, second)), Operation(c, Delete(h1));
    var k := DocKey(c, id);
    var docs: Docs := map[k := FirstVersion(schema, id, first)];
    assert Step(schema, map[], insert).value.docs == docs;
    assert Step(schema, docs, update).value.docs == map[k := Document(h1, second)];
    assert Step(schema, map[k := Document(h1, second)], delete).value.docs == map[];
    FoldSnoc(schema, map[], [], insert);
    assert [] + [insert] == [insert];
    FoldSnoc(schema, map[], [insert], update);
    assert [insert] + [update] == [insert, update];
    FoldSnoc(schema, map[], [insert, update], delete);
    assert [insert, update] + [delete] == [insert, update, delete];
    FoldSnoc(schema, map[], [insert, update, delete], insert);
    assert [insert, update, delete] + [insert] == [insert, update, delete, insert];
  }

  lemma FoldSnoc(schema: Schema, docs: Docs, ops: seq<Operation>, op: Operation)
    requires Fold(schema, docs, ops).Ok?
    requires Step(schema, Fold(schema, docs, ops).value.0, op).Ok?
    ensures Fold(schema, docs, ops + [op]).Ok?
    ensures Fold(schema, docs, ops + [op]).value.0 == Step(schema, Fold(schema, docs, ops).value.0, op).value.docs
  {
    assert (ops + [op])[..|ops|] == ops;
  }

  // ---------------------------------------------------------------- fresh ids

  lemma GreaterNumber(key: DocId, x: nat)
    requires FromBigEndian(key) < x < Capacity(|key|)
    ensures Less(key, BigEndian(|key|, x))
  {
    BigEndianRoundTrip(|key|, x);
    UnsignedOrder(key, BigEndian(|key|, x));
  }

  // The number a signed key stands for, `u` being the unsigned one.
  function SignedNumber(u: nat, half: nat): int {
    if u >= half then u - 2 * half else u
  }

  lemma UnsignedStep(width: nat, u: nat, capacity: nat)
    requires width > 0 && u < capacity == Capacity(width)
    ensures Successor(Unsigned(width), u) == if u == capacity - 1 then None else Some(BigEndian(width, u + 1))
  {
  }

  // As unsigned numbers, the successor is the next one, after the last one the first, and after the greatest
  // positive one there is none.
  lemma SignedStep(width: nat, u: nat, half: nat)
    requires width > 0 && u < 2 * half == Capacity(width)
    ensures Successor(Signed(width), SignedNumber(u, half)) ==
      if u == half - 1 then None else Some(BigEndian(width, if u == 2 * half - 1 then 0 else u + 1))
  {
  }

  lemma GreaterThanLast(ids: set<DocId>, last: DocId, id: DocId)
    requires IsLastKey(ids, last) && Less(last, id)
    ensures forall x :: x in ids ==> Less(x, id) && x != id
  {
    forall x | x in ids ensures Less(x, id) && x != id {
      assert AtMost(x, last);
      if x != last {
        LessTransitive(x, last, id);
      }
      LessAsymmetric(x, id);
    }
  }

  lemma NumberAfterLast(ids: set<DocId>, last: DocId, x: nat)
    requires IsLastKey(ids, last) && FromBigEndian(last) < x < Capacity(|last|)
    ensures forall id :: id in ids ==> Less(id, BigEndian(|last|, x)) && id != BigEndian(|last|, x)
  {
    GreaterNumber(last, x);
    GreaterThanLast(ids, last, BigEndian(|last|, x));
  }

  // The last key of a collection has the width of its primary key and stands for the number `u`.
  ghost predicate LastIs(docs: Docs, collection: CollectionName, width: nat, u: nat) {
    var last := LastKey(IdsIn(docs, collection));
    last.Some? && |last.value| == width && FromBigEndian(last.value) == u
  }

  // The last key of a collection has another width than its primary key.
  ghost predicate LastIsForeign(docs: Docs, collection: CollectionName, width: nat) {
    var last := LastKey(IdsIn(docs, collection));
    last.Some? && |last.value| != width
  }

  // The first id generated is 1.
  lemma FirstId(schema: Schema, docs: Docs, collection: CollectionName, width: nat)
    requires collection in schema.collections && LastKey(IdsIn(docs, collection)) == None && width > 0
    requires schema.collections[collection] == Unsigned(width) || schema.collections[collection] == Signed(width)
    ensures 1 < Capacity(width) && FreshId(schema, docs, collection) == Ok(BigEndian(width, 1))
  {
    assert Capacity(width) == 256 * Capacity(width - 1);
  }

  // With unsigned primary keys a generated id is greater than every id in the collection, whatever ids were stored
  // in it. Generating fails iff the last key has another width, or is the type's maximum.
  lemma UnsignedFreshId(schema: Schema, docs: Docs, collection: CollectionName)
    requires collection in schema.collections && schema.collections[collection].Unsigned?
    requires schema.collections[collection].width > 0
    ensures
      var width, r := schema.collections[collection].width, FreshId(schema, docs, collection);
      && (r.Ok? ==> |r.value| == width && forall x :: x in IdsIn(docs, collection) ==> Less(x, r.value) && x != r.value)
      && (r.Err? ==> r.error.InvalidDocumentId? || r.error == DocumentPush(collection, WouldWrap))
      && (r.Err? && r.error.InvalidDocumentId? <==> LastIsForeign(docs, collection, width))
      && (r == Err(DocumentPush(collection, WouldWrap)) <==> LastIs(docs, collection, width, Capacity(width) - 1))
  {
    var width, ids := schema.collections[collection].width, IdsIn(docs, collection);
    var last := LastKey(ids);
    if last.None? {
      FirstId(schema, docs, collection, width);
    } else if |last.value| == width {
      UnsignedFreshAfter(schema, docs, collection, last.value, FromBigEndian(last.value), Capacity(width));
    }
  }

  lemma UnsignedFreshAfter(schema: Schema, docs: Docs, collection: CollectionName, last: DocId, u: nat, capacity: nat)
    requires collection in schema.collections && 0 < |last| && schema.collections[collection] == Unsigned(|last|)
    requires LastKey(IdsIn(docs, collection)) == Some(last) && FromBigEndian(last) == u
    requires capacity == Capacity(|last|)
    ensures FreshId(schema, docs, collection) ==
      if u == capacity - 1 then Err(DocumentPush(collection, WouldWrap)) else Ok(BigEndian(|last|, u + 1))
    ensures u + 1 < capacity ==> forall x :: x in IdsIn(docs, collection) ==>
      Less(x, BigEndian(|last|, u + 1)) && x != BigEndian(|last|, u + 1)
  {
    UnsignedStep(|last|, u, capacity);
    if u + 1 < capacity {
      NumberAfterLast(IdsIn(docs, collection), last, u + 1);
    }
  }

  // The same for signed keys, where 0xFF...FF is -1 and followed by 0: a generated id is in use iff the last key is
  // -1 and 0 is in use. Generating fails iff the last key has another width, or is the greatest number.
  ghost predicate SignedOutcome(schema: Schema, docs: Docs, collection: CollectionName, width: nat, half: nat)
    requires half > 0
  {
    var r := FreshId(schema, docs, collection);
    && (r.Ok? && r.value in IdsIn(docs, collection) <==>
          LastIs(docs, collection, width, 2 * half - 1) && BigEndian(width, 0) in IdsIn(docs, collection))
    && (r.Err? ==> r.error.InvalidDocumentId? || r.error == DocumentPush(collection, WouldWrap))
    && (r.Err? && r.error.InvalidDocumentId? <==> LastIsForeign(docs, collection, width))
    && (r == Err(DocumentPush(collection, WouldWrap)) <==> LastIs(docs, collection, width, half - 1))
  }

  lemma SignedFreshId(schema: Schema, docs: Docs, collection: CollectionName, width: nat)
    requires collection in schema.collections && schema.collections[collection] == Signed(width) && width > 0
    ensures Capacity(width) >= 2 && SignedOutcome(schema, docs, collection, width, Capacity(width) / 2)
  {
    assert Capacity(width) == 256 * Capacity(width - 1);
    SignedFreshHalf(schema, docs, collection, width, Capacity(width) / 2);
  }

  lemma SignedFreshHalf(schema: Schema, docs: Docs, collection: CollectionName, width: nat, half: nat)
    requires collection in schema.collections && schema.collections[collection] == Signed(width)
    requires width > 0 && 2 * half == Capacity(width)
    ensures SignedOutcome(schema, docs, collection, width, half)
  {
    var last := LastKey(IdsIn(docs, collection));
    if last.None? {
      SignedOutcomeFirst(schema, docs, collection, width, half);
    } else if |last.value| == width {
      SignedFreshAfter(schema, docs, collection, last.value, FromBigEndian(last.value), half);
      SignedOutcomeAfter(schema, docs, collection, last.value, FromBigEndian(last.value), half);
    } else {
      assert FreshId(schema, docs, collection) == Err(InvalidDocumentId(last.value));
    }
  }

  lemma SignedOutcomeFirst(schema: Schema, docs: Docs, collection: CollectionName, width: nat, half: nat)
    requires collection in schema.collections && schema.collections[collection] == Signed(width)
    requires width > 0 && half > 0 && LastKey(IdsIn(docs, collection)) == None
    ensures SignedOutcome(schema, docs, collection, width, half)
  {
    FirstId(schema, docs, collection, width);
  }

  lemma SignedOutcomeAfter(schema: Schema, docs: Docs, collection: CollectionName, last: DocId, u: nat, half: nat)
    requires LastKey(IdsIn(docs, collection)) == Some(last) && FromBigEndian(last) == u
    requires 0 < |last| && 2 * half == Capacity(|last|)
    requires FreshId(schema, docs, collection) ==
      if u == half - 1 then Err(DocumentPush(collection, WouldWrap))
      else Ok(BigEndian(|last|, if u == 2 * half - 1 then 0 else u + 1))
    requires u + 1 < 2 * half ==> BigEndian(|last|, u + 1) !in IdsIn(docs, collection)
    ensures SignedOutcome(schema, docs, collection, |last|, half)
  {
  }

  lemma SignedFreshAfter(schema: Schema, docs: Docs, collection: CollectionName, last: DocId, u: nat, half: nat)
    requires collection in schema.collections && 0 < |last| && schema.collections[collection] == Signed(|last|)
    requires LastKey(IdsIn(docs, collection)) == Some(last) && FromBigEndian(last) == u
    requires 2 * half == Capacity(|last|)
    ensures FreshId(schema, docs, collection) ==
      if u == half - 1 then Err(DocumentPush(collection, WouldWrap))
      else Ok(BigEndian(|last|, if u == 2 * half - 1 then 0 else u + 1))
    ensures u + 1 < 2 * half ==> BigEndian(|last|, u + 1) !in IdsIn(docs, collection)
  {
    SignedStep(|last|, u, half);
    assert KeyValue(Signed(|last|), last) == SignedNumber(u, half);
    if u + 1 < 2 * half {
      NumberAfterLast(IdsIn(docs, collection), last, u + 1);
    }
  }

  // With signed keys an insert without an id conflicts iff the last key is -1 and a document is stored under 0.
  lemma SignedInsertConflicts(schema: Schema, docs: Docs, collection: CollectionName, width: nat, contents: Bytes)
    requires collection in schema.collections && schema.collections[collection] == Signed(width) && width > 0
    ensures
      var r := Step(schema, docs, Operation(collection, Insert(None, contents)));
      r.Err? && r.error.DocumentConflict? <==>
        LastIs(docs, collection, width, Capacity(width) - 1) && DocKey(collection, BigEndian(width, 0)) in docs
  {
    InsertConflicts(schema, docs, collection, contents);
    SignedIdTaken(schema, docs, collection, width);
    InIds(docs, collection, BigEndian(width, 0));
  }

  // The generated id is in use.
  ghost predicate IdTaken(schema: Schema, docs: Docs, collection: CollectionName) {
    var id := FreshId(schema, docs, collection);
    id.Ok? && id.value in IdsIn(docs, collection)
  }

  lemma SignedIdTaken(schema: Schema, docs: Docs, collection: CollectionName, width: nat)
    requires collection in schema.collections && schema.collections[collection] == Signed(width) && width > 0
    ensures IdTaken(schema, docs, collection) <==>
            LastIs(docs, collection, width, Capacity(width) - 1) && BigEndian(width, 0) in IdsIn(docs, collection)
  {
    var half := 128 * Capacity(width - 1);
    assert Capacity(width) == 2 * half;
    SignedFreshHalf(schema, docs, collection, width, half);
  }

  lemma InIds(docs: Docs, collection: CollectionName, id: DocId)
    ensures id in IdsIn(docs, collection) <==> DocKey(collection, id) in docs
  {
  }

  // An insert without an id conflicts iff the generated id is in use.
  lemma InsertConflicts(schema: Schema, docs: Docs, collection: CollectionName, contents: Bytes)
    requires collection in schema.collections
    ensures
      var r := Step(schema, docs, Operation(collection, Insert(None, contents)));
      r.Err? && r.error.DocumentConflict? <==> IdTaken(schema, docs, collection)
  {
    var id := FreshId(schema, docs, collection);
    if id.Ok? {
      InIds(docs, collection, id.value);
    }
  }

  // Documents 0 and -1 of a collection with one-byte signed keys.
  function ZeroAndMinusOne(schema: Schema, c: CollectionName, contents: Bytes): Docs {
    map[DocKey(c, [0]) := FirstVersion(schema, [0], contents),
        DocKey(c, [255]) := FirstVersion(schema, [255], contents)]
  }

  // Beside them, every insert without an id conflicts with document 0.
  lemma SignedInsertWitness(schema: Schema, c: CollectionName, contents: Bytes)
    requires c in schema.collections && schema.collections[c] == Signed(1)
    ensures Step(schema, ZeroAndMinusOne(schema, c, contents), Operation(c, Insert(None, contents))) ==
            Err(DocumentConflict(c, FirstVersion(schema, [0], contents).header))
  {
    var docs := ZeroAndMinusOne(schema, c, contents);
    var ids := IdsIn(docs, c);
    assert ids == {[0], [255]} by {
      assert forall id :: id in ids <==> DocKey(c, id) in docs;
    }
    LastOfWitness(ids);
    assert Capacity(1) == 256 && FromBigEndian([255]) == 255;
    SignedFreshAfter(schema, docs, c, [255], 255, 128);
    assert BigEndian(1, 0) == [0];
  }

  lemma LastOfWitness(ids: set<DocId>)
    requires ids == {[0], [255]}
    ensures LastKey(ids) == Some([255])
  {
    assert Less([0], [255]);
    assert IsLastKey(ids, [255]);
    LastKeyUnique(ids, [255], LastKey(ids).value);
  }

  // In any state an insert without an id into a collection with unsigned keys never conflicts: it stores a document
  // under a new id, or fails iff the last key has another width or is the type's maximum.
  lemma AutomaticInsertExactly(schema: Schema, docs: Docs, collection: CollectionName, contents: Bytes)
    requires collection in schema.collections && schema.collections[collection].Unsigned?
    requires schema.collections[collection].width > 0
    ensures
      var width := schema.collections[collection].width;
      var r := Step(schema, docs, Operation(collection, Insert(None, contents)));
      && (r.Ok? ==> r.value.written.Some? && |r.value.written.value| == width &&
                    DocKey(collection, r.value.written.value) !in docs)
      && (r.Err? ==> r.error.InvalidDocumentId? || r.error == DocumentPush(collection, WouldWrap))
      && (r.Err? && r.error.InvalidDocumentId? <==> LastIsForeign(docs, collection, width))
      && (r == Err(DocumentPush(collection, WouldWrap)) <==> LastIs(docs, collection, width, Capacity(width) - 1))
  {
    UnsignedFreshId(schema, docs, collection);
    assert forall k :: k in docs && k.collection == collection ==> k.id in IdsIn(docs, collection);
  }

  // The operation names `id` as the id to store a document under.
  predicate Supplies(op: Operation, collection: CollectionName, id: DocId) {
    && op.collection == collection
    && match op.command
       case Insert(Some(x), _) => x == id
       case Overwrite(x, _) => x == id
       case _ => false
  }

  lemma StepSupplies(schema: Schema, docs: Docs, op: Operation, effect: Effect, k: DocKey)
    requires Keyed(docs) && k.collection in schema.collections && schema.collections[k.collection].Unsigned?
    requires schema.collections[k.collection].width > 0
    requires Step(schema, docs, op) == Ok(effect) && k in effect.docs && k !in docs
    ensures Supplies(op, k.collection, k.id) || |k.id| == schema.collections[k.collection].width
  {
    StepFrame(schema, docs, op, effect);
    assert k == DocKey(k.collection, k.id);
    if Logged(effect.result).Some? {
      var (collection, id, _) := Logged(effect.result).value;
      assert k != DocKey(collection, id) ==> LookupKey(effect.docs, k) == LookupKey(docs, k);
    }
    if op.command == Insert(None, op.command.contents) {
      AutomaticInsertExactly(schema, docs, k.collection, op.command.contents);
    }
  }

  // Every id of another width than the primary key was named by some operation.
  lemma {:induction false} ForeignIdsAreSupplied(schema: Schema, ops: seq<Operation>, k: DocKey)
    requires k.collection in schema.collections && schema.collections[k.collection].Unsigned?
    requires schema.collections[k.collection].width > 0
    requires Fold(schema, map[], ops).Ok? && k in Fold(schema, map[], ops).value.0
    requires |k.id| != schema.collections[k.collection].width
    ensures exists i :: 0 <= i < |ops| && Supplies(ops[i], k.collection, k.id)
  {
    if ops != [] {
      var init, op := ops[..|ops| - 1], ops[|ops| - 1];
      var before := Fold(schema, map[], init).value.0;
      if k in before {
        ForeignIdsAreSupplied(schema, init, k);
        var i :| 0 <= i < |init| && Supplies(init[i], k.collection, k.id);
        assert Supplies(ops[i], k.collection, k.id);
      } else {
        FoldStaysKeyed(schema, map[], init);
        StepSupplies(schema, before, op, Step(schema, before, op).value, k);
        assert ops[|ops| - 1] == op;
      }
    }
  }

  // In every reachable state, an insert without an id succeeds with a new one unless the type's maximum is in use, or
  // some operation before it stored a document under an id of another width, which is then the last key.
  lemma AutomaticInsertSucceeds(schema: Schema, ops: seq<Operation>, collection: CollectionName, contents: Bytes)
    requires collection in schema.collections && schema.collections[collection].Unsigned?
    requires schema.collections[collection].width > 0
    requires Fold(schema, map[], ops).Ok?
    ensures
      var docs, width := Fold(schema, map[], ops).value.0, schema.collections[collection].width;
      match Step(schema, docs, Operation(collection, Insert(None, contents)))
      case Ok(effect) => effect.written.Some? && DocKey(collection, effect.written.value) !in docs
      case Err(DocumentPush(c, WouldWrap)) => c == collection && LastIs(docs, collection, width, Capacity(width) - 1)
      case Err(InvalidDocumentId(id)) =>
        |id| != width && exists i :: 0 <= i < |ops| && Supplies(ops[i], collection, id)
      case Err(_) => false
  {
    var docs := Fold(schema, map[], ops).value.0;
    AutomaticInsertExactly(schema, docs, collection, contents);
    var last := LastKey(IdsIn(docs, collection));
    if last.Some? && |last.value| != schema.collections[collection].width {
      assert DocKey(collection, last.value) in docs;
      ForeignIdsAreSupplied(schema, ops, DocKey(collection, last.value));
    }
  }
}
