/**
 What a transaction means: a pure specification of every command, folded over
 the operations, with the change log and the view maintenance that go with it.
 */
module Transactions {
  import opened ByteStrings
  import opened Documents
  import opened ViewMapper

  datatype Command =
    | Insert(newId: Option<DocId>, contents: Bytes)
    | Update(header: Header, contents: Bytes)
    | Overwrite(id: DocId, contents: Bytes)
    | Delete(header: Header)
    | Check(id: DocId, revision: Option<Revision>)

  datatype Operation = Operation(collection: CollectionName, command: Command)

  datatype OperationResult =
    | Success
    | DocumentUpdated(collection: CollectionName, header: Header)
    | DocumentDeleted(collection: CollectionName, id: DocId)

  datatype ChangedDocument = ChangedDocument(collection: nat, id: DocId, deleted: bool)

  datatype DocumentChanges = DocumentChanges(collections: seq<CollectionName>, documents: seq<ChangedDocument>)

  // Everything a transaction can read or write.
  datatype Trees = Trees(docs: Docs, views: seq<ViewTrees>)

  const MAX_COLLECTIONS: nat := 0x1_0000

  // ---------------------------------------------------------------- document ids

  function IdsIn(docs: Docs, collection: CollectionName): set<DocId> {
    set k | k in docs && k.collection == collection :: k.id
  }

  // The value of a primary key that is stored as `bytes`.
  function KeyValue(kind: PrimaryKey, bytes: Bytes): int {
    var u := FromBigEndian(bytes);
    if kind.Signed? && 2 * u >= Capacity(|bytes|) then u - Capacity(|bytes|) else u
  }

  // `next_value`, encoded: nothing when the number after `x` is out of range.
  function Successor(kind: PrimaryKey, x: int): Option<DocId> {
    match kind
    case Unsigned(width) => if 0 <= x + 1 < Capacity(width) then Some(BigEndian(width, x + 1)) else None
    case Signed(width) =>
      if width > 0 && -2 * (x + 1) <= Capacity(width) && 2 * (x + 1) < Capacity(width) then
        Some(BigEndian(width, TwosComplement(width, x + 1)))
      else None
    case NoAutomaticIds => None
  }

  // The id after `last`, the last key of the collection's tree; the first id generated is 1.
  function NextId(schema: Schema, collection: CollectionName, last: Option<DocId>): Result<DocId, Error> {
    if collection !in schema.collections then Err(CollectionNotFound)
    else
      var kind := schema.collections[collection];
      if kind.NoAutomaticIds? then Err(DocumentPush(collection, Unsupported))
      else if last.Some? && |last.value| != kind.width then Err(InvalidDocumentId(last.value))
      else match Successor(kind, if last.Some? then KeyValue(kind, last.value) else 0)
        case None => Err(DocumentPush(collection, WouldWrap))
        case Some(id) => Ok(id)
  }

  ghost function LastKey(ids: set<DocId>): (r: Option<DocId>)
    ensures r.None? <==> ids == {}
    ensures r.Some? ==> IsLastKey(ids, r.value)
  {
    if ids == {} then None
    else
      LastKeyExists(ids);
      var last :| IsLastKey(ids, last);
      Some(last)
  }

  ghost function FreshId(schema: Schema, docs: Docs, collection: CollectionName): Result<DocId, Error> {
    NextId(schema, collection, LastKey(IdsIn(docs, collection)))
  }

  // ---------------------------------------------------------------- one command on the documents

  // `Revision::next_revision`: nothing when the contents have the same digest.
  function NextRevision(schema: Schema, revision: Revision, contents: Bytes): Result<Option<Revision>, Error> {
    var sha256 := schema.digest(contents);
    if sha256 == revision.sha256 then Ok(None)
    else if revision.id >= MAX_U32 then Err(RevisionOverflow)
    else Ok(Some(Revision(revision.id + 1, sha256)))
  }

  // New documents, the result to report and the id that was written, if any was.
  datatype Effect = Effect(docs: Docs, result: OperationResult, written: Option<DocId>)

  function Write(docs: Docs, collection: CollectionName, doc: Document): Effect {
    Effect(docs[DocKey(collection, doc.header.id) := doc], DocumentUpdated(collection, doc.header), Some(doc.header.id))
  }

  function Rewrite(schema: Schema, docs: Docs, collection: CollectionName, id: DocId, current: Document,
                   contents: Bytes)
    : Result<Effect, Error>
  {
    match NextRevision(schema, current.header.revision, contents)
    case Err(e) => Err(e)
    case Ok(None) => Ok(Effect(docs, DocumentUpdated(collection, current.header), None))
    case Ok(Some(revision)) => Ok(Write(docs, collection, Document(Header(id, revision), contents)))
  }

  ghost function Step(schema: Schema, docs: Docs, op: Operation): Result<Effect, Error> {
    var c := op.collection;
    match op.command
    case Insert(newId, contents) => (
      match if newId.Some? then Ok(newId.value) else FreshId(schema, docs, c)
      case Err(e) => Err(e)
      case Ok(id) =>
        match Lookup(docs, c, id)
        case Some(current) => Err(DocumentConflict(c, current.header))
        case None => Ok(Write(docs, c, FirstVersion(schema, id, contents))))
    case Update(header, contents) => (
      match Lookup(docs, c, header.id)
      case None => Err(DocumentNotFound(c, header.id))
      case Some(current) =>
        if current.header.revision != header.revision then Err(DocumentConflict(c, current.header))
        else Rewrite(schema, docs, c, header.id, current, contents))
    case Overwrite(id, contents) => (
      match Lookup(docs, c, id)
      case None => Ok(Write(docs, c, FirstVersion(schema, id, contents)))
      case Some(current) => Rewrite(schema, docs, c, id, current, contents))
    case Delete(header) => (
      match Lookup(docs, c, header.id)
      case None => Err(DocumentNotFound(c, header.id))
      case Some(current) =>
        if current.header != header then Err(DocumentConflict(c, header))
        else Ok(Effect(docs - {DocKey(c, header.id)}, DocumentDeleted(c, header.id), Some(header.id))))
    case Check(id, revision) =>
      match Lookup(docs, c, id)
      case None => Err(DocumentNotFound(c, id))
      case Some(current) =>
        if revision.Some? && current.header.revision != revision.value then
          Err(DocumentConflict(c, Header(id, revision.value)))
        else Ok(Effect(docs, Success, None))
  }

  // Documents and results of a whole transaction: all commands, in order, or the first error.
  ghost function Fold(schema: Schema, docs: Docs, ops: seq<Operation>): Result<(Docs, seq<OperationResult>), Error> {
    if ops == [] then Ok((docs, []))
    else
      match Fold(schema, docs, ops[..|ops| - 1])
      case Err(e) => Err(e)
      case Ok((before, results)) =>
        match Step(schema, before, ops[|ops| - 1])
        case Err(e) => Err(e)
        case Ok(effect) => Ok((effect.docs, results + [effect.result]))
  }

  // ---------------------------------------------------------------- eager views

  predicate Maintains(schema: Schema, i: nat, collection: CollectionName)
    requires i < |schema.views|
  {
    schema.views[i].policy.IsEager() && schema.views[i].collection == collection
  }

  // View `i` after mapping document `id` again, if it is one of the eager views of the collection.
  function UpdateView(schema: Schema, docs: Docs, i: nat, vt: ViewTrees, collection: CollectionName, id: DocId)
    : Result<ViewTrees, Error>
    requires i < |schema.views|
  {
    if Maintains(schema, i, collection) then SaveAll(schema.views[i], docs, [[id]], vt) else Ok(vt)
  }

  // The first `n` views updated, in order, or the first error.
  function UpdateEager(schema: Schema, docs: Docs, views: seq<ViewTrees>, collection: CollectionName, id: DocId, n: nat)
    : (r: Result<seq<ViewTrees>, Error>)
    requires n <= |schema.views| == |views|
    ensures r.Ok? ==> |r.value| == |views|
  {
    if n == 0 then Ok(views)
    else match UpdateEager(schema, docs, views, collection, id, n - 1)
      case Err(e) => Err(e)
      case Ok(vs) =>
        match UpdateView(schema, docs, n - 1, vs[n - 1], collection, id)
        case Err(e) => Err(e)
        case Ok(vt) => Ok(vs[n - 1 := vt])
  }

  ghost function Execute(schema: Schema, trees: Trees, op: Operation): (r: Result<(Trees, OperationResult), Error>)
    requires |trees.views| == |schema.views|
    ensures r.Ok? ==> |r.value.0.views| == |schema.views|
  {
    match Step(schema, trees.docs, op)
    case Err(e) => Err(e)
    case Ok(effect) =>
      if effect.written.None? then Ok((Trees(effect.docs, trees.views), effect.result))
      else match UpdateEager(schema, effect.docs, trees.views, op.collection, effect.written.value, |schema.views|)
        case Err(e) => Err(e)
        case Ok(views) => Ok((Trees(effect.docs, views), effect.result))
  }

  // ---------------------------------------------------------------- the change log

  // The collection, id and deletion flag a result is logged with.
  function Logged(result: OperationResult): Option<(CollectionName, DocId, bool)> {
    match result
    case Success => None
    case DocumentUpdated(collection, header) => Some((collection, header.id, false))
    case DocumentDeleted(collection, id) => Some((collection, id, true))
  }

  // Results that are logged, in order.
  function LoggedAll(results: seq<OperationResult>): seq<(CollectionName, DocId, bool)> {
    if results == [] then []
    else
      var init := LoggedAll(results[..|results| - 1]);
      match Logged(results[|results| - 1])
      case None => init
      case Some(entry) => init + [entry]
  }

  function IndexOf(names: seq<CollectionName>, name: CollectionName): (i: nat)
    requires name in names
    ensures i < |names| && names[i] == name
  {
    if names[0] == name then 0 else 1 + IndexOf(names[1..], name)
  }

  // Interns the collection and appends the change; fails when 65536 collections are already interned.
  function Record(changes: DocumentChanges, result: OperationResult): Option<DocumentChanges> {
    match Logged(result)
    case None => Some(changes)
    case Some((collection, id, deleted)) =>
      var names := changes.collections;
      if collection in names then
        Some(DocumentChanges(names, changes.documents + [ChangedDocument(IndexOf(names, collection), id, deleted)]))
      else if |names| < MAX_COLLECTIONS then
        Some(DocumentChanges(names + [collection], changes.documents + [ChangedDocument(|names|, id, deleted)]))
      else None
  }

  ghost function Run(schema: Schema, trees: Trees, ops: seq<Operation>)
    : (r: Result<(Trees, seq<OperationResult>, DocumentChanges), Error>)
    requires |trees.views| == |schema.views|
    ensures r.Ok? ==> |r.value.0.views| == |schema.views|
  {
    if ops == [] then Ok((trees, [], DocumentChanges([], [])))
    else
      match Run(schema, trees, ops[..|ops| - 1])
      case Err(e) => Err(e)
      case Ok((before, results, changes)) =>
        match Execute(schema, before, ops[|ops| - 1])
        case Err(e) => Err(e)
        case Ok((after, result)) =>
          match Record(changes, result)
          case None => Err(TransactionTooLarge)
          case Some(changes') => Ok((after, results + [result], changes'))
  }

  // ---------------------------------------------------------------- lazy views

  predicate Dangling(changes: DocumentChanges) {
    exists i :: 0 <= i < |changes.documents| && changes.documents[i].collection >= |changes.collections|
  }

  // Documents of `collection` that appear in the log.
  function ChangedIn(changes: DocumentChanges, collection: CollectionName): set<DocId>
    requires !Dangling(changes)
  {
    set i | 0 <= i < |changes.documents| && changes.collections[changes.documents[i].collection] == collection ::
      changes.documents[i].id
  }

  function Invalidate(schema: Schema, views: seq<ViewTrees>, changes: DocumentChanges): (r: seq<ViewTrees>)
    requires |views| == |schema.views|
    requires !Dangling(changes)
    ensures |r| == |views|
  {
    seq(|views|, i requires 0 <= i < |views| =>
      if schema.views[i].policy.IsEager() then views[i]
      else views[i].(invalidated := views[i].invalidated + ChangedIn(changes, schema.views[i].collection)))
  }

  datatype Applied = Applied(trees: Trees, results: seq<OperationResult>, changes: DocumentChanges)

  // A whole transaction, from committed state to committed state.
  ghost function Apply(schema: Schema, trees: Trees, ops: seq<Operation>): Result<Applied, Error>
    requires |trees.views| == |schema.views|
  {
    if exists i :: 0 <= i < |ops| && ops[i].collection !in schema.collections then Err(CollectionNotFound)
    else
      match Run(schema, trees, ops)
      case Err(e) => Err(e)
      case Ok((after, results, changes)) =>
        RunLogs(schema, trees, ops);
        Ok(Applied(Trees(after.docs, Invalidate(schema, after.views, changes)), results, changes))
  }

  // ---------------------------------------------------------------- iterating the log

  // `DocumentChanges::get`
  function GetChange(changes: DocumentChanges, i: nat): Option<(CollectionName, ChangedDocument)> {
    if i < |changes.documents| && changes.documents[i].collection < |changes.collections| then
      Some((changes.collections[changes.documents[i].collection], changes.documents[i]))
    else None
  }

  // The log spelled out, with collection names in place of interned indexes.
  function Entries(changes: DocumentChanges): (r: seq<(CollectionName, DocId, bool)>)
    requires !Dangling(changes)
    ensures |r| == |changes.documents|
  {
    seq(|changes.documents|, i requires 0 <= i < |changes.documents| =>
      (changes.collections[changes.documents[i].collection], changes.documents[i].id, changes.documents[i].deleted))
  }

  ghost predicate Interned(names: seq<CollectionName>) {
    |names| <= MAX_COLLECTIONS && forall i, j :: 0 <= i < j < |names| ==> names[i] != names[j]
  }

  lemma RecordLogs(changes: DocumentChanges, result: OperationResult, results: seq<OperationResult>)
    requires Interned(changes.collections) && !Dangling(changes) && Entries(changes) == LoggedAll(results)
    requires Record(changes, result).Some?
    ensures
      var changes' := Record(changes, result).value;
      Interned(changes'.collections) && !Dangling(changes') && Entries(changes') == LoggedAll(results + [result])
  {
    var changes' := Record(changes, result).value;
    assert (results + [result])[..|results|] == results;
    if Logged(result).Some? {
      var entry := Logged(result).value;
      assert Entries(changes') == Entries(changes) + [entry];
    }
  }

  // The log of a transaction is exactly its results other than `Success`, in order, each under its own collection.
  lemma {:induction false} RunLogs(schema: Schema, trees: Trees, ops: seq<Operation>)
    requires |trees.views| == |schema.views|
    ensures Run(schema, trees, ops).Ok? ==>
      var (_, results, changes) := Run(schema, trees, ops).value;
      && |results| == |ops|
      && Interned(changes.collections) && !Dangling(changes)
      && Entries(changes) == LoggedAll(results)
  {
    if ops != [] && Run(schema, trees, ops).Ok? {
      var init := ops[..|ops| - 1];
      RunLogs(schema, trees, init);
      var (before, results, changes) := Run(schema, trees, init).value;
      RecordLogs(changes, Execute(schema, before, ops[|ops| - 1]).value.1, results);
    }
  }
}
