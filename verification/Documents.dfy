/** Documents, their revisions and the schema a database is opened with. */
module Documents {
  import opened ByteStrings

  type CollectionName = string

  type DocId = Bytes

  type Digest = Bytes

  datatype Revision = Revision(id: nat, sha256: Digest)

  datatype Header = Header(id: DocId, revision: Revision)

  datatype Document = Document(header: Header, contents: Bytes)

  // A document is addressed by its collection and its id.
  datatype DocKey = DocKey(collection: CollectionName, id: DocId)

  type Docs = map<DocKey, Document>

  // How a collection's primary key generates ids.
  datatype PrimaryKey = Unsigned(width: nat) | Signed(width: nat) | NoAutomaticIds

  datatype UpdatePolicy = Lazy | Eager | Unique {
    predicate IsEager() {
      Eager? || Unique?
    }
  }

  datatype Emission = Emission(key: Bytes, value: Bytes)

  // A view maps a document to emissions, or fails; it may also reduce the values under one key.
  datatype View = View(
    collection: CollectionName,
    policy: UpdatePolicy,
    mapping: Document -> Option<seq<Emission>>,
    reduce: Option<(Bytes, seq<Bytes>) -> Bytes>)

  datatype Schema = Schema(
    collections: map<CollectionName, PrimaryKey>,
    views: seq<View>,
    digest: Bytes -> Digest)

  datatype NextValueError = Unsupported | WouldWrap

  datatype Error =
    | CollectionNotFound
    | DocumentNotFound(collection: CollectionName, id: DocId)
    | DocumentConflict(collection: CollectionName, header: Header)
    | DocumentPush(collection: CollectionName, reason: NextValueError)
    | InvalidDocumentId(id: DocId)
    | RevisionOverflow
    | ViewMapFailed
    | UniqueKeyViolation
    | TransactionTooLarge

  const MAX_U32: nat := 0xFFFF_FFFF

  // Every document is stored under its own id.
  ghost predicate Keyed(docs: Docs) {
    forall k :: k in docs ==> docs[k].header.id == k.id
  }

  function Lookup(docs: Docs, collection: CollectionName, id: DocId): Option<Document> {
    if DocKey(collection, id) in docs then Some(docs[DocKey(collection, id)]) else None
  }

  // `BorrowedDocument::new`: a first revision.
  function FirstVersion(schema: Schema, id: DocId, contents: Bytes): Document {
    Document(Header(id, Revision(0, schema.digest(contents))), contents)
  }
}
