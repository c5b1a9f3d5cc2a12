# A verified model of BonsaiDb's core

BonsaiDb is a document database. This project models the parts of it whose
correctness rests on invariants that no single function shows, and proves those
invariants for all inputs, all interleavings and all reachable states.

* **Keys** (`ByteStrings`, `CompositeKeys`, `CompositeOrder`,
  `CompositeKeyFaults`, `CompositeKeyCodec`, `PrefixRanges`, `KeyDescriptions`). Composite keys must
  round-trip and must sort, byte by byte, like the tuples they encode; prefix
  queries must turn into exact key intervals.
* **Transactions and views** (`Documents`, `Transactions`, `ViewMapper`,
  `MapperJob`, `TransactionProperties`, `ViewMaintenance`, `ViewMeanings`,
  `CommandMeanings`, `TransactionEngine`, `ReadYourWrites`). A transaction edits a
  working copy and commits or vanishes; it keeps a change log, re-maps eager views and invalidates lazy ones. Mapper
  jobs bring lazy views up to date while commits go on, and readers wait until
  the view is recent enough.
* **Block files** (`BlockFiles`, `FileContents`, `FileWriter`). A file is a list
  of blocks, read through a cache of loaded blocks and written through a buffer;
  both must behave like one flat sequence of bytes.
* **Persistence deadlines** (`PersistenceScheduler`). Lazy rules decide when
  key-value changes are written.

`Sorting` holds the stable sort that several of them use.

Code that changes state in the source is a class or a method here, proved
against a specification function; the properties are lemmas about those
functions. `dafny verify dfyconfig.toml` checks the whole project.

## How the main results fit together

`TransactionEngine.Database.ApplyTransaction` (in place, with the source's early
writes, its index cache and its grouping of consecutive changes) refines
`Transactions.Apply`, which refines the five-command fold `Transactions.Fold`.
`MapperJob.SaveBatch` refines `ViewMapper.Save`, and `ViewMapper.SaveIndexes` shows
that `Save` re-indexes exactly the documents of the batch: the predicate
`ViewMapper.Indexes` says that every key of the index holds, for every document,
precisely what the view's map function emits for the version last mapped
(`ViewMeanings` says it in terms of the map function and the stored entries alone, and
`CommandMeanings` says of every command what it stores and when it fails).
`ReadYourWrites` runs commits, mapper jobs and readers as interleaved atomic
steps; `Inv` is kept by each of the ten steps, and the guarantees at the end of
that module hold in every state of every run.

## Where the code differs from what it promises

Each of these follows the code, and the exact condition is proved.

* Escaping null bytes is documented to keep the sort order
  (`crates/bonsaidb-core/src/key.rs:1424-1426`). It does not when the first fields
  that differ are a value and the same value followed by a null byte:
  `("a",)` sorts after `("a\0",)`, and `("x", "")` after `("x", "\0")`
  (`EscapingMisordersOneField`, `EscapingMisordersEmptyField`). `CompositeOrderHolds`
  covers every other pair, `CompositeOrderDecided` decides the pairs in question by
  the null bytes that follow on each side and the byte after them, and
  `OneFieldOrder` states the whole answer for keys of one field. The condition of
  `CompositeOrderHolds` is the same with and without escaping; which of the other
  pairs are misordered is not (`AllowingSortsEmptyField`).
* `crates/bonsaidb-core/src/key.rs:1580-1581` says that the default is to refuse null
  bytes; the default of tuples and of the encoder is to escape them. Both policies
  are modelled.
* Unescaping an undoubled null byte reaches a `todo!`; modelled as the error
  `UnescapedNullPanic`, and reached exactly when a field that is read has a maximal run
  of null bytes of odd length (`UnescapingPanicsExactly`, with `UnescapingWitness`). Bytes in which a variable field reaches up to its own length, leaving no
  room for the delimiter, make the decoder's cursors cross; decoding panics on that
  iff the next field is variable too (`CrossingPanicsExactly`, with `CrossingWitness`).
* A type that declares a constant length may encode fewer bytes, as `Option<u32>`
  does for `None`. A key with such a field never decodes, whatever stands beside the
  field (`ShortFieldsFail`, with `ShortFieldWitness`).
* Signed integers are encoded as plain two's complement: the encoding keeps the
  order of two numbers exactly when they have the same sign (`SignedOrder`), and an
  automatic id is already taken exactly when -1 is the last key and 0 is in use, so
  that the insert conflicts (`SignedInsertConflicts`, with `SignedInsertWitness`). Documents stored under raw ids of another width make automatic
  ids fail when such an id is the last key (`AutomaticInsertExactly`).
* Revisions start again after a delete, so a header from before it can be accepted
  again (`StaleHeaderRevives`); without a delete it never is (`NoLostUpdates`).
* `read` with an empty buffer moves the cursor to the end of the file. `seek` relative
  to the cursor panics once the cursor is behind the last block of a non-empty file, and
  so does a target before the start.
* The check for the file in every append is meant to prevent orphaned blocks
  (`crates/bonsaidb-files/src/schema/block.rs:39-42`). It does once the file is gone
  (`AppendAfterDelete`), but a delete takes two transactions and an append between them
  is orphaned (`AppendDuringDelete`).
* A successful non-empty `write` accepts nothing exactly when no buffer has been
  allocated yet and a block is larger than a megabyte.

## Model

| member | source | states |
|---|---|---|
| `ReadYourWrites.ReadersSeeTheirWrites` | crates/bonsaidb-local/src/tasks.rs:55-109 | In every interleaving of commits, mapper jobs and readers: when a blocking reader has returned, by the cached status or through the retry loop, the index shows of every document exactly what the view's map emits for a version stored between the reader's entry and now |
| `ReadYourWrites.CurrentViewsAreRecomputations` | crates/bonsaidb-local/src/database.rs:306-413 | In every state of every run, views that are not lazy have nothing invalidated; every view with nothing invalidated shows exactly what its map emits for the committed documents; no two documents share a key of a unique view |
| `ReadYourWrites.EntriesAreCondensed` | crates/bonsaidb-local/src/views/mapper.rs:485-531 | In every state of every run, every entry of every view holds something, one mapping per document, and the view's reduction of the values of all its mappings in order |
| `ReadYourWrites.StaleIsInvalidated` | crates/bonsaidb-local/src/database.rs:381-413 | In every state of every run, a document about which an index is wrong at any key is in that view's invalidated set |
| `ReadYourWrites.RunKeeps` | crates/bonsaidb-local/src/tasks.rs:55-109 | The invariant over trees, history, cached statuses, jobs and readers holds in every state of every run |
| `ReadYourWrites.CommitKeeps` | crates/bonsaidb-local/src/database.rs:306-378 | A commit by any transaction, during any job, keeps the invariant |
| `ReadYourWrites.ListKeeps` | crates/bonsaidb-local/src/views/mapper.rs:43-101 | A job that read the transaction id first and lists the invalidated ids later still accounts for everything up to that id |
| `ReadYourWrites.ChunkKeeps` | crates/bonsaidb-local/src/views/mapper.rs:104-159 | Mapping a chunk and removing its ids from the invalidated set, though commits came between listing and mapping, keeps the invariant |
| `ReadYourWrites.FinishKeeps` | crates/bonsaidb-local/src/tasks.rs:171-182 | Publishing a finished job's transaction id never claims more than was mapped, even when an older job overwrites a newer status |
| `ReadYourWrites.CheckKeeps` | crates/bonsaidb-local/src/tasks.rs:66-82 | The fast path on the cached status returns only when the view is recent enough |
| `ReadYourWrites.ReceiveKeeps` | crates/bonsaidb-local/src/tasks.rs:84-105 | The retry loop returns only on a job whose transaction is recent enough, and otherwise asks again or reports the failure |
| `ReadYourWrites.OnlyOlderJobsRetry` | crates/bonsaidb-local/src/tasks.rs:84-105 | The retry loop makes progress: a job that was not there when the reader entered never sends it round again |
| `ReadYourWrites.FinishedJobsAreCached` | crates/bonsaidb-local/src/tasks.rs:68-82 | Once a job has finished, a reader that waits for nothing newer returns without another job |
| `ReadYourWrites.EmptyDatabaseReturns` | crates/bonsaidb-local/src/tasks.rs:66-67 | A reader of an empty database returns at once |
| `ReadYourWrites.ChunksAreCleared` | crates/bonsaidb-local/src/views/mapper.rs:104-159 | A mapped chunk, at most 100000 ids from the end of the job's list, leaves the invalidated set, and nothing else does |
| `ReadYourWrites.TransactionsAreCounted` | crates/bonsaidb-local/src/database.rs:1073-1079 | Every commit and every mapped chunk takes one transaction id, and nothing else does |
| `TransactionEngine.Database.ApplyTransaction` | crates/bonsaidb-local/src/database.rs:306-378 | The outcome is the specified one; after any error, also one detected after a write, the committed trees and the log are unchanged |
| `TransactionEngine.Database.ExecuteAll` | crates/bonsaidb-local/src/database.rs:318-357 | Executing in order with the index cache gives the results, trees and interned change log of the specification, and its first error |
| `TransactionEngine.Database.LogResult` | crates/bonsaidb-local/src/database.rs:329-355 | Interning through the cache agrees with the position of the name in the list, and fails only beyond 65536 collections |
| `TransactionEngine.ExecutingTransaction.ExecuteOperation` | crates/bonsaidb-local/src/database.rs:415-447 | Every command has its specified result and effect on documents and eager views |
| `CommandMeanings.InsertMeans` | crates/bonsaidb-local/src/database.rs:574-616 | An insert stores revision 0 with the digest of the contents and the contents, changes nothing else and reports that header; it fails iff the id is in use, with the stored header |
| `CommandMeanings.AutomaticInsertMeans` | crates/bonsaidb-local/src/database.rs:585-600 | An insert without id is one under the generated id, or fails as generating it does |
| `CommandMeanings.UpdateMeans` | crates/bonsaidb-local/src/database.rs:461-560 | An update with the current revision stores the new contents under the next revision and the new digest; equal digests change nothing; otherwise it is not found, a conflict with the stored header, or past the last revision |
| `CommandMeanings.OverwriteMeans` | crates/bonsaidb-local/src/database.rs:461-560 | An overwrite does the same whatever the revision, and stores a first revision where nothing is stored |
| `CommandMeanings.DeleteMeans` | crates/bonsaidb-local/src/database.rs:627-664 | A delete removes the document, and only it, iff it carries exactly the stored header |
| `CommandMeanings.CheckMeans` | crates/bonsaidb-local/src/database.rs:727-757 | A check succeeds iff the document is stored, with the revision asked for if there is one |
| `CommandMeanings.StaleDeleteConflicts` | crates/bonsaidb-local/src/database.rs:627-664 | After a changing update a delete with the old header conflicts, unless the document was deleted in between |
| `CommandMeanings.ExecuteExactly` | crates/bonsaidb-local/src/database.rs:675-717 | A command is carried out iff its own conditions hold and every view of the collection that is not lazy takes the changed document: its map succeeds and, in a unique view, no two documents then share a key |
| `CommandMeanings.LazyViewsWait` | crates/bonsaidb-local/src/database.rs:381-413 | A committed transaction leaves the index of a lazy view alone and invalidates exactly the documents of its collection that the results concern |
| `CommandMeanings.MapChunkExactly` | crates/bonsaidb-local/src/views/mapper.rs:104-159 | A chunk of a lazy view is mapped iff each of its documents can be; exactly its documents leave the invalidated set |
| `CommandMeanings.AppliedLogMeans` | crates/bonsaidb-core/src/transaction.rs:450-491 | The i-th result other than `Success` is the i-th entry of the change log: its collection, its id and whether it deleted |
| `CommandMeanings.TooLargeMeans` | crates/bonsaidb-local/src/database.rs:338-349 | A transaction is too large only if it works on more than 65536 collections |
| `CommandMeanings.UnknownCollection` | crates/bonsaidb-local/src/database.rs:257-268 | A transaction that names an unknown collection fails |
| `CommandMeanings.RunSnoc` | crates/bonsaidb-local/src/database.rs:306-378 | Runs of transactions are put together from single ones, each commits or leaves the trees as they were |
| `TransactionEngine.ExecutingTransaction.ExecuteInsert` | crates/bonsaidb-local/src/database.rs:574-616 | Replace-then-detect equals the specified insert, which fails with the stored header on a taken id |
| `TransactionEngine.ExecutingTransaction.ExecuteUpdate` | crates/bonsaidb-local/src/database.rs:461-560 | Updates need the current revision, overwrites do not; identical contents change nothing; a conflict reports the stored header |
| `TransactionEngine.ExecutingTransaction.ExecuteDelete` | crates/bonsaidb-local/src/database.rs:627-664 | Remove-then-compare equals the specified delete, which needs the exact current header |
| `TransactionEngine.ExecutingTransaction.ExecuteCheck` | crates/bonsaidb-local/src/database.rs:727-757 | Succeeds iff the document exists and, if a revision is given, has it; changes nothing |
| `TransactionEngine.ExecutingTransaction.UpdateEagerViews` | crates/bonsaidb-local/src/database.rs:675-717 | Every eager view of the collection has the document re-mapped, no other view changes, and the first failure is reported |
| `TransactionEngine.ExecutingTransaction.InvalidateChangedDocuments` | crates/bonsaidb-local/src/database.rs:381-413 | However collections interleave, grouping consecutive changes adds to every lazy view exactly the changed ids of its collection |
| `TransactionEngine.CollectChanges` | crates/bonsaidb-core/src/transaction.rs:485-512 | Draining the iterator yields the entries in order and ends early only at an entry whose collection index is out of range |
| `TransactionEngine.CommittedLogIterates` | crates/bonsaidb-core/src/transaction.rs:460-512 | For the log of a committed transaction the iteration yields exactly the results other than `Success`, in order, with the right collection |
| `Transactions.RunLogs` | crates/bonsaidb-local/src/database.rs:318-378 | The interned log, spelled out, is the list of logged results, its names are distinct and no index dangles |
| `TransactionProperties.RunIsFold` | crates/bonsaidb-local/src/database.rs:306-378 | What a transaction does to the documents, and what it reports, is the fold of the five commands; an error is the fold's error, or a failed map, a violated unique view or too many collections |
| `TransactionProperties.RunsAreFolds` | crates/bonsaidb-core/src/transaction.rs:10-20 | After any list of transactions, some failing, the documents are those of the fold over the committed ones |
| `TransactionProperties.StepFrame` | crates/bonsaidb-local/src/database.rs:461-757 | A command changes at most the document it logs, and logs it as deleted iff it is gone |
| `TransactionProperties.AppliedLogTells` | crates/bonsaidb-local/src/database.rs:318-378 | In the change log a committed transaction leaves: a document without entry is unchanged; the last entry about a document says deleted iff the document is absent afterwards |
| `TransactionProperties.RevisionCounts` | crates/bonsaidb-core/src/document/revision.rs:38-51 | Without a delete the revision counter rises by exactly one per write that changed the document |
| `TransactionProperties.NoLostUpdates` | crates/bonsaidb-local/src/database.rs:461-560 | Over any run of transactions of which some fail: when two committed updates carry the same header and the first changed the document, the document was deleted between them |
| `TransactionProperties.StaleUpdateConflicts` | crates/bonsaidb-local/src/database.rs:461-560 | After a changing update, an update with the same header conflicts and reports the current header, unless the document was deleted in between |
| `TransactionProperties.StaleHeaderRevives` | crates/bonsaidb-core/src/document/revision.rs:19-21 | Insert, update, delete, insert makes the very first header current again |
| `TransactionProperties.UnsignedFreshId` | crates/bonsaidb-core/src/schema/schematic.rs:306-318 | With unsigned keys, whatever ids are stored: a generated id is greater than every id in use; generating fails iff the last key has another width or is the type's maximum |
| `TransactionProperties.SignedFreshId` | crates/bonsaidb-core/src/schema/schematic.rs:306-318 | With signed keys, whatever ids are stored: a generated id is taken iff the last key is -1 and 0 is in use; generating fails iff the last key has another width or is the greatest number |
| `TransactionProperties.SignedInsertConflicts` | crates/bonsaidb-local/src/database.rs:585-616 | With signed keys an insert without id conflicts iff the last key is -1 and a document is stored under 0 |
| `TransactionProperties.SignedInsertWitness` | crates/bonsaidb-local/src/database.rs:585-616 | Beside documents 0 and -1 of one-byte keys, every insert without id conflicts with document 0 |
| `TransactionProperties.AutomaticInsertExactly` | crates/bonsaidb-local/src/database.rs:585-616 | In any state an insert without id into a collection with unsigned keys never conflicts, and fails iff the last key has another width or is the type's maximum |
| `TransactionProperties.AutomaticInsertSucceeds` | crates/bonsaidb-local/src/database.rs:585-616 | In every reachable state it fails only at the type's maximum, or at an id of another width that some earlier operation named |
| `ViewMaintenance.ApplyTracks` | crates/bonsaidb-local/src/database.rs:306-413 | A committed transaction keeps every view accounted for: eager ones equal the new documents, lazy ones have each changed document invalidated |
| `ViewMaintenance.ExecuteTracks` | crates/bonsaidb-local/src/database.rs:675-717 | One operation keeps an eager view equal to a recomputation |
| `ViewMaintenance.EagerRemap` | crates/bonsaidb-local/src/database.rs:675-717 | Re-mapping only the changed document turns a recomputation of the old documents into one of the new, and keeps unique views unambiguous |
| `ViewMaintenance.ChangedIsLogged` | crates/bonsaidb-local/src/database.rs:318-413 | Every document a transaction changed is among those it invalidates |
| `ViewMaintenance.MapChunkTracks` | crates/bonsaidb-local/src/views/mapper.rs:104-159 | A mapped chunk brings its documents to their current version and keeps every view accounted for |
| `ViewMapper.SaveIndexes` | crates/bonsaidb-local/src/views/mapper.rs:267-361 | From an index that is a recomputation, saving a batch gives the recomputation with the batch's documents at their current version, stale keys dropped, empty entries removed and reduced values up to date |
| `ViewMeanings.IndexesMeans` | crates/bonsaidb-local/src/views/mapper.rs:208-265 | That recomputation in the view's own terms: under each key, of each document, exactly the last value its map emits there, and the reduction of all values |
| `ViewMeanings.SaveExactly` | crates/bonsaidb-local/src/views/mapper.rs:328-361 | A batch is saved iff each of its documents can be mapped and, in a unique view, no two documents then share a key |
| `ViewMapper.SaveAllIndexes` | crates/bonsaidb-local/src/views/mapper.rs:363-395 | The same for any division into batches and any order of arrival |
| `ViewMapper.UniqueExactly` | crates/bonsaidb-local/src/views/mapper.rs:422-531 | A unique view rejects a batch iff two documents would emit one key afterwards |
| `ViewMapper.FindUpdated` | crates/bonsaidb-local/src/views/mapper.rs:422-531 | Under each key each document has its current contribution if it is in the batch and its former one if not |
| `MapperJob.MapDocuments` | crates/bonsaidb-local/src/views/mapper.rs:363-395 | Ascending ids, cut into batches of 1024, each fetched, mapped in its order of arrival and saved: the specified trees or the first batch's error; together the batches cover exactly the ids |
| `MapperJob.BatchShape` | crates/bonsaidb-local/src/views/mapper.rs:183 | Batches hold 1024 ids each, the last one what is left |
| `MapperJob.SaveBatch` | crates/bonsaidb-local/src/views/mapper.rs:176-361 | One batch through all three stages gives what the batch specification says key by key |
| `MapperJob.SaveMappings` | crates/bonsaidb-local/src/views/mapper.rs:328-361 | Document map, cleanup sets and compare-and-swap per key together compute the batch as specified |
| `MapperJob.GenerateBatch` | crates/bonsaidb-local/src/views/mapper.rs:176-206 | Fetching, sorting and walking ids and documents backwards pairs every id with its document, or with nothing iff there is none |
| `MapperJob.MapBatch` | crates/bonsaidb-local/src/views/mapper.rs:208-265 | From the received pairs: fails iff some document cannot be mapped; otherwise gathers per key what each document sends, in order of arrival, and per document its keys |
| `MapperJob.UpdateDocumentMap` | crates/bonsaidb-local/src/views/mapper.rs:267-299 | Records the new keys of every document and asks to clean exactly the keys it no longer emits |
| `MapperJob.UpdateViewEntries` | crates/bonsaidb-local/src/views/mapper.rs:301-326 | In any order of keys, every affected key is swapped once and every other key is left; fails iff some key violates uniqueness |
| `MapperJob.CompareSwapViewEntry` | crates/bonsaidb-local/src/views/mapper.rs:422-531 | One key: stale documents removed, new mappings replacing or appended, entry removed iff empty, value reduced anew, violation reported for unique views |
| `CompositeKeys.CodecRoundTrip` | crates/bonsaidb-core/src/key.rs:1669-1735 | For any mix of fixed and variable fields under each policy, decoding gives the fields back in order, the cursors never cross, and meet after the last field |
| `CompositeKeys.UnescapeEscape` | crates/bonsaidb-core/src/key.rs:1509-1564 | Unescaping undoes escaping on every byte string |
| `CompositeKeys.EscapeUnescape` | crates/bonsaidb-core/src/key.rs:1526-1564 | Whatever can be unescaped is the escaped form of the result |
| `CompositeKeys.UnescapeExactly` | crates/bonsaidb-core/src/key.rs:1526-1564 | The unescaped-null branch is reached iff some maximal run of null bytes has odd length |
| `CompositeKeys.LengthRoundTrip` | crates/bonsaidb-core/src/key.rs:1361-1383 | A length written in the trailer is read back from the end, whatever precedes it |
| `CompositeKeys.LengthShape` | crates/bonsaidb-core/src/key.rs:1361-1383 | Lengths take one, two or three bytes, only the first with its high bit clear |
| `CompositeKeys.EncodableMeans` | crates/bonsaidb-core/src/key.rs:1339-1356 | A variable field is encodable iff it fits in 65535 bytes, counting null bytes twice when they are escaped, and has no null byte when they are denied |
| `CompositeKeyFaults.ShortFieldsFail` | crates/bonsaidb-core/src/key.rs:2160-2181 | For tuples of any fields of which no fixed one is longer than its type declares: the key decodes to the end iff every fixed field has exactly the declared length; a short field is always noticed, though the decoder reads on into its neighbours |
| `CompositeKeyFaults.RoundTripExactly` | crates/bonsaidb-core/src/key.rs:38-40 | For tuples of any fields, too short or too long: the fields come back iff every fixed field has exactly the declared length |
| `CompositeKeyFaults.ShortFieldWitness` | crates/bonsaidb-core/src/key.rs:2173-2181 | The key of an absent optional four-byte integer does not decode |
| `CompositeKeyFaults.CursorsCrossExactly` | crates/bonsaidb-core/src/key.rs:1669-1724 | On arbitrary bytes one decoding step makes the cursors cross, and by one only, iff it reads a variable field that reaches up to its own length bytes and whose null bytes are doubled where they must be |
| `CompositeKeyFaults.CrossingPanicsExactly` | crates/bonsaidb-core/src/key.rs:1669-1724 | On arbitrary bytes, decoding a sequence of fields panics on crossed cursors iff two variable fields follow one another of which the first fills the gap between the cursors |
| `CompositeKeyFaults.CrossingWitness` | crates/bonsaidb-core/src/key.rs:1669-1724 | A single null byte, read as two variable fields, panics |
| `CompositeKeyFaults.UnescapingPanicsExactly` | crates/bonsaidb-core/src/key.rs:1526-1564 | On arbitrary bytes, decoding a sequence of fields reaches the `todo!` iff, behind fields that decode, some variable field that fits holds a maximal run of null bytes of odd length |
| `CompositeKeyFaults.UnescapingWitness` | crates/bonsaidb-core/src/key.rs:1526-1564 | The bytes 00 00 01, read as one variable field, reach it |
| `CompositeKeyFaults.EndOfInputExactly` | crates/bonsaidb-core/src/key.rs:1669-1724 | A field is out of bytes iff it does not fit between the cursors or its length cannot be read |
| `CompositeKeyFaults.FixedTuplesExactly` | crates/bonsaidb-core/src/key.rs:1727-1735 | Bytes decode to a tuple of fixed fields iff there are exactly as many as the fields take, and then are the fields one after another; fewer are an end of input, more are invalid data |
| `CompositeOrder.NullFreeOrder` | crates/bonsaidb-core/src/key.rs:1339-1383 | With null-free variable fields, byte order of the keys is tuple order, and equal keys come from equal tuples, under every policy |
| `CompositeOrder.DenyingOrder` | crates/bonsaidb-core/src/key.rs:1470-1490 | Denying null bytes keeps the sort order of all keys it accepts |
| `CompositeOrder.CompositeOrderHolds` | crates/bonsaidb-core/src/key.rs:1424-1426 | Keys sort like their tuples whenever the first differing fields are not a variable value and the same value followed by a null byte |
| `CompositeOrder.CompositeOrderDecided` | crates/bonsaidb-core/src/key.rs:1567-1578 | The remaining pairs, decided on the fields: count the null bytes that follow the shorter value's delimiter and those that follow the null byte extending it; keys sort like tuples iff the shorter side has nothing but null bytes, or more of them, or as many and then a smaller byte, or the same front and then a smaller remainder |
| `CompositeOrder.EscapingMisordersOneField` | crates/bonsaidb-core/src/key.rs:1424-1426 | The sort promise fails for `("a",)` and `("a\0",)` |
| `CompositeOrder.EscapingMisordersEmptyField` | crates/bonsaidb-core/src/key.rs:1424-1426 | It fails for `("x", "")` and `("x", "\0")` too, where a null byte follows on both sides |
| `CompositeOrder.AllowingSortsEmptyField` | crates/bonsaidb-core/src/key.rs:1492-1505 | Allowing null bytes sorts that pair correctly |
| `CompositeOrder.EscapingTies` | crates/bonsaidb-core/src/key.rs:1361-1383 | For `("x", "\0A")` and `("x\0", "A")` the field bytes are the same and only the length trailer, which misorders them, tells the keys apart |
| `CompositeOrder.OneFieldOrder` | crates/bonsaidb-core/src/key.rs:1424-1426 | For one-field keys, escaping keeps the order iff neither value is the other, non-empty, followed by a null byte |
| `CompositeKeyCodec.UnescapeInPlace` | crates/bonsaidb-core/src/key.rs:1526-1564 | The in-place removal loop terminates and inverts the doubling of null bytes, failing where one is not doubled |
| `CompositeKeyCodec.HandleNulls` | crates/bonsaidb-core/src/key.rs:1470-1523 | Denying refuses exactly what has a null byte, allowing changes nothing, escaping adds a byte per null byte |
| `CompositeKeyCodec.CompositeKeyEncoder.Encode` | crates/bonsaidb-core/src/key.rs:1339-1356 | Accepts a field iff its handled form is encodable within 65535 bytes; otherwise the encoder is unchanged and the cause is reported |
| `CompositeKeyCodec.CompositeKeyEncoder.Finish` | crates/bonsaidb-core/src/key.rs:1361-1383 | The key is the fields' bytes followed by the lengths, last field's first |
| `CompositeKeyCodec.CompositeKeyDecoder.Decode` | crates/bonsaidb-core/src/key.rs:1669-1724 | Value, error and both cursors are the specified ones on any bytes |
| `CompositeKeyCodec.EncodeTuple` | crates/bonsaidb-core/src/key.rs:1256-1262 | A tuple is encoded iff each of its fields is encodable |
| `CompositeKeyCodec.DecodeTuple` | crates/bonsaidb-core/src/key.rs:1228-1234 | Decodes by the types of the fields and insists that nothing is left; panics on crossed cursors and on undoubled null bytes exactly in the cases above |
| `CompositeKeyCodec.RoundTripTuple` | crates/bonsaidb-core/src/key.rs:1221-1262 | Encoding and decoding gives the tuple back iff every field is encodable and every fixed field has its declared length; with a field that is too short there is no result at all |
| `ByteStrings.UnsignedOrder` | crates/bonsaidb-core/src/key.rs:2352-2386 | Byte order of big-endian numbers of one width is numeric order |
| `ByteStrings.BigEndianRoundTrip` | crates/bonsaidb-core/src/key.rs:2352-2386 | Decoding an encoded number gives it back |
| `ByteStrings.SignedOrder` | crates/bonsaidb-core/src/key.rs:2352-2386 | Two's complement keeps the order of two numbers iff they have the same sign |
| `PrefixRanges.NextByteSequence` | crates/bonsaidb-core/src/key.rs:598-610 | Gives no bound iff every byte is 0xFF; from the start up to the bound lie exactly the strings with the prefix |
| `PrefixRanges.ToPrefixRange` | crates/bonsaidb-core/src/key.rs:756-770 | A key is in the range iff it starts with the prefix, also for the empty prefix |
| `PrefixRanges.ToStringPrefixRange` | crates/bonsaidb-core/src/key.rs:1040-1102 | The encoding of a string is in the range iff the string starts with the prefix, over the surrogate gap and trailing U+10FFFF |
| `PrefixRanges.NextString` | crates/bonsaidb-core/src/key.rs:1040-1102 | The spliced buffer is always well-formed UTF-8, so no `unwrap` fails; there is no bound iff every character is U+10FFFF |
| `PrefixRanges.NextStringSequence` | crates/bonsaidb-utils/src/lib.rs:3-25 | The same bound, or the empty string when there is none |
| `PrefixRanges.Utf8Order` | crates/bonsaidb-core/src/key.rs:1040-1102 | UTF-8 keeps the order of code points (section 1 of RFC 3629) |
| `PrefixRanges.Utf8Table` | crates/bonsaidb-core/src/key.rs:1040-1102 | Encodings have the lengths and marks of section 3 of RFC 3629, and the bits behind the marks give the character back |
| `KeyDescriptions.DescribeReconstructs` | crates/bonsaidb-core/src/key.rs:445-495 | The visits of any key type leave an empty stack and exactly its description, attributes at the right node |
| `KeyDescriptions.RunVisits` | crates/bonsaidb-core/src/key.rs:452-468 | Within any surrounding composites, the visits of a subtree amount to recording its description |
| `KeyDescriptions.KeyDescriber.Visit` | crates/bonsaidb-core/src/key.rs:470-495 | Panics iff the visit does not fit the state, and otherwise makes the specified step |
| `KeyDescriptions.KeyDescriber.RecordDescription` | crates/bonsaidb-core/src/key.rs:452-468 | Records into the innermost composite and closes every composite this completes |
| `KeyDescriptions.Describe` | crates/bonsaidb-core/src/key.rs:445-495 | The describer returns a description that matches the type: the same kinds at the same places, on each node exactly the attributes given there with the values given last |
| `FileContents.Contents.Read` | crates/bonsaidb-files/src/direct.rs:1016-1028 | Returns the file's bytes at the cursor, as many as fit up to the end of the block, and advances by their number; 0 iff at the end; never a stale cached block; an empty buffer skips to the end; a failure leaves a non-empty buffer's bytes and the cursor alone |
| `FileContents.Contents.NonBlockingRead` | crates/bonsaidb-files/src/direct.rs:970-998 | The same from loaded blocks only; asks for blocks only with the cursor in front of an unloaded one, and makes progress |
| `FileContents.Contents.NonBlockingReadBlock` | crates/bonsaidb-files/src/direct.rs:944-968 | Hands out the rest of the current block iff it is the first loaded one, discarding one stale block otherwise |
| `FileContents.Contents.Next` | crates/bonsaidb-files/src/direct.rs:1143-1160 | Yields the bytes from the cursor to the end of the current block, and nothing exactly behind the last block, where no query can fail |
| `FileContents.Contents.Seek` | crates/bonsaidb-files/src/direct.rs:1032-1079 | Moves to the target, or to the end if beyond it; panics exactly for a target before the start and for a relative seek behind the last block |
| `FileContents.Contents.LoadBlocks` | crates/bonsaidb-files/src/direct.rs:763-778 | After a successful query the loaded blocks are the window from the current block on, in the order of the file; after a failed one nothing is loaded |
| `FileContents.LoadWindow` | crates/bonsaidb-files/src/direct.rs:763-778 | The window comes back as consecutive blocks from the current one on, although the answer is ordered by id and numbered by position |
| `FileContents.Load` | crates/bonsaidb-files/src/schema/block.rs:88-107 | Finds exactly the stored blocks among those asked for, in any order, and lists them by ascending ids |
| `FileContents.AnswerInOrder` | crates/bonsaidb-files/src/direct.rs:763-778 | Listing by ascending ids is listing in the order of the blocks, because the ids of a file ascend |
| `FileContents.WindowSize` | crates/bonsaidb-files/src/direct.rs:894-911 | The window is non-empty and the longest run within the buffer size, or one block if that alone exceeds it |
| `FileContents.NextIds` | crates/bonsaidb-files/src/direct.rs:894-911 | The ids of the window, contiguous from the current block |
| `FileContents.Contents.IntoVec` | crates/bonsaidb-files/src/direct.rs:750-754 | With any buffer sizes, reading to the end gives the rest of the file, unless a query fails |
| `FileContents.Contents.CollectBlocks` | crates/bonsaidb-files/src/direct.rs:1143-1160 | Iterating to the end gives the rest of the file, unless a query fails |
| `FileWriter.BufferedAppend.Write` | crates/bonsaidb-files/src/direct.rs:1225-1243 | Stored and buffered bytes stay the initial and the accepted ones; accepts all the data or fills the buffer; flushes only a full buffer; accepts nothing of a non-empty write iff no buffer is allocated and a block exceeds a megabyte |
| `FileWriter.BufferedAppend.Flush` | crates/bonsaidb-files/src/direct.rs:1245-1251 | Stores everything accepted, or fails and keeps the buffer |
| `FileWriter.BufferedAppend.Drop` | crates/bonsaidb-files/src/direct.rs:1254-1260 | Dropping stores everything accepted, or leaves the file as it is |
| `FileWriter.BufferedAppend.SetBufferSize` | crates/bonsaidb-files/src/direct.rs:1213-1219 | Flushes before replacing the buffer; loses nothing, also on failure |
| `FileWriter.DefaultCapacity` | crates/bonsaidb-files/src/direct.rs:1226-1231 | The largest multiple of the block size within a megabyte |
| `FileWriter.File.Append` | crates/bonsaidb-files/src/schema/block.rs:31-56 | Appends all the data behind the file's contents in full blocks and a last shorter one, or nothing if the file is gone or the transaction fails; no stored block of any file changes |
| `FileWriter.File.Delete` | crates/bonsaidb-files/src/direct.rs:175-179 | Removes the file's blocks and no others, then its document; what a failure of either leaves |
| `FileWriter.AppendAfterDelete` | crates/bonsaidb-files/src/schema/block.rs:39-42 | Once a file is deleted no append leaves blocks behind |
| `FileWriter.AppendDuringDelete` | crates/bonsaidb-files/src/direct.rs:175-179 | An append between the two transactions of a delete succeeds and leaves its blocks without a file |
| `FileWriter.Chunks` | crates/bonsaidb-files/src/schema/block.rs:43-51 | Chunks join to the data; all are full but the last, none is empty |
| `FileWriter.ForFile` | crates/bonsaidb-files/src/schema/block.rs:134-158 | Whatever order the view lists them in, the file's blocks come out by ascending id, every offset the total length of the blocks before it |
| `BlockFiles.StoredRoundTrip` | crates/bonsaidb-files/src/schema/block.rs:43-51 | A stored block is its contents, four bytes of file id and eight of timestamp; it loads to its contents and is listed under its file |
| `FileWriter.WriteThenRead` | crates/bonsaidb-files/src/direct.rs:1207-1262 | What a buffered writer accepted and flushed is what reading the file gives back; if a flush or query fails, the file holds what it held and a prefix of the data |
| `FileWriter.WriteAll` | crates/bonsaidb-files/src/direct.rs:1225-1243 | Repeated writes accept a prefix of the data, all of it unless a flush fails or a write accepts nothing |
| `PersistenceScheduler.MakeLazy` | crates/bonsaidb-local/src/config.rs:259-266 | The rules sorted by changes, none lost or invented, rules with equal changes in their given order |
| `PersistenceScheduler.DurationUntilNextCommit` | crates/bonsaidb-local/src/config.rs:279-307 | The least saturating remaining time over all rules that apply, despite the early stops |
| `PersistenceScheduler.DeadlineMeans` | crates/bonsaidb-local/src/config.rs:279-307 | Rule by rule: the deadline is as far away as some rule with at most that many changes asks for, and no further than any such rule does |
| `PersistenceScheduler.ShouldCommit` | crates/bonsaidb-local/src/config.rs:270-277 | True iff there are changes and some applying rule has waited long enough |
| `PersistenceScheduler.DeadlineExact` | crates/bonsaidb-local/src/config.rs:270-307 | A commit is due at every time from the deadline on and at none before it |
| `PersistenceScheduler.DueMonotone` | crates/bonsaidb-local/src/config.rs:270-307 | More changes or more time never make a commit less due |
| `PersistenceScheduler.DeadlineOrderFree` | crates/bonsaidb-local/src/config.rs:259-307 | The deadline does not depend on the order in which rules were given |

## Left out

Foreign code and parameters:

- The nebari trees are maps with commit and abort; document and view serialization is the identity; compression, encryption and the vault are absent.
- Content digests and the map and reduce functions are parameters of the schema. Map may fail for a document; reduce is total.
- Clocks, the database behind a file and its failures are parameters (`elapsed`, `outages`, `fails`).

Concurrency:

- Mapping on several threads is modelled by leaving the order in which a batch's results arrive open (`schedule`) and the division into batches open (`batches`).
- `MapperJob.MapDocuments`: a failing stage does not hang here, while in the source the bounded channels can block a sender forever once a later stage of a request with three or more batches has failed; and the first failing batch decides the error here, while in the source a later batch's map error hides an earlier batch's uniqueness error.
- Transaction ids are taken in the order of commits, which is an assumption about nebari.
- The job manager's queue and its deduplication of jobs are replaced by letting any number of jobs work on one view at once, which allows more runs than the source.
- The status tables and the retry loop of `tasks.rs` are steps of a state machine on values rather than a class under a lock; the lock is the atomicity of a step.
- Readers that do not block until the view is updated get no guarantee, in the source as here.
- The integrity scanner, view version changes and the compactor are not modelled; views start empty beside an empty database.
- Asynchronous `Contents` and `AsyncBufferedAppend` carry the same data invariants as the blocking ones.

Numbers and allocations:

- `FileContents.Contents.Seek`: 64-bit overflow of offsets is not modelled; positions are unbounded. For a target before the start counted from the end the model panics, which the source does only in builds with overflow checks.
- `CompositeKeyCodec.CompositeKeyDecoder.Decode`: the overflow of the shift for a length with ten or more bytes, and of its addition to the offset, are not modelled, because what they do depends on the build profile; lengths are unbounded.
- `KeyDescriptions.DescribeReconstructs`: composites have at least one field, since a composite without fields is never closed; the capacity of the field list is the declared count.
- `FileWriter.BufferedAppend.Write`: the allocation has exactly the requested capacity.
- `FileWriter.File.Append`: a block size of zero, for which the source panics, is excluded.
- The overflow of the 32-bit revision counter, a panic in the source, is the error `RevisionOverflow`.

Not modelled because it would only add easy members, or is plumbing:

- Consuming iteration of `DocumentChanges`, which repeats the borrowing one.
- Integers encoded by `ordered_varint`, `EnumKey`, floating-point numbers, and the constant length of nested tuples.
- View queries, their limits and orders, and the serialization of query ranges.
- Permission checks, sessions, pub/sub, the client and the network protocol.
- File metadata, truncation, directories, builders, the command line, S3 key storage and benchmarks.
