/** Appending to block files, directly and through `BufferedAppend`. */
module FileWriter {
  import opened ByteStrings
  import opened BlockFiles
  import opened FileContents

  const ONE_MEGABYTE: nat := 1024 * 1024

  function Concat(chunks: seq<Bytes>): Bytes {
    if chunks == [] then [] else Concat(chunks[..|chunks| - 1]) + chunks[|chunks| - 1]
  }

  lemma ConcatNext(chunks: seq<Bytes>, i: nat)
    requires i < |chunks|
    ensures Concat(chunks[..i + 1]) == Concat(chunks[..i]) + chunks[i]
  {
    assert chunks[..i + 1][..i] == chunks[..i];
  }

  lemma Associate(a: Bytes, b: Bytes, c: Bytes)
    ensures a + (b + c) == (a + b) + c
  {
  }

  lemma ExtendPrefix(data: Bytes, n: nat, count: nat)
    requires n <= |data| && count <= |data[n..]|
    ensures data[..n] + data[n..][..count] == data[..n + count]
  {
  }

  // `data.chunks(size)`: every chunk is full but the last, which is not empty.
  method Chunks(data: Bytes, size: nat) returns (chunks: seq<Bytes>)
    requires size > 0
    ensures Concat(chunks) == data
    ensures forall i :: 0 <= i < |chunks| ==> 0 < |chunks[i]| <= size && (i < |chunks| - 1 ==> |chunks[i]| == size)
  {
    chunks := [];
    var done := 0;
    while done < |data|
      invariant done <= |data|
      invariant Concat(chunks) == data[..done]
      invariant forall i :: 0 <= i < |chunks| ==> 0 < |chunks[i]| <= size
      invariant forall i :: 0 <= i < |chunks| ==> i < |chunks| - 1 || done < |data| ==> |chunks[i]| == size
    {
      var end := if done + size < |data| then done + size else |data|;
      var chunk := data[done..end];
      assert (chunks + [chunk])[..|chunks|] == chunks;
      assert data[..done] + chunk == data[..end];
      chunks := chunks + [chunk];
      done := end;
    }
    assert data[..|data|] == data;
  }

  // Block `id` of the file, as the view by file maps it.
  ghost predicate MapsTo(store: Store, fileId: nat, e: (nat, nat)) {
    e.0 in store && FileOf(store[e.0]) == Some(fileId) && e.1 == |Loaded(store[e.0])|
  }

  // The blocks of one file with their lengths.
  ghost predicate Mapped(entries: seq<(nat, nat)>, store: Store, fileId: nat) {
    forall e: (nat, nat) :: MapsTo(store, fileId, e) <==> e in entries
  }

  // Blocks were added behind those that were there: full ones, except that the last may be shorter.
  ghost predicate Grows(before: seq<(nat, nat)>, after: seq<(nat, nat)>, blockSize: nat) {
    && before <= after
    && forall i :: |before| <= i < |after| ==>
         0 < after[i].1 <= blockSize && (i < |after| - 1 ==> after[i].1 == blockSize)
  }

  // The blocks added are the chunks.
  ghost predicate AddsBlocks(before: seq<(nat, nat)>, after: seq<(nat, nat)>, chunks: seq<Bytes>) {
    && before <= after && |after| == |before| + |chunks|
    && forall i :: |before| <= i < |after| ==> after[i].1 == |chunks[i - |before|]|
  }

  lemma AddsOneMore(before: seq<(nat, nat)>, previous: seq<(nat, nat)>, after: seq<(nat, nat)>, chunks: seq<Bytes>,
                    i: nat)
    requires i < |chunks| && AddsBlocks(before, previous, chunks[..i])
    requires |after| == |previous| + 1 && after[..|previous|] == previous && after[|previous|].1 == |chunks[i]|
    ensures AddsBlocks(before, after, chunks[..i + 1])
  {
    forall j | |before| <= j < |after| ensures after[j].1 == |chunks[..i + 1][j - |before|]| {
      if j < |previous| {
        assert after[j] == after[..|previous|][j];
      }
    }
    assert before == previous[..|before|] == after[..|before|];
  }

  // A file: its blocks, among the stored blocks of all files.
  class File {
    const blockSize: nat
    const fileId: nat
    // Whether the document of the file itself is stored.
    var present: bool
    var store: Store
    // Greater than every block id in use: the next automatic id.
    var nextId: nat
    // The file's blocks in the order of their ids.
    ghost var entries: seq<(nat, nat)>

    ghost predicate Valid()
      reads this
    {
      && blockSize > 0 && fileId < Capacity(4)
      && (forall id :: id in store ==> id < nextId)
      && Mapped(entries, store, fileId) && Ascending(entries)
      && ValidFile(Listed(entries), store)
    }

    ghost function Contents(): Bytes
      reads this
    {
      Flat(Listed(entries), store)
    }

    constructor (blockSize: nat, fileId: nat)
      requires blockSize > 0 && fileId < Capacity(4)
      ensures Valid() && this.blockSize == blockSize && this.fileId == fileId && present && Contents() == []
    {
      this.blockSize, this.fileId, present := blockSize, fileId, true;
      store, entries, nextId := map[], [], 1;
    }

    // `append`: one transaction checks that the file is still there and inserts all chunks, or fails and changes
    // nothing. Stored blocks never change.
    method Append(data: Bytes, fails: bool) returns (ok: bool)
      requires Valid()
      modifies this
      ensures Valid()
      ensures ok <==> data == [] || (present && !fails)
      ensures present == old(present) && Contents() == old(Contents()) + if ok then data else []
      ensures forall id :: id in old(store) ==> id in store && store[id] == old(store)[id]
      ensures Grows(old(entries), entries, blockSize)
    {
      if data == [] {
        return true;
      }
      if !present || fails {
        return false;
      }
      var chunks := Chunks(data, blockSize);
      InsertBlocks(chunks);
      ok := true;
    }

    // The chunks in order, each as a block of its own.
    method InsertBlocks(chunks: seq<Bytes>)
      requires Valid()
      modifies this
      ensures Valid() && present == old(present) && Contents() == old(Contents()) + Concat(chunks)
      ensures forall id :: id in old(store) ==> id in store && store[id] == old(store)[id]
      ensures AddsBlocks(old(entries), entries, chunks)
    {
      var now: nat :| now < Capacity(8);
      ghost var before, blocks, listed := Contents(), store, entries;
      for i := 0 to |chunks|
        invariant Valid() && present == old(present)
        invariant Contents() == before + Concat(chunks[..i])
        invariant forall id :: id in blocks ==> id in store && store[id] == blocks[id]
        invariant AddsBlocks(listed, entries, chunks[..i])
      {
        ConcatNext(chunks, i);
        Associate(before, Concat(chunks[..i]), chunks[i]);
        ghost var previous := entries;
        InsertBlock(chunks[i], now);
        AddsOneMore(listed, previous, entries, chunks, i);
      }
      assert chunks[..|chunks|] == chunks;
    }

    // One insert with an automatic id.
    method InsertBlock(chunk: Bytes, now: nat)
      requires Valid() && now < Capacity(8)
      modifies this
      ensures Valid() && present == old(present) && Contents() == old(Contents()) + chunk
      ensures forall id :: id in old(store) ==> id in store && store[id] == old(store)[id]
      ensures |entries| == |old(entries)| + 1 && entries[..|old(entries)|] == old(entries)
      ensures entries[|old(entries)|].1 == |chunk|
    {
      var raw := Stored(chunk, fileId, now);
      StoredRoundTrip(chunk, fileId, now);
      AppendedBlock(entries, store, nextId, chunk, raw);
      MappedAppend(entries, store, fileId, nextId, raw);
      store := store[nextId := raw];
      entries := entries + [(nextId, |chunk|)];
      nextId := nextId + 1;
    }

    // `delete_for_file`: removes the blocks of the file and no others.
    method DeleteBlocks(fails: bool) returns (ok: bool)
      requires Valid()
      modifies this
      ensures Valid() && ok == !fails && present == old(present)
      ensures Contents() == if ok then [] else old(Contents())
      ensures forall id :: id in old(store) && FileOf(old(store)[id]) != Some(fileId) ==>
        id in store && store[id] == old(store)[id]
    {
      if fails {
        return false;
      }
      store := map id | id in store && FileOf(store[id]) != Some(fileId) :: store[id];
      entries := [];
      ok := true;
    }

    // The document of the file goes in a transaction of its own.
    method DeleteDocument(fails: bool) returns (ok: bool)
      requires Valid()
      modifies this
      ensures Valid() && ok == (old(present) && !fails) && present == (old(present) && !ok)
      ensures store == old(store) && Contents() == old(Contents())
    {
      ok := present && !fails;
      if ok {
        present := false;
      }
    }

    // `delete`: first the blocks, then the document.
    method Delete(blocksFail: bool, documentFails: bool) returns (ok: bool)
      requires Valid()
      modifies this
      ensures Valid()
      ensures ok <==> old(present) && !blocksFail && !documentFails
      ensures ok ==> !present && Contents() == []
      ensures !ok ==> present == old(present) && Contents() == if blocksFail then old(Contents()) else []
    {
      ok := DeleteBlocks(blocksFail);
      if ok {
        ok := DeleteDocument(documentFails);
      }
    }

    // `contents`: a reader over the blocks as they are now.
    method Open(bufferSize: nat) returns (r: FileContents.Contents)
      requires Valid()
      ensures fresh(r) && r.Valid() && r.Position() == 0 && r.Data() == Contents()
    {
      var blocks := ForFile(store, fileId, entries);
      r := new FileContents.Contents(blocks, store, bufferSize);
    }
  }

  // The check in `append` prevents orphaned blocks only if the file is gone already: an append between the two
  // transactions of a delete succeeds, and its blocks stay behind without a file.
  method AppendDuringDelete(file: File, data: Bytes) returns (appended: bool, deleted: bool)
    requires file.Valid() && file.present
    modifies file
    ensures file.Valid() && appended && deleted && !file.present && file.Contents() == data
  {
    var _ := file.DeleteBlocks(false);
    appended := file.Append(data, false);
    deleted := file.DeleteDocument(false);
  }

  // Once the file is gone no append succeeds, so that no blocks are orphaned from then on.
  method AppendAfterDelete(file: File, data: Bytes, fails: bool) returns (appended: bool)
    requires file.Valid() && file.present && data != []
    modifies file
    ensures file.Valid() && !appended && !file.present && file.Contents() == []
  {
    var _ := file.Delete(false, false);
    appended := file.Append(data, fails);
  }

  lemma MappedAppend(entries: seq<(nat, nat)>, store: Store, fileId: nat, id: nat, raw: Bytes)
    requires Mapped(entries, store, fileId) && Ascending(entries)
    requires FileOf(raw) == Some(fileId) && forall x :: x in store ==> x < id
    ensures Mapped(entries + [(id, |Loaded(raw)|)], store[id := raw], fileId)
    ensures Ascending(entries + [(id, |Loaded(raw)|)])
  {
    var last := (id, |Loaded(raw)|);
    forall e: (nat, nat) ensures MapsTo(store[id := raw], fileId, e) <==> e in entries + [last] {
      assert MapsTo(store, fileId, e) <==> e in entries;
    }
    forall i | 0 <= i < |entries| ensures entries[i].0 < id {
      assert entries[i] in entries;
      assert MapsTo(store, fileId, entries[i]);
    }
  }

  // ---------------------------------------------------------------- the block list of a file

  // The block list of a file: every offset is the total length before it.
  ghost function Listed(entries: seq<(nat, nat)>): (r: seq<BlockInfo>)
    ensures |r| == |entries|
  {
    seq(|entries|, i requires 0 <= i < |entries| => BlockInfo(Total(entries, i), entries[i].1, entries[i].0))
  }

  function Total(entries: seq<(nat, nat)>, i: nat): nat
    requires i <= |entries|
  {
    if i == 0 then 0 else Total(entries, i - 1) + entries[i - 1].1
  }

  // `for_file`: queries the view, sorts by id and adds up the offsets. `entries` is what that amounts to.
  method ForFile(store: Store, fileId: nat, ghost entries: seq<(nat, nat)>) returns (blocks: seq<BlockInfo>)
    requires Mapped(entries, store, fileId) && Ascending(entries)
    ensures blocks == Listed(entries)
  {
    var found := QueryByFile(store, fileId);
    var sorted := SortById(found);
    SameAscending(sorted, entries);
    blocks := [];
    var offset := 0;
    for i := 0 to |sorted|
      invariant |blocks| == i && offset == Total(entries, i)
      invariant forall j :: 0 <= j < i ==> blocks[j] == Listed(entries)[j]
    {
      blocks := blocks + [BlockInfo(offset, sorted[i].1, sorted[i].0)];
      offset := offset + sorted[i].1;
    }
  }

  // The view's mappings for one file, in no particular order.
  method QueryByFile(store: Store, fileId: nat) returns (found: seq<(nat, nat)>)
    ensures Mapped(found, store, fileId) && DistinctIds(found)
  {
    found := [];
    var rest := store.Keys;
    while rest != {}
      invariant rest <= store.Keys
      invariant forall e: (nat, nat) :: e in found <==>
        e.0 in store.Keys - rest && FileOf(store[e.0]) == Some(fileId) && e.1 == |Loaded(store[e.0])|
      invariant DistinctIds(found)
      decreases rest
    {
      var id :| id in rest;
      if FileOf(store[id]) == Some(fileId) {
        assert forall e :: e in found ==> e.0 != id;
        found := found + [(id, |Loaded(store[id])|)];
      }
      rest := rest - {id};
    }
  }

  lemma {:induction false} ListedEnd(entries: seq<(nat, nat)>, i: nat)
    requires i <= |entries|
    ensures EndOf(Listed(entries), i) == Total(entries, i)
  {
    if i > 0 {
      ListedEnd(entries, i - 1);
    }
  }

  lemma {:induction false} TotalPrefix(entries: seq<(nat, nat)>, more: seq<(nat, nat)>, i: nat)
    requires i <= |entries|
    ensures Total(entries + more, i) == Total(entries, i)
  {
    if i > 0 {
      TotalPrefix(entries, more, i - 1);
    }
  }

  // The first `n` blocks keep their shape and contents when a block with a new id is added.
  lemma {:induction false} StillValid(entries: seq<(nat, nat)>, store: Store, id: nat, chunk: Bytes, raw: Bytes, n: nat)
    requires n <= |entries| && ValidUpTo(Listed(entries), store, n)
    requires id !in store
    ensures
      var entries', store' := entries + [(id, |chunk|)], store[id := raw];
      && ValidUpTo(Listed(entries'), store', n)
      && Joined(Listed(entries'), store', n) == Joined(Listed(entries), store, n)
  {
    if n > 0 {
      var entries' := entries + [(id, |chunk|)];
      StillValid(entries, store, id, chunk, raw, n - 1);
      TotalPrefix(entries, [(id, |chunk|)], n - 1);
      ListedEnd(entries, n - 1);
      ListedEnd(entries', n - 1);
      assert Listed(entries')[n - 1] == Listed(entries)[n - 1];
      assert n > 1 ==> Listed(entries')[n - 2].id == Listed(entries)[n - 2].id;
      assert BlockOk(Listed(entries), store, n - 1);
    }
  }

  lemma AppendedBlock(entries: seq<(nat, nat)>, store: Store, id: nat, chunk: Bytes, raw: Bytes)
    requires ValidFile(Listed(entries), store)
    requires Loaded(raw) == chunk && forall x :: x in store ==> x < id
    ensures
      var entries', store' := entries + [(id, |chunk|)], store[id := raw];
      && ValidFile(Listed(entries'), store')
      && Flat(Listed(entries'), store') == Flat(Listed(entries), store) + chunk
  {
    var entries', store' := entries + [(id, |chunk|)], store[id := raw];
    var n := |entries|;
    StillValid(entries, store, id, chunk, raw, n);
    ListedEnd(entries', n);
    if n > 0 {
      ValidBlock(Listed(entries), store, n, n - 1);
      assert Listed(entries')[n - 1].id == Listed(entries)[n - 1].id;
    }
    assert BlockOk(Listed(entries'), store', n);
  }

  // `BufferedAppend`. `capacity` stands for the capacity of the buffer's allocation.
  class BufferedAppend {
    const file: File
    var buffer: Bytes
    var capacity: nat
    // What the file held at the start, and everything accepted since.
    ghost const initial: Bytes
    ghost var accepted: Bytes

    // Nothing is lost or duplicated: stored bytes and buffered bytes are the initial and the accepted ones.
    ghost predicate Valid()
      reads this, file
    {
      && file.Valid() && |buffer| <= capacity
      && initial <= file.Contents() && file.Contents() + buffer == initial + accepted
    }

    constructor (file: File)
      requires file.Valid()
      ensures Valid() && this.file == file && buffer == [] && accepted == [] && capacity == 0
      ensures initial == file.Contents()
    {
      this.file := file;
      buffer, capacity := [], 0;
      initial, accepted := file.Contents(), [];
    }

    // A failed flush keeps the buffer.
    method Flush(fails: bool) returns (r: Result<(), IoError>)
      requires Valid()
      modifies this`buffer, file
      ensures Valid()
      ensures r.Ok? ==> buffer == [] && file.Contents() == initial + accepted
      ensures r.Err? ==> buffer == old(buffer) && file.Contents() == old(file.Contents())
      ensures file.present == old(file.present) && (r.Ok? <==> old(buffer) == [] || (file.present && !fails))
    {
      var ok := file.Append(buffer, fails);
      if !ok {
        return Err(DatabaseError);
      }
      buffer := [];
      r := Ok(());
    }

    // Dropping the writer flushes it once more and forgets a failure.
    method Drop(fails: bool)
      requires Valid()
      modifies this`buffer, file
      ensures Valid() && file.present == old(file.present)
      ensures file.Contents() == if file.present && !fails then initial + accepted else old(file.Contents())
    {
      var _ := Flush(fails);
    }

    method SetBufferSize(size: nat, fails: bool) returns (r: Result<(), IoError>)
      requires Valid()
      modifies this`buffer, this`capacity, file
      ensures Valid()
      ensures r.Ok? ==> buffer == [] && capacity == size && file.Contents() == initial + accepted
      ensures r.Err? ==> buffer == old(buffer) && capacity == old(capacity)
      ensures file.present == old(file.present) && (file.present && !fails ==> r.Ok?)
    {
      if capacity > 0 {
        var flushed := Flush(fails);
        if flushed.Err? {
          return flushed;
        }
      }
      buffer, capacity := [], size;
      r := Ok(());
    }

    // Accepts as much as the buffer has room for, flushing a full buffer first. A non-empty write that succeeds
    // accepts nothing exactly when no buffer was allocated and a block is larger than a megabyte.
    method Write(data: Bytes, fails: bool) returns (r: Result<nat, IoError>)
      requires Valid()
      modifies this, file
      ensures Valid()
      ensures r.Ok? ==> r.value <= |data| && accepted == old(accepted) + data[..r.value]
      ensures r.Err? ==> accepted == old(accepted) && buffer == old(buffer) && file.Contents() == old(file.Contents())
      ensures r.Ok? && data != [] ==> (r.value == 0 <==> old(capacity) == 0 && file.blockSize > ONE_MEGABYTE)
      ensures r.Ok? ==> r.value == |data| || |buffer| == capacity
      ensures old(capacity) > 0 ==> capacity == old(capacity)
      ensures old(capacity) == 0 ==> capacity <= 1048576 < capacity + file.blockSize && capacity % file.blockSize == 0
      ensures old(capacity) == 0 || |old(buffer)| < old(capacity) ==> file.Contents() == old(file.Contents())
      ensures file.present == old(file.present) && (file.present && !fails ==> r.Ok?)
    {
      if capacity == 0 {
        capacity := DefaultCapacity(file.blockSize);
      } else if capacity == |buffer| {
        var flushed := Flush(fails);
        if flushed.Err? {
          return Err(flushed.error);
        }
      }
      if data == [] {
        return Ok(0);
      }
      var count := Min(|data|, capacity - |buffer|);
      Accept(data[..count]);
      r := Ok(count);
    }

    method Accept(data: Bytes)
      requires Valid() && |buffer| + |data| <= capacity
      modifies this`buffer, this`accepted
      ensures Valid() && buffer == old(buffer) + data && accepted == old(accepted) + data
    {
      Associate(file.Contents(), buffer, data);
      Associate(initial, accepted, data);
      buffer := buffer + data;
      accepted := accepted + data;
    }
  }

  // The largest multiple of the block size within a megabyte; nothing if a block is larger than that.
  function DefaultCapacity(blockSize: nat): (c: nat)
    requires blockSize > 0
    ensures c <= ONE_MEGABYTE < c + blockSize && c % blockSize == 0
    ensures c > 0 <==> blockSize <= ONE_MEGABYTE
  {
    MultipleLeavesNothing(ONE_MEGABYTE / blockSize, blockSize);
    ONE_MEGABYTE / blockSize * blockSize
  }

  lemma MultipleLeavesNothing(q: nat, b: nat)
    requires b > 0
    ensures q * b % b == 0
  {
    var k := q * b / b;
    assert (q - k) * b == q * b % b;
    AtLeastOne(q - k, b);
  }

  lemma AtLeastOne(x: int, b: int)
    requires b > 0
    ensures x >= 1 ==> x * b >= b
    ensures x <= -1 ==> x * b < 0
  {
  }

  // `write_all`: writes until everything is accepted, a write fails or accepts nothing. `fails(i)` says whether the
  // i-th flush fails. What was accepted is a prefix of the data and stays accounted for.
  method WriteAll(writer: BufferedAppend, data: Bytes, fails: nat -> bool) returns (r: Result<(), IoError>)
    requires writer.Valid()
    modifies writer, writer.file
    ensures writer.Valid()
    ensures exists n: nat ::
      n <= |data| && writer.accepted == old(writer.accepted) + data[..n] && (r.Ok? ==> n == |data|)
    ensures writer.file.present == old(writer.file.present)
    ensures writer.file.blockSize <= ONE_MEGABYTE && writer.file.present && (forall i :: !fails(i)) ==> r.Ok?
  {
    var written, i := 0, 0;
    ghost var before := writer.accepted;
    while written < |data|
      invariant writer.Valid() && written <= |data| && writer.file.present == old(writer.file.present)
      invariant writer.accepted == before + data[..written]
    {
      var rest := data[written..];
      var count := writer.Write(rest, fails(i));
      if count.Err? {
        return Err(count.error);
      }
      ExtendPrefix(data, written, count.value);
      Associate(before, data[..written], rest[..count.value]);
      written := written + count.value;
      if count.value == 0 {
        return Err(WriteZero);
      }
      i := i + 1;
    }
    r := Ok(());
  }

  lemma StoredPrefix(initial: Bytes, stored: Bytes, buffer: Bytes, data: Bytes, n: nat)
    requires n <= |data| && initial <= stored && stored + buffer == initial + data[..n]
    ensures exists m: nat :: m <= |data| && stored == initial + data[..m]
  {
    var m := |stored| - |initial|;
    assert stored == (stored + buffer)[..|stored|] == (initial + data[..n])[..|initial| + m] == initial + data[..m];
  }

  // From writer to reader: what a flushed writer accepted is what reading the file gives back. If something fails on
  // the way, the file holds what it held followed by a prefix of the data: all that was accepted, if the flush on
  // dropping the writer succeeds.
  method WriteThenRead(file: File, data: Bytes, bufferSize: nat, sizes: nat -> nat,
                       fails: nat -> bool, flushFails: bool, dropFails: bool, outages: nat -> seq<bool>)
    returns (r: Result<Bytes, IoError>)
    requires file.Valid()
    modifies file
    ensures file.Valid()
    ensures exists n: nat :: n <= |data| && file.Contents() == old(file.Contents()) + data[..n]
    ensures r.Ok? ==> r.value == file.Contents() == old(file.Contents()) + data
    ensures file.blockSize <= ONE_MEGABYTE && file.present && !flushFails ==>
      (forall i :: !fails(i) && true !in outages(i)) ==> r.Ok?
  {
    var flushed := WriteAndDrop(file, data, fails, flushFails, dropFails);
    if flushed.Err? {
      return Err(flushed.error);
    }
    assert data[..|data|] == data;
    var reader := file.Open(bufferSize);
    r := reader.IntoVec(sizes, outages);
    assert reader.Data()[0..] == reader.Data();
  }

  // Writes, flushes and drops the writer.
  method WriteAndDrop(file: File, data: Bytes, fails: nat -> bool, flushFails: bool, dropFails: bool)
    returns (r: Result<(), IoError>)
    requires file.Valid()
    modifies file
    ensures file.Valid() && file.present == old(file.present)
    ensures exists n: nat :: n <= |data| && file.Contents() == old(file.Contents()) + data[..n]
    ensures r.Ok? ==> file.Contents() == old(file.Contents()) + data
    ensures file.blockSize <= ONE_MEGABYTE && file.present && (forall i :: !fails(i)) && !flushFails ==> r.Ok?
  {
    var writer := new BufferedAppend(file);
    r := WriteAll(writer, data, fails);
    ghost var n: nat :| n <= |data| && writer.accepted == data[..n] && (r.Ok? ==> n == |data|);
    if r.Ok? {
      assert data[..n] == data;
      r := writer.Flush(flushFails);
    }
    writer.Drop(dropFails);
    StoredPrefix(writer.initial, file.Contents(), writer.buffer, data, n);
  }
}
