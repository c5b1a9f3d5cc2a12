/** Files stored as blocks: the shape of a file's block list and the flat bytes it stands for. */
module BlockFiles {
  import opened ByteStrings
  import Sorting

  datatype BlockInfo = BlockInfo(offset: nat, length: nat, id: nat)

  // Stored blocks of all files, by document id.
  type Store = map<nat, Bytes>

  datatype IoError = DatabaseError | Panic | WriteZero

  // ---------------------------------------------------------------- stored blocks

  // The file id and the time of the append follow the contents, in four and eight bytes.
  const SUFFIX: nat := 12

  function Stored(contents: Bytes, file: nat, timestamp: nat): Bytes
    requires file < Capacity(4) && timestamp < Capacity(8)
  {
    contents + (BigEndian(4, file) + BigEndian(8, timestamp))
  }

  function Loaded(raw: Bytes): Bytes {
    if |raw| >= SUFFIX then raw[..|raw| - SUFFIX] else []
  }

  function FileOf(raw: Bytes): Option<nat> {
    if |raw| >= SUFFIX then Some(FromBigEndian(raw[|raw| - SUFFIX..|raw| - 8])) else None
  }

  // What is appended for a file is loaded, and listed under that file.
  lemma StoredRoundTrip(contents: Bytes, file: nat, timestamp: nat)
    requires file < Capacity(4) && timestamp < Capacity(8)
    ensures Loaded(Stored(contents, file, timestamp)) == contents
    ensures FileOf(Stored(contents, file, timestamp)) == Some(file)
    ensures
      var raw, n := Stored(contents, file, timestamp), |contents|;
      && |raw| == n + 12 && raw[..n] == contents
      && FromBigEndian(raw[n..n + 4]) == file && FromBigEndian(raw[n + 4..]) == timestamp
  {
    var id, time := BigEndian(4, file), BigEndian(8, timestamp);
    SuffixParts(contents, id, time);
    BigEndianRoundTrip(4, file);
    BigEndianRoundTrip(8, timestamp);
  }

  lemma SuffixParts(contents: Bytes, id: Bytes, time: Bytes)
    requires |id| == 4 && |time| == 8
    ensures Loaded(contents + (id + time)) == contents
    ensures FileOf(contents + (id + time)) == Some(FromBigEndian(id))
    ensures
      var raw, n := contents + (id + time), |contents|;
      raw[..n] == contents && raw[n..n + 4] == id && raw[n + 4..] == time
  {
    var raw := contents + (id + time);
    assert raw[|raw| - SUFFIX..|raw| - 8] == id;
  }

  // ---------------------------------------------------------------- order of ids

  function ById<T>(a: (nat, T), b: (nat, T)): bool {
    a.0 <= b.0
  }

  // What a query found, by ascending ids.
  ghost predicate Ascending<T>(found: seq<(nat, T)>) {
    forall i, j :: 0 <= i < j < |found| ==> found[i].0 < found[j].0
  }

  ghost predicate DistinctIds<T>(found: seq<(nat, T)>) {
    forall i, j :: 0 <= i < j < |found| ==> found[i].0 != found[j].0
  }

  method SortById<T(!new)>(found: seq<(nat, T)>) returns (r: seq<(nat, T)>)
    requires DistinctIds(found)
    ensures Ascending(r) && forall e :: e in r <==> e in found
  {
    r := Sorting.SortBy(found, ById);
    Sorting.SameElements(r, found);
  }

  // There is only one way to list entries by ascending ids.
  lemma SameAscending<T(!new)>(a: seq<(nat, T)>, b: seq<(nat, T)>)
    requires Ascending(a) && Ascending(b) && forall e :: e in a <==> e in b
    ensures a == b
  {
    Sorting.SameStrict(a, b, ById);
  }

  // ---------------------------------------------------------------- block lists

  // Where the first `i` blocks end.
  function EndOf(blocks: seq<BlockInfo>, i: nat): nat
    requires i <= |blocks|
  {
    if i == 0 then 0 else EndOf(blocks, i - 1) + blocks[i - 1].length
  }

  // The stored contents of block `i`.
  function BlockAt(blocks: seq<BlockInfo>, store: Store, i: nat): Bytes
    requires i < |blocks|
  {
    if blocks[i].id in store then Loaded(store[blocks[i].id]) else []
  }

  // The contents of the first `i` blocks, one after another.
  function Joined(blocks: seq<BlockInfo>, store: Store, i: nat): Bytes
    requires i <= |blocks|
  {
    if i == 0 then [] else Joined(blocks, store, i - 1) + BlockAt(blocks, store, i - 1)
  }

  // The bytes of the whole file.
  function Flat(blocks: seq<BlockInfo>, store: Store): Bytes {
    Joined(blocks, store, |blocks|)
  }

  // Block `i` is stored with the length it is listed with, starts where the one before it ends and has a greater
  // id than that one.
  ghost predicate BlockOk(blocks: seq<BlockInfo>, store: Store, i: nat)
    requires i < |blocks|
  {
    && blocks[i].id in store && |Loaded(store[blocks[i].id])| == blocks[i].length
    && blocks[i].offset == EndOf(blocks, i)
    && (i > 0 ==> blocks[i - 1].id < blocks[i].id)
  }

  ghost predicate ValidUpTo(blocks: seq<BlockInfo>, store: Store, n: nat)
    requires n <= |blocks|
  {
    n == 0 || (BlockOk(blocks, store, n - 1) && ValidUpTo(blocks, store, n - 1))
  }

  ghost predicate ValidFile(blocks: seq<BlockInfo>, store: Store) {
    ValidUpTo(blocks, store, |blocks|)
  }

  lemma {:induction false} ValidBlock(blocks: seq<BlockInfo>, store: Store, n: nat, i: nat)
    requires i < n <= |blocks| && ValidUpTo(blocks, store, n)
    ensures BlockOk(blocks, store, i) && ValidUpTo(blocks, store, i)
  {
    if i < n - 1 {
      ValidBlock(blocks, store, n - 1, i);
    }
  }

  // Ids ascend over the whole file, so that a query sorted by id answers in the order of the blocks.
  lemma {:induction false} IdsAscend(blocks: seq<BlockInfo>, store: Store, i: nat, j: nat)
    requires i < j < |blocks| && ValidUpTo(blocks, store, j + 1)
    ensures blocks[i].id < blocks[j].id
    decreases j
  {
    if i < j - 1 {
      IdsAscend(blocks, store, i, j - 1);
    }
  }

  lemma {:induction false} JoinedLength(blocks: seq<BlockInfo>, store: Store, i: nat)
    requires i <= |blocks| && ValidUpTo(blocks, store, i)
    ensures |Joined(blocks, store, i)| == EndOf(blocks, i)
  {
    if i > 0 {
      JoinedLength(blocks, store, i - 1);
    }
  }

  lemma {:induction false} JoinedPrefix(blocks: seq<BlockInfo>, store: Store, i: nat, n: nat)
    requires i <= n <= |blocks| && ValidUpTo(blocks, store, n)
    ensures Joined(blocks, store, i) <= Joined(blocks, store, n)
    decreases n
  {
    if i < n {
      JoinedPrefix(blocks, store, i, n - 1);
    }
  }

  // A block is the slice of the file between its start and its end.
  lemma BlockIsSlice(blocks: seq<BlockInfo>, store: Store, i: nat)
    requires ValidFile(blocks, store) && i < |blocks|
    ensures BlockOk(blocks, store, i)
    ensures EndOf(blocks, i) <= EndOf(blocks, i + 1) <= |Flat(blocks, store)|
    ensures BlockAt(blocks, store, i) == Flat(blocks, store)[EndOf(blocks, i)..EndOf(blocks, i + 1)]
  {
    var a, b := Joined(blocks, store, i), BlockAt(blocks, store, i);
    ValidBlock(blocks, store, |blocks|, i);
    BlockEnds(blocks, store, i);
    JoinedPrefix(blocks, store, i + 1, |blocks|);
    PrefixSlice(a, b, Joined(blocks, store, i + 1), Flat(blocks, store), EndOf(blocks, i), EndOf(blocks, i + 1));
  }

  lemma BlockEnds(blocks: seq<BlockInfo>, store: Store, i: nat)
    requires i < |blocks| && BlockOk(blocks, store, i) && ValidUpTo(blocks, store, i)
    ensures |Joined(blocks, store, i)| == EndOf(blocks, i)
    ensures Joined(blocks, store, i + 1) == Joined(blocks, store, i) + BlockAt(blocks, store, i)
    ensures EndOf(blocks, i + 1) == EndOf(blocks, i) + |BlockAt(blocks, store, i)|
  {
    JoinedLength(blocks, store, i);
  }

  lemma PrefixSlice(a: Bytes, b: Bytes, front: Bytes, whole: Bytes, from: nat, to: nat)
    requires front == a + b && front <= whole && from == |a| && to == |a| + |b|
    ensures to <= |whole| && whole[from..to] == b
  {
    assert whole[..|front|] == front;
    assert forall i :: 0 <= i < |b| ==> front[|a| + i] == b[i];
  }

  lemma {:induction false} EndOfGrows(blocks: seq<BlockInfo>, i: nat, j: nat)
    requires i <= j <= |blocks|
    ensures EndOf(blocks, i) <= EndOf(blocks, j)
    decreases j
  {
    if i < j {
      EndOfGrows(blocks, i, j - 1);
    }
  }
}
