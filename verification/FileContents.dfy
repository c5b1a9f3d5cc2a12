/** `Contents`: buffered reading, iterating and seeking over the blocks of a file. */
module FileContents {
  import opened ByteStrings
  import opened BlockFiles

  datatype LoadedBlock = LoadedBlock(index: nat, contents: Bytes)

  datatype SeekFrom = Start(at: nat) | End(fromEnd: int) | Current(fromCurrent: int)

  datatype ReadStep = NeedBlocks | ReadBytes(count: nat) | Eof

  datatype BlockStep = NeedMoreBlocks | ReadBlock(bytes: Bytes) | EndOfFile

  function Min(a: nat, b: nat): nat {
    if a < b then a else b
  }

  // `loaded` holds consecutive blocks of the file.
  ghost predicate Consecutive(blocks: seq<BlockInfo>, store: Store, loaded: seq<LoadedBlock>) {
    loaded != [] ==>
      && loaded[0].index + |loaded| <= |blocks|
      && forall i :: 0 <= i < |loaded| ==>
           loaded[i] == LoadedBlock(loaded[0].index + i, BlockAt(blocks, store, loaded[0].index + i))
  }

  lemma ConsecutiveTail(blocks: seq<BlockInfo>, store: Store, loaded: seq<LoadedBlock>)
    requires Consecutive(blocks, store, loaded) && loaded != []
    ensures Consecutive(blocks, store, loaded[1..])
    ensures loaded[0].index < |blocks| && loaded[0].contents == BlockAt(blocks, store, loaded[0].index)
    ensures |loaded| > 1 ==> loaded[1..][0].index == loaded[0].index + 1
  {
    assert loaded[0] == LoadedBlock(loaded[0].index + 0, BlockAt(blocks, store, loaded[0].index + 0));
  }

  // `count` blocks from `current` on are the most that fit `size`, or one block that alone does not fit.
  ghost predicate Window(blocks: seq<BlockInfo>, current: nat, size: nat, count: nat) {
    && current < |blocks| && 1 <= count <= |blocks| - current
    && (count > 1 ==> EndOf(blocks, current + count) - EndOf(blocks, current) <= size)
    && (current + count < |blocks| ==> EndOf(blocks, current + count + 1) - EndOf(blocks, current) > size)
  }

  // The loop of `next_blocks`.
  method WindowSize(blocks: seq<BlockInfo>, current: nat, size: nat) returns (count: nat)
    requires current < |blocks|
    ensures Window(blocks, current, size, count)
  {
    var lastBlock, requesting, index := current, 0, current;
    while index < |blocks| && blocks[index].length + requesting <= size
      invariant current <= index <= |blocks|
      invariant requesting == EndOf(blocks, index) - EndOf(blocks, current)
      invariant index > current ==> requesting <= size
      invariant lastBlock == if index == current then current else index - 1
    {
      requesting := blocks[index].length + requesting;
      lastBlock := index;
      index := index + 1;
    }
    if index == current && current + 1 < |blocks| {
      EndOfGrows(blocks, current + 1, current + 2);
    }
    count := lastBlock + 1 - current;
  }

  // The blocks to load next: as many as fit the buffer, but at least the current one.
  method NextIds(blocks: seq<BlockInfo>, current: nat, size: nat) returns (ids: seq<nat>)
    requires current < |blocks|
    ensures Window(blocks, current, size, |ids|)
    ensures forall i :: 0 <= i < |ids| ==> ids[i] == blocks[current + i].id
  {
    var count := WindowSize(blocks, current, size);
    ids := [];
    for i := 0 to count
      invariant |ids| == i
      invariant forall j :: 0 <= j < i ==> ids[j] == blocks[current + j].id
    {
      ids := ids + [blocks[current + i].id];
    }
  }

  function Ids(ids: seq<nat>): set<nat> {
    set id | id in ids
  }

  // What a query for `ids` finds: each stored block once, with its contents.
  ghost predicate Answers(store: Store, ids: set<nat>, found: seq<(nat, Bytes)>) {
    forall e: (nat, Bytes) :: e in found <==> e.0 in ids && e.0 in store && e.1 == Loaded(store[e.0])
  }

  // `Block::load`: the documents come in no particular order, and the tree map they are collected into lists them
  // by ascending ids, whatever order was asked for.
  method Load(store: Store, ids: seq<nat>) returns (r: seq<(nat, Bytes)>)
    ensures Answers(store, Ids(ids), r) && Ascending(r)
  {
    var asked := Ids(ids);
    var found: seq<(nat, Bytes)> := [];
    var rest := asked;
    while rest != {}
      invariant rest <= asked
      invariant Answers(store, asked - rest, found) && DistinctIds(found)
      decreases rest
    {
      var id :| id in rest;
      ghost var before, done := found, asked - rest;
      if id in store {
        assert forall e :: e in found ==> e.0 != id;
        found := found + [(id, Loaded(store[id]))];
      }
      rest := rest - {id};
      assert asked - rest == done + {id};
      AnswersMore(store, done, id, before, found);
    }
    assert asked - rest == asked;
    r := SortById(found);
  }

  // The answer, numbered from `first` on.
  method Numbered(found: seq<(nat, Bytes)>, first: nat) returns (r: seq<LoadedBlock>)
    ensures |r| == |found|
    ensures forall i :: 0 <= i < |found| ==> r[i] == LoadedBlock(first + i, found[i].1)
  {
    r := [];
    for index := 0 to |found|
      invariant |r| == index
      invariant forall i :: 0 <= i < index ==> r[i] == LoadedBlock(first + i, found[i].1)
    {
      r := r + [LoadedBlock(first + index, found[index].1)];
    }
  }

  lemma AnswersMore(store: Store, done: set<nat>, id: nat, before: seq<(nat, Bytes)>, found: seq<(nat, Bytes)>)
    requires Answers(store, done, before)
    requires found == before + if id in store then [(id, Loaded(store[id]))] else []
    ensures Answers(store, done + {id}, found)
  {
    forall e: (nat, Bytes)
      ensures e in found <==> e.0 in done + {id} && e.0 in store && e.1 == Loaded(store[e.0])
    {
      assert e in before <==> e.0 in done && e.0 in store && e.1 == Loaded(store[e.0]);
    }
  }

  // The answer by ascending ids is the answer in the order of the blocks, because the ids of a file ascend.
  lemma AnswerInOrder(blocks: seq<BlockInfo>, store: Store, ids: seq<nat>, first: nat, found: seq<(nat, Bytes)>)
    requires ValidFile(blocks, store) && first + |ids| <= |blocks|
    requires forall i :: 0 <= i < |ids| ==> ids[i] == blocks[first + i].id
    requires Answers(store, Ids(ids), found) && Ascending(found)
    ensures |found| == |ids|
    ensures forall i :: 0 <= i < |ids| ==> found[i].1 == BlockAt(blocks, store, first + i)
  {
    var expected := seq(|ids|, i requires 0 <= i < |ids| => (ids[i], BlockAt(blocks, store, first + i)));
    ExpectedAnswer(blocks, store, ids, first, expected);
    forall e: (nat, Bytes) ensures e in expected <==> e in found {
      assert e in expected <==> e.0 in Ids(ids) && e.0 in store && e.1 == Loaded(store[e.0]);
    }
    SameAscending(found, expected);
  }

  lemma ExpectedAnswer(blocks: seq<BlockInfo>, store: Store, ids: seq<nat>, first: nat, expected: seq<(nat, Bytes)>)
    requires ValidFile(blocks, store) && first + |ids| <= |blocks| && |expected| == |ids|
    requires forall i :: 0 <= i < |ids| ==> ids[i] == blocks[first + i].id
    requires forall i :: 0 <= i < |ids| ==> expected[i] == (ids[i], BlockAt(blocks, store, first + i))
    ensures Answers(store, Ids(ids), expected) && Ascending(expected)
  {
    forall i | 0 <= i < |ids| ensures ids[i] in store && expected[i] == (ids[i], Loaded(store[ids[i]])) {
      ValidBlock(blocks, store, |blocks|, first + i);
    }
    forall e: (nat, Bytes)
      ensures e in expected <==> e.0 in Ids(ids) && e.0 in store && e.1 == Loaded(store[e.0])
    {
      if e.0 in ids && e.0 in store && e.1 == Loaded(store[e.0]) {
        var i :| 0 <= i < |ids| && ids[i] == e.0;
        assert expected[i] == e;
      }
    }
    forall i, j | 0 <= i < j < |ids| ensures expected[i].0 < expected[j].0 {
      BlocksAscend(blocks, store, first + i, first + j);
    }
  }

  lemma BlocksAscend(blocks: seq<BlockInfo>, store: Store, i: nat, j: nat)
    requires ValidFile(blocks, store) && i < j < |blocks|
    ensures blocks[i].id < blocks[j].id
  {
    if j + 1 < |blocks| {
      ValidBlock(blocks, store, |blocks|, j + 1);
    }
    IdsAscend(blocks, store, i, j);
  }

  // The blocks of the window, as the query finds them and as they are numbered.
  method LoadWindow(blocks: seq<BlockInfo>, store: Store, current: nat, size: nat) returns (r: seq<LoadedBlock>)
    requires ValidFile(blocks, store) && current < |blocks|
    ensures Consecutive(blocks, store, r) && r != [] && r[0].index == current
    ensures Window(blocks, current, size, |r|)
  {
    var ids := NextIds(blocks, current, size);
    var found := Load(store, ids);
    AnswerInOrder(blocks, store, ids, current, found);
    r := Numbered(found, current);
  }

  lemma SliceOfSlice(whole: Bytes, a: nat, b: nat, from: nat, to: nat)
    requires a <= b <= |whole| && from <= to <= b - a
    ensures whole[a..b][from..to] == whole[a + from..a + to]
  {
    var x := whole[a..b];
    assert |x| == b - a;
    assert forall i :: 0 <= i < b - a ==> x[i] == whole[a + i];
  }

  // `copy_from_slice` into the front of the buffer.
  method Fill(buf: array<Byte>, data: Bytes)
    requires |data| <= buf.Length
    modifies buf
    ensures buf[..|data|] == data
    ensures buf[|data|..] == old(buf[..])[|data|..]
  {
    for i := 0 to |data|
      invariant buf[..i] == data[..i]
      invariant buf[i..] == old(buf[..])[i..]
    {
      buf[i] := data[i];
    }
  }

  predicate IsSlice(whole: Bytes, from: nat, to: nat, bytes: Bytes) {
    from <= to <= |whole| && bytes == whole[from..to]
  }

  // The place in the file of `offset` bytes into block `b`.
  function PositionOf(blocks: seq<BlockInfo>, b: nat, offset: nat): nat
    requires b <= |blocks|
  {
    EndOf(blocks, b) + offset
  }

  // `data` is what a buffer of `capacity` bytes receives at `position`: as many bytes of the file as fit, but only
  // up to the end of the block `position` lies in.
  ghost predicate Delivers(blocks: seq<BlockInfo>, store: Store, capacity: nat, position: nat, data: Bytes) {
    && 0 < |data| <= capacity
    && position + |data| <= |Flat(blocks, store)|
    && data == Flat(blocks, store)[position..position + |data|]
    && exists b: nat :: b < |blocks| && EndOf(blocks, b) <= position < EndOf(blocks, b + 1) &&
                        |data| == Min(capacity, EndOf(blocks, b + 1) - position)
  }

  lemma SliceDelivers(blocks: seq<BlockInfo>, store: Store, capacity: nat, b: nat, offset: nat, count: nat)
    requires ValidFile(blocks, store) && b < |blocks| && offset <= blocks[b].length
    requires count == Min(capacity, blocks[b].length - offset) && count > 0
    ensures offset + count <= |BlockAt(blocks, store, b)|
    ensures Delivers(blocks, store, capacity, PositionOf(blocks, b, offset),
                     BlockAt(blocks, store, b)[offset..offset + count])
  {
    BlockIsSlice(blocks, store, b);
    var whole, from, to := Flat(blocks, store), EndOf(blocks, b), EndOf(blocks, b + 1);
    SliceOfSlice(whole, from, to, offset, offset + count);
    assert from <= from + offset < to && count == Min(capacity, to - (from + offset));
  }

  class Contents {
    const blocks: seq<BlockInfo>
    const store: Store
    var loaded: seq<LoadedBlock>
    var currentBlock: nat
    var offset: nat
    var bufferSize: nat

    // Loaded blocks are consecutive blocks of the file with their own contents; after a seek they may be
    // anywhere in the file.
    ghost predicate Valid()
      reads this
    {
      && ValidFile(blocks, store)
      && currentBlock <= |blocks|
      && offset <= (if currentBlock < |blocks| then blocks[currentBlock].length else 0)
      && Consecutive(blocks, store, loaded)
    }

    ghost function Data(): Bytes {
      Flat(blocks, store)
    }

    // The abstract cursor into the bytes of the file.
    ghost function Position(): nat
      requires Valid()
      reads this
    {
      PositionOf(blocks, currentBlock, offset)
    }

    // The next loaded block is the current one.
    predicate Ready()
      reads this
    {
      loaded != [] && loaded[0].index == currentBlock
    }

    // A block that is ready has the contents and the length of the current block.
    lemma FrontIsCurrent()
      requires Valid() && Ready()
      ensures currentBlock < |blocks| && BlockOk(blocks, store, currentBlock)
      ensures loaded[0].contents == BlockAt(blocks, store, currentBlock)
      ensures |loaded[0].contents| == blocks[currentBlock].length
    {
      ConsecutiveTail(blocks, store, loaded);
      ValidBlock(blocks, store, |blocks|, currentBlock);
    }

    constructor (blocks: seq<BlockInfo>, store: Store, bufferSize: nat)
      requires ValidFile(blocks, store)
      ensures Valid() && this.blocks == blocks && this.store == store && this.bufferSize == bufferSize
      ensures currentBlock == 0 && offset == 0 && loaded == [] && Position() == 0
    {
      this.blocks := blocks;
      this.store := store;
      this.bufferSize := bufferSize;
      loaded, currentBlock, offset := [], 0, 0;
    }

    // Queries the window and numbers the answer, which comes by ascending ids, from the current block on. A failed
    // query leaves nothing loaded.
    method LoadBlocks(fails: bool) returns (ok: bool)
      requires Valid() && currentBlock < |blocks|
      modifies this`loaded
      ensures Valid() && ok == !fails
      ensures ok ==> Ready() && Window(blocks, currentBlock, bufferSize, |loaded|)
      ensures !ok ==> loaded == []
    {
      loaded := [];
      if fails {
        return false;
      }
      loaded := LoadWindow(blocks, store, currentBlock, bufferSize);
      ok := true;
    }

    // Drops the front block, of which everything has been read.
    method DropFront()
      requires Valid() && Ready()
      modifies this`loaded, this`offset, this`currentBlock
      ensures Valid() && currentBlock == old(currentBlock) + 1
      ensures loaded == old(loaded)[1..] && (loaded != [] ==> Ready())
      ensures old(offset) == |old(loaded)[0].contents| ==> Position() == old(Position())
    {
      FrontIsCurrent();
      ConsecutiveTail(blocks, store, loaded);
      loaded := loaded[1..];
      offset := 0;
      currentBlock := currentBlock + 1;
    }

    // The inner loop of `non_blocking_read`: copies from the first loaded block that gives anything, dropping those
    // before it.
    method ReadLoaded(buf: array<Byte>) returns (r: Option<nat>)
      requires Valid() && Ready()
      modifies this`loaded, this`offset, this`currentBlock, buf
      ensures Valid() && currentBlock >= old(currentBlock)
      ensures r.Some? ==> Delivered(buf, old(Position()), r.value) && Position() == old(Position()) + r.value
      ensures r.Some? ==> buf[r.value..] == old(buf[..])[r.value..]
      ensures r.None? ==> buf[..] == old(buf[..]) && loaded == [] && currentBlock > old(currentBlock)
      ensures r.None? && buf.Length > 0 ==> Position() == old(Position())
    {
      while loaded != []
        invariant Valid() && currentBlock >= old(currentBlock)
        invariant buf[..] == old(buf[..])
        invariant buf.Length > 0 ==> Position() == old(Position())
        invariant if loaded != [] then Ready() else currentBlock > old(currentBlock)
        decreases |loaded|
      {
        FrontIsCurrent();
        var contents := loaded[0].contents;
        var count := Min(buf.Length, |contents| - offset);
        if count > 0 {
          CopyOut(buf, contents, count);
          return Some(count);
        }
        DropFront();
      }
      r := None;
    }

    // `non_blocking_read` with the callback of `read`.
    method NonBlockingRead(buf: array<Byte>) returns (r: ReadStep)
      requires Valid()
      modifies this`loaded, this`offset, this`currentBlock, buf
      ensures Valid() && currentBlock >= old(currentBlock)
      ensures r.ReadBytes? ==> Delivered(buf, old(Position()), r.count) && Position() == old(Position()) + r.count
      ensures r.ReadBytes? ==> buf[r.count..] == old(buf[..])[r.count..]
      ensures !r.ReadBytes? ==> buf[..] == old(buf[..])
      ensures !r.ReadBytes? && buf.Length > 0 ==> Position() == old(Position())
      ensures r.NeedBlocks? ==> currentBlock < |blocks| && !Ready()
      ensures r.NeedBlocks? && old(Ready()) ==> currentBlock > old(currentBlock)
      ensures r.Eof? ==> currentBlock == |blocks|
    {
      while true
        invariant Valid() && currentBlock >= old(currentBlock)
        invariant buf[..] == old(buf[..])
        invariant buf.Length > 0 ==> Position() == old(Position())
        invariant currentBlock == old(currentBlock) ==> Ready() == old(Ready())
        decreases |loaded|
      {
        if !Ready() {
          return if currentBlock < |blocks| then NeedBlocks else Eof;
        }
        var read := ReadLoaded(buf);
        if read.Some? {
          return ReadBytes(read.value);
        }
      }
    }

    ghost predicate Delivered(buf: array<Byte>, position: nat, count: nat)
      reads buf
    {
      count <= buf.Length && Delivers(blocks, store, buf.Length, position, buf[..count])
    }

    method CopyOut(buf: array<Byte>, contents: Bytes, count: nat)
      requires Valid() && Ready() && contents == loaded[0].contents && offset <= |contents|
      requires count == Min(buf.Length, |contents| - offset) && count > 0
      modifies this`offset, buf
      ensures Valid() && Position() == old(Position()) + count
      ensures Delivered(buf, old(Position()), count)
      ensures buf[count..] == old(buf[..])[count..]
    {
      FrontIsCurrent();
      var data := contents[offset..offset + count];
      ghost var position := Position();
      assert Delivers(blocks, store, buf.Length, position, data) by {
        SliceDelivers(blocks, store, buf.Length, currentBlock, offset, count);
      }
      Fill(buf, data);
      offset := offset + count;
      assert buf[..count] == data;
    }

    // `read`: returns the bytes at the cursor and advances by their number; 0 exactly at the end of the file. An
    // empty buffer is the exception: it skips to the end. `outages[k]` says that the k-th query fails.
    method Read(buf: array<Byte>, outages: seq<bool>) returns (r: Result<nat, IoError>)
      requires Valid()
      modifies this`loaded, this`offset, this`currentBlock, buf
      ensures Valid()
      ensures r.Ok? && buf.Length > 0 ==>
        if old(Position()) == |Data()| then r.value == 0 else Delivered(buf, old(Position()), r.value)
      ensures r.Ok? ==> r.value <= buf.Length && buf[r.value..] == old(buf[..])[r.value..]
      ensures r.Ok? && buf.Length > 0 ==> Position() == old(Position()) + r.value
      ensures r.Ok? && buf.Length == 0 ==> r.value == 0 && Position() == |Data()|
      ensures r.Err? ==> buf[..] == old(buf[..]) && (buf.Length > 0 ==> Position() == old(Position()))
      ensures currentBlock >= old(currentBlock)
      ensures true !in outages ==> r.Ok?
    {
      var query := 0;
      JoinedLength(blocks, store, |blocks|);
      while true
        invariant Valid() && currentBlock >= old(currentBlock)
        invariant buf[..] == old(buf[..])
        invariant buf.Length > 0 ==> Position() == old(Position())
        decreases |blocks| - currentBlock, if Ready() then 0 else 1
      {
        var step := NonBlockingRead(buf);
        match step {
          case ReadBytes(count) =>
            assert old(Position()) < |Data()|;
            return Ok(count);
          case Eof => return Ok(0);
          case NeedBlocks =>
            var ok := LoadBlocks(query < |outages| && outages[query]);
            if !ok {
              return Err(DatabaseError);
            }
            query := query + 1;
        }
      }
    }

    // `non_blocking_read_block`: hands out the rest of the current block if it is loaded.
    method NonBlockingReadBlock() returns (r: BlockStep)
      requires Valid()
      modifies this`loaded, this`offset, this`currentBlock
      ensures Valid()
      ensures r.ReadBlock? ==> currentBlock == old(currentBlock) + 1 <= |blocks| && offset == 0
      ensures r.ReadBlock? ==> RestOfBlock(blocks, store, old(currentBlock), old(offset), r.bytes)
      ensures !r.ReadBlock? ==> currentBlock == old(currentBlock) && offset == old(offset)
      ensures r.NeedMoreBlocks? ==> currentBlock < |blocks| && !old(Ready())
      ensures r.EndOfFile? ==> currentBlock == |blocks|
    {
      if loaded != [] {
        var block := loaded[0];
        ConsecutiveTail(blocks, store, loaded);
        loaded := loaded[1..];
        if block.index == currentBlock {
          ValidBlock(blocks, store, |blocks|, currentBlock);
          currentBlock := currentBlock + 1;
          var contents := block.contents[offset..];
          offset := 0;
          return ReadBlock(contents);
        }
      }
      r := if currentBlock < |blocks| then NeedMoreBlocks else EndOfFile;
    }

    // `Iterator::next`: the bytes from the cursor to the end of the current block; nothing exactly behind the last
    // block.
    method Next(outages: seq<bool>) returns (r: Option<Result<Bytes, IoError>>)
      requires Valid()
      modifies this`loaded, this`offset, this`currentBlock
      ensures Valid()
      ensures r.None? ==> old(currentBlock) == |blocks| && Position() == |Data()|
      ensures r.Some? && r.value.Ok? ==>
        && currentBlock == old(currentBlock) + 1
        && Position() == old(Position()) + |r.value.value|
        && IsSlice(Data(), old(Position()), Position(), r.value.value)
      ensures !(r.Some? && r.value.Ok?) ==> Position() == old(Position()) && currentBlock == old(currentBlock)
      ensures true !in outages ==> r.None? || r.value.Ok?
      ensures old(currentBlock) == |blocks| ==> r.None?
    {
      ghost var b, from := currentBlock, offset;
      JoinedLength(blocks, store, |blocks|);
      var query := 0;
      while true
        invariant Valid() && currentBlock == b && offset == from
        decreases if Ready() then 0 else 1
      {
        var step := NonBlockingReadBlock();
        match step {
          case ReadBlock(bytes) =>
            assert RestOfBlock(blocks, store, b, from, bytes);
            RestIsSlice(blocks, store, b, from, bytes);
            return Some(Ok(bytes));
          case EndOfFile => return None;
          case NeedMoreBlocks =>
            var ok := LoadBlocks(query < |outages| && outages[query]);
            if !ok {
              return Some(Err(DatabaseError));
            }
            query := query + 1;
        }
      }
    }

    // `seek`: moves the cursor to the target, or to the end of the file if the target lies beyond it. It panics
    // for a target before the start, and for any seek relative to a cursor that has moved behind the last block.
    method Seek(pos: SeekFrom) returns (r: Result<nat, IoError>)
      requires Valid()
      modifies this`currentBlock, this`offset
      ensures Valid()
      ensures r.Err? <==> match pos
                          case Start(_) => false
                          case End(n) => |Data()| + n < 0
                          case Current(n) =>
                            blocks != [] && (old(currentBlock) == |blocks| || old(Position()) + n < 0)
      ensures r.Err? ==> unchanged(this)
      ensures r.Ok? ==> r.value == Position() <= |Data()|
      ensures r.Ok? ==> match pos
                        case Start(n) => Position() == Min(n, |Data()|)
                        case End(n) => Position() == |Data()| + if n < 0 then n else 0
                        case Current(n) =>
                          if old(Position()) + n <= |Data()| then blocks != [] ==> Position() == old(Position()) + n
                          else Position() == |Data()|
      ensures r.Ok? && blocks != [] ==> currentBlock < |blocks|
    {
      JoinedLength(blocks, store, |blocks|);
      if blocks != [] {
        ValidBlock(blocks, store, |blocks|, |blocks| - 1);
      }
      var target: nat;
      match pos {
        case Start(at) => target := at;
        case End(fromEnd) =>
          var length := if blocks == [] then 0 else blocks[|blocks| - 1].offset + blocks[|blocks| - 1].length;
          if fromEnd < 0 {
            if -fromEnd > length {
              return Err(Panic);
            }
            target := length + fromEnd;
          } else {
            target := length;
          }
        case Current(fromCurrent) =>
          if blocks == [] {
            return Ok(0);
          }
          if currentBlock >= |blocks| {
            return Err(Panic);
          }
          ValidBlock(blocks, store, |blocks|, currentBlock);
          var to := blocks[currentBlock].offset + offset + fromCurrent;
          if to < 0 {
            return Err(Panic);
          }
          target := to;
      }
      var at := MoveTo(target);
      r := Ok(at);
    }

    method MoveTo(target: nat) returns (at: nat)
      requires Valid()
      modifies this`currentBlock, this`offset
      ensures Valid() && at == Position() == Min(target, EndOf(blocks, |blocks|))
      ensures blocks != [] ==> currentBlock < |blocks|
    {
      var index := FindBlock(blocks, store, target);
      if index < |blocks| {
        currentBlock := index;
        offset := target - blocks[index].offset;
        EndOfGrows(blocks, index + 1, |blocks|);
        at := target;
      } else if blocks != [] {
        var last := blocks[|blocks| - 1];
        ValidBlock(blocks, store, |blocks|, |blocks| - 1);
        currentBlock := |blocks| - 1;
        offset := last.length;
        at := last.offset + last.length;
      } else {
        currentBlock := 0;
        offset := 0;
        at := 0;
      }
    }

    // `into_vec`: reads on until nothing comes or a query fails, with any sequence of buffer sizes. `outages(i)`
    // says which queries of the i-th read fail.
    method IntoVec(sizes: nat -> nat, outages: nat -> seq<bool>) returns (r: Result<Bytes, IoError>)
      requires Valid()
      modifies this`loaded, this`offset, this`currentBlock
      ensures Valid() && old(Position()) <= Position() <= |Data()|
      ensures r.Ok? ==> Position() == |Data()| && r.value == Data()[old(Position())..]
      ensures (forall i :: true !in outages(i)) ==> r.Ok?
    {
      ghost var whole, start := Data(), Position();
      JoinedLength(blocks, store, |blocks|);
      PositionBounded(blocks, currentBlock, offset);
      var bytes: Bytes := [];
      var i := 0;
      while true
        invariant Valid() && Data() == whole && start <= Position() <= |whole|
        invariant bytes == whole[start..Position()]
        decreases |whole| - Position()
      {
        var buf := new Byte[sizes(i) + 1];
        ghost var position := Position();
        var read := Read(buf, outages(i));
        if read.Err? {
          return Err(read.error);
        }
        if read.value == 0 {
          break;
        }
        assert buf[..read.value] == whole[position..Position()];
        JoinSlices(whole, start, position, Position());
        bytes := bytes + buf[..read.value];
        i := i + 1;
      }
      assert whole[start..|whole|] == whole[start..];
      r := Ok(bytes);
    }

    // Iterating to the end, or to the first failure, yields the rest of the file, block by block.
    method CollectBlocks(outages: nat -> seq<bool>) returns (r: Result<Bytes, IoError>)
      requires Valid()
      modifies this`loaded, this`offset, this`currentBlock
      ensures Valid() && old(Position()) <= Position() <= |Data()|
      ensures r.Ok? ==> Position() == |Data()| && r.value == Data()[old(Position())..]
      ensures (forall i :: true !in outages(i)) ==> r.Ok?
    {
      ghost var whole, start := Data(), Position();
      JoinedLength(blocks, store, |blocks|);
      PositionBounded(blocks, currentBlock, offset);
      var bytes: Bytes := [];
      var i := 0;
      while true
        invariant Valid() && Data() == whole && start <= Position() <= |whole|
        invariant bytes == whole[start..Position()]
        decreases |blocks| - currentBlock
      {
        ghost var position := Position();
        var item := Next(outages(i));
        if item.None? {
          break;
        }
        if item.value.Err? {
          return Err(item.value.error);
        }
        JoinSlices(whole, start, position, Position());
        bytes := bytes + item.value.value;
        i := i + 1;
      }
      assert whole[start..|whole|] == whole[start..];
      r := Ok(bytes);
    }
  }

  lemma PositionBounded(blocks: seq<BlockInfo>, b: nat, offset: nat)
    requires b <= |blocks| && offset <= if b < |blocks| then blocks[b].length else 0
    ensures PositionOf(blocks, b, offset) <= EndOf(blocks, |blocks|)
  {
    if b < |blocks| {
      EndOfGrows(blocks, b + 1, |blocks|);
    }
  }

  // `bytes` is block `b` from `offset` on.
  ghost predicate RestOfBlock(blocks: seq<BlockInfo>, store: Store, b: nat, offset: nat, bytes: Bytes) {
    b < |blocks| && offset <= |BlockAt(blocks, store, b)| && bytes == BlockAt(blocks, store, b)[offset..]
  }

  lemma RestIsSlice(blocks: seq<BlockInfo>, store: Store, b: nat, offset: nat, bytes: Bytes)
    requires ValidFile(blocks, store) && RestOfBlock(blocks, store, b, offset, bytes)
    ensures
      var from, to := PositionOf(blocks, b, offset), PositionOf(blocks, b + 1, 0);
      from + |bytes| == to && IsSlice(Flat(blocks, store), from, to, bytes)
  {
    BlockIsSlice(blocks, store, b);
    SliceOfSlice(Flat(blocks, store), EndOf(blocks, b), EndOf(blocks, b + 1), offset, blocks[b].length);
  }

  // The first block that ends behind `target`.
  method FindBlock(blocks: seq<BlockInfo>, ghost store: Store, target: nat) returns (index: nat)
    requires ValidFile(blocks, store)
    ensures index <= |blocks|
    ensures index < |blocks| ==> blocks[index].offset == EndOf(blocks, index) <= target < EndOf(blocks, index + 1)
    ensures index == |blocks| ==> EndOf(blocks, |blocks|) <= target
  {
    index := 0;
    while index < |blocks|
      invariant index <= |blocks|
      invariant EndOf(blocks, index) <= target
    {
      ValidBlock(blocks, store, |blocks|, index);
      if blocks[index].offset + blocks[index].length > target {
        return;
      }
      index := index + 1;
    }
  }

  lemma JoinSlices(whole: Bytes, a: nat, b: nat, c: nat)
    requires a <= b <= c <= |whole|
    ensures whole[a..b] + whole[b..c] == whole[a..c]
  {
  }
}
