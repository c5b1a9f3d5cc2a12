/**
 Concurrent commits, mapper jobs and readers, as a state machine.

 Each action is one atomic step of one thread; a run is any interleaving of
 them. Any number of jobs may work on one view at the same time.
 */
module ReadYourWrites {
  import opened ByteStrings
  import opened Documents
  import opened ViewMapper
  import opened Transactions
  import opened ViewMaintenance
  import opened ViewMeanings
  import opened CommandMeanings

  // A mapper job: it reads the last transaction id, then lists the invalidated ids, then maps them in chunks.
  datatype Job =
    | Started(view: nat, transaction: nat)
    | InProgress(view: nat, transaction: nat, remaining: seq<DocId>)
    | Finished(view: nat, transaction: nat)
    | Failed(view: nat)

  // A call of `update_view_if_needed` that blocks until the view is updated.
  datatype Reader =
    | Entered(view: nat, waitFor: nat)
    | NeedsJob(view: nat, waitFor: nat)
    | Waiting(view: nat, waitFor: nat, job: nat)
    | Returned(view: nat, waitFor: nat)
    | ReturnedError(view: nat)

  // `history[t]` holds the documents after transaction `t`; transaction 0 is the empty database. `seen`
  // records, per view, the version of every document that was last mapped.
  datatype System = System(
    trees: Trees,
    history: seq<Docs>,
    seen: seq<map<DocId, Document>>,
    statuses: map<nat, nat>,
    jobs: map<nat, Job>,
    readers: map<nat, Reader>)
  {
    function LastTransaction(): nat {
      if history == [] then 0 else |history| - 1
    }
  }

  datatype Action =
    | Commit(ops: seq<Operation>)
    | StartJob(job: nat, view: nat)
    | ListInvalidated(job: nat, ids: seq<DocId>)
    | MapNextChunk(job: nat, batches: seq<seq<DocId>>)
    | FinishJob(job: nat)
    | FailJob(job: nat)
    | Enter(reader: nat, view: nat)
    | CheckStatus(reader: nat)
    | Enqueue(reader: nat, job: nat)
    | Receive(reader: nat)

  const CHUNK_SIZE: nat := 100_000

  function ChunkStart(remaining: seq<DocId>): (i: nat)
    ensures i <= |remaining| && |remaining| - i == if |remaining| < 100_000 then |remaining| else 100_000
  {
    if |remaining| > CHUNK_SIZE then |remaining| - CHUNK_SIZE else 0
  }

  ghost predicate Init(schema: Schema, s: System) {
    s == System(Trees(map[], seq(|schema.views|, _ => EMPTY_VIEW)), [map[]], seq(|schema.views|, _ => map[]),
                map[], map[], map[])
  }

  // ---------------------------------------------------------------- steps

  ghost predicate CommitStep(schema: Schema, s: System, s': System, ops: seq<Operation>) {
    && |s.trees.views| == |schema.views| == |s.seen|
    && Apply(schema, s.trees, ops).Ok?
    && var after := Apply(schema, s.trees, ops).value.trees;
       s' == s.(trees := after, history := s.history + [after.docs], seen := SeenAfter(schema, after.docs, s.seen))
  }

  ghost predicate StartStep(schema: Schema, s: System, s': System, job: nat, view: nat) {
    && job !in s.jobs && view < |schema.views|
    && s.LastTransaction() > 0
    && s' == s.(jobs := s.jobs[job := Started(view, s.LastTransaction())])
  }

  ghost predicate ListStep(schema: Schema, s: System, s': System, job: nat, ids: seq<DocId>) {
    && job in s.jobs && s.jobs[job].Started?
    && var Started(view, transaction) := s.jobs[job];
    && view < |s.trees.views|
    && (set id | id in ids) == s.trees.views[view].invalidated
    && s' == s.(jobs := s.jobs[job := InProgress(view, transaction, ids)])
  }

  // The chunk is drained from the end of the list; its mapping and the removal of its ids commit together.
  ghost predicate ChunkStep(schema: Schema, s: System, s': System, job: nat, batches: seq<seq<DocId>>) {
    && job in s.jobs && s.jobs[job].InProgress? && s.jobs[job].remaining != []
    && var InProgress(view, transaction, remaining) := s.jobs[job];
    && view < |schema.views| == |s.trees.views| == |s.seen|
    && var cut := ChunkStart(remaining);
    && Members(batches) == (set id | id in remaining[cut..])
    && MapChunk(schema, s.trees, view, batches).Ok?
    && s' == s.(trees := MapChunk(schema, s.trees, view, batches).value,
                history := s.history + [s.trees.docs],
                seen := s.seen[view :=
                  Refresh(s.seen[view], s.trees.docs, schema.views[view].collection, Members(batches))],
                jobs := s.jobs[job := InProgress(view, transaction, remaining[..cut])])
  }

  ghost predicate FinishStep(s: System, s': System, job: nat) {
    && job in s.jobs && s.jobs[job].InProgress? && s.jobs[job].remaining == []
    && var InProgress(view, transaction, _) := s.jobs[job];
    s' == s.(statuses := s.statuses[view := transaction], jobs := s.jobs[job := Finished(view, transaction)])
  }

  ghost predicate FailStep(s: System, s': System, job: nat) {
    && job in s.jobs && (s.jobs[job].Started? || s.jobs[job].InProgress?)
    && s' == s.(jobs := s.jobs[job := Failed(s.jobs[job].view)])
  }

  ghost predicate EnterStep(schema: Schema, s: System, s': System, reader: nat, view: nat) {
    && reader !in s.readers && view < |schema.views|
    && s' == s.(readers := s.readers[reader := Entered(view, s.LastTransaction())])
  }

  // Without any transaction there is no data; otherwise the cached status may already be recent enough.
  ghost predicate CheckStep(s: System, s': System, reader: nat) {
    && reader in s.readers && s.readers[reader].Entered?
    && var Entered(view, waitFor) := s.readers[reader];
    var current := waitFor == 0 || (view in s.statuses && s.statuses[view] >= waitFor);
    s' == s.(readers := s.readers[reader := if current then Returned(view, waitFor) else NeedsJob(view, waitFor)])
  }

  ghost predicate EnqueueStep(s: System, s': System, reader: nat, job: nat) {
    && reader in s.readers && s.readers[reader].NeedsJob?
    && job in s.jobs && s.jobs[job].view == s.readers[reader].view
    && var NeedsJob(view, waitFor) := s.readers[reader];
    s' == s.(readers := s.readers[reader := Waiting(view, waitFor, job)])
  }

  // The retry loop: a result older than the transaction waited for asks for another job.
  ghost predicate ReceiveStep(s: System, s': System, reader: nat) {
    && reader in s.readers && s.readers[reader].Waiting?
    && var Waiting(view, waitFor, job) := s.readers[reader];
    && job in s.jobs && (s.jobs[job].Finished? || s.jobs[job].Failed?)
    && var next :=
         if s.jobs[job].Failed? then ReturnedError(view)
         else if waitFor <= s.jobs[job].transaction then Returned(view, waitFor)
         else NeedsJob(view, waitFor);
       s' == s.(readers := s.readers[reader := next])
  }

  ghost predicate Next(schema: Schema, s: System, s': System, a: Action) {
    match a
    case Commit(ops) => CommitStep(schema, s, s', ops)
    case StartJob(job, view) => StartStep(schema, s, s', job, view)
    case ListInvalidated(job, ids) => ListStep(schema, s, s', job, ids)
    case MapNextChunk(job, batches) => ChunkStep(schema, s, s', job, batches)
    case FinishJob(job) => FinishStep(s, s', job)
    case FailJob(job) => FailStep(s, s', job)
    case Enter(reader, view) => EnterStep(schema, s, s', reader, view)
    case CheckStatus(reader) => CheckStep(s, s', reader)
    case Enqueue(reader, job) => EnqueueStep(s, s', reader, job)
    case Receive(reader) => ReceiveStep(s, s', reader)
  }

  // The `i`-th action leads from one state to the next.
  ghost predicate Linked(schema: Schema, states: seq<System>, actions: seq<Action>, i: nat)
    requires i < |actions| < |states|
  {
    Next(schema, states[i], states[i + 1], actions[i])
  }

  // A run: states linked by actions, starting from the empty database.
  ghost predicate IsRun(schema: Schema, states: seq<System>, actions: seq<Action>) {
    && |states| == |actions| + 1
    && Init(schema, states[0])
    && forall i :: 0 <= i < |actions| ==> Linked(schema, states, actions, i)
  }

  // ---------------------------------------------------------------- the invariant

  // What view `v` holds of document `id` is what the document was at or after transaction `t`.
  ghost predicate FreshSince(schema: Schema, s: System, v: nat, t: nat, id: DocId)
    requires v < |schema.views| == |s.seen|
  {
    exists u: nat :: t <= u < |s.history| && Get(s.seen[v], id) == Lookup(s.history[u], schema.views[v].collection, id)
  }

  ghost predicate UpTo(schema: Schema, s: System, v: nat, t: nat)
    requires |schema.views| == |s.seen|
  {
    v < |schema.views| && forall id: DocId :: FreshSince(schema, s, v, t, id)
  }

  ghost predicate JobSound(schema: Schema, s: System, job: Job)
    requires |schema.views| == |s.seen|
  {
    match job
    case Started(view, transaction) => view < |schema.views| && transaction < |s.history|
    case InProgress(view, transaction, remaining) =>
      && view < |schema.views| && transaction < |s.history|
      && (schema.views[view].policy.IsEager() ==> remaining == [])
      && forall id: DocId :: id in remaining || FreshSince(schema, s, view, transaction, id)
    case Finished(view, transaction) => UpTo(schema, s, view, transaction)
    case Failed(_) => true
  }

  ghost predicate ReaderSound(schema: Schema, s: System, reader: Reader)
    requires |schema.views| == |s.seen|
  {
    match reader
    case Entered(view, waitFor) => view < |schema.views| && waitFor < |s.history|
    case NeedsJob(view, waitFor) => view < |schema.views| && waitFor < |s.history|
    case Waiting(view, waitFor, job) =>
      view < |schema.views| && waitFor < |s.history| && job in s.jobs && s.jobs[job].view == view
    case Returned(view, waitFor) => UpTo(schema, s, view, waitFor)
    case ReturnedError(_) => true
  }

  ghost predicate Inv(schema: Schema, s: System) {
    && AllTracked(schema, s.trees, s.seen)
    && s.history != [] && s.history[|s.history| - 1] == s.trees.docs
    && (forall v :: 0 <= v < |schema.views| ==> UpTo(schema, s, v, 0))
    && (forall v :: v in s.statuses ==> UpTo(schema, s, v, s.statuses[v]))
    && (forall j :: j in s.jobs ==> JobSound(schema, s, s.jobs[j]))
    && (forall r :: r in s.readers ==> ReaderSound(schema, s, s.readers[r]))
  }

  // ---------------------------------------------------------------- freshness is never lost

  // `s'` extends the history of `s`, and every document a view holds is as before or at its latest version.
  ghost predicate Advances(schema: Schema, s: System, s': System) {
    && |schema.views| == |s.seen| == |s'.seen|
    && s.history <= s'.history && s'.history != []
    && forall v, id: DocId :: 0 <= v < |s.seen| ==>
         || Get(s'.seen[v], id) == Get(s.seen[v], id)
         || Get(s'.seen[v], id) == Lookup(s'.history[|s'.history| - 1], schema.views[v].collection, id)
  }

  lemma FreshStays(schema: Schema, s: System, s': System, v: nat, t: nat, id: DocId)
    requires Advances(schema, s, s') && v < |schema.views|
    requires FreshSince(schema, s, v, t, id)
    ensures FreshSince(schema, s', v, t, id)
  {
    var u: nat :| t <= u < |s.history| && Get(s.seen[v], id) == Lookup(s.history[u], schema.views[v].collection, id);
    assert s'.history[u] == s.history[u];
    if Get(s'.seen[v], id) != Get(s.seen[v], id) {
      var last := |s'.history| - 1;
      assert t <= last < |s'.history| &&
        Get(s'.seen[v], id) == Lookup(s'.history[last], schema.views[v].collection, id);
    }
  }

  lemma UpToStays(schema: Schema, s: System, s': System, v: nat, t: nat)
    requires Advances(schema, s, s')
    requires UpTo(schema, s, v, t)
    ensures UpTo(schema, s', v, t)
  {
    forall id: DocId ensures FreshSince(schema, s', v, t, id) {
      FreshStays(schema, s, s', v, t, id);
    }
  }

  lemma JobStays(schema: Schema, s: System, s': System, job: Job)
    requires Advances(schema, s, s') && JobSound(schema, s, job)
    ensures JobSound(schema, s', job)
  {
    match job
    case InProgress(view, transaction, remaining) =>
      forall id: DocId | id !in remaining ensures FreshSince(schema, s', view, transaction, id) {
        FreshStays(schema, s, s', view, transaction, id);
      }
    case Finished(view, transaction) => UpToStays(schema, s, s', view, transaction);
    case _ =>
  }

  lemma OthersStay(schema: Schema, s: System, s': System)
    requires Inv(schema, s) && Advances(schema, s, s')
    ensures forall v :: 0 <= v < |schema.views| ==> UpTo(schema, s', v, 0)
    ensures forall v :: v in s.statuses ==> UpTo(schema, s', v, s.statuses[v])
    ensures forall j :: j in s.jobs ==> JobSound(schema, s', s.jobs[j])
    ensures forall r :: r in s.readers && s.readers[r].Returned? ==>
      UpTo(schema, s', s.readers[r].view, s.readers[r].waitFor)
  {
    forall v | 0 <= v < |schema.views| ensures UpTo(schema, s', v, 0) {
      UpToStays(schema, s, s', v, 0);
    }
    forall v | v in s.statuses ensures UpTo(schema, s', v, s.statuses[v]) {
      UpToStays(schema, s, s', v, s.statuses[v]);
    }
    forall j | j in s.jobs ensures JobSound(schema, s', s.jobs[j]) {
      JobStays(schema, s, s', s.jobs[j]);
    }
    forall r | r in s.readers && s.readers[r].Returned?
      ensures UpTo(schema, s', s.readers[r].view, s.readers[r].waitFor)
    {
      assert ReaderSound(schema, s, s.readers[r]);
      UpToStays(schema, s, s', s.readers[r].view, s.readers[r].waitFor);
    }
  }

  // ---------------------------------------------------------------- every step keeps the invariant

  lemma CommitKeeps(schema: Schema, s: System, s': System, ops: seq<Operation>)
    requires Inv(schema, s) && CommitStep(schema, s, s', ops)
    ensures Inv(schema, s')
  {
    ApplyTracks(schema, s.trees, ops, s.seen);
    OthersStay(schema, s, s');
  }

  // When a job lists the invalidated ids, every other document is held at its current version.
  lemma ListKeeps(schema: Schema, s: System, s': System, job: nat, ids: seq<DocId>)
    requires Inv(schema, s) && ListStep(schema, s, s', job, ids)
    ensures Inv(schema, s')
  {
    OthersStay(schema, s, s');
    var Started(view, transaction) := s.jobs[job];
    assert JobSound(schema, s, s.jobs[job]);
    assert Tracked(schema.views[view], s.trees.views[view], s.trees.docs, s.seen[view]);
    assert forall id :: id in ids <==> id in s.trees.views[view].invalidated by {
      assert forall id :: id in ids <==> id in set x | x in ids;
    }
    forall id: DocId | id !in ids ensures FreshSince(schema, s', view, transaction, id) {
      var last := |s.history| - 1;
      assert transaction <= last < |s'.history| &&
        Get(s'.seen[view], id) == Lookup(s'.history[last], schema.views[view].collection, id);
    }
    assert ids != [] ==> ids[0] in s.trees.views[view].invalidated;
    assert JobSound(schema, s', s'.jobs[job]);
  }

  lemma ChunkKeeps(schema: Schema, s: System, s': System, job: nat, batches: seq<seq<DocId>>)
    requires Inv(schema, s) && ChunkStep(schema, s, s', job, batches)
    ensures Inv(schema, s')
  {
    var view := s.jobs[job].view;
    assert JobSound(schema, s, s.jobs[job]);
    MapChunkTracks(schema, s.trees, view, batches, s.seen);
    OthersStay(schema, s, s');
    ChunkFresh(schema, s, s', job, batches);
  }

  // Of the documents that remain to be mapped, those of the chunk are now at their current version.
  lemma ChunkFresh(schema: Schema, s: System, s': System, job: nat, batches: seq<seq<DocId>>)
    requires Inv(schema, s) && ChunkStep(schema, s, s', job, batches) && Advances(schema, s, s')
    ensures JobSound(schema, s', s'.jobs[job])
  {
    var InProgress(view, transaction, remaining) := s.jobs[job];
    assert JobSound(schema, s, s.jobs[job]);
    var cut := ChunkStart(remaining);
    forall id: DocId | id !in remaining[..cut] ensures FreshSince(schema, s', view, transaction, id) {
      if id in Members(batches) {
        var last := |s'.history| - 1;
        assert transaction <= last < |s'.history| &&
          Get(s'.seen[view], id) == Lookup(s'.history[last], schema.views[view].collection, id);
      } else {
        assert remaining == remaining[..cut] + remaining[cut..];
        FreshStays(schema, s, s', view, transaction, id);
      }
    }
  }

  lemma StartKeeps(schema: Schema, s: System, s': System, job: nat, view: nat)
    requires Inv(schema, s) && StartStep(schema, s, s', job, view)
    ensures Inv(schema, s')
  {
    OthersStay(schema, s, s');
  }

  lemma FailKeeps(schema: Schema, s: System, s': System, job: nat)
    requires Inv(schema, s) && FailStep(s, s', job)
    ensures Inv(schema, s')
  {
    OthersStay(schema, s, s');
  }

  // A job with nothing left has brought the view up to the transaction it read at its start.
  lemma FinishKeeps(schema: Schema, s: System, s': System, job: nat)
    requires Inv(schema, s) && FinishStep(s, s', job)
    ensures Inv(schema, s')
  {
    OthersStay(schema, s, s');
    var InProgress(view, transaction, _) := s.jobs[job];
    assert JobSound(schema, s', s.jobs[job]);
    assert UpTo(schema, s', view, transaction);
  }

  // A step of a reader that leaves the new reader state sound keeps everything else.
  lemma ReaderKeeps(schema: Schema, s: System, s': System, reader: nat, next: Reader)
    requires Inv(schema, s) && s' == s.(readers := s.readers[reader := next])
    requires ReaderSound(schema, s, next)
    ensures Inv(schema, s')
  {
    OthersStay(schema, s, s');
    if next.Returned? {
      UpToStays(schema, s, s', next.view, next.waitFor);
    }
  }

  // A status is never ahead of what was mapped, so the fast path is sound.
  lemma CheckKeeps(schema: Schema, s: System, s': System, reader: nat)
    requires Inv(schema, s) && CheckStep(s, s', reader)
    ensures Inv(schema, s')
  {
    var Entered(view, waitFor) := s.readers[reader];
    assert ReaderSound(schema, s, s.readers[reader]);
    if s'.readers[reader].Returned? && waitFor > 0 {
      UpToWeaker(schema, s, view, s.statuses[view], waitFor);
    }
    ReaderKeeps(schema, s, s', reader, s'.readers[reader]);
  }

  // So is every job result that is recent enough.
  lemma ReceiveKeeps(schema: Schema, s: System, s': System, reader: nat)
    requires Inv(schema, s) && ReceiveStep(s, s', reader)
    ensures Inv(schema, s')
  {
    var Waiting(view, waitFor, job) := s.readers[reader];
    assert ReaderSound(schema, s, s.readers[reader]);
    assert JobSound(schema, s, s.jobs[job]);
    if s'.readers[reader].Returned? {
      UpToWeaker(schema, s, view, s.jobs[job].transaction, waitFor);
    }
    ReaderKeeps(schema, s, s', reader, s'.readers[reader]);
  }

  lemma UpToWeaker(schema: Schema, s: System, v: nat, t: nat, t': nat)
    requires |schema.views| == |s.seen| && t' <= t && UpTo(schema, s, v, t)
    ensures UpTo(schema, s, v, t')
  {
    forall id: DocId ensures FreshSince(schema, s, v, t', id) {
      assert FreshSince(schema, s, v, t, id);
    }
  }

  lemma InitSound(schema: Schema, s: System)
    requires Init(schema, s)
    ensures Inv(schema, s)
  {
    forall v | 0 <= v < |schema.views|
      ensures Tracked(schema.views[v], s.trees.views[v], s.trees.docs, s.seen[v])
      ensures UpTo(schema, s, v, 0)
    {
      forall k: Bytes, id: DocId
        ensures Find(MappingsAt(s.trees.views[v], k), id) == Contribution(schema.views[v], Get(s.seen[v], id), k)
      {
      }
      forall id: DocId ensures FreshSince(schema, s, v, 0, id) {
        assert 0 <= 0 < |s.history| && Get(s.seen[v], id) == Lookup(s.history[0], schema.views[v].collection, id);
      }
    }
  }

  lemma StepKeeps(schema: Schema, s: System, s': System, a: Action)
    requires Inv(schema, s) && Next(schema, s, s', a)
    ensures Inv(schema, s')
  {
    match a
    case Commit(ops) => CommitKeeps(schema, s, s', ops);
    case ListInvalidated(job, ids) => ListKeeps(schema, s, s', job, ids);
    case MapNextChunk(job, batches) => ChunkKeeps(schema, s, s', job, batches);
    case StartJob(job, view) => StartKeeps(schema, s, s', job, view);
    case FinishJob(job) => FinishKeeps(schema, s, s', job);
    case FailJob(job) => FailKeeps(schema, s, s', job);
    case Enter(reader, _) => ReaderKeeps(schema, s, s', reader, s'.readers[reader]);
    case CheckStatus(reader) => CheckKeeps(schema, s, s', reader);
    case Enqueue(reader, _) =>
      assert ReaderSound(schema, s, s.readers[reader]);
      ReaderKeeps(schema, s, s', reader, s'.readers[reader]);
    case Receive(reader) => ReceiveKeeps(schema, s, s', reader);
  }

  lemma RunStep(schema: Schema, states: seq<System>, actions: seq<Action>, n: nat)
    requires IsRun(schema, states, actions) && n < |actions|
    ensures Next(schema, states[n], states[n + 1], actions[n])
  {
    assert Linked(schema, states, actions, n);
  }

  lemma {:induction false} RunKeeps(schema: Schema, states: seq<System>, actions: seq<Action>, n: nat)
    requires IsRun(schema, states, actions) && n < |states|
    ensures Inv(schema, states[n])
  {
    if n == 0 {
      InitSound(schema, states[0]);
    } else {
      RunKeeps(schema, states, actions, n - 1);
      RunStep(schema, states, actions, n - 1);
      StepKeeps(schema, states[n - 1], states[n], actions[n - 1]);
    }
  }

  // ---------------------------------------------------------------- what every run guarantees

  // The reader asks about this view and, unless it failed, waits for transaction `t`.
  ghost predicate Asks(s: System, reader: nat, view: nat, t: nat) {
    && reader in s.readers && s.readers[reader].view == view
    && (s.readers[reader].ReturnedError? || s.readers[reader].waitFor == t)
  }

  lemma StillAsks(schema: Schema, states: seq<System>, actions: seq<Action>, n: nat, reader: nat, view: nat, t: nat)
    requires IsRun(schema, states, actions) && n < |actions|
    requires Asks(states[n], reader, view, t)
    ensures Asks(states[n + 1], reader, view, t)
  {
    RunStep(schema, states, actions, n);
  }

  lemma {:induction false} AsksOn(schema: Schema, states: seq<System>, actions: seq<Action>, m: nat, n: nat,
                                  reader: nat, view: nat, t: nat)
    requires IsRun(schema, states, actions) && m <= n < |states|
    requires Asks(states[m], reader, view, t)
    ensures Asks(states[n], reader, view, t)
    decreases n
  {
    if m < n {
      AsksOn(schema, states, actions, m, n - 1, reader, view, t);
      StillAsks(schema, states, actions, n - 1, reader, view, t);
    }
  }

  // A step keeps the history, and adds to it at most the documents it leaves.
  lemma HistoryStep(schema: Schema, states: seq<System>, actions: seq<Action>, n: nat)
    requires IsRun(schema, states, actions) && n < |actions|
    ensures states[n].history <= states[n + 1].history && |states[n + 1].history| <= |states[n].history| + 1
  {
    RunStep(schema, states, actions, n);
  }

  // What the history holds from a state on are the documents of later states.
  lemma {:induction false} HistoryIsStates(schema: Schema, states: seq<System>, actions: seq<Action>,
                                           m: nat, n: nat, t: nat)
    requires IsRun(schema, states, actions) && m <= n < |states|
    requires |states[m].history| - 1 <= t < |states[n].history|
    ensures exists j :: m <= j <= n && states[j].trees.docs == states[n].history[t]
    decreases n
  {
    RunKeeps(schema, states, actions, n);
    if t == |states[n].history| - 1 {
      assert states[n].trees.docs == states[n].history[t];
    } else {
      if m == n {
        assert false;
      }
      HistoryStep(schema, states, actions, n - 1);
      HistoryIsStates(schema, states, actions, m, n - 1, t);
      var j :| m <= j <= n - 1 && states[j].trees.docs == states[n - 1].history[t];
      assert states[n].history[t] == states[n - 1].history[t];
    }
  }

  // The index shows the document as it is among `docs`.
  ghost predicate ShowsFrom(view: View, vt: ViewTrees, id: DocId, docs: Docs) {
    var k := DocKey(view.collection, id);
    Shows(view, vt, id, if k in docs then Some(docs[k]) else None)
  }

  // Read your writes: in every interleaving, when a reader that entered in state `m` has returned by state `n`, the
  // index shows every document as it was stored in some state between them - through the cached status or the
  // retry loop.
  lemma ReadersSeeTheirWrites(schema: Schema, states: seq<System>, actions: seq<Action>, m: nat, n: nat,
                              reader: nat, view: nat, id: DocId)
    requires IsRun(schema, states, actions) && m < n < |states|
    requires actions[m] == Enter(reader, view)
    requires reader in states[n].readers && states[n].readers[reader].Returned?
    ensures view < |schema.views| == |states[n].trees.views|
    ensures
      var index := states[n].trees.views[view];
      exists j :: m <= j <= n && ShowsFrom(schema.views[view], index, id, states[j].trees.docs)
  {
    RunStep(schema, states, actions, m);
    RunKeeps(schema, states, actions, m);
    RunKeeps(schema, states, actions, n);
    var waitFor := |states[m].history| - 1;
    AsksOn(schema, states, actions, m + 1, n, reader, view, waitFor);
    var t := ShownSince(schema, states[n], reader, id);
    HistoryIsStates(schema, states, actions, m, n, t);
    var j :| m <= j <= n && states[j].trees.docs == states[n].history[t];
    assert ShowsFrom(schema.views[view], states[n].trees.views[view], id, states[j].trees.docs);
  }

  // What a sound reader that has returned is shown.
  lemma ShownSince(schema: Schema, s: System, reader: nat, id: DocId) returns (t: nat)
    requires Inv(schema, s) && reader in s.readers && s.readers[reader].Returned?
    ensures
      var Returned(v, waitFor) := s.readers[reader];
      && v < |schema.views| == |s.trees.views| && waitFor <= t < |s.history|
      && Shows(schema.views[v], s.trees.views[v], id, Lookup(s.history[t], schema.views[v].collection, id))
  {
    var Returned(v, waitFor) := s.readers[reader];
    assert ReaderSound(schema, s, s.readers[reader]);
    assert FreshSince(schema, s, v, waitFor, id);
    t :| waitFor <= t < |s.history| && Get(s.seen[v], id) == Lookup(s.history[t], schema.views[v].collection, id);
    assert Tracked(schema.views[v], s.trees.views[v], s.trees.docs, s.seen[v]);
    IndexShows(schema.views[v], s.trees.views[v], s.seen[v], id);
  }

  // The reader, unless it failed, waits for transaction `t`, and the job, once started, knows of that transaction.
  ghost predicate Younger(s: System, reader: nat, job: nat, t: nat) {
    && t <= s.LastTransaction()
    && reader in s.readers && (s.readers[reader].ReturnedError? || s.readers[reader].waitFor == t)
    && (job in s.jobs ==> s.jobs[job].Failed? || t <= s.jobs[job].transaction)
  }

  lemma StaysYounger(schema: Schema, states: seq<System>, actions: seq<Action>, n: nat, reader: nat, job: nat, t: nat)
    requires IsRun(schema, states, actions) && n < |actions|
    requires Younger(states[n], reader, job, t)
    ensures Younger(states[n + 1], reader, job, t)
  {
    RunStep(schema, states, actions, n);
  }

  lemma {:induction false} RunYounger(schema: Schema, states: seq<System>, actions: seq<Action>, m: nat, n: nat,
                                      reader: nat, job: nat, t: nat)
    requires IsRun(schema, states, actions) && m <= n < |states|
    requires Younger(states[m], reader, job, t)
    ensures Younger(states[n], reader, job, t)
    decreases n
  {
    if m < n {
      RunYounger(schema, states, actions, m, n - 1, reader, job, t);
      StaysYounger(schema, states, actions, n - 1, reader, job, t);
    }
  }

  // The retry loop makes progress: a job that was not there when the reader entered never sends the reader round
  // again. It returns, or reports that the job failed.
  lemma OnlyOlderJobsRetry(schema: Schema, states: seq<System>, actions: seq<Action>, m: nat, n: nat,
                           reader: nat, job: nat)
    requires IsRun(schema, states, actions) && m <= n < |actions|
    requires reader in states[m].readers && states[m].readers[reader].Entered? && job !in states[m].jobs
    requires actions[n] == Receive(reader) && reader in states[n].readers
    requires states[n].readers[reader].Waiting? && states[n].readers[reader].job == job
    ensures job in states[n].jobs && reader in states[n + 1].readers
    ensures states[n + 1].readers[reader] ==
      if states[n].jobs[job].Failed? then ReturnedError(states[n].readers[reader].view)
      else Returned(states[n].readers[reader].view, states[m].readers[reader].waitFor)
  {
    RunKeeps(schema, states, actions, m);
    assert ReaderSound(schema, states[m], states[m].readers[reader]);
    RunYounger(schema, states, actions, m, n, reader, job, states[m].readers[reader].waitFor);
    RunStep(schema, states, actions, n);
  }

  // Every commit and every mapped chunk takes one transaction id, and nothing else does.
  lemma TransactionsAreCounted(schema: Schema, states: seq<System>, actions: seq<Action>, n: nat)
    requires IsRun(schema, states, actions) && n < |actions|
    ensures |states[n + 1].history| == |states[n].history| +
            if actions[n].Commit? || actions[n].MapNextChunk? then 1 else 0
  {
    RunStep(schema, states, actions, n);
  }

  // A reader of an empty database returns at once.
  lemma EmptyDatabaseReturns(schema: Schema, states: seq<System>, actions: seq<Action>, n: nat, reader: nat, view: nat)
    requires IsRun(schema, states, actions) && n + 1 < |actions| && |states[n].history| == 1
    requires actions[n] == Enter(reader, view) && actions[n + 1] == CheckStatus(reader)
    ensures reader in states[n + 2].readers && states[n + 2].readers[reader] == Returned(view, 0)
  {
    RunStep(schema, states, actions, n);
    RunStep(schema, states, actions, n + 1);
  }

  // The fast path: once a job has finished, a reader that waits for nothing newer returns without another job.
  lemma FinishedJobsAreCached(schema: Schema, states: seq<System>, actions: seq<Action>, n: nat, job: nat, reader: nat)
    requires IsRun(schema, states, actions) && n + 1 < |actions|
    requires actions[n] == FinishJob(job) && actions[n + 1] == CheckStatus(reader)
    requires job in states[n].jobs && states[n].jobs[job].InProgress?
    requires reader in states[n].readers && states[n].readers[reader].Entered?
    requires states[n].readers[reader].view == states[n].jobs[job].view
    requires states[n].readers[reader].waitFor <= states[n].jobs[job].transaction
    ensures reader in states[n + 2].readers && states[n + 2].readers[reader].Returned?
  {
    RunStep(schema, states, actions, n);
    RunStep(schema, states, actions, n + 1);
  }

  // A mapped chunk, at most 100000 ids from the end of the job's list, is no longer invalidated.
  lemma ChunksAreCleared(schema: Schema, states: seq<System>, actions: seq<Action>, n: nat, job: nat,
                         batches: seq<seq<DocId>>, id: DocId)
    requires IsRun(schema, states, actions) && n < |actions| && actions[n] == MapNextChunk(job, batches)
    ensures job in states[n].jobs && states[n].jobs[job].InProgress?
    ensures
      var InProgress(view, transaction, remaining) := states[n].jobs[job];
      var cut := if |remaining| < 100_000 then 0 else |remaining| - 100_000;
      && view < |states[n].trees.views| == |states[n + 1].trees.views|
      && states[n + 1].jobs == states[n].jobs[job := InProgress(view, transaction, remaining[..cut])]
      && (id in states[n + 1].trees.views[view].invalidated <==>
            id in states[n].trees.views[view].invalidated && id !in remaining[cut..])
  {
    RunStep(schema, states, actions, n);
    RunKeeps(schema, states, actions, n);
    var InProgress(view, _, remaining) := states[n].jobs[job];
    assert JobSound(schema, states[n], states[n].jobs[job]);
    MapChunkExactly(schema, states[n].trees, view, batches);
    assert forall x :: x in Members(batches) <==> x in remaining[ChunkStart(remaining)..] by {
      assert Members(batches) == set x | x in remaining[ChunkStart(remaining)..];
    }
  }

  // In every state of every run: a view that is not lazy has nothing invalidated, a view with nothing invalidated is
  // the recomputation from the committed documents, and no two documents share a key of a unique view.
  lemma CurrentViewsAreRecomputations(schema: Schema, states: seq<System>, actions: seq<Action>, n: nat, v: nat)
    requires IsRun(schema, states, actions) && n < |states| && v < |schema.views|
    ensures
      var s, view := states[n], schema.views[v];
      && |s.trees.views| == |schema.views|
      && (view.policy != Lazy ==> s.trees.views[v].invalidated == {})
      && (s.trees.views[v].invalidated == {} ==>
            Recomputed(view, s.trees.views[v], Contents(s.trees.docs, view.collection)))
      && (view.policy == Unique ==> NoneShared(view, Contents(s.trees.docs, view.collection)))
  {
    RunKeeps(schema, states, actions, n);
    var s, view := states[n], schema.views[v];
    assert Tracked(view, s.trees.views[v], s.trees.docs, s.seen[v]);
    UnambiguousMeans(view, s.seen[v]);
    if s.trees.views[v].invalidated == {} {
      NothingInvalidated(view, s.trees.views[v], s.trees.docs, s.seen[v]);
      IndexesMeans(view, s.trees.views[v], s.seen[v]);
    }
  }

  // In every state of every run, every entry of every view holds something, one mapping per document, and the
  // reduction of all its values.
  lemma EntriesAreCondensed(schema: Schema, states: seq<System>, actions: seq<Action>, n: nat, v: nat, key: Bytes)
    requires IsRun(schema, states, actions) && n < |states| && v < |schema.views| == |states[n].trees.views|
    requires key in states[n].trees.views[v].entries
    ensures Condensed(schema.views[v], key, states[n].trees.views[v].entries[key])
  {
    RunKeeps(schema, states, actions, n);
    var s := states[n];
    assert Tracked(schema.views[v], s.trees.views[v], s.trees.docs, s.seen[v]);
    IndexesMeans(schema.views[v], s.trees.views[v], s.seen[v]);
  }

  // A view is wrong about a document only while the document is in the view's invalidated set.
  lemma StaleIsInvalidated(schema: Schema, states: seq<System>, actions: seq<Action>, n: nat, v: nat, id: DocId)
    requires IsRun(schema, states, actions) && n < |states| && v < |schema.views| == |states[n].trees.views|
    requires !ShowsFrom(schema.views[v], states[n].trees.views[v], id, states[n].trees.docs)
    ensures id in states[n].trees.views[v].invalidated
  {
    RunKeeps(schema, states, actions, n);
    var s := states[n];
    assert Tracked(schema.views[v], s.trees.views[v], s.trees.docs, s.seen[v]);
    IndexShows(schema.views[v], s.trees.views[v], s.seen[v], id);
  }
}
