/**
 Runs of a first process, up to where its first response is to be handled: any requests are
 posted, numbered, appended and flushed together.
 */
module CommitRuns {
  import opened Common
  import opened RecordFormat
  import opened GroupCommit
  import opened CommitInvariant
  import CommitSteps
  import CommitLogSteps
  import opened CommitTheorems
  import CommitProgress
  import FileHandler
  import Journal
  import JournalOrder

  ghost predicate Good(st: State) {
    Reachable(st) && st.sys.fault.None? && !JournalOrder.Stuck(st.sys.journal, st.sys.epoch)
  }

  lemma GoodStep(st: State, step: Step)
    requires Good(st) && Enabled(st, step) && CommitProgress.Internal(step) && FaultOf(st, step) == None
    ensures Good(Next(st, step))
  {
    hide Inv, Enabled, Next, JournalOrder.Stuck, Reachable, FaultOf;
    ReachableInv(st);
    StepReachable(st, step);
    StepKeeps(st, step);
    CommitProgress.NotStuckAfter(st, step);
  }

  lemma FlowOf(st: State)
    requires Good(st)
    ensures Inv(st) && Flow(st)
  {
    hide Reachable, Durable, Flow, JournalOrder.Stuck;
    ReachableInv(st);
  }

  // In a first process that has flushed nothing yet.
  ghost predicate Early(st: State, callers: nat) {
    var h := st.history;
    && Good(st) && h.callers == callers && h.base == 0 && h.flushed == 0 && h.applied == []
    && st.sys.store == map[] && st.sys.epoch == 1 && !st.sys.logCenter.idle
  }

  // ----- Posting ---------------------------------------------------------------------

  ghost predicate Writes(rs: seq<Request>) {
    forall i :: 0 <= i < |rs| ==> rs[i].ticket == i && rs[i].opType != OP_GET
  }

  function Operations(rs: seq<Request>): set<nat> {
    set i | 0 <= i < |rs| :: rs[i].opType
  }

  function NewContexts(rs: seq<Request>): (ctxs: seq<RequestContext>)
    ensures |ctxs| == |rs| && forall i :: 0 <= i < |rs| ==> ctxs[i] == NewContext(rs[i])
  {
    seq(|rs|, i requires 0 <= i < |rs| => NewContext(rs[i]))
  }

  lemma {:induction false} Posted(callers: nat, rs: seq<Request>) returns (st: State)
    requires Writes(rs) && |rs| <= callers
    ensures Early(st, callers) && st.history.log == [] && st.history.waiting == []
    ensures st.sys.requestCenter.batch == [] && st.sys.requestCenter.queue == NewContexts(rs)
    ensures st.sys.logCenter.batch == [] && st.sys.logCenter.queue == []
    ensures st.history.posted == |rs| && |st.history.blocked| <= |rs| && st.history.operations == Operations(rs)
    decreases |rs|
  {
    hide Storable, Acceptable, Reachable, JournalOrder.Stuck;
    if rs == [] {
      InitialEarly(callers);
      st := Initial(callers);
    } else {
      var n := |rs| - 1;
      var before := Posted(callers, rs[..n]);
      st := PostGood(before, rs[n]);
      assert NewContexts(rs) == NewContexts(rs[..n]) + [NewContext(rs[n])];
      assert Operations(rs) == Operations(rs[..n]) + {rs[n].opType};
    }
  }

  lemma InitialEarly(callers: nat)
    ensures var st := Initial(callers);
            && Early(st, callers) && st.sys.logCenter == LogCenterState([], [], false, 0, map[], map[])
            && st.sys.requestCenter == RequestCenterState([], [], 0, map[])
            && st.history == History([], 0, 0, [], [], {}, {}, callers, 0, {}, {}, [], true)
  {
    hide Reachable;
    InitialReachable(callers);
    EmptyDisk();
  }

  lemma PostGood(st: State, r: Request) returns (next: State)
    requires Good(st) && r.ticket == st.history.posted && |st.history.blocked| < st.history.callers
    ensures Good(next) && next == AfterPost(st, r)
  {
    hide Reachable, Storable, JournalOrder.Stuck;
    var step := Post(r.opType, r.table, r.key, r.value);
    StepReachable(st, step);
    next := Next(st, step);
  }

  // ----- Numbering -------------------------------------------------------------------

  ghost function RecordsFor(rs: seq<Request>): (records: seq<Entry>)
    requires Writes(rs) && |rs| + 1 < UINT32
    ensures |records| == |rs| && forall i :: 0 <= i < |rs| ==> records[i] == RecordFor(rs[i], i + 1)
  {
    seq(|rs|, i requires 0 <= i < |rs| => RecordFor(rs[i], i + 1))
  }

  lemma TakenUp(callers: nat, rs: seq<Request>) returns (st: State)
    requires Writes(rs) && 0 < |rs| <= callers
    ensures Early(st, callers) && st.history.log == [] && st.history.waiting == []
    ensures st.sys.requestCenter.batch == NewContexts(rs) && st.sys.requestCenter.queue == []
    ensures st.history.operations == Operations(rs)
    ensures st.sys.logCenter.batch == []
  {
    hide Storable, Acceptable, Reachable, JournalOrder.Stuck, Good;
    var st0 := Posted(callers, rs);
    EnabledTakeRequests(st0);
    GoodStep(st0, TakeRequests);
    st := AfterTakeRequests(st0);
  }

  lemma EnabledTakeRequests(st: State)
    requires Good(st) && st.sys.requestCenter.batch == [] && st.sys.requestCenter.queue != []
    ensures Enabled(st, TakeRequests)
  {
    hide Reachable, JournalOrder.Stuck;
  }

  lemma {:induction false} SomeNumbered(callers: nat, rs: seq<Request>, k: nat) returns (st: State)
    requires Writes(rs) && 0 < |rs| <= callers && |rs| + 1 < UINT32 && k <= |rs|
    ensures Early(st, callers) && st.history.log == [] && st.history.waiting == RecordsFor(rs)[..k]
    ensures st.sys.requestCenter.batch == NewContexts(rs)[k..] && st.sys.requestCenter.queue == []
    ensures st.history.operations == Operations(rs)
    ensures st.sys.logCenter.batch == []
    decreases k
  {
    hide Storable, Acceptable, Good;
    if k == 0 {
      st := TakenUp(callers, rs);
    } else {
      var before := SomeNumbered(callers, rs, k - 1);
      st := NumberOne(before, rs[k - 1]);
      assert RecordsFor(rs)[..k] == RecordsFor(rs)[..k - 1] + [RecordFor(rs[k - 1], k)];
    }
  }

  lemma NumberOne(st: State, r: Request) returns (next: State)
    requires Early(st, st.history.callers) && st.history.log == [] && |st.history.waiting| + 1 < UINT32
    requires r.opType != OP_GET
    requires st.sys.requestCenter.batch != [] && st.sys.requestCenter.batch[0] == NewContext(r)
    ensures Early(next, st.history.callers) && next.history.log == []
    ensures next.history.waiting == st.history.waiting + [RecordFor(r, |st.history.waiting| + 1)]
    ensures next.sys.requestCenter.batch == st.sys.requestCenter.batch[1..]
    ensures next.sys.requestCenter.queue == st.sys.requestCenter.queue
    ensures next.sys.logCenter.batch == st.sys.logCenter.batch
    ensures next.history.operations == st.history.operations
  {
    hide Storable, Acceptable, Reachable, JournalOrder.Stuck, Inv, Flow;
    FlowOf(st);
    CommitSteps.FlowFacts(st);
    GoodStep(st, HandleRequest([]));
    next := Next(st, HandleRequest([]));
  }

  // ----- Appending -------------------------------------------------------------------

  // The line of the log center, when all of it is either in the queue or in the batch.
  lemma LineOf(st: State)
    requires Good(st) && st.history.base == 0
    ensures st.sys.logCenter.batch + st.sys.logCenter.queue == Contexts([], st.history.waiting)
    ensures |st.sys.logCenter.mToFlushLog| == |st.history.log| - st.history.flushed
  {
    hide Reachable, Storable, RequestFlow, StoreOk, Callers, Durable, Contexts, JournalOrder.Stuck;
    FlowOf(st);
    var h := st.history;
    assert h.log[Least(|h.applied|, 0)..0] == [];
    CommitLogSteps.SegmentCount(h.log, h.flushed, |h.log|);
  }

  lemma {:induction false} SomeAppended(callers: nat, rs: seq<Request>, k: nat) returns (st: State)
    requires Writes(rs) && 0 < |rs| <= callers && |rs| + 1 < UINT32
    requires k <= |rs| && k <= MAX_LOG_NUM_TO_FLUSH
    ensures Early(st, callers)
    ensures st.history.log == RecordsFor(rs)[..k] && st.history.waiting == RecordsFor(rs)[k..]
    ensures st.history.operations == Operations(rs)
    ensures st.sys.requestCenter.batch == [] && st.sys.requestCenter.queue == []
    ensures st.sys.logCenter.queue == [] && st.sys.logCenter.batch == Contexts([], st.history.waiting)
    decreases k
  {
    hide Storable, Acceptable, Good, Contexts;
    if k == 0 {
      var st0 := SomeNumbered(callers, rs, |rs|);
      assert RecordsFor(rs)[..|rs|] == RecordsFor(rs)[0..] == RecordsFor(rs);
      LineOf(st0);
      assert [] + st0.sys.logCenter.queue == st0.sys.logCenter.queue;
      EnabledTakeLogs(st0);
      GoodStep(st0, TakeLogs);
      st := AfterTakeLogs(st0);
      NotEmpty(st0.history.waiting);
    } else {
      var before := SomeAppended(callers, rs, k - 1);
      assert before.history.waiting[0] == RecordsFor(rs)[k - 1];
      st := AppendOne(before);
      assert RecordsFor(rs)[..k] == RecordsFor(rs)[..k - 1] + [RecordsFor(rs)[k - 1]];
      assert RecordsFor(rs)[k - 1..][1..] == RecordsFor(rs)[k..];
    }
  }

  lemma NotEmpty(waiting: seq<Entry>)
    ensures |Contexts([], waiting)| == |waiting|
  {}

  lemma EnabledTakeLogs(st: State)
    requires Good(st) && st.sys.logCenter.batch == [] && !st.sys.logCenter.idle
    ensures Enabled(st, TakeLogs)
  {
    hide Reachable, JournalOrder.Stuck;
  }

  lemma AppendOne(st: State) returns (next: State)
    requires Early(st, st.history.callers) && st.history.waiting != [] && |st.history.log| < MAX_LOG_NUM_TO_FLUSH
    requires st.sys.logCenter.queue == [] && st.sys.logCenter.batch == Contexts([], st.history.waiting)
    requires st.sys.requestCenter.batch == [] && st.sys.requestCenter.queue == []
    ensures Early(next, st.history.callers)
    ensures next.history.log == st.history.log + [st.history.waiting[0]]
    ensures next.history.waiting == st.history.waiting[1..]
    ensures next.history.operations == st.history.operations
    ensures next.sys.logCenter.queue == [] && next.sys.logCenter.batch == Contexts([], next.history.waiting)
    ensures next.sys.requestCenter.batch == [] && next.sys.requestCenter.queue == []
  {
    hide Storable, Acceptable, Reachable, JournalOrder.Stuck, Contexts, Journal.WriteLog, Inv, Flow;
    CommitLogSteps.ContextsFirst([], st.history.waiting);
    LineOf(st);
    GoodStep(st, HandleLog);
    next := Next(st, HandleLog);
  }

  // ----- Flushing --------------------------------------------------------------------

  // All of it is appended and the queue has been found empty.
  lemma ReadyToFlush(callers: nat, rs: seq<Request>) returns (st: State)
    requires Writes(rs) && 0 < |rs| <= callers && |rs| <= MAX_LOG_NUM_TO_FLUSH
    ensures Good(st) && st.history.callers == callers && st.sys.epoch == 1
    ensures st.history.operations == Operations(rs)
    ensures st.history.log == RecordsFor(rs) && st.history.flushed == 0
    ensures st.history.applied == [] && st.history.base == 0 && st.sys.store == map[]
    ensures st.sys.requestCenter.batch == [] && st.sys.requestCenter.queue == []
    ensures Enabled(st, Idle) && |st.sys.logCenter.mToFlushLog| == |rs|
  {
    hide Storable, Acceptable, Good, Contexts, RepliesOf, AfterIdle;
    var before := SomeAppended(callers, rs, |rs|);
    assert RecordsFor(rs)[..|rs|] == RecordsFor(rs) && RecordsFor(rs)[|rs|..] == [];
    NotEmpty([]);
    EnabledTakeLogs(before);
    GoodStep(before, TakeLogs);
    LineOf(before);
    st := AfterTakeLogs(before);
    EnabledIdle(st);
  }

  // The response with all of it is the next thing the request center handles.
  lemma Responded(callers: nat, rs: seq<Request>) returns (st: State)
    requires Writes(rs) && 0 < |rs| <= callers && |rs| < FLUSH_COUNTS
    ensures Good(st) && st.history.callers == callers && st.sys.epoch == 1
    ensures st.history.operations == Operations(rs)
    ensures st.history.log == RecordsFor(rs) && st.history.flushed == |rs|
    ensures st.history.applied == [] && st.history.base == 0 && st.sys.store == map[]
    ensures st.sys.requestCenter.batch == [FinishContext(RepliesOf(RecordsFor(rs), 0, 0, |rs|))]
    ensures st.sys.requestCenter.queue == []
  {
    hide Storable, Acceptable, Good, RepliesOf, AfterIdle, Enabled;
    var st1 := ReadyToFlush(callers, rs);
    GoodStep(st1, Idle);
    var st2 := AfterIdle(st1);
    IdleResponds(st1);
    EnabledTakeRequests(st2);
    GoodStep(st2, TakeRequests);
    st := AfterTakeRequests(st2);
  }

  lemma EnabledIdle(st: State)
    requires Good(st) && st.sys.logCenter.batch == [] && st.sys.logCenter.idle
    ensures Enabled(st, Idle)
  {
    hide Reachable, JournalOrder.Stuck;
  }

  lemma IdleResponds(st: State)
    requires Good(st) && st.history.base == 0
    requires 0 < |st.history.log| - st.history.flushed < FLUSH_COUNTS
    ensures var s, t, h := st.sys, AfterIdle(st).sys, st.history;
            && t.requestCenter.queue ==
               s.requestCenter.queue + [FinishContext(RepliesOf(h.log, 0, h.flushed, |h.log|))]
            && t.requestCenter == s.requestCenter.(queue := t.requestCenter.queue)
            && t.store == s.store && t.epoch == s.epoch
    ensures AfterIdle(st).history == st.history.(flushed := |st.history.log|)
  {
    hide Storable, Acceptable, Reachable, JournalOrder.Stuck, Journal.FlushLog, Durable, LogFlow, RequestFlow, StoreOk,
         Callers, RepliesOf, Good;
    FlowOf(st);
    var h := st.history;
    CommitLogSteps.FlushReplies(st.sys.logCenter, h.log, h.waiting, h.base, h.flushed, |h.applied|);
    CommitLogSteps.FlushedState(st);
  }

  // ----- Crashes that lose nothing ---------------------------------------------------

  // All files as they are, all of them on disk.
  function Intact(files: seq<Journal.DiskFile>): seq<Journal.DiskFile> {
    seq(|files|, i requires 0 <= i < |files| =>
      files[i].(image := FileHandler.FileImage(files[i].image.bytes, |files[i].image.bytes|)))
  }

  lemma IntactIsCrash(j: Journal.State, epoch: nat, log: seq<Entry>, flushed: nat)
    requires OnDisk(j, epoch, log, flushed)
    ensures Journal.CrashOf(Journal.Files(j), Intact(Journal.Files(j)))
  {
    hide JournalOrder.Order, Journal.LogOf, Journal.FlushedCount, Journal.Holds;
    var c :| HoldsLog(j, c, epoch, log, flushed);
    var files, after := Journal.Files(j), Intact(Journal.Files(j));
    forall i | 0 <= i < |files|
      ensures after[i].epoch == files[i].epoch && after[i].index == files[i].index
          && Journal.CutOf(files[i].image, after[i].image)
    {
      SyncedInside(j, c, i);
      assert files[i].image.bytes[..|files[i].image.bytes|] == files[i].image.bytes;
    }
  }

  lemma SyncedInside(j: Journal.State, c: Journal.Contents, i: nat)
    requires Journal.Holds(j, c) && i < |Journal.Files(j)|
    ensures Journal.Files(j)[i].image.synced <= |Journal.Files(j)[i].image.bytes|
  {
    hide Journal.ClosedOk, Journal.CurrentOk;
    if i < |j.closed| {
      ClosedSynced(j.closed[i], c.parts[i]);
    } else {
      CurrentSynced(j.current.value.buffered, c.tail, c.m);
    }
  }

  lemma ClosedSynced(f: Journal.DiskFile, part: seq<Entry>)
    requires Journal.ClosedOk(f, part)
    ensures f.image.synced <= |f.image.bytes|
  {}

  lemma CurrentSynced(b: FileHandler.Buffered, tail: seq<Entry>, m: nat)
    requires Journal.CurrentOk(b, tail, m)
    ensures b.file.synced <= |b.file.bytes|
  {}

  lemma OnDiskOf(st: State)
    requires Reachable(st)
    ensures OnDisk(st.sys.journal, st.sys.epoch, st.history.log, st.history.flushed)
  {
    hide Reachable, OnDisk, Flow;
    ReachableInv(st);
  }
}
