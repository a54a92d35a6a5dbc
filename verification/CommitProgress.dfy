/**
 Progress: as long as a caller waits, something can be done towards answering it, and it
 cannot go on for ever.
 */
module CommitProgress {
  import opened Common
  import opened Lists
  import opened RecordFormat
  import DataStore
  import opened ApplyOrder
  import opened GroupCommit
  import opened CommitInvariant
  import opened CommitSteps
  import opened CommitLogSteps
  import opened CommitTheorems
  import CommitConservation
  import Journal
  import JournalOrder

  predicate Internal(step: Step) {
    !step.Post? && !step.CrashAndRestart?
  }

  // ----- The work left ---------------------------------------------------------------

  // The nearer a request is to its answer, the less it weighs.
  function RequestWeight(ctx: RequestContext, posted: nat, reply: nat): nat {
    match ctx
    case NewContext(_) => posted
    case FinishContext(replies) => 2 * |replies| + reply
  }

  function LogWeight(ctx: LogContext, write: nat, recover: nat): nat {
    if ctx.WriteContext? then write else recover
  }

  function RequestWork(ctxs: seq<RequestContext>, posted: nat, reply: nat): nat
    decreases |ctxs|
  {
    if ctxs == [] then 0 else RequestWeight(ctxs[0], posted, reply) + RequestWork(ctxs[1..], posted, reply)
  }

  function LogWork(ctxs: seq<LogContext>, write: nat, recover: nat): nat
    decreases |ctxs|
  {
    if ctxs == [] then 0 else LogWeight(ctxs[0], write, recover) + LogWork(ctxs[1..], write, recover)
  }

  // What is appended is flushed when the queue is next found empty.
  function FlushWork(lc: LogCenterState): nat {
    5 * |lc.mToFlushLog| + (if |lc.mToFlushLog| > 0 && !lc.idle then 1 else 0)
  }

  // A process that has failed does nothing more.
  function Work(s: System): nat {
    if s.fault.Some? then 0 else Pending(s)
  }

  function Pending(s: System): nat {
    var rc, lc := s.requestCenter, s.logCenter;
    RequestWork(rc.queue, 10, 2) + RequestWork(rc.batch, 9, 1) +
    LogWork(lc.queue, 8, 2) + LogWork(lc.batch, 7, 1) + FlushWork(lc)
  }

  // Going round with nothing to do.
  predicate Spin(s: System, step: Step) {
    && |s.logCenter.mToFlushLog| == 0
    && (step == Idle || (step == TakeLogs && s.logCenter.queue == []))
  }

  // ----- Sums ------------------------------------------------------------------------

  lemma {:induction false} RequestWorkSnoc(ctxs: seq<RequestContext>, ctx: RequestContext, posted: nat, reply: nat)
    ensures RequestWork(ctxs + [ctx], posted, reply) == RequestWork(ctxs, posted, reply) + RequestWeight(ctx,
        posted, reply)
    decreases |ctxs|
  {
    hide RequestWeight, Acceptable, Storable;
    if ctxs == [] {
      assert [ctx][1..] == [] && ctxs + [ctx] == [ctx];
    } else {
      assert (ctxs + [ctx])[1..] == ctxs[1..] + [ctx];
      RequestWorkSnoc(ctxs[1..], ctx, posted, reply);
    }
  }

  lemma {:induction false} LogWorkSnoc(ctxs: seq<LogContext>, ctx: LogContext, write: nat, recover: nat)
    ensures LogWork(ctxs + [ctx], write, recover) == LogWork(ctxs, write, recover) + LogWeight(ctx, write, recover)
    decreases |ctxs|
  {
    hide LogWeight, Storable;
    if ctxs == [] {
      assert [ctx][1..] == [] && ctxs + [ctx] == [ctx];
    } else {
      assert (ctxs + [ctx])[1..] == ctxs[1..] + [ctx];
      LogWorkSnoc(ctxs[1..], ctx, write, recover);
    }
  }

  lemma {:induction false} RequestWorkTaken(ctxs: seq<RequestContext>)
    ensures RequestWork(ctxs, 9, 1) + |ctxs| == RequestWork(ctxs, 10, 2)
    decreases |ctxs|
  {
    hide Acceptable, Storable;
    if ctxs != [] {
      RequestWorkTaken(ctxs[1..]);
    }
  }

  lemma {:induction false} LogWorkTaken(ctxs: seq<LogContext>)
    ensures LogWork(ctxs, 7, 1) + |ctxs| == LogWork(ctxs, 8, 2)
    decreases |ctxs|
  {
    hide Storable;
    if ctxs != [] {
      LogWorkTaken(ctxs[1..]);
    }
  }

  // ----- Every step ------------------------------------------------------------------

  // Every internal step but going round with nothing to do lowers the work that is left.
  lemma WorkLowers(st: State, step: Step)
    requires Inv(st) && Enabled(st, step) && Internal(step)
    ensures Spin(st.sys, step) ==> Work(Next(st, step).sys) == Work(st.sys)
    ensures !Spin(st.sys, step) ==> Work(Next(st, step).sys) < Work(st.sys)
  {
    hide Inv, Acceptable, Storable, RequestWork, LogWork, FlushWork, AfterNew, AfterFinish, AfterRecover, AfterWrite,
         AfterIdle;
    match step
    case TakeRequests =>
      RequestWorkTaken(st.sys.requestCenter.queue);
      NoWork();
    case HandleRequest(order) =>
      match st.sys.requestCenter.batch[0] {
        case NewContext(r) => NewLowers(st, r);
        case FinishContext(replies) => FinishLowers(st, replies, order);
      }
    case TakeLogs => TakeLogsLowers(st);
    case HandleLog =>
      match st.sys.logCenter.batch[0] {
        case RecoverContext(r) => RecoverLowers(st, r);
        case WriteContext(r) => WriteLowers(st, r);
      }
    case Idle => IdleLowers(st);
  }

  lemma NoWork()
    ensures RequestWork([], 10, 2) == RequestWork([], 9, 1) == LogWork([], 8, 2) == LogWork([], 7, 1) == 0
  {}

  lemma RequestWorkHead(ctxs: seq<RequestContext>, posted: nat, reply: nat)
    requires ctxs != []
    ensures RequestWork(ctxs, posted, reply) == RequestWeight(ctxs[0], posted, reply) + RequestWork(ctxs[1..],
        posted, reply)
  {}

  lemma LogWorkHead(ctxs: seq<LogContext>, write: nat, recover: nat)
    requires ctxs != []
    ensures LogWork(ctxs, write, recover) == LogWeight(ctxs[0], write, recover) + LogWork(ctxs[1..], write, recover)
  {}

  lemma NewLowers(st: State, r: Request)
    requires Enabled(st, HandleRequest([])) && st.sys.requestCenter.batch[0] == NewContext(r)
    ensures Work(AfterNew(st, r).sys) < Work(st.sys)
  {
    hide Acceptable, Storable, RequestWork, LogWork, Signalled;
    RequestWorkHead(st.sys.requestCenter.batch, 9, 1);
    if r.opType != OP_GET {
      LogWorkSnoc(st.sys.logCenter.queue, WriteContext(RecordFor(r, st.sys.logCenter.mMaxLogId + 1)), 8, 2);
    }
  }

  lemma FinishLowers(st: State, replies: set<Reply>, order: seq<Reply>)
    requires Inv(st) && Enabled(st, HandleRequest(order)) && st.sys.requestCenter.batch[0] == FinishContext(replies)
    ensures Work(AfterFinish(st, order).sys) < Work(st.sys)
  {
    hide Acceptable, Storable, RequestWork, LogWork, Signalled, HandleKVResponse, Inv, Records, Ids, Enumerates,
         FlushWork;
    RequestWorkHead(st.sys.requestCenter.batch, 9, 1);
    ResponseFrame(RequestTaken(st.sys), order);
  }

  lemma TakeLogsLowers(st: State)
    requires Enabled(st, TakeLogs)
    ensures Spin(st.sys, TakeLogs) ==> Work(AfterTakeLogs(st).sys) == Work(st.sys)
    ensures !Spin(st.sys, TakeLogs) ==> Work(AfterTakeLogs(st).sys) < Work(st.sys)
  {
    hide RequestWork, LogWork, Acceptable, Storable;
    LogWorkTaken(st.sys.logCenter.queue);
    NoWork();
  }

  lemma RecoverLowers(st: State, r: LogRecord)
    requires st.sys.fault.None? && st.sys.logCenter.batch != [] && st.sys.logCenter.batch[0] == RecoverContext(r)
    ensures Work(AfterRecover(st, r).sys) < Work(st.sys)
  {
    hide RequestWork, LogWork, Acceptable, Storable, DataStore.Update;
    LogWorkHead(st.sys.logCenter.batch, 7, 1);
  }

  lemma WriteLowers(st: State, r: Entry)
    requires st.sys.fault.None? && st.sys.logCenter.batch != [] && st.sys.logCenter.batch[0] == WriteContext(r)
    ensures Work(AfterWrite(st, r).sys) < Work(st.sys)
  {
    hide RequestWork, LogWork, Acceptable, Storable, Journal.WriteLog;
    LogWorkHead(st.sys.logCenter.batch, 7, 1);
  }

  lemma IdleLowers(st: State)
    requires Inv(st) && Enabled(st, Idle)
    ensures Spin(st.sys, Idle) ==> Work(AfterIdle(st).sys) == Work(st.sys)
    ensures !Spin(st.sys, Idle) ==> Work(AfterIdle(st).sys) < Work(st.sys)
  {
    hide RequestWork, LogWork, Acceptable, Storable, Journal.FlushLog, Durable, LogFlow, RequestFlow, Callers,
         StoreOk, RepliesOf;
    var h, lc, rc := st.history, st.sys.logCenter, st.sys.requestCenter;
    FlowFacts(st);
    FlushReplies(lc, h.log, h.waiting, h.base, h.flushed, |h.applied|);
    if Overruns(st) {
      OverrunKeeps(st);
    } else if |lc.mToFlushLog| > 0 {
      FlushedState(st);
      RepliesCount(h.log, h.base, h.flushed, |h.log|);
      RequestWorkSnoc(rc.queue, FinishContext(RepliesOf(h.log, h.base, h.flushed, |h.log|)), 10, 2);
    }
  }

  // ----- Something to do -------------------------------------------------------------

  // Enough log ids are left for the requests that are queued.
  ghost predicate Room(st: State) {
    var rc := st.sys.requestCenter;
    st.sys.logCenter.mMaxLogId + |NewTickets(rc.batch + rc.queue)| < UINT32
  }

  // Nothing on its way is of an operation that cannot be applied.
  ghost predicate Sound(st: State) {
    var h, rc := st.history, st.sys.requestCenter;
    && AllWrites(h.log[Least(|h.applied|, |h.log|)..] + h.waiting)
    && NewSound(rc.batch + rc.queue)
  }

  ghost predicate NewSound(ctxs: seq<RequestContext>) {
    forall c :: c in ctxs && c.NewContext? ==> c.request.opType == OP_GET || IsWrite(c.request.opType)
  }

  // Working order: no failure, and none to come.
  ghost predicate Healthy(st: State) {
    && st.sys.fault.None? && !JournalOrder.Stuck(st.sys.journal, st.sys.epoch)
    && st.history.callers <= 49
    && Room(st) && Sound(st)
  }

  ghost function Measure(s: System): nat {
    2 * Work(s) + (if s.logCenter.idle then 1 else 0)
  }

  lemma {:induction false} Enumeration(replies: set<Reply>) returns (order: seq<Reply>)
    ensures Enumerates(order, replies)
    decreases |replies|
  {
    if replies == {} {
      order := [];
    } else {
      var r :| r in replies;
      var rest := Enumeration(replies - {r});
      order := [r] + rest;
    }
  }

  lemma RoomForNext(st: State, r: Request)
    requires Room(st) && st.sys.requestCenter.batch != [] && st.sys.requestCenter.batch[0] == NewContext(r)
    ensures st.sys.logCenter.mMaxLogId + 1 < UINT32
  {
    hide Acceptable;
    FirstRequest(st.sys.requestCenter);
  }

  // While a caller waits, some step brings the measure down.
  lemma SomethingToDo(st: State) returns (step: Step)
    requires Inv(st) && Healthy(st) && st.history.blocked != {}
    ensures Internal(step) && Enabled(st, step) && Measure(Next(st, step).sys) < Measure(st.sys)
  {
    hide Inv, Work, Acceptable, Storable, Enumerates, JournalOrder.Stuck, Sound;
    var rc, lc := st.sys.requestCenter, st.sys.logCenter;
    WhereItWaits(st);
    if rc.batch != [] {
      match rc.batch[0] {
        case NewContext(r) =>
          RoomForNext(st, r);
          step := HandleRequest([]);
        case FinishContext(replies) =>
          var order := Enumeration(replies);
          step := HandleRequest(order);
      }
    } else if rc.queue != [] {
      step := TakeRequests;
    } else if lc.batch != [] {
      step := HandleLog;
    } else if lc.idle {
      step := Idle;
    } else {
      step := TakeLogs;
    }
    IdleFlag(st, step);
    WorkLowers(st, step);
  }

  lemma IdleFlag(st: State, step: Step)
    requires Enabled(st, step) && Internal(step)
    ensures step == Idle ==> st.sys.logCenter.idle && !Next(st, step).sys.logCenter.idle
  {
    hide Acceptable, Storable, Journal.FlushLog;
  }

  // The record of a waiting caller's request is in a queue, a batch, or waits for a flush.
  lemma WhereItWaits(st: State)
    requires Inv(st) && st.sys.fault.None? && st.history.blocked != {}
    ensures var rc, lc := st.sys.requestCenter, st.sys.logCenter;
            rc.batch != [] || rc.queue != [] || lc.batch != [] || lc.queue != [] || |lc.mToFlushLog| > 0
  {
    hide Durable, StoreOk, Storable, Acceptable, TakenTickets, Contexts, RepliesOf;
    var h, rc, lc := st.history, st.sys.requestCenter, st.sys.logCenter;
    var lo := Greatest(|h.applied|, h.base) - h.base;
    if rc.batch + rc.queue == [] {
      assert NewTickets(rc.batch + rc.queue) == [];
      assert Elements(TakenTickets(rc.mRequests, lo, rc.mRequestID) + []) != {};
      assert |TakenTickets(rc.mRequests, lo, rc.mRequestID)| > 0;
      CommitConservation.TakenElements(rc.mRequests, lo, rc.mRequestID);
      SegmentCount(h.log, h.flushed, |h.log|);
      assert |lc.batch + lc.queue| >= |h.waiting|;
    }
  }

  // ----- All are answered ------------------------------------------------------------

  // In working order, no step of the process's own threads fails, and it stays in it.
  lemma HealthStays(st: State, step: Step)
    requires Inv(st) && Healthy(st) && Enabled(st, step) && Internal(step)
    ensures Healthy(Next(st, step))
  {
    hide Inv, Acceptable, Storable, JournalOrder.Stuck, Room, Sound, Enabled, Next, FaultOf;
    StepKeeps(st, step);
    NoFault(st, step);
    NotStuckAfter(st, step);
    RoomStays(st, step);
    SoundStays(st, step);
  }

  lemma NoFault(st: State, step: Step)
    requires Inv(st) && Healthy(st) && Enabled(st, step)
    ensures FaultOf(st, step) == None
  {
    hide Durable, Acceptable, Storable, JournalOrder.Stuck, Room, Overflows, Overruns, Callers, StoreOk,
         LogFlow, RequestFlow;
    var h := st.history;
    StepKeeps(st, step);
    if step.HandleLog? {
      if st.sys.logCenter.batch[0].RecoverContext? {
        NextRecovered(st, st.sys.logCenter.batch[0].record);
      }
    } else if step.HandleRequest? {
      if st.sys.requestCenter.batch[0].FinishContext? {
        NextReplies(st, st.sys.requestCenter.batch[0].replies);
      }
    }
  }

  lemma NextRecovered(st: State, r: LogRecord)
    requires Flow(st) && Sound(st) && st.sys.logCenter.batch != [] && st.sys.logCenter.batch[0] == RecoverContext(r)
    ensures IsWrite(r.opType)
  {
    hide LogFlow, RequestFlow, Callers, StoreOk, Storable, Acceptable;
    var h := st.history;
    var a := |h.applied|;
    FlowFacts(st);
    RecoverNext(st.sys.logCenter, h.log, h.waiting, h.base, h.flushed, a, r);
    assert h.log[a..][0] == r;
    assert r in h.log[a..] + h.waiting;
  }

  lemma NextReplies(st: State, replies: set<Reply>)
    requires Flow(st) && Sound(st)
    requires st.sys.requestCenter.batch != [] && st.sys.requestCenter.batch[0] == FinishContext(replies)
    ensures forall r :: r in replies ==> IsWrite(r.record.opType)
  {
    hide LogFlow, Callers, StoreOk, Storable, Acceptable;
    var h, rc := st.history, st.sys.requestCenter;
    var low := Greatest(|h.applied|, h.base);
    FlowFacts(st);
    FirstRequest(rc);
    ChainForward(rc.batch[1..] + rc.queue, low + |replies|, h.flushed, h.log, h.base);
    forall r | r in replies ensures IsWrite(r.record.opType) {
      var i :| low <= i < low + |replies| && r == Reply(i + 1 - h.base, h.log[i]);
      assert h.log[|h.applied|..][i - |h.applied|] == r.record;
      assert r.record in h.log[|h.applied|..] + h.waiting;
    }
  }

  lemma SoundStays(st: State, step: Step)
    requires Inv(st) && st.sys.fault.None? && Sound(st) && Enabled(st, step) && Internal(step)
    requires Next(st, step).sys.fault.None?
    ensures Sound(Next(st, step))
  {
    hide Inv, Acceptable, Storable, AfterNew, AfterFinish, AfterRecover, AfterWrite, AfterIdle;
    var rc := st.sys.requestCenter;
    match step
    case TakeRequests => assert rc.batch + rc.queue == rc.queue + [];
    case TakeLogs =>
    case HandleRequest(order) =>
      match rc.batch[0] {
        case NewContext(r) => SoundAfterNew(st, r);
        case FinishContext(replies) => SoundAfterFinish(st, order);
      }
    case HandleLog =>
      match st.sys.logCenter.batch[0] {
        case RecoverContext(r) => SoundAfterRecover(st, r);
        case WriteContext(r) => SoundAfterWrite(st, r);
      }
    case Idle => SoundAfterIdle(st);
  }

  lemma NewSoundTail(rc: RequestCenterState)
    requires rc.batch != [] && NewSound(rc.batch + rc.queue)
    ensures NewSound(rc.batch[1..] + rc.queue)
    ensures rc.batch[0].NewContext? ==> rc.batch[0].request.opType == OP_GET || IsWrite(rc.batch[0].request.opType)
  {
    hide Acceptable, Storable, IsWrite;
    FirstRequest(rc);
    forall c | c in rc.batch[1..] + rc.queue ensures c in rc.batch + rc.queue {}
    assert rc.batch[0] in rc.batch + rc.queue;
  }

  lemma SoundAfterNew(st: State, r: Request)
    requires Sound(st) && st.sys.requestCenter.batch != [] && st.sys.requestCenter.batch[0] == NewContext(r)
    requires r.opType != OP_GET ==> st.sys.logCenter.mMaxLogId + 1 < UINT32
    ensures Sound(AfterNew(st, r))
  {
    hide Acceptable, Storable, IsWrite, NewSound;
    NewSoundTail(st.sys.requestCenter);
    var h := st.history;
    if r.opType != OP_GET {
      var e := RecordFor(r, st.sys.logCenter.mMaxLogId + 1);
      var left := h.log[Least(|h.applied|, |h.log|)..];
      assert left + (h.waiting + [e]) == left + h.waiting + [e];
    }
  }

  lemma SoundAfterFinish(st: State, order: seq<Reply>)
    requires Sound(st) && st.sys.requestCenter.batch != []
    ensures Sound(AfterFinish(st, order))
  {
    hide Acceptable, Storable, IsWrite, NewSound, HandleKVResponse, Records, DataStore.Answers, PairwiseCompatible;
    NewSoundTail(st.sys.requestCenter);
    ResponseFrame(RequestTaken(st.sys), order);
    LessLeft(st.history.log, st.history.waiting, |st.history.applied|, |AfterFinish(st, order).history.applied|);
  }

  lemma LessLeft(log: seq<Entry>, waiting: seq<Entry>, a: nat, b: nat)
    requires a <= b && AllWrites(log[Least(a, |log|)..] + waiting)
    ensures AllWrites(log[Least(b, |log|)..] + waiting)
  {
    hide Storable, IsWrite;
    var x, y := Least(a, |log|), Least(b, |log|);
    forall r | r in log[y..] + waiting ensures r in log[x..] + waiting {
      if r in log[y..] {
        var i :| 0 <= i < |log| - y && log[y..][i] == r;
        assert log[x..][i + y - x] == r;
      }
    }
  }

  lemma SoundAfterRecover(st: State, r: LogRecord)
    requires Sound(st) && st.sys.logCenter.batch != []
    ensures Sound(AfterRecover(st, r))
  {
    hide Acceptable, Storable, IsWrite, NewSound, AllWrites;
    LessLeft(st.history.log, st.history.waiting, |st.history.applied|, |st.history.applied| + 1);
  }

  lemma SoundAfterWrite(st: State, r: Entry)
    requires Inv(st) && st.sys.fault.None? && Sound(st)
    requires st.sys.logCenter.batch != [] && st.sys.logCenter.batch[0] == WriteContext(r)
    ensures Sound(AfterWrite(st, r))
  {
    hide Acceptable, Storable, IsWrite, NewSound, AllWrites, Durable, LogFlow, RequestFlow, Callers, StoreOk,
         Journal.WriteLog;
    var h := st.history;
    FlowFacts(st);
    WriteNext(st.sys.logCenter, h.log, h.waiting, h.base, h.flushed, |h.applied|, r);
    var a := |h.applied|;
    assert (h.log + [r])[a..] + h.waiting[1..] == h.log[a..] + h.waiting;
  }

  lemma SoundAfterIdle(st: State)
    requires Sound(st)
    ensures Sound(AfterIdle(st))
  {
    hide Acceptable, Storable, IsWrite, AllWrites, Journal.FlushLog;
    var rc, queue := st.sys.requestCenter, AfterIdle(st).sys.requestCenter.queue;
    forall c | c in rc.batch + queue && c.NewContext? ensures c in rc.batch + rc.queue {}
  }

  lemma NotStuckAfter(st: State, step: Step)
    requires Inv(st) && Enabled(st, step) && Internal(step) && !JournalOrder.Stuck(st.sys.journal, st.sys.epoch)
    ensures !JournalOrder.Stuck(Next(st, step).sys.journal, Next(st, step).sys.epoch)
  {
    hide Durable, Acceptable, Storable, Journal.WriteLog, Journal.FlushLog, Flow, HandleKVResponse;
    match step
    case HandleRequest(order) => JournalUntouched(st, order);
    case HandleLog =>
      match st.sys.logCenter.batch[0] {
        case RecoverContext(r) =>
        case WriteContext(r) =>
          if Journal.WriteLog(st.sys.journal, st.sys.epoch, r).Some? {
            WrittenOpen(st.sys.journal, st.sys.epoch, r);
          }
      }
    case Idle =>
      if st.sys.journal.current.Some? {
        FlushedOpen(st.sys.journal);
      }
    case _ =>
  }

  lemma JournalUntouched(st: State, order: seq<Reply>)
    requires Enabled(st, HandleRequest(order))
    ensures var s := Next(st, HandleRequest(order)).sys;
            s.journal == st.sys.journal && s.epoch == st.sys.epoch && s.logCenter.idle == st.sys.logCenter.idle
  {
    hide Acceptable, Storable, HandleKVResponse;
    match st.sys.requestCenter.batch[0]
    case NewContext(r) =>
    case FinishContext(replies) => ResponseFrame(RequestTaken(st.sys), order);
  }

  lemma RoomStays(st: State, step: Step)
    requires Inv(st) && Room(st) && Enabled(st, step) && Internal(step)
    ensures Room(Next(st, step))
  {
    hide Inv, Acceptable, Storable, Journal.WriteLog, Journal.FlushLog, HandleKVResponse, NewTickets;
    var rc := st.sys.requestCenter;
    match step
    case TakeRequests => assert rc.batch + rc.queue == rc.queue + [];
    case HandleRequest(order) =>
      FirstRequest(rc);
      TicketsHead(rc.batch + rc.queue);
      if rc.batch[0].FinishContext? {
        ResponseFrame(RequestTaken(st.sys), order);
      }
    case Idle => IdleRoom(st);
    case _ =>
  }

  lemma TicketsHead(ctxs: seq<RequestContext>)
    requires ctxs != []
    ensures |NewTickets(ctxs)| == |NewTickets(ctxs[1..])| + (if ctxs[0].NewContext? then 1 else 0)
  {
    hide Acceptable, Storable;
  }

  lemma IdleRoom(st: State)
    requires Room(st)
    ensures Room(AfterIdle(st))
  {
    hide Acceptable, Storable, Journal.FlushLog, NewTickets;
    var rc := st.sys.requestCenter;
    var queue := AfterIdle(st).sys.requestCenter.queue;
    if queue != rc.queue {
      var replies := queue[|queue| - 1].replies;
      NewTicketsAppend(rc.batch + rc.queue, [FinishContext(replies)]);
      NoTicketInResponse(replies);
      assert rc.batch + queue == rc.batch + rc.queue + [FinishContext(replies)];
    }
  }

  // Who waits is signalled or goes on waiting.
  lemma NobodyLost(st: State, step: Step)
    requires Enabled(st, step) && Internal(step)
    ensures st.history.blocked <= Next(st, step).history.blocked + Elements(Next(st, step).history.signalled)
    ensures Elements(st.history.signalled) <= Elements(Next(st, step).history.signalled)
    ensures Next(st, step).history.blocked <= st.history.blocked
  {
    hide Acceptable, Storable, Journal.WriteLog, Journal.FlushLog, HandleKVResponse, Booted;
  }

  // From every reachable state of a process that is not stuck there is a way, of at most
  // this many steps of its own threads, to a state in which every caller that waited has
  // been signalled.
  lemma {:induction false} AllAnswered(st: State) returns (steps: seq<Step>, last: State)
    requires Inv(st) && Healthy(st)
    ensures Run(st, steps, last) && |steps| <= Measure(st.sys)
    ensures forall step :: step in steps ==> Internal(step)
    ensures last.history.blocked == {} && st.history.blocked <= Elements(last.history.signalled)
    ensures Elements(st.history.signalled) <= Elements(last.history.signalled)
    decreases Measure(st.sys)
  {
    hide Inv, Healthy, Enabled, Next, Measure;
    if st.history.blocked == {} {
      steps, last := [], st;
    } else {
      var step := SomethingToDo(st);
      StepKeeps(st, step);
      HealthStays(st, step);
      NobodyLost(st, step);
      var rest;
      rest, last := AllAnswered(Next(st, step));
      steps := [step] + rest;
      assert steps[1..] == rest;
    }
  }

  // And whatever the threads do, there are no more steps than the work there is, apart from
  // going round with nothing to do.
  ghost function Effective(st: State, steps: seq<Step>, last: State): nat
    requires Run(st, steps, last)
    decreases |steps|
  {
    if steps == [] then 0
    else (if Spin(st.sys, steps[0]) then 0 else 1) + Effective(Next(st, steps[0]), steps[1..], last)
  }

  lemma {:induction false} WorkBounds(st: State, steps: seq<Step>, last: State)
    requires Inv(st) && Run(st, steps, last) && forall step :: step in steps ==> Internal(step)
    ensures Effective(st, steps, last) + Work(last.sys) <= Work(st.sys)
    decreases |steps|
  {
    hide Inv, Enabled, Next, Work, Spin;
    if steps != [] {
      assert steps[0] in steps;
      StepKeeps(st, steps[0]);
      WorkLowers(st, steps[0]);
      WorkBounds(Next(st, steps[0]), steps[1..], last);
    }
  }

  // The threads have come to rest: nothing is possible but going round, and what there is in
  // the log center's queue has been looked at.
  ghost predicate Quiet(st: State) {
    && (forall step :: Internal(step) && Enabled(st, step) ==> Spin(st.sys, step))
    && (st.sys.logCenter.idle ==> st.sys.logCenter.queue == [])
  }

  // At rest, nobody waits.
  lemma QuietMeansAnswered(st: State)
    requires Inv(st) && Healthy(st) && Quiet(st)
    ensures st.history.blocked == {}
  {
    hide Inv, Quiet, Sound, Room;
    if st.history.blocked != {} {
      WhereItWaits(st);
      NotAtRest(st);
    }
  }

  // However the threads are scheduled: a run of theirs that has come to rest has signalled
  // everybody who waited.  With the bound above, what keeps a run from coming to rest is going
  // round only.
  lemma {:induction false} EveryRunAnswers(st: State, steps: seq<Step>, last: State)
    requires Inv(st) && Healthy(st) && Run(st, steps, last) && Quiet(last)
    requires forall step :: step in steps ==> Internal(step)
    ensures last.history.blocked == {} && st.history.blocked <= Elements(last.history.signalled)
    ensures Elements(st.history.signalled) <= Elements(last.history.signalled)
    decreases |steps|
  {
    hide Inv, Healthy, Enabled, Next, Quiet;
    if steps == [] {
      QuietMeansAnswered(st);
    } else {
      assert steps[0] in steps;
      StepKeeps(st, steps[0]);
      HealthStays(st, steps[0]);
      NobodyLost(st, steps[0]);
      EveryRunAnswers(Next(st, steps[0]), steps[1..], last);
    }
  }

  lemma NotAtRest(st: State)
    requires Inv(st) && Healthy(st)
    requires var rc, lc := st.sys.requestCenter, st.sys.logCenter;
             rc.batch != [] || rc.queue != [] || lc.batch != [] || lc.queue != [] || |lc.mToFlushLog| > 0
    ensures !Quiet(st)
  {
    hide Inv, Work, Acceptable, Storable, JournalOrder.Stuck, Sound, Enumerates;
    var rc, lc := st.sys.requestCenter, st.sys.logCenter;
    var step: Step;
    if rc.batch != [] {
      match rc.batch[0] {
        case NewContext(r) =>
          RoomForNext(st, r);
          step := HandleRequest([]);
        case FinishContext(replies) =>
          var order := Enumeration(replies);
          step := HandleRequest(order);
      }
      assert Enabled(st, step) && !Spin(st.sys, step);
    } else if rc.queue != [] {
      assert Enabled(st, TakeRequests) && !Spin(st.sys, TakeRequests);
    } else if lc.batch != [] {
      assert Enabled(st, HandleLog) && !Spin(st.sys, HandleLog);
    } else if lc.idle {
      assert Enabled(st, Idle);
    } else {
      assert Enabled(st, TakeLogs);
    }
  }
}
