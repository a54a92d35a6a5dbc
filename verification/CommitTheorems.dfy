/**
 What holds in every state that any run of the program can come to, over any number of
 crashes and restarts.
 */
module CommitTheorems {
  import opened Common
  import Lists
  import opened RecordFormat
  import opened DataStore
  import ApplyOrder
  import opened GroupCommit
  import opened CommitInvariant
  import opened CommitSteps
  import opened CommitLogSteps
  import LogNames
  import Journal
  import JournalOrder

  // ----- The invariant ---------------------------------------------------------------

  // What the next handler call runs into.
  ghost function FaultOf(st: State, step: Step): Option<Fault> {
    if step.HandleLog? && st.sys.logCenter.batch != [] then
      match st.sys.logCenter.batch[0]
      case RecoverContext(r) => if IsWrite(r.opType) then None else Some(InvalidOpType)
      case WriteContext(_) =>
        if JournalOrder.Stuck(st.sys.journal, st.sys.epoch) then Some(NewLogFileFailed)
        else if Overflows(st) then Some(TooManyToFlush)
        else None
    else if step.HandleRequest? && st.sys.requestCenter.batch != [] then
      match st.sys.requestCenter.batch[0]
      case NewContext(_) => None
      case FinishContext(replies) =>
        if exists r :: r in replies && !IsWrite(r.record.opType) then Some(InvalidOpType) else None
    else if step.Idle? && Overruns(st) then Some(FlushCountOverrun)
    else None
  }

  // Every step keeps the invariant, and a handler fails exactly in four cases: opening a new
  // log file when the process is stuck behind a torn file, applying a record whose operation
  // is none of the five, flushing more records than the counters of flushes are made for, and
  // passing the threshold; the last two take as many callers.
  lemma StepKeeps(st: State, step: Step)
    requires Inv(st) && Enabled(st, step)
    ensures Inv(Next(st, step))
    ensures Next(st, step).sys.fault == FaultOf(st, step)
    ensures st.history.callers <= 1000 ==> FaultOf(st, step) != Some(TooManyToFlush)
    ensures st.history.callers <= 49 ==> FaultOf(st, step) != Some(FlushCountOverrun)
    ensures Next(st, step).history.callers == st.history.callers
  {
    hide Inv, Acceptable, Storable, IsWrite, JournalOrder.Stuck, HandleNewKVRequest, Signalled, Overflows, Overruns,
         AfterNew, AfterFinish, AfterRecover, AfterWrite, AfterIdle, AfterCrash;
    CallersConstant(st, step);
    match step
    case Post(opType, table, key, value) =>
      PostKeeps(st, RequestData(st.history.posted, opType, table, key, value));
    case TakeRequests => TakeRequestsKeeps(st);
    case HandleRequest(order) =>
      HandleRequestKeeps(st, order);
    case TakeLogs => TakeLogsKeeps(st);
    case HandleLog =>
      match st.sys.logCenter.batch[0] {
        case RecoverContext(r) => RecoverKeeps(st, r);
        case WriteContext(r) => WriteKeeps(st, r);
      }
    case Idle => IdleKeeps(st);
    case CrashAndRestart(after) => CrashKeeps(st, after);
  }

  lemma CallersConstant(st: State, step: Step)
    requires Enabled(st, step)
    ensures Next(st, step).history.callers == st.history.callers
  {
    hide Storable, Acceptable, HandleKVResponse, HandleNewKVRequest, Booted, HandleWriteOper, IdleHandler,
         HandleRecoverLog;
  }

  lemma HandleRequestKeeps(st: State, order: seq<Reply>)
    requires Inv(st) && Enabled(st, HandleRequest(order))
    ensures Inv(Next(st, HandleRequest(order)))
    ensures Next(st, HandleRequest(order)).sys.fault == FaultOf(st, HandleRequest(order))
  {
    hide Inv, Acceptable, Storable, IsWrite, AfterFinish, Enumerates, Records, ApplyOrder.AllWrites;
    match st.sys.requestCenter.batch[0]
    case NewContext(r) =>
      if r.opType == OP_GET {
        GetKeeps(st, r);
      } else {
        NewWriteKeeps(st, r);
      }
    case FinishContext(replies) =>
      FinishKeeps(st, replies, order);
      WritesInSet(order, replies);
  }

  lemma WritesInSet(order: seq<Reply>, replies: set<Reply>)
    requires Enumerates(order, replies)
    ensures ApplyOrder.AllWrites(Records(order)) <==> !exists r :: r in replies && !IsWrite(r.record.opType)
  {
    hide Storable;
    forall i | 0 <= i < |order| ensures order[i] in replies && Records(order)[i] in Records(order) {}
    forall r | r in replies ensures r in order && r.record in Records(order) {
      var i :| 0 <= i < |order| && order[i] == r;
      assert Records(order)[i] == r.record;
    }
  }

  lemma InitialInv(callers: nat)
    ensures Inv(Initial(callers)) && Initial(callers).history.callers == callers
  {
    hide Storable, Acceptable, OnDisk, LogFlow, RequestFlow, StoreOk, Callers, Kept, AnswersAgree;
    EmptyDisk();
    BootFlow([], []);
    BootStore([], true);
    BootCallers([], 0);
    NothingPromised();
  }

  lemma EmptyDisk()
    ensures Journal.Recover([]) == Journal.Recovered([], [], 0, 0)
    ensures OnDisk(Journal.State([], None), 1, [], 0)
  {
    hide Storable;
    assert HoldsLog(Journal.State([], None), Journal.Contents([], [], 0), 1, [], 0);
  }

  lemma NothingPromised()
    ensures Kept({}, [], 0) && AnswersAgree({}, {}, [])
  {}

  lemma {:induction false} RunKeeps(st: State, steps: seq<Step>, last: State)
    requires Inv(st) && Run(st, steps, last)
    ensures Inv(last) && last.history.callers == st.history.callers
    decreases |steps|
  {
    hide Inv, Enabled, Next;
    if steps != [] {
      StepKeeps(st, steps[0]);
      RunKeeps(Next(st, steps[0]), steps[1..], last);
    }
  }

  lemma ReachableInv(st: State)
    requires Reachable(st)
    ensures Inv(st)
  {
    hide Inv, Enabled, Next, Run, Initial;
    var callers := st.history.callers;
    var steps :| Run(Initial(callers), steps, st);
    InitialInv(callers);
    RunKeeps(Initial(callers), steps, st);
  }

  // ----- Durability ------------------------------------------------------------------

  // Whatever a crash leaves of the files, replaying them yields a prefix of the log, in
  // order, with everything that was promised to a caller in its place.
  lemma Durability(st: State, after: seq<Journal.DiskFile>)
    requires Reachable(st) && Journal.CrashOf(Journal.Files(st.sys.journal), after)
    ensures var h, records := st.history, Journal.Recover(after).records;
            && records <= h.log && h.flushed <= |records|
            && forall r :: r in h.promised ==> 1 <= r.logId <= |records| && records[r.logId - 1] == r
  {
    hide OnDisk, Storable, Journal.CrashOf, Journal.Files, Journal.Recover, Flow;
    ReachableInv(st);
    var k := CrashDisk(st.sys.journal, st.sys.epoch, st.history.log, st.history.flushed, after);
  }

  lemma {:induction false} PromisesStay(st: State, steps: seq<Step>, last: State)
    requires Run(st, steps, last)
    ensures st.history.promised <= last.history.promised && st.history.answers <= last.history.answers
    decreases |steps|
  {
    hide Enabled, Next;
    if steps != [] {
      PromisesStayOnce(st, steps[0]);
      PromisesStay(Next(st, steps[0]), steps[1..], last);
    }
  }

  lemma PromisesStayOnce(st: State, step: Step)
    requires Enabled(st, step)
    ensures st.history.promised <= Next(st, step).history.promised
    ensures st.history.answers <= Next(st, step).history.answers
  {
    hide Storable, Acceptable, HandleKVResponse, HandleNewKVRequest, Booted, HandleWriteOper, IdleHandler,
         HandleRecoverLog;
  }

  // What was promised once is recovered after every later crash.
  lemma PromisedForEver(st: State, steps: seq<Step>, last: State, after: seq<Journal.DiskFile>, r: LogRecord)
    requires Reachable(st) && Run(st, steps, last) && r in st.history.promised
    requires Journal.CrashOf(Journal.Files(last.sys.journal), after)
    ensures r in Journal.Recover(after).records
  {
    hide Run, Storable, Journal.CrashOf, Journal.Files, Journal.Recover, Enabled, Next;
    PromisesStay(st, steps, last);
    RunsCompose(st, steps, last);
    Durability(last, after);
    assert Journal.Recover(after).records[r.logId - 1] == r;
  }

  lemma RunsCompose(st: State, steps: seq<Step>, last: State)
    requires Reachable(st) && Run(st, steps, last)
    ensures Reachable(last)
  {
    hide Enabled, Next, Run, Initial, Inv;
    var first := Initial(st.history.callers);
    var before :| Run(first, before, st);
    ReachableInv(st);
    RunKeeps(st, steps, last);
    RunAppend(first, before, st, steps, last);
  }

  lemma {:induction false} RunAppend(st: State, a: seq<Step>, mid: State, b: seq<Step>, last: State)
    requires Run(st, a, mid) && Run(mid, b, last)
    ensures Run(st, a + b, last)
    decreases |a|
  {
    hide Enabled, Next;
    if a == [] {
      assert a + b == b;
    } else {
      assert (a + b)[1..] == a[1..] + b;
      RunAppend(Next(st, a[0]), a[1..], mid, b, last);
    }
  }

  // ----- Answers ---------------------------------------------------------------------

  // Every caller that a response wakes gets the outcome of its own operation, applied to the
  // store in its turn, and its record is promised; the response never fails to find it.
  lemma AnsweredOwn(st: State, order: seq<Reply>, i: nat)
    requires Reachable(st) && Enabled(st, HandleRequest(order)) && st.sys.requestCenter.batch[0].FinishContext?
    requires i < |HandleKVResponse(RequestTaken(st.sys), order).signals|
    ensures i < |order|
    ensures var rc := st.sys.requestCenter;
            var record := order[i].record;
            && order[i].id in rc.mRequests
            && var request := rc.mRequests[order[i].id];
            && record == LogRecord(record.logId, request.opType, request.table, request.key, request.value)
            && HandleKVResponse(RequestTaken(st.sys), order).signals[i] ==
               Signal(request.ticket, Update(ApplyAll(st.sys.store, Records(order)[..i]), record).err, None)
            && record in Next(st, HandleRequest(order)).history.promised
  {
    hide Inv, Acceptable, Storable, Answers, ApplyAll, Update, HandleKVResponse, OrderOf, DistinctKnown, Reachable,
         Callers, RequestFlow, Flow, Records, Woken, Enumerates;
    ReachableInv(st);
    var h, rc, s := st.history, st.sys.requestCenter, RequestTaken(st.sys);
    var replies := rc.batch[0].replies;
    FinishFacts(st, replies, order);
    var n := FirstInvalid(order);
    if n == |order| {
      HandleSignals(s, order);
    } else {
      HandleUpTo(s, order, n);
    }
    assert |Records(order)| == |order|;
    AnswerAt(st.sys.store, Records(order), i);
    RequestsOf(st);
    OwnRecord(rc, h.log, h.waiting, h.base, h.flushed, |h.applied|, order, i);
    DonePromised(st, order, i);
  }

  lemma AnsweredIsWrite(st: State, order: seq<Reply>, i: nat)
    requires Reachable(st) && Enabled(st, HandleRequest(order)) && st.sys.requestCenter.batch[0].FinishContext?
    requires i < |HandleKVResponse(RequestTaken(st.sys), order).signals|
    ensures i < |order| && IsWrite(order[i].record.opType)
  {
    hide Inv, Acceptable, Storable, Answers, ApplyAll, Update, HandleKVResponse, OrderOf,
         DistinctKnown, Reachable, Callers, RequestFlow, Flow, Records, Woken, Enumerates, IsWrite;
    ReachableInv(st);
    FinishFacts(st, st.sys.requestCenter.batch[0].replies, order);
    var n := FirstInvalid(order);
    if n < |order| {
      HandleUpTo(RequestTaken(st.sys), order, n);
    } else {
      HandleSignals(RequestTaken(st.sys), order);
    }
    assert order[..n][i] == order[i];
    InWrites(order[..n], i);
  }

  lemma InWrites(order: seq<Reply>, i: nat)
    requires i < |order| && ApplyOrder.AllWrites(Records(order))
    ensures IsWrite(order[i].record.opType)
  {
    assert Records(order)[i] in Records(order);
  }

  lemma RequestsOf(st: State)
    requires Flow(st)
    ensures var h := st.history;
            RequestFlow(st.sys.requestCenter, h.log, h.waiting, h.base, h.flushed, |h.applied|)
  {
    hide RequestFlow, LogFlow, StoreOk, Callers;
  }

  lemma DonePromised(st: State, order: seq<Reply>, i: nat)
    requires st.sys.requestCenter.batch != []
    requires i < |HandleKVResponse(RequestTaken(st.sys), order).signals| <= |order|
    ensures order[i].record in AfterFinish(st, order).history.promised
  {
    hide HandleKVResponse, Answers, ApplyAll, Storable, Acceptable;
    var done := Records(order)[..Least(|HandleKVResponse(RequestTaken(st.sys), order).signals|, |order|)];
    assert done[i] in Lists.Elements(done);
  }

  lemma OwnRecord(rc: RequestCenterState, log: seq<Entry>, waiting: seq<Entry>, base: nat, flushed: nat, a: nat,
                  order: seq<Reply>, i: nat)
    requires RequestFlow(rc, log, waiting, base, flushed, a) && base <= a && i < |order| && a + |order| <= |log|
    requires OrderOf(order, log, base, a, a + |order|) && DistinctKnown(rc.mRequests, order)
    ensures order[i].id in rc.mRequests
    ensures var request, record := rc.mRequests[order[i].id], order[i].record;
            record == LogRecord(record.logId, request.opType, request.table, request.key, request.value)
  {
    hide ReplyChain, Acceptable, Storable;
    var id, n := order[i].id, order[i].record.logId;
    assert id + base == n && RecordNo(log, n) == order[i].record;
    assert (log + waiting)[base + id - 1] == log[n - 1];
  }

  lemma {:induction false} AnswerAt(store: Store, records: seq<LogRecord>, i: nat)
    requires i < |records|
    ensures Answers(store, records)[i] == Answer(records[i], Update(ApplyAll(store, records[..i]), records[i]).err)
    decreases i
  {
    hide Update, Storable;
    if i > 0 {
      AnswerAt(Update(store, records[0]).store, records[1..], i - 1);
      assert records[..i][1..] == records[1..][..i - 1];
    }
  }

  // A get is answered from the records applied so far, all of which are durable.
  lemma GetAnswer(st: State)
    requires Reachable(st) && Enabled(st, HandleRequest([]))
    requires st.sys.requestCenter.batch[0].NewContext? && st.sys.requestCenter.batch[0].request.opType == OP_GET
    ensures var r := st.sys.requestCenter.batch[0].request;
            var got := Lookup(ApplyAll(map[], st.history.applied), r.table, r.key);
            HandleNewKVRequest(RequestTaken(st.sys), r).signals == [Signal(r.ticket, got.0, got.1)]
    ensures Lists.Elements(st.history.applied) <= Next(st, HandleRequest([])).history.promised
    ensures Kept(Lists.Elements(st.history.applied), st.history.log, st.history.flushed)
  {
    hide Durable, LogFlow, RequestFlow, Callers, Acceptable, Storable, Lookup, ApplyAll, Reachable;
    ReachableInv(st);
    var h := st.history;
    FlowFacts(st);
    AppliedIsDurable(st.sys.store, h.applied, h.log, h.base, h.clean, h.flushed);
  }

  // ----- Recovered records -----------------------------------------------------------

  // Everything recovered is applied, in the order of the log, before anything is appended.
  lemma RecoveredFirst(st: State)
    requires Reachable(st) && st.sys.fault.None?
    ensures var h := st.history;
            && h.base <= |h.log|
            && h.applied[..Least(|h.applied|, h.base)] == h.log[..Least(|h.applied|, h.base)]
            && (|h.log| > h.base ==> h.base <= |h.applied|)
  {
    hide Durable, RequestFlow, Callers, Acceptable, Storable, ApplyAll, Reachable, ApplyOrder.AllWrites;
    ReachableInv(st);
  }

  // No recovered record is left in the log center's line.
  ghost predicate RecoveryDone(lc: LogCenterState) {
    forall c :: c in lc.batch + lc.queue ==> c.WriteContext?
  }

  // The store has everything recovered in it, in the order of the log, if and only if no
  // recovered record is left in the log center's line.
  lemma RecoveredSeen(st: State)
    requires Reachable(st) && st.sys.fault.None?
    ensures st.history.base <= |st.history.log|
    ensures st.history.log[..st.history.base] <= st.history.applied <==> RecoveryDone(st.sys.logCenter)
  {
    hide Durable, RequestFlow, Callers, Acceptable, Storable, ApplyAll, Reachable, ApplyOrder.AllWrites, Segment,
         Contexts,
         JournalOrder.Numbered;
    ReachableInv(st);
    var h, lc := st.history, st.sys.logCenter;
    var a := |h.applied|;
    RecoveredLine(h.log[Least(a, h.base)..h.base], h.waiting);
  }

  lemma RecoveredLine(recovered: seq<Entry>, waiting: seq<Entry>)
    ensures (forall c :: c in Contexts(recovered, waiting) ==> c.WriteContext?) <==> recovered == []
  {
    hide Storable;
    var line := Contexts(recovered, waiting);
    if recovered == [] {
      forall c | c in line ensures c.WriteContext? {
        var i :| 0 <= i < |line| && line[i] == c;
        assert line[|recovered| + i] == WriteContext(waiting[i]);
      }
    } else {
      assert line[0] == RecoverContext(recovered[0]) && line[0] in line;
    }
  }

  // What a get sees: everything recovered, and what has been applied on top of it, if and
  // only if no recovered record is left in the log center's line; else part of the log only.
  lemma GetSees(st: State)
    requires Reachable(st) && Enabled(st, HandleRequest([]))
    requires st.sys.requestCenter.batch[0].NewContext? && st.sys.requestCenter.batch[0].request.opType == OP_GET
    ensures var r, h := st.sys.requestCenter.batch[0].request, st.history;
            var signals := HandleNewKVRequest(RequestTaken(st.sys), r).signals;
            && h.base <= |h.log|
            && (RecoveryDone(st.sys.logCenter) ==>
                  && h.base <= |h.applied|
                  && var got := Lookup(ApplyAll(ApplyAll(map[], h.log[..h.base]), h.applied[h.base..]), r.table, r.key);
                  signals == [Signal(r.ticket, got.0, got.1)])
            && (!RecoveryDone(st.sys.logCenter) ==>
                  && |h.applied| < h.base
                  && var got := Lookup(ApplyAll(map[], h.log[..|h.applied|]), r.table, r.key);
                  signals == [Signal(r.ticket, got.0, got.1)])
  {
    hide Acceptable, Storable, Lookup, ApplyAll, Reachable, RecoveryDone, HandleNewKVRequest;
    GetAnswer(st);
    RecoveredFirst(st);
    RecoveredSeen(st);
    var h := st.history;
    if h.base <= |h.applied| {
      assert h.applied == h.applied[..h.base] + h.applied[h.base..];
      ApplyAppend(map[], h.log[..h.base], h.applied[h.base..]);
    } else {
      assert h.applied[..|h.applied|] == h.applied;
    }
  }

  // Nothing but the log center keeps a get from being answered before that: right after a
  // restart it finds no table, whatever the log holds.
  lemma GetBeforeRecovery(st: State, after: seq<Journal.DiskFile>, table: Bytes, key: Bytes)
    requires Reachable(st) && st.history.callers > 0 && Enabled(st, CrashAndRestart(after))
    ensures var st1 := Next(st, CrashAndRestart(after));
            && Enabled(st1, Post(OP_GET, table, key, []))
            && var st2 := Next(st1, Post(OP_GET, table, key, []));
            && Enabled(st2, TakeRequests)
            && var st3 := Next(st2, TakeRequests);
            && Enabled(st3, HandleRequest([])) && st3.sys.requestCenter.batch[0].NewContext?
            && HandleNewKVRequest(RequestTaken(st3.sys), st3.sys.requestCenter.batch[0].request).signals ==
               [Signal(st.history.posted, TableNotExist, None)]
  {
    hide Storable, Journal.Recover, Journal.CrashOf, Journal.Files;
  }

  // Every answered record is promised.
  lemma {:induction false} AnswersPromised(st: State, steps: seq<Step>, last: State)
    requires Run(st, steps, last) && forall a :: a in st.history.answers ==> a.record in st.history.promised
    ensures forall a :: a in last.history.answers ==> a.record in last.history.promised
    decreases |steps|
  {
    hide Enabled, Next;
    if steps != [] {
      AnswersPromisedOnce(st, steps[0]);
      AnswersPromised(Next(st, steps[0]), steps[1..], last);
    }
  }

  lemma AnswersPromisedOnce(st: State, step: Step)
    requires Enabled(st, step) && forall a :: a in st.history.answers ==> a.record in st.history.promised
    ensures forall a :: a in Next(st, step).history.answers ==> a.record in Next(st, step).history.promised
  {
    hide Storable, Acceptable, HandleKVResponse, HandleNewKVRequest, Booted, HandleWriteOper, IdleHandler,
         HandleRecoverLog, Answers, Records;
    if step.HandleRequest? && st.sys.requestCenter.batch[0].FinishContext? {
      var order := step.order;
      var done := Records(order)[..Least(|HandleKVResponse(RequestTaken(st.sys), order).signals|, |order|)];
      AnswerRecords(st.sys.store, done);
    }
  }

  lemma AnswerRecords(store: Store, records: seq<LogRecord>)
    ensures forall a :: a in Answers(store, records) ==> a.record in records
  {
    hide Update;
    forall a | a in Answers(store, records) ensures a.record in records {
      var i :| 0 <= i < |records| && Answers(store, records)[i] == a;
      assert records[i] == a.record;
    }
  }

  lemma AnswersOfReachable(st: State, a: Answer)
    requires Reachable(st) && a in st.history.answers
    ensures a.record in st.history.promised && 1 <= a.record.logId <= st.history.flushed <= |st.history.log|
  {
    hide Enabled, Next, Run, OnDisk, Flow, AnswersAgree;
    var first := Initial(st.history.callers);
    var steps :| Run(first, steps, st);
    AnswersPromised(first, steps, st);
    ReachableInv(st);
  }

  // A process that has answered a write has everything recovered in its store.  Its own
  // writes are those behind the recovered ones; earlier answers are not.
  lemma AnsweredMeansRecovered(st: State, a: Answer)
    requires Reachable(st) && st.sys.fault.None? && a in st.history.answers && a.record.logId > st.history.base
    ensures RecoveryDone(st.sys.logCenter)
  {
    hide Reachable, RecoveryDone;
    AnswersOfReachable(st, a);
    RecoveredFirst(st);
    RecoveredSeen(st);
  }

  lemma EarlierAnswers(st: State, after: seq<Journal.DiskFile>, a: Answer)
    requires Reachable(st) && Enabled(st, CrashAndRestart(after)) && a in st.history.answers
    ensures a.record.logId <= Next(st, CrashAndRestart(after)).history.base
  {
    hide Reachable, Inv, Flow, OnDisk, Kept, AnswersAgree, Journal.CrashOf, Journal.Files, Journal.Recover;
    AnswersOfReachable(st, a);
    Durability(st, after);
  }

  ghost predicate NoCrash(steps: seq<Step>) {
    forall step :: step in steps ==> !step.CrashAndRestart?
  }

  lemma {:induction false} SameProcess(st: State, steps: seq<Step>, last: State)
    requires Run(st, steps, last) && NoCrash(steps)
    ensures last.history.base == st.history.base
    decreases |steps|
  {
    hide Enabled, Next;
    if steps != [] {
      assert steps[0] in steps;
      SameBase(st, steps[0]);
      SameProcess(Next(st, steps[0]), steps[1..], last);
    }
  }

  lemma SameBase(st: State, step: Step)
    requires Enabled(st, step) && !step.CrashAndRestart?
    ensures Next(st, step).history.base == st.history.base
  {
    hide Storable, Acceptable, HandleKVResponse, HandleNewKVRequest, Booted, HandleWriteOper, IdleHandler,
         HandleRecoverLog;
  }

  // A get that is handled after any write of the same process was answered sees everything
  // recovered.
  lemma GetAfterAnswer(st: State, a: Answer, steps: seq<Step>, last: State)
    requires Reachable(st) && a in st.history.answers && a.record.logId > st.history.base
    requires Run(st, steps, last) && NoCrash(steps) && Enabled(last, HandleRequest([]))
    requires last.sys.requestCenter.batch[0].NewContext? && last.sys.requestCenter.batch[0].request.opType == OP_GET
    ensures var r, h := last.sys.requestCenter.batch[0].request, last.history;
            && h.base <= |h.log| && h.base <= |h.applied|
            && var got := Lookup(ApplyAll(ApplyAll(map[], h.log[..h.base]), h.applied[h.base..]), r.table, r.key);
            HandleNewKVRequest(RequestTaken(last.sys), r).signals == [Signal(r.ticket, got.0, got.1)]
  {
    hide Reachable, RecoveryDone, Next, Run, ApplyAll, Lookup, HandleNewKVRequest, Acceptable, Storable;
    PromisesStay(st, steps, last);
    SameProcess(st, steps, last);
    RunsCompose(st, steps, last);
    AnsweredMeansRecovered(last, a);
    GetSees(last);
  }

  // ----- Live and recovered stores ---------------------------------------------------

  // As long as no response has held two operations that are not compatible, the live store
  // is what the log gives, every answer is the one the log gives, and a store recovered
  // after a crash is the live one with the records added that were appended and not yet
  // applied, as far as they survived.
  lemma RecoveryAgrees(st: State, after: seq<Journal.DiskFile>)
    requires Reachable(st) && st.sys.fault.None? && st.history.clean
    requires Journal.CrashOf(Journal.Files(st.sys.journal), after)
    ensures var h, records := st.history, Journal.Recover(after).records;
            && records <= h.log && |h.applied| <= |records|
            && st.sys.store == ApplyAll(map[], h.log[..|h.applied|])
            && ApplyAll(map[], h.log[..|records|]) == ApplyAll(st.sys.store, h.log[|h.applied|..|records|])
            && AnswersAgree(h.answers, h.promised, h.log[..|records|])
  {
    hide OnDisk, LogFlow, RequestFlow, Callers, Acceptable, Storable, ApplyAll, Reachable, Journal.CrashOf,
         Journal.Files, Journal.Recover, AnswersAgree, Kept;
    ReachableInv(st);
    var h := st.history;
    FlowFacts(st);
    var k := CrashDisk(st.sys.journal, st.sys.epoch, h.log, h.flushed, after);
    KeptShorter(h.promised, h.answers, h.log, h.flushed, k);
    PrefixAndSegment(h.log, |h.applied|, k);
    ApplyAppend(map[], h.log[..|h.applied|], h.log[|h.applied|..k]);
  }

  // In any case the live store has had the same records applied to it as the log gives, in
  // some order.
  lemma StoreIsSomeOrder(st: State)
    requires Reachable(st) && st.sys.fault.None?
    ensures var h := st.history;
            && |h.applied| <= h.flushed <= |h.log|
            && st.sys.store == ApplyAll(map[], h.applied)
            && multiset(h.applied) == multiset(h.log[..|h.applied|])
  {
    hide Durable, LogFlow, RequestFlow, Callers, Acceptable, Storable, ApplyAll, Reachable;
    ReachableInv(st);
    FlowFacts(st);
  }

  lemma InitialReachable(callers: nat)
    ensures Reachable(Initial(callers))
  {
    hide Enabled, Next, Inv;
    InitialInv(callers);
    assert Run(Initial(callers), [], Initial(callers));
  }

  lemma StepReachable(st: State, step: Step)
    requires Reachable(st) && Enabled(st, step)
    ensures Reachable(Next(st, step))
  {
    hide Enabled, Next, Initial;
    var next := Next(st, step);
    assert [step][1..] == [];
    assert Run(next, [], next);
    assert Run(st, [step], next);
    RunsCompose(st, [step], next);
  }

  // ----- Files over restarts ---------------------------------------------------------

  // Over any number of restarts the files hold the log, in the order of their epochs and
  // indices, each the records of one quotient, numbered on from file to file.
  lemma LogFiles(st: State) returns (c: Journal.Contents)
    requires Reachable(st)
    ensures Journal.Holds(st.sys.journal, c) && Journal.LogOf(c) == st.history.log
    ensures JournalOrder.Order(st.sys.journal, c, st.sys.epoch)
  {
    hide Reachable, Flow, Journal.Holds, JournalOrder.Order, Journal.LogOf, Journal.FlushedCount;
    ReachableInv(st);
    c :| HoldsLog(st.sys.journal, c, st.sys.epoch, st.history.log, st.history.flushed);
  }

  // Every name has room for its numbers: an index is the quotient of a log id.
  lemma {:induction false} NamesBounded(st: State, steps: seq<Step>, last: State)
    requires Inv(st) && Run(st, steps, last) && JournalOrder.Bounded(Journal.Files(st.sys.journal))
    ensures JournalOrder.Bounded(Journal.Files(last.sys.journal))
    decreases |steps|
  {
    hide Inv, Enabled, Next, Journal.Files, JournalOrder.Bounded;
    if steps != [] {
      StepKeeps(st, steps[0]);
      NameBounded(st, steps[0]);
      NamesBounded(Next(st, steps[0]), steps[1..], last);
    }
  }

  lemma NameBounded(st: State, step: Step)
    requires Inv(st) && Enabled(st, step) && JournalOrder.Bounded(Journal.Files(st.sys.journal))
    ensures JournalOrder.Bounded(Journal.Files(Next(st, step).sys.journal))
  {
    hide JournalOrder.Bounded, Journal.Files, Acceptable, Storable, HandleKVResponse, HandleNewKVRequest,
         Journal.WriteLog, Journal.FlushLog, Journal.Recover, Journal.CrashOf, Durable, Flow, HandleRecoverLog;
    var j := st.sys.journal;
    match step
    case HandleRequest(order) =>
      NewFrame(st.sys, order);
    case HandleLog =>
      if st.sys.logCenter.batch[0].WriteContext? {
        var r := st.sys.logCenter.batch[0].entry;
        if Journal.WriteLog(j, st.sys.epoch, r).Some? {
          JournalOrder.WriteBounded(j, st.sys.epoch, r);
        }
      } else {
        RecoverFrame(LogTaken(st.sys), st.sys.logCenter.batch[0].record);
      }
    case Idle =>
      if j.current.Some? {
        JournalOrder.FlushBounded(j);
      }
    case CrashAndRestart(after) =>
      JournalOrder.RecoverBounded(Journal.Files(j), after);
      ClosedFiles(Journal.Recover(after).files);
    case _ =>
  }

  lemma ClosedFiles(files: seq<Journal.DiskFile>)
    ensures Journal.Files(Journal.State(files, None)) == files
  {}

  lemma NewFrame(s: System, order: seq<Reply>)
    requires s.requestCenter.batch != []
    ensures HandleKVResponse(RequestTaken(s), order).sys.journal == s.journal
    ensures s.requestCenter.batch[0].NewContext? ==>
              var r := s.requestCenter.batch[0].request;
              (r.opType != OP_GET ==> s.logCenter.mMaxLogId + 1 < UINT32) ==>
                HandleNewKVRequest(RequestTaken(s), r).sys.journal == s.journal
  {
    hide HandleKVResponse, Acceptable, Storable;
    ResponseFrame(RequestTaken(s), order);
  }

  lemma RecoverFrame(s: System, r: LogRecord)
    ensures HandleRecoverLog(s, r).journal == s.journal
  {}

  // So the names grow with the log, and each gives back its epoch.
  lemma NamesGrow(st: State, dir: string, i: nat, k: nat)
    requires Reachable(st) && i < k < |Journal.Files(st.sys.journal)|
    requires dir != "" && dir[|dir| - 1] == '/'
    ensures var a, b := Journal.Files(st.sys.journal)[i], Journal.Files(st.sys.journal)[k];
            && a.epoch < UINT32 && a.index < UINT32 && b.epoch < UINT32 && b.index < UINT32
            && LogNames.Less(LogNames.NameOf(dir, a.epoch, a.index), LogNames.NameOf(dir, b.epoch, b.index))
            && LogNames.ParseEpoch(LogNames.NameOf(dir, a.epoch, a.index)) == a.epoch
  {
    hide Reachable, Journal.Holds, LogNames.Less, LogNames.NameOf, LogNames.ParseEpoch, Journal.Files;
    BoundedWhenReached(st);
    var a, b := Journal.Files(st.sys.journal)[i], Journal.Files(st.sys.journal)[k];
    var c := LogFiles(st);
    LogNames.NameOrder(dir, a.epoch, a.index, b.epoch, b.index);
    LogNames.EpochRoundTrip(dir, a.epoch, a.index);
  }

  lemma BoundedWhenReached(st: State)
    requires Reachable(st)
    ensures JournalOrder.Bounded(Journal.Files(st.sys.journal))
  {
    hide Enabled, Next, Run, Inv;
    var first := Initial(st.history.callers);
    var steps :| Run(first, steps, st);
    InitialInv(st.history.callers);
    EmptyDisk();
    NamesBounded(first, steps, st);
  }

  // A restart is of the next epoch at most.
  lemma NextEpoch(st: State, after: seq<Journal.DiskFile>)
    requires Reachable(st) && Journal.CrashOf(Journal.Files(st.sys.journal), after)
    ensures Journal.Recover(after).epoch <= st.sys.epoch
  {
    hide Journal.CrashOf, Journal.Files, Journal.Recover, JournalOrder.Order, Reachable, Journal.Holds;
    var c := LogFiles(st);
    JournalOrder.NextEpoch(st.sys.journal, c, st.sys.epoch, after);
  }
}
