/**
 The commit protocol as a state machine: callers, the request center, the log center and
 the log, each handler one atomic step, with crashes and recoveries in between.
 */
module GroupCommit {
  import opened Common
  import Lists
  import opened RecordFormat
  import opened DataStore
  import ApplyOrder
  import Journal

  const MAX_LOG_NUM_TO_FLUSH: nat := 1000

  // The length of LogCenter::mFlushCount, which counts the flushes of each size.
  const FLUSH_COUNTS: nat := 50

  // ----- What the services hold ------------------------------------------------------

  // KVRequest; the ticket tells callers apart.  The operation may be any number, OP_null, which
  // the constructor leaves, among them.
  datatype RequestData = RequestData(ticket: nat, opType: nat, table: Bytes, key: Bytes, value: Bytes)

  type Request = r: RequestData | Acceptable(r) witness RequestData(0, OP_PUT, [], [], [])

  predicate Acceptable(r: RequestData) {
    r.opType == OP_GET || Storable(LogRecord(0, r.opType, r.table, r.key, r.value))
  }

  function RecordFor(r: Request, logId: nat): (e: Entry)
    requires r.opType != OP_GET && logId < UINT32
    ensures e == LogRecord(logId, r.opType, r.table, r.key, r.value)
  {
    LogRecord(logId, r.opType, r.table, r.key, r.value)
  }

  // LogContext, by its type
  datatype LogContext = RecoverContext(record: LogRecord) | WriteContext(entry: Entry)

  // RequestIdLogRecord
  datatype Reply = Reply(id: nat, record: Entry)

  datatype RequestContext = NewContext(request: Request) | FinishContext(replies: set<Reply>)

  // `idle`: the queue was polled and found empty, and Idle comes next.
  datatype LogCenterState = LogCenterState(
    queue: seq<LogContext>, batch: seq<LogContext>, idle: bool,
    mMaxLogId: nat, mLogId2RequestId: map<nat, nat>, mToFlushLog: map<nat, Entry>)

  datatype RequestCenterState = RequestCenterState(
    queue: seq<RequestContext>, batch: seq<RequestContext>,
    mRequestID: nat, mRequests: map<nat, Request>)

  // The assertions, null references and overruns a handler can run into.
  datatype Fault =
    | NewLogFileFailed    // PersistLogger::WriteLog
    | InvalidOpType       // LogCenter::UpdateDataStore
    | NoLogFile           // PersistLogger::FlushLog
    | FlushCountOverrun   // LogCenter::Idle, behind the end of mFlushCount
    | LogIdUnknown        // LogCenter::Idle
    | RequestUnknown      // RequestCenter::HandleKVResponse
    | TooManyToFlush      // the second branch of LogCenter::HandleWriteOper

  datatype System = System(
    journal: Journal.State, epoch: nat,
    logCenter: LogCenterState, requestCenter: RequestCenterState,
    store: Store, fault: Option<Fault>)

  // KVRequest::Signal, with what the caller finds.
  datatype Signal = Signal(ticket: nat, err: Err, value: Option<Bytes>)

  datatype Handled = Handled(sys: System, signals: seq<Signal>)

  // std::map::insert
  function Inserted<K, V>(m: map<K, V>, k: K, v: V): map<K, V> {
    if k in m then m else m[k := v]
  }

  // ----- The request center ----------------------------------------------------------

  // LogCenter::ReceiveClientRequest
  function ReceiveClientRequest(lc: LogCenterState, requestId: nat, r: Request): LogCenterState
    requires r.opType != OP_GET && lc.mMaxLogId + 1 < UINT32
  {
    var logId := lc.mMaxLogId + 1;
    lc.(mMaxLogId := logId,
        mLogId2RequestId := Inserted(lc.mLogId2RequestId, logId, requestId),
        queue := lc.queue + [WriteContext(RecordFor(r, logId))])
  }

  // RequestCenter::HandleNewKVRequest
  function HandleNewKVRequest(s: System, r: Request): Handled
    requires r.opType != OP_GET ==> s.logCenter.mMaxLogId + 1 < UINT32
  {
    if r.opType == OP_GET then
      var got := Lookup(s.store, r.table, r.key);
      Handled(s, [Signal(r.ticket, got.0, got.1)])
    else
      var rc := s.requestCenter;
      var id := rc.mRequestID + 1;
      Handled(s.(requestCenter := rc.(mRequestID := id, mRequests := Inserted(rc.mRequests, id, r)),
                 logCenter := ReceiveClientRequest(s.logCenter, id, r)),
              [])
  }

  // One turn of the loop in RequestCenter::HandleKVResponse.
  function HandleReply(s: System, reply: Reply): Handled {
    var rc := s.requestCenter;
    if reply.id !in rc.mRequests then Handled(s.(fault := Some(RequestUnknown)), [])
    else if !IsWrite(reply.record.opType) then Handled(s.(fault := Some(InvalidOpType)), [])
    else
      var updated := Update(s.store, reply.record);
      Handled(s.(store := updated.store, requestCenter := rc.(mRequests := rc.mRequests - {reply.id})),
              [Signal(rc.mRequests[reply.id].ticket, updated.err, None)])
  }

  // RequestCenter::HandleKVResponse, going through the replies in this order.
  function HandleKVResponse(s: System, order: seq<Reply>): Handled
    decreases |order|
  {
    if order == [] || s.fault.Some? then Handled(s, [])
    else
      var first := HandleReply(s, order[0]);
      var rest := HandleKVResponse(first.sys, order[1..]);
      rest.(signals := first.signals + rest.signals)
  }

  // ----- The log center --------------------------------------------------------------

  // LogCenter::HandleRecoverLog
  function HandleRecoverLog(s: System, r: LogRecord): System {
    if IsWrite(r.opType) then s.(store := Update(s.store, r).store)
    else s.(fault := Some(InvalidOpType))
  }

  // LogCenter::HandleWriteOper
  function HandleWriteOper(s: System, r: Entry): System {
    match Journal.WriteLog(s.journal, s.epoch, r)
    case None => s.(fault := Some(NewLogFileFailed))
    case Some(j) =>
      var toFlush := Inserted(s.logCenter.mToFlushLog, r.logId, r);
      s.(journal := j,
         logCenter := s.logCenter.(mToFlushLog := toFlush),
         fault := if |toFlush| > MAX_LOG_NUM_TO_FLUSH then Some(TooManyToFlush) else s.fault)
  }

  // LogCenter::Idle
  function IdleHandler(s: System): System {
    var lc := s.logCenter;
    if |lc.mToFlushLog| == 0 then s
    else if s.journal.current.None? then s.(fault := Some(NoLogFile))
    else if |lc.mToFlushLog| >= FLUSH_COUNTS then
      s.(journal := Journal.FlushLog(s.journal), fault := Some(FlushCountOverrun))
    else if exists id :: id in lc.mToFlushLog && id !in lc.mLogId2RequestId then s.(fault := Some(LogIdUnknown))
    else
      var replies := set id | id in lc.mToFlushLog :: Reply(lc.mLogId2RequestId[id], lc.mToFlushLog[id]);
      s.(journal := Journal.FlushLog(s.journal),
         requestCenter := s.requestCenter.(queue := s.requestCenter.queue + [FinishContext(replies)]),
         logCenter := lc.(mToFlushLog := map[]))
  }

  // KVDB::Start over the log files that are there: everything replayed is handed to the log
  // center, and a new epoch begins.
  function Booted(files: seq<Journal.DiskFile>): System {
    var r := Journal.Recover(files);
    System(Journal.State(r.files, None), r.epoch + 1,
           LogCenterState(RecoverContexts(r.records), [], false, r.maxLogId, map[], map[]),
           RequestCenterState([], [], 0, map[]),
           map[], None)
  }

  function RecoverContexts(records: seq<LogRecord>): (ctxs: seq<LogContext>)
    ensures |ctxs| == |records|
    ensures forall i :: 0 <= i < |ctxs| ==> ctxs[i] == RecoverContext(records[i])
  {
    seq(|records|, i requires 0 <= i < |records| => RecoverContext(records[i]))
  }

  // ----- History ---------------------------------------------------------------------

  // What an observer of all runs of the program since the first would have written down.
  datatype History = History(
    log: seq<Entry>,        // the records appended, as far as they survived the crashes
    flushed: nat,           // how many of them were flushed
    base: nat,              // how many of them the running process recovered
    waiting: seq<Entry>,    // handed to the log center and not yet appended
    applied: seq<LogRecord>,   // applied to the running process's store, in that order
    answers: set<Answer>,      // records whose callers were signalled, and with which error
    promised: set<LogRecord>,  // those records, and all that the answer to a get was based on
    callers: nat,           // as many of them as may wait at a time
    posted: nat,            // tickets given out
    operations: set<nat>,   // what was posted
    blocked: set<nat>,      // tickets of waiting callers
    signalled: seq<nat>,    // tickets of signalled callers
    clean: bool)            // so far no response held two operations that are not compatible

  datatype State = State(sys: System, history: History)

  function Least(a: nat, b: nat): nat { if a <= b then a else b }

  function Tickets(signals: seq<Signal>): (tickets: seq<nat>)
    ensures |tickets| == |signals|
    ensures forall i :: 0 <= i < |signals| ==> tickets[i] == signals[i].ticket
  {
    seq(|signals|, i requires 0 <= i < |signals| => signals[i].ticket)
  }

  function Records(order: seq<Reply>): (records: seq<LogRecord>)
    ensures |records| == |order|
    ensures forall i :: 0 <= i < |order| ==> records[i] == order[i].record
  {
    seq(|order|, i requires 0 <= i < |order| => order[i].record)
  }

  ghost function Signalled(h: History, signals: seq<Signal>): History {
    h.(signalled := h.signalled + Tickets(signals),
       blocked := h.blocked - Lists.Elements(Tickets(signals)))
  }

  // ----- Steps -----------------------------------------------------------------------

  datatype Step =
    | Post(opType: nat, table: Bytes, key: Bytes, value: Bytes)
    | TakeRequests
    | HandleRequest(order: seq<Reply>)  // a response is gone through in this order
    | TakeLogs
    | HandleLog
    | Idle
    | CrashAndRestart(after: seq<Journal.DiskFile>)

  ghost predicate Enumerates(order: seq<Reply>, replies: set<Reply>) {
    |order| == |replies| && forall r :: r in order <==> r in replies
  }

  ghost predicate Enabled(st: State, step: Step) {
    var s := st.sys;
    match step
    case CrashAndRestart(after) =>
      Journal.CrashOf(Journal.Files(s.journal), after) && Journal.Recover(after).epoch + 1 < UINT32
    case Post(opType, table, key, value) =>
      && s.fault.None? && |st.history.blocked| < st.history.callers
      && Acceptable(RequestData(st.history.posted, opType, table, key, value))
    case TakeRequests =>
      s.fault.None? && s.requestCenter.batch == [] && s.requestCenter.queue != []
    case HandleRequest(order) =>
      && s.fault.None? && s.requestCenter.batch != []
      && (match s.requestCenter.batch[0]
          case NewContext(r) => order == [] && (r.opType != OP_GET ==> s.logCenter.mMaxLogId + 1 < UINT32)
          case FinishContext(replies) => Enumerates(order, replies))
    case TakeLogs =>
      s.fault.None? && s.logCenter.batch == [] && !s.logCenter.idle
    case HandleLog =>
      s.fault.None? && s.logCenter.batch != []
    case Idle =>
      s.fault.None? && s.logCenter.batch == [] && s.logCenter.idle
  }

  ghost function Next(st: State, step: Step): State
    requires Enabled(st, step)
  {
    match step
    case Post(opType, table, key, value) => AfterPost(st, RequestData(st.history.posted, opType, table, key, value))
    case TakeRequests => AfterTakeRequests(st)
    case HandleRequest(order) =>
      (match st.sys.requestCenter.batch[0]
       case NewContext(r) => AfterNew(st, r)
       case FinishContext(replies) => AfterFinish(st, order))
    case TakeLogs => AfterTakeLogs(st)
    case HandleLog =>
      (match st.sys.logCenter.batch[0]
       case RecoverContext(r) => AfterRecover(st, r)
       case WriteContext(r) => AfterWrite(st, r))
    case Idle => AfterIdle(st)
    case CrashAndRestart(after) => AfterCrash(st, after)
  }

  // RequestCenter::EnqueueKVRequest; the caller waits from here on.
  ghost function AfterPost(st: State, r: Request): State {
    var s, h := st.sys, st.history;
    var rc := s.requestCenter;
    State(s.(requestCenter := rc.(queue := rc.queue + [NewContext(r)])),
          h.(posted := h.posted + 1, operations := h.operations + {r.opType}, blocked := h.blocked + {r.ticket}))
  }

  ghost function AfterTakeRequests(st: State): State {
    var rc := st.sys.requestCenter;
    st.(sys := st.sys.(requestCenter := rc.(batch := rc.queue, queue := [])))
  }

  function RequestTaken(s: System): System
    requires s.requestCenter.batch != []
  {
    s.(requestCenter := s.requestCenter.(batch := s.requestCenter.batch[1..]))
  }

  ghost function AfterNew(st: State, r: Request): State
    requires st.sys.requestCenter.batch != []
    requires r.opType != OP_GET ==> st.sys.logCenter.mMaxLogId + 1 < UINT32
  {
    var h := st.history;
    var handled := HandleNewKVRequest(RequestTaken(st.sys), r);
    State(handled.sys,
          if r.opType == OP_GET then
            Signalled(h, handled.signals).(promised := h.promised + Lists.Elements(h.applied))
          else
            h.(waiting := h.waiting + [RecordFor(r, st.sys.logCenter.mMaxLogId + 1)]))
  }

  ghost function AfterFinish(st: State, order: seq<Reply>): State
    requires st.sys.requestCenter.batch != []
  {
    var h := st.history;
    var handled := HandleKVResponse(RequestTaken(st.sys), order);
    var done := Records(order)[..Least(|handled.signals|, |order|)];  // what came before a failure
    State(handled.sys,
          Signalled(h, handled.signals).(
            applied := h.applied + done,
            answers := h.answers + Lists.Elements(Answers(st.sys.store, done)),
            promised := h.promised + Lists.Elements(done),
            clean := h.clean && ApplyOrder.PairwiseCompatible(Records(order))))
  }

  ghost function AfterTakeLogs(st: State): State {
    var lc := st.sys.logCenter;
    st.(sys := st.sys.(logCenter := lc.(batch := lc.queue, queue := [], idle := lc.queue == [])))
  }

  function LogTaken(s: System): System
    requires s.logCenter.batch != []
  {
    s.(logCenter := s.logCenter.(batch := s.logCenter.batch[1..]))
  }

  ghost function AfterRecover(st: State, r: LogRecord): State
    requires st.sys.logCenter.batch != []
  {
    State(HandleRecoverLog(LogTaken(st.sys), r),
          if IsWrite(r.opType) then st.history.(applied := st.history.applied + [r]) else st.history)
  }

  ghost function AfterWrite(st: State, r: Entry): State
    requires st.sys.logCenter.batch != []
  {
    var h := st.history;
    var s := HandleWriteOper(LogTaken(st.sys), r);
    State(s,
          if s.fault == Some(NewLogFileFailed) || h.waiting == [] then h
          else h.(log := h.log + [r], waiting := h.waiting[1..]))
  }

  ghost function AfterIdle(st: State): State {
    var s := st.sys.(logCenter := st.sys.logCenter.(idle := false));
    State(IdleHandler(s),
          if |s.logCenter.mToFlushLog| == 0 then st.history
          else st.history.(flushed := |st.history.log|))
  }

  // Every waiting caller is lost with the process; what is appended from now on follows what
  // recovery found.
  ghost function AfterCrash(st: State, after: seq<Journal.DiskFile>): State {
    var h := st.history;
    var s := Booted(after);
    var n := |Journal.Recover(after).records|;
    State(s, h.(log := if n <= |h.log| then h.log[..n] else h.log,
                flushed := n, base := n, waiting := [], applied := [], blocked := {}))
  }

  // ----- Runs ------------------------------------------------------------------------

  // The program started on an empty directory, for so many callers.
  ghost function Initial(callers: nat): State {
    State(Booted([]), History([], 0, 0, [], [], {}, {}, callers, 0, {}, {}, [], true))
  }

  ghost predicate Run(st: State, steps: seq<Step>, last: State)
    decreases |steps|
  {
    if steps == [] then last == st
    else Enabled(st, steps[0]) && Run(Next(st, steps[0]), steps[1..], last)
  }

  // With any number of callers.
  ghost predicate Reachable(st: State) {
    exists steps :: Run(Initial(st.history.callers), steps, st)
  }
}
