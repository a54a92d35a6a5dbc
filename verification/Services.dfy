/**
 The database object and its two services as they are kept in memory.  Each handler does to
 the parts it is given what the corresponding function of the commit protocol does to a
 system `s` that has these parts.
 */
module Services {
  import opened Common
  import opened RecordFormat
  import opened GroupCommit
  import CommitSteps
  import PersistLogger
  import DataStore
  import Journal

  class LogCenter {
    var mQueue: seq<LogContext>
    var ctxVec: seq<LogContext>  // what is left of the batch
    var mIdle: bool
    var mMaxLogId: nat
    var mLogId2RequestId: map<nat, nat>
    var mToFlushLog: map<nat, Entry>
    const mFlushCount: array<nat>  // how many flushes there were of each size

    function State(): LogCenterState
      reads this
    {
      LogCenterState(mQueue, ctxVec, mIdle, mMaxLogId, mLogId2RequestId, mToFlushLog)
    }

    constructor ()
      ensures State() == LogCenterState([], [], false, 0, map[], map[])
      ensures mFlushCount.Length == FLUSH_COUNTS && fresh(mFlushCount)
      ensures forall i :: 0 <= i < FLUSH_COUNTS ==> mFlushCount[i] == 0
    {
      mFlushCount := new nat[FLUSH_COUNTS](_ => 0);
      mQueue, ctxVec, mIdle, mMaxLogId, mLogId2RequestId, mToFlushLog := [], [], false, 0, map[], map[];
    }

    method AppendLogRecord(ctx: LogContext)
      modifies this`mQueue
      ensures mQueue == old(mQueue) + [ctx]
    {
      mQueue := mQueue + [ctx];
    }

    method GenerateLogId() returns (id: nat)
      modifies this`mMaxLogId
      ensures id == mMaxLogId == old(mMaxLogId) + 1
    {
      mMaxLogId := mMaxLogId + 1;
      id := mMaxLogId;
    }

    method ReceiveClientRequest(requestId: nat, r: Request)
      requires r.opType != OP_GET && mMaxLogId + 1 < UINT32
      modifies this
      ensures State() == GroupCommit.ReceiveClientRequest(old(State()), requestId, r)
    {
      hide Acceptable, Storable;
      var logId := GenerateLogId();
      var record := RecordFor(r, logId);
      mLogId2RequestId := Inserted(mLogId2RequestId, logId, requestId);
      AppendLogRecord(WriteContext(record));
    }

    method HandleRecoverLog(store: DataStore.DataStore, record: LogRecord,
        ghost s: System) returns (fault: Option<Fault>)
      requires store.Valid() && s.store == store.Contents() && s.fault.None?
      modifies store, store.Tables()
      ensures fault == GroupCommit.HandleRecoverLog(s, record).fault
      ensures fault.None? ==>
                && store.Valid() && fresh(store.Tables() - old(store.Tables()))
                && GroupCommit.HandleRecoverLog(s, record) == s.(store := store.Contents())
    {
      hide DataStore.Update, IsWrite;
      FailsOnOther(s.store, record);
      var err := store.Apply(record);
      fault := if err == AssertionFailed then Some(InvalidOpType) else None;
    }

    method HandleWriteOper(logger: PersistLogger.PersistLogger, epoch: nat, record: Entry, ghost s: System)
      returns (fault: Option<Fault>)
      requires logger.Valid() && epoch < UINT32
      requires s.journal == logger.journal && s.epoch == epoch && s.logCenter == State() && s.fault.None?
      modifies this`mToFlushLog, logger`mCurrentLog, logger`journal, logger.disk, logger.Open()
      ensures fault == GroupCommit.HandleWriteOper(s, record).fault
      ensures fault.None? ==>
                && logger.Valid() && fresh(logger.Open() - old(logger.Open()))
                && GroupCommit.HandleWriteOper(s, record) == s.(journal := logger.journal, logCenter := State())
    {
      hide PersistLogger.PersistLogger.Valid, Storable, Journal.WriteLog;
      var err := logger.WriteLog(epoch, record);
      if err != Ok {
        return Some(NewLogFileFailed);
      }
      label written:
      mToFlushLog := Inserted(mToFlushLog, record.logId, record);
      logger.Untouched@written();
      if |mToFlushLog| > MAX_LOG_NUM_TO_FLUSH {
        return Some(TooManyToFlush);
      }
      fault := None;
    }

    method Idle(logger: PersistLogger.PersistLogger, requestCenter: RequestCenter,
        ghost s: System) returns (fault: Option<Fault>)
      requires logger.Valid() && s.journal == logger.journal && s.fault.None?
      requires s.logCenter == State() && s.requestCenter == requestCenter.State()
      requires mFlushCount.Length == FLUSH_COUNTS && mFlushCount !in logger.Open()
      modifies this`mToFlushLog, requestCenter`mQueue, logger`journal, logger.disk, logger.Open(), mFlushCount
      ensures fault == IdleHandler(s).fault
      ensures fault == Some(FlushCountOverrun) ==> |old(mToFlushLog)| >= 50
      ensures |old(mToFlushLog)| >= 50 ==> fault == Some(FlushCountOverrun) || fault == Some(NoLogFile)
      ensures |old(mToFlushLog)| <= 49 && s.journal.current.Some? && old(mToFlushLog).Keys <= mLogId2RequestId.Keys ==>
                fault == None
      ensures fault == Some(FlushCountOverrun) ==> logger.Valid() && logger.journal == IdleHandler(s).journal
      ensures fault.None? ==> mFlushCount[..] == OneFlushMore(old(mFlushCount[..]), |s.logCenter.mToFlushLog|)
      ensures fault.None? ==>
                && logger.Valid()
                && IdleHandler(s) ==
                   s.(journal := logger.journal, logCenter := State(), requestCenter := requestCenter.State())
    {
      hide Storable, Journal.FlushLog, PersistLogger.PersistLogger.Valid;
      logger.OpenWhenCurrent();
      if |mToFlushLog| > 0 {
        if logger.mCurrentLog == null {
          return Some(NoLogFile);
        }
        var err := logger.FlushLog();
        label flushed:
        if |mToFlushLog| >= FLUSH_COUNTS {
          return Some(FlushCountOverrun);
        }
        CountFlush();
        fault := Respond(requestCenter);
        logger.Untouched@flushed();
        return;
      }
      fault := None;
    }

    // Sends what has been flushed, and forgets it.
    method Respond(requestCenter: RequestCenter) returns (fault: Option<Fault>)
      modifies this`mToFlushLog, requestCenter`mQueue
      ensures fault ==
              if exists id :: id in old(mToFlushLog) && id !in mLogId2RequestId then Some(LogIdUnknown) else None
      ensures fault.None? ==>
                && mToFlushLog == map[]
                && requestCenter.mQueue ==
                   old(requestCenter.mQueue) +
                   [FinishContext(set id | id in old(mToFlushLog) ::
                                    Reply(mLogId2RequestId[id], old(mToFlushLog)[id]))]
    {
      hide Storable;
      var replies;
      fault, replies := CollectReplies();
      if fault.None? {
        requestCenter.ReceiveKVResponse(replies);
        mToFlushLog := map[];
      }
    }

    method CountFlush()
      requires 0 < |mToFlushLog| < mFlushCount.Length
      modifies mFlushCount
      ensures mFlushCount[..] == OneFlushMore(old(mFlushCount[..]), |mToFlushLog|)
    {
      mFlushCount[|mToFlushLog|] := (mFlushCount[|mToFlushLog|] + 1) % UINT32;
    }

    // The response: for each record to flush, the number of its request.
    method CollectReplies() returns (fault: Option<Fault>, replies: set<Reply>)
      ensures fault == if exists id :: id in mToFlushLog && id !in mLogId2RequestId then Some(LogIdUnknown) else None
      ensures fault.None? ==>
                replies == set id | id in mToFlushLog :: Reply(mLogId2RequestId[id], mToFlushLog[id])
    {
      hide Storable;
      replies := {};
      var left := mToFlushLog.Keys;
      while left != {}
        invariant left <= mToFlushLog.Keys
        invariant forall id :: id in mToFlushLog.Keys - left ==> id in mLogId2RequestId
        invariant replies == set id | id in mToFlushLog.Keys - left :: Reply(mLogId2RequestId[id], mToFlushLog[id])
        decreases |left|
      {
        var id :| id in left;
        if id !in mLogId2RequestId {
          return Some(LogIdUnknown), {};
        }
        replies := replies + {Reply(mLogId2RequestId[id], mToFlushLog[id])};
        left := left - {id};
      }
      assert mToFlushLog.Keys - left == mToFlushLog.Keys;
      fault := None;
    }
  }

  // The counters after a flush of so many records, if there were any.
  function OneFlushMore(counts: seq<nat>, size: nat): seq<nat>
    requires size < |counts|
  {
    if size == 0 then counts else counts[size := (counts[size] + 1) % UINT32]
  }

  class RequestCenter {
    var mQueue: seq<RequestContext>
    var ctxVec: seq<RequestContext>  // what is left of the batch
    var mRequestID: nat
    var mRequests: map<nat, Request>
    var mSignals: seq<Signal>        // the callers signalled, in turn

    function State(): RequestCenterState
      reads this
    {
      RequestCenterState(mQueue, ctxVec, mRequestID, mRequests)
    }

    constructor ()
      ensures State() == RequestCenterState([], [], 0, map[]) && mSignals == []
    {
      mQueue, ctxVec, mRequestID, mRequests, mSignals := [], [], 0, map[], [];
    }

    // The caller waits from here on.
    method EnqueueKVRequest(request: Request)
      modifies this`mQueue
      ensures mQueue == old(mQueue) + [NewContext(request)]
    {
      mQueue := mQueue + [NewContext(request)];
    }

    method ReceiveKVResponse(replies: set<Reply>)
      modifies this`mQueue
      ensures mQueue == old(mQueue) + [FinishContext(replies)]
    {
      mQueue := mQueue + [FinishContext(replies)];
    }

    method HandleNewKVRequest(store: DataStore.DataStore, logCenter: LogCenter, request: Request, ghost s: System)
      requires store.Valid() && s.store == store.Contents() && s.logCenter == logCenter.State()
          && s.requestCenter == State()
      requires request.opType != OP_GET ==> logCenter.mMaxLogId + 1 < UINT32
      modifies this, logCenter
      ensures var handled := GroupCommit.HandleNewKVRequest(s, request);
              && handled.sys == s.(requestCenter := State(), logCenter := logCenter.State())
              && mSignals == old(mSignals) + handled.signals
    {
      hide Acceptable, Storable;
      if request.opType == OP_GET {
        var err, value := store.Get(request.table, request.key);
        assert (err, value) == DataStore.Lookup(s.store, request.table, request.key);
        mSignals := mSignals + [Signal(request.ticket, err, value)];
      } else {
        mRequestID := mRequestID + 1;
        mRequests := Inserted(mRequests, mRequestID, request);
        logCenter.ReceiveClientRequest(mRequestID, request);
        assert mSignals == old(mSignals) + [];
      }
    }

    // One turn of the loop below.
    method HandleReply(store: DataStore.DataStore, reply: Reply, ghost s: System) returns (fault: Option<Fault>)
      requires store.Valid() && s.store == store.Contents() && s.requestCenter == State() && s.fault.None?
      modifies this, store, store.Tables()
      ensures var handled := GroupCommit.HandleReply(s, reply);
              && fault == handled.sys.fault
              && (fault.None? ==>
                    && store.Valid() && fresh(store.Tables() - old(store.Tables()))
                    && handled.sys == s.(store := store.Contents(), requestCenter := State())
                    && mSignals == old(mSignals) + handled.signals)
    {
      hide Acceptable, Storable, DataStore.Update, IsWrite;
      FailsOnOther(s.store, reply.record);
      if reply.id !in mRequests {
        return Some(RequestUnknown);
      }
      var request := mRequests[reply.id];
      var err := store.Apply(reply.record);
      if err == AssertionFailed {
        return Some(InvalidOpType);
      }
      mSignals := mSignals + [Signal(request.ticket, err, None)];
      mRequests := mRequests - {reply.id};
      fault := None;
    }

    // Goes through the response in whatever order the set has.
    method HandleKVResponse(store: DataStore.DataStore, replies: set<Reply>, ghost s: System)
      returns (fault: Option<Fault>, ghost order: seq<Reply>)
      requires store.Valid() && s.store == store.Contents() && s.requestCenter == State() && s.fault.None?
      modifies this, store, store.Tables()
      ensures fault == GroupCommit.HandleKVResponse(s, order).sys.fault
      ensures fault.None? ==>
                && Enumerates(order, replies)
                && store.Valid() && fresh(store.Tables() - old(store.Tables()))
                && var handled := GroupCommit.HandleKVResponse(s, order);
                && handled.sys == s.(store := store.Contents(), requestCenter := State())
                && mSignals == old(mSignals) + handled.signals
    {
      hide Acceptable, Storable, GroupCommit.HandleReply, GroupCommit.HandleKVResponse;
      var left := replies;
      order := [];
      fault := None;
      NothingDone(s);
      while left != {}
        invariant left <= replies && Enumerates(order, replies - left)
        invariant fault.None? && store.Valid() && fresh(store.Tables() - old(store.Tables()))
        invariant GroupCommit.HandleKVResponse(s, order).sys == s.(store := store.Contents(), requestCenter := State())
        invariant mSignals == old(mSignals) + GroupCommit.HandleKVResponse(s, order).signals
        decreases |left|
      {
        var pair :| pair in left;
        left := left - {pair};
        OneReplyMore(s, order, pair);
        EnumerateMore(order, replies, left, pair);
        ghost var done := GroupCommit.HandleKVResponse(s, order);
        order := order + [pair];
        fault := HandleReply(store, pair, done.sys);
        if fault.Some? {
          return;
        }
      }
      assert replies - left == replies;
    }
  }

  lemma NothingDone(s: System)
    ensures GroupCommit.HandleKVResponse(s, []) == Handled(s, [])
  {}

  // One more turn of the loop is one more reply handled, until one fails.
  lemma OneReplyMore(s: System, order: seq<Reply>, reply: Reply)
    requires GroupCommit.HandleKVResponse(s, order).sys.fault.None? && s.fault.None?
    ensures var before := GroupCommit.HandleKVResponse(s, order);
            var last := GroupCommit.HandleReply(before.sys, reply);
            GroupCommit.HandleKVResponse(s, order + [reply]) == Handled(last.sys, before.signals + last.signals)
  {
    hide GroupCommit.HandleReply, Storable, Acceptable;
    var before := GroupCommit.HandleKVResponse(s, order);
    CommitSteps.HandleInTwo(s, order, [reply]);
    assert [reply][1..] == [];
    var last := GroupCommit.HandleReply(before.sys, reply);
    NothingDone(last.sys);
    assert last.signals + [] == last.signals;
  }

  lemma FailsOnOther(store: DataStore.Store, r: LogRecord)
    ensures DataStore.Update(store, r).err == AssertionFailed <==> !IsWrite(r.opType)
  {}

  lemma EnumerateMore(order: seq<Reply>, replies: set<Reply>, left: set<Reply>, pair: Reply)
    requires left <= replies && pair in replies && pair !in left && Enumerates(order, replies - left - {pair})
    ensures Enumerates(order + [pair], replies - left)
  {
    assert replies - left == replies - left - {pair} + {pair};
  }

  class KVDB {
    const mPersistLogger: PersistLogger.PersistLogger
    const mDataStore: DataStore.DataStore
    const mLogCenter: LogCenter
    const mRequestCenter: RequestCenter
    var mDBEpoch: nat

    constructor (logger: PersistLogger.PersistLogger)
      ensures mPersistLogger == logger && mDBEpoch == 0
      ensures fresh(mDataStore) && fresh(mLogCenter) && fresh(mRequestCenter)
      ensures mLogCenter.State() == LogCenterState([], [], false, 0, map[], map[])
      ensures mLogCenter.mFlushCount.Length == FLUSH_COUNTS && fresh(mLogCenter.mFlushCount)
      ensures mRequestCenter.State() == RequestCenterState([], [], 0, map[])
      ensures mDataStore.Valid() && mDataStore.Contents() == map[]
    {
      mPersistLogger := logger;
      mDataStore := new DataStore.DataStore();
      mLogCenter := new LogCenter();
      mRequestCenter := new RequestCenter();
      mDBEpoch := 0;
    }

    // Recovers, hands everything recovered to the log center, and begins a new epoch.
    method Start()
      requires mPersistLogger.Valid() && mPersistLogger.mCurrentLog == null
      requires PersistLogger.InOrder(mPersistLogger.journal.closed)
      requires mLogCenter.State() == LogCenterState([], [], false, 0, map[], map[])
      requires mRequestCenter.State() == RequestCenterState([], [], 0, map[])
      modifies this, mLogCenter, mPersistLogger`journal, mPersistLogger.disk
      ensures mPersistLogger.Valid()
      ensures System(mPersistLogger.journal, mDBEpoch, mLogCenter.State(), mRequestCenter.State(), map[], None) ==
              Booted(old(mPersistLogger.journal).closed)
    {
      hide PersistLogger.PersistLogger.Valid, PersistLogger.InOrder, Journal.Recover, Storable, RecoverContexts;
      var records, epoch, maxLogId := mPersistLogger.RecoverFromLog();
      label recovered:
      RecoveredHandOver(records, maxLogId);
      SetEpoch(epoch);
      NotifyNewEpoch();
      mPersistLogger.Untouched@recovered();
    }

    method RecoveredHandOver(records: seq<LogRecord>, maxLogId: nat)
      requires mLogCenter.State() == LogCenterState([], [], false, 0, map[], map[])
      modifies mLogCenter
      ensures mLogCenter.State() == LogCenterState(RecoverContexts(records), [], false, maxLogId, map[], map[])
    {
      var i := 0;
      while i < |records|
        invariant 0 <= i <= |records|
        invariant mLogCenter.State() == LogCenterState(RecoverContexts(records[..i]), [], false, 0, map[], map[])
      {
        assert RecoverContexts(records[..i + 1]) == RecoverContexts(records[..i]) + [RecoverContext(records[i])];
        mLogCenter.AppendLogRecord(RecoverContext(records[i]));
        i := i + 1;
      }
      assert records[..i] == records;
      mLogCenter.mMaxLogId := maxLogId;
    }

    method SetEpoch(epoch: nat)
      modifies this`mDBEpoch
      ensures mDBEpoch == epoch
    {
      mDBEpoch := epoch;
    }

    method NotifyNewEpoch()
      modifies this`mDBEpoch
      ensures mDBEpoch == old(mDBEpoch) + 1
    {
      mDBEpoch := mDBEpoch + 1;
    }
  }
}
