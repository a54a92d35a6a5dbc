/**
 The steps of the log center, and crashes, keep the invariant of the commit protocol.
 */
module CommitLogSteps {
  import opened Common
  import Lists
  import opened RecordFormat
  import opened DataStore
  import opened GroupCommit
  import opened CommitInvariant
  import opened CommitSteps
  import FileLog
  import Journal
  import JournalOrder

  // ----- The next context ------------------------------------------------------------

  lemma FirstLog(lc: LogCenterState)
    requires lc.batch != []
    ensures lc.batch + lc.queue != [] && (lc.batch + lc.queue)[0] == lc.batch[0]
    ensures (lc.batch + lc.queue)[1..] == lc.batch[1..] + lc.queue
  {}

  // As long as anything recovered is left, that comes first.
  lemma ContextsFirst(recovered: seq<Entry>, waiting: seq<Entry>)
    ensures recovered != [] ==>
              && Contexts(recovered, waiting)[0] == RecoverContext(recovered[0])
              && Contexts(recovered, waiting)[1..] == Contexts(recovered[1..], waiting)
    ensures recovered == [] && waiting != [] ==>
              && Contexts(recovered, waiting)[0] == WriteContext(waiting[0])
              && Contexts(recovered, waiting)[1..] == Contexts([], waiting[1..])
  {
    hide Storable;
    var all := Contexts(recovered, waiting);
    if recovered != [] {
      forall i | 0 <= i < |all| - 1 ensures all[1..][i] == Contexts(recovered[1..], waiting)[i] {
        if i >= |recovered| - 1 {
          assert all[|recovered| + (i + 1 - |recovered|)] == WriteContext(waiting[i + 1 - |recovered|]);
        }
      }
    } else if waiting != [] {
      assert all[0 + 0] == WriteContext(waiting[0]);
      forall i | 0 <= i < |all| - 1 ensures all[1..][i] == Contexts([], waiting[1..])[i] {
        assert all[0 + (i + 1)] == WriteContext(waiting[i + 1]);
        assert Contexts([], waiting[1..])[0 + i] == WriteContext(waiting[1..][i]);
      }
    }
  }

  // ----- A recovered record ----------------------------------------------------------

  lemma RecoverNext(lc: LogCenterState, log: seq<Entry>, waiting: seq<Entry>, base: nat, flushed: nat, a: nat,
      r: LogRecord)
    requires LogFlow(lc, log, waiting, base, flushed, a) && lc.batch != [] && lc.batch[0] == RecoverContext(r)
    ensures a < base && r == log[a]
    ensures LogFlow(lc.(batch := lc.batch[1..]), log, waiting, base, flushed, a + 1)
  {
    hide Segment, Storable, Contexts;
    FirstLog(lc);
    ContextsFirst(log[Least(a, base)..base], waiting);
    assert log[base..base] == [];
    if a < base {
      assert log[a..base][1..] == log[a + 1..base];
    }
  }

  lemma RecoverStore(store: Store, applied: seq<LogRecord>, log: seq<Entry>, base: nat, clean: bool, r: LogRecord)
    requires IsWrite(r.opType) && StoreOk(store, applied, log, base, clean)
    requires |applied| < base && |applied| < |log| && r == log[|applied|]
    ensures StoreOk(Update(store, r).store, applied + [r], log, base, clean)
  {
    hide Update, Storable, ApplyAll;
    var a := |applied|;
    assert log[..a + 1] == log[..a] + [r];
    assert applied[..a] == applied && (applied + [r])[..a + 1] == applied + [r];
    ApplyAppend(map[], applied, [r]);
    ApplyOne(store, r);
  }

  lemma ApplyOne(store: Store, r: LogRecord)
    ensures ApplyAll(store, [r]) == Update(store, r).store
  {
    hide Update;
    assert [r][1..] == [];
  }

  lemma RecoverKeeps(st: State, r: LogRecord)
    requires Inv(st) && st.sys.fault.None?
    requires st.sys.logCenter.batch != [] && st.sys.logCenter.batch[0] == RecoverContext(r)
    ensures Inv(AfterRecover(st, r))
    ensures AfterRecover(st, r).sys.fault == if IsWrite(r.opType) then None else Some(InvalidOpType)
  {
    hide Durable, LogFlow, StoreOk, RequestFlow, Callers, Acceptable, Storable, IsWrite, Update;
    var s, h := st.sys, st.history;
    var a := |h.applied|;
    FlowFacts(st);
    RecoverNext(s.logCenter, h.log, h.waiting, h.base, h.flushed, a, r);
    if IsWrite(r.opType) {
      RecoverStore(s.store, h.applied, h.log, h.base, h.clean, r);
      RecoverRequests(s.requestCenter, h.log, h.waiting, h.base, h.flushed, a);
    } else {
      assert Poisoned(h.log, h.flushed);
      CallersFacts(st);
    }
    DurableSame(st, AfterRecover(st, r));
  }

  lemma RecoverRequests(rc: RequestCenterState, log: seq<Entry>, waiting: seq<Entry>, base: nat, flushed: nat, a: nat)
    requires RequestFlow(rc, log, waiting, base, flushed, a) && a < base
    ensures RequestFlow(rc, log, waiting, base, flushed, a + 1)
  {
    hide ReplyChain;
  }

  // ----- A record to be appended -----------------------------------------------------

  lemma WriteNext(lc: LogCenterState, log: seq<Entry>, waiting: seq<Entry>, base: nat, flushed: nat, a: nat, r: Entry)
    requires LogFlow(lc, log, waiting, base, flushed, a) && lc.batch != [] && lc.batch[0] == WriteContext(r)
    ensures base <= a && waiting != [] && waiting[0] == r && r.logId == |log| + 1
    ensures Inserted(lc.mToFlushLog, r.logId, r) == Segment(log + [r], flushed, |log| + 1)
    ensures LogFlow(lc.(batch := lc.batch[1..], mToFlushLog := Inserted(lc.mToFlushLog, r.logId, r)),
                    log + [r], waiting[1..], base, flushed, a)
  {
    hide Storable, Contexts;
    FirstLog(lc);
    ContextsFirst(log[Least(a, base)..base], waiting);
    assert base <= a;
    assert log[base..base] == [] == (log + [r])[base..base];
    assert (log + waiting)[|log|] == waiting[0];
    assert log + [r] + waiting[1..] == log + waiting;
    assert Inserted(lc.mToFlushLog, r.logId, r) == Segment(log + [r], flushed, |log| + 1);
  }

  lemma {:induction false} SegmentCount(log: seq<Entry>, lo: nat, hi: nat)
    requires lo <= hi <= |log|
    ensures |Segment(log, lo, hi)| == hi - lo
    decreases hi
  {
    hide Storable;
    if lo < hi {
      SegmentCount(log, lo, hi - 1);
      assert Segment(log, lo, hi) == Segment(log, lo, hi - 1)[hi := RecordNo(log, hi)];
    }
  }

  // No more records wait for a flush than callers wait for an answer.
  lemma PendingBounded(st: State)
    requires Flow(st)
    ensures |st.history.log| + |st.history.waiting| - Greatest(|st.history.applied|, st.history.base)
            <= |st.history.blocked| <= st.history.callers
  {
    hide LogFlow, StoreOk, NewTickets, Acceptable, Storable, ReplyChain;
    var s, h := st.sys, st.history;
    var lo := Greatest(|h.applied|, h.base) - h.base;
    var rc := s.requestCenter;
    var pending := TakenTickets(rc.mRequests, lo, rc.mRequestID) + NewTickets(rc.batch + rc.queue);
    IncreasingNoDup(pending, h.posted);
  }

  lemma WriteRequests(rc: RequestCenterState, log: seq<Entry>, waiting: seq<Entry>, base: nat, flushed: nat, a: nat)
    requires RequestFlow(rc, log, waiting, base, flushed, a) && waiting != []
    ensures RequestFlow(rc, log + [waiting[0]], waiting[1..], base, flushed, a)
  {
    hide ReplyChain, Acceptable, Storable;
    assert log + [waiting[0]] + waiting[1..] == log + waiting;
    ChainLongerLog(rc.batch + rc.queue, Greatest(a, base), flushed, log, waiting[0], base);
  }

  lemma WriteStore(store: Store, applied: seq<LogRecord>, log: seq<Entry>, base: nat, clean: bool, r: Entry)
    requires StoreOk(store, applied, log, base, clean)
    ensures StoreOk(store, applied, log + [r], base, clean)
  {
    hide ApplyAll, Storable;
    assert (log + [r])[..|applied|] == log[..|applied|];
  }

  lemma AppendDisk(j: Journal.State, epoch: nat, log: seq<Entry>, flushed: nat, r: Entry)
    requires OnDisk(j, epoch, log, flushed) && r.logId == |log| + 1
    ensures Journal.WriteLog(j, epoch, r).None? <==> JournalOrder.Stuck(j, epoch)
    ensures Journal.WriteLog(j, epoch, r).Some? ==>
              && OnDisk(Journal.WriteLog(j, epoch, r).value, epoch, log + [r], flushed)
              && Journal.WriteLog(j, epoch, r).value.current.Some?
  {
    hide Journal.Holds, JournalOrder.Order, Journal.FlushedCount, Journal.LogOf, Journal.AfterWrite, Storable,
         Journal.WriteLog;
    var c :| HoldsLog(j, c, epoch, log, flushed);
    JournalOrder.NewNameTaken(j, c, epoch, r);
    if !JournalOrder.Stuck(j, epoch) {
      Journal.WriteKeeps(j, c, epoch, r);
      JournalOrder.WriteOrder(j, c, epoch, r);
      assert HoldsLog(Journal.WriteLog(j, epoch, r).value, Journal.AfterWrite(j, c, r), epoch, log + [r], flushed);
      WrittenOpen(j, epoch, r);
    }
  }

  lemma WrittenOpen(j: Journal.State, epoch: nat, r: Entry)
    requires Journal.WriteLog(j, epoch, r).Some?
    ensures Journal.WriteLog(j, epoch, r).value.current.Some?
  {
    hide FileLog.WriteRecord;
  }

  lemma KeptLonger(promised: set<LogRecord>, answers: set<Answer>, log: seq<Entry>, flushed: nat, r: Entry)
    ensures Kept(promised, log, flushed) ==> Kept(promised, log + [r], flushed)
    ensures AnswersAgree(answers, promised, log) ==> AnswersAgree(answers, promised, log + [r])
  {
    hide ApplyAll, Storable;
    ApplyAppend(map[], log, [r]);
  }

  // What appending a record can meet.
  ghost predicate Overflows(st: State) {
    |st.sys.logCenter.mToFlushLog| + 1 > MAX_LOG_NUM_TO_FLUSH
  }

  // Appending either succeeds, or meets a taken name, exactly when the process is stuck, or
  // makes for too many records to flush, which takes as many callers.
  lemma WriteKeeps(st: State, r: Entry)
    requires Inv(st) && st.sys.fault.None?
    requires st.sys.logCenter.batch != [] && st.sys.logCenter.batch[0] == WriteContext(r)
    ensures Inv(AfterWrite(st, r))
    ensures AfterWrite(st, r).sys.fault ==
            if JournalOrder.Stuck(st.sys.journal, st.sys.epoch) then Some(NewLogFileFailed)
            else if Overflows(st) then Some(TooManyToFlush)
            else None
    ensures st.history.callers <= MAX_LOG_NUM_TO_FLUSH ==> !Overflows(st)
  {
    hide OnDisk, LogFlow, StoreOk, RequestFlow, Callers, Acceptable, Storable, Journal.WriteLog, Kept, AnswersAgree,
         JournalOrder.Stuck, Segment, Inserted;
    var s, h := st.sys, st.history;
    var a := |h.applied|;
    FlowFacts(st);
    WriteNext(s.logCenter, h.log, h.waiting, h.base, h.flushed, a, r);
    AppendDisk(s.journal, s.epoch, h.log, h.flushed, r);
    PendingBounded(st);
    SegmentCount(h.log, h.flushed, |h.log|);
    SegmentCount(h.log + [r], h.flushed, |h.log| + 1);
    UnflushedIs(s.logCenter, h.log, h.waiting, h.base, h.flushed, a);
    WriteRequests(s.requestCenter, h.log, h.waiting, h.base, h.flushed, a);
    LowFlushed(st);
    WriteStore(s.store, h.applied, h.log, h.base, h.clean, r);
    KeptLonger(h.promised, h.answers, h.log, h.flushed, r);
    CallersFacts(st);
  }

  lemma UnflushedIs(lc: LogCenterState, log: seq<Entry>, waiting: seq<Entry>, base: nat, flushed: nat, a: nat)
    requires LogFlow(lc, log, waiting, base, flushed, a)
    ensures flushed <= |log| && lc.mToFlushLog == Segment(log, flushed, |log|)
  {}

  lemma LowFlushed(st: State)
    requires Flow(st)
    ensures Greatest(|st.history.applied|, st.history.base) <= st.history.flushed
  {}

  lemma CallersFacts(st: State)
    requires Flow(st)
    ensures Lists.NoDup(st.history.signalled) && forall t :: t in st.history.signalled ==> t < st.history.posted
  {}

  // ----- Flushing --------------------------------------------------------------------

  lemma FlushDisk(j: Journal.State, epoch: nat, log: seq<Entry>, flushed: nat)
    requires OnDisk(j, epoch, log, flushed) && j.current.Some?
    ensures OnDisk(Journal.FlushLog(j), epoch, log, |log|) && Journal.FlushLog(j).current.Some?
  {
    hide Journal.Holds, JournalOrder.Order, Journal.FlushedCount, Journal.LogOf, Journal.Flushed, Storable,
         Journal.FlushLog;
    var c :| HoldsLog(j, c, epoch, log, flushed);
    Journal.FlushKeeps(j, c);
    JournalOrder.FlushOrder(j, c, epoch);
    assert HoldsLog(Journal.FlushLog(j), Journal.Flushed(c), epoch, log, |log|);
    FlushedOpen(j);
  }

  lemma FlushedOpen(j: Journal.State)
    requires j.current.Some?
    ensures Journal.FlushLog(j).current.Some?
  {}

  // The response holds exactly what was appended and not flushed, each record under the
  // number of its request.
  lemma FlushReplies(lc: LogCenterState, log: seq<Entry>, waiting: seq<Entry>, base: nat, flushed: nat, a: nat)
    requires LogFlow(lc, log, waiting, base, flushed, a)
    ensures forall id :: id in lc.mToFlushLog ==> id in lc.mLogId2RequestId
    ensures |lc.mToFlushLog| == |log| - flushed
    ensures (set id | id in lc.mToFlushLog :: Reply(lc.mLogId2RequestId[id], lc.mToFlushLog[id])) ==
            RepliesOf(log, base, flushed, |log|)
  {
    hide Storable, Contexts, RepliesOf;
    SegmentCount(log, flushed, |log|);
    SegmentReplies(lc.mLogId2RequestId, log, base, flushed);
  }

  lemma SegmentReplies(ids: map<nat, nat>, log: seq<Entry>, base: nat, flushed: nat)
    requires base <= flushed <= |log|
    requires forall id :: flushed < id <= |log| ==> id in ids && ids[id] == id - base
    ensures var unflushed := Segment(log, flushed, |log|);
            && (forall id :: id in unflushed ==> id in ids)
            && (set id | id in unflushed :: Reply(ids[id], unflushed[id])) == RepliesOf(log, base, flushed, |log|)
  {
    hide Storable;
    var unflushed := Segment(log, flushed, |log|);
    var replies := set id | id in unflushed :: Reply(ids[id], unflushed[id]);
    forall x | x in RepliesOf(log, base, flushed, |log|) ensures x in replies {
      var i :| flushed <= i < |log| && x == Reply(i + 1 - base, log[i]);
      assert unflushed[i + 1] == RecordNo(log, i + 1);
    }
    forall x | x in replies ensures x in RepliesOf(log, base, flushed, |log|) {
      var id :| id in unflushed && x == Reply(ids[id], unflushed[id]);
      assert x == Reply(id - 1 + 1 - base, log[id - 1]);
    }
  }

  lemma FlushLogFlow(lc: LogCenterState, log: seq<Entry>, waiting: seq<Entry>, base: nat, flushed: nat, a: nat)
    requires LogFlow(lc, log, waiting, base, flushed, a) && lc.idle
    ensures LogFlow(lc.(idle := false), log, waiting, base, flushed, a)
    ensures LogFlow(lc.(idle := false, mToFlushLog := map[]), log, waiting, base, |log|, a)
  {
    hide Storable, Contexts;
    assert Segment(log, |log|, |log|) == map[];
  }

  lemma FlushRequests(rc: RequestCenterState, log: seq<Entry>, waiting: seq<Entry>, base: nat, flushed: nat, a: nat)
    requires RequestFlow(rc, log, waiting, base, flushed, a) && flushed < |log|
    ensures RequestFlow(rc.(queue := rc.queue + [FinishContext(RepliesOf(log, base, flushed, |log|))]),
                        log, waiting, base, |log|, a)
  {
    hide ReplyChain, RepliesOf, Acceptable, Storable;
    var ctx := FinishContext(RepliesOf(log, base, flushed, |log|));
    ChainFinish(rc.batch + rc.queue, Greatest(a, base), flushed, |log|, log, base);
    assert rc.batch + (rc.queue + [ctx]) == rc.batch + rc.queue + [ctx];
  }

  lemma FlushCallers(rc: RequestCenterState, lo: nat, blocked: set<nat>, signalled: seq<nat>, posted: nat,
      replies: set<Reply>)
    requires Callers(rc, lo, blocked, signalled, posted)
    ensures Callers(rc.(queue := rc.queue + [FinishContext(replies)]), lo, blocked, signalled, posted)
  {
    hide NewTickets, TakenTickets, Increasing, Lists.NoDup;
    NewTicketsAppend(rc.batch + rc.queue, [FinishContext(replies)]);
    NoTicketInResponse(replies);
    assert rc.batch + (rc.queue + [FinishContext(replies)]) == rc.batch + rc.queue + [FinishContext(replies)];
    assert NewTickets(rc.batch + rc.queue) + [] == NewTickets(rc.batch + rc.queue);
  }

  lemma NoTicketInResponse(replies: set<Reply>)
    ensures NewTickets([FinishContext(replies)]) == []
  {
    assert [FinishContext(replies)][1..] == [];
  }

  lemma KeptMore(promised: set<LogRecord>, log: seq<Entry>, flushed: nat)
    requires Kept(promised, log, flushed)
    ensures Kept(promised, log, |log|)
  {}

  // What counting a flush by its size can meet.
  ghost predicate Overruns(st: State) {
    |st.sys.logCenter.mToFlushLog| >= FLUSH_COUNTS
  }

  // A flush makes everything durable, and then either sends the response or, with too many
  // records in it for its counters, which takes as many callers, fails.
  lemma IdleKeeps(st: State)
    requires Inv(st) && Enabled(st, Idle)
    ensures Inv(AfterIdle(st))
    ensures AfterIdle(st).sys.fault == if Overruns(st) then Some(FlushCountOverrun) else None
    ensures Overruns(st) ==> st.history.callers >= FLUSH_COUNTS
  {
    hide OnDisk, LogFlow, StoreOk, RequestFlow, Callers, Acceptable, Storable, Kept, AnswersAgree, RepliesOf,
         Journal.FlushLog;
    var s, h := st.sys, st.history;
    var a := |h.applied|;
    FlowFacts(st);
    FlushReplies(s.logCenter, h.log, h.waiting, h.base, h.flushed, a);
    FlushLogFlow(s.logCenter, h.log, h.waiting, h.base, h.flushed, a);
    if Overruns(st) {
      OverrunKeeps(st);
    } else if |s.logCenter.mToFlushLog| > 0 {
      FlushDisk(s.journal, s.epoch, h.log, h.flushed);
      FlushRequests(s.requestCenter, h.log, h.waiting, h.base, h.flushed, a);
      FlushCallers(s.requestCenter, Greatest(a, h.base) - h.base, h.blocked, h.signalled, h.posted,
                   RepliesOf(h.log, h.base, h.flushed, |h.log|));
      KeptMore(h.promised, h.log, h.flushed);
      FlushedState(st);
    }
  }

  lemma OverrunKeeps(st: State)
    requires Inv(st) && Enabled(st, Idle) && Overruns(st)
    ensures Inv(AfterIdle(st)) && AfterIdle(st).sys.fault == Some(FlushCountOverrun)
    ensures st.history.callers >= FLUSH_COUNTS
  {
    hide OnDisk, LogFlow, StoreOk, RequestFlow, Callers, Acceptable, Storable, Kept, AnswersAgree, Lists.NoDup,
         Journal.FlushLog;
    var s, h := st.sys, st.history;
    var a := |h.applied|;
    FlowFacts(st);
    FlushReplies(s.logCenter, h.log, h.waiting, h.base, h.flushed, a);
    FlushDisk(s.journal, s.epoch, h.log, h.flushed);
    KeptMore(h.promised, h.log, h.flushed);
    PendingBounded(st);
    LowFlushed(st);
    CallersFacts(st);
  }

  lemma FlushedState(st: State)
    requires Flow(st) && 0 < |st.sys.logCenter.mToFlushLog| < FLUSH_COUNTS && st.sys.journal.current.Some?
    requires forall id :: id in st.sys.logCenter.mToFlushLog ==> id in st.sys.logCenter.mLogId2RequestId
    ensures var s, lc, rc := st.sys, st.sys.logCenter, st.sys.requestCenter;
            var replies := set id | id in lc.mToFlushLog :: Reply(lc.mLogId2RequestId[id], lc.mToFlushLog[id]);
            AfterIdle(st).sys ==
            s.(journal := Journal.FlushLog(s.journal),
               requestCenter := rc.(queue := rc.queue + [FinishContext(replies)]),
               logCenter := lc.(idle := false, mToFlushLog := map[]))
  {
    hide LogFlow, StoreOk, RequestFlow, Callers, Acceptable, Storable, Journal.FlushLog;
  }

  // ----- A crash ---------------------------------------------------------------------

  lemma CrashDisk(j: Journal.State, epoch: nat, log: seq<Entry>, flushed: nat,
      after: seq<Journal.DiskFile>) returns (k: nat)
    requires OnDisk(j, epoch, log, flushed) && Journal.CrashOf(Journal.Files(j), after)
    ensures flushed <= k <= |log| && Journal.Recover(after).records == log[..k]
    ensures Journal.Recover(after).maxLogId == k
    ensures var s := Booted(after);
            OnDisk(s.journal, s.epoch, log[..k], k) && JournalOrder.Numbered(log[..k])
  {
    hide Journal.Holds, JournalOrder.Order, Journal.FlushedCount, Journal.LogOf, Storable, Journal.CrashOf,
         Journal.Recover;
    var c :| HoldsLog(j, c, epoch, log, flushed);
    var c';
    c', k := JournalOrder.RecoveryOrder(j, c, epoch, after);
    var s := Booted(after);
    assert HoldsLog(s.journal, c', s.epoch, log[..k], k);
    OrderNumbered(s.journal, c', s.epoch);
  }

  lemma OrderNumbered(j: Journal.State, c: Journal.Contents, epoch: nat)
    requires JournalOrder.Order(j, c, epoch)
    ensures JournalOrder.Numbered(Journal.LogOf(c))
  {}

  lemma KeptShorter(promised: set<LogRecord>, answers: set<Answer>, log: seq<Entry>, flushed: nat, k: nat)
    requires flushed <= k <= |log| && Kept(promised, log, flushed)
    ensures Kept(promised, log[..k], k)
    ensures AnswersAgree(answers, promised, log) ==> AnswersAgree(answers, promised, log[..k])
  {
    hide ApplyAll, Storable;
    ApplyAppend(map[], log[..k], log[k..]);
    assert log[..k] + log[k..] == log;
  }

  lemma BootFlow(records: seq<LogRecord>, log: seq<Entry>)
    requires records == log && JournalOrder.Numbered(log) && |log| < UINT32
    ensures LogFlow(LogCenterState(RecoverContexts(records), [], false, |log|, map[], map[]), log, [], |log|, |log|, 0)
    ensures RequestFlow(RequestCenterState([], [], 0, map[]), log, [], |log|, |log|, 0)
  {
    hide Storable;
    assert log + [] == log;
    assert [] + RecoverContexts(records) == Contexts(log[0..|log|], []);
    assert Segment(log, |log|, |log|) == map[];
  }

  lemma NumberedShort(log: seq<Entry>)
    requires JournalOrder.Numbered(log)
    ensures |log| < UINT32
  {
    if log != [] {
      assert log[|log| - 1].logId == |log|;
    }
  }

  lemma BootCallers(signalled: seq<nat>, posted: nat)
    requires Lists.NoDup(signalled) && forall t :: t in signalled ==> t < posted
    ensures Callers(RequestCenterState([], [], 0, map[]), 0, {}, signalled, posted)
  {}

  lemma BootStore(log: seq<Entry>, clean: bool)
    ensures StoreOk(map[], [], log, |log|, clean)
  {
    assert log[..0] == [];
  }

  lemma CrashKeeps(st: State, after: seq<Journal.DiskFile>)
    requires Inv(st) && Enabled(st, CrashAndRestart(after))
    ensures Inv(AfterCrash(st, after)) && AfterCrash(st, after).sys.fault.None?
  {
    hide OnDisk, LogFlow, StoreOk, RequestFlow, Callers, Acceptable, Storable, Kept, AnswersAgree, Journal.Recover,
         Journal.CrashOf, JournalOrder.Numbered, RecoverContexts, JournalOrder.Stuck;
    var s, h := st.sys, st.history;
    KeptInside(h.promised, h.log, h.flushed);
    var k := CrashDisk(s.journal, s.epoch, h.log, h.flushed, after);
    var log := h.log[..k];
    KeptShorter(h.promised, h.answers, h.log, h.flushed, k);
    NumberedShort(log);
    BootFlow(Journal.Recover(after).records, log);
    BootStore(log, h.clean);
    if s.fault.None? {
      CallersFacts(st);
    }
    BootCallers(h.signalled, h.posted);
  }

  lemma KeptInside(promised: set<LogRecord>, log: seq<Entry>, flushed: nat)
    requires Kept(promised, log, flushed)
    ensures flushed <= |log|
  {}
}
