/**
 Restarts that cannot append: when they happen, that they go on for ever, and a run that
 leads there.
 */
module CommitRestart {
  import opened Common
  import opened RecordFormat
  import opened GroupCommit
  import opened CommitInvariant
  import CommitSteps
  import CommitLogSteps
  import opened CommitTheorems
  import FileHandler
  import FileLog
  import Replay
  import Journal
  import JournalOrder

  ghost predicate StuckState(st: State) {
    JournalOrder.Stuck(st.sys.journal, st.sys.epoch)
  }

  // A restarted process can append to the log unless the directory it found ended in a file
  // that is the first of its epoch and has no whole header.
  lemma StuckRestart(st: State, after: seq<Journal.DiskFile>)
    requires Reachable(st) && Enabled(st, CrashAndRestart(after))
    ensures StuckState(Next(st, CrashAndRestart(after))) <==> JournalOrder.TornFirst(after)
  {
    hide Flow, Journal.Holds, JournalOrder.Order, JournalOrder.Stuck, Journal.Recover, JournalOrder.TornFirst,
         Journal.CrashOf, Storable, Acceptable, Reachable;
    ReachableInv(st);
    CommitLogSteps.CrashKeeps(st, after);
    var next := AfterCrash(st, after);
    var c :| HoldsLog(next.sys.journal, c, next.sys.epoch, next.history.log, next.history.flushed);
    JournalOrder.StuckIffTornFirst(after, c);
  }

  // With nothing open, all of the log is durable.
  lemma AllDurable(j: Journal.State, c: Journal.Contents)
    requires Journal.Holds(j, c) && j.current.None?
    ensures Journal.FlushedCount(c) == |Journal.LogOf(c)|
  {
    hide Journal.Flatten, Journal.ClosedOk;
  }

  // A stuck process stays so over every crash and restart, and never appends a record.
  lemma StuckStep(st: State, step: Step)
    requires Inv(st) && StuckState(st) && Enabled(st, step)
    ensures StuckState(Next(st, step)) && Next(st, step).history.log == st.history.log
  {
    hide Inv, JournalOrder.Stuck, Acceptable, Storable, AfterNew, AfterFinish, AfterRecover, AfterWrite, AfterIdle,
         AfterCrash;
    match step
    case CrashAndRestart(after) => StuckCrash(st, after);
    case HandleRequest(order) => StuckRequest(st, order);
    case HandleLog => StuckLog(st);
    case Idle => StuckIdle(st);
    case _ =>
  }

  lemma StuckRequest(st: State, order: seq<Reply>)
    requires StuckState(st) && Enabled(st, HandleRequest(order))
    ensures StuckState(Next(st, HandleRequest(order))) && Next(st, HandleRequest(order)).history.log == st.history.log
  {
    hide JournalOrder.Stuck, Acceptable, Storable, HandleKVResponse;
    if st.sys.requestCenter.batch[0].FinishContext? {
      CommitSteps.ResponseFrame(RequestTaken(st.sys), order);
    }
  }

  lemma StuckLog(st: State)
    requires Inv(st) && StuckState(st) && Enabled(st, HandleLog)
    ensures StuckState(Next(st, HandleLog)) && Next(st, HandleLog).history.log == st.history.log
  {
    hide Acceptable, Storable, Journal.WriteLog, Durable, Flow, JournalOrder.Stuck;
    StepKeeps(st, HandleLog);
    if st.sys.logCenter.batch[0].WriteContext? {
      StuckFails(st.sys.journal, st.sys.epoch, st.sys.logCenter.batch[0].entry, st);
    }
  }

  lemma StuckFails(j: Journal.State, epoch: nat, r: Entry, st: State)
    requires Inv(st) && st.sys.fault.None? && j == st.sys.journal && epoch == st.sys.epoch
        && JournalOrder.Stuck(j, epoch)
    requires st.sys.logCenter.batch != [] && st.sys.logCenter.batch[0] == WriteContext(r)
    ensures Journal.WriteLog(j, epoch, r).None?
  {
    hide Acceptable, Storable, Journal.WriteLog, OnDisk, LogFlow, RequestFlow, Callers, StoreOk, JournalOrder.Stuck;
    var h := st.history;
    CommitLogSteps.WriteNext(st.sys.logCenter, h.log, h.waiting, h.base, h.flushed, |h.applied|, r);
    CommitLogSteps.AppendDisk(j, epoch, h.log, h.flushed, r);
  }

  lemma StuckIdle(st: State)
    requires Inv(st) && StuckState(st) && Enabled(st, Idle)
    ensures StuckState(Next(st, Idle)) && Next(st, Idle).history.log == st.history.log
  {
    hide Acceptable, Storable, Durable, LogFlow, RequestFlow, Callers, StoreOk;
    CommitLogSteps.IdleKeeps(st);
  }

  lemma StuckCrash(st: State, after: seq<Journal.DiskFile>)
    requires Inv(st) && StuckState(st) && Enabled(st, CrashAndRestart(after))
    ensures StuckState(AfterCrash(st, after)) && AfterCrash(st, after).history.log == st.history.log
  {
    hide Journal.Holds, JournalOrder.Order, Journal.Recover, Journal.CrashOf, Storable, Acceptable, Flow,
         JournalOrder.TornFirst, Journal.LogOf, Journal.FlushedCount;
    var s, h := st.sys, st.history;
    var c :| HoldsLog(s.journal, c, s.epoch, h.log, h.flushed);
    AllDurable(s.journal, c);
    var c', k := JournalOrder.RecoveryOrder(s.journal, c, s.epoch, after);
    assert h.log[..k] == h.log;
    TornFirstOf(s.journal, c, s.epoch);
    ClosedStay(s.journal, c, after);
    JournalOrder.StuckIffTornFirst(after, c');
  }

  lemma TornFirstOf(j: Journal.State, c: Journal.Contents, epoch: nat)
    requires JournalOrder.Order(j, c, epoch) && JournalOrder.Stuck(j, epoch)
    ensures JournalOrder.TornFirst(j.closed)
  {
    var last := |j.closed| - 1;
    if last > 0 {
      assert j.closed[..last][last - 1].epoch < epoch;
    }
  }

  lemma ClosedStay(j: Journal.State, c: Journal.Contents, after: seq<Journal.DiskFile>)
    requires Journal.Holds(j, c) && j.current.None? && Journal.CrashOf(Journal.Files(j), after)
    ensures after == j.closed
  {
    hide Journal.ClosedOk, Journal.CutOf;
    Journal.ClosedSurvive(j, c, after);
  }

  lemma {:induction false} StuckForEver(st: State, steps: seq<Step>, last: State)
    requires Inv(st) && StuckState(st) && Run(st, steps, last)
    ensures StuckState(last) && last.history.log == st.history.log
    decreases |steps|
  {
    hide Inv, StuckState, Enabled, Next;
    if steps != [] {
      StuckStep(st, steps[0]);
      StepKeeps(st, steps[0]);
      StuckForEver(Next(st, steps[0]), steps[1..], last);
    }
  }

  // ----- A run that leads there ------------------------------------------------------

  // The first record of a process is in the write buffer and the name of its file in the
  // directory when the process dies.
  lemma TornFileReachable(table: Bytes, key: Bytes, value: Bytes) returns (st: State)
    requires Acceptable(RequestData(0, OP_PUT, table, key, value))
    ensures Reachable(st) && st.sys.fault.None? && StuckState(st)
  {
    hide Storable, Reachable, Journal.WriteLog, Enabled, Next, Booted, JournalOrder.TornFirst;
    var r := RequestData(0, OP_PUT, table, key, value);
    var st3 := OneRequest(r);
    var st4 := OneWritten(st3, r);
    var after := [Journal.DiskFile(1, 0, FileHandler.FileImage([], 0))];
    EmptyFileLeft(RecordFor(r, 1), st4.sys.journal);
    CrashEnabled(st4, after);
    StepReachable(st4, CrashAndRestart(after));
    StuckRestart(st4, after);
    TornAfter(after);
    st := Next(st4, CrashAndRestart(after));
    Restarted(st4, after);
  }

  lemma TornAfter(after: seq<Journal.DiskFile>)
    requires after == [Journal.DiskFile(1, 0, FileHandler.FileImage([], 0))]
    ensures JournalOrder.TornFirst(after) && Journal.Recover(after).epoch == 0
  {
    assert after[..0] == [];
    JournalOrder.ShortIsInvalid([]);
  }

  lemma CrashEnabled(st: State, after: seq<Journal.DiskFile>)
    requires after == [Journal.DiskFile(1, 0, FileHandler.FileImage([], 0))]
    requires Journal.CrashOf(Journal.Files(st.sys.journal), after)
    ensures Enabled(st, CrashAndRestart(after))
  {
    hide Journal.CrashOf, Journal.Files, Journal.Recover, JournalOrder.TornFirst;
    TornAfter(after);
  }

  lemma Restarted(st: State, after: seq<Journal.DiskFile>)
    requires Enabled(st, CrashAndRestart(after))
    ensures Next(st, CrashAndRestart(after)).sys.fault.None?
  {
    hide Journal.CrashOf, Journal.Files, Journal.Recover;
  }

  // The request is numbered and its record handed to the log center.
  lemma OneRequest(r: Request) returns (st: State)
    requires r.ticket == 0 && r.opType != OP_GET
    ensures Reachable(st) && st.sys.fault.None? && st.sys.journal == Journal.State([], None) && st.sys.epoch == 1
    ensures var lc := st.sys.logCenter;
            lc.queue == [WriteContext(RecordFor(r, 1))] && lc.batch == [] && !lc.idle && |lc.mToFlushLog| == 0
    ensures st.history.waiting == [RecordFor(r, 1)]
  {
    hide Storable, Reachable, Journal.WriteLog;
    InitialReachable(1);
    StepReachable(Initial(1), Post(r.opType, r.table, r.key, r.value));
    var st1 := Next(Initial(1), Post(r.opType, r.table, r.key, r.value));
    StepReachable(st1, TakeRequests);
    var st2 := Next(st1, TakeRequests);
    StepReachable(st2, HandleRequest([]));
    st := Next(st2, HandleRequest([]));
  }

  lemma OneWritten(st: State, r: Request) returns (last: State)
    requires r.opType != OP_GET
    requires Reachable(st) && st.sys.fault.None? && st.sys.journal == Journal.State([], None) && st.sys.epoch == 1
    requires var lc := st.sys.logCenter;
             lc.queue == [WriteContext(RecordFor(r, 1))] && lc.batch == [] && !lc.idle && |lc.mToFlushLog| == 0
    requires st.history.waiting == [RecordFor(r, 1)]
    ensures Reachable(last) && Some(last.sys.journal) == Journal.WriteLog(Journal.State([], None), 1, RecordFor(r, 1))
  {
    hide Storable, Reachable;
    StepReachable(st, TakeLogs);
    var st1 := Next(st, TakeLogs);
    StepReachable(st1, HandleLog);
    last := Next(st1, HandleLog);
  }

  lemma EmptyFileLeft(e: Entry, j: Journal.State)
    requires e.logId == 1 && Some(j) == Journal.WriteLog(Journal.State([], None), 1, e)
    ensures Journal.CrashOf(Journal.Files(j), [Journal.DiskFile(1, 0, FileHandler.FileImage([], 0))])
  {
    hide Storable, FileLog.WriteRecord, FileLog.HeaderWritten;
    UnsyncedYet(e);
    assert 1 / Journal.LOG_PER_FILE == 0;
    var b := FileLog.WriteRecord(FileLog.HeaderWritten(Journal.EMPTY), e);
    assert Journal.Files(j) == [Journal.DiskFile(1, 0, b.file)];
    assert b.file.bytes[..0] == [];
  }

  lemma UnsyncedYet(e: Entry)
    ensures FileLog.WriteRecord(FileLog.HeaderWritten(Journal.EMPTY), e).file.synced == 0
  {
    hide Storable, FileLog.WriteRecord, FileLog.HeaderWritten, Frame, Replay.Header, FileHandler.Buffered.Whole;
    FileLog.WriteHeaderAppends(Journal.EMPTY);
    FileLog.WriteRecordAppendsFrame(FileLog.HeaderWritten(Journal.EMPTY), e);
  }
}
