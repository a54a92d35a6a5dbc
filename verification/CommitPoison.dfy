/**
 Records of an operation that cannot be applied, such as the one a request is constructed
 with: they are logged and flushed like any other, the program fails when it comes to apply
 them, and so does every process that is started on that log afterwards.
 */
module CommitPoison {
  import opened Common
  import opened RecordFormat
  import DataStore
  import opened ApplyOrder
  import opened GroupCommit
  import opened CommitInvariant
  import CommitSteps
  import CommitLogSteps
  import opened CommitTheorems
  import opened CommitProgress
  import opened CommitRuns
  import Journal
  import JournalOrder

  // What was recovered holds such a record, and nothing has been appended to it.
  ghost predicate Doomed(st: State) {
    var h := st.history;
    && Poisoned(h.log, h.base) && h.base == h.flushed == |h.log|
    && (st.sys.fault.None? || st.sys.fault == Some(InvalidOpType))
  }

  // ----- For ever --------------------------------------------------------------------

  // A doomed process never gets past its recovery.
  lemma StillRecovering(st: State)
    requires Inv(st) && Doomed(st) && st.sys.fault.None?
    ensures |st.history.applied| < st.history.base
  {
    hide Durable, LogFlow, RequestFlow, Callers, DataStore.ApplyAll, Storable, Acceptable, Poisoned,
         AllWrites;
    var h := st.history;
    if h.base <= |h.applied| {
      AppliedWrites(h.applied, h.log, h.base);
    }
  }

  lemma AppliedWrites(applied: seq<LogRecord>, log: seq<Entry>, base: nat)
    requires AllWrites(applied) && base <= |applied| && base <= |log| && applied[..base] == log[..base]
    ensures !Poisoned(log, base)
  {
    hide Storable;
    forall i | 0 <= i < base ensures IsWrite(log[i].opType) {
      assert log[..base][i] == applied[i];
      assert applied[i] in applied;
    }
  }

  // So it neither appends nor handles a response.
  lemma OnlyRecovers(st: State)
    requires Inv(st) && Doomed(st) && st.sys.fault.None?
    ensures st.sys.logCenter.batch != [] ==> st.sys.logCenter.batch[0].RecoverContext?
    ensures st.sys.requestCenter.batch != [] ==> st.sys.requestCenter.batch[0].NewContext?
    ensures st.sys.logCenter.batch + st.sys.logCenter.queue != []
    ensures |st.sys.logCenter.mToFlushLog| == 0
  {
    hide Durable, Poisoned, LogFlow, RequestFlow, StoreOk, Callers, Storable, Acceptable;
    StillRecovering(st);
    var h, lc, rc := st.history, st.sys.logCenter, st.sys.requestCenter;
    if lc.batch != [] && lc.batch[0].WriteContext? {
      CommitLogSteps.WriteNext(lc, h.log, h.waiting, h.base, h.flushed, |h.applied|, lc.batch[0].entry);
    }
    if rc.batch != [] && rc.batch[0].FinishContext? {
      CommitSteps.NoEarlyResponse(st, rc.batch[0].replies);
    }
    SomeRecovered(lc, h.log, h.waiting, h.base, h.flushed, |h.applied|);
    CommitLogSteps.FlushReplies(lc, h.log, h.waiting, h.base, h.flushed, |h.applied|);
  }

  lemma SomeRecovered(lc: LogCenterState, log: seq<Entry>, waiting: seq<Entry>, base: nat, flushed: nat, a: nat)
    requires LogFlow(lc, log, waiting, base, flushed, a) && a < base
    ensures lc.batch + lc.queue != []
  {
    hide Storable;
  }

  // What a doomed process and its successors leave as it is.
  ghost predicate SameLog(st: State, last: State) {
    last.history.log == st.history.log && last.history.answers == st.history.answers
  }

  lemma DoomedStep(st: State, step: Step)
    requires Inv(st) && Doomed(st) && Enabled(st, step)
    ensures Doomed(Next(st, step)) && SameLog(st, Next(st, step))
  {
    hide Inv, Acceptable, Storable, AfterNew, AfterFinish, AfterRecover, AfterWrite, AfterIdle, AfterCrash, Poisoned,
         JournalOrder.Stuck, CommitLogSteps.Overflows, IsWrite;
    StepKeeps(st, step);
    if step.CrashAndRestart? {
      DoomedCrash(st, step.after);
    } else {
      OnlyRecovers(st);
      DoomedFrame(st, step);
    }
  }

  lemma DoomedFrame(st: State, step: Step)
    requires Inv(st) && Enabled(st, step) && !step.CrashAndRestart?
    requires step.HandleLog? ==> st.sys.logCenter.batch[0].RecoverContext?
    requires step.HandleRequest? ==> st.sys.requestCenter.batch[0].NewContext?
    ensures var h, h' := st.history, Next(st, step).history;
            && h'.log == h.log && h'.base == h.base && h'.answers == h.answers
            && (h'.flushed == h.flushed || h'.flushed == |h.log|)
  {
    hide Inv, Acceptable, Storable, HandleNewKVRequest, IdleHandler, HandleRecoverLog;
  }

  lemma DoomedCrash(st: State, after: seq<Journal.DiskFile>)
    requires Inv(st) && Doomed(st) && Enabled(st, CrashAndRestart(after))
    ensures Doomed(AfterCrash(st, after)) && SameLog(st, AfterCrash(st, after))
  {
    hide OnDisk, Flow, Storable, Acceptable, Journal.Recover, Journal.CrashOf, Journal.Files, Kept, AnswersAgree,
         IsWrite;
    var h := st.history;
    var k := CommitLogSteps.CrashDisk(st.sys.journal, st.sys.epoch, h.log, h.flushed, after);
    assert h.log[..k] == h.log;
  }

  // A doomed process and all that are started after it: the log gets no record and no write
  // is ever answered, and everything recovered is never in the store.
  lemma {:induction false} DoomedForEver(st: State, steps: seq<Step>, last: State)
    requires Inv(st) && Doomed(st) && Run(st, steps, last)
    ensures Doomed(last) && SameLog(st, last)
    ensures last.sys.fault.None? ==> |last.history.applied| < last.history.base
    decreases |steps|
  {
    hide Inv, Doomed, Enabled, Next;
    if steps == [] {
      if st.sys.fault.None? {
        StillRecovering(st);
      }
    } else {
      StepKeeps(st, steps[0]);
      DoomedStep(st, steps[0]);
      DoomedForEver(Next(st, steps[0]), steps[1..], last);
    }
  }

  // ----- Restarts --------------------------------------------------------------------

  ghost predicate AllWritesRecovered(after: seq<Journal.DiskFile>) {
    forall r :: r in Journal.Recover(after).records ==> IsWrite(r.opType)
  }

  lemma DoomedRestart(st: State, after: seq<Journal.DiskFile>)
    requires Reachable(st) && Enabled(st, CrashAndRestart(after))
    ensures Doomed(Next(st, CrashAndRestart(after))) <==> !AllWritesRecovered(after)
    ensures Next(st, CrashAndRestart(after)).history.log == Journal.Recover(after).records
    ensures Next(st, CrashAndRestart(after)).history.base == |Journal.Recover(after).records|
  {
    hide Reachable, Inv, Journal.Recover, Journal.CrashOf, Journal.Files, Storable, IsWrite;
    Durability(st, after);
    var records := Journal.Recover(after).records;
    assert st.history.log[..|records|] == records;
    if !AllWritesRecovered(after) {
      var r :| r in records && !IsWrite(r.opType);
      var i :| 0 <= i < |records| && records[i] == r;
      assert Next(st, CrashAndRestart(after)).history.log[i] == r;
    }
  }

  // A process that has failed on such a record leaves it to its successors, whatever the
  // crash.
  lemma FailureStays(st: State, after: seq<Journal.DiskFile>)
    requires Reachable(st) && st.sys.fault == Some(InvalidOpType) && Enabled(st, CrashAndRestart(after))
    ensures Doomed(Next(st, CrashAndRestart(after)))
  {
    hide Reachable, Durable, Journal.Recover, Journal.CrashOf, Journal.Files, Storable, IsWrite;
    ReachableInv(st);
    Durability(st, after);
    DoomedRestart(st, after);
    var h, records := st.history, Journal.Recover(after).records;
    var i :| 0 <= i < h.flushed && i < |h.log| && !IsWrite(h.log[i].opType);
    assert records[i] == h.log[i];
    assert records[i] in records;
  }

  // ----- Every recovery fails --------------------------------------------------------

  // At rest, a doomed process has failed.
  lemma NeverAtRest(st: State)
    requires Inv(st) && Doomed(st) && st.sys.fault.None?
    ensures !Quiet(st)
  {
    hide Inv, Doomed, Storable, Acceptable, Enumerates;
    OnlyRecovers(st);
    var lc := st.sys.logCenter;
    if lc.batch != [] {
      assert Enabled(st, HandleLog) && !Spin(st.sys, HandleLog);
    } else if !lc.idle {
      assert Enabled(st, TakeLogs) && !Spin(st.sys, TakeLogs);
    }
  }

  lemma QuietMeansFailed(st: State)
    requires Inv(st) && Doomed(st) && Quiet(st)
    ensures st.sys.fault == Some(InvalidOpType)
  {
    hide Inv, Quiet;
    if st.sys.fault.None? {
      NeverAtRest(st);
    }
  }

  // However the threads of the process are scheduled after a restart: once they have come to
  // rest, it has failed on a record if and only if recovery found one that cannot be
  // applied.
  lemma RestartFails(st: State, after: seq<Journal.DiskFile>, steps: seq<Step>, last: State)
    requires Reachable(st) && Enabled(st, CrashAndRestart(after))
    requires Run(Next(st, CrashAndRestart(after)), steps, last) && forall step :: step in steps ==> Internal(step)
    requires Quiet(last)
    ensures last.sys.fault == Some(InvalidOpType) <==> !AllWritesRecovered(after)
  {
    hide Reachable, Inv, Enabled, Next, Run, Quiet, Doomed, Journal.Recover;
    var next := Next(st, CrashAndRestart(after));
    StepReachable(st, CrashAndRestart(after));
    ReachableInv(next);
    DoomedRestart(st, after);
    if AllWritesRecovered(after) {
      SoundRestart(st, after);
      SoundNeverFails(next, steps, last);
    } else {
      DoomedForEver(next, steps, last);
      RunKeeps(next, steps, last);
      QuietMeansFailed(last);
    }
  }

  lemma SoundRestart(st: State, after: seq<Journal.DiskFile>)
    requires Reachable(st) && Enabled(st, CrashAndRestart(after)) && AllWritesRecovered(after)
    ensures Sound(Next(st, CrashAndRestart(after))) && Next(st, CrashAndRestart(after)).sys.fault.None?
  {
    hide Reachable, Inv, Journal.Recover, Journal.CrashOf, Journal.Files, Storable, IsWrite;
    DoomedRestart(st, after);
    var h := Next(st, CrashAndRestart(after)).history;
    assert h.log[0..] + [] == h.log;
  }

  lemma {:induction false} SoundNeverFails(st: State, steps: seq<Step>, last: State)
    requires Inv(st) && st.sys.fault != Some(InvalidOpType) && (st.sys.fault.None? ==> Sound(st))
    requires Run(st, steps, last) && forall step :: step in steps ==> Internal(step)
    ensures last.sys.fault != Some(InvalidOpType)
    decreases |steps|
  {
    hide Inv, Sound, Enabled, Next;
    if steps != [] {
      assert steps[0] in steps;
      StepKeeps(st, steps[0]);
      SoundStep(st, steps[0]);
      SoundNeverFails(Next(st, steps[0]), steps[1..], last);
    }
  }

  lemma SoundStep(st: State, step: Step)
    requires Inv(st) && (st.sys.fault.None? ==> Sound(st)) && Enabled(st, step) && Internal(step)
    ensures Next(st, step).sys.fault != Some(InvalidOpType)
    ensures Next(st, step).sys.fault.None? ==> Sound(Next(st, step))
  {
    hide Durable, Sound, Next, Acceptable, Storable, JournalOrder.Stuck, CommitLogSteps.Overflows, IsWrite, Flow;
    StepKeeps(st, step);
    if step.HandleLog? {
      if st.sys.logCenter.batch[0].RecoverContext? {
        NextRecovered(st, st.sys.logCenter.batch[0].record);
      }
    } else if step.HandleRequest? {
      if st.sys.requestCenter.batch[0].FinishContext? {
        NextReplies(st, st.sys.requestCenter.batch[0].replies);
      }
    }
    if Next(st, step).sys.fault.None? {
      SoundStays(st, step);
    }
  }

  // And it takes no request to fail: the log center alone gets there, in a bounded number of
  // steps.
  lemma {:induction false} FailsUnasked(st: State) returns (steps: seq<Step>, last: State)
    requires Inv(st) && Doomed(st)
    ensures Run(st, steps, last) && |steps| <= Measure(st.sys)
    ensures forall step :: step in steps ==> step.TakeLogs? || step.HandleLog? || step.Idle?
    ensures last.sys.fault == Some(InvalidOpType)
    decreases Measure(st.sys)
  {
    hide Inv, Doomed, Enabled, Next, Measure;
    if st.sys.fault.Some? {
      FailedHow(st);
      steps, last := [], st;
    } else {
      var step := LogStep(st);
      StepKeeps(st, step);
      DoomedStep(st, step);
      var rest;
      rest, last := FailsUnasked(Next(st, step));
      steps := [step] + rest;
      assert steps[1..] == rest;
    }
  }

  lemma FailedHow(st: State)
    requires Doomed(st) && st.sys.fault.Some?
    ensures st.sys.fault == Some(InvalidOpType)
  {}

  lemma LogStep(st: State) returns (step: Step)
    requires Inv(st) && Doomed(st) && st.sys.fault.None?
    ensures step.TakeLogs? || step.HandleLog? || step.Idle?
    ensures Enabled(st, step) && Measure(Next(st, step).sys) < Measure(st.sys)
  {
    hide Inv, Doomed, Storable, Acceptable, Work, Next;
    OnlyRecovers(st);
    var lc := st.sys.logCenter;
    step := if lc.batch != [] then HandleLog else if lc.idle then Idle else TakeLogs;
    IdleFlag(st, step);
    WorkLowers(st, step);
  }

  // ----- A run that leads there ------------------------------------------------------

  // One request as its constructor leaves it.
  lemma PoisonReachable(table: Bytes, key: Bytes, value: Bytes) returns (failed: State, st: State)
    requires Acceptable(RequestData(0, 6, table, key, value))
    ensures Reachable(failed) && failed.sys.fault == Some(InvalidOpType)
    ensures Reachable(st) && st.sys.fault.None? && Doomed(st)
  {
    failed, st := PoisonedBy(RequestData(0, 6, table, key, value));
  }

  // The process fails on the response, when the record is durable already, and the next
  // process is doomed.
  lemma PoisonedBy(r: Request) returns (failed: State, st: State)
    requires r.ticket == 0 && Unknown(r.opType)
    ensures Reachable(failed) && failed.sys.fault == Some(InvalidOpType) && failed.history.operations == {r.opType}
    ensures Reachable(st) && st.sys.fault.None? && Doomed(st)
  {
    hide Storable, Reachable, Journal.CrashOf, Journal.Files, Journal.Recover, Good, RepliesOf, Inv, Next, Doomed,
         OnDisk;
    var before := Responded(1, [r]);
    OneOperation(r);
    failed := Fails(before, RecordFor(r, 1));
    OnDiskOf(failed);
    IntactIsCrash(failed.sys.journal, failed.sys.epoch, failed.history.log, failed.history.flushed);
    var after := Intact(Journal.Files(failed.sys.journal));
    NextEpoch(failed, after);
    FailureStays(failed, after);
    StepReachable(failed, CrashAndRestart(after));
    StepKeepsReachable(failed, CrashAndRestart(after));
    st := Next(failed, CrashAndRestart(after));
  }

  lemma OneOperation(r: Request)
    ensures Operations([r]) == {r.opType}
  {
    assert [r][0].opType in Operations([r]);
  }

  lemma StepKeepsReachable(st: State, step: Step)
    requires Reachable(st) && Enabled(st, step)
    ensures Next(st, step).sys.fault == FaultOf(st, step)
  {
    hide Reachable, Enabled, Next, FaultOf, Inv;
    ReachableInv(st);
    StepKeeps(st, step);
  }

  lemma OneReply(e: Entry)
    ensures RepliesOf([e], 0, 0, 1) == {Reply(1, e)}
  {
    hide Storable;
    assert Reply(0 + 1 - 0, [e][0]) in RepliesOf([e], 0, 0, 1);
  }

  lemma Fails(st: State, e: Entry) returns (last: State)
    requires Good(st) && !IsWrite(e.opType) && st.sys.epoch == 1 && st.history.log == [e]
    requires st.sys.requestCenter.batch == [FinishContext(RepliesOf([e], 0, 0, 1))]
    ensures Reachable(last) && last.sys.fault == Some(InvalidOpType) && last.sys.epoch == 1
    ensures last.history.operations == st.history.operations
  {
    hide Storable, Acceptable, Reachable, Inv, JournalOrder.Stuck, HandleKVResponse;
    var reply := Reply(1, e);
    OneReply(e);
    StepReachable(st, HandleRequest([reply]));
    StepKeepsReachable(st, HandleRequest([reply]));
    CommitSteps.ResponseFrame(RequestTaken(st.sys), [reply]);
    last := Next(st, HandleRequest([reply]));
  }

  // ----- What callers may post -------------------------------------------------------

  // The operations are numbered from 0 to 5.
  predicate Unknown(op: nat) { op > 5 }

  predicate Known(step: Step) {
    step.Post? ==> !Unknown(step.opType)
  }

  // Nothing in the log or on its way is of an operation that cannot be applied.
  ghost predicate AllKnown(st: State) {
    AllWrites(st.history.log) && (st.sys.fault.None? ==> Sound(st))
  }

  lemma KnownStep(st: State, step: Step)
    requires Inv(st) && AllKnown(st) && Enabled(st, step) && Known(step)
    ensures AllKnown(Next(st, step))
    ensures Next(st, step).sys.fault != Some(InvalidOpType)
  {
    hide Inv, Sound, AllWrites, Acceptable, Storable, AfterNew, AfterFinish, AfterRecover, AfterWrite, AfterIdle,
         AfterCrash, Unknown;
    match step
    case Post(opType, table, key, value) => KnownPost(st, RequestData(st.history.posted, opType, table, key, value));
    case CrashAndRestart(after) => KnownCrash(st, after);
    case _ =>
      SoundStep(st, step);
      KnownLog(st, step);
  }

  lemma KnownPost(st: State, r: Request)
    requires Sound(st) && !Unknown(r.opType)
    ensures Sound(AfterPost(st, r))
  {
    hide Acceptable, Storable, AllWrites;
    var rc := st.sys.requestCenter;
    forall c | c in rc.batch + (rc.queue + [NewContext(r)]) && c.NewContext?
      ensures c in rc.batch + rc.queue || c == NewContext(r)
    {}
  }

  lemma KnownCrash(st: State, after: seq<Journal.DiskFile>)
    requires Inv(st) && AllWrites(st.history.log) && Enabled(st, CrashAndRestart(after))
    ensures AllWrites(AfterCrash(st, after).history.log) && Sound(AfterCrash(st, after))
    ensures AfterCrash(st, after).sys.fault.None?
  {
    hide OnDisk, Flow, Storable, Acceptable, Journal.Recover, Journal.CrashOf, Journal.Files, Kept, AnswersAgree,
         IsWrite;
    var h := st.history;
    var k := CommitLogSteps.CrashDisk(st.sys.journal, st.sys.epoch, h.log, h.flushed, after);
    var log := AfterCrash(st, after).history.log;
    assert forall r :: r in h.log[..k] ==> r in h.log;
    assert log[0..] + [] == log;
  }

  lemma KnownLog(st: State, step: Step)
    requires Inv(st) && st.sys.fault.None? && Sound(st) && AllWrites(st.history.log)
    requires Enabled(st, step) && Internal(step)
    ensures AllWrites(Next(st, step).history.log)
  {
    hide Inv, Sound, AllWrites, Acceptable, Storable, HandleKVResponse, HandleNewKVRequest, IdleHandler,
         HandleRecoverLog, HandleWriteOper;
    if step.HandleLog? && st.sys.logCenter.batch[0].WriteContext? {
      KnownAppended(st, st.sys.logCenter.batch[0].entry);
    }
  }

  lemma KnownAppended(st: State, r: Entry)
    requires Inv(st) && st.sys.fault.None? && Sound(st) && AllWrites(st.history.log)
    requires st.sys.logCenter.batch != [] && st.sys.logCenter.batch[0] == WriteContext(r)
    ensures AllWrites(st.history.log + [r])
  {
    hide Acceptable, Storable, IsWrite, Durable, LogFlow, RequestFlow, Callers, StoreOk, NewSound;
    var h := st.history;
    CommitLogSteps.WriteNext(st.sys.logCenter, h.log, h.waiting, h.base, h.flushed, |h.applied|, r);
    assert h.waiting[0] in h.waiting;
  }

  // Over any run, with any crashes: as long as callers post gets and the five writes only, no
  // handler fails on a record.
  lemma {:induction false} KnownNeverFails(st: State, steps: seq<Step>, last: State)
    requires Inv(st) && AllKnown(st) && st.sys.fault != Some(InvalidOpType)
    requires Run(st, steps, last) && forall step :: step in steps ==> Known(step)
    ensures last.sys.fault != Some(InvalidOpType)
    decreases |steps|
  {
    hide Inv, AllKnown, Enabled, Next, Known;
    if steps != [] {
      assert steps[0] in steps;
      StepKeeps(st, steps[0]);
      KnownStep(st, steps[0]);
      KnownNeverFails(Next(st, steps[0]), steps[1..], last);
    }
  }

  lemma {:induction false} PostsNoted(st: State, steps: seq<Step>, last: State)
    requires Run(st, steps, last)
    ensures st.history.operations <= last.history.operations
    ensures forall step :: step in steps && step.Post? ==> step.opType in last.history.operations
    decreases |steps|
  {
    hide Enabled, Next;
    if steps != [] {
      PostNoted(st, steps[0]);
      PostsNoted(Next(st, steps[0]), steps[1..], last);
      assert steps == [steps[0]] + steps[1..];
    }
  }

  lemma PostNoted(st: State, step: Step)
    requires Enabled(st, step)
    ensures st.history.operations <= Next(st, step).history.operations
    ensures step.Post? ==> step.opType in Next(st, step).history.operations
  {
    hide Storable, Acceptable, HandleKVResponse, HandleNewKVRequest, Booted, HandleWriteOper, IdleHandler,
         HandleRecoverLog;
  }

  lemma InitialKnown(callers: nat)
    ensures AllKnown(Initial(callers)) && Initial(callers).sys.fault.None?
  {
    EmptyDisk();
  }

  lemma KnownSuffices(st: State)
    requires Reachable(st) && forall op :: op in st.history.operations ==> !Unknown(op)
    ensures st.sys.fault != Some(InvalidOpType)
  {
    hide Inv, Run, AllKnown, Unknown, Initial;
    var first := Initial(st.history.callers);
    var steps :| Run(first, steps, st);
    InitialInv(st.history.callers);
    InitialKnown(st.history.callers);
    PostsNoted(first, steps, st);
    KnownNeverFails(first, steps, st);
  }

  // Some run in which callers post these operations only fails on a record, if and only if an
  // unknown one is among them.
  lemma UnknownNeeded(ops: set<nat>)
    requires forall op :: op in ops ==> op < UINT32
    ensures (exists st :: Reachable(st) && st.history.operations <= ops && st.sys.fault == Some(InvalidOpType))
            <==> exists op :: op in ops && Unknown(op)
  {
    hide Reachable, Unknown;
    if op :| op in ops && Unknown(op) {
      var failed, st := PoisonedBy(EmptyRequest(op));
      assert failed.history.operations <= ops;
    } else {
      forall st | Reachable(st) && st.history.operations <= ops ensures st.sys.fault != Some(InvalidOpType) {
        KnownSuffices(st);
      }
    }
  }

  function EmptyRequest(op: nat): (r: Request)
    requires op < UINT32
    ensures r.ticket == 0 && r.opType == op
  {
    RequestData(0, op, [], [], [])
  }
}
