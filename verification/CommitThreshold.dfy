/**
 How many callers it takes for more records to wait for a flush than the log center is made
 for: its counters of flushes, by their size, and its threshold.
 */
module CommitThreshold {
  import opened Common
  import opened RecordFormat
  import opened GroupCommit
  import opened CommitInvariant
  import CommitSteps
  import CommitLogSteps
  import CommitTheorems
  import CommitRuns
  import Journal
  import JournalOrder

  // The threshold is passed in some run if and only if more than 1000 callers may wait at a
  // time.
  lemma ThresholdTight(callers: nat)
    ensures (exists st :: Reachable(st) && st.history.callers == callers && st.sys.fault == Some(TooManyToFlush))
            <==> callers > 1000
  {
    hide Reachable, Durable, Flow;
    if callers > 1000 {
      var st := TooMany(callers);
    }
    forall st | Reachable(st) && st.history.callers == callers && st.sys.fault == Some(TooManyToFlush)
      ensures callers > 1000
    {
      CommitTheorems.ReachableInv(st);
    }
  }

  // A flush writes behind the end of its counters in some run if and only if 50 callers may
  // wait at a time.
  lemma FlushCountTight(callers: nat)
    ensures (exists st :: Reachable(st) && st.history.callers == callers && st.sys.fault == Some(FlushCountOverrun))
            <==> callers >= 50
  {
    hide Reachable, Durable, Flow;
    if callers >= 50 {
      var st := Overrun(callers);
    }
    forall st | Reachable(st) && st.history.callers == callers && st.sys.fault == Some(FlushCountOverrun)
      ensures callers >= 50
    {
      CommitTheorems.ReachableInv(st);
    }
  }

  // As many records as there are counters are appended together.  They are durable when the
  // process fails, and all their callers wait.
  lemma Overrun(callers: nat) returns (st: State)
    requires callers >= 50
    ensures Reachable(st) && st.history.callers == callers && st.sys.fault == Some(FlushCountOverrun)
    ensures st.history.flushed == |st.history.log| == 50 <= |st.history.blocked|
  {
    hide Reachable, Storable, Puts, Inv, Enabled, Next, CommitRuns.Writes, Journal.FlushLog;
    var rs := Puts(50);
    var before := CommitRuns.ReadyToFlush(callers, rs);
    CommitTheorems.ReachableInv(before);
    CommitRuns.FlowOf(before);
    CommitLogSteps.PendingBounded(before);
    CommitTheorems.StepReachable(before, Idle);
    CommitTheorems.StepKeeps(before, Idle);
    st := Next(before, Idle);
    IdleHistory(before);
  }

  lemma IdleHistory(st: State)
    requires Enabled(st, Idle) && |st.sys.logCenter.mToFlushLog| > 0
    ensures Next(st, Idle).history == st.history.(flushed := |st.history.log|)
  {
    hide Storable, Acceptable, Journal.FlushLog;
  }

  // So many callers who put the empty key into the empty table.
  function Puts(n: nat): (rs: seq<Request>)
    ensures |rs| == n && CommitRuns.Writes(rs)
  {
    seq(n, i requires 0 <= i < n => RequestData(i, OP_PUT, [], [], []))
  }

  // One record more than the threshold is queued, and all of them are taken together.
  lemma TooMany(callers: nat) returns (st: State)
    requires callers > 1000
    ensures Reachable(st) && st.history.callers == callers && st.sys.fault == Some(TooManyToFlush)
  {
    hide Reachable, Storable, Puts, Contexts, Inv, Enabled, Next, CommitRuns.Writes;
    var rs := Puts(1001);
    var before := CommitRuns.SomeAppended(callers, rs, 1000);
    CommitRuns.LineOf(before);
    CommitLogSteps.ContextsFirst([], before.history.waiting);
    Takes(before);
    CommitTheorems.StepReachable(before, HandleLog);
    CommitTheorems.StepKeeps(before, HandleLog);
    st := Next(before, HandleLog);
  }

  lemma Takes(st: State)
    requires CommitRuns.Good(st) && st.sys.logCenter.batch != []
    ensures Enabled(st, HandleLog) && Inv(st)
  {
    hide Reachable, Inv, JournalOrder.Stuck;
    CommitTheorems.ReachableInv(st);
  }

  // ----- A flush that succeeds -------------------------------------------------------

  // The response has exactly one reply for each record that waited for the flush, under the
  // number of the request the record is for.
  ghost predicate Answers(replies: set<Reply>, lc: LogCenterState, requests: map<nat, Request>) {
    && |replies| == |lc.mToFlushLog|
    && (forall id :: id in lc.mToFlushLog ==> exists r :: r in replies && r.record == lc.mToFlushLog[id])
    && (forall r, q :: r in replies && q in replies && r.record == q.record ==> r == q)
    && (forall r :: r in replies ==>
          && r.record.logId in lc.mToFlushLog && lc.mToFlushLog[r.record.logId] == r.record
          && r.id in requests && r.record == RecordOf(requests[r.id], r.record.logId))
  }

  ghost function RecordOf(r: Request, logId: nat): LogRecord {
    LogRecord(logId, r.opType, r.table, r.key, r.value)
  }

  // With 1 to 49 records to flush, a flush makes the whole log durable, sends one response,
  // and leaves nothing to flush; with more it fails.
  lemma IdleAnswers(st: State)
    requires Reachable(st) && Enabled(st, Idle) && |st.sys.logCenter.mToFlushLog| > 0
    ensures Next(st, Idle).history.flushed == |st.history.log|
    ensures |st.sys.logCenter.mToFlushLog| >= 50 ==> Next(st, Idle).sys.fault == Some(FlushCountOverrun)
    ensures |st.sys.logCenter.mToFlushLog| <= 49 ==>
              var s, t := st.sys, Next(st, Idle).sys;
              && t.fault == None && t.logCenter.mToFlushLog == map[]
              && t.requestCenter.batch == s.requestCenter.batch
              && |t.requestCenter.queue| == |s.requestCenter.queue| + 1
              && t.requestCenter.queue[..|s.requestCenter.queue|] == s.requestCenter.queue
              && var response := t.requestCenter.queue[|s.requestCenter.queue|];
              response.FinishContext? && Answers(response.replies, s.logCenter, s.requestCenter.mRequests)
  {
    hide Reachable, Durable, LogFlow, RequestFlow, StoreOk, Callers, Acceptable, Storable, Journal.FlushLog, Answers,
         RepliesOf;
    CommitTheorems.ReachableInv(st);
    CommitTheorems.StepKeeps(st, Idle);
    IdleHistory(st);
    var h, lc := st.history, st.sys.logCenter;
    if |lc.mToFlushLog| <= 49 {
      CommitLogSteps.FlushReplies(lc, h.log, h.waiting, h.base, h.flushed, |h.applied|);
      CommitLogSteps.FlushedState(st);
      RepliesAnswer(st);
    }
  }

  lemma RepliesAnswer(st: State)
    requires Flow(st)
    ensures var h := st.history;
            && h.base <= h.flushed <= |h.log|
            && Answers(RepliesOf(h.log, h.base, h.flushed, |h.log|), st.sys.logCenter, st.sys.requestCenter.mRequests)
  {
    hide LogFlow, RequestFlow, StoreOk, Callers, Answers, RepliesOf, Acceptable, Storable;
    var h := st.history;
    CommitSteps.FlowFacts(st);
    WhoseRecords(st);
    CommitLogSteps.UnflushedIs(st.sys.logCenter, h.log, h.waiting, h.base, h.flushed, |h.applied|);
    CommitLogSteps.SegmentCount(h.log, h.flushed, |h.log|);
    SegmentAnswered(st.sys.logCenter, st.sys.requestCenter.mRequests, h.log, h.base, h.flushed);
  }

  // Each record that waits for a flush is of the request with its number.
  ghost predicate Whose(requests: map<nat, Request>, log: seq<Entry>, base: nat, flushed: nat) {
    base <= flushed <= |log| &&
    forall i :: flushed <= i < |log| ==>
      i + 1 - base in requests && log[i] == RecordOf(requests[i + 1 - base], i + 1)
  }

  lemma WhoseRecords(st: State)
    requires Flow(st)
    ensures Whose(st.sys.requestCenter.mRequests, st.history.log, st.history.base, st.history.flushed)
  {
    hide RequestFlow, LogFlow, StoreOk, Callers, Whose, Acceptable, Storable;
    var h := st.history;
    CommitSteps.FlowFacts(st);
    RequestsInLog(st.sys.requestCenter, h.log, h.waiting, h.base, h.flushed, |h.applied|);
  }

  lemma RequestsInLog(rc: RequestCenterState, log: seq<Entry>, waiting: seq<Entry>, base: nat, flushed: nat, a: nat)
    requires RequestFlow(rc, log, waiting, base, flushed, a) && base <= flushed && JournalOrder.Numbered(log)
    ensures Whose(rc.mRequests, log, base, flushed)
  {
    hide ReplyChain, Acceptable, Storable;
    forall i | flushed <= i < |log|
      ensures i + 1 - base in rc.mRequests && log[i] == RecordOf(rc.mRequests[i + 1 - base], i + 1)
    {
      RequestOf(rc, log, waiting, base, flushed, a, i + 1 - base);
    }
  }

  lemma RequestOf(rc: RequestCenterState, log: seq<Entry>, waiting: seq<Entry>, base: nat, flushed: nat, a: nat,
      id: nat)
    requires RequestFlow(rc, log, waiting, base, flushed, a) && base <= flushed < base + id <= |log|
    ensures id in rc.mRequests
    ensures log[base + id - 1] == RecordOf(rc.mRequests[id], base + id)
  {
    hide ReplyChain, Acceptable, Storable;
    assert (log + waiting)[base + id - 1] == log[base + id - 1];
  }

  lemma SegmentAnswered(lc: LogCenterState, requests: map<nat, Request>, log: seq<Entry>, base: nat, flushed: nat)
    requires Whose(requests, log, base, flushed) && JournalOrder.Numbered(log)
    requires lc.mToFlushLog == Segment(log, flushed, |log|) && |lc.mToFlushLog| == |log| - flushed
    ensures Answers(RepliesOf(log, base, flushed, |log|), lc, requests)
  {
    hide Acceptable, Storable, RepliesOf, Segment, RecordOf, Whose, JournalOrder.Numbered;
    InLog(requests, log, base, flushed);
    var replies := RepliesOf(log, base, flushed, |log|);
    CommitSteps.RepliesCount(log, base, flushed, |log|);
    forall id | id in lc.mToFlushLog ensures exists r :: r in replies && r.record == lc.mToFlushLog[id] {
      var r := OneOfReplies(log, base, flushed, id);
      assert r in replies && r.record == lc.mToFlushLog[id];
    }
    forall r | r in replies
      ensures r.record.logId in lc.mToFlushLog && lc.mToFlushLog[r.record.logId] == r.record
      ensures r.id in requests && r.record == RecordOf(requests[r.id], r.record.logId)
      ensures r.id + base == r.record.logId
    {
      ReplyIsWhose(requests, log, base, flushed, r);
    }
  }

  lemma InLog(requests: map<nat, Request>, log: seq<Entry>, base: nat, flushed: nat)
    requires Whose(requests, log, base, flushed)
    ensures base <= flushed <= |log|
  {
    hide RecordOf, Acceptable, Storable;
  }

  lemma OneOfReplies(log: seq<Entry>, base: nat, flushed: nat, id: nat) returns (r: Reply)
    requires base <= flushed <= |log| && id in Segment(log, flushed, |log|)
    ensures r in RepliesOf(log, base, flushed, |log|) && r.record == Segment(log, flushed, |log|)[id]
  {
    hide Storable;
    r := Reply(id - 1 + 1 - base, log[id - 1]);
  }

  lemma ReplyIsWhose(requests: map<nat, Request>, log: seq<Entry>, base: nat, flushed: nat, r: Reply)
    requires Whose(requests, log, base, flushed) && JournalOrder.Numbered(log)
    requires base <= flushed <= |log| && r in RepliesOf(log, base, flushed, |log|)
    ensures r.record.logId in Segment(log, flushed, |log|)
    ensures Segment(log, flushed, |log|)[r.record.logId] == r.record
    ensures r.id in requests && r.record == RecordOf(requests[r.id], r.record.logId)
    ensures r.id + base == r.record.logId
  {
    hide Acceptable, Storable, RecordOf;
    var i :| flushed <= i < |log| && r == Reply(i + 1 - base, log[i]);
  }
}
