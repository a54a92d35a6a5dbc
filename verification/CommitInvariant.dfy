/**
 What every step of the commit protocol keeps: where each record and each request is, and
 what is on disk.
 */
module CommitInvariant {
  import opened Common
  import Lists
  import opened RecordFormat
  import opened DataStore
  import ApplyOrder
  import opened GroupCommit
  import JournalOrder
  import Journal

  // ----- On disk ---------------------------------------------------------------------

  // The journal holds this log, at least the first `flushed` records of it durably.
  ghost predicate OnDisk(j: Journal.State, epoch: nat, log: seq<Entry>, flushed: nat) {
    exists c :: HoldsLog(j, c, epoch, log, flushed)
  }

  ghost predicate HoldsLog(j: Journal.State, c: Journal.Contents, epoch: nat, log: seq<Entry>, flushed: nat) {
    && Journal.Holds(j, c) && JournalOrder.Order(j, c, epoch)
    && Journal.LogOf(c) == log && flushed <= Journal.FlushedCount(c)
  }

  // What was promised to callers is in the flushed part of the log.
  ghost predicate Kept(promised: set<LogRecord>, log: seq<Entry>, flushed: nat) {
    flushed <= |log| && forall r :: r in promised ==> 1 <= r.logId <= flushed && log[r.logId - 1] == r
  }

  // Every answer is the one that applying the log in its order gives.
  ghost predicate AnswersAgree(answers: set<Answer>, promised: set<LogRecord>, log: seq<Entry>) {
    forall a :: a in answers ==>
      && a.record in promised && 1 <= a.record.logId <= |log|
      && Answers(map[], log)[a.record.logId - 1] == a
  }

  // ----- Records on their way to the log ---------------------------------------------

  ghost function Contexts(recovered: seq<Entry>, waiting: seq<Entry>): (ctxs: seq<LogContext>)
    ensures |ctxs| == |recovered| + |waiting|
    ensures forall i :: 0 <= i < |recovered| ==> ctxs[i] == RecoverContext(recovered[i])
    ensures forall i :: 0 <= i < |waiting| ==> ctxs[|recovered| + i] == WriteContext(waiting[i])
  {
    seq(|recovered|, i requires 0 <= i < |recovered| => RecoverContext(recovered[i])) +
    seq(|waiting|, i requires 0 <= i < |waiting| => WriteContext(waiting[i]))
  }

  ghost function RecordNo(log: seq<Entry>, id: nat): Entry
    requires 1 <= id <= |log|
  {
    log[id - 1]
  }

  ghost function Segment(log: seq<Entry>, lo: nat, hi: nat): map<nat, Entry>
    requires hi <= |log|
  {
    map id | lo < id <= hi :: RecordNo(log, id)
  }

  function Greatest(a: nat, b: nat): nat { if a <= b then b else a }

  // The log center: recovered records first, then the records to be appended, numbered on
  // from the log; what is appended but not flushed; and whose request each record is.
  // `a` counts the records applied to the store.
  ghost predicate LogFlow(lc: LogCenterState, log: seq<Entry>, waiting: seq<Entry>, base: nat, flushed: nat, a: nat) {
    && base <= flushed <= |log|
    && JournalOrder.Numbered(log + waiting)
    && lc.mMaxLogId == |log| + |waiting|
    && lc.batch + lc.queue == Contexts(log[Least(a, base)..base], waiting)
    && (a < base ==> |log| == base)
    && lc.mToFlushLog == Segment(log, flushed, |log|)
    && (forall id :: id in lc.mLogId2RequestId <==> base < id <= lc.mMaxLogId)
    && (forall id :: id in lc.mLogId2RequestId ==> lc.mLogId2RequestId[id] == id - base)
    && (lc.idle ==> lc.batch == [])
  }

  // ----- Responses on their way back -------------------------------------------------

  ghost function RepliesOf(log: seq<Entry>, base: nat, lo: nat, hi: nat): set<Reply>
    requires base <= lo <= hi <= |log|
  {
    set i | lo <= i < hi :: Reply(i + 1 - base, log[i])
  }

  // The queued responses hold the flushed records in consecutive stretches.
  ghost predicate ReplyChain(ctxs: seq<RequestContext>, lo: nat, hi: nat, log: seq<Entry>, base: nat)
    requires base <= lo && hi <= |log|
    decreases |ctxs|
  {
    if ctxs == [] then lo == hi
    else
      match ctxs[0]
      case NewContext(_) => ReplyChain(ctxs[1..], lo, hi, log, base)
      case FinishContext(replies) =>
        var mid := lo + |replies|;
        && lo < mid <= hi && replies == RepliesOf(log, base, lo, mid)
        && ReplyChain(ctxs[1..], mid, hi, log, base)
  }

  // The request center: exactly the requests whose records are not applied yet, each under
  // the number that belongs to its record.
  ghost predicate RequestFlow(rc: RequestCenterState, log: seq<Entry>, waiting: seq<Entry>, base: nat,
      flushed: nat, a: nat) {
    var low := Greatest(a, base);
    var all := log + waiting;
    && low <= flushed <= |log| && |all| < UINT32
    && rc.mRequestID == |all| - base
    && ReplyChain(rc.batch + rc.queue, low, flushed, log, base)
    && (forall id :: id in rc.mRequests <==> low - base < id <= rc.mRequestID)
    && (forall id :: id in rc.mRequests ==>
          rc.mRequests[id].opType != OP_GET && all[base + id - 1] == RecordFor(rc.mRequests[id], base + id))
  }

  // ----- The store -------------------------------------------------------------------

  ghost predicate StoreOk(store: Store, applied: seq<LogRecord>, log: seq<Entry>, base: nat, clean: bool) {
    && |applied| <= |log|
    && ApplyOrder.AllWrites(applied)
    && store == ApplyAll(map[], applied)
    && multiset(applied) == multiset(log[..|applied|])
    && base <= |log| && applied[..Least(|applied|, base)] == log[..Least(|applied|, base)]
    && (clean ==> store == ApplyAll(map[], log[..|applied|]))
  }

  // ----- Callers ---------------------------------------------------------------------

  ghost function NewTickets(ctxs: seq<RequestContext>): seq<nat>
    decreases |ctxs|
  {
    if ctxs == [] then []
    else NewTicket(ctxs[0]) + NewTickets(ctxs[1..])
  }

  ghost function NewTicket(ctx: RequestContext): seq<nat> {
    if ctx.NewContext? then [ctx.request.ticket] else []
  }

  ghost function TakenTickets(requests: map<nat, Request>, lo: nat, hi: nat): (tickets: seq<nat>)
    requires forall id :: lo < id <= hi ==> id in requests
    requires lo <= hi
  {
    seq(hi - lo, i requires 0 <= i < hi - lo => requests[lo + 1 + i].ticket)
  }

  ghost predicate Increasing(s: seq<nat>, bound: nat) {
    && (forall i, k :: 0 <= i < k < |s| ==> s[i] < s[k])
    && (forall i :: 0 <= i < |s| ==> s[i] < bound)
  }

  // The waiting callers are those of the requests that are taken up and those of the queued
  // ones, in the order they came; nobody is signalled twice or waits on after that.
  ghost predicate Callers(rc: RequestCenterState, lo: nat, blocked: set<nat>, signalled: seq<nat>, posted: nat) {
    && lo <= rc.mRequestID
    && (forall id :: lo < id <= rc.mRequestID ==> id in rc.mRequests)
    && var pending := TakenTickets(rc.mRequests, lo, rc.mRequestID) + NewTickets(rc.batch + rc.queue);
    && Increasing(pending, posted)
    && blocked == Lists.Elements(pending)
    && Lists.NoDup(signalled) && (forall t :: t in signalled ==> t < posted && t !in blocked)
  }

  // ----- All of it -------------------------------------------------------------------

  ghost predicate Durable(st: State) {
    var h := st.history;
    && OnDisk(st.sys.journal, st.sys.epoch, h.log, h.flushed)
    && Kept(h.promised, h.log, h.flushed)
    && (h.clean ==> AnswersAgree(h.answers, h.promised, h.log))
  }

  ghost predicate Flow(st: State) {
    var s, h := st.sys, st.history;
    var a := |h.applied|;
    && (|h.log| > h.base ==> s.journal.current.Some?)
    && LogFlow(s.logCenter, h.log, h.waiting, h.base, h.flushed, a)
    && RequestFlow(s.requestCenter, h.log, h.waiting, h.base, h.flushed, a)
    && StoreOk(s.store, h.applied, h.log, h.base, h.clean)
    && Callers(s.requestCenter, Greatest(a, h.base) - h.base, h.blocked, h.signalled, h.posted)
    && |h.blocked| <= h.callers
  }

  // A durable record is of no operation that can be applied.
  ghost predicate Poisoned(log: seq<Entry>, durable: nat) {
    exists i :: 0 <= i < durable && i < |log| && !IsWrite(log[i].opType)
  }

  // There are four ways to fail.
  ghost predicate FailedFor(fault: Fault, st: State) {
    match fault
    case NewLogFileFailed => JournalOrder.Stuck(st.sys.journal, st.sys.epoch)
    case InvalidOpType => Poisoned(st.history.log, st.history.flushed)
    case FlushCountOverrun => st.history.callers >= FLUSH_COUNTS
    case TooManyToFlush => st.history.callers > MAX_LOG_NUM_TO_FLUSH
    case _ => false
  }

  ghost predicate Inv(st: State) {
    && Durable(st)
    && st.sys.epoch < UINT32
    && (if st.sys.fault.None? then Flow(st)
        else
          && FailedFor(st.sys.fault.value, st)
          && Lists.NoDup(st.history.signalled)
          && (forall t :: t in st.history.signalled ==> t < st.history.posted))
  }
}
