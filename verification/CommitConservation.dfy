/**
 Where the requests are: each is in exactly one place between the two services.
 */
module CommitConservation {
  import opened Lists
  import opened RecordFormat
  import opened GroupCommit
  import opened CommitInvariant
  import CommitSteps
  import CommitLogSteps
  import CommitTheorems
  import JournalOrder

  // How often a record with this id is queued to be appended.
  ghost function QueuedWrites(ctxs: seq<LogContext>, logId: nat): nat
    decreases |ctxs|
  {
    if ctxs == [] then 0
    else (if ctxs[0].WriteContext? && ctxs[0].entry.logId == logId then 1 else 0) + QueuedWrites(ctxs[1..], logId)
  }

  // How many replies to this request are queued.
  ghost function QueuedReplies(ctxs: seq<RequestContext>, id: nat): nat
    decreases |ctxs|
  {
    if ctxs == [] then 0
    else RepliesTo(ctxs[0], id) + QueuedReplies(ctxs[1..], id)
  }

  ghost function RepliesTo(ctx: RequestContext, id: nat): nat {
    if ctx.NewContext? then 0 else |set r | r in ctx.replies && r.id == id|
  }

  // Whether the record is appended and not flushed.
  ghost function Unflushed(lc: LogCenterState, logId: nat): nat {
    if logId in lc.mToFlushLog then 1 else 0
  }

  lemma {:induction false} WritesInContexts(recovered: seq<Entry>, waiting: seq<Entry>, first: nat, logId: nat)
    requires forall i :: 0 <= i < |waiting| ==> waiting[i].logId == first + i
    ensures QueuedWrites(Contexts(recovered, waiting), logId) == if first <= logId < first + |waiting| then 1 else 0
    decreases |recovered| + |waiting|
  {
    hide Storable, Contexts;
    CommitLogSteps.ContextsFirst(recovered, waiting);
    if recovered != [] {
      WritesInContexts(recovered[1..], waiting, first, logId);
    } else if waiting != [] {
      WritesInContexts([], waiting[1..], first + 1, logId);
    } else {
      assert Contexts([], []) == [];
    }
  }

  lemma RepliesOne(log: seq<Entry>, base: nat, lo: nat, hi: nat, id: nat)
    requires base <= lo <= hi <= |log|
    ensures |set r | r in RepliesOf(log, base, lo, hi) && r.id == id| == if lo - base < id <= hi - base then 1 else 0
  {
    hide Storable;
    var these := set r | r in RepliesOf(log, base, lo, hi) && r.id == id;
    if lo - base < id <= hi - base {
      var i := id + base - 1;
      var only := Reply(i + 1 - base, log[i]);
      assert only in RepliesOf(log, base, lo, hi);
      assert these == {only};
    } else {
      assert these == {};
    }
  }

  lemma {:induction false} RepliesInChain(ctxs: seq<RequestContext>, lo: nat, hi: nat, log: seq<Entry>, base: nat,
      id: nat)
    requires base <= lo && hi <= |log| && ReplyChain(ctxs, lo, hi, log, base)
    ensures QueuedReplies(ctxs, id) == if lo - base < id <= hi - base then 1 else 0
    decreases |ctxs|
  {
    hide RepliesOf, Storable, Acceptable;
    if ctxs != [] {
      match ctxs[0]
      case NewContext(_) => RepliesInChain(ctxs[1..], lo, hi, log, base, id);
      case FinishContext(replies) =>
        var mid := lo + |replies|;
        CommitSteps.ChainForward(ctxs[1..], mid, hi, log, base);
        RepliesOne(log, base, lo, mid, id);
        RepliesInChain(ctxs[1..], mid, hi, log, base, id);
    }
  }

  // In every reachable state a request is in the request center's table exactly if its
  // record is in one place, and in one only: queued to be appended, appended and waiting for
  // a flush, or in a queued response.  The log id is the request id behind the recovered ones.
  lemma Conservation(st: State, id: nat)
    requires Reachable(st) && st.sys.fault.None? && id > 0
    ensures var lc, rc := st.sys.logCenter, st.sys.requestCenter;
            var logId := st.history.base + id;
            QueuedWrites(lc.batch + lc.queue, logId) + Unflushed(lc, logId) + QueuedReplies(rc.batch + rc.queue, id) ==
            (if id in rc.mRequests then 1 else 0)
    ensures id in st.sys.requestCenter.mRequests ==>
              var logId := st.history.base + id;
              logId in st.sys.logCenter.mLogId2RequestId && st.sys.logCenter.mLogId2RequestId[logId] == id
  {
    hide Durable, StoreOk, Callers, Reachable, Contexts, ReplyChain, Storable, Acceptable;
    CommitTheorems.ReachableInv(st);
    var h, lc, rc := st.history, st.sys.logCenter, st.sys.requestCenter;
    var logId := h.base + id;
    WaitingNumbered(h.log, h.waiting);
    WritesInContexts(h.log[Least(|h.applied|, h.base)..h.base], h.waiting, |h.log| + 1, logId);
    RepliesInChain(rc.batch + rc.queue, Greatest(|h.applied|, h.base), h.flushed, h.log, h.base, id);
  }

  lemma WaitingNumbered(log: seq<Entry>, waiting: seq<Entry>)
    requires JournalOrder.Numbered(log + waiting)
    ensures forall i :: 0 <= i < |waiting| ==> waiting[i].logId == |log| + 1 + i
  {
    forall i | 0 <= i < |waiting| ensures waiting[i].logId == |log| + 1 + i {
      assert (log + waiting)[|log| + i] == waiting[i];
    }
  }

  // Every caller waits for one request, queued or under one number in the table, and no
  // caller is signalled twice, or while it still waits.  What waits for a flush is no more
  // than the callers that wait.
  lemma CallersOnce(st: State)
    requires Reachable(st) && st.sys.fault.None?
    ensures var h, rc := st.history, st.sys.requestCenter;
            var queued := NewTickets(rc.batch + rc.queue);
            && |h.blocked| == |rc.mRequests| + |queued|
            && h.blocked == (set id | id in rc.mRequests :: rc.mRequests[id].ticket) + Elements(queued)
            && NoDup(h.signalled) && Elements(h.signalled) !! h.blocked
    ensures |st.sys.logCenter.mToFlushLog| <= |st.history.blocked| <= st.history.callers
  {
    hide Durable, StoreOk, Reachable, Contexts, ReplyChain, Storable, Acceptable, NewTickets, TakenTickets, Callers,
         JournalOrder.Numbered;
    CommitTheorems.ReachableInv(st);
    var h, rc := st.history, st.sys.requestCenter;
    var lo := Greatest(|h.applied|, h.base) - h.base;
    WaitingCallers(rc, lo, h.blocked, h.signalled, h.posted);
    CommitLogSteps.SegmentCount(h.log, h.flushed, |h.log|);
    CommitLogSteps.PendingBounded(st);
  }

  lemma WaitingCallers(rc: RequestCenterState, lo: nat, blocked: set<nat>, signalled: seq<nat>, posted: nat)
    requires Callers(rc, lo, blocked, signalled, posted)
    requires forall id :: id in rc.mRequests <==> lo < id <= rc.mRequestID
    ensures var queued := NewTickets(rc.batch + rc.queue);
            && |blocked| == |rc.mRequests| + |queued|
            && blocked == (set id | id in rc.mRequests :: rc.mRequests[id].ticket) + Elements(queued)
            && NoDup(signalled) && Elements(signalled) !! blocked
  {
    hide NewTickets, Acceptable, TakenTickets, Increasing;
    var taken, queued := TakenTickets(rc.mRequests, lo, rc.mRequestID), NewTickets(rc.batch + rc.queue);
    CommitSteps.IncreasingNoDup(taken + queued, posted);
    Interval(rc.mRequests, lo, rc.mRequestID);
    CommitSteps.SplitIncreasing(taken, queued, posted);
    TakenElements(rc.mRequests, lo, rc.mRequestID);
  }

  lemma TakenElements(requests: map<nat, Request>, lo: nat, hi: nat)
    requires lo <= hi && forall id :: id in requests <==> lo < id <= hi
    ensures |TakenTickets(requests, lo, hi)| == hi - lo
    ensures Elements(TakenTickets(requests, lo, hi)) == set id | id in requests :: requests[id].ticket
  {
    hide Acceptable;
    var taken := TakenTickets(requests, lo, hi);
    var tickets := set id | id in requests :: requests[id].ticket;
    forall t | t in tickets ensures t in Elements(taken) {
      var id :| id in requests && requests[id].ticket == t;
      assert taken[id - lo - 1] == t;
    }
    forall t | t in Elements(taken) ensures t in tickets {
      var i :| 0 <= i < |taken| && taken[i] == t;
      assert lo + 1 + i in requests;
    }
  }

  lemma {:induction false} Interval(requests: map<nat, Request>, lo: nat, hi: nat)
    requires lo <= hi && forall id :: id in requests <==> lo < id <= hi
    ensures |requests| == hi - lo
    decreases hi
  {
    hide Acceptable;
    if lo < hi {
      var fewer := requests - {hi};
      Interval(fewer, lo, hi - 1);
      assert requests == fewer[hi := requests[hi]];
    } else {
      assert requests == map[];
    }
  }
}
