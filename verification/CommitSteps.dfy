/**
 Each step of the commit protocol keeps the invariant.
 */
module CommitSteps {
  import opened Common
  import opened Lists
  import opened RecordFormat
  import opened DataStore
  import opened ApplyOrder
  import opened GroupCommit
  import opened CommitInvariant
  import JournalOrder

  // ----- Chains of responses ---------------------------------------------------------

  lemma {:induction false} ChainNew(ctxs: seq<RequestContext>, r: Request, lo: nat, hi: nat, log: seq<Entry>, base: nat)
    requires base <= lo && hi <= |log| && ReplyChain(ctxs, lo, hi, log, base)
    ensures ReplyChain(ctxs + [NewContext(r)], lo, hi, log, base)
    decreases |ctxs|
  {
    hide RepliesOf;
    var longer := ctxs + [NewContext(r)];
    if ctxs == [] {
      assert longer[1..] == [];
    } else {
      assert longer[1..] == ctxs[1..] + [NewContext(r)];
      match ctxs[0]
      case NewContext(_) => ChainNew(ctxs[1..], r, lo, hi, log, base);
      case FinishContext(replies) => ChainNew(ctxs[1..], r, lo + |replies|, hi, log, base);
    }
  }

  lemma {:induction false} RepliesCount(log: seq<Entry>, base: nat, lo: nat, hi: nat)
    requires base <= lo <= hi <= |log|
    ensures |RepliesOf(log, base, lo, hi)| == hi - lo
    decreases hi
  {
    if lo < hi {
      RepliesCount(log, base, lo, hi - 1);
      var last := Reply(hi - base, log[hi - 1]);
      assert RepliesOf(log, base, lo, hi) == RepliesOf(log, base, lo, hi - 1) + {last};
      assert last !in RepliesOf(log, base, lo, hi - 1);
    }
  }

  lemma {:induction false} ChainFinish(ctxs: seq<RequestContext>, lo: nat, mid: nat, hi: nat, log: seq<Entry>,
      base: nat)
    requires base <= lo && mid < hi <= |log| && ReplyChain(ctxs, lo, mid, log, base)
    ensures base <= mid && ReplyChain(ctxs + [FinishContext(RepliesOf(log, base, mid, hi))], lo, hi, log, base)
    decreases |ctxs|
  {
    hide RepliesOf;
    ChainForward(ctxs, lo, mid, log, base);
    var last := FinishContext(RepliesOf(log, base, mid, hi));
    var longer := ctxs + [last];
    if ctxs == [] {
      RepliesCount(log, base, mid, hi);
      assert longer[1..] == [];
    } else {
      assert longer[1..] == ctxs[1..] + [last];
      match ctxs[0]
      case NewContext(_) => ChainFinish(ctxs[1..], lo, mid, hi, log, base);
      case FinishContext(replies) => ChainFinish(ctxs[1..], lo + |replies|, mid, hi, log, base);
    }
  }

  lemma {:induction false} ChainForward(ctxs: seq<RequestContext>, lo: nat, hi: nat, log: seq<Entry>, base: nat)
    requires base <= lo && hi <= |log| && ReplyChain(ctxs, lo, hi, log, base)
    ensures lo <= hi
    decreases |ctxs|
  {
    hide RepliesOf;
    if ctxs != [] {
      match ctxs[0]
      case NewContext(_) => ChainForward(ctxs[1..], lo, hi, log, base);
      case FinishContext(replies) => ChainForward(ctxs[1..], lo + |replies|, hi, log, base);
    }
  }

  lemma {:induction false} ChainLongerLog(ctxs: seq<RequestContext>, lo: nat, hi: nat, log: seq<Entry>, r: Entry,
      base: nat)
    requires base <= lo && hi <= |log| && ReplyChain(ctxs, lo, hi, log, base)
    ensures ReplyChain(ctxs, lo, hi, log + [r], base)
    decreases |ctxs|
  {
    hide RepliesOf, Storable;
    if ctxs != [] {
      match ctxs[0]
      case NewContext(_) => ChainLongerLog(ctxs[1..], lo, hi, log, r, base);
      case FinishContext(replies) =>
        RepliesLongerLog(log, r, base, lo, lo + |replies|);
        ChainLongerLog(ctxs[1..], lo + |replies|, hi, log, r, base);
    }
  }

  lemma RepliesLongerLog(log: seq<Entry>, r: Entry, base: nat, lo: nat, hi: nat)
    requires base <= lo <= hi <= |log|
    ensures RepliesOf(log + [r], base, lo, hi) == RepliesOf(log, base, lo, hi)
  {
    assert forall i :: lo <= i < hi ==> (log + [r])[i] == log[i];
  }

  // ----- Callers ---------------------------------------------------------------------

  lemma {:induction false} NewTicketsAppend(a: seq<RequestContext>, b: seq<RequestContext>)
    ensures NewTickets(a + b) == NewTickets(a) + NewTickets(b)
    decreases |a|
  {
    hide Acceptable, Storable, NewTicket;
    if a == [] {
      assert a + b == b;
    } else {
      assert (a + b)[1..] == a[1..] + b && (a + b)[0] == a[0];
      NewTicketsAppend(a[1..], b);
      assert NewTickets(a + b) == NewTicket(a[0]) + NewTickets(a[1..] + b);
    }
  }

  lemma IncreasingNoDup(s: seq<nat>, bound: nat)
    requires Increasing(s, bound)
    ensures NoDup(s) && |Elements(s)| == |s|
  {
    ElementsCount(s);
  }

  // ----- Post ------------------------------------------------------------------------

  lemma PostKeeps(st: State, r: Request)
    requires Inv(st) && st.sys.fault.None? && |st.history.blocked| < st.history.callers
    requires r.ticket == st.history.posted
    ensures Inv(AfterPost(st, r))
  {
    hide Durable, LogFlow, StoreOk, RequestFlow, Callers, FailedFor, NoDup;
    var h, rc := st.history, st.sys.requestCenter;
    var a := |h.applied|;
    PostRequests(rc, h.log, h.waiting, h.base, h.flushed, a, r);
    DurableSame(st, AfterPost(st, r));
    PostCallers(rc, Greatest(a, h.base) - h.base, h.blocked, h.signalled, h.posted, r);
  }

  lemma PostRequests(rc: RequestCenterState, log: seq<Entry>, waiting: seq<Entry>, base: nat, flushed: nat, a: nat,
      r: Request)
    requires RequestFlow(rc, log, waiting, base, flushed, a)
    ensures RequestFlow(rc.(queue := rc.queue + [NewContext(r)]), log, waiting, base, flushed, a)
  {
    hide ReplyChain, RepliesOf, Acceptable, Storable;
    ChainNew(rc.batch + rc.queue, r, Greatest(a, base), flushed, log, base);
    assert rc.batch + (rc.queue + [NewContext(r)]) == rc.batch + rc.queue + [NewContext(r)];
  }

  // Steps that neither append nor promise anything.
  lemma DurableSame(st: State, st': State)
    requires Durable(st)
    requires st'.sys.journal == st.sys.journal && st'.sys.epoch == st.sys.epoch
    requires st'.history.log == st.history.log && st'.history.flushed == st.history.flushed
    requires st'.history.promised == st.history.promised && st'.history.answers == st.history.answers
    requires st'.history.clean == st.history.clean
    ensures Durable(st')
  {}

  lemma PostCallers(rc: RequestCenterState, lo: nat, blocked: set<nat>, signalled: seq<nat>, posted: nat, r: Request)
    requires Callers(rc, lo, blocked, signalled, posted) && r.ticket == posted
    ensures Callers(rc.(queue := rc.queue + [NewContext(r)]), lo, blocked + {posted}, signalled, posted + 1)
  {
    hide NewTickets, NoDup, TakenTickets, Acceptable, Storable;
    var taken, queued := TakenTickets(rc.mRequests, lo, rc.mRequestID), NewTickets(rc.batch + rc.queue);
    NewTicketsAppend(rc.batch + rc.queue, [NewContext(r)]);
    NewTicketsOfOne(r);
    assert rc.batch + (rc.queue + [NewContext(r)]) == rc.batch + rc.queue + [NewContext(r)];
    ThreeLists(taken, queued, [posted]);
    OneTicketMore(taken + queued, posted);
  }

  lemma OneTicketMore(pending: seq<nat>, posted: nat)
    requires Increasing(pending, posted)
    ensures Increasing(pending + [posted], posted + 1)
    ensures Elements(pending + [posted]) == Elements(pending) + {posted}
  {}

  lemma NewTicketsOfOne(r: Request)
    ensures NewTickets([NewContext(r)]) == [r.ticket]
  {
    assert [NewContext(r)][1..] == [];
  }

  // ----- Taking a batch --------------------------------------------------------------

  lemma TakeRequestsKeeps(st: State)
    requires Inv(st) && Enabled(st, TakeRequests)
    ensures Inv(AfterTakeRequests(st))
  {
    hide Durable, LogFlow, StoreOk, RequestFlow, Callers, Acceptable, Storable, FailedFor, NoDup;
    var h := st.history;
    var a := |h.applied|;
    TakeRequestFlow(st.sys.requestCenter, h.log, h.waiting, h.base, h.flushed, a, h);
    DurableSame(st, AfterTakeRequests(st));
  }

  lemma TakeRequestFlow(rc: RequestCenterState, log: seq<Entry>, waiting: seq<Entry>, base: nat, flushed: nat,
      a: nat, h: History)
    requires RequestFlow(rc, log, waiting, base, flushed, a) && rc.batch == []
    requires Callers(rc, Greatest(a, base) - base, h.blocked, h.signalled, h.posted)
    ensures var rc' := rc.(batch := rc.queue, queue := []);
            && RequestFlow(rc', log, waiting, base, flushed, a)
            && Callers(rc', Greatest(a, base) - base, h.blocked, h.signalled, h.posted)
  {
    hide ReplyChain, NewTickets, TakenTickets, Increasing, NoDup, Acceptable, Storable;
    assert rc.batch + rc.queue == rc.queue + [];
  }

  lemma TakeLogsKeeps(st: State)
    requires Inv(st) && Enabled(st, TakeLogs)
    ensures Inv(AfterTakeLogs(st))
  {
    hide Durable, LogFlow, RequestFlow, StoreOk, Callers, Acceptable, Storable, FailedFor, NoDup;
    var h := st.history;
    TakeLogFlow(st.sys.logCenter, h.log, h.waiting, h.base, h.flushed, |h.applied|);
    DurableSame(st, AfterTakeLogs(st));
  }

  lemma TakeLogFlow(lc: LogCenterState, log: seq<Entry>, waiting: seq<Entry>, base: nat, flushed: nat, a: nat)
    requires LogFlow(lc, log, waiting, base, flushed, a) && lc.batch == []
    ensures LogFlow(lc.(batch := lc.queue, queue := [], idle := lc.queue == []), log, waiting, base, flushed, a)
  {
    hide Contexts, JournalOrder.Numbered, Segment, Storable;
    assert lc.batch + lc.queue == lc.queue + [];
  }

  // ----- A new request ---------------------------------------------------------------

  // The queue of the request center behind its first context.
  lemma FirstRequest(rc: RequestCenterState)
    requires rc.batch != []
    ensures rc.batch + rc.queue != [] && (rc.batch + rc.queue)[0] == rc.batch[0]
    ensures (rc.batch + rc.queue)[1..] == rc.batch[1..] + rc.queue
  {}

  lemma AppliedIsDurable(store: Store, applied: seq<LogRecord>, log: seq<Entry>, base: nat, clean: bool, flushed: nat)
    requires StoreOk(store, applied, log, base, clean) && |applied| <= flushed <= |log|
    requires JournalOrder.Numbered(log)
    ensures Kept(Elements(applied), log, flushed)
  {
    hide ApplyAll;
    forall r | r in applied ensures 1 <= r.logId <= flushed && log[r.logId - 1] == r {
      assert r in multiset(applied);
      assert r in log[..|applied|];
    }
  }

  lemma GetCallers(rc: RequestCenterState, lo: nat, blocked: set<nat>, signalled: seq<nat>, posted: nat, r: Request)
    requires Callers(rc, lo, blocked, signalled, posted) && rc.batch != [] && rc.batch[0] == NewContext(r)
    ensures Callers(rc.(batch := rc.batch[1..]), lo, blocked - {r.ticket}, signalled + [r.ticket], posted)
  {
    FirstRequest(rc);
    var taken, rest := TakenTickets(rc.mRequests, lo, rc.mRequestID), NewTickets(rc.batch[1..] + rc.queue);
    assert NewTickets(rc.batch + rc.queue) == [r.ticket] + rest;
    MiddleOut(taken, r.ticket, rest, posted);
    assert forall t :: t in signalled + [r.ticket] <==> t in signalled || t == r.ticket;
  }

  lemma MiddleOut(a: seq<nat>, t: nat, b: seq<nat>, bound: nat)
    requires Increasing(a + ([t] + b), bound)
    ensures Increasing(a + b, bound)
    ensures Elements(a + b) == Elements(a + ([t] + b)) - {t}
    ensures t in Elements(a + ([t] + b)) && t < bound
    ensures |Elements(a + b)| < |Elements(a + ([t] + b))|
  {
    var s := a + ([t] + b);
    var u := a + b;
    assert s[|a|] == t;
    assert forall i :: 0 <= i < |u| ==> u[i] == s[if i < |a| then i else i + 1];
    assert Elements(u) == Elements(s) - {t};
  }

  lemma GetKeeps(st: State, r: Request)
    requires Inv(st) && st.sys.fault.None?
    requires st.sys.requestCenter.batch != [] && st.sys.requestCenter.batch[0] == NewContext(r) && r.opType == OP_GET
    ensures Inv(AfterNew(st, r))
  {
    hide Durable, LogFlow, StoreOk, RequestFlow, Callers, Acceptable, Storable, Lookup, Signalled, FailedFor, NoDup;
    var s, h := st.sys, st.history;
    var a := |h.applied|;
    GetRequestFlow(s.requestCenter, h.log, h.waiting, h.base, h.flushed, a, r);
    GetCallers(s.requestCenter, Greatest(a, h.base) - h.base, h.blocked, h.signalled, h.posted, r);
    FlowFacts(st);
    AppliedIsDurable(s.store, h.applied, h.log, h.base, h.clean, h.flushed);
    var got := Lookup(s.store, r.table, r.key);
    OneSignal(h, Signal(r.ticket, got.0, got.1));
    DurableWithMore(st, AfterNew(st, r), Elements(h.applied));
  }

  lemma GetRequestFlow(rc: RequestCenterState, log: seq<Entry>, waiting: seq<Entry>, base: nat, flushed: nat,
      a: nat, r: Request)
    requires RequestFlow(rc, log, waiting, base, flushed, a)
    requires rc.batch != [] && rc.batch[0] == NewContext(r)
    ensures RequestFlow(rc.(batch := rc.batch[1..]), log, waiting, base, flushed, a)
  {
    hide ReplyChain, RepliesOf, Acceptable, Storable;
    FirstRequest(rc);
    ChainBehindNew(rc.batch + rc.queue, r, Greatest(a, base), flushed, log, base);
  }

  // More may be promised of what is durable.
  lemma DurableWithMore(st: State, st': State, more: set<LogRecord>)
    requires Durable(st) && Kept(more, st.history.log, st.history.flushed)
    requires st'.sys.journal == st.sys.journal && st'.sys.epoch == st.sys.epoch
    requires st'.history.log == st.history.log && st'.history.flushed == st.history.flushed
    requires st'.history.promised == st.history.promised + more && st'.history.answers == st.history.answers
    requires st'.history.clean == st.history.clean
    ensures Durable(st')
  {}

  lemma OneSignal(h: History, signal: Signal)
    ensures Signalled(h, [signal]) == h.(signalled := h.signalled + [signal.ticket],
        blocked := h.blocked - {signal.ticket})
  {
    assert Tickets([signal]) == [signal.ticket];
    assert Elements(Tickets([signal])) == {signal.ticket};
  }

  lemma ChainBehindNew(ctxs: seq<RequestContext>, r: Request, lo: nat, hi: nat, log: seq<Entry>, base: nat)
    requires base <= lo && hi <= |log| && ReplyChain(ctxs, lo, hi, log, base)
    requires ctxs != [] && ctxs[0] == NewContext(r)
    ensures ReplyChain(ctxs[1..], lo, hi, log, base)
  {}

  // What the parts of the invariant say about the numbers in them.
  lemma FlowFacts(st: State)
    requires Flow(st)
    ensures var h := st.history;
            && JournalOrder.Numbered(h.log) && h.base <= h.flushed <= |h.log| && |h.applied| <= h.flushed
            && st.sys.logCenter.mMaxLogId == |h.log| + |h.waiting|
            && st.sys.requestCenter.mRequestID == |h.log| + |h.waiting| - h.base
  {
    var h := st.history;
    assert forall i :: 0 <= i < |h.log| ==> h.log[i] == (h.log + h.waiting)[i];
  }

  lemma WriteRequestFlow(rc: RequestCenterState, log: seq<Entry>, waiting: seq<Entry>, base: nat, flushed: nat,
      a: nat, r: Request)
    requires RequestFlow(rc, log, waiting, base, flushed, a)
    requires rc.batch != [] && rc.batch[0] == NewContext(r) && r.opType != OP_GET && |log| + |waiting| + 1 < UINT32
    ensures rc.mRequestID + 1 !in rc.mRequests
    ensures var id := rc.mRequestID + 1;
            RequestFlow(rc.(batch := rc.batch[1..], mRequestID := id, mRequests := rc.mRequests[id := r]),
                        log, waiting + [RecordFor(r, |log| + |waiting| + 1)], base, flushed, a)
  {
    hide ReplyChain, RepliesOf, Acceptable, Storable;
    FirstRequest(rc);
    ChainBehindNew(rc.batch + rc.queue, r, Greatest(a, base), flushed, log, base);
    var e := RecordFor(r, |log| + |waiting| + 1);
    assert log + (waiting + [e]) == log + waiting + [e];
  }

  lemma WriteLogFlow(lc: LogCenterState, log: seq<Entry>, waiting: seq<Entry>, base: nat, flushed: nat, a: nat,
      r: Request)
    requires LogFlow(lc, log, waiting, base, flushed, a) && r.opType != OP_GET && lc.mMaxLogId + 1 < UINT32
    ensures LogFlow(ReceiveClientRequest(lc, lc.mMaxLogId + 1 - base, r), log,
                    waiting + [RecordFor(r, lc.mMaxLogId + 1)], base, flushed, a)
  {
    hide Segment, Acceptable, Storable, Contexts;
    var e := RecordFor(r, lc.mMaxLogId + 1);
    var rec := log[Least(a, base)..base];
    assert log + (waiting + [e]) == log + waiting + [e];
    ContextsSnoc(rec, waiting, e);
    assert lc.batch + (lc.queue + [WriteContext(e)]) == lc.batch + lc.queue + [WriteContext(e)];
  }

  lemma ContextsSnoc(recovered: seq<Entry>, waiting: seq<Entry>, e: Entry)
    ensures Contexts(recovered, waiting + [e]) == Contexts(recovered, waiting) + [WriteContext(e)]
  {
    hide Storable;
    var x, y := Contexts(recovered, waiting + [e]), Contexts(recovered, waiting) + [WriteContext(e)];
    assert |x| == |y|;
    forall i | 0 <= i < |x| ensures x[i] == y[i] {
      if i >= |recovered| {
        assert x[|recovered| + (i - |recovered|)] == WriteContext((waiting + [e])[i - |recovered|]);
        if i < |recovered| + |waiting| {
          assert y[i] == Contexts(recovered, waiting)[|recovered| + (i - |recovered|)];
        }
      } else {
        assert y[i] == Contexts(recovered, waiting)[i];
      }
    }
  }

  // The request moves from the queued callers to those taken up, in the same place.
  lemma WriteCallers(rc: RequestCenterState, lo: nat, blocked: set<nat>, signalled: seq<nat>, posted: nat, r: Request)
    requires Callers(rc, lo, blocked, signalled, posted) && rc.batch != [] && rc.batch[0] == NewContext(r)
    requires rc.mRequestID + 1 !in rc.mRequests
    ensures var id := rc.mRequestID + 1;
            Callers(rc.(batch := rc.batch[1..], mRequestID := id, mRequests := rc.mRequests[id := r]), lo, blocked,
                signalled, posted)
  {
    hide Acceptable, Storable;
    FirstRequest(rc);
    var id := rc.mRequestID + 1;
    var taken, rest := TakenTickets(rc.mRequests, lo, rc.mRequestID), NewTickets(rc.batch[1..] + rc.queue);
    assert NewTickets(rc.batch + rc.queue) == [r.ticket] + rest;
    assert TakenTickets(rc.mRequests[id := r], lo, id) == taken + [r.ticket];
    assert taken + [r.ticket] + rest == taken + ([r.ticket] + rest);
  }

  lemma NewWriteKeeps(st: State, r: Request)
    requires Inv(st) && st.sys.fault.None?
    requires st.sys.requestCenter.batch != [] && st.sys.requestCenter.batch[0] == NewContext(r)
    requires r.opType != OP_GET && st.sys.logCenter.mMaxLogId + 1 < UINT32
    ensures Inv(AfterNew(st, r))
  {
    hide Durable, Flow, Acceptable, Storable, ReceiveClientRequest, AfterNew, FailedFor, NoDup;
    NewWriteFlow(st, r);
    DurableSame(st, AfterNew(st, r));
  }

  lemma NewWriteFlow(st: State, r: Request)
    requires Flow(st)
    requires st.sys.requestCenter.batch != [] && st.sys.requestCenter.batch[0] == NewContext(r)
    requires r.opType != OP_GET && st.sys.logCenter.mMaxLogId + 1 < UINT32
    ensures Flow(AfterNew(st, r))
    ensures var s, t := st.sys, AfterNew(st, r).sys;
            t.journal == s.journal && t.epoch == s.epoch && t.fault == s.fault
    ensures var h, k := st.history, AfterNew(st, r).history;
            && k.log == h.log && k.flushed == h.flushed && k.promised == h.promised
            && k.answers == h.answers && k.clean == h.clean
  {
    hide LogFlow, StoreOk, RequestFlow, Callers, Acceptable, Storable, ReceiveClientRequest, AfterNew;
    var s, h := st.sys, st.history;
    var a := |h.applied|;
    FlowFacts(st);
    WriteRequestFlow(s.requestCenter, h.log, h.waiting, h.base, h.flushed, a, r);
    WriteLogFlow(s.logCenter, h.log, h.waiting, h.base, h.flushed, a, r);
    WriteCallers(s.requestCenter, Greatest(a, h.base) - h.base, h.blocked, h.signalled, h.posted, r);
    NewWriteState(st, r);
  }

  lemma NewWriteState(st: State, r: Request)
    requires st.sys.requestCenter.batch != [] && r.opType != OP_GET && st.sys.logCenter.mMaxLogId + 1 < UINT32
    requires st.sys.requestCenter.mRequestID + 1 !in st.sys.requestCenter.mRequests
    ensures var s, rc, h := st.sys, st.sys.requestCenter, st.history;
            var id := rc.mRequestID + 1;
            AfterNew(st, r) ==
            State(s.(requestCenter := rc.(batch := rc.batch[1..], mRequestID := id, mRequests := rc.mRequests[id := r]),
                     logCenter := ReceiveClientRequest(s.logCenter, id, r)),
                  h.(waiting := h.waiting + [RecordFor(r, s.logCenter.mMaxLogId + 1)]))
  {
    hide Acceptable, Storable, ReceiveClientRequest;
  }

  // ----- A response ------------------------------------------------------------------

  ghost function Ids(order: seq<Reply>): set<nat> { set i | 0 <= i < |order| :: order[i].id }

  ghost predicate DistinctKnown(requests: map<nat, Request>, order: seq<Reply>) {
    && (forall i :: 0 <= i < |order| ==> order[i].id in requests)
    && (forall i, k :: 0 <= i < k < |order| ==> order[i].id != order[k].id)
  }

  // Answering the first reply leaves the others known.
  lemma FirstReply(s: System, order: seq<Reply>)
    requires s.fault.None? && order != [] && DistinctKnown(s.requestCenter.mRequests, order)
    requires IsWrite(order[0].record.opType)
    ensures var first := HandleReply(s, order[0]);
            var rc := s.requestCenter;
            var rest := HandleKVResponse(first.sys, order[1..]);
            && first.sys == s.(store := Update(s.store, order[0].record).store,
                               requestCenter := rc.(mRequests := rc.mRequests - {order[0].id}))
            && DistinctKnown(first.sys.requestCenter.mRequests, order[1..])
            && HandleKVResponse(s, order) ==
               Handled(rest.sys, [Signal(rc.mRequests[order[0].id].ticket, Update(s.store, order[0].record).err,
                   None)] + rest.signals)
  {
    hide Update, Storable, Acceptable;
  }

  lemma FirstIsWrite(order: seq<Reply>)
    requires order != [] && AllWrites(Records(order))
    ensures IsWrite(order[0].record.opType) && AllWrites(Records(order[1..]))
  {
    assert Records(order)[0] in Records(order);
    forall r | r in Records(order[1..]) ensures r in Records(order) {
      var i :| 0 <= i < |order| - 1 && Records(order[1..])[i] == r;
      assert Records(order)[i + 1] == r;
    }
  }

  lemma RecordsUnfold(store: Store, order: seq<Reply>)
    requires order != []
    ensures Records(order) == [order[0].record] + Records(order[1..])
    ensures var u := Update(store, order[0].record);
            && ApplyAll(store, Records(order)) == ApplyAll(u.store, Records(order[1..]))
            && Answers(store, Records(order)) == [Answer(order[0].record, u.err)] + Answers(u.store,
                Records(order[1..]))
  {
    hide Update, Storable, ApplyAll, Answers;
    assert Records(order) == [order[0].record] + Records(order[1..]);
    OneMore(store, order[0].record, Records(order[1..]));
  }

  // What handling a response does, whatever the order: its records are applied, and each of
  // its requests is forgotten.
  lemma {:induction false} HandleReplies(s: System, order: seq<Reply>)
    requires s.fault.None? && DistinctKnown(s.requestCenter.mRequests, order) && AllWrites(Records(order))
    ensures var rc := s.requestCenter;
            HandleKVResponse(s, order).sys ==
            s.(store := ApplyAll(s.store, Records(order)), requestCenter := rc.(mRequests := rc.mRequests - Ids(order)))
    decreases |order|
  {
    hide Update, Storable, Acceptable, HandleReply, HandleKVResponse, DistinctKnown, ApplyAll, Records;
    var rc := s.requestCenter;
    if order == [] {
      NoReplies(s);
      assert rc.mRequests - Ids(order) == rc.mRequests;
    } else {
      FirstIsWrite(order);
      FirstReply(s, order);
      RecordsUnfold(s.store, order);
      HandleReplies(HandleReply(s, order[0]).sys, order[1..]);
      assert Ids(order) == {order[0].id} + Ids(order[1..]);
      assert rc.mRequests - {order[0].id} - Ids(order[1..]) == rc.mRequests - Ids(order);
    }
  }

  lemma NoReplies(s: System)
    ensures HandleKVResponse(s, []) == Handled(s, []) && ApplyAll(s.store, Records([])) == s.store
  {
    assert Records([]) == [];
  }

  // And each of its callers is signalled, with the error its own record met.
  lemma {:induction false} HandleSignals(s: System, order: seq<Reply>)
    requires s.fault.None? && DistinctKnown(s.requestCenter.mRequests, order) && AllWrites(Records(order))
    ensures var signals := HandleKVResponse(s, order).signals;
            && |signals| == |order|
            && forall i :: 0 <= i < |order| ==>
                 signals[i] == Signal(s.requestCenter.mRequests[order[i].id].ticket, Answers(s.store,
                     Records(order))[i].err, None)
    decreases |order|
  {
    hide Update, Storable, Acceptable, HandleReply, HandleKVResponse, Answers, Records;
    if order == [] {
      NoReplies(s);
    } else {
      FirstIsWrite(order);
      FirstReply(s, order);
      RecordsUnfold(s.store, order);
      HandleSignals(HandleReply(s, order[0]).sys, order[1..]);
    }
  }

  // The records of a response, in whatever order it is gone through.
  ghost predicate OrderOf(order: seq<Reply>, log: seq<Entry>, base: nat, lo: nat, mid: nat)
    requires base <= lo <= mid <= |log|
  {
    && |order| == mid - lo
    && NoDup(order)
    && (forall i :: 0 <= i < |order| ==>
          && lo < order[i].record.logId <= mid
          && order[i].id == order[i].record.logId - base
          && RecordNo(log, order[i].record.logId) == order[i].record)
    && (forall n :: lo < n <= mid ==> Reply(n - base, RecordNo(log, n)) in order)
  }

  lemma EnumeratedOrder(order: seq<Reply>, log: seq<Entry>, base: nat, lo: nat, mid: nat)
    requires base <= lo <= mid <= |log| && JournalOrder.Numbered(log)
    requires Enumerates(order, RepliesOf(log, base, lo, mid))
    ensures OrderOf(order, log, base, lo, mid)
  {
    var replies := RepliesOf(log, base, lo, mid);
    RepliesCount(log, base, lo, mid);
    assert Elements(order) == replies;
    ElementsCount(order);
    forall i | 0 <= i < |order|
      ensures lo < order[i].record.logId <= mid && order[i].id == order[i].record.logId - base
      ensures RecordNo(log, order[i].record.logId) == order[i].record
    {
      assert order[i] in replies;
      var k :| lo <= k < mid && order[i] == Reply(k + 1 - base, log[k]);
    }
    forall n | lo < n <= mid ensures Reply(n - base, RecordNo(log, n)) in order {
      assert Reply(n - 1 + 1 - base, log[n - 1]) in replies;
    }
  }

  lemma SameIdSameReply(x: Reply, y: Reply, log: seq<Entry>, base: nat)
    requires 1 <= x.record.logId <= |log| && x.id == x.record.logId - base && RecordNo(log, x.record.logId) == x.record
    requires 1 <= y.record.logId <= |log| && y.id == y.record.logId - base && RecordNo(log, y.record.logId) == y.record
    ensures x.id == y.id ==> x == y
  {}

  lemma OrderIds(order: seq<Reply>, log: seq<Entry>, base: nat, lo: nat, mid: nat)
    requires base <= lo <= mid <= |log| && OrderOf(order, log, base, lo, mid)
    ensures forall i, k :: 0 <= i < k < |order| ==> order[i].id != order[k].id
    ensures forall id :: id in Ids(order) <==> lo - base < id <= mid - base
  {
    hide Storable;
    forall i, k | 0 <= i < k < |order| ensures order[i].id != order[k].id {
      SameIdSameReply(order[i], order[k], log, base);
    }
    forall id: nat | lo - base < id <= mid - base ensures id in Ids(order) {
      var r := Reply(base + id - base, RecordNo(log, base + id));
      assert r in order;
      var i :| 0 <= i < |order| && order[i] == r;
    }
  }

  lemma OrderRecords(order: seq<Reply>, log: seq<Entry>, base: nat, lo: nat, mid: nat)
    requires base <= lo <= mid <= |log| && OrderOf(order, log, base, lo, mid) && JournalOrder.Numbered(log)
    ensures multiset(Records(order)) == multiset(log[lo..mid])
  {
    hide Storable, OrderOf, JournalOrder.Numbered;
    OrderRecordsDistinct(order, log, base, lo, mid);
    SegmentDistinct(log, lo, mid);
    OrderRecordsMembers(order, log, base, lo, mid);
    SameElements(Records(order), log[lo..mid]);
  }

  lemma OrderRecordsDistinct(order: seq<Reply>, log: seq<Entry>, base: nat, lo: nat, mid: nat)
    requires base <= lo <= mid <= |log| && OrderOf(order, log, base, lo, mid)
    ensures NoDup(Records(order))
  {
    hide Storable;
    OrderIds(order, log, base, lo, mid);
    forall i, k | 0 <= i < k < |order| ensures order[i].record != order[k].record {
      assert order[i].id != order[k].id;
    }
  }

  lemma SegmentDistinct(log: seq<Entry>, lo: nat, mid: nat)
    requires lo <= mid <= |log| && JournalOrder.Numbered(log)
    ensures NoDup(log[lo..mid])
  {
    hide Storable;
    var q := log[lo..mid];
    forall i, k | 0 <= i < k < |q| ensures q[i] != q[k] {
      assert q[i].logId == lo + i + 1 && q[k].logId == lo + k + 1;
    }
  }

  lemma OrderRecordsMembers(order: seq<Reply>, log: seq<Entry>, base: nat, lo: nat, mid: nat)
    requires base <= lo <= mid <= |log| && OrderOf(order, log, base, lo, mid)
    ensures forall x :: x in Records(order) <==> x in log[lo..mid]
  {
    hide Storable;
    var p, q := Records(order), log[lo..mid];
    forall x | x in p ensures x in q {
      var i :| 0 <= i < |p| && p[i] == x;
      assert q[x.logId - 1 - lo] == RecordNo(log, x.logId);
    }
    forall x | x in q ensures x in p {
      var k :| 0 <= k < |q| && q[k] == x;
      var r := Reply(lo + k + 1 - base, RecordNo(log, lo + k + 1));
      assert r in order;
      var i :| 0 <= i < |order| && order[i] == r;
      assert p[i] == x;
    }
  }

  lemma FinishRequestFlow(rc: RequestCenterState, log: seq<Entry>, waiting: seq<Entry>, base: nat, flushed: nat, a: nat,
                          replies: set<Reply>, order: seq<Reply>)
    requires RequestFlow(rc, log, waiting, base, flushed, a) && base <= a && JournalOrder.Numbered(log)
    requires rc.batch != [] && rc.batch[0] == FinishContext(replies) && Enumerates(order, replies)
    ensures var mid := a + |order|;
            && a < mid <= flushed && OrderOf(order, log, base, a, mid)
            && DistinctKnown(rc.mRequests, order)
            && RequestFlow(rc.(batch := rc.batch[1..], mRequests := rc.mRequests - Ids(order)), log, waiting, base,
                flushed, mid)
  {
    hide RepliesOf, Acceptable, Storable, Enumerates;
    FirstRequest(rc);
    var mid := a + |replies|;
    assert |order| == |replies| by { EnumeratesCount(order, replies); }
    ChainForward(rc.batch[1..] + rc.queue, mid, flushed, log, base);
    EnumeratedOrder(order, log, base, a, mid);
    OrderIds(order, log, base, a, mid);
    forall i | 0 <= i < |order| ensures order[i].id in rc.mRequests {
      assert order[i].id in Ids(order);
    }
  }

  lemma EnumeratesCount(order: seq<Reply>, replies: set<Reply>)
    requires Enumerates(order, replies)
    ensures |order| == |replies|
  {}

  lemma FinishStore(store: Store, applied: seq<LogRecord>, log: seq<Entry>, base: nat, clean: bool, order: seq<Reply>)
    requires StoreOk(store, applied, log, base, clean) && base <= |applied| && |applied| + |order| <= |log|
    requires OrderOf(order, log, base, |applied|, |applied| + |order|) && |order| > 0 && JournalOrder.Numbered(log)
    requires AllWrites(Records(order))
    ensures StoreOk(ApplyAll(store, Records(order)), applied + Records(order), log, base,
                    clean && PairwiseCompatible(Records(order)))
  {
    hide ApplyAll, OrderOf, PairwiseCompatible, Records, Storable, JournalOrder.Numbered, AllWrites, StoreOk;
    var a, mid := |applied|, |applied| + |order|;
    var records := Records(order);
    OrderRecords(order, log, base, a, mid);
    StoreParts(store, applied, log, base, clean);
    ApplyAppend(map[], applied, records);
    PrefixAndSegment(log, a, mid);
    SumOfParts(applied, records, log[..a], log[a..mid]);
    WritesTogether(applied, records);
    if clean && PairwiseCompatible(records) {
      SameAsLog(store, log, a, mid, records);
    }
    assert (applied + records)[..base] == applied[..base];
    StoreMade(ApplyAll(store, records), applied + records, log, base, clean && PairwiseCompatible(records));
  }

  // The same, once everything recovered has been applied.
  lemma StoreParts(store: Store, applied: seq<LogRecord>, log: seq<Entry>, base: nat, clean: bool)
    requires StoreOk(store, applied, log, base, clean) && base <= |applied|
    ensures |applied| <= |log| && AllWrites(applied) && store == ApplyAll(map[], applied)
    ensures multiset(applied) == multiset(log[..|applied|]) && applied[..base] == log[..base]
    ensures clean ==> store == ApplyAll(map[], log[..|applied|])
  {
    hide ApplyAll, Storable, AllWrites;
  }

  lemma StoreMade(store: Store, applied: seq<LogRecord>, log: seq<Entry>, base: nat, clean: bool)
    requires base <= |applied| <= |log| && AllWrites(applied) && store == ApplyAll(map[], applied)
    requires multiset(applied) == multiset(log[..|applied|]) && applied[..base] == log[..base]
    requires clean ==> store == ApplyAll(map[], log[..|applied|])
    ensures StoreOk(store, applied, log, base, clean)
  {
    hide ApplyAll, Storable, AllWrites;
  }

  lemma SameAsLog(store: Store, log: seq<Entry>, a: nat, mid: nat, records: seq<LogRecord>)
    requires a <= mid <= |log| && store == ApplyAll(map[], log[..a])
    requires multiset(records) == multiset(log[a..mid]) && PairwiseCompatible(records)
    ensures ApplyAll(store, records) == ApplyAll(map[], log[..mid])
  {
    hide ApplyAll, PairwiseCompatible, Storable, SameOutcome;
    PrefixAndSegment(log, a, mid);
    ApplyAppend(map[], log[..a], log[a..mid]);
    AnyOrder(store, log[a..mid], records);
    SameStores(store, log[a..mid], records);
  }

  lemma PrefixAndSegment(log: seq<Entry>, a: nat, mid: nat)
    requires a <= mid <= |log|
    ensures log[..a] + log[a..mid] == log[..mid]
  {}

  lemma WritesTogether(a: seq<LogRecord>, b: seq<LogRecord>)
    requires AllWrites(a) && AllWrites(b)
    ensures AllWrites(a + b)
  {}

  lemma SumOfParts(a: seq<LogRecord>, b: seq<LogRecord>, c: seq<LogRecord>, d: seq<LogRecord>)
    requires multiset(a) == multiset(c) && multiset(b) == multiset(d)
    ensures multiset(a + b) == multiset(c + d)
  {}

  lemma SameStores(store: Store, p: seq<LogRecord>, q: seq<LogRecord>)
    requires SameOutcome(store, p, q)
    ensures ApplyAll(store, p) == ApplyAll(store, q)
    ensures forall x :: x in Answers(store, q) ==> x in Answers(store, p)
  {
    hide ApplyAll, Answers;
    forall x | x in Answers(store, q) ensures x in Answers(store, p) {
      SameElement(Answers(store, q), Answers(store, p), x);
    }
  }

  lemma FinishAnswers(store: Store, applied: seq<LogRecord>, log: seq<Entry>, base: nat, order: seq<Reply>,
                      answers: set<Answer>, promised: set<LogRecord>)
    requires StoreOk(store, applied, log, base, true) && base <= |applied| && |applied| + |order| <= |log|
    requires OrderOf(order, log, base, |applied|, |applied| + |order|) && JournalOrder.Numbered(log)
    requires PairwiseCompatible(Records(order)) && AnswersAgree(answers, promised, log)
    ensures AnswersAgree(answers + Elements(Answers(store, Records(order))), promised + Elements(Records(order)), log)
  {
    hide ApplyAll, OrderOf, PairwiseCompatible, Storable, SameOutcome, Answers, Records;
    var a, mid := |applied|, |applied| + |order|;
    var segment := log[a..mid];
    OrderRecords(order, log, base, a, mid);
    AnyOrder(store, segment, Records(order));
    SameStores(store, segment, Records(order));
    forall x | x in Answers(store, Records(order))
      ensures x.record in Records(order) && 1 <= x.record.logId <= |log| && Answers(map[], log)[x.record.logId - 1] == x
    {
      assert x in Answers(store, segment);
      AnswerOfLog(log, a, mid, x);
    }
  }

  // An answer of a stretch of the log stands in the answers of the whole log where its
  // record's number says.
  lemma {:induction false} AnswerOfLog(log: seq<Entry>, a: nat, mid: nat, x: Answer)
    requires a <= mid <= |log| && JournalOrder.Numbered(log)
    requires x in Answers(ApplyAll(map[], log[..a]), log[a..mid])
    ensures 1 <= x.record.logId <= |log| && Answers(map[], log)[x.record.logId - 1] == x
  {
    hide ApplyAll, Storable, Answers;
    AnswersOfParts(log, a, mid);
    var part := Answers(ApplyAll(map[], log[..a]), log[a..mid]);
    var i :| 0 <= i < |part| && part[i] == x;
    assert x.record == log[a..mid][i] == log[a + i];
  }

  lemma {:induction false} AnswersOfParts(log: seq<Entry>, a: nat, mid: nat)
    requires a <= mid <= |log|
    ensures var part := Answers(ApplyAll(map[], log[..a]), log[a..mid]);
            && a + |part| <= |Answers(map[], log)|
            && forall i :: 0 <= i < |part| ==> Answers(map[], log)[a + i] == part[i]
  {
    hide ApplyAll, Storable, Answers;
    PrefixAndSegment(log, a, mid);
    ApplyAppend(map[], log[..a], log[a..mid]);
    assert log[..mid] + log[mid..] == log;
    ApplyAppend(map[], log[..mid], log[mid..]);
  }

  // The first `mid - lo` of the requests taken up are answered; theirs are the callers that
  // the signals wake.
  lemma FinishCallers(rc: RequestCenterState, lo: nat, mid: nat, blocked: set<nat>, signalled: seq<nat>, posted: nat,
                      woken: seq<nat>, order: seq<Reply>, replies: set<Reply>)
    requires Callers(rc, lo, blocked, signalled, posted) && lo <= mid <= rc.mRequestID
    requires rc.batch != [] && rc.batch[0] == FinishContext(replies)
    requires |woken| == |order| && DistinctKnown(rc.mRequests, order)
    requires forall i :: 0 <= i < |order| ==> woken[i] == rc.mRequests[order[i].id].ticket
    requires forall id :: id in Ids(order) <==> lo < id <= mid
    ensures Callers(rc.(batch := rc.batch[1..], mRequests := rc.mRequests - Ids(order)), mid,
                    blocked - Elements(woken), signalled + woken, posted)
  {
    hide Acceptable, Storable, NewTickets, TakenTickets, Increasing, NoDup, Ids, DistinctKnown;
    FinishPending(rc, lo, mid, order, replies);
    var news := NewTickets(rc.batch[1..] + rc.queue);
    var first, later := TakenTickets(rc.mRequests, lo, mid), TakenTickets(rc.mRequests, mid, rc.mRequestID);
    SplitIncreasing(first, later + news, posted);
    WokenAre(rc.mRequests, lo, mid, woken, order, posted);
    CallersWoken(first, later + news, woken, blocked, signalled, posted);
  }

  lemma FinishPending(rc: RequestCenterState, lo: nat, mid: nat, order: seq<Reply>, replies: set<Reply>)
    requires lo <= mid <= rc.mRequestID && forall id :: lo < id <= rc.mRequestID ==> id in rc.mRequests
    requires rc.batch != [] && rc.batch[0] == FinishContext(replies)
    requires forall id :: id in Ids(order) <==> lo < id <= mid
    ensures var rc' := rc.(batch := rc.batch[1..], mRequests := rc.mRequests - Ids(order));
            var later := TakenTickets(rc.mRequests, mid, rc.mRequestID);
            && (forall id :: mid < id <= rc.mRequestID ==> id in rc'.mRequests)
            && TakenTickets(rc'.mRequests, mid, rc.mRequestID) == later
            && TakenTickets(rc.mRequests, lo, rc.mRequestID) + NewTickets(rc.batch + rc.queue) ==
               TakenTickets(rc.mRequests, lo, mid) + (later + NewTickets(rc'.batch + rc.queue))
  {
    hide Acceptable, Storable, Ids, TakenTickets, NewTickets;
    TakenInTwo(rc.mRequests, lo, mid, rc.mRequestID);
    TakenBehind(rc.mRequests, Ids(order), mid, rc.mRequestID);
    NoNewTicket(rc, replies);
    ThreeLists(TakenTickets(rc.mRequests, lo, mid), TakenTickets(rc.mRequests, mid, rc.mRequestID),
               NewTickets(rc.batch[1..] + rc.queue));
  }

  lemma NoNewTicket(rc: RequestCenterState, replies: set<Reply>)
    requires rc.batch != [] && rc.batch[0] == FinishContext(replies)
    ensures NewTickets(rc.batch + rc.queue) == NewTickets(rc.batch[1..] + rc.queue)
  {
    hide Acceptable, Storable;
    FirstRequest(rc);
  }

  lemma ThreeLists(a: seq<nat>, b: seq<nat>, c: seq<nat>)
    ensures a + b + c == a + (b + c)
  {}

  lemma TakenBehind(requests: map<nat, Request>, ids: set<nat>, mid: nat, hi: nat)
    requires mid <= hi && forall id :: mid < id <= hi ==> id in requests
    requires forall id :: id in ids ==> id <= mid
    ensures forall id :: mid < id <= hi ==> id in requests - ids
    ensures TakenTickets(requests - ids, mid, hi) == TakenTickets(requests, mid, hi)
  {
    hide Acceptable, Storable;
  }

  lemma TakenInTwo(requests: map<nat, Request>, lo: nat, mid: nat, hi: nat)
    requires lo <= mid <= hi && forall id :: lo < id <= hi ==> id in requests
    ensures TakenTickets(requests, lo, hi) == TakenTickets(requests, lo, mid) + TakenTickets(requests, mid, hi)
  {
    hide Acceptable;
  }

  lemma SplitIncreasing(a: seq<nat>, b: seq<nat>, bound: nat)
    requires Increasing(a + b, bound)
    ensures Increasing(a, bound) && Increasing(b, bound)
    ensures Elements(a) !! Elements(b) && Elements(a + b) == Elements(a) + Elements(b)
  {
    var s := a + b;
    assert forall i :: 0 <= i < |a| ==> s[i] == a[i];
    assert forall i :: 0 <= i < |b| ==> s[|a| + i] == b[i];
    forall i, k | 0 <= i < |a| && 0 <= k < |b| ensures a[i] != b[k] {
      assert s[i] < s[|a| + k];
    }
  }

  lemma WokenAre(requests: map<nat, Request>, lo: nat, mid: nat, woken: seq<nat>, order: seq<Reply>, bound: nat)
    requires lo <= mid && forall id :: lo < id <= mid ==> id in requests
    requires Increasing(TakenTickets(requests, lo, mid), bound)
    requires |woken| == |order| && DistinctKnown(requests, order)
    requires forall i :: 0 <= i < |order| ==> woken[i] == requests[order[i].id].ticket
    requires forall id :: id in Ids(order) <==> lo < id <= mid
    ensures NoDup(woken) && Elements(woken) == Elements(TakenTickets(requests, lo, mid))
  {
    hide Acceptable;
    var first := TakenTickets(requests, lo, mid);
    forall i | 0 <= i < |order| ensures lo < order[i].id <= mid && woken[i] == first[order[i].id - lo - 1] {
      assert order[i].id in Ids(order);
    }
    forall i, k | 0 <= i < k < |order| ensures woken[i] != woken[k] {
      assert order[i].id != order[k].id;
    }
    forall t | t in first ensures t in woken {
      var n :| 0 <= n < |first| && first[n] == t;
      assert lo + 1 + n in Ids(order);
      var i :| 0 <= i < |order| && order[i].id == lo + 1 + n;
      assert woken[i] == t;
    }
  }

  lemma CallersWoken(first: seq<nat>, later: seq<nat>, woken: seq<nat>, blocked: set<nat>, signalled: seq<nat>,
      posted: nat)
    requires Increasing(first, posted) && Elements(first) !! Elements(later)
    requires NoDup(woken) && Elements(woken) == Elements(first)
    requires blocked == Elements(first) + Elements(later)
    requires NoDup(signalled) && forall t :: t in signalled ==> t < posted && t !in blocked
    ensures blocked - Elements(woken) == Elements(later)
    ensures NoDup(signalled + woken)
    ensures forall t :: t in signalled + woken ==> t < posted && t !in blocked - Elements(woken)
  {
    forall t | t in woken ensures t < posted && t !in signalled {
      assert t in Elements(first);
    }
    var both := signalled + woken;
    forall i, k | 0 <= i < k < |both| ensures both[i] != both[k] {
      if i < |signalled| <= k {
        assert both[i] in signalled && both[k] in woken;
      }
    }
  }

  // What a response leaves of the rest of the system.
  lemma {:induction false} ResponseFrame(s: System, order: seq<Reply>)
    ensures var t := HandleKVResponse(s, order).sys;
            && t.journal == s.journal && t.epoch == s.epoch && t.logCenter == s.logCenter
            && t.requestCenter.batch == s.requestCenter.batch && t.requestCenter.queue == s.requestCenter.queue
    decreases |order|
  {
    hide Update, Acceptable, Storable;
    if order != [] && s.fault.None? {
      ResponseFrame(HandleReply(s, order[0]).sys, order[1..]);
    }
  }

  // Going through a response in two parts, if the first does not fail.
  lemma {:induction false} HandleInTwo(s: System, a: seq<Reply>, b: seq<Reply>)
    requires HandleKVResponse(s, a).sys.fault.None? && s.fault.None?
    ensures var first := HandleKVResponse(s, a);
            var second := HandleKVResponse(first.sys, b);
            HandleKVResponse(s, a + b) == Handled(second.sys, first.signals + second.signals)
    decreases |a|
  {
    hide HandleReply, Acceptable, Storable;
    if a == [] {
      assert a + b == b;
      assert [] + HandleKVResponse(s, b).signals == HandleKVResponse(s, b).signals;
    } else {
      var first := HandleReply(s, a[0]);
      FaultStays(first.sys, a[1..]);
      assert (a + b)[1..] == a[1..] + b;
      HandleInTwo(first.sys, a[1..], b);
      var before := HandleKVResponse(first.sys, a[1..]);
      SignalsInThree(first.signals, before.signals, HandleKVResponse(before.sys, b).signals);
    }
  }

  lemma FaultStays(s: System, order: seq<Reply>)
    ensures s.fault.Some? ==> HandleKVResponse(s, order) == Handled(s, [])
  {}

  lemma SignalsInThree(a: seq<Signal>, b: seq<Signal>, c: seq<Signal>)
    ensures a + (b + c) == a + b + c
  {}

  lemma {:induction false} FirstInvalid(order: seq<Reply>) returns (n: nat)
    ensures n <= |order| && AllWrites(Records(order[..n]))
    ensures n < |order| ==> !IsWrite(order[n].record.opType) && !AllWrites(Records(order))
    ensures n == |order| ==> AllWrites(Records(order))
    decreases |order|
  {
    hide Storable;
    n := 0;
    while n < |order| && IsWrite(order[n].record.opType)
      invariant n <= |order| && AllWrites(Records(order[..n]))
    {
      assert Records(order[..n + 1]) == Records(order[..n]) + [order[n].record];
      n := n + 1;
    }
    assert order[..|order|] == order;
    if n < |order| {
      assert Records(order)[n] in Records(order);
    }
  }

  // A response is gone through up to the first record that cannot be applied.
  lemma HandleUpTo(s: System, order: seq<Reply>, n: nat)
    requires s.fault.None? && DistinctKnown(s.requestCenter.mRequests, order) && n < |order|
    requires AllWrites(Records(order[..n])) && !IsWrite(order[n].record.opType)
    ensures var done := HandleKVResponse(s, order);
            && done.sys.fault == Some(InvalidOpType) && |done.signals| == n
            && forall i :: 0 <= i < n ==>
                 done.signals[i] == Signal(s.requestCenter.mRequests[order[i].id].ticket,
                     Answers(s.store, Records(order))[i].err, None)
  {
    hide HandleKVResponse, Acceptable, Storable, Answers, ApplyAll;
    var first, rest := order[..n], order[n..];
    assert Records(order) == Records(first) + Records(rest);
    ApplyAppend(s.store, Records(first), Records(rest));
    assert order == first + rest;
    HandleReplies(s, first);
    HandleSignals(s, first);
    HandleInTwo(s, first, rest);
    var t := HandleKVResponse(s, first).sys;
    StopsThere(t, rest);
  }

  lemma StopsThere(s: System, rest: seq<Reply>)
    requires rest != [] && s.fault.None? && rest[0].id in s.requestCenter.mRequests && !IsWrite(rest[0].record.opType)
    ensures HandleKVResponse(s, rest) == Handled(s.(fault := Some(InvalidOpType)), [])
  {
    hide Acceptable, Storable;
    FaultStays(s.(fault := Some(InvalidOpType)), rest[1..]);
  }

  // A response keeps the invariant, and fails if and only if it holds a record that cannot
  // be applied.
  lemma FinishKeeps(st: State, replies: set<Reply>, order: seq<Reply>)
    requires Inv(st) && st.sys.fault.None?
    requires st.sys.requestCenter.batch != [] && st.sys.requestCenter.batch[0] == FinishContext(replies)
    requires Enumerates(order, replies)
    ensures Inv(AfterFinish(st, order))
    ensures AfterFinish(st, order).sys.fault == if AllWrites(Records(order)) then None else Some(InvalidOpType)
  {
    hide Inv, AfterFinish, Records, Enumerates;
    var n := FirstInvalid(order);
    if n == |order| {
      FinishSucceeds(st, replies, order);
    } else {
      FinishFails(st, replies, order, n);
    }
  }

  ghost function Woken(requests: map<nat, Request>, order: seq<Reply>): (woken: seq<nat>)
    requires DistinctKnown(requests, order)
    ensures |woken| == |order|
    ensures forall i :: 0 <= i < |order| ==> woken[i] == requests[order[i].id].ticket
  {
    seq(|order|, i requires 0 <= i < |order| => requests[order[i].id].ticket)
  }

  // What both cases have in common.
  lemma FinishFacts(st: State, replies: set<Reply>, order: seq<Reply>)
    requires Inv(st) && st.sys.fault.None?
    requires st.sys.requestCenter.batch != [] && st.sys.requestCenter.batch[0] == FinishContext(replies)
    requires Enumerates(order, replies)
    ensures var h, rc := st.history, st.sys.requestCenter;
            var a, mid := |h.applied|, |h.applied| + |order|;
            && Flow(st) && h.base <= a < mid <= h.flushed <= |h.log| && JournalOrder.Numbered(h.log)
            && OrderOf(order, h.log, h.base, a, mid) && DistinctKnown(rc.mRequests, order)
            && var rc' := rc.(batch := rc.batch[1..], mRequests := rc.mRequests - Ids(order));
            && RequestFlow(rc', h.log, h.waiting, h.base, h.flushed, mid)
            && Callers(rc', mid - h.base, h.blocked - Elements(Woken(rc.mRequests, order)),
                       h.signalled + Woken(rc.mRequests, order), h.posted)
  {
    hide Durable, LogFlow, StoreOk, RequestFlow, Callers, Acceptable, Storable, Enumerates, Ids, DistinctKnown,
         OrderOf, Woken;
    var h, rc := st.history, st.sys.requestCenter;
    var a, mid := |h.applied|, |h.applied| + |order|;
    FlowFacts(st);
    NoEarlyResponse(st, replies);
    FinishRequestFlow(rc, h.log, h.waiting, h.base, h.flushed, a, replies, order);
    OrderIds(order, h.log, h.base, a, mid);
    FinishCallers(rc, a - h.base, mid - h.base, h.blocked, h.signalled, h.posted, Woken(rc.mRequests, order),
                  order, replies);
  }

  lemma FinishSucceeds(st: State, replies: set<Reply>, order: seq<Reply>)
    requires Inv(st) && st.sys.fault.None?
    requires st.sys.requestCenter.batch != [] && st.sys.requestCenter.batch[0] == FinishContext(replies)
    requires Enumerates(order, replies) && AllWrites(Records(order))
    ensures Inv(AfterFinish(st, order)) && AfterFinish(st, order).sys.fault.None?
  {
    hide Durable, LogFlow, StoreOk, RequestFlow, Callers, Acceptable, Storable, Enumerates, Records,
         Answers, ApplyAll, HandleKVResponse, PairwiseCompatible, Ids, DistinctKnown, OrderOf, AllWrites;
    var s, h := st.sys, st.history;
    var a, mid := |h.applied|, |h.applied| + |order|;
    FinishFacts(st, replies, order);
    HandleReplies(RequestTaken(s), order);
    HandleSignals(RequestTaken(s), order);
    FinishStore(s.store, h.applied, h.log, h.base, h.clean, order);
    var signals := HandleKVResponse(RequestTaken(s), order).signals;
    assert Tickets(signals) == Woken(s.requestCenter.mRequests, order);
    FinishLogFlow(s.logCenter, h.log, h.waiting, h.base, h.flushed, a, mid);
    assert Records(order)[..|order|] == Records(order);
    FinishDurable(st, order, |order|);
    FewerBlocked(h.blocked, Elements(Tickets(signals)));
  }

  lemma FewerBlocked(blocked: set<nat>, gone: set<nat>)
    ensures |blocked - gone| <= |blocked|
  {
    assert blocked == (blocked - gone) + (blocked * gone);
  }

  lemma FinishFails(st: State, replies: set<Reply>, order: seq<Reply>, n: nat)
    requires Inv(st) && st.sys.fault.None?
    requires st.sys.requestCenter.batch != [] && st.sys.requestCenter.batch[0] == FinishContext(replies)
    requires Enumerates(order, replies)
    requires n < |order| && AllWrites(Records(order[..n])) && !IsWrite(order[n].record.opType)
    ensures Inv(AfterFinish(st, order)) && AfterFinish(st, order).sys.fault == Some(InvalidOpType)
  {
    hide Durable, LogFlow, StoreOk, RequestFlow, Callers, Acceptable, Storable, Enumerates, Records, OrderOf,
         Answers, ApplyAll, HandleKVResponse, PairwiseCompatible, Ids, DistinctKnown, AllWrites, Flow, Poisoned, NoDup;
    var s, h := st.sys, st.history;
    var a := |h.applied|;
    FinishFacts(st, replies, order);
    HandleUpTo(RequestTaken(s), order, n);
    ResponseFrame(RequestTaken(s), order);
    var signals := HandleKVResponse(RequestTaken(s), order).signals;
    var woken := Woken(s.requestCenter.mRequests, order);
    assert Tickets(signals) == woken[..n];
    WokenPrefix(s.requestCenter, order, h, woken, n);
    FinishDurable(st, order, n);
    InvalidInLog(order, n, h.log, h.base, a, a + |order|, h.flushed);
  }

  lemma WokenPrefix(rc: RequestCenterState, order: seq<Reply>, h: History, woken: seq<nat>, n: nat)
    requires n <= |woken|
    requires exists rc', lo, blocked :: Callers(rc', lo, blocked, h.signalled + woken, h.posted)
    ensures NoDup(h.signalled + woken[..n]) && forall t :: t in h.signalled + woken[..n] ==> t < h.posted
  {
    hide NewTickets, TakenTickets, Increasing;
    var all, some := h.signalled + woken, h.signalled + woken[..n];
    assert some == all[..|h.signalled| + n];
    assert forall t :: t in some ==> t in all;
  }

  lemma InvalidInLog(order: seq<Reply>, n: nat, log: seq<Entry>, base: nat, lo: nat, mid: nat, flushed: nat)
    requires base <= lo <= mid <= flushed <= |log| && OrderOf(order, log, base, lo, mid)
    requires n < |order| && !IsWrite(order[n].record.opType)
    ensures Poisoned(log, flushed)
  {
    hide Storable;
    var r := order[n].record;
    assert RecordNo(log, r.logId) == log[r.logId - 1];
  }

  // Responses come only when everything recovered has been applied.
  lemma NoEarlyResponse(st: State, replies: set<Reply>)
    requires Flow(st) && st.sys.requestCenter.batch != [] && st.sys.requestCenter.batch[0] == FinishContext(replies)
    ensures st.history.base <= |st.history.applied|
  {
    hide StoreOk, Callers;
    var h, rc := st.history, st.sys.requestCenter;
    FirstRequest(rc);
    ChainNotOver(rc.batch + rc.queue, replies, Greatest(|h.applied|, h.base), h.flushed, h.log, h.base);
  }

  lemma ChainNotOver(ctxs: seq<RequestContext>, replies: set<Reply>, lo: nat, hi: nat, log: seq<Entry>, base: nat)
    requires base <= lo && hi <= |log| && ReplyChain(ctxs, lo, hi, log, base)
    requires ctxs != [] && ctxs[0] == FinishContext(replies)
    ensures lo < hi
  {
    hide RepliesOf;
  }

  lemma FinishLogFlow(lc: LogCenterState, log: seq<Entry>, waiting: seq<Entry>, base: nat, flushed: nat, a: nat,
      mid: nat)
    requires LogFlow(lc, log, waiting, base, flushed, a) && base <= a <= mid
    ensures LogFlow(lc, log, waiting, base, flushed, mid)
  {
    hide Contexts, Segment;
  }

  lemma FinishDurable(st: State, order: seq<Reply>, n: nat)
    requires Durable(st) && Flow(st) && st.history.base <= |st.history.applied|
    requires st.sys.requestCenter.batch != []
    requires var a := |st.history.applied|;
             && a + |order| <= st.history.flushed <= |st.history.log|
             && OrderOf(order, st.history.log, st.history.base, a, a + |order|)
    requires var done := HandleKVResponse(RequestTaken(st.sys), order);
             && done.sys.journal == st.sys.journal && done.sys.epoch == st.sys.epoch
             && |done.signals| == n <= |order|
    ensures Durable(AfterFinish(st, order))
  {
    hide LogFlow, StoreOk, RequestFlow, Callers, Answers, OnDisk, HandleKVResponse, Storable, AnswersAgree, ApplyAll,
         PairwiseCompatible, OrderOf, Signalled, Records, Kept, JournalOrder.Numbered;
    var h := st.history;
    var a := |h.applied|;
    var records := Records(order);
    FlowFacts(st);
    SignalledOnly(h, HandleKVResponse(RequestTaken(st.sys), order).signals);
    OrderKept(order, h.log, h.base, a, a + |order|, h.flushed);
    KeptSome(h.promised, Elements(records), Elements(records[..n]), h.log, h.flushed);
    if h.clean && PairwiseCompatible(records) {
      FinishAnswers(st.sys.store, h.applied, h.log, h.base, order, h.answers, h.promised);
      SomeAnswers(st.sys.store, records, n, h.answers, h.promised, h.log);
    }
  }

  lemma SomeAnswers(store: Store, records: seq<LogRecord>, n: nat, answers: set<Answer>, promised: set<LogRecord>,
                    log: seq<Entry>)
    requires n <= |records|
    requires AnswersAgree(answers, promised, log)
    requires AnswersAgree(answers + Elements(Answers(store, records)), promised + Elements(records), log)
    ensures AnswersAgree(answers + Elements(Answers(store, records[..n])), promised + Elements(records[..n]), log)
  {
    hide ApplyAll, Storable, Answers;
    AnswersOfSome(store, records, n);
  }

  lemma AnswersOfSome(store: Store, records: seq<LogRecord>, n: nat)
    requires n <= |records|
    ensures forall x :: x in Answers(store, records[..n]) ==> x in Answers(store, records) && x.record in records[..n]
  {
    hide ApplyAll, Answers;
    ApplyAppend(store, records[..n], records[n..]);
    assert records[..n] + records[n..] == records;
  }

  lemma SignalledOnly(h: History, signals: seq<Signal>)
    ensures Signalled(h, signals) == h.(signalled := h.signalled + Tickets(signals),
        blocked := h.blocked - Elements(Tickets(signals)))
  {}

  lemma OrderKept(order: seq<Reply>, log: seq<Entry>, base: nat, lo: nat, mid: nat, flushed: nat)
    requires base <= lo <= mid <= flushed <= |log| && OrderOf(order, log, base, lo, mid)
    ensures Kept(Elements(Records(order)), log, flushed)
  {
    hide Storable;
    forall r | r in Records(order) ensures 1 <= r.logId <= flushed && log[r.logId - 1] == r {
      var i :| 0 <= i < |order| && order[i].record == r;
      assert RecordNo(log, r.logId) == r;
    }
  }

  lemma KeptSome(a: set<LogRecord>, b: set<LogRecord>, some: set<LogRecord>, log: seq<Entry>, flushed: nat)
    requires Kept(a, log, flushed) && Kept(b, log, flushed) && some <= b
    ensures Kept(a + some, log, flushed)
  {}
}
