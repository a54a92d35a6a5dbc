/**
 Nobody is passed over, however many others go on posting: a run whose threads take turns
 often enough has signalled every caller that waited at its beginning.
 */
module CommitFairness {
  import opened Common
  import opened Lists
  import opened RecordFormat
  import opened GroupCommit
  import opened CommitInvariant
  import opened CommitSteps
  import opened CommitLogSteps
  import opened CommitTheorems
  import CommitProgress
  import Journal
  import ApplyOrder
  import DataStore

  predicate RequestTurn(step: Step) {
    step.TakeRequests? || step.HandleRequest?
  }

  predicate LogTurn(step: Step) {
    step.TakeLogs? || step.HandleLog? || step.Idle?
  }

  function RequestTurns(steps: seq<Step>): nat
    decreases |steps|
  {
    if steps == [] then 0 else (if RequestTurn(steps[0]) then 1 else 0) + RequestTurns(steps[1..])
  }

  function LogTurns(steps: seq<Step>): nat
    decreases |steps|
  {
    if steps == [] then 0 else (if LogTurn(steps[0]) then 1 else 0) + LogTurns(steps[1..])
  }

  function Line(st: State): seq<RequestContext> {
    st.sys.requestCenter.batch + st.sys.requestCenter.queue
  }

  // A step of a process that goes on.
  ghost predicate Goes(st: State, step: Step) {
    Inv(st) && st.sys.fault.None? && Enabled(st, step) && !step.CrashAndRestart? && Next(st, step).sys.fault.None?
  }

  // ----- Lines -----------------------------------------------------------------------

  // One turn for each of the first `n` contexts of a line, and one more to take up the batch
  // that the last of them is in.
  function TurnsFor(n: nat, batch: nat): nat {
    n + if n > batch then 1 else 0
  }

  // What a step does to the request center's line.
  lemma LineStep(st: State, step: Step)
    requires Goes(st, step)
    ensures var rc, rc' := st.sys.requestCenter, Next(st, step).sys.requestCenter;
            && (step.HandleRequest? ==> rc.batch != [] && rc'.batch == rc.batch[1..] && rc'.queue == rc.queue)
            && (step.TakeRequests? ==> rc.batch == [] && rc'.batch == rc.queue && rc'.queue == [])
            && (!RequestTurn(step) ==> rc'.batch == rc.batch && |rc.queue| <= |rc'.queue| <= |rc.queue| + 1
                                       && rc'.queue[..|rc.queue|] == rc.queue)
  {
    hide Inv, Acceptable, Storable, HandleKVResponse, Journal.WriteLog, Journal.FlushLog;
    if step.HandleRequest? && st.sys.requestCenter.batch[0].FinishContext? {
      ResponseFrame(RequestTaken(st.sys), step.order);
    }
  }

  lemma LineMoves(st: State, step: Step)
    requires Goes(st, step)
    ensures step.HandleRequest? ==> Line(st) != [] && Line(Next(st, step)) == Line(st)[1..]
    ensures step.TakeRequests? ==> Line(Next(st, step)) == Line(st)
    ensures !RequestTurn(step) ==>
              |Line(st)| <= |Line(Next(st, step))| <= |Line(st)| + 1 && Line(Next(st, step))[..|Line(st)|] == Line(st)
  {
    hide Inv, Enabled, Next, Acceptable, Storable;
    LineStep(st, step);
    var rc, rc' := st.sys.requestCenter, Next(st, step).sys.requestCenter;
    if step.TakeRequests? {
      assert rc.batch + rc.queue == rc.queue + [];
    } else if !RequestTurn(step) {
      assert rc'.queue == rc.queue + rc'.queue[|rc.queue|..];
    }
  }

  // Each context in the line pins a caller, so that it is no longer than there are callers.
  lemma {:induction false} ChainLength(ctxs: seq<RequestContext>, lo: nat, hi: nat, log: seq<Entry>, base: nat)
    requires base <= lo && hi <= |log| && ReplyChain(ctxs, lo, hi, log, base)
    ensures lo <= hi && |ctxs| <= |NewTickets(ctxs)| + (hi - lo)
    decreases |ctxs|
  {
    hide RepliesOf, Acceptable, Storable;
    if ctxs != [] {
      match ctxs[0]
      case NewContext(_) => ChainLength(ctxs[1..], lo, hi, log, base);
      case FinishContext(replies) => ChainLength(ctxs[1..], lo + |replies|, hi, log, base);
    }
  }

  lemma LineLength(st: State)
    requires Flow(st)
    ensures |Line(st)| <= st.history.callers
  {
    hide LogFlow, StoreOk, NewTickets, Acceptable, Storable, ReplyChain;
    var h, rc := st.history, st.sys.requestCenter;
    var low := Greatest(|h.applied|, h.base);
    ChainLength(rc.batch + rc.queue, low, h.flushed, h.log, h.base);
    var pending := TakenTickets(rc.mRequests, low - h.base, rc.mRequestID) + NewTickets(rc.batch + rc.queue);
    IncreasingNoDup(pending, h.posted);
  }

  // ----- A request in the line -------------------------------------------------------

  // How many contexts there are up to the one with this ticket; 0 if there is none.
  function Ahead(ctxs: seq<RequestContext>, t: nat): (n: nat)
    ensures n <= |ctxs|
    decreases |ctxs|
  {
    if ctxs == [] then 0
    else if ctxs[0].NewContext? && ctxs[0].request.ticket == t then 1
    else if Ahead(ctxs[1..], t) == 0 then 0
    else 1 + Ahead(ctxs[1..], t)
  }

  lemma {:induction false} AheadOf(ctxs: seq<RequestContext>, t: nat)
    requires t in NewTickets(ctxs)
    ensures Ahead(ctxs, t) > 0
    decreases |ctxs|
  {
    hide Acceptable, Storable;
    if !(ctxs[0].NewContext? && ctxs[0].request.ticket == t) {
      AheadOf(ctxs[1..], t);
    }
  }

  lemma {:induction false} AheadLonger(ctxs: seq<RequestContext>, longer: seq<RequestContext>, t: nat)
    requires |ctxs| <= |longer| && longer[..|ctxs|] == ctxs && Ahead(ctxs, t) > 0
    ensures Ahead(longer, t) == Ahead(ctxs, t)
    decreases |ctxs|
  {
    hide Acceptable, Storable;
    assert longer[0] == longer[..|ctxs|][0] == ctxs[0];
    if !(ctxs[0].NewContext? && ctxs[0].request.ticket == t) {
      assert longer[1..][..|ctxs| - 1] == ctxs[1..];
      AheadLonger(ctxs[1..], longer[1..], t);
    }
  }

  // A caller's request has been taken up under this number.
  ghost predicate Taken(st: State, t: nat, id: nat) {
    id in st.sys.requestCenter.mRequests && st.sys.requestCenter.mRequests[id].ticket == t
  }

  // Answered, or on the way to the log.
  ghost predicate Settled(st: State, t: nat) {
    t !in st.history.blocked || exists id :: Taken(st, t, id)
  }

  lemma WhereItIs(st: State, t: nat)
    requires Flow(st) && t in st.history.blocked
    ensures t in NewTickets(Line(st)) || exists id :: Taken(st, t, id)
  {
    hide LogFlow, RequestFlow, StoreOk, NewTickets, Increasing, NoDup, Acceptable, Storable;
    var h, rc := st.history, st.sys.requestCenter;
    var lo := Greatest(|h.applied|, h.base) - h.base;
    var taken := TakenTickets(rc.mRequests, lo, rc.mRequestID);
    if t in taken {
      var i :| 0 <= i < |taken| && taken[i] == t;
      assert Taken(st, t, lo + 1 + i);
    }
  }

  lemma StillInLine(st: State, t: nat)
    requires Flow(st) && !Settled(st, t)
    ensures Ahead(Line(st), t) > 0
  {
    hide Flow, Taken, NewTickets;
    WhereItIs(st, t);
    AheadOf(Line(st), t);
  }

  // What is left of a response: its requests are forgotten and their callers signalled.
  lemma FinishDoes(st: State, order: seq<Reply>)
    requires Goes(st, HandleRequest(order)) && st.sys.requestCenter.batch[0].FinishContext?
    ensures var rc, next := st.sys.requestCenter, AfterFinish(st, order);
            && |order| == |rc.batch[0].replies| && st.history.base <= |st.history.applied|
            && DistinctKnown(rc.mRequests, order)
            && next.sys.requestCenter.mRequests == rc.mRequests - Ids(order)
            && |next.history.applied| == |st.history.applied| + |order|
            && next.history.blocked == st.history.blocked - Elements(Woken(rc.mRequests, order))
  {
    hide Inv, Acceptable, Storable, DataStore.Answers, ApplyOrder.AllWrites, HandleKVResponse, OrderOf, DistinctKnown,
         Callers, RequestFlow, Flow, Records, Woken, Ids, DataStore.ApplyAll, ApplyOrder.PairwiseCompatible;
    var rc, s := st.sys.requestCenter, RequestTaken(st.sys);
    FinishFacts(st, rc.batch[0].replies, order);
    FinishKeeps(st, rc.batch[0].replies, order);
    HandleReplies(s, order);
    HandleSignals(s, order);
    assert |Records(order)| == |order|;
    assert Tickets(HandleKVResponse(s, order).signals) == Woken(rc.mRequests, order);
  }

  // A request taken up stays in the table until its caller is signalled.
  lemma TakenStep(st: State, step: Step, t: nat, id: nat)
    requires Goes(st, step) && Taken(st, t, id)
    ensures Taken(Next(st, step), t, id) || t !in Next(st, step).history.blocked
  {
    hide Inv, Acceptable, Storable, HandleKVResponse, Journal.WriteLog, Journal.FlushLog, Woken, AfterFinish;
    if step.HandleRequest? && st.sys.requestCenter.batch[0].FinishContext? {
      FinishDoes(st, step.order);
      var rc := st.sys.requestCenter;
      if id in Ids(step.order) {
        var i :| 0 <= i < |step.order| && step.order[i].id == id;
        assert Woken(rc.mRequests, step.order)[i] == t;
      }
    }
  }

  lemma NotAgain(st: State, step: Step, t: nat)
    requires Goes(st, step) && t !in st.history.blocked && t < st.history.posted
    ensures t !in Next(st, step).history.blocked
  {
    hide Inv, Acceptable, Storable, HandleKVResponse, Journal.WriteLog, Journal.FlushLog;
  }

  lemma PostedGrows(st: State, step: Step)
    requires Goes(st, step)
    ensures st.history.posted <= Next(st, step).history.posted
    ensures Next(st, step).history.base == st.history.base && Next(st, step).history.callers == st.history.callers
  {
    hide Inv, Acceptable, Storable, HandleKVResponse, Journal.WriteLog, Journal.FlushLog;
  }

  lemma SettledStep(st: State, step: Step, t: nat)
    requires Goes(st, step) && Settled(st, t) && t < st.history.posted
    ensures Settled(Next(st, step), t)
  {
    hide Goes, Next, Taken;
    if t !in st.history.blocked {
      NotAgain(st, step, t);
    } else {
      var id :| Taken(st, t, id);
      TakenStep(st, step, t, id);
    }
  }

  // The request that is handled is answered or taken up.
  lemma HandledNow(st: State, t: nat)
    requires Goes(st, HandleRequest([])) && st.sys.requestCenter.batch[0].NewContext?
    requires st.sys.requestCenter.batch[0].request.ticket == t
    ensures Settled(Next(st, HandleRequest([])), t)
  {
    hide Durable, LogFlow, StoreOk, Callers, Acceptable, Storable, ReplyChain, DataStore.Lookup;
    var rc, next := st.sys.requestCenter, Next(st, HandleRequest([]));
    var r := rc.batch[0].request;
    if r.opType == OP_GET {
      var got := DataStore.Lookup(st.sys.store, r.table, r.key);
      OneSignal(st.history, Signal(t, got.0, got.1));
    } else {
      assert Taken(next, t, rc.mRequestID + 1);
    }
  }

  ghost function TicketTurns(st: State, t: nat): nat {
    TurnsFor(Ahead(Line(st), t), |st.sys.requestCenter.batch|)
  }

  // Each turn of the request center brings a request nearer, and nothing puts it back.
  lemma TicketStep(st: State, step: Step, t: nat)
    requires Goes(st, step) && Ahead(Line(st), t) > 0
    ensures || Settled(Next(st, step), t)
            || (&& Ahead(Line(Next(st, step)), t) > 0
                && TicketTurns(Next(st, step), t) + (if RequestTurn(step) then 1 else 0) <= TicketTurns(st, t))
  {
    hide Inv, Next, Ahead, Settled, Acceptable, Storable, Enumerates;
    LineMoves(st, step);
    LineStep(st, step);
    var rc := st.sys.requestCenter;
    if step.HandleRequest? {
      assert Line(st)[0] == rc.batch[0];
      AheadTail(Line(st), t);
      if rc.batch[0].NewContext? && rc.batch[0].request.ticket == t {
        HandledNow(st, t);
      }
    } else if !RequestTurn(step) {
      AheadLonger(Line(st), Line(Next(st, step)), t);
    }
  }

  lemma AheadTail(ctxs: seq<RequestContext>, t: nat)
    requires Ahead(ctxs, t) > 0
    ensures ctxs != []
    ensures !(ctxs[0].NewContext? && ctxs[0].request.ticket == t) ==> Ahead(ctxs, t) == 1 + Ahead(ctxs[1..], t)
    ensures !(ctxs[0].NewContext? && ctxs[0].request.ticket == t) ==> Ahead(ctxs[1..], t) > 0
  {
    hide Acceptable, Storable;
  }

  // A step of a run that does not fail.
  lemma {:induction false} FirstGoes(st: State, steps: seq<Step>, last: State)
    requires Inv(st) && Run(st, steps, last) && NoCrash(steps) && last.sys.fault.None? && steps != []
    ensures Goes(st, steps[0]) && Inv(Next(st, steps[0])) && NoCrash(steps[1..])
    decreases |steps|
  {
    hide Inv, Next;
    assert steps[0] in steps;
    StepKeeps(st, steps[0]);
    if |steps| > 1 {
      assert steps[1] in steps;
      assert Enabled(Next(st, steps[0]), steps[1..][0]);
    }
  }

  // In the end every request of the line is answered or taken up.
  lemma {:induction false} RequestsTakenUp(st: State, steps: seq<Step>, last: State, t: nat)
    requires Inv(st) && Run(st, steps, last) && NoCrash(steps) && last.sys.fault.None?
    requires t < st.history.posted
    requires
      || Settled(st, t)
      || (Ahead(Line(st), t) > 0 && (RequestTurns(steps) >= TicketTurns(st, t) || Line(last) == []))
    ensures Settled(last, t)
    decreases |steps|
  {
    hide Inv, Goes, Enabled, Next, Settled, Ahead;
    if steps != [] {
      FirstGoes(st, steps, last);
      PostedGrows(st, steps[0]);
      if Settled(st, t) {
        SettledStep(st, steps[0], t);
      } else {
        TicketStep(st, steps[0], t);
      }
      RequestsTakenUp(Next(st, steps[0]), steps[1..], last, t);
    }
  }

  // ----- A record on its way to the disk ---------------------------------------------

  // The log center's turns until record `n` is flushed: through its line, and then to where
  // the queue is next found empty.  Before that it can append no more records than there are
  // callers.
  ghost function FlushTurns(st: State, n: nat): nat {
    var lc, h := st.sys.logCenter, st.history;
    if n <= h.flushed then 0
    else if n <= |h.log| then
      2 * (h.callers - Least(|h.log| - h.flushed, h.callers)) +
      (if lc.idle then 1 else if lc.batch != [] then 2 else 3)
    else
      TurnsFor(h.base - Least(|h.applied|, h.base) + n - |h.log|, |lc.batch|) +
      (if lc.idle then 1 else 0) + 2 * h.callers + 3
  }

  // What the numbers in the parts of a state are.
  lemma LogFacts(st: State)
    requires Flow(st)
    ensures var h, lc := st.history, st.sys.logCenter;
            && |lc.batch| + |lc.queue| == h.base - Least(|h.applied|, h.base) + |h.waiting|
            && |lc.mToFlushLog| == |h.log| - h.flushed && h.flushed <= |h.log|
            && |h.log| - h.flushed <= h.callers
            && (|h.log| > h.base ==> h.base <= |h.applied|) && h.base <= h.flushed
            && |h.waiting| <= h.callers && (lc.idle ==> lc.batch == [])
  {
    hide RequestFlow, StoreOk, Callers, Storable, Acceptable, Contexts;
    var h, lc := st.history, st.sys.logCenter;
    SegmentCount(h.log, h.flushed, |h.log|);
    PendingBounded(st);
    LowFlushed(st);
    assert |lc.batch + lc.queue| == |Contexts(h.log[Least(|h.applied|, h.base)..h.base], h.waiting)|;
  }

  lemma FlushTurnsBounded(st: State, n: nat)
    requires Flow(st) && n <= |st.history.log| + |st.history.waiting|
    ensures FlushTurns(st, n) <= st.history.base + 3 * st.history.callers + 5
  {
    hide Flow;
    LogFacts(st);
  }

  // What a step does to the log center and the numbers of the log.
  lemma LogStep(st: State, step: Step)
    requires Goes(st, step)
    ensures var h, k, lc, lc' := st.history, Next(st, step).history, st.sys.logCenter, Next(st, step).sys.logCenter;
            && k.base == h.base && k.callers == h.callers
            && (!LogTurn(step) ==>
                  && lc'.batch == lc.batch && lc'.idle == lc.idle && k.log == h.log && k.flushed == h.flushed
                  && (k.applied == h.applied || (h.base <= |h.applied| <= |k.applied|)))
            && (step.TakeLogs? ==>
                  && lc.batch == [] && !lc.idle && lc'.batch == lc.queue && lc'.idle == (lc.queue == [])
                  && k == h)
            && (step.Idle? ==>
                  && lc.idle && lc'.batch == lc.batch && !lc'.idle && k.log == h.log && k.applied == h.applied
                  && k.flushed == if |lc.mToFlushLog| == 0 then h.flushed else |h.log|)
            && (step.HandleLog? ==>
                  && lc.batch != [] && lc'.batch == lc.batch[1..] && lc'.idle == lc.idle && k.flushed == h.flushed
                  && (|| (|k.log| == |h.log| + 1 && k.applied == h.applied && h.base <= |h.applied|)
                      || (k.log == h.log && |k.applied| == |h.applied| + 1 && |h.applied| < h.base)))
  {
    hide Durable, LogFlow, RequestFlow, StoreOk, Callers, Acceptable, Storable, HandleKVResponse, Journal.WriteLog,
         Journal.FlushLog, DataStore.Update, AfterFinish;
    var h, lc := st.history, st.sys.logCenter;
    if step.HandleRequest? && st.sys.requestCenter.batch[0].FinishContext? {
      FinishDoes(st, step.order);
      FinishFrame(st, step.order);
    } else if step.HandleLog? {
      match lc.batch[0] {
        case RecoverContext(r) => RecoverNext(lc, h.log, h.waiting, h.base, h.flushed, |h.applied|, r);
        case WriteContext(r) => WriteNext(lc, h.log, h.waiting, h.base, h.flushed, |h.applied|, r);
      }
    }
  }

  lemma FinishFrame(st: State, order: seq<Reply>)
    requires st.sys.requestCenter.batch != []
    ensures var h, k := st.history, AfterFinish(st, order).history;
            && k.base == h.base && k.callers == h.callers && k.log == h.log && k.flushed == h.flushed
            && k.waiting == h.waiting
    ensures AfterFinish(st, order).sys.logCenter == st.sys.logCenter
  {
    hide Acceptable, Storable, HandleKVResponse;
    ResponseFrame(RequestTaken(st.sys), order);
  }

  // Each turn of the log center brings the flush nearer, and nothing puts it off.
  lemma FlushStep(st: State, step: Step, n: nat)
    requires Goes(st, step) && Inv(Next(st, step))
    requires st.history.base < n <= |st.history.log| + |st.history.waiting|
    ensures var next := Next(st, step);
            && n <= |next.history.log| + |next.history.waiting|
            && FlushTurns(next, n) + (if LogTurn(step) && FlushTurns(st, n) > 0 then 1 else 0) <= FlushTurns(st, n)
  {
    hide Durable, Flow, Next, Acceptable, Storable;
    LogFacts(st);
    LogFacts(Next(st, step));
    LogStep(st, step);
    AllGrows(st, step);
  }

  lemma AllGrows(st: State, step: Step)
    requires Goes(st, step)
    ensures var h, k := st.history, Next(st, step).history;
            |h.log| + |h.waiting| <= |k.log| + |k.waiting|
  {
    hide Inv, Acceptable, Storable, HandleKVResponse, Journal.WriteLog, Journal.FlushLog;
  }

  lemma {:induction false} RecordsFlushed(st: State, steps: seq<Step>, last: State, n: nat)
    requires Inv(st) && Run(st, steps, last) && NoCrash(steps) && last.sys.fault.None?
    requires st.history.base < n <= |st.history.log| + |st.history.waiting|
    requires LogTurns(steps) >= FlushTurns(st, n)
    ensures n <= last.history.flushed && last.history.base == st.history.base
    decreases |steps|
  {
    hide Inv, Goes, Enabled, Next, FlushTurns;
    if steps == [] {
      NoTurnsLeft(st, n);
    } else {
      FirstGoes(st, steps, last);
      PostedGrows(st, steps[0]);
      FlushStep(st, steps[0], n);
      RecordsFlushed(Next(st, steps[0]), steps[1..], last, n);
    }
  }

  lemma NoTurnsLeft(st: State, n: nat)
    requires FlushTurns(st, n) == 0
    ensures n <= st.history.flushed
  {}

  // ----- A response on its way back --------------------------------------------------

  // How many contexts there are up to the response with record `n`.
  function AheadReply(ctxs: seq<RequestContext>, lo: nat, n: nat): (count: nat)
    ensures count <= |ctxs|
    decreases |ctxs|
  {
    if n <= lo || ctxs == [] then 0 else 1 + AheadReply(ctxs[1..], lo + Size(ctxs[0]), n)
  }

  function Size(ctx: RequestContext): nat {
    if ctx.FinishContext? then |ctx.replies| else 0
  }

  lemma {:induction false} AheadReplyLonger(ctxs: seq<RequestContext>, longer: seq<RequestContext>, lo: nat, hi: nat,
      log: seq<Entry>, base: nat, n: nat)
    requires base <= lo && hi <= |log| && ReplyChain(ctxs, lo, hi, log, base) && n <= hi
    requires |ctxs| <= |longer| && longer[..|ctxs|] == ctxs
    ensures AheadReply(longer, lo, n) == AheadReply(ctxs, lo, n)
    decreases |ctxs|
  {
    hide RepliesOf, Acceptable, Storable;
    if n > lo {
      assert longer[0] == longer[..|ctxs|][0] == ctxs[0];
      assert longer[1..][..|ctxs| - 1] == ctxs[1..];
      AheadReplyLonger(ctxs[1..], longer[1..], lo + Size(ctxs[0]), hi, log, base, n);
    }
  }

  ghost function Low(st: State): nat {
    Greatest(|st.history.applied|, st.history.base)
  }

  ghost function ReplyTurns(st: State, n: nat): nat {
    TurnsFor(AheadReply(Line(st), Low(st), n), |st.sys.requestCenter.batch|)
  }

  lemma ChainOf(st: State)
    requires Flow(st)
    ensures var h := st.history;
            h.base <= Low(st) && h.flushed <= |h.log| && ReplyChain(Line(st), Low(st), h.flushed, h.log, h.base)
  {
    hide LogFlow, StoreOk, Callers, ReplyChain, Acceptable, Storable;
  }

  // Which records are done with.
  lemma LowStep(st: State, step: Step)
    requires Goes(st, step)
    ensures Low(Next(st, step)) == Low(st) + if step.HandleRequest? then Size(st.sys.requestCenter.batch[0]) else 0
    ensures st.history.flushed <= Next(st, step).history.flushed
  {
    hide Durable, Flow, Next, Acceptable, Storable;
    LogFacts(st);
    LogStep(st, step);
    if step.HandleRequest? {
      HandledSize(st, step.order);
    } else if !step.HandleLog? {
      AppliedElsewhere(st, step);
    }
  }

  lemma HandledSize(st: State, order: seq<Reply>)
    requires Goes(st, HandleRequest(order))
    ensures var next, ctx := Next(st, HandleRequest(order)), st.sys.requestCenter.batch[0];
            && (ctx.NewContext? ==> next.history.applied == st.history.applied)
            && (ctx.FinishContext? ==>
                  st.history.base <= |st.history.applied| && |next.history.applied| == |st.history.applied| + Size(ctx))
            && next.history.base == st.history.base
  {
    hide Inv, Acceptable, Storable, HandleKVResponse, AfterFinish;
    if st.sys.requestCenter.batch[0].FinishContext? {
      FinishDoes(st, order);
      FinishFrame(st, order);
    }
  }

  lemma AppliedElsewhere(st: State, step: Step)
    requires Goes(st, step) && !step.HandleRequest? && !step.HandleLog?
    ensures Next(st, step).history.applied == st.history.applied
  {
    hide Inv, Acceptable, Storable, Journal.FlushLog;
  }

  // Each turn of the request center brings a response nearer, and nothing puts it back.
  lemma ReplyStep(st: State, step: Step, n: nat)
    requires Goes(st, step) && n <= st.history.flushed
    ensures n <= Next(st, step).history.flushed
    ensures ReplyTurns(Next(st, step), n) + (if RequestTurn(step) && ReplyTurns(st, n) > 0 then 1 else 0)
            <= ReplyTurns(st, n)
  {
    hide Durable, Flow, Next, AheadReply, Acceptable, Storable, Enumerates, Low;
    LineMoves(st, step);
    LineStep(st, step);
    LowStep(st, step);
    ChainOf(st);
    var h, rc := st.history, st.sys.requestCenter;
    if step.HandleRequest? {
      assert Line(st)[0] == rc.batch[0];
      AheadReplyTail(Line(st), Low(st), n);
    } else if !RequestTurn(step) {
      AheadReplyLonger(Line(st), Line(Next(st, step)), Low(st), h.flushed, h.log, h.base, n);
    }
  }

  lemma AheadReplyTail(ctxs: seq<RequestContext>, lo: nat, n: nat)
    requires ctxs != []
    ensures n > lo ==> AheadReply(ctxs, lo, n) == 1 + AheadReply(ctxs[1..], lo + Size(ctxs[0]), n)
    ensures n <= lo ==> AheadReply(ctxs, lo, n) == AheadReply(ctxs[1..], lo + Size(ctxs[0]), n) == 0
  {}

  lemma SomeAhead(ctxs: seq<RequestContext>, lo: nat, hi: nat, log: seq<Entry>, base: nat, n: nat)
    requires base <= lo && hi <= |log| && ReplyChain(ctxs, lo, hi, log, base) && lo < n <= hi
    ensures AheadReply(ctxs, lo, n) > 0
  {
    hide RepliesOf;
  }

  // A request in the table is one whose record is still to be applied.
  lemma TakenIsPending(st: State, t: nat, id: nat)
    requires Flow(st) && Taken(st, t, id)
    ensures Low(st) < st.history.base + id <= |st.history.log| + |st.history.waiting|
  {
    hide LogFlow, StoreOk, Callers, ReplyChain, Acceptable, Storable;
  }

  lemma StillAhead(st: State, t: nat, id: nat)
    requires Flow(st) && Taken(st, t, id) && st.history.base + id <= st.history.flushed
    ensures ReplyTurns(st, st.history.base + id) > 0 && Line(st) != []
  {
    hide Flow, Taken, ReplyChain, Low, AheadReply;
    var h := st.history;
    TakenIsPending(st, t, id);
    ChainOf(st);
    SomeAhead(Line(st), Low(st), h.flushed, h.log, h.base, h.base + id);
  }

  lemma {:induction false} RequestsAnswered(st: State, steps: seq<Step>, last: State, t: nat, id: nat)
    requires Inv(st) && Run(st, steps, last) && NoCrash(steps) && last.sys.fault.None?
    requires t < st.history.posted && (Taken(st, t, id) || t !in st.history.blocked)
    requires st.history.base + id <= st.history.flushed
    requires RequestTurns(steps) >= ReplyTurns(st, st.history.base + id) || Line(last) == []
    ensures t !in last.history.blocked
    decreases |steps|
  {
    hide Inv, Goes, Enabled, Next, Taken, ReplyTurns, Line, Flow;
    if steps == [] {
      if t in st.history.blocked {
        FlowWhenGood(st);
        StillAhead(st, t, id);
      }
    } else {
      FirstGoes(st, steps, last);
      PostedGrows(st, steps[0]);
      ReplyStep(st, steps[0], st.history.base + id);
      if Taken(st, t, id) {
        TakenStep(st, steps[0], t, id);
      } else {
        NotAgain(st, steps[0], t);
      }
      RequestsAnswered(Next(st, steps[0]), steps[1..], last, t, id);
    }
  }

  // ----- Nobody is passed over -------------------------------------------------------

  lemma StartsSound(st: State, steps: seq<Step>, last: State)
    requires Run(st, steps, last) && NoCrash(steps) && last.sys.fault.None?
    ensures st.sys.fault.None?
  {
    hide Next;
    if steps != [] {
      assert steps[0] in steps;
    }
  }

  lemma NobodyForgotten(st: State, step: Step)
    requires Enabled(st, step) && !step.CrashAndRestart?
    ensures st.history.blocked <= Next(st, step).history.blocked + Elements(Next(st, step).history.signalled)
    ensures Elements(st.history.signalled) <= Elements(Next(st, step).history.signalled)
    ensures st.history.posted <= Next(st, step).history.posted
  {
    hide Acceptable, Storable, Journal.WriteLog, Journal.FlushLog, HandleKVResponse, Booted;
  }

  lemma {:induction false} WhoWaitsIsKept(st: State, steps: seq<Step>, last: State)
    requires Run(st, steps, last) && NoCrash(steps)
    ensures st.history.blocked <= last.history.blocked + Elements(last.history.signalled)
    ensures Elements(st.history.signalled) <= Elements(last.history.signalled)
    ensures st.history.posted <= last.history.posted
    decreases |steps|
  {
    hide Enabled, Next;
    if steps != [] {
      assert steps[0] in steps;
      NobodyForgotten(st, steps[0]);
      WhoWaitsIsKept(Next(st, steps[0]), steps[1..], last);
    }
  }

  // The request center has taken a turn for every caller, and one more, or has nothing left to
  // do.
  ghost predicate RequestsServed(steps: seq<Step>, last: State, callers: nat) {
    NoCrash(steps) && (RequestTurns(steps) >= callers + 1 || Line(last) == [])
  }

  // The log center can always take a turn, and the request center when its line is not empty
  // and there is a log id left.
  lemma CanTurn(st: State)
    requires Inv(st) && st.sys.fault.None?
    ensures exists step :: LogTurn(step) && Enabled(st, step)
    ensures Line(st) != [] && st.sys.logCenter.mMaxLogId + 1 < UINT32 ==>
              exists step :: RequestTurn(step) && Enabled(st, step)
  {
    hide Inv, Flow, Acceptable, Storable, Enumerates;
    FlowWhenGood(st);
    LogFacts(st);
    var lc, rc := st.sys.logCenter, st.sys.requestCenter;
    var turn := if lc.batch != [] then HandleLog else if lc.idle then Idle else TakeLogs;
    assert LogTurn(turn) && Enabled(st, turn);
    if Line(st) != [] && lc.mMaxLogId + 1 < UINT32 {
      if rc.batch == [] {
        assert Enabled(st, TakeRequests);
      } else if rc.batch[0].NewContext? {
        assert Enabled(st, HandleRequest([]));
      } else {
        var order := CommitProgress.Enumeration(rc.batch[0].replies);
        assert Enabled(st, HandleRequest(order));
      }
    }
  }

  // The log center has taken so many turns.
  ghost predicate LogServed(steps: seq<Step>, callers: nat, base: nat) {
    NoCrash(steps) && LogTurns(steps) >= base + 3 * callers + 5
  }

  lemma FlowWhenGood(st: State)
    requires Inv(st) && st.sys.fault.None?
    ensures Flow(st)
  {
    hide Durable, Flow;
  }

  lemma BlockedPosted(st: State, t: nat)
    requires Flow(st) && t in st.history.blocked
    ensures t < st.history.posted
  {
    hide LogFlow, RequestFlow, StoreOk, NewTickets, TakenTickets, Acceptable, Storable;
  }

  lemma TakingUp(st: State, steps: seq<Step>, last: State, t: nat)
    requires Inv(st) && t in st.history.blocked && Run(st, steps, last) && last.sys.fault.None?
    requires RequestsServed(steps, last, st.history.callers)
    ensures Settled(last, t)
  {
    hide Inv, Run, NoCrash, Settled, Flow, Ahead;
    StartsSound(st, steps, last);
    FlowWhenGood(st);
    BlockedPosted(st, t);
    LineLength(st);
    if !Settled(st, t) {
      StillInLine(st, t);
    }
    RequestsTakenUp(st, steps, last, t);
  }

  lemma Flushing(st: State, steps: seq<Step>, last: State, t: nat, id: nat)
    requires Inv(st) && Taken(st, t, id) && Run(st, steps, last) && last.sys.fault.None?
    requires LogServed(steps, st.history.callers, st.history.base)
    ensures st.history.base + id <= last.history.flushed && last.history.base == st.history.base
  {
    hide Inv, Run, NoCrash, Flow, Taken, FlushTurns, Low;
    StartsSound(st, steps, last);
    FlowWhenGood(st);
    TakenIsPending(st, t, id);
    FlushTurnsBounded(st, st.history.base + id);
    AtLeastBase(st);
    RecordsFlushed(st, steps, last, st.history.base + id);
  }

  lemma AtLeastBase(st: State)
    ensures Low(st) >= st.history.base
  {}

  lemma Answering(st: State, steps: seq<Step>, last: State, t: nat, id: nat)
    requires Inv(st) && Run(st, steps, last) && last.sys.fault.None? && RequestsServed(steps, last, st.history.callers)
    requires t < st.history.posted && (Taken(st, t, id) || t !in st.history.blocked)
    requires st.history.base + id <= st.history.flushed
    ensures t !in last.history.blocked
  {
    hide Inv, Run, NoCrash, Flow, Taken, AheadReply;
    StartsSound(st, steps, last);
    FlowWhenGood(st);
    LineLength(st);
    RequestsAnswered(st, steps, last, t, id);
  }

  // A request taken up stays so until its caller is signalled, and that is for good.
  lemma {:induction false} StaysTaken(st: State, steps: seq<Step>, last: State, t: nat, id: nat)
    requires Inv(st) && Run(st, steps, last) && NoCrash(steps) && last.sys.fault.None? && t < st.history.posted
    requires Taken(st, t, id) || t !in st.history.blocked
    ensures Taken(last, t, id) || t !in last.history.blocked
    ensures t !in st.history.blocked ==> t !in last.history.blocked
    decreases |steps|
  {
    hide Inv, Goes, Enabled, Next, Taken;
    if steps != [] {
      FirstGoes(st, steps, last);
      PostedGrows(st, steps[0]);
      if t !in st.history.blocked {
        NotAgain(st, steps[0], t);
      } else {
        TakenStep(st, steps[0], t, id);
      }
      StaysTaken(Next(st, steps[0]), steps[1..], last, t, id);
    }
  }

  // Whatever others post meanwhile: a caller that waits has been signalled when the request
  // center, the log center and the request center again have been served, in this order.
  lemma NobodyPassedOver(st: State, taking: seq<Step>, taken: State, flushing: seq<Step>, flushed: State,
      answering: seq<Step>, last: State, t: nat)
    requires Reachable(st) && t in st.history.blocked && last.sys.fault.None?
    requires Run(st, taking, taken) && RequestsServed(taking, taken, st.history.callers)
    requires Run(taken, flushing, flushed) && LogServed(flushing, st.history.callers, st.history.base)
    requires Run(flushed, answering, last) && RequestsServed(answering, last, st.history.callers)
    ensures t in last.history.signalled && t !in last.history.blocked
  {
    hide Reachable, Run, Inv, Taken, RequestTurns, LogTurns, NoCrash, Flow;
    ReachableInv(st);
    StartsSound(flushed, answering, last);
    StartsSound(taken, flushing, flushed);
    StartsSound(st, taking, taken);
    RunKeeps(st, taking, taken);
    RunKeeps(taken, flushing, flushed);
    RunKeeps(flushed, answering, last);
    WhoWaitsIsKept(st, taking, taken);
    WhoWaitsIsKept(taken, flushing, flushed);
    WhoWaitsIsKept(flushed, answering, last);
    SameProcess(st, taking, taken);
    FlowWhenGood(st);
    BlockedPosted(st, t);
    TakingUp(st, taking, taken, t);
    if t in taken.history.blocked {
      var id :| Taken(taken, t, id);
      StaysTaken(taken, flushing, flushed, t, id);
      Flushing(taken, flushing, flushed, t, id);
      Answering(flushed, answering, last, t, id);
    } else {
      StaysTaken(taken, flushing, flushed, t, 0);
      StaysTaken(flushed, answering, last, t, 0);
    }
  }
}
