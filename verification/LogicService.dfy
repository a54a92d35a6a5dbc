/**
 The worker that every service is: contexts are enqueued by any thread, taken over in
 batches and processed, and each is freed when its last user lets go of it.
 */
module LogicService {
  import opened Common
  import opened Lists

  // A context with its reference counter; freed objects may not be touched.
  class OperContext {
    var mRef: int
    var freed: bool

    constructor ()
      ensures mRef == 1 && !freed
    {
      mRef, freed := 1, false;
    }

    static method IncRef(ctx: OperContext)
      requires !ctx.freed && ctx.mRef > 0
      modifies ctx
      ensures ctx.mRef == old(ctx.mRef) + 1 && !ctx.freed
    {
      ctx.mRef := ctx.mRef + 1;
    }

    static method DecRef(ctx: OperContext)
      requires !ctx.freed && ctx.mRef > 0
      modifies ctx
      ensures ctx.mRef == old(ctx.mRef) - 1 && ctx.freed == (ctx.mRef == 0)
    {
      ctx.mRef := ctx.mRef - 1;
      if ctx.mRef <= 0 {
        ctx.freed := true;
      }
    }
  }

  // ----- One worker and any number of producers --------------------------------------

  // Contexts are numbered as they are made.  `held`: the producer has not let go yet.
  datatype Worker = Worker(
    queue: seq<nat>, batch: seq<nat>, current: Option<nat>, idle: bool,
    refs: map<nat, int>, held: set<nat>,
    made: nat, enqueued: seq<nat>, processed: seq<nat>, freed: seq<nat>, idled: seq<nat>)

  const STARTED := Worker([], [], None, false, map[], {}, 0, [], [], [], [])

  datatype Step =
    | Enqueue             // a producer makes a context and enqueues it
    | LetGo(ctx: nat)     // the producer's DecRef
    | TakeBatch
    | Process             // the next context of the batch
    | Release             // the worker's DecRef
    | Idle

  function Refs(w: Worker, ctx: nat): int {
    if ctx in w.refs then w.refs[ctx] else 0
  }

  function DecRef(w: Worker, ctx: nat): Worker {
    var n := Refs(w, ctx) - 1;
    w.(refs := w.refs[ctx := n], freed := if n <= 0 then w.freed + [ctx] else w.freed)
  }

  predicate Enabled(w: Worker, step: Step) {
    match step
    case Enqueue => true
    case LetGo(ctx) => ctx in w.held
    case TakeBatch => w.batch == [] && w.current.None? && !w.idle
    case Process => w.batch != [] && w.current.None?
    case Release => w.current.Some?
    case Idle => w.idle
  }

  ghost predicate Live(w: Worker, ctx: nat) {
    Refs(w, ctx) > 0 && ctx !in w.freed
  }

  // The contexts a step looks at or counts down; it must not be freed yet.
  ghost predicate Touches(w: Worker, step: Step, ctx: nat) {
    match step
    case LetGo(c) => ctx == c
    case Process => w.batch != [] && ctx == w.batch[0]
    case Release => w.current == Some(ctx)
    case _ => false
  }

  // LogicService::Enqueue and the loop of LogicService::Run, cut into its atomic parts.
  function Next(w: Worker, step: Step): Worker
    requires Enabled(w, step)
  {
    match step
    case Enqueue =>
      var c := w.made;
      w.(made := c + 1, refs := w.refs[c := 2], held := w.held + {c}, queue := w.queue + [c],
          enqueued := w.enqueued + [c])
    case LetGo(c) => DecRef(w, c).(held := w.held - {c})
    case TakeBatch => w.(batch := w.queue, queue := [], idle := w.queue == [])
    case Process => w.(batch := w.batch[1..], current := Some(w.batch[0]), processed := w.processed + [w.batch[0]])
    case Release => DecRef(w, w.current.value).(current := None)
    case Idle => w.(idle := false, idled := w.processed)
  }

  ghost function Counted(w: Worker, c: nat): int {
    (if c in w.held then 1 else 0) + (if c in w.batch + w.queue || w.current == Some(c) then 1 else 0)
  }

  // First in, first out: what is enqueued is processed, in the batch, or in the queue, in
  // this order.  A counter is the number of users left; freed is what has none.
  ghost predicate Inv(w: Worker) {
    && w.processed + (w.batch + w.queue) == w.enqueued
    && |w.enqueued| == w.made && (forall i :: 0 <= i < w.made ==> w.enqueued[i] == i)
    && (w.current.Some? ==> w.processed != [] && w.current.value == w.processed[|w.processed| - 1])
    && (forall c: nat :: c in w.refs <==> c < w.made)
    && (forall c :: c in w.held ==> c < w.made)
    && (forall c: nat :: c < w.made ==> Refs(w, c) == Counted(w, c))
    && NoDup(w.freed)
    && (forall c: nat :: c in w.freed <==> c < w.made && Refs(w, c) == 0)
    && (w.idle ==> w.batch == [] && w.current.None?)
  }

  // Every context is in one place of the line.
  lemma Line(w: Worker)
    requires Inv(w)
    ensures forall c: nat :: c in w.batch + w.queue <==> |w.processed| <= c < w.made
    ensures forall c: nat :: c in w.processed <==> c < |w.processed|
    ensures w.current.Some? ==> w.current.value == |w.processed| - 1
    ensures w.batch != [] ==> w.batch[0] == |w.processed|
  {
    var line := w.batch + w.queue;
    var n := |w.processed|;
    forall i | 0 <= i < |line| ensures line[i] == n + i {
      assert line[i] == w.enqueued[n + i];
    }
    forall i | 0 <= i < n ensures w.processed[i] == i {
      assert w.processed[i] == w.enqueued[i];
    }
    forall c: nat | n <= c < w.made ensures c in line {
      assert line[c - n] == c;
    }
    forall c: nat | c < n ensures c in w.processed {
      assert w.processed[c] == c;
    }
    if w.batch != [] {
      assert line[0] == w.batch[0];
    }
  }

  lemma DecRefKeepsFreed(freed: seq<nat>, c: nat)
    requires NoDup(freed) && c !in freed
    ensures NoDup(freed + [c])
  {}

  lemma EnqueueKeeps(w: Worker)
    requires Inv(w)
    ensures Inv(Next(w, Enqueue))
  {
    Line(w);
    var w' := Next(w, Enqueue);
    assert w'.batch + w'.queue == w.batch + w.queue + [w.made];
    assert w.processed + (w.batch + w.queue + [w.made]) == w.processed + (w.batch + w.queue) + [w.made];
    assert forall c: nat :: c < w.made ==> Counted(w', c) == Counted(w, c);
  }

  lemma TakeBatchKeeps(w: Worker)
    requires Inv(w) && Enabled(w, TakeBatch)
    ensures Inv(Next(w, TakeBatch))
  {
    var w' := Next(w, TakeBatch);
    assert w'.batch + w'.queue == w.batch + w.queue;
    assert forall c: nat :: Counted(w', c) == Counted(w, c);
  }

  lemma ProcessKeeps(w: Worker)
    requires Inv(w) && Enabled(w, Process)
    ensures Inv(Next(w, Process)) && Live(w, w.batch[0])
  {
    Line(w);
    var w', c := Next(w, Process), w.batch[0];
    assert w.batch + w.queue == [c] + (w'.batch + w'.queue);
    assert w'.processed + (w'.batch + w'.queue) == w.processed + (w.batch + w.queue);
    NoSecond(w, w');
    assert forall x: nat :: Counted(w', x) == Counted(w, x);
    assert c in w.batch + w.queue;
  }

  lemma NoSecond(w: Worker, w': Worker)
    requires Inv(w) && w.batch != [] && w'.batch == w.batch[1..] && w'.queue == w.queue
    ensures forall x :: x in w'.batch + w'.queue <==> x in w.batch + w.queue && x != w.batch[0]
  {
    Line(w);
    var line, rest := w.batch + w.queue, w'.batch + w'.queue;
    assert forall i :: 0 <= i < |rest| ==> rest[i] == line[i + 1];
    assert forall i :: 0 <= i < |line| ==> line[i] == w.enqueued[|w.processed| + i] == |w.processed| + i;
    forall x | x in line && x != line[0] ensures x in rest {
      assert rest[x - |w.processed| - 1] == x;
    }
  }

  lemma LetGoKeeps(w: Worker, c: nat)
    requires Inv(w) && Enabled(w, LetGo(c))
    ensures Inv(Next(w, LetGo(c))) && Live(w, c)
  {
    var w' := Next(w, LetGo(c));
    if Refs(w', c) == 0 {
      DecRefKeepsFreed(w.freed, c);
    }
    assert forall x: nat :: x != c ==> Counted(w', x) == Counted(w, x);
    assert Counted(w', c) == Counted(w, c) - 1;
  }

  lemma ReleaseKeeps(w: Worker)
    requires Inv(w) && Enabled(w, Release)
    ensures Inv(Next(w, Release)) && Live(w, w.current.value)
  {
    Line(w);
    var w', c := Next(w, Release), w.current.value;
    if Refs(w', c) == 0 {
      DecRefKeepsFreed(w.freed, c);
    }
    assert c !in w.batch + w.queue;
    assert forall x: nat :: x != c ==> Counted(w', x) == Counted(w, x);
    assert Counted(w', c) == Counted(w, c) - 1;
  }

  // No step touches a context that has been freed.
  lemma StepKeeps(w: Worker, step: Step)
    requires Inv(w) && Enabled(w, step)
    ensures Inv(Next(w, step))
    ensures forall c :: Touches(w, step, c) ==> Live(w, c)
  {
    match step
    case Enqueue => EnqueueKeeps(w);
    case LetGo(c) => LetGoKeeps(w, c);
    case TakeBatch => TakeBatchKeeps(w);
    case Process => ProcessKeeps(w);
    case Release => ReleaseKeeps(w);
    case Idle => assert forall c: nat :: Counted(Next(w, Idle), c) == Counted(w, c);
  }

  ghost predicate Run(w: Worker, steps: seq<Step>, last: Worker)
    decreases |steps|
  {
    if steps == [] then last == w
    else Enabled(w, steps[0]) && Run(Next(w, steps[0]), steps[1..], last)
  }

  lemma {:induction false} RunKeeps(w: Worker, steps: seq<Step>, last: Worker)
    requires Inv(w) && Run(w, steps, last)
    ensures Inv(last)
    decreases |steps|
  {
    hide Inv, Enabled, Next;
    if steps != [] {
      StepKeeps(w, steps[0]);
      RunKeeps(Next(w, steps[0]), steps[1..], last);
    }
  }

  // Over any interleaving, what is processed is a prefix of what was enqueued; batches do
  // not show.  A context is freed once, when producer and worker have both let go, and when
  // all have, every context has been processed and freed, once.
  lemma FirstInFirstOut(steps: seq<Step>, w: Worker)
    requires Run(STARTED, steps, w)
    ensures w.processed <= w.enqueued && |w.enqueued| == w.made
    ensures NoDup(w.freed) && forall c :: c in w.freed <==> c in w.processed && c !in w.held && w.current != Some(c)
    ensures w.held == {} && w.batch + w.queue == [] && w.current.None? ==>
              w.processed == w.enqueued && |w.freed| == w.made
  {
    hide Run;
    StartedInv();
    RunKeeps(STARTED, steps, w);
    Line(w);
    assert w.enqueued[..|w.processed|] == w.processed;
    if w.held == {} && w.batch + w.queue == [] && w.current.None? {
      assert w.processed + [] == w.processed;
      AllFreed(w);
    }
  }

  lemma StartedInv()
    ensures Inv(STARTED)
  {}

  lemma AllFreed(w: Worker)
    requires Inv(w) && w.held == {} && w.batch + w.queue == [] && w.current.None?
    ensures |w.freed| == w.made
  {
    Line(w);
    forall c: nat | c < w.made ensures c in w.freed {
      assert Counted(w, c) == 0;
    }
    forall i, k | 0 <= i < k < w.made ensures w.enqueued[i] != w.enqueued[k] {}
    forall c | c in w.enqueued ensures c in w.freed {
      var i :| 0 <= i < w.made && w.enqueued[i] == c;
    }
    forall c | c in w.freed ensures c in w.enqueued {
      assert w.enqueued[c] == c;
    }
    SameElements(w.freed, w.enqueued);
    assert |multiset(w.freed)| == |multiset(w.enqueued)|;
  }

  // The service idles only when all that was enqueued when it looked has been processed.
  lemma IdleWhenDone(w: Worker)
    requires Inv(w) && Enabled(w, TakeBatch) && Next(w, TakeBatch).idle
    ensures w.processed == w.enqueued
  {}

  // ----- As it is kept ---------------------------------------------------------------

  lemma HeadOut<T>(done: seq<T>, batch: seq<T>, queue: seq<T>)
    requires batch != [] && NoDup(batch + queue)
    ensures done + [batch[0]] + (batch[1..] + queue) == done + (batch + queue)
    ensures NoDup(batch[1..] + queue) && batch[0] !in batch[1..] + queue
    ensures forall x :: x in batch[1..] + queue ==> x in batch + queue
  {
    var line, rest := batch + queue, batch[1..] + queue;
    assert line == [batch[0]] + rest;
    forall i | 0 <= i < |rest| ensures rest[i] == line[i + 1] && rest[i] != line[0] {}
  }

  class LogicService {
    var mQueue: seq<OperContext>
    var mRunning: bool
    var ctxVec: seq<OperContext>
    ghost var processed: seq<OperContext>
    ghost var released: seq<OperContext>  // let go of by the worker, processed or not
    ghost var enqueued: seq<OperContext>

    // The line of contexts, each with a reference of the worker's.
    ghost predicate Valid()
      reads this, Waiting()
    {
      && released + Waiting() == enqueued
      && NoDup(Waiting())
      && forall c :: c in Waiting() ==> !c.freed && c.mRef > 0
    }

    ghost function Waiting(): seq<OperContext>
      reads this
    {
      ctxVec + mQueue
    }

    constructor ()
      ensures Valid() && enqueued == [] && !mRunning
    {
      mQueue, ctxVec, mRunning := [], [], false;
      processed, released, enqueued := [], [], [];
    }

    // A service that does not run takes nothing.
    method Enqueue(ctx: OperContext) returns (pushed: bool)
      requires Valid() && ctx !in Waiting() && !ctx.freed && ctx.mRef > 0
      modifies this`mQueue, this`enqueued, ctx
      ensures Valid() && pushed == mRunning && !ctx.freed
      ensures pushed ==>
                && mQueue == old(mQueue) + [ctx] && enqueued == old(enqueued) + [ctx]
                && ctx.mRef == old(ctx.mRef) + 1
      ensures !pushed ==> mQueue == old(mQueue) && enqueued == old(enqueued) && ctx.mRef == old(ctx.mRef)
    {
      pushed := false;
      if mRunning {
        OperContext.IncRef(ctx);
        mQueue := mQueue + [ctx];
        enqueued := enqueued + [ctx];
        pushed := true;
        assert Waiting() == old(Waiting()) + [ctx];
        assert released + (old(Waiting()) + [ctx]) == released + old(Waiting()) + [ctx];
      }
    }

    method TakeBatch()
      requires Valid() && ctxVec == []
      modifies this`mQueue, this`ctxVec
      ensures Valid() && ctxVec == old(mQueue) && mQueue == []
    {
      ctxVec := mQueue;
      mQueue := [];
      assert Waiting() == old(Waiting());
    }

    // The next context is processed, unless the service has been stopped, and let go of.
    method ProcessNext() returns (ctx: OperContext)
      requires Valid() && ctxVec != []
      modifies this`ctxVec, this`processed, this`released, ctxVec[0]
      ensures Valid() && ctx == old(ctxVec[0]) && ctxVec == old(ctxVec)[1..] && mQueue == old(mQueue)
      ensures processed == old(processed) + if mRunning then [ctx] else []
      ensures released == old(released) + [ctx] && enqueued == old(enqueued)
      ensures ctx.mRef == old(ctxVec[0].mRef) - 1 && ctx.freed == (ctx.mRef == 0)
    {
      hide NoDup;
      ctx := ctxVec[0];
      HeadOut(released, ctxVec, mQueue);
      ctxVec := ctxVec[1..];
      if mRunning {
        processed := processed + [ctx];
      }
      released := released + [ctx];
      OperContext.DecRef(ctx);
    }

    // The batch, context by context; a stop comes, if at all, when so many of them are done.
    // What is left then is let go of without being processed.
    method ProcessBatch(stop: Option<nat>)
      requires Valid()
      modifies this`ctxVec, this`processed, this`released, this`mRunning, ctxVec
      ensures Valid() && ctxVec == [] && mQueue == old(mQueue) && enqueued == old(enqueued)
      ensures released == old(released) + old(ctxVec)
      ensures processed == old(processed) + Processed(old(ctxVec), old(mRunning), stop)
      ensures mRunning == (old(mRunning) && (stop.Some? ==> stop.value >= |old(ctxVec)|))
    {
      ghost var batch, running := ctxVec, mRunning;
      var k := 0;
      assert released + [] == released && processed + [] == processed;
      while |ctxVec| > 0
        invariant Valid() && k <= |batch| && ctxVec == batch[k..]
        invariant released == old(released) + batch[..k]
        invariant processed == old(processed) + Processed(batch[..k], running, stop)
        invariant mRunning == (running && (stop.Some? ==> stop.value >= k))
        invariant mQueue == old(mQueue) && enqueued == old(enqueued)
        decreases |ctxVec|
      {
        if stop == Some(k) {
          mRunning := false;
        }
        OneMoreProcessed(batch, k, running, stop);
        var ctx := ProcessNext();
        k := k + 1;
      }
      assert batch[..|batch|] == batch;
    }
  }

  // Those of a batch that come before the stop.
  ghost function Processed(batch: seq<OperContext>, running: bool, stop: Option<nat>): seq<OperContext> {
    if !running then [] else if stop.Some? && stop.value < |batch| then batch[..stop.value] else batch
  }

  lemma OneMoreProcessed(batch: seq<OperContext>, k: nat, running: bool, stop: Option<nat>)
    requires k < |batch|
    ensures batch[..k + 1] == batch[..k] + [batch[k]]
    ensures var still := running && (stop.Some? ==> stop.value > k);
            Processed(batch[..k + 1], running, stop) ==
            Processed(batch[..k], running, stop) + if still then [batch[k]] else []
  {}
}
