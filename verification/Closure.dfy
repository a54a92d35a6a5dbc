/**
 How a caller waits for its request: the mutex of the request is locked when it is made, and
 waiting is what unlocks it, so that the signal cannot come before the wait.
 */
module Closure {

  datatype Owner = Free | Caller | Service

  // The caller's thread: about to post, posted and not yet waiting, waiting, and woken but
  // without the mutex.
  datatype CallerAt = Ready | Posted | Waiting | Woken

  // The service's thread: no request, about to lock, locked, and after the broadcast.
  datatype ServiceAt = Resting | Due | Locked | Broadcast

  // `rounds` counts the returns of Wait, `signals` the broadcasts, and `lost` those of them
  // that met no waiter.
  datatype State = State(owner: Owner, caller: CallerAt, service: ServiceAt, posts: nat, rounds: nat, signals: nat,
      lost: nat)

  // SyncClosure's constructor locks the mutex.
  function Constructed(locked: bool): State {
    State(if locked then Caller else Free, Ready, Resting, 0, 0, 0, 0)
  }

  datatype Step =
    | Post          // RequestCenter::EnqueueKVRequest, up to Wait
    | Wait          // pthread_cond_wait gives up the mutex and waits, at once
    | Lock          // SyncClosure::Signal, in three parts
    | Notify
    | Unlock
    | Return        // pthread_cond_wait takes the mutex again
    | Spurious      // pthread_cond_wait wakes up without a broadcast, as it may

  predicate Enabled(s: State, step: Step) {
    match step
    case Post => s.caller == Ready
    case Wait => s.caller == Posted
    case Lock => s.service == Due && s.owner == Free
    case Notify => s.service == Locked
    case Unlock => s.service == Broadcast
    case Return => s.caller == Woken && s.owner == Free
    case Spurious => s.caller == Waiting
  }

  function Next(s: State, step: Step): State
    requires Enabled(s, step)
  {
    match step
    case Post => s.(caller := Posted, service := if s.service == Resting then Due else s.service, posts := s.posts + 1)
    case Wait => s.(caller := Waiting, owner := if s.owner == Caller then Free else s.owner)
    case Lock => s.(service := Locked, owner := Service)
    case Notify =>
      s.(service := Broadcast, signals := s.signals + 1,
         caller := if s.caller == Waiting then Woken else s.caller,
         lost := if s.caller == Waiting then s.lost else s.lost + 1)
    case Unlock => s.(service := Resting, owner := Free)
    case Return => s.(caller := Ready, owner := Caller, rounds := s.rounds + 1)
    case Spurious => s.(caller := Woken)
  }

  ghost predicate Run(s: State, steps: seq<Step>, last: State)
    decreases |steps|
  {
    if steps == [] then last == s
    else Enabled(s, steps[0]) && Run(Next(s, steps[0]), steps[1..], last)
  }

  // Where the threads can be together, and who has the mutex then.
  predicate Inv(s: State) {
    && s.lost == 0 && s.signals <= s.posts && s.rounds <= s.signals
    && match s.caller
       case Ready => s.owner == Caller && s.service == Resting && s.posts == s.signals == s.rounds
       case Posted => s.owner == Caller && s.service == Due && s.posts == s.signals + 1 && s.signals == s.rounds
       case Waiting =>
         && s.posts == s.signals + 1 && s.signals == s.rounds
         && ((s.service == Due && s.owner == Free) || (s.service == Locked && s.owner == Service))
       case Woken =>
         && s.posts == s.signals == s.rounds + 1
         && ((s.service == Broadcast && s.owner == Service) || (s.service == Resting && s.owner == Free))
  }

  lemma {:induction false} RunKeeps(s: State, steps: seq<Step>, last: State)
    requires Inv(s) && Run(s, steps, last) && Spurious !in steps
    ensures Inv(last)
    decreases |steps|
  {
    if steps != [] {
      assert steps == [steps[0]] + steps[1..];
      RunKeeps(Next(s, steps[0]), steps[1..], last);
    }
  }

  // Over any interleaving and any number of uses, as long as no wakeup is spurious: every
  // broadcast meets its waiter, and whenever Wait has returned, the caller has the mutex, as
  // when the object was made, so that the object can be used again.
  lemma NoLostWakeup(steps: seq<Step>, s: State)
    requires Run(Constructed(true), steps, s) && Spurious !in steps
    ensures s.lost == 0 && s.rounds <= s.signals
    ensures Enabled(s, Notify) ==> s.caller == Waiting
    ensures s.caller == Ready ==> s.owner == Caller && s.rounds == s.posts == s.signals && s.service == Resting
  {
    RunKeeps(Constructed(true), steps, s);
  }

  // Steps left until the caller has its answer.
  function Left(s: State): nat {
    match s.caller
    case Ready => 0
    case Posted => 5
    case Waiting => if s.service == Due then 4 else 3
    case Woken => if s.service == Broadcast then 2 else 1
  }

  // Nobody hangs: while the caller has not got its answer, just one step is possible, apart
  // from a spurious wakeup, and it brings the answer nearer.
  lemma NoDeadlock(s: State)
    requires Inv(s) && s.caller != Ready
    ensures exists step :: step != Spurious && Enabled(s, step) && Left(Next(s, step)) == Left(s) - 1
    ensures forall a, b :: Enabled(s, a) && Enabled(s, b) && a != Spurious && b != Spurious ==> a == b
  {
    var step :=
      if s.caller == Posted then Wait
      else if s.service == Due then Lock
      else if s.service == Locked then Notify
      else if s.service == Broadcast then Unlock
      else Return;
    assert step != Spurious && Enabled(s, step) && Left(Next(s, step)) == Left(s) - 1;
  }

  function SpuriousIn(steps: seq<Step>): nat
    decreases |steps|
  {
    if steps == [] then 0 else (if steps[0] == Spurious then 1 else 0) + SpuriousIn(steps[1..])
  }

  lemma {:induction false} NoneSpurious(steps: seq<Step>)
    ensures SpuriousIn(steps) == 0 <==> Spurious !in steps
    decreases |steps|
  {
    if steps != [] {
      NoneSpurious(steps[1..]);
      assert steps == [steps[0]] + steps[1..];
    }
  }

  // With so many spurious wakeups at most.
  ghost predicate LeadsTo(locked: bool, spurious: nat, steps: seq<Step>, s: State) {
    Run(Constructed(locked), steps, s) && SpuriousIn(steps) <= spurious
  }

  // No broadcast is lost, and Wait returns only after one.
  predicate Safe(s: State) {
    s.lost == 0 && s.rounds <= s.signals
  }

  // The lock in the constructor is what it takes, and that no wakeup is spurious: without the
  // lock the signal can come first, and the caller then waits for ever; a spurious wakeup is
  // taken for the answer.
  lemma SafeIff(locked: bool, spurious: nat)
    ensures (forall steps, s :: LeadsTo(locked, spurious, steps, s) ==> Safe(s)) <==> locked && spurious == 0
  {
    if locked && spurious == 0 {
      forall steps, s | LeadsTo(locked, spurious, steps, s) ensures Safe(s) {
        NoneSpurious(steps);
        NoLostWakeup(steps, s);
      }
    } else if !locked {
      var s := MissedSignal();
      NoneSpurious([Post, Lock, Notify, Unlock, Wait]);
      assert LeadsTo(locked, spurious, [Post, Lock, Notify, Unlock, Wait], s);
    } else {
      var s := EarlyReturn();
      assert LeadsTo(locked, spurious, [Post, Wait, Spurious, Return], s);
    }
  }

  // The caller has returned before the service has signalled, and holds the mutex that the
  // service needs for it.
  lemma EarlyReturn() returns (s: State)
    ensures Run(Constructed(true), [Post, Wait, Spurious, Return], s)
    ensures SpuriousIn([Post, Wait, Spurious, Return]) == 1
    ensures s.rounds == 1 && s.signals == 0 && s.service == Due && !Enabled(s, Lock)
  {
    var s0 := Constructed(true);
    var s1 := Next(s0, Post);
    var s2 := Next(s1, Wait);
    var s3 := Next(s2, Spurious);
    s := Next(s3, Return);
    assert Run(s, [], s) && SpuriousIn([]) == 0;
    assert [Return][1..] == [] && Run(s3, [Return], s) && SpuriousIn([Return]) == 0;
    assert [Spurious, Return][1..] == [Return] && Run(s2, [Spurious, Return], s) && SpuriousIn([Spurious, Return]) == 1;
    assert [Wait, Spurious, Return][1..] == [Spurious, Return];
    assert Run(s1, [Wait, Spurious, Return], s) && SpuriousIn([Wait, Spurious, Return]) == 1;
    assert [Post, Wait, Spurious, Return][1..] == [Wait, Spurious, Return];
  }

  lemma MissedSignal() returns (s: State)
    ensures Run(Constructed(false), [Post, Lock, Notify, Unlock, Wait], s)
    ensures s.lost == 1 && s.caller == Waiting && forall step :: step != Spurious ==> !Enabled(s, step)
  {
    var s0 := Constructed(false);
    var s1 := Next(s0, Post);
    var s2 := Next(s1, Lock);
    var s3 := Next(s2, Notify);
    var s4 := Next(s3, Unlock);
    s := Next(s4, Wait);
    assert Run(s, [], s);
    assert [Wait][1..] == [] && Run(s4, [Wait], s);
    assert [Unlock, Wait][1..] == [Wait] && Run(s3, [Unlock, Wait], s);
    assert [Notify, Unlock, Wait][1..] == [Unlock, Wait] && Run(s2, [Notify, Unlock, Wait], s);
    assert [Lock, Notify, Unlock, Wait][1..] == [Notify, Unlock, Wait] && Run(s1, [Lock, Notify, Unlock, Wait], s);
    assert [Post, Lock, Notify, Unlock, Wait][1..] == [Lock, Notify, Unlock, Wait];
  }

  // ----- As it is kept ---------------------------------------------------------------

  // The mutex and the condition of one request.  Waiting is given in its two parts, as the
  // other thread works in between.
  class SyncClosure {
    var mMutex: Owner
    var mBlocked: bool   // in pthread_cond_wait
    var mWoken: bool     // and notified, but still without the mutex

    ghost predicate At(s: State)
      reads this
    {
      && mMutex == s.owner
      && mBlocked == (s.caller == Waiting || s.caller == Woken)
      && mWoken == (s.caller == Woken)
    }

    constructor ()
      ensures At(Constructed(true))
    {
      mMutex, mBlocked, mWoken := Caller, false, false;
    }

    method BeginWait(ghost s: State)
      requires At(s) && Inv(s) && Enabled(s, Wait)
      modifies this
      ensures At(Next(s, Wait))
    {
      mBlocked, mMutex := true, Free;
    }

    method EndWait(ghost s: State)
      requires At(s) && Inv(s) && Enabled(s, Return)
      modifies this
      ensures At(Next(s, Return)) && mMutex == Caller
    {
      mBlocked, mWoken, mMutex := false, false, Caller;
    }

    // Lock, notify whoever waits, unlock.
    method Signal(ghost s: State)
      requires At(s) && Inv(s) && Enabled(s, Lock)
      modifies this
      ensures At(Next(Next(Next(s, Lock), Notify), Unlock)) && mWoken
    {
      mMutex := Service;
      if mBlocked {
        mWoken := true;
      }
      mMutex := Free;
    }
  }
}
