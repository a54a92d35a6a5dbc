/**
 A run in which the live store and the recovered one differ: a table is created and written
 to in one batch, and the response happens to be gone through the other way round.
 */
module CommitConflict {
  import opened Common
  import opened RecordFormat
  import opened DataStore
  import ApplyOrder
  import opened GroupCommit
  import opened CommitInvariant
  import opened CommitSteps
  import CommitTheorems
  import opened CommitRuns
  import Journal
  import JournalOrder

  // Both callers are answered; the put has failed, as the table was not there yet.  Nothing
  // is lost in the crash, and the recovered store holds the key.
  lemma LiveAndRecoveredDiffer(table: Bytes, key: Bytes, value: Bytes) returns (st: State, after: seq<Journal.DiskFile>)
    requires Acceptable(RequestData(0, OP_ADD_TABLE, table, [], []))
        && Acceptable(RequestData(1, OP_PUT, table, key, value))
    ensures Reachable(st) && st.sys.fault.None? && Journal.CrashOf(Journal.Files(st.sys.journal), after)
    ensures st.sys.store == map[table := map[]]
    ensures var records := Journal.Recover(after).records;
            && records == st.history.log && |records| == |st.history.applied|
            && ApplyAll(map[], st.history.log) == map[table := map[key := value]]
  {
    hide Storable, Reachable, JournalOrder.Stuck, Journal.CrashOf, Journal.Files, Journal.Recover;
    var rs := [RequestData(0, OP_ADD_TABLE, table, [], []), RequestData(1, OP_PUT, table, key, value)];
    var e1, e2 := RecordFor(rs[0], 1), RecordFor(rs[1], 2);
    var st1 := Responded(2, rs);
    assert RecordsFor(rs) == [e1, e2];
    st := Reversed(st1, e1, e2);
    StoresOf(e1, e2);
    OnDiskOf(st);
    IntactIsCrash(st.sys.journal, st.sys.epoch, st.history.log, st.history.flushed);
    after := Intact(Journal.Files(st.sys.journal));
    CommitTheorems.Durability(st, after);
  }

  lemma StoresOf(e1: Entry, e2: Entry)
    requires e1.opType == OP_ADD_TABLE && e2.opType == OP_PUT && e1.table == e2.table
    ensures ApplyAll(map[], [e1, e2]) == map[e1.table := map[e2.key := e2.value]]
    ensures ApplyAll(map[], [e2, e1]) == map[e1.table := map[]]
  {
    hide Storable;
    ApplyOrder.ApplyTwo(map[], e1, e2);
    ApplyOrder.ApplyTwo(map[], e2, e1);
  }

  lemma RepliesOfTwo(e1: Entry, e2: Entry)
    ensures RepliesOf([e1, e2], 0, 0, 2) == {Reply(1, e1), Reply(2, e2)}
  {
    hide Storable;
    var replies := RepliesOf([e1, e2], 0, 0, 2);
    forall x | x in {Reply(1, e1), Reply(2, e2)} ensures x in replies {
      assert x == Reply(0 + 1, [e1, e2][0]) || x == Reply(1 + 1, [e1, e2][1]);
    }
  }

  lemma Reversed(st: State, e1: Entry, e2: Entry) returns (last: State)
    requires Good(st) && st.sys.store == map[] && IsWrite(e1.opType) && IsWrite(e2.opType)
    requires st.sys.requestCenter.batch == [FinishContext(RepliesOf([e1, e2], 0, 0, 2))]
    requires st.history.log == [e1, e2] && st.history.flushed == 2 && st.history.applied == [] && st.history.base == 0
    ensures Good(last) && last.sys.store == ApplyAll(map[], [e2, e1])
    ensures last.history.log == [e1, e2] && last.history.flushed == 2 && |last.history.applied| == 2
  {
    hide Storable, JournalOrder.Stuck, HandleKVResponse, ApplyAll, Inv, RepliesOf, Good, Answers, DistinctKnown,
         Reachable, Flow, RequestFlow, Callers, OrderOf, AfterFinish;
    var order := [Reply(2, e2), Reply(1, e1)];
    var replies := {Reply(1, e1), Reply(2, e2)};
    RepliesOfTwo(e1, e2);
    EnabledResponse(st, order, replies);
    GoodStep(st, HandleRequest(order));
    last := Next(st, HandleRequest(order));
    FlowOf(st);
    FinishFacts(st, replies, order);
    assert Records(order) == [e2, e1];
    HandleReplies(RequestTaken(st.sys), order);
    HandleSignals(RequestTaken(st.sys), order);
    AfterBoth(st, order);
  }

  lemma EnabledResponse(st: State, order: seq<Reply>, replies: set<Reply>)
    requires Good(st) && Enumerates(order, replies)
    requires st.sys.requestCenter.batch == [FinishContext(replies)]
    ensures Enabled(st, HandleRequest(order))
  {
    hide Reachable, JournalOrder.Stuck, Enumerates;
  }

  lemma AfterBoth(st: State, order: seq<Reply>)
    requires st.sys.requestCenter.batch != []
    requires |HandleKVResponse(RequestTaken(st.sys), order).signals| == |order|
    ensures var last := AfterFinish(st, order);
            && last.history.log == st.history.log && last.history.flushed == st.history.flushed
            && |last.history.applied| == |st.history.applied| + |order|
            && last.sys == HandleKVResponse(RequestTaken(st.sys), order).sys
  {
    hide HandleKVResponse, Storable, Acceptable;
  }
}
