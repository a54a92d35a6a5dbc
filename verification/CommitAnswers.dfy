/**
 What callers are answered, told from the records that were applied before, by the law of
 the last writer.
 */
module CommitAnswers {
  import opened Common
  import opened RecordFormat
  import opened GroupCommit
  import opened LastWriter
  import CommitTheorems
  import DataStore

  // A caller's answer to a get after these records: the value of the last writer, if there is
  // one, and else which of table and key is missing.
  ghost predicate GetAnswered(rs: seq<LogRecord>, t: Bytes, k: Bytes, err: Err, value: Option<Bytes>) {
    && (forall v :: err == Ok && value == Some(v) <==> Holds(rs, t, k, v))
    && (err == KeyNotExist <==> TableStands(rs, t) && !Held(rs, t, k))
    && (err == TableNotExist <==> !TableStands(rs, t))
    && (err == Ok || err == KeyNotExist || err == TableNotExist)
    && (value.Some? <==> err == Ok)
  }

  // The error of a write after these records.
  ghost predicate WriteAnsweredBy(rs: seq<LogRecord>, r: LogRecord, err: Err) {
    if r.opType == 0 || r.opType == 2 then err == if TableStands(rs, r.table) then Ok else TableNotExist
    else if r.opType == 1 then
      err == if !TableStands(rs, r.table) then TableNotExist
             else if Held(rs, r.table, r.key) then KeyExist else Ok
    else if r.opType == 4 then err == Ok
    else r.opType == 5 && err == if TableStands(rs, r.table) then TableExist else Ok
  }

  // In every reachable state, a get returns what the last writer among the records applied so
  // far has written.
  lemma GetReturns(st: State)
    requires Reachable(st) && Enabled(st, HandleRequest([]))
    requires st.sys.requestCenter.batch[0].NewContext? && st.sys.requestCenter.batch[0].request.opType == 3
    ensures var r := st.sys.requestCenter.batch[0].request;
            var signals := HandleNewKVRequest(RequestTaken(st.sys), r).signals;
            && |signals| == 1 && signals[0].ticket == r.ticket
            && GetAnswered(st.history.applied, r.table, r.key, signals[0].err, signals[0].value)
  {
    hide Reachable, DataStore.Lookup, DataStore.ApplyAll, HandleNewKVRequest, Acceptable, Storable, Held, Holds,
         TableStands;
    var r := st.sys.requestCenter.batch[0].request;
    CommitTheorems.GetAnswer(st);
    LastWriterWins(st.history.applied, r.table, r.key);
  }

  // And each write that a response answers, the outcome that all records applied before it,
  // those of the same response included, leave for it.
  lemma WriteReturns(st: State, order: seq<Reply>, i: nat)
    requires Reachable(st) && Enabled(st, HandleRequest(order)) && st.sys.requestCenter.batch[0].FinishContext?
    requires i < |HandleKVResponse(RequestTaken(st.sys), order).signals|
    ensures i < |order| && order[i].id in st.sys.requestCenter.mRequests
    ensures var signal := HandleKVResponse(RequestTaken(st.sys), order).signals[i];
            var request := st.sys.requestCenter.mRequests[order[i].id];
            var r := LogRecord(order[i].record.logId, request.opType, request.table, request.key, request.value);
            && order[i].record == r && signal.ticket == request.ticket && signal.value == None
            && WriteAnsweredBy(st.history.applied + Records(order)[..i], r, signal.err)
  {
    hide Reachable, DataStore.Update, DataStore.ApplyAll, HandleKVResponse, Acceptable, Storable, Held, TableStands,
         Enumerates;
    CommitTheorems.AnsweredOwn(st, order, i);
    CommitTheorems.StoreIsSomeOrder(st);
    var before := Records(order)[..i];
    DataStore.ApplyAppend(map[], st.history.applied, before);
    WriteAnswered(st.history.applied + before, order[i].record);
    CommitTheorems.AnsweredIsWrite(st, order, i);
  }
}
