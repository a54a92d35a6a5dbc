/**
 The tables the log replays into.
 */
module DataStore {
  import opened Common
  import opened RecordFormat

  // ----- Operations on values --------------------------------------------------------

  type Table = map<Bytes, Bytes>
  type Store = map<Bytes, Table>

  datatype Outcome = Outcome(store: Store, err: Err)

  function PutIn(s: Store, table: Bytes, key: Bytes, value: Bytes): Outcome {
    if table !in s then Outcome(s, TableNotExist)
    else Outcome(s[table := s[table][key := value]], Ok)
  }

  function AddIn(s: Store, table: Bytes, key: Bytes, value: Bytes): Outcome {
    if table !in s then Outcome(s, TableNotExist)
    else if key in s[table] then Outcome(s, KeyExist)
    else Outcome(s[table := s[table][key := value]], Ok)
  }

  function DelIn(s: Store, table: Bytes, key: Bytes): Outcome {
    if table !in s then Outcome(s, TableNotExist)
    else Outcome(s[table := s[table] - {key}], Ok)
  }

  function CreateIn(s: Store, table: Bytes): Outcome {
    if table in s then Outcome(s, TableExist) else Outcome(s[table := map[]], Ok)
  }

  function DropIn(s: Store, table: Bytes): Outcome {
    Outcome(s - {table}, Ok)
  }

  // What a get answers: the error and, if there is none, the value.
  function Lookup(s: Store, table: Bytes, key: Bytes): (Err, Option<Bytes>) {
    if table !in s then (TableNotExist, None)
    else if key !in s[table] then (KeyNotExist, None)
    else (Ok, Some(s[table][key]))
  }

  // LogCenter::UpdateDataStore, which asserts on any other operation.
  function Update(s: Store, r: LogRecord): Outcome {
    if r.opType == OP_PUT then PutIn(s, r.table, r.key, r.value)
    else if r.opType == OP_ADD then AddIn(s, r.table, r.key, r.value)
    else if r.opType == OP_DEL then DelIn(s, r.table, r.key)
    else if r.opType == OP_DROP_TABLE then DropIn(s, r.table)
    else if r.opType == OP_ADD_TABLE then CreateIn(s, r.table)
    else Outcome(s, AssertionFailed)
  }

  // The store after a sequence of updates.
  function ApplyAll(s: Store, rs: seq<LogRecord>): Store
    decreases |rs|
  {
    if rs == [] then s else ApplyAll(Update(s, rs[0]).store, rs[1..])
  }

  // Which error each record is answered with.
  datatype Answer = Answer(record: LogRecord, err: Err)

  function Answers(s: Store, rs: seq<LogRecord>): (answers: seq<Answer>)
    ensures |answers| == |rs|
    ensures forall i :: 0 <= i < |rs| ==> answers[i].record == rs[i]
    decreases |rs|
  {
    if rs == [] then []
    else [Answer(rs[0], Update(s, rs[0]).err)] + Answers(Update(s, rs[0]).store, rs[1..])
  }

  lemma {:induction false} ApplyAppend(s: Store, a: seq<LogRecord>, b: seq<LogRecord>)
    ensures ApplyAll(s, a + b) == ApplyAll(ApplyAll(s, a), b)
    ensures Answers(s, a + b) == Answers(s, a) + Answers(ApplyAll(s, a), b)
    decreases |a|
  {
    hide Update;
    if a == [] {
      assert a + b == b;
    } else {
      var next := Update(s, a[0]);
      assert (a + b)[1..] == a[1..] + b && (a + b)[0] == a[0];
      ApplyAppend(next.store, a[1..], b);
      AnswersCons(Answer(a[0], next.err), Answers(next.store, a[1..]), Answers(ApplyAll(next.store, a[1..]), b));
    }
  }

  lemma AnswersCons(x: Answer, a: seq<Answer>, b: seq<Answer>)
    ensures [x] + (a + b) == [x] + a + b
  {}

  // ----- The tables as they are kept --------------------------------------------------

  class SimpleDataTable {
    var mTable: Table

    constructor ()
      ensures mTable == map[]
    {
      mTable := map[];
    }

    method DoPut(key: Bytes, value: Bytes) returns (err: Err)
      modifies this
      ensures mTable == old(mTable)[key := value] && err == Ok
    {
      mTable := mTable[key := value];
      err := Ok;
    }

    method DoAdd(key: Bytes, value: Bytes) returns (err: Err)
      modifies this
      ensures key in old(mTable) ==> mTable == old(mTable) && err == KeyExist
      ensures key !in old(mTable) ==> mTable == old(mTable)[key := value] && err == Ok
    {
      if key in mTable {
        return KeyExist;
      }
      mTable := mTable[key := value];
      err := Ok;
    }

    method DoDel(key: Bytes) returns (err: Err)
      modifies this
      ensures mTable == old(mTable) - {key} && err == Ok
    {
      if key in mTable {
        mTable := mTable - {key};
      }
      err := Ok;
    }

    method DoGet(key: Bytes) returns (err: Err, value: Option<Bytes>)
      ensures (err, value) == if key in mTable then (Ok, Some(mTable[key])) else (KeyNotExist, None)
    {
      if key in mTable {
        return Ok, Some(mTable[key]);
      }
      return KeyNotExist, None;
    }
  }

  class DataStore {
    var mStore: map<Bytes, SimpleDataTable>

    // No table goes by two names.
    ghost predicate Valid()
      reads this
    {
      forall t, u :: t in mStore && u in mStore && mStore[t] == mStore[u] ==> t == u
    }

    ghost function Tables(): set<SimpleDataTable>
      reads this
    {
      set t | t in mStore :: mStore[t]
    }

    ghost function Contents(): Store
      reads this, Tables()
    {
      map t | t in mStore :: mStore[t].mTable
    }

    constructor ()
      ensures Valid() && Contents() == map[] && Tables() == {}
    {
      mStore := map[];
    }

    method Put(tableName: Bytes, key: Bytes, value: Bytes) returns (err: Err)
      requires Valid()
      modifies Tables()
      ensures Valid() && mStore == old(mStore)
      ensures Outcome(Contents(), err) == PutIn(old(Contents()), tableName, key, value)
    {
      if tableName !in mStore {
        return TableNotExist;
      }
      err := mStore[tableName].DoPut(key, value);
    }

    method Add(tableName: Bytes, key: Bytes, value: Bytes) returns (err: Err)
      requires Valid()
      modifies Tables()
      ensures Valid() && mStore == old(mStore)
      ensures Outcome(Contents(), err) == AddIn(old(Contents()), tableName, key, value)
    {
      if tableName !in mStore {
        return TableNotExist;
      }
      err := mStore[tableName].DoAdd(key, value);
    }

    method Del(tableName: Bytes, key: Bytes) returns (err: Err)
      requires Valid()
      modifies Tables()
      ensures Valid() && mStore == old(mStore)
      ensures Outcome(Contents(), err) == DelIn(old(Contents()), tableName, key)
    {
      if tableName !in mStore {
        return TableNotExist;
      }
      err := mStore[tableName].DoDel(key);
    }

    method Get(tableName: Bytes, key: Bytes) returns (err: Err, value: Option<Bytes>)
      requires Valid()
      ensures (err, value) == Lookup(Contents(), tableName, key)
      ensures tableName !in Contents() ==> err == TableNotExist && value == None
      ensures tableName in Contents() && key !in Contents()[tableName] ==> err == KeyNotExist && value == None
      ensures tableName in Contents() && key in Contents()[tableName] ==>
                err == Ok && value == Some(Contents()[tableName][key])
    {
      if tableName !in mStore {
        return TableNotExist, None;
      }
      err, value := mStore[tableName].DoGet(key);
    }

    method CreateTable(tableName: Bytes) returns (err: Err)
      requires Valid()
      modifies this
      ensures Valid() && fresh(Tables() - old(Tables()))
      ensures Outcome(Contents(), err) == CreateIn(old(Contents()), tableName)
    {
      if tableName in mStore {
        return TableExist;
      }
      ghost var before := Contents();
      var table := new SimpleDataTable();
      mStore := mStore[tableName := table];
      assert Contents() == before[tableName := map[]];
      err := Ok;
    }

    method DropTable(tableName: Bytes) returns (err: Err)
      requires Valid()
      modifies this
      ensures Valid() && Tables() <= old(Tables())
      ensures Outcome(Contents(), err) == DropIn(old(Contents()), tableName)
    {
      if tableName in mStore {
        mStore := mStore - {tableName};
      }
      err := Ok;
    }

    // LogCenter::UpdateDataStore
    method Apply(r: LogRecord) returns (err: Err)
      requires Valid()
      modifies this, Tables()
      ensures Valid() && fresh(Tables() - old(Tables()))
      ensures Outcome(Contents(), err) == Update(old(Contents()), r)
    {
      if r.opType == OP_PUT {
        err := Put(r.table, r.key, r.value);
      } else if r.opType == OP_ADD {
        err := Add(r.table, r.key, r.value);
      } else if r.opType == OP_DEL {
        err := Del(r.table, r.key);
      } else if r.opType == OP_DROP_TABLE {
        err := DropTable(r.table);
      } else if r.opType == OP_ADD_TABLE {
        err := CreateTable(r.table);
      } else {
        err := AssertionFailed;
      }
    }
  }
}
