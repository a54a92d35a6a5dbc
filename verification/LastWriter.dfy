/**
 What the tables hold after a sequence of records, told from the records alone: the last
 writer of a key decides, as long as its table stands and nobody has deleted it since.  The
 operations are given by the numbers that are stored for them.
 */
module LastWriter {
  import opened Common
  import opened RecordFormat
  import opened DataStore

  predicate Creates(r: LogRecord, t: Bytes) { r.opType == 5 && r.table == t }

  predicate Drops(r: LogRecord, t: Bytes) { r.opType == 4 && r.table == t }

  predicate Deletes(r: LogRecord, t: Bytes, k: Bytes) { r.opType == 2 && r.table == t && r.key == k }

  // The i-th record creates the table, and nothing drops it afterwards.
  ghost predicate StandsFrom(rs: seq<LogRecord>, i: nat, t: Bytes) {
    i < |rs| && Creates(rs[i], t) && forall j :: i < j < |rs| ==> !Drops(rs[j], t)
  }

  ghost predicate TableStands(rs: seq<LogRecord>, t: Bytes) {
    exists i: nat :: StandsFrom(rs, i, t)
  }

  // The i-th record puts a value under the key, or adds one that was not there, and the table
  // stands at that point.
  ghost predicate Writes(rs: seq<LogRecord>, i: nat, t: Bytes, k: Bytes)
    requires i < |rs|
    decreases |rs|, 0
  {
    && rs[i].table == t && rs[i].key == k && TableStands(rs[..i], t)
    && (rs[i].opType == 0 || (rs[i].opType == 1 && !Held(rs[..i], t, k)))
  }

  // It is the last to do so, and nobody has deleted the key or dropped the table since.
  ghost predicate LastWrite(rs: seq<LogRecord>, i: nat, t: Bytes, k: Bytes)
    decreases |rs|, 2
  {
    i < |rs| && Writes(rs, i, t, k) && forall j :: i < j < |rs| ==> !Ends(rs, j, t, k)
  }

  ghost predicate Ends(rs: seq<LogRecord>, j: nat, t: Bytes, k: Bytes)
    requires j < |rs|
    decreases |rs|, 1
  {
    Drops(rs[j], t) || Deletes(rs[j], t, k) || Writes(rs, j, t, k)
  }

  ghost predicate Held(rs: seq<LogRecord>, t: Bytes, k: Bytes)
    decreases |rs|, 3
  {
    exists i: nat :: LastWrite(rs, i, t, k)
  }

  // Under the key stands this value.
  ghost predicate Holds(rs: seq<LogRecord>, t: Bytes, k: Bytes, v: Bytes) {
    exists i: nat :: LastWrite(rs, i, t, k) && rs[i].value == v
  }

  // ----- One record more -------------------------------------------------------------

  lemma StandsSnoc(rs: seq<LogRecord>, r: LogRecord, t: Bytes)
    ensures TableStands(rs + [r], t) <==> Creates(r, t) || (TableStands(rs, t) && !Drops(r, t))
  {
    var all, n := rs + [r], |rs|;
    if Creates(r, t) {
      assert StandsFrom(all, n, t);
    } else if TableStands(rs, t) && !Drops(r, t) {
      var i: nat :| StandsFrom(rs, i, t);
      assert StandsFrom(all, i, t);
    }
    if i: nat :| StandsFrom(all, i, t) {
      if i < n {
        assert all[i] == rs[i] && all[n] == r;
        forall j | i < j < |rs| ensures !Drops(rs[j], t) {
          assert all[j] == rs[j];
        }
        assert StandsFrom(rs, i, t);
      }
    }
  }

  lemma WritesSnoc(rs: seq<LogRecord>, r: LogRecord, i: nat, t: Bytes, k: Bytes)
    requires i < |rs|
    ensures Writes(rs + [r], i, t, k) <==> Writes(rs, i, t, k)
    ensures Ends(rs + [r], i, t, k) <==> Ends(rs, i, t, k)
  {
    assert (rs + [r])[..i] == rs[..i];
  }

  lemma LastWriteSnoc(rs: seq<LogRecord>, r: LogRecord, i: nat, t: Bytes, k: Bytes)
    requires i < |rs|
    ensures LastWrite(rs + [r], i, t, k) <==> LastWrite(rs, i, t, k) && !Ends(rs + [r], |rs|, t, k)
  {
    hide Writes, Ends;
    WritesSnoc(rs, r, i, t, k);
    forall j | i < j < |rs| ensures Ends(rs + [r], j, t, k) <==> Ends(rs, j, t, k) {
      WritesSnoc(rs, r, j, t, k);
    }
  }

  lemma NewWrite(rs: seq<LogRecord>, r: LogRecord, t: Bytes, k: Bytes)
    ensures LastWrite(rs + [r], |rs|, t, k) <==> Writes(rs + [r], |rs|, t, k)
    ensures Writes(rs + [r], |rs|, t, k) <==>
            && r.table == t && r.key == k && TableStands(rs, t)
            && (r.opType == 0 || (r.opType == 1 && !Held(rs, t, k)))
  {
    hide Held, TableStands;
    assert (rs + [r])[..|rs|] == rs;
  }

  // Only in a table that stands is anything held.
  lemma HeldStands(rs: seq<LogRecord>, i: nat, t: Bytes, k: Bytes)
    requires LastWrite(rs, i, t, k)
    ensures TableStands(rs, t)
  {
    hide Held;
    var m: nat :| StandsFrom(rs[..i], m, t);
    assert rs[..i][m] == rs[m];
    forall j | m < j < |rs| ensures !Drops(rs[j], t) {
      if j < i {
        assert rs[..i][j] == rs[j];
      } else if j > i {
        assert !Ends(rs, j, t, k);
      }
    }
    assert StandsFrom(rs, m, t);
  }

  // ----- The tables ------------------------------------------------------------------

  // What the store has to do with the records.
  ghost predicate Agrees(s: Store, rs: seq<LogRecord>, t: Bytes, k: Bytes) {
    && (t in s <==> TableStands(rs, t))
    && (t in s ==> (k in s[t] <==> Held(rs, t, k)))
    && (t in s && k in s[t] ==> forall i: nat :: LastWrite(rs, i, t, k) ==> rs[i].value == s[t][k])
  }

  lemma {:induction false} StoreAgrees(rs: seq<LogRecord>, t: Bytes, k: Bytes)
    ensures Agrees(ApplyAll(map[], rs), rs, t, k)
    decreases |rs|
  {
    hide Agrees, Update;
    if rs == [] {
      NothingYet(t, k);
    } else {
      var n := |rs| - 1;
      StoreAgrees(rs[..n], t, k);
      assert rs == rs[..n] + [rs[n]];
      ApplyAppend(map[], rs[..n], [rs[n]]);
      OneUpdate(ApplyAll(map[], rs[..n]), rs[n]);
      UpdateAgrees(ApplyAll(map[], rs[..n]), rs[..n], rs[n], t, k);
    }
  }

  lemma OneUpdate(s: Store, r: LogRecord)
    ensures ApplyAll(s, [r]) == Update(s, r).store
  {
    hide Update;
    assert [r][1..] == [];
  }

  lemma NothingYet(t: Bytes, k: Bytes)
    ensures Agrees(map[], [], t, k)
  {}

  // The record ends what was held, starts what is held now, or leaves it.
  lemma HeldSnoc(rs: seq<LogRecord>, r: LogRecord, t: Bytes, k: Bytes)
    ensures var all, n := rs + [r], |rs|;
            && (Writes(all, n, t, k) ==> forall i: nat :: LastWrite(all, i, t, k) <==> i == n)
            && (!Writes(all, n, t, k) && Ends(all, n, t, k) ==> forall i: nat :: !LastWrite(all, i, t, k))
            && (!Ends(all, n, t, k) ==> forall i: nat :: LastWrite(all, i, t, k) <==> LastWrite(rs, i, t, k))
  {
    hide LastWrite, Writes, Ends;
    var all, n := rs + [r], |rs|;
    WriteEnds(all, n, t, k);
    NewWrite(rs, r, t, k);
    forall i: nat
      ensures LastWrite(all, i, t, k) ==> i <= n
      ensures i < n ==> (LastWrite(all, i, t, k) <==> LastWrite(rs, i, t, k) && !Ends(all, n, t, k))
      ensures LastWrite(rs, i, t, k) ==> i < n
    {
      InRange(all, i, t, k);
      InRange(rs, i, t, k);
      if i < n {
        LastWriteSnoc(rs, r, i, t, k);
      }
    }
  }

  lemma InRange(rs: seq<LogRecord>, i: nat, t: Bytes, k: Bytes)
    ensures LastWrite(rs, i, t, k) ==> i < |rs|
  {}

  lemma WriteEnds(rs: seq<LogRecord>, i: nat, t: Bytes, k: Bytes)
    requires i < |rs|
    ensures Writes(rs, i, t, k) ==> Ends(rs, i, t, k)
    ensures Ends(rs, i, t, k) <==> Drops(rs[i], t) || Deletes(rs[i], t, k) || Writes(rs, i, t, k)
  {
    hide Writes;
  }

  // What one update does to one key of one table.
  lemma UpdateAt(s: Store, r: LogRecord, t: Bytes, k: Bytes)
    ensures var s' := Update(s, r).store;
            && (t in s' <==> Creates(r, t) || (t in s && !Drops(r, t)))
            && (t in s' && t !in s ==> k !in s'[t])
            && (t in s' && t in s ==>
                  if r.table == t && r.key == k && (r.opType == 0 || (r.opType == 1 && k !in s[t]))
                  then k in s'[t] && s'[t][k] == r.value
                  else if Deletes(r, t, k) then k !in s'[t]
                  else (k in s'[t] <==> k in s[t]) && (k in s[t] ==> s'[t][k] == s[t][k]))
  {}

  lemma UpdateAgrees(s: Store, rs: seq<LogRecord>, r: LogRecord, t: Bytes, k: Bytes)
    requires Agrees(s, rs, t, k)
    ensures Agrees(Update(s, r).store, rs + [r], t, k)
  {
    hide LastWrite, Writes, Ends, TableStands, Update;
    var all, n := rs + [r], |rs|;
    UpdateAt(s, r, t, k);
    StandsSnoc(rs, r, t);
    HeldSnoc(rs, r, t, k);
    NewWrite(rs, r, t, k);
    WriteEnds(all, n, t, k);
    if i: nat :| LastWrite(rs, i, t, k) {
      HeldStands(rs, i, t, k);
    }
    forall i: nat | LastWrite(rs, i, t, k) ensures i < n && all[i] == rs[i] {
      InRange(rs, i, t, k);
    }
    if Writes(all, n, t, k) {
      assert LastWrite(all, n, t, k);
    } else if Ends(all, n, t, k) {
      assert !Held(all, t, k);
    } else {
      assert Held(all, t, k) <==> Held(rs, t, k);
    }
  }

  // ----- What a get finds ------------------------------------------------------------

  lemma LastWriterWins(rs: seq<LogRecord>, t: Bytes, k: Bytes)
    ensures var (err, value) := Lookup(ApplyAll(map[], rs), t, k);
            && (err == Ok || err == TableNotExist || err == KeyNotExist)
            && (forall v :: err == Ok && value == Some(v) <==> Holds(rs, t, k, v))
            && (err == KeyNotExist <==> TableStands(rs, t) && !Held(rs, t, k))
            && (err == TableNotExist <==> !TableStands(rs, t))
            && (value.Some? <==> err == Ok)
  {
    hide LastWrite, TableStands, ApplyAll;
    var store := ApplyAll(map[], rs);
    StoreAgrees(rs, t, k);
    if i: nat :| LastWrite(rs, i, t, k) {
      HeldStands(rs, i, t, k);
      InRange(rs, i, t, k);
      assert Held(rs, t, k);
      forall v ensures Holds(rs, t, k, v) <==> v == store[t][k] {
        if v == store[t][k] {
          assert LastWrite(rs, i, t, k) && rs[i].value == v;
        }
      }
    } else {
      assert !Held(rs, t, k);
      assert forall v :: !Holds(rs, t, k, v);
    }
  }

  // ----- What a write is answered ----------------------------------------------------

  lemma WriteAnswered(rs: seq<LogRecord>, r: LogRecord)
    ensures var err := Update(ApplyAll(map[], rs), r).err;
            && (r.opType == 0 || r.opType == 2 ==> err == if TableStands(rs, r.table) then Ok else TableNotExist)
            && (r.opType == 1 ==>
                  err == if !TableStands(rs, r.table) then TableNotExist
                         else if Held(rs, r.table, r.key) then KeyExist else Ok)
            && (r.opType == 4 ==> err == Ok)
            && (r.opType == 5 ==> err == if TableStands(rs, r.table) then TableExist else Ok)
            && (r.opType == 3 || r.opType > 5 ==> err == AssertionFailed)
  {
    hide TableStands, Held, ApplyAll;
    StoreAgrees(rs, r.table, r.key);
  }
}
