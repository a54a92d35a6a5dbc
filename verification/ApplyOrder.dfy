/**
 When the order in which records are applied matters.  A response hands its records over as
 an unordered set, so a batch is applied in any order; the log is replayed in its own.
 */
module ApplyOrder {
  import opened Common
  import opened RecordFormat
  import opened DataStore

  // ----- Two operations --------------------------------------------------------------

  predicate OnKey(r: LogRecord) { r.opType == OP_PUT || r.opType == OP_ADD || r.opType == OP_DEL }

  // Two operations that cannot tell which of them goes first.
  predicate Compatible(a: LogRecord, b: LogRecord) {
    || a.table != b.table
    || (OnKey(a) && OnKey(b) && a.key != b.key)
    || (a.opType == OP_PUT && b.opType == OP_PUT && a.value == b.value)
    || (a.opType == OP_DEL && b.opType == OP_DEL)
    || (a.opType == OP_DROP_TABLE && b.opType == OP_DROP_TABLE)
  }

  // On store `s`: the same store results, and each operation reports the same error.
  ghost predicate CommuteOn(s: Store, a: LogRecord, b: LogRecord) {
    var ab := Update(Update(s, a).store, b);
    var ba := Update(Update(s, b).store, a);
    && ab.store == ba.store
    && Update(s, a).err == ba.err
    && Update(s, b).err == ab.err
  }

  // An operation seen from its table, which may not exist.
  function TableOf(s: Store, table: Bytes): Option<Table> {
    if table in s then Some(s[table]) else None
  }

  function WithTable(s: Store, table: Bytes, t: Option<Table>): Store {
    if t.Some? then s[table := t.value] else s - {table}
  }

  function Effect(t: Option<Table>, r: LogRecord): (Option<Table>, Err) {
    if !IsWrite(r.opType) then (t, AssertionFailed)
    else if r.opType == OP_DROP_TABLE then (None, Ok)
    else if r.opType == OP_ADD_TABLE then (if t.Some? then (t, TableExist) else (Some(map[]), Ok))
    else if t.None? then (t, TableNotExist)
    else if r.opType == OP_PUT then (Some(t.value[r.key := r.value]), Ok)
    else if r.opType == OP_DEL then (Some(t.value - {r.key}), Ok)
    else if r.key in t.value then (t, KeyExist)
    else (Some(t.value[r.key := r.value]), Ok)
  }

  lemma UpdateIsLocal(s: Store, r: LogRecord)
    ensures var e := Effect(TableOf(s, r.table), r);
            Update(s, r) == Outcome(WithTable(s, r.table, e.0), e.1)
  {
    if r.table in s {
      assert s[r.table := s[r.table]] == s;
    } else {
      assert s - {r.table} == s;
    }
  }

  lemma TableOfWith(s: Store, t1: Bytes, o: Option<Table>, t2: Bytes)
    ensures TableOf(WithTable(s, t1, o), t2) == if t1 == t2 then o else TableOf(s, t2)
  {}

  lemma WithTwice(s: Store, t: Bytes, o1: Option<Table>, o2: Option<Table>)
    ensures WithTable(WithTable(s, t, o1), t, o2) == WithTable(s, t, o2)
  {
    if o1.None? && o2.None? {
      assert s - {t} - {t} == s - {t};
    } else if o2.None? {
      assert s[t := o1.value] - {t} == s - {t};
    } else if o1.None? {
      assert (s - {t})[t := o2.value] == s[t := o2.value];
    }
  }

  lemma WithTwo(s: Store, t1: Bytes, o1: Option<Table>, t2: Bytes, o2: Option<Table>)
    requires t1 != t2
    ensures WithTable(WithTable(s, t1, o1), t2, o2) == WithTable(WithTable(s, t2, o2), t1, o1)
  {
    var x, y := WithTable(WithTable(s, t1, o1), t2, o2), WithTable(WithTable(s, t2, o2), t1, o1);
    assert x.Keys == y.Keys;
    forall t | t in x ensures x[t] == y[t] {}
  }

  lemma UpdateTwice(s: Store, a: LogRecord, b: LogRecord)
    requires a.table == b.table
    ensures var e := Effect(TableOf(s, a.table), a);
            var f := Effect(e.0, b);
            Update(Update(s, a).store, b) == Outcome(WithTable(s, a.table, f.0), f.1)
  {
    hide Update, Effect;
    UpdateIsLocal(s, a);
    var e := Effect(TableOf(s, a.table), a);
    UpdateIsLocal(Update(s, a).store, b);
    TableOfWith(s, a.table, e.0, a.table);
    WithTwice(s, a.table, e.0, Effect(e.0, b).0);
  }

  // On the operations' common table: the same table results and the same errors.
  ghost predicate EffectsCommute(t: Option<Table>, a: LogRecord, b: LogRecord) {
    var e, f := Effect(t, a), Effect(t, b);
    && Effect(e.0, b).0 == Effect(f.0, a).0
    && e.1 == Effect(f.0, a).1
    && f.1 == Effect(e.0, b).1
  }

  lemma CompatibleEffects(t: Option<Table>, a: LogRecord, b: LogRecord)
    requires Compatible(a, b) && a.table == b.table
    ensures EffectsCommute(t, a, b)
  {
    if t.Some? && OnKey(a) && OnKey(b) && a.key != b.key {
      var m := t.value;
      assert m[a.key := a.value][b.key := b.value] == m[b.key := b.value][a.key := a.value];
      assert m[a.key := a.value] - {b.key} == (m - {b.key})[a.key := a.value];
      assert (m - {a.key})[b.key := b.value] == m[b.key := b.value] - {a.key};
      assert m - {a.key} - {b.key} == m - {b.key} - {a.key};
    }
  }

  lemma CompatibleCommute(s: Store, a: LogRecord, b: LogRecord)
    requires Compatible(a, b)
    ensures CommuteOn(s, a, b)
  {
    hide Update, Effect, WithTable;
    if a.table == b.table {
      CompatibleEffects(TableOf(s, a.table), a, b);
      UpdateIsLocal(s, a);
      UpdateIsLocal(s, b);
      UpdateTwice(s, a, b);
      UpdateTwice(s, b, a);
    } else {
      var ea, eb := Effect(TableOf(s, a.table), a), Effect(TableOf(s, b.table), b);
      UpdateIsLocal(s, a);
      UpdateIsLocal(s, b);
      TableOfWith(s, a.table, ea.0, b.table);
      TableOfWith(s, b.table, eb.0, a.table);
      UpdateIsLocal(Update(s, a).store, b);
      UpdateIsLocal(Update(s, b).store, a);
      WithTwo(s, a.table, ea.0, b.table, eb.0);
    }
  }

  // Where two operations are not compatible, some table tells their orders apart.  The
  // errors differ, except among a put and a put or del of the same key, and an add after a
  // del, where the resulting tables do.
  predicate ErrorsCollide(a: LogRecord, b: LogRecord) {
    || a.opType == OP_ADD_TABLE || b.opType == OP_ADD_TABLE
    || (a.opType == OP_DROP_TABLE) != (b.opType == OP_DROP_TABLE)
    || (a.opType == OP_ADD && b.opType != OP_DEL) || (b.opType == OP_ADD && a.opType != OP_DEL)
  }

  // A table on which two colliding operations return different errors in the two orders.
  function CollidingTable(a: LogRecord, b: LogRecord): Option<Table> {
    if a.opType == OP_DROP_TABLE || b.opType == OP_DROP_TABLE then Some(map[])
    else if a.opType == OP_ADD_TABLE || b.opType == OP_ADD_TABLE then None
    else Some(map[])
  }

  lemma CollisionShows(a: LogRecord, b: LogRecord)
    requires IsWrite(a.opType) && IsWrite(b.opType)
    requires a.table == b.table && !Compatible(a, b) && ErrorsCollide(a, b)
    ensures var t := CollidingTable(a, b);
            || Effect(t, a).1 != Effect(Effect(t, b).0, a).1
            || Effect(t, b).1 != Effect(Effect(t, a).0, b).1
  {}

  // Otherwise both are on the same key, and on any table the results differ.
  lemma ResultsDiffer(t: Table, a: LogRecord, b: LogRecord)
    requires IsWrite(a.opType) && IsWrite(b.opType)
    requires a.table == b.table && !Compatible(a, b) && !ErrorsCollide(a, b)
    ensures OnKey(a) && OnKey(b) && a.key == b.key
    ensures Effect(Effect(Some(t), a).0, b).0 != Effect(Effect(Some(t), b).0, a).0
  {
    var x := Effect(Effect(Some(t), a).0, b).0;
    var y := Effect(Effect(Some(t), b).0, a).0;
    if a.opType == OP_DEL || b.opType == OP_DEL {
      assert (a.key in x.value) != (a.key in y.value);
    } else {
      assert x.value[a.key] != y.value[a.key];
    }
  }

  // Two operations commute on every store exactly when they are compatible.
  lemma CommuteIffCompatible(a: LogRecord, b: LogRecord)
    requires IsWrite(a.opType) && IsWrite(b.opType)
    ensures (forall s: Store :: CommuteOn(s, a, b)) <==> Compatible(a, b)
  {
    hide Update, Effect, Compatible, ErrorsCollide, CollidingTable, WithTable;
    if Compatible(a, b) {
      forall s: Store ensures CommuteOn(s, a, b) {
        CompatibleCommute(s, a, b);
      }
    } else {
      var s := Distinguishing(a, b);
      assert !CommuteOn(s, a, b);
    }
  }

  // A store on which the orders of two incompatible operations can be told apart.
  lemma Distinguishing(a: LogRecord, b: LogRecord) returns (s: Store)
    requires IsWrite(a.opType) && IsWrite(b.opType) && !Compatible(a, b)
    ensures !CommuteOn(s, a, b)
  {
    hide Update, Effect, ErrorsCollide, CollidingTable, WithTable;
    var t := if ErrorsCollide(a, b) then CollidingTable(a, b) else Some(map[]);
    s := WithTable(map[], a.table, t);
    TableOfWith(map[], a.table, t, a.table);
    UpdateIsLocal(s, a);
    UpdateIsLocal(s, b);
    UpdateTwice(s, a, b);
    UpdateTwice(s, b, a);
    if ErrorsCollide(a, b) {
      CollisionShows(a, b);
    } else {
      ResultsDiffer(map[], a, b);
      var x, y := Effect(Effect(t, a).0, b).0, Effect(Effect(t, b).0, a).0;
      TableOfWith(s, a.table, x, a.table);
      TableOfWith(s, a.table, y, a.table);
    }
  }

  // ----- Batches ---------------------------------------------------------------------

  // The same store, and the same error for every record.
  ghost predicate SameOutcome(s: Store, p: seq<LogRecord>, q: seq<LogRecord>) {
    ApplyAll(s, p) == ApplyAll(s, q) && multiset(Answers(s, p)) == multiset(Answers(s, q))
  }

  // No order of application can be told from another, on any store.
  ghost predicate OrderFree(batch: seq<LogRecord>) {
    forall s: Store, p: seq<LogRecord> | multiset(p) == multiset(batch) :: SameOutcome(s, p, batch)
  }

  ghost predicate PairwiseCompatible(batch: seq<LogRecord>) {
    forall i, k :: 0 <= i < k < |batch| ==> Compatible(batch[i], batch[k])
  }

  ghost predicate DistinctIds(batch: seq<LogRecord>) {
    forall i, k :: 0 <= i < k < |batch| ==> batch[i].logId != batch[k].logId
  }

  ghost predicate AllWrites(batch: seq<LogRecord>) {
    forall r :: r in batch ==> IsWrite(r.opType)
  }

  function Without<T>(s: seq<T>, i: nat): (r: seq<T>)
    requires i < |s|
    ensures |r| == |s| - 1
  {
    s[..i] + s[i + 1..]
  }

  lemma MultisetWithout<T>(s: seq<T>, i: nat)
    requires i < |s|
    ensures multiset(s) == multiset([s[i]]) + multiset(Without(s, i))
  {
    assert s == s[..i] + ([s[i]] + s[i + 1..]);
  }

  lemma WithoutFirst(s: seq<LogRecord>)
    requires s != []
    ensures Without(s, 0) == s[1..] && s == [s[0]] + s[1..]
  {}

  lemma WithoutLater(s: seq<LogRecord>, i: nat)
    requires 0 < i < |s|
    ensures s[1..][i - 1] == s[i] && Without(s, i) == [s[0]] + Without(s[1..], i - 1)
  {}

  lemma PairwiseWithout(batch: seq<LogRecord>, i: nat)
    requires PairwiseCompatible(batch) && i < |batch|
    ensures PairwiseCompatible(Without(batch, i))
  {
    var r := Without(batch, i);
    forall x, y | 0 <= x < y < |r| ensures Compatible(r[x], r[y]) {
      assert r[x] == batch[if x < i then x else x + 1] && r[y] == batch[if y < i then y else y + 1];
    }
  }

  lemma OneMore(s: Store, a: LogRecord, rest: seq<LogRecord>)
    ensures ApplyAll(s, [a] + rest) == ApplyAll(Update(s, a).store, rest)
    ensures Answers(s, [a] + rest) == [Answer(a, Update(s, a).err)] + Answers(Update(s, a).store, rest)
  {
    hide Update;
    assert ([a] + rest)[1..] == rest;
  }

  lemma PrependBoth(s: Store, a: LogRecord, p: seq<LogRecord>, q: seq<LogRecord>)
    requires SameOutcome(Update(s, a).store, p, q)
    ensures SameOutcome(s, [a] + p, [a] + q)
  {
    hide Update, ApplyAll, Answers;
    OneMore(s, a, p);
    OneMore(s, a, q);
  }

  lemma SwapFirstTwo(s: Store, a: LogRecord, b: LogRecord, rest: seq<LogRecord>)
    requires Compatible(a, b)
    ensures SameOutcome(s, [a] + ([b] + rest), [b] + ([a] + rest))
  {
    hide Update, ApplyAll, Answers, Compatible;
    CompatibleCommute(s, a, b);
    OneMore(s, a, [b] + rest);
    OneMore(Update(s, a).store, b, rest);
    OneMore(s, b, [a] + rest);
    OneMore(Update(s, b).store, a, rest);
  }

  lemma SameOutcomeTrans(s: Store, p: seq<LogRecord>, q: seq<LogRecord>, r: seq<LogRecord>)
    requires SameOutcome(s, p, q) && (SameOutcome(s, q, r) || SameOutcome(s, r, q))
    ensures SameOutcome(s, p, r)
  {
    hide ApplyAll, Answers;
  }

  lemma {:induction false} MoveToFront(s: Store, batch: seq<LogRecord>, i: nat)
    requires PairwiseCompatible(batch) && i < |batch|
    ensures SameOutcome(s, batch, [batch[i]] + Without(batch, i))
    decreases i
  {
    hide Update, SameOutcome, Compatible, PairwiseCompatible, Without;
    WithoutFirst(batch);
    if i > 0 {
      var a, b, tail := batch[0], batch[i], batch[1..];
      PairwiseWithout(batch, 0);
      MoveToFront(Update(s, a).store, tail, i - 1);
      var rest := Without(tail, i - 1);
      PrependBoth(s, a, tail, [b] + rest);
      WithoutLater(batch, i);
      FirstWithOther(batch, i);
      SwapFirstTwo(s, a, b, rest);
      SameOutcomeTrans(s, batch, [a] + ([b] + rest), [b] + ([a] + rest));
    } else {
      SameAsItself(s, batch);
    }
  }

  lemma SameAsItself(s: Store, p: seq<LogRecord>)
    ensures SameOutcome(s, p, p)
  {}

  lemma FirstWithOther(batch: seq<LogRecord>, i: nat)
    requires PairwiseCompatible(batch) && 0 < i < |batch|
    ensures Compatible(batch[0], batch[i])
  {}

  lemma RestIsPermutation(p: seq<LogRecord>, batch: seq<LogRecord>) returns (i: nat)
    requires p != [] && multiset(p) == multiset(batch)
    ensures i < |batch| && batch[i] == p[0] && multiset(p[1..]) == multiset(Without(batch, i))
  {
    hide Without;
    assert p[0] in multiset(batch);
    i :| 0 <= i < |batch| && batch[i] == p[0];
    MultisetWithout(p, 0);
    MultisetWithout(batch, i);
    WithoutFirst(p);
    Cancel(multiset(p[1..]), multiset(Without(batch, i)), multiset([p[0]]));
  }

  lemma Cancel(a: multiset<LogRecord>, b: multiset<LogRecord>, c: multiset<LogRecord>)
    requires c + a == c + b
    ensures a == b
  {
    assert a == (c + a) - c;
    assert b == (c + b) - c;
  }

  lemma {:induction false} AnyOrder(s: Store, p: seq<LogRecord>, batch: seq<LogRecord>)
    requires PairwiseCompatible(batch) && multiset(p) == multiset(batch)
    ensures SameOutcome(s, p, batch)
    decreases |p|
  {
    hide Update, SameOutcome, PairwiseCompatible;
    assert |p| == |multiset(p)| && |batch| == |multiset(batch)|;
    if p == [] {
      assert batch == p;
      SameAsItself(s, p);
    } else {
      WithoutFirst(p);
      var i := RestIsPermutation(p, batch);
      PairwiseWithout(batch, i);
      var rest := Without(batch, i);
      AnyOrder(Update(s, p[0]).store, p[1..], rest);
      PrependBoth(s, p[0], p[1..], rest);
      MoveToFront(s, batch, i);
      SameOutcomeTrans(s, p, [p[0]] + rest, batch);
    }
  }

  // ----- The converse ----------------------------------------------------------------

  ghost function Others(batch: seq<LogRecord>, i: nat, k: nat): seq<LogRecord>
    requires i < k < |batch|
  {
    Without(Without(batch, k), i)
  }

  lemma OthersOf(batch: seq<LogRecord>, i: nat, k: nat)
    requires i < k < |batch|
    ensures multiset(batch) == multiset([batch[i], batch[k]]) + multiset(Others(batch, i, k))
    ensures forall r :: r in Others(batch, i, k) ==> exists j :: 0 <= j < |batch| && j != i && j != k && batch[j] == r
  {
    MultisetWithout(batch, k);
    MultisetWithout(Without(batch, k), i);
    var rest := Others(batch, i, k);
    forall r | r in rest ensures exists j :: 0 <= j < |batch| && j != i && j != k && batch[j] == r {
      var x :| 0 <= x < |rest| && rest[x] == r;
      var y := if x < i then x else x + 1;
      assert batch[if y < k then y else y + 1] == r;
    }
  }

  lemma OthersAreDifferent(batch: seq<LogRecord>, i: nat, k: nat)
    requires DistinctIds(batch) && i < k < |batch|
    ensures batch[i] != batch[k] && batch[i] !in Others(batch, i, k) && batch[k] !in Others(batch, i, k)
  {
    OthersOf(batch, i, k);
  }

  lemma PairThenRest(a: LogRecord, b: LogRecord, rest: seq<LogRecord>)
    ensures multiset([a] + ([b] + rest)) == multiset([a, b]) + multiset(rest)
    ensures multiset(rest + [a, b]) == multiset([a, b]) + multiset(rest)
    ensures multiset([a, b]) == multiset([b, a])
  {
    assert [a] + ([b] + rest) == [a, b] + rest;
  }

  // Two records that stand behind or before the others, in either order.
  lemma OrderFreePair(s: Store, batch: seq<LogRecord>, i: nat, k: nat)
    requires OrderFree(batch) && i < k < |batch|
    ensures var a, b, rest := batch[i], batch[k], Others(batch, i, k);
            && SameOutcome(s, [a] + ([b] + rest), [b] + ([a] + rest))
            && SameOutcome(s, rest + [a, b], rest + [b, a])
  {
    hide SameOutcome, Others, OrderFree;
    var a, b, rest := batch[i], batch[k], Others(batch, i, k);
    OthersOf(batch, i, k);
    PairThenRest(a, b, rest);
    PairThenRest(b, a, rest);
    Unordered(s, batch, [a] + ([b] + rest), [b] + ([a] + rest));
    Unordered(s, batch, rest + [a, b], rest + [b, a]);
  }

  lemma Unordered(s: Store, batch: seq<LogRecord>, p: seq<LogRecord>, q: seq<LogRecord>)
    requires OrderFree(batch) && multiset(p) == multiset(batch) && multiset(q) == multiset(batch)
    ensures SameOutcome(s, p, q)
  {
    hide SameOutcome;
    SameOutcomeTrans(s, p, batch, q);
  }

  lemma OnTheSameTable(a: LogRecord, b: LogRecord)
    requires !Compatible(a, b)
    ensures a.table == b.table
  {}

  // Where errors collide, the pair is put first, on the table that shows it.
  lemma CollisionTellsOrder(batch: seq<LogRecord>, i: nat, k: nat)
    requires AllWrites(batch) && DistinctIds(batch) && i < k < |batch|
    requires !Compatible(batch[i], batch[k]) && ErrorsCollide(batch[i], batch[k])
    ensures !OrderFree(batch)
  {
    hide Update, Effect, CollidingTable, Compatible, ErrorsCollide, Others, WithTable, OrderFree, DistinctIds,
         SameOutcome;
    if OrderFree(batch) {
      var a, b, rest := batch[i], batch[k], Others(batch, i, k);
      OnTheSameTable(a, b);
      OthersAreDifferent(batch, i, k);
      var t := CollidingTable(a, b);
      var s := WithTable(map[], a.table, t);
      OrderFreePair(s, batch, i, k);
      TableOfWith(map[], a.table, t, a.table);
      UpdateIsLocal(s, a);
      UpdateIsLocal(s, b);
      UpdateTwice(s, a, b);
      UpdateTwice(s, b, a);
      PairFirst(s, a, b, rest);
      CollisionShows(a, b);
    }
  }

  lemma PairFirst(s: Store, a: LogRecord, b: LogRecord, rest: seq<LogRecord>)
    requires a != b && a !in rest && b !in rest
    requires SameOutcome(s, [a] + ([b] + rest), [b] + ([a] + rest))
    ensures Update(s, a).err == Update(Update(s, b).store, a).err
    ensures Update(s, b).err == Update(Update(s, a).store, b).err
  {
    hide Update, ApplyAll, Answers;
    var sa, sb := Update(s, a).store, Update(s, b).store;
    OneMore(s, a, [b] + rest);
    OneMore(sa, b, rest);
    OneMore(s, b, [a] + rest);
    OneMore(sb, a, rest);
    var p, q := Answers(s, [a] + ([b] + rest)), Answers(s, [b] + ([a] + rest));
    SameElement(p, q, p[0]);
    SameElement(p, q, p[1]);
  }

  lemma SameElement(p: seq<Answer>, q: seq<Answer>, x: Answer)
    requires multiset(p) == multiset(q) && x in p
    ensures x in q
  {
    assert x in multiset(p);
  }

  // A batch whose operations on `table` are all on keys leaves the table in being.
  lemma {:induction false} TableStays(s: Store, rest: seq<LogRecord>, table: Bytes)
    requires TableOf(s, table).Some?
    requires forall r :: r in rest && r.table == table ==> OnKey(r)
    ensures TableOf(ApplyAll(s, rest), table).Some?
    decreases |rest|
  {
    hide Update, Effect, WithTable, TableOf;
    if rest != [] {
      var r := rest[0];
      UpdateIsLocal(s, r);
      TableOfWith(s, r.table, Effect(TableOf(s, r.table), r).0, table);
      if r.table == table {
        KeyEffectKeeps(TableOf(s, table), r);
      }
      TableStays(Update(s, r).store, rest[1..], table);
    }
  }

  lemma KeyEffectKeeps(t: Option<Table>, r: LogRecord)
    requires t.Some? && OnKey(r)
    ensures Effect(t, r).0.Some?
  {}

  lemma PairLast(s: Store, rest: seq<LogRecord>, a: LogRecord, b: LogRecord)
    requires SameOutcome(s, rest + [a, b], rest + [b, a])
    ensures var u := ApplyAll(s, rest);
            Update(Update(u, a).store, b).store == Update(Update(u, b).store, a).store
  {
    hide Update, ApplyAll, Answers;
    ApplyAppend(s, rest, [a, b]);
    ApplyAppend(s, rest, [b, a]);
    ApplyTwo(ApplyAll(s, rest), a, b);
    ApplyTwo(ApplyAll(s, rest), b, a);
  }

  lemma ApplyTwo(u: Store, a: LogRecord, b: LogRecord)
    ensures ApplyAll(u, [a, b]) == Update(Update(u, a).store, b).store
  {
    hide Update;
    assert [a, b][1..] == [b] && [b][1..] == [];
    assert ApplyAll(u, [a, b]) == ApplyAll(Update(u, a).store, [b]);
  }

  // Where no errors collide anywhere in the batch, the pair is put last: the table is still
  // there, and the results differ.
  lemma ResultsTellOrder(batch: seq<LogRecord>, i: nat, k: nat)
    requires i < k < |batch| && !Compatible(batch[i], batch[k])
    requires AllWrites(batch) && NoCollision(batch)
    ensures !OrderFree(batch)
  {
    hide Update, ApplyAll, Effect, WithTable, OrderFree, SameOutcome, Others;
    if OrderFree(batch) {
      var a, b, rest := batch[i], batch[k], Others(batch, i, k);
      var s := WithTable(map[], a.table, Some(map[]));
      TableOfWith(map[], a.table, Some(map[]), a.table);
      OthersOnKeys(batch, i, k);
      TableStays(s, rest, a.table);
      OrderFreePair(s, batch, i, k);
      PairLast(s, rest, a, b);
      DifferOn(ApplyAll(s, rest), a, b);
    }
  }

  ghost predicate NoCollision(batch: seq<LogRecord>) {
    forall x, y :: 0 <= x < y < |batch| && !Compatible(batch[x], batch[y]) ==> !ErrorsCollide(batch[x], batch[y])
  }

  lemma OthersOnKeys(batch: seq<LogRecord>, i: nat, k: nat)
    requires i < k < |batch| && !Compatible(batch[i], batch[k]) && AllWrites(batch) && NoCollision(batch)
    ensures forall r :: r in Others(batch, i, k) && r.table == batch[i].table ==> OnKey(r)
  {
    hide Others;
    OthersOf(batch, i, k);
    forall r | r in Others(batch, i, k) && r.table == batch[i].table ensures OnKey(r) {
      var j :| 0 <= j < |batch| && j != i && j != k && batch[j] == r;
      assert !ErrorsCollide(batch[i], batch[k]);
      if j < i {
        assert Compatible(batch[j], batch[i]) || !ErrorsCollide(batch[j], batch[i]);
      } else {
        assert Compatible(batch[i], batch[j]) || !ErrorsCollide(batch[i], batch[j]);
      }
    }
  }

  lemma DifferOn(u: Store, a: LogRecord, b: LogRecord)
    requires IsWrite(a.opType) && IsWrite(b.opType)
    requires !Compatible(a, b) && !ErrorsCollide(a, b) && TableOf(u, a.table).Some?
    ensures Update(Update(u, a).store, b).store != Update(Update(u, b).store, a).store
  {
    hide Update, Effect, WithTable;
    var t := TableOf(u, a.table);
    ResultsDiffer(t.value, a, b);
    UpdateTwice(u, a, b);
    UpdateTwice(u, b, a);
    TableOfWith(u, a.table, Effect(Effect(t, a).0, b).0, a.table);
    TableOfWith(u, a.table, Effect(Effect(t, b).0, a).0, a.table);
  }

  // A batch may be applied in any order, with the same store and the same answer to every
  // request on whatever store it meets, exactly when its operations are pairwise compatible.
  lemma OrderFreeIffCompatible(batch: seq<LogRecord>)
    requires AllWrites(batch) && DistinctIds(batch)
    ensures OrderFree(batch) <==> PairwiseCompatible(batch)
  {
    hide Compatible, ErrorsCollide, SameOutcome, Update;
    if PairwiseCompatible(batch) {
      forall s: Store, p: seq<LogRecord> | multiset(p) == multiset(batch) ensures SameOutcome(s, p, batch) {
        AnyOrder(s, p, batch);
      }
    } else {
      var i, k :| 0 <= i < k < |batch| && !Compatible(batch[i], batch[k]);
      if NoCollision(batch) {
        ResultsTellOrder(batch, i, k);
      } else {
        var x, y :| 0 <= x < y < |batch| && !Compatible(batch[x], batch[y]) && ErrorsCollide(batch[x], batch[y]);
        CollisionTellsOrder(batch, x, y);
      }
    }
  }
}
