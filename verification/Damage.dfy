/**
 Damage in the middle of a log: recovery goes on with the files behind a damaged one, so
 that what it returns may not be a prefix of the log any more.
 */
module Damage {
  import opened Common
  import opened RecordFormat
  import opened Replay
  import opened Journal
  import opened JournalOrder

  // The records of all files but the damaged one come back, and of that one what replaying
  // it gives.
  lemma {:induction false} RecoverAround(before: seq<DiskFile>, f: DiskFile, after: seq<DiskFile>,
      parts: seq<seq<Entry>>, rest: seq<seq<Entry>>)
    requires |parts| == |before| && forall i :: 0 <= i < |before| ==> ClosedOk(before[i], parts[i])
    requires |rest| == |after| && forall i :: 0 <= i < |after| ==> ClosedOk(after[i], rest[i])
    ensures Recover(before + [f] + after).records == Flatten(parts) + Redo(f.image.bytes).records + Flatten(rest)
    decreases |after|
  {
    hide Redo, ClosedOk, Recover, Flatten;
    if after == [] {
      RecoverClosed(before, parts);
      RecoverSnoc(before, f);
      RecoverNothing();
      assert before + [f] + after == before + [f];
    } else {
      var n := |after| - 1;
      RecoverAround(before, f, after[..n], parts, rest[..n]);
      RedoOfClosed(after[n], rest[n]);
      RecoverSnoc(before + [f] + after[..n], after[n]);
      FlattenSnoc(rest[..n], rest[n]);
      assert before + [f] + after == before + [f] + after[..n] + [after[n]];
      assert rest == rest[..n] + [rest[n]];
      assert Flatten(parts) + Redo(f.image.bytes).records + Flatten(rest[..n]) + rest[n]
          == Flatten(parts) + Redo(f.image.bytes).records + (Flatten(rest[..n]) + rest[n]);
    }
  }

  lemma {:induction false} FlattenEmpty(parts: seq<seq<Entry>>)
    ensures Flatten(parts) == [] <==> forall i :: 0 <= i < |parts| ==> parts[i] == []
    decreases |parts|
  {
    if parts != [] {
      var n := |parts| - 1;
      FlattenEmpty(parts[..n]);
      if Flatten(parts) == [] {
        forall i | 0 <= i < |parts| ensures parts[i] == [] {
          assert i < n ==> parts[..n][i] == [];
        }
      }
    }
  }

  // With records missing in the middle, the numbers behind the gap no longer fit.
  lemma GapShows(a: seq<Entry>, part: seq<Entry>, kept: seq<LogRecord>, b: seq<Entry>)
    requires Numbered(a + part + b) && kept <= part && kept != part
    ensures a + kept + b <= a + part + b <==> b == []
  {
    hide Storable;
    var log, got := a + part + b, a + kept + b;
    if b != [] {
      var n, m := |a| + |kept|, |a| + |part|;
      assert log[m] == b[0] && got[n] == b[0];
      assert log[m].logId == m + 1 && log[n].logId == n + 1;
    } else {
      assert got == log[..|a| + |kept|];
    }
  }

  // One file of an intact directory replaced by one that gives back only some first records
  // of its own: the rest of the directory is replayed all the same, and what comes back is a
  // prefix of the log if and only if no later file holds a record.
  lemma OneDamaged(files: seq<DiskFile>, c: Contents, i: nat, f: DiskFile, kept: seq<LogRecord>)
    requires Holds(State(files, None), c) && Numbered(LogOf(c)) && i < |files|
    requires Redo(f.image.bytes).records == kept && kept <= c.parts[i] && kept != c.parts[i]
    ensures var r := Recover(files[i := f]).records;
            && r == Flatten(c.parts[..i]) + kept + Flatten(c.parts[i + 1..])
            && (r <= LogOf(c) <==> forall k :: i < k < |files| ==> c.parts[k] == [])
  {
    hide Redo, ClosedOk, Recover, Flatten, Numbered, Storable, LogOf;
    var parts, rest := c.parts[..i], c.parts[i + 1..];
    IntactAround(files, c, i);
    RecoverAround(files[..i], f, files[i + 1..], parts, rest);
    assert files[i := f] == files[..i] + [f] + files[i + 1..];
    LogAround(c, i);
    GapShows(Flatten(parts), c.parts[i], kept, Flatten(rest));
    FlattenEmpty(rest);
    assert forall k :: i < k < |files| ==> c.parts[k] == rest[k - i - 1];
    assert forall k :: 0 <= k < |rest| ==> rest[k] == c.parts[k + i + 1];
  }

  lemma {:induction false} FlattenAppend(a: seq<seq<Entry>>, b: seq<seq<Entry>>)
    ensures Flatten(a + b) == Flatten(a) + Flatten(b)
    decreases |b|
  {
    hide Storable, Flatten;
    if b == [] {
      RecoverNothing();
      assert a + b == a && Flatten(a) + [] == Flatten(a);
    } else {
      var n := |b| - 1;
      FlattenAppend(a, b[..n]);
      FlattenSnoc(a + b[..n], b[n]);
      FlattenSnoc(b[..n], b[n]);
      assert a + b == a + b[..n] + [b[n]] && b == b[..n] + [b[n]];
      ThreeRecords(Flatten(a), Flatten(b[..n]), b[n]);
    }
  }

  lemma ThreeRecords(a: seq<Entry>, b: seq<Entry>, c: seq<Entry>)
    ensures a + b + c == a + (b + c)
  {}

  // A file of an intact directory, cut open at one of its records.
  ghost predicate FileAt(files: seq<DiskFile>, c: Contents, i: nat, rs: seq<Entry>, r: Entry, more: seq<Entry>) {
    && Holds(State(files, None), c) && Numbered(LogOf(c))
    && i < |files| && c.parts[i] == rs + [r] + more
  }

  ghost function WithBytes(files: seq<DiskFile>, i: nat, bytes: Bytes): seq<DiskFile>
    requires i < |files|
  {
    files[i := files[i].(image := files[i].image.(bytes := bytes))]
  }

  // Any damage to a stored header: this file gives back nothing, is left byte for byte, and
  // its epoch does not count; all other files are replayed.
  lemma HeaderDamaged(files: seq<DiskFile>, c: Contents, i: nat, bytes: Bytes)
    requires Holds(State(files, None), c) && Numbered(LogOf(c)) && i < |files| && !RightHeader(bytes)
    ensures var after := Recover(WithBytes(files, i, bytes));
            && after.records == Flatten(c.parts[..i]) + Flatten(c.parts[i + 1..])
            && (after.records <= LogOf(c) <==>
                  c.parts[i] == [] || forall k :: i < k < |files| ==> c.parts[k] == [])
            && i < |after.files| && after.files[i].image.bytes == bytes
            && after.epoch == Recover(files[..i] + files[i + 1..]).epoch
  {
    hide Redo, Holds, ClosedOk, Recover, Flatten, Numbered, Storable, LogOf, RightHeader;
    IntactAround(files, c, i);
    var damaged := WithBytes(files, i, bytes);
    var parts, rest := c.parts[..i], c.parts[i + 1..];
    DamagedHeader(bytes);
    RecoverAround(files[..i], damaged[i], files[i + 1..], parts, rest);
    assert damaged == files[..i] + [damaged[i]] + files[i + 1..];
    assert Flatten(parts) + [] == Flatten(parts);
    LogAround(c, i);
    EpochWithout(files[..i], damaged[i], files[i + 1..]);
    RedoneFile(damaged, i);
    if c.parts[i] == [] {
      assert Flatten(parts) + c.parts[i] + Flatten(rest) == Flatten(parts) + Flatten(rest);
    } else {
      OneDamaged(files, c, i, damaged[i], []);
    }
  }

  lemma {:induction false} EpochWithout(before: seq<DiskFile>, f: DiskFile, after: seq<DiskFile>)
    requires !Redo(f.image.bytes).valid
    ensures Recover(before + [f] + after).epoch == Recover(before + after).epoch
    decreases |after|
  {
    hide Redo, Recover;
    if after == [] {
      RecoverSnoc(before, f);
      assert before + [f] + after == before + [f] && before + after == before;
    } else {
      var n := |after| - 1;
      EpochWithout(before, f, after[..n]);
      RecoverSnoc(before + [f] + after[..n], after[n]);
      RecoverSnoc(before + after[..n], after[n]);
      assert before + [f] + after == before + [f] + after[..n] + [after[n]];
      assert before + after == before + after[..n] + [after[n]];
    }
  }

  // Damage to a stored body, inside four consecutive bytes: this record and those behind it
  // in its file are passed over, and the log goes on with the next file.
  lemma BodyDamaged(files: seq<DiskFile>, c: Contents, i: nat, rs: seq<Entry>, r: Entry, more: seq<Entry>,
      body: Bytes, window: nat)
    requires FileAt(files, c, i, rs, r, more)
    requires |body| == |StoredBody(r)| && body != StoredBody(r)
    requires forall k :: 0 <= k < |body| && !(window <= k < window + 4) ==> body[k] == StoredBody(r)[k]
    ensures var file := Header() + Frames(rs) + (Frame(r)[..16] + body + Frames(more));
            var records := Recover(WithBytes(files, i, file)).records;
            && records == Flatten(c.parts[..i]) + rs + Flatten(c.parts[i + 1..])
            && (records <= LogOf(c) <==> forall k :: i < k < |files| ==> c.parts[k] == [])
  {
    hide Redo, Holds, Recover, Flatten, Numbered, Storable, Frames, Frame, Header, StoredBody;
    var file := Header() + Frames(rs) + (Frame(r)[..16] + body + Frames(more));
    DamagedFrame(rs, r, body, window, Frames(more));
    PartOf(rs, r, more);
    OneDamaged(files, c, i, WithBytes(files, i, file)[i], rs);
  }

  // Damage to a stored checksum: the same.
  lemma ChecksumDamaged(files: seq<DiskFile>, c: Contents, i: nat, rs: seq<Entry>, r: Entry, more: seq<Entry>,
      field: Bytes)
    requires FileAt(files, c, i, rs, r, more)
    requires |field| == 4 && field != Frame(r)[4..8]
    ensures var file := Header() + Frames(rs) + (Frame(r)[..4] + field + Frame(r)[8..] + Frames(more));
            var records := Recover(WithBytes(files, i, file)).records;
            && records == Flatten(c.parts[..i]) + rs + Flatten(c.parts[i + 1..])
            && (records <= LogOf(c) <==> forall k :: i < k < |files| ==> c.parts[k] == [])
  {
    hide Redo, Holds, Recover, Flatten, Numbered, Storable, Frames, Frame, Header, StoredBody;
    var file := Header() + Frames(rs) + (Frame(r)[..4] + field + Frame(r)[8..] + Frames(more));
    DamagedChecksum(rs, r, field, Frames(more));
    PartOf(rs, r, more);
    OneDamaged(files, c, i, WithBytes(files, i, file)[i], rs);
  }

  // Damage to a stored log id and operation: everything comes back, with the one record
  // changed, and nothing tells.
  lemma NumbersDamaged(files: seq<DiskFile>, c: Contents, i: nat, rs: seq<Entry>, r: Entry, more: seq<Entry>,
      id: nat, op: nat)
    requires FileAt(files, c, i, rs, r, more) && id < UINT32 && op < UINT32
    ensures var file := Header() + Frames(rs) + (Frame(r)[..8] + Be32(id) + Be32(op) + Frame(r)[16..] + Frames(more));
            var before, behind := Flatten(c.parts[..i]) + rs, more + Flatten(c.parts[i + 1..]);
            && LogOf(c) == before + [r] + behind
            && Recover(WithBytes(files, i, file)).records == before + [r.(logId := id, opType := op)] + behind
  {
    hide Redo, Holds, ClosedOk, Recover, Flatten, Numbered, Storable, Frames, Frame, Header, Be32, LogOf;
    IntactAround(files, c, i);
    var file := Header() + Frames(rs) + (Frame(r)[..8] + Be32(id) + Be32(op) + Frame(r)[16..] + Frames(more));
    var parts, rest := c.parts[..i], c.parts[i + 1..];
    var changed := WithBytes(files, i, file);
    DamagedNumbers(rs, r, id, op, more);
    RecoverAround(files[..i], changed[i], files[i + 1..], parts, rest);
    assert changed == files[..i] + [changed[i]] + files[i + 1..];
    LogAround(c, i);
    Regrouped(Flatten(parts), rs, r, more, Flatten(rest));
    Regrouped(Flatten(parts), rs, r.(logId := id, opType := op), more, Flatten(rest));
  }

  lemma Regrouped(a: seq<Entry>, rs: seq<Entry>, r: LogRecord, more: seq<Entry>, b: seq<Entry>)
    ensures a + (rs + [r] + more) + b == a + rs + [r] + (more + b)
  {}

  lemma IntactAround(files: seq<DiskFile>, c: Contents, i: nat)
    requires Holds(State(files, None), c) && i < |files|
    ensures |c.parts| == |files| && c.tail == []
    ensures forall k :: 0 <= k < i ==> ClosedOk(files[..i][k], c.parts[..i][k])
    ensures var later, rest := files[i + 1..], c.parts[i + 1..];
            forall k :: 0 <= k < |later| ==> ClosedOk(later[k], rest[k])
  {
    hide ClosedOk;
  }

  // The log, taken apart around one of its files.
  lemma LogAround(c: Contents, i: nat)
    requires i < |c.parts| && c.tail == []
    ensures LogOf(c) == Flatten(c.parts[..i]) + c.parts[i] + Flatten(c.parts[i + 1..])
  {
    hide Flatten, Storable;
    var parts, rest := c.parts[..i], c.parts[i + 1..];
    assert c.parts == parts + [c.parts[i]] + rest;
    FlattenSnoc(parts, c.parts[i]);
    FlattenAppend(parts + [c.parts[i]], rest);
    assert LogOf(c) == Flatten(c.parts) + [] == Flatten(c.parts);
  }

  // Damage to a stored length, so that it reaches past the end of the file: the same, and
  // what is passed over is cut off the file as well.
  lemma LengthDamaged(files: seq<DiskFile>, c: Contents, i: nat, rs: seq<Entry>, r: Entry, more: seq<Entry>, len: nat)
    requires FileAt(files, c, i, rs, r, more)
    requires len < UINT32 && 16 + len > |Frame(r)| + |Frames(more)|
    ensures var file := Header() + Frames(rs) + (Be32(len) + Frame(r)[4..] + Frames(more));
            var after := Recover(WithBytes(files, i, file));
            && after.records == Flatten(c.parts[..i]) + rs + Flatten(c.parts[i + 1..])
            && (after.records <= LogOf(c) <==> forall k :: i < k < |files| ==> c.parts[k] == [])
            && i < |after.files| && after.files[i].image.bytes == Header() + Frames(rs)
  {
    hide Redo, Holds, Recover, Flatten, Numbered, Storable, Frames, Frame, Header, StoredBody, Be32;
    var file := Header() + Frames(rs) + (Be32(len) + Frame(r)[4..] + Frames(more));
    var damaged := WithBytes(files, i, file);
    DamagedLength(rs, r, len, more);
    PartOf(rs, r, more);
    OneDamaged(files, c, i, damaged[i], rs);
    RedoneFile(damaged, i);
  }

  lemma PartOf(rs: seq<Entry>, r: Entry, more: seq<Entry>)
    ensures rs <= rs + [r] + more && rs != rs + [r] + more
  {
    assert |rs + [r] + more| > |rs|;
  }

  lemma {:induction false} RedoneFile(files: seq<DiskFile>, i: nat)
    requires i < |files|
    ensures |Recover(files).files| == |files|
    ensures Recover(files).files[i].image.bytes == Redo(files[i].image.bytes).bytes
    decreases |files|
  {
    hide Redo;
    RecoveredNames(files);
    var n := |files| - 1;
    RecoveredNames(files[..n]);
    if i < n {
      RedoneFile(files[..n], i);
    }
  }
}
