/**
 Numbers in the journal: records carry their position in the log, each file holds the ids
 of one quotient, and file names grow.  From this follows exactly when the name of a new
 file is already taken.
 */
module JournalOrder {
  import opened Common
  import opened RecordFormat
  import opened Replay
  import FileHandler
  import opened LogNames
  import opened Journal
  import opened FileLog

  // In the order of their names, which begin with epoch 1.
  ghost predicate Sorted(files: seq<DiskFile>) {
    && (files != [] ==> files[0].epoch > 0)
    && forall i, k :: 0 <= i < k < |files| ==>
         Before(files[i].epoch, files[i].index, files[k].epoch, files[k].index)
  }

  // The n-th record has id n.
  ghost predicate Numbered(log: seq<Entry>) {
    forall i :: 0 <= i < |log| ==> log[i].logId == i + 1
  }

  ghost predicate SameQuotient(index: nat, part: seq<Entry>) {
    forall i :: 0 <= i < |part| ==> part[i].logId / LOG_PER_FILE == index
  }

  // The epoch recovery would take from the files: that of the last one with a whole header.
  ghost function ValidEpoch(files: seq<DiskFile>): nat { Recover(files).epoch }

  ghost predicate AllBefore(files: seq<DiskFile>, epoch: nat) {
    forall i :: 0 <= i < |files| ==> files[i].epoch < epoch
  }

  // The last file was begun in this epoch by an earlier process, which did not live to
  // make its header durable.
  ghost predicate Stuck(j: State, epoch: nat) {
    j.current.None? && j.closed != [] && j.closed[|j.closed| - 1].epoch == epoch
  }

  ghost predicate EpochOk(j: State, c: Contents, epoch: nat)
    requires |c.parts| == |j.closed|
  {
    match j.current
    case None =>
      && epoch == ValidEpoch(j.closed) + 1
      && (!Stuck(j, epoch) ==> AllBefore(j.closed, epoch))
      && (Stuck(j, epoch) ==>
            var last := |j.closed| - 1;
            && AllBefore(j.closed[..last], epoch)
            && Torn(j.closed[last].image.bytes)
            && j.closed[last].index == (|LogOf(c)| + 1) / LOG_PER_FILE)
    case Some(f) =>
      && f.epoch == epoch && c.tail != []
      && (|| (AllBefore(j.closed, epoch) && epoch == ValidEpoch(j.closed) + 1)
          || (j.closed != [] && j.closed[|j.closed| - 1].epoch == epoch && !Torn(j.closed[|j.closed| - 1].image.bytes)))
  }

  ghost predicate Order(j: State, c: Contents, epoch: nat) {
    && |c.parts| == |j.closed|
    && Sorted(Files(j))
    && Numbered(LogOf(c))
    && (forall i :: 0 <= i < |j.closed| ==> SameQuotient(j.closed[i].index, c.parts[i]))
    && (j.current.Some? ==> SameQuotient(j.current.value.index, c.tail))
    && EpochOk(j, c, epoch)
  }

  // ----- Writing ---------------------------------------------------------------------

  lemma NumberedAppend(log: seq<Entry>, r: Entry)
    requires Numbered(log) && r.logId == |log| + 1
    ensures Numbered(log + [r])
  {}

  lemma SortedSnoc(files: seq<DiskFile>, f: DiskFile)
    requires Sorted(files)
    requires files != [] ==> Before(files[|files| - 1].epoch, files[|files| - 1].index, f.epoch, f.index)
    requires files == [] ==> f.epoch > 0
    ensures Sorted(files + [f])
  {}

  lemma NoSuchName(files: seq<DiskFile>, epoch: nat, index: nat)
    requires Sorted(files)
    requires files != [] ==> Before(files[|files| - 1].epoch, files[|files| - 1].index, epoch, index)
    ensures !NameExists(files, epoch, index)
  {
    var last := |files| - 1;
    forall k | 0 <= k < |files| ensures files[k].epoch != epoch || files[k].index != index {
      if k < last {
        assert Before(files[k].epoch, files[k].index, files[last].epoch, files[last].index);
      }
    }
  }

  lemma LastOfTail(c: Contents, index: nat)
    requires c.tail != [] && Numbered(LogOf(c)) && SameQuotient(index, c.tail)
    ensures |LogOf(c)| / LOG_PER_FILE == index
  {
    assert LogOf(c)[|LogOf(c)| - 1] == c.tail[|c.tail| - 1];
  }

  // In every journal that the program can have produced, the name of the file for the next
  // record is taken exactly when the process is stuck behind a file with a torn header.
  lemma NewNameTaken(j: State, c: Contents, epoch: nat, r: Entry)
    requires Order(j, c, epoch) && r.logId == |LogOf(c)| + 1
    ensures WriteLog(j, epoch, r).None? <==> Stuck(j, epoch)
  {
    var index := r.logId / LOG_PER_FILE;
    if Stuck(j, epoch) {
      var last := |j.closed| - 1;
      assert NameExists(j.closed, epoch, index);
    } else if NeedsNewFile(j, r.logId) {
      var closed := CloseCurrent(j).closed;
      if j.current.Some? {
        LastOfTail(c, j.current.value.index);
        NextQuotient(|LogOf(c)|);
        SameNames(Files(j), closed);
      }
      NoSuchName(closed, epoch, index);
    }
  }

  lemma NextQuotient(n: nat)
    requires (n + 1) % LOG_PER_FILE == 0
    ensures n / LOG_PER_FILE < (n + 1) / LOG_PER_FILE
  {}

  lemma SameNames(a: seq<DiskFile>, b: seq<DiskFile>)
    requires Sorted(a) && |a| == |b|
    requires forall i :: 0 <= i < |a| ==> a[i].epoch == b[i].epoch && a[i].index == b[i].index
    ensures Sorted(b)
  {}

  lemma WriteOrder(j: State, c: Contents, epoch: nat, r: Entry)
    requires Holds(j, c) && Order(j, c, epoch) && r.logId == |LogOf(c)| + 1 && !Stuck(j, epoch)
    ensures WriteLog(j, epoch, r).Some?
    ensures Order(WriteLog(j, epoch, r).value, AfterWrite(j, c, r), epoch)
  {
    hide WriteRecord, HeaderWritten, ValidEpoch, Torn, Frames, ClosedOk, EpochOk, Sorted, SameQuotient, Numbered;
    NewNameTaken(j, c, epoch, r);
    WriteKeeps(j, c, epoch, r);
    NumberedAppend(LogOf(c), r);
    if NeedsNewFile(j, r.logId) {
      RollOrder(j, c, epoch, r);
    } else {
      AppendOrder(j, c, epoch, r);
    }
  }

  lemma AppendOrder(j: State, c: Contents, epoch: nat, r: Entry)
    requires Order(j, c, epoch) && r.logId == |LogOf(c)| + 1 && j.current.Some? && !NeedsNewFile(j, r.logId)
    requires Numbered(LogOf(Appended(c, r)))
    ensures Order(Append(j, r), Appended(c, r), epoch)
  {
    hide Storable, WriteRecord, ValidEpoch, Torn;
    SameNames(Files(j), Files(Append(j, r)));
    LastOfTail(c, j.current.value.index);
    SameFile(|LogOf(c)|);
  }

  lemma SameFile(n: nat)
    requires (n + 1) % LOG_PER_FILE != 0
    ensures (n + 1) / LOG_PER_FILE == n / LOG_PER_FILE
  {}

  lemma RollOrder(j: State, c: Contents, epoch: nat, r: Entry)
    requires Holds(j, c) && Order(j, c, epoch) && r.logId == |LogOf(c)| + 1 && !Stuck(j, epoch)
    requires NeedsNewFile(j, r.logId) && WriteLog(j, epoch, r).Some?
    requires Numbered(LogOf(AfterWrite(j, c, r)))
    ensures Order(WriteLog(j, epoch, r).value, AfterWrite(j, c, r), epoch)
  {
    hide WriteLog, AfterWrite, Sorted, SameQuotient, EpochOk, Numbered, Holds, Files, LogOf, Stuck;
    RollSorted(j, c, epoch, r);
    RollEpoch(j, c, epoch, r);
    RollQuotients(j, c, epoch, r);
  }

  // The closed files keep theirs, and the new one has that of its first record.
  lemma RollQuotients(j: State, c: Contents, epoch: nat, r: Entry)
    requires Holds(j, c) && Order(j, c, epoch) && NeedsNewFile(j, r.logId) && WriteLog(j, epoch, r).Some?
    ensures var j', c' := WriteLog(j, epoch, r).value, AfterWrite(j, c, r);
            && |c'.parts| == |j'.closed|
            && (forall i :: 0 <= i < |j'.closed| ==> SameQuotient(j'.closed[i].index, c'.parts[i]))
            && (j'.current.Some? ==> SameQuotient(j'.current.value.index, c'.tail))
  {
    hide WriteRecord, HeaderWritten, ValidEpoch, Torn, Storable, Sorted, EpochOk, Numbered, ClosedOk, CurrentOk;
  }

  lemma RollSorted(j: State, c: Contents, epoch: nat, r: Entry)
    requires Order(j, c, epoch) && r.logId == |LogOf(c)| + 1 && !Stuck(j, epoch)
    requires NeedsNewFile(j, r.logId) && WriteLog(j, epoch, r).Some?
    ensures Sorted(Files(WriteLog(j, epoch, r).value))
  {
    hide WriteRecord, HeaderWritten, ValidEpoch, Torn, Storable, Sorted;
    var j' := WriteLog(j, epoch, r).value;
    var closed := CloseCurrent(j).closed;
    if j.current.Some? {
      LastOfTail(c, j.current.value.index);
      NextQuotient(|LogOf(c)|);
      SameNames(Files(j), closed);
    }
    SortedSnoc(closed, Files(j')[|closed|]);
    assert Files(j') == closed + [Files(j')[|closed|]];
  }

  lemma RollEpoch(j: State, c: Contents, epoch: nat, r: Entry)
    requires Holds(j, c) && |c.parts| == |j.closed| && EpochOk(j, c, epoch) && !Stuck(j, epoch)
    requires NeedsNewFile(j, r.logId) && WriteLog(j, epoch, r).Some?
    ensures |AfterWrite(j, c, r).parts| == |WriteLog(j, epoch, r).value.closed|
    ensures EpochOk(WriteLog(j, epoch, r).value, AfterWrite(j, c, r), epoch)
  {
    hide WriteRecord, HeaderWritten, ValidEpoch, Torn, Frames, ClosedOk, CurrentOk, Storable;
    if j.current.Some? {
      ClosedNotTorn(j.current.value.buffered, c.tail, c.m);
    }
  }

  lemma ClosedNotTorn(b: FileHandler.Buffered, tail: seq<Entry>, m: nat)
    requires CurrentOk(b, tail, m)
    ensures !Torn(b.Flush().file.bytes)
  {}

  lemma FlushOrder(j: State, c: Contents, epoch: nat)
    requires Order(j, c, epoch) && j.current.Some?
    ensures Order(FlushLog(j), Flushed(c), epoch)
  {
    hide ValidEpoch, Torn;
    SameNames(Files(j), Files(FlushLog(j)));
    assert LogOf(Flushed(c)) == LogOf(c);
  }

  // ----- Recovery --------------------------------------------------------------------

  // Recovery restores the order under the next epoch, with the id counter at the last
  // record's number.
  lemma RecoveryOrder(j: State, c: Contents, epoch: nat, after: seq<DiskFile>) returns (c': Contents, k: nat)
    requires Holds(j, c) && Order(j, c, epoch) && CrashOf(Files(j), after)
    ensures FlushedCount(c) <= k <= |LogOf(c)|
    ensures Recover(after).records == LogOf(c)[..k] == LogOf(c')
    ensures Holds(State(Recover(after).files, None), c') && FlushedCount(c') == k
    ensures Order(State(Recover(after).files, None), c', Recover(after).epoch + 1)
    ensures Recover(after).maxLogId == k
  {
    hide ClosedOk, Frames, Header, Redo, Torn, CurrentOk, Recover, EpochOk, Sorted, SameQuotient, Numbered;
    var last;
    c', k, last := CrashRecovery(j, c, after);
    PrefixNumbered(LogOf(c), k);
    RecoveredMaxId(after);
    LastNumber(LogOf(c'));
    RecoveredSorted(Files(j), after);
    RecoveredQuotients(j, c, epoch, after, c', last);
    RecoveredEpoch(j, c, epoch, after, c', last);
  }

  lemma LastNumber(log: seq<Entry>)
    requires Numbered(log)
    ensures |log| == if log == [] then 0 else log[|log| - 1].logId
  {}

  lemma RecoveredSorted(files: seq<DiskFile>, after: seq<DiskFile>)
    requires Sorted(files) && CrashOf(files, after)
    ensures Sorted(Recover(after).files)
  {
    hide CutOf, Recover;
    RecoveredNames(after);
    SameNames(files, after);
    SameNames(after, Recover(after).files);
  }

  lemma RecoveredQuotients(j: State, c: Contents, epoch: nat, after: seq<DiskFile>, c': Contents, last: LastFile)
    requires Order(j, c, epoch) && CrashOf(Files(j), after) && CameBack(j, c, after, c', last)
    ensures var files := Recover(after).files;
            && |c'.parts| == |files|
            && forall i :: 0 <= i < |files| ==> SameQuotient(files[i].index, c'.parts[i])
  {
    hide CutOf, Recover, EpochOk, Redo, Torn, Sorted;
    RecoveredNames(after);
    if last.LastFile? {
      var n := |j.closed|;
      assert Files(j)[n].index == j.current.value.index;
      assert after[n].index == last.cut.index;
      assert Recover(after).files[n] == last.back;
    }
  }

  lemma PrefixNumbered(log: seq<Entry>, k: nat)
    requires Numbered(log) && k <= |log|
    ensures Numbered(log[..k])
  {}

  lemma {:induction false} RecoveredMaxId(files: seq<DiskFile>)
    ensures var r := Recover(files);
            r.maxLogId == if r.records == [] then 0 else r.records[|r.records| - 1].logId
    decreases |files|
  {
    hide Redo;
    if files != [] {
      RecoveredMaxId(files[..|files| - 1]);
    }
  }

  lemma {:induction false} RecoveredNames(files: seq<DiskFile>)
    ensures var r := Recover(files).files;
            |r| == |files| &&
            forall i :: 0 <= i < |files| ==> r[i].epoch == files[i].epoch && r[i].index == files[i].index
    decreases |files|
  {
    hide Redo;
    if files != [] {
      RecoveredNames(files[..|files| - 1]);
    }
  }

  // The file that was being written is either the last valid one now, or the torn first
  // file of its epoch.
  lemma RecoveredEpoch(j: State, c: Contents, epoch: nat, after: seq<DiskFile>, c': Contents, last: LastFile)
    requires Holds(j, c) && Order(j, c, epoch) && CrashOf(Files(j), after) && CameBack(j, c, after, c', last)
    requires Holds(State(Recover(after).files, None), c')
    ensures EpochOk(State(Recover(after).files, None), c', Recover(after).epoch + 1)
  {
    hide ClosedOk, Frames, Header, Redo, Torn, CurrentOk, Recover, Sorted, CutOf, Flatten, SameQuotient, Numbered;
    match last
    case NoLastFile =>
    case LastFile(cut, back, kept) =>
      var n := |j.closed|;
      RecoveredNames(after);
      assert Files(j)[n].epoch == epoch && after[n] == cut && Recover(after).files[n] == back;
      RecoverSnoc(j.closed, cut);
      RecoverSnoc(j.closed, back);
      RedoOfClosed(back, kept);
      FlattenSnoc(c.parts, kept);
      if Torn(back.image.bytes) {
        TornEpoch(j, c, epoch);
        FirstOfTail(c, j.current.value.index);
        assert LogOf(c') == Flatten(c.parts);
      } else {
        assert Files(j)[..n] == j.closed;
        SortedEpochs(Files(j), j.closed, epoch);
      }
      assert (j.closed + [back])[..n] == j.closed;
  }

  lemma FirstOfTail(c: Contents, index: nat)
    requires c.tail != [] && Numbered(LogOf(c)) && SameQuotient(index, c.tail)
    ensures (|Flatten(c.parts)| + 1) / LOG_PER_FILE == index
  {
    hide Flatten;
    assert LogOf(c)[|Flatten(c.parts)|] == c.tail[0];
  }

  // Behind a torn file, recovery takes the epoch of the last valid file before it.
  lemma TornEpoch(j: State, c: Contents, epoch: nat)
    requires Holds(j, c) && Order(j, c, epoch) && j.current.Some?
    ensures || (AllBefore(j.closed, epoch) && epoch == ValidEpoch(j.closed) + 1)
            || (ValidEpoch(j.closed) == epoch && AllBefore(j.closed, epoch + 1))
  {
    hide ClosedOk, Frames, Header, Redo, Torn;
    if j.closed != [] && j.closed[|j.closed| - 1].epoch == epoch {
      var last := |j.closed| - 1;
      RedoOfClosed(j.closed[last], c.parts[last]);
      assert j.closed == j.closed[..last] + [j.closed[last]];
      RecoverSnoc(j.closed[..last], j.closed[last]);
      SortedEpochs(Files(j), j.closed, epoch);
    }
  }

  lemma SortedEpochs(files: seq<DiskFile>, closed: seq<DiskFile>, epoch: nat)
    requires Sorted(files) && |files| == |closed| + 1 && files[..|closed|] == closed
    requires files[|closed|].epoch == epoch
    ensures AllBefore(closed, epoch + 1)
  {
    forall i | 0 <= i < |closed| ensures closed[i].epoch < epoch + 1 {
      assert closed[i] == files[i];
    }
  }

  // ----- Torn files ------------------------------------------------------------------

  // The last file of the directory has no whole header and is the first of its epoch.
  predicate TornFirst(files: seq<DiskFile>) {
    && files != []
    && var last := |files| - 1;
    && |files[last].image.bytes| < 8
    && (last == 0 || files[last - 1].epoch != files[last].epoch)
  }

  lemma ShortIsInvalid(bytes: Bytes)
    ensures |bytes| < 8 ==> !Redo(bytes).valid
    ensures |Redo(bytes).bytes| < 8 <==> |bytes| < 8
  {
    hide ReplayFrom;
    var h := HeaderError(bytes);
  }

  lemma {:induction false} RecoveredEpochAmong(files: seq<DiskFile>, bound: nat)
    requires forall i :: 0 <= i < |files| ==> files[i].epoch <= bound
    ensures Recover(files).epoch <= bound
    decreases |files|
  {
    hide Redo;
    if files != [] {
      RecoveredEpochAmong(files[..|files| - 1], bound);
    }
  }

  // After a restart the name of the next log file is taken exactly if the directory ended in
  // a torn file that was the first of its epoch; the directory tells before the start.
  lemma StuckIffTornFirst(files: seq<DiskFile>, c: Contents)
    requires var r := Recover(files); Order(State(r.files, None), c, r.epoch + 1)
    ensures var r := Recover(files); Stuck(State(r.files, None), r.epoch + 1) <==> TornFirst(files)
  {
    hide Redo, Recover, Order, TornFirst, Stuck, Sorted, EpochOk;
    if files == [] {
      NothingStuck(Recover(files).epoch + 1);
    } else {
      SameLast(files);
      OrderParts(State(Recover(files).files, None), c, Recover(files).epoch + 1);
      TornIsStuck(files, c);
      StuckIsTorn(files, c);
    }
  }

  lemma OrderParts(j: State, c: Contents, epoch: nat)
    requires Order(j, c, epoch) && j.current.None?
    ensures |c.parts| == |j.closed| && Sorted(j.closed) && EpochOk(j, c, epoch)
  {
    hide Sorted, EpochOk, Numbered, SameQuotient;
  }

  lemma NothingStuck(epoch: nat)
    ensures Recover([]).files == [] && !TornFirst([]) && !Stuck(State([], None), epoch)
  {}

  // What recovery does to the last file.
  lemma SameLast(files: seq<DiskFile>)
    requires files != []
    ensures var last, r := |files| - 1, Recover(files);
            && |r.files| == |files|
            && (|r.files[last].image.bytes| < 8 <==> |files[last].image.bytes| < 8)
            && (|files[last].image.bytes| < 8 ==> r.epoch == Recover(files[..last]).epoch)
  {
    hide Redo, Recover;
    RecoveredNames(files);
    var last := |files| - 1;
    assert files == files[..last] + [files[last]];
    RecoverSnoc(files[..last], files[last]);
    ShortIsInvalid(files[last].image.bytes);
  }

  lemma TornIsStuck(files: seq<DiskFile>, c: Contents)
    requires files != []
    requires var r := Recover(files);
             && |r.files| == |files| == |c.parts| && Sorted(r.files)
             && EpochOk(State(r.files, None), c, r.epoch + 1)
             && (|files[|files| - 1].image.bytes| < 8 ==> r.epoch == Recover(files[..|files| - 1]).epoch)
    ensures TornFirst(files) ==> Stuck(State(Recover(files).files, None), Recover(files).epoch + 1)
  {
    hide Recover, Sorted, Torn;
    if TornFirst(files) {
      RecoveredNames(files);
      EarlierEpochs(files, Recover(files).files);
      RecoveredEpochAmong(files[..|files| - 1], files[|files| - 1].epoch - 1);
    }
  }

  lemma StuckIsTorn(files: seq<DiskFile>, c: Contents)
    requires files != []
    requires var last, r := |files| - 1, Recover(files);
             && |r.files| == |files| == |c.parts|
             && EpochOk(State(r.files, None), c, r.epoch + 1)
             && (|r.files[last].image.bytes| < 8 <==> |files[last].image.bytes| < 8)
    ensures Stuck(State(Recover(files).files, None), Recover(files).epoch + 1) ==> TornFirst(files)
  {
    hide Recover;
    var last, r := |files| - 1, Recover(files);
    if Stuck(State(r.files, None), r.epoch + 1) && last > 0 {
      RecoveredNames(files);
      assert r.files[..last][last - 1].epoch < r.epoch + 1;
    }
  }

  // Everything before the first file of an epoch is of an earlier epoch.
  lemma EarlierEpochs(files: seq<DiskFile>, sorted: seq<DiskFile>)
    requires Sorted(sorted) && |sorted| == |files| && files != []
    requires forall i :: 0 <= i < |files| ==> sorted[i].epoch == files[i].epoch && sorted[i].index == files[i].index
    requires var last := |files| - 1; last == 0 || files[last - 1].epoch != files[last].epoch
    ensures var last := |files| - 1;
            files[last].epoch > 0 && forall i :: 0 <= i < last ==> files[..last][i].epoch <= files[last].epoch - 1
  {
    var last := |files| - 1;
    forall i | 0 <= i < last ensures files[i].epoch <= files[last].epoch - 1 {
      assert Before(sorted[last - 1].epoch, sorted[last - 1].index, sorted[last].epoch, sorted[last].index);
      if i < last - 1 {
        assert Before(sorted[i].epoch, sorted[i].index, sorted[last - 1].epoch, sorted[last - 1].index);
      }
    }
    if last > 0 {
      assert files[0].epoch <= files[last].epoch - 1;
    }
  }

  // ----- The range of the names ------------------------------------------------------

  // What the eight digits of a name hold.
  predicate Bounded(files: seq<DiskFile>) {
    forall i :: 0 <= i < |files| ==> files[i].epoch < UINT32 && files[i].index < UINT32
  }

  lemma BoundedSnoc(j: State)
    requires j.current.Some? && Bounded(j.closed) && j.current.value.epoch < UINT32 && j.current.value.index < UINT32
    ensures Bounded(Files(j))
  {}

  lemma BoundedParts(j: State)
    requires Bounded(Files(j))
    ensures Bounded(CloseCurrent(j).closed) && Bounded(j.closed)
    ensures j.current.Some? ==> j.current.value.epoch < UINT32 && j.current.value.index < UINT32
  {
    forall i | 0 <= i < |j.closed| ensures j.closed[i].epoch < UINT32 && j.closed[i].index < UINT32 {
      assert Files(j)[i] == j.closed[i];
    }
    if j.current.Some? {
      assert Files(j)[|j.closed|].epoch == j.current.value.epoch;
    }
  }

  lemma WriteBounded(j: State, epoch: nat, r: Entry)
    requires Bounded(Files(j)) && epoch < UINT32 && WriteLog(j, epoch, r).Some?
    ensures Bounded(Files(WriteLog(j, epoch, r).value))
  {
    hide WriteRecord, HeaderWritten, Bounded;
    BoundedParts(j);
    var j' := WriteLog(j, epoch, r).value;
    assert r.logId / LOG_PER_FILE <= r.logId;
    BoundedSnoc(j');
  }

  lemma FlushBounded(j: State)
    requires Bounded(Files(j)) && j.current.Some?
    ensures Bounded(Files(FlushLog(j)))
  {
    hide Bounded;
    BoundedParts(j);
    BoundedSnoc(FlushLog(j));
  }

  lemma RecoverBounded(files: seq<DiskFile>, after: seq<DiskFile>)
    requires Bounded(files) && CrashOf(files, after)
    ensures Bounded(Recover(after).files)
  {
    hide Recover, CutOf;
    RecoveredNames(after);
  }

  // No file is of a later epoch than the process.
  lemma EpochsUpTo(j: State, c: Contents, epoch: nat)
    requires Order(j, c, epoch)
    ensures forall i :: 0 <= i < |Files(j)| ==> Files(j)[i].epoch <= epoch
  {
    hide Recover, Torn;
    if j.current.Some? {
      assert Files(j)[..|j.closed|] == j.closed;
      SortedEpochs(Files(j), j.closed, epoch);
      assert forall i :: 0 <= i < |j.closed| ==> Files(j)[i] == j.closed[i];
    } else if Stuck(j, epoch) {
      assert forall i :: 0 <= i < |j.closed| - 1 ==> j.closed[..|j.closed| - 1][i] == j.closed[i];
    }
  }

  // So the next process is of the next epoch at most.
  lemma NextEpoch(j: State, c: Contents, epoch: nat, after: seq<DiskFile>)
    requires Order(j, c, epoch) && CrashOf(Files(j), after)
    ensures Recover(after).epoch <= epoch
  {
    hide Recover, CutOf, Order;
    EpochsUpTo(j, c, epoch);
    RecoveredEpochAmong(after, epoch);
  }
}
