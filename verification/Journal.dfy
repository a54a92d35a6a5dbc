/**
 The log as a whole: a directory of closed files and, behind a write buffer, the file that
 is being appended to.  Specifies what writing, flushing, crashing and recovering do to
 it, and proves that recovery always finds a prefix of the log that is no shorter than
 what had been flushed.
 */
module Journal {
  import opened Common
  import opened RecordFormat
  import opened Replay
  import opened FileHandler
  import opened FileLog

  const LOG_PER_FILE: nat := 5000

  datatype DiskFile = DiskFile(epoch: nat, index: nat, image: FileImage)

  datatype Current = Current(epoch: nat, index: nat, buffered: Buffered)

  datatype State = State(closed: seq<DiskFile>, current: Option<Current>)

  // Everything the kernel holds, in the order the files were made.
  function Files(j: State): seq<DiskFile> {
    if j.current.None? then j.closed
    else j.closed + [DiskFile(j.current.value.epoch, j.current.value.index, j.current.value.buffered.file)]
  }

  predicate NameExists(files: seq<DiskFile>, epoch: nat, index: nat) {
    exists k :: 0 <= k < |files| && files[k].epoch == epoch && files[k].index == index
  }

  // ----- Operations ------------------------------------------------------------------

  function CloseCurrent(j: State): State {
    match j.current
    case None => j
    case Some(c) => State(j.closed + [DiskFile(c.epoch, c.index, c.buffered.Flush().file)], None)
  }

  const EMPTY := Buffered(FileImage([], 0), [])

  // PersistLogger::OpenNewLogFile; None when the name is taken.
  function OpenNew(j: State, epoch: nat, index: nat): Option<State> {
    var j' := CloseCurrent(j);
    if NameExists(j'.closed, epoch, index) then None
    else Some(j'.(current := Some(Current(epoch, index, HeaderWritten(EMPTY)))))
  }

  predicate NeedsNewFile(j: State, logId: nat) {
    j.current.None? || logId % LOG_PER_FILE == 0
  }

  function Append(j: State, r: Entry): State
    requires j.current.Some?
  {
    var c := j.current.value;
    j.(current := Some(c.(buffered := WriteRecord(c.buffered, r))))
  }

  // PersistLogger::WriteLog
  function WriteLog(j: State, epoch: nat, r: Entry): Option<State> {
    if NeedsNewFile(j, r.logId) then
      match OpenNew(j, epoch, r.logId / LOG_PER_FILE)
      case None => None
      case Some(j') => Some(Append(j', r))
    else
      Some(Append(j, r))
  }

  // PersistLogger::FlushLog
  function FlushLog(j: State): State
    requires j.current.Some?
  {
    var c := j.current.value;
    j.(current := Some(c.(buffered := c.buffered.Flush())))
  }

  // ----- What the journal holds ------------------------------------------------------

  ghost function Flatten(parts: seq<seq<Entry>>): seq<Entry>
    decreases |parts|
  {
    if parts == [] then [] else Flatten(parts[..|parts| - 1]) + parts[|parts| - 1]
  }

  lemma FlattenSnoc(parts: seq<seq<Entry>>, p: seq<Entry>)
    ensures Flatten(parts + [p]) == Flatten(parts) + p
  {
    assert (parts + [p])[..|parts|] == parts;
  }

  ghost predicate Torn(bytes: Bytes) {
    |bytes| < 8 && bytes == Header()[..|bytes|]
  }

  // A closed file is durable and holds its records, or never got a whole header.
  ghost predicate ClosedOk(f: DiskFile, part: seq<Entry>) {
    && f.image.synced == |f.image.bytes|
    && (f.image.bytes == Header() + Frames(part) || (part == [] && Torn(f.image.bytes)))
  }

  // The buffer and the file together hold the records, the first `m` of them durably.
  ghost predicate CurrentOk(b: Buffered, tail: seq<Entry>, m: nat) {
    && b.Valid()
    && b.Whole() == Header() + Frames(tail)
    && m <= |tail|
    && (m > 0 ==> 8 + |Frames(tail[..m])| <= b.file.synced)
  }

  // The records in the closed files, those in the current one, and how many of the latter
  // are durable.
  datatype Contents = Contents(parts: seq<seq<Entry>>, tail: seq<Entry>, m: nat)

  ghost function LogOf(c: Contents): seq<Entry> { Flatten(c.parts) + c.tail }

  ghost function FlushedCount(c: Contents): nat { |Flatten(c.parts)| + c.m }

  ghost predicate Holds(j: State, c: Contents) {
    && |c.parts| == |j.closed|
    && (forall i :: 0 <= i < |j.closed| ==> ClosedOk(j.closed[i], c.parts[i]))
    && match j.current
       case None => c.tail == [] && c.m == 0
       case Some(f) => CurrentOk(f.buffered, c.tail, c.m)
  }

  // ----- Writing and flushing --------------------------------------------------------

  ghost function Closed(c: Contents, j: State): Contents {
    if j.current.None? then c else Contents(c.parts + [c.tail], [], 0)
  }

  lemma CloseKeeps(j: State, c: Contents)
    requires Holds(j, c)
    ensures Holds(CloseCurrent(j), Closed(c, j))
    ensures LogOf(Closed(c, j)) == LogOf(c)
    ensures FlushedCount(Closed(c, j)) == |LogOf(c)|
  {
    hide Frames, Header;
    if j.current.Some? {
      FlattenSnoc(c.parts, c.tail);
    }
  }

  lemma FreshFileHolds()
    ensures CurrentOk(HeaderWritten(EMPTY), [], 0)
  {
    hide Header, HeaderWritten;
    WriteHeaderAppends(EMPTY);
    assert Header() + [] == Header();
  }

  ghost function Appended(c: Contents, r: Entry): Contents {
    c.(tail := c.tail + [r])
  }

  lemma AppendKeeps(j: State, c: Contents, r: Entry)
    requires Holds(j, c) && j.current.Some?
    ensures Holds(Append(j, r), Appended(c, r))
    ensures LogOf(Appended(c, r)) == LogOf(c) + [r]
  {
    hide WriteRecord, CurrentOk, ClosedOk, Flatten;
    AppendToCurrent(j.current.value.buffered, c.tail, c.m, r);
  }

  lemma AppendToCurrent(b: Buffered, tail: seq<Entry>, m: nat, r: Entry)
    requires CurrentOk(b, tail, m)
    ensures CurrentOk(WriteRecord(b, r), tail + [r], m)
  {
    hide Header, WriteRecord, Frames, Frame, Buffered.Whole;
    WriteRecordAppendsFrame(b, r);
    FramesAppend(tail, [r]);
    FramesOfOne(r);
    assert (tail + [r])[..m] == tail[..m];
    ThreeParts(Header(), Frames(tail), Frame(r));
  }

  lemma ThreeParts(a: Bytes, b: Bytes, c: Bytes)
    ensures a + b + c == a + (b + c)
  {}

  ghost function AfterWrite(j: State, c: Contents, r: Entry): Contents {
    Appended(if NeedsNewFile(j, r.logId) then Closed(c, j) else c, r)
  }

  // Writing a record appends it to the log; nothing that was durable ceases to be, also
  // when the write closes one file and starts the next.
  lemma WriteKeeps(j: State, c: Contents, epoch: nat, r: Entry)
    requires Holds(j, c) && WriteLog(j, epoch, r).Some?
    ensures Holds(WriteLog(j, epoch, r).value, AfterWrite(j, c, r))
    ensures LogOf(AfterWrite(j, c, r)) == LogOf(c) + [r]
    ensures FlushedCount(AfterWrite(j, c, r)) >= FlushedCount(c)
  {
    hide Header, WriteRecord, Frames, HeaderWritten;
    if NeedsNewFile(j, r.logId) {
      CloseKeeps(j, c);
      FreshFileHolds();
      var j' := OpenNew(j, epoch, r.logId / LOG_PER_FILE).value;
      AppendKeeps(j', Closed(c, j), r);
    } else {
      AppendKeeps(j, c, r);
    }
  }

  ghost function Flushed(c: Contents): Contents { c.(m := |c.tail|) }

  lemma FlushKeeps(j: State, c: Contents)
    requires Holds(j, c) && j.current.Some?
    ensures Holds(FlushLog(j), Flushed(c))
    ensures LogOf(Flushed(c)) == LogOf(c)
    ensures FlushedCount(Flushed(c)) == |LogOf(c)|
  {
    hide Header, Frames;
    assert c.tail[..|c.tail|] == c.tail;
  }

  // ----- Crash and recovery ----------------------------------------------------------

  // What a crash may leave of a file: a prefix no shorter than its last fsync.
  ghost predicate CutOf(before: FileImage, after: FileImage) {
    && before.synced <= |after.bytes| <= |before.bytes|
    && after.bytes == before.bytes[..|after.bytes|]
    && after.synced == |after.bytes|
  }

  ghost predicate CrashOf(files: seq<DiskFile>, after: seq<DiskFile>) {
    && |after| == |files|
    && forall i :: 0 <= i < |files| ==>
         && after[i].epoch == files[i].epoch && after[i].index == files[i].index
         && CutOf(files[i].image, after[i].image)
  }

  datatype Recovered = Recovered(records: seq<LogRecord>, files: seq<DiskFile>, epoch: nat, maxLogId: nat)

  // One turn of the loop in PersistLogger::RecoverFromLog.
  function RecoverFile(r: Recovered, f: DiskFile): Recovered {
    var redone := Redo(f.image.bytes);
    Recovered(r.records + redone.records,
              r.files + [f.(image := FileImage(redone.bytes, |redone.bytes|))],
              if redone.valid then f.epoch else r.epoch,
              if redone.records == [] then r.maxLogId else redone.records[|redone.records| - 1].logId)
  }

  // PersistLogger::RecoverFromLog, over the files in the order of their names.
  function Recover(files: seq<DiskFile>): Recovered
    decreases |files|
  {
    if files == [] then Recovered([], [], 0, 0)
    else RecoverFile(Recover(files[..|files| - 1]), files[|files| - 1])
  }

  lemma RecoverSnoc(files: seq<DiskFile>, f: DiskFile)
    ensures Recover(files + [f]) == RecoverFile(Recover(files), f)
  {
    assert (files + [f])[..|files|] == files;
  }

  lemma RedoOfTorn(bytes: Bytes)
    requires Torn(bytes)
    ensures Redo(bytes) == Redone([], bytes, false, Eio)
  {
    TornHeader(bytes);
  }

  lemma RedoOfClosed(f: DiskFile, part: seq<Entry>)
    requires ClosedOk(f, part)
    ensures Redo(f.image.bytes).records == part
    ensures Redo(f.image.bytes).bytes == f.image.bytes
    ensures Redo(f.image.bytes).valid <==> !Torn(f.image.bytes)
  {
    hide Redo, Frames, Header;
    if f.image.bytes == Header() + Frames(part) {
      RedoOfWhole(part);
    } else {
      RedoOfTorn(f.image.bytes);
    }
  }

  // Closed files come back as they are.
  lemma {:induction false} RecoverClosed(files: seq<DiskFile>, parts: seq<seq<Entry>>)
    requires |parts| == |files| && forall i :: 0 <= i < |files| ==> ClosedOk(files[i], parts[i])
    ensures Recover(files).records == Flatten(parts)
    ensures Recover(files).files == files
    decreases |files|
  {
    hide Redo, ClosedOk, Torn, Recover, Flatten;
    if files == [] {
      RecoverNothing();
    } else {
      var n := |files| - 1;
      RecoverClosed(files[..n], parts[..n]);
      RedoOfClosed(files[n], parts[n]);
      ClosedUnchanged(files[n], parts[n]);
      assert files == files[..n] + [files[n]] && parts == parts[..n] + [parts[n]];
      RecoverSnoc(files[..n], files[n]);
      FlattenSnoc(parts[..n], parts[n]);
    }
  }

  lemma RecoverNothing()
    ensures Recover([]) == Recovered([], [], 0, 0) && Flatten([]) == []
  {}

  lemma ClosedUnchanged(f: DiskFile, part: seq<Entry>)
    requires ClosedOk(f, part)
    ensures f.(image := FileImage(f.image.bytes, |f.image.bytes|)) == f
  {}

  lemma ClosedSurvives(f: DiskFile, part: seq<Entry>, g: DiskFile)
    requires ClosedOk(f, part) && g.epoch == f.epoch && g.index == f.index && CutOf(f.image, g.image)
    ensures g == f
  {
    hide Frames, Header;
    assert f.image.bytes[..|f.image.bytes|] == f.image.bytes;
  }

  // The file that was being appended to: recovery keeps the records whose frames survived
  // whole, every durable one among them.
  lemma RedoOfCurrent(b: Buffered, tail: seq<Entry>, m: nat, image: FileImage) returns (k: nat)
    requires CurrentOk(b, tail, m) && CutOf(b.file, image)
    ensures m <= k <= |tail|
    ensures |image.bytes| < 8 ==>
              k == 0 && Redo(image.bytes) == Redone([], image.bytes, false, Eio) && Torn(image.bytes)
    ensures |image.bytes| >= 8 ==> Redo(image.bytes) == Redone(tail[..k], Header() + Frames(tail[..k]), true, Eio)
  {
    hide Redo, Frames, Header, WholeFrames;
    var cut := |image.bytes|;
    assert b.Whole()[..cut] == b.file.bytes[..cut];
    if cut < 8 {
      assert image.bytes == Header()[..cut];
      RedoOfTorn(image.bytes);
      k := 0;
    } else {
      assert image.bytes == (Header() + Frames(tail))[..cut];
      RedoOfCut(tail, cut);
      k := WholeFrames(tail, cut - 8);
      if m > 0 {
        WholeFramesAtLeast(tail, m, cut - 8);
      }
    }
  }

  // The file that was being written as the crash left it and as recovery left it, and the
  // records that came back from it.
  datatype LastFile = NoLastFile | LastFile(cut: DiskFile, back: DiskFile, kept: seq<Entry>)

  ghost predicate CameBack(j: State, c: Contents, after: seq<DiskFile>, c': Contents, last: LastFile) {
    match last
    case NoLastFile =>
      j.current.None? && after == j.closed && Recover(after).files == j.closed && c' == c
    case LastFile(cut, back, kept) =>
      && j.current.Some? && after == j.closed + [cut] && Recover(after).files == j.closed + [back]
      && c' == Contents(c.parts + [kept], [], 0) && kept <= c.tail
      && (Redo(cut.image.bytes).valid <==> !Torn(back.image.bytes))
      && (Torn(back.image.bytes) ==> kept == [])
  }

  // Whatever a crash leaves, recovery returns a prefix of the log, in order, that contains
  // every record flushed before; and what it leaves on disk holds exactly that prefix.
  lemma CrashRecovery(j: State, c: Contents, after: seq<DiskFile>) returns (c': Contents, k: nat, last: LastFile)
    requires Holds(j, c) && CrashOf(Files(j), after)
    ensures FlushedCount(c) <= k <= |LogOf(c)|
    ensures Recover(after).records == LogOf(c)[..k] == LogOf(c')
    ensures Holds(State(Recover(after).files, None), c') && FlushedCount(c') == k
    ensures CameBack(j, c, after, c', last)
  {
    hide Redo, Frames, Header, ClosedOk, Torn, CutOf, CurrentOk, Flatten, Recover;
    ClosedSurvive(j, c, after);
    RecoverClosed(j.closed, c.parts);
    if j.current.None? {
      c', k, last := c, |LogOf(c)|, NoLastFile;
      assert LogOf(c)[..k] == LogOf(c);
    } else {
      var n := |j.closed|;
      assert Files(j)[n].image == j.current.value.buffered.file;
      assert after == j.closed + [after[n]];
      last := RecoverCurrent(j, c, after[n]);
      c' := Contents(c.parts + [last.kept], [], 0);
      k := |Flatten(c.parts)| + |last.kept|;
      FlattenSnoc(c.parts, last.kept);
      PrefixOfLog(Flatten(c.parts), c.tail, last.kept);
    }
  }

  lemma PrefixOfLog(a: seq<Entry>, tail: seq<Entry>, kept: seq<Entry>)
    requires kept <= tail
    ensures (a + tail)[..|a| + |kept|] == a + kept
  {}

  lemma RecoverCurrent(j: State, c: Contents, cut: DiskFile) returns (last: LastFile)
    requires j.current.Some? && CurrentOk(j.current.value.buffered, c.tail, c.m)
    requires CutOf(j.current.value.buffered.file, cut.image)
    requires Recover(j.closed).files == j.closed
    ensures last.LastFile? && last.cut == cut && c.m <= |last.kept| && last.kept <= c.tail
    ensures Recover(j.closed + [cut]).files == j.closed + [last.back]
    ensures Recover(j.closed + [cut]).records == Recover(j.closed).records + last.kept
    ensures ClosedOk(last.back, last.kept)
    ensures Redo(cut.image.bytes).valid <==> !Torn(last.back.image.bytes)
    ensures Torn(last.back.image.bytes) ==> last.kept == []
  {
    hide Redo, Frames, Header, ClosedOk, Torn, CutOf, CurrentOk, Recover;
    var n := RedoOfCurrent(j.current.value.buffered, c.tail, c.m, cut.image);
    RecoverSnoc(j.closed, cut);
    var bytes := Redo(cut.image.bytes).bytes;
    last := LastFile(cut, cut.(image := FileImage(bytes, |bytes|)), c.tail[..n]);
    RecoveredFileOk(cut, c.tail, n);
    HeaderNotTorn(c.tail[..n]);
  }

  lemma ClosedSurvive(j: State, c: Contents, after: seq<DiskFile>)
    requires Holds(j, c) && CrashOf(Files(j), after)
    ensures |after| == |j.closed| + (if j.current.None? then 0 else 1)
    ensures after[..|j.closed|] == j.closed
    ensures j.current.None? ==> after == j.closed
  {
    hide ClosedOk, CutOf, CurrentOk;
    forall i | 0 <= i < |j.closed| ensures after[i] == j.closed[i] {
      assert Files(j)[i] == j.closed[i];
      ClosedSurvives(j.closed[i], c.parts[i], after[i]);
    }
  }

  lemma HeaderNotTorn(part: seq<Entry>)
    ensures !Torn(Header() + Frames(part))
  {}

  lemma RecoveredFileOk(f: DiskFile, tail: seq<Entry>, kept: nat)
    requires kept <= |tail|
    requires |f.image.bytes| < 8 ==> kept == 0 && Redo(f.image.bytes).bytes == f.image.bytes && Torn(f.image.bytes)
    requires |f.image.bytes| >= 8 ==> Redo(f.image.bytes).bytes == Header() + Frames(tail[..kept])
    ensures var bytes := Redo(f.image.bytes).bytes;
            ClosedOk(f.(image := FileImage(bytes, |bytes|)), tail[..kept])
  {
    hide Redo, Frames, Header;
  }
}
