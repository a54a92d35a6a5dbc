/**
 The log over a directory of files: rolling to new files, and recovery from what is there.
 What it does to the disk is what the journal prescribes.
 */
module PersistLogger {
  import opened Common
  import opened Lists
  import opened RecordFormat
  import opened Replay
  import opened FileHandler
  import opened LogNames
  import FileLog
  import Journal
  import JournalOrder
  import Crc

  // ----- Files by name ---------------------------------------------------------------

  function FileName(dir: string, f: Journal.DiskFile): string {
    NameOf(dir, f.epoch, f.index)
  }

  const SUFFIX: string := ".log"

  predicate EndsWith(name: string, suffix: string) {
    |suffix| <= |name| && name[|name| - |suffix|..] == suffix
  }

  // The log files of a directory, by their suffix, and the other files in it.
  function LogsIn(files: FileMap): FileMap {
    map n | n in files && EndsWith(n, SUFFIX) :: files[n]
  }

  function OthersIn(files: FileMap): FileMap {
    map n | n in files && !EndsWith(n, SUFFIX) :: files[n]
  }

  lemma LogChanged(files: FileMap, dir: string, epoch: nat, index: nat, image: FileImage)
    ensures var name := NameOf(dir, epoch, index);
            && LogsIn(files[name := image]) == LogsIn(files)[name := image]
            && OthersIn(files[name := image]) == OthersIn(files)
            && (name in files <==> name in LogsIn(files))
  {
    hide NameOf;
    NameIsLog(dir, epoch, index);
  }

  lemma NameIsLog(dir: string, epoch: nat, index: nat)
    ensures EndsWith(NameOf(dir, epoch, index), SUFFIX)
  {
    hide Digits;
  }

  // The directory that holds these log files.
  function DiskOf(dir: string, files: seq<Journal.DiskFile>): FileMap
    decreases |files|
  {
    if files == [] then map[]
    else
      var last := files[|files| - 1];
      DiskOf(dir, files[..|files| - 1])[FileName(dir, last) := last.image]
  }

  lemma DiskOfSnoc(dir: string, files: seq<Journal.DiskFile>, f: Journal.DiskFile)
    ensures DiskOf(dir, files + [f]) == DiskOf(dir, files)[FileName(dir, f) := f.image]
  {
    assert (files + [f])[..|files|] == files;
  }

  // A name is taken in the directory exactly if its epoch and index are.
  lemma {:induction false} NamesInDisk(dir: string, files: seq<Journal.DiskFile>, epoch: nat, index: nat)
    requires JournalOrder.Bounded(files) && epoch < UINT32 && index < UINT32
    ensures NameOf(dir, epoch, index) in DiskOf(dir, files) <==> Journal.NameExists(files, epoch, index)
    decreases |files|
  {
    hide NameOf;
    if files != [] {
      var n := |files| - 1;
      NamesInDisk(dir, files[..n], epoch, index);
      NameOrder(dir, files[n].epoch, files[n].index, epoch, index);
      NameExistsSnoc(files, epoch, index);
    }
  }

  lemma NameExistsSnoc(files: seq<Journal.DiskFile>, epoch: nat, index: nat)
    requires files != []
    ensures var last := files[|files| - 1];
            Journal.NameExists(files, epoch, index) <==>
            Journal.NameExists(files[..|files| - 1], epoch, index) || (last.epoch == epoch && last.index == index)
  {
    var n := |files| - 1;
    assert forall k :: 0 <= k < n ==> files[..n][k] == files[k];
    if Journal.NameExists(files[..n], epoch, index) {
      var k :| 0 <= k < n && files[..n][k].epoch == epoch && files[..n][k].index == index;
      assert files[k].epoch == epoch && files[k].index == index;
    }
  }

  ghost predicate InOrder(files: seq<Journal.DiskFile>) {
    forall i, k :: 0 <= i < k < |files| ==> Before(files[i].epoch, files[i].index, files[k].epoch, files[k].index)
  }

  // Replacing one file's contents.
  lemma {:induction false} DiskOfUpdate(dir: string, files: seq<Journal.DiskFile>, i: nat, image: FileImage)
    requires JournalOrder.Bounded(files) && InOrder(files) && i < |files|
    ensures FileName(dir, files[i]) in DiskOf(dir, files)
        && DiskOf(dir, files)[FileName(dir, files[i])] == files[i].image
    ensures DiskOf(dir, files[i := files[i].(image := image)]) == DiskOf(dir, files)[FileName(dir, files[i]) := image]
    decreases |files|
  {
    hide NameOf;
    var n := |files| - 1;
    var changed := files[i := files[i].(image := image)];
    if i == n {
      assert changed[..n] == files[..n];
    } else {
      DiskOfUpdate(dir, files[..n], i, image);
      assert changed[..n] == files[..n][i := files[i].(image := image)];
      NameOrder(dir, files[i].epoch, files[i].index, files[n].epoch, files[n].index);
    }
  }

  // ----- Sorted names ----------------------------------------------------------------

  ghost predicate SortedNames(names: seq<string>) {
    forall i, k :: 0 <= i < k < |names| ==> Less(names[i], names[k])
  }

  // std::set<std::string>::insert
  function InsertName(names: seq<string>, name: string): seq<string>
    decreases |names|
  {
    if names == [] || Less(name, names[0]) then [name] + names
    else if names[0] == name then names
    else [names[0]] + InsertName(names[1..], name)
  }

  lemma {:induction false} InsertKeepsOrder(names: seq<string>, name: string)
    requires SortedNames(names)
    ensures SortedNames(InsertName(names, name))
    ensures Elements(InsertName(names, name)) == Elements(names) + {name}
    decreases |names|
  {
    hide Less;
    var r := InsertName(names, name);
    if names == [] {
    } else if Less(name, names[0]) {
      forall k | 0 <= k < |names| ensures Less(name, names[k]) {
        if k > 0 {
          LessIsTransitive(name, names[0], names[k]);
        }
      }
    } else if names[0] == name {
      assert name in names;
    } else {
      LessIsTotal(name, names[0]);
      InsertKeepsOrder(names[1..], name);
      var rest := InsertName(names[1..], name);
      assert names == [names[0]] + names[1..];
      forall k | 0 <= k < |rest| ensures Less(names[0], rest[k]) {
        assert rest[k] in Elements(names[1..]) + {name};
      }
      assert Elements(r) == {names[0]} + Elements(rest);
    }
  }

  // A set of names has one order.
  lemma {:induction false} OneOrder(a: seq<string>, b: seq<string>)
    requires SortedNames(a) && SortedNames(b) && Elements(a) == Elements(b)
    ensures a == b
    decreases |a|
  {
    hide Less;
    if a == [] {
      NoElements(b);
    } else {
      assert a[0] in Elements(b) && b != [];
      assert b[0] in Elements(a);
      SortedFirst(a, b[0]);
      SortedFirst(b, a[0]);
      NotBoth(a[0], b[0]);
      SortedTail(a);
      SortedTail(b);
      OneOrder(a[1..], b[1..]);
      assert a == [a[0]] + a[1..] && b == [b[0]] + b[1..];
    }
  }

  lemma NoElements(b: seq<string>)
    ensures Elements(b) == {} <==> b == []
  {
    if b != [] {
      assert b[0] in Elements(b);
    }
  }

  lemma SortedFirst(a: seq<string>, x: string)
    requires SortedNames(a) && x in a
    ensures a[0] == x || Less(a[0], x)
  {}

  lemma NotBoth(a: string, b: string)
    ensures !(Less(a, b) && Less(b, a))
  {
    if Less(a, b) && Less(b, a) {
      LessIsTransitive(a, b, a);
      LessIsStrict(a);
    }
  }

  lemma SortedTail(a: seq<string>)
    requires SortedNames(a) && a != []
    ensures SortedNames(a[1..]) && Elements(a[1..]) == Elements(a) - {a[0]}
  {
    hide Less;
    forall x | x in a[1..] ensures x != a[0] {
      LessIsStrict(x);
      var k :| 0 <= k < |a| - 1 && a[1..][k] == x;
      assert Less(a[0], a[k + 1]);
    }
  }

  function Names(dir: string, files: seq<Journal.DiskFile>): (names: seq<string>)
    ensures |names| == |files|
    ensures forall i :: 0 <= i < |files| ==> names[i] == FileName(dir, files[i])
  {
    seq(|files|, i requires 0 <= i < |files| => FileName(dir, files[i]))
  }

  lemma {:induction false} KeysOfDisk(dir: string, files: seq<Journal.DiskFile>)
    ensures DiskOf(dir, files).Keys == Elements(Names(dir, files))
    decreases |files|
  {
    hide NameOf;
    if files != [] {
      var n := |files| - 1;
      KeysOfDisk(dir, files[..n]);
      assert Names(dir, files) == Names(dir, files[..n]) + [FileName(dir, files[n])];
    }
  }

  lemma NamesSorted(dir: string, files: seq<Journal.DiskFile>)
    requires JournalOrder.Bounded(files) && InOrder(files)
    ensures SortedNames(Names(dir, files))
  {
    hide NameOf, Less;
    forall i, k | 0 <= i < k < |files| ensures Less(FileName(dir, files[i]), FileName(dir, files[k])) {
      NameOrder(dir, files[i].epoch, files[i].index, files[k].epoch, files[k].index);
    }
  }

  // ----- Replaying a file, frame by frame --------------------------------------------

  lemma ReplayStep(file: Bytes, at: nat)
    requires at <= |file|
    ensures var r := ReadFrame(file, at);
            && (r.Failed? ==> ReplayFrom(file, at) == Replayed([], at, r.err))
            && (r.Got? ==>
                  && at < r.next <= |file|
                  && ReplayFrom(file, at) == ReplayFrom(file, r.next).(records := [r.record] + ReplayFrom(file,
                      r.next).records))
  {
    hide ReadFrame;
  }

  lemma FailureIsError(file: Bytes, at: nat)
    ensures ReadFrame(file, at).Failed? ==> ReadFrame(file, at).err != Ok
  {
    hide FromBe32, FromBeWord, DecodeBody;
  }

  class PersistLogger {
    const mLogDir: string
    const disk: Disk
    const crc: Crc.Checksums
    var mCurrentLog: FileLog.Log?
    ghost var journal: Journal.State

    ghost function Open(): set<object>
      reads this
    {
      if mCurrentLog == null then {} else {mCurrentLog.mFileHandler, mCurrentLog.mFileHandler.mBuffer}
    }

    ghost predicate Valid()
      reads this, disk, crc.crcTable, crc.crcCombineTable, Open()
    {
      && mLogDir != "" && mLogDir[|mLogDir| - 1] == '/'
      && disk.Valid() && crc.Valid()
      && JournalOrder.Bounded(Journal.Files(journal))
      && LogsIn(disk.files) == DiskOf(mLogDir, Journal.Files(journal))
      && (mCurrentLog == null <==> journal.current.None?)
      && (mCurrentLog != null ==>
            && mCurrentLog.mFileHandler.disk == disk && mCurrentLog.crc == crc
            && CurrentIs(mCurrentLog, journal.current.value))
    }

    ghost predicate CurrentIs(log: FileLog.Log, c: Journal.Current)
      requires log.mFileHandler.disk == disk && log.crc == crc
      reads disk, log.mFileHandler, log.mFileHandler.mBuffer, crc.crcTable, crc.crcCombineTable
    {
      && log.Writing()
      && log.mFileHandler.mFileName == NameOf(mLogDir, c.epoch, c.index)
      && log.mFileHandler.State() == c.buffered
    }

    lemma OpenWhenCurrent()
      requires Valid()
      ensures mCurrentLog == null <==> journal.current.None?
    {}

    // What leaves these objects alone keeps the log valid.
    twostate lemma Untouched()
      requires old(Valid()) && unchanged(this) && unchanged(disk) && unchanged(crc.crcTable)
          && unchanged(crc.crcCombineTable)
      requires forall o | o in old(Open()) :: unchanged(o)
      ensures Valid() && Open() == old(Open())
    {
      hide Valid;
    }

    // A directory with these log files in it, among others, and nothing open.
    constructor (logDir: string, disk: Disk, crc: Crc.Checksums, ghost files: seq<Journal.DiskFile>)
      requires logDir != "" && disk.Valid() && crc.Valid() && JournalOrder.Bounded(files)
      requires LogsIn(disk.files) == DiskOf(if logDir[|logDir| - 1] == '/' then logDir else logDir + "/", files)
      ensures Valid() && journal == Journal.State(files, None) && this.disk == disk && this.crc == crc
      ensures mLogDir == if logDir[|logDir| - 1] == '/' then logDir else logDir + "/"
    {
      mLogDir := if logDir[|logDir| - 1] == '/' then logDir else logDir + "/";
      this.disk := disk;
      this.crc := crc;
      mCurrentLog := null;
      journal := Journal.State(files, None);
    }

    method Dec2HexString(val: nat, bitCount: nat) returns (s: string)
      requires bitCount >= 1 && val < Pow16(bitCount)
      ensures s == Digits(val, bitCount)
    {
      var temp := Hex(val);
      PaddedHex(val, bitCount);
      s := seq(bitCount - |temp|, _ => '0') + temp;
    }

    method NeedOpenNewLogFile(id: nat) returns (need: bool)
      ensures need <==> id % Journal.LOG_PER_FILE == 0
    {
      need := id % Journal.LOG_PER_FILE == 0;
    }

    method CloseCurrentLog()
      requires Valid()
      modifies this`mCurrentLog, this`journal, disk
      modifies if mCurrentLog != null then {mCurrentLog.mFileHandler} else {}
      ensures OthersIn(disk.files) == OthersIn(old(disk.files))
      ensures Valid() && mCurrentLog == null && journal == Journal.CloseCurrent(old(journal))
    {
      hide Crc.Checksums.Valid, NameOf;
      if mCurrentLog != null {
        ghost var c := journal.current.value;
        DiskOfSnoc(mLogDir, journal.closed, Journal.DiskFile(c.epoch, c.index, c.buffered.file));
        DiskOfSnoc(mLogDir, journal.closed, Journal.DiskFile(c.epoch, c.index, c.buffered.Flush().file));
        JournalOrder.BoundedParts(journal);
        LogChanged(disk.files, mLogDir, c.epoch, c.index, c.buffered.Flush().file);
        mCurrentLog.Close();
        mCurrentLog := null;
        journal := Journal.CloseCurrent(journal);
      }
    }

    method OpenNewLogFile(epoch: nat, logId: nat) returns (err: Err)
      requires Valid() && epoch < UINT32 && logId / Journal.LOG_PER_FILE < UINT32
      modifies this`mCurrentLog, this`journal, disk, Open()
      ensures Valid() && fresh(Open() - old(Open()))
      ensures err == Ok || err == Eexist
      ensures err == Ok <==> Journal.OpenNew(old(journal), epoch, logId / Journal.LOG_PER_FILE).Some?
      ensures err == Ok ==> Some(journal) == Journal.OpenNew(old(journal), epoch, logId / Journal.LOG_PER_FILE)
      ensures err != Ok ==> journal == Journal.CloseCurrent(old(journal))
      ensures OthersIn(disk.files) == OthersIn(old(disk.files))
    {
      hide Crc.Checksums.Valid, NameOf, Journal.CloseCurrent, DiskOf, PersistLogger.CurrentIs, FileLog.HeaderWritten;
      CloseCurrentLog();
      var index := logId / Journal.LOG_PER_FILE;
      var epochDigits, indexDigits;
      Pow16Of8();
      epochDigits := Dec2HexString(epoch, 8);
      indexDigits := Dec2HexString(index, 8);
      NameParts(mLogDir, epoch, index);
      err := CreateLogFile(mLogDir + epochDigits + indexDigits + ".log", epoch, index);
      NoneOpen(journal);
    }

    method CreateLogFile(logFileName: string, ghost epoch: nat, ghost index: nat) returns (err: Err)
      requires Valid() && mCurrentLog == null && epoch < UINT32 && index < UINT32
      requires logFileName == NameOf(mLogDir, epoch, index)
      modifies this`mCurrentLog, this`journal, disk
      ensures Valid() && fresh(Open())
      ensures err == if Journal.NameExists(old(journal).closed, epoch, index) then Eexist else Ok
      ensures journal ==
              if err == Ok then
                old(journal).(current := Some(Journal.Current(epoch, index, FileLog.HeaderWritten(Journal.EMPTY))))
              else old(journal)
      ensures OthersIn(disk.files) == OthersIn(old(disk.files))
    {
      hide Crc.Checksums.Valid, NameOf, FileLog.HeaderWritten, DiskOf, LogsIn, OthersIn, Journal.Files,
           Journal.NameExists, JournalOrder.Bounded;
      ghost var b := FileLog.HeaderWritten(Journal.EMPTY);
      NoneOpen(journal);
      NamesInDisk(mLogDir, journal.closed, epoch, index);
      LogChanged(disk.files, mLogDir, epoch, index, b.file);
      FileAdded(mLogDir, journal.closed, epoch, index, b);
      var log := new FileLog.Log(disk, logFileName, crc);
      err := log.CreateFile();
      if err == Ok {
        mCurrentLog := log;
        journal := journal.(current := Some(Journal.Current(epoch, index, b)));
      }
    }

    method WriteLog(epoch: nat, r: Entry) returns (err: Err)
      requires Valid() && epoch < UINT32
      modifies this`mCurrentLog, this`journal, disk, Open()
      ensures Valid() && fresh(Open() - old(Open()))
      ensures err == Ok <==> Journal.WriteLog(old(journal), epoch, r).Some?
      ensures err == Ok ==> Some(journal) == Journal.WriteLog(old(journal), epoch, r)
      ensures OthersIn(disk.files) == OthersIn(old(disk.files))
    {
      hide Crc.Checksums.Valid, NameOf, Journal.OpenNew, Storable, DiskOf, PersistLogger.CurrentIs, Journal.Append;
      var need := NeedOpenNewLogFile(r.logId);
      if mCurrentLog == null || need {
        IndexFits(r);
        err := OpenNewLogFile(epoch, r.logId);
        if err != Ok {
          return;
        }
        NewIsOpen(old(journal), epoch, r.logId / Journal.LOG_PER_FILE);
      }
      err := Append(r);
    }

    method Append(r: Entry) returns (err: Err)
      requires Valid() && mCurrentLog != null
      modifies this`journal, disk, Open()
      ensures Valid() && mCurrentLog == old(mCurrentLog) && err == Ok
      ensures old(journal).current.Some? && journal == Journal.Append(old(journal), r)
      ensures OthersIn(disk.files) == OthersIn(old(disk.files))
    {
      hide Crc.Checksums.Valid, NameOf, Storable, FileLog.WriteRecord;
      ghost var c := journal.current.value;
      err := mCurrentLog.AppendLogRecord(r);
      journal := Journal.Append(journal, r);
      LogChanged(old(disk.files), mLogDir, c.epoch, c.index, journal.current.value.buffered.file);
      CurrentReplaced(mLogDir, old(journal), journal);
    }

    method FlushLog() returns (err: Err)
      requires Valid() && mCurrentLog != null
      modifies this`journal, disk, Open()
      ensures Valid() && mCurrentLog == old(mCurrentLog) && err == Ok
      ensures old(journal).current.Some? && journal == Journal.FlushLog(old(journal))
      ensures OthersIn(disk.files) == OthersIn(old(disk.files))
    {
      hide Crc.Checksums.Valid, NameOf;
      ghost var c := journal.current.value;
      mCurrentLog.Flush();
      journal := Journal.FlushLog(journal);
      LogChanged(old(disk.files), mLogDir, c.epoch, c.index, journal.current.value.buffered.file);
      CurrentReplaced(mLogDir, old(journal), journal);
      err := Ok;
    }

    // DirUtil::GetAllFileWithSuffix
    method GetAllFileWithSuffix(suffix: string) returns (names: seq<string>)
      ensures SortedNames(names)
      ensures Elements(names) == set n | n in disk.files && EndsWith(n, suffix)
    {
      hide Less, InsertName, EndsWith;
      names := [];
      var left := disk.files.Keys;
      assert Elements(names) == {};
      while left != {}
        invariant left <= disk.files.Keys
        invariant SortedNames(names)
        invariant Elements(names) == set n | n in disk.files.Keys - left && EndsWith(n, suffix)
        decreases |left|
      {
        var name :| name in left;
        left := left - {name};
        if EndsWith(name, suffix) {
          InsertKeepsOrder(names, name);
          names := InsertName(names, name);
        }
      }
    }

    // std::stringstream's hex digits stop at the first that is none.
    method ParseEpochFromLogName(name: string) returns (epoch: nat)
      ensures epoch == ParseEpoch(name)
    {
      var baseName := Basename(name);
      var epochString := if |baseName| < 8 then baseName else baseName[..8];
      epoch := HexValue(epochString);
    }

    // The records of a file, and whether its header was right.
    method RedoLogFile(logFileName: string) returns (valid: bool, records: seq<LogRecord>)
      requires disk.Valid() && crc.Valid() && logFileName in disk.files
      modifies disk
      ensures disk.Valid()
      ensures var redone := Redo(old(disk.files[logFileName].bytes));
              && records == redone.records && valid == redone.valid
              && disk.files == old(disk.files)[logFileName := FileImage(redone.bytes, |redone.bytes|)]
    {
      hide Crc.Checksums.Valid, HeaderError, ReplayFrom;
      ghost var file := disk.files[logFileName].bytes;
      var log := new FileLog.Log(disk, logFileName, crc);
      var err := log.OpenExisting();
      if err != Ok {
        log.Close();
        assert file + [] == file;
        return false, [];
      }
      valid := true;
      records := ReadRecords(log);
      ghost var left := log.Bytes();
      assert left + [] == left;
      log.Close();
    }

    // The loop over GetNextLogRecord.
    method ReadRecords(log: FileLog.Log) returns (records: seq<LogRecord>)
      requires log.Reading() && log.mFileHandler.mOffset == 8
      modifies log.mFileHandler, log.mFileHandler.disk
      ensures log.Reading()
      ensures var r := ReplayFrom(old(log.Bytes()), 8);
              && records == r.records
              && log.Bytes() == if r.err == Eio then old(log.Bytes())[..r.end] else old(log.Bytes())
      ensures var name := log.mFileHandler.mFileName;
              log.mFileHandler.disk.files == old(log.mFileHandler.disk.files)[name := log.mFileHandler.disk.files[name]]
    {
      hide Crc.Checksums.Valid, ReadFrame, ReplayFrom;
      ghost var file := log.Bytes();
      ghost var name := log.mFileHandler.mFileName;
      records := [];
      var err := Ok;
      while err == Ok
        invariant log.Reading()
        invariant err == Ok ==>
                    && log.mFileHandler.disk.files == old(log.mFileHandler.disk.files)
                    && ReplayFrom(file, 8) ==
                       var rest := ReplayFrom(file, log.mFileHandler.mOffset); rest.(records := records + rest.records)
        invariant err != Ok ==>
                    && log.mFileHandler.disk.files
                       == old(log.mFileHandler.disk.files)[name := log.mFileHandler.disk.files[name]]
                    && records == ReplayFrom(file, 8).records && err == ReplayFrom(file, 8).err
                    && log.Bytes() == if err == Eio then file[..ReplayFrom(file, 8).end] else file
        decreases err == Ok, |file| - log.mFileHandler.mOffset
      {
        ghost var at := log.mFileHandler.mOffset;
        ReplayStep(file, at);
        FailureIsError(file, at);
        assert log.Bytes() == file;
        var record;
        err, record := log.GetNextLogRecord();
        if record.Some? {
          assert ReadFrame(file, at) == Got(record.value, log.mFileHandler.mOffset);
          assert records + ([record.value] + ReplayFrom(file, log.mFileHandler.mOffset).records) ==
                 records + [record.value] + ReplayFrom(file, log.mFileHandler.mOffset).records;
          records := records + [record.value];
        }
      }
    }

    // One turn of the loop below: the journal has recovered one file more.
    method RedoNext(logFileName: string, ghost files: seq<Journal.DiskFile>, ghost i: nat)
      returns (valid: bool, more: seq<LogRecord>)
      requires Valid() && mCurrentLog == null
      requires JournalOrder.Bounded(files) && InOrder(files)
      requires i < |files| && logFileName == FileName(mLogDir, files[i])
      requires |Journal.Recover(files[..i]).files| == i
      requires journal == Journal.State(Journal.Recover(files[..i]).files + files[i..], None)
      modifies this`journal, disk
      ensures Valid() && mCurrentLog == null
      ensures |Journal.Recover(files[..i + 1]).files| == i + 1
      ensures journal == Journal.State(Journal.Recover(files[..i + 1]).files + files[i + 1..], None)
      ensures valid == Redo(files[i].image.bytes).valid && more == Redo(files[i].image.bytes).records
      ensures Journal.Recover(files[..i + 1]) == Journal.RecoverFile(Journal.Recover(files[..i]), files[i])
      ensures ParseEpoch(logFileName) == files[i].epoch
      ensures OthersIn(disk.files) == OthersIn(old(disk.files))
    {
      hide Crc.Checksums.Valid, NameOf, Redo, DiskOf, Journal.Recover, InOrder, JournalOrder.Bounded;
      ghost var before := journal.closed;
      NoneOpen(journal);
      NextFile(mLogDir, files, before, i);
      LogChanged(disk.files, mLogDir, files[i].epoch, files[i].index, RedoneAt(before, i)[i].image);
      valid, more := RedoLogFile(logFileName);
      journal := Journal.State(RedoneAt(before, i), None);
      NoneOpen(journal);
    }

    // Replays every log file, in the order of the names.  The process starts from epoch 0
    // and id 0.
    method RecoverFromLog() returns (records: seq<LogRecord>, epoch: nat, maxLogId: nat)
      requires Valid() && mCurrentLog == null && InOrder(journal.closed)
      modifies this`journal, disk
      ensures Valid() && mCurrentLog == null
      ensures var r := Journal.Recover(old(journal).closed);
              && records == r.records && epoch == r.epoch && maxLogId == r.maxLogId
              && journal == Journal.State(r.files, None)
      ensures OthersIn(disk.files) == OthersIn(old(disk.files))
    {
      hide Crc.Checksums.Valid, NameOf, Less, DiskOf, Journal.Recover, InOrder, JournalOrder.Bounded;
      ghost var files := journal.closed;
      NoneOpen(journal);
      var logFiles := GetAllFileWithSuffix(SUFFIX);
      assert LogsIn(disk.files).Keys == set n | n in disk.files && EndsWith(n, SUFFIX);
      AllLogNames(mLogDir, files, logFiles);
      records, epoch, maxLogId := RedoAll(logFiles, files);
    }

    // The loop over the names.
    method RedoAll(logFiles: seq<string>, ghost files: seq<Journal.DiskFile>)
      returns (records: seq<LogRecord>, epoch: nat, maxLogId: nat)
      requires Valid() && mCurrentLog == null && journal == Journal.State(files, None)
      requires JournalOrder.Bounded(files) && InOrder(files) && logFiles == Names(mLogDir, files)
      modifies this`journal, disk
      ensures Valid() && mCurrentLog == null
      ensures var r := Journal.Recover(files);
              && records == r.records && epoch == r.epoch && maxLogId == r.maxLogId
              && journal == Journal.State(r.files, None)
      ensures OthersIn(disk.files) == OthersIn(old(disk.files))
    {
      hide Crc.Checksums.Valid, DiskOf, FileName, Redo, Journal.Recover, Journal.RecoverFile, InOrder,
           JournalOrder.Bounded, ParseEpoch;
      records, epoch, maxLogId := [], 0, 0;
      Journal.RecoverNothing();
      assert files[..0] == [];
      var i := 0;
      while i < |logFiles|
        invariant 0 <= i <= |logFiles|
        invariant mCurrentLog == null && Valid() && OthersIn(disk.files) == OthersIn(old(disk.files))
        invariant var r := Journal.Recover(files[..i]);
                  && records == r.records && epoch == r.epoch && maxLogId == r.maxLogId
                  && |r.files| == i && journal == Journal.State(r.files + files[i..], None)
      {
        ghost var r := Journal.Recover(files[..i]);
        var valid, more := RedoNext(logFiles[i], files, i);
        if valid {
          epoch := ParseEpochFromLogName(logFiles[i]);
        }
        RecoverOne(r, files[i]);
        records := records + more;
        if |more| > 0 {
          maxLogId := more[|more| - 1].logId;
        }
        i := i + 1;
      }
      assert files[..i] == files;
      NoneLeft(Journal.Recover(files).files, files[i..]);
    }
  }

  lemma NoneLeft(a: seq<Journal.DiskFile>, b: seq<Journal.DiskFile>)
    ensures b == [] ==> a + b == a
  {}

  lemma RecoverOne(r: Journal.Recovered, f: Journal.DiskFile)
    ensures var redone, next := Redo(f.image.bytes), Journal.RecoverFile(r, f);
            && next.records == r.records + redone.records
            && next.epoch == (if redone.valid then f.epoch else r.epoch)
            && next.maxLogId == if redone.records == [] then r.maxLogId else redone.records[|redone.records| - 1].logId
  {
    hide Redo;
  }

  // The i-th file as recovery leaves it.
  ghost function RedoneAt(files: seq<Journal.DiskFile>, i: nat): seq<Journal.DiskFile>
    requires i < |files|
  {
    var bytes := Redo(files[i].image.bytes).bytes;
    files[i := files[i].(image := FileImage(bytes, |bytes|))]
  }

  lemma AllLogNames(dir: string, files: seq<Journal.DiskFile>, names: seq<string>)
    requires JournalOrder.Bounded(files) && InOrder(files) && SortedNames(names)
    requires Elements(names) == DiskOf(dir, files).Keys
    ensures names == Names(dir, files)
  {
    hide DiskOf, SortedNames;
    KeysOfDisk(dir, files);
    NamesSorted(dir, files);
    OneOrder(names, Names(dir, files));
  }

  // One turn of the loop: the directory has the next file's image replaced, and the journal
  // has recovered one file more.
  lemma NextFile(dir: string, files: seq<Journal.DiskFile>, before: seq<Journal.DiskFile>, i: nat)
    requires dir != "" && dir[|dir| - 1] == '/' && i < |files|
    requires JournalOrder.Bounded(files) && InOrder(files) && JournalOrder.Bounded(before)
    requires |Journal.Recover(files[..i]).files| == i && before == Journal.Recover(files[..i]).files + files[i..]
    ensures var name := FileName(dir, files[i]);
            var bytes := Redo(files[i].image.bytes).bytes;
            && name in DiskOf(dir, before) && DiskOf(dir, before)[name] == files[i].image
            && JournalOrder.Bounded(RedoneAt(before, i))
            && DiskOf(dir, RedoneAt(before, i)) == DiskOf(dir, before)[name := FileImage(bytes, |bytes|)]
            && ParseEpoch(name) == files[i].epoch
    ensures Journal.Recover(files[..i + 1]) == Journal.RecoverFile(Journal.Recover(files[..i]), files[i])
    ensures RedoneAt(before, i) == Journal.Recover(files[..i + 1]).files + files[i + 1..]
  {
    hide NameOf, Redo, DiskOf, Journal.Recover;
    assert before[i] == files[i];
    RecoveredInOrder(files, i);
    var bytes := Redo(files[i].image.bytes).bytes;
    DiskOfUpdate(dir, before, i, FileImage(bytes, |bytes|));
    EpochRoundTrip(dir, files[i].epoch, files[i].index);
    assert files[..i + 1] == files[..i] + [files[i]];
    Journal.RecoverSnoc(files[..i], files[i]);
  }

  lemma RecoveredInOrder(files: seq<Journal.DiskFile>, i: nat)
    requires i < |files| && InOrder(files) && |Journal.Recover(files[..i]).files| == i
    ensures InOrder(Journal.Recover(files[..i]).files + files[i..])
  {
    hide Journal.Recover;
    JournalOrder.RecoveredNames(files[..i]);
    var all := Journal.Recover(files[..i]).files + files[i..];
    forall k | 0 <= k < |files| ensures all[k].epoch == files[k].epoch && all[k].index == files[k].index {
      if k < i {
        assert files[..i][k] == files[k];
      }
    }
  }

  lemma IndexFits(r: Entry)
    ensures r.logId / Journal.LOG_PER_FILE < UINT32
  {}

  lemma NameParts(dir: string, epoch: nat, index: nat)
    ensures NameOf(dir, epoch, index) == dir + Digits(epoch, 8) + Digits(index, 8) + ".log"
  {}

  lemma NoneOpen(j: Journal.State)
    ensures j.current.None? ==> Journal.Files(j) == j.closed
  {}

  lemma NewIsOpen(j: Journal.State, epoch: nat, index: nat)
    requires Journal.OpenNew(j, epoch, index).Some?
    ensures Journal.OpenNew(j, epoch, index).value.current.Some?
  {}

  // The directory with one file more, to be written to.
  lemma FileAdded(dir: string, closed: seq<Journal.DiskFile>, epoch: nat, index: nat, b: Buffered)
    requires JournalOrder.Bounded(closed) && epoch < UINT32 && index < UINT32
    ensures var files := Journal.Files(Journal.State(closed, Some(Journal.Current(epoch, index, b))));
            && JournalOrder.Bounded(files)
            && DiskOf(dir, files) == DiskOf(dir, closed)[NameOf(dir, epoch, index) := b.file]
  {
    hide NameOf, DiskOf;
    DiskOfSnoc(dir, closed, Journal.DiskFile(epoch, index, b.file));
  }

  // The directory when only the file being written has changed.
  lemma CurrentReplaced(dir: string, j: Journal.State, k: Journal.State)
    requires j.current.Some? && k.current.Some? && j.closed == k.closed && JournalOrder.Bounded(Journal.Files(j))
    requires j.current.value.epoch == k.current.value.epoch && j.current.value.index == k.current.value.index
    ensures JournalOrder.Bounded(Journal.Files(k))
    ensures var c := k.current.value;
            DiskOf(dir, Journal.Files(k)) ==
            DiskOf(dir, Journal.Files(j))[NameOf(dir, c.epoch, c.index) := c.buffered.file]
  {
    hide NameOf;
    JournalOrder.BoundedParts(j);
    JournalOrder.BoundedSnoc(k);
    DiskOfSnoc(dir, j.closed, Journal.Files(j)[|j.closed|]);
    DiskOfSnoc(dir, k.closed, Journal.Files(k)[|k.closed|]);
  }
}
