/**
 A file behind a write buffer.  A file is what the kernel holds of it and how much of that
 an fsync has made durable; transfers may be short or interrupted, as the disk's list of
 coming answers says.
 */
module FileHandler {
  import opened Common

  datatype FileImage = FileImage(bytes: Bytes, synced: nat)

  datatype Answer = Interrupted | AtMost(count: nat)

  const LOG_FILE_BUFFER_SIZE: nat := 262144  // 256 << 10

  // ----- The buffered file as a value ------------------------------------------------

  datatype Buffered = Buffered(file: FileImage, pending: Bytes)
  {
    // Everything that has been written, wherever it is now.
    function Whole(): Bytes { file.bytes + pending }

    predicate Valid() { file.synced <= |file.bytes| && |pending| <= LOG_FILE_BUFFER_SIZE }

    function Write(data: Bytes): Buffered {
      if |data| > LOG_FILE_BUFFER_SIZE then
        Buffered(file.(bytes := file.bytes + pending + data), [])
      else if LOG_FILE_BUFFER_SIZE < |pending| + |data| then
        Buffered(file.(bytes := file.bytes + pending), data)
      else
        Buffered(file, pending + data)
    }

    function Flush(): Buffered {
      Buffered(FileImage(Whole(), |Whole()|), [])
    }
  }

  datatype Call = WriteCall(data: Bytes) | FlushCall

  function Run(b: Buffered, calls: seq<Call>): Buffered
    decreases |calls|
  {
    if calls == [] then b
    else
      var b' := if calls[0].WriteCall? then b.Write(calls[0].data) else b.Flush();
      Run(b', calls[1..])
  }

  function DataOf(calls: seq<Call>): Bytes
    decreases |calls|
  {
    if calls == [] then []
    else (if calls[0].WriteCall? then calls[0].data else []) + DataOf(calls[1..])
  }

  // Buffering neither loses, duplicates nor reorders a byte, keeps the buffer within its
  // capacity, and never touches what is already durable.
  lemma {:induction false} BufferingIsTransparent(b: Buffered, calls: seq<Call>)
    requires b.Valid()
    ensures var r := Run(b, calls);
            && r.Valid()
            && r.Whole() == b.Whole() + DataOf(calls)
            && b.file.bytes <= r.file.bytes
            && b.file.synced <= r.file.synced
            && (calls != [] && calls[|calls| - 1].FlushCall? ==>
                  r.pending == [] && r.file.synced == |r.Whole()|)
    decreases |calls|
  {
    if calls != [] {
      var c := calls[0];
      var b' := if c.WriteCall? then b.Write(c.data) else b.Flush();
      assert b'.Whole() == b.Whole() + (if c.WriteCall? then c.data else []);
      BufferingIsTransparent(b', calls[1..]);
      if |calls| == 1 {
        assert calls[1..] == [];
      }
    }
  }

  // ----- The disk --------------------------------------------------------------------

  type FileMap = map<string, FileImage>

  function FileAppended(files: FileMap, name: string, data: Bytes): FileMap
    requires name in files
  {
    files[name := files[name].(bytes := files[name].bytes + data)]
  }

  lemma FileAppendedInTwo(files: FileMap, name: string, data: Bytes, k: nat, n: nat)
    requires name in files && k + n <= |data|
    ensures FileAppended(files, name, data[..0]) == files
    ensures FileAppended(FileAppended(files, name, data[..k]), name, data[k..][..n]) ==
            FileAppended(files, name, data[..k + n])
  {
    var b := files[name].bytes;
    assert b + data[..0] == b;
    assert data[..k] + data[k..][..n] == data[..k + n];
    assert b + data[..k] + data[k..][..n] == b + data[..k + n];
  }

  class Disk {
    var files: FileMap
    // How the coming transfers turn out; once used up, transfers are complete.
    var answers: seq<Answer>

    ghost predicate Valid()
      reads this
    {
      forall n :: n in files ==> files[n].synced <= |files[n].bytes|
    }

    // The files are opened for appending and every write starts at their end, so whether
    // the offset or the append flag decides where the bytes go makes no difference.
    method Pwrite(name: string, data: Bytes, offset: nat) returns (ret: int)
      requires Valid() && name in files && |data| > 0
      requires offset == |files[name].bytes|
      modifies this
      ensures Valid() && |answers| <= old(|answers|)
      ensures ret == -1 ==> files == old(files) && |answers| < old(|answers|)
      ensures ret != -1 ==>
                1 <= ret <= |data| && files == FileAppended(old(files), name, data[..ret])
    {
      var a := AtMost(|data|);
      if |answers| > 0 {
        a := answers[0];
        answers := answers[1..];
      }
      if a.Interrupted? {
        return -1;
      }
      ret := Clip(a.count, |data|);
      files := files[name := files[name].(bytes := files[name].bytes + data[..ret])];
    }

    method Pread(name: string, count: nat, offset: nat) returns (data: Bytes)
      requires Valid() && name in files && count > 0
      modifies this`answers
      ensures |answers| <= old(|answers|)
      ensures offset >= |files[name].bytes| ==> data == []
      ensures offset < |files[name].bytes| ==>
                1 <= |data| <= count && offset + |data| <= |files[name].bytes| &&
                data == files[name].bytes[offset..offset + |data|]
    {
      var bytes := files[name].bytes;
      if offset >= |bytes| {
        return [];
      }
      var n := if count <= |bytes| - offset then count else |bytes| - offset;
      if |answers| > 0 {
        if answers[0].AtMost? {
          n := Clip(answers[0].count, n);
        }
        answers := answers[1..];
      }
      data := bytes[offset..offset + n];
    }

    method Fsync(name: string)
      requires Valid() && name in files
      modifies this`files
      ensures Valid()
      ensures files == old(files)[name := FileImage(old(files[name].bytes), |old(files[name].bytes)|)]
    {
      files := files[name := FileImage(files[name].bytes, |files[name].bytes|)];
    }

    method Ftruncate(name: string, length: nat)
      requires Valid() && name in files && length <= |files[name].bytes|
      modifies this`files
      ensures Valid()
      ensures files == old(files)[name := Truncated(old(files[name]), length)]
    {
      files := files[name := Truncated(files[name], length)];
    }

    method Create(name: string)
      requires Valid() && name !in files
      modifies this`files
      ensures Valid()
      ensures files == old(files)[name := FileImage([], 0)]
    {
      files := files[name := FileImage([], 0)];
    }
  }

  function Truncated(f: FileImage, length: nat): (r: FileImage)
    requires length <= |f.bytes|
    ensures r.synced <= |r.bytes|
  {
    FileImage(f.bytes[..length], if f.synced <= length then f.synced else length)
  }

  function Clip(count: nat, n: nat): (r: nat)
    requires n > 0
    ensures 1 <= r <= n
  {
    if count == 0 then 1 else if count < n then count else n
  }

  // ----- The handler -----------------------------------------------------------------

  class Handler {
    const disk: Disk
    const mFileName: string
    const mBuffer: array<Byte>
    var mOpen: bool
    var mOffset: nat
    var mWriteOffset: nat

    ghost predicate Valid()
      reads this, disk
    {
      && disk.Valid()
      && mBuffer.Length == LOG_FILE_BUFFER_SIZE
      && mWriteOffset <= LOG_FILE_BUFFER_SIZE
      && (mOpen ==> mFileName in disk.files)
      && (mWriteOffset > 0 ==> AtEnd())
    }

    // Open, and positioned where the next byte of the file goes.
    ghost predicate AtEnd()
      reads this, disk
    {
      mOpen && mFileName in disk.files && mOffset == |disk.files[mFileName].bytes|
    }

    ghost function State(): Buffered
      requires Valid() && mOpen
      reads this, disk, mBuffer
    {
      Buffered(disk.files[mFileName], mBuffer[..mWriteOffset])
    }

    constructor (disk: Disk, name: string)
      requires disk.Valid()
      ensures Valid() && !mOpen && mOffset == 0 && mWriteOffset == 0
      ensures this.disk == disk && mFileName == name && fresh(mBuffer)
    {
      this.disk := disk;
      mFileName := name;
      mOpen := false;
      mOffset := 0;
      mWriteOffset := 0;
      mBuffer := new Byte[LOG_FILE_BUFFER_SIZE](_ => 0);
    }

    method OpenFile(create: bool) returns (err: Err)
      requires Valid() && !mOpen && mOffset == 0 && mWriteOffset == 0
      requires !create ==> mFileName in disk.files
      modifies this`mOpen, disk`files
      ensures Valid()
      ensures err == if create && mFileName in old(disk.files) then Eexist else Ok
      ensures err == Eexist ==> !mOpen && disk.files == old(disk.files)
      ensures err == Ok ==> mOpen
      ensures err == Ok && create ==> AtEnd() && disk.files == old(disk.files)[mFileName := FileImage([], 0)]
      ensures !create ==> disk.files == old(disk.files)
    {
      if create {
        if mFileName in disk.files {
          return Eexist;
        }
        disk.Create(mFileName);
      }
      mOpen := true;
      err := Ok;
    }

    method WriteToFile(data: Bytes)
      requires Valid() && mOpen && (AtEnd() || data == [])
      modifies this`mOffset, disk
      ensures Valid() && (old(AtEnd()) ==> AtEnd())
      ensures disk.files == FileAppended(old(disk.files), mFileName, data)
    {
      var writed: nat := 0;
      FileAppendedInTwo(disk.files, mFileName, data, 0, 0);
      while writed < |data|
        invariant 0 <= writed <= |data| && Valid() && mOpen && (old(AtEnd()) ==> AtEnd())
        invariant disk.files == FileAppended(old(disk.files), mFileName, data[..writed])
        decreases |disk.answers|, |data| - writed
      {
        var ret := disk.Pwrite(mFileName, data[writed..], mOffset);
        if ret == -1 {
          continue;
        }
        FileAppendedInTwo(old(disk.files), mFileName, data, writed, ret);
        writed, mOffset := writed + ret, mOffset + ret;
      }
      assert data[..writed] == data;
    }

    method WriteAllBufferToFile()
      requires Valid() && mOpen && (AtEnd() || mWriteOffset == 0)
      modifies this`mOffset, this`mWriteOffset, disk
      ensures Valid() && mWriteOffset == 0 && (old(AtEnd()) ==> AtEnd())
      ensures disk.files == FileAppended(old(disk.files), mFileName, old(mBuffer[..mWriteOffset]))
    {
      WriteToFile(mBuffer[..mWriteOffset]);
      mWriteOffset := 0;
    }

    method WriteNBytes(data: Bytes) returns (err: Err)
      requires Valid() && AtEnd()
      modifies this`mOffset, this`mWriteOffset, mBuffer, disk
      ensures Valid() && AtEnd() && err == Ok
      ensures State() == old(State()).Write(data)
      ensures disk.files == old(disk.files)[mFileName := State().file]
      ensures var bytes, before := disk.files[mFileName].bytes, old(disk.files[mFileName].bytes);
              var buffered, had := mBuffer[..mWriteOffset], old(mBuffer[..mWriteOffset]);
              if |data| > 262144 then bytes == before + had + data && buffered == []
              else if |had| + |data| > 262144 then bytes == before + had && buffered == data
              else bytes == before && buffered == had + data
    {
      if |data| > LOG_FILE_BUFFER_SIZE {
        WriteAllBufferToFile();
        WriteToFile(data);
        assert State().pending == [];
        return Ok;
      }
      if LOG_FILE_BUFFER_SIZE < mWriteOffset + |data| {
        WriteAllBufferToFile();
      }
      ghost var kept := mBuffer[..mWriteOffset];
      forall i | 0 <= i < |data| {
        mBuffer[mWriteOffset + i] := data[i];
      }
      mWriteOffset := mWriteOffset + |data|;
      assert mBuffer[..mWriteOffset] == kept + data;
      err := Ok;
    }

    method Flush()
      requires Valid() && mOpen && (AtEnd() || mWriteOffset == 0)
      modifies this`mOffset, this`mWriteOffset, disk
      ensures Valid() && mWriteOffset == 0 && (old(AtEnd()) ==> AtEnd())
      ensures State() == old(State()).Flush()
      ensures disk.files == old(disk.files)[mFileName := State().file]
    {
      WriteAllBufferToFile();
      disk.Fsync(mFileName);
    }

    method Close()
      requires Valid() && (mOpen ==> AtEnd() || mWriteOffset == 0)
      modifies this`mOffset, this`mWriteOffset, this`mOpen, disk
      ensures Valid() && !mOpen && mWriteOffset == 0
      ensures !old(mOpen) ==> disk.files == old(disk.files)
      ensures old(mOpen) ==> disk.files == old(disk.files)[mFileName := old(State()).Flush().file]
    {
      if mOpen {
        Flush();
        mOpen := false;
      }
    }

    // Reads exactly `count` bytes, or reports Eio having come to the end of the file.
    method ReadNBytes(count: nat) returns (err: Err, buf: Bytes)
      requires Valid() && mOpen && mWriteOffset == 0
      requires mOffset <= |disk.files[mFileName].bytes|
      modifies this`mOffset, disk`answers
      ensures Valid()
      ensures var bytes := disk.files[mFileName].bytes;
              if old(mOffset) + count <= |bytes| then
                err == Ok && mOffset == old(mOffset) + count && buf == bytes[old(mOffset)..mOffset]
              else
                err == Eio && mOffset == |bytes|
    {
      buf := [];
      ghost var bytes := disk.files[mFileName].bytes;
      while |buf| < count
        invariant |buf| <= count && Valid()
        invariant mOffset == old(mOffset) + |buf| <= |bytes|
        invariant buf == bytes[old(mOffset)..mOffset]
      {
        var data := disk.Pread(mFileName, count - |buf|, mOffset);
        if data == [] {
          return Eio, buf;
        }
        buf, mOffset := buf + data, mOffset + |data|;
      }
      err := Ok;
    }

    method Truncate(length: nat)
      requires Valid() && mOpen && mWriteOffset == 0 && length <= |disk.files[mFileName].bytes|
      modifies disk`files
      ensures Valid()
      ensures disk.files == old(disk.files)[mFileName := Truncated(old(disk.files[mFileName]), length)]
    {
      disk.Ftruncate(mFileName, length);
    }
  }
}
