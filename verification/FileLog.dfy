/**
 A log file that records are appended to and read back from.
 */
module FileLog {
  import opened Common
  import opened RecordFormat
  import opened Replay
  import opened FileHandler
  import Base64
  import Crc
  import CrcSpec

  // The five writes that LogRecord::WriteToFile makes.
  function WriteRecord(b: Buffered, r: Entry): Buffered {
    var body := StoredBody(r);
    b.Write(Be32(|body|)).Write(BeWord(CrcSpec.Crc32(CrcSpec.ZERO, body)))
     .Write(Be32(r.logId)).Write(Be32(r.opType)).Write(body)
  }

  function HeaderWritten(b: Buffered): Buffered {
    b.Write(MAGIC).Write(Be32(LOG_VERSION))
  }

  lemma WriteExtends(b: Buffered, data: Bytes)
    requires b.Valid()
    ensures b.Write(data).Valid() && b.Write(data).Whole() == b.Whole() + data
    ensures b.file.bytes <= b.Write(data).file.bytes && b.Write(data).file.synced == b.file.synced
  {
    assert b.Write(data).Whole() == b.Whole() + data;
  }

  // Appending a record appends its frame, wherever the buffer is flushed in between.
  lemma WriteRecordAppendsFrame(b: Buffered, r: Entry)
    requires b.Valid()
    ensures var c := WriteRecord(b, r);
            && c.Valid() && c.Whole() == b.Whole() + Frame(r)
            && b.file.bytes <= c.file.bytes && c.file.synced == b.file.synced
  {
    hide Be32, BeWord, StoredBody, Buffered.Write, Buffered.Whole;
    var body := StoredBody(r);
    var w := BeWord(CrcSpec.Crc32(CrcSpec.ZERO, body));
    var b1 := b.Write(Be32(|body|));
    var b2 := b1.Write(w);
    var b3 := b2.Write(Be32(r.logId));
    var b4 := b3.Write(Be32(r.opType));
    WriteExtends(b, Be32(|body|));
    WriteExtends(b1, w);
    WriteExtends(b2, Be32(r.logId));
    WriteExtends(b3, Be32(r.opType));
    WriteExtends(b4, body);
    SixParts(b.Whole(), Be32(|body|), w, Be32(r.logId), Be32(r.opType), body);
  }

  lemma SixParts(a: Bytes, b: Bytes, c: Bytes, d: Bytes, e: Bytes, f: Bytes)
    ensures a + b + c + d + e + f == a + (b + c + d + e + f)
  {}

  lemma WriteHeaderAppends(b: Buffered)
    requires b.Valid()
    ensures var c := HeaderWritten(b);
            && c.Valid() && c.Whole() == b.Whole() + Header()
            && b.file.bytes <= c.file.bytes && c.file.synced == b.file.synced
  {
    WriteExtends(b, MAGIC);
    WriteExtends(b.Write(MAGIC), Be32(LOG_VERSION));
    assert b.Whole() + MAGIC + Be32(LOG_VERSION) == b.Whole() + Header();
  }

  class Log {
    const mFileHandler: Handler
    const crc: Crc.Checksums

    ghost predicate Valid()
      reads mFileHandler, mFileHandler.mBuffer, mFileHandler.disk, crc.crcTable, crc.crcCombineTable
    {
      mFileHandler.Valid() && crc.Valid()
    }

    // Open for appending.
    ghost predicate Writing()
      reads mFileHandler, mFileHandler.mBuffer, mFileHandler.disk, crc.crcTable, crc.crcCombineTable
    {
      Valid() && mFileHandler.AtEnd()
    }

    // Open for reading, at an offset within the file.
    ghost predicate Reading()
      reads mFileHandler, mFileHandler.mBuffer, mFileHandler.disk, crc.crcTable, crc.crcCombineTable
    {
      && Valid() && mFileHandler.mOpen && mFileHandler.mWriteOffset == 0
      && mFileHandler.mOffset <= |Bytes()|
    }

    ghost function Bytes(): Common.Bytes
      requires Valid() && mFileHandler.mOpen
      reads mFileHandler, mFileHandler.mBuffer, mFileHandler.disk, crc.crcTable, crc.crcCombineTable
    {
      mFileHandler.disk.files[mFileHandler.mFileName].bytes
    }

    constructor (disk: Disk, name: string, crc: Crc.Checksums)
      requires disk.Valid() && crc.Valid()
      ensures Valid() && !mFileHandler.mOpen && mFileHandler.mOffset == 0 && mFileHandler.mWriteOffset == 0
      ensures mFileHandler.disk == disk && mFileHandler.mFileName == name && this.crc == crc
      ensures fresh(mFileHandler) && fresh(mFileHandler.mBuffer)
    {
      mFileHandler := new Handler(disk, name);
      this.crc := crc;
    }

    // OpenFile(true)
    method CreateFile() returns (err: Err)
      requires Valid() && !mFileHandler.mOpen && mFileHandler.mOffset == 0 && mFileHandler.mWriteOffset == 0
      modifies mFileHandler, mFileHandler.mBuffer, mFileHandler.disk
      ensures Valid()
      ensures err == if mFileHandler.mFileName in old(mFileHandler.disk.files) then Eexist else Ok
      ensures err != Ok ==> mFileHandler.disk.files == old(mFileHandler.disk.files)
      ensures err == Ok ==>
                && Writing()
                && mFileHandler.State() == HeaderWritten(Buffered(FileImage([], 0), []))
                && mFileHandler.disk.files ==
                   old(mFileHandler.disk.files)[mFileHandler.mFileName := mFileHandler.State().file]
    {
      hide Crc.Checksums.Valid, HeaderWritten;
      err := mFileHandler.OpenFile(true);
      if err == Ok {
        assert mFileHandler.State() == Buffered(FileImage([], 0), []);
        err := WriteHeader();
      }
    }

    method WriteHeader() returns (err: Err)
      requires Writing()
      modifies mFileHandler, mFileHandler.mBuffer, mFileHandler.disk
      ensures Writing() && err == Ok
      ensures mFileHandler.State() == HeaderWritten(old(mFileHandler.State()))
      ensures mFileHandler.disk.files ==
              old(mFileHandler.disk.files)[mFileHandler.mFileName := mFileHandler.State().file]
    {
      hide Crc.Checksums.Valid, Buffered.Write, Be32;
      err := mFileHandler.WriteNBytes(MAGIC);
      err := mFileHandler.WriteNBytes(Be32(LOG_VERSION));
    }

    // OpenFile(false)
    method OpenExisting() returns (err: Err)
      requires Valid() && !mFileHandler.mOpen && mFileHandler.mOffset == 0 && mFileHandler.mWriteOffset == 0
      requires mFileHandler.mFileName in mFileHandler.disk.files
      modifies mFileHandler, mFileHandler.disk
      ensures Reading() && mFileHandler.disk.files == old(mFileHandler.disk.files)
      ensures err == HeaderError(Bytes())
      ensures err == Ok ==> mFileHandler.mOffset == 8
    {
      err := mFileHandler.OpenFile(false);
      err := ValidateHeader();
    }

    method ValidateHeader() returns (err: Err)
      requires Reading() && mFileHandler.mOffset == 0
      modifies mFileHandler`mOffset, mFileHandler.disk`answers
      ensures Reading()
      ensures err == HeaderError(Bytes())
      ensures err == Ok <==> RightHeader(Bytes())
      ensures err == Ok || err == Eio || err == Einval
      ensures err == Eio <==> |Bytes()| < 4 || (|Bytes()| < 8 && Bytes()[..4] == [76, 79, 71, 83])
      ensures err == Ok ==> mFileHandler.mOffset == 8
    {
      hide Crc.Checksums.Valid, FromBe32;
      HeaderErrorIs(Bytes());
      var magic, version;
      err, magic := mFileHandler.ReadNBytes(4);
      if err != Ok {
        return;
      }
      assert magic == Bytes()[..4];
      if MAGIC != magic {
        return Einval;
      }
      err, version := mFileHandler.ReadNBytes(4);
      if err != Ok {
        return;
      }
      if LOG_VERSION != FromBe32(version) {
        return Einval;
      }
    }

    // LogRecord::WriteToFile
    method AppendLogRecord(r: Entry) returns (err: Err)
      requires Writing()
      modifies mFileHandler, mFileHandler.mBuffer, mFileHandler.disk
      ensures Writing() && err == Ok
      ensures mFileHandler.State() == WriteRecord(old(mFileHandler.State()), r)
      ensures mFileHandler.disk.files ==
              old(mFileHandler.disk.files)[mFileHandler.mFileName := mFileHandler.State().file]
    {
      hide Base64.Encoded, Base64.EncodedLengthOf, Be32, BeWord, EncodeBody, Crc.Checksums.Valid, Buffered.Write,
           CrcSpec.Crc32;
      var base64Str, ok := Base64.Encode(EncodeBody(r));
      assert base64Str == StoredBody(r);
      var checksum := crc.MyCrc32(CrcSpec.ZERO, base64Str, 0);
      err := WriteFields(|base64Str|, checksum, r.logId, r.opType, base64Str);
    }

    method WriteFields(length: nat, checksum: CrcSpec.Word, id: nat, op: nat, body: Common.Bytes) returns (err: Err)
      requires Writing() && length < UINT32 && id < UINT32 && op < UINT32
      modifies mFileHandler, mFileHandler.mBuffer, mFileHandler.disk
      ensures Writing() && err == Ok
      ensures mFileHandler.State() ==
              old(mFileHandler.State()).Write(Be32(length)).Write(BeWord(checksum))
               .Write(Be32(id)).Write(Be32(op)).Write(body)
      ensures mFileHandler.disk.files ==
              old(mFileHandler.disk.files)[mFileHandler.mFileName := mFileHandler.State().file]
    {
      hide Be32, BeWord, Buffered.Write, Crc.Checksums.Valid;
      err := WriteTwo(Be32(length), BeWord(checksum));
      err := WriteTwo(Be32(id), Be32(op));
      err := mFileHandler.WriteNBytes(body);
    }

    method WriteTwo(x: Common.Bytes, y: Common.Bytes) returns (err: Err)
      requires Writing()
      modifies mFileHandler, mFileHandler.mBuffer, mFileHandler.disk
      ensures Writing() && err == Ok
      ensures mFileHandler.State() == old(mFileHandler.State()).Write(x).Write(y)
      ensures mFileHandler.disk.files ==
              old(mFileHandler.disk.files)[mFileHandler.mFileName := mFileHandler.State().file]
    {
      hide Buffered.Write, Crc.Checksums.Valid;
      err := mFileHandler.WriteNBytes(x);
      err := mFileHandler.WriteNBytes(y);
    }

    method Flush()
      requires Writing()
      modifies mFileHandler, mFileHandler.disk
      ensures Writing()
      ensures mFileHandler.State() == old(mFileHandler.State()).Flush()
      ensures mFileHandler.disk.files ==
              old(mFileHandler.disk.files)[mFileHandler.mFileName := mFileHandler.State().file]
    {
      mFileHandler.Flush();
    }

    method Close()
      requires Writing() || Reading()
      modifies mFileHandler, mFileHandler.disk
      ensures Valid() && !mFileHandler.mOpen
      ensures mFileHandler.disk.files ==
              old(mFileHandler.disk.files)[mFileHandler.mFileName := old(mFileHandler.State()).Flush().file]
    {
      mFileHandler.Close();
    }

    // LogRecord::ReadFromFile: a record, or why there is none; at the end of the file what
    // is left of a frame is cut off.
    method GetNextLogRecord() returns (err: Err, record: Option<LogRecord>)
      requires Reading()
      modifies mFileHandler, mFileHandler.disk
      ensures Reading()
      ensures var at := old(mFileHandler.mOffset);
              var file := old(Bytes());
              match ReadFrame(file, at)
              case Got(r, next) =>
                && err == Ok && record == Some(r) && mFileHandler.mOffset == next
                && mFileHandler.disk.files == old(mFileHandler.disk.files)
              case Failed(e) =>
                && err == e && record == None
                && (e == Eio ==> mFileHandler.mOffset == at)
                && mFileHandler.disk.files ==
                   if e == Eio then
                     old(mFileHandler.disk.files)[mFileHandler.mFileName :=
                       Truncated(old(mFileHandler.disk.files[mFileHandler.mFileName]), at)]
                   else old(mFileHandler.disk.files)
    {
      hide Crc.Checksums.Valid, ReadFrame;
      var tempOffset := mFileHandler.mOffset;
      err, record := ReadRecord();
      if err == Eio {
        mFileHandler.mOffset := tempOffset;
        mFileHandler.Truncate(tempOffset);
      }
    }

    method ReadRecord() returns (err: Err, record: Option<LogRecord>)
      requires Reading()
      modifies mFileHandler`mOffset, mFileHandler.disk`answers
      ensures Reading()
      ensures match ReadFrame(Bytes(), old(mFileHandler.mOffset))
              case Got(r, next) => err == Ok && record == Some(r) && mFileHandler.mOffset == next
              case Failed(e) => err == e && record == None
    {
      hide FromBe32, FromBeWord, Interpret, Crc.Checksums.Valid, CrcSpec.Crc32;
      record := None;
      ghost var at := mFileHandler.mOffset;
      var length, checksum, id, op, body;
      err, length, checksum, id, op := ReadFields();
      if err != Ok {
        return;
      }
      err, body := mFileHandler.ReadNBytes(FromBe32(length));
      if err != Ok {
        return;
      }
      assert body == Bytes()[at + 16..mFileHandler.mOffset];
      var actual := crc.MyCrc32(CrcSpec.ZERO, body, 0);
      if FromBeWord(checksum) != actual {
        return CrcCheckFailed, None;
      }
      err, record := ParseBody(FromBe32(id), FromBe32(op), body, mFileHandler.mOffset);
    }

    method ReadFields()
      returns (err: Err, length: Common.Bytes, checksum: Common.Bytes, id: Common.Bytes, op: Common.Bytes)
      requires Reading()
      modifies mFileHandler`mOffset, mFileHandler.disk`answers
      ensures Reading()
      ensures var at, file := old(mFileHandler.mOffset), Bytes();
              if |file| < at + 16 then err == Eio
              else
                && err == Ok && mFileHandler.mOffset == at + 16
                && length == file[at..at + 4] && checksum == file[at + 4..at + 8]
                && id == file[at + 8..at + 12] && op == file[at + 12..at + 16]
    {
      hide Crc.Checksums.Valid;
      length, checksum, id, op := [], [], [], [];
      err, length := mFileHandler.ReadNBytes(4);
      if err != Ok {
        return;
      }
      err, checksum := mFileHandler.ReadNBytes(4);
      if err != Ok {
        return;
      }
      err, id := mFileHandler.ReadNBytes(4);
      if err != Ok {
        return;
      }
      err, op := mFileHandler.ReadNBytes(4);
    }

    method ParseBody(id: nat, op: nat, body: Common.Bytes, ghost next: nat) returns (err: Err,
        record: Option<LogRecord>)
      ensures match Interpret(id, op, body, next)
              case Got(r, _) => err == Ok && record == Some(r)
              case Failed(e) => err == e && record == None
    {
      hide Base64.DecodedChars, Base64.Unpadded, Base64.TrailingPads, DecodeBody;
      if Base64.TrailingPads(body) == |body| || 6 * |body| >= Base64.INT_LIMIT || Base64.DecodedLengthOf(body) < 0 {
        return Base64DecodeFailed, None;
      }
      var pureStr, ok := Base64.Decode(body);
      if !ok {
        return Base64DecodeFailed, None;
      }
      var decoded := DecodeBody(pureStr);
      if decoded.None? {
        return BodyOutOfRange, None;
      }
      err, record := Ok, Some(LogRecord(id, op, decoded.value.table, decoded.value.key, decoded.value.value));
    }
  }
}
