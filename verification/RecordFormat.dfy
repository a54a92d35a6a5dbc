/**
 How log records lie in a file: the file header, the frame of a record, and reading frames
 back, from a file that may end in the middle of one.
 */
module RecordFormat {
  import opened Common
  import opened Base64
  import CrcSpec
  import CrcTables
  import Crc

  // LogId and opType are what the 32-bit fields hold.
  datatype LogRecord = LogRecord(logId: nat, opType: nat, table: Bytes, key: Bytes, value: Bytes)

  // KVRequest::_OpType
  const OP_PUT: nat := 0
  const OP_ADD: nat := 1
  const OP_DEL: nat := 2
  const OP_GET: nat := 3
  const OP_DROP_TABLE: nat := 4
  const OP_ADD_TABLE: nat := 5

  predicate IsWrite(op: nat) {
    op == OP_PUT || op == OP_ADD || op == OP_DEL || op == OP_DROP_TABLE || op == OP_ADD_TABLE
  }

  // ----- Integers in network byte order ----------------------------------------------

  function Be32(n: nat): (s: Bytes)
    requires n < UINT32
    ensures |s| == 4
  {
    [ToByte(n / 0x100_0000), ToByte(n / 0x1_0000 % 256), ToByte(n / 0x100 % 256), ToByte(n % 256)]
  }

  function FromBe32(s: Bytes): (n: nat)
    requires |s| == 4
    ensures n < UINT32
  {
    Idx(s[0]) * 0x100_0000 + Idx(s[1]) * 0x1_0000 + Idx(s[2]) * 0x100 + Idx(s[3])
  }

  lemma Be32RoundTrip(n: nat)
    requires n < UINT32
    ensures FromBe32(Be32(n)) == n
  {
    hide Idx, ToByte;
    DigitsOf(n);
  }

  lemma DigitsOf(n: nat)
    ensures n == n / 0x100_0000 * 0x100_0000 + n / 0x1_0000 % 256 * 0x1_0000 + n / 0x100 % 256 * 0x100 + n % 256
  {
    var a, b, c := n / 0x100, n / 0x1_0000, n / 0x100_0000;
    assert n == a * 256 + n % 256;
    assert a == b * 256 + a % 256 by { assert b == a / 256; }
    assert b == c * 256 + b % 256 by { assert c == b / 256; }
  }

  // Storing a number gives back the bytes it was read from.
  lemma Be32OfBytes(head: Bytes)
    requires |head| == 4
    ensures Be32(FromBe32(head)) == head
  {
    hide Idx, ToByte;
    var n := FromBe32(head);
    DigitsBack(Idx(head[0]), Idx(head[1]), Idx(head[2]), Idx(head[3]), n);
    forall k | 0 <= k < 4 ensures Be32(n)[k] == head[k] {
      IdxInjective(Be32(n)[k], head[k]);
    }
  }

  lemma DigitsBack(a: nat, b: nat, c: nat, d: nat, n: nat)
    requires a < 256 && b < 256 && c < 256 && d < 256
    requires n == a * 0x100_0000 + b * 0x1_0000 + c * 0x100 + d
    ensures n / 0x100_0000 == a && n / 0x1_0000 % 256 == b && n / 0x100 % 256 == c && n % 256 == d
  {
    assert n / 0x1_0000 == a * 0x100 + b;
    assert n / 0x100 == (a * 0x100 + b) * 0x100 + c;
  }

  function BeWord(w: CrcSpec.Word): (s: Bytes)
    ensures |s| == 4
  {
    [CrcTables.Byte3(w), CrcTables.Byte2(w), CrcTables.Byte1(w), CrcSpec.LowByte(w)]
  }

  function FromBeWord(s: Bytes): CrcSpec.Word
    requires |s| == 4
  {
    CrcSpec.Xor(CrcSpec.Xor(CrcSpec.Xor(CrcTables.ByteAt(s[0], 3), CrcTables.ByteAt(s[1], 2)),
                            CrcTables.ByteAt(s[2], 1)),
                CrcTables.ByteAt(s[3], 0))
  }

  lemma BeWordRoundTrip(w: CrcSpec.Word)
    ensures FromBeWord(BeWord(w)) == w
  {
    Crc.WordOfBytes(w);
  }

  // ----- The body --------------------------------------------------------------------

  function EncodeString(s: Bytes): (r: Bytes)
    requires |s| < UINT32
    ensures |r| == 4 + |s|
  {
    Be32(|s|) + s
  }

  predicate StringsFit(r: LogRecord) {
    |r.table| < UINT32 && |r.key| < UINT32 && |r.value| < UINT32
  }

  // FileLogRecordBody::Encode
  function EncodeBody(r: LogRecord): (s: Bytes)
    requires StringsFit(r)
    ensures |s| == 12 + |r.table| + |r.key| + |r.value|
  {
    EncodeString(r.table) + EncodeString(r.key) + EncodeString(r.value)
  }

  // readString: None where it would read past the end of the data.
  function ReadString(data: Bytes, at: nat): (r: Option<Bytes>)
    ensures r.Some? ==> at + 4 + |r.value| <= |data|
  {
    if |data| < at + 4 then None
    else
      var len := FromBe32(data[at..at + 4]);
      if |data| < at + 4 + len then None else Some(data[at + 4..at + 4 + len])
  }

  datatype Body = Body(table: Bytes, key: Bytes, value: Bytes)

  // FileLogRecordBody::Decode
  function DecodeBody(data: Bytes): Option<Body> {
    var table := ReadString(data, 0);
    if table.None? then None
    else
      var key := ReadString(data, 4 + |table.value|);
      if key.None? then None
      else
        var value := ReadString(data, 8 + |table.value| + |key.value|);
        if value.None? then None else Some(Body(table.value, key.value, value.value))
  }

  lemma ReadStringBack(before: Bytes, s: Bytes, after: Bytes)
    requires |s| < UINT32
    ensures ReadString(before + EncodeString(s) + after, |before|) == Some(s)
  {
    var data := before + EncodeString(s) + after;
    assert data[|before|..|before| + 4] == Be32(|s|);
    Be32RoundTrip(|s|);
    assert data[|before| + 4..|before| + 4 + |s|] == s;
  }

  lemma BodyRoundTrip(r: LogRecord)
    requires StringsFit(r)
    ensures DecodeBody(EncodeBody(r)) == Some(Body(r.table, r.key, r.value))
  {
    hide EncodeString, ReadString;
    var t, k, v := EncodeString(r.table), EncodeString(r.key), EncodeString(r.value);
    ReadStringBack([], r.table, k + v);
    ReadStringBack(t, r.key, v);
    ReadStringBack(t + k, r.value, []);
    assert EncodeBody(r) == [] + t + (k + v) == t + k + v == (t + k) + v + [];
  }

  // ----- The frame -------------------------------------------------------------------

  // The length limits under which the encoded body's length, times six, is an `int`.
  predicate Storable(r: LogRecord) {
    && StringsFit(r)
    && r.logId < UINT32 && r.opType < UINT32
    && 6 * EncodedLengthOf(12 + |r.table| + |r.key| + |r.value|) < INT_LIMIT
  }

  // A record that can be logged.
  type Entry = r: LogRecord | Storable(r) witness LogRecord(0, 0, [], [], [])

  lemma EncodedBodyLength(r: Entry)
    ensures 16 <= |Encoded(EncodeBody(r))| == EncodedLengthOf(12 + |r.table| + |r.key| + |r.value|)
  {
    hide EncodeBody, Encoded;
    EncodedHasLength(EncodeBody(r));
    AtLeastFourGroups(12 + |r.table| + |r.key| + |r.value|);
  }

  lemma AtLeastFourGroups(n: nat)
    requires n >= 12
    ensures EncodedLengthOf(n) >= 16
  {}

  function StoredBody(r: Entry): (s: Bytes)
    ensures 16 <= |s| == EncodedLengthOf(12 + |r.table| + |r.key| + |r.value|)
  {
    EncodedBodyLength(r);
    Encoded(EncodeBody(r))
  }

  function FrameOf(crc: CrcSpec.Word, id: nat, op: nat, body: Bytes): (s: Bytes)
    requires |body| < UINT32 && id < UINT32 && op < UINT32
    ensures |s| == 16 + |body|
  {
    Be32(|body|) + BeWord(crc) + Be32(id) + Be32(op) + body
  }

  function Frame(r: Entry): (s: Bytes)
    ensures |s| == 16 + |StoredBody(r)| && |s| >= 32
  {
    var body := StoredBody(r);
    FrameOf(CrcSpec.Crc32(CrcSpec.ZERO, body), r.logId, r.opType, body)
  }

  // ----- Reading a frame -------------------------------------------------------------

  datatype ReadResult = Got(record: LogRecord, next: nat) | Failed(err: Err)

  // What the body of a frame whose checksum is right stands for.
  function Interpret(id: nat, op: nat, body: Bytes, next: nat): (r: ReadResult)
    ensures r.Got? ==> r.next == next
  {
    if TrailingPads(body) == |body| || 6 * |body| >= INT_LIMIT
      || DecodedLengthOf(body) != |DecodedChars(Unpadded(body))|
    then Failed(Base64DecodeFailed)
    else
      match DecodeBody(DecodedChars(Unpadded(body)))
      case None => Failed(BodyOutOfRange)
      case Some(b) => Got(LogRecord(id, op, b.table, b.key, b.value), next)
  }

  // LogRecord::ReadFromFile, at offset `at` of a file.  Coming to the end of the file
  // anywhere inside a frame is Eio.
  function ReadFrame(file: Bytes, at: nat): (r: ReadResult)
    ensures r.Got? ==> at + 16 <= r.next <= |file|
  {
    if |file| < at + 16 then Failed(Eio)
    else
      var len := FromBe32(file[at..at + 4]);
      if |file| < at + 16 + len then Failed(Eio)
      else
        var body := file[at + 16..at + 16 + len];
        if FromBeWord(file[at + 4..at + 8]) != CrcSpec.Crc32(CrcSpec.ZERO, body)
        then Failed(CrcCheckFailed)
        else Interpret(FromBe32(file[at + 8..at + 12]), FromBe32(file[at + 12..at + 16]), body, at + 16 + len)
  }

  lemma Inside(s: Bytes, a: nat, b: nat, i: nat, j: nat)
    requires a <= b <= |s| && i <= j <= b - a
    ensures s[a..b][i..j] == s[a + i..a + j]
  {
    var x, y := s[a..b][i..j], s[a + i..a + j];
    assert |x| == |y|;
    forall k | 0 <= k < j - i ensures x[k] == y[k] {
      assert x[k] == s[a..b][i + k] == s[a + (i + k)];
    }
  }

  // What the four header fields and the body are, wherever a frame lies in a file.
  lemma FieldsOfFrame(file: Bytes, at: nat, crc: CrcSpec.Word, id: nat, op: nat, body: Bytes)
    requires |body| < UINT32 && id < UINT32 && op < UINT32
    requires at + 16 + |body| <= |file|
    requires file[at..at + 16 + |body|] == FrameOf(crc, id, op, body)
    ensures FromBe32(file[at..at + 4]) == |body|
    ensures FromBeWord(file[at + 4..at + 8]) == crc
    ensures FromBe32(file[at + 8..at + 12]) == id
    ensures FromBe32(file[at + 12..at + 16]) == op
    ensures file[at + 16..at + 16 + |body|] == body
  {
    hide Be32, FromBe32, BeWord, FromBeWord;
    var f := file[at..at + 16 + |body|];
    Inside(file, at, at + 16 + |body|, 0, 4);
    Inside(file, at, at + 16 + |body|, 4, 8);
    Inside(file, at, at + 16 + |body|, 8, 12);
    Inside(file, at, at + 16 + |body|, 12, 16);
    assert file[at..at + 4] == f[0..4] && f[0..4] == Be32(|body|);
    assert file[at + 4..at + 8] == f[4..8] && f[4..8] == BeWord(crc);
    assert file[at + 8..at + 12] == f[8..12] && f[8..12] == Be32(id);
    assert file[at + 12..at + 16] == f[12..16] && f[12..16] == Be32(op);
    assert file[at + 16..at + 16 + |body|] == f[16..] && f[16..] == body;
    Be32RoundTrip(|body|);
    Be32RoundTrip(id);
    Be32RoundTrip(op);
    BeWordRoundTrip(crc);
  }

  // A whole frame reads back as its record, and the next read starts right behind it.
  lemma FrameRoundTrip(file: Bytes, at: nat, r: Entry)
    requires at + |Frame(r)| <= |file|
    requires file[at..at + |Frame(r)|] == Frame(r)
    ensures ReadFrame(file, at) == Got(r, at + |Frame(r)|)
  {
    hide Encoded, DecodedChars, Unpadded, TrailingPads, Be32, FromBe32, BeWord, FromBeWord, EncodeBody, DecodeBody;
    var body := StoredBody(r);
    var crc := CrcSpec.Crc32(CrcSpec.ZERO, body);
    FieldsOfFrame(file, at, crc, r.logId, r.opType, body);
    RoundTrip(EncodeBody(r));
    EncodingHasData(EncodeBody(r));
    BodyRoundTrip(r);
  }

  // A file that ends inside the frame is at its end.
  lemma TornFrame(file: Bytes, at: nat, r: Entry)
    requires at <= |file| < at + |Frame(r)|
    requires file[at..] == Frame(r)[..|file| - at]
    ensures ReadFrame(file, at) == Failed(Eio)
  {
    hide Encoded, BeWord, FromBeWord;
    if at + 16 <= |file| {
      var f := Frame(r);
      assert file[at..at + 4] == file[at..][..4] == f[..4] == Be32(|StoredBody(r)|);
      Be32RoundTrip(|StoredBody(r)|);
    }
  }

  lemma OtherBody(r: Entry, body: Bytes)
    requires |body| == |StoredBody(r)|
    ensures Frame(r)[..16] + body == FrameOf(CrcSpec.Crc32(CrcSpec.ZERO, StoredBody(r)), r.logId, r.opType, body)
  {
    hide Be32, BeWord, StoredBody, CrcSpec.Crc32;
  }

  // Damage to a stored body that stays inside four consecutive bytes is always noticed.
  lemma DamagedBodyDetected(file: Bytes, at: nat, r: Entry, body: Bytes, window: nat)
    requires |body| == |StoredBody(r)| && body != StoredBody(r)
    requires forall i :: 0 <= i < |body| && !(window <= i < window + 4) ==> body[i] == StoredBody(r)[i]
    requires at + |Frame(r)| <= |file|
    requires file[at..at + |Frame(r)|] == Frame(r)[..16] + body
    ensures ReadFrame(file, at) == Failed(CrcCheckFailed)
  {
    hide Encoded, Be32, FromBe32, BeWord, FromBeWord, StoredBody, CrcSpec.Crc32, Interpret;
    var stored := StoredBody(r);
    var crc := CrcSpec.Crc32(CrcSpec.ZERO, stored);
    OtherBody(r, body);
    FieldsOfFrame(file, at, crc, r.logId, r.opType, body);
    CrcSpec.WindowDetected(CrcSpec.ZERO, stored, body, window);
  }

  lemma BytesOfWord(s: Bytes)
    requires |s| == 4
    ensures BeWord(FromBeWord(s)) == s
  {
    FourBytesBack(s[0], s[1], s[2], s[3]);
  }

  lemma FourBytesBack(a: Byte, b: Byte, c: Byte, d: Byte)
    ensures var w := FromBeWord([a, b, c, d]);
            && CrcTables.Byte3(w) == a && CrcTables.Byte2(w) == b
            && CrcTables.Byte1(w) == c && CrcSpec.LowByte(w) == d
  {
    assert CrcTables.ByteAt(c, 1) == CrcSpec.Shl8(CrcSpec.FromByte(c));
    assert CrcTables.ByteAt(b, 1) == CrcSpec.Shl8(CrcSpec.FromByte(b));
    assert CrcTables.ByteAt(a, 1) == CrcSpec.Shl8(CrcSpec.FromByte(a));
    assert CrcTables.ByteAt(b, 2) == CrcSpec.Shl8(CrcTables.ByteAt(b, 1));
    assert CrcTables.ByteAt(a, 2) == CrcSpec.Shl8(CrcTables.ByteAt(a, 1));
    assert CrcTables.ByteAt(a, 3) == CrcSpec.Shl8(CrcTables.ByteAt(a, 2));
    BitsBack(a, b, c, d);
  }

  lemma BitsBack(a: bv8, b: bv8, c: bv8, d: bv8)
    ensures var w := ((a as bv32) << 8 << 8 << 8) ^ ((b as bv32) << 8 << 8) ^ ((c as bv32) << 8) ^ (d as bv32);
            && (w >> 24) as bv8 == a && ((w >> 16) & 0xFF) as bv8 == b
            && ((w >> 8) & 0xFF) as bv8 == c && (w & 0xFF) as bv8 == d
  {}

  // Any damage to the stored checksum alone is noticed.
  lemma DamagedChecksumDetected(file: Bytes, at: nat, r: Entry, field: Bytes)
    requires |field| == 4 && field != Frame(r)[4..8]
    requires at + |Frame(r)| <= |file|
    requires file[at..at + |Frame(r)|] == Frame(r)[..4] + field + Frame(r)[8..]
    ensures ReadFrame(file, at) == Failed(CrcCheckFailed)
  {
    hide Encoded, Be32, FromBe32, BeWord, FromBeWord, StoredBody, CrcSpec.Crc32, Interpret;
    var body := StoredBody(r);
    BytesOfWord(field);
    OtherChecksum(r, field);
    FieldsOfFrame(file, at, FromBeWord(field), r.logId, r.opType, body);
  }

  lemma OtherChecksum(r: Entry, field: Bytes)
    requires |field| == 4 && BeWord(FromBeWord(field)) == field
    ensures Frame(r)[4..8] == BeWord(CrcSpec.Crc32(CrcSpec.ZERO, StoredBody(r)))
    ensures Frame(r)[..4] + field + Frame(r)[8..] ==
            FrameOf(FromBeWord(field), r.logId, r.opType, StoredBody(r))
  {
    hide Be32, BeWord, FromBeWord, StoredBody, CrcSpec.Crc32;
  }

  // Damage to the stored log id and operation never is: what results is a right frame, of
  // another record.
  lemma DamagedNumbersUnseen(r: Entry, id: nat, op: nat)
    requires id < UINT32 && op < UINT32
    ensures Storable(r.(logId := id, opType := op))
    ensures Frame(r)[..8] + Be32(id) + Be32(op) + Frame(r)[16..] == Frame(r.(logId := id, opType := op))
  {
    hide Be32, BeWord, Encoded, CrcSpec.Crc32;
  }
}
