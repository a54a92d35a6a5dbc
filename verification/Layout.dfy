/**
 What is in the log directory, byte by byte and in numbers: names, headers, frames and bodies,
 and which record is in which file.
 */
module Layout {
  import opened Common
  import opened RecordFormat
  import Base64
  import Base64Text
  import CrcPolynomial
  import CrcSpec
  import GroupCommit
  import CommitTheorems
  import Journal
  import JournalOrder
  import LogNames
  import Replay

  // Four bytes as a number, the first of them the highest.
  function Number(s: Bytes, at: nat): nat
    requires at + 4 <= |s|
  {
    Idx(s[at]) * 16777216 + Idx(s[at + 1]) * 65536 + Idx(s[at + 2]) * 256 + Idx(s[at + 3])
  }

  lemma NumberAt(s: Bytes, at: nat, n: nat)
    requires at + 4 <= |s| && n < UINT32 && s[at..at + 4] == Be32(n)
    ensures Number(s, at) == n
  {
    hide Be32, Idx;
    Be32RoundTrip(n);
    var f := s[at..at + 4];
    assert f[0] == s[at] && f[1] == s[at + 1] && f[2] == s[at + 2] && f[3] == s[at + 3];
  }

  // A frame: the length of the body, its checksum, the log id, the operation, and the body.
  lemma FrameLayout(r: Entry) returns (checksum: bv32)
    ensures var f, body := Frame(r), StoredBody(r);
            && |f| == 16 + |body|
            && Number(f, 0) == |body|
            && f[4] == (checksum >> 24) as bv8 && f[5] == ((checksum >> 16) & 0xFF) as bv8
            && f[6] == ((checksum >> 8) & 0xFF) as bv8 && f[7] == (checksum & 0xFF) as bv8
            && CrcPolynomial.IsChecksum(CrcSpec.Word(0), body, CrcSpec.Word(checksum))
            && Number(f, 8) == r.logId && Number(f, 12) == r.opType
            && f[16..] == body && Base64Text.IsText(EncodeBody(r), body)
  {
    hide Be32, StoredBody, CrcSpec.Crc32, Number, CrcPolynomial.IsChecksum, Base64Text.IsText, EncodeBody;
    var f, body := Frame(r), StoredBody(r);
    var crc := CrcSpec.Crc32(CrcSpec.ZERO, body);
    checksum := crc.bits;
    CrcPolynomial.ChecksumIsRemainder(CrcSpec.Word(0), body, crc);
    BodyIsText(r);
    assert f[0..4] == Be32(|body|) && f[8..12] == Be32(r.logId) && f[12..16] == Be32(r.opType);
    assert f[4..8] == BeWord(crc) && f[4] == f[4..8][0] && f[5] == f[4..8][1];
    assert f[6] == f[4..8][2] && f[7] == f[4..8][3];
    NumberAt(f, 0, |body|);
    NumberAt(f, 8, r.logId);
    NumberAt(f, 12, r.opType);
  }

  lemma BodyIsText(r: Entry)
    ensures Base64Text.IsText(EncodeBody(r), StoredBody(r))
  {
    hide EncodeBody, Base64.Encoded, Base64Text.IsText;
    Base64.EncodedIsText(EncodeBody(r));
  }

  // A body: table, key and value, each behind its length.
  lemma BodyLayout(r: LogRecord)
    requires |r.table| < 0x1_0000_0000 && |r.key| < 0x1_0000_0000 && |r.value| < 0x1_0000_0000
    ensures StringsFit(r)
    ensures var s, k := EncodeBody(r), 4 + |r.table|;
            var v := k + 4 + |r.key|;
            && |s| == v + 4 + |r.value|
            && Number(s, 0) == |r.table| && s[4..k] == r.table
            && Number(s, k) == |r.key| && s[k + 4..v] == r.key
            && Number(s, v) == |r.value| && s[v + 4..] == r.value
  {
    hide Be32, Number;
    var s, k := EncodeBody(r), 4 + |r.table|;
    var v := k + 4 + |r.key|;
    assert s[0..4] == Be32(|r.table|);
    assert s[k..k + 4] == Be32(|r.key|);
    assert s[v..v + 4] == Be32(|r.value|);
    NumberAt(s, 0, |r.table|);
    NumberAt(s, k, |r.key|);
    NumberAt(s, v, |r.value|);
  }

  // What reading a body gives: it starts with the encoding of what comes back.
  lemma BodyRead(s: Bytes, b: Body)
    ensures DecodeBody(s) == Some(b) <==>
            && StringsFit(LogRecord(0, 0, b.table, b.key, b.value))
            && EncodeBody(LogRecord(0, 0, b.table, b.key, b.value)) <= s
  {
    hide ReadString, EncodeString;
    var t, k := 4 + |b.table|, 8 + |b.table| + |b.key|;
    StringRead(s, 0, b.table);
    StringRead(s, t, b.key);
    StringRead(s, k, b.value);
    if StringsFit(LogRecord(0, 0, b.table, b.key, b.value)) {
      var e := EncodeBody(LogRecord(0, 0, b.table, b.key, b.value));
      assert e[..t] == EncodeString(b.table) && e[t..k] == EncodeString(b.key) && e[k..] == EncodeString(b.value);
      assert e == e[..t] + e[t..k] + e[k..];
      if |e| <= |s| {
        var f := s[..|e|];
        assert f[..t] == s[0..t] && f[t..k] == s[t..k] && f[k..] == s[k..|e|];
        assert f == f[..t] + f[t..k] + f[k..];
      }
    }
  }

  lemma StringRead(s: Bytes, at: nat, x: Bytes)
    ensures ReadString(s, at) == Some(x) <==>
            |x| < UINT32 && at + 4 + |x| <= |s| && s[at..at + 4 + |x|] == EncodeString(x)
  {
    hide Be32, FromBe32;
    if at + 4 <= |s| {
      Be32OfBytes(s[at..at + 4]);
      if at + 4 + |x| <= |s| {
        var f := s[at..at + 4 + |x|];
        assert f[..4] == s[at..at + 4] && f[4..] == s[at + 4..at + 4 + |x|];
        assert f == f[..4] + f[4..];
        if |x| < UINT32 {
          Be32RoundTrip(|x|);
          assert EncodeString(x)[..4] == Be32(|x|) && EncodeString(x)[4..] == x;
        }
      }
    }
  }

  // What reading a frame gives, at any place of any file: the end-of-file error if and only if
  // the file ends inside it, the checksum error if and only if the checksum is not the body's,
  // and else another error or a record with what is stored.
  lemma FrameRead(file: Bytes, at: nat)
    ensures ReadFrame(file, at) == Failed(Eio) <==>
            |file| < at + 16 || |file| < at + 16 + Number(file, at)
    ensures ReadFrame(file, at) != Failed(Eio) ==>
              && at + 16 + Number(file, at) <= |file|
              && var body := file[at + 16..at + 16 + Number(file, at)];
              && (ReadFrame(file, at) == Failed(CrcCheckFailed) <==>
                    !CrcPolynomial.IsChecksum(CrcSpec.Word(0), body, FromBeWord(file[at + 4..at + 8])))
              && (ReadFrame(file, at).Got? ==>
                    var r := ReadFrame(file, at);
                    && r.next == at + 16 + Number(file, at)
                    && r.record.logId == Number(file, at + 8) && r.record.opType == Number(file, at + 12)
                    && StringsFit(r.record)
                    && EncodeBody(r.record) <= Base64.DecodedChars(Base64.Unpadded(body)))
  {
    hide FromBe32, FromBeWord, CrcSpec.Crc32, CrcPolynomial.IsChecksum, EncodeBody, DecodeBody, Base64.DecodedChars,
         Base64.Unpadded, Base64.TrailingPads, Number;
    if at + 16 <= |file| {
      NumberRead(file, at);
      NumberRead(file, at + 8);
      NumberRead(file, at + 12);
      if at + 16 + Number(file, at) <= |file| {
        var body := file[at + 16..at + 16 + Number(file, at)];
        CrcPolynomial.ChecksumIsRemainder(CrcSpec.Word(0), body, FromBeWord(file[at + 4..at + 8]));
        var r := ReadFrame(file, at);
        if r.Got? {
          BodyRead(Base64.DecodedChars(Base64.Unpadded(body)), Body(r.record.table, r.record.key, r.record.value));
          SameBody(r.record);
        }
      }
    }
  }

  lemma NumberRead(s: Bytes, at: nat)
    requires at + 4 <= |s|
    ensures FromBe32(s[at..at + 4]) == Number(s, at)
  {
    hide Idx;
    var f := s[at..at + 4];
    assert f[0] == s[at] && f[1] == s[at + 1] && f[2] == s[at + 2] && f[3] == s[at + 3];
  }

  lemma SameBody(r: LogRecord)
    requires StringsFit(r)
    ensures EncodeBody(r) == EncodeBody(LogRecord(0, 0, r.table, r.key, r.value))
  {
    hide EncodeString;
  }

  // How much fits: 32 bits for each number, and a body of 268435455 bytes.
  lemma WhatFits(r: LogRecord)
    ensures Storable(r) <==>
            && r.logId < 0x1_0000_0000 && r.opType < 0x1_0000_0000
            && 12 + |r.table| + |r.key| + |r.value| <= 268435455
  {
    var n := 12 + |r.table| + |r.key| + |r.value|;
    assert Base64.EncodedLengthOf(n) == (n + 2) / 3 * 4;
  }

  // A file starts with "LOGS" and the number 1.
  lemma HeaderLayout()
    ensures Replay.Header() == [76, 79, 71, 83, 0, 0, 0, 1]
  {
    Replay.HeaderBytes();
  }

  // The j-th hexadecimal digit of a number, from the lowest.
  function HexDigit(n: nat, j: nat): char {
    if j == 0 then "0123456789abcdef"[n % 16] else HexDigit(n / 16, j - 1)
  }

  // A name: eight hexadecimal digits of the epoch and eight of the index, the highest first.
  lemma NameLayout(dir: string, epoch: nat, index: nat) returns (e: string, x: string)
    ensures LogNames.NameOf(dir, epoch, index) == dir + e + x + ".log" && |e| == |x| == 8
    ensures forall i :: 0 <= i < 8 ==> e[i] == HexDigit(epoch, 7 - i) && x[i] == HexDigit(index, 7 - i)
  {
    hide LogNames.Digits, HexDigit;
    e, x := LogNames.Digits(epoch, 8), LogNames.Digits(index, 8);
    forall i | 0 <= i < 8 ensures e[i] == HexDigit(epoch, 7 - i) && x[i] == HexDigit(index, 7 - i) {
      DigitAt(epoch, 8, i);
      DigitAt(index, 8, i);
    }
  }

  lemma {:induction false} DigitAt(n: nat, w: nat, i: nat)
    requires i < w
    ensures LogNames.Digits(n, w)[i] == HexDigit(n, w - 1 - i)
    decreases w
  {
    if i < w - 1 {
      DigitAt(n / 16, w - 1, i);
    }
  }

  // In every reachable state the n-th record has number n, and each file holds records of one
  // quotient by 5000 only, which is the index in its name.
  lemma FiveThousandToAFile(st: GroupCommit.State) returns (c: Journal.Contents)
    requires GroupCommit.Reachable(st)
    ensures Journal.Holds(st.sys.journal, c) && Journal.LogOf(c) == st.history.log
    ensures forall i :: 0 <= i < |st.history.log| ==> st.history.log[i].logId == i + 1
    ensures |c.parts| == |st.sys.journal.closed|
    ensures forall i, k :: 0 <= i < |c.parts| && 0 <= k < |c.parts[i]| ==>
              c.parts[i][k].logId / 5000 == st.sys.journal.closed[i].index
    ensures st.sys.journal.current.Some? ==>
              forall k :: 0 <= k < |c.tail| ==> c.tail[k].logId / 5000 == st.sys.journal.current.value.index
  {
    hide GroupCommit.Reachable, Journal.Holds, Journal.LogOf, JournalOrder.Sorted, JournalOrder.EpochOk, Storable;
    c := CommitTheorems.LogFiles(st);
  }
}
