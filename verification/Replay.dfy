/**
 Replaying a log file: the header, then frame after frame until one cannot be read.  A
 file cut short anywhere behind its header gives back exactly the records whose frames
 survived whole.
 */
module Replay {
  import opened Common
  import opened RecordFormat

  const LOG_VERSION: nat := 1
  const MAGIC: Bytes := [76, 79, 71, 83]  // "LOGS"

  function Header(): (h: Bytes)
    ensures |h| == 8
  {
    MAGIC + Be32(LOG_VERSION)
  }

  // Log::ValidateHeader
  function HeaderError(file: Bytes): Err {
    if |file| < 4 then Eio
    else if file[..4] != MAGIC then Einval
    else if |file| < 8 then Eio
    else if FromBe32(file[4..8]) != LOG_VERSION then Einval
    else Ok
  }

  datatype Replayed = Replayed(records: seq<LogRecord>, end: nat, err: Err)

  // The records from offset `at` on, where the last good frame ends, and what stopped it.
  function ReplayFrom(file: Bytes, at: nat): (r: Replayed)
    requires at <= |file|
    ensures at <= r.end <= |file|
    ensures r.err != Ok ==> ReadFrame(file, r.end) == Failed(r.err)
    decreases |file| - at
  {
    match ReadFrame(file, at)
    case Failed(e) => Replayed([], at, e)
    case Got(record, next) =>
      var rest := ReplayFrom(file, next);
      rest.(records := [record] + rest.records)
  }

  // What RedoLogFile makes of a file: which records, which bytes are left, what stopped it.
  // A header that is not whole and right leaves the file alone.
  datatype Redone = Redone(records: seq<LogRecord>, bytes: Bytes, valid: bool, err: Err)

  function Redo(file: Bytes): Redone {
    var h := HeaderError(file);
    if h != Ok then Redone([], file, false, h)
    else
      var r := ReplayFrom(file, 8);
      Redone(r.records, if r.err == Eio then file[..r.end] else file, true, r.err)
  }

  // The eight bytes of a right header: "LOGS", and 1 as four bytes.
  predicate RightHeader(file: Bytes) {
    |file| >= 8 && file[..8] == [76, 79, 71, 83, 0, 0, 0, 1]
  }

  lemma HeaderBytes()
    ensures Header() == [76, 79, 71, 83, 0, 0, 0, 1]
  {
    hide Be32, FromBe32;
    Be32RoundTrip(LOG_VERSION);
    VersionBytes(Be32(LOG_VERSION));
  }

  lemma VersionBytes(s: Bytes)
    requires |s| == 4
    ensures FromBe32(s) == LOG_VERSION <==> s == [0, 0, 0, 1]
  {
    hide Idx;
    SmallBytes(s[0], s[1], s[2], s[3]);
    if FromBe32(s) == LOG_VERSION {
      assert Idx(s[0]) == 0 && Idx(s[1]) == 0 && Idx(s[2]) == 0 && Idx(s[3]) == 1;
    }
  }

  lemma SmallBytes(a: Byte, b: Byte, c: Byte, d: Byte)
    ensures (Idx(a) == 0 <==> a == 0) && (Idx(b) == 0 <==> b == 0) && (Idx(c) == 0 <==> c == 0)
    ensures (Idx(d) == 1 <==> d == 1)
  {}

  // A header is accepted if and only if it is those eight bytes; a file that ends inside a
  // right one is at its end, and any other is invalid.
  lemma HeaderErrorIs(file: Bytes)
    ensures HeaderError(file) == Ok <==> RightHeader(file)
    ensures HeaderError(file) == Eio <==> |file| < 4 || (|file| < 8 && file[..4] == [76, 79, 71, 83])
    ensures HeaderError(file) == Einval <==>
            |file| >= 4 && (file[..4] != [76, 79, 71, 83] || (|file| >= 8 && file[4..8] != [0, 0, 0, 1]))
  {
    hide FromBe32;
    if |file| >= 8 {
      VersionBytes(file[4..8]);
      assert file[..8] == file[..4] + file[4..8];
      assert [76, 79, 71, 83, 0, 0, 0, 1] == MAGIC + [0, 0, 0, 1];
      assert file[..8][..4] == file[..4] && file[..8][4..] == file[4..8];
    }
  }

  // With any other header, the file is left alone.
  lemma DamagedHeader(file: Bytes)
    ensures RightHeader(file) <==> Redo(file).valid
    ensures !RightHeader(file) ==> Redo(file).records == [] && Redo(file).bytes == file
  {
    hide HeaderError, ReplayFrom;
    HeaderErrorIs(file);
  }

  // ----- Files of whole frames -------------------------------------------------------

  ghost function Frames(rs: seq<Entry>): Bytes
    decreases |rs|
  {
    if rs == [] then [] else Frame(rs[0]) + Frames(rs[1..])
  }

  // How many of the frames lie wholly inside the first `k` bytes.
  ghost function WholeFrames(rs: seq<Entry>, k: nat): (n: nat)
    ensures n <= |rs|
    decreases |rs|
  {
    if rs == [] || k < |Frame(rs[0])| then 0 else 1 + WholeFrames(rs[1..], k - |Frame(rs[0])|)
  }

  lemma {:induction false} FramesAppend(a: seq<Entry>, b: seq<Entry>)
    ensures Frames(a + b) == Frames(a) + Frames(b)
    decreases |a|
  {
    hide Storable, Frame;
    if a == [] {
      assert a + b == b;
    } else {
      assert (a + b)[1..] == a[1..] + b;
      FramesAppend(a[1..], b);
    }
  }

  lemma FramesOfOne(r: Entry)
    ensures Frames([r]) == Frame(r)
  {
    hide Frame;
    assert [r][1..] == [];
  }

  // Exactly `WholeFrames` frames fit: the count is right from both sides.
  lemma {:induction false} WholeFramesExact(rs: seq<Entry>, k: nat)
    ensures var n := WholeFrames(rs, k);
            && |Frames(rs[..n])| <= k
            && (n < |rs| ==> k < |Frames(rs[..n + 1])|)
    decreases |rs|
  {
    hide Storable, Frame, Frames, WholeFrames;
    FramesUnfold(rs, k);
    FramesUnfold(rs[..0], 0);
    if rs == [] {
    } else if k < |Frame(rs[0])| {
      assert rs[..1] == [rs[0]];
      FramesOfOne(rs[0]);
    } else {
      var n := WholeFrames(rs[1..], k - |Frame(rs[0])|);
      WholeFramesExact(rs[1..], k - |Frame(rs[0])|);
      PrefixSplit(rs, n);
      if n < |rs| - 1 {
        PrefixSplit(rs, n + 1);
      }
    }
  }

  lemma PrefixSplit(rs: seq<Entry>, n: nat)
    requires n < |rs|
    ensures Frames(rs[..n + 1]) == Frame(rs[0]) + Frames(rs[1..][..n])
  {
    hide Frame;
    assert rs[..n + 1][1..] == rs[1..][..n];
  }

  lemma {:induction false} WholeFramesAtLeast(rs: seq<Entry>, m: nat, k: nat)
    requires m <= |rs| && |Frames(rs[..m])| <= k
    ensures m <= WholeFrames(rs, k)
    decreases |rs|
  {
    hide Storable, Frame;
    if m > 0 {
      PrefixSplit(rs, m - 1);
      WholeFramesAtLeast(rs[1..], m - 1, k - |Frame(rs[0])|);
    }
  }

  // ----- Torn tails ------------------------------------------------------------------

  // After any cut, replay returns exactly the records whose frames are whole, stops at the
  // end of the last of them, and takes what is left for the end of the file.
  lemma {:induction false} ReplayOfCut(before: Bytes, rs: seq<Entry>, k: nat)
    requires k <= |Frames(rs)|
    ensures var n := WholeFrames(rs, k);
            var file := before + Frames(rs)[..k];
            ReplayFrom(file, |before|) ==
            Replayed(rs[..n], |before| + |Frames(rs[..n])|, Eio)
    decreases |rs|
  {
    hide Frame, ReadFrame, Frames, WholeFrames, ReplayFrom, Storable;
    var file := before + Frames(rs)[..k];
    FramesUnfold(rs, k);
    if rs == [] {
      AtEndOfFile(file);
      StoppedAt(file, |before|, Eio);
    } else if k < |Frame(rs[0])| {
      CutInside(before, Frame(rs[0]), Frames(rs[1..]), k);
      TornFrame(file, |before|, rs[0]);
      StoppedAt(file, |before|, Eio);
      FramesUnfold(rs[..0], 0);
    } else {
      var f, k' := Frame(rs[0]), k - |Frame(rs[0])|;
      CutBehind(before, f, Frames(rs[1..]), k);
      FrameRoundTrip(file, |before|, rs[0]);
      ReplayOfCut(before + f, rs[1..], k');
      var n := WholeFrames(rs[1..], k');
      PrefixSplit(rs, n);
      assert rs[..n + 1] == [rs[0]] + rs[1..][..n];
      ReplayOneMore(file, |before|, rs[0], |before| + |f|);
    }
  }

  lemma FramesUnfold(rs: seq<Entry>, k: nat)
    ensures rs == [] ==> Frames(rs) == [] && WholeFrames(rs, k) == 0
    ensures rs != [] ==>
              && Frames(rs) == Frame(rs[0]) + Frames(rs[1..])
              && WholeFrames(rs, k) ==
                 if k < |Frame(rs[0])| then 0 else 1 + WholeFrames(rs[1..], k - |Frame(rs[0])|)
  {
    hide Frame;
  }

  lemma CutInside(before: Bytes, f: Bytes, rest: Bytes, k: nat)
    requires k <= |f|
    ensures (before + (f + rest)[..k])[|before|..] == f[..k]
  {}

  lemma CutBehind(before: Bytes, f: Bytes, rest: Bytes, k: nat)
    requires |f| <= k <= |f| + |rest|
    ensures before + (f + rest)[..k] == (before + f) + rest[..k - |f|]
    ensures (before + (f + rest)[..k])[|before|..|before| + |f|] == f
  {
    assert (f + rest)[..k] == f + rest[..k - |f|];
  }

  lemma ReplayOneMore(file: Bytes, at: nat, r: LogRecord, next: nat)
    requires at <= |file| && ReadFrame(file, at) == Got(r, next)
    ensures next <= |file|
    ensures ReplayFrom(file, at) ==
            ReplayFrom(file, next).(records := [r] + ReplayFrom(file, next).records)
  {
    hide ReadFrame;
  }

  lemma AtEndOfFile(file: Bytes)
    ensures ReadFrame(file, |file|) == Failed(Eio)
  {}

  lemma HeaderIsRight(file: Bytes)
    requires |file| >= 8 && file[..8] == Header()
    ensures HeaderError(file) == Ok
  {
    assert file[..4] == file[..8][..4] == MAGIC;
    assert file[4..8] == file[..8][4..8] == Be32(LOG_VERSION);
    Be32RoundTrip(LOG_VERSION);
  }

  lemma TornHeader(file: Bytes)
    requires |file| < 8 && file == Header()[..|file|]
    ensures HeaderError(file) == Eio
  {
    if |file| >= 4 {
      assert file[..4] == Header()[..4] == MAGIC;
    }
  }

  // The file a cut leaves, and the file recovery makes of it: frames whole, tail gone; and
  // recovering once more changes nothing and returns the same records.
  lemma RedoOfCut(rs: seq<Entry>, cut: nat)
    requires 8 <= cut <= 8 + |Frames(rs)|
    ensures var n := WholeFrames(rs, cut - 8);
            var file := (Header() + Frames(rs))[..cut];
            var kept := Header() + Frames(rs[..n]);
            && Redo(file) == Redone(rs[..n], kept, true, Eio)
            && Redo(kept) == Redone(rs[..n], kept, true, Eio)
  {
    hide Frames, WholeFrames, Header, Redo;
    var n := WholeFrames(rs, cut - 8);
    var file := (Header() + Frames(rs))[..cut];
    assert file == Header() + Frames(rs)[..cut - 8];
    RedoOfPrefix(rs, cut - 8, file);
    KeptPrefix(rs, n, cut);
    RedoOfWhole(rs[..n]);
  }

  lemma KeptPrefix(rs: seq<Entry>, n: nat, cut: nat)
    requires n <= |rs| && 8 + |Frames(rs[..n])| <= cut <= 8 + |Frames(rs)|
    ensures (Header() + Frames(rs))[..cut][..8 + |Frames(rs[..n])|] == Header() + Frames(rs[..n])
  {
    hide Frames, Header;
    assert rs == rs[..n] + rs[n..];
    FramesAppend(rs[..n], rs[n..]);
  }

  lemma RedoOfPrefix(rs: seq<Entry>, k: nat, file: Bytes)
    requires k <= |Frames(rs)| && file == Header() + Frames(rs)[..k]
    ensures var n := WholeFrames(rs, k);
            && 8 + |Frames(rs[..n])| <= |file|
            && Redo(file) == Redone(rs[..n], file[..8 + |Frames(rs[..n])|], true, Eio)
  {
    hide Frames, WholeFrames, Header;
    assert file[..8] == Header();
    HeaderIsRight(file);
    ReplayOfCut(Header(), rs, k);
  }

  lemma RedoOfWhole(rs: seq<Entry>)
    ensures var file := Header() + Frames(rs);
            Redo(file) == Redone(rs, file, true, Eio)
  {
    hide Frames, WholeFrames, Header;
    var file := Header() + Frames(rs);
    assert Frames(rs)[..|Frames(rs)|] == Frames(rs);
    assert rs[..|rs|] == rs;
    WholeFramesAtLeast(rs, |rs|, |Frames(rs)|);
    RedoOfPrefix(rs, |Frames(rs)|, file);
    assert file[..|file|] == file;
  }

  // ----- Damage ----------------------------------------------------------------------

  // Whole frames are read one after the other, whatever comes behind them.
  lemma {:induction false} ReplayThrough(before: Bytes, rs: seq<Entry>, rest: Bytes)
    ensures var file := before + Frames(rs) + rest;
            var behind := ReplayFrom(file, |before| + |Frames(rs)|);
            ReplayFrom(file, |before|) == behind.(records := rs + behind.records)
    decreases |rs|
  {
    hide Frame, ReadFrame, Frames, ReplayFrom, Storable;
    FramesUnfold(rs, 0);
    var file := before + Frames(rs) + rest;
    if rs != [] {
      var f := Frame(rs[0]);
      FourInFile(before, f, Frames(rs[1..]), rest);
      FrameRoundTrip(file, |before|, rs[0]);
      ReplayOneMore(file, |before|, rs[0], |before| + |f|);
      ReplayThrough(before + f, rs[1..], rest);
      var behind := ReplayFrom(file, |before| + |Frames(rs)|);
      assert [rs[0]] + (rs[1..] + behind.records) == rs + behind.records;
    }
  }

  lemma FourInFile(before: Bytes, f: Bytes, more: Bytes, rest: Bytes)
    ensures before + (f + more) + rest == before + f + more + rest
    ensures (before + (f + more) + rest)[|before|..|before| + |f|] == f
  {}

  // Damage inside four consecutive bytes of a stored body ends the replay of its file there:
  // the records before it come back, and the file is left as it is, with all behind it.
  lemma DamagedFrame(rs: seq<Entry>, r: Entry, body: Bytes, window: nat, rest: Bytes)
    requires |body| == |StoredBody(r)| && body != StoredBody(r)
    requires forall i :: 0 <= i < |body| && !(window <= i < window + 4) ==> body[i] == StoredBody(r)[i]
    ensures var file := Header() + Frames(rs) + (Frame(r)[..16] + body + rest);
            Redo(file) == Redone(rs, file, true, CrcCheckFailed)
  {
    hide Frames, Header, ReadFrame, Frame, StoredBody, Storable, ReplayFrom;
    var damaged := Frame(r)[..16] + body;
    var file := Header() + Frames(rs) + (damaged + rest);
    var at := 8 + |Frames(rs)|;
    assert file[..8] == Header();
    HeaderIsRight(file);
    ReplayThrough(Header(), rs, damaged + rest);
    assert file[at..at + |damaged|] == damaged;
    DamagedBodyDetected(file, at, r, body, window);
    StoppedAt(file, at, CrcCheckFailed);
    assert rs + [] == rs;
  }

  // So does any damage to a stored checksum.
  lemma DamagedChecksum(rs: seq<Entry>, r: Entry, field: Bytes, rest: Bytes)
    requires |field| == 4 && field != Frame(r)[4..8]
    ensures var file := Header() + Frames(rs) + (Frame(r)[..4] + field + Frame(r)[8..] + rest);
            Redo(file) == Redone(rs, file, true, CrcCheckFailed)
  {
    hide Frames, Header, ReadFrame, Frame, Storable, ReplayFrom;
    var damaged := Frame(r)[..4] + field + Frame(r)[8..];
    var file := Header() + Frames(rs) + (damaged + rest);
    var at := 8 + |Frames(rs)|;
    assert file[..8] == Header();
    HeaderIsRight(file);
    ReplayThrough(Header(), rs, damaged + rest);
    assert file[at..at + |damaged|] == damaged;
    DamagedChecksumDetected(file, at, r, field);
    StoppedAt(file, at, CrcCheckFailed);
    assert rs + [] == rs;
  }

  // The checksum is that of the body: with another log id and operation stored, another
  // record comes back without an error, and all behind it as well.
  lemma DamagedNumbers(rs: seq<Entry>, r: Entry, id: nat, op: nat, more: seq<Entry>)
    requires id < UINT32 && op < UINT32
    ensures Storable(r.(logId := id, opType := op))
    ensures var file := Header() + Frames(rs) + (Frame(r)[..8] + Be32(id) + Be32(op) + Frame(r)[16..] + Frames(more));
            Redo(file) == Redone(rs + [r.(logId := id, opType := op)] + more, file, true, Eio)
  {
    hide Frames, Header, Frame, Be32, Storable, Redo;
    DamagedNumbersUnseen(r, id, op);
    var other: Entry := r.(logId := id, opType := op);
    FramesOfOne(other);
    FramesAppend(rs, [other]);
    FramesAppend(rs + [other], more);
    FourParts(Header(), Frames(rs), Frame(other), Frames(more));
    RedoOfWhole(rs + [other] + more);
  }

  lemma FourParts(a: Bytes, b: Bytes, c: Bytes, d: Bytes)
    ensures a + b + (c + d) == a + (b + c + d)
  {}

  // A stored length that reaches past the end of the file is taken for a torn tail, however
  // many whole records stand behind it: they are cut off.
  lemma DamagedLength(rs: seq<Entry>, r: Entry, len: nat, more: seq<Entry>)
    requires len < UINT32 && 16 + len > |Frame(r)| + |Frames(more)|
    ensures var file := Header() + Frames(rs) + (Be32(len) + Frame(r)[4..] + Frames(more));
            Redo(file) == Redone(rs, Header() + Frames(rs), true, Eio)
  {
    hide Frames, Header, Frame, Be32, FromBe32, Storable, ReplayFrom;
    var rest := Be32(len) + Frame(r)[4..] + Frames(more);
    var file := Header() + Frames(rs) + rest;
    var at := 8 + |Frames(rs)|;
    assert file[..8] == Header();
    HeaderIsRight(file);
    ReplayThrough(Header(), rs, rest);
    assert file[at..at + 4] == Be32(len);
    Be32RoundTrip(len);
    StoppedAt(file, at, Eio);
    assert rs + [] == rs && file[..at] == Header() + Frames(rs);
  }

  // ----- Reads that fail -------------------------------------------------------------

  // As above, when the read of one more frame behind the first `n` fails with this error.
  function ReplayFailing(file: Bytes, at: nat, n: nat, e: Err): (r: Replayed)
    requires at <= |file|
    ensures at <= r.end <= |file|
    decreases n
  {
    if n == 0 then Replayed([], at, e)
    else
      match ReadFrame(file, at)
      case Failed(x) => Replayed([], at, x)
      case Got(record, next) =>
        var rest := ReplayFailing(file, next, n - 1, e);
        rest.(records := [record] + rest.records)
  }

  function RedoFailing(file: Bytes, n: nat, e: Err): Redone {
    var h := HeaderError(file);
    if h != Ok then Redone([], file, false, h)
    else
      var r := ReplayFailing(file, 8, n, e);
      Redone(r.records, if r.err == Eio then file[..r.end] else file, true, r.err)
  }

  lemma {:induction false} FailingThrough(before: Bytes, rs: seq<Entry>, n: nat, e: Err)
    requires n <= |rs|
    ensures ReplayFailing(before + Frames(rs), |before|, n, e) ==
            Replayed(rs[..n], |before| + |Frames(rs[..n])|, e)
    decreases n
  {
    hide Frame, ReadFrame, Frames, Storable, ReplayFailing;
    FramesUnfold(rs, 0);
    FramesUnfold(rs[..0], 0);
    var file := before + Frames(rs);
    if n == 0 {
      FailingOneMore(file, |before|, 0, e);
    } else {
      var f := Frame(rs[0]);
      ThreeInFile(before, f, Frames(rs[1..]));
      FrameRoundTrip(file, |before|, rs[0]);
      FailingOneMore(file, |before|, n, e);
      FailingThrough(before + f, rs[1..], n - 1, e);
      PrefixSplit(rs, n - 1);
      assert rs[..n] == [rs[0]] + rs[1..][..n - 1];
    }
  }

  lemma ThreeInFile(before: Bytes, f: Bytes, rest: Bytes)
    ensures before + (f + rest) == before + f + rest
    ensures (before + (f + rest))[|before|..|before| + |f|] == f
  {}

  lemma FailingOneMore(file: Bytes, at: nat, n: nat, e: Err)
    requires at <= |file|
    ensures n == 0 ==> ReplayFailing(file, at, n, e) == Replayed([], at, e)
    ensures n > 0 && ReadFrame(file, at).Got? ==>
              var r := ReadFrame(file, at);
              && r.next <= |file|
              && ReplayFailing(file, at, n, e) ==
                 ReplayFailing(file, r.next, n - 1, e).(
                   records := [r.record] + ReplayFailing(file, r.next, n - 1, e).records)
  {
    hide ReadFrame;
  }

  lemma PrefixShorter(rs: seq<Entry>, n: nat)
    requires n <= |rs|
    ensures |Frames(rs[..n])| <= |Frames(rs)|
  {
    hide Frames;
    assert rs == rs[..n] + rs[n..];
    FramesAppend(rs[..n], rs[n..]);
  }

  // A read that fails while an intact file is replayed: what was read before comes back.  If
  // the error happens to be Eio, it is taken for the end of the file, and what stands behind
  // is cut off for good; with any other error the next replay gives back all of it.
  lemma FailedRead(rs: seq<Entry>, n: nat, e: Err)
    requires n <= |rs| && e != Ok
    ensures var file := Header() + Frames(rs);
            var redone := RedoFailing(file, n, e);
            && redone.records == rs[..n] && redone.err == e
            && redone.bytes == (if e == Eio then Header() + Frames(rs[..n]) else file)
            && Redo(redone.bytes).records == if e == Eio then rs[..n] else rs
  {
    hide Frames, Header, Redo, Storable, ReplayFailing;
    var file := Header() + Frames(rs);
    assert file[..8] == Header();
    HeaderIsRight(file);
    FailingThrough(Header(), rs, n, e);
    RedoOfWhole(rs);
    RedoOfWhole(rs[..n]);
    PrefixShorter(rs, n);
    KeptPrefix(rs, n, |file|);
    assert file[..|file|] == file;
  }

  lemma StoppedAt(file: Bytes, at: nat, e: Err)
    requires at <= |file| && ReadFrame(file, at) == Failed(e)
    ensures ReplayFrom(file, at) == Replayed([], at, e)
  {
    hide ReadFrame;
  }
}
