/**
 Messages over a byte stream: sends and receives that transfer part of a message are
 resumed, and what is delivered at one end is what was enqueued at the other.
 */
module TcpConnection {
  import opened Common
  import opened RecordFormat

  const HEAD_LENGTH: nat := 8

  // A message as it goes over the wire: the length of its data, four more bytes of head,
  // and the data.
  ghost predicate Stamped(msg: Bytes) {
    && 8 <= |msg| < UINT32
    && FromBe32(msg[..4]) == |msg| - 8
  }

  // With less data than the receiver puts up with.
  predicate Short(msg: Bytes) { |msg| < 12 }

  // ----- The two ends ----------------------------------------------------------------

  // The message being sent stays at the front of the queue until it is sent.
  datatype Sender = Sender(mToSendMsg: seq<Bytes>, mSending: bool, mSent: int, mToSend: int)

  // `buffer` holds what has been received of the current message.
  datatype Receiver = Receiver(mPreRecv: bool, buffer: Bytes, mRecved: int, mToRecv: int, mClosed: bool,
      delivered: seq<Bytes>)

  // TcpConnection::InitNextSend
  function NextSend(s: Sender): Sender {
    if s.mToSendMsg == [] then s
    else s.(mSending := true, mToSend := |s.mToSendMsg[0]|, mSent := 0)
  }

  // Ready to send: there is a message, and there was one or is one now.
  function Ready(s: Sender): Sender {
    if s.mSending then s else NextSend(s)
  }

  // What `send` or `recv` came to.
  datatype Transfer = Moved(count: nat) | WouldBlock | Failed(error: Err)

  // What the code adds to its counters: a send that would block counts as -1, and so does a
  // receive that fails for whatever reason, as the test for a negative count is made on an
  // unsigned number.
  function Counted(t: Transfer): int {
    if t.Moved? then t.count else -1
  }

  // How many bytes a transfer can count for.  Going back before the start of a message is
  // not modelled.
  predicate Sendable(s: Sender, sent: int) {
    var r := Ready(s);
    r.mSending ==>
      && r.mToSendMsg != [] && -1 <= sent <= r.mToSend && (sent < 0 ==> r.mSent > 0)
      && 0 <= r.mSent && r.mSent + r.mToSend <= |r.mToSendMsg[0]|
  }

  function OnWire(s: Sender, sent: int): Bytes
    requires Sendable(s, sent)
  {
    var r := Ready(s);
    if !r.mSending || sent < 0 then [] else r.mToSendMsg[0][r.mSent..r.mSent + sent]
  }

  // TcpConnection::WriteData
  function Written(s: Sender, sent: int): Sender
    requires Sendable(s, sent)
  {
    var r := Ready(s);
    if !r.mSending then r
    else if r.mToSend - sent == 0 then Sender(r.mToSendMsg[1..], false, 0, 0)
    else r.(mSent := r.mSent + sent, mToSend := r.mToSend - sent)
  }

  // TcpSocket::PreRecv and what TcpConnection::ReadData does with the length.
  function Begun(r: Receiver, head: Bytes): Receiver
    requires |head| == 4
  {
    var dataLen := FromBe32(head);
    if dataLen < 4 then r.(mPreRecv := true, mClosed := true)
    else r.(mPreRecv := true, buffer := head, mRecved := 4, mToRecv := dataLen + HEAD_LENGTH)
  }

  function Stored(got: int): (n: nat)
    ensures got >= 0 ==> n == got
  {
    if got < 0 then 0 else got
  }

  predicate Receivable(r: Receiver, got: int, data: Bytes) {
    && !r.mClosed && r.mPreRecv && 0 <= r.mRecved <= |r.buffer|
    && -1 <= got <= r.mToRecv - r.mRecved && (got < 0 ==> r.mRecved > 0) && |data| == Stored(got)
  }

  // The rest of TcpConnection::ReadData.
  function Received(r: Receiver, got: int, data: Bytes): Receiver
    requires Receivable(r, got, data)
  {
    var more := r.(buffer := r.buffer[..r.mRecved] + data, mRecved := r.mRecved + got);
    if more.mRecved == more.mToRecv && more.mRecved > 4
    then Receiver(false, [], 0, 0, false, more.delivered + [more.buffer])
    else more
  }

  // ----- The link --------------------------------------------------------------------

  // With all that was ever put on the wire and taken from it, and how often a transfer of
  // either side counted as -1.
  datatype Link = Link(sender: Sender, wire: Bytes, receiver: Receiver, enqueued: seq<Bytes>,
      put: Bytes, taken: Bytes, sendsFailed: nat, recvsFailed: nat)

  const IDLE := Link(Sender([], false, 0, 0), [], Receiver(false, [], 0, 0, false, []), [], [], [], 0, 0)

  // Transfers under way, by their count: -1, or a number of bytes.  A read takes the four
  // bytes of the length first if a new message begins, and receives nothing if that closes
  // the connection.
  datatype Event = Enqueue(msg: Bytes) | Write(sent: int) | Read(got: int)

  predicate Fails(e: Event) {
    (e.Write? && e.sent < 0) || (e.Read? && e.got < 0)
  }

  // The wire behind the length, if that is still to be read.
  function Available(r: Receiver, wire: Bytes): (rest: Bytes)
    ensures |rest| <= |wire| && rest == wire[|wire| - |rest|..]
  {
    if r.mPreRecv || |wire| < 4 then wire else wire[4..]
  }

  function Receiving(r: Receiver, wire: Bytes): Receiver
    requires |wire| >= 4 || r.mPreRecv
  {
    if r.mPreRecv then r else Begun(r, wire[..4])
  }

  ghost predicate Possible(l: Link, e: Event) {
    match e
    case Enqueue(msg) => Stamped(msg)
    case Write(sent) => (sent > 0 || sent == -1) && Ready(l.sender).mSending && Sendable(l.sender, sent)
    case Read(got) =>
      && !l.receiver.mClosed
      && (l.receiver.mPreRecv || (|l.wire| >= 4 && FromBe32(l.wire[..4]) + HEAD_LENGTH < UINT32))
      && var r, rest := Receiving(l.receiver, l.wire), Available(l.receiver, l.wire);
      && (r.mClosed ==> got == 0)
      && (!r.mClosed ==> (got > 0 || got == -1) && got <= |rest| && Receivable(r, got, rest[..Stored(got)]))
  }

  ghost function After(l: Link, e: Event): Link
    requires Possible(l, e)
  {
    match e
    case Enqueue(msg) =>
      l.(sender := l.sender.(mToSendMsg := l.sender.mToSendMsg + [msg]), enqueued := l.enqueued + [msg])
    case Write(sent) =>
      var data := OnWire(l.sender, sent);
      l.(sender := Written(l.sender, sent), wire := l.wire + data, put := l.put + data,
         sendsFailed := l.sendsFailed + if sent < 0 then 1 else 0)
    case Read(got) =>
      var r, rest := Receiving(l.receiver, l.wire), Available(l.receiver, l.wire);
      var left := rest[Stored(got)..];
      l.(receiver := if r.mClosed then r else Received(r, got, rest[..Stored(got)]),
         wire := left, taken := l.taken + l.wire[..|l.wire| - |left|],
         recvsFailed := l.recvsFailed + if got < 0 then 1 else 0)
  }

  ghost predicate Run(l: Link, events: seq<Event>, last: Link)
    decreases |events|
  {
    if events == [] then last == l
    else Possible(l, events[0]) && Run(After(l, events[0]), events[1..], last)
  }

  // ----- What every event keeps ------------------------------------------------------

  ghost function Flat(msgs: seq<Bytes>): Bytes
    decreases |msgs|
  {
    if msgs == [] then [] else msgs[0] + Flat(msgs[1..])
  }

  ghost predicate SenderOk(s: Sender) {
    && (forall m :: m in s.mToSendMsg ==> Stamped(m))
    && 0 <= s.mSent
    && (s.mSending ==> s.mToSendMsg != [] && s.mSent + s.mToSend == |s.mToSendMsg[0]| && s.mToSend > 0)
  }

  // What is still to be put on the wire.
  ghost function Unsent(s: Sender): Bytes
    requires SenderOk(s)
  {
    if s.mSending then s.mToSendMsg[0][s.mSent..] + Flat(s.mToSendMsg[1..]) else Flat(s.mToSendMsg)
  }

  ghost predicate ReceiverOk(r: Receiver, enqueued: seq<Bytes>) {
    && !r.mClosed
    && DeliveredOk(r.delivered, enqueued)
    && r.mRecved == |r.buffer|
    && (!r.mPreRecv ==> r.buffer == [])
    && (r.mPreRecv ==>
          && 4 <= r.mRecved < r.mToRecv && HEAD_LENGTH + 4 <= r.mToRecv
          && |r.delivered| < |enqueued| && |enqueued[|r.delivered|]| == r.mToRecv)
  }

  // The first of the messages enqueued, none of them short.
  ghost predicate DeliveredOk(delivered: seq<Bytes>, enqueued: seq<Bytes>) {
    delivered <= enqueued && forall m :: m in delivered ==> !Short(m)
  }

  // What is behind the delivered messages is in the receiver's buffer, on the wire, or not
  // yet sent, in this order.
  ghost predicate LinkOk(l: Link) {
    && (forall m :: m in l.enqueued ==> Stamped(m))
    && SenderOk(l.sender) && ReceiverOk(l.receiver, l.enqueued)
    && l.receiver.buffer + l.wire + Unsent(l.sender) == Flat(l.enqueued[|l.receiver.delivered|..])
  }

  // As long as the receiver is open; what closes it is a short message.
  ghost predicate Linked(l: Link) {
    if l.receiver.mClosed then
      && (forall m :: m in l.enqueued ==> Stamped(m))
      && SenderOk(l.sender) && ClosedOn(l.receiver.delivered, l.enqueued)
    else LinkOk(l)
  }

  ghost predicate ClosedOn(delivered: seq<Bytes>, enqueued: seq<Bytes>) {
    && DeliveredOk(delivered, enqueued)
    && |delivered| < |enqueued| && Short(enqueued[|delivered|])
  }

  lemma {:induction false} FlatAppend(a: seq<Bytes>, b: seq<Bytes>)
    ensures Flat(a + b) == Flat(a) + Flat(b)
    decreases |a|
  {
    if a == [] {
      assert a + b == b;
    } else {
      assert (a + b)[1..] == a[1..] + b;
      FlatAppend(a[1..], b);
      assert a[0] + (Flat(a[1..]) + Flat(b)) == a[0] + Flat(a[1..]) + Flat(b);
    }
  }

  lemma FlatOfOne(m: Bytes)
    ensures Flat([m]) == m
  {
    assert [m][1..] == [];
    assert m + [] == m;
  }

  lemma FourParts(a: Bytes, b: Bytes, c: Bytes, d: Bytes)
    ensures a + b + (c + d) == a + b + c + d
    ensures a + (b + c) + d == a + b + (c + d)
  {}

  lemma UnsentMore(s: Sender, msg: Bytes)
    requires SenderOk(s) && Stamped(msg)
    ensures var s' := s.(mToSendMsg := s.mToSendMsg + [msg]);
            SenderOk(s') && Unsent(s') == Unsent(s) + msg
  {
    hide Stamped;
    var s' := s.(mToSendMsg := s.mToSendMsg + [msg]);
    FlatOfOne(msg);
    if s.mSending {
      assert s'.mToSendMsg[1..] == s.mToSendMsg[1..] + [msg];
      FlatAppend(s.mToSendMsg[1..], [msg]);
      assert s.mToSendMsg[0][s.mSent..] + (Flat(s.mToSendMsg[1..]) + msg) == Unsent(s) + msg;
    } else {
      FlatAppend(s.mToSendMsg, [msg]);
    }
  }

  lemma EnqueueKeeps(l: Link, msg: Bytes)
    requires LinkOk(l) && Stamped(msg)
    ensures LinkOk(After(l, Enqueue(msg)))
  {
    hide Stamped, SenderOk, Unsent, Flat;
    var n := |l.receiver.delivered|;
    UnsentMore(l.sender, msg);
    FlatOfOne(msg);
    FourParts(l.receiver.buffer, l.wire, Unsent(l.sender), msg);
    assert (l.enqueued + [msg])[n..] == l.enqueued[n..] + [msg];
    FlatAppend(l.enqueued[n..], [msg]);
  }

  lemma ReadyKeeps(s: Sender)
    requires SenderOk(s)
    ensures SenderOk(Ready(s)) && Unsent(Ready(s)) == Unsent(s)
  {
    hide FromBe32;
    if !s.mSending && s.mToSendMsg != [] {
      assert s.mToSendMsg[0] in s.mToSendMsg;
    }
  }

  lemma WriteKeeps(s: Sender, sent: nat)
    requires SenderOk(s) && sent > 0 && Sendable(s, sent)
    ensures SenderOk(Written(s, sent)) && OnWire(s, sent) + Unsent(Written(s, sent)) == Unsent(s)
  {
    hide SenderOk, Unsent;
    ReadyKeeps(s);
    var r := Ready(s);
    if r.mSending {
      WriteReady(r, sent);
    } else {
      assert [] + Unsent(r) == Unsent(r);
    }
  }

  lemma WriteReady(r: Sender, sent: nat)
    requires SenderOk(r) && r.mSending && 0 < sent <= r.mToSend
    ensures Sendable(r, sent)
    ensures SenderOk(Written(r, sent)) && OnWire(r, sent) + Unsent(Written(r, sent)) == Unsent(r)
  {
    hide Stamped, Flat;
    SplitMessage(r.mToSendMsg[0], r.mSent, r.mSent + sent, Flat(r.mToSendMsg[1..]));
  }

  lemma SplitMessage(m: Bytes, a: nat, b: nat, rest: Bytes)
    requires a <= b <= |m|
    ensures m[a..b] + (m[b..] + rest) == m[a..] + rest
    ensures b == |m| ==> m[a..b] + rest == m[a..] + rest
  {
    assert m[a..] == m[a..b] + m[b..];
  }

  lemma HeadOfWire(l: Link)
    requires LinkOk(l) && !l.receiver.mPreRecv && |l.wire| >= 4
    ensures var n := |l.receiver.delivered|;
            n < |l.enqueued| && Stamped(l.enqueued[n]) && l.wire[..4] == l.enqueued[n][..4]
  {
    hide FromBe32;
    var n := |l.receiver.delivered|;
    var left := l.enqueued[n..];
    assert ([] + l.wire + Unsent(l.sender))[..4] == l.wire[..4];
    assert left != [];
    assert l.enqueued[n] in l.enqueued;
    assert Flat(left)[..4] == left[0][..4];
  }

  // The length of the next message has been read: the receiver is ready for the rest of it,
  // or has closed on it.
  lemma BeginKeeps(l: Link)
    requires LinkOk(l) && (l.receiver.mPreRecv || |l.wire| >= 4)
    ensures var r := Receiving(l.receiver, l.wire);
            && r.delivered == l.receiver.delivered && r.mPreRecv
            && (r.mClosed ==> ClosedOn(r.delivered, l.enqueued))
            && (!r.mClosed ==> LinkOk(l.(receiver := r, wire := Available(l.receiver, l.wire))))
  {
    hide FromBe32;
    if !l.receiver.mPreRecv {
      HeadOfWire(l);
      assert l.wire == l.wire[..4] + l.wire[4..];
      assert [] + l.wire == l.wire;
    }
  }

  lemma ReceiveKeeps(l: Link, got: nat)
    requires LinkOk(l) && l.receiver.mPreRecv && 0 < got <= |l.wire| && got <= l.receiver.mToRecv - l.receiver.mRecved
    ensures Receivable(l.receiver, got, l.wire[..got])
    ensures LinkOk(l.(receiver := Received(l.receiver, got, l.wire[..got]), wire := l.wire[got..]))
  {
    hide Stamped, FromBe32;
    var r, n := l.receiver, |l.receiver.delivered|;
    var buffer := r.buffer + l.wire[..got];
    assert r.buffer[..r.mRecved] == r.buffer;
    assert l.wire == l.wire[..got] + l.wire[got..];
    var rest := l.wire[got..] + Unsent(l.sender);
    assert buffer + rest == Flat(l.enqueued[n..]);
    assert buffer + l.wire[got..] + Unsent(l.sender) == buffer + rest;
    if |buffer| == r.mToRecv {
      var left := l.enqueued[n..];
      assert Flat(left) == left[0] + Flat(left[1..]);
      SamePrefix(buffer, rest, left[0], Flat(left[1..]));
      assert left[1..] == l.enqueued[n + 1..];
      assert l.enqueued[..n + 1] == l.enqueued[..n] + [l.enqueued[n]];
      assert [] + l.wire[got..] + Unsent(l.sender) == rest;
    }
  }

  lemma SamePrefix(a: Bytes, b: Bytes, c: Bytes, d: Bytes)
    requires a + b == c + d && |a| == |c|
    ensures a == c && b == d
  {
    assert (a + b)[..|a|] == a && (c + d)[..|a|] == c;
    assert (a + b)[|a|..] == b && (c + d)[|a|..] == d;
  }

  lemma EventKeeps(l: Link, e: Event)
    requires Linked(l) && Possible(l, e) && !Fails(e)
    ensures Linked(After(l, e))
  {
    hide Stamped, FromBe32, SenderOk, LinkOk, DeliveredOk, ClosedOn, Begun, OnWire, Written, Received, Sendable,
         Receivable;
    match e
    case Enqueue(msg) =>
      if l.receiver.mClosed {
        UnsentMore(l.sender, msg);
        StillClosed(l.receiver.delivered, l.enqueued, msg);
      } else {
        EnqueueKeeps(l, msg);
      }
    case Write(sent) =>
      LinkedSender(l);
      WriteKeeps(l.sender, sent);
      if !l.receiver.mClosed {
        SentMoves(l, sent);
        SameLink(l.(sender := Written(l.sender, sent), wire := l.wire + OnWire(l.sender, sent)), After(l, e));
      }
    case Read(got) => ReadKeeps(l, got);
  }

  lemma LinkedSender(l: Link)
    requires Linked(l)
    ensures SenderOk(l.sender) && forall m :: m in l.enqueued ==> Stamped(m)
  {
    hide Stamped, SenderOk, ReceiverOk;
  }

  lemma StillClosed(delivered: seq<Bytes>, enqueued: seq<Bytes>, msg: Bytes)
    requires ClosedOn(delivered, enqueued)
    ensures ClosedOn(delivered, enqueued + [msg])
  {}

  lemma ReadKeeps(l: Link, got: int)
    requires LinkOk(l) && Possible(l, Read(got)) && got >= 0
    ensures Linked(After(l, Read(got)))
  {
    hide Stamped, FromBe32, SenderOk, ReceiverOk, ClosedOn, Begun, Received, LinkOk;
    BeginKeeps(l);
    LinkedSender(l);
    var begun := l.(receiver := Receiving(l.receiver, l.wire), wire := Available(l.receiver, l.wire));
    if !begun.receiver.mClosed {
      ReceiveKeeps(begun, got);
      ReceivedOpen(begun.receiver, got, begun.wire[..got]);
      SameLink(begun.(receiver := Received(begun.receiver, got, begun.wire[..got]), wire := begun.wire[got..]),
               After(l, Read(got)));
    }
  }

  lemma ReceivedOpen(r: Receiver, got: int, data: Bytes)
    requires Receivable(r, got, data)
    ensures !Received(r, got, data).mClosed
  {}

  // The histories are not part of it.
  lemma SameLink(l: Link, k: Link)
    requires LinkOk(l)
    requires k.sender == l.sender && k.wire == l.wire && k.receiver == l.receiver && k.enqueued == l.enqueued
    ensures LinkOk(k)
  {}

  lemma SentMoves(l: Link, sent: nat)
    requires LinkOk(l) && Sendable(l.sender, sent) && SenderOk(Written(l.sender, sent))
    requires OnWire(l.sender, sent) + Unsent(Written(l.sender, sent)) == Unsent(l.sender)
    ensures LinkOk(l.(sender := Written(l.sender, sent), wire := l.wire + OnWire(l.sender, sent)))
  {
    hide Stamped, FromBe32, Written, OnWire, ReceiverOk;
    FourParts(l.receiver.buffer, l.wire, OnWire(l.sender, sent), Unsent(Written(l.sender, sent)));
  }

  // However the transfers are cut up, as long as none of them counts as -1: the messages
  // delivered are the first of those enqueued, whole and in order, and none of them short;
  // what closes the receiver is the short message behind them, and nothing else does.
  lemma Delivered(events: seq<Event>, last: Link)
    requires Run(IDLE, events, last) && forall e :: e in events ==> !Fails(e)
    ensures var delivered := last.receiver.delivered;
            && delivered <= last.enqueued && (forall m :: m in delivered ==> !Short(m))
            && (last.receiver.mClosed ==>
                  |delivered| < |last.enqueued| && Short(last.enqueued[|delivered|]))
    ensures SenderOk(last.sender)
    ensures last.sender.mSending ==> last.sender.mSent + last.sender.mToSend == |last.sender.mToSendMsg[0]|
    ensures last.receiver.mRecved <= last.receiver.mToRecv || !last.receiver.mPreRecv || last.receiver.mClosed
  {
    hide Run, Stamped;
    IdleIsOk();
    RunKeeps(IDLE, events, last);
  }

  // When everything has been sent, and taken by a receiver that is still open, all of it has
  // been delivered, if and only if no message is short; else the receiver has closed.
  lemma AllDelivered(events: seq<Event>, last: Link)
    requires Run(IDLE, events, last) && forall e :: e in events ==> !Fails(e)
    requires SenderOk(last.sender) && Unsent(last.sender) == []
    requires last.receiver.mClosed || last.receiver.buffer + last.wire == []
    ensures last.receiver.mClosed <==> exists m :: m in last.enqueued && Short(m)
    ensures last.receiver.delivered == last.enqueued <==> !last.receiver.mClosed
  {
    hide Run, Stamped, Unsent, SenderOk, Flat, LinkOk;
    IdleIsOk();
    RunKeeps(IDLE, events, last);
    if last.receiver.mClosed {
      assert last.enqueued[|last.receiver.delivered|] in last.enqueued;
    } else {
      NothingUnderWay(last);
      OpenDelivered(last);
    }
  }

  lemma OpenDelivered(l: Link)
    requires LinkOk(l)
    ensures DeliveredOk(l.receiver.delivered, l.enqueued)
  {}

  lemma IdleIsOk()
    ensures Linked(IDLE)
  {}

  lemma {:induction false} RunKeeps(l: Link, events: seq<Event>, last: Link)
    requires Linked(l) && Run(l, events, last) && forall e :: e in events ==> !Fails(e)
    ensures Linked(last)
    decreases |events|
  {
    hide Possible, After, Linked;
    if events != [] {
      assert events[0] in events;
      EventKeeps(l, events[0]);
      RunKeeps(After(l, events[0]), events[1..], last);
    }
  }

  lemma NothingUnderWay(l: Link)
    requires LinkOk(l)
    ensures l.receiver.buffer + l.wire + Unsent(l.sender) == [] ==> l.receiver.delivered == l.enqueued
  {
    hide FromBe32;
    var n := |l.receiver.delivered|;
    if n < |l.enqueued| {
      assert l.enqueued[n] in l.enqueued;
      assert |Flat(l.enqueued[n..])| >= |l.enqueued[n]|;
    }
  }

  // ----- Transfers that count as -1 --------------------------------------------------

  // Bytes over any transfers at all.  The counters of a message stay consistent, so that what
  // goes wrong shows in the bytes only: each send counted as -1 puts a byte on the wire
  // twice, and each receive counted as -1 takes one byte too many off it.
  ghost predicate BytesOk(l: Link) {
    && PutOk(l.sender, l.put, l.enqueued, l.sendsFailed)
    && l.put == l.taken + l.wire
    && (!l.receiver.mClosed ==> TakenOk(l.receiver, l.taken, l.recvsFailed))
  }

  ghost predicate PutOk(s: Sender, put: Bytes, enqueued: seq<Bytes>, failed: nat) {
    && SenderOk(s)
    && |put| + |Unsent(s)| == |Flat(enqueued)| + failed
    && (failed == 0 ==> put + Unsent(s) == Flat(enqueued))
  }

  ghost predicate TakenOk(r: Receiver, taken: Bytes, failed: nat) {
    && 0 <= r.mRecved <= |r.buffer|
    && (!r.mPreRecv ==> r.mRecved == 0 && r.buffer == [])
    && (r.mPreRecv ==> r.mRecved < r.mToRecv && r.mToRecv >= HEAD_LENGTH + 4)
    && |taken| == |Flat(r.delivered)| + r.mRecved + failed
    && (failed == 0 ==> |r.buffer| == r.mRecved && taken == Flat(r.delivered) + r.buffer)
  }

  lemma IdleBytes()
    ensures BytesOk(IDLE)
  {}

  lemma EnqueueBytes(l: Link, msg: Bytes)
    requires BytesOk(l) && Stamped(msg)
    ensures BytesOk(After(l, Enqueue(msg)))
  {
    hide Stamped, FromBe32, TakenOk, SenderOk, Unsent, Flat;
    UnsentMore(l.sender, msg);
    FlatOfOne(msg);
    FlatAppend(l.enqueued, [msg]);
    assert l.put + (Unsent(l.sender) + msg) == l.put + Unsent(l.sender) + msg;
  }

  lemma BackOneByte(s: Sender)
    requires SenderOk(s) && Sendable(s, -1) && Ready(s).mSending
    ensures SenderOk(Written(s, -1)) && OnWire(s, -1) == []
    ensures |Unsent(Written(s, -1))| == |Unsent(s)| + 1
  {
    hide Stamped;
  }

  lemma WriteBytes(l: Link, sent: int)
    requires BytesOk(l) && Possible(l, Write(sent))
    ensures BytesOk(After(l, Write(sent)))
  {
    hide Stamped, FromBe32, TakenOk, SenderOk, Unsent, Flat, OnWire, Written, Sendable;
    var data := OnWire(l.sender, sent);
    if sent < 0 {
      BackOneByte(l.sender);
      assert l.put + [] == l.put && l.wire + [] == l.wire;
    } else {
      WriteKeeps(l.sender, sent);
      var left := Unsent(Written(l.sender, sent));
      assert l.put + (data + left) == l.put + data + left;
      assert l.taken + (l.wire + data) == l.taken + l.wire + data;
    }
  }

  lemma TakenBegins(r: Receiver, taken: Bytes, failed: nat, head: Bytes)
    requires TakenOk(r, taken, failed) && !r.mPreRecv && |head| == 4 && !Begun(r, head).mClosed
    ensures TakenOk(Begun(r, head), taken + head, failed)
  {
    hide FromBe32, Flat;
    assert Flat(r.delivered) + [] == Flat(r.delivered);
  }

  lemma TakenMore(r: Receiver, taken: Bytes, failed: nat, got: int, data: Bytes)
    requires TakenOk(r, taken, failed) && r.mPreRecv && got != 0 && Receivable(r, got, data)
    ensures TakenOk(Received(r, got, data), taken + data, failed + if got < 0 then 1 else 0)
  {
    hide Flat;
    var buffer := r.buffer[..r.mRecved] + data;
    FlatAppend(r.delivered, [buffer]);
    FlatOfOne(buffer);
    assert Flat(r.delivered) + r.buffer + data == Flat(r.delivered) + (r.buffer + data);
    assert |r.buffer| == r.mRecved ==> r.buffer[..r.mRecved] == r.buffer;
    assert Flat(r.delivered) + buffer + [] == Flat(r.delivered) + buffer;
  }

  lemma ReadBytes(l: Link, got: int)
    requires BytesOk(l) && Possible(l, Read(got))
    ensures BytesOk(After(l, Read(got)))
  {
    hide FromBe32, PutOk, TakenOk, Received, Receivable, Receiving, Available;
    var rest := Available(l.receiver, l.wire);
    CutInThree(l.wire, 0, |l.wire| - |rest| + Stored(got), l.taken);
    LeftOf(l.wire, rest, Stored(got));
    if !Receiving(l.receiver, l.wire).mClosed {
      ReadTaken(l.receiver, l.wire, l.taken, l.recvsFailed, got);
    }
  }

  lemma LeftOf(wire: Bytes, rest: Bytes, n: nat)
    requires |rest| <= |wire| && rest == wire[|wire| - |rest|..] && n <= |rest|
    ensures rest[n..] == wire[|wire| - |rest| + n..] && |wire| - |rest[n..]| == |wire| - |rest| + n
  {}

  lemma ReadTaken(r: Receiver, wire: Bytes, taken: Bytes, failed: nat, got: int)
    requires TakenOk(r, taken, failed) && (r.mPreRecv || |wire| >= 4) && got != 0
    requires !Receiving(r, wire).mClosed && Stored(got) <= |Available(r, wire)|
    requires Receivable(Receiving(r, wire), got, Available(r, wire)[..Stored(got)])
    ensures var rest, n := Available(r, wire), Stored(got);
            TakenOk(Received(Receiving(r, wire), got, rest[..n]), taken + wire[..|wire| - |rest| + n],
                    failed + if got < 0 then 1 else 0)
  {
    hide FromBe32, TakenOk, Received, Receivable, Receiving, Available;
    var rest, n := Available(r, wire), Stored(got);
    CutInThree(wire, |wire| - |rest|, |wire| - |rest| + n, taken);
    HeadTaken(r, wire, taken, failed);
    TakenMore(Receiving(r, wire), taken + wire[..|wire| - |rest|], failed, got, rest[..n]);
  }

  lemma CutInThree(wire: Bytes, a: nat, b: nat, taken: Bytes)
    requires a <= b <= |wire|
    ensures wire[a..][..b - a] == wire[a..b] && wire[a..][b - a..] == wire[b..]
    ensures taken + wire[..b] == taken + wire[..a] + wire[a..b]
    ensures taken + wire[..b] + wire[b..] == taken + wire
  {
    assert wire[..b] == wire[..a] + wire[a..b];
    assert wire == wire[..b] + wire[b..];
  }

  lemma HeadTaken(r: Receiver, wire: Bytes, taken: Bytes, failed: nat)
    requires TakenOk(r, taken, failed) && (r.mPreRecv || |wire| >= 4)
    requires !Receiving(r, wire).mClosed
    ensures Receiving(r, wire).mPreRecv
    ensures TakenOk(Receiving(r, wire), taken + wire[..|wire| - |Available(r, wire)|], failed)
  {
    hide FromBe32, TakenOk;
    if r.mPreRecv {
      assert taken + [] == taken;
    } else {
      TakenBegins(r, taken, failed, wire[..4]);
    }
  }

  lemma EventBytes(l: Link, e: Event)
    requires BytesOk(l) && Possible(l, e)
    ensures BytesOk(After(l, e))
    ensures After(l, e).sendsFailed == l.sendsFailed + if e.Write? && Fails(e) then 1 else 0
    ensures After(l, e).recvsFailed == l.recvsFailed + if e.Read? && Fails(e) then 1 else 0
  {
    hide BytesOk, Stamped, FromBe32, SenderOk, TakenOk, Sendable, Receivable;
    match e
    case Enqueue(msg) => EnqueueBytes(l, msg);
    case Write(sent) => WriteBytes(l, sent);
    case Read(got) => ReadBytes(l, got);
  }

  function Count(events: seq<Event>, sends: bool): nat
    decreases |events|
  {
    if events == [] then 0
    else (if Fails(events[0]) && events[0].Write? == sends then 1 else 0) + Count(events[1..], sends)
  }

  lemma {:induction false} NoneFails(events: seq<Event>, sends: bool)
    ensures Count(events, sends) == 0 <==> forall e :: e in events && e.Write? == sends ==> !Fails(e)
    decreases |events|
  {
    if events != [] {
      NoneFails(events[1..], sends);
      assert events == [events[0]] + events[1..];
    }
  }

  lemma {:induction false} RunBytes(l: Link, events: seq<Event>, last: Link)
    requires BytesOk(l) && Run(l, events, last)
    ensures BytesOk(last)
    ensures last.sendsFailed == l.sendsFailed + Count(events, true)
    ensures last.recvsFailed == l.recvsFailed + Count(events, false)
    decreases |events|
  {
    hide BytesOk, Possible, After;
    if events != [] {
      EventBytes(l, events[0]);
      RunBytes(After(l, events[0]), events[1..], last);
    }
  }

  // Over any run, what was put on the wire and what is still to be sent are the messages
  // enqueued, if and only if no send counted as -1; it is a byte too long for each that did.
  lemma StreamRight(events: seq<Event>, last: Link)
    requires Run(IDLE, events, last)
    ensures SenderOk(last.sender)
    ensures last.put + Unsent(last.sender) == Flat(last.enqueued) <==>
            forall e :: e in events && e.Write? ==> !Fails(e)
    ensures |last.put + Unsent(last.sender)| == |Flat(last.enqueued)| + Count(events, true)
  {
    hide Run, Flat, Unsent, SenderOk, TakenOk;
    IdleBytes();
    RunBytes(IDLE, events, last);
    NoneFails(events, true);
  }

  // And what was taken off it is the messages delivered and the part of the next one that is
  // counted as received, if and only if no receive counted as -1.
  lemma TakenRight(events: seq<Event>, last: Link)
    requires Run(IDLE, events, last) && !last.receiver.mClosed
    ensures last.put == last.taken + last.wire
    ensures 0 <= last.receiver.mRecved <= |last.receiver.buffer|
    ensures var r := last.receiver;
            last.taken == Flat(r.delivered) + r.buffer[..r.mRecved] <==>
            forall e :: e in events && e.Read? ==> !Fails(e)
    ensures |last.taken| == |Flat(last.receiver.delivered)| + last.receiver.mRecved + Count(events, false)
  {
    hide Run, Flat, Unsent, SenderOk;
    IdleBytes();
    RunBytes(IDLE, events, last);
    NoneFails(events, false);
    ReadsFail(events);
    var r := last.receiver;
    assert |r.buffer| == r.mRecved ==> r.buffer[..r.mRecved] == r.buffer;
  }

  lemma ReadsFail(events: seq<Event>)
    ensures (forall e :: e in events && e.Write? == false ==> !Fails(e)) <==>
            forall e :: e in events && e.Read? ==> !Fails(e)
  {}

  // A receive that fails in the middle of any message makes it end in a byte from behind it.
  lemma FailedReceive(r: Receiver, rest: Bytes, next: Byte)
    requires !r.mClosed && r.mPreRecv && 4 <= r.mRecved == |r.buffer| && r.mRecved + |rest| == r.mToRecv && rest != []
    ensures Receivable(r, -1, [])
    ensures var back := Received(r, -1, []);
            && Receivable(back, |rest|, rest) && Received(back, |rest|, rest).mPreRecv
            && Receivable(back, |rest| + 1, rest + [next])
            && var done := Received(back, |rest| + 1, rest + [next]);
            && done.delivered == r.delivered + [r.buffer[..r.mRecved - 1] + rest + [next]]
  {
    var back := Received(r, -1, []);
    assert back.buffer[..back.mRecved] == r.buffer[..r.mRecved - 1];
    assert r.buffer[..r.mRecved - 1] + (rest + [next]) == r.buffer[..r.mRecved - 1] + rest + [next];
  }

  // ----- As it is kept ---------------------------------------------------------------

  // How a read goes.
  datatype Reading = NotOpen | NoLength | BadLength | Ended | More

  function ReadingOf(r: Receiver, inbound: Bytes, result: Transfer): Reading {
    if r.mClosed then NotOpen
    else if !r.mPreRecv && |inbound| < 4 then NoLength
    else if Receiving(r, inbound).mClosed then BadLength
    else if result == Moved(0) then Ended
    else More
  }

  predicate Readable(r: Receiver, inbound: Bytes, result: Transfer) {
    match ReadingOf(r, inbound, result)
    case NoLength => result == Moved(0) || result.Failed?
    case More =>
      var n := Stored(Counted(result));
      && n <= |Available(r, inbound)|
      && Receivable(Receiving(r, inbound), Counted(result), Available(r, inbound)[..n])
    case _ => true
  }

  lemma BackOne(r: Receiver, got: int, data: Bytes)
    requires Receivable(r, got, data)
    ensures got == -1 && r.mRecved <= r.mToRecv ==> Received(r, got, data).mRecved == r.mRecved - 1
  {}

  function ErrorOf(t: Transfer): Err {
    if t.Failed? then t.error else Einval
  }

  function Dropped(r: Receiver): Receiver {
    Receiver(false, [], 0, 0, true, r.delivered)
  }

  class TcpConnection {
    var mToSendMsg: seq<Bytes>
    var mCurrentSendMsg: Option<Bytes>
    var mSent: int
    var mToSend: int
    var mPreRecv: bool
    var mCurrentRecvMsg: Bytes
    var mRecved: int
    var mToRecv: int
    var mClosed: bool
    var mReceived: seq<Bytes>  // the messages enqueued to the logic service
    var mDropped: nat          // the notices to it that the connection is lost

    ghost predicate Valid()
      reads this
    {
      && (mCurrentSendMsg.Some? && !mClosed ==> mToSendMsg != [] && mCurrentSendMsg.value == mToSendMsg[0])
      && 0 <= mSent
    }

    ghost function Sending(): Sender
      reads this
    {
      Sender(mToSendMsg, mCurrentSendMsg.Some?, mSent, mToSend)
    }

    ghost function Incoming(): Receiver
      reads this
    {
      Receiver(mPreRecv, mCurrentRecvMsg, mRecved, mToRecv, mClosed, mReceived)
    }

    constructor ()
      ensures Valid() && Sending() == IDLE.sender && Incoming() == IDLE.receiver && mDropped == 0
    {
      mToSendMsg, mCurrentSendMsg, mSent, mToSend := [], None, 0, 0;
      mPreRecv, mCurrentRecvMsg, mRecved, mToRecv, mClosed, mReceived, mDropped := false, [], 0, 0, false, [], 0;
    }

    method Enqueue(msg: Bytes)
      requires Valid()
      modifies this`mToSendMsg
      ensures Valid() && mToSendMsg == old(mToSendMsg) + [msg]
    {
      mToSendMsg := mToSendMsg + [msg];
    }

    method InitNextSend() returns (hasMsg: bool)
      requires Valid() && mCurrentSendMsg.None?
      modifies this`mCurrentSendMsg, this`mToSend, this`mSent
      ensures Valid() && hasMsg == (mToSendMsg != [])
      ensures Sending() == NextSend(old(Sending()))
    {
      hasMsg := false;
      if |mToSendMsg| > 0 {
        mCurrentSendMsg := Some(mToSendMsg[0]);
        mToSend := |mToSendMsg[0]|;
        mSent := 0;
        hasMsg := true;
      }
    }

    // `result` is what the socket's send of the rest of the message came to.  A failure closes
    // the connection, and the logic service is told.
    method WriteData(result: Transfer) returns (err: Err, data: Bytes)
      requires Valid()
      requires result.Failed? ==> result.error != Ok
      requires !mClosed && !result.Failed? ==> Sendable(Sending(), Counted(result))
      modifies this
      ensures Valid() && Incoming() == old(Incoming()).(mClosed := mClosed)
      ensures old(mClosed) ==> err == Einval && mClosed && Sending() == old(Sending()) && data == []
      ensures !old(mClosed) && result.Failed? && Ready(old(Sending())).mSending ==>
                err == result.error && mClosed && Sending() == Sender([], false, 0, 0) && data == []
      ensures !old(mClosed) && result.Failed? && !Ready(old(Sending())).mSending ==>
                err == Ok && !mClosed && Sending() == old(Sending()) && data == []
      ensures !old(mClosed) && !result.Failed? ==>
                && err == Ok && !mClosed && Sending() == Written(old(Sending()), Counted(result))
                && data == OnWire(old(Sending()), Counted(result))
      ensures !old(mClosed) && result.WouldBlock? && Ready(old(Sending())).mSending
              && Ready(old(Sending())).mToSend >= 0 ==>
                mSent == Ready(old(Sending())).mSent - 1 && mToSend == Ready(old(Sending())).mToSend + 1
      ensures mDropped == old(mDropped) + if mClosed && !old(mClosed) then 1 else 0
    {
      err, data := Ok, [];
      if mClosed {
        return Einval, [];
      }
      if mCurrentSendMsg.None? {
        var hasMsg := InitNextSend();
        if !hasMsg {
          return;
        }
      }
      if result.Failed? {
        ResetSend();
        Close();
        mDropped := mDropped + 1;
        return result.error, [];
      }
      var sent := Counted(result);
      if sent > 0 {
        data := mCurrentSendMsg.value[mSent..mSent + sent];
      }
      mSent := mSent + sent;
      mToSend := mToSend - sent;
      if mToSend == 0 {
        mToSendMsg := mToSendMsg[1..];
        ResetSend();
      }
    }

    method ResetSend()
      modifies this`mCurrentSendMsg, this`mToSend, this`mSent
      ensures mCurrentSendMsg == None && mToSend == 0 && mSent == 0
    {
      mCurrentSendMsg, mToSend, mSent := None, 0, 0;
    }

    method ResetRecv()
      modifies this`mCurrentRecvMsg, this`mRecved, this`mToRecv, this`mPreRecv
      ensures Incoming() == Receiver(false, [], 0, 0, mClosed, mReceived)
    {
      mCurrentRecvMsg, mRecved, mToRecv, mPreRecv := [], 0, 0, false;
    }

    // The messages that are not sent are given up.
    method Close()
      modifies this`mClosed, this`mToSendMsg
      ensures mClosed && mToSendMsg == if old(mClosed) then old(mToSendMsg) else []
    {
      if !mClosed {
        mClosed := true;
        mToSendMsg := [];
      }
    }

    // What has come in, and what the socket's recv of the rest of the message came to; gives
    // back what is left.  When there is no more to come than part of a length, `result` says
    // why.  The end of the stream closes the connection, as does a failure to read a length;
    // a length below four does so without an error and without a notice.
    method ReadData(inbound: Bytes, result: Transfer) returns (err: Err, rest: Bytes)
      requires Valid() && (result.Failed? ==> result.error != Ok)
      requires !mClosed ==> Readable(Incoming(), inbound, result)
      modifies this
      ensures Valid()
      ensures var r, l := old(Incoming()), Sender([], mCurrentSendMsg.Some?, mSent, mToSend);
              match ReadingOf(r, inbound, result)
              case NotOpen =>
                err == Einval && Incoming() == Dropped(r) && Sending() == old(Sending()) && rest == inbound
              case NoLength =>
                err == ErrorOf(result) && Incoming() == Dropped(r) && Sending() == l && rest == []
              case BadLength =>
                && err == Ok && Incoming() == Receiving(r, inbound)
                && Sending() == l && rest == Available(r, inbound)
              case Ended =>
                err == Einval && Incoming() == Dropped(r) && Sending() == l && rest == Available(r, inbound)
              case More =>
                var n := Stored(Counted(result));
                && err == Ok && Sending() == old(Sending())
                && Incoming() == Received(Receiving(r, inbound), Counted(result), Available(r, inbound)[..n])
                && rest == Available(r, inbound)[n..]
      ensures ReadingOf(old(Incoming()), inbound, result) == More && !result.Moved? &&
              Receiving(old(Incoming()), inbound).mRecved <= Receiving(old(Incoming()), inbound).mToRecv ==>
                mRecved == Receiving(old(Incoming()), inbound).mRecved - 1
      ensures Sending() == old(Sending()) || (mClosed && mToSendMsg == [])
      ensures mDropped == old(mDropped) + if err == Ok then 0 else 1
    {
      hide FromBe32, Be32, Begun, Received, Receivable;
      if mClosed {
        Drop();
        return Einval, inbound;
      }
      rest := inbound;
      if !mPreRecv {
        if |inbound| < 4 {
          Close();
          Drop();
          return ErrorOf(result), [];
        }
        rest := inbound[4..];
        PreRecv(inbound[..4]);
        if mClosed {
          return Ok, rest;
        }
      }
      if result == Moved(0) {
        Close();
        Drop();
        return Einval, rest;
      }
      var n := Stored(Counted(result));
      BackOne(Incoming(), Counted(result), rest[..n]);
      Recv(Counted(result), rest[..n]);
      return Ok, rest[n..];
    }

    // Resets the receiving side and tells the logic service.
    method Drop()
      requires mClosed
      modifies this`mCurrentRecvMsg, this`mRecved, this`mToRecv, this`mPreRecv, this`mDropped
      ensures Incoming() == Dropped(old(Incoming())) && mDropped == old(mDropped) + 1
    {
      ResetRecv();
      mDropped := mDropped + 1;
    }

    // The length of a message to come.
    method PreRecv(head: Bytes)
      requires |head| == 4 && !mClosed && !mPreRecv
      modifies this`mPreRecv, this`mClosed, this`mToSendMsg, this`mCurrentRecvMsg, this`mRecved, this`mToRecv
      ensures Incoming() == Begun(old(Incoming()), head)
      ensures mToSendMsg == if mClosed then [] else old(mToSendMsg)
    {
      mPreRecv := true;
      var dataLen := FromBe32(head);
      if dataLen < 4 {
        Close();
        return;
      }
      mCurrentRecvMsg := Be32(dataLen);
      Be32OfBytes(head);
      mRecved := 4;
      mToRecv := dataLen + HEAD_LENGTH;
    }

    // `got` is what the socket's recv returned, `data` the bytes it stored.
    method Recv(got: int, data: Bytes)
      requires Receivable(Incoming(), got, data)
      modifies this`mCurrentRecvMsg, this`mRecved, this`mToRecv, this`mPreRecv, this`mReceived
      ensures Incoming() == Received(old(Incoming()), got, data)
    {
      mCurrentRecvMsg := mCurrentRecvMsg[..mRecved] + data;
      mRecved := mRecved + got;
      if mRecved == mToRecv && mRecved > 4 {
        mReceived := mReceived + [mCurrentRecvMsg];
        ResetRecv();
      }
    }
  }
}
