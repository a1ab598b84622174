/**
  From one end of a WebSocket to the other: a list of messages, each in any number of frames with pings
  and pongs in between, masked with any keys and cut into any reads.
 */
module WsEndToEnd {
  import opened Prelude
  import opened WsFrame
  import opened WsStream

  /** A message as it goes on the wire; with no parts it is only the controls. */
  datatype Sent = Sent(op: Opcode, items: seq<Item>)

  function AllFrames(ms: seq<Sent>): seq<Frame> {
    if ms == [] then [] else FramesFrom(ms[0].items, ms[0].op) + AllFrames(ms[1..])
  }

  function AllDelivered(ms: seq<Sent>): seq<Message> {
    if ms == [] then []
    else Delivered(ms[0].items, DataMessage(ms[0].op, Whole(ms[0].items))) + AllDelivered(ms[1..])
  }

  function AllPongs(ms: seq<Sent>): seq<Frame> {
    if ms == [] then [] else Pongs(ms[0].items) + AllPongs(ms[1..])
  }

  ghost predicate OnWire(m: Sent) { IsData(m.op) && WireItems(m.items) }

  /** Text is UTF-8, and a message in more than one frame is within the bound. */
  ghost predicate Acceptable(utf8: Bytes -> bool, m: Sent) {
    Parts(m.items) == 0 || Deliverable(utf8, m.items, m.op)
  }

  /** Running on from where the first frames left the session. */
  lemma {:induction false} RunAppend(utf8: Bytes -> bool, s: Session, a: seq<Frame>, b: seq<Frame>)
    ensures var (t, ms, e) := RunFrames(utf8, s, a);
      RunFrames(utf8, s, a + b) ==
        if e.Some? then (t, ms, e) else var (t', ms', e') := RunFrames(utf8, t, b); (t', ms + ms', e')
    decreases |a|
  {
    if a == [] {
      assert a + b == b;
      assert [] + RunFrames(utf8, s, b).1 == RunFrames(utf8, s, b).1;
    } else {
      assert a == [a[0]] + a[1..] && a + b == [a[0]] + (a[1..] + b);
      RunOne(utf8, s, a[0], a[1..]);
      RunOne(utf8, s, a[0], a[1..] + b);
      var (s', o) := HandleFrame(utf8, s, a[0]);
      if o.Ok? {
        RunAppend(utf8, s', a[1..], b);
        var (t, ms, e) := RunFrames(utf8, s', a[1..]);
        MessagesAssoc(if o.value.Some? then [o.value.value] else [], ms, RunFrames(utf8, t, b).1);
      }
    }
  }

  lemma MessagesAssoc(a: seq<Message>, b: seq<Message>, c: seq<Message>)
    ensures (a + b) + c == a + (b + c)
  {
  }

  /** One message delivers its parts and leaves the session idle, or ends the run in an error. */
  lemma RunMessage(utf8: Bytes -> bool, s: Session, m: Sent)
    requires OnWire(m) && s.fragOp.None? && s.fragBuf == []
    ensures var r := RunFrames(utf8, s, FramesFrom(m.items, m.op));
      if Acceptable(utf8, m)
      then r == (s.(sent := s.sent + Pongs(m.items)), Delivered(m.items, DataMessage(m.op, Whole(m.items))), None)
      else r.2.Some?
  {
    if Parts(m.items) == 0 {
      ControlsOnly(utf8, s, m.items, m.op, DataMessage(m.op, Whole(m.items)));
    } else if Acceptable(utf8, m) {
      ReassembledInPlace(utf8, s, m.items, m.op);
    } else {
      ReassemblyFails(utf8, s, m.items, m.op);
    }
  }

  lemma {:induction false} RunMessages(utf8: Bytes -> bool, s: Session, ms: seq<Sent>)
    requires (forall i :: 0 <= i < |ms| ==> OnWire(ms[i])) && s.fragOp.None? && s.fragBuf == []
    ensures var r := RunFrames(utf8, s, AllFrames(ms));
      if forall i :: 0 <= i < |ms| ==> Acceptable(utf8, ms[i])
      then r == (s.(sent := s.sent + AllPongs(ms)), AllDelivered(ms), None)
      else r.2.Some?
    decreases |ms|
  {
    if ms == [] {
      assert s.sent + [] == s.sent;
    } else {
      var m, rest := ms[0], ms[1..];
      assert OnWire(m);
      RunMessage(utf8, s, m);
      RunAppend(utf8, s, FramesFrom(m.items, m.op), AllFrames(rest));
      assert ms == [m] + rest;
      if Acceptable(utf8, m) {
        RunMessages(utf8, s.(sent := s.sent + Pongs(m.items)), rest);
        FramesAssoc(s.sent, Pongs(m.items), AllPongs(rest));
      }
    }
  }

  lemma {:induction false} RunErrsInProtocol(utf8: Bytes -> bool, s: Session, fs: seq<Frame>)
    ensures RunFrames(utf8, s, fs).2.Some? ==> RunFrames(utf8, s, fs).2.value.Protocol?
    decreases |fs|
  {
    if fs != [] {
      var (s', o) := HandleFrame(utf8, s, fs[0]);
      if o.Ok? { RunErrsInProtocol(utf8, s', fs[1..]); }
    }
  }

  /** What a receiver makes of encoded frames, however they are masked and cut. */
  lemma ReceivedIsRun(utf8: Bytes -> bool, fs: seq<(Frame, Option<Key>)>, chunks: seq<Bytes>)
    requires (forall i :: 0 <= i < |fs| ==> Fits(fs[i].0)) && [] !in chunks && Concat(chunks) == EncodeAll(fs)
    ensures var (t, ms, e) := RunFrames(utf8, FRESH, Plain(fs));
      && ReceiveAll(utf8, FRESH, [], chunks) == (ms, if e.Some? then e.value else Closed, t)
      && e != Some(Closed)
  {
    CuttingDoesNotMatter(utf8, FRESH, [], chunks);
    assert [] + Concat(chunks) == EncodeAll(fs);
    ReceiveFrames(utf8, FRESH, fs);
    RunErrsInProtocol(utf8, FRESH, Plain(fs));
  }

  /** Whatever the keys and however the bytes are cut into reads: the receiver gets every message whole
      and in order, each control where it was sent and every ping answered, until the stream ends,
      exactly when text is UTF-8 and fragmented messages are within the bound. */
  lemma DeliveredInOrderIff(utf8: Bytes -> bool, ms: seq<Sent>, fs: seq<(Frame, Option<Key>)>, chunks: seq<Bytes>)
    requires forall i :: 0 <= i < |ms| ==> OnWire(ms[i])
    requires Plain(fs) == AllFrames(ms) && forall i :: 0 <= i < |fs| ==> Fits(fs[i].0)
    requires [] !in chunks && Concat(chunks) == EncodeAll(fs)
    ensures ReceiveAll(utf8, FRESH, [], chunks) == (AllDelivered(ms), Closed, FRESH.(sent := AllPongs(ms)))
      <==> forall i :: 0 <= i < |ms| ==> Acceptable(utf8, ms[i])
  {
    ReceivedIsRun(utf8, fs, chunks);
    RunMessages(utf8, FRESH, ms);
    assert [] + AllPongs(ms) == AllPongs(ms);
  }
}
