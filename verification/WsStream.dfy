/**
  The WebSocket stream: decoding from reads of any size and reassembling fragmented messages,
  sections 5.4 and 5.5 of RFC 6455.

  UTF-8 validity is a parameter: `utf8` says which payloads are text.
 */
module WsStream {
  import opened Prelude
  import opened WsFrame

  const MAX_FRAGMENT_SIZE := 16 * 1024 * 1024

  datatype Message = TextMsg(b: Bytes) | BinaryMsg(b: Bytes) | PingMsg(b: Bytes) | PongMsg(b: Bytes) | CloseMsg

  datatype Reason =
    | BadFrame(what: string)
    | NotUtf8
    | DataDuringFragments
    | TooLarge
    | LoneContinuation
    | UnexpectedOpcode
    | UnexpectedState

  /** `Crash` is the panic of the frame decoder. */
  datatype WsError = Protocol(reason: Reason) | Closed | Crash

  type Outcome = Result<Option<Message>, WsError>

  /** The fragment state, the close flag and the frames written back. */
  datatype Session = Session(closed: bool, fragOp: Option<Opcode>, fragBuf: Bytes, sent: seq<Frame>)

  const FRESH := Session(false, None, [], [])

  function CloseReply(): Frame { Frame(true, CloseOp, [3, 232]) }

  // ---- One frame ----

  function HandleControl(s: Session, f: Frame): (Session, Outcome)
    requires IsControl(f.opcode)
  {
    match f.opcode
    case PingOp => (s.(sent := s.sent + [Frame(true, PongOp, f.payload)]), Ok(Some(PingMsg(f.payload))))
    case PongOp => (s, Ok(Some(PongMsg(f.payload))))
    case CloseOp => (if s.closed then s else s.(closed := true, sent := s.sent + [CloseReply()]), Ok(Some(CloseMsg)))
  }

  function FinishData(utf8: Bytes -> bool, op: Opcode, payload: Bytes): Outcome {
    match op
    case Text => if utf8(payload) then Ok(Some(TextMsg(payload))) else Err(Protocol(NotUtf8))
    case Binary => Ok(Some(BinaryMsg(payload)))
    case _ => Err(Protocol(UnexpectedOpcode))
  }

  /** The frame a message is sent in; every message is one frame. */
  function FrameOf(m: Message): Frame {
    match m
    case TextMsg(b) => Frame(true, Text, b)
    case BinaryMsg(b) => Frame(true, Binary, b)
    case PingMsg(b) => Frame(true, PingOp, b)
    case PongMsg(b) => Frame(true, PongOp, b)
    case CloseMsg => CloseReply()
  }

  /** `send`: refused once the stream is closed, and a close closes it. */
  function SendMessage(s: Session, m: Message): (Session, Result<(), WsError>) {
    if s.closed then (s, Err(Closed))
    else (s.(closed := m.CloseMsg?, sent := s.sent + [FrameOf(m)]), Ok(()))
  }

  predicate IsData(o: Opcode) { o.Text? || o.Binary? }

  /** The arms of `handle_frame`, in their order. */
  function HandleFrame(utf8: Bytes -> bool, s: Session, f: Frame): (Session, Outcome) {
    if IsControl(f.opcode) then HandleControl(s, f)
    else if f.fin && IsData(f.opcode) && s.fragOp.None? then (s, FinishData(utf8, f.opcode, f.payload))
    else if IsData(f.opcode) && s.fragOp.Some? then
      (s, Err(Protocol(DataDuringFragments)))
    else if !f.fin && IsData(f.opcode) then
      var s' := s.(fragOp := Some(f.opcode), fragBuf := f.payload);
      (s', if |s'.fragBuf| > MAX_FRAGMENT_SIZE then Err(Protocol(TooLarge)) else Ok(None))
    else if f.opcode.Continuation? && s.fragOp.Some? then
      var s' := s.(fragBuf := s.fragBuf + f.payload);
      if |s'.fragBuf| > MAX_FRAGMENT_SIZE then (s', Err(Protocol(TooLarge)))
      else if f.fin then (s'.(fragOp := None, fragBuf := []), FinishData(utf8, s'.fragOp.value, s'.fragBuf))
      else (s', Ok(None))
    else if f.opcode.Continuation? then (s, Err(Protocol(LoneContinuation)))
    else (s, Err(Protocol(UnexpectedState)))
  }

  /** A fragment in progress is text or binary, and nothing is buffered without one. */
  ghost predicate SessionOk(s: Session) {
    && (s.fragOp.Some? ==> IsData(s.fragOp.value))
    && (s.fragOp.None? ==> s.fragBuf == [])
  }

  /** Every frame keeps the fragment state well-formed, a successful one keeps it within the bound,
      and the last arm is never reached. */
  lemma FrameKeepsSession(utf8: Bytes -> bool, s: Session, f: Frame)
    requires SessionOk(s)
    ensures var (s', o) := HandleFrame(utf8, s, f);
      && SessionOk(s')
      && (o.Ok? && |s.fragBuf| <= MAX_FRAGMENT_SIZE ==> |s'.fragBuf| <= MAX_FRAGMENT_SIZE)
      && o != Err(Protocol(UnexpectedState))
      && o != Err(Protocol(UnexpectedOpcode))
      && (s.closed ==> s'.closed) && s.sent <= s'.sent
  {
  }

  // ---- Runs over frames ----

  /** The messages a list of frames produces, up to the first error. */
  function RunFrames(utf8: Bytes -> bool, s: Session, fs: seq<Frame>): (Session, seq<Message>, Option<WsError>)
    decreases |fs|
  {
    if fs == [] then (s, [], None)
    else
      var (s', o) := HandleFrame(utf8, s, fs[0]);
      match o
      case Err(e) => (s', [], Some(e))
      case Ok(m) =>
        var (t, ms, e) := RunFrames(utf8, s', fs[1..]);
        (t, (if m.Some? then [m.value] else []) + ms, e)
  }

  lemma {:induction false} RunKeepsSession(utf8: Bytes -> bool, s: Session, fs: seq<Frame>)
    requires SessionOk(s) && |s.fragBuf| <= MAX_FRAGMENT_SIZE
    ensures var (t, ms, e) := RunFrames(utf8, s, fs);
      SessionOk(t) && (e.None? ==> |t.fragBuf| <= MAX_FRAGMENT_SIZE) && e != Some(Protocol(UnexpectedState))
    decreases |fs|
  {
    if fs != [] {
      FrameKeepsSession(utf8, s, fs[0]);
      var (s', o) := HandleFrame(utf8, s, fs[0]);
      if o.Ok? { RunKeepsSession(utf8, s', fs[1..]); }
    }
  }

  // ---- Reassembly ----

  /** A fragmented message on the wire: its parts, with pings and pongs in between. */
  datatype Item = Part(p: Bytes) | Control(f: Frame)

  predicate IsPingPong(i: Item) { i.Control? && (i.f.opcode.PingOp? || i.f.opcode.PongOp?) }

  function Parts(items: seq<Item>): nat {
    if items == [] then 0 else (if items[0].Part? then 1 else 0) + Parts(items[1..])
  }

  function Whole(items: seq<Item>): Bytes {
    if items == [] then [] else (if items[0].Part? then items[0].p else []) + Whole(items[1..])
  }

  /** The frames of the items that are still to come: the last part has FIN set. */
  function FramesFrom(items: seq<Item>, op: Opcode): seq<Frame> {
    if items == [] then []
    else match items[0]
      case Control(f) => [f] + FramesFrom(items[1..], op)
      case Part(p) => [Frame(Parts(items[1..]) == 0, op, p)] + FramesFrom(items[1..], Continuation)
  }

  function ControlMessage(f: Frame): Message { if f.opcode.PingOp? then PingMsg(f.payload) else PongMsg(f.payload) }

  /** What must be delivered: controls in place, and `whole` where the last part arrives. */
  function Delivered(items: seq<Item>, whole: Message): seq<Message> {
    if items == [] then []
    else match items[0]
      case Control(f) => [ControlMessage(f)] + Delivered(items[1..], whole)
      case Part(p) => (if Parts(items[1..]) == 0 then [whole] else []) + Delivered(items[1..], whole)
  }

  /** The pongs sent back for the pings among the items. */
  function Pongs(items: seq<Item>): seq<Frame> {
    if items == [] then []
    else PongFor(items[0]) + Pongs(items[1..])
  }

  function PongFor(i: Item): seq<Frame> {
    if i.Control? && i.f.opcode.PingOp? then [Frame(true, PongOp, i.f.payload)] else []
  }

  ghost predicate WireItems(items: seq<Item>) {
    forall i :: 0 <= i < |items| ==> items[i].Part? || IsPingPong(items[i])
  }

  function DataMessage(op: Opcode, b: Bytes): Message { if op.Text? then TextMsg(b) else BinaryMsg(b) }

  /** One control at the front is delivered, a ping is answered, and the rest runs on. */
  lemma ControlRun(utf8: Bytes -> bool, s: Session, items: seq<Item>, op: Opcode)
    requires WireItems(items) && items != [] && items[0].Control?
    ensures var s' := s.(sent := s.sent + PongFor(items[0]));
      var (t, ms, e) := RunFrames(utf8, s', FramesFrom(items[1..], op));
      RunFrames(utf8, s, FramesFrom(items, op)) == (t, [ControlMessage(items[0].f)] + ms, e)
  {
    assert IsPingPong(items[0]);
    ControlHandled(utf8, s, items[0]);
    RunOne(utf8, s, items[0].f, FramesFrom(items[1..], op));
  }

  lemma ControlHandled(utf8: Bytes -> bool, s: Session, i: Item)
    requires IsPingPong(i)
    ensures HandleFrame(utf8, s, i.f) == (s.(sent := s.sent + PongFor(i)), Ok(Some(ControlMessage(i.f))))
  {
    assert s.sent + [] == s.sent;
  }

  lemma RunOne(utf8: Bytes -> bool, s: Session, f: Frame, later: seq<Frame>)
    ensures var (s', o) := HandleFrame(utf8, s, f);
      RunFrames(utf8, s, [f] + later) ==
        match o
        case Err(e) => (s', [], Some(e))
        case Ok(m) =>
          var (t, ms, e) := RunFrames(utf8, s', later);
          (t, (if m.Some? then [m.value] else []) + ms, e)
  {
    assert ([f] + later)[1..] == later;
  }

  /** What the items say about their tail. */
  lemma ControlTail(items: seq<Item>, whole: Message, sent: seq<Frame>)
    requires items != [] && items[0].Control?
    ensures var rest := items[1..];
      && Whole(items) == Whole(rest) && Parts(items) == Parts(rest)
      && Delivered(items, whole) == [ControlMessage(items[0].f)] + Delivered(rest, whole)
      && sent + Pongs(items) == (sent + PongFor(items[0])) + Pongs(rest)
  {
    FramesAssoc(sent, PongFor(items[0]), Pongs(items[1..]));
  }

  lemma FramesAssoc(a: seq<Frame>, b: seq<Frame>, c: seq<Frame>)
    ensures (a + b) + c == a + (b + c)
  {
  }

  lemma PartTail(items: seq<Item>, whole: Message)
    requires items != [] && items[0].Part?
    ensures var rest := items[1..];
      && Whole(items) == items[0].p + Whole(rest) && Parts(items) == 1 + Parts(rest) && Pongs(items) == Pongs(rest)
      && Delivered(items, whole) == (if Parts(rest) == 0 then [whole] else []) + Delivered(rest, whole)
  {
  }

  /** Controls alone: delivered one by one, the fragment state untouched. */
  lemma {:induction false} ControlsOnly(utf8: Bytes -> bool, s: Session, items: seq<Item>, op: Opcode, whole: Message)
    requires WireItems(items) && Parts(items) == 0
    ensures RunFrames(utf8, s, FramesFrom(items, op)) ==
            (s.(sent := s.sent + Pongs(items)), Delivered(items, whole), None)
    decreases |items|
  {
    if items == [] {
      assert s.sent + [] == s.sent;
    } else {
      assert items[0].Control?;
      ControlRun(utf8, s, items, op);
      ControlTail(items, whole, s.sent);
      ControlsOnly(utf8, s.(sent := s.sent + PongFor(items[0])), items[1..], op, whole);
    }
  }

  lemma {:induction false} NoPartsNothing(items: seq<Item>)
    requires Parts(items) == 0
    ensures Whole(items) == []
  {
    if items != [] { NoPartsNothing(items[1..]); }
  }

  /** The frame that carries the part at the front. */
  function PartFrame(items: seq<Item>, op: Opcode): Frame
    requires items != [] && items[0].Part?
  {
    Frame(Parts(items[1..]) == 0, op, items[0].p)
  }

  lemma PartFirst(items: seq<Item>, op: Opcode)
    requires items != [] && items[0].Part?
    ensures FramesFrom(items, op) == [PartFrame(items, op)] + FramesFrom(items[1..], Continuation)
  {
  }

  /** The buffer takes the message as far as it goes. */
  ghost predicate Completes(utf8: Bytes -> bool, op: Opcode, whole: Bytes) {
    |whole| <= MAX_FRAGMENT_SIZE && (op.Text? ==> utf8(whole))
  }

  /** The fragments after the first: each extends the buffer, the last one delivers all of it. */
  lemma {:induction false} ContinueFragments(utf8: Bytes -> bool, s: Session, items: seq<Item>)
    requires WireItems(items) && Parts(items) > 0 && s.fragOp.Some? && IsData(s.fragOp.value)
    requires Completes(utf8, s.fragOp.value, s.fragBuf + Whole(items))
    ensures RunFrames(utf8, s, FramesFrom(items, Continuation)) ==
            (s.(fragOp := None, fragBuf := [], sent := s.sent + Pongs(items)),
             Delivered(items, DataMessage(s.fragOp.value, s.fragBuf + Whole(items))), None)
    decreases |items|
  {
    var whole, rest := DataMessage(s.fragOp.value, s.fragBuf + Whole(items)), items[1..];
    if items[0].Control? {
      ControlRun(utf8, s, items, Continuation);
      ControlTail(items, whole, s.sent);
      ContinueFragments(utf8, s.(sent := s.sent + PongFor(items[0])), rest);
    } else {
      var f, buf := PartFrame(items, Continuation), s.fragBuf + items[0].p;
      PartFirst(items, Continuation);
      PartTail(items, whole);
      RunOne(utf8, s, f, FramesFrom(rest, Continuation));
      assert s.fragBuf + Whole(items) == buf + Whole(rest);
      if Parts(rest) > 0 {
        ContinueFragments(utf8, s.(fragBuf := buf), rest);
        assert [] + Delivered(rest, whole) == Delivered(rest, whole);
      } else {
        NoPartsNothing(rest);
        assert buf + [] == buf;
        ControlsOnly(utf8, s.(fragOp := None, fragBuf := []), rest, Continuation, whole);
      }
    }
  }

  /** Text is UTF-8, and a message in more than one frame is within the bound; a single frame is not
      measured. */
  ghost predicate Deliverable(utf8: Bytes -> bool, items: seq<Item>, op: Opcode) {
    (op.Text? ==> utf8(Whole(items))) && (Parts(items) >= 2 ==> |Whole(items)| <= MAX_FRAGMENT_SIZE)
  }

  /** A message in any number of frames, with any pings and pongs in between, is delivered as one
      message with the concatenated payload; the controls are delivered where they arrived, and the
      session is idle again. */
  lemma {:induction false} ReassembledInPlace(utf8: Bytes -> bool, s: Session, items: seq<Item>, op: Opcode)
    requires WireItems(items) && Parts(items) >= 1 && IsData(op) && s.fragOp.None? && s.fragBuf == []
    requires Deliverable(utf8, items, op)
    ensures RunFrames(utf8, s, FramesFrom(items, op)) ==
            (s.(sent := s.sent + Pongs(items)), Delivered(items, DataMessage(op, Whole(items))), None)
    decreases |items|
  {
    var whole, rest := DataMessage(op, Whole(items)), items[1..];
    if items[0].Control? {
      ControlRun(utf8, s, items, op);
      ControlTail(items, whole, s.sent);
      ReassembledInPlace(utf8, s.(sent := s.sent + PongFor(items[0])), rest, op);
    } else {
      PartFirst(items, op);
      PartTail(items, whole);
      if Parts(rest) == 0 {
        NoPartsNothing(rest);
        assert Whole(items) == items[0].p;
        OnlyPart(utf8, s, PartFrame(items, op), rest);
      } else {
        FirstOfMany(utf8, s, PartFrame(items, op), rest);
        assert [] + Delivered(rest, whole) == Delivered(rest, whole);
      }
    }
  }

  lemma OnlyPart(utf8: Bytes -> bool, s: Session, f: Frame, rest: seq<Item>)
    requires WireItems(rest) && Parts(rest) == 0 && f.fin && IsData(f.opcode) && s.fragOp.None?
    requires f.opcode.Text? ==> utf8(f.payload)
    ensures var whole := DataMessage(f.opcode, f.payload);
      RunFrames(utf8, s, [f] + FramesFrom(rest, Continuation)) ==
      (s.(sent := s.sent + Pongs(rest)), [whole] + Delivered(rest, whole), None)
  {
    RunOne(utf8, s, f, FramesFrom(rest, Continuation));
    ControlsOnly(utf8, s, rest, Continuation, DataMessage(f.opcode, f.payload));
  }

  lemma FirstOfMany(utf8: Bytes -> bool, s: Session, f: Frame, rest: seq<Item>)
    requires WireItems(rest) && Parts(rest) > 0 && !f.fin && IsData(f.opcode) && s.fragOp.None? && s.fragBuf == []
    requires Completes(utf8, f.opcode, f.payload + Whole(rest))
    ensures RunFrames(utf8, s, [f] + FramesFrom(rest, Continuation)) ==
      (s.(sent := s.sent + Pongs(rest)), Delivered(rest, DataMessage(f.opcode, f.payload + Whole(rest))), None)
  {
    var whole := DataMessage(f.opcode, f.payload + Whole(rest));
    RunOne(utf8, s, f, FramesFrom(rest, Continuation));
    ContinueFragments(utf8, s.(fragOp := Some(f.opcode), fragBuf := f.payload), rest);
    assert [] + Delivered(rest, whole) == Delivered(rest, whole);
  }

  /** Otherwise the run ends in an error: the two conditions are exactly what delivery needs. */
  lemma {:induction false} ReassemblyFails(utf8: Bytes -> bool, s: Session, items: seq<Item>, op: Opcode)
    requires WireItems(items) && Parts(items) >= 1 && IsData(op) && s.fragOp.None? && s.fragBuf == []
    requires !Deliverable(utf8, items, op)
    ensures RunFrames(utf8, s, FramesFrom(items, op)).2.Some?
    decreases |items|
  {
    var rest := items[1..];
    if items[0].Control? {
      ControlRun(utf8, s, items, op);
      ControlTail(items, CloseMsg, s.sent);
      ReassemblyFails(utf8, s.(sent := s.sent + PongFor(items[0])), rest, op);
    } else {
      PartFirst(items, op);
      PartTail(items, CloseMsg);
      RunOne(utf8, s, PartFrame(items, op), FramesFrom(rest, Continuation));
      if Parts(rest) == 0 {
        NoPartsNothing(rest);
        assert Whole(items) == items[0].p;
      } else if |items[0].p| <= MAX_FRAGMENT_SIZE {
        ContinueFails(utf8, s.(fragOp := Some(op), fragBuf := items[0].p), rest);
      }
    }
  }

  lemma {:induction false} ContinueFails(utf8: Bytes -> bool, s: Session, items: seq<Item>)
    requires WireItems(items) && Parts(items) > 0 && s.fragOp.Some? && IsData(s.fragOp.value)
    requires !Completes(utf8, s.fragOp.value, s.fragBuf + Whole(items))
    ensures RunFrames(utf8, s, FramesFrom(items, Continuation)).2.Some?
    decreases |items|
  {
    var rest := items[1..];
    if items[0].Control? {
      ControlRun(utf8, s, items, Continuation);
      ControlTail(items, CloseMsg, s.sent);
      ContinueFails(utf8, s.(sent := s.sent + PongFor(items[0])), rest);
    } else {
      var buf := s.fragBuf + items[0].p;
      PartFirst(items, Continuation);
      PartTail(items, CloseMsg);
      BytesAssoc(s.fragBuf, items[0].p, Whole(rest));
      if |buf| <= MAX_FRAGMENT_SIZE {
        if Parts(rest) > 0 {
          ContinueFails(utf8, s.(fragBuf := buf), rest);
        } else {
          NoPartsNothing(rest);
          assert buf + [] == buf;
        }
      }
      ContinuationFails(utf8, s, PartFrame(items, Continuation), FramesFrom(rest, Continuation));
    }
  }

  lemma BytesAssoc(a: Bytes, b: Bytes, c: Bytes)
    ensures a + (b + c) == (a + b) + c
  {
  }

  /** A continuation that is too large, or completes text that is not UTF-8, or is followed by failure. */
  lemma ContinuationFails(utf8: Bytes -> bool, s: Session, f: Frame, later: seq<Frame>)
    requires s.fragOp.Some? && IsData(s.fragOp.value) && f.opcode.Continuation?
    requires var buf := s.fragBuf + f.payload;
      || |buf| > MAX_FRAGMENT_SIZE
      || (if f.fin then !Completes(utf8, s.fragOp.value, buf) else RunFrames(utf8, s.(fragBuf := buf), later).2.Some?)
    ensures RunFrames(utf8, s, [f] + later).2.Some?
  {
    RunOne(utf8, s, f, later);
  }

  // ---- Reading: any cutting of the byte stream ----

  function Concat(chunks: seq<Bytes>): Bytes {
    if chunks == [] then [] else chunks[0] + Concat(chunks[1..])
  }

  /** What one call of `recv` leaves behind and returns. */
  datatype Received = Received(s: Session, buf: Bytes, chunks: seq<Bytes>, r: Result<Message, WsError>)

  /** `recv`: decode, handle, and read on while the buffer is incomplete. */
  function Recv(utf8: Bytes -> bool, s: Session, buf: Bytes, chunks: seq<Bytes>): Received
    decreases |chunks|, |buf|
  {
    match Decode(buf)
    case Got(f, used) =>
      DecodeStable(buf, []);
      var (s', o) := HandleFrame(utf8, s, f);
      (match o
       case Err(e) => Received(s', buf[used..], chunks, Err(e))
       case Ok(None) => Recv(utf8, s', buf[used..], chunks)
       case Ok(Some(m)) => Received(s', buf[used..], chunks, Ok(m)))
    case Incomplete =>
      if chunks == [] then Received(s, buf, chunks, Err(Closed))
      else if chunks[0] == [] then Received(s, buf, chunks[1..], Err(Closed))
      else Recv(utf8, s, buf + chunks[0], chunks[1..])
    case Invalid(why) => Received(s, buf, chunks, Err(Protocol(BadFrame(why))))
    case Overflow => Received(s, buf, chunks, Err(Crash))
  }

  /** A data frame that declares a length of 2^64 - 1 makes `recv` panic. */
  lemma HugeFrameCrashes(utf8: Bytes -> bool, s: Session, chunks: seq<Bytes>)
    ensures Recv(utf8, s, HugeFrame(), chunks).r == Err(Crash)
  {
    HugeFrameOverflows();
  }

  /** A ping is answered and returned to the caller; `recv` does not wait for the next message. */
  lemma PingIsReturned(utf8: Bytes -> bool, s: Session, p: Bytes, key: Option<Key>, more: Bytes, chunks: seq<Bytes>)
    requires |p| <= 125
    ensures Recv(utf8, s, Encode(Frame(true, PingOp, p), key) + more, chunks) ==
            Received(s.(sent := s.sent + [Frame(true, PongOp, p)]), more, chunks, Ok(PingMsg(p)))
  {
    var enc := Encode(Frame(true, PingOp, p), key);
    FrameRoundTrip(Frame(true, PingOp, p), key, more);
    assert (enc + more)[|enc|..] == more;
  }

  /** Receiving makes progress on the bytes that are still to come. */
  lemma {:induction false} RecvConsumes(utf8: Bytes -> bool, s: Session, buf: Bytes, chunks: seq<Bytes>)
    ensures var v := Recv(utf8, s, buf, chunks);
            && |v.buf| + |Concat(v.chunks)| <= |buf| + |Concat(chunks)|
            && (v.r.Ok? ==> |v.buf| + |Concat(v.chunks)| < |buf| + |Concat(chunks)|)
    decreases |chunks|, |buf|
  {
    match Decode(buf)
    case Got(f, used) =>
      DecodeStable(buf, []);
      var (s', o) := HandleFrame(utf8, s, f);
      if o == Ok(None) { RecvConsumes(utf8, s', buf[used..], chunks); }
    case Incomplete =>
      if chunks != [] && chunks[0] != [] { RecvConsumes(utf8, s, buf + chunks[0], chunks[1..]); }
    case _ =>
  }

  /** All messages received by calling `recv` until it fails, and the failure. */
  function ReceiveAll(utf8: Bytes -> bool, s: Session, buf: Bytes, chunks: seq<Bytes>): (seq<Message>, WsError, Session)
    decreases |buf| + |Concat(chunks)|
  {
    RecvConsumes(utf8, s, buf, chunks);
    var v := Recv(utf8, s, buf, chunks);
    match v.r
    case Err(e) => ([], e, v.s)
    case Ok(m) => var (ms, e, t) := ReceiveAll(utf8, v.s, v.buf, v.chunks); ([m] + ms, e, t)
  }

  /** The bytes that arrive before the stream ends: a read of nothing is the end. */
  function Arrived(chunks: seq<Bytes>): Bytes {
    if chunks == [] || chunks[0] == [] then [] else chunks[0] + Arrived(chunks[1..])
  }

  lemma {:induction false} ArrivedIsAll(chunks: seq<Bytes>)
    requires [] !in chunks
    ensures Arrived(chunks) == Concat(chunks)
  {
    if chunks != [] { ArrivedIsAll(chunks[1..]); }
  }

  /** Having all bytes at once makes no difference to one call: same result and session, and what is
      left of the stream is the same until it ends. */
  lemma {:induction false} RecvAtOnce(utf8: Bytes -> bool, s: Session, buf: Bytes, chunks: seq<Bytes>)
    ensures var v, w := Recv(utf8, s, buf, chunks), Recv(utf8, s, buf + Arrived(chunks), []);
            v.r == w.r && v.s == w.s && w.chunks == [] && (v.r != Err(Closed) ==> v.buf + Arrived(v.chunks) == w.buf)
    decreases |chunks|, |buf|
  {
    var rest := Arrived(chunks);
    match Decode(buf)
    case Got(f, used) =>
      DecodeStable(buf, rest);
      assert (buf + rest)[used..] == buf[used..] + rest;
      var (s', o) := HandleFrame(utf8, s, f);
      if o == Ok(None) { RecvAtOnce(utf8, s', buf[used..], chunks); }
    case Incomplete =>
      if chunks == [] || chunks[0] == [] {
        assert buf + [] == buf;
      } else {
        assert buf + rest == (buf + chunks[0]) + Arrived(chunks[1..]);
        RecvAtOnce(utf8, s, buf + chunks[0], chunks[1..]);
      }
    case _ => DecodeStable(buf, rest);
  }

  /** However the bytes are cut into reads, the messages, the final error and the replies are those of
      everything that arrives before the stream ends. */
  lemma {:induction false} CuttingDoesNotMatter(utf8: Bytes -> bool, s: Session, buf: Bytes, chunks: seq<Bytes>)
    ensures ReceiveAll(utf8, s, buf, chunks) == ReceiveAll(utf8, s, buf + Arrived(chunks), [])
    ensures [] !in chunks ==> ReceiveAll(utf8, s, buf, chunks) == ReceiveAll(utf8, s, buf + Concat(chunks), [])
    decreases |buf| + |Concat(chunks)|
  {
    if [] !in chunks { ArrivedIsAll(chunks); }
    RecvAtOnce(utf8, s, buf, chunks);
    RecvConsumes(utf8, s, buf, chunks);
    var v, w := Recv(utf8, s, buf, chunks), Recv(utf8, s, buf + Arrived(chunks), []);
    if v.r.Ok? { CuttingDoesNotMatter(utf8, v.s, v.buf, v.chunks); }
  }

  /** Reading a stream of encoded frames is running the frames. */
  lemma {:induction false} ReceiveFrames(utf8: Bytes -> bool, s: Session, fs: seq<(Frame, Option<Key>)>)
    requires forall i :: 0 <= i < |fs| ==> Fits(fs[i].0)
    ensures var (ms, e, t) := ReceiveAll(utf8, s, EncodeAll(fs), []);
            var (t', ms', e') := RunFrames(utf8, s, Plain(fs));
            t == t' && ms == ms' && e == if e'.Some? then e'.value else Closed
    decreases |fs|
  {
    if fs == [] {
      assert Decode([]).Incomplete?;
    } else {
      var f, enc, tail := fs[0].0, Encode(fs[0].0, fs[0].1), EncodeAll(fs[1..]);
      FrameRoundTrip(f, fs[0].1, tail);
      assert EncodeAll(fs) == enc + tail && (enc + tail)[|enc|..] == tail;
      assert Plain(fs)[0] == f && Plain(fs)[1..] == Plain(fs[1..]);
      var (s', o) := HandleFrame(utf8, s, f);
      if o.Ok? {
        ReceiveFrames(utf8, s', fs[1..]);
        if o.value.None? { SkipSilent(utf8, s, s', f, enc + tail, tail); }
      }
    }
  }

  function Plain(fs: seq<(Frame, Option<Key>)>): (r: seq<Frame>)
    ensures |r| == |fs| && forall i :: 0 <= i < |fs| ==> r[i] == fs[i].0
  {
    seq(|fs|, i requires 0 <= i < |fs| => fs[i].0)
  }

  /** A frame that yields no message is as if the stream started behind it. */
  lemma SkipSilent(utf8: Bytes -> bool, s: Session, s': Session, f: Frame, buf: Bytes, tail: Bytes)
    requires Decode(buf).Got? && Decode(buf).frame == f && Decode(buf).consumed <= |buf|
    requires buf[Decode(buf).consumed..] == tail
    requires HandleFrame(utf8, s, f) == (s', Ok(None))
    ensures ReceiveAll(utf8, s, buf, []) == ReceiveAll(utf8, s', tail, [])
  {
  }

  // ---- The stream object ----

  class Stream {
    const utf8: Bytes -> bool
    var readBuf: Bytes
    var closed: bool
    var fragOp: Option<Opcode>
    var fragBuf: Bytes
    /** The socket: the reads still to come and the frames written. */
    var incoming: seq<Bytes>
    var sent: seq<Frame>

    ghost function View(): Session
      reads this
    {
      Session(closed, fragOp, fragBuf, sent)
    }

    constructor (utf8: Bytes -> bool, chunks: seq<Bytes>)
      ensures this.utf8 == utf8 && readBuf == [] && View() == FRESH && incoming == chunks
    {
      this.utf8, readBuf, incoming := utf8, [], chunks;
      closed, fragOp, fragBuf, sent := false, None, [], [];
    }

    /** Bytes left over from the HTTP upgrade come first. */
    method PrependReadBuf(bytes: Bytes)
      modifies this`readBuf
      ensures readBuf == bytes + old(readBuf)
    {
      if bytes != [] { readBuf := bytes + readBuf; }
    }

    /** `send`. */
    method Send(m: Message) returns (r: Result<(), WsError>)
      modifies this`closed, this`sent
      ensures (View(), r) == SendMessage(old(View()), m)
    {
      if closed { return Err(Closed); }
      var frame;
      match m {
        case TextMsg(b) => frame := Frame(true, Text, b);
        case BinaryMsg(b) => frame := Frame(true, Binary, b);
        case PingMsg(b) => frame := Frame(true, PingOp, b);
        case PongMsg(b) => frame := Frame(true, PongOp, b);
        case CloseMsg =>
          closed := true;
          frame := CloseReply();
      }
      sent := sent + [frame];
      return Ok(());
    }

    method ProcessControl(f: Frame) returns (o: Outcome)
      requires IsControl(f.opcode)
      modifies this`closed, this`sent
      ensures (View(), o) == HandleControl(old(View()), f)
    {
      match f.opcode
      case PingOp =>
        sent := sent + [Frame(true, PongOp, f.payload)];
        return Ok(Some(PingMsg(f.payload)));
      case PongOp => return Ok(Some(PongMsg(f.payload)));
      case CloseOp =>
        if !closed {
          closed := true;
          sent := sent + [CloseReply()];
        }
        return Ok(Some(CloseMsg));
    }

    /** `handle_frame`, updating the fragment state in place. */
    method ProcessFrame(f: Frame) returns (o: Outcome)
      modifies this`closed, this`sent, this`fragOp, this`fragBuf
      ensures (View(), o) == HandleFrame(utf8, old(View()), f)
    {
      if IsControl(f.opcode) {
        o := ProcessControl(f);
      } else if f.fin && IsData(f.opcode) && fragOp.None? {
        o := FinishData(utf8, f.opcode, f.payload);
      } else if IsData(f.opcode) && fragOp.Some? {
        o := Err(Protocol(DataDuringFragments));
      } else if !f.fin && IsData(f.opcode) {
        fragOp := Some(f.opcode);
        fragBuf := f.payload;
        o := if |fragBuf| > MAX_FRAGMENT_SIZE then Err(Protocol(TooLarge)) else Ok(None);
      } else if f.opcode.Continuation? && fragOp.Some? {
        fragBuf := fragBuf + f.payload;
        if |fragBuf| > MAX_FRAGMENT_SIZE { return Err(Protocol(TooLarge)); }
        if !f.fin { return Ok(None); }
        var opcode, payload := fragOp.value, fragBuf;
        fragOp, fragBuf := None, [];
        o := FinishData(utf8, opcode, payload);
      } else if f.opcode.Continuation? {
        o := Err(Protocol(LoneContinuation));
      } else {
        o := Err(Protocol(UnexpectedState));
      }
    }

    /** The receive loop: exactly one call of `Recv` on the stream's state. */
    method Receive() returns (r: Result<Message, WsError>)
      modifies this
      ensures Received(View(), readBuf, incoming, r) == Recv(utf8, old(View()), old(readBuf), old(incoming))
    {
      while true
        invariant Recv(utf8, View(), readBuf, incoming) == Recv(utf8, old(View()), old(readBuf), old(incoming))
        decreases |incoming|, |readBuf|
      {
        var d := DecodeFrame(readBuf);
        match d
        case Got(frame, consumed) =>
          DecodeStable(readBuf, []);
          readBuf := readBuf[consumed..];
          var o := ProcessFrame(frame);
          if o.Err? { return Err(o.error); }
          if o.value.Some? { return Ok(o.value.value); }
        case Incomplete =>
          if incoming == [] { return Err(Closed); }
          var bytes := incoming[0];
          incoming := incoming[1..];
          if bytes == [] { return Err(Closed); }
          readBuf := readBuf + bytes;
        case Invalid(why) => return Err(Protocol(BadFrame(why)));
        case Overflow => return Err(Crash);
      }
    }
  }
}
