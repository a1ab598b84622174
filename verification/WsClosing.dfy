/**
  The closing handshake and the replies, section 5.5 of RFC 6455: what is written back, in which order,
  and that a connection is closed with one close frame, whoever begins.
 */
module WsClosing {
  import opened Prelude
  import opened Words
  import opened WsFrame
  import opened WsStream

  /** A close frame with the status of a normal closure and no reason. */
  ghost predicate NormalClose(f: Frame) {
    f.fin && f.opcode.CloseOp? && |f.payload| == 2 && FromBe(f.payload) == 1000
  }

  lemma ReplyIsNormal()
    ensures NormalClose(CloseReply())
  {
    var b := CloseReply().payload;
    assert b[..1] == [3] && [3][..0] == [];
    assert FromBe([3]) == 3;
  }

  /** A close frame is returned as a close, and the stream is closed then; it is answered, with one normal
      close frame, exactly when the stream was open. */
  lemma CloseIsReturned(utf8: Bytes -> bool, s: Session, p: Bytes, key: Option<Key>, more: Bytes, chunks: seq<Bytes>)
    requires |p| <= 125
    ensures var v := Recv(utf8, s, Encode(Frame(true, CloseOp, p), key) + more, chunks);
      && v.r == Ok(CloseMsg) && v.s.closed && v.buf == more && v.chunks == chunks
      && v.s.fragOp == s.fragOp && v.s.fragBuf == s.fragBuf
      && (if s.closed then v.s.sent == s.sent
          else |v.s.sent| == |s.sent| + 1 && s.sent <= v.s.sent && NormalClose(v.s.sent[|s.sent|]))
  {
    var f := Frame(true, CloseOp, p);
    var enc := Encode(f, key);
    FrameRoundTrip(f, key, more);
    assert (enc + more)[|enc|..] == more;
    ReplyIsNormal();
  }

  // ---- Everything that is written ----

  /** How many of the frames are handled: all, or up to the first that is an error. */
  function Handled(utf8: Bytes -> bool, s: Session, fs: seq<Frame>): (n: nat)
    ensures n <= |fs|
    decreases |fs|
  {
    if fs == [] then 0
    else var (s', o) := HandleFrame(utf8, s, fs[0]); if o.Err? then 1 else 1 + Handled(utf8, s', fs[1..])
  }

  ghost predicate HasClose(fs: seq<Frame>) { exists i :: 0 <= i < |fs| && fs[i].opcode.CloseOp? }

  /** A reply for each ping, with its payload, and one for the first close if the stream was open. */
  function Replies(closed: bool, fs: seq<Frame>): seq<Frame>
    decreases |fs|
  {
    if fs == [] then []
    else if fs[0].opcode.PingOp? then [Frame(true, PongOp, fs[0].payload)] + Replies(closed, fs[1..])
    else if fs[0].opcode.CloseOp? && !closed then [Frame(true, CloseOp, [3, 232])] + Replies(true, fs[1..])
    else Replies(closed, fs[1..])
  }

  lemma RepliesAssoc(a: seq<Frame>, b: seq<Frame>, c: seq<Frame>)
    ensures (a + b) + c == a + (b + c)
  {
  }

  lemma HasCloseHead(f: Frame, fs: seq<Frame>)
    ensures HasClose([f] + fs) <==> f.opcode.CloseOp? || HasClose(fs)
  {
    var all := [f] + fs;
    if f.opcode.CloseOp? { assert all[0].opcode.CloseOp?; }
    if HasClose(fs) {
      var i :| 0 <= i < |fs| && fs[i].opcode.CloseOp?;
      assert all[i + 1].opcode.CloseOp?;
    }
  }

  /** What one frame writes, and whether the stream is closed behind it. */
  lemma OneReply(utf8: Bytes -> bool, s: Session, f: Frame, rest: seq<Frame>)
    ensures var s' := HandleFrame(utf8, s, f).0;
      && s.sent + Replies(s.closed, [f] + rest) == s'.sent + Replies(s'.closed, rest)
      && s'.closed == (s.closed || f.opcode.CloseOp?)
  {
    assert ([f] + rest)[1..] == rest;
    if f.opcode.PingOp? {
      RepliesAssoc(s.sent, [Frame(true, PongOp, f.payload)], Replies(s.closed, rest));
    } else if f.opcode.CloseOp? && !s.closed {
      RepliesAssoc(s.sent, [CloseReply()], Replies(true, rest));
    }
  }

  /** In every run, failing or not: what is written are the replies to the handled frames, in their order,
      and the stream is closed exactly if it was before or a close frame was handled. */
  lemma {:induction false} RepliesInOrder(utf8: Bytes -> bool, s: Session, fs: seq<Frame>)
    ensures var t := RunFrames(utf8, s, fs).0;
      var handled := fs[..Handled(utf8, s, fs)];
      && t.sent == s.sent + Replies(s.closed, handled)
      && t.closed == (s.closed || HasClose(handled))
    decreases |fs|
  {
    if fs == [] {
      assert s.sent + [] == s.sent;
    } else {
      var (s', o) := HandleFrame(utf8, s, fs[0]);
      var n := Handled(utf8, s, fs);
      var rest := fs[1..][..n - 1];
      assert fs[..n] == [fs[0]] + rest;
      OneReply(utf8, s, fs[0], rest);
      HasCloseHead(fs[0], rest);
      if o.Err? {
        assert rest == [] && s'.sent + [] == s'.sent;
      } else {
        RepliesInOrder(utf8, s', fs[1..]);
      }
    }
  }

  // ---- Who closes ----

  /** A frame that arrives, or a message the application sends. */
  datatype Event = Arrives(f: Frame) | Says(m: Message)

  function After(utf8: Bytes -> bool, s: Session, e: Event): Session {
    match e case Arrives(f) => HandleFrame(utf8, s, f).0 case Says(m) => SendMessage(s, m).0
  }

  function Talk(utf8: Bytes -> bool, s: Session, es: seq<Event>): Session {
    if es == [] then s else After(utf8, Talk(utf8, s, es[..|es| - 1]), es[|es| - 1])
  }

  predicate IsClose(e: Event) { match e case Arrives(f) => f.opcode.CloseOp? case Says(m) => m.CloseMsg? }

  function Closes(fs: seq<Frame>): nat {
    if fs == [] then 0 else Closes(fs[..|fs| - 1]) + (if fs[|fs| - 1].opcode.CloseOp? then 1 else 0)
  }

  lemma ClosesSnoc(fs: seq<Frame>, f: Frame)
    ensures Closes(fs + [f]) == Closes(fs) + (if f.opcode.CloseOp? then 1 else 0)
  {
    assert (fs + [f])[..|fs|] == fs;
  }

  /** Behind a close frame there are only pongs. */
  ghost predicate PongsBehindClose(fs: seq<Frame>) {
    forall i, j :: 0 <= i < j < |fs| && fs[i].opcode.CloseOp? ==> fs[j].opcode.PongOp?
  }

  /** One close frame if the stream is closing, none if not. */
  ghost predicate OneClose(sent: seq<Frame>, closing: bool) {
    && Closes(sent) == (if closing then 1 else 0) && PongsBehindClose(sent)
    && (!closing ==> forall i :: 0 <= i < |sent| ==> !sent[i].opcode.CloseOp?)
  }

  ghost predicate ClosedOnce(s: Session, closing: bool) { s.closed == closing && OneClose(s.sent, closing) }

  lemma OneMore(sent: seq<Frame>, closing: bool, f: Frame)
    requires OneClose(sent, closing) && (closing ==> f.opcode.PongOp?)
    ensures OneClose(sent + [f], closing || f.opcode.CloseOp?)
  {
    ClosesSnoc(sent, f);
  }

  /** An event writes nothing, or one frame: the close frame if it closes the stream, and only pongs once
      the stream is closed. */
  lemma EventWrites(utf8: Bytes -> bool, s: Session, e: Event)
    ensures var t := After(utf8, s, e);
      && t.closed == (s.closed || IsClose(e))
      && ((t.sent == s.sent && t.closed == s.closed)
          || (|t.sent| == |s.sent| + 1 && t.sent == s.sent + [t.sent[|s.sent|]]
              && (t.sent[|s.sent|].opcode.CloseOp? <==> t.closed && !s.closed)
              && (s.closed ==> t.sent[|s.sent|].opcode.PongOp?)))
  {
  }

  lemma OneEvent(utf8: Bytes -> bool, s: Session, e: Event)
    requires ClosedOnce(s, s.closed)
    ensures ClosedOnce(After(utf8, s, e), s.closed || IsClose(e))
  {
    var t := After(utf8, s, e);
    EventWrites(utf8, s, e);
    if t.sent != s.sent { OneMore(s.sent, s.closed, t.sent[|s.sent|]); }
  }

  /** Whatever arrives and whatever the application sends, in any order: the stream is closed exactly when
      a close has arrived or was sent; then one close frame has been written, and behind it only pongs,
      and before that none. */
  lemma {:induction false} ClosesOnce(utf8: Bytes -> bool, es: seq<Event>)
    ensures ClosedOnce(Talk(utf8, FRESH, es), exists i :: 0 <= i < |es| && IsClose(es[i]))
  {
    if es != [] {
      var init, last := es[..|es| - 1], es[|es| - 1];
      ClosesOnce(utf8, init);
      OneEvent(utf8, Talk(utf8, FRESH, init), last);
      assert (exists i :: 0 <= i < |es| && IsClose(es[i])) <==>
             (exists i :: 0 <= i < |init| && IsClose(init[i])) || IsClose(last) by {
        if i :| 0 <= i < |es| && IsClose(es[i]) { assert i < |init| ==> IsClose(init[i]); }
        if i :| 0 <= i < |init| && IsClose(init[i]) { assert IsClose(es[i]); }
        if IsClose(last) { assert IsClose(es[|es| - 1]); }
      }
    }
  }

  // ---- What is sent is received ----

  /** A message that was sent is received as that message, however its frame is masked and whatever
      follows, exactly when text is UTF-8 and a ping or pong has at most 125 bytes: `send` does not check. */
  lemma SentIsReceivedIff(utf8: Bytes -> bool, m: Message, key: Option<Key>, more: Bytes)
    requires |FrameOf(m).payload| + 14 < U64
    ensures Recv(utf8, FRESH, Encode(FrameOf(m), key) + more, []).r == Ok(m) <==>
      (m.TextMsg? ==> utf8(m.b)) && (m.PingMsg? || m.PongMsg? ==> |m.b| <= 125)
  {
    var f := FrameOf(m);
    var enc := Encode(f, key);
    assert (enc + more)[|enc|..] == more;
    if Fits(f) { FrameRoundTrip(f, key, more); } else { LongControlInvalid(f, key, more); }
  }

  lemma LongControlInvalid(f: Frame, key: Option<Key>, more: Bytes)
    requires IsControl(f.opcode) && 125 < |f.payload| < U64
    ensures Decode(Encode(f, key) + more).Invalid?
  {
    var l := LengthField(|f.payload|, key.Some?);
    var rest := BodyOf(f, key) + more;
    assert Encode(f, key) + more == [Byte0(f)] + l + rest;
    LengthRoundTrip(Byte0(f), |f.payload|, key.Some?, rest);
    OpcodeRoundTrip(f);
    HeaderSlices(Byte0(f), l, rest);
  }
}
