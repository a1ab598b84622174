/**
  Which frame sequences are legal, section 5.4 of RFC 6455, said of the frames themselves: what is open
  after some frames, and exactly which next frame is refused and why.
 */
module WsFraming {
  import opened Prelude
  import opened WsFrame
  import opened WsStream
  import opened WsEndToEnd

  /** The kind of the message whose last fragment is still to come. */
  function OpenKind(fs: seq<Frame>): Option<Opcode> {
    if fs == [] then None
    else
      var f := fs[|fs| - 1];
      if IsControl(f.opcode) then OpenKind(fs[..|fs| - 1])
      else if f.fin then None
      else if IsData(f.opcode) then Some(f.opcode)
      else OpenKind(fs[..|fs| - 1])
  }

  /** What has arrived of it. */
  function OpenBytes(fs: seq<Frame>): Bytes {
    if fs == [] then []
    else
      var f, before := fs[|fs| - 1], fs[..|fs| - 1];
      if IsControl(f.opcode) then OpenBytes(before)
      else if f.fin then []
      else if IsData(f.opcode) then f.payload
      else OpenBytes(before) + f.payload
  }

  /** Why the next frame is refused, if it is. */
  function Refused(utf8: Bytes -> bool, fs: seq<Frame>, f: Frame): Option<Reason> {
    var open, whole := OpenKind(fs), OpenBytes(fs) + f.payload;
    if IsControl(f.opcode) then None
    else if IsData(f.opcode) && open.Some? then Some(DataDuringFragments)
    else if f.opcode.Continuation? && open.None? then Some(LoneContinuation)
    else if (open.Some? || !f.fin) && |whole| > 0x100_0000 then Some(TooLarge)
    else if f.fin && (if open.Some? then open.value.Text? else f.opcode.Text?) && !utf8(whole) then Some(NotUtf8)
    else None
  }

  lemma RunSnoc(utf8: Bytes -> bool, s: Session, fs: seq<Frame>, f: Frame)
    requires RunFrames(utf8, s, fs).2.None?
    ensures var t := RunFrames(utf8, s, fs).0;
      var (t', o) := HandleFrame(utf8, t, f);
      var r := RunFrames(utf8, s, fs + [f]);
      r.0 == t' && (r.2.None? <==> o.Ok?) && (o.Err? ==> r.2 == Some(o.error))
  {
    var t := RunFrames(utf8, s, fs).0;
    RunAppend(utf8, s, fs, [f]);
    RunOne(utf8, t, f, []);
    assert [f] + [] == [f];
  }

  lemma {:induction false} RunPrefix(utf8: Bytes -> bool, s: Session, fs: seq<Frame>, f: Frame)
    requires RunFrames(utf8, s, fs + [f]).2.None?
    ensures RunFrames(utf8, s, fs).2.None?
  {
    RunAppend(utf8, s, fs, [f]);
  }

  /** After frames that were all accepted, the session holds exactly the open message. */
  lemma {:induction false} SessionIsOpenMessage(utf8: Bytes -> bool, fs: seq<Frame>)
    requires RunFrames(utf8, FRESH, fs).2.None?
    ensures var t := RunFrames(utf8, FRESH, fs).0;
      t.fragOp == OpenKind(fs) && t.fragBuf == OpenBytes(fs) && SessionOk(t)
  {
    if fs != [] {
      var init, f := fs[..|fs| - 1], fs[|fs| - 1];
      assert fs == init + [f];
      RunPrefix(utf8, FRESH, init, f);
      SessionIsOpenMessage(utf8, init);
      RunSnoc(utf8, FRESH, init, f);
    }
  }

  /** For every sequence of accepted frames and every next frame: it is refused exactly for the reasons of
      the protocol, and for no other. */
  lemma NextFrameRefusedIff(utf8: Bytes -> bool, fs: seq<Frame>, f: Frame)
    requires RunFrames(utf8, FRESH, fs).2.None?
    ensures RunFrames(utf8, FRESH, fs + [f]).2 ==
            match Refused(utf8, fs, f) case None => None case Some(why) => Some(Protocol(why))
  {
    SessionIsOpenMessage(utf8, fs);
    RunSnoc(utf8, FRESH, fs, f);
    assert [] + f.payload == f.payload;
  }
}
