/**
  The WebSocket frame codec, sections 5.2 and 5.3 of RFC 6455.

  `Encode` writes a frame, optionally masked as a client does; `Decode` reads one from the front
  of a buffer. The two are inverse on every stream of frames, and no answer of `Decode` other than
  "incomplete" changes when more bytes arrive.
 */
module WsFrame {
  import opened Prelude
  import opened Words

  datatype Opcode = Continuation | Text | Binary | CloseOp | PingOp | PongOp

  datatype Frame = Frame(fin: bool, opcode: Opcode, payload: Bytes)

  predicate IsControl(o: Opcode) { o.CloseOp? || o.PingOp? || o.PongOp? }

  function OpcodeByte(o: Opcode): byte {
    match o case Continuation => 0 case Text => 1 case Binary => 2 case CloseOp => 8 case PingOp => 9 case PongOp => 10
  }

  /** `Opcode::from_u8` on the low four bits. */
  function OpcodeOf(b: byte): Option<Opcode> {
    match b % 16
    case 0 => Some(Continuation)
    case 1 => Some(Text)
    case 2 => Some(Binary)
    case 8 => Some(CloseOp)
    case 9 => Some(PingOp)
    case 10 => Some(PongOp)
    case _ => None
  }

  // ---- Masking ----

  function XorByte(a: byte, b: byte): byte {
    ByteIsPow2();
    XorBelow(a, b, 8);
    Xor(a, b)
  }

  lemma ByteIsPow2()
    ensures Pow2(8) == 256
  {
    assert Pow2(4) == 16;
  }

  type Key = k: Bytes | |k| == 4 witness [0, 0, 0, 0]

  function Masked(p: Bytes, key: Key): (r: Bytes)
    ensures |r| == |p| && forall i :: 0 <= i < |p| ==> r[i] == XorByte(p[i], key[i % 4])
  {
    seq(|p|, i requires 0 <= i < |p| => XorByte(p[i], key[i % 4]))
  }

  /** Masking twice with one key is the identity. */
  lemma MaskTwice(p: Bytes, key: Key)
    ensures Masked(Masked(p, key), key) == p
  {
    forall i | 0 <= i < |p| ensures Masked(Masked(p, key), key)[i] == p[i] { XorCancel(p[i], key[i % 4]); }
  }

  // ---- Big-endian numbers ----

  function ToBe(n: nat, k: nat): (r: Bytes)
    ensures |r| == k
  {
    if k == 0 then [] else ToBe(n / 256, k - 1) + [n % 256]
  }

  function FromBe(b: Bytes): nat {
    if b == [] then 0 else 256 * FromBe(b[..|b| - 1]) + b[|b| - 1]
  }

  function Pow256(k: nat): nat { if k == 0 then 1 else 256 * Pow256(k - 1) }

  lemma {:induction false} BeRoundTrip(n: nat, k: nat)
    requires n < Pow256(k)
    ensures FromBe(ToBe(n, k)) == n
  {
    if k > 0 {
      BeRoundTrip(n / 256, k - 1);
      assert ToBe(n, k)[..k - 1] == ToBe(n / 256, k - 1);
    }
  }

  lemma {:induction false} FromBeBound(b: Bytes)
    ensures FromBe(b) < Pow256(|b|)
  {
    if b != [] { FromBeBound(b[..|b| - 1]); }
  }

  // ---- Encoding ----

  function Byte0(f: Frame): byte { (if f.fin then 128 else 0) + OpcodeByte(f.opcode) }

  function LengthField(n: nat, masked: bool): Bytes {
    var m: int := if masked then 128 else 0;
    if n < 126 then [m + n] else if n < 65536 then [m + 126] + ToBe(n, 2) else [m + 127] + ToBe(n, 8)
  }

  /** Server frames are not masked; client frames are. */
  function Encode(f: Frame, key: Option<Key>): Bytes {
    [Byte0(f)] + LengthField(|f.payload|, key.Some?) + BodyOf(f, key)
  }

  /** `encode_frame`. */
  method EncodeFrame(f: Frame, out: Bytes) returns (out': Bytes)
    requires |f.payload| < U64
    ensures out' == out + Encode(f, None)
  {
    var len := |f.payload|;
    out' := out;
    if len < 126 {
      out' := out' + [Byte0(f)];
      out' := out' + [len];
    } else if len < 65536 {
      out' := out' + [Byte0(f)];
      out' := out' + [126];
      out' := out' + ToBe(len, 2);
    } else {
      out' := out' + [Byte0(f)];
      out' := out' + [127];
      out' := out' + ToBe(len, 8);
    }
    out' := out' + f.payload;
  }

  // ---- Decoding ----

  /** `Overflow` is the panic where header size plus declared length leaves the machine word. */
  datatype Decoded = Got(frame: Frame, consumed: nat) | Incomplete | Invalid(reason: string) | Overflow

  /** The length field: its value and the offset behind it. */
  function DecodeLength(buf: Bytes): Option<(nat, nat)>
    requires |buf| >= 2
  {
    var field := buf[1] % 128;
    if field < 126 then Some((field, 2))
    else if field == 126 then (if |buf| < 4 then None else Some((FromBe(buf[2..4]), 4)))
    else (if |buf| < 10 then None else Some((FromBe(buf[2..10]), 10)))
  }

  function Decode(buf: Bytes): Decoded {
    if |buf| < 2 then Incomplete
    else
      var opcode := OpcodeOf(buf[0]);
      if opcode.None? then Invalid("unknown opcode") else
      var l := DecodeLength(buf);
      if l.None? then Incomplete
      else if IsControl(opcode.value) && l.value.0 > 125 then Invalid("control frame payload exceeds 125 bytes")
      else DecodeBody(buf, buf[0] >= 128, opcode.value, l.value.0, l.value.1)
  }

  function DecodeBody(buf: Bytes, fin: bool, opcode: Opcode, len: nat, at: nat): Decoded
    requires |buf| >= 2
  {
    if buf[1] >= 128 then
      if |buf| < at + 4 then Incomplete
      else if at + 4 + len >= U64 then Overflow
      else if |buf| < at + 4 + len then Incomplete
      else Got(Frame(fin, opcode, Masked(buf[at + 4..at + 4 + len], buf[at..at + 4])), at + 4 + len)
    else if at + len >= U64 then Overflow
    else if |buf| < at + len then Incomplete
    else Got(Frame(fin, opcode, buf[at..at + len]), at + len)
  }

  method ReadLength(buf: Bytes) returns (r: Option<(nat, nat)>)
    requires |buf| >= 2
    ensures r == DecodeLength(buf)
  {
    var lenField := buf[1] % 128;
    var offset := 2;
    var payloadLen: nat := lenField;
    if lenField == 126 {
      if |buf| < offset + 2 { return None; }
      payloadLen := FromBe(buf[offset..offset + 2]);
      offset := offset + 2;
    } else if lenField == 127 {
      if |buf| < offset + 8 { return None; }
      payloadLen := FromBe(buf[offset..offset + 8]);
      offset := offset + 8;
    }
    r := Some((payloadLen, offset));
  }

  /** `decode_frame`, with its running offset and its unmasking loop. */
  method DecodeFrame(buf: Bytes) returns (r: Decoded)
    ensures r == Decode(buf)
  {
    if |buf| < 2 { return Incomplete; }
    var fin := buf[0] >= 128;
    var opcode := OpcodeOf(buf[0]);
    if opcode.None? { return Invalid("unknown opcode"); }
    var masked := buf[1] >= 128;
    var length := ReadLength(buf);
    if length.None? { return Incomplete; }
    var (payloadLen, offset) := length.value;
    if IsControl(opcode.value) && payloadLen > 125 { return Invalid("control frame payload exceeds 125 bytes"); }
    var key: Option<Key> := None;
    if masked {
      if |buf| < offset + 4 { return Incomplete; }
      key := Some(buf[offset..offset + 4]);
      offset := offset + 4;
    }
    if offset + payloadLen >= U64 { return Overflow; }
    if |buf| < offset + payloadLen { return Incomplete; }
    var payload := buf[offset..offset + payloadLen];
    if key.Some? { payload := Unmask(payload, key.value); }
    r := Got(Frame(fin, opcode.value, payload), offset + payloadLen);
  }

  method Unmask(p: Bytes, key: Key) returns (r: Bytes)
    ensures r == Masked(p, key)
  {
    r := p;
    for i := 0 to |p|
      invariant |r| == |p|
      invariant forall j :: 0 <= j < i ==> r[j] == XorByte(p[j], key[j % 4])
      invariant forall j :: i <= j < |p| ==> r[j] == p[j]
    {
      r := r[i := XorByte(r[i], key[i % 4])];
    }
  }

  // ---- Incremental decoding ----

  /** An answer does not change when more bytes arrive, and it consumes bytes that are there. */
  lemma DecodeStable(buf: Bytes, more: Bytes)
    requires !Decode(buf).Incomplete?
    ensures Decode(buf + more) == Decode(buf)
    ensures Decode(buf).Got? ==> 2 <= Decode(buf).consumed <= |buf|
  {
    var all := buf + more;
    assert all[0] == buf[0] && all[1] == buf[1];
    if OpcodeOf(buf[0]).Some? {
      var l := DecodeLength(buf);
      assert |buf| >= 4 ==> all[2..4] == buf[2..4];
      assert |buf| >= 10 ==> all[2..10] == buf[2..10];
      assert DecodeLength(all) == l;
      if !(IsControl(OpcodeOf(buf[0]).value) && l.value.0 > 125) {
        BodyStable(buf, more, buf[0] >= 128, OpcodeOf(buf[0]).value, l.value.0, l.value.1);
      }
    }
  }

  lemma BodyStable(buf: Bytes, more: Bytes, fin: bool, opcode: Opcode, len: nat, at: nat)
    requires |buf| >= 2 && at >= 2 && !DecodeBody(buf, fin, opcode, len, at).Incomplete?
    ensures DecodeBody(buf + more, fin, opcode, len, at) == DecodeBody(buf, fin, opcode, len, at)
    ensures var r := DecodeBody(buf, fin, opcode, len, at); r.Got? ==> 2 <= r.consumed <= |buf|
  {
    var all := buf + more;
    if buf[1] >= 128 {
      assert all[at..at + 4] == buf[at..at + 4];
      if |buf| >= at + 4 + len { assert all[at + 4..at + 4 + len] == buf[at + 4..at + 4 + len]; }
    } else if |buf| >= at + len {
      assert all[at..at + len] == buf[at..at + len];
    }
  }

  /** Cutting an incomplete buffer leaves it incomplete. */
  lemma DecodeMonotone(buf: Bytes, k: nat)
    requires k <= |buf| && Decode(buf).Incomplete?
    ensures Decode(buf[..k]).Incomplete?
  {
    assert buf[..k] + buf[k..] == buf;
    if !Decode(buf[..k]).Incomplete? { DecodeStable(buf[..k], buf[k..]); }
  }

  // ---- Round trips ----

  /** Frames that the decoder takes back: control payloads are short, and sizes fit a machine word. */
  predicate Fits(f: Frame) {
    (IsControl(f.opcode) ==> |f.payload| <= 125) && |f.payload| + 14 < U64
  }

  lemma LengthRoundTrip(b0: byte, n: nat, masked: bool, rest: Bytes)
    requires n < U64
    ensures var l := LengthField(n, masked);
            var buf := [b0] + l + rest;
            && l != [] && (l[0] >= 128 <==> masked)
            && DecodeLength(buf) == Some((n, 1 + |l|))
  {
    var l := LengthField(n, masked);
    var buf := [b0] + l + rest;
    assert buf[1] == l[0];
    assert Pow256(2) == 65536;
    assert Pow256(8) == U64 by { assert Pow256(4) == 0x1_0000_0000; }
    if 126 <= n < 65536 {
      BeRoundTrip(n, 2);
      assert buf[2..4] == ToBe(n, 2);
    } else if n >= 65536 {
      BeRoundTrip(n, 8);
      assert buf[2..10] == ToBe(n, 8);
    }
  }

  lemma OpcodeRoundTrip(f: Frame)
    ensures OpcodeOf(Byte0(f)) == Some(f.opcode) && (Byte0(f) >= 128 <==> f.fin)
  {
  }

  /** Decoding an encoded frame gives it back, masked or not, whatever follows. */
  lemma {:induction false} FrameRoundTrip(f: Frame, key: Option<Key>, suffix: Bytes)
    requires Fits(f)
    ensures Decode(Encode(f, key) + suffix) == Got(f, |Encode(f, key)|)
  {
    var l := LengthField(|f.payload|, key.Some?);
    var body := BodyOf(f, key);
    var buf := Encode(f, key) + suffix;
    assert buf == [Byte0(f)] + l + (body + suffix);
    LengthRoundTrip(Byte0(f), |f.payload|, key.Some?, body + suffix);
    OpcodeRoundTrip(f);
    HeaderSlices(Byte0(f), l, body + suffix);
    BodyRoundTrip(buf, f, key, suffix, 1 + |l|);
  }

  function BodyOf(f: Frame, key: Option<Key>): Bytes {
    if key.Some? then key.value + Masked(f.payload, key.value) else f.payload
  }

  lemma HeaderSlices(b0: byte, l: Bytes, rest: Bytes)
    requires l != []
    ensures var buf := [b0] + l + rest; |buf| >= 2 && buf[0] == b0 && buf[1] == l[0] && buf[1 + |l|..] == rest
  {
  }

  lemma BodyRoundTrip(buf: Bytes, f: Frame, key: Option<Key>, suffix: Bytes, at: nat)
    requires 2 <= at <= |buf| && at <= 10 && (buf[1] >= 128 <==> key.Some?) && buf[at..] == BodyOf(f, key) + suffix
    requires |f.payload| + 14 < U64
    ensures DecodeBody(buf, f.fin, f.opcode, |f.payload|, at) == Got(f, at + |BodyOf(f, key)|)
  {
    var n := |f.payload|;
    if key.Some? {
      var masked := Masked(f.payload, key.value);
      KeyedSlices(buf, at, key.value, masked, suffix);
      MaskTwice(f.payload, key.value);
    } else {
      PlainSlices(buf, at, f.payload, suffix);
    }
  }

  lemma PlainSlices(buf: Bytes, at: nat, p: Bytes, suffix: Bytes)
    requires at <= |buf| && buf[at..] == p + suffix
    ensures |buf| >= at + |p| && buf[at..at + |p|] == p
  {
    assert buf[at..][..|p|] == p;
  }

  lemma KeyedSlices(buf: Bytes, at: nat, key: Key, p: Bytes, suffix: Bytes)
    requires at <= |buf| && buf[at..] == key + p + suffix
    ensures |buf| >= at + 4 + |p| && buf[at..at + 4] == key && buf[at + 4..at + 4 + |p|] == p
  {
    assert key + p + suffix == key + (p + suffix);
    PlainSlices(buf, at, key, p + suffix);
    assert buf[at + 4..] == buf[at..][4..];
    PlainSlices(buf, at + 4, p, suffix);
  }

  /** No strict prefix of an encoding decodes to anything. */
  lemma {:induction false} PrefixIncomplete(f: Frame, key: Option<Key>, k: nat)
    requires Fits(f) && k < |Encode(f, key)|
    ensures Decode(Encode(f, key)[..k]).Incomplete?
  {
    var e := Encode(f, key);
    var p := e[..k];
    FrameRoundTrip(f, key, []);
    assert e + [] == e;
    assert p + e[k..] == e;
    if !Decode(p).Incomplete? { DecodeStable(p, e[k..]); }
  }

  // ---- Streams of frames ----

  function EncodeAll(fs: seq<(Frame, Option<Key>)>): Bytes {
    if fs == [] then [] else Encode(fs[0].0, fs[0].1) + EncodeAll(fs[1..])
  }

  /** Decoding frame after frame, as long as there are complete ones, at most `n`. */
  function DecodeMany(buf: Bytes, n: nat): (seq<Frame>, Bytes)
    decreases n
  {
    if n == 0 then ([], buf)
    else
      match Decode(buf)
      case Got(f, used) =>
        if used <= |buf| then var (fs, rest) := DecodeMany(buf[used..], n - 1); ([f] + fs, rest) else ([], buf)
      case _ => ([], buf)
  }

  /** Any list of frames, each masked or not, followed by anything, decodes to that list and leaves
      what followed. */
  lemma {:induction false} StreamRoundTrip(fs: seq<(Frame, Option<Key>)>, suffix: Bytes)
    requires forall i :: 0 <= i < |fs| ==> Fits(fs[i].0)
    ensures var (got, rest) := DecodeMany(EncodeAll(fs) + suffix, |fs|);
            && rest == suffix && |got| == |fs|
            && forall i :: 0 <= i < |fs| ==> got[i] == fs[i].0
  {
    if fs == [] {
      assert [] + suffix == suffix;
    } else {
      var e, later := Encode(fs[0].0, fs[0].1), EncodeAll(fs[1..]);
      assert EncodeAll(fs) + suffix == e + (later + suffix);
      FrameRoundTrip(fs[0].0, fs[0].1, later + suffix);
      StreamRoundTrip(fs[1..], suffix);
      DecodeOne(e, later + suffix, fs[0].0, |fs| - 1);
    }
  }

  lemma DecodeOne(e: Bytes, tail: Bytes, f: Frame, n: nat)
    requires Decode(e + tail) == Got(f, |e|)
    ensures var (got, rest) := DecodeMany(tail, n); DecodeMany(e + tail, n + 1) == ([f] + got, rest)
  {
    assert (e + tail)[|e|..] == tail;
  }

  /** The decoder overflows exactly on data frames whose declared length does not fit beside the header. */
  lemma OverflowIff(buf: Bytes)
    ensures Decode(buf).Overflow? <==>
      && |buf| >= 2 && OpcodeOf(buf[0]).Some? && DecodeLength(buf).Some?
      && !IsControl(OpcodeOf(buf[0]).value)
      && var (len, at) := DecodeLength(buf).value;
         (if buf[1] >= 128 then |buf| >= at + 4 && at + 4 + len >= U64 else at + len >= U64)
  {
  }

  /** Such input: a final, unmasked binary frame that declares 2^64 - 1 bytes. */
  function HugeFrame(): Bytes { [130, 127] + Ones(8) }

  function Ones(k: nat): (r: Bytes)
    ensures |r| == k && forall i :: 0 <= i < k ==> r[i] == 255
  {
    if k == 0 then [] else Ones(k - 1) + [255]
  }

  lemma {:induction false} OnesAreGreatest(k: nat)
    ensures FromBe(Ones(k)) == Pow256(k) - 1
  {
    if k > 0 {
      OnesAreGreatest(k - 1);
      assert Ones(k)[..k - 1] == Ones(k - 1);
    }
  }

  lemma HugeFrameOverflows()
    ensures Decode(HugeFrame()) == Overflow
  {
    var buf := HugeFrame();
    assert buf[2..10] == Ones(8);
    OnesAreGreatest(8);
    assert Pow256(4) == 0x1_0000_0000;
    assert Pow256(8) == U64;
    assert buf[0] == 130 && buf[1] == 127;
    OverflowIff(buf);
  }

  /** With wrapping additions the slice would end before it starts: the decoder panics either way. */
  lemma WrappedEndIsBeforeStart(at: nat, len: u64)
    requires at < U64 && at + len >= U64
    ensures WrappingAdd(at, len) < at
  {
  }
}
