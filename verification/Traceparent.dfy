/**
  The W3C `traceparent` header: its text form, its parser, and the header the tracing middleware
  answers with. Header values are byte strings.
 */
module Traceparent {
  import opened Prelude
  import opened Words
  import opened TraceIds
  import opened Splitting
  import opened Utf8

  const DASH: byte := 45
  const PLUS: byte := 43
  const VERSION: Bytes := [48, 48]

  datatype Traceparent = Traceparent(traceId: TraceId, parentId: u64, flags: byte)

  // ---- Hexadecimal numbers ----

  /** Fixed-width lowercase hexadecimal. */
  function Hex(x: nat, width: nat): (s: Bytes)
    ensures |s| == width
    decreases width
  {
    if width == 0 then [] else Hex(x / 16, width - 1) + [HexDigit(x % 16)]
  }

  /** Digits of either case. */
  function HexValue(b: byte): Option<nat> {
    if 48 <= b <= 57 then Some(b - 48)
    else if 97 <= b <= 102 then Some(b - 87)
    else if 65 <= b <= 70 then Some(b - 55)
    else None
  }

  function ReadDigits(s: Bytes, acc: nat, limit: nat): Option<nat> {
    if s == [] then Some(acc)
    else
      var d := HexValue(s[0]);
      if d.None? || acc * 16 + d.value >= limit then None
      else ReadDigits(s[1..], acc * 16 + d.value, limit)
  }

  /** An optional plus sign, then at least one digit, below `limit`. */
  function FromHex(s: Bytes, limit: nat): Option<nat> {
    if s == [] || s == [PLUS] then None
    else if s[0] == PLUS then ReadDigits(s[1..], 0, limit)
    else ReadDigits(s, 0, limit)
  }

  /** Lowercase digits only, the one form that is ever written. */
  predicate Plain(b: byte) { 48 <= b <= 57 || 97 <= b <= 102 }

  ghost predicate AllPlain(s: Bytes) { forall i :: 0 <= i < |s| ==> Plain(s[i]) }

  lemma {:induction false} ReadAppend(s: Bytes, b: byte, acc: nat, limit: nat)
    ensures ReadDigits(s + [b], acc, limit) ==
      (var u := ReadDigits(s, acc, limit); if u.None? then None else ReadDigits([b], u.value, limit))
    decreases |s|
  {
    if s == [] {
      assert s + [b] == [b];
    } else {
      assert (s + [b])[1..] == s[1..] + [b];
      var d := HexValue(s[0]);
      if d.Some? { ReadAppend(s[1..], b, acc * 16 + d.value, limit); }
    }
  }

  lemma {:induction false} HexPlain(x: nat, width: nat)
    ensures AllPlain(Hex(x, width))
    decreases width
  {
    if width != 0 { HexPlain(x / 16, width - 1); }
  }

  ghost function Pow16(n: nat): nat { if n == 0 then 1 else 16 * Pow16(n - 1) }

  lemma {:induction false} ReadHex(x: nat, width: nat, limit: nat)
    requires x < Pow16(width) && x < limit
    ensures ReadDigits(Hex(x, width), 0, limit) == Some(x)
    decreases width
  {
    if width != 0 {
      ReadHex(x / 16, width - 1, limit);
      ReadAppend(Hex(x / 16, width - 1), HexDigit(x % 16), 0, limit);
      assert ReadDigits([HexDigit(x % 16)], x / 16, limit) == Some(x) by {
        assert [HexDigit(x % 16)][1..] == [];
      }
    }
  }

  /** Reading inverts writing. */
  lemma FromHexHex(x: nat, width: nat, limit: nat)
    requires x < Pow16(width) && x < limit && width > 0
    ensures FromHex(Hex(x, width), limit) == Some(x)
  {
    ReadHex(x, width, limit);
    HexPlain(x, width);
    assert Plain(Hex(x, width)[0]);
  }

  lemma {:induction false} DigitsReadBack(s: Bytes, limit: nat, x: nat)
    requires ReadDigits(s, 0, limit) == Some(x)
    ensures Hex(x, |s|) == s <==> AllPlain(s)
    decreases |s|
  {
    if s != [] {
      var init, b := s[..|s| - 1], s[|s| - 1];
      assert s == init + [b];
      ReadAppend(init, b, 0, limit);
      var u := ReadDigits(init, 0, limit).value;
      assert ReadDigits([b], u, limit) == Some(x);
      LastDigit(b, u, limit, x);
      DigitsReadBack(init, limit, u);
      assert Hex(x, |s|) == Hex(u, |init|) + [HexDigit(x % 16)];
      if AllPlain(s) {
        assert Plain(s[|s| - 1]);
        assert AllPlain(init);
      }
      if Hex(x, |s|) == s {
        assert Hex(x, |s|)[..|init|] == Hex(u, |init|);
        assert Hex(x, |s|)[|init|] == b;
      }
    }
  }

  lemma LastDigit(b: byte, u: nat, limit: nat, x: nat)
    requires ReadDigits([b], u, limit) == Some(x)
    ensures x / 16 == u && (HexDigit(x % 16) == b <==> Plain(b))
  {
    assert [b][1..] == [];
  }

  /** Writing back what was read gives the same text exactly when it was lowercase and unsigned. */
  lemma FromHexReadBack(s: Bytes, limit: nat)
    requires FromHex(s, limit).Some?
    ensures Hex(FromHex(s, limit).value, |s|) == s <==> AllPlain(s)
  {
    var x := FromHex(s, limit).value;
    if s[0] == PLUS {
      HexPlain(x, |s|);
      assert !Plain(s[0]);
    } else {
      DigitsReadBack(s, limit, x);
    }
  }

  // ---- The header ----

  function FormatTraceId(t: TraceId): Bytes { Hex(t.hi, 16) + Hex(t.lo, 16) }

  lemma {:induction false} HexJoins(x: nat, y: nat, k: nat, width: nat)
    requires y < Pow16(k)
    ensures Hex(x * Pow16(k) + y, width + k) == Hex(x, width) + Hex(y, k)
    decreases k
  {
    if k == 0 {
      assert x * Pow16(0) + y == x && Hex(x, width) + [] == Hex(x, width);
    } else {
      var z, p := x * Pow16(k) + y, Pow16(k - 1);
      HexJoins(x, y / 16, k - 1, width);
      assert z == 16 * (x * p + y / 16) + y % 16;
      assert z / 16 == x * p + y / 16 && z % 16 == y % 16;
    }
  }

  /** A trace id is written as one number of 128 bits. */
  lemma TraceIdIsOneNumber(t: TraceId)
    ensures FormatTraceId(t) == Hex(t.hi * U64 + t.lo, 32)
  {
    Widths();
    HexJoins(t.hi, t.lo, 16, 16);
  }

  function Format(t: TraceId, span: u64, flags: byte): Bytes {
    VERSION + [DASH] + (FormatTraceId(t) + [DASH] + (Hex(span, 16) + [DASH] + Hex(flags, 2)))
  }

  /** What parsing comes to: no header, a panic, or the fields. */
  datatype Parsed = Rejected | Panics | Parsed(header: Traceparent)

  /** The four parts; cutting the second one inside a character panics. */
  function ParseParts(version: Bytes, trace: Bytes, parent: Bytes, flags: Bytes): Parsed {
    if version != VERSION || |trace| != 32 then Rejected
    else if !Boundary(trace, 16) then Panics
    else
      var hi, lo := FromHex(trace[..16], U64), FromHex(trace[16..], U64);
      if hi.None? || lo.None? || (hi.value == 0 && lo.value == 0) || |parent| != 16 then Rejected
      else
        var p := FromHex(parent, U64);
        if p.None? || p.value == 0 || |flags| != 2 then Rejected
        else
          var f := FromHex(flags, 256);
          if f.None? then Rejected
          else
            FromHexBelow(trace[..16], U64);
            FromHexBelow(trace[16..], U64);
            FromHexBelow(parent, U64);
            FromHexBelow(flags, 256);
            Parsed(Traceparent(TraceId(hi.value, lo.value), p.value, f.value))
  }

  lemma {:induction false} ReadBelow(s: Bytes, acc: nat, limit: nat)
    requires acc < limit && ReadDigits(s, acc, limit).Some?
    ensures ReadDigits(s, acc, limit).value < limit
    decreases |s|
  {
    if s != [] { ReadBelow(s[1..], acc * 16 + HexValue(s[0]).value, limit); }
  }

  lemma FromHexBelow(s: Bytes, limit: nat)
    requires 0 < limit && FromHex(s, limit).Some?
    ensures FromHex(s, limit).value < limit
  {
    ReadBelow(if s[0] == PLUS then s[1..] else s, 0, limit);
  }

  function Parse(value: Bytes): Parsed {
    var parts := SplitOn(value, DASH);
    if |parts| != 4 then Rejected else ParseParts(parts[0], parts[1], parts[2], parts[3])
  }

  // ---- Parsing inverts formatting ----

  lemma SplitFour(a: Bytes, b: Bytes, c: Bytes, d: Bytes)
    requires DASH !in a && DASH !in b && DASH !in c && DASH !in d
    ensures SplitOn(a + [DASH] + (b + [DASH] + (c + [DASH] + d)), DASH) == [a, b, c, d]
  {
    SplitFirst(a, DASH, b + [DASH] + (c + [DASH] + d));
    SplitFirst(b, DASH, c + [DASH] + d);
    SplitFirst(c, DASH, d);
    SplitNone(d, DASH);
  }

  lemma PlainNoDash(s: Bytes)
    requires AllPlain(s)
    ensures DASH !in s
  {
  }

  lemma {:induction false} Widths()
    ensures Pow16(16) == U64 && Pow16(2) == 256
  {
    assert Pow16(4) == 0x1_0000;
    assert Pow16(8) == 0x1_0000_0000;
    assert Pow16(12) == 0x1_0000_0000_0000;
  }

  lemma {:induction false} NumbersParse(t: TraceId, span: u64, flagText: Bytes, flags: byte)
    requires |flagText| == 2 && FromHex(flagText, 256) == Some(flags)
    ensures ParseParts(VERSION, FormatTraceId(t), Hex(span, 16), flagText) ==
      if t == TraceId(0, 0) || span == 0 then Rejected else Parsed(Traceparent(t, span, flags))
  {
    Widths();
    FromHexHex(t.hi, 16, U64);
    FromHexHex(t.lo, 16, U64);
    FromHexHex(span, 16, U64);
    TraceIdBoundary(t);
    HalvesOf(Hex(t.hi, 16), Hex(t.lo, 16));
    PartsAre(FormatTraceId(t), Hex(span, 16), flagText, t, span, flags);
  }

  lemma HalvesOf(a: Bytes, b: Bytes)
    requires |a| == 16
    ensures (a + b)[..16] == a && (a + b)[16..] == b
  {
  }

  lemma PartsAre(trace: Bytes, parent: Bytes, flagText: Bytes, t: TraceId, span: u64, flags: byte)
    requires |trace| == 32 && Boundary(trace, 16) && |parent| == 16 && |flagText| == 2
    requires FromHex(trace[..16], U64) == Some(t.hi) && FromHex(trace[16..], U64) == Some(t.lo)
    requires FromHex(parent, U64) == Some(span) && FromHex(flagText, 256) == Some(flags)
    ensures ParseParts(VERSION, trace, parent, flagText) ==
      if t == TraceId(0, 0) || span == 0 then Rejected else Parsed(Traceparent(t, span, flags))
  {
  }

  lemma TraceIdBoundary(t: TraceId)
    ensures Boundary(FormatTraceId(t), 16)
  {
    HexPlain(t.hi, 16);
    HexPlain(t.lo, 16);
    PlainBoundary(FormatTraceId(t), 16);
  }

  lemma PlainBoundary(s: Bytes, i: nat)
    requires AllPlain(s) && i <= |s|
    ensures WellFormed(s) && Boundary(s, i)
  {
    forall j | 0 <= j < |s| ensures s[j] < 128 { assert Plain(s[j]); }
    AsciiWellFormed(s);
    BoundaryIff(s, i);
  }

  lemma {:induction false} TextParses(t: TraceId, span: u64, flagText: Bytes, flags: byte)
    requires |flagText| == 2 && FromHex(flagText, 256) == Some(flags) && DASH !in flagText
    ensures Parse(VERSION + [DASH] + (FormatTraceId(t) + [DASH] + (Hex(span, 16) + [DASH] + flagText))) ==
      if t == TraceId(0, 0) || span == 0 then Rejected else Parsed(Traceparent(t, span, flags))
  {
    HexPlain(t.hi, 16);
    HexPlain(t.lo, 16);
    HexPlain(span, 16);
    PlainNoDash(FormatTraceId(t));
    PlainNoDash(Hex(span, 16));
    SplitFour(VERSION, FormatTraceId(t), Hex(span, 16), flagText);
    NumbersParse(t, span, flagText, flags);
  }

  lemma FormatSlices(v: Bytes, trace: Bytes, parent: Bytes, flagText: Bytes)
    requires |v| == 2 && |trace| == 32 && |parent| == 16 && |flagText| == 2
    ensures var s := v + [DASH] + (trace + [DASH] + (parent + [DASH] + flagText));
      && |s| == 55 && s[..2] == v && s[2] == s[35] == s[52] == DASH
      && s[3..35] == trace && s[36..52] == parent && s[53..] == flagText
  {
  }

  lemma SlicePlain(s: Bytes, a: nat, b: nat)
    requires a <= b <= |s| && AllPlain(s[a..b])
    ensures forall i :: a <= i < b ==> Plain(s[i])
  {
    forall i | a <= i < b ensures Plain(s[i]) { assert s[i] == s[a..b][i - a]; }
  }

  /** What is written has the form of section 3.2 of the standard: version 00, 32, 16 and 2 lowercase
      digits, with dashes between. */
  lemma FormatShape(t: TraceId, span: u64, flags: byte)
    ensures var s := Format(t, span, flags);
      && |s| == 55 && s[..2] == [48, 48] && s[2] == s[35] == s[52] == 45
      && forall i :: 0 <= i < 55 && i != 2 && i != 35 && i != 52 ==> 48 <= s[i] <= 57 || 97 <= s[i] <= 102
  {
    var s := Format(t, span, flags);
    HexPlain(t.hi, 16);
    HexPlain(t.lo, 16);
    HexPlain(span, 16);
    HexPlain(flags, 2);
    FormatSlices(VERSION, FormatTraceId(t), Hex(span, 16), Hex(flags, 2));
    assert s[0..2] == s[..2] && s[53..55] == s[53..];
    SlicePlain(s, 0, 2);
    SlicePlain(s, 3, 35);
    SlicePlain(s, 36, 52);
    SlicePlain(s, 53, 55);
  }

  /** What is written is read back, with any flags, exactly when neither identifier is zero. */
  lemma {:induction false} FormatParses(t: TraceId, span: u64, flags: byte)
    ensures Parse(Format(t, span, flags)) ==
      if t == TraceId(0, 0) || span == 0 then Rejected else Parsed(Traceparent(t, span, flags))
  {
    Widths();
    FromHexHex(flags, 2, 256);
    HexPlain(flags, 2);
    PlainNoDash(Hex(flags, 2));
    TextParses(t, span, Hex(flags, 2), flags);
  }

  // ---- Formatting what was parsed ----

  lemma {:induction false} FourJoin(value: Bytes)
    requires |SplitOn(value, DASH)| == 4
    ensures var p := SplitOn(value, DASH);
      value == p[0] + [DASH] + (p[1] + [DASH] + (p[2] + [DASH] + p[3]))
  {
    var p := SplitOn(value, DASH);
    SplitJoins(value, DASH);
    var v1 := value[|p[0]| + 1..];
    SplitJoins(v1, DASH);
    assert p[1..][0] == p[1];
    var v2 := v1[|p[1]| + 1..];
    SplitJoins(v2, DASH);
    assert p[1..][1..][0] == p[2];
    var v3 := v2[|p[2]| + 1..];
    SplitJoins(v3, DASH);
    assert p[1..][1..][1..][0] == p[3];
  }

  /** The alphabet of the standard: lowercase digits and dashes. */
  ghost predicate Canonical(value: Bytes) { forall i :: 0 <= i < |value| ==> Plain(value[i]) || value[i] == DASH }

  lemma CanonicalParts(a: Bytes, b: Bytes, c: Bytes, d: Bytes)
    ensures Canonical(a + [DASH] + (b + [DASH] + (c + [DASH] + d))) <==>
      Canonical(a) && Canonical(b) && Canonical(c) && Canonical(d)
  {
    CanonicalAppend(a, b + [DASH] + (c + [DASH] + d));
    CanonicalAppend(b, c + [DASH] + d);
    CanonicalAppend(c, d);
  }

  lemma CanonicalAppend(a: Bytes, b: Bytes)
    ensures Canonical(a + [DASH] + b) <==> Canonical(a) && Canonical(b)
  {
    var s := a + [DASH] + b;
    if Canonical(s) {
      forall i | 0 <= i < |a| ensures Plain(a[i]) || a[i] == DASH { assert s[i] == a[i]; }
      forall i | 0 <= i < |b| ensures Plain(b[i]) || b[i] == DASH { assert s[|a| + 1 + i] == b[i]; }
    }
  }

  lemma CanonicalNoDash(s: Bytes)
    requires DASH !in s
    ensures Canonical(s) <==> AllPlain(s)
  {
    if Canonical(s) {
      forall i | 0 <= i < |s| ensures Plain(s[i]) { assert s[i] in s; }
    }
  }

  /** The text of a parsed header comes back from its parts exactly when every number was lowercase. */
  lemma {:induction false} PartsReadBack(trace: Bytes, parent: Bytes, flags: Bytes)
    requires ParseParts(VERSION, trace, parent, flags).Parsed?
    ensures var t := ParseParts(VERSION, trace, parent, flags).header;
      && |FormatTraceId(t.traceId)| == |trace|
      && (FormatTraceId(t.traceId) == trace <==> AllPlain(trace))
      && (Hex(t.parentId, 16) == parent <==> AllPlain(parent))
      && (Hex(t.flags, 2) == flags <==> AllPlain(flags))
  {
    FromHexReadBack(trace[..16], U64);
    FromHexReadBack(trace[16..], U64);
    FromHexReadBack(parent, U64);
    FromHexReadBack(flags, 256);
    var t := ParseParts(VERSION, trace, parent, flags).header;
    var text := FormatTraceId(t.traceId);
    HalvesEqual(text, trace);
    assert text[..16] == Hex(t.traceId.hi, 16) && text[16..] == Hex(t.traceId.lo, 16);
    PlainHalves(trace);
  }

  lemma HalvesEqual(a: Bytes, b: Bytes)
    requires |a| == |b| == 32
    ensures a == b <==> a[..16] == b[..16] && a[16..] == b[16..]
  {
    assert a == a[..16] + a[16..] && b == b[..16] + b[16..];
  }

  lemma PlainHalves(s: Bytes)
    requires |s| == 32
    ensures AllPlain(s) <==> AllPlain(s[..16]) && AllPlain(s[16..])
  {
    if AllPlain(s[..16]) && AllPlain(s[16..]) {
      forall i | 0 <= i < |s| ensures Plain(s[i]) {
        assert s[i] == if i < 16 then s[..16][i] else s[16..][i - 16];
      }
    }
  }

  lemma PiecesEqual(a: Bytes, b: Bytes, c: Bytes, a': Bytes, b': Bytes, c': Bytes)
    requires |a| == |a'| && |b| == |b'|
    ensures a + [DASH] + (b + [DASH] + c) == a' + [DASH] + (b' + [DASH] + c') <==> a == a' && b == b' && c == c'
  {
    PairEqual(a, b + [DASH] + c, a', b' + [DASH] + c');
    PairEqual(b, c, b', c');
  }

  lemma PairEqual(a: Bytes, b: Bytes, a': Bytes, b': Bytes)
    requires |a| == |a'|
    ensures a + [DASH] + b == a' + [DASH] + b' <==> a == a' && b == b'
  {
    var s, s' := a + [DASH] + b, a' + [DASH] + b';
    assert s[..|a|] == a && s'[..|a|] == a' && s[|a| + 1..] == b && s'[|a| + 1..] == b';
  }

  /** A header that parses is written back unchanged exactly when it uses the standard's alphabet. The
      parser also takes uppercase digits and a plus sign, which the standard does not. */
  lemma {:induction false} ParsedFormatsBackIff(value: Bytes)
    requires Parse(value).Parsed?
    ensures var t := Parse(value).header; Format(t.traceId, t.parentId, t.flags) == value <==> Canonical(value)
  {
    var p := SplitOn(value, DASH);
    var t := Parse(value).header;
    FourJoin(value);
    PartsReadBack(p[1], p[2], p[3]);
    PiecesAreFree(value, DASH, 1);
    PiecesAreFree(value, DASH, 2);
    PiecesAreFree(value, DASH, 3);
    CanonicalNoDash(p[1]);
    CanonicalNoDash(p[2]);
    CanonicalNoDash(p[3]);
    CanonicalParts(p[0], p[1], p[2], p[3]);
    PiecesEqual(FormatTraceId(t.traceId), Hex(t.parentId, 16), Hex(t.flags, 2), p[1], p[2], p[3]);
    PairEqual(VERSION, FormatTraceId(t.traceId) + [DASH] + (Hex(t.parentId, 16) + [DASH] + Hex(t.flags, 2)),
              p[0], p[1] + [DASH] + (p[2] + [DASH] + p[3]));
  }

  lemma PlusOne(s: Bytes)
    requires s == [PLUS, 49]
    ensures FromHex(s, 256) == Some(1)
  {
    var t := s[1..];
    assert t == [49] && t[1..] == [];
    assert ReadDigits(t, 0, 256) == ReadDigits(t[1..], 1, 256);
  }

  /** A flags field with a plus sign, outside the standard's alphabet, is accepted. */
  lemma PlusAccepted(t: TraceId, span: u64)
    requires t != TraceId(0, 0) && span != 0
    ensures Parse(VERSION + [DASH] + (FormatTraceId(t) + [DASH] + (Hex(span, 16) + [DASH] + [PLUS, 49]))) ==
      Parsed(Traceparent(t, span, 1))
  {
    PlusOne([PLUS, 49]);
    TextParses(t, span, [PLUS, 49], 1);
  }

  // ---- Panics ----

  lemma DashWellFormed(a: Bytes, b: Bytes)
    ensures WellFormed(a + [DASH] + b) <==> WellFormed(a) && WellFormed(b)
  {
    var t := [DASH] + b;
    WellFormedAppend(a, t);
    assert a + t == a + [DASH] + b;
    assert CharLen(t) == 1 && t[1..] == b;
  }

  lemma FourWellFormed(a: Bytes, b: Bytes, c: Bytes, d: Bytes)
    ensures WellFormed(a + [DASH] + (b + [DASH] + (c + [DASH] + d))) <==>
      WellFormed(a) && WellFormed(b) && WellFormed(c) && WellFormed(d)
  {
    DashWellFormed(c, d);
    DashWellFormed(b, c + [DASH] + d);
    DashWellFormed(a, b + [DASH] + (c + [DASH] + d));
  }

  lemma PiecesWellFormed(value: Bytes)
    requires WellFormed(value) && |SplitOn(value, DASH)| == 4
    ensures WellFormed(SplitOn(value, DASH)[1])
  {
    var p := SplitOn(value, DASH);
    FourJoin(value);
    FourWellFormed(p[0], p[1], p[2], p[3]);
  }

  /** On text, parsing panics exactly when there are four parts, the first is the version, and the
      second has 32 bytes with a character across its middle. */
  lemma PanicsIff(value: Bytes)
    requires WellFormed(value)
    ensures var p := SplitOn(value, DASH);
      Parse(value).Panics? <==> |p| == 4 && p[0] == VERSION && |p[1]| == 32 && Continuation(p[1][16])
  {
    var p := SplitOn(value, DASH);
    if |p| == 4 && |p[1]| == 32 {
      PiecesWellFormed(value);
      BoundaryIff(p[1], 16);
    }
  }

  /** Any such text: fifteen digits, `é`, fifteen digits, in an otherwise proper header. */
  lemma PanicsOnText(a: Bytes, b: Bytes, parent: Bytes, flags: Bytes)
    requires AllPlain(a) && AllPlain(b) && AllPlain(parent) && AllPlain(flags) && |a| == |b| == 15
    ensures var value := VERSION + [DASH] + ((a + [0xC3, 0xA9] + b) + [DASH] + (parent + [DASH] + flags));
      WellFormed(value) && Parse(value).Panics?
  {
    var trace := a + [0xC3, 0xA9] + b;
    AccentWellFormed(a, b);
    AccentNoDash(a, b);
    PlainNoDash(parent);
    PlainNoDash(flags);
    PlainBoundary(parent, 0);
    PlainBoundary(flags, 0);
    AsciiWellFormed(VERSION);
    FourWellFormed(VERSION, trace, parent, flags);
    SplitFour(VERSION, trace, parent, flags);
    BoundaryIff(trace, 16);
  }

  lemma AccentNoDash(a: Bytes, b: Bytes)
    requires AllPlain(a) && AllPlain(b) && |a| == 15
    ensures DASH !in a + [0xC3, 0xA9] + b && (a + [0xC3, 0xA9] + b)[16] == 0xA9
  {
    PlainNoDash(a);
    PlainNoDash(b);
  }

  lemma AccentWellFormed(a: Bytes, b: Bytes)
    requires AllPlain(a) && AllPlain(b)
    ensures WellFormed(a + [0xC3, 0xA9] + b)
  {
    var accent: Bytes := [0xC3, 0xA9] + b;
    PlainBoundary(a, 0);
    PlainBoundary(b, 0);
    assert CharLen(accent) == 2 && accent[2..] == b;
    WellFormedAppend(a, accent);
    assert a + accent == a + [0xC3, 0xA9] + b;
  }

  // ---- The middleware ----

  /** What the middleware reads from the request: header bytes that are not UTF-8 count as absent. */
  function Incoming(raw: Option<Bytes>): Parsed {
    if raw.Some? && WellFormed(raw.value) then Parse(raw.value) else Rejected
  }

  /** A header that another instance wrote is taken over, unless an identifier in it is zero. */
  lemma CallerIsRead(t: TraceId, span: u64, flags: byte)
    ensures Incoming(Some(Format(t, span, flags))) ==
      if t == TraceId(0, 0) || span == 0 then Rejected else Parsed(Traceparent(t, span, flags))
  {
    FormatShape(t, span, flags);
    AsciiWellFormed(Format(t, span, flags));
    FormatParses(t, span, flags);
  }

  /** The header of the response: the caller's trace and flags, or a fresh sampled trace, with a fresh
      span; none if reading the caller's header panics. Unless the fresh identifiers are zero, whoever
      receives the header reads exactly that. */
  method Handle(ids: IdSource, raw: Option<Bytes>, now: u64, later: u64) returns (header: Option<Bytes>)
    modifies ids
    ensures var start := old(ids.counter);
      var span := SpanIdOf(now, start);
      var caller := Incoming(raw);
      var next := WrappingAdd(start, 1);
      var trace := if caller.Parsed? then caller.header.traceId else TraceIdOf(later, next);
      var flags := if caller.Parsed? then caller.header.flags else 1;
      && (caller.Panics? ==> header == None && ids.counter == start)
      && (!caller.Panics? ==>
          && ids.counter == (if caller.Parsed? then next else WrappingAdd(next, 1))
          && header == Some(Format(trace, span, flags))
          && (Parse(header.value) == Parsed(Traceparent(trace, span, flags)) <==>
              WrappingAdd(now, start) != 0 && (caller.Parsed? || later != 0 || next != 0)))
  {
    var caller := Incoming(raw);
    if caller.Panics? { return None; }
    var span := ids.GenerateSpanId(now);
    var trace, flags: byte := TraceId(0, 0), 1;
    if caller.Parsed? {
      ParsedNonZero(raw.value);
      trace, flags := caller.header.traceId, caller.header.flags;
    } else {
      TraceIdZero(later, ids.counter);
      trace := ids.GenerateTraceId(later);
    }
    FormatParses(trace, span, flags);
    header := Some(Format(trace, span, flags));
  }

  lemma ParsedNonZero(value: Bytes)
    requires Parse(value).Parsed?
    ensures Parse(value).header.traceId != TraceId(0, 0) && Parse(value).header.parentId != 0
  {
  }
}
