/**
  The `multipart/form-data` parser, section 5.1.1 of RFC 2046.

  Header text is read as bytes; which header blocks are valid UTF-8 is a parameter.
 */
module Multipart {
  import opened Prelude
  import opened Splitting
  import opened Utf8

  /** ASCII text as bytes. */
  function B(s: string): (r: Bytes)
    requires forall i :: 0 <= i < |s| ==> s[i] as int < 256
    ensures |r| == |s| && forall i :: 0 <= i < |s| ==> r[i] == s[i] as int
  {
    seq(|s|, i requires 0 <= i < |s| => s[i] as int)
  }

  const CR: byte := 13
  const LF: byte := 10
  const CRLF: Bytes := [13, 10]
  const DASHES: Bytes := [45, 45]
  const QUOTE: byte := 34
  const SEMI: byte := 59

  datatype Field = Field(name: Option<Bytes>, fileName: Option<Bytes>, contentType: Option<Bytes>, data: Bytes)

  // ---- Byte search ----

  predicate OccursAt(h: Bytes, n: Bytes, i: nat) { i + |n| <= |h| && h[i..i + |n|] == n }

  /** The first occurrence of `n` in `h` at or after `i`. */
  function FindFrom(h: Bytes, n: Bytes, i: nat): (r: Option<nat>)
    ensures r.Some? ==> i <= r.value && r.value + |n| <= |h|
    decreases |h| - i
  {
    if i + |n| > |h| then None else if OccursAt(h, n, i) then Some(i)
    else if i == |h| then None else FindFrom(h, n, i + 1)
  }

  lemma {:induction false} FindsFirst(h: Bytes, n: Bytes, i: nat)
    ensures var r := FindFrom(h, n, i);
      && (r.Some? ==> OccursAt(h, n, r.value) && forall j :: i <= j < r.value ==> !OccursAt(h, n, j))
      && (r.None? ==> forall j :: i <= j ==> !OccursAt(h, n, j))
    decreases |h| - i
  {
    if i + |n| <= |h| && !OccursAt(h, n, i) && i < |h| { FindsFirst(h, n, i + 1); }
  }

  function FindBytes(h: Bytes, n: Bytes): Option<nat> {
    if n == [] then None else FindFrom(h, n, 0)
  }

  function FindDoubleCrlf(s: Bytes): (r: Option<(nat, nat)>)
    ensures r.Some? ==> r.value.0 + r.value.1 <= |s|
  {
    var a := FindFrom(s, CRLF + CRLF, 0);
    if a.Some? then Some((a.value, 4))
    else
      var b := FindFrom(s, [LF, LF], 0);
      if b.Some? then Some((b.value, 2)) else None
  }

  lemma FindIs(h: Bytes, n: Bytes, i: nat)
    requires n != [] && OccursAt(h, n, i) && forall j :: 0 <= j < i ==> !OccursAt(h, n, j)
    ensures FindBytes(h, n) == Some(i) && FindFrom(h, n, 0) == Some(i)
  {
    FindsFirst(h, n, 0);
  }

  // ---- Text helpers ----

  function TrimLeft(s: Bytes, drop: byte -> bool): Bytes {
    if s != [] && drop(s[0]) then TrimLeft(s[1..], drop) else s
  }

  function TrimRight(s: Bytes, drop: byte -> bool): Bytes {
    if s != [] && drop(s[|s| - 1]) then TrimRight(s[..|s| - 1], drop) else s
  }

  function TrimBoth(s: Bytes, drop: byte -> bool): Bytes { TrimRight(TrimLeft(s, drop), drop) }

  function TrimQuotes(s: Bytes): Bytes { TrimBoth(s, (b: byte) => b == QUOTE) }

  function After(s: Bytes, prefix: Bytes): Option<Bytes> {
    if prefix <= s then Some(s[|prefix|..]) else None
  }

  // ---- Headers ----

  datatype Disposition = Disposition(name: Option<Bytes>, fileName: Option<Bytes>)

  function ReadItem(d: Disposition, part: Bytes): Disposition {
    var p := TrimSpace(part);
    var name, file := After(p, B("name=")), After(p, B("filename="));
    if name.Some? then d.(name := Some(TrimQuotes(TrimSpace(name.value))))
    else if file.Some? then d.(fileName := Some(TrimQuotes(TrimSpace(file.value))))
    else d
  }

  function ReadItems(d: Disposition, parts: seq<Bytes>): Disposition
    decreases |parts|
  {
    if parts == [] then d else ReadItems(ReadItem(d, parts[0]), parts[1..])
  }

  /** `parse_content_disposition`. */
  method ParseContentDisposition(value: Bytes) returns (d: Disposition)
    ensures d == ReadItems(Disposition(None, None), SplitOn(value, SEMI))
  {
    var parts := SplitOn(value, SEMI);
    d := Disposition(None, None);
    for i := 0 to |parts|
      invariant ReadItems(d, parts[i..]) == ReadItems(Disposition(None, None), parts)
    {
      assert parts[i..][1..] == parts[i + 1..];
      d := ReadItem(d, parts[i]);
    }
  }

  /** `or_else`. */
  function OneOf(a: Option<Bytes>, b: Option<Bytes>): Option<Bytes> { if a.Some? then a else b }

  datatype Headers = Headers(disposition: Option<Bytes>, contentType: Option<Bytes>)

  function ReadLine(h: Headers, line: Bytes): Headers {
    var l := TrimSpace(line);
    var disposition := OneOf(After(l, B("Content-Disposition:")), After(l, B("content-disposition:")));
    var contentType := OneOf(After(l, B("Content-Type:")), After(l, B("content-type:")));
    if disposition.Some? then h.(disposition := Some(TrimSpace(disposition.value)))
    else if contentType.Some? then h.(contentType := Some(TrimSpace(contentType.value)))
    else h
  }

  function ReadLines(h: Headers, lines: seq<Bytes>): Headers
    decreases |lines|
  {
    if lines == [] then h else ReadLines(ReadLine(h, lines[0]), lines[1..])
  }

  /** The field a header block and a body make; a block that is not UTF-8 counts as empty. */
  function MakeField(utf8: Bytes -> bool, hdr: Bytes, data: Bytes): Field {
    var h := ReadLines(Headers(None, None), SplitOn(if utf8(hdr) then hdr else [], LF));
    var d := if h.disposition.Some? then ReadItems(Disposition(None, None), SplitOn(h.disposition.value, SEMI))
             else Disposition(None, None);
    Field(d.name, d.fileName, h.contentType, data)
  }

  // ---- Parts ----

  /** Where a part's headers and its body lie. */
  datatype Span = Span(hdrStart: nat, hdrEnd: nat, start: nat, end: nat)

  /** The part with its headers up to `hdrEnd` and its body from `start` on, and where the next turn starts. */
  function BodyFrom(body: Bytes, sep: Bytes, hdrStart: nat, hdrEnd: nat, start: nat): (r: (Span, nat))
    requires hdrStart <= hdrEnd <= start <= |body|
    ensures r.0.hdrStart == hdrStart && r.0.hdrEnd == hdrEnd && r.0.start == start
    ensures start <= r.0.end <= r.1 <= |body|
  {
    var raw := body[start..];
    var e := FindBytes(raw, sep);
    if e.Some? then (Span(hdrStart, hdrEnd, start, start + e.value), start + e.value + |sep|)
    else
      var end := if |raw| >= 2 && raw[|raw| - 2..] == CRLF then |body| - 2 else |body|;
      (Span(hdrStart, hdrEnd, start, end), |body|)
  }

  /** One turn of the parse loop: the part behind a delimiter, and where the next turn starts. */
  function PartAt(body: Bytes, sep: Bytes, pos: nat): (r: Option<(Span, nat)>)
    ensures r.Some? ==> var (s, next) := r.value;
      pos < s.hdrStart <= s.hdrEnd <= s.start <= s.end <= next <= |body|
  {
    if pos + 2 > |body| || body[pos..pos + 2] != CRLF then None
    else
      var h := FindDoubleCrlf(body[pos + 2..]);
      if h.None? then None
      else Some(BodyFrom(body, sep, pos + 2, pos + 2 + h.value.0, pos + 2 + h.value.0 + h.value.1))
  }

  /** The parts found from just behind a delimiter on. */
  function Spans(body: Bytes, sep: Bytes, pos: nat): seq<Span>
    decreases |body| - pos
  {
    match PartAt(body, sep, pos)
    case None => []
    case Some((s, next)) => [s] + Spans(body, sep, next)
  }

  /** How a header block and a body make a field. */
  type Maker = (Bytes, Bytes) -> Field

  function FieldAt(make: Maker, body: Bytes, s: Span): Field
    requires s.hdrStart <= s.hdrEnd <= |body| && s.start <= s.end <= |body|
  {
    make(body[s.hdrStart..s.hdrEnd], body[s.start..s.end])
  }

  /** The fields found from just behind a delimiter on. */
  function FieldsFrom(make: Maker, body: Bytes, sep: Bytes, pos: nat): seq<Field>
    decreases |body| - pos
  {
    match PartAt(body, sep, pos)
    case None => []
    case Some((s, next)) => [FieldAt(make, body, s)] + FieldsFrom(make, body, sep, next)
  }

  /** On arbitrary bytes the parts are disjoint slices of the body, in its order, and each field is
      made from its slices. */
  lemma {:induction false} FieldsAreSlices(make: Maker, body: Bytes, sep: Bytes, pos: nat)
    ensures AreSlices(make, body, pos, FieldsFrom(make, body, sep, pos), Spans(body, sep, pos))
    decreases |body| - pos
  {
    var p := PartAt(body, sep, pos);
    if p.Some? {
      var (s, next) := p.value;
      FieldsAreSlices(make, body, sep, next);
      OneMoreSlice(make, body, pos, s, next, FieldsFrom(make, body, sep, next), Spans(body, sep, next));
    }
  }

  predicate InBody(s: Span, lo: nat, hi: nat) { lo <= s.hdrStart <= s.hdrEnd <= s.start <= s.end <= hi }

  /** The spans lie in the body from `pos` on, one behind the other, and the fields are made from them. */
  ghost predicate AreSlices(make: Maker, body: Bytes, pos: nat, fields: seq<Field>, spans: seq<Span>) {
    && |fields| == |spans|
    && (forall i :: 0 <= i < |spans| ==> InBody(spans[i], pos, |body|) && fields[i] == FieldAt(make, body, spans[i]))
    && forall i, j :: 0 <= i < j < |spans| ==> spans[i].end <= spans[j].hdrStart
  }

  lemma OneMoreSlice(make: Maker, body: Bytes, pos: nat, s: Span, next: nat, fields: seq<Field>, spans: seq<Span>)
    requires AreSlices(make, body, next, fields, spans) && InBody(s, pos, |body|) && s.end <= next
    ensures AreSlices(make, body, pos, [FieldAt(make, body, s)] + fields, [s] + spans)
  {
    var spans' := [s] + spans;
    forall i | 0 <= i < |spans'|
      ensures InBody(spans'[i], pos, |body|) && ([FieldAt(make, body, s)] + fields)[i] == FieldAt(make, body, spans'[i])
    {
      if i > 0 { assert InBody(spans[i - 1], next, |body|); }
    }
    forall i, j | 0 <= i < j < |spans'| ensures spans'[i].end <= spans'[j].hdrStart {
      assert InBody(spans[j - 1], next, |body|);
    }
  }

  lemma OneMoreField(make: Maker, body: Bytes, sep: Bytes, pos: nat, fields: seq<Field>)
    requires PartAt(body, sep, pos).Some?
    ensures var (s, next) := PartAt(body, sep, pos).value;
      fields + FieldsFrom(make, body, sep, pos) ==
      (fields + [FieldAt(make, body, s)]) + FieldsFrom(make, body, sep, next)
  {
    var (s, next) := PartAt(body, sep, pos).value;
    FieldsAssoc(fields, [FieldAt(make, body, s)], FieldsFrom(make, body, sep, next));
  }

  lemma FieldsAssoc(a: seq<Field>, b: seq<Field>, c: seq<Field>)
    ensures a + (b + c) == (a + b) + c
  {
  }

  /** The parse loop. */
  method ParseParts(make: Maker, body: Bytes, sep: Bytes, start: nat) returns (fields: seq<Field>)
    ensures fields == FieldsFrom(make, body, sep, start)
  {
    fields := [];
    var pos := start;
    while true
      invariant fields + FieldsFrom(make, body, sep, pos) == FieldsFrom(make, body, sep, start)
      decreases |body| - pos
    {
      var p := PartAt(body, sep, pos);
      if p.None? { break; }
      var (s, next) := p.value;
      OneMoreField(make, body, sep, pos, fields);
      fields := fields + [FieldAt(make, body, s)];
      pos := next;
    }
  }

  function Separator(boundary: Bytes): (s: Bytes)
    ensures |s| == |boundary| + 4
  {
    CRLF + DASHES + boundary
  }

  function FieldsBehind(make: Maker, body: Bytes, boundary: Bytes, first: nat): seq<Field> {
    FieldsFrom(make, body, Separator(boundary), first + 2 + |boundary|)
  }

  /** Everything after the first delimiter; no delimiter, no fields. */
  function Parse(make: Maker, body: Bytes, boundary: Bytes): seq<Field> {
    var first := FindBytes(body, DASHES + boundary);
    if first.None? then [] else FieldsBehind(make, body, boundary, first.value)
  }

  function FieldMaker(utf8: Bytes -> bool): Maker { (h, d) => MakeField(utf8, h, d) }

  method ParseWith(make: Maker, body: Bytes, boundary: Bytes) returns (fields: seq<Field>)
    ensures fields == Parse(make, body, boundary)
  {
    var first := FindBytes(body, DASHES + boundary);
    if first.None? { return []; }
    fields := ParseBehind(make, body, boundary, first.value);
  }

  method ParseBehind(make: Maker, body: Bytes, boundary: Bytes, first: nat) returns (fields: seq<Field>)
    ensures fields == FieldsBehind(make, body, boundary, first)
  {
    fields := ParseParts(make, body, Separator(boundary), first + 2 + |boundary|);
  }

  /** `parse_multipart`. */
  method ParseMultipart(utf8: Bytes -> bool, body: Bytes, boundary: Bytes) returns (fields: seq<Field>)
    ensures fields == Parse(FieldMaker(utf8), body, boundary)
  {
    fields := ParseWith(FieldMaker(utf8), body, boundary);
  }
}
