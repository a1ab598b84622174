/**
  Printing parts and parsing them back.

  The printer writes what a client sends: a delimiter line, the header block, a blank line, the data.
  `PartsRoundTripIff` is about the framing, for any header blocks; `FieldsRoundTrip` adds the headers.
 */
module MultipartRoundTrip {
  import opened Prelude
  import opened Multipart

  /** A header block and a body. */
  type RawPart = (Bytes, Bytes)

  const BLANK: Bytes := CRLF + CRLF

  /** What follows a delimiter. */
  function PrintRest(sep: Bytes, parts: seq<RawPart>): Bytes {
    if parts == [] then DASHES + CRLF
    else CRLF + parts[0].0 + BLANK + parts[0].1 + sep + PrintRest(sep, parts[1..])
  }

  function Print(boundary: Bytes, parts: seq<RawPart>): Bytes {
    DASHES + boundary + PrintRest(CRLF + DASHES + boundary, parts)
  }

  /** The blank line after the header block is the first one. */
  predicate HeaderSafe(hdr: Bytes) {
    forall j :: 0 <= j < |hdr| ==> !OccursAt(hdr + BLANK, BLANK, j)
  }

  predicate Contains(data: Bytes, sep: Bytes) { exists j :: 0 <= j < |data| && OccursAt(data, sep, j) }

  ghost predicate CrFree(s: Bytes) { forall i :: 0 <= i < |s| ==> s[i] != CR }

  /** The separator starts with the only CR in it, so it cannot overlap itself. */
  ghost predicate NoSelfOverlap(sep: Bytes) { |sep| > 0 && sep[0] == CR && CrFree(sep[1..]) }

  lemma SeparatorNoOverlap(boundary: Bytes)
    requires CrFree(boundary)
    ensures NoSelfOverlap(Separator(boundary))
  {
    var s := Separator(boundary)[1..];
    assert s == [LF] + DASHES + boundary;
  }

  lemma OccursInPrefix(a: Bytes, b: Bytes, n: Bytes, j: nat)
    requires j + |n| <= |a|
    ensures OccursAt(a + b, n, j) <==> OccursAt(a, n, j)
  {
    assert (a + b)[j..j + |n|] == a[j..j + |n|];
  }

  /** The first separator behind a body is the true one, unless the body contains it. */
  lemma SeparatorFound(data: Bytes, sep: Bytes, tail: Bytes)
    requires NoSelfOverlap(sep) && !Contains(data, sep)
    ensures FindBytes(data + sep + tail, sep) == Some(|data|)
  {
    var all := data + sep + tail;
    assert all[|data|..|data| + |sep|] == sep;
    forall j | 0 <= j < |data| ensures !OccursAt(all, sep, j) {
      assert all == data + (sep + tail);
      if j + |sep| <= |data| {
        OccursInPrefix(data, sep + tail, sep, j);
      } else {
        var k := |data| - j;
        assert sep[1..][k - 1] == sep[k] != CR && all[|data|] == sep[0] == CR;
        assert j + |sep| <= |all| ==> all[j..j + |sep|][k] == all[|data|];
      }
    }
    FindIs(all, sep, |data|);
  }

  /** A body that contains the separator is cut at it. */
  lemma SeparatorTooEarly(data: Bytes, sep: Bytes, tail: Bytes)
    requires sep != [] && Contains(data, sep)
    ensures var r := FindBytes(data + sep + tail, sep); r.Some? && r.value < |data|
  {
    FindsFirst(data + sep + tail, sep, 0);
    var j :| 0 <= j < |data| && OccursAt(data, sep, j);
    assert data + sep + tail == data + (sep + tail);
    OccursInPrefix(data, sep + tail, sep, j);
  }

  lemma BlankFound(hdr: Bytes, tail: Bytes)
    requires HeaderSafe(hdr)
    ensures FindDoubleCrlf(hdr + BLANK + tail) == Some((|hdr|, 4))
  {
    var all := hdr + BLANK + tail;
    assert all[|hdr|..|hdr| + 4] == BLANK;
    forall j | 0 <= j < |hdr| ensures !OccursAt(all, BLANK, j) {
      OccursInPrefix(hdr + BLANK, tail, BLANK, j);
    }
    FindIs(all, BLANK, |hdr|);
  }

  /** A header block that ends in a blank line of bare line feeds is found exactly when there is no blank line
      of the other kind anywhere in the rest of the body, later parts included. */
  lemma BareBlankIff(hdr: Bytes, tail: Bytes)
    requires forall j :: 0 <= j < |hdr| ==> !OccursAt(hdr + [LF, LF], [LF, LF], j)
    ensures var all := hdr + [LF, LF] + tail;
      FindDoubleCrlf(all) == Some((|hdr|, 2)) <==> forall j :: 0 <= j < |all| ==> !OccursAt(all, BLANK, j)
  {
    var all := hdr + [LF, LF] + tail;
    FindsFirst(all, BLANK, 0);
    assert all[|hdr|..|hdr| + 2] == [LF, LF];
    forall j | 0 <= j < |hdr| ensures !OccursAt(all, [LF, LF], j) {
      OccursInPrefix(hdr + [LF, LF], tail, [LF, LF], j);
    }
    FindIs(all, [LF, LF], |hdr|);
    if forall j :: 0 <= j < |all| ==> !OccursAt(all, BLANK, j) {
      assert FindFrom(all, BLANK, 0).None?;
    }
  }

  /** One printed part is found where it was printed, up to the first separator in what follows. */
  lemma PrintedPart(body: Bytes, sep: Bytes, pos: nat, hdr: Bytes, tail: Bytes, e: nat)
    requires sep != [] && pos <= |body| && body[pos..] == CRLF + hdr + BLANK + tail
    requires HeaderSafe(hdr) && FindBytes(tail, sep) == Some(e)
    ensures var h, start := pos + 2, pos + 2 + |hdr| + 4;
      && start + |tail| == |body| && body[start..] == tail && e <= |tail|
      && PartAt(body, sep, pos) == Some((Span(h, h + |hdr|, start, start + e), start + e + |sep|))
      && body[h..h + |hdr|] == hdr && body[start..start + e] == tail[..e]
  {
    PrintedSlices(body, pos, hdr, tail);
    PrintedFound(body, sep, pos, hdr, tail, e);
    FindBound(tail, sep, e);
    Slices(body, pos + 2 + |hdr| + 4, tail, 0, e);
    assert tail[0..e] == tail[..e];
  }

  lemma FindBound(s: Bytes, n: Bytes, e: nat)
    requires n != [] && FindBytes(s, n) == Some(e)
    ensures e <= |s|
  {
  }

  lemma PrintedFound(body: Bytes, sep: Bytes, pos: nat, hdr: Bytes, tail: Bytes, e: nat)
    requires sep != [] && pos + 2 + |hdr| + 4 <= |body| && body[pos..pos + 2] == CRLF
    requires body[pos + 2..] == hdr + BLANK + tail && body[pos + 2 + |hdr| + 4..] == tail
    requires HeaderSafe(hdr) && FindBytes(tail, sep) == Some(e)
    ensures var h, start := pos + 2, pos + 2 + |hdr| + 4;
      PartAt(body, sep, pos) == Some((Span(h, h + |hdr|, start, start + e), start + e + |sep|))
  {
    BlankFound(hdr, tail);
    PartAtIs(body, sep, pos, |hdr|, tail, e);
  }

  lemma PartAtIs(body: Bytes, sep: Bytes, pos: nat, n: nat, tail: Bytes, e: nat)
    requires pos + 2 + n + 4 <= |body| && body[pos..pos + 2] == CRLF && body[pos + 2 + n + 4..] == tail
    requires FindDoubleCrlf(body[pos + 2..]) == Some((n, 4)) && FindBytes(tail, sep) == Some(e)
    ensures PartAt(body, sep, pos) ==
            Some((Span(pos + 2, pos + 2 + n, pos + 2 + n + 4, pos + 2 + n + 4 + e), pos + 2 + n + 4 + e + |sep|))
  {
    BodyFound(body, sep, pos + 2, pos + 2 + n, pos + 2 + n + 4, tail, e);
  }

  lemma BodyFound(body: Bytes, sep: Bytes, hdrStart: nat, hdrEnd: nat, start: nat, tail: Bytes, e: nat)
    requires hdrStart <= hdrEnd <= start <= |body| && body[start..] == tail && FindBytes(tail, sep) == Some(e)
    ensures BodyFrom(body, sep, hdrStart, hdrEnd, start) ==
            (Span(hdrStart, hdrEnd, start, start + e), start + e + |sep|)
  {
  }

  lemma PrintedSlices(body: Bytes, pos: nat, hdr: Bytes, tail: Bytes)
    requires pos <= |body| && body[pos..] == CRLF + hdr + BLANK + tail
    ensures var h, start := pos + 2, pos + 2 + |hdr| + 4;
      && start + |tail| == |body| && body[pos..h] == CRLF && body[h..] == hdr + BLANK + tail
      && body[h..h + |hdr|] == hdr && body[start..] == tail
  {
    var rest := CRLF + hdr + BLANK + tail;
    var h, start := pos + 2, pos + 2 + |hdr| + 4;
    assert |rest| == 2 + |hdr| + 4 + |tail|;
    Slices(body, pos, rest, 0, 2);
    Slices(body, pos, rest, 2, 2 + |hdr|);
    Slices(body, pos, rest, 2, |rest|);
    Slices(body, pos, rest, 2 + |hdr| + 4, |rest|);
    assert rest[0..2] == CRLF;
    assert rest[2..2 + |hdr|] == hdr;
    assert rest[2..|rest|] == hdr + BLANK + tail;
    assert rest[2 + |hdr| + 4..|rest|] == tail;
  }

  lemma Slices(body: Bytes, pos: nat, rest: Bytes, a: nat, b: nat)
    requires pos <= |body| && body[pos..] == rest && a <= b <= |rest|
    ensures body[pos + a..pos + b] == rest[a..b]
    ensures b == |rest| ==> body[pos + a..] == rest[a..b]
  {
    forall i | a <= i < b ensures body[pos + i] == rest[i] { assert body[pos..][i] == body[pos + i]; }
    assert |body| == pos + |rest|;
    var x, y := body[pos + a..pos + b], rest[a..b];
    assert |x| == |y|;
    forall i | 0 <= i < |x| ensures x[i] == y[i] { assert x[i] == body[pos + (a + i)]; }
    assert x == y;
  }

  function Made(make: Maker, parts: seq<RawPart>): seq<Field> {
    if parts == [] then [] else [make(parts[0].0, parts[0].1)] + Made(make, parts[1..])
  }

  ghost predicate AllSafe(parts: seq<RawPart>) {
    forall i :: 0 <= i < |parts| ==> HeaderSafe(parts[i].0)
  }

  ghost predicate KeepsData(make: Maker) { forall h, d :: make(h, d).data == d }

  predicate Clean(parts: seq<RawPart>, sep: Bytes) {
    forall i :: 0 <= i < |parts| ==> !Contains(parts[i].1, sep)
  }

  lemma {:induction false} RestRoundTrip(make: Maker, body: Bytes, sep: Bytes, pos: nat, parts: seq<RawPart>)
    requires NoSelfOverlap(sep) && AllSafe(parts) && KeepsData(make)
    requires pos <= |body| && body[pos..] == PrintRest(sep, parts)
    ensures FieldsFrom(make, body, sep, pos) == Made(make, parts) <==> Clean(parts, sep)
    decreases |parts|
  {
    if parts == [] {
      Slices(body, pos, DASHES + CRLF, 0, 2);
      assert (DASHES + CRLF)[0..2] == DASHES;
      assert DASHES[0] != CRLF[0];
    } else {
      var (hdr, data) := parts[0];
      var more := PrintRest(sep, parts[1..]);
      assert body[pos..] == CRLF + hdr + BLANK + (data + sep + more);
      if Contains(data, sep) {
        CutShort(make, body, sep, pos, hdr, data, more);
        assert Made(make, parts)[0].data == data;
      } else {
        var next := CameBack(make, body, sep, pos, hdr, data, more);
        RestRoundTrip(make, body, sep, next, parts[1..]);
        OneMade(make, body, sep, pos, parts, next);
      }
    }
  }

  lemma CutShort(make: Maker, body: Bytes, sep: Bytes, pos: nat, hdr: Bytes, data: Bytes, more: Bytes)
    requires sep != [] && HeaderSafe(hdr) && KeepsData(make) && Contains(data, sep)
    requires pos <= |body| && body[pos..] == CRLF + hdr + BLANK + (data + sep + more)
    ensures var fs := FieldsFrom(make, body, sep, pos); fs != [] && |fs[0].data| < |data|
  {
    SeparatorTooEarly(data, sep, more);
    PrintedPart(body, sep, pos, hdr, data + sep + more, FindBytes(data + sep + more, sep).value);
  }

  lemma CameBack(make: Maker, body: Bytes, sep: Bytes, pos: nat, hdr: Bytes, data: Bytes, more: Bytes)
    returns (next: nat)
    requires NoSelfOverlap(sep) && HeaderSafe(hdr) && !Contains(data, sep)
    requires pos <= |body| && body[pos..] == CRLF + hdr + BLANK + (data + sep + more)
    ensures next <= |body| && body[next..] == more
    ensures PartAt(body, sep, pos).Some? && PartAt(body, sep, pos).value.1 == next
    ensures FieldAt(make, body, PartAt(body, sep, pos).value.0) == make(hdr, data)
  {
    var tail := data + sep + more;
    SeparatorFound(data, sep, more);
    PrintedPart(body, sep, pos, hdr, tail, |data|);
    var start := pos + 2 + |hdr| + 4;
    next := start + |data| + |sep|;
    Slices(body, start, tail, |data| + |sep|, |tail|);
    assert tail[|data| + |sep|..|tail|] == more;
    assert tail[..|data|] == data;
  }

  lemma OneMade(make: Maker, body: Bytes, sep: Bytes, pos: nat, parts: seq<RawPart>, next: nat)
    requires sep != [] && parts != [] && PartAt(body, sep, pos).Some? && PartAt(body, sep, pos).value.1 == next
    requires FieldAt(make, body, PartAt(body, sep, pos).value.0) == make(parts[0].0, parts[0].1)
    requires FieldsFrom(make, body, sep, next) == Made(make, parts[1..]) <==> Clean(parts[1..], sep)
    requires !Contains(parts[0].1, sep)
    ensures FieldsFrom(make, body, sep, pos) == Made(make, parts) <==> Clean(parts, sep)
  {
    var a, b := FieldsFrom(make, body, sep, pos), Made(make, parts);
    assert a[1..] == FieldsFrom(make, body, sep, next) && b[1..] == Made(make, parts[1..]);
    assert a[0] == b[0];
    assert a == b <==> a[1..] == b[1..] by { assert a == [a[0]] + a[1..] && b == [b[0]] + b[1..]; }
    assert forall i :: 0 <= i < |parts| - 1 ==> parts[1..][i] == parts[i + 1];
    assert forall i :: 1 <= i < |parts| ==> parts[i] == parts[1..][i - 1];
  }

  /** Text in which, in front of `rest`, no delimiter begins. */
  ghost predicate Preamble(pre: Bytes, delim: Bytes, rest: Bytes) {
    forall j :: 0 <= j < |pre| ==> !OccursAt(pre + rest, delim, j)
  }

  /** For every CR-free boundary, any text in front of the first delimiter and every list of parts with
      proper header blocks: the parts come back exactly when no body contains the separator. */
  lemma {:induction false} PartsRoundTripIff(make: Maker, pre: Bytes, boundary: Bytes, parts: seq<RawPart>)
    requires CrFree(boundary) && AllSafe(parts) && KeepsData(make)
    requires Preamble(pre, DASHES + boundary, Print(boundary, parts))
    ensures Parse(make, pre + Print(boundary, parts), boundary) == Made(make, parts) <==>
            Clean(parts, Separator(boundary))
  {
    var delim := DASHES + boundary;
    DelimiterFirst(pre, Print(boundary, parts), delim, PrintRest(Separator(boundary), parts));
    BehindDelimiter(make, pre + Print(boundary, parts), boundary, |pre|, parts);
  }

  lemma BehindDelimiter(make: Maker, body: Bytes, boundary: Bytes, first: nat, parts: seq<RawPart>)
    requires CrFree(boundary) && AllSafe(parts) && KeepsData(make)
    requires FindBytes(body, DASHES + boundary) == Some(first) && first + 2 + |boundary| <= |body|
    requires body[first + 2 + |boundary|..] == PrintRest(Separator(boundary), parts)
    ensures Parse(make, body, boundary) == Made(make, parts) <==> Clean(parts, Separator(boundary))
  {
    ParseIs(make, body, boundary, first);
    SeparatorNoOverlap(boundary);
    RestRoundTrip(make, body, Separator(boundary), first + 2 + |boundary|, parts);
  }

  lemma ParseIs(make: Maker, body: Bytes, boundary: Bytes, first: nat)
    requires FindBytes(body, DASHES + boundary) == Some(first)
    ensures Parse(make, body, boundary) == FieldsFrom(make, body, Separator(boundary), first + 2 + |boundary|)
  {
  }

  lemma DelimiterFirst(pre: Bytes, text: Bytes, delim: Bytes, rest: Bytes)
    requires text == delim + rest && delim != [] && Preamble(pre, delim, text)
    ensures FindBytes(pre + text, delim) == Some(|pre|) && (pre + text)[|pre| + |delim|..] == rest
  {
    assert (pre + text)[|pre|..|pre| + |delim|] == delim;
    FindIs(pre + text, delim, |pre|);
  }

  lemma LastPartAt(body: Bytes, sep: Bytes, pos: nat, n: nat, tail: Bytes)
    requires pos + 2 + n + 4 <= |body| && body[pos..pos + 2] == CRLF && body[pos + 2 + n + 4..] == tail
    requires FindDoubleCrlf(body[pos + 2..]) == Some((n, 4)) && FindBytes(tail, sep).None?
    ensures var start := pos + 2 + n + 4;
      var end := if |tail| >= 2 && tail[|tail| - 2..] == CRLF then |body| - 2 else |body|;
      start <= end && PartAt(body, sep, pos) == Some((Span(pos + 2, pos + 2 + n, start, end), |body|))
  {
  }

  /** A part without a delimiter behind it reaches to the end of the body, except for one line break. */
  lemma LastPartOpen(body: Bytes, sep: Bytes, pos: nat, hdr: Bytes, tail: Bytes)
    requires pos <= |body| && body[pos..] == CRLF + hdr + BLANK + tail
    requires HeaderSafe(hdr) && FindBytes(tail, sep).None?
    ensures var start := pos + 2 + |hdr| + 4;
      var end := if |tail| >= 2 && tail[|tail| - 2..] == [13, 10] then |body| - 2 else |body|;
      start <= end && PartAt(body, sep, pos) == Some((Span(pos + 2, pos + 2 + |hdr|, start, end), |body|))
  {
    PrintedSlices(body, pos, hdr, tail);
    BlankFound(hdr, tail);
    LastPartAt(body, sep, pos, |hdr|, tail);
  }
}
