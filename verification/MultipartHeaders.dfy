/**
  Header blocks of a multipart field, printed and read back.
 */
module MultipartHeaders {
  import opened Prelude
  import opened Splitting
  import opened Utf8
  import opened Multipart
  import opened MultipartRoundTrip

  // ---- Trimming and splitting ----

  ghost predicate Edged(s: Bytes, drop: byte -> bool) {
    s == [] || (!drop(s[0]) && !drop(s[|s| - 1]))
  }

  lemma TrimLeading(x: byte, s: Bytes, drop: byte -> bool)
    requires drop(x)
    ensures TrimBoth([x] + s, drop) == TrimBoth(s, drop)
  {
    assert ([x] + s)[1..] == s;
  }

  lemma TrimTrailing(s: Bytes, x: byte, drop: byte -> bool)
    requires drop(x) && s != [] && Edged(s, drop)
    ensures TrimBoth(s + [x], drop) == s
  {
    var t := s + [x];
    assert t[0] == s[0] && t[|t| - 1] == x && t[..|t| - 1] == s;
    assert TrimLeft(t, drop) == t && TrimRight(s, drop) == s;
  }

  /** Quotes around a value without quotes are taken off, and only those. */
  lemma Unquoted(v: Bytes)
    requires QUOTE !in v
    ensures TrimQuotes([QUOTE] + v + [QUOTE]) == v
  {
    var drop := (b: byte) => b == QUOTE;
    assert [QUOTE] + v + [QUOTE] == [QUOTE] + (v + [QUOTE]);
    TrimLeading(QUOTE, v + [QUOTE], drop);
    if v == [] {
      assert v + [QUOTE] == [QUOTE] + [];
      TrimLeading(QUOTE, [], drop);
    } else {
      assert v[0] in v && v[|v| - 1] in v;
      TrimTrailing(v, QUOTE, drop);
    }
  }

  // ---- The printer ----

  /** Values that survive quoting: no quote, no semicolon, no line break. */
  ghost predicate QuotedValue(v: Bytes) { QUOTE !in v && SEMI !in v && CR !in v && LF !in v }

  /** A content type: on one line, not empty, without spaces around it. */
  ghost predicate TypeValue(v: Bytes) { v != [] && CR !in v && LF !in v && SpaceFree(v) }

  ghost predicate Printable(f: Field) {
    && (f.name.Some? ==> QuotedValue(f.name.value))
    && (f.fileName.Some? ==> QuotedValue(f.fileName.value))
    && (f.contentType.Some? ==> TypeValue(f.contentType.value))
  }

  function Item(prefix: Bytes, v: Bytes): Bytes { prefix + [QUOTE] + v + [QUOTE] }

  function NameItem(v: Bytes): Bytes { Item(B("name="), v) }

  function FileItem(v: Bytes): Bytes { Item(B("filename="), v) }

  function FormData(): Bytes { B("form-data") }

  /** `form-data; name="…"; filename="…"`. */
  function DispositionValue(f: Field): Bytes {
    FormData()
    + (if f.name.Some? then [SEMI] + ([32] + NameItem(f.name.value)) else [])
    + (if f.fileName.Some? then [SEMI] + ([32] + FileItem(f.fileName.value)) else [])
  }

  /** Header names in either spelling that is read. */
  function DispositionName(low: bool): Bytes { if low then B("content-disposition:") else B("Content-Disposition:") }

  function TypeName(low: bool): Bytes { if low then B("content-type:") else B("Content-Type:") }

  function DispositionLine(f: Field, low: bool): Bytes { DispositionName(low) + ([32] + DispositionValue(f)) }

  function TypeLine(ct: Bytes, low: bool): Bytes { TypeName(low) + ([32] + ct) }

  function HeaderBlock(f: Field, low: bool): Bytes {
    DispositionLine(f, low) + (if f.contentType.Some? then CRLF + TypeLine(f.contentType.value, low) else [])
  }

  lemma NamesAre(low: bool)
    ensures var d, t := DispositionName(low), TypeName(low);
      && |d| == 20 && |t| == 13 && d[0] == t[0] == (if low then 'c' else 'C') as int
      && d[8] == (if low then 'd' else 'D') as int && t[8] == (if low then 't' else 'T') as int
      && LF !in d && CR !in d && LF !in t && CR !in t
  {
  }

  // ---- Reading items ----

  lemma ItemEdged(prefix: Bytes, v: Bytes)
    requires prefix != [] && prefix[0] < 128 && !AsciiSpace(prefix[0])
    ensures SpaceFree(Item(prefix, v)) && Item(prefix, v) != []
  {
    var item := Item(prefix, v);
    assert item[0] == prefix[0] && item[|item| - 1] == QUOTE;
    AsciiFront(item);
    AsciiBack(item);
  }

  lemma ReadsName(d: Disposition, v: Bytes)
    requires QuotedValue(v)
    ensures ReadItem(d, [32] + NameItem(v)) == d.(name := Some(v))
  {
    var item := NameItem(v);
    assert B("name=")[0] == 'n' as int;
    ItemEdged(B("name="), v);
    TrimOneSpace(item);
    TrimSpaceFree(item);
    ItemValue(B("name="), v);
  }

  lemma ReadsFile(d: Disposition, v: Bytes)
    requires QuotedValue(v)
    ensures ReadItem(d, [32] + FileItem(v)) == d.(fileName := Some(v))
  {
    var item := FileItem(v);
    assert B("filename=")[0] == 'f' as int && B("name=")[0] == 'n' as int;
    ItemEdged(B("filename="), v);
    TrimOneSpace(item);
    TrimSpaceFree(item);
    ItemValue(B("filename="), v);
    assert item[0] == 'f' as int;
    assert !(B("name=") <= item);
  }

  lemma ItemValue(prefix: Bytes, v: Bytes)
    requires QUOTE !in v
    ensures After(Item(prefix, v), prefix) == Some([QUOTE] + v + [QUOTE])
    ensures TrimQuotes(TrimSpace([QUOTE] + v + [QUOTE])) == v
  {
    assert Item(prefix, v) == prefix + ([QUOTE] + v + [QUOTE]);
    assert Item(prefix, v)[|prefix|..] == [QUOTE] + v + [QUOTE];
    var q := [QUOTE] + v + [QUOTE];
    AsciiFront(q);
    AsciiBack(q);
    TrimSpaceFree(q);
    Unquoted(v);
  }

  lemma SkipsFormData(d: Disposition)
    ensures ReadItem(d, FormData()) == d
  {
    var f := FormData();
    assert f[0] == 'f' as int && f[1] == 'o' as int && f[8] == 'a' as int;
    AsciiFront(f);
    AsciiBack(f);
    TrimSpaceFree(f);
    assert B("name=")[0] == 'n' as int && B("filename=")[1] == 'i' as int;
    assert !(B("name=") <= f) && !(B("filename=") <= f);
  }

  /** The disposition value is read back into the name and the file name. */
  lemma DispositionReadsBack(f: Field)
    requires Printable(f)
    ensures ReadItems(Disposition(None, None), SplitOn(DispositionValue(f), SEMI)) == Disposition(f.name, f.fileName)
  {
    var d0 := Disposition(None, None);
    var parts := [FormData()]
      + (if f.name.Some? then [[32] + NameItem(f.name.value)] else [])
      + (if f.fileName.Some? then [[32] + FileItem(f.fileName.value)] else []);
    DispositionSplits(f);
    SkipsFormData(d0);
    assert parts[0] == FormData();
    if f.name.Some? {
      ReadsName(d0, f.name.value);
      assert parts[1..][0] == [32] + NameItem(f.name.value);
    }
    if f.fileName.Some? { ReadsFile(Disposition(f.name, None), f.fileName.value); }
    ItemsFold(d0, parts, f);
  }

  lemma ItemsFold(d0: Disposition, parts: seq<Bytes>, f: Field)
    requires parts == [FormData()]
      + (if f.name.Some? then [[32] + NameItem(f.name.value)] else [])
      + (if f.fileName.Some? then [[32] + FileItem(f.fileName.value)] else [])
    requires d0 == Disposition(None, None) && ReadItem(d0, FormData()) == d0
    requires f.name.Some? ==> ReadItem(d0, [32] + NameItem(f.name.value)) == Disposition(f.name, None)
    requires f.fileName.Some? ==>
               ReadItem(Disposition(f.name, None), [32] + FileItem(f.fileName.value)) == Disposition(f.name, f.fileName)
    ensures ReadItems(d0, parts) == Disposition(f.name, f.fileName)
  {
    var d1 := Disposition(f.name, None);
    var files := if f.fileName.Some? then [[32] + FileItem(f.fileName.value)] else [];
    var names := if f.name.Some? then [[32] + NameItem(f.name.value)] else [];
    assert parts == [FormData()] + (names + files);
    ReadOne(d0, FormData(), names + files);
    AtMostOne(d0, names, files, d1);
    AtMostOne(d1, files, [], Disposition(f.name, f.fileName));
    assert files + [] == files;
  }

  lemma ReadOne(d: Disposition, x: Bytes, rest: seq<Bytes>)
    ensures ReadItems(d, [x] + rest) == ReadItems(ReadItem(d, x), rest)
  {
    assert ([x] + rest)[1..] == rest;
  }

  lemma AtMostOne(d: Disposition, xs: seq<Bytes>, rest: seq<Bytes>, d': Disposition)
    requires |xs| <= 1 && d' == if xs == [] then d else ReadItem(d, xs[0])
    ensures ReadItems(d, xs + rest) == ReadItems(d', rest)
  {
    if xs == [] {
      assert xs + rest == rest;
    } else {
      assert xs == [xs[0]];
      ReadOne(d, xs[0], rest);
    }
  }

  lemma NoSemi(prefix: Bytes, v: Bytes)
    requires SEMI !in prefix && SEMI !in v
    ensures SEMI !in [32] + Item(prefix, v)
  {
  }

  lemma DispositionSplits(f: Field)
    requires Printable(f)
    ensures SplitOn(DispositionValue(f), SEMI) == [FormData()]
      + (if f.name.Some? then [[32] + NameItem(f.name.value)] else [])
      + (if f.fileName.Some? then [[32] + FileItem(f.fileName.value)] else [])
  {
    assert SEMI !in FormData() && SEMI !in B("name=") && SEMI !in B("filename=");
    if f.name.Some? { NoSemi(B("name="), f.name.value); }
    if f.fileName.Some? { NoSemi(B("filename="), f.fileName.value); }
    ValueJoins(f);
    if f.name.Some? && f.fileName.Some? {
      SplitThree(FormData(), [32] + NameItem(f.name.value), [32] + FileItem(f.fileName.value));
    } else if f.name.Some? {
      SplitTwo(FormData(), [32] + NameItem(f.name.value));
    } else if f.fileName.Some? {
      SplitTwo(FormData(), [32] + FileItem(f.fileName.value));
    } else {
      SplitNone(FormData(), SEMI);
    }
  }

  lemma ValueJoins(f: Field)
    ensures DispositionValue(f) ==
      if f.name.Some? && f.fileName.Some? then
        FormData() + [SEMI] + (([32] + NameItem(f.name.value)) + [SEMI] + ([32] + FileItem(f.fileName.value)))
      else if f.name.Some? then FormData() + [SEMI] + ([32] + NameItem(f.name.value))
      else if f.fileName.Some? then FormData() + [SEMI] + ([32] + FileItem(f.fileName.value))
      else FormData()
  {
    if f.name.Some? && f.fileName.Some? {
      JoinThree(FormData(), [32] + NameItem(f.name.value), [32] + FileItem(f.fileName.value));
    }
  }

  lemma JoinThree(a: Bytes, x: Bytes, y: Bytes)
    ensures a + ([SEMI] + x) + ([SEMI] + y) == a + [SEMI] + (x + [SEMI] + y)
  {
  }

  lemma SplitTwo(a: Bytes, b: Bytes)
    requires SEMI !in a && SEMI !in b
    ensures SplitOn(a + [SEMI] + b, SEMI) == [a, b]
  {
    SplitFirst(a, SEMI, b);
    SplitNone(b, SEMI);
  }

  lemma SplitThree(a: Bytes, b: Bytes, c: Bytes)
    requires SEMI !in a && SEMI !in b && SEMI !in c
    ensures SplitOn(a + [SEMI] + (b + [SEMI] + c), SEMI) == [a, b, c]
  {
    SplitFirst(a, SEMI, b + [SEMI] + c);
    SplitTwo(b, c);
  }

  // ---- Reading lines ----

  lemma LinesAreClean(f: Field, low: bool)
    requires Printable(f)
    ensures LF !in DispositionLine(f, low) && CR !in DispositionLine(f, low)
    ensures f.contentType.Some? ==>
      var t := TypeLine(f.contentType.value, low); LF !in t && CR !in t
    ensures SpaceFree(DispositionLine(f, low)) && SpaceFree(DispositionValue(f))
  {
    ValueClean(f);
    NamesAre(low);
    AsciiFront(DispositionLine(f, low));
    BackBehindSpace(DispositionName(low), DispositionValue(f));
  }

  /** Free of line breaks, and ending in a quote if it is not empty. */
  ghost predicate CleanTail(s: Bytes) { LF !in s && CR !in s && (s == [] || s[|s| - 1] == QUOTE) }

  lemma ItemClean(prefix: Bytes, v: Bytes)
    requires LF !in prefix && CR !in prefix && QuotedValue(v)
    ensures CleanTail([SEMI] + ([32] + Item(prefix, v)))
  {
    assert LF !in Item(prefix, v) && CR !in Item(prefix, v);
  }

  lemma JoinedClean(a: Bytes, n: Bytes, g: Bytes)
    requires LF !in a && CR !in a && a != [] && CleanTail(n) && CleanTail(g)
    requires a[0] < 128 && !AsciiSpace(a[0]) && a[|a| - 1] < 128 && !AsciiSpace(a[|a| - 1])
    ensures LF !in a + n + g && CR !in a + n + g && a + n + g != [] && SpaceFree(a + n + g)
  {
    var s := a + n + g;
    assert s[0] == a[0];
    assert s[|s| - 1] == if g != [] then g[|g| - 1] else if n != [] then n[|n| - 1] else a[|a| - 1];
    AsciiFront(s);
    AsciiBack(s);
  }

  lemma ValueClean(f: Field)
    requires Printable(f)
    ensures LF !in DispositionValue(f) && CR !in DispositionValue(f) && DispositionValue(f) != []
    ensures SpaceFree(DispositionValue(f))
  {
    assert LF !in FormData() && CR !in FormData();
    assert FormData()[0] == 'f' as int && FormData()[8] == 'a' as int;
    var n := if f.name.Some? then [SEMI] + ([32] + NameItem(f.name.value)) else [];
    var g := if f.fileName.Some? then [SEMI] + ([32] + FileItem(f.fileName.value)) else [];
    if f.name.Some? { ItemClean(B("name="), f.name.value); }
    if f.fileName.Some? { ItemClean(B("filename="), f.fileName.value); }
    JoinedClean(FormData(), n, g);
  }

  /** A line is recognised by the spelling it uses, and by no other. */
  lemma DispositionNamed(v: Bytes, low: bool)
    ensures var l := DispositionName(low) + ([32] + v);
      OneOf(After(l, DispositionName(false)), After(l, DispositionName(true))) == After(l, DispositionName(low))
  {
    var l := DispositionName(low) + ([32] + v);
    NamesAre(true);
    NamesAre(false);
    assert l[0] == DispositionName(low)[0];
    assert low ==> !(DispositionName(false) <= l);
  }

  lemma TypeNamed(v: Bytes, low: bool)
    ensures var l := TypeName(low) + ([32] + v);
      && OneOf(After(l, DispositionName(false)), After(l, DispositionName(true))).None?
      && OneOf(After(l, TypeName(false)), After(l, TypeName(true))) == After(l, TypeName(low))
  {
    var l := TypeName(low) + ([32] + v);
    NamesAre(true);
    NamesAre(false);
    assert l[0] == TypeName(low)[0] && l[8] == TypeName(low)[8];
    assert !(DispositionName(false) <= l) && !(DispositionName(true) <= l);
    assert low ==> !(TypeName(false) <= l);
  }

  lemma ReadsDispositionLine(h: Headers, f: Field, line: Bytes, low: bool)
    requires Printable(f) && (line == DispositionLine(f, low) || line == DispositionLine(f, low) + [CR])
    ensures ReadLine(h, line) == h.(disposition := Some(DispositionValue(f)))
  {
    var l, v := DispositionLine(f, low), DispositionValue(f);
    LinesAreClean(f, low);
    NamesAre(low);
    assert l[0] == DispositionName(low)[0];
    if line == l { TrimSpaceFree(l); } else { TrimAsciiEnd(l, CR); }
    LineValue(DispositionName(low), v);
    DispositionNamed(v, low);
  }

  lemma LineValue(prefix: Bytes, v: Bytes)
    requires SpaceFree(v)
    ensures After(prefix + ([32] + v), prefix) == Some([32] + v) && TrimSpace([32] + v) == v
  {
    assert (prefix + ([32] + v))[|prefix|..] == [32] + v;
    TrimOneSpace(v);
    TrimSpaceFree(v);
  }

  lemma ReadsTypeLine(h: Headers, ct: Bytes, low: bool)
    requires TypeValue(ct)
    ensures ReadLine(h, TypeLine(ct, low)) == h.(contentType := Some(ct))
  {
    var l := TypeLine(ct, low);
    NamesAre(low);
    assert l[0] == TypeName(low)[0] && l[|l| - 1] == ct[|ct| - 1];
    AsciiFront(l);
    BackBehindSpace(TypeName(low), ct);
    TrimSpaceFree(l);
    LineValue(TypeName(low), ct);
    TypeNamed(ct, low);
  }

  /** A printed header block is read back into the field's name, file name and content type. */
  lemma HeadersReadBack(utf8: Bytes -> bool, f: Field, low: bool)
    requires Printable(f) && utf8(HeaderBlock(f, low))
    ensures MakeField(utf8, HeaderBlock(f, low), f.data) == f
  {
    BlockLines(f, low);
    LinesReadBack(f, low);
    DispositionReadsBack(f);
  }

  function BlockLinesOf(f: Field, low: bool): seq<Bytes> {
    if f.contentType.Some? then [DispositionLine(f, low) + [CR], TypeLine(f.contentType.value, low)]
    else [DispositionLine(f, low)]
  }

  lemma BlockLines(f: Field, low: bool)
    requires Printable(f)
    ensures SplitOn(HeaderBlock(f, low), LF) == BlockLinesOf(f, low)
  {
    var l := DispositionLine(f, low);
    LinesAreClean(f, low);
    if f.contentType.Some? {
      var t := TypeLine(f.contentType.value, low);
      assert l + (CRLF + t) == (l + [CR]) + [LF] + t;
      SplitFirst(l + [CR], LF, t);
      SplitNone(t, LF);
    } else {
      assert l + [] == l;
      SplitNone(l, LF);
    }
  }

  lemma LinesReadBack(f: Field, low: bool)
    requires Printable(f)
    ensures ReadLines(Headers(None, None), BlockLinesOf(f, low)) == Headers(Some(DispositionValue(f)), f.contentType)
  {
    var lines: seq<Bytes> := BlockLinesOf(f, low);
    var h0, h1 := Headers(None, None), Headers(Some(DispositionValue(f)), None);
    ReadsDispositionLine(h0, f, lines[0], low);
    assert ReadLines(h0, lines) == ReadLines(h1, lines[1..]);
    if f.contentType.Some? {
      ReadsTypeLine(h1, f.contentType.value, low);
      assert lines[1..][0] == TypeLine(f.contentType.value, low) && lines[1..][1..] == [];
      assert ReadLines(h1, lines[1..]) == ReadLines(ReadLine(h1, TypeLine(f.contentType.value, low)), []);
    }
  }

  // ---- The whole round trip ----

  lemma BlockIsSafe(f: Field, low: bool)
    requires Printable(f)
    ensures HeaderSafe(HeaderBlock(f, low))
  {
    LinesAreClean(f, low);
    var l := DispositionLine(f, low);
    if f.contentType.Some? {
      TwoLinesSafe(l, TypeLine(f.contentType.value, low));
      assert HeaderBlock(f, low) == l + CRLF + TypeLine(f.contentType.value, low);
    } else {
      assert HeaderBlock(f, low) == l;
      forall j | 0 <= j < |l| ensures !OccursAt(l + BLANK, BLANK, j) {
        assert (l + BLANK)[j] == l[j];
        NoBlankAt(l + BLANK, j);
      }
    }
  }

  lemma NoBlankAt(all: Bytes, j: nat)
    requires j + 4 <= |all| ==> all[j] != CR || all[j + 2] != CR
    ensures !OccursAt(all, BLANK, j)
  {
    if j + 4 <= |all| { assert all[j..j + 4][0] == all[j] && all[j..j + 4][2] == all[j + 2]; }
  }

  lemma TwoLinesSafe(a: Bytes, b: Bytes)
    requires CR !in a && CR !in b && b != []
    ensures HeaderSafe(a + CRLF + b)
  {
    var hdr := a + CRLF + b;
    var all := hdr + BLANK;
    forall j | 0 <= j < |hdr| ensures !OccursAt(all, BLANK, j) {
      if j < |a| {
        assert all[j] == a[j];
      } else if j == |a| {
        assert all[j + 2] == b[0];
      } else if j == |a| + 1 {
        assert all[j] == LF;
      } else {
        assert all[j] == b[j - |a| - 2];
      }
      NoBlankAt(all, j);
    }
  }

  /** Each field with its own spelling of the header names. */
  function RawParts(fs: seq<Field>, low: seq<bool>): (r: seq<RawPart>)
    requires |low| == |fs|
    ensures |r| == |fs| && forall i :: 0 <= i < |fs| ==> r[i] == (HeaderBlock(fs[i], low[i]), fs[i].data)
  {
    if fs == [] then [] else [(HeaderBlock(fs[0], low[0]), fs[0].data)] + RawParts(fs[1..], low[1..])
  }

  lemma {:induction false} MadeEach(make: Maker, parts: seq<RawPart>, fs: seq<Field>)
    requires |parts| == |fs| && forall i :: 0 <= i < |fs| ==> make(parts[i].0, parts[i].1) == fs[i]
    ensures Made(make, parts) == fs
    decreases |fs|
  {
    if fs != [] {
      MadeEach(make, parts[1..], fs[1..]);
      assert fs == [fs[0]] + fs[1..];
    }
  }

  lemma {:induction false} MadeFields(utf8: Bytes -> bool, fs: seq<Field>, low: seq<bool>)
    requires |low| == |fs| && forall i :: 0 <= i < |fs| ==> Printable(fs[i]) && utf8(HeaderBlock(fs[i], low[i]))
    ensures Made(FieldMaker(utf8), RawParts(fs, low)) == fs
  {
    forall i | 0 <= i < |fs| ensures FieldMaker(utf8)(HeaderBlock(fs[i], low[i]), fs[i].data) == fs[i] {
      HeadersReadBack(utf8, fs[i], low[i]);
    }
    MadeEach(FieldMaker(utf8), RawParts(fs, low), fs);
  }

  /** Fields with printable headers, in either spelling, printed with a CR-free boundary, are parsed back
      exactly when the separator occurs in none of their bodies. */
  lemma {:induction false} FieldsRoundTrip(utf8: Bytes -> bool, pre: Bytes, boundary: Bytes, fs: seq<Field>,
                                           low: seq<bool>)
    requires CrFree(boundary) && |low| == |fs| && Preamble(pre, DASHES + boundary, Print(boundary, RawParts(fs, low)))
    requires forall i :: 0 <= i < |fs| ==> Printable(fs[i]) && utf8(HeaderBlock(fs[i], low[i]))
    ensures Parse(FieldMaker(utf8), pre + Print(boundary, RawParts(fs, low)), boundary) == fs <==>
            forall i :: 0 <= i < |fs| ==> !Contains(fs[i].data, Separator(boundary))
  {
    forall i | 0 <= i < |fs| ensures HeaderSafe(RawParts(fs, low)[i].0) { BlockIsSafe(fs[i], low[i]); }
    MadeFields(utf8, fs, low);
    PartsRoundTripIff(FieldMaker(utf8), pre, boundary, RawParts(fs, low));
  }

  // ---- Which header names are read ----

  const COLON: byte := 58

  /** Text with a colon at its end and nowhere else. */
  ghost predicate EndsInColon(p: Bytes) { p != [] && p[|p| - 1] == COLON && COLON !in p[..|p| - 1] }

  /** A line starts with such text exactly when that is what stands up to its first colon. */
  lemma NamePrefixIff(name: Bytes, rest: Bytes, p: Bytes)
    requires COLON !in name && EndsInColon(p)
    ensures p <= name + [COLON] + rest <==> p == name + [COLON]
  {
    var l, k := name + [COLON] + rest, |p| - 1;
    if p <= l {
      assert l[k] == p[k] == COLON && l[|name|] == COLON;
      assert forall i :: 0 <= i < |name| ==> l[i] == name[i];
      assert forall i :: 0 <= i < k ==> p[..k][i] == l[i];
      assert k == |name|;
      assert p == l[..k + 1] == name + [COLON];
    }
  }

  lemma NamesEndInColon(low: bool)
    ensures EndsInColon(DispositionName(low)) && EndsInColon(TypeName(low))
  {
  }

  /** A header line counts exactly when its name is spelled in one of two ways; any other spelling, also one
      that differs only in case, is skipped. */
  lemma HeaderNameIff(name: Bytes, v: Bytes)
    requires COLON !in name && SpaceFree(v) && SpaceFree(name + [COLON] + ([32] + v))
    ensures ReadLine(Headers(None, None), name + [COLON] + ([32] + v)) ==
      var n := name + [COLON];
      if n == DispositionName(true) || n == DispositionName(false) then Headers(Some(v), None)
      else if n == TypeName(true) || n == TypeName(false) then Headers(None, Some(v))
      else Headers(None, None)
  {
    var l, rest := name + [COLON] + ([32] + v), [32] + v;
    NamesEndInColon(true);
    NamesEndInColon(false);
    NamePrefixIff(name, rest, DispositionName(true));
    NamePrefixIff(name, rest, DispositionName(false));
    NamePrefixIff(name, rest, TypeName(true));
    NamePrefixIff(name, rest, TypeName(false));
    TrimSpaceFree(l);
    LineValue(name + [COLON], v);
  }
}
