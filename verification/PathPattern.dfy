/**
  Paths as text: splitting them, parsing patterns, and the simple matcher `match_path`.
 */
module PathPattern {
  import opened Prelude
  import opened Splitting
  import opened RadixTrie

  // ---- Splitting ----

  function TrimStart(s: string): (r: string)
    ensures r == [] || r[0] != '/'
  {
    if s != [] && s[0] == '/' then TrimStart(s[1..]) else s
  }

  /** Only slashes are cut off. */
  lemma {:induction false} TrimStartIs(s: string)
    ensures var n := |s| - |TrimStart(s)|;
      0 <= n && TrimStart(s) == s[n..] && forall i :: 0 <= i < n ==> s[i] == '/'
  {
    if s != [] && s[0] == '/' {
      TrimStartIs(s[1..]);
      var n := |s| - |TrimStart(s)|;
      assert s[1..][n - 1..] == s[n..];
      forall i | 0 <= i < n ensures s[i] == '/' { assert i > 0 ==> s[i] == s[1..][i - 1]; }
    }
  }

  function TrimEnd(s: string): (r: string)
    ensures r == [] || r[|r| - 1] != '/'
    ensures r <= s && forall i :: |r| <= i < |s| ==> s[i] == '/'
  {
    if s != [] && s[|s| - 1] == '/' then TrimEnd(s[..|s| - 1]) else s
  }

  function Split(s: string): seq<string> { SplitOn(s, '/') }

  function SplitPath(path: string): seq<string> {
    var p := TrimStart(path);
    if p == [] then [] else Split(p)
  }

  function ParseSegment(seg: string): PathSegment {
    if seg != [] && seg[0] == ':' then Param(seg[1..])
    else if seg != [] && seg[0] == '*' then Wildcard(seg[1..])
    else Static(seg)
  }

  function ParseSegments(segs: seq<string>): (p: Pattern)
    ensures |p| == |segs| && forall i :: 0 <= i < |p| ==> p[i] == ParseSegment(segs[i])
  {
    if segs == [] then [] else [ParseSegment(segs[0])] + ParseSegments(segs[1..])
  }

  function ParsePattern(pattern: string): Pattern {
    ParseSegments(SplitPath(pattern))
  }

  // ---- Patterns as text ----

  /** How a segment is written: a colon marks a parameter, a star a wildcard. */
  function Shown(seg: PathSegment): string {
    match seg case Static(n) => n case Param(n) => ":" + n case Wildcard(n) => "*" + n
  }

  function ShownAll(p: Pattern): (r: seq<string>)
    ensures |r| == |p| && forall i :: 0 <= i < |p| ==> r[i] == Shown(p[i])
  {
    if p == [] then [] else [Shown(p[0])] + ShownAll(p[1..])
  }

  /** A segment that can be written: no slash in it, and a literal that does not begin like another kind. */
  ghost predicate Writable(seg: PathSegment) {
    '/' !in seg.name && (seg.Static? && seg.name != [] ==> seg.name[0] != ':' && seg.name[0] != '*')
  }

  lemma SegmentReadsBack(seg: PathSegment)
    requires Writable(seg)
    ensures ParseSegment(Shown(seg)) == seg && '/' !in Shown(seg)
  {
    if !seg.Static? { assert Shown(seg)[1..] == seg.name; }
  }

  lemma SegmentIsWritable(s: string)
    requires '/' !in s
    ensures Writable(ParseSegment(s)) && Shown(ParseSegment(s)) == s
  {
    if s != [] { assert s == [s[0]] + s[1..]; }
  }

  lemma {:induction false} SplitJoin(parts: seq<string>)
    requires parts != [] && forall i :: 0 <= i < |parts| ==> '/' !in parts[i]
    ensures Split(Join(parts)) == parts
  {
    if |parts| == 1 {
      SplitNone(parts[0], '/');
    } else {
      SplitJoin(parts[1..]);
      SplitFirst(parts[0], '/', Join(parts[1..]));
      assert parts == [parts[0]] + parts[1..];
    }
  }

  lemma SlashTrimmed(s: string)
    requires s == [] || s[0] != '/'
    ensures TrimStart("/" + s) == s
  {
    assert ("/" + s)[1..] == s;
  }

  lemma JoinFirst(parts: seq<string>)
    requires parts != [] && parts[0] != []
    ensures Join(parts) != [] && Join(parts)[0] == parts[0][0]
  {
  }

  lemma SegmentsReadBack(p: Pattern)
    requires forall i :: 0 <= i < |p| ==> Writable(p[i])
    ensures ParseSegments(ShownAll(p)) == p
  {
    forall i | 0 <= i < |p| ensures ParseSegments(ShownAll(p))[i] == p[i] { SegmentReadsBack(p[i]); }
  }

  /** A pattern that is written down and parsed comes back exactly when each segment can be written and the
      first one is not empty. */
  lemma PatternReadsBackIff(p: Pattern)
    ensures ParsePattern("/" + Join(ShownAll(p))) == p <==>
      (forall i :: 0 <= i < |p| ==> Writable(p[i])) && (p != [] ==> Shown(p[0]) != [])
  {
    if (forall i :: 0 <= i < |p| ==> Writable(p[i])) && (p != [] ==> Shown(p[0]) != []) {
      WrittenReadsBack(p);
    } else if ParsePattern("/" + Join(ShownAll(p))) == p {
      ParsedIsWritable("/" + Join(ShownAll(p)));
    }
  }

  lemma WrittenReadsBack(p: Pattern)
    requires (forall i :: 0 <= i < |p| ==> Writable(p[i])) && (p != [] ==> Shown(p[0]) != [])
    ensures ParsePattern("/" + Join(ShownAll(p))) == p
  {
    var parts := ShownAll(p);
    if p == [] {
      SlashTrimmed("");
    } else {
      forall i | 0 <= i < |p| ensures '/' !in parts[i] { SegmentReadsBack(p[i]); }
      JoinFirst(parts);
      assert parts[0][0] in parts[0];
      SlashTrimmed(Join(parts));
      SplitJoin(parts);
      SegmentsReadBack(p);
    }
  }

  lemma ParsedIsWritable(text: string)
    ensures var p := ParsePattern(text);
      (forall i :: 0 <= i < |p| ==> Writable(p[i])) && (p != [] ==> Shown(p[0]) != [])
  {
    var p, s := ParsePattern(text), TrimStart(text);
    if s != [] {
      forall i | 0 <= i < |p| ensures Writable(p[i]) && Shown(p[i]) == Split(s)[i] {
        PiecesAreFree(s, '/', i);
        SegmentIsWritable(Split(s)[i]);
      }
    }
  }

  lemma JoinPrepend(a: string, parts: seq<string>)
    requires parts != []
    ensures Join([a + parts[0]] + parts[1..]) == a + Join(parts)
  {
    var parts' := [a + parts[0]] + parts[1..];
    assert parts'[1..] == parts[1..];
    if |parts| > 1 { assert (a + parts[0]) + "/" + Join(parts[1..]) == a + (parts[0] + "/" + Join(parts[1..])); }
  }

  /** Splitting loses nothing: joining the pieces gives the text back. */
  lemma {:induction false} JoinSplit(s: string)
    ensures Join(Split(s)) == s
  {
    if s != [] {
      JoinSplit(s[1..]);
      var rest := Split(s[1..]);
      if s[0] == '/' {
        assert ([""] + rest)[1..] == rest;
        assert "" + "/" + Join(rest) == s;
      } else {
        JoinPrepend([s[0]], rest);
        assert [s[0]] + s[1..] == s;
      }
    }
  }

  /** Mounted paths: the pieces of `p/r` are those of `p` then those of `/r`, exactly when `r`
      is not empty and does not start with a slash (`/api/` does not reach a mounted `/`). */
  lemma {:induction false} SplitMounted(p: string, r: string)
    requires TrimStart(p) != []
    ensures SplitPath(p + "/" + r) == SplitPath(p) + SplitPath("/" + r) <==> r != [] && r[0] != '/'
  {
    TrimStartAppend(p, "/" + r);
    assert p + "/" + r == p + ("/" + r);
    assert TrimStart(p) + ("/" + r) == TrimStart(p) + "/" + r;
    SplitAppend(TrimStart(p), '/', r);
    assert SplitPath(p + "/" + r) == SplitPath(p) + Split(r);
    assert ("/" + r)[1..] == r;
    assert TrimStart("/" + r) == TrimStart(r);
    if !(r != [] && r[0] != '/') {
      TrimStartShorter(r);
      SplitLength(r, TrimStart(r));
      assert |SplitPath("/" + r)| < |Split(r)|;
    }
  }

  lemma {:induction false} TrimStartAppend(p: string, q: string)
    requires TrimStart(p) != []
    ensures TrimStart(p + q) == TrimStart(p) + q
  {
    if p[0] == '/' {
      assert (p + q)[1..] == p[1..] + q;
      TrimStartAppend(p[1..], q);
    }
  }

  function Slashes(s: string): nat {
    if s == [] then 0 else (if s[0] == '/' then 1 else 0) + Slashes(s[1..])
  }

  lemma {:induction false} SplitCount(s: string)
    ensures |Split(s)| == Slashes(s) + 1
  {
    if s != [] { SplitCount(s[1..]); }
  }

  lemma {:induction false} TrimStartShorter(s: string)
    ensures Slashes(TrimStart(s)) <= Slashes(s)
    ensures s != [] && s[0] == '/' ==> Slashes(TrimStart(s)) < Slashes(s)
  {
    if s != [] && s[0] == '/' { TrimStartShorter(s[1..]); }
  }

  lemma SplitLength(a: string, b: string)
    ensures |Split(a)| == Slashes(a) + 1 && |Split(b)| == Slashes(b) + 1
  {
    SplitCount(a);
    SplitCount(b);
  }

  // ---- match_path ----

  /** What the simple matcher computes from the pieces of the path. */
  function MatchSpec(segs: Pattern, parts: seq<string>): Option<Captures>
    decreases |segs|
  {
    if segs == [] then (if parts == [] then Some([]) else None)
    else match segs[0]
      case Static(name) => if parts == [] || parts[0] != name then None else MatchSpec(segs[1..], parts[1..])
      case Param(name) =>
        if parts == [] then None
        else (match MatchSpec(segs[1..], parts[1..])
              case None => None
              case Some(c) => Some([(name, parts[0])] + c))
      case Wildcard(name) => Some([(name, Join(parts))])
  }

  /** The loop of `match_path`. */
  method MatchPath(segments: Pattern, urlPath: string) returns (r: Option<Captures>)
    ensures r == MatchSpec(segments, SplitPath(urlPath))
  {
    var parts := SplitPath(urlPath);
    var params: Captures := [];
    var pi := 0;
    assert segments[0..] == segments && parts[0..] == parts;
    assert forall c: Captures :: [] + c == c;
    for k := 0 to |segments|
      invariant pi == k <= |parts|
      invariant MatchSpec(segments, parts) ==
                match MatchSpec(segments[k..], parts[pi..]) case None => None case Some(c) => Some(params + c)
    {
      assert segments[k..][1..] == segments[k + 1..];
      assert pi < |parts| ==> parts[pi..][1..] == parts[pi + 1..];
      match segments[k]
      case Static(name) =>
        if pi >= |parts| || parts[pi] != name { return None; }
        pi := pi + 1;
      case Param(name) =>
        if pi >= |parts| { return None; }
        var c := MatchSpec(segments[k + 1..], parts[pi + 1..]);
        if c.Some? { assert params + ([(name, parts[pi])] + c.value) == params + [(name, parts[pi])] + c.value; }
        params := params + [(name, parts[pi])];
        pi := pi + 1;
      case Wildcard(name) =>
        params := params + [(name, Join(parts[pi..]))];
        return Some(params);
    }
    assert forall c: Captures :: c + [] == c;
    r := if pi == |parts| then Some(params) else None;
  }

  /** A pattern whose wildcard would have to swallow nothing. */
  predicate EmptyRemainder(s: Shape, parts: seq<string>) {
    |s| == |parts| + 1 && s[|parts|].Wild? && Matches(s[..|parts|], parts)
  }

  function NamesIn(p: Pattern): Shape -> Option<string> {
    s => if 0 < |s| <= |p| then Some(p[|s| - 1].name) else None
  }

  /** `match_path` accepts what the trie's relation accepts, and one thing more: a wildcard with
      nothing left to capture. Where both accept, the captures are the same. */
  lemma {:induction false} MatchPathVersusTrie(p: Pattern, parts: seq<string>)
    ensures MatchSpec(p, parts).Some? <==> Matches(ShapeOf(p), parts) || EmptyRemainder(ShapeOf(p), parts)
    ensures Matches(ShapeOf(p), parts) ==>
              MatchSpec(p, parts) == Some(CapturesBy(NamesIn(p), ShapeOf(p), parts, 0))
    decreases |p|
  {
    if p != [] && !p[0].Wildcard? && parts != [] {
      MatchPathVersusTrie(p[1..], parts[1..]);
      EmptyRemainderTail(p, parts);
      if Matches(ShapeOf(p), parts) {
        CapturesTail(p, parts);
        assert forall c: Captures :: [] + c == c;
      }
    } else if p != [] && p[0].Wildcard? {
      assert [Wild][..1] == [Wild] && parts[0..] == parts;
      assert EmptyRemainder([Wild], parts) <==> parts == [];
    }
  }

  lemma EmptyRemainderTail(p: Pattern, parts: seq<string>)
    requires p != [] && !p[0].Wildcard? && parts != []
    ensures var s := ShapeOf(p);
            && s[1..] == ShapeOf(p[1..])
            && (EmptyRemainder(s, parts) <==> (s[0].Lit? ==> parts[0] == s[0].s) && EmptyRemainder(s[1..], parts[1..]))
  {
    var s := ShapeOf(p);
    if |s| == |parts| + 1 { assert s[..|parts|][1..] == s[1..][..|parts| - 1]; }
  }

  lemma CapturesTail(p: Pattern, parts: seq<string>)
    requires p != [] && !p[0].Wildcard? && Matches(ShapeOf(p), parts)
    ensures Matches(ShapeOf(p[1..]), parts[1..])
    ensures CapturesBy(NamesIn(p), ShapeOf(p), parts, 0) ==
            (if p[0].Param? then [(p[0].name, parts[0])] else [])
            + CapturesBy(NamesIn(p[1..]), ShapeOf(p[1..]), parts[1..], 0)
  {
    var s := ShapeOf(p);
    assert s[1..] == ShapeOf(p[1..]) && s[..1] == [s[0]];
    NamesTail(p, s[0]);
    CapturesFirst(NamesIn(p), NamesIn(p[1..]), s, parts, p[0].name);
  }

  lemma CapturesFirst(g: Shape -> Option<string>, f: Shape -> Option<string>, s: Shape, parts: seq<string>,
                      name: string)
    requires s != [] && !s[0].Wild? && Matches(s, parts) && g([s[0]]) == Some(name)
    requires forall x :: x != [] ==> f(x) == g([s[0]] + x)
    ensures CapturesBy(g, s, parts, 0) ==
            (if s[0].Par? then [(name, parts[0])] else []) + CapturesBy(f, s[1..], parts[1..], 0)
  {
    assert s[..1] == [s[0]];
    CapturesShift(f, g, s, parts, 0);
  }

  lemma NamesTail(p: Pattern, a: Step)
    requires p != []
    ensures forall x :: x != [] ==> NamesIn(p[1..])(x) == NamesIn(p)([a] + x)
  {
  }
}
