/**
  The router: one tree per HTTP method, with routes registered and routers mounted in place.
 */
module Router {
  import opened Prelude
  import opened Splitting
  import opened RadixTrie
  import opened RouteTable
  import opened RouteNesting
  import opened PathPattern

  datatype Method = GET | POST | PUT | DELETE | PATCH | HEAD | OPTIONS | TRACE

  type Forest = map<Method, Tree>

  function TreeFor(f: Forest, m: Method): Tree { if m in f then f[m] else EMPTY }

  function LookupIn(f: Forest, m: Method, path: string): Option<(Handler, Captures)> {
    if m in f then Lookup(f[m], SplitPath(path)) else None
  }

  /** HEAD falls back to GET when it has no route of its own. */
  function Dispatch(f: Forest, m: Method, path: string): Option<(Handler, Captures)> {
    var own := LookupIn(f, m, path);
    if own.Some? then own else if m == HEAD then LookupIn(f, GET, path) else None
  }

  // ---- A router and its registrations ----

  datatype Registration = Registration(verb: Method, pattern: string, handler: Handler)

  function Register(f: Forest, r: Registration): Forest {
    f[r.verb := Insert(TreeFor(f, r.verb), ParsePattern(r.pattern), r.handler)]
  }

  /** A new router after the registrations. */
  function ForestOf(regs: seq<Registration>): Forest {
    if regs == [] then map[] else Register(ForestOf(regs[..|regs| - 1]), regs[|regs| - 1])
  }

  /** The registrations of one method, as patterns. */
  function RoutesOf(regs: seq<Registration>, m: Method): Routes {
    if regs == [] then []
    else
      var last := regs[|regs| - 1];
      RoutesOf(regs[..|regs| - 1], m) + (if last.verb == m then [(ParsePattern(last.pattern), last.handler)] else [])
  }

  lemma RegisterAt(f: Forest, r: Registration, m: Method)
    ensures TreeFor(Register(f, r), m) ==
            if r.verb == m then Insert(TreeFor(f, m), ParsePattern(r.pattern), r.handler) else TreeFor(f, m)
    ensures m in Register(f, r) <==> m == r.verb || m in f
  {
  }

  lemma {:induction false} ForestIsBuilt(regs: seq<Registration>, m: Method)
    ensures TreeFor(ForestOf(regs), m) == Build(EMPTY, RoutesOf(regs, m))
    ensures m in ForestOf(regs) <==> RoutesOf(regs, m) != []
  {
    if regs != [] {
      var init, last := regs[..|regs| - 1], regs[|regs| - 1];
      ForestIsBuilt(init, m);
      RegisterAt(ForestOf(init), last, m);
      if last.verb == m {
        BuildSnoc(EMPTY, RoutesOf(init, m), (ParsePattern(last.pattern), last.handler));
      } else {
        assert RoutesOf(init, m) + [] == RoutesOf(init, m);
      }
    }
  }

  lemma LookupInIsScan(regs: seq<Registration>, m: Method, path: string)
    ensures LookupIn(ForestOf(regs), m, path) == ScanAnswer(RoutesOf(regs, m), SplitPath(path))
  {
    ForestIsBuilt(regs, m);
    TrieAnswersScan(RoutesOf(regs, m), SplitPath(path));
  }

  /** What a request must be answered: the best of the routes registered for its method, and for HEAD, if
      there is none, the best of those registered for GET. */
  ghost predicate AnswersFor(regs: seq<Registration>, m: Method, path: string, r: Option<(Handler, Captures)>) {
    var own, get := ScanAnswer(RoutesOf(regs, m), SplitPath(path)), ScanAnswer(RoutesOf(regs, GET), SplitPath(path));
    && (own.Some? ==> r == own)
    && (own.None? && m.HEAD? ==> r == get)
    && (own.None? && !m.HEAD? ==> r == None)
  }

  /** For every list of registrations and every request, the router answers what linear scans over the
      registrations answer. */
  lemma DispatchIsScan(regs: seq<Registration>, m: Method, path: string)
    ensures AnswersFor(regs, m, path, Dispatch(ForestOf(regs), m, path))
  {
    LookupInIsScan(regs, m, path);
    LookupInIsScan(regs, GET, path);
  }

  ghost predicate Mounted(f: Forest, f': Forest, p: Pattern, g: Forest, done: set<Method>) {
    && f'.Keys == f.Keys + done
    && forall m :: m in f' ==> f'[m] == if m in done && m in g then Nest(TreeFor(f, m), p, g[m]) else TreeFor(f, m)
  }

  /** The trees are held by value here; RadixNode proves the node objects against the same functions. */
  class Router {
    var trees: Forest
    var fallback: Option<Handler>

    ghost predicate Valid()
      reads this
    {
      AllWellFormed(trees)
    }

    constructor ()
      ensures Valid() && trees == ForestOf([]) && fallback == None
    {
      trees, fallback := map[], None;
    }

    /** Registers a route. */
    method Route(m: Method, pattern: string, h: Handler)
      requires Valid()
      modifies this`trees
      ensures Valid() && trees == old(trees)[m := Insert(TreeFor(old(trees), m), ParsePattern(pattern), h)]
      ensures forall regs :: old(trees) == ForestOf(regs) ==> trees == ForestOf(regs + [Registration(m, pattern, h)])
    {
      forall regs | trees == ForestOf(regs)
        ensures Register(trees, Registration(m, pattern, h)) == ForestOf(regs + [Registration(m, pattern, h)])
      {
        assert (regs + [Registration(m, pattern, h)])[..|regs|] == regs;
      }
      InsertWellFormed(TreeFor(trees, m), ParsePattern(pattern), h);
      trees := trees[m := Insert(TreeFor(trees, m), ParsePattern(pattern), h)];
    }

    /** Mounts `other` under `prefix`: every method's tree is flattened and re-inserted. */
    method NestUnder(prefix: string, other: Router)
      requires Valid() && other.Valid() && other != this
      modifies this`trees
      ensures Valid() && Mounted(old(trees), trees, ParsePattern(TrimEnd(prefix)), other.trees, other.trees.Keys)
    {
      trees := MountAll(trees, ParsePattern(TrimEnd(prefix)), other.trees);
    }

    /** Finds the best route for a request. */
    method LookupRoute(m: Method, path: string) returns (r: Option<(Handler, Captures)>)
      ensures r == Dispatch(trees, m, path)
      ensures forall regs :: trees == ForestOf(regs) ==> AnswersFor(regs, m, path, r)
    {
      forall regs | trees == ForestOf(regs) ensures AnswersFor(regs, m, path, Dispatch(trees, m, path)) {
        DispatchIsScan(regs, m, path);
      }
      r := LookupIn(trees, m, path);
      if r.None? && m == HEAD {
        r := LookupIn(trees, GET, path);
      }
    }
  }

  ghost predicate AllWellFormed(f: Forest) { forall m :: m in f ==> WellFormed(f[m]) }

  /** The loop of `nest` over the mounted router's trees, in whatever order they come. */
  method MountAll(f: Forest, p: Pattern, g: Forest) returns (f': Forest)
    requires AllWellFormed(f) && AllWellFormed(g)
    ensures AllWellFormed(f') && Mounted(f, f', p, g, g.Keys)
  {
    f' := f;
    var todo := g.Keys;
    ghost var done: set<Method> := {};
    while todo != {}
      invariant AllWellFormed(f') && Mounted(f, f', p, g, done)
      invariant todo !! done && todo + done == g.Keys
      decreases todo
    {
      var m :| m in todo;
      var root := MountTree(TreeFor(f', m), p, g[m]);
      MountOne(f, f', f'[m := root], p, g, done, m);
      UpdatedWellFormed(f', m, root);
      f' := f'[m := root];
      todo, done := todo - {m}, done + {m};
    }
  }

  lemma UpdatedWellFormed(f: Forest, m: Method, t: Tree)
    requires AllWellFormed(f) && WellFormed(t)
    ensures AllWellFormed(f[m := t])
  {
  }

  method MountTree(t: Tree, p: Pattern, sub: Tree) returns (t': Tree)
    requires WellFormed(t)
    ensures t' == Nest(t, p, sub) && WellFormed(t')
  {
    var routes := Collect(sub, []);
    t' := InsertAll(t, p, routes);
  }

  /** Re-inserts flattened routes behind a prefix. */
  method InsertAll(t: Tree, prefix: Pattern, routes: Routes) returns (t': Tree)
    requires WellFormed(t)
    ensures t' == Build(t, PrefixAll(prefix, routes)) && WellFormed(t')
  {
    t' := t;
    for i := 0 to |routes|
      invariant t' == Build(t, PrefixAll(prefix, routes[..i]))
    {
      PrefixAllSnoc(prefix, routes, i);
      t' := Insert(t', prefix + routes[i].0, routes[i].1);
    }
    assert routes[..|routes|] == routes;
    BuildWellFormed(t, PrefixAll(prefix, routes));
  }

  lemma PrefixAllSnoc(prefix: Pattern, routes: Routes, i: nat)
    requires i < |routes|
    ensures PrefixAll(prefix, routes[..i + 1]) == PrefixAll(prefix, routes[..i]) + [(prefix + routes[i].0, routes[i].1)]
    ensures forall t: Tree :: Build(t, PrefixAll(prefix, routes[..i + 1])) ==
                              Insert(Build(t, PrefixAll(prefix, routes[..i])), prefix + routes[i].0, routes[i].1)
  {
    assert routes[..i + 1][..i] == routes[..i];
    var a := PrefixAll(prefix, routes[..i + 1]);
    assert a[..|a| - 1] == PrefixAll(prefix, routes[..i]);
  }

  lemma MountOne(f: Forest, before: Forest, after: Forest, p: Pattern, g: Forest, done: set<Method>, m: Method)
    requires Mounted(f, before, p, g, done) && m !in done && m in g
    requires after == before[m := Nest(TreeFor(before, m), p, g[m])]
    ensures Mounted(f, after, p, g, done + {m})
  {
  }

  /** A router freshly built by mounting `sub` under a wildcard-free prefix serves, for every
      method, the paths that start with the prefix, exactly as `sub` serves the rest. */
  lemma {:induction false} MountedServes(f': Forest, p: Pattern, g: Forest, m: Method, path: string)
    requires Mounted(map[], f', p, g, g.Keys) && WildcardFree(p) && forall n :: n in g ==> WellFormed(g[n])
    ensures LookupIn(f', m, path) ==
      if m !in g || !PrefixMatches(p, SplitPath(path)) then None
      else match Lookup(g[m], SplitPath(path)[|p|..])
        case None => None
        case Some(r) => Some((r.0, PrefixCaptures(p, SplitPath(path)) + r.1))
  {
    if m in g { NestLookup(p, g[m], SplitPath(path)); }
  }

  // ---- Mounted routers, as requests see them ----

  function Behind(captures: Captures, r: Option<(Handler, Captures)>): Option<(Handler, Captures)> {
    match r case None => None case Some(f) => Some((f.0, captures + f.1))
  }

  lemma {:induction false} CapturesOfPrefix(p: Pattern, parts: seq<string>, more: seq<string>)
    requires |p| == |parts|
    ensures PrefixCaptures(p, parts + more) == PrefixCaptures(p, parts)
    decreases |p|
  {
    if p != [] {
      assert (parts + more)[1..] == parts[1..] + more;
      CapturesOfPrefix(p[1..], parts[1..], more);
    }
  }

  /** For every method and every remaining path that is not empty and does not start with a slash, a
      request for `q/r`, with `q` matching the prefix, is answered as the mounted router answers `/r`,
      the fallback from HEAD to GET included, with the prefix's captures first. */
  lemma {:induction false} MountedAnswers(f': Forest, p: Pattern, g: Forest, m: Method, q: string, r: string)
    requires Mounted(map[], f', p, g, g.Keys) && WildcardFree(p) && forall n :: n in g ==> WellFormed(g[n])
    requires TrimStart(q) != [] && |SplitPath(q)| == |p| && PrefixMatches(p, SplitPath(q))
    requires r != [] && r[0] != '/'
    ensures Dispatch(f', m, q + "/" + r) == Behind(PrefixCaptures(p, SplitPath(q)), Dispatch(g, m, "/" + r))
  {
    MountedAnswersOne(f', p, g, m, q, r);
    MountedAnswersOne(f', p, g, GET, q, r);
  }

  lemma MountedAnswersOne(f': Forest, p: Pattern, g: Forest, m: Method, q: string, r: string)
    requires Mounted(map[], f', p, g, g.Keys) && WildcardFree(p) && forall n :: n in g ==> WellFormed(g[n])
    requires TrimStart(q) != [] && |SplitPath(q)| == |p| && PrefixMatches(p, SplitPath(q))
    requires r != [] && r[0] != '/'
    ensures LookupIn(f', m, q + "/" + r) == Behind(PrefixCaptures(p, SplitPath(q)), LookupIn(g, m, "/" + r))
  {
    var a, b := SplitPath(q), SplitPath("/" + r);
    SplitMounted(q, r);
    MountedServes(f', p, g, m, q + "/" + r);
    CapturesOfPrefix(p, a, b);
    assert (a + b)[|p|..] == b;
    assert PrefixMatches(p, a + b);
  }

  ghost predicate Literal(p: Pattern) { forall i :: 0 <= i < |p| ==> p[i].Static? }

  lemma {:induction false} LiteralCapturesNothing(p: Pattern, parts: seq<string>)
    requires Literal(p) && |p| <= |parts|
    ensures PrefixCaptures(p, parts) == []
    decreases |p|
  {
    if p != [] {
      assert Literal(p[1..]);
      LiteralCapturesNothing(p[1..], parts[1..]);
    }
  }

  lemma LiteralMatchesItself(q: string)
    requires Literal(ParsePattern(q))
    ensures |ParsePattern(q)| == |SplitPath(q)| && PrefixMatches(ParsePattern(q), SplitPath(q))
  {
    var p, parts := ParsePattern(q), SplitPath(q);
    forall i | 0 <= i < |p| ensures p[i].name == parts[i] { assert p[i] == ParseSegment(parts[i]) && p[i].Static?; }
  }

  /** Under a literal prefix, `prefix/r` is answered exactly as the mounted router answers `/r`. */
  lemma {:induction false} LiteralPrefixIsTransparent(f': Forest, q: string, g: Forest, m: Method, r: string)
    requires Mounted(map[], f', ParsePattern(q), g, g.Keys) && forall n :: n in g ==> WellFormed(g[n])
    requires TrimStart(q) != [] && Literal(ParsePattern(q)) && r != [] && r[0] != '/'
    ensures Dispatch(f', m, q + "/" + r) == Dispatch(g, m, "/" + r)
  {
    var p := ParsePattern(q);
    LiteralMatchesItself(q);
    assert WildcardFree(p);
    MountedAnswers(f', p, g, m, q, r);
    LiteralCapturesNothing(p, SplitPath(q));
    var d := Dispatch(g, m, "/" + r);
    if d.Some? { assert [] + d.value.1 == d.value.1; }
  }

  /** The condition on `r` is needed: a router that serves `/` serves the prefix itself when mounted, but
      not the prefix with a slash behind it. */
  lemma {:induction false} TrailingSlashMisses(f': Forest, q: string, h: Handler)
    requires TrimStart(q) != [] && Literal(ParsePattern(q))
    requires var g: Forest := map[GET := Tree(Some(h), [], None, None)];
      Mounted(map[], f', ParsePattern(q), g, g.Keys)
    ensures Dispatch(f', GET, q) == Some((h, [])) && Dispatch(f', GET, q + "/") == None
    ensures Dispatch(map[GET := Tree(Some(h), [], None, None)], GET, "/") == Some((h, []))
  {
    var t := Tree(Some(h), [], None, None);
    var g: Forest := map[GET := t];
    var p, a := ParsePattern(q), SplitPath(q);
    LiteralMatchesItself(q);
    assert WildcardFree(p) && WellFormed(t);
    SlashPieces(q);
    LiteralServes(f', p, g, t, q, a, []);
    LiteralServes(f', p, g, t, q + "/", a, [""]);
    assert Lookup(t, [""]) == None;
    assert "/"[1..] == "" && SplitPath("/") == [];
  }

  lemma SlashPieces(q: string)
    requires TrimStart(q) != []
    ensures SplitPath(q + "/") == SplitPath(q) + [""] && SplitPath(q) == SplitPath(q) + []
  {
    TrimStartAppend(q, "/");
    SplitAppend(TrimStart(q), '/', "");
    assert TrimStart(q) + "/" + "" == TrimStart(q) + "/";
  }

  lemma LiteralServes(f': Forest, p: Pattern, g: Forest, t: Tree, path: string, a: seq<string>, b: seq<string>)
    requires Literal(p) && WildcardFree(p) && |p| == |a| && PrefixMatches(p, a) && SplitPath(path) == a + b
    requires g == map[GET := t] && WellFormed(t) && Mounted(map[], f', p, g, g.Keys)
    ensures Dispatch(f', GET, path) == Behind([], Lookup(t, b))
  {
    MountedServes(f', p, g, GET, path);
    LiteralCapturesNothing(p, a + b);
    assert (a + b)[|p|..] == b;
    assert PrefixMatches(p, a + b);
  }
}
