/**
  Flattening a tree into routes and mounting it under a prefix.

  `nest` walks the mounted tree, collects its routes and re-inserts each one behind the
  prefix. `CollectThenBuild` says collecting loses nothing; `NestIsWrap` and `NestLookup`
  say that a mounted router answers for the remaining path exactly as it did alone.
 */
module RouteNesting {
  import opened Prelude
  import opened RadixTrie
  import opened RouteTable

  // ---- collect_routes ----

  function OwnRoute(t: Tree, cur: Pattern): Routes {
    if t.handler.Some? then [(cur, t.handler.value)] else []
  }

  function Collect(t: Tree, cur: Pattern): Routes
    decreases t, 1
  {
    OwnRoute(t, cur) + CollectLits(t.lits, cur)
    + (if t.param.Some? then Collect(t.param.value.tree, cur + [Param(t.param.value.key)]) else [])
    + WildRoute(t, cur)
  }

  function WildRoute(t: Tree, cur: Pattern): Routes {
    if t.wild.Some? then [(cur + [Wildcard(t.wild.value.0)], t.wild.value.1)] else []
  }

  function CollectLits(lits: seq<Entry>, cur: Pattern): Routes
    decreases lits, 0
  {
    if lits == [] then []
    else Collect(lits[0].tree, cur + [Static(lits[0].key)]) + CollectLits(lits[1..], cur)
  }

  /** `q` spells out a stored route, with the names the tree holds. */
  predicate IsRoute(t: Tree, q: Pattern, h: Handler)
    decreases |q|
  {
    if q == [] then t.handler == Some(h)
    else match q[0]
      case Static(k) => Child(t, k).Some? && IsRoute(Child(t, k).value, q[1..], h)
      case Param(n) => t.param.Some? && t.param.value.key == n && IsRoute(t.param.value.tree, q[1..], h)
      case Wildcard(n) => |q| == 1 && t.wild == Some((n, h))
  }

  ghost predicate Under(t: Tree, cur: Pattern, r: (Pattern, Handler)) {
    cur <= r.0 && IsRoute(t, r.0[|cur|..], r.1)
  }

  ghost predicate UnderLits(lits: seq<Entry>, cur: Pattern, r: (Pattern, Handler)) {
    exists i :: 0 <= i < |lits| && Under(lits[i].tree, cur + [Static(lits[i].key)], r)
  }

  /** Collecting yields exactly the stored routes. */
  lemma {:induction false} CollectExact(t: Tree, cur: Pattern, r: (Pattern, Handler))
    requires WellFormed(t)
    ensures r in Collect(t, cur) <==> Under(t, cur, r)
    decreases t, 1
  {
    CollectLitsExact(t.lits, cur, r);
    if t.param.Some? { CollectExact(t.param.value.tree, cur + [Param(t.param.value.key)], r); }
    UnderCases(t, cur, r);
  }

  lemma {:induction false} CollectLitsExact(lits: seq<Entry>, cur: Pattern, r: (Pattern, Handler))
    requires forall i :: 0 <= i < |lits| ==> WellFormed(lits[i].tree)
    ensures r in CollectLits(lits, cur) <==> UnderLits(lits, cur, r)
    decreases lits, 0
  {
    if lits != [] {
      CollectExact(lits[0].tree, cur + [Static(lits[0].key)], r);
      CollectLitsExact(lits[1..], cur, r);
      assert forall i :: 0 <= i < |lits[1..]| ==> lits[1..][i] == lits[i + 1];
      assert forall i :: 1 <= i < |lits| ==> lits[i] == lits[1..][i - 1];
    }
  }

  lemma UnderCases(t: Tree, cur: Pattern, r: (Pattern, Handler))
    requires WellFormed(t)
    ensures Under(t, cur, r) <==>
      || r in OwnRoute(t, cur)
      || UnderLits(t.lits, cur, r)
      || (t.param.Some? && Under(t.param.value.tree, cur + [Param(t.param.value.key)], r))
      || (t.wild.Some? && r == (cur + [Wildcard(t.wild.value.0)], t.wild.value.1))
  {
    UnderLitsChild(t, cur, r);
    if cur <= r.0 {
      var q := r.0[|cur|..];
      assert r.0 == cur + q;
      if q != [] {
        assert r.0[|cur| + 1..] == q[1..] && r.0[|cur|] == q[0];
        assert forall x :: cur + [x] <= r.0 <==> x == q[0];
        if q[0].Wildcard? && |q| == 1 { assert r.0 == cur + [q[0]]; }
      } else {
        assert r.0 == cur;
      }
    }
  }

  lemma UnderLitsChild(t: Tree, cur: Pattern, r: (Pattern, Handler))
    requires WellFormed(t)
    ensures UnderLits(t.lits, cur, r) <==>
      && cur <= r.0 && |r.0| > |cur| && r.0[|cur|].Static? && Child(t, r.0[|cur|].name).Some?
      && IsRoute(Child(t, r.0[|cur|].name).value, r.0[|cur| + 1..], r.1)
  {
    if UnderLits(t.lits, cur, r) {
      var i :| 0 <= i < |t.lits| && Under(t.lits[i].tree, cur + [Static(t.lits[i].key)], r);
      ChildIs(t, i);
      OneStepIn(cur, Static(t.lits[i].key), r.0);
    } else {
      forall i | 0 <= i < |t.lits| ensures !Under(t.lits[i].tree, cur + [Static(t.lits[i].key)], r) {}
      if cur <= r.0 && |r.0| > |cur| && r.0[|cur|].Static? && Child(t, r.0[|cur|].name).Some? {
        NotUnder(t, cur, r, LowerBound(t.lits, r.0[|cur|].name));
      }
    }
  }

  lemma NotUnder(t: Tree, cur: Pattern, r: (Pattern, Handler), i: nat)
    requires cur <= r.0 && |r.0| > |cur| && r.0[|cur|].Static? && i < |t.lits| && t.lits[i].key == r.0[|cur|].name
    requires !Under(t.lits[i].tree, cur + [Static(t.lits[i].key)], r)
    ensures !IsRoute(t.lits[i].tree, r.0[|cur| + 1..], r.1)
  {
    OneStepIn(cur, Static(t.lits[i].key), r.0);
  }

  lemma OneStepIn(cur: Pattern, x: PathSegment, q: Pattern)
    ensures cur + [x] <= q <==> cur <= q && |q| > |cur| && q[|cur|] == x
  {
  }

  // ---- Routes and the handlers and names they stand for ----

  /** A stored route ends at its handler. */
  lemma {:induction false} RouteHandler(t: Tree, q: Pattern, h: Handler)
    requires IsRoute(t, q, h)
    ensures |ShapeOf(q)| == |q| && HandlerAt(t, ShapeOf(q)) == Some(h)
    decreases |q|
  {
    if q != [] && !q[0].Wildcard? {
      FirstStepNamed(t, q, h);
      ShapeOfCons(q);
      RouteHandler(Down(t, StepOf(q[0])).value, q[1..], h);
      StepDown(t, StepOf(q[0]), ShapeOf(q[1..]), 0);
    }
  }

  /** Every position of a stored route carries the name it spells. */
  lemma {:induction false} RouteName(t: Tree, q: Pattern, h: Handler, i: nat)
    requires IsRoute(t, q, h) && i < |q|
    ensures |ShapeOf(q)| == |q| && NameAt(t, ShapeOf(q)[..i + 1]) == Some(q[i].name)
    decreases |q|
  {
    FirstStepNamed(t, q, h);
    RouteHandler(t, q, h);
    if q[0].Wildcard? {
      assert ShapeOf(q)[..1] == [Wild];
    } else {
      ShapeOfCons(q);
      StepDown(t, StepOf(q[0]), ShapeOf(q[1..]), i);
      if i > 0 { RouteName(Down(t, StepOf(q[0])).value, q[1..], h, i - 1); }
    }
  }

  /** Handlers and names behind one more step. */
  lemma StepDown(t: Tree, a: Step, rest: Shape, i: nat)
    requires Down(t, a).Some?
    ensures var s := [a] + rest;
      && HandlerAt(t, s) == HandlerAt(Down(t, a).value, rest)
      && NameAt(t, s[..1]) == StepName(t, a)
      && (0 < i <= |rest| ==> NameAt(t, s[..i + 1]) == NameAt(Down(t, a).value, rest[..i]))
  {
    var s := [a] + rest;
    assert s[1..] == rest && s[..1] == [a];
    if 0 < i <= |rest| {
      assert s[..i + 1][1..] == rest[..i] && s[..i + 1][0] == a;
      NameDown(t, s[..i + 1]);
    }
  }

  lemma FirstStepNamed(t: Tree, q: Pattern, h: Handler)
    requires q != [] && IsRoute(t, q, h)
    ensures StepName(t, StepOf(q[0])) == Some(q[0].name)
    ensures !q[0].Wildcard? ==> Down(t, StepOf(q[0])).Some? && IsRoute(Down(t, StepOf(q[0])).value, q[1..], h)
  {
  }

  /** Every stored handler has a route that spells it out. */
  lemma {:induction false} RouteOf(t: Tree, s: Shape, h: Handler) returns (q: Pattern)
    requires HandlerAt(t, s) == Some(h)
    ensures IsRoute(t, q, h) && ShapeOf(q) == s
    decreases |s|
  {
    if s == [] { return []; }
    assert s == [s[0]] + s[1..];
    if s[0].Wild? {
      q := [Wildcard(t.wild.value.0)];
    } else {
      var rest := RouteOf(Down(t, s[0]).value, s[1..], h);
      q := [if s[0].Par? then Param(t.param.value.key) else Static(s[0].s)] + rest;
      assert q[1..] == rest;
    }
  }

  /** Every node of a well-formed tree is on the way to a handler. */
  lemma {:induction false} LeadsToHandler(t: Tree) returns (s: Shape)
    requires WellFormed(t) && !Bare(t)
    ensures HandlerAt(t, s).Some?
  {
    if t.handler.Some? { return []; }
    if t.wild.Some? {
      s := [Wild];
    } else if t.param.Some? {
      var rest := LeadsToHandler(t.param.value.tree);
      s := [Par] + rest;
      assert s[1..] == rest;
    } else {
      var rest := LeadsToHandler(t.lits[0].tree);
      ChildIs(t, 0);
      s := [Lit(t.lits[0].key)] + rest;
      assert s[1..] == rest;
    }
  }

  lemma {:induction false} NameLeadsToHandler(t: Tree, s: Shape) returns (s': Shape)
    requires WellFormed(t) && NameAt(t, s).Some?
    ensures s <= s' && HandlerAt(t, s').Some?
    decreases |s|
  {
    DownWellFormed(t, s[0]);
    var c, rest := Down(t, s[0]).value, [];
    if |s| == 1 { rest := LeadsToHandler(c); } else { rest := NameLeadsToHandler(c, s[1..]); }
    s' := [s[0]] + rest;
    assert s'[1..] == rest && s == [s[0]] + s[1..];
  }

  // ---- Trees are determined by their handlers and names ----

  lemma {:induction false} SortedEqual(a: seq<Entry>, b: seq<Entry>)
    requires Sorted(a) && Sorted(b) && forall e :: e in a <==> e in b
    ensures a == b
  {
    assert a != [] ==> a[0] in b;
    assert b != [] ==> b[0] in a;
    if a != [] {
      var i :| 0 <= i < |b| && b[i] == a[0];
      var j :| 0 <= j < |a| && a[j] == b[0];
      StrLessTotal(a[0].key, b[0].key);
      assert i == 0;
      forall e ensures e in a[1..] <==> e in b[1..] {
        TailMember(a, e);
        TailMember(b, e);
      }
      SortedEqual(a[1..], b[1..]);
    }
  }

  lemma TailMember(a: seq<Entry>, e: Entry)
    requires Sorted(a) && a != []
    ensures e in a[1..] <==> e in a && e != a[0]
  {
    StrLessTotal(a[0].key, a[0].key);
    if e in a && e != a[0] {
      var i :| 0 <= i < |a| && a[i] == e;
      assert a[1..][i - 1] == e;
    }
  }

  ghost predicate SameView(t: Tree, u: Tree) {
    && (forall s :: HandlerAt(t, s) == HandlerAt(u, s))
    && (forall s :: NameAt(t, s) == NameAt(u, s))
  }

  lemma SameViewDown(t: Tree, u: Tree, a: Step)
    requires SameView(t, u)
    ensures Down(t, a).Some? == Down(u, a).Some?
    ensures Down(t, a).Some? ==> SameView(Down(t, a).value, Down(u, a).value)
    ensures StepName(t, a) == StepName(u, a)
  {
    assert NameAt(t, [a]) == NameAt(u, [a]);
    if Down(t, a).Some? && Down(u, a).Some? {
      forall s ensures HandlerAt(Down(t, a).value, s) == HandlerAt(Down(u, a).value, s)
                    && NameAt(Down(t, a).value, s) == NameAt(Down(u, a).value, s) {
        assert ([a] + s)[1..] == s;
        assert HandlerAt(t, [a] + s) == HandlerAt(u, [a] + s);
        assert NameAt(t, [a] + s) == NameAt(u, [a] + s);
      }
    }
  }

  lemma {:induction false} SameViewEqual(t: Tree, u: Tree)
    requires WellFormed(t) && WellFormed(u) && SameView(t, u)
    ensures t == u
  {
    assert HandlerAt(t, []) == HandlerAt(u, []);
    SameViewDown(t, u, Wild);
    assert HandlerAt(t, [Wild]) == HandlerAt(u, [Wild]);
    SameViewDown(t, u, Par);
    if t.param.Some? { SameViewEqual(t.param.value.tree, u.param.value.tree); }
    forall e ensures e in t.lits <==> e in u.lits {
      SameViewDown(t, u, Lit(e.key));
      ChildMember(t, e.key, e);
      ChildMember(u, e.key, e);
      if Child(t, e.key).Some? {
        ChildSmaller(t, e.key);
        SameViewEqual(Child(t, e.key).value, Child(u, e.key).value);
      }
    }
    SortedEqual(t.lits, u.lits);
  }

  lemma ChildSmaller(t: Tree, k: string)
    requires WellFormed(t) && Child(t, k).Some?
    ensures WellFormed(Child(t, k).value) && (t decreases to Child(t, k).value)
  {
  }

  // ---- Collecting and rebuilding ----

  lemma {:induction false} LastForMember(regs: Routes, s: Shape) returns (i: nat)
    requires LastFor(regs, s).Some?
    ensures i < |regs| && ShapeOf(regs[i].0) == s && regs[i].1 == LastFor(regs, s).value
  {
    if ShapeOf(regs[|regs| - 1].0) == s { i := |regs| - 1; } else { i := LastForMember(regs[..|regs| - 1], s); }
  }

  lemma {:induction false} LastForNone(regs: Routes, s: Shape, i: nat)
    requires i < |regs| && ShapeOf(regs[i].0) == s
    ensures LastFor(regs, s).Some?
  {
    if i < |regs| - 1 { LastForNone(regs[..|regs| - 1], s, i); }
  }

  lemma {:induction false} FirstNameMember(regs: Routes, s: Shape) returns (i: nat)
    requires FirstName(regs, s).Some?
    ensures s != [] && i < |regs| && s <= ShapeOf(regs[i].0) && regs[i].0[|s| - 1].name == FirstName(regs, s).value
  {
    if FirstName(regs[..|regs| - 1], s).Some? { i := FirstNameMember(regs[..|regs| - 1], s); } else { i := |regs| - 1; }
  }

  lemma {:induction false} FirstNameNone(regs: Routes, s: Shape, i: nat)
    requires s != [] && i < |regs| && s <= ShapeOf(regs[i].0)
    ensures FirstName(regs, s).Some?
  {
    if i < |regs| - 1 { FirstNameNone(regs[..|regs| - 1], s, i); }
  }

  lemma CollectHandler(t: Tree, s: Shape)
    requires WellFormed(t)
    ensures LastFor(Collect(t, []), s) == HandlerAt(t, s)
  {
    var regs := Collect(t, []);
    if LastFor(regs, s).Some? {
      var i := LastForMember(regs, s);
      CollectExact(t, [], regs[i]);
      RouteHandler(t, regs[i].0, regs[i].1);
    } else if HandlerAt(t, s).Some? {
      var q := RouteOf(t, s, HandlerAt(t, s).value);
      CollectExact(t, [], (q, HandlerAt(t, s).value));
      var i :| 0 <= i < |regs| && regs[i] == (q, HandlerAt(t, s).value);
      LastForNone(regs, s, i);
    }
  }

  lemma CollectName(t: Tree, s: Shape)
    requires WellFormed(t)
    ensures FirstName(Collect(t, []), s) == NameAt(t, s)
  {
    var regs := Collect(t, []);
    if FirstName(regs, s).Some? {
      var i := FirstNameMember(regs, s);
      CollectExact(t, [], regs[i]);
      NameOfPrefix(t, regs[i].0, regs[i].1, s);
    } else if NameAt(t, s).Some? {
      NameIsCollected(t, s);
    }
  }

  lemma NameOfPrefix(t: Tree, q: Pattern, h: Handler, s: Shape)
    requires IsRoute(t, q, h) && s != [] && s <= ShapeOf(q)
    ensures |s| <= |q| && NameAt(t, s) == Some(q[|s| - 1].name)
  {
    RouteHandler(t, q, h);
    RouteName(t, q, h, |s| - 1);
    assert ShapeOf(q)[..|s|] == s;
  }

  lemma NameIsCollected(t: Tree, s: Shape)
    requires WellFormed(t) && NameAt(t, s).Some?
    ensures FirstName(Collect(t, []), s).Some?
  {
    var regs := Collect(t, []);
    var s' := NameLeadsToHandler(t, s);
    var h := HandlerAt(t, s').value;
    var q := RouteOf(t, s', h);
    CollectExact(t, [], (q, h));
    var i :| 0 <= i < |regs| && regs[i] == (q, h);
    FirstNameNone(regs, s, i);
  }

  /** Re-inserting everything that was collected rebuilds the tree, node for node. */
  lemma {:induction false} CollectThenBuild(t: Tree)
    requires WellFormed(t)
    ensures Build(EMPTY, Collect(t, [])) == t
  {
    var u := Build(EMPTY, Collect(t, []));
    forall s ensures HandlerAt(u, s) == HandlerAt(t, s) && NameAt(u, s) == NameAt(t, s) {
      EmptyHasNothing(s);
      BuildHandler(EMPTY, Collect(t, []), s);
      BuildName(EMPTY, Collect(t, []), s);
      CollectHandler(t, s);
      CollectName(t, s);
    }
    BuildWellFormed(EMPTY, Collect(t, []));
    SameViewEqual(u, t);
  }

  // ---- nest ----

  function PrefixAll(prefix: Pattern, regs: Routes): (r: Routes)
    ensures |r| == |regs|
    ensures forall i :: 0 <= i < |r| ==> r[i] == (prefix + regs[i].0, regs[i].1)
  {
    if regs == [] then []
    else PrefixAll(prefix, regs[..|regs| - 1]) + [(prefix + regs[|regs| - 1].0, regs[|regs| - 1].1)]
  }

  function Nest(self: Tree, prefix: Pattern, sub: Tree): Tree {
    Build(self, PrefixAll(prefix, Collect(sub, [])))
  }

  ghost predicate WildcardFree(p: Pattern) { forall i :: 0 <= i < |p| ==> !p[i].Wildcard? }

  /** A chain of single children spelling `prefix`, with `t` at its end. */
  function Wrap(prefix: Pattern, t: Tree): Tree {
    if prefix == [] then t
    else match prefix[0]
      case Static(k) => Tree(None, [Entry(k, Wrap(prefix[1..], t))], None, None)
      case Param(n) => Tree(None, [], Some(Entry(n, Wrap(prefix[1..], t))), None)
      case Wildcard(n) => EMPTY
  }

  lemma InsertIntoWrap(seg: PathSegment, t: Tree, p: Pattern, h: Handler)
    requires !seg.Wildcard?
    ensures Insert(Wrap([seg], t), [seg] + p, h) == Wrap([seg], Insert(t, p, h))
    ensures Insert(EMPTY, [seg] + p, h) == Wrap([seg], Insert(EMPTY, p, h))
  {
    assert ([seg] + p)[1..] == p;
    assert forall x: Tree :: Wrap([], x) == x;
    if seg.Static? { StrLessTotal(seg.name, seg.name); }
  }

  lemma {:induction false} BuildBehindSegment(seg: PathSegment, regs: Routes)
    requires !seg.Wildcard? && regs != []
    ensures Build(EMPTY, PrefixAll([seg], regs)) == Wrap([seg], Build(EMPTY, regs))
  {
    var init, last := regs[..|regs| - 1], regs[|regs| - 1];
    assert PrefixAll([seg], regs)[..|regs| - 1] == PrefixAll([seg], init);
    if init == [] {
      InsertIntoWrap(seg, EMPTY, last.0, last.1);
    } else {
      BuildBehindSegment(seg, init);
      InsertIntoWrap(seg, Build(EMPTY, init), last.0, last.1);
    }
  }

  lemma {:induction false} BuildBehindPrefix(prefix: Pattern, regs: Routes)
    requires WildcardFree(prefix) && regs != []
    ensures Build(EMPTY, PrefixAll(prefix, regs)) == Wrap(prefix, Build(EMPTY, regs))
  {
    if prefix == [] {
      forall i | 0 <= i < |regs| ensures PrefixAll(prefix, regs)[i] == regs[i] { assert [] + regs[i].0 == regs[i].0; }
      assert PrefixAll(prefix, regs) == regs;
    } else {
      var inner := PrefixAll(prefix[1..], regs);
      forall i | 0 <= i < |regs| ensures PrefixAll(prefix, regs)[i] == PrefixAll([prefix[0]], inner)[i] {
        assert prefix + regs[i].0 == [prefix[0]] + (prefix[1..] + regs[i].0);
      }
      assert PrefixAll(prefix, regs) == PrefixAll([prefix[0]], inner);
      BuildBehindSegment(prefix[0], inner);
      BuildBehindPrefix(prefix[1..], regs);
    }
  }

  /** Mounting into a fresh router hangs the mounted tree, unchanged, at the end of the prefix. */
  lemma {:induction false} NestIsWrap(prefix: Pattern, sub: Tree)
    requires WellFormed(sub) && WildcardFree(prefix)
    ensures Nest(EMPTY, prefix, sub) == if Bare(sub) then EMPTY else Wrap(prefix, sub)
  {
    CollectThenBuild(sub);
    assert Collect(EMPTY, []) == [];
    if Collect(sub, []) != [] { BuildBehindPrefix(prefix, Collect(sub, [])); }
  }

  predicate PrefixMatches(prefix: Pattern, parts: seq<string>) {
    |prefix| <= |parts| &&
    forall i :: 0 <= i < |prefix| && prefix[i].Static? ==> prefix[i].name == parts[i]
  }

  function PrefixCaptures(prefix: Pattern, parts: seq<string>): Captures
    requires |prefix| <= |parts|
  {
    if prefix == [] then []
    else (if prefix[0].Param? then [(prefix[0].name, parts[0])] else []) + PrefixCaptures(prefix[1..], parts[1..])
  }

  lemma {:induction false} WrapLookup(prefix: Pattern, t: Tree, parts: seq<string>)
    requires WildcardFree(prefix)
    ensures Lookup(Wrap(prefix, t), parts) ==
      if !PrefixMatches(prefix, parts) then None
      else match Lookup(t, parts[|prefix|..])
        case None => None
        case Some(f) => Some((f.0, PrefixCaptures(prefix, parts) + f.1))
    decreases |prefix|
  {
    if prefix == [] {
      assert parts[0..] == parts;
      if Lookup(t, parts).Some? { assert [] + Lookup(t, parts).value.1 == Lookup(t, parts).value.1; }
    } else if parts != [] {
      WrapLookup(prefix[1..], t, parts[1..]);
      if |prefix| <= |parts| { assert parts[1..][|prefix| - 1..] == parts[|prefix|..]; }
      WrapStep(prefix, t, parts);
      if PrefixMatches(prefix, parts) {
        var x := if prefix[0].Param? then [(prefix[0].name, parts[0])] else [];
        var y := PrefixCaptures(prefix[1..], parts[1..]);
        assert forall z: Captures :: (x + y) + z == x + (y + z);
        assert forall z: Captures :: [] + z == z;
      }
    }
  }

  lemma WrapStep(prefix: Pattern, t: Tree, parts: seq<string>)
    requires prefix != [] && !prefix[0].Wildcard? && parts != []
    ensures PrefixMatches(prefix, parts) <==>
      (prefix[0].Param? || prefix[0].name == parts[0]) && PrefixMatches(prefix[1..], parts[1..])
    ensures Lookup(Wrap(prefix, t), parts) ==
      if prefix[0].Static? then (if prefix[0].name == parts[0] then Lookup(Wrap(prefix[1..], t), parts[1..]) else None)
      else match Lookup(Wrap(prefix[1..], t), parts[1..])
        case None => None
        case Some(f) => Some((f.0, [(prefix[0].name, parts[0])] + f.1))
  {
    StrLessTotal(prefix[0].name, parts[0]);
    assert forall i :: 0 <= i < |prefix| - 1 ==> prefix[1..][i] == prefix[i + 1];
    assert forall i :: 1 <= i < |prefix| ==> prefix[i] == prefix[1..][i - 1];
    assert forall i :: 1 <= i < |parts| ==> parts[i] == parts[1..][i - 1];
  }

  /** A fresh router with `sub` mounted under a wildcard-free prefix answers for the remaining
      path what `sub` answers, with the prefix's captures first, and nothing else. */
  lemma {:induction false} NestLookup(prefix: Pattern, sub: Tree, parts: seq<string>)
    requires WellFormed(sub) && WildcardFree(prefix)
    ensures Lookup(Nest(EMPTY, prefix, sub), parts) ==
      if !PrefixMatches(prefix, parts) then None
      else match Lookup(sub, parts[|prefix|..])
        case None => None
        case Some(f) => Some((f.0, PrefixCaptures(prefix, parts) + f.1))
  {
    NestIsWrap(prefix, sub);
    WrapLookup(prefix, sub, parts);
  }

  /** Mounting into a router that has routes already replaces exactly the mounted shapes. */
  lemma {:induction false} NestKeepsOthers(self: Tree, prefix: Pattern, sub: Tree, s: Shape)
    requires WellFormed(self) && WellFormed(sub) && WildcardFree(prefix)
    ensures |ShapeOf(prefix)| == |prefix|
    ensures HandlerAt(Nest(self, prefix, sub), s) ==
      if ShapeOf(prefix) <= s && HandlerAt(sub, s[|prefix|..]).Some? then HandlerAt(sub, s[|prefix|..])
      else HandlerAt(self, s)
  {
    BuildHandler(self, PrefixAll(prefix, Collect(sub, [])), s);
    PrefixAllLast(prefix, Collect(sub, []), s);
    if ShapeOf(prefix) <= s { CollectHandler(sub, s[|prefix|..]); }
  }

  lemma AppendAssoc(a: Shape, b: Shape, c: Shape)
    ensures (a + b) + c == a + (b + c)
  {
  }

  lemma ShapeOfCons(p: Pattern)
    requires p != [] && !p[0].Wildcard?
    ensures ShapeOf(p) == [StepOf(p[0])] + ShapeOf(p[1..])
  {
  }

  lemma {:induction false} ShapeOfPrefixed(prefix: Pattern, p: Pattern)
    requires WildcardFree(prefix)
    ensures |ShapeOf(prefix)| == |prefix| && ShapeOf(prefix + p) == ShapeOf(prefix) + ShapeOf(p)
  {
    if prefix == [] {
      assert [] + p == p;
    } else {
      ShapeOfPrefixed(prefix[1..], p);
      assert (prefix + p)[0] == prefix[0] && (prefix + p)[1..] == prefix[1..] + p;
      ShapeOfCons(prefix);
      ShapeOfCons(prefix + p);
      AppendAssoc([StepOf(prefix[0])], ShapeOf(prefix[1..]), ShapeOf(p));
    }
  }

  lemma {:induction false} PrefixAllLast(prefix: Pattern, regs: Routes, s: Shape)
    requires WildcardFree(prefix)
    ensures |ShapeOf(prefix)| == |prefix|
    ensures LastFor(PrefixAll(prefix, regs), s) ==
            if ShapeOf(prefix) <= s then LastFor(regs, s[|prefix|..]) else None
  {
    ShapeOfPrefixed(prefix, []);
    if regs != [] {
      var init, last := regs[..|regs| - 1], regs[|regs| - 1];
      PrefixAllLast(prefix, init, s);
      ShapeOfPrefixed(prefix, last.0);
      assert PrefixAll(prefix, regs)[..|regs| - 1] == PrefixAll(prefix, init);
      AppendIs(ShapeOf(prefix), ShapeOf(last.0), s);
    }
  }

  lemma AppendIs(a: Shape, b: Shape, s: Shape)
    ensures a + b == s <==> a <= s && s[|a|..] == b
  {
    if a <= s { assert s == a + s[|a|..]; }
  }

  // ---- A prefix with a wildcard ----

  /** Behind a wildcard nothing of a pattern is left. */
  lemma {:induction false} ShapeBehindWildcard(prefix: Pattern, p: Pattern)
    requires !WildcardFree(prefix)
    ensures ShapeOf(prefix + p) == ShapeOf(prefix)
  {
    assert (prefix + p)[0] == prefix[0] && (prefix + p)[1..] == prefix[1..] + p;
    if !prefix[0].Wildcard? {
      var i :| 0 <= i < |prefix| && prefix[i].Wildcard?;
      assert prefix[1..][i - 1].Wildcard?;
      ShapeBehindWildcard(prefix[1..], p);
      ShapeOfCons(prefix);
      ShapeOfCons(prefix + p);
    }
  }

  lemma {:induction false} PrefixAllCollapse(prefix: Pattern, regs: Routes, s: Shape)
    requires !WildcardFree(prefix)
    ensures LastFor(PrefixAll(prefix, regs), s) ==
            if s == ShapeOf(prefix) && regs != [] then Some(regs[|regs| - 1].1) else None
  {
    if regs != [] {
      var init, last := regs[..|regs| - 1], regs[|regs| - 1];
      PrefixAllCollapse(prefix, init, s);
      ShapeBehindWildcard(prefix, last.0);
      assert PrefixAll(prefix, regs)[..|regs| - 1] == PrefixAll(prefix, init);
    }
  }

  /** The handler that is collected last: the wildcard's, else one below the parameter, else one below the
      greatest literal, else the node's own. */
  function LastHandler(t: Tree): Option<Handler> {
    if t.wild.Some? then Some(t.wild.value.1)
    else if t.param.Some? then LastHandler(t.param.value.tree)
    else if t.lits != [] then LastHandler(t.lits[|t.lits| - 1].tree)
    else t.handler
  }

  function LastOf(regs: Routes): Option<Handler> { if regs == [] then None else Some(regs[|regs| - 1].1) }

  lemma LastOfAppend(a: Routes, b: Routes)
    ensures LastOf(a + b) == if b != [] then LastOf(b) else LastOf(a)
  {
    if b == [] { assert a + b == a; }
  }

  lemma {:induction false} CollectLast(t: Tree, cur: Pattern)
    requires WellFormed(t)
    ensures LastOf(Collect(t, cur)) == LastHandler(t) && (LastHandler(t).None? ==> Bare(t))
    decreases t, 1
  {
    var lits := CollectLits(t.lits, cur);
    var below := if t.param.Some? then Collect(t.param.value.tree, cur + [Param(t.param.value.key)]) else [];
    LastOfAppend(OwnRoute(t, cur), lits);
    LastOfAppend(OwnRoute(t, cur) + lits, below);
    LastOfAppend(OwnRoute(t, cur) + lits + below, WildRoute(t, cur));
    CollectLitsLast(t.lits, cur);
    if t.param.Some? { CollectLast(t.param.value.tree, cur + [Param(t.param.value.key)]); }
  }

  lemma {:induction false} CollectLitsLast(lits: seq<Entry>, cur: Pattern)
    requires forall i :: 0 <= i < |lits| ==> WellFormed(lits[i].tree) && !Bare(lits[i].tree)
    ensures LastOf(CollectLits(lits, cur)) == if lits == [] then None else LastHandler(lits[|lits| - 1].tree)
    ensures lits != [] ==> LastHandler(lits[|lits| - 1].tree).Some?
    decreases lits, 0
  {
    if lits != [] {
      CollectLast(lits[0].tree, cur + [Static(lits[0].key)]);
      CollectLitsLast(lits[1..], cur);
      LastOfAppend(Collect(lits[0].tree, cur + [Static(lits[0].key)]), CollectLits(lits[1..], cur));
    }
  }

  /** Under a prefix with a wildcard the mounted tree shrinks to a single handler, the one collected last,
      at the prefix's wildcard; every other route of it is gone, and every other route of the router stays. */
  lemma NestUnderWildcard(self: Tree, prefix: Pattern, sub: Tree, s: Shape)
    requires WellFormed(self) && WellFormed(sub) && !WildcardFree(prefix)
    ensures HandlerAt(Nest(self, prefix, sub), s) ==
      if s == ShapeOf(prefix) && !Bare(sub) then LastHandler(sub) else HandlerAt(self, s)
    ensures !Bare(sub) ==> LastHandler(sub).Some?
  {
    var regs := Collect(sub, []);
    BuildHandler(self, PrefixAll(prefix, regs), s);
    PrefixAllCollapse(prefix, regs, s);
    CollectLast(sub, []);
  }
}
