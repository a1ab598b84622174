/**
  The segment trie behind the HTTP router, as a value.

  `Tree` is what a `Node` of the source holds; `Insert` and `Lookup` are what its
  methods compute (RadixNode.dfy proves the class against them). The partner of the
  trie is a plain scan over the registered patterns: `TrieAgreesWithScan` says that
  looking a path up in the trie and scanning the registrations give the same handler
  and the same captures.
 */
module RadixTrie {
  import opened Prelude

  /** Handlers are compared by identity only. */
  type Handler = nat

  datatype PathSegment = Static(name: string) | Param(name: string) | Wildcard(name: string)

  type Pattern = seq<PathSegment>

  datatype Entry = Entry(key: string, tree: Tree)

  /** A wildcard child never has children of its own, and always has a handler. */
  datatype Tree = Tree(handler: Option<Handler>,
                       lits: seq<Entry>,
                       param: Option<Entry>,
                       wild: Option<(string, Handler)>)

  const EMPTY := Tree(None, [], None, None)

  // ---- String order (literal children are kept sorted by it) ----

  predicate StrLess(a: string, b: string) {
    b != [] && (a == [] || a[0] < b[0] || (a[0] == b[0] && StrLess(a[1..], b[1..])))
  }

  lemma {:induction false} StrLessTrans(a: string, b: string, c: string)
    requires StrLess(a, b) && StrLess(b, c)
    ensures StrLess(a, c)
  {
    if a != [] && a[0] == b[0] && b[0] == c[0] {
      StrLessTrans(a[1..], b[1..], c[1..]);
    }
  }

  lemma {:induction false} StrLessTotal(a: string, b: string)
    ensures a == b || StrLess(a, b) || StrLess(b, a)
    ensures !StrLess(a, a)
    ensures !(StrLess(a, b) && StrLess(b, a))
  {
    if a != [] {
      StrLessTotal(a[1..], a[1..]);
      if b != [] && a[0] == b[0] {
        StrLessTotal(a[1..], b[1..]);
        assert a == [a[0]] + a[1..] && b == [b[0]] + b[1..];
      }
    }
  }

  // ---- Sorted literal children ----

  ghost predicate Sorted(lits: seq<Entry>) {
    forall i, j :: 0 <= i < j < |lits| ==> StrLess(lits[i].key, lits[j].key)
  }

  /** Where a key is, or where it has to be inserted. */
  function LowerBound(lits: seq<Entry>, k: string): (i: nat)
    ensures i <= |lits|
    ensures forall j :: 0 <= j < i ==> StrLess(lits[j].key, k)
    ensures i < |lits| ==> !StrLess(lits[i].key, k)
  {
    if lits == [] || !StrLess(lits[0].key, k) then 0 else 1 + LowerBound(lits[1..], k)
  }

  function Child(t: Tree, k: string): Option<Tree> {
    var i := LowerBound(t.lits, k);
    if i < |t.lits| && t.lits[i].key == k then Some(t.lits[i].tree) else None
  }

  /** The lower bound splits a sorted list, so it is the only such index. */
  lemma LowerBoundUnique(lits: seq<Entry>, k: string, i: nat)
    requires Sorted(lits) && i <= |lits|
    requires forall j :: 0 <= j < i ==> StrLess(lits[j].key, k)
    requires i < |lits| ==> !StrLess(lits[i].key, k)
    ensures LowerBound(lits, k) == i
  {
  }

  lemma ChildIs(t: Tree, i: nat)
    requires Sorted(t.lits) && i < |t.lits|
    ensures Child(t, t.lits[i].key) == Some(t.lits[i].tree)
  {
    StrLessTotal(t.lits[i].key, t.lits[i].key);
    LowerBoundUnique(t.lits, t.lits[i].key, i);
  }

  function PutLit(lits: seq<Entry>, k: string, c: Tree): seq<Entry> {
    var i := LowerBound(lits, k);
    if i < |lits| && lits[i].key == k then lits[i := Entry(k, c)]
    else lits[..i] + [Entry(k, c)] + lits[i..]
  }

  lemma PutLitSorted(lits: seq<Entry>, k: string, c: Tree)
    requires Sorted(lits)
    ensures Sorted(PutLit(lits, k, c))
  {
    var i, r := LowerBound(lits, k), PutLit(lits, k, c);
    if i < |lits| && lits[i].key == k {
    } else {
      forall j | i <= j < |lits| ensures StrLess(k, lits[j].key) {
        StrLessTotal(lits[i].key, k);
        if i < j { StrLessTrans(k, lits[i].key, lits[j].key); }
      }
      assert forall j :: 0 <= j < i ==> r[j] == lits[j];
      assert forall j :: i < j < |r| ==> r[j] == lits[j - 1];
    }
  }

  /** In a sorted list, searching a key finds exactly the entry that carries it. */
  lemma ChildMember(t: Tree, q: string, e: Entry)
    requires Sorted(t.lits) && e.key == q
    ensures Child(t, q) == Some(e.tree) <==> e in t.lits
  {
    if e in t.lits {
      var i :| 0 <= i < |t.lits| && t.lits[i] == e;
      ChildIs(t, i);
    }
  }

  lemma PutLitMember(lits: seq<Entry>, k: string, c: Tree, e: Entry)
    requires Sorted(lits)
    ensures e in PutLit(lits, k, c) <==> (if e.key == k then e == Entry(k, c) else e in lits)
  {
    var i, r := LowerBound(lits, k), PutLit(lits, k, c);
    PutLitSorted(lits, k, c);
    assert r[i] == Entry(k, c);
    if e.key == k { KeyOnce(r, i, e); }
    if e.key != k {
      if i < |lits| && lits[i].key == k {
        UpdatedMember(lits, i, Entry(k, c), e);
      } else {
        assert r == lits[..i] + [Entry(k, c)] + lits[i..] && lits == lits[..i] + lits[i..];
      }
    }
  }

  lemma KeyOnce(r: seq<Entry>, i: nat, e: Entry)
    requires Sorted(r) && i < |r| && e.key == r[i].key
    ensures e in r <==> e == r[i]
  {
    StrLessTotal(e.key, e.key);
    if e in r {
      var j :| 0 <= j < |r| && r[j] == e;
      assert j == i;
    }
  }

  lemma UpdatedMember(lits: seq<Entry>, i: nat, x: Entry, e: Entry)
    requires i < |lits| && e != x && e != lits[i]
    ensures e in lits[i := x] <==> e in lits
  {
    var r := lits[i := x];
    if e in lits {
      var j :| 0 <= j < |lits| && lits[j] == e;
      assert r[j] == e;
    }
  }

  lemma PutLitChild(t: Tree, k: string, c: Tree, q: string)
    requires Sorted(t.lits)
    ensures Child(t.(lits := PutLit(t.lits, k, c)), q) == if q == k then Some(c) else Child(t, q)
  {
    var t' := t.(lits := PutLit(t.lits, k, c));
    PutLitSorted(t.lits, k, c);
    forall x: Tree ensures Child(t', q) == Some(x) <==> (if q == k then x == c else Child(t, q) == Some(x)) {
      ChildMember(t', q, Entry(q, x));
      ChildMember(t, q, Entry(q, x));
      PutLitMember(t.lits, k, c, Entry(q, x));
    }
    if Child(t', q).Some? { assert Child(t', q) == Some(Child(t', q).value); }
    if q == k { assert Child(t', q) == Some(c); }
  }

  // ---- Insertion ----

  function ChildOr(t: Tree, k: string): Tree {
    match Child(t, k) case Some(c) => c case None => EMPTY
  }

  /** What `Node::insert` does; segments after a wildcard are ignored. */
  function Insert(t: Tree, p: Pattern, h: Handler): Tree
    decreases |p|
  {
    if p == [] then t.(handler := Some(h))
    else match p[0]
      case Static(s) => t.(lits := PutLit(t.lits, s, Insert(ChildOr(t, s), p[1..], h)))
      case Param(n) =>
        (match t.param
         case Some(e) => t.(param := Some(Entry(e.key, Insert(e.tree, p[1..], h))))
         case None => t.(param := Some(Entry(n, Insert(EMPTY, p[1..], h)))))
      case Wildcard(n) =>
        (match t.wild
         case Some(w) => t.(wild := Some((w.0, h)))
         case None => t.(wild := Some((n, h))))
  }

  /** Sorted at every level, and no dead branch: every child leads to a handler. */
  ghost predicate WellFormed(t: Tree) {
    && Sorted(t.lits)
    && (forall i :: 0 <= i < |t.lits| ==> WellFormed(t.lits[i].tree) && !Bare(t.lits[i].tree))
    && (t.param.Some? ==> WellFormed(t.param.value.tree) && !Bare(t.param.value.tree))
  }

  ghost predicate Bare(t: Tree) { t == EMPTY }

  lemma {:induction false} InsertWellFormed(t: Tree, p: Pattern, h: Handler)
    requires WellFormed(t)
    ensures WellFormed(Insert(t, p, h)) && !Bare(Insert(t, p, h))
    decreases |p|
  {
    if p != [] {
      match p[0]
      case Static(s) =>
        var c := Insert(ChildOr(t, s), p[1..], h);
        InsertWellFormed(ChildOr(t, s), p[1..], h);
        PutLitSorted(t.lits, s, c);
        var i, r := LowerBound(t.lits, s), PutLit(t.lits, s, c);
        forall j | 0 <= j < |r| ensures WellFormed(r[j].tree) && !Bare(r[j].tree) {
          PutLitMember(t.lits, s, c, r[j]);
        }
      case Param(n) =>
        InsertWellFormed(if t.param.Some? then t.param.value.tree else EMPTY, p[1..], h);
      case Wildcard(n) =>
    }
  }

  // ---- Shapes: patterns up to names, cut after the first wildcard ----

  datatype Step = Lit(s: string) | Par | Wild

  type Shape = seq<Step>

  function StepOf(seg: PathSegment): Step {
    match seg case Static(s) => Lit(s) case Param(_) => Par case Wildcard(_) => Wild
  }

  function ShapeOf(p: Pattern): (s: Shape)
    ensures |s| <= |p| && forall i :: 0 <= i < |s| ==> s[i] == StepOf(p[i])
  {
    if p == [] then [] else if p[0].Wildcard? then [Wild] else [StepOf(p[0])] + ShapeOf(p[1..])
  }

  /** The subtree a step leads to. */
  function Down(t: Tree, a: Step): Option<Tree> {
    match a
    case Lit(k) => Child(t, k)
    case Par => if t.param.Some? then Some(t.param.value.tree) else None
    case Wild => if t.wild.Some? then Some(Tree(Some(t.wild.value.1), [], None, None)) else None
  }

  /** The handler stored at the end of a shape. */
  function HandlerAt(t: Tree, s: Shape): Option<Handler>
    decreases |s|
  {
    if s == [] then t.handler
    else match Down(t, s[0]) case None => None case Some(c) => HandlerAt(c, s[1..])
  }

  /** The name a step's node carries in its parent. */
  function StepName(t: Tree, a: Step): Option<string> {
    match a
    case Lit(k) => if Child(t, k).Some? then Some(k) else None
    case Par => if t.param.Some? then Some(t.param.value.key) else None
    case Wild => if t.wild.Some? then Some(t.wild.value.0) else None
  }

  /** The name stored on the node at the end of a (non-empty) shape, if that node exists. */
  function NameAt(t: Tree, s: Shape): Option<string>
    decreases |s|
  {
    if s == [] then None
    else if |s| == 1 then
      StepName(t, s[0])
    else match Down(t, s[0]) case None => None case Some(c) => NameAt(c, s[1..])
  }

  lemma EmptyHasNothing(s: Shape)
    ensures HandlerAt(EMPTY, s) == None && NameAt(EMPTY, s) == None
  {
  }

  function DownOr(t: Tree, a: Step): Tree {
    match Down(t, a) case Some(c) => c case None => EMPTY
  }

  /** One level of insertion: only the child the first segment names is touched. */
  lemma InsertDown(t: Tree, p: Pattern, h: Handler, a: Step)
    requires WellFormed(t) && p != []
    ensures Down(Insert(t, p, h), a) ==
            if a != StepOf(p[0]) then Down(t, a)
            else if a.Wild? then Some(Tree(Some(h), [], None, None))
            else Some(Insert(DownOr(t, a), p[1..], h))
  {
    if p[0].Static? && a.Lit? {
      PutLitChild(t, p[0].name, Insert(ChildOr(t, p[0].name), p[1..], h), a.s);
    }
  }

  lemma DownWellFormed(t: Tree, a: Step)
    requires WellFormed(t)
    ensures WellFormed(DownOr(t, a))
    ensures Down(t, a).Some? ==> !Bare(DownOr(t, a))
  {
  }

  /** Insertion changes the handler of its own shape and of no other. */
  lemma {:induction false} InsertHandler(t: Tree, p: Pattern, h: Handler, s: Shape)
    requires WellFormed(t)
    ensures HandlerAt(Insert(t, p, h), s) == if s == ShapeOf(p) then Some(h) else HandlerAt(t, s)
    decreases |p|
  {
    if p != [] && s != [] {
      assert s == [s[0]] + s[1..];
      InsertDown(t, p, h, s[0]);
      if s[0] == StepOf(p[0]) && !s[0].Wild? {
        DownWellFormed(t, s[0]);
        InsertHandler(DownOr(t, s[0]), p[1..], h, s[1..]);
        EmptyHasNothing(s[1..]);
        assert ShapeOf(p)[1..] == ShapeOf(p[1..]);
      }
    }
  }

  lemma PrefixTail(s: Shape, w: Shape)
    requires s != [] && w != []
    ensures s <= w <==> s[0] == w[0] && s[1..] <= w[1..]
  {
    assert s == [s[0]] + s[1..] && w == [w[0]] + w[1..];
    if s[0] == w[0] && s[1..] <= w[1..] { assert w[1..][..|s| - 1] == w[1..|s|]; }
  }

  /** Insertion names the nodes it creates and renames none. */
  lemma {:induction false} InsertName(t: Tree, p: Pattern, h: Handler, s: Shape)
    requires WellFormed(t)
    ensures NameAt(Insert(t, p, h), s) == if s == [] then None else NewName(NameAt(t, s), s, p)
    decreases |p|
  {
    if p != [] && s != [] {
      PrefixTail(s, ShapeOf(p));
      if |s| == 1 {
        InsertStepName(t, p, h, s[0]);
      } else {
        InsertDown(t, p, h, s[0]);
        NameDown(t, s);
        NameDown(Insert(t, p, h), s);
        NewNameTail(NameAt(t, s), s, p);
        if s[0] == StepOf(p[0]) && !s[0].Wild? {
          DownWellFormed(t, s[0]);
          InsertName(DownOr(t, s[0]), p[1..], h, s[1..]);
        }
      }
    }
  }

  /** The name that insertion leaves at a node where `before` was the name. */
  function NewName(before: Option<string>, s: Shape, p: Pattern): Option<string>
    requires s != []
  {
    if before.Some? then before else if s <= ShapeOf(p) then Some(p[|s| - 1].name) else None
  }

  lemma NewNameTail(before: Option<string>, s: Shape, p: Pattern)
    requires p != [] && |s| > 1
    ensures NewName(before, s, p) ==
      if s[0] == StepOf(p[0]) && !s[0].Wild? then NewName(before, s[1..], p[1..]) else before
  {
    PrefixTail(s, ShapeOf(p));
    if !p[0].Wildcard? { assert ShapeOf(p)[1..] == ShapeOf(p[1..]); }
  }

  lemma NameDown(t: Tree, s: Shape)
    requires |s| > 1
    ensures NameAt(t, s) == NameAt(DownOr(t, s[0]), s[1..])
    ensures s[0].Wild? ==> NameAt(t, s) == None
  {
    EmptyHasNothing(s[1..]);
  }

  lemma InsertStepName(t: Tree, p: Pattern, h: Handler, a: Step)
    requires WellFormed(t) && p != []
    ensures StepName(Insert(t, p, h), a) ==
            if StepName(t, a).Some? then StepName(t, a)
            else if a == StepOf(p[0]) then Some(p[0].name) else None
  {
    InsertDown(t, p, h, a);
  }

  // ---- Lookup ----

  function Join(parts: seq<string>): string {
    if parts == [] then "" else if |parts| == 1 then parts[0] else parts[0] + "/" + Join(parts[1..])
  }

  type Captures = seq<(string, string)>

  /** What `Node::lookup` finds: literal child first, then the param child, then the wildcard. */
  function Lookup(t: Tree, parts: seq<string>): Option<(Handler, Captures)>
    decreases |parts|
  {
    if parts == [] then (if t.handler.Some? then Some((t.handler.value, [])) else None)
    else
      var viaLit := if Child(t, parts[0]).Some? then Lookup(Child(t, parts[0]).value, parts[1..]) else None;
      if viaLit.Some? then viaLit else
      var viaPar := if t.param.Some? then Lookup(t.param.value.tree, parts[1..]) else None;
      if viaPar.Some? then Some((viaPar.value.0, [(t.param.value.key, parts[0])] + viaPar.value.1))
      else if t.wild.Some? then Some((t.wild.value.1, [(t.wild.value.0, Join(parts))]))
      else None
  }

  // ---- What it means for a pattern to match, and which match is best ----

  /** A wildcard needs at least one remaining segment and swallows all of them. */
  predicate Matches(s: Shape, parts: seq<string>) {
    if s == [] then parts == []
    else parts != [] && match s[0]
      case Lit(k) => parts[0] == k && Matches(s[1..], parts[1..])
      case Par => Matches(s[1..], parts[1..])
      case Wild => |s| == 1
  }

  function Kind(a: Step): nat {
    match a case Lit(_) => 0 case Par => 1 case Wild => 2
  }

  /** Lexicographic order of kinds, literal < param < wildcard. */
  predicate Precedes(a: Shape, b: Shape) {
    a != [] && b != [] &&
    (Kind(a[0]) < Kind(b[0]) || (Kind(a[0]) == Kind(b[0]) && Precedes(a[1..], b[1..])))
  }

  /** Two patterns that match one path are comparable unless they are the same up to names. */
  lemma {:induction false} PrecedesTotal(a: Shape, b: Shape, parts: seq<string>)
    requires Matches(a, parts) && Matches(b, parts)
    ensures a == b || Precedes(a, b) || Precedes(b, a)
    ensures !Precedes(a, a) && !(Precedes(a, b) && Precedes(b, a))
    decreases |a|
  {
    if a != [] {
      assert a == [a[0]] + a[1..] && b == [b[0]] + b[1..];
      if !a[0].Wild? {
        PrecedesTotal(a[1..], a[1..], parts[1..]);
        if Kind(a[0]) == Kind(b[0]) { PrecedesTotal(a[1..], b[1..], parts[1..]); }
      }
    }
  }

  lemma {:induction false} PrecedesTrans(a: Shape, b: Shape, c: Shape)
    requires Precedes(a, b) && Precedes(b, c)
    ensures Precedes(a, c)
    decreases |a|
  {
    if Kind(a[0]) == Kind(b[0]) == Kind(c[0]) { PrecedesTrans(a[1..], b[1..], c[1..]); }
  }

  /** `s` is the best of the shapes that match and carry a handler. */
  ghost predicate Best(handlers: Shape -> Option<Handler>, s: Shape, parts: seq<string>) {
    && Matches(s, parts) && handlers(s).Some?
    && forall s' :: Matches(s', parts) && handlers(s').Some? ==> s' == s || Precedes(s, s')
  }

  /** Names come from `names`, values from the path. */
  function CapturesBy(names: Shape -> Option<string>, s: Shape, parts: seq<string>, i: nat): Captures
    requires Matches(s, parts) && i <= |s|
    decreases |s| - i
  {
    MatchesLength(s, parts);
    if i == |s| then []
    else
      var name := match names(s[..i + 1]) case Some(n) => n case None => "";
      if s[i].Wild? then [(name, Join(parts[i..]))]
      else (if s[i].Par? then [(name, parts[i])] else []) + CapturesBy(names, s, parts, i + 1)
  }

  lemma {:induction false} MatchesLength(s: Shape, parts: seq<string>)
    requires Matches(s, parts)
    ensures |s| <= |parts|
    ensures (s == [] || !s[|s| - 1].Wild?) ==> |s| == |parts|
  {
    if s != [] && !s[0].Wild? { MatchesLength(s[1..], parts[1..]); }
  }

  /** Captures of a tail are the captures of the whole from the second step on. */
  lemma {:induction false} CapturesShift(f: Shape -> Option<string>, g: Shape -> Option<string>,
                                         s: Shape, parts: seq<string>, i: nat)
    requires s != [] && !s[0].Wild? && Matches(s, parts) && i <= |s| - 1
    requires forall x :: x != [] ==> f(x) == g([s[0]] + x)
    ensures CapturesBy(f, s[1..], parts[1..], i) == CapturesBy(g, s, parts, i + 1)
    decreases |s| - i
  {
    MatchesLength(s, parts);
    if i < |s| - 1 {
      assert [s[0]] + s[1..][..i + 1] == s[..i + 2];
      assert parts[1..][i..] == parts[i + 1..];
      CapturesShift(f, g, s, parts, i + 1);
    }
  }

  lemma {:induction false} CapturesCongruent(f: Shape -> Option<string>, g: Shape -> Option<string>,
                                             s: Shape, parts: seq<string>, i: nat)
    requires Matches(s, parts) && i <= |s|
    requires forall x :: x != [] ==> f(x) == g(x)
    ensures CapturesBy(f, s, parts, i) == CapturesBy(g, s, parts, i)
    decreases |s| - i
  {
    if i < |s| {
      CapturesCongruent(f, g, s, parts, i + 1);
      CapturesStep(f, g, s, parts, i);
    }
  }

  lemma CapturesStep(f: Shape -> Option<string>, g: Shape -> Option<string>, s: Shape, parts: seq<string>, i: nat)
    requires Matches(s, parts) && i < |s| && f(s[..i + 1]) == g(s[..i + 1])
    requires CapturesBy(f, s, parts, i + 1) == CapturesBy(g, s, parts, i + 1)
    ensures CapturesBy(f, s, parts, i) == CapturesBy(g, s, parts, i)
  {
  }

  ghost function HandlersOf(t: Tree): Shape -> Option<Handler> { s => HandlerAt(t, s) }
  ghost function NamesOf(t: Tree): Shape -> Option<string> { s => NameAt(t, s) }

  /** The shape whose handler `Lookup` returns. */
  function Chosen(t: Tree, parts: seq<string>): Shape
    decreases |parts|
  {
    if parts == [] then []
    else if Child(t, parts[0]).Some? && Lookup(Child(t, parts[0]).value, parts[1..]).Some? then
      [Lit(parts[0])] + Chosen(Child(t, parts[0]).value, parts[1..])
    else if t.param.Some? && Lookup(t.param.value.tree, parts[1..]).Some? then
      [Par] + Chosen(t.param.value.tree, parts[1..])
    else [Wild]
  }

  /** The lookup law, for one tree and one path. */
  ghost predicate LookupLaw(t: Tree, parts: seq<string>) {
    && (Lookup(t, parts).None? <==> forall s :: Matches(s, parts) ==> HandlerAt(t, s).None?)
    && (Lookup(t, parts).Some? ==>
          var s := Chosen(t, parts);
          && Best(HandlersOf(t), s, parts)
          && Lookup(t, parts).value == (HandlerAt(t, s).value, CapturesBy(NamesOf(t), s, parts, 0)))
  }

  predicate Accepts(a: Step, part: string) { a == Lit(part) || a == Par }

  /** If the subtree below `a` has no match, no stored shape starting with `a` matches. */
  lemma NoneBelow(t: Tree, parts: seq<string>, a: Step)
    requires parts != [] && Accepts(a, parts[0])
    requires Down(t, a).Some? ==> LookupLaw(Down(t, a).value, parts[1..]) && Lookup(Down(t, a).value, parts[1..]).None?
    ensures forall s :: s != [] && s[0] == a && Matches(s, parts) ==> HandlerAt(t, s).None?
  {
  }

  lemma CapturesBelow(t: Tree, parts: seq<string>, a: Step, s: Shape)
    requires parts != [] && Accepts(a, parts[0]) && Down(t, a).Some?
    requires s != [] && s[0] == a && Matches(s, parts)
    ensures CapturesBy(NamesOf(t), s, parts, 0) ==
            (if a.Par? then [(t.param.value.key, parts[0])] else [])
            + CapturesBy(NamesOf(Down(t, a).value), s[1..], parts[1..], 0)
  {
    var c := Down(t, a).value;
    assert s[..1] == [a];
    forall x: Shape | x != [] ensures NamesOf(c)(x) == NamesOf(t)([a] + x) {
      assert ([a] + x)[1..] == x;
    }
    CapturesShift(NamesOf(c), NamesOf(t), s, parts, 0);
  }

  lemma BestPrefixed(f: Shape -> Option<Handler>, g: Shape -> Option<Handler>, a: Step, r: Shape, parts: seq<string>)
    requires parts != [] && Accepts(a, parts[0]) && Best(g, r, parts[1..])
    requires forall x :: f([a] + x) == g(x)
    requires a.Par? ==> forall s :: s != [] && s[0] == Lit(parts[0]) && Matches(s, parts) ==> f(s).None?
    ensures Best(f, [a] + r, parts)
  {
    var s := [a] + r;
    assert s[1..] == r && f([a] + r) == g(r);
    forall s' | Matches(s', parts) && f(s').Some? ensures s' == s || Precedes(s, s') {
      if s'[0] == a {
        var r' := s'[1..];
        assert s' == [a] + r' && f([a] + r') == g(r');
        assert r' == r || Precedes(r, r');
      } else {
        assert Kind(a) < Kind(s'[0]);
      }
    }
  }

  /** If it has one, and no earlier kind matches, prefixing `a` to the subtree's best gives the best. */
  lemma BestBelow(t: Tree, parts: seq<string>, a: Step)
    requires parts != [] && Accepts(a, parts[0]) && Down(t, a).Some?
    requires LookupLaw(Down(t, a).value, parts[1..]) && Lookup(Down(t, a).value, parts[1..]).Some?
    requires a.Par? ==> forall s :: s != [] && s[0] == Lit(parts[0]) && Matches(s, parts) ==> HandlerAt(t, s).None?
    ensures var c, s := Down(t, a).value, [a] + Chosen(Down(t, a).value, parts[1..]);
            && Best(HandlersOf(t), s, parts)
            && HandlerAt(t, s) == HandlerAt(c, s[1..])
            && CapturesBy(NamesOf(t), s, parts, 0) ==
               (if a.Par? then [(t.param.value.key, parts[0])] else []) + CapturesBy(NamesOf(c), s[1..], parts[1..], 0)
  {
    var c := Down(t, a).value;
    var s := [a] + Chosen(c, parts[1..]);
    assert s[1..] == Chosen(c, parts[1..]);
    assert Best(HandlersOf(c), Chosen(c, parts[1..]), parts[1..]);
    HandlersBelow(t, a);
    BestPrefixed(HandlersOf(t), HandlersOf(c), a, Chosen(c, parts[1..]), parts);
    CapturesBelow(t, parts, a, s);
  }

  lemma HandlersBelow(t: Tree, a: Step)
    requires Down(t, a).Some?
    ensures forall x: Shape :: HandlersOf(t)([a] + x) == HandlersOf(Down(t, a).value)(x)
  {
    forall x: Shape ensures HandlersOf(t)([a] + x) == HandlersOf(Down(t, a).value)(x) { assert ([a] + x)[1..] == x; }
  }

  lemma OnlyWild(t: Tree, parts: seq<string>)
    requires parts != []
    requires forall s :: s != [] && s[0] == Lit(parts[0]) && Matches(s, parts) ==> HandlerAt(t, s).None?
    requires forall s :: s != [] && s[0] == Par && Matches(s, parts) ==> HandlerAt(t, s).None?
    ensures forall s :: Matches(s, parts) && HandlerAt(t, s).Some? ==> s == [Wild]
    ensures HandlerAt(t, [Wild]) == if t.wild.Some? then Some(t.wild.value.1) else None
    ensures Matches([Wild], parts)
    ensures CapturesBy(NamesOf(t), [Wild], parts, 0) == [(if t.wild.Some? then t.wild.value.0 else "", Join(parts))]
  {
    assert [Wild][..1] == [Wild] && parts[0..] == parts;
    forall s | Matches(s, parts) && HandlerAt(t, s).Some? ensures s == [Wild] {
      assert s != [] && s[0] in {Lit(parts[0]), Par, Wild};
    }
  }

  lemma LawViaLit(t: Tree, parts: seq<string>)
    requires parts != [] && Down(t, Lit(parts[0])).Some?
    requires var c := Down(t, Lit(parts[0])).value; LookupLaw(c, parts[1..]) && Lookup(c, parts[1..]).Some?
    ensures LookupLaw(t, parts)
  {
    BestBelow(t, parts, Lit(parts[0]));
    var c, s := Down(t, Lit(parts[0])).value, Chosen(t, parts);
    assert [] + CapturesBy(NamesOf(c), s[1..], parts[1..], 0) == CapturesBy(NamesOf(c), s[1..], parts[1..], 0);
    assert HandlersOf(t)(Chosen(t, parts)) == HandlerAt(t, Chosen(t, parts));
  }

  predicate LitFails(t: Tree, parts: seq<string>)
    requires parts != []
  {
    Child(t, parts[0]).Some? ==> Lookup(Child(t, parts[0]).value, parts[1..]).None?
  }

  lemma LawViaPar(t: Tree, parts: seq<string>)
    requires parts != [] && LitFails(t, parts) && t.param.Some?
    requires forall s :: s != [] && s[0] == Lit(parts[0]) && Matches(s, parts) ==> HandlerAt(t, s).None?
    requires var c := t.param.value.tree; LookupLaw(c, parts[1..]) && Lookup(c, parts[1..]).Some?
    ensures LookupLaw(t, parts)
  {
    BestBelow(t, parts, Par);
    assert HandlersOf(t)(Chosen(t, parts)) == HandlerAt(t, Chosen(t, parts));
  }

  lemma LawViaWild(t: Tree, parts: seq<string>)
    requires parts != [] && LitFails(t, parts)
    requires t.param.Some? ==> Lookup(t.param.value.tree, parts[1..]).None?
    requires forall s :: s != [] && s[0] == Lit(parts[0]) && Matches(s, parts) ==> HandlerAt(t, s).None?
    requires forall s :: s != [] && s[0] == Par && Matches(s, parts) ==> HandlerAt(t, s).None?
    ensures LookupLaw(t, parts)
  {
    OnlyWild(t, parts);
  }

  /** Backtracking finds a handler exactly when some stored shape matches, and finds the best one. */
  lemma {:induction false} LookupFindsBest(t: Tree, parts: seq<string>)
    ensures LookupLaw(t, parts)
    decreases |parts|
  {
    if parts == [] {
      assert Matches([], parts);
      assert forall s :: Matches(s, parts) ==> s == [];
    } else {
      if Child(t, parts[0]).Some? { LookupFindsBest(Child(t, parts[0]).value, parts[1..]); }
      if !LitFails(t, parts) {
        LawViaLit(t, parts);
      } else {
        NoneBelow(t, parts, Lit(parts[0]));
        if t.param.Some? { LookupFindsBest(t.param.value.tree, parts[1..]); }
        if t.param.Some? && Lookup(t.param.value.tree, parts[1..]).Some? {
          LawViaPar(t, parts);
        } else {
          NoneBelow(t, parts, Par);
          LawViaWild(t, parts);
        }
      }
    }
  }
}
