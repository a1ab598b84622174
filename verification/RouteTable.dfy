/**
  Registrations in order, and the trie built from them.

  A route table is the list of `(pattern, handler)` registrations. `Scan` is the
  simple reference: walk the list, keep the best match. `TrieAgreesWithScan` is the
  correctness of the trie for every list of registrations and every path.
 */
module RouteTable {
  import opened Prelude
  import opened RadixTrie

  type Routes = seq<(Pattern, Handler)>

  function Build(t: Tree, regs: Routes): Tree {
    if regs == [] then t
    else Insert(Build(t, regs[..|regs| - 1]), regs[|regs| - 1].0, regs[|regs| - 1].1)
  }

  lemma BuildSnoc(t: Tree, regs: Routes, r: (Pattern, Handler))
    ensures Build(t, regs + [r]) == Insert(Build(t, regs), r.0, r.1)
  {
    assert (regs + [r])[..|regs|] == regs;
  }

  lemma {:induction false} BuildWellFormed(t: Tree, regs: Routes)
    requires WellFormed(t)
    ensures WellFormed(Build(t, regs))
  {
    if regs != [] {
      BuildWellFormed(t, regs[..|regs| - 1]);
      InsertWellFormed(Build(t, regs[..|regs| - 1]), regs[|regs| - 1].0, regs[|regs| - 1].1);
    }
  }

  /** The last registration of a shape. */
  function LastFor(regs: Routes, s: Shape): Option<Handler> {
    if regs == [] then None
    else if ShapeOf(regs[|regs| - 1].0) == s then Some(regs[|regs| - 1].1)
    else LastFor(regs[..|regs| - 1], s)
  }

  /** The name given to a trie position by the first registration that passes through it. */
  function FirstName(regs: Routes, s: Shape): Option<string> {
    if regs == [] then None
    else
      var before := FirstName(regs[..|regs| - 1], s);
      var p := regs[|regs| - 1].0;
      if before.Some? then before
      else if s != [] && s <= ShapeOf(p) then Some(p[|s| - 1].name) else None
  }

  lemma {:induction false} BuildHandler(t: Tree, regs: Routes, s: Shape)
    requires WellFormed(t)
    ensures HandlerAt(Build(t, regs), s) == if LastFor(regs, s).Some? then LastFor(regs, s) else HandlerAt(t, s)
  {
    if regs != [] {
      var init, last := regs[..|regs| - 1], regs[|regs| - 1];
      BuildHandler(t, init, s);
      BuildWellFormed(t, init);
      InsertHandler(Build(t, init), last.0, last.1, s);
    }
  }

  lemma {:induction false} BuildName(t: Tree, regs: Routes, s: Shape)
    requires WellFormed(t)
    ensures NameAt(Build(t, regs), s) == if NameAt(t, s).Some? then NameAt(t, s) else FirstName(regs, s)
  {
    if regs != [] {
      var init, last := regs[..|regs| - 1], regs[|regs| - 1];
      BuildName(t, init, s);
      BuildWellFormed(t, init);
      InsertName(Build(t, init), last.0, last.1, s);
    }
  }

  // ---- The reference scan ----

  function Consider(best: Option<(Shape, Handler)>, r: (Pattern, Handler), parts: seq<string>)
    : Option<(Shape, Handler)>
  {
    var s := ShapeOf(r.0);
    if Matches(s, parts) && (best.None? || !Precedes(best.value.0, s)) then Some((s, r.1)) else best
  }

  /** Keep the best match so far; a later registration wins a tie. */
  function Scan(regs: Routes, parts: seq<string>): Option<(Shape, Handler)> {
    if regs == [] then None
    else Consider(Scan(regs[..|regs| - 1], parts), regs[|regs| - 1], parts)
  }

  ghost predicate ScanLaw(regs: Routes, parts: seq<string>, r: Option<(Shape, Handler)>) {
    match r
    case None => forall s :: Matches(s, parts) ==> LastFor(regs, s).None?
    case Some(b) => LastFor(regs, b.0) == Some(b.1) && Best(x => LastFor(regs, x), b.0, parts)
  }

  lemma {:induction false} ScanFindsBest(regs: Routes, parts: seq<string>)
    ensures ScanLaw(regs, parts, Scan(regs, parts))
  {
    if regs != [] {
      var init, last := regs[..|regs| - 1], regs[|regs| - 1];
      ScanFindsBest(init, parts);
      ConsiderKeepsBest(init, last, parts, Scan(init, parts));
      assert regs == init + [last];
    }
  }

  lemma ConsiderKeepsBest(init: Routes, last: (Pattern, Handler), parts: seq<string>, b: Option<(Shape, Handler)>)
    requires ScanLaw(init, parts, b)
    ensures ScanLaw(init + [last], parts, Consider(b, last, parts))
  {
    var regs := init + [last];
    assert regs[..|regs| - 1] == init;
    var s := ShapeOf(last.0);
    assert forall x :: LastFor(regs, x) == if x == s then Some(last.1) else LastFor(init, x);
    if b.Some? && Matches(s, parts) {
      var was := b.value.0;
      PrecedesTotal(was, s, parts);
      forall x | Matches(x, parts) && LastFor(regs, x).Some? && x != s && !Precedes(was, s)
        ensures Precedes(s, x)
      {
        assert (y => LastFor(init, y))(x).Some?;
        if was != s && x != was { PrecedesTrans(s, was, x); }
      }
    }
  }

  /** Only one shape can be best. */
  lemma BestUnique(f: Shape -> Option<Handler>, g: Shape -> Option<Handler>, a: Shape, b: Shape, parts: seq<string>)
    requires forall x :: f(x) == g(x)
    requires Best(f, a, parts) && Best(g, b, parts)
    ensures a == b
  {
    PrecedesTotal(a, b, parts);
  }

  /** For every list of registrations and every path, the trie answers what the scan answers:
      the handler of the best matching pattern (last registration of it), with the values taken
      from the path and the names from the first registration through each position. */
  lemma {:induction false} TrieAgreesWithScan(regs: Routes, parts: seq<string>)
    ensures var found, best := Lookup(Build(EMPTY, regs), parts), Scan(regs, parts);
            && found.Some? == best.Some?
            && (best.Some? ==> && Matches(best.value.0, parts)
                               && found.value.0 == best.value.1
                               && found.value.1 == CapturesBy(s => FirstName(regs, s), best.value.0, parts, 0))
  {
    var t := Build(EMPTY, regs);
    forall s ensures HandlerAt(t, s) == LastFor(regs, s) && NameAt(t, s) == FirstName(regs, s) {
      BuildHandler(EMPTY, regs, s);
      BuildName(EMPTY, regs, s);
      EmptyHasNothing(s);
    }
    ScanFindsBest(regs, parts);
    LookupFindsBest(t, parts);
    if Lookup(t, parts).Some? {
      var s := Chosen(t, parts);
      assert (x => LastFor(regs, x))(s).Some?;
      assert Scan(regs, parts).Some?;
      BestUnique(HandlersOf(t), x => LastFor(regs, x), s, Scan(regs, parts).value.0, parts);
      CapturesCongruent(NamesOf(t), x => FirstName(regs, x), s, parts, 0);
    }
  }

  /** What a scan over the registrations answers: the handler and the captures of the best match. */
  ghost function ScanAnswer(regs: Routes, parts: seq<string>): Option<(Handler, Captures)> {
    ScanFindsBest(regs, parts);
    match Scan(regs, parts)
    case None => None
    case Some(b) => Some((b.1, CapturesBy(s => FirstName(regs, s), b.0, parts, 0)))
  }

  lemma TrieAnswersScan(regs: Routes, parts: seq<string>)
    ensures Lookup(Build(EMPTY, regs), parts) == ScanAnswer(regs, parts)
  {
    TrieAgreesWithScan(regs, parts);
    if Scan(regs, parts).Some? {
      var s := Scan(regs, parts).value.0;
      CapturesCongruent(x => FirstName(regs, x), y => FirstName(regs, y), s, parts, 0);
    }
  }
}
