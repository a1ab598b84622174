/**
  The dependency graph of a module registry, and what a boot order is.

  A module's dependency names are resolved to registered modules (the last one registered
  under a name, unknown names are ignored). `BootOrder` says what order the registry promises;
  `BootOrderUnique` says that there is at most one, `OrderMeansAcyclic` that a graph with a boot order
  has no cycle, and `UnplacedIff` that what a sort cannot place is exactly what is behind a cycle.
 */
module DepGraph {
  import opened Prelude

  datatype ModuleEntry = ModuleEntry(name: string, priority: int, deps: seq<string>, lifecycle: nat)

  /** The index the name map holds for a name: the last entry with that name. */
  function Resolve(es: seq<ModuleEntry>, name: string): (r: Option<nat>)
    ensures r.Some? ==> r.value < |es| && es[r.value].name == name
    ensures r.Some? ==> forall j :: r.value < j < |es| ==> es[j].name != name
    ensures r.None? ==> forall j :: 0 <= j < |es| ==> es[j].name != name
  {
    if es == [] then None
    else if es[|es| - 1].name == name then Some(|es| - 1)
    else Resolve(es[..|es| - 1], name)
  }

  /** Module `i` depends on module `d`. */
  predicate Edge(es: seq<ModuleEntry>, d: nat, i: nat) {
    i < |es| && d < |es| && exists k :: 0 <= k < |es[i].deps| && Resolve(es, es[i].deps[k]) == Some(d)
  }

  // ---- Cycles ----

  predicate StepsAt(es: seq<ModuleEntry>, p: seq<nat>, k: nat) {
    k + 1 < |p| && Edge(es, p[k], p[k + 1])
  }

  ghost predicate Walk(es: seq<ModuleEntry>, p: seq<nat>) {
    forall k :: 0 <= k < |p| - 1 ==> StepsAt(es, p, k)
  }

  ghost predicate Cycle(es: seq<ModuleEntry>, p: seq<nat>) {
    |p| >= 2 && p[0] == p[|p| - 1] && Walk(es, p)
  }

  ghost predicate Acyclic(es: seq<ModuleEntry>) { forall p :: !Cycle(es, p) }

  // ---- Boot orders ----

  /** A choice of distinct indices. */
  ghost predicate Distinct(order: seq<nat>) {
    forall a, b :: 0 <= a < b < |order| ==> order[a] != order[b]
  }

  /** Module `i` is not placed yet and all it depends on is. */
  predicate Ready(es: seq<ModuleEntry>, i: nat, placed: seq<nat>) {
    i < |es| && i !in placed && forall d | 0 <= d < |es| && Edge(es, d, i) :: d in placed
  }

  /** The heap order: higher priority first, then higher index. */
  predicate Outranks(es: seq<ModuleEntry>, i: nat, j: nat)
    requires i < |es| && j < |es|
  {
    es[i].priority > es[j].priority || (es[i].priority == es[j].priority && i >= j)
  }

  /** Each position holds the greatest module that was ready at that point. */
  ghost predicate Greedy(es: seq<ModuleEntry>, order: seq<nat>) {
    forall k :: 0 <= k < |order| ==>
      && Ready(es, order[k], order[..k])
      && forall j :: Ready(es, j, order[..k]) ==> Outranks(es, order[k], j)
  }

  ghost predicate BootOrder(es: seq<ModuleEntry>, order: seq<nat>) {
    |order| == |es| && Greedy(es, order)
  }

  lemma GreedyDistinct(es: seq<ModuleEntry>, order: seq<nat>)
    requires Greedy(es, order)
    ensures Distinct(order)
  {
    forall a, b | 0 <= a < b < |order| ensures order[a] != order[b] {
      assert Ready(es, order[b], order[..b]);
      assert order[..b][a] == order[a];
    }
  }

  /** Dependencies come before their dependents. */
  lemma DependenciesFirst(es: seq<ModuleEntry>, order: seq<nat>, a: nat, b: nat)
    requires Greedy(es, order) && a < |order| && b < |order| && Edge(es, order[a], order[b])
    ensures a < b
  {
    GreedyDistinct(es, order);
    assert Ready(es, order[b], order[..b]);
    var k :| 0 <= k < b && order[..b][k] == order[a];
    assert order[k] == order[a];
  }

  /** Of two modules that could both be next, the one with the higher priority comes first, and of two with
      the same priority the one registered later. */
  lemma PriorityFirst(es: seq<ModuleEntry>, order: seq<nat>, a: nat, b: nat)
    requires Greedy(es, order) && a < b < |order| && Ready(es, order[b], order[..a])
    ensures order[a] < |es| && order[b] < |es|
    ensures var p, q := es[order[a]].priority, es[order[b]].priority; p > q || (p == q && order[a] > order[b])
  {
    GreedyDistinct(es, order);
    assert Ready(es, order[a], order[..a]) && Outranks(es, order[a], order[b]);
  }

  /** There is only one boot order. */
  lemma {:induction false} BootOrderUnique(es: seq<ModuleEntry>, o: seq<nat>, o': seq<nat>)
    requires BootOrder(es, o) && BootOrder(es, o')
    ensures o == o'
  {
    PrefixUnique(es, o, o', |o|);
    assert o[..|o|] == o && o'[..|o|] == o';
  }

  lemma {:induction false} PrefixUnique(es: seq<ModuleEntry>, o: seq<nat>, o': seq<nat>, k: nat)
    requires Greedy(es, o) && Greedy(es, o') && k <= |o| && k <= |o'|
    ensures o[..k] == o'[..k]
  {
    if k > 0 {
      PrefixUnique(es, o, o', k - 1);
      assert Ready(es, o[k - 1], o[..k - 1]) && Ready(es, o'[k - 1], o'[..k - 1]);
      assert Outranks(es, o[k - 1], o'[k - 1]) && Outranks(es, o'[k - 1], o[k - 1]);
      assert o[..k] == o[..k - 1] + [o[k - 1]] && o'[..k] == o'[..k - 1] + [o'[k - 1]];
    }
  }

  // ---- Pigeonhole ----

  ghost function Upto(n: nat): (s: set<nat>)
    ensures |s| == n && forall x: nat :: x in s <==> x < n
  {
    if n == 0 then {} else Upto(n - 1) + {n - 1}
  }

  ghost function Members(p: seq<nat>): (s: set<nat>)
    ensures forall x :: x in s <==> x in p
  {
    set x | x in p
  }

  lemma {:induction false} DistinctCard(p: seq<nat>)
    requires Distinct(p)
    ensures |Members(p)| == |p|
  {
    if p == [] {
      assert Members(p) == {};
    } else {
      var init, last := p[..|p| - 1], p[|p| - 1];
      DistinctCard(init);
      assert p == init + [last];
      assert last !in init;
      assert Members(p) == Members(init) + {last};
    }
  }

  lemma {:induction false} SubsetCard(a: set<nat>, b: set<nat>)
    requires a <= b
    ensures |a| <= |b|
  {
    if a != {} {
      var x :| x in a;
      SubsetCard(a - {x}, b - {x});
    }
  }

  /** Every index below `n` occurs in a list of `n` distinct indices below `n`. */
  lemma AllPlaced(order: seq<nat>, n: nat, i: nat)
    requires Distinct(order) && |order| == n && i < n && forall x :: x in order ==> x < n
    ensures i in order
  {
    DistinctCard(order);
    if i !in order { SubsetCard(Members(order), Upto(n) - {i}); }
  }

  /** A list of more than `n` indices below `n` repeats one. */
  lemma Repeats(p: seq<nat>, n: nat) returns (a: nat, b: nat)
    requires |p| > n && forall x :: x in p ==> x < n
    ensures a < b < |p| && p[a] == p[b]
  {
    assert !Distinct(p) by {
      if Distinct(p) {
        DistinctCard(p);
        SubsetCard(Members(p), Upto(n));
      }
    }
    a, b :| 0 <= a < b < |p| && p[a] == p[b];
  }

  // ---- A boot order exists exactly for acyclic graphs ----

  lemma OrderBelow(es: seq<ModuleEntry>, order: seq<nat>)
    requires Greedy(es, order)
    ensures forall x :: x in order ==> x < |es|
  {
    forall x | x in order ensures x < |es| {
      var k :| 0 <= k < |order| && order[k] == x;
      assert Ready(es, order[k], order[..k]);
    }
  }

  lemma OrderHasAll(es: seq<ModuleEntry>, order: seq<nat>, i: nat)
    requires BootOrder(es, order)
    ensures i < |es| ==> i in order
  {
    GreedyDistinct(es, order);
    OrderBelow(es, order);
    if i < |es| { AllPlaced(order, |es|, i); }
  }

  lemma OrderMeansAcyclic(es: seq<ModuleEntry>, order: seq<nat>)
    requires BootOrder(es, order)
    ensures Acyclic(es)
  {
    forall p ensures !Cycle(es, p) {
      if Cycle(es, p) {
        assert StepsAt(es, p, 0);
        OrderHasAll(es, order, p[0]);
        WalkAdvances(es, order, p, |p| - 1);
      }
    }
  }

  ghost function PosIn(order: seq<nat>, x: nat): nat
    requires x in order
    ensures PosIn(order, x) < |order| && order[PosIn(order, x)] == x
  {
    var k :| 0 <= k < |order| && order[k] == x; k
  }

  /** What a placed module depends on is placed before it. */
  lemma PlacedDep(es: seq<ModuleEntry>, order: seq<nat>, d: nat, i: nat)
    requires Greedy(es, order) && i in order && Edge(es, d, i)
    ensures d in order && PosIn(order, d) < PosIn(order, i)
  {
    var b := PosIn(order, i);
    assert Ready(es, order[b], order[..b]);
    assert d in order[..b];
    var k :| 0 <= k < b && order[..b][k] == d;
    assert order[k] == d;
    DependenciesFirst(es, order, PosIn(order, d), b);
  }

  lemma {:induction false} WalkAdvances(es: seq<ModuleEntry>, order: seq<nat>, p: seq<nat>, k: nat)
    requires Greedy(es, order) && Walk(es, p) && k < |p| && p[k] in order
    ensures p[0] in order && (k > 0 ==> PosIn(order, p[0]) < PosIn(order, p[k]))
  {
    if k > 0 {
      assert StepsAt(es, p, k - 1);
      PlacedDep(es, order, p[k - 1], p[k]);
      WalkAdvances(es, order, p, k - 1);
    }
  }

  ghost predicate HasDepIn(es: seq<ModuleEntry>, r: set<nat>, i: nat) {
    i < |es| && exists d :: d in r && Edge(es, d, i)
  }

  /** A set of modules in which everyone depends on a member. */
  ghost predicate Stuck(es: seq<ModuleEntry>, r: set<nat>) {
    r != {} && forall i {:trigger HasDepIn(es, r, i)} :: i in r ==> HasDepIn(es, r, i)
  }

  /** A walk of any length inside such a set that ends in a given member. */
  lemma {:induction false} BackWalk(es: seq<ModuleEntry>, r: set<nat>, i: nat, len: nat) returns (p: seq<nat>)
    requires Stuck(es, r) && i in r && len > 0
    ensures |p| == len && Walk(es, p) && p[|p| - 1] == i && forall x :: x in p ==> x in r
  {
    if len == 1 {
      p := [i];
    } else {
      var q := BackWalk(es, r, i, len - 1);
      assert q[0] in q;
      assert HasDepIn(es, r, q[0]);
      var d :| d in r && Edge(es, d, q[0]);
      p := [d] + q;
      forall k | 0 <= k < |p| - 1 ensures StepsAt(es, p, k) {
        if k > 0 { assert StepsAt(es, q, k - 1); }
      }
    }
  }

  ghost predicate LeadsTo(es: seq<ModuleEntry>, p: seq<nat>, from: nat, to: nat) {
    p != [] && Walk(es, p) && p[0] == from && p[|p| - 1] == to
  }

  /** Module `j` is on a cycle, or depends on one, directly or through others. */
  ghost predicate BehindCycle(es: seq<ModuleEntry>, j: nat) {
    exists c, p :: Cycle(es, c) && LeadsTo(es, p, c[0], j)
  }

  /** Everyone in such a set is behind a cycle: walking backwards must revisit a module. */
  lemma StuckBehindCycle(es: seq<ModuleEntry>, r: set<nat>, i: nat)
    requires Stuck(es, r) && i in r
    ensures BehindCycle(es, i)
  {
    var p := BackWalk(es, r, i, |es| + 1);
    forall x | x in p ensures x < |es| { assert HasDepIn(es, r, x); }
    var a, b := Repeats(p, |es|);
    var c, tail := p[a..b + 1], p[a..];
    forall k | 0 <= k < |c| - 1 ensures StepsAt(es, c, k) { assert StepsAt(es, p, a + k); }
    forall k | 0 <= k < |tail| - 1 ensures StepsAt(es, tail, k) { assert StepsAt(es, p, a + k); }
    assert Cycle(es, c) && LeadsTo(es, tail, c[0], i);
  }

  /** The modules that a greedy order cannot place are exactly those behind a cycle. */
  lemma UnplacedIff(es: seq<ModuleEntry>, order: seq<nat>, j: nat)
    requires Greedy(es, order) && (forall i :: !Ready(es, i, order)) && j < |es|
    ensures j !in order <==> BehindCycle(es, j)
  {
    if j !in order {
      var r := Upto(|es|) - Members(order);
      forall i | i in r ensures HasDepIn(es, r, i) {
        assert !Ready(es, i, order);
        var d :| 0 <= d < |es| && Edge(es, d, i) && d !in order;
        assert d in r;
      }
      assert j in r;
      StuckBehindCycle(es, r, j);
    } else if BehindCycle(es, j) {
      var c, p :| Cycle(es, c) && LeadsTo(es, p, c[0], j);
      WalkAdvances(es, order, p, |p| - 1);
      WalkAdvances(es, order, c, |c| - 1);
    }
  }
}
