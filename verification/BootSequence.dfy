/**
  From registration to start order: the builder appends modules, checks their dependencies at
  compile time and, in `run`, sorts the registry by priority.
 */
module BootSequence {
  import opened Prelude
  import opened DepGraph
  import opened Registry
  import opened Dependency

  /** The order of a stable sort by descending priority. */
  ghost predicate StableOrder(es: seq<ModuleEntry>, order: seq<nat>) {
    && |order| == |es| && Distinct(order)
    && (forall k :: 0 <= k < |order| ==> order[k] < |es|)
    && forall a, b :: 0 <= a < b < |order| ==> StartsBefore(es, order[a], order[b])
  }

  predicate StartsBefore(es: seq<ModuleEntry>, i: nat, j: nat) {
    i < |es| && j < |es| && (es[i].priority > es[j].priority || (es[i].priority == es[j].priority && i < j))
  }

  /** Insertion of index `n` behind everything that starts before it. */
  method InsertStable(es: seq<ModuleEntry>, order: seq<nat>, n: nat) returns (order': seq<nat>)
    requires n < |es| && |order| == n && Distinct(order)
    requires forall k :: 0 <= k < n ==> order[k] < n
    requires forall a, b :: 0 <= a < b < n ==> StartsBefore(es, order[a], order[b])
    ensures |order'| == n + 1 && Distinct(order')
    ensures forall k :: 0 <= k <= n ==> order'[k] < n + 1
    ensures forall a, b :: 0 <= a < b <= n ==> StartsBefore(es, order'[a], order'[b])
  {
    var k := n;
    while k > 0 && es[order[k - 1]].priority < es[n].priority
      invariant 0 <= k <= n
      invariant forall j :: k <= j < n ==> es[order[j]].priority < es[n].priority
    {
      k := k - 1;
    }
    assert forall j :: 0 <= j < k ==> StartsBefore(es, order[j], n) by {
      forall j | 0 <= j < k ensures StartsBefore(es, order[j], n) {
        if j < k - 1 { assert StartsBefore(es, order[j], order[k - 1]); }
      }
    }
    order' := order[..k] + [n] + order[k..];
    Spliced(es, order, k, n, order');
  }

  lemma Spliced(es: seq<ModuleEntry>, order: seq<nat>, k: nat, n: nat, order': seq<nat>)
    requires n < |es| && |order| == n && k <= n && order' == order[..k] + [n] + order[k..]
    requires forall j :: 0 <= j < n ==> order[j] < n
    requires forall a, b :: 0 <= a < b < n ==> StartsBefore(es, order[a], order[b])
    requires forall j :: 0 <= j < k ==> StartsBefore(es, order[j], n)
    requires forall j :: k <= j < n ==> StartsBefore(es, n, order[j])
    ensures forall a, b :: 0 <= a < b <= n ==> StartsBefore(es, order'[a], order'[b])
    ensures Distinct(order') && forall j :: 0 <= j <= n ==> order'[j] < n + 1
  {
    forall a, b | 0 <= a < b <= n ensures StartsBefore(es, order'[a], order'[b]) {
      var x := if a < k then a else if a == k then n else a - 1;
      var y := if b < k then b else if b == k then n else b - 1;
      assert order'[a] == if a == k then n else order[x];
      assert order'[b] == if b == k then n else order[y];
    }
    forall a, b | 0 <= a < b < |order'| ensures order'[a] != order'[b] {
      assert StartsBefore(es, order'[a], order'[b]);
    }
  }

  /** `sort_by_priority`. */
  method SortByPriority(reg: ModuleRegistry) returns (ghost order: seq<nat>)
    modifies reg
    ensures StableOrder(old(reg.entries), order) && Reordered(old(reg.entries), reg.entries, order)
  {
    var es := reg.entries;
    var o: seq<nat> := [];
    for n := 0 to |es|
      invariant |o| == n && Distinct(o) && reg.entries == es
      invariant forall k :: 0 <= k < n ==> o[k] < n
      invariant forall a, b :: 0 <= a < b < n ==> StartsBefore(es, o[a], o[b])
    {
      o := InsertStable(es, o, n);
    }
    order := o;
    reg.entries := Reorder(es, o);
  }

  // ---- Does `run` start dependencies first? ----

  /** A start order that puts every dependency before its dependents. */
  ghost predicate DepsFirst(es: seq<ModuleEntry>, order: seq<nat>) {
    forall a, b :: 0 <= a < |order| && 0 <= b < |order| && Edge(es, order[a], order[b]) ==> a < b
  }

  /** The priority sort of `run` starts dependencies first exactly when every dependency already
      precedes its dependent by priority, or by registration among equals. */
  lemma {:induction false} RunStartsDepsFirstIff(es: seq<ModuleEntry>, order: seq<nat>)
    requires StableOrder(es, order)
    ensures DepsFirst(es, order) <==> forall d: nat, i: nat :: Edge(es, d, i) ==> StartsBefore(es, d, i)
  {
    if DepsFirst(es, order) {
      forall d, i | Edge(es, d, i) ensures StartsBefore(es, d, i) {
        InOrder(es, order, d);
        InOrder(es, order, i);
        var a :| 0 <= a < |order| && order[a] == d;
        var b :| 0 <= b < |order| && order[b] == i;
        assert Edge(es, order[a], order[b]);
      }
    }
  }

  lemma InOrder(es: seq<ModuleEntry>, order: seq<nat>, i: nat)
    requires StableOrder(es, order) && i < |es|
    ensures i in order
  {
    AllPlaced(order, |es|, i);
  }

  /** The registered entries mirror the type list: registration order is the reverse of the list,
      and `dep_names` repeats `Required`. */
  ghost predicate Mirrors(es: seq<ModuleEntry>, list: TypeList, required: string -> TypeList) {
    && |es| == |Elems(list)|
    && forall k :: 0 <= k < |es| ==>
         && es[k].name == Elems(list)[|es| - 1 - k]
         && es[k].deps == Elems(required(es[k].name))
  }

  ghost predicate NoSelfDeps(list: TypeList, required: string -> TypeList) {
    forall m :: m in Elems(list) ==> m !in Elems(required(m))
  }

  /** No dependency has a lower priority than a module that needs it. */
  ghost predicate DepsRankHigh(es: seq<ModuleEntry>) {
    forall d: nat, i: nat :: Edge(es, d, i) ==> es[d].priority >= es[i].priority
  }

  ghost predicate DistinctNames(es: seq<ModuleEntry>) {
    forall i, j :: 0 <= i < j < |es| ==> es[i].name != es[j].name
  }

  /** What the compile-time check buys at run time: dependencies are registered earlier. */
  lemma EdgesGoForward(es: seq<ModuleEntry>, list: TypeList, required: string -> TypeList, ps: ListProofs,
                       d: nat, i: nat)
    requires AllDepsOk(list, required, ps) && Mirrors(es, list, required) && DistinctNames(es)
    requires NoSelfDeps(list, required)
    requires Edge(es, d, i)
    ensures d < i
  {
    AllDepsOkSound(list, required, ps);
    var l := Elems(list);
    var k :| 0 <= k < |es[i].deps| && Resolve(es, es[i].deps[k]) == Some(d);
    var at := |es| - 1 - i;
    assert l[at] == es[i].name;
    assert es[d].name in Elems(required(l[at]));
    assert es[d].name in l[at..];
    var x :| 0 <= x < |l[at..]| && l[at..][x] == es[d].name;
    assert es[|es| - 1 - (at + x)].name == es[d].name;
  }

  /** A list that passes the compile-time check makes the topological sort fail exactly when some module
      requires itself. */
  lemma {:induction false} CheckedListsSortIff(es: seq<ModuleEntry>, list: TypeList, required: string -> TypeList,
                                               ps: ListProofs)
    requires AllDepsOk(list, required, ps) && Mirrors(es, list, required) && DistinctNames(es)
    ensures Acyclic(es) <==> NoSelfDeps(list, required)
  {
    if NoSelfDeps(list, required) {
      CheckedListsSort(es, list, required, ps);
    } else {
      var m :| m in Elems(list) && m in Elems(required(m));
      SelfDepCycles(es, list, required, m);
    }
  }

  lemma SelfDepCycles(es: seq<ModuleEntry>, list: TypeList, required: string -> TypeList, m: string)
    requires Mirrors(es, list, required) && DistinctNames(es) && m in Elems(list) && m in Elems(required(m))
    ensures !Acyclic(es)
  {
    var l := Elems(list);
    var x :| 0 <= x < |l| && l[x] == m;
    var i := |es| - 1 - x;
    assert es[i].name == m && m in es[i].deps;
    var k :| 0 <= k < |es[i].deps| && es[i].deps[k] == m;
    assert Resolve(es, m) == Some(i);
    assert Edge(es, i, i);
    var p := [i, i];
    assert StepsAt(es, p, 0);
    assert Cycle(es, p);
  }

  lemma {:induction false} CheckedListsSort(es: seq<ModuleEntry>, list: TypeList, required: string -> TypeList,
                                            ps: ListProofs)
    requires AllDepsOk(list, required, ps) && Mirrors(es, list, required) && DistinctNames(es)
    requires NoSelfDeps(list, required)
    ensures Acyclic(es)
  {
    forall p ensures !Cycle(es, p) {
      if Cycle(es, p) {
        forall k | 0 <= k < |p| - 1 ensures p[k] < p[k + 1] {
          assert StepsAt(es, p, k);
          EdgesGoForward(es, list, required, ps, p[k], p[k + 1]);
        }
        Climbs(p, |p| - 1);
      }
    }
  }

  lemma {:induction false} Climbs(p: seq<nat>, k: nat)
    requires 1 <= k < |p| && forall j {:trigger p[j]} :: 0 <= j < |p| - 1 ==> p[j] < p[j + 1]
    ensures p[0] < p[k]
  {
    if k > 1 { Climbs(p, k - 1); }
    assert p[k - 1] < p[k - 1 + 1];
  }

  /** For such a list, `run`'s plain priority sort starts dependencies first exactly when no
      dependency has a lower priority than a module that needs it. */
  lemma {:induction false} CheckedListsStartInOrder(es: seq<ModuleEntry>, list: TypeList, required: string -> TypeList,
                                                   ps: ListProofs, order: seq<nat>)
    requires AllDepsOk(list, required, ps) && Mirrors(es, list, required) && DistinctNames(es)
    requires NoSelfDeps(list, required)
    requires StableOrder(es, order)
    ensures DepsFirst(es, order) <==> DepsRankHigh(es)
  {
    RunStartsDepsFirstIff(es, order);
    forall d: nat, i: nat | Edge(es, d, i) ensures StartsBefore(es, d, i) <==> es[d].priority >= es[i].priority {
      EdgesGoForward(es, list, required, ps, d, i);
    }
  }

  /** A dependency with a lower priority is started after the module that needs it. */
  lemma LowPriorityDependencyStartsLate()
    ensures var es := [ModuleEntry("db", 0, [], 0), ModuleEntry("api", 10, ["db"], 1)];
            StableOrder(es, [1, 0]) && Edge(es, 0, 1) && !DepsFirst(es, [1, 0])
  {
    var es := [ModuleEntry("db", 0, [], 0), ModuleEntry("api", 10, ["db"], 1)];
    assert es[1].deps[0] == "db" && es[0].name == "db" && es[1].name != "db";
    assert Resolve(es, "db") == Some(0);
    var o := [1, 0];
    assert Edge(es, o[1], o[0]);
  }
}
