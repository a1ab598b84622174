/**
  The module registry and its topological sort (Kahn's algorithm with a priority heap).
 */
module Registry {
  import opened Prelude
  import opened DepGraph

  // ---- Counting open dependencies ----

  /** How many of the names resolve to a module that is not placed yet. */
  function Open(es: seq<ModuleEntry>, names: seq<string>, placed: set<nat>): nat {
    if names == [] then 0
    else
      var r := Resolve(es, names[|names| - 1]);
      Open(es, names[..|names| - 1], placed) + (if r.Some? && r.value !in placed then 1 else 0)
  }

  /** How many of the names resolve to module `d`. */
  function Mult(es: seq<ModuleEntry>, names: seq<string>, d: nat): nat {
    if names == [] then 0
    else Mult(es, names[..|names| - 1], d) + (if Resolve(es, names[|names| - 1]) == Some(d) then 1 else 0)
  }

  lemma {:induction false} PlacingCloses(es: seq<ModuleEntry>, names: seq<string>, placed: set<nat>, d: nat)
    requires d !in placed
    ensures Open(es, names, placed) == Open(es, names, placed + {d}) + Mult(es, names, d)
  {
    if names != [] { PlacingCloses(es, names[..|names| - 1], placed, d); }
  }

  lemma {:induction false} OpenZero(es: seq<ModuleEntry>, names: seq<string>, placed: set<nat>)
    ensures Open(es, names, placed) == 0 <==>
            forall k :: 0 <= k < |names| && Resolve(es, names[k]).Some? ==> Resolve(es, names[k]).value in placed
  {
    if names != [] {
      var init := names[..|names| - 1];
      OpenZero(es, init, placed);
      assert forall k :: 0 <= k < |init| ==> init[k] == names[k];
    }
  }

  lemma {:induction false} MultZero(es: seq<ModuleEntry>, names: seq<string>, d: nat)
    ensures Mult(es, names, d) == 0 <==> forall k :: 0 <= k < |names| ==> Resolve(es, names[k]) != Some(d)
  {
    if names != [] {
      var init := names[..|names| - 1];
      MultZero(es, init, d);
      assert forall k :: 0 <= k < |init| ==> init[k] == names[k];
    }
  }

  /** No open dependency means ready. */
  lemma OpenMeansReady(es: seq<ModuleEntry>, i: nat, order: seq<nat>)
    requires i < |es|
    ensures i !in order && Open(es, es[i].deps, Members(order)) == 0 <==> Ready(es, i, order)
  {
    OpenZero(es, es[i].deps, Members(order));
    if Ready(es, i, order) {
      forall k | 0 <= k < |es[i].deps| && Resolve(es, es[i].deps[k]).Some?
        ensures Resolve(es, es[i].deps[k]).value in Members(order)
      {
        assert Edge(es, Resolve(es, es[i].deps[k]).value, i);
      }
    }
  }

  // ---- The phases of the sort ----

  /** `name_to_idx`: a later module of the same name replaces an earlier one. */
  method IndexNames(es: seq<ModuleEntry>) returns (idx: map<string, nat>)
    ensures forall name :: if name in idx then Resolve(es, name) == Some(idx[name]) else Resolve(es, name) == None
  {
    idx := map[];
    for i := 0 to |es|
      invariant forall name ::
        if name in idx then Resolve(es[..i], name) == Some(idx[name]) else Resolve(es[..i], name) == None
    {
      assert es[..i + 1][..i] == es[..i];
      idx := idx[es[i].name := i];
    }
    assert es[..|es|] == es;
  }

  /** The dependency names seen after the loops over modules and names reached `(i, k)`. */
  function Seen(es: seq<ModuleEntry>, i: nat, k: nat, j: nat): seq<string>
    requires j < |es| && i <= |es| && (i < |es| ==> k <= |es[i].deps|)
  {
    if j < i then es[j].deps else if j == i then es[j].deps[..k] else []
  }

  /** Module `j`'s entries in the tables are the counts for `names`. */
  ghost predicate Tally(es: seq<ModuleEntry>, names: seq<string>, j: nat, inDegree: seq<nat>, dependents: seq<seq<nat>>)
    requires j < |inDegree| && |dependents| == |es|
  {
    && inDegree[j] == Open(es, names, {})
    && forall d :: 0 <= d < |es| ==> multiset(dependents[d])[j] == Mult(es, names, d)
  }

  /** The tables hold the counts of what was seen. */
  ghost predicate Tallied(es: seq<ModuleEntry>, i: nat, k: nat, inDegree: seq<nat>, dependents: seq<seq<nat>>)
    requires i <= |es| && (i < |es| ==> k <= |es[i].deps|)
  {
    && |inDegree| == |dependents| == |es|
    && (forall d, x :: 0 <= d < |es| && x in dependents[d] ==> x < |es|)
    && forall j :: 0 <= j < |es| ==> Tally(es, Seen(es, i, k, j), j, inDegree, dependents)
  }

  lemma TallyStep(es: seq<ModuleEntry>, i: nat, k: nat, inDegree: seq<nat>, dependents: seq<seq<nat>>)
    requires i < |es| && k < |es[i].deps| && Tallied(es, i, k, inDegree, dependents)
    ensures match Resolve(es, es[i].deps[k])
            case None => Tallied(es, i, k + 1, inDegree, dependents)
            case Some(d) => Tallied(es, i, k + 1, inDegree[i := inDegree[i] + 1], dependents[d := dependents[d] + [i]])
  {
    var r := Resolve(es, es[i].deps[k]);
    var inDegree' := if r.Some? then inDegree[i := inDegree[i] + 1] else inDegree;
    var dependents' := if r.Some? then dependents[r.value := dependents[r.value] + [i]] else dependents;
    var k' := k + 1;
    forall j | 0 <= j < |es| ensures Tally(es, Seen(es, i, k', j), j, inDegree', dependents') {
      TallyStepOne(es, i, k, inDegree, dependents, j);
    }
    assert Tallied(es, i, k + 1, inDegree', dependents');
  }

  lemma TallyStepOne(es: seq<ModuleEntry>, i: nat, k: nat, inDegree: seq<nat>, dependents: seq<seq<nat>>, j: nat)
    requires i < |es| && j < |es| && k < |es[i].deps| && |inDegree| == |dependents| == |es|
    requires Tally(es, Seen(es, i, k, j), j, inDegree, dependents)
    ensures match Resolve(es, es[i].deps[k])
            case None => Tally(es, Seen(es, i, k + 1, j), j, inDegree, dependents)
            case Some(d) => Tally(es, Seen(es, i, k + 1, j), j, inDegree[i := inDegree[i] + 1],
                                  dependents[d := dependents[d] + [i]])
  {
    var r := Resolve(es, es[i].deps[k]);
    if j == i {
      assert es[i].deps[..k + 1] == es[i].deps[..k] + [es[i].deps[k]];
      TallyOwn(es, es[i].deps[..k], es[i].deps[k], i, inDegree, dependents);
    } else if r.Some? {
      TallyOther(es, Seen(es, i, k, j), j, i, r.value, inDegree, dependents);
    }
  }

  lemma TallyOwn(es: seq<ModuleEntry>, names: seq<string>, name: string, i: nat, inDegree: seq<nat>,
                 dependents: seq<seq<nat>>)
    requires i < |inDegree| == |dependents| == |es| && Tally(es, names, i, inDegree, dependents)
    ensures match Resolve(es, name)
            case None => Tally(es, names + [name], i, inDegree, dependents)
            case Some(d) => Tally(es, names + [name], i, inDegree[i := inDegree[i] + 1],
                                  dependents[d := dependents[d] + [i]])
  {
    assert (names + [name])[..|names|] == names;
  }

  lemma TallyOther(es: seq<ModuleEntry>, names: seq<string>, j: nat, i: nat, d: nat, inDegree: seq<nat>,
                   dependents: seq<seq<nat>>)
    requires i < |es| && j < |es| && i != j && d < |es| == |inDegree| == |dependents|
    requires Tally(es, names, j, inDegree, dependents)
    ensures Tally(es, names, j, inDegree[i := inDegree[i] + 1], dependents[d := dependents[d] + [i]])
  {
  }

  /** Fills `in_degree` and `dependents`. */
  method CountDeps(es: seq<ModuleEntry>, idx: map<string, nat>) returns (inDegree: seq<nat>, dependents: seq<seq<nat>>)
    requires forall name :: if name in idx then Resolve(es, name) == Some(idx[name]) else Resolve(es, name) == None
    ensures Tallied(es, |es|, 0, inDegree, dependents)
  {
    inDegree := seq(|es|, _ => 0);
    dependents := seq(|es|, _ => []);
    TallyStart(es, inDegree, dependents);
    for i := 0 to |es|
      invariant Tallied(es, i, 0, inDegree, dependents)
    {
      for k := 0 to |es[i].deps|
        invariant Tallied(es, i, k, inDegree, dependents)
      {
        TallyStep(es, i, k, inDegree, dependents);
        if es[i].deps[k] in idx {
          var d := idx[es[i].deps[k]];
          dependents := dependents[d := dependents[d] + [i]];
          inDegree := inDegree[i := inDegree[i] + 1];
        }
      }
      TallyNext(es, i, inDegree, dependents);
    }
  }

  lemma TallyStart(es: seq<ModuleEntry>, inDegree: seq<nat>, dependents: seq<seq<nat>>)
    requires |inDegree| == |dependents| == |es|
    requires forall j :: 0 <= j < |es| ==> inDegree[j] == 0 && dependents[j] == []
    ensures Tallied(es, 0, 0, inDegree, dependents)
  {
    assert forall j :: 0 <= j < |es| ==> Seen(es, 0, 0, j) == [];
  }

  lemma TallyNext(es: seq<ModuleEntry>, i: nat, inDegree: seq<nat>, dependents: seq<seq<nat>>)
    requires i < |es| && Tallied(es, i, |es[i].deps|, inDegree, dependents)
    ensures Tallied(es, i + 1, 0, inDegree, dependents)
  {
    var i' := i + 1;
    forall j | 0 <= j < |es| ensures Tally(es, Seen(es, i', 0, j), j, inDegree, dependents) {
      assert Tally(es, Seen(es, i, |es[i].deps|, j), j, inDegree, dependents);
      assert Seen(es, i', 0, j) == Seen(es, i, |es[i].deps|, j);
    }
  }

  /** `dependents` lists each dependent as often as it names the dependency. */
  ghost predicate ListsDependents(es: seq<ModuleEntry>, dependents: seq<seq<nat>>) {
    && |dependents| == |es|
    && (forall d, x :: 0 <= d < |es| && x in dependents[d] ==> x < |es|)
    && forall d, j :: 0 <= d < |es| && 0 <= j < |es| ==> multiset(dependents[d])[j] == Mult(es, es[j].deps, d)
  }

  /** `in_degree` counts open dependencies, and the heap holds the unplaced modules that have none. */
  ghost predicate InStep(es: seq<ModuleEntry>, order: seq<nat>, inDegree: seq<nat>, ready: set<nat>) {
    && |inDegree| == |es|
    && (forall j :: 0 <= j < |es| ==> inDegree[j] == Open(es, es[j].deps, Members(order)))
    && (forall j :: j in order ==> j < |es| && inDegree[j] == 0)
    && forall j: nat :: j in ready <==> j < |es| && j !in order && inDegree[j] == 0
  }

  lemma TalliedAll(es: seq<ModuleEntry>, inDegree: seq<nat>, dependents: seq<seq<nat>>)
    requires Tallied(es, |es|, 0, inDegree, dependents)
    ensures ListsDependents(es, dependents)
    ensures forall j :: 0 <= j < |es| ==> inDegree[j] == Open(es, es[j].deps, {})
  {
    forall j | 0 <= j < |es| ensures Tally(es, es[j].deps, j, inDegree, dependents) {
      assert Tally(es, Seen(es, |es|, 0, j), j, inDegree, dependents);
    }
  }

  /** `BinaryHeap::pop` on the pairs `(priority, index)` of the modules in `ready`. */
  method PopMax(es: seq<ModuleEntry>, ready: set<nat>) returns (idx: nat, ready': set<nat>)
    requires ready != {} && forall j :: j in ready ==> j < |es|
    ensures idx in ready && ready' == ready - {idx}
    ensures forall j :: j in ready ==> Outranks(es, idx, j)
  {
    idx :| idx in ready;
    var rest := ready - {idx};
    while rest != {}
      invariant idx in ready && rest <= ready
      invariant forall j :: j in ready - rest ==> Outranks(es, idx, j)
      decreases rest
    {
      var j :| j in rest;
      ghost var was, seen := idx, ready - rest;
      if Outranks(es, j, idx) { idx := j; }
      forall x | x in seen + {j} ensures Outranks(es, idx, x) {
        assert x in seen ==> Outranks(es, was, x);
      }
      rest := rest - {j};
      assert ready - rest == seen + {j};
    }
    ready' := ready - {idx};
  }

  /** Placing `idx`: every mention of it in a module's dependencies lowers that module's count.
      The decrement never underflows, and a module enters the heap once. */
  method Place(es: seq<ModuleEntry>, ghost order: seq<nat>, idx: nat, dependents: seq<seq<nat>>,
               inDegree: seq<nat>, ready: set<nat>)
    returns (inDegree': seq<nat>, ready': set<nat>)
    requires ListsDependents(es, dependents) && idx < |es| && idx !in order
    requires InStep(es, order, inDegree, ready + {idx}) && idx !in ready
    ensures InStep(es, order + [idx], inDegree', ready')
  {
    inDegree', ready' := inDegree, ready;
    var deps := dependents[idx];
    Remaining(es, order, idx, dependents, inDegree);
    assert deps[0..] == deps;
    for q := 0 to |deps|
      invariant Releasing(es, order + [idx], inDegree', ready', deps[q..])
    {
      var j := deps[q];
      assert j in deps;
      ReleaseOne(es, order, idx, inDegree, inDegree', ready', deps, q);
      inDegree' := inDegree'[j := inDegree'[j] - 1];
      if inDegree'[j] == 0 { ready' := ready' + {j}; }
    }
    assert deps[|deps|..] == [];
    Released(es, order, idx, dependents, inDegree, inDegree', ready');
  }

  /** Halfway through the releases: the mentions in `todo` are still counted. */
  ghost predicate Releasing(es: seq<ModuleEntry>, order: seq<nat>, inDegree: seq<nat>, ready: set<nat>,
                            todo: seq<nat>)
  {
    && |inDegree| == |es|
    && (forall j :: 0 <= j < |es| ==> inDegree[j] == Open(es, es[j].deps, Members(order)) + multiset(todo)[j])
    && forall j: nat :: j in ready <==> j < |es| && j !in order && inDegree[j] == 0
  }

  lemma ReleaseOne(es: seq<ModuleEntry>, order: seq<nat>, idx: nat, inDegree0: seq<nat>,
                   inDegree: seq<nat>, ready: set<nat>, deps: seq<nat>, q: nat)
    requires idx < |es| && q < |deps| && deps[q] < |es| && |inDegree0| == |es|
    requires Releasing(es, order + [idx], inDegree, ready, deps[q..])
    requires inDegree0[idx] == 0 && forall j :: j in order ==> j < |es| && inDegree0[j] == 0
    requires forall j :: 0 <= j < |es| ==> inDegree0[j] >= multiset(deps)[j]
    ensures var j := deps[q];
      && inDegree[j] > 0 && j !in ready
      && var inDegree' := inDegree[j := inDegree[j] - 1];
         Releasing(es, order + [idx], inDegree', if inDegree'[j] == 0 then ready + {j} else ready, deps[q + 1..])
  {
    var j := deps[q];
    assert deps[q..] == [j] + deps[q + 1..];
    assert forall x :: multiset(deps[q..])[x] == multiset(deps[q + 1..])[x] + if x == j then 1 else 0;
    assert j in deps && multiset(deps)[j] > 0;
  }

  lemma Released(es: seq<ModuleEntry>, order: seq<nat>, idx: nat, dependents: seq<seq<nat>>, inDegree0: seq<nat>,
                 inDegree: seq<nat>, ready: set<nat>)
    requires ListsDependents(es, dependents) && idx < |es| && |inDegree0| == |es|
    requires forall j :: 0 <= j < |es| ==>
      inDegree0[j] == Open(es, es[j].deps, Members(order + [idx])) + multiset(dependents[idx])[j]
    requires inDegree0[idx] == 0 && forall j :: j in order ==> j < |es| && inDegree0[j] == 0
    requires Releasing(es, order + [idx], inDegree, ready, [])
    ensures InStep(es, order + [idx], inDegree, ready)
  {
  }

  lemma Remaining(es: seq<ModuleEntry>, order: seq<nat>, idx: nat, dependents: seq<seq<nat>>, inDegree: seq<nat>)
    requires ListsDependents(es, dependents) && idx < |es| && idx !in order && |inDegree| == |es|
    requires forall j :: 0 <= j < |es| ==> inDegree[j] == Open(es, es[j].deps, Members(order))
    ensures forall j :: 0 <= j < |es| ==>
      inDegree[j] == Open(es, es[j].deps, Members(order + [idx])) + multiset(dependents[idx])[j]
  {
    assert Members(order + [idx]) == Members(order) + {idx};
    forall j | 0 <= j < |es| ensures
      inDegree[j] == Open(es, es[j].deps, Members(order + [idx])) + multiset(dependents[idx])[j]
    {
      PlacingCloses(es, es[j].deps, Members(order), idx);
    }
  }

  /** Kahn's loop: pop the greatest ready module, place it, release its dependents. */
  method Drain(es: seq<ModuleEntry>, inDegree0: seq<nat>, dependents: seq<seq<nat>>) returns (order: seq<nat>)
    requires ListsDependents(es, dependents) && |inDegree0| == |es|
    requires forall j :: 0 <= j < |es| ==> inDegree0[j] == Open(es, es[j].deps, {})
    ensures Greedy(es, order) && forall j :: !Ready(es, j, order)
  {
    var inDegree := inDegree0;
    var ready := HeapOf(inDegree0);
    order := [];
    assert Members(order) == {};
    while ready != {}
      invariant Greedy(es, order) && InStep(es, order, inDegree, ready)
      decreases |es| - |order|
    {
      ReadyIs(es, order, inDegree, ready);
      var idx, rest := PopMax(es, ready);
      GreedyExtends(es, order, idx);
      StillRoom(es, order, idx);
      assert rest + {idx} == ready;
      inDegree, ready := Place(es, order, idx, dependents, inDegree, rest);
      order := order + [idx];
    }
    ReadyIs(es, order, inDegree, ready);
  }

  /** The modules with no open dependency, pushed in index order. */
  method HeapOf(inDegree: seq<nat>) returns (ready: set<nat>)
    ensures forall j: nat :: j in ready <==> j < |inDegree| && inDegree[j] == 0
  {
    ready := {};
    for i := 0 to |inDegree|
      invariant forall j: nat :: j in ready <==> j < i && inDegree[j] == 0
    {
      if inDegree[i] == 0 { ready := ready + {i}; }
    }
  }

  lemma ReadyIs(es: seq<ModuleEntry>, order: seq<nat>, inDegree: seq<nat>, ready: set<nat>)
    requires InStep(es, order, inDegree, ready)
    ensures forall j :: j in ready <==> Ready(es, j, order)
  {
    forall j | 0 <= j < |es| ensures j in ready <==> Ready(es, j, order) { OpenMeansReady(es, j, order); }
  }

  lemma GreedyExtends(es: seq<ModuleEntry>, order: seq<nat>, idx: nat)
    requires Greedy(es, order) && Ready(es, idx, order)
    requires forall j :: Ready(es, j, order) ==> Outranks(es, idx, j)
    ensures Greedy(es, order + [idx])
  {
    var o := order + [idx];
    forall k | 0 <= k < |o|
      ensures Ready(es, o[k], o[..k]) && forall j :: Ready(es, j, o[..k]) ==> Outranks(es, o[k], j)
    {
      if k < |order| { assert o[..k] == order[..k]; } else { assert o[..k] == order; }
    }
  }

  lemma StillRoom(es: seq<ModuleEntry>, order: seq<nat>, idx: nat)
    requires Greedy(es, order) && Ready(es, idx, order)
    ensures |order| < |es|
  {
    GreedyDistinct(es, order);
    OrderBelow(es, order);
    DistinctCard(order);
    SubsetCard(Members(order), Upto(|es|) - {idx});
  }

  // ---- The registry ----

  ghost predicate Reordered(es: seq<ModuleEntry>, es': seq<ModuleEntry>, order: seq<nat>) {
    && |es'| == |order| == |es| && Distinct(order)
    && forall k :: 0 <= k < |order| ==> order[k] < |es| && es'[k] == es[order[k]]
  }

  /** Moves the entries out in the given order; each slot is still full when it is taken. */
  method Reorder(es: seq<ModuleEntry>, order: seq<nat>) returns (es': seq<ModuleEntry>)
    requires |order| == |es| && Distinct(order) && forall k :: 0 <= k < |order| ==> order[k] < |es|
    ensures Reordered(es, es', order)
  {
    var temp := seq(|es|, i requires 0 <= i < |es| => Some(es[i]));
    es' := [];
    for k := 0 to |order|
      invariant |es'| == k && |temp| == |es|
      invariant forall j :: 0 <= j < k ==> es'[j] == es[order[j]]
      invariant forall i :: 0 <= i < |es| && i !in order[..k] ==> temp[i] == Some(es[i])
    {
      var idx := order[k];
      assert idx !in order[..k];
      assert temp[idx].Some?;
      es' := es' + [temp[idx].value];
      temp := temp[idx := None];
      assert order[..k + 1] == order[..k] + [idx];
    }
  }

  /** The names of the modules behind a cycle, in the order of registration. */
  ghost function NamesBehindCycles(es: seq<ModuleEntry>, n: nat): seq<string>
    requires n <= |es|
  {
    if n == 0 then []
    else NamesBehindCycles(es, n - 1) + (if BehindCycle(es, n - 1) then [es[n - 1].name] else [])
  }

  /** The names reported with a circular-dependency error. */
  method UnplacedNames(es: seq<ModuleEntry>, order: seq<nat>) returns (names: seq<string>)
    requires Greedy(es, order) && forall j :: !Ready(es, j, order)
    ensures names == NamesBehindCycles(es, |es|)
  {
    names := [];
    for i := 0 to |es|
      invariant names == NamesBehindCycles(es, i)
    {
      UnplacedIff(es, order, i);
      if i !in order { names := names + [es[i].name]; }
    }
  }

  /** A sort that cannot place everything has found a cycle. */
  lemma LeftoverIsStuck(es: seq<ModuleEntry>, order: seq<nat>)
    requires Greedy(es, order) && |order| != |es| && forall j :: !Ready(es, j, order)
    ensures !Acyclic(es)
  {
    GreedyDistinct(es, order);
    OrderBelow(es, order);
    DistinctCard(order);
    SubsetCard(Members(order), Upto(|es|));
    if forall j :: 0 <= j < |es| ==> j in order { SubsetCard(Upto(|es|), Members(order)); }
    var j :| 0 <= j < |es| && j !in order;
    UnplacedIff(es, order, j);
  }

  class ModuleRegistry {
    var entries: seq<ModuleEntry>

    constructor ()
      ensures entries == []
    {
      entries := [];
    }

    method Push(e: ModuleEntry)
      modifies this
      ensures entries == old(entries) + [e]
    {
      entries := entries + [e];
    }

    /** Succeeds exactly when the dependency graph is acyclic. On success the entries are put in
        the boot order; on failure they stay as they were, and exactly the modules on a cycle or
        depending on one are named. */
    method TopologicalSort() returns (r: Result<(), seq<string>>)
      modifies this
      ensures r.Ok? <==> Acyclic(old(entries))
      ensures r.Ok? ==> exists order :: BootOrder(old(entries), order) && Reordered(old(entries), entries, order)
      ensures r.Err? ==> entries == old(entries) && r.error == NamesBehindCycles(entries, |entries|)
    {
      var idx := IndexNames(entries);
      var inDegree, dependents := CountDeps(entries, idx);
      TalliedAll(entries, inDegree, dependents);
      var order := Drain(entries, inDegree, dependents);
      GreedyDistinct(entries, order);
      OrderBelow(entries, order);
      if |order| != |entries| {
        LeftoverIsStuck(entries, order);
        var names := UnplacedNames(entries, order);
        return Err(names);
      }
      assert BootOrder(entries, order);
      OrderMeansAcyclic(entries, order);
      entries := Reorder(entries, order);
      return Ok(());
    }
  }
}
