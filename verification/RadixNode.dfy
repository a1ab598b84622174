/**
  The router's tree node as the source has it: an object whose `insert` updates its
  fields in place and whose `lookup` pushes to and truncates the captures it is given.

  `model` is the value of the tree below a node; every method is proved against the
  function of the same name in RadixTrie.
 */
module RadixNode {
  import opened Prelude
  import opened RadixTrie
  import opened RouteTable
  import opened RouteNesting

  datatype NodeSegment = Root | LiteralSeg(name: string) | ParamSeg(name: string) | WildcardSeg(name: string)

  function Skip(i: int, k: int): int { if i < k then i else i - 1 }

  lemma ReplaceLiteral(t: Tree, idx: nat, p: Pattern, h: Handler)
    requires WellFormed(t) && p != [] && p[0].Static? && idx < |t.lits|
    requires idx == LowerBound(t.lits, p[0].name) && t.lits[idx].key == p[0].name
    ensures WellFormed(t.lits[idx].tree)
    ensures RadixTrie.Insert(t, p, h) ==
            t.(lits := t.lits[idx := Entry(p[0].name, RadixTrie.Insert(t.lits[idx].tree, p[1..], h))])
  {
  }

  lemma NewLiteral(t: Tree, idx: nat, p: Pattern, h: Handler)
    requires p != [] && p[0].Static? && idx == LowerBound(t.lits, p[0].name)
    requires idx < |t.lits| ==> t.lits[idx].key != p[0].name
    ensures var m := RadixTrie.Insert(t, p, h);
      && m == t.(lits := m.lits) && |m.lits| == |t.lits| + 1
      && m.lits[idx] == Entry(p[0].name, RadixTrie.Insert(EMPTY, p[1..], h))
      && forall i :: 0 <= i < |m.lits| && i != idx ==> m.lits[i] == t.lits[Skip(i, idx)]
  {
  }

  lemma Reassociate(out: Routes, a: Routes, b: Routes, c: Routes, d: Routes)
    ensures out + (a + b + c + d) == out + a + b + c + d
  {
  }

  method InsertAt<T>(s: seq<T>, k: nat, x: T) returns (r: seq<T>)
    requires k <= |s|
    ensures |r| == |s| + 1 && r[k] == x
    ensures forall i :: 0 <= i < |r| && i != k ==> r[i] == s[Skip(i, k)]
  {
    r := s[..k] + [x] + s[k..];
  }

  class Node {
    var segment: NodeSegment
    var handler: Option<Handler>
    var literalChildren: seq<Node>
    var paramChild: Node?
    var wildcardChild: Node?

    /** The nodes of this subtree, and the tree they spell. */
    ghost var repr: set<Node>
    ghost var model: Tree

    /** All of `cs` but number `k` are disjoint valid subtrees inside `rest`, not containing
        `parent`, that spell `es`. */
    static ghost predicate Spread(cs: seq<Node>, es: seq<Entry>, k: int, rest: set<Node>, parent: Node)
      requires parent in rest
      reads rest
      decreases rest, 0
    {
      && |cs| == |es|
      && (forall i :: 0 <= i < |cs| && i != k ==>
            && cs[i] in rest && cs[i] in cs[i].repr && cs[i].repr <= rest && parent !in cs[i].repr
            && cs[i].segment == LiteralSeg(es[i].key) && cs[i].model == es[i].tree && cs[i].Valid())
      && (forall i, j :: 0 <= i < j < |cs| && i != k && j != k ==> cs[i].repr !! cs[j].repr)
    }

    /** The param and wildcard children spell `m` and are apart from the literal children
        `cs` other than number `k`.
        A wildcard child always has a handler. */
    ghost predicate Aside(cs: seq<Node>, m: Tree, k: int, rest: set<Node>)
      requires this in rest && forall i :: 0 <= i < |cs| && i != k ==> cs[i] in rest
      reads this, rest
      decreases rest, 0
    {
      && (if paramChild == null then m.param.None? else
          && paramChild in rest && paramChild in paramChild.repr && paramChild.repr <= rest
          && this !in paramChild.repr && m.param.Some?
          && paramChild.segment == ParamSeg(m.param.value.key)
          && paramChild.model == m.param.value.tree && paramChild.Valid()
          && (forall i :: 0 <= i < |cs| && i != k ==> paramChild.repr !! cs[i].repr))
      && (if wildcardChild == null then m.wild.None? else
          && wildcardChild in rest && wildcardChild != this && m.wild.Some?
          && wildcardChild.segment == WildcardSeg(m.wild.value.0)
          && wildcardChild.handler == Some(m.wild.value.1) && wildcardChild.IsLeaf()
          && (forall i :: 0 <= i < |cs| && i != k ==> wildcardChild !in cs[i].repr)
          && (paramChild != null ==> wildcardChild !in paramChild.repr))
    }

    predicate IsLeaf()
      reads this
    {
      literalChildren == [] && paramChild == null && wildcardChild == null
    }

    ghost predicate Valid()
      reads this, repr
      decreases repr, 1
    {
      && this in repr
      && model.handler == handler
      && Spread(literalChildren, model.lits, -1, repr, this)
      && Aside(literalChildren, model, -1, repr)
    }

    constructor (seg: NodeSegment)
      ensures Valid() && fresh(repr) && model == EMPTY && segment == seg && IsLeaf()
    {
      segment, handler, literalChildren, paramChild, wildcardChild := seg, None, [], null, null;
      repr, model := {this}, EMPTY;
    }

    /** `rest` holds this subtree without literal child `k`, and spells `m` apart from entry `k`. */
    ghost predicate Detached(k: nat, rest: set<Node>, m: Tree)
      reads this, rest
    {
      && this in rest && m.handler == handler
      && k < |literalChildren| == |m.lits|
      && Spread(literalChildren, m.lits, k, rest, this)
      && Aside(literalChildren, m, k, rest)
    }

    lemma Detach(k: nat, m: Tree)
      requires Valid() && k < |literalChildren| && k < |m.lits| == |model.lits|
      requires m == model.(lits := m.lits) && m.lits == model.lits[k := m.lits[k]]
      ensures Detached(k, repr - literalChildren[k].repr, m)
    {
    }

    /** Making room for a new literal child keeps the others as they were. */
    static lemma SpreadShift(cs: seq<Node>, es: seq<Entry>, cs': seq<Node>, es': seq<Entry>, k: nat,
                             rest: set<Node>, parent: Node)
      requires parent in rest && Spread(cs, es, -1, rest, parent)
      requires k < |cs'| == |es'| == |cs| + 1
      requires forall i :: 0 <= i < |cs'| && i != k ==> cs'[i] == cs[Skip(i, k)] && es'[i] == es[Skip(i, k)]
      ensures Spread(cs', es', k, rest, parent)
    {
    }

    /** Putting a disjoint subtree back as literal child `k` gives a valid node. */
    ghost method Attach(k: nat, rest: set<Node>, m: Tree)
      requires Detached(k, rest, m)
      requires var c := literalChildren[k];
        c.Valid() && c.repr !! rest && c.segment == LiteralSeg(m.lits[k].key) && c.model == m.lits[k].tree
      modifies this`repr, this`model
      ensures Valid() && repr == rest + literalChildren[k].repr && model == m
    {
      repr := rest + literalChildren[k].repr;
      model := m;
      assert Spread(literalChildren, m.lits, k, rest, this);
      assert Spread(literalChildren, m.lits, -1, repr, this);
      assert Aside(literalChildren, m, k, rest);
    }

    /** Binary search over the sorted literal children. */
    method SearchLiteral(key: string) returns (found: bool, idx: nat)
      requires Valid() && Sorted(model.lits)
      ensures idx == LowerBound(model.lits, key)
      ensures found <==> idx < |model.lits| && model.lits[idx].key == key
    {
      var lo, hi := 0, |literalChildren|;
      while lo < hi
        invariant 0 <= lo <= hi <= |literalChildren|
        invariant forall j :: 0 <= j < lo ==> StrLess(model.lits[j].key, key)
        invariant forall j :: hi <= j < |literalChildren| ==> StrLess(key, model.lits[j].key)
      {
        var mid := (lo + hi) / 2;
        var k := literalChildren[mid].segment.name;
        StrLessTotal(k, key);
        if k == key {
          LowerBoundUnique(model.lits, key, mid);
          return true, mid;
        } else if StrLess(k, key) {
          forall j | 0 <= j < mid ensures StrLess(model.lits[j].key, key) { StrLessTrans(model.lits[j].key, k, key); }
          lo := mid + 1;
        } else {
          forall j | mid < j < |literalChildren| ensures StrLess(key, model.lits[j].key) {
            StrLessTrans(key, k, model.lits[j].key);
          }
          hi := mid;
        }
      }
      if lo < |literalChildren| { StrLessTotal(model.lits[lo].key, key); }
      LowerBoundUnique(model.lits, key, lo);
      return false, lo;
    }

    /** Registers a route below this node; a later registration of a shape replaces the handler. */
    method Insert(segments: Pattern, h: Handler)
      requires Valid() && WellFormed(model)
      modifies repr
      ensures Valid() && fresh(repr - old(repr)) && segment == old(segment)
      ensures model == RadixTrie.Insert(old(model), segments, h) && WellFormed(model)
      decreases |segments|
    {
      InsertWellFormed(model, segments, h);
      if segments == [] {
        handler := Some(h);
        model := model.(handler := Some(h));
        return;
      }
      match segments[0]
      case Static(key) =>
        var found, idx := SearchLiteral(key);
        if found {
          InsertIntoLiteral(idx, segments, h);
        } else {
          AddLiteral(idx, segments, h);
        }
      case Param(name) =>
        if paramChild != null {
          InsertIntoParam(segments, h);
        } else {
          AddParam(segments, h);
        }
      case Wildcard(name) =>
        SetWildcard(segments, h);
    }

    method SetWildcard(segments: Pattern, h: Handler)
      requires Valid() && segments != [] && segments[0].Wildcard?
      modifies repr
      ensures Valid() && fresh(repr - old(repr)) && segment == old(segment)
      ensures model == RadixTrie.Insert(old(model), segments, h)
    {
      if wildcardChild != null {
        wildcardChild.handler := Some(h);
        model := model.(wild := Some((model.wild.value.0, h)));
      } else {
        AddWildcard(segments[0].name, h);
      }
    }

    method AddWildcard(name: string, h: Handler)
      requires Valid() && wildcardChild == null
      modifies this
      ensures Valid() && fresh(repr - old(repr)) && segment == old(segment)
      ensures model == old(model).(wild := Some((name, h)))
    {
      var c := new Node(WildcardSeg(name));
      c.handler := Some(h);
      wildcardChild, repr, model := c, repr + {c}, model.(wild := Some((name, h)));
    }

    method InsertIntoLiteral(idx: nat, segments: Pattern, h: Handler)
      requires Valid() && WellFormed(model) && segments != [] && segments[0].Static?
      requires idx < |model.lits| && idx == LowerBound(model.lits, segments[0].name)
      requires model.lits[idx].key == segments[0].name
      modifies repr
      ensures Valid() && fresh(repr - old(repr)) && segment == old(segment)
      ensures model == RadixTrie.Insert(old(model), segments, h)
      decreases |segments|, 0
    {
      var c := literalChildren[idx];
      ghost var m := RadixTrie.Insert(model, segments, h);
      ReplaceLiteral(model, idx, segments, h);
      Detach(idx, m);
      ghost var rest := repr - c.repr;
      c.Insert(segments[1..], h);
      Attach(idx, rest, m);
    }

    method AddLiteral(idx: nat, segments: Pattern, h: Handler)
      requires Valid() && WellFormed(model) && segments != [] && segments[0].Static?
      requires idx == LowerBound(model.lits, segments[0].name)
      requires idx < |model.lits| ==> model.lits[idx].key != segments[0].name
      modifies repr
      ensures Valid() && fresh(repr - old(repr)) && segment == old(segment)
      ensures model == RadixTrie.Insert(old(model), segments, h)
      decreases |segments|, 0
    {
      var c := new Node(LiteralSeg(segments[0].name));
      c.Insert(segments[1..], h);
      NewLiteral(model, idx, segments, h);
      Splice(idx, c, RadixTrie.Insert(model, segments, h));
    }

    /** `literal_children.insert(idx, child)`. */
    method Splice(idx: nat, c: Node, ghost m: Tree)
      requires Valid() && c.Valid() && c.repr !! repr && idx <= |model.lits|
      requires m == model.(lits := m.lits) && |m.lits| == |model.lits| + 1
      requires forall i :: 0 <= i < |m.lits| && i != idx ==> m.lits[i] == model.lits[Skip(i, idx)]
      requires c.segment == LiteralSeg(m.lits[idx].key) && c.model == m.lits[idx].tree
      modifies this
      ensures Valid() && repr == old(repr) + c.repr && model == m && segment == old(segment)
    {
      ghost var was, es := literalChildren, model.lits;
      var cs := InsertAt(literalChildren, idx, c);
      SpreadShift(was, es, cs, m.lits, idx, repr, this);
      assert Aside(cs, m, idx, repr);
      literalChildren := cs;
      assert Spread(cs, m.lits, idx, repr, this);
      assert Aside(cs, m, idx, repr);
      Attach(idx, repr, m);
    }

    method InsertIntoParam(segments: Pattern, h: Handler)
      requires Valid() && WellFormed(model) && segments != [] && segments[0].Param? && paramChild != null
      modifies repr
      ensures Valid() && fresh(repr - old(repr)) && segment == old(segment)
      ensures model == RadixTrie.Insert(old(model), segments, h)
      decreases |segments|, 0
    {
      var c := paramChild;
      c.Insert(segments[1..], h);
      repr := repr + c.repr;
      model := RadixTrie.Insert(model, segments, h);
    }

    method AddParam(segments: Pattern, h: Handler)
      requires Valid() && WellFormed(model) && segments != [] && segments[0].Param? && paramChild == null
      modifies repr
      ensures Valid() && fresh(repr - old(repr)) && segment == old(segment)
      ensures model == RadixTrie.Insert(old(model), segments, h)
      decreases |segments|, 0
    {
      var c := new Node(ParamSeg(segments[0].name));
      c.Insert(segments[1..], h);
      PutParam(c, RadixTrie.Insert(model, segments, h));
    }

    method PutParam(c: Node, ghost m: Tree)
      requires Valid() && c.Valid() && c.repr !! repr && paramChild == null
      requires m.param.Some? && m == model.(param := m.param)
      requires c.segment == ParamSeg(m.param.value.key) && c.model == m.param.value.tree
      modifies this
      ensures Valid() && repr == old(repr) + c.repr && model == m && segment == old(segment)
    {
      paramChild := c;
      repr := repr + c.repr;
      model := m;
    }

    /** Looks the path up below this node, pushing captures to `params` and rolling them back. */
    method Lookup(parts: seq<string>, params: Captures) returns (found: Option<Handler>, params': Captures)
      requires Valid() && WellFormed(model)
      ensures match RadixTrie.Lookup(model, parts)
              case None => found.None? && params' == params
              case Some(f) => found == Some(f.0) && params' == params + f.1
      decreases |parts|
    {
      params' := params;
      if parts == [] {
        return handler, params';
      }
      found, params' := LookupLiteral(parts, params');
      if found.Some? { return; }
      if paramChild != null {
        var savedLen := |params'|;
        params' := params' + [(paramChild.segment.name, parts[0])];
        found, params' := paramChild.Lookup(parts[1..], params');
        if found.Some? { return; }
        params' := params'[..savedLen];
      }
      if wildcardChild != null {
        var rest := JoinParts(parts);
        params' := params' + [(wildcardChild.segment.name, rest)];
        return wildcardChild.handler, params';
      }
      return None, params';
    }

    /** Tries the literal child the first segment names, if there is one. */
    method LookupLiteral(parts: seq<string>, params: Captures) returns (found: Option<Handler>, params': Captures)
      requires Valid() && WellFormed(model) && parts != []
      ensures if Child(model, parts[0]).None? then found.None? && params' == params
              else match RadixTrie.Lookup(Child(model, parts[0]).value, parts[1..])
                case None => found.None? && params' == params
                case Some(f) => found == Some(f.0) && params' == params + f.1
      decreases |parts|, 0
    {
      var hit, idx := SearchLiteral(parts[0]);
      if hit {
        found, params' := literalChildren[idx].Lookup(parts[1..], params);
      } else {
        found, params' := None, params;
      }
    }

    /** Flattens the subtree into routes, appended to `out`; `current` is the path to this node. */
    method CollectRoutes(current: Pattern, out: Routes) returns (out': Routes)
      requires Valid()
      ensures out' == out + Collect(model, current)
      decreases repr
    {
      ghost var par := if model.param.None? then [] else
        Collect(model.param.value.tree, current + [Param(model.param.value.key)]);
      Reassociate(out, OwnRoute(model, current), CollectLits(model.lits, current), par, WildRoute(model, current));
      out' := out;
      if handler.Some? { out' := out' + [(current, handler.value)]; }
      assert out' == out + OwnRoute(model, current);
      out' := CollectLiterals(current, out');
      if paramChild != null {
        out' := paramChild.CollectRoutes(current + [Param(paramChild.segment.name)], out');
      }
      assert out' == out + OwnRoute(model, current) + CollectLits(model.lits, current) + par;
      if wildcardChild != null {
        // the walk goes into this child too, but it has none of its own
        assert wildcardChild.IsLeaf();
        out' := out' + [(current + [Wildcard(wildcardChild.segment.name)], wildcardChild.handler.value)];
      }
    }

    method CollectLiterals(current: Pattern, out: Routes) returns (out': Routes)
      requires Valid()
      ensures out' == out + CollectLits(model.lits, current)
      decreases repr, 0
    {
      out' := out;
      for i := 0 to |literalChildren|
        invariant out' + CollectLits(model.lits[i..], current) == out + CollectLits(model.lits, current)
      {
        var child := literalChildren[i];
        ghost var before, own, later := out', Collect(child.model, current + [Static(child.segment.name)]),
                                        CollectLits(model.lits[i + 1..], current);
        assert model.lits[i..][1..] == model.lits[i + 1..];
        assert before + (own + later) == (before + own) + later;
        out' := child.CollectRoutes(current + [Static(child.segment.name)], out');
      }
    }
  }

  /** The remaining segments joined with `/`. */
  method JoinParts(parts: seq<string>) returns (s: string)
    requires parts != []
    ensures s == Join(parts)
  {
    s := parts[0];
    var i := 1;
    while i < |parts|
      invariant 1 <= i <= |parts|
      invariant if i < |parts| then s + "/" + Join(parts[i..]) == Join(parts) else s == Join(parts)
    {
      assert parts[i..][1..] == parts[i + 1..] && parts[i..][0] == parts[i];
      s := s + "/" + parts[i];
      i := i + 1;
    }
  }
}
