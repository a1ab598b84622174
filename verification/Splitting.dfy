/**
  Cutting a sequence at every occurrence of a separator, as `split` does: never empty, and empty
  pieces are kept.
 */
module Splitting {

  function SplitOn<T(==)>(s: seq<T>, c: T): (parts: seq<seq<T>>)
    ensures parts != []
  {
    if s == [] then [[]]
    else if s[0] == c then [[]] + SplitOn(s[1..], c)
    else var rest := SplitOn(s[1..], c); [[s[0]] + rest[0]] + rest[1..]
  }

  lemma {:induction false} SplitNone<T>(s: seq<T>, c: T)
    requires c !in s
    ensures SplitOn(s, c) == [s]
  {
    if s != [] {
      SplitNone(s[1..], c);
      assert s == [s[0]] + s[1..];
    }
  }

  /** A separator between two sequences is always a cut. */
  lemma {:induction false} SplitAppend<T>(a: seq<T>, c: T, b: seq<T>)
    ensures SplitOn(a + [c] + b, c) == SplitOn(a, c) + SplitOn(b, c)
  {
    var s := a + [c] + b;
    if a == [] {
      assert s[1..] == b;
    } else {
      assert s[1..] == a[1..] + [c] + b;
      SplitAppend(a[1..], c, b);
    }
  }

  lemma SplitFirst<T>(a: seq<T>, c: T, b: seq<T>)
    requires c !in a
    ensures SplitOn(a + [c] + b, c) == [a] + SplitOn(b, c)
  {
    SplitAppend(a, c, b);
    SplitNone(a, c);
  }

  /** The first piece, and what follows its separator. */
  lemma {:induction false} SplitJoins<T>(s: seq<T>, c: T)
    ensures var parts := SplitOn(s, c);
      if |parts| == 1 then s == parts[0]
      else |parts[0]| < |s| && s == parts[0] + [c] + s[|parts[0]| + 1..]
           && SplitOn(s[|parts[0]| + 1..], c) == parts[1..]
    decreases |s|
  {
    if s != [] {
      if s[0] == c {
        assert s == [] + [c] + s[1..];
      } else {
        SplitJoins(s[1..], c);
        var rest := SplitOn(s[1..], c);
        assert s == [s[0]] + s[1..];
        if |rest| > 1 { OneLonger(s[0], s[1..], rest[0], c); }
      }
    }
  }

  lemma OneLonger<T>(x: T, s: seq<T>, a: seq<T>, c: T)
    requires |a| < |s| && s == a + [c] + s[|a| + 1..]
    ensures var t, b := [x] + s, [x] + a; t == b + [c] + t[|b| + 1..] && t[|b| + 1..] == s[|a| + 1..]
  {
    var t, b := [x] + s, [x] + a;
    assert t[|b| + 1..] == s[|a| + 1..];
  }

  lemma {:induction false} PiecesAreFree<T>(s: seq<T>, c: T, k: nat)
    requires k < |SplitOn(s, c)|
    ensures c !in SplitOn(s, c)[k]
    decreases |s|
  {
    if s != [] {
      if s[0] == c {
        if k > 0 { PiecesAreFree(s[1..], c, k - 1); }
      } else {
        PiecesAreFree(s[1..], c, k);
      }
    }
  }
}
