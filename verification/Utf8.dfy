/**
  UTF-8 as bytes (RFC 3629, section 4): which byte strings are well-formed, where characters begin,
  and which characters are white space.
 */
module Utf8 {
  import opened Prelude

  predicate Continuation(b: byte) { 128 <= b < 192 }

  /** The length of the well-formed character at the front, 0 if there is none. */
  function CharLen(s: Bytes): (n: nat)
    ensures n <= |s| && (s != [] && s[0] < 128 ==> n == 1)
    ensures forall i :: 1 <= i < n ==> Continuation(s[i])
    ensures n > 0 ==> !Continuation(s[0])
  {
    if s == [] then 0
    else if s[0] < 0x80 then 1
    else if |s| >= 2 && 0xC2 <= s[0] <= 0xDF && Continuation(s[1]) then 2
    else if |s| >= 3 && SecondOfThree(s[0], s[1]) && Continuation(s[2]) then 3
    else if |s| >= 4 && SecondOfFour(s[0], s[1]) && Continuation(s[2]) && Continuation(s[3]) then 4
    else 0
  }

  predicate SecondOfThree(a: byte, b: byte) {
    || (a == 0xE0 && 0xA0 <= b <= 0xBF)
    || (0xE1 <= a <= 0xEC && Continuation(b))
    || (a == 0xED && 0x80 <= b <= 0x9F)
    || (0xEE <= a <= 0xEF && Continuation(b))
  }

  predicate SecondOfFour(a: byte, b: byte) {
    || (a == 0xF0 && 0x90 <= b <= 0xBF)
    || (0xF1 <= a <= 0xF3 && Continuation(b))
    || (a == 0xF4 && 0x80 <= b <= 0x8F)
  }

  predicate WellFormed(s: Bytes) {
    s == [] || (CharLen(s) > 0 && WellFormed(s[CharLen(s)..]))
  }

  /** Position `i` is where a character begins, or the end. */
  predicate Boundary(s: Bytes, i: nat)
    decreases |s|
  {
    i == 0 || (0 < CharLen(s) <= i && Boundary(s[CharLen(s)..], i - CharLen(s)))
  }

  /** In well-formed text the boundaries are the positions without a continuation byte. */
  lemma {:induction false} BoundaryIff(s: Bytes, i: nat)
    requires WellFormed(s) && i <= |s|
    ensures Boundary(s, i) <==> i == |s| || !Continuation(s[i])
    decreases |s|
  {
    if s != [] && i >= CharLen(s) {
      BoundaryIff(s[CharLen(s)..], i - CharLen(s));
    }
  }

  /** ASCII text is well-formed. */
  lemma {:induction false} AsciiWellFormed(s: Bytes)
    requires forall i :: 0 <= i < |s| ==> s[i] < 128
    ensures WellFormed(s)
  {
    if s != [] { AsciiWellFormed(s[1..]); }
  }

  lemma CharLenPrefix(a: Bytes, b: Bytes)
    requires b == [] || !Continuation(b[0])
    requires a != []
    ensures CharLen(a + b) == CharLen(a) || (CharLen(a) == 0 && CharLen(a + b) == 0)
  {
    var s := a + b;
    assert s[0] == a[0];
    if |a| == 1 && b != [] { assert s[1] == b[0]; }
    if |a| >= 2 { assert s[1] == a[1]; }
    if |a| == 2 && b != [] { assert s[2] == b[0]; }
    if |a| >= 3 { assert s[2] == a[2]; }
    if |a| == 3 && b != [] { assert s[3] == b[0]; }
    if |a| >= 4 { assert s[3] == a[3]; }
  }

  /** Text cut in front of a character that begins there is well-formed on both sides. */
  lemma {:induction false} WellFormedAppend(a: Bytes, b: Bytes)
    requires b == [] || !Continuation(b[0])
    ensures WellFormed(a + b) <==> WellFormed(a) && WellFormed(b)
    decreases |a|
  {
    if a == [] {
      assert a + b == b;
    } else {
      CharLenPrefix(a, b);
      var n := CharLen(a);
      if n > 0 {
        assert (a + b)[n..] == a[n..] + b;
        WellFormedAppend(a[n..], b);
      }
    }
  }

  // ---- White space ----

  predicate AsciiSpace(b: byte) { b == 32 || 9 <= b <= 13 }

  /** The two- and three-byte encodings of characters with the Unicode property White_Space. */
  predicate Space2(a: byte, b: byte) { a == 0xC2 && (b == 0x85 || b == 0xA0) }

  predicate Space3(a: byte, b: byte, c: byte) {
    || (a == 0xE1 && b == 0x9A && c == 0x80)
    || (a == 0xE2 && b == 0x80 && (0x80 <= c <= 0x8A || c == 0xA8 || c == 0xA9 || c == 0xAF))
    || (a == 0xE2 && b == 0x81 && c == 0x9F)
    || (a == 0xE3 && b == 0x80 && c == 0x80)
  }

  /** The length of the white-space character at the front, 0 if there is none. */
  function SpaceFront(s: Bytes): (n: nat)
    ensures n <= |s| && n <= 3
  {
    if |s| >= 1 && AsciiSpace(s[0]) then 1
    else if |s| >= 2 && Space2(s[0], s[1]) then 2
    else if |s| >= 3 && Space3(s[0], s[1], s[2]) then 3
    else 0
  }

  /** The length of the white-space character at the back, 0 if there is none. */
  function SpaceBack(s: Bytes): (n: nat)
    ensures n <= |s| && n <= 3
  {
    var k := |s|;
    if k >= 1 && AsciiSpace(s[k - 1]) then 1
    else if k >= 2 && Space2(s[k - 2], s[k - 1]) then 2
    else if k >= 3 && Space3(s[k - 3], s[k - 2], s[k - 1]) then 3
    else 0
  }

  function TrimSpaceLeft(s: Bytes): Bytes {
    if SpaceFront(s) > 0 then TrimSpaceLeft(s[SpaceFront(s)..]) else s
  }

  function TrimSpaceRight(s: Bytes): Bytes {
    if SpaceBack(s) > 0 then TrimSpaceRight(s[..|s| - SpaceBack(s)]) else s
  }

  /** `str::trim`. */
  function TrimSpace(s: Bytes): Bytes { TrimSpaceRight(TrimSpaceLeft(s)) }

  /** Cutting white space off by bytes cuts whole characters. */
  lemma {:induction false} TrimRightWellFormed(s: Bytes)
    requires WellFormed(s)
    ensures WellFormed(TrimSpaceRight(s))
    decreases |s|
  {
    var n := SpaceBack(s);
    if n > 0 {
      var a, c := s[..|s| - n], s[|s| - n..];
      assert s == a + c;
      assert !Continuation(c[0]);
      WellFormedAppend(a, c);
      TrimRightWellFormed(a);
    }
  }

  lemma {:induction false} TrimLeftWellFormed(s: Bytes)
    requires WellFormed(s)
    ensures WellFormed(TrimSpaceLeft(s))
    decreases |s|
  {
    var n := SpaceFront(s);
    if n > 0 {
      assert CharLen(s) == n;
      TrimLeftWellFormed(s[n..]);
    }
  }

  lemma TrimWellFormed(s: Bytes)
    requires WellFormed(s)
    ensures WellFormed(TrimSpace(s))
  {
    TrimLeftWellFormed(s);
    TrimRightWellFormed(TrimSpaceLeft(s));
  }

  // ---- Text without white space around it ----

  predicate Continues(b: byte) { 0x80 <= b < 0xC0 }

  /** These are the characters with the property White_Space, by their numbers. */
  lemma WhiteSpaceIs(a: byte, b: byte, c: byte)
    ensures a < 0x80 ==> (AsciiSpace(a) <==> 0x09 <= a <= 0x0D || a == 0x20)
    ensures 0xC0 <= a < 0xE0 && Continues(b) ==>
      var n := (a - 0xC0) * 0x40 + (b - 0x80); Space2(a, b) <==> n == 0x85 || n == 0xA0
    ensures 0xE0 <= a < 0xF0 && Continues(b) && Continues(c) ==>
      var n := (a - 0xE0) * 0x1000 + (b - 0x80) * 0x40 + (c - 0x80);
      Space3(a, b, c) <==>
        n == 0x1680 || 0x2000 <= n <= 0x200A || n == 0x2028 || n == 0x2029 || n == 0x202F || n == 0x205F || n == 0x3000
  {
  }

  predicate SpaceFree(s: Bytes) { SpaceFront(s) == 0 && SpaceBack(s) == 0 }

  lemma AsciiFront(s: Bytes)
    requires s != [] && s[0] < 128 && !AsciiSpace(s[0])
    ensures SpaceFront(s) == 0
  {
  }

  lemma AsciiBack(s: Bytes)
    requires s != [] && s[|s| - 1] < 128 && !AsciiSpace(s[|s| - 1])
    ensures SpaceBack(s) == 0
  {
  }

  /** A space in front of text that does not end in white space does not change its end. */
  lemma BackBehindSpace(a: Bytes, v: Bytes)
    requires v != [] && SpaceBack(v) == 0
    ensures SpaceBack(a + ([32] + v)) == 0
  {
    var s := a + ([32] + v);
    assert s[|s| - 1] == v[|v| - 1];
    assert s[|s| - 2] == if |v| == 1 then 32 else v[|v| - 2];
    if |v| >= 2 { assert s[|s| - 3] == if |v| == 2 then 32 else v[|v| - 3]; }
  }

  lemma TrimSpaceFree(s: Bytes)
    requires SpaceFree(s)
    ensures TrimSpace(s) == s
  {
  }

  lemma TrimOneSpace(s: Bytes)
    ensures TrimSpace([32] + s) == TrimSpace(s)
  {
    var t := [32] + s;
    assert SpaceFront(t) == 1 && t[1..] == s;
  }

  /** A carriage return or another ASCII space at the end is cut off. */
  lemma TrimAsciiEnd(s: Bytes, x: byte)
    requires AsciiSpace(x) && SpaceFree(s) && s != []
    requires s[0] < 128
    ensures TrimSpace(s + [x]) == s
  {
    var t := s + [x];
    assert t[0] == s[0] && t[|t| - 1] == x;
    AsciiFront(t);
    assert SpaceBack(t) == 1 && t[..|t| - 1] == s;
    assert TrimSpaceRight(t) == TrimSpaceRight(s);
  }
}
