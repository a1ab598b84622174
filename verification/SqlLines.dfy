/**
  Line breaks under the lexer: a comment is cut off before its line break, so the tokens of a text
  have exactly the line breaks of the text.
 */
module SqlLines {
  import opened SqlParam

  function Breaks(s: string): nat { if s == [] then 0 else (if IsNewline(s[0]) then 1 else 0) + Breaks(s[1..]) }

  function TokenBreaks(ts: seq<Token>): nat {
    if ts == [] then 0
    else (match ts[0] case Ch(c) => if IsNewline(c) then 1 else 0 case Str(v) => Breaks(v)) + TokenBreaks(ts[1..])
  }

  lemma {:induction false} BreaksAppend(a: string, b: string)
    ensures Breaks(a + b) == Breaks(a) + Breaks(b)
  {
    if a == [] {
      assert a + b == b;
    } else {
      assert (a + b)[1..] == a[1..] + b;
      BreaksAppend(a[1..], b);
    }
  }

  lemma {:induction false} TokenBreaksAppend(a: seq<Token>, b: seq<Token>)
    ensures TokenBreaks(a + b) == TokenBreaks(a) + TokenBreaks(b)
  {
    if a == [] {
      assert a + b == b;
    } else {
      assert (a + b)[1..] == a[1..] + b;
      TokenBreaksAppend(a[1..], b);
    }
  }

  lemma {:induction false} OneLineIff(s: string)
    ensures Breaks(s) == 0 <==> LineLen(s) == |s|
  {
    if s != [] { OneLineIff(s[1..]); }
  }

  lemma {:induction false} BreaksBehindLine(s: string)
    ensures Breaks(s[LineLen(s)..]) == Breaks(s)
  {
    if LineLen(s) == 0 {
      assert s[0..] == s;
    } else {
      BreaksBehindLine(s[1..]);
      assert s[1..][LineLen(s[1..])..] == s[LineLen(s)..];
    }
  }

  lemma {:induction false} LineLenAppend(a: string, b: string)
    requires LineLen(a) == |a|
    ensures LineLen(a + b) == |a| + LineLen(b)
  {
    if a == [] {
      assert a + b == b;
    } else {
      assert (a + b)[0] == a[0] && (a + b)[1..] == a[1..] + b;
      LineLenAppend(a[1..], b);
    }
  }

  lemma BehindLine(a: string, b: string)
    requires LineLen(a) == |a|
    ensures (a + b)[LineLen(a + b)..] == b[LineLen(b)..]
  {
    LineLenAppend(a, b);
  }

  lemma BreaksOfFirst(c: char, v: string)
    ensures Breaks([c] + v) == (if IsNewline(c) then 1 else 0) + Breaks(v)
  {
    assert ([c] + v)[1..] == v;
  }

  lemma {:induction false} ReadBreaks(s: string)
    requires ReadString(s).Some?
    ensures var (v, n) := ReadString(s).value; n <= |s| && Breaks(s) == Breaks(v) + Breaks(s[n..])
  {
    if s[0] != '\'' {
      ReadBreaks(s[1..]);
      var (v, n) := ReadString(s[1..]).value;
      BreaksOfFirst(s[0], v);
      assert s[n + 1..] == s[1..][n..];
    } else if |s| > 1 && s[1] == '\'' {
      ReadBreaks(s[2..]);
      var (v, n) := ReadString(s[2..]).value;
      BreaksOfFirst('\'', v);
      BreaksOfFirst('\'', s[2..]);
      assert s[n + 2..] == s[2..][n..] && s[1..] == "'" + s[2..];
    }
  }

  /** Lexing keeps every line break, and adds none. */
  lemma {:induction false} LexKeepsBreaks(s: string)
    requires Lex(s).Some?
    ensures TokenBreaks(Lex(s).value) == Breaks(s)
    decreases |s|
  {
    if s != [] {
      if s[0] == '\'' {
        ReadStringBound(s[1..]);
        ReadBreaks(s[1..]);
        var (v, n) := ReadString(s[1..]).value;
        assert s[1..][n..] == s[1 + n..];
        LexKeepsBreaks(s[1 + n..]);
        assert Lex(s).value[1..] == Lex(s[1 + n..]).value;
      } else if AtComment(s) {
        BreaksBehindLine(s);
        assert LineLen(s) > 0;
        LexKeepsBreaks(s[LineLen(s)..]);
      } else {
        LexKeepsBreaks(s[1..]);
        assert Lex(s).value[1..] == Lex(s[1..]).value;
      }
    }
  }

  lemma LiteralBreaks(p: Param)
    ensures TokenBreaks(LiteralTokens(p)) == Breaks(Literal(p))
  {
    LexLiteral(p, "");
    assert Literal(p) + "" == Literal(p) && LiteralTokens(p) + [] == LiteralTokens(p);
    LexKeepsBreaks(Literal(p));
  }

  /** A text that begins with a comment has nothing before the next line break. */
  lemma CommentFirst(s: string)
    requires AtComment(s)
    ensures Lex(s).None? || Lex(s).value == [] || (Lex(s).value[0].Ch? && IsNewline(Lex(s).value[0].c))
  {
    assert LineLen(s) > 0;
    var rest := s[LineLen(s)..];
    assert Lex(s) == Lex(rest);
    if rest != [] { assert rest[0] == s[LineLen(s)]; }
  }
}
