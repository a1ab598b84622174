/**
  Query parameters and their substitution into a SQL template.

  The partner of substitution is a small lexer that knows doubled-quote string literals: it reads
  back from the finished text what the parameters were. The scanner copies byte by byte, so a
  template is its bytes, each as the character with that code. How a float is printed is left open,
  except that its text is `inf`, `-inf` or `NaN`, or a decimal number with an optional minus sign in
  front and an optional fraction.
 */
module SqlParam {
  import opened Prelude
  import opened Words

  predicate NumberChar(c: char) { '0' <= c <= '9' || 'a' <= c <= 'z' || 'A' <= c <= 'Z' || c == '.' }

  /** Letters, digits and points, behind at most one minus sign. */
  predicate NumberText(s: string) {
    && s != [] && (s[0] == '-' ==> |s| > 1)
    && forall i :: 0 <= i < |s| ==> NumberChar(s[i]) || (i == 0 && s[i] == '-')
  }

  predicate Digits(s: string) { s != [] && forall i :: 0 <= i < |s| ==> IsDigit(s[i]) }

  /** Digits, and perhaps a point with more digits behind. */
  predicate Fixed(s: string) {
    Digits(s) || exists k :: 0 < k < |s| && s[k] == '.' && Digits(s[..k]) && Digits(s[k + 1..])
  }

  predicate FiniteText(s: string) { s != [] && if s[0] == '-' then Fixed(s[1..]) else Fixed(s) }

  lemma FixedNumber(s: string)
    requires Fixed(s)
    ensures s != [] && forall i :: 0 <= i < |s| ==> NumberChar(s[i])
  {
    if !Digits(s) {
      var k :| 0 < k < |s| && s[k] == '.' && Digits(s[..k]) && Digits(s[k + 1..]);
      forall i | 0 <= i < |s| ensures NumberChar(s[i]) {
        assert i < k ==> s[i] == s[..k][i];
        assert i > k ==> s[i] == s[k + 1..][i - k - 1];
      }
    }
  }

  lemma FiniteNumber(s: string)
    requires FiniteText(s)
    ensures NumberText(s)
  {
    if s[0] == '-' {
      FixedNumber(s[1..]);
      forall i | 1 <= i < |s| ensures NumberChar(s[i]) { assert s[i] == s[1..][i - 1]; }
    } else {
      FixedNumber(s);
    }
  }

  /** How `f64` is displayed. */
  type FloatText = s: string | s == "inf" || s == "-inf" || s == "NaN" || FiniteText(s) witness ZeroText()

  function ZeroText(): (s: string)
    ensures FiniteText(s)
  {
    assert Digits("0");
    "0"
  }

  datatype Param =
    | Null
    | Bool(b: bool)
    | Int4(n: int)
    | Int8(n: int)
    | Float8(f: FloatText)
    | TextParam(s: string)
    | BytesParam(d: Bytes)

  // ---- Numbers as text ----

  predicate IsDigit(c: char) { '0' <= c <= '9' }

  function DigitChar(d: nat): (c: char)
    requires d < 10
    ensures IsDigit(c) && c as int - '0' as int == d
  {
    ('0' as int + d) as char
  }

  function Decimal(n: nat): (s: string)
    ensures s != [] && forall i :: 0 <= i < |s| ==> IsDigit(s[i])
  {
    if n < 10 then [DigitChar(n)] else Decimal(n / 10) + [DigitChar(n % 10)]
  }

  function SignedDecimal(n: int): string { if n < 0 then "-" + Decimal(-n) else Decimal(n) }

  function ParseDigits(s: string): nat
    requires forall i :: 0 <= i < |s| ==> IsDigit(s[i])
  {
    if s == [] then 0 else
      assert IsDigit(s[|s| - 1]);
      10 * ParseDigits(s[..|s| - 1]) + (s[|s| - 1] as int - '0' as int)
  }

  lemma {:induction false} DecimalRoundTrip(n: nat)
    ensures ParseDigits(Decimal(n)) == n
  {
    var s := Decimal(n);
    if n < 10 {
      assert s[..0] == [];
    } else {
      DecimalRoundTrip(n / 10);
      assert s[..|s| - 1] == Decimal(n / 10);
    }
  }

  /** Two lowercase digits a byte. */
  function HexEncode(d: Bytes): string {
    if d == [] then [] else [HexDigit(d[0] / 16) as char, HexDigit(d[0] % 16) as char] + HexEncode(d[1..])
  }

  // ---- Literals ----

  /** `replace('\\'', "''")`. */
  function Escape(s: string): string {
    if s == [] then [] else (if s[0] == '\'' then "''" else [s[0]]) + Escape(s[1..])
  }

  function Literal(p: Param): string {
    match p
    case Null => "NULL"
    case Bool(b) => if b then "TRUE" else "FALSE"
    case Int4(n) => SignedDecimal(n)
    case Int8(n) => SignedDecimal(n)
    case Float8(f) => f
    case TextParam(s) => "'" + Escape(s) + "'"
    case BytesParam(d) => "'\\x" + HexEncode(d) + "'"
  }

  // ---- Substitution ----

  datatype Substituted = Done(sql: string) | OutOfRange(idx: nat) | IndexOverflow

  function Prepend(a: string, r: Substituted): Substituted { if r.Done? then Done(a + r.sql) else r }

  /** The run of digits at the front. */
  function DigitRun(s: string): (n: nat)
    ensures n <= |s| && forall i :: 0 <= i < n ==> IsDigit(s[i])
    ensures n < |s| ==> !IsDigit(s[n])
  {
    if s != [] && IsDigit(s[0]) then 1 + DigitRun(s[1..]) else 0
  }

  predicate AtPlaceholder(s: string, inString: bool) { !inString && |s| > 1 && s[0] == '$' && IsDigit(s[1]) }

  /** What `substitute_params` makes of the rest of a template. */
  function Substitute(s: string, inString: bool, params: seq<Param>): Substituted
    decreases |s|
  {
    if s == [] then Done("")
    else if s[0] == '\'' then Prepend("'", Substitute(s[1..], !inString, params))
    else if AtPlaceholder(s, inString) then
      var n := DigitRun(s[1..]);
      var idx := ParseDigits(s[1..][..n]);
      if idx >= U64 then IndexOverflow
      else if idx == 0 || idx > |params| then OutOfRange(idx)
      else Prepend(Literal(params[idx - 1]), Substitute(s[1 + n..], inString, params))
    else Prepend([s[0]], Substitute(s[1..], inString, params))
  }

  lemma PrependTwice(a: string, b: string, r: Substituted)
    ensures Prepend(a, Prepend(b, r)) == Prepend(a + b, r)
  {
    if r.Done? { assert a + (b + r.sql) == (a + b) + r.sql; }
  }

  lemma SubstituteQuote(s: string, inString: bool, params: seq<Param>, before: string)
    requires s != [] && s[0] == '\''
    ensures Prepend(before, Substitute(s, inString, params)) ==
            Prepend(before + "'", Substitute(s[1..], !inString, params))
  {
    PrependTwice(before, "'", Substitute(s[1..], !inString, params));
  }

  lemma SubstituteOther(s: string, inString: bool, params: seq<Param>, before: string)
    requires s != [] && s[0] != '\'' && !AtPlaceholder(s, inString)
    ensures Prepend(before, Substitute(s, inString, params)) ==
            Prepend(before + [s[0]], Substitute(s[1..], inString, params))
  {
    PrependTwice(before, [s[0]], Substitute(s[1..], inString, params));
  }

  /** The loop of `substitute_params`. */
  method SubstituteParams(sql: string, params: seq<Param>) returns (r: Substituted)
    ensures r == Substitute(sql, false, params)
  {
    var result, i, inString := "", 0, false;
    assert sql[0..] == sql;
    assert Prepend("", Substitute(sql, false, params)) == Substitute(sql, false, params);
    while i < |sql|
      invariant 0 <= i <= |sql|
      invariant Substitute(sql, false, params) == Prepend(result, Substitute(sql[i..], inString, params))
      decreases |sql| - i
    {
      var ch := sql[i];
      ghost var rest := sql[i..];
      assert rest[1..] == sql[i + 1..];
      if ch == '\'' {
        SubstituteQuote(rest, inString, params, result);
        inString := !inString;
        result := result + "'";
        i := i + 1;
      } else if !inString && ch == '$' && i + 1 < |sql| && IsDigit(sql[i + 1]) {
        var end, idx := ReadIndex(sql, i, inString);
        if idx >= U64 { return IndexOverflow; }
        if idx == 0 || idx > |params| { return OutOfRange(idx); }
        SubstituteStep(rest, DigitRun(rest[1..]), idx, sql[end..], params);
        PrependTwice(result, Literal(params[idx - 1]), Substitute(sql[end..], inString, params));
        result := result + Literal(params[idx - 1]);
        i := end;
      } else {
        SubstituteOther(rest, inString, params, result);
        result := result + [ch];
        i := i + 1;
      }
    }
    assert result + "" == result;
    r := Done(result);
  }

  /** Collects the whole number behind a `$`. */
  method ReadIndex(sql: string, i: nat, ghost inString: bool) returns (end: nat, idx: nat)
    requires i + 1 < |sql| && sql[i] == '$' && IsDigit(sql[i + 1]) && !inString
    ensures i + 1 < end <= |sql|
    ensures AtPlaceholder(sql[i..], inString)
    ensures var rest := sql[i..];
            var n := DigitRun(rest[1..]);
            idx == ParseDigits(rest[1..][..n]) && rest[1 + n..] == sql[end..]
  {
    var rest := sql[i..];
    end := i + 1;
    while end < |sql| && IsDigit(sql[end])
      invariant i + 1 <= end <= |sql|
      invariant forall j :: i + 1 <= j < end ==> IsDigit(sql[j])
    {
      end := end + 1;
    }
    DigitRunIs(rest[1..], end - i - 1);
    assert rest[1..][..end - i - 1] == sql[i + 1..end] && rest[end - i..] == sql[end..];
    idx := ParseDigits(sql[i + 1..end]);
  }

  lemma {:induction false} DigitRunIs(s: string, n: nat)
    requires n <= |s| && (forall i :: 0 <= i < n ==> IsDigit(s[i])) && (n < |s| ==> !IsDigit(s[n]))
    ensures DigitRun(s) == n
  {
    if n > 0 { DigitRunIs(s[1..], n - 1); }
  }

  // ---- Templates: plain text and placeholders ----

  predicate PlainChar(c: char) { c != '\'' && c != '$' }

  ghost predicate Plain(s: string) { forall i :: 0 <= i < |s| ==> PlainChar(s[i]) }

  /** Plain text is copied. */
  lemma {:induction false} SubstitutePlain(t: string, rest: string, params: seq<Param>)
    requires Plain(t)
    ensures Substitute(t + rest, false, params) == Prepend(t, Substitute(rest, false, params))
  {
    if t == [] {
      assert t + rest == rest;
      var r := Substitute(rest, false, params);
      if r.Done? { assert "" + r.sql == r.sql; }
    } else {
      assert PlainChar(t[0]) && (t + rest)[1..] == t[1..] + rest;
      SubstitutePlain(t[1..], rest, params);
      PrependTwice([t[0]], t[1..], Substitute(rest, false, params));
      assert [t[0]] + t[1..] == t;
    }
  }

  lemma SubstituteStep(s: string, n: nat, idx: nat, rest: string, params: seq<Param>)
    requires AtPlaceholder(s, false) && n == DigitRun(s[1..]) && idx == ParseDigits(s[1..][..n])
    requires 1 <= idx <= |params| && idx < U64 && s[1 + n..] == rest
    ensures Substitute(s, false, params) == Prepend(Literal(params[idx - 1]), Substitute(rest, false, params))
  {
    assert s[0] == '$' && s[0] != '\'';
    var tail := Substitute(rest, false, params);
    assert Substitute(s[1 + n..], false, params) == tail;
  }

  /** The placeholder of parameter `k` (from 0), not followed by a digit, becomes its literal, and the
      literal is not looked at again. */
  lemma SubstitutePlaceholder(k: nat, rest: string, params: seq<Param>)
    requires k < |params| < U64 && (rest == [] || !IsDigit(rest[0]))
    ensures Substitute("$" + Decimal(k + 1) + rest, false, params) ==
            Prepend(Literal(params[k]), Substitute(rest, false, params))
  {
    var d := Decimal(k + 1);
    var s := "$" + d + rest;
    assert s[1..] == d + rest && s[1..][..|d|] == d && s[1 + |d|..] == rest;
    assert s[0] == '$' && s[1] == d[0];
    DigitRunIs(d + rest, |d|);
    DecimalRoundTrip(k + 1);
    SubstituteStep(s, |d|, k + 1, rest, params);
  }

  // ---- Reading it back ----

  datatype Token = Ch(c: char) | Str(s: string)

  /** The rest of a string literal after its opening quote: its value and where it ends. */
  function ReadString(s: string): Option<(string, nat)> {
    if s == [] then None
    else if s[0] != '\'' then
      match ReadString(s[1..]) case None => None case Some((v, n)) => Some(([s[0]] + v, n + 1))
    else if |s| > 1 && s[1] == '\'' then
      match ReadString(s[2..]) case None => None case Some((v, n)) => Some(("'" + v, n + 2))
    else Some(("", 1))
  }

  lemma {:induction false} ReadStringBound(s: string)
    ensures ReadString(s).Some? ==> 1 <= ReadString(s).value.1 <= |s|
  {
    if s != [] {
      if s[0] != '\'' { ReadStringBound(s[1..]); } else if |s| > 1 && s[1] == '\'' { ReadStringBound(s[2..]); }
    }
  }

  predicate IsNewline(c: char) { c == '\n' || c == '\r' }

  /** The characters up to the end of the line. */
  function LineLen(s: string): (n: nat)
    ensures n <= |s| && (n < |s| ==> IsNewline(s[n]))
    ensures forall i :: 0 <= i < n ==> !IsNewline(s[i])
  {
    if s == [] || IsNewline(s[0]) then 0 else 1 + LineLen(s[1..])
  }

  predicate AtComment(s: string) { |s| >= 2 && s[0] == '-' && s[1] == '-' }

  /** Characters outside string literals, and string literals with their values; a comment runs to the
      end of its line and leaves nothing. */
  function Lex(s: string): Option<seq<Token>>
    decreases |s|
  {
    if s == [] then Some([])
    else if s[0] == '\'' then
      ReadStringBound(s[1..]);
      match ReadString(s[1..])
      case None => None
      case Some((v, n)) => Tokens([Str(v)], Lex(s[1 + n..]))
    else if AtComment(s) then
      assert LineLen(s) > 0;
      Lex(s[LineLen(s)..])
    else Tokens([Ch(s[0])], Lex(s[1..]))
  }

  function Chars(s: string): (r: seq<Token>)
    ensures |r| == |s| && forall i :: 0 <= i < |s| ==> r[i] == Ch(s[i])
  {
    seq(|s|, i requires 0 <= i < |s| => Ch(s[i]))
  }

  function Tokens(a: seq<Token>, r: Option<seq<Token>>): Option<seq<Token>> {
    match r case None => None case Some(ts) => Some(a + ts)
  }

  lemma TokensTwice(a: seq<Token>, b: seq<Token>, r: Option<seq<Token>>)
    ensures Tokens(a, Tokens(b, r)) == Tokens(a + b, r)
  {
    if r.Some? { assert a + (b + r.value) == (a + b) + r.value; }
  }

  /** An escaped text inside quotes is read back as the text. */
  lemma {:induction false} ReadEscaped(t: string, rest: string)
    requires rest == [] || rest[0] != '\''
    ensures ReadString(Escape(t) + "'" + rest) == Some((t, |Escape(t)| + 1))
  {
    var s := Escape(t) + "'" + rest;
    if t == [] {
      assert s == "'" + rest;
    } else {
      ReadEscaped(t[1..], rest);
      assert t == [t[0]] + t[1..];
      if t[0] == '\'' {
        assert s[2..] == Escape(t[1..]) + "'" + rest;
      } else {
        assert s[1..] == Escape(t[1..]) + "'" + rest;
      }
    }
  }

  /** What a parameter's literal must lex to: a text is one string token with exactly its value. */
  function LiteralTokens(p: Param): seq<Token> {
    match p
    case TextParam(s) => [Str(s)]
    case BytesParam(d) => [Str("\\x" + HexEncode(d))]
    case _ => Chars(Literal(p))
  }

  /** No quote in `t`, and no comment begins in it when `rest` follows. */
  ghost predicate Uncommented(t: string, rest: string) {
    t != [] ==> t[0] != '\'' && !AtComment(t + rest) && Uncommented(t[1..], rest)
  }

  lemma {:induction false} NoMinusUncommented(t: string, rest: string)
    requires '\'' !in t && '-' !in t
    ensures Uncommented(t, rest)
  {
    if t != [] {
      assert (t + rest)[0] == t[0];
      NoMinusUncommented(t[1..], rest);
    }
  }

  lemma NumberUncommented(t: string, rest: string)
    requires NumberText(t)
    ensures Uncommented(t, rest) && '\'' !in t
  {
    assert (t + rest)[0] == t[0] && (|t| > 1 ==> (t + rest)[1] == t[1] == t[1..][0]);
    NoMinusUncommented(t[1..], rest);
  }

  lemma {:induction false} LexPlain(t: string, rest: string)
    requires Uncommented(t, rest)
    ensures Lex(t + rest) == Tokens(Chars(t), Lex(rest))
  {
    if t == [] {
      assert t + rest == rest;
      if Lex(rest).Some? { assert Chars(t) + Lex(rest).value == Lex(rest).value; }
    } else {
      assert (t + rest)[0] == t[0] && (t + rest)[1..] == t[1..] + rest;
      LexPlain(t[1..], rest);
      TokensTwice([Ch(t[0])], Chars(t[1..]), Lex(rest));
      assert [Ch(t[0])] + Chars(t[1..]) == Chars(t);
    }
  }

  lemma LexQuoted(t: string, rest: string)
    requires rest == [] || rest[0] != '\''
    ensures Lex("'" + Escape(t) + "'" + rest) == Tokens([Str(t)], Lex(rest))
  {
    QuoteSlices(Escape(t), rest);
    ReadEscaped(t, rest);
    LexString("'" + Escape(t) + "'" + rest, t, |Escape(t)| + 1, rest);
  }

  lemma QuoteSlices(e: string, rest: string)
    ensures var s := "'" + e + "'" + rest;
      s[0] == '\'' && s[1..] == e + "'" + rest && |s| >= |e| + 2 && s[1 + (|e| + 1)..] == rest
  {
  }

  /** A string literal at the front is one token. */
  lemma LexString(s: string, v: string, n: nat, rest: string)
    requires s != [] && s[0] == '\'' && ReadString(s[1..]) == Some((v, n)) && 1 + n <= |s| && s[1 + n..] == rest
    ensures Lex(s) == Tokens([Str(v)], Lex(rest))
  {
  }

  lemma {:induction false} EscapePlain(t: string)
    requires '\'' !in t
    ensures Escape(t) == t
  {
    if t != [] {
      EscapePlain(t[1..]);
      assert t == [t[0]] + t[1..];
    }
  }

  lemma {:induction false} HexPlain(d: Bytes)
    ensures '\'' !in HexEncode(d)
  {
    if d != [] { HexPlain(d[1..]); }
  }

  lemma DecimalNumber(n: int)
    ensures NumberText(SignedDecimal(n)) && (SignedDecimal(n)[0] == '-' <==> n < 0)
  {
    var d := Decimal(if n < 0 then -n else n);
    forall i | 0 <= i < |d| ensures NumberChar(d[i]) { assert IsDigit(d[i]); }
    assert IsDigit(d[0]);
  }

  /** A literal without quotes is a number or a word: it contains no quote, no line break, and no minus sign
      except in front of something. */
  lemma LiteralPlain(p: Param)
    requires !p.TextParam? && !p.BytesParam?
    ensures NumberText(Literal(p)) && '\'' !in Literal(p)
  {
    if p.Int4? || p.Int8? { DecimalNumber(p.n); }
    if p.Float8? && FiniteText(p.f) { FiniteNumber(p.f); }
    assert NumberText("NULL") && NumberText("TRUE") && NumberText("FALSE");
  }

  /** Lexing a literal followed by something that is not a quote gives the parameter back. */
  lemma LexLiteral(p: Param, rest: string)
    requires rest == [] || rest[0] != '\''
    ensures Lex(Literal(p) + rest) == Tokens(LiteralTokens(p), Lex(rest))
  {
    if Quoted(p) {
      QuotedLiteral(p);
      LexQuoted(Inner(p), rest);
    } else {
      LiteralPlain(p);
      NumberUncommented(Literal(p), rest);
      LexPlain(Literal(p), rest);
    }
  }

  predicate Quoted(p: Param) { p.TextParam? || p.BytesParam? }

  /** The text a quoted parameter stands for, before escaping. */
  function Inner(p: Param): string
    requires Quoted(p)
  {
    if p.TextParam? then p.s else "\\x" + HexEncode(p.d)
  }

  lemma QuotedLiteral(p: Param)
    requires Quoted(p)
    ensures Literal(p) == "'" + Escape(Inner(p)) + "'" && LiteralTokens(p) == [Str(Inner(p))]
  {
    if p.BytesParam? {
      HexPlain(p.d);
      HexMark(HexEncode(p.d));
      EscapePlain("\\x" + HexEncode(p.d));
    }
  }

  lemma HexMark(h: string)
    requires '\'' !in h
    ensures '\'' !in "\\x" + h && "'\\x" + h + "'" == "'" + ("\\x" + h) + "'"
  {
  }
}
