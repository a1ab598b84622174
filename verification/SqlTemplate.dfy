/**
  Substitution into arbitrary templates: when it completes, what it writes, and when a lexer still
  sees the template's own tokens around the parameters.
 */
module SqlTemplate {
  import opened Prelude
  import opened Words
  import opened SqlParam
  import opened SqlLines

  // ---- What a template consists of ----

  /** A character to copy, or a placeholder outside string literals. */
  datatype Mark = Copy(c: char) | Slot(idx: nat)

  function Marks(s: string, inString: bool): seq<Mark>
    decreases |s|
  {
    if s == [] then []
    else if s[0] == '\'' then [Copy('\'')] + Marks(s[1..], !inString)
    else if AtPlaceholder(s, inString) then
      var n := DigitRun(s[1..]);
      [Slot(ParseDigits(s[1..][..n]))] + Marks(s[1 + n..], inString)
    else [Copy(s[0])] + Marks(s[1..], inString)
  }

  predicate InRange(idx: nat, n: nat) { 1 <= idx <= n && idx < U64 }

  /** The first placeholder without a parameter. */
  function FirstBad(ms: seq<Mark>, n: nat): Option<nat> {
    if ms == [] then None
    else if ms[0].Slot? && !InRange(ms[0].idx, n) then Some(ms[0].idx)
    else FirstBad(ms[1..], n)
  }

  /** A character or a parameter, in the order they are written. */
  datatype Bit = Raw(c: char) | Val(p: Param)

  function BitOf(m: Mark, params: seq<Param>): Bit
    requires m.Slot? ==> InRange(m.idx, |params|)
  {
    match m case Copy(c) => Raw(c) case Slot(idx) => Val(params[idx - 1])
  }

  function Bits(ms: seq<Mark>, params: seq<Param>): seq<Bit>
    requires FirstBad(ms, |params|).None?
  {
    if ms == [] then [] else [BitOf(ms[0], params)] + Bits(ms[1..], params)
  }

  function Shown(b: Bit): string { match b case Raw(c) => [c] case Val(p) => Literal(p) }

  function TextOf(bs: seq<Bit>): string { if bs == [] then "" else Shown(bs[0]) + TextOf(bs[1..]) }

  /** A placeholder in front of what the rest makes. */
  function AfterSlot(idx: nat, r: Substituted, params: seq<Param>): Substituted {
    if idx >= U64 then IndexOverflow
    else if idx == 0 || idx > |params| then OutOfRange(idx)
    else Prepend(Literal(params[idx - 1]), r)
  }

  lemma SlotStep(s: string, n: nat, idx: nat, rest: string, params: seq<Param>)
    requires AtPlaceholder(s, false) && n == DigitRun(s[1..]) && idx == ParseDigits(s[1..][..n]) && s[1 + n..] == rest
    ensures Substitute(s, false, params) == AfterSlot(idx, Substitute(rest, false, params), params)
  {
    var r := Substitute(rest, false, params);
    assert s[0] == '$' && Substitute(s[1 + n..], false, params) == r;
  }

  /** What a completed substitution writes, or the error of the first placeholder without a parameter. */
  function Written(ms: seq<Mark>, params: seq<Param>): Substituted {
    match FirstBad(ms, |params|)
    case None => Done(TextOf(Bits(ms, params)))
    case Some(idx) => if idx >= U64 then IndexOverflow else OutOfRange(idx)
  }

  lemma WrittenSlot(idx: nat, ms: seq<Mark>, params: seq<Param>)
    ensures Written([Slot(idx)] + ms, params) == AfterSlot(idx, Written(ms, params), params)
  {
    WritesCons(Slot(idx), ms, params);
  }

  lemma WrittenCopy(c: char, ms: seq<Mark>, params: seq<Param>)
    ensures Written([Copy(c)] + ms, params) == Prepend([c], Written(ms, params))
  {
    WritesCons(Copy(c), ms, params);
  }

  /** For every template and every parameter list: substitution completes exactly when each placeholder
      outside string literals has a parameter, and then writes the template with each placeholder
      replaced by its parameter's literal; otherwise the first placeholder without one is reported, or
      its number does not fit a machine word, where the code panics. */
  lemma {:induction false} SubstituteWrites(s: string, inString: bool, params: seq<Param>)
    ensures Substitute(s, inString, params) == Written(Marks(s, inString), params)
    decreases |s|
  {
    if s != [] {
      if AtPlaceholder(s, inString) {
        var n := DigitRun(s[1..]);
        var idx := ParseDigits(s[1..][..n]);
        SlotStep(s, n, idx, s[1 + n..], params);
        SubstituteWrites(s[1 + n..], false, params);
        WrittenSlot(idx, Marks(s[1 + n..], false), params);
      } else {
        var now := inString != (s[0] == '\'');
        SubstituteWrites(s[1..], now, params);
        WrittenCopy(s[0], Marks(s[1..], now), params);
      }
    }
  }

  /** What one mark adds to what the others write. */
  lemma WritesCons(m: Mark, ms: seq<Mark>, params: seq<Param>)
    ensures if m.Slot? && !InRange(m.idx, |params|) then FirstBad([m] + ms, |params|) == Some(m.idx)
      else
        && FirstBad([m] + ms, |params|) == FirstBad(ms, |params|)
        && (FirstBad(ms, |params|).None? ==>
              TextOf(Bits([m] + ms, params)) == Shown(BitOf(m, params)) + TextOf(Bits(ms, params)))
  {
    assert ([m] + ms)[1..] == ms;
    if FirstBad([m] + ms, |params|).None? { assert Bits([m] + ms, params)[1..] == Bits(ms, params); }
  }

  /** Inside a string literal everything up to the closing quote is copied, placeholders included. */
  lemma {:induction false} SubstituteInString(t: string, rest: string, params: seq<Param>)
    requires '\'' !in t
    ensures Substitute(t + "'" + rest, true, params) == Prepend(t + "'", Substitute(rest, false, params))
  {
    var s := t + "'" + rest;
    if t == [] {
      assert s[1..] == rest;
    } else {
      assert s[1..] == t[1..] + "'" + rest;
      SubstituteInString(t[1..], rest, params);
      PrependTwice([t[0]], t[1..] + "'", Substitute(rest, false, params));
      assert [t[0]] + (t[1..] + "'") == t + "'";
    }
  }

  lemma QuotedTextIsCopied(t: string, rest: string, params: seq<Param>)
    requires '\'' !in t
    ensures Substitute("'" + (t + "'" + rest), false, params) == Prepend("'" + t + "'", Substitute(rest, false, params))
  {
    var s := "'" + (t + "'" + rest);
    assert s[1..] == t + "'" + rest;
    SubstituteInString(t, rest, params);
    PrependTwice("'", t + "'", Substitute(rest, false, params));
    assert "'" + (t + "'") == "'" + t + "'";
  }

  // ---- Text that is not ASCII ----

  /** The bytes of a character, each as the character with that code. */
  function Encoded(c: char): string {
    var n := c as int;
    if n < 0x80 then [c]
    else if n < 0x800 then [(0xC0 + n / 0x40) as char, (0x80 + n % 0x40) as char]
    else if n < 0x1_0000 then
      [(0xE0 + n / 0x1000) as char, (0x80 + n / 0x40 % 0x40) as char, (0x80 + n % 0x40) as char]
    else
      [(0xF0 + n / 0x4_0000) as char, (0x80 + n / 0x1000 % 0x40) as char,
       (0x80 + n / 0x40 % 0x40) as char, (0x80 + n % 0x40) as char]
  }

  function BytesOf(t: string): string { if t == [] then "" else Encoded(t[0]) + BytesOf(t[1..]) }

  predicate OddQuotes(t: string) { t != [] && ((t[0] == '\'') != OddQuotes(t[1..])) }

  /** Substitution does not know comments: what follows one is taken for text inside a string exactly
      when the comment has an odd number of apostrophes. */
  lemma {:induction false} ApostrophesToggle(t: string, rest: string, inString: bool, params: seq<Param>)
    requires '$' !in t
    ensures Substitute(t + rest, inString, params) == Prepend(t, Substitute(rest, inString != OddQuotes(t), params))
  {
    if t == [] {
      assert t + rest == rest;
      PrependNothing(Substitute(rest, inString, params));
    } else {
      var now := inString != (t[0] == '\'');
      assert (t + rest)[0] == t[0] && (t + rest)[1..] == t[1..] + rest;
      ApostrophesToggle(t[1..], rest, now, params);
      PrependTwice([t[0]], t[1..], Substitute(rest, inString != OddQuotes(t), params));
      assert [t[0]] + t[1..] == t;
    }
  }

  lemma PrependNothing(r: Substituted)
    ensures Prepend("", r) == r
  {
    if r.Done? { assert "" + r.sql == r.sql; }
  }

  ghost predicate Ascii(t: string) { forall i :: 0 <= i < |t| ==> t[i] as int < 0x80 }

  lemma {:induction false} BytesOfIff(t: string)
    ensures |BytesOf(t)| >= |t|
    ensures |BytesOf(t)| == |t| <==> Ascii(t)
    ensures Ascii(t) ==> BytesOf(t) == t
  {
    if t != [] {
      BytesOfIff(t[1..]);
      assert t == [t[0]] + t[1..];
      assert Ascii(t) <==> t[0] as int < 0x80 && Ascii(t[1..]);
    }
  }

  lemma {:induction false} BytesOfAppend(a: string, b: string)
    ensures BytesOf(a + b) == BytesOf(a) + BytesOf(b)
  {
    if a == [] {
      assert a + b == b;
    } else {
      assert (a + b)[1..] == a[1..] + b;
      BytesOfAppend(a[1..], b);
    }
  }

  lemma FirstByte(c: char)
    ensures Encoded(c) != [] && (IsDigit(Encoded(c)[0]) <==> IsDigit(c))
  {
  }

  lemma NoDigitFirst(b: string)
    requires b == [] || !IsDigit(b[0])
    ensures BytesOf(b) == [] || !IsDigit(BytesOf(b)[0])
  {
    if b != [] { FirstByte(b[0]); }
  }

  lemma {:induction false} NoQuotes(t: string)
    requires '\'' !in t
    ensures !OddQuotes(t)
  {
    if t != [] { NoQuotes(t[1..]); }
  }

  lemma CharCopied(c: char, rest: string, inString: bool, params: seq<Param>)
    requires c != '\'' && c != '$'
    ensures Substitute(Encoded(c) + rest, inString, params) == Prepend(Encoded(c), Substitute(rest, inString, params))
  {
    NoQuotes(Encoded(c));
    ApostrophesToggle(Encoded(c), rest, inString, params);
  }

  /** The same error, or a text longer by `k`. */
  ghost predicate Longer(a: Substituted, b: Substituted, k: int) {
    if a.Done? then b.Done? && |b.sql| == |a.sql| + k else b == a
  }

  /** The bytes of a template give the same error, or a text longer by what its bytes are longer. */
  ghost predicate Widened(t: string, inString: bool, params: seq<Param>) {
    Longer(Substitute(t, inString, params), Substitute(BytesOf(t), inString, params), |BytesOf(t)| - |t|)
  }

  lemma SlotRead(d: string, rest: string, params: seq<Param>)
    requires d != [] && (forall i :: 0 <= i < |d| ==> IsDigit(d[i])) && (rest == [] || !IsDigit(rest[0]))
    ensures Substitute("$" + (d + rest), false, params) ==
            AfterSlot(ParseDigits(d), Substitute(rest, false, params), params)
  {
    var s := "$" + (d + rest);
    assert s[1..] == d + rest && (d + rest)[..|d|] == d && s[1 + |d|..] == rest;
    DigitRunIs(d + rest, |d|);
    SlotStep(s, |d|, ParseDigits(d), rest, params);
  }

  lemma SlotBytes(d: string, rest: string)
    requires forall i :: 0 <= i < |d| ==> IsDigit(d[i])
    ensures BytesOf("$" + (d + rest)) == "$" + (d + BytesOf(rest))
  {
    BytesOfAppend(d, rest);
    BytesOfIff(d);
    assert ("$" + (d + rest))[1..] == d + rest;
  }

  lemma SlotLonger(idx: nat, a: Substituted, b: Substituted, k: int, params: seq<Param>)
    requires Longer(a, b, k)
    ensures Longer(AfterSlot(idx, a, params), AfterSlot(idx, b, params), k)
  {
  }

  lemma WidenedSlot(d: string, rest: string, params: seq<Param>)
    requires d != [] && (forall i :: 0 <= i < |d| ==> IsDigit(d[i])) && (rest == [] || !IsDigit(rest[0]))
    requires Widened(rest, false, params)
    ensures Widened("$" + (d + rest), false, params)
  {
    var r := BytesOf(rest);
    NoDigitFirst(rest);
    SlotRead(d, rest, params);
    SlotRead(d, r, params);
    SlotBytes(d, rest);
    SlotLonger(ParseDigits(d), Substitute(rest, false, params), Substitute(r, false, params), |r| - |rest|, params);
  }

  lemma DollarCopied(rest: string, inString: bool, params: seq<Param>)
    requires inString || rest == [] || !IsDigit(rest[0])
    ensures Substitute("$" + rest, inString, params) == Prepend("$", Substitute(rest, inString, params))
  {
    assert ("$" + rest)[1..] == rest;
  }

  lemma WidenedDollar(rest: string, inString: bool, params: seq<Param>)
    requires inString || rest == [] || !IsDigit(rest[0])
    requires Widened(rest, inString, params)
    ensures Widened("$" + rest, inString, params)
  {
    if !inString { NoDigitFirst(rest); }
    DollarCopied(rest, inString, params);
    DollarCopied(BytesOf(rest), inString, params);
    assert ("$" + rest)[1..] == rest && BytesOf("$" + rest) == "$" + BytesOf(rest);
  }

  lemma WidenedChar(t: string, inString: bool, params: seq<Param>)
    requires t != [] && t[0] != '$'
    requires Widened(t[1..], inString != (t[0] == '\''), params)
    ensures Widened(t, inString, params)
  {
    var rest := t[1..];
    if t[0] == '\'' {
      assert BytesOf(t)[1..] == BytesOf(rest);
    } else {
      CharCopied(t[0], BytesOf(rest), inString, params);
    }
  }

  lemma SlotShape(t: string)
    requires AtPlaceholder(t, false)
    ensures var d, rest := t[1..][..DigitRun(t[1..])], t[1..][DigitRun(t[1..])..];
      t == "$" + (d + rest) && d != [] && (rest == [] || !IsDigit(rest[0]))
  {
    assert t[1..][0] == t[1];
  }

  lemma {:induction false} BytesWiden(t: string, inString: bool, params: seq<Param>)
    ensures Widened(t, inString, params)
    decreases |t|
  {
    if t != [] {
      if AtPlaceholder(t, inString) {
        SlotShape(t);
        var n := DigitRun(t[1..]);
        BytesWiden(t[1..][n..], false, params);
        WidenedSlot(t[1..][..n], t[1..][n..], params);
      } else {
        BytesWiden(t[1..], inString != (t[0] == '\''), params);
        if t[0] == '$' {
          assert t == "$" + t[1..];
          WidenedDollar(t[1..], inString, params);
        } else {
          WidenedChar(t, inString, params);
        }
      }
    }
  }

  /** Substitution works on the template's bytes. For every template that gives what its characters
      would exactly when the template is ASCII or a placeholder fails. */
  lemma CopiedIffAscii(t: string, inString: bool, params: seq<Param>)
    ensures Substitute(BytesOf(t), inString, params) == Substitute(t, inString, params)
      <==> Ascii(t) || !Substitute(t, inString, params).Done?
  {
    BytesWiden(t, inString, params);
    BytesOfIff(t);
  }

  // ---- What a lexer should see ----

  /** A string literal of the template after its opening quote; no parameter is inside one. */
  function ReadBits(bs: seq<Bit>): Option<(string, nat)> {
    if bs == [] || bs[0].Val? then None
    else if bs[0].c != '\'' then
      match ReadBits(bs[1..]) case None => None case Some((v, n)) => Some(([bs[0].c] + v, n + 1))
    else if |bs| > 1 && bs[1] == Raw('\'') then
      match ReadBits(bs[2..]) case None => None case Some((v, n)) => Some(("'" + v, n + 2))
    else Some(("", 1))
  }

  lemma {:induction false} ReadBitsBound(bs: seq<Bit>)
    ensures ReadBits(bs).Some? ==> 1 <= ReadBits(bs).value.1 <= |bs|
  {
    if bs != [] && bs[0].Raw? {
      if bs[0].c != '\'' { ReadBitsBound(bs[1..]); } else if |bs| > 1 && bs[1] == Raw('\'') { ReadBitsBound(bs[2..]); }
    }
  }

  predicate AtCommentBits(bs: seq<Bit>) { |bs| >= 2 && bs[0] == Raw('-') && bs[1] == Raw('-') }

  /** Up to the end of the template's line; a parameter is part of the line it is on. */
  function LineBits(bs: seq<Bit>): (k: nat)
    ensures k <= |bs| && (k < |bs| ==> bs[k].Raw? && IsNewline(bs[k].c))
  {
    if bs == [] || (bs[0].Raw? && IsNewline(bs[0].c)) then 0 else 1 + LineBits(bs[1..])
  }

  /** The template's own tokens, with each parameter's tokens in its place; a comment of the template
      takes the rest of its line with it, parameters included. */
  function LexBits(bs: seq<Bit>): Option<seq<Token>>
    decreases |bs|
  {
    if bs == [] then Some([])
    else match bs[0]
      case Val(p) => Tokens(LiteralTokens(p), LexBits(bs[1..]))
      case Raw(c) =>
        if c == '\'' then
          ReadBitsBound(bs[1..]);
          match ReadBits(bs[1..])
          case None => None
          case Some((v, n)) => Tokens([Str(v)], LexBits(bs[1 + n..]))
        else if AtCommentBits(bs) then
          assert LineBits(bs) > 0;
          LexBits(bs[LineBits(bs)..])
        else Tokens([Ch(c)], LexBits(bs[1..]))
  }

  predicate StartsQuote(b: Bit) { b == Raw('\'') || (b.Val? && Quoted(b.p)) }

  predicate StartsMinus(b: Bit) { b == Raw('-') || (b.Val? && Literal(b.p) != [] && Literal(b.p)[0] == '-') }

  predicate OneLine(b: Bit) { b.Val? ==> LineLen(Literal(b.p)) == |Literal(b.p)| }

  /** No quoted parameter touches a quote of the template or another quoted parameter, and no negative
      number stands directly behind a minus sign. */
  ghost predicate Apart(bs: seq<Bit>) {
    forall i :: 0 <= i < |bs| - 1 ==> NotTouching(bs[i], bs[i + 1])
  }

  predicate NotTouching(a: Bit, b: Bit) {
    && (a.Val? && Quoted(a.p) ==> !StartsQuote(b))
    && (a == Raw('\'') ==> !(b.Val? && Quoted(b.p)))
    && (a == Raw('-') ==> !(b.Val? && StartsMinus(b)))
  }

  /** The template has no comment, and no string literal with `--` in it. */
  ghost predicate NoDoubleMinus(bs: seq<Bit>) {
    forall i :: 0 <= i < |bs| - 1 ==> !DoubleMinus(bs[i], bs[i + 1])
  }

  predicate DoubleMinus(a: Bit, b: Bit) { a == Raw('-') && b == Raw('-') }

  /** Where the string literal at the front of the template ends. */
  function StringEnd(bs: seq<Bit>): (k: nat)
    requires bs != [] && ReadBits(bs[1..]).Some?
    ensures 0 < k <= |bs|
  {
    ReadBitsBound(bs[1..]);
    1 + ReadBits(bs[1..]).value.1
  }

  /** Outside comments, quotes and minus signs stay apart; in a comment, no parameter breaks the line. */
  ghost predicate Kept(bs: seq<Bit>)
    requires LexBits(bs).Some?
    decreases |bs|
  {
    if bs == [] then true
    else if bs[0].Val? then
      (|bs| > 1 && Quoted(bs[0].p) ==> !StartsQuote(bs[1])) && Kept(bs[1..])
    else if bs[0].c == '\'' then
      var k := StringEnd(bs);
      (k < |bs| ==> !StartsQuote(bs[k])) && Kept(bs[k..])
    else if AtCommentBits(bs) then
      assert LineBits(bs) > 0;
      (forall i :: 0 <= i < LineBits(bs) ==> OneLine(bs[i])) && Kept(bs[LineBits(bs)..])
    else
      (|bs| > 1 && bs[0] == Raw('-') ==> !StartsMinus(bs[1])) && Kept(bs[1..])
  }

  lemma LiteralStarts(p: Param)
    ensures Literal(p) != [] && (Literal(p)[0] == '\'' <==> Quoted(p))
  {
    if Quoted(p) {
      QuotedLiteral(p);
    } else {
      LiteralPlain(p);
      assert Literal(p)[0] in Literal(p);
    }
  }

  lemma TextStarts(bs: seq<Bit>)
    ensures TextOf(bs) != [] && TextOf(bs)[0] == '\'' <==> bs != [] && StartsQuote(bs[0])
    ensures TextOf(bs) != [] && TextOf(bs)[0] == '-' <==> bs != [] && StartsMinus(bs[0])
  {
    if bs != [] && bs[0].Val? { LiteralStarts(bs[0].p); }
  }

  lemma ApartTail(bs: seq<Bit>, k: nat)
    requires k <= |bs|
    ensures Apart(bs) ==> Apart(bs[k..])
  {
    var t := bs[k..];
    if Apart(bs) {
      forall i | 0 <= i < |t| - 1 ensures NotTouching(t[i], t[i + 1]) {
        assert NotTouching(bs[k + i], bs[k + i + 1]);
      }
    }
  }

  /** A string literal of the template consists of characters and ends in a single quote. */
  lemma {:induction false} ReadShape(bs: seq<Bit>)
    requires ReadBits(bs).Some?
    ensures var n := ReadBits(bs).value.1;
      && 1 <= n <= |bs| && (forall i :: 0 <= i < n ==> bs[i].Raw?)
      && bs[n - 1] == Raw('\'') && (n < |bs| ==> bs[n] != Raw('\''))
    decreases |bs|
  {
    var n := ReadBits(bs).value.1;
    if bs[0].c != '\'' {
      ReadShape(bs[1..]);
      forall i | 0 <= i < n ensures bs[i].Raw? { assert i > 0 ==> bs[i] == bs[1..][i - 1]; }
    } else if |bs| > 1 && bs[1] == Raw('\'') {
      ReadShape(bs[2..]);
      forall i | 0 <= i < n ensures bs[i].Raw? { assert i > 1 ==> bs[i] == bs[2..][i - 2]; }
    }
  }

  lemma {:induction false} RawText(bs: seq<Bit>, n: nat)
    requires n <= |bs| && forall i :: 0 <= i < n ==> bs[i].Raw?
    ensures |TextOf(bs)| >= n && TextOf(bs)[n..] == TextOf(bs[n..])
    decreases n
  {
    if n == 0 {
      assert bs[0..] == bs;
    } else {
      RawText(bs[1..], n - 1);
      assert bs[0].Raw? && TextOf(bs)[1..] == TextOf(bs[1..]);
      assert bs[1..][n - 1..] == bs[n..] && TextOf(bs)[n..] == TextOf(bs)[1..][n - 1..];
    }
  }

  /** It is read the same in the text, unless a quote follows it there. */
  lemma {:induction false} ReadText(bs: seq<Bit>)
    requires ReadBits(bs).Some?
    ensures var (v, n) := ReadBits(bs).value;
      if n < |bs| && StartsQuote(bs[n])
      then ReadString(TextOf(bs)).Some? ==> |ReadString(TextOf(bs)).value.0| > |v|
      else ReadString(TextOf(bs)) == Some((v, n))
    decreases |bs|
  {
    var s := TextOf(bs);
    var (v, n) := ReadBits(bs).value;
    if bs[0].c != '\'' {
      ReadText(bs[1..]);
      assert s[1..] == TextOf(bs[1..]);
    } else if |bs| > 1 && bs[1] == Raw('\'') {
      assert TextOf(bs[1..]) == "'" + TextOf(bs[1..][1..]) && bs[1..][1..] == bs[2..];
      ReadText(bs[2..]);
      assert s[2..] == TextOf(bs[2..]);
    } else {
      TextStarts(bs[1..]);
      assert s[1..] == TextOf(bs[1..]);
    }
  }

  /** An escaped text with another quote behind its closing one reads on. */
  lemma {:induction false} ReadEscapedOn(t: string, rest: string)
    requires rest != [] && rest[0] == '\''
    ensures ReadString(Escape(t) + "'" + rest).Some? ==> |ReadString(Escape(t) + "'" + rest).value.0| > |t|
  {
    var s := Escape(t) + "'" + rest;
    if t == [] {
      assert s == "'" + rest && s[1] == '\'';
    } else {
      ReadEscapedOn(t[1..], rest);
      if t[0] == '\'' {
        assert s[2..] == Escape(t[1..]) + "'" + rest;
      } else {
        assert s[1..] == Escape(t[1..]) + "'" + rest;
      }
    }
  }

  lemma LexQuotedOn(t: string, rest: string)
    requires rest != [] && rest[0] == '\''
    ensures var r := Lex("'" + Escape(t) + "'" + rest); r.None? || (r.value != [] && r.value[0] != Str(t))
  {
    var s := "'" + Escape(t) + "'" + rest;
    assert s[1..] == Escape(t) + "'" + rest;
    ReadEscapedOn(t, rest);
  }

  // ---- Exactly when the tokens are kept ----

  lemma ApartCons(bs: seq<Bit>)
    requires bs != []
    ensures Apart(bs) <==> (|bs| == 1 || NotTouching(bs[0], bs[1])) && Apart(bs[1..])
  {
    ApartTail(bs, 1);
    if (|bs| == 1 || NotTouching(bs[0], bs[1])) && Apart(bs[1..]) {
      forall i | 0 <= i < |bs| - 1 ensures NotTouching(bs[i], bs[i + 1]) {
        if i > 0 { assert NotTouching(bs[1..][i - 1], bs[1..][i]); }
      }
    }
  }

  lemma {:induction false} ApartBehindRaws(bs: seq<Bit>, k: nat)
    requires 0 < k <= |bs| && (forall i :: 0 <= i < k ==> bs[i].Raw?) && (k < |bs| ==> NotTouching(bs[k - 1], bs[k]))
    ensures Apart(bs) <==> Apart(bs[k..])
    decreases k
  {
    ApartCons(bs);
    if k > 1 {
      ApartBehindRaws(bs[1..], k - 1);
      assert bs[1..][k - 1..] == bs[k..];
    }
  }

  lemma TokensCancel(a: seq<Token>, r: Option<seq<Token>>, r': Option<seq<Token>>)
    ensures Tokens(a, r) == Tokens(a, r') <==> r == r'
  {
    if r.Some? && r'.Some? {
      assert (a + r.value)[|a|..] == r.value && (a + r'.value)[|a|..] == r'.value;
    }
  }

  lemma LexOneChar(c: char, rest: string)
    requires c != '\''
    ensures if c == '-' && rest != [] && rest[0] == '-' then AtComment([c] + rest)
      else Lex([c] + rest) == Tokens([Ch(c)], Lex(rest))
  {
    assert ([c] + rest)[1..] == rest;
  }

  /** One step for a character outside strings and comments: it is kept unless it is a minus sign and
      another one comes from a parameter. */
  lemma CharStep(bs: seq<Bit>)
    requires bs != [] && bs[0].Raw? && bs[0].c != '\'' && !AtCommentBits(bs) && LexBits(bs).Some?
    ensures var rest := bs[1..];
      if |bs| > 1 && bs[0] == Raw('-') && StartsMinus(bs[1]) then Lex(TextOf(bs)) != LexBits(bs)
      else Lex(TextOf(bs)) == LexBits(bs) <==> Lex(TextOf(rest)) == LexBits(rest)
  {
    var c, rest := bs[0].c, bs[1..];
    TextStarts(rest);
    LexOneChar(c, TextOf(rest));
    assert LexBits(bs) == Tokens([Ch(c)], LexBits(rest));
    if c == '-' && |bs| > 1 && StartsMinus(bs[1]) {
      CommentFirst(TextOf(bs));
      assert LexBits(bs).value[0] == Ch('-');
    } else {
      TokensCancel([Ch(c)], Lex(TextOf(rest)), LexBits(rest));
    }
  }

  // ---- Comments of the template ----

  lemma BreaksOfBits(bs: seq<Bit>)
    requires bs != []
    ensures Breaks(TextOf(bs)) == Breaks(Shown(bs[0])) + Breaks(TextOf(bs[1..]))
  {
    BreaksAppend(Shown(bs[0]), TextOf(bs[1..]));
  }

  /** When no parameter breaks it, the template's line is the line of the text. */
  lemma {:induction false} LineText(bs: seq<Bit>)
    requires forall i :: 0 <= i < LineBits(bs) ==> OneLine(bs[i])
    ensures TextOf(bs)[LineLen(TextOf(bs))..] == TextOf(bs[LineBits(bs)..])
  {
    if LineBits(bs) == 0 {
      var s := TextOf(bs);
      assert bs[0..] == bs && LineLen(s) == 0 && s[0..] == s;
    } else {
      var rest, t := bs[1..], Shown(bs[0]);
      forall i | 0 <= i < LineBits(rest) ensures OneLine(rest[i]) { assert rest[i] == bs[i + 1]; }
      LineText(rest);
      assert OneLine(bs[0]) && LineLen(t) == |t|;
      BehindLine(t, TextOf(rest));
      assert bs[LineBits(bs)..] == rest[LineBits(rest)..];
    }
  }

  lemma LineBitsTail(bs: seq<Bit>)
    requires LineBits(bs) > 0
    ensures LineBits(bs) == 1 + LineBits(bs[1..]) && bs[LineBits(bs)..] == bs[1..][LineBits(bs[1..])..]
    ensures Breaks(TextOf(bs)) == Breaks(Shown(bs[0])) + Breaks(TextOf(bs[1..]))
  {
    BreaksOfBits(bs);
  }

  lemma {:induction false} BreaksBehindLineBits(bs: seq<Bit>)
    ensures Breaks(TextOf(bs[LineBits(bs)..])) <= Breaks(TextOf(bs))
  {
    if LineBits(bs) == 0 {
      assert bs[0..] == bs;
    } else {
      BreaksBehindLineBits(bs[1..]);
      LineBitsTail(bs);
    }
  }

  lemma BrokenBit(b: Bit)
    requires !OneLine(b)
    ensures Breaks(Shown(b)) > 0
  {
    OneLineIff(Literal(b.p));
  }

  /** A parameter that breaks the line leaves fewer line breaks behind it. */
  lemma {:induction false} FewerBreaksBehind(bs: seq<Bit>, i: nat)
    requires i < LineBits(bs) && !OneLine(bs[i])
    ensures Breaks(TextOf(bs[LineBits(bs)..])) < Breaks(TextOf(bs))
  {
    var rest := bs[1..];
    LineBitsTail(bs);
    if i == 0 {
      BreaksBehindLineBits(rest);
      BrokenBit(bs[0]);
    } else {
      assert rest[i - 1] == bs[i];
      FewerBreaksBehind(rest, i - 1);
    }
  }

  lemma {:induction false} ReadBitsBreaks(bs: seq<Bit>)
    requires ReadBits(bs).Some?
    ensures var (v, n) := ReadBits(bs).value; n <= |bs| && Breaks(TextOf(bs)) == Breaks(v) + Breaks(TextOf(bs[n..]))
    decreases |bs|
  {
    BreaksOfBits(bs);
    BreaksOfFirst(bs[0].c, "");
    if bs[0].c != '\'' {
      ReadBitsBreaks(bs[1..]);
      var (v, n) := ReadBits(bs[1..]).value;
      BreaksOfFirst(bs[0].c, v);
      assert bs[n + 1..] == bs[1..][n..];
    } else if |bs| > 1 && bs[1] == Raw('\'') {
      BreaksOfBits(bs[1..]);
      assert bs[1..][1..] == bs[2..];
      ReadBitsBreaks(bs[2..]);
      var (v, n) := ReadBits(bs[2..]).value;
      BreaksOfFirst('\'', v);
      assert bs[n + 2..] == bs[2..][n..];
    }
  }

  lemma BreaksOfTokens(a: seq<Token>, r: Option<seq<Token>>)
    requires r.Some?
    ensures TokenBreaks(Tokens(a, r).value) == TokenBreaks(a) + TokenBreaks(r.value)
  {
    TokenBreaksAppend(a, r.value);
  }

  /** The template's tokens have no line break the text does not have. */
  lemma {:induction false} LexBitsBreaks(bs: seq<Bit>)
    requires LexBits(bs).Some?
    ensures TokenBreaks(LexBits(bs).value) <= Breaks(TextOf(bs))
    decreases |bs|
  {
    if bs != [] {
      BreaksOfBits(bs);
      if bs[0].Val? {
        LexBitsBreaks(bs[1..]);
        BreaksOfTokens(LiteralTokens(bs[0].p), LexBits(bs[1..]));
        LiteralBreaks(bs[0].p);
      } else if bs[0].c == '\'' {
        ReadBitsBreaks(bs[1..]);
        var (v, n) := ReadBits(bs[1..]).value;
        assert bs[1..][n..] == bs[1 + n..];
        ReadBitsBound(bs[1..]);
        LexBitsBreaks(bs[1 + n..]);
        BreaksOfTokens([Str(v)], LexBits(bs[1 + n..]));
      } else if AtCommentBits(bs) {
        assert LineBits(bs) > 0;
        BreaksBehindLineBits(bs);
        LexBitsBreaks(bs[LineBits(bs)..]);
      } else {
        LexBitsBreaks(bs[1..]);
        BreaksOfTokens([Ch(bs[0].c)], LexBits(bs[1..]));
        BreaksOfFirst(bs[0].c, "");
      }
    }
  }

  /** One step for a comment of the template: its line ends where the template's line ends, unless a
      parameter in it breaks the line. */
  lemma CommentStep(bs: seq<Bit>)
    requires AtCommentBits(bs) && LexBits(bs).Some?
    ensures var k := LineBits(bs);
      if forall i :: 0 <= i < k ==> OneLine(bs[i])
      then Lex(TextOf(bs)) == LexBits(bs) <==> Lex(TextOf(bs[k..])) == LexBits(bs[k..])
      else Lex(TextOf(bs)) != LexBits(bs)
  {
    var s, k := TextOf(bs), LineBits(bs);
    assert k > 0 && LexBits(bs) == LexBits(bs[k..]);
    if forall i :: 0 <= i < k ==> OneLine(bs[i]) {
      LineText(bs);
      CommentText(bs);
      assert Lex(s) == Lex(s[LineLen(s)..]);
    } else {
      var i :| 0 <= i < k && !OneLine(bs[i]);
      FewerBreaksBehind(bs, i);
      LexBitsBreaks(bs[k..]);
      if Lex(s).Some? { LexKeepsBreaks(s); }
    }
  }

  lemma CommentText(bs: seq<Bit>)
    requires AtCommentBits(bs)
    ensures AtComment(TextOf(bs)) && LineLen(TextOf(bs)) > 0
  {
    assert TextOf(bs) == "-" + TextOf(bs[1..]) && TextOf(bs[1..]) == "-" + TextOf(bs[1..][1..]);
  }

  /** One step for a parameter: its tokens are kept unless it is quoted and a quote follows. */
  lemma ValStep(bs: seq<Bit>)
    requires bs != [] && bs[0].Val? && LexBits(bs).Some?
    ensures var rest := bs[1..];
      if |bs| > 1 && Quoted(bs[0].p) && StartsQuote(bs[1]) then Lex(TextOf(bs)) != LexBits(bs)
      else Lex(TextOf(bs)) == LexBits(bs) <==> Lex(TextOf(rest)) == LexBits(rest)
  {
    var p, rest := bs[0].p, bs[1..];
    TextStarts(rest);
    if Quoted(p) && |bs| > 1 && StartsQuote(bs[1]) {
      QuotedLiteral(p);
      LexQuotedOn(Inner(p), TextOf(rest));
    } else {
      if Quoted(p) {
        LexLiteral(p, TextOf(rest));
      } else {
        LiteralPlain(p);
        NumberUncommented(Literal(p), TextOf(rest));
        LexPlain(Literal(p), TextOf(rest));
      }
      TokensCancel(LiteralTokens(p), Lex(TextOf(rest)), LexBits(rest));
    }
  }

  lemma StringShape(bs: seq<Bit>)
    requires bs != [] && bs[0] == Raw('\'') && ReadBits(bs[1..]).Some?
    ensures var k := StringEnd(bs);
      && (forall i :: 0 <= i < k ==> bs[i].Raw?)
      && bs[k - 1] == Raw('\'') && (k < |bs| ==> bs[k] != Raw('\''))
      && TextOf(bs)[1..] == TextOf(bs[1..]) && |TextOf(bs)| >= k && TextOf(bs)[k..] == TextOf(bs[k..])
  {
    var inner, k := bs[1..], StringEnd(bs);
    ReadShape(inner);
    forall i | 0 <= i < k ensures bs[i].Raw? { assert i > 0 ==> bs[i] == inner[i - 1]; }
    RawText(bs, k);
  }

  /** One step for a string literal of the template. */
  lemma StringStep(bs: seq<Bit>)
    requires bs != [] && bs[0] == Raw('\'') && ReadBits(bs[1..]).Some? && LexBits(bs[StringEnd(bs)..]).Some?
    ensures var k := StringEnd(bs);
      if k < |bs| && StartsQuote(bs[k]) then Lex(TextOf(bs)) != LexBits(bs)
      else Lex(TextOf(bs)) == LexBits(bs) <==> Lex(TextOf(bs[k..])) == LexBits(bs[k..])
  {
    var k := StringEnd(bs);
    var (v, n) := ReadBits(bs[1..]).value;
    StringShape(bs);
    ReadText(bs[1..]);
    assert k < |bs| ==> bs[1..][n] == bs[k];
    LexAfterString(TextOf(bs), v, n);
    assert LexBits(bs) == Tokens([Str(v)], LexBits(bs[k..]));
    TokensCancel([Str(v)], Lex(TextOf(bs[k..])), LexBits(bs[k..]));
  }

  lemma LexAfterString(s: string, v: string, n: nat)
    requires s != [] && s[0] == '\''
    ensures ReadString(s[1..]) == Some((v, n)) ==> n < |s| && Lex(s) == Tokens([Str(v)], Lex(s[1 + n..]))
    ensures ReadString(s[1..]).None? ==> Lex(s).None?
    ensures ReadString(s[1..]).Some? && |ReadString(s[1..]).value.0| > |v| ==>
              Lex(s).None? || (Lex(s).value != [] && Lex(s).value[0] != Str(v))
  {
    ReadStringBound(s[1..]);
  }

  /** A lexer finds the template's own tokens and each parameter in the finished text exactly when the
      parameters keep to themselves. */
  lemma {:induction false} LexKeptIff(bs: seq<Bit>)
    requires LexBits(bs).Some?
    ensures Lex(TextOf(bs)) == LexBits(bs) <==> Kept(bs)
    decreases |bs|
  {
    if bs != [] {
      if bs[0].Val? {
        ValStep(bs);
        LexKeptIff(bs[1..]);
      } else if bs[0].c == '\'' {
        StringStep(bs);
        LexKeptIff(bs[StringEnd(bs)..]);
      } else if AtCommentBits(bs) {
        assert LineBits(bs) > 0;
        CommentStep(bs);
        LexKeptIff(bs[LineBits(bs)..]);
      } else {
        CharStep(bs);
        LexKeptIff(bs[1..]);
      }
    }
  }

  lemma NoDoubleMinusTail(bs: seq<Bit>, k: nat)
    requires k <= |bs| && NoDoubleMinus(bs)
    ensures NoDoubleMinus(bs[k..]) && !AtCommentBits(bs)
  {
    var t := bs[k..];
    forall i | 0 <= i < |t| - 1 ensures !DoubleMinus(t[i], t[i + 1]) {
      assert !DoubleMinus(bs[k + i], bs[k + i + 1]);
    }
    assert |bs| > 1 ==> !DoubleMinus(bs[0], bs[0 + 1]);
  }

  /** In a template without `--`, that is a matter of neighbours. */
  lemma {:induction false} KeptIffApart(bs: seq<Bit>)
    requires LexBits(bs).Some? && NoDoubleMinus(bs)
    ensures Kept(bs) <==> Apart(bs)
    decreases |bs|
  {
    if bs != [] {
      NoDoubleMinusTail(bs, 1);
      if bs[0].Val? || bs[0].c != '\'' {
        ApartCons(bs);
        KeptIffApart(bs[1..]);
        assert |bs| > 1 ==> !DoubleMinus(bs[0], bs[0 + 1]);
      } else {
        var k := StringEnd(bs);
        StringShape(bs);
        NoDoubleMinusTail(bs, k);
        if k < |bs| && StartsQuote(bs[k]) {
          assert !NotTouching(bs[k - 1], bs[k - 1 + 1]);
        } else {
          ApartBehindRaws(bs, k);
          KeptIffApart(bs[k..]);
        }
      }
    }
  }

  /** The same for the output of substitution into any template. */
  lemma SubstitutedLexesIff(s: string, params: seq<Param>)
    requires FirstBad(Marks(s, false), |params|).None? && LexBits(Bits(Marks(s, false), params)).Some?
    ensures var bs := Bits(Marks(s, false), params);
      && Substitute(s, false, params) == Done(TextOf(bs))
      && (Lex(TextOf(bs)) == LexBits(bs) <==> Kept(bs))
      && (NoDoubleMinus(bs) ==> (Kept(bs) <==> Apart(bs)))
  {
    SubstituteWrites(s, false, params);
    var bs := Bits(Marks(s, false), params);
    LexKeptIff(bs);
    if NoDoubleMinus(bs) { KeptIffApart(bs); }
  }

  lemma {:induction false} EscapeAppend(a: string, b: string)
    ensures Escape(a + b) == Escape(a) + Escape(b)
  {
    if a == [] {
      assert a + b == b;
    } else {
      assert (a + b)[1..] == a[1..] + b;
      EscapeAppend(a[1..], b);
    }
  }

  lemma TextOneLine(v: string)
    ensures OneLine(Val(TextParam(v))) <==> LineLen(v) == |v|
  {
    LiteralBreaks(TextParam(v));
    assert TokenBreaks([Str(v)]) == Breaks(v);
    OneLineIff(v);
    OneLineIff(Literal(TextParam(v)));
  }

  /** What stands in a comment on the last line is commented out exactly when no parameter in it breaks
      the line. */
  lemma CommentedOutIff(bs: seq<Bit>)
    requires AtCommentBits(bs) && LineBits(bs) == |bs|
    ensures LexBits(bs) == Some([])
    ensures Lex(TextOf(bs)) == Some([]) <==> forall i :: 0 <= i < |bs| ==> OneLine(bs[i])
  {
    assert bs[|bs|..] == [] && LexBits([]) == Some([]) && Lex(TextOf([])) == Some([]);
    CommentStep(bs);
  }

  lemma MinusWritten(n: int)
    ensures Substitute("7-$1", false, [Int4(n)]) == Done("7-" + SignedDecimal(n))
  {
    var ps := [Int4(n)];
    SubstitutePlaceholder(0, "", ps);
    assert Decimal(1) == "1" && "$" + "1" + "" == "$1";
    assert Literal(ps[0]) + "" == Literal(ps[0]);
    SubstitutePlain("7-", "$1", ps);
    assert "7-" + "$1" == "7-$1";
  }

  lemma MinusLexed(d: string)
    requires d != [] && d[0] == '-' && LineLen(d) == |d|
    ensures Lex("7-" + d) == Some([Ch('7')])
  {
    var s := "-" + d;
    LineLenAppend("-", d);
    assert AtComment(s) && s[LineLen(s)..] == "" && Lex(s) == Some([]);
    LexOneChar('7', s);
    assert "7-" + d == ['7'] + s && [Ch('7')] + [] == [Ch('7')];
  }

  lemma MinusTokens(p: Param)
    ensures LexBits([Raw('7'), Raw('-'), Val(p)]) == Some([Ch('7'), Ch('-')] + LiteralTokens(p))
  {
    var b := Val(p);
    assert [b][1..] == [] && LiteralTokens(p) + [] == LiteralTokens(p);
    assert LexBits([b]) == Some(LiteralTokens(p));
    assert [Raw('-'), b][1..] == [b] && [Raw('7'), Raw('-'), b][1..] == [Raw('-'), b];
    assert [Ch('7')] + ([Ch('-')] + LiteralTokens(p)) == [Ch('7'), Ch('-')] + LiteralTokens(p);
  }

  /** A negative number behind a minus sign starts a comment: of `7-$1` only the 7 is left. */
  lemma MinusStartsComment(n: int)
    requires n < 0
    ensures Substitute("7-$1", false, [Int4(n)]) == Done("7-" + SignedDecimal(n))
    ensures Lex("7-" + SignedDecimal(n)) == Some([Ch('7')])
    ensures LexBits([Raw('7'), Raw('-'), Val(Int4(n))]) == Some([Ch('7'), Ch('-')] + Chars(SignedDecimal(n)))
  {
    MinusWritten(n);
    DecimalNumber(n);
    MinusLexed(SignedDecimal(n));
    MinusTokens(Int4(n));
  }

  /** Two touching literals become one: a text in front of `'x'` is read as a single longer string. */
  lemma TouchingLiteralsMerge(v: string)
    ensures Lex(TextOf([Val(TextParam(v)), Raw('\''), Raw('x'), Raw('\'')])) == Some([Str(v + "'x")])
  {
    var tail: seq<Bit> := [Raw('\''), Raw('x'), Raw('\'')];
    var bs := [Val(TextParam(v))] + tail;
    assert bs == [Val(TextParam(v)), Raw('\''), Raw('x'), Raw('\'')] && bs[1..] == tail;
    RawThree('\'', 'x', '\'');
    EscapeAppend(v, "'x");
    EscapeQuoteX();
    var w := v + "'x";
    assert TextOf(bs) == "'" + Escape(v) + "'" + "'x'";
    assert TextOf(bs) == "'" + Escape(w) + "'" + "";
    LexQuoted(w, "");
    assert Lex("") == Some([]) && [Str(w)] + [] == [Str(w)];
  }

  lemma EscapeQuoteX()
    ensures Escape("'x") == "''x"
  {
    assert "'x"[1..] == "x" && "x"[1..] == "";
    assert Escape("x") == "x";
  }

  lemma RawThree(a: char, b: char, c: char)
    ensures TextOf([Raw(a), Raw(b), Raw(c)]) == [a, b, c]
  {
    assert [Raw(a), Raw(b), Raw(c)][1..] == [Raw(b), Raw(c)];
    assert [Raw(b), Raw(c)][1..] == [Raw(c)];
    assert [Raw(c)][1..] == [];
    assert TextOf([Raw(c)]) == [c];
    assert TextOf([Raw(b), Raw(c)]) == [b, c];
  }
}
