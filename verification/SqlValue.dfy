/**
  What SQL literals mean: a reader that goes from a literal's tokens to its value, and the law that
  every parameter's literal is read as the parameter's value.
 */
module SqlValue {
  import opened Prelude
  import opened SqlParam

  datatype Value =
    | NullValue
    | Boolean(b: bool)
    | Integer(n: int)
    | Number(text: string)
    | Txt(s: string)
    | Binary(d: Bytes)

  /** The type a literal is read at, as given by the column it is compared with. */
  datatype Kind = OfBool | OfInt | OfFloat | OfText | OfBytes

  // ---- The reader ----

  /** The text of tokens that are all single characters. */
  function TextOfChars(ts: seq<Token>): Option<string> {
    if ts == [] then Some("")
    else if ts[0].Str? then None
    else match TextOfChars(ts[1..]) case None => None case Some(rest) => Some([ts[0].c] + rest)
  }

  function ReadDigits(s: string): Option<nat> { if Digits(s) then Some(ParseDigits(s)) else None }

  function Negated(r: Option<nat>): Option<int> { if r.Some? then Some(-(r.value as int)) else None }

  function ReadInteger(s: string): Option<int> {
    if s != [] && s[0] == '-' then Negated(ReadDigits(s[1..])) else ReadDigits(s)
  }

  function HexValue(c: char): Option<nat> {
    if '0' <= c <= '9' then Some(c as int - '0' as int)
    else if 'a' <= c <= 'f' then Some(c as int - 'a' as int + 10)
    else if 'A' <= c <= 'F' then Some(c as int - 'A' as int + 10)
    else None
  }

  /** Two digits a byte. */
  function ReadHex(s: string): Option<Bytes> {
    if s == [] then Some([])
    else if |s| < 2 || HexValue(s[0]).None? || HexValue(s[1]).None? then None
    else match ReadHex(s[2..])
      case None => None
      case Some(rest) => Some([16 * HexValue(s[0]).value + HexValue(s[1]).value] + rest)
  }

  function ReadBytes(s: string): Option<Bytes> { if "\\x" <= s then ReadHex(s[2..]) else None }

  function ReadWord(kind: Kind, s: string): Option<Value> {
    if s == "NULL" then Some(NullValue)
    else match kind
      case OfBool => if s == "TRUE" then Some(Boolean(true)) else if s == "FALSE" then Some(Boolean(false)) else None
      case OfInt => (match ReadInteger(s) case None => None case Some(n) => Some(Integer(n)))
      case OfFloat => if FiniteText(s) then Some(Number(s)) else None
      case _ => None
  }

  function ReadQuoted(kind: Kind, s: string): Option<Value> {
    match kind
    case OfText => Some(Txt(s))
    case OfBytes => (match ReadBytes(s) case None => None case Some(d) => Some(Binary(d)))
    case _ => None
  }

  /** A quoted string, or a word or number in bare characters. */
  function ReadTokens(kind: Kind, ts: seq<Token>): Option<Value> {
    if |ts| == 1 && ts[0].Str? then ReadQuoted(kind, ts[0].s)
    else match TextOfChars(ts) case None => None case Some(s) => ReadWord(kind, s)
  }

  function ReadLiteral(kind: Kind, s: string): Option<Value> {
    match Lex(s) case None => None case Some(ts) => ReadTokens(kind, ts)
  }

  // ---- Parameters and their values ----

  /** A parameter that is missing may stand for any type. */
  predicate Suits(p: Param, kind: Kind) {
    match p
    case Null => true
    case Bool(_) => kind.OfBool?
    case Int4(_) => kind.OfInt?
    case Int8(_) => kind.OfInt?
    case Float8(_) => kind.OfFloat?
    case TextParam(_) => kind.OfText?
    case BytesParam(_) => kind.OfBytes?
  }

  function ValueOf(p: Param): Value {
    match p
    case Null => NullValue
    case Bool(b) => Boolean(b)
    case Int4(n) => Integer(n)
    case Int8(n) => Integer(n)
    case Float8(f) => Number(f)
    case TextParam(s) => Txt(s)
    case BytesParam(d) => Binary(d)
  }

  // ---- Literals are read as their values ----

  lemma {:induction false} CharsText(s: string)
    ensures TextOfChars(Chars(s)) == Some(s)
  {
    if s != [] {
      CharsText(s[1..]);
      assert Chars(s)[1..] == Chars(s[1..]);
      assert s == [s[0]] + s[1..];
    }
  }

  lemma CharsRead(kind: Kind, s: string)
    ensures ReadTokens(kind, Chars(s)) == ReadWord(kind, s)
  {
    CharsText(s);
  }

  lemma IntegerReads(n: int)
    ensures ReadInteger(SignedDecimal(n)) == Some(n) && SignedDecimal(n) != "NULL"
  {
    var d := Decimal(if n < 0 then -n else n);
    DecimalRoundTrip(if n < 0 then -n else n);
    assert Digits(d);
    if n < 0 { assert ("-" + d)[1..] == d; } else { assert IsDigit(d[0]) && d[0] != '-'; }
  }

  lemma HexPairReads(b: byte)
    ensures HexValue(HexDigit(b / 16) as char) == Some(b / 16) && HexValue(HexDigit(b % 16) as char) == Some(b % 16)
  {
  }

  lemma {:induction false} HexReads(d: Bytes)
    ensures ReadHex(HexEncode(d)) == Some(d)
  {
    if d != [] {
      var s := HexEncode(d);
      HexReads(d[1..]);
      HexPairReads(d[0]);
      assert s[2..] == HexEncode(d[1..]);
      assert d == [d[0]] + d[1..] && 16 * (d[0] / 16) + d[0] % 16 == d[0];
    }
  }

  lemma BytesRead(d: Bytes)
    ensures ReadBytes("\\x" + HexEncode(d)) == Some(d)
  {
    var s := "\\x" + HexEncode(d);
    HexReads(d);
    assert s[2..] == HexEncode(d) && s[..2] == "\\x";
  }

  lemma FiniteIsNoWord(f: string)
    requires FiniteText(f)
    ensures f != "NULL"
  {
    assert f[0] == '-' || IsDigit(f[0]) by {
      if f[0] != '-' && !Digits(f) {
        var k :| 0 < k < |f| && f[k] == '.' && Digits(f[..k]) && Digits(f[k + 1..]);
        assert f[..k][0] == f[0];
      }
    }
  }

  /** The tokens of a parameter's literal are read as its value, at the parameter's type, for every value
      that is not an infinite or undefined float: those are bare words that no number is written as. */
  lemma TokensReadBackIff(p: Param, kind: Kind)
    requires Suits(p, kind)
    ensures ReadTokens(kind, LiteralTokens(p)) == Some(ValueOf(p)) <==> (p.Float8? ==> FiniteText(p.f))
  {
    if !Quoted(p) { CharsRead(kind, Literal(p)); }
    match p
    case Null => assert Literal(p) == "NULL";
    case Bool(b) => assert "TRUE"[0] != "NULL"[0] && "FALSE"[0] != "NULL"[0] && "FALSE"[0] != "TRUE"[0];
    case Int4(n) => IntegerReads(n);
    case Int8(n) => IntegerReads(n);
    case Float8(f) => if FiniteText(f) { FiniteIsNoWord(f); }
    case TextParam(s) =>
    case BytesParam(d) => BytesRead(d);
  }

  /** The same for the text of the literal. */
  lemma LiteralReadsBackIff(p: Param, kind: Kind)
    requires Suits(p, kind)
    ensures ReadLiteral(kind, Literal(p)) == Some(ValueOf(p)) <==> (p.Float8? ==> FiniteText(p.f))
  {
    LexLiteral(p, "");
    assert Literal(p) + "" == Literal(p) && LiteralTokens(p) + [] == LiteralTokens(p);
    TokensReadBackIff(p, kind);
  }
}
