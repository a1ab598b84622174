/**
  The query builder: validated identifiers, a template with numbered placeholders, and the same
  query with its parameters written in place.

  A query is a list of pieces, clause text and parameter slots. `InlinedQueryMeansTheSame` says that
  inlining fills exactly the slots; `InlinedQueryReadsBack` says that a lexer finds the clause text
  and the parameter values in the result, whatever the values contain.
 */
module QueryBuilder {
  import opened Prelude
  import opened Words
  import opened SqlParam

  datatype Order = Asc | Desc

  datatype Query = Query(table: string, columns: seq<string>, conditions: seq<(string, Param)>,
                         order: Option<(string, Order)>, limit: Option<nat>, offset: Option<nat>)

  // ---- Identifiers ----

  predicate IdentChar(c: char) { 'a' <= c <= 'z' || 'A' <= c <= 'Z' || IsDigit(c) || c == '_' || c == '.' }

  predicate ValidIdentifier(s: string) { s != [] && forall i :: 0 <= i < |s| ==> IdentChar(s[i]) }

  /** A table in a schema is an identifier; text with spaces, quotes, dashes or semicolons is none. */
  lemma IdentifierExamples()
    ensures ValidIdentifier("public.Users_2") && !ValidIdentifier("") && !ValidIdentifier("a b")
    ensures !ValidIdentifier("a'") && !ValidIdentifier("a-b") && !ValidIdentifier("a;")
  {
    assert !IdentChar("a b"[1]) && !IdentChar("a'"[1]) && !IdentChar("a-b"[1]) && !IdentChar("a;"[1]);
  }

  ghost predicate ValidQuery(q: Query) {
    && ValidIdentifier(q.table)
    && (forall i :: 0 <= i < |q.columns| ==> ValidIdentifier(q.columns[i]))
    && (forall i :: 0 <= i < |q.conditions| ==> ValidIdentifier(q.conditions[i].0))
    && (q.order.Some? ==> ValidIdentifier(q.order.value.0))
  }

  // ---- Pieces ----

  datatype Piece = Clause(t: string) | ParamSlot(k: nat)

  function Fill(ps: seq<Piece>, slot: nat -> string): string {
    if ps == [] then "" else (match ps[0] case Clause(t) => t case ParamSlot(k) => slot(k)) + Fill(ps[1..], slot)
  }

  function FillTokens(ps: seq<Piece>, params: seq<Param>): seq<Token> {
    if ps == [] then []
    else PieceTokens(ps[0], params) + FillTokens(ps[1..], params)
  }

  function PieceTokens(p: Piece, params: seq<Param>): seq<Token> {
    match p case Clause(t) => Chars(t) case ParamSlot(k) => if k < |params| then LiteralTokens(params[k]) else []
  }

  function Placeholder(k: nat): string { "$" + Decimal(k + 1) }

  function LiteralOf(params: seq<Param>): nat -> string { (k: nat) => if k < |params| then Literal(params[k]) else "" }

  /** Clause text: no quote, no dollar and no minus sign. */
  ghost predicate Quiet(s: string) { forall i :: 0 <= i < |s| ==> PlainChar(s[i]) && s[i] != '-' }

  /** Clause text is quiet; a slot is followed by text that starts with no digit. */
  ghost predicate Template(ps: seq<Piece>, n: nat) {
    && (forall i :: 0 <= i < |ps| ==> if ps[i].Clause? then Quiet(ps[i].t) else ps[i].k < n)
    && (forall i :: 0 <= i < |ps| && ps[i].ParamSlot? ==> StartsSafely(ps[i + 1..]))
  }

  ghost predicate StartsSafely(ps: seq<Piece>) {
    ps == [] || (ps[0].Clause? && ps[0].t != [] && !IsDigit(ps[0].t[0]))
  }

  lemma TemplateTail(ps: seq<Piece>, n: nat)
    requires Template(ps, n) && ps != []
    ensures Template(ps[1..], n)
  {
    forall i | 0 <= i < |ps[1..]| && ps[1..][i].ParamSlot? ensures StartsSafely(ps[1..][i + 1..]) {
      assert ps[1..][i] == ps[i + 1] && ps[1..][i + 1..] == ps[i + 1 + 1..];
    }
  }

  lemma SafeStart(ps: seq<Piece>, slot: nat -> string, n: nat)
    requires Template(ps, n) && StartsSafely(ps)
    ensures Fill(ps, slot) == "" || (!IsDigit(Fill(ps, slot)[0]) && Fill(ps, slot)[0] != '\'')
  {
    if ps != [] {
      assert PlainChar(ps[0].t[0]);
      assert Fill(ps, slot)[0] == ps[0].t[0];
    }
  }

  /** Substituting into a template fills its slots with the parameters' literals and nothing else. */
  lemma {:induction false} SubstituteFills(ps: seq<Piece>, params: seq<Param>)
    requires Template(ps, |params|) && |params| < U64
    ensures Substitute(Fill(ps, Placeholder), false, params) == Done(Fill(ps, LiteralOf(params)))
  {
    if ps != [] {
      TemplateTail(ps, |params|);
      SubstituteFills(ps[1..], params);
      var rest := Fill(ps[1..], Placeholder);
      match ps[0]
      case Clause(t) => SubstitutePlain(t, rest, params);
      case ParamSlot(k) =>
        assert StartsSafely(ps[0 + 1..]);
        SafeStart(ps[1..], Placeholder, |params|);
        SubstitutePlaceholder(k, rest, params);
    }
  }

  /** Lexing the filled template finds the clause text and, for each slot, the parameter's value. */
  lemma {:induction false} FilledReadsBack(ps: seq<Piece>, params: seq<Param>)
    requires Template(ps, |params|)
    ensures Lex(Fill(ps, LiteralOf(params))) == Some(FillTokens(ps, params))
  {
    if ps != [] {
      TemplateTail(ps, |params|);
      FilledReadsBack(ps[1..], params);
      var rest := Fill(ps[1..], LiteralOf(params));
      match ps[0]
      case Clause(t) =>
        NoMinusUncommented(t, rest);
        LexPlain(t, rest);
      case ParamSlot(k) =>
        assert StartsSafely(ps[0 + 1..]);
        SafeStart(ps[1..], LiteralOf(params), |params|);
        LexLiteral(params[k], rest);
    }
  }

  // ---- The pieces of a query ----

  function JoinWith(sep: string, parts: seq<string>): string {
    if parts == [] then "" else if |parts| == 1 then parts[0] else parts[0] + sep + JoinWith(sep, parts[1..])
  }

  function Head(q: Query): string {
    "SELECT " + (if q.columns == [] then "*" else JoinWith(", ", q.columns)) + " FROM " + q.table
  }

  function OrderSql(o: Order): string { match o case Asc => "ASC" case Desc => "DESC" }

  function Tail(q: Query): string {
    (if q.order.Some? then " ORDER BY " + q.order.value.0 + " " + OrderSql(q.order.value.1) else "")
    + (if q.limit.Some? then " LIMIT " + Decimal(q.limit.value) else "")
    + (if q.offset.Some? then " OFFSET " + Decimal(q.offset.value) else "")
  }

  /** The first `n` conditions: each names its column and leaves a slot. */
  function CondPieces(conds: seq<(string, Param)>, n: nat): seq<Piece>
    requires n <= |conds|
  {
    if n == 0 then []
    else CondPieces(conds, n - 1)
         + [Clause((if n == 1 then " WHERE " else " AND ") + conds[n - 1].0 + " = "), ParamSlot(n - 1)]
  }

  function TailPieces(q: Query): seq<Piece> { if Tail(q) == "" then [] else [Clause(Tail(q))] }

  function Pieces(q: Query): seq<Piece> {
    [Clause(Head(q))] + CondPieces(q.conditions, |q.conditions|) + TailPieces(q)
  }

  function Params(q: Query): (r: seq<Param>)
    ensures |r| == |q.conditions| && forall i :: 0 <= i < |r| ==> r[i] == q.conditions[i].1
  {
    seq(|q.conditions|, i requires 0 <= i < |q.conditions| => q.conditions[i].1)
  }

  // ---- Queries are templates ----

  lemma QuietAppend(a: string, b: string)
    requires Quiet(a) && Quiet(b)
    ensures Quiet(a + b)
  {
  }

  lemma IdentQuiet(s: string)
    requires ValidIdentifier(s)
    ensures Quiet(s)
  {
  }

  lemma DecimalQuiet(n: nat)
    ensures Quiet(Decimal(n))
  {
    var s := Decimal(n);
    assert forall i :: 0 <= i < |s| ==> IsDigit(s[i]);
  }

  lemma {:induction false} JoinQuiet(sep: string, parts: seq<string>)
    requires Quiet(sep) && forall i :: 0 <= i < |parts| ==> ValidIdentifier(parts[i])
    ensures Quiet(JoinWith(sep, parts))
  {
    if parts != [] {
      IdentQuiet(parts[0]);
      JoinQuiet(sep, parts[1..]);
    }
  }

  lemma HeadQuiet(q: Query)
    requires ValidQuery(q)
    ensures Quiet(Head(q))
  {
    IdentQuiet(q.table);
    JoinQuiet(", ", q.columns);
    assert Quiet("SELECT ") && Quiet("*") && Quiet(" FROM ") && Quiet(", ");
  }

  lemma TailQuiet(q: Query)
    requires ValidQuery(q)
    ensures Quiet(Tail(q)) && StartsSafely(TailPieces(q))
  {
    var order := if q.order.Some? then " ORDER BY " + q.order.value.0 + " " + OrderSql(q.order.value.1) else "";
    var limit := if q.limit.Some? then " LIMIT " + Decimal(q.limit.value) else "";
    var offset := if q.offset.Some? then " OFFSET " + Decimal(q.offset.value) else "";
    if q.order.Some? { OrderQuiet(q.order.value.0, q.order.value.1); }
    if q.limit.Some? { NumberQuiet(" LIMIT ", q.limit.value); }
    if q.offset.Some? { NumberQuiet(" OFFSET ", q.offset.value); }
    SpacedAppend(order, limit);
    SpacedAppend(order + limit, offset);
  }

  /** Quiet text that is empty or starts with a space. */
  ghost predicate Spaced(s: string) { Quiet(s) && (s == "" || s[0] == ' ') }

  lemma SpacedAppend(a: string, b: string)
    requires Spaced(a) && Spaced(b)
    ensures Spaced(a + b)
  {
    QuietAppend(a, b);
    assert a + b != "" ==> (a + b)[0] == if a != "" then a[0] else b[0];
  }

  lemma OrderQuiet(col: string, dir: Order)
    requires ValidIdentifier(col)
    ensures Spaced(" ORDER BY " + col + " " + OrderSql(dir))
  {
    IdentQuiet(col);
    assert Quiet(" ORDER BY ") && Quiet(" ") && Quiet(OrderSql(dir));
    QuietAppend(" ORDER BY ", col);
    QuietAppend(" ORDER BY " + col, " ");
    QuietAppend(" ORDER BY " + col + " ", OrderSql(dir));
  }

  lemma NumberQuiet(keyword: string, n: nat)
    requires Spaced(keyword) && keyword != ""
    ensures Spaced(keyword + Decimal(n))
  {
    DecimalQuiet(n);
    QuietAppend(keyword, Decimal(n));
  }

  lemma CondClause(q: Query, n: nat)
    requires ValidQuery(q) && 0 < n <= |q.conditions|
    ensures var t := (if n == 1 then " WHERE " else " AND ") + q.conditions[n - 1].0 + " = ";
            Quiet(t) && t != [] && !IsDigit(t[0])
  {
    IdentQuiet(q.conditions[n - 1].0);
    assert Quiet(" WHERE ") && Quiet(" AND ") && Quiet(" = ");
  }

  /** Conditions followed by something safe are a template. */
  lemma {:induction false} CondsTemplate(q: Query, n: nat, rest: seq<Piece>)
    requires ValidQuery(q) && n <= |q.conditions| && StartsSafely(rest) && Template(rest, |q.conditions|)
    ensures Template(CondPieces(q.conditions, n) + rest, |q.conditions|)
    ensures StartsSafely(CondPieces(q.conditions, n) + rest)
  {
    var m := |q.conditions|;
    if n == 0 {
      assert CondPieces(q.conditions, n) + rest == rest;
    } else {
      var t := (if n == 1 then " WHERE " else " AND ") + q.conditions[n - 1].0 + " = ";
      CondClause(q, n);
      TwoMore(t, n - 1, rest, m);
      CondsTemplate(q, n - 1, [Clause(t), ParamSlot(n - 1)] + rest);
      PiecesAssoc(CondPieces(q.conditions, n - 1), [Clause(t), ParamSlot(n - 1)], rest);
    }
  }

  lemma TwoMore(t: string, k: nat, rest: seq<Piece>, m: nat)
    requires Quiet(t) && t != [] && !IsDigit(t[0]) && k < m && StartsSafely(rest) && Template(rest, m)
    ensures Template([Clause(t), ParamSlot(k)] + rest, m) && StartsSafely([Clause(t), ParamSlot(k)] + rest)
  {
    ConsTemplate(ParamSlot(k), rest, m);
    ConsTemplate(Clause(t), [ParamSlot(k)] + rest, m);
    assert [Clause(t)] + ([ParamSlot(k)] + rest) == [Clause(t), ParamSlot(k)] + rest;
  }

  lemma PiecesAssoc(a: seq<Piece>, b: seq<Piece>, c: seq<Piece>)
    ensures (a + b) + c == a + (b + c)
  {
  }

  lemma ConsTemplate(p: Piece, ps: seq<Piece>, n: nat)
    requires Template(ps, n) && if p.Clause? then Quiet(p.t) else p.k < n && StartsSafely(ps)
    ensures Template([p] + ps, n)
  {
    var all := [p] + ps;
    forall i | 0 <= i < |all| && all[i].ParamSlot? ensures StartsSafely(all[i + 1..]) {
      if i == 0 { assert all[1..] == ps; } else {
        assert all[i] == ps[i - 1] && all[i + 1..] == ps[i - 1 + 1..];
      }
    }
  }

  lemma QueryIsTemplate(q: Query)
    requires ValidQuery(q)
    ensures Template(Pieces(q), |q.conditions|)
  {
    HeadQuiet(q);
    TailQuiet(q);
    CondsTemplate(q, |q.conditions|, TailPieces(q));
    ConsTemplate(Clause(Head(q)), CondPieces(q.conditions, |q.conditions|) + TailPieces(q), |q.conditions|);
    assert Pieces(q) == [Clause(Head(q))] + (CondPieces(q.conditions, |q.conditions|) + TailPieces(q));
  }

  /** For every validated query, inlining succeeds and gives the clause text with each placeholder
      replaced by its own parameter's literal. */
  lemma {:induction false} InlinedQueryMeansTheSame(q: Query)
    requires ValidQuery(q) && |q.conditions| < U64
    ensures Substitute(Fill(Pieces(q), Placeholder), false, Params(q)) == Done(Fill(Pieces(q), LiteralOf(Params(q))))
  {
    QueryIsTemplate(q);
    SubstituteFills(Pieces(q), Params(q));
  }

  /** Reading the inlined query back finds every parameter where it belongs; a text parameter is one
      string token with exactly its value. */
  lemma {:induction false} InlinedQueryReadsBack(q: Query)
    requires ValidQuery(q)
    ensures Lex(Fill(Pieces(q), LiteralOf(Params(q)))) == Some(FillTokens(Pieces(q), Params(q)))
  {
    QueryIsTemplate(q);
    FilledReadsBack(Pieces(q), Params(q));
  }

  // ---- The builder object ----

  class Builder {
    var table: string
    var columns: seq<string>
    var conditions: seq<(string, Param)>
    var order: Option<(string, Order)>
    var limit: Option<nat>
    var offset: Option<nat>

    function View(): Query
      reads this
    {
      Query(table, columns, conditions, order, limit, offset)
    }

    /** `select` after its check. */
    constructor (t: string)
      requires ValidIdentifier(t)
      ensures View() == Query(t, [], [], None, None, None) && ValidQuery(View())
    {
      table, columns, conditions, order, limit, offset := t, [], [], None, None, None;
    }

    static method Select(t: string) returns (r: Option<Builder>)
      ensures r.Some? <==> ValidIdentifier(t)
      ensures r.Some? ==> fresh(r.value) && r.value.View() == Query(t, [], [], None, None, None)
    {
      if !ValidIdentifier(t) { return None; }
      var b := new Builder(t);
      return Some(b);
    }

    method Columns(cols: seq<string>) returns (ok: bool)
      requires ValidQuery(View())
      modifies this`columns
      ensures ok <==> forall i :: 0 <= i < |cols| ==> ValidIdentifier(cols[i])
      ensures ValidQuery(View()) && columns == if ok then cols else old(columns)
    {
      for i := 0 to |cols|
        invariant forall j :: 0 <= j < i ==> ValidIdentifier(cols[j])
      {
        if !ValidIdentifier(cols[i]) { return false; }
      }
      columns := cols;
      return true;
    }

    method WhereEq(col: string, p: Param) returns (ok: bool)
      requires ValidQuery(View())
      modifies this`conditions
      ensures ok <==> ValidIdentifier(col)
      ensures ValidQuery(View()) && conditions == if ok then old(conditions) + [(col, p)] else old(conditions)
    {
      ok := ValidIdentifier(col);
      if ok { conditions := conditions + [(col, p)]; }
    }

    method OrderBy(col: string, o: Order) returns (ok: bool)
      requires ValidQuery(View())
      modifies this`order
      ensures ok <==> ValidIdentifier(col)
      ensures ValidQuery(View()) && order == if ok then Some((col, o)) else old(order)
    {
      ok := ValidIdentifier(col);
      if ok { order := Some((col, o)); }
    }

    method Limit(n: nat)
      modifies this`limit
      ensures limit == Some(n)
    {
      limit := Some(n);
    }

    method Offset(n: nat)
      modifies this`offset
      ensures offset == Some(n)
    {
      offset := Some(n);
    }

    /** The SQL with placeholders, and the parameters in their order. */
    method Build() returns (sql: string, params: seq<Param>)
      ensures sql == Fill(Pieces(View()), Placeholder) && params == Params(View())
    {
      var colList := if columns == [] then "*" else JoinWith(", ", columns);
      sql := "SELECT " + colList + " FROM " + table;
      var where;
      where, params := BuildWhere();
      var tail := BuildTail();
      PiecesFill(View());
      sql := sql + where + tail;
    }

    method BuildWhere() returns (where: string, params: seq<Param>)
      ensures where == Fill(CondPieces(conditions, |conditions|), Placeholder) && params == Params(View())
    {
      where, params := "", [];
      for i := 0 to |conditions|
        invariant where == Fill(CondPieces(conditions, i), Placeholder)
        invariant |params| == i && forall j :: 0 <= j < i ==> params[j] == conditions[j].1
      {
        params := params + [conditions[i].1];
        CondFill(conditions, i);
        where := where + ((if i == 0 then " WHERE " else " AND ") + conditions[i].0 + " = " + Placeholder(i));
      }
    }

    method BuildTail() returns (tail: string)
      ensures tail == Tail(View())
    {
      tail := if order.Some? then " ORDER BY " + order.value.0 + " " + OrderSql(order.value.1) else "";
      tail := tail + (if limit.Some? then " LIMIT " + Decimal(limit.value) else "");
      tail := tail + (if offset.Some? then " OFFSET " + Decimal(offset.value) else "");
    }

    /** A validated builder never fails to inline. */
    method BuildInlined() returns (r: Substituted)
      requires ValidQuery(View()) && |conditions| < U64
      ensures r == Done(Fill(Pieces(View()), LiteralOf(Params(View()))))
    {
      var sql, params := Build();
      InlinedQueryMeansTheSame(View());
      r := SubstituteParams(sql, params);
    }
  }

  lemma {:induction false} FillAppend(a: seq<Piece>, b: seq<Piece>, slot: nat -> string)
    ensures Fill(a + b, slot) == Fill(a, slot) + Fill(b, slot)
  {
    if a == [] {
      assert a + b == b;
    } else {
      assert (a + b)[1..] == a[1..] + b;
      FillAppend(a[1..], b, slot);
    }
  }

  lemma CondFill(conds: seq<(string, Param)>, i: nat)
    requires i < |conds|
    ensures Fill(CondPieces(conds, i + 1), Placeholder) ==
            Fill(CondPieces(conds, i), Placeholder)
            + ((if i == 0 then " WHERE " else " AND ") + conds[i].0 + " = " + Placeholder(i))
  {
    var t := (if i == 0 then " WHERE " else " AND ") + conds[i].0 + " = ";
    var two := [Clause(t), ParamSlot(i)];
    FillAppend(CondPieces(conds, i), two, Placeholder);
    assert two[1..] == [ParamSlot(i)] && two[1..][1..] == [];
    assert Fill([ParamSlot(i)], Placeholder) == Placeholder(i) + "";
    assert Fill(two, Placeholder) == t + Fill([ParamSlot(i)], Placeholder);
    assert t + (Placeholder(i) + "") == t + Placeholder(i);
  }

  lemma PiecesFill(q: Query)
    ensures Fill(Pieces(q), Placeholder) ==
            Head(q) + Fill(CondPieces(q.conditions, |q.conditions|), Placeholder) + Tail(q)
  {
    var c := CondPieces(q.conditions, |q.conditions|);
    FillAppend([Clause(Head(q))] + c, TailPieces(q), Placeholder);
    FillAppend([Clause(Head(q))], c, Placeholder);
    assert Fill([Clause(Head(q))], Placeholder) == Head(q) + "";
    if Tail(q) != "" { assert Fill(TailPieces(q), Placeholder) == Tail(q) + ""; }
  }
}
