/**
  Reading a query back. A reader for SELECT statements that works on words, the tokens between
  spaces, recovers from the text that the builder writes the whole query: columns, table, conditions,
  order, limit and offset. It does not know the builder.
 */
module QueryReading {
  import opened Prelude
  import opened Splitting
  import opened SqlParam
  import opened SqlValue
  import opened QueryBuilder

  type Word = seq<Token>

  const SPACE := Ch(' ')

  /** A query as it is read: a condition is a column and the word it is compared with. */
  datatype Reading = Reading(columns: seq<Word>, table: Word, conditions: seq<(Word, Word)>,
                             order: Option<(Word, Order)>, limit: Option<nat>, offset: Option<nat>)

  // ---- The reader ----

  predicate Is(w: Word, keyword: string) { w == Chars(keyword) }

  predicate EndsInComma(w: Word) { w != [] && w[|w| - 1] == Ch(',') }

  /** Words that end in a comma, and one that does not. */
  function ReadColumns(ws: seq<Word>): (seq<Word>, seq<Word>) {
    if ws == [] then ([], [])
    else if EndsInComma(ws[0]) then
      var (cols, rest) := ReadColumns(ws[1..]);
      ([ws[0][..|ws[0]| - 1]] + cols, rest)
    else ([ws[0]], ws[1..])
  }

  /** `WHERE column = value AND column = value ...` */
  function ReadConditions(ws: seq<Word>, keyword: string): (seq<(Word, Word)>, seq<Word>) {
    if |ws| >= 4 && Is(ws[0], keyword) && Is(ws[2], "=") then
      var (conds, rest) := ReadConditions(ws[4..], "AND");
      ([(ws[1], ws[3])] + conds, rest)
    else ([], ws)
  }

  function ReadOrder(ws: seq<Word>): (Option<(Word, Order)>, seq<Word>) {
    if |ws| >= 4 && Is(ws[0], "ORDER") && Is(ws[1], "BY") && Is(ws[3], "ASC") then (Some((ws[2], Asc)), ws[4..])
    else if |ws| >= 4 && Is(ws[0], "ORDER") && Is(ws[1], "BY") && Is(ws[3], "DESC") then (Some((ws[2], Desc)), ws[4..])
    else (None, ws)
  }

  function ReadCount(ws: seq<Word>, keyword: string): (Option<nat>, seq<Word>) {
    if |ws| >= 2 && Is(ws[0], keyword) then
      match TextOfChars(ws[1])
      case None => (None, ws)
      case Some(s) => (ReadDigits(s), ws[2..])
    else (None, ws)
  }

  function ReadRest(columns: seq<Word>, table: Word, ws: seq<Word>): Option<Reading> {
    var (conds, ws1) := ReadConditions(ws, "WHERE");
    var (order, ws2) := ReadOrder(ws1);
    var (limit, ws3) := ReadCount(ws2, "LIMIT");
    var (offset, ws4) := ReadCount(ws3, "OFFSET");
    if ws4 == [] then Some(Reading(columns, table, conds, order, limit, offset)) else None
  }

  function ReadSelect(ts: seq<Token>): Option<Reading> { ReadStatement(SplitOn(ts, SPACE)) }

  function ReadStatement(ws: seq<Word>): Option<Reading> {
    if ws == [] || !Is(ws[0], "SELECT") then None
    else
      var (cols, rest) := ReadColumns(ws[1..]);
      if |rest| < 2 || !Is(rest[0], "FROM") then None
      else ReadRest(if cols == [Chars("*")] then [] else cols, rest[1], rest[2..])
  }

  // ---- The words the builder writes ----

  ghost predicate Spaceless(s: string) { ' ' !in s }

  lemma CharsSpaceless(s: string)
    requires Spaceless(s)
    ensures SPACE !in Chars(s)
  {
  }

  lemma CharsAppend(a: string, b: string)
    ensures Chars(a + b) == Chars(a) + Chars(b)
  {
  }

  /** Words with a space in front of each. */
  function Spaced(ws: seq<Word>): seq<Token> {
    if ws == [] then [] else [SPACE] + ws[0] + Spaced(ws[1..])
  }

  lemma {:induction false} SpacedAppend(a: seq<Word>, b: seq<Word>)
    ensures Spaced(a + b) == Spaced(a) + Spaced(b)
  {
    if a == [] {
      assert a + b == b;
    } else {
      assert (a + b)[1..] == a[1..] + b;
      SpacedAppend(a[1..], b);
    }
  }

  ghost predicate NoSpaces(ws: seq<Word>) { forall i :: 0 <= i < |ws| ==> SPACE !in ws[i] }

  /** Splitting finds the words again. */
  lemma {:induction false} SplitSpaced(w: Word, ws: seq<Word>)
    requires SPACE !in w && NoSpaces(ws)
    ensures SplitOn(w + Spaced(ws), SPACE) == [w] + ws
    decreases |ws|
  {
    if ws == [] {
      assert w + [] == w;
      SplitNone(w, SPACE);
    } else {
      SplitSpaced(ws[0], ws[1..]);
      var rest := ws[0] + Spaced(ws[1..]);
      assert w + Spaced(ws) == w + [SPACE] + rest;
      SplitFirst(w, SPACE, rest);
      assert ws == [ws[0]] + ws[1..];
    }
  }

  function NamedWords(cols: seq<string>): seq<Word> {
    if cols == [] then []
    else if |cols| == 1 then [Chars(cols[0])]
    else [Chars(cols[0] + ",")] + NamedWords(cols[1..])
  }

  function ColumnWords(cols: seq<string>): seq<Word> { if cols == [] then [Chars("*")] else NamedWords(cols) }

  function CondWords(col: string, slot: Word, first: bool): seq<Word> {
    [Chars(if first then "WHERE" else "AND"), Chars(col), Chars("="), slot]
  }

  /** The conditions from number `i` on, each with the word in its slot. */
  function CondsFrom(conds: seq<(string, Param)>, slots: seq<Word>, i: nat): seq<Word>
    requires i <= |conds| == |slots|
    decreases |conds| - i
  {
    if i == |conds| then [] else CondWords(conds[i].0, slots[i], i == 0) + CondsFrom(conds, slots, i + 1)
  }

  function OrderWords(q: Query): seq<Word> {
    if q.order.None? then []
    else [Chars("ORDER"), Chars("BY"), Chars(q.order.value.0), Chars(if q.order.value.1.Asc? then "ASC" else "DESC")]
  }

  function CountWords(keyword: string, n: Option<nat>): seq<Word> {
    if n.None? then [] else [Chars(keyword), Chars(Decimal(n.value))]
  }

  function TailWords(q: Query): seq<Word> {
    OrderWords(q) + (CountWords("LIMIT", q.limit) + CountWords("OFFSET", q.offset))
  }

  /** The words behind SELECT. */
  function QueryWords(q: Query, slots: seq<Word>): seq<Word>
    requires |slots| == |q.conditions|
  {
    ColumnWords(q.columns) + [Chars("FROM"), Chars(q.table)] + (CondsFrom(q.conditions, slots, 0) + TailWords(q))
  }

  /** The tokens of pieces, with a word in each slot. */
  function TokensOf(ps: seq<Piece>, slots: seq<Word>): seq<Token> {
    if ps == [] then []
    else (match ps[0] case Clause(t) => Chars(t) case ParamSlot(k) => if k < |slots| then slots[k] else [])
         + TokensOf(ps[1..], slots)
  }

  lemma {:induction false} TokensAppend(a: seq<Piece>, b: seq<Piece>, slots: seq<Word>)
    ensures TokensOf(a + b, slots) == TokensOf(a, slots) + TokensOf(b, slots)
  {
    if a == [] {
      assert a + b == b;
    } else {
      assert (a + b)[1..] == a[1..] + b;
      TokensAppend(a[1..], b, slots);
    }
  }

  lemma SpacedOne(w: string)
    ensures Spaced([Chars(w)]) == Chars(" " + w)
  {
    CharsAppend(" ", w);
    assert Chars(" ") == [SPACE] && [Chars(w)][1..] == [];
    assert [SPACE] + Chars(w) + [] == [SPACE] + Chars(w);
  }

  lemma SpacedCons(w: Word, ws: seq<Word>)
    ensures Spaced([w] + ws) == [SPACE] + w + Spaced(ws)
  {
    assert ([w] + ws)[1..] == ws;
  }

  /** Words in a row, as text. */
  lemma SpacedTwo(a: string, b: string)
    ensures Spaced([Chars(a), Chars(b)]) == Chars(" " + a + " " + b)
  {
    SpacedOne(a);
    SpacedOne(b);
    SpacedAppend([Chars(a)], [Chars(b)]);
    assert [Chars(a)] + [Chars(b)] == [Chars(a), Chars(b)];
    CharsAppend(" " + a, " " + b);
    assert " " + a + " " + b == (" " + a) + (" " + b);
  }

  lemma SpacedFour(a: string, b: string, c: string, d: string)
    ensures Spaced([Chars(a), Chars(b), Chars(c), Chars(d)]) == Chars(" " + a + " " + b + " " + c + " " + d)
  {
    SpacedTwo(a, b);
    SpacedTwo(c, d);
    SpacedAppend([Chars(a), Chars(b)], [Chars(c), Chars(d)]);
    assert [Chars(a), Chars(b)] + [Chars(c), Chars(d)] == [Chars(a), Chars(b), Chars(c), Chars(d)];
    CharsAppend(" " + a + " " + b, " " + c + " " + d);
    assert " " + a + " " + b + " " + c + " " + d == (" " + a + " " + b) + (" " + c + " " + d);
  }

  // ---- The builder writes these words ----

  lemma {:induction false} ColumnsWritten(cols: seq<string>)
    requires cols != []
    ensures Spaced(NamedWords(cols)) == Chars(" " + JoinWith(", ", cols))
  {
    if |cols| == 1 {
      SpacedOne(cols[0]);
    } else {
      var rest := JoinWith(", ", cols[1..]);
      ColumnsWritten(cols[1..]);
      SpacedOne(cols[0] + ",");
      SpacedAppend([Chars(cols[0] + ",")], NamedWords(cols[1..]));
      CharsAppend(" " + (cols[0] + ","), " " + rest);
      assert (" " + (cols[0] + ",")) + (" " + rest) == " " + (cols[0] + ", " + rest);
    }
  }

  lemma HeadText(list: string, table: string)
    ensures Chars("SELECT " + list + " FROM " + table) ==
            Chars("SELECT") + (Chars(" " + list) + Chars(" " + "FROM" + " " + table))
  {
    CharsAppend(" " + list, " " + "FROM" + " " + table);
    CharsAppend("SELECT", (" " + list) + (" " + "FROM" + " " + table));
    assert "SELECT " + list + " FROM " + table == "SELECT" + ((" " + list) + (" " + "FROM" + " " + table));
  }

  lemma HeadWritten(q: Query)
    ensures Chars(Head(q)) == Chars("SELECT") + Spaced(ColumnWords(q.columns) + [Chars("FROM"), Chars(q.table)])
  {
    if q.columns == [] { SpacedOne("*"); } else { ColumnsWritten(q.columns); }
    SpacedTwo("FROM", q.table);
    SpacedAppend(ColumnWords(q.columns), [Chars("FROM"), Chars(q.table)]);
    HeadText(if q.columns == [] then "*" else JoinWith(", ", q.columns), q.table);
  }

  lemma CondText(kw: string, col: string)
    ensures Chars(" " + kw + " " + col + " = ") == Spaced([Chars(kw), Chars(col), Chars("=")]) + [SPACE]
  {
    SpacedTwo(kw, col);
    SpacedOne("=");
    SpacedAppend([Chars(kw), Chars(col)], [Chars("=")]);
    assert [Chars(kw), Chars(col)] + [Chars("=")] == [Chars(kw), Chars(col), Chars("=")];
    var a := " " + kw + " " + col;
    CharsAppend(a, " " + "=");
    CharsAppend(a + (" " + "="), " ");
    assert a + " = " == a + (" " + "=") + " " && Chars(" ") == [SPACE];
  }

  lemma CondSlot(ws: seq<Word>, w: Word)
    ensures (Spaced(ws) + [SPACE]) + w == Spaced(ws + [w])
  {
    SpacedAppend(ws, [w]);
    SpacedCons(w, []);
    assert [w] + [] == [w];
  }

  lemma ClauseAndSlot(t: string, k: nat, slots: seq<Word>)
    requires k < |slots|
    ensures TokensOf([Clause(t), ParamSlot(k)], slots) == Chars(t) + slots[k]
  {
    var ps := [Clause(t), ParamSlot(k)];
    assert ps[1..] == [ParamSlot(k)] && ps[1..][1..] == [];
    assert TokensOf(ps[1..], slots) == slots[k] + [] == slots[k];
  }

  lemma CondWritten(kw: string, col: string, k: nat, slots: seq<Word>)
    requires k < |slots|
    ensures TokensOf([Clause(" " + kw + " " + col + " = "), ParamSlot(k)], slots) ==
            Spaced([Chars(kw), Chars(col), Chars("="), slots[k]])
  {
    var t, slot := " " + kw + " " + col + " = ", slots[k];
    CondText(kw, col);
    CondSlot([Chars(kw), Chars(col), Chars("=")], slot);
    assert [Chars(kw), Chars(col), Chars("=")] + [slot] == [Chars(kw), Chars(col), Chars("="), slot];
    ClauseAndSlot(t, k, slots);
  }

  lemma LastCond(conds: seq<(string, Param)>, slots: seq<Word>, n: nat)
    requires 0 < n <= |conds| == |slots|
    ensures TokensOf(CondPieces(conds, n), slots) ==
            TokensOf(CondPieces(conds, n - 1), slots) + Spaced(CondWords(conds[n - 1].0, slots[n - 1], n == 1))
  {
    var kw, col := if n == 1 then "WHERE" else "AND", conds[n - 1].0;
    var t := " " + kw + " " + col + " = ";
    assert t == (if n == 1 then " WHERE " else " AND ") + col + " = ";
    CondWritten(kw, col, n - 1, slots);
    TokensAppend(CondPieces(conds, n - 1), [Clause(t), ParamSlot(n - 1)], slots);
  }

  /** The first `n` conditions and those behind them. */
  lemma {:induction false} CondsWritten(conds: seq<(string, Param)>, slots: seq<Word>, n: nat)
    requires n <= |conds| == |slots|
    ensures TokensOf(CondPieces(conds, n), slots) + Spaced(CondsFrom(conds, slots, n)) ==
            Spaced(CondsFrom(conds, slots, 0))
  {
    if n > 0 {
      CondsWritten(conds, slots, n - 1);
      LastCond(conds, slots, n);
      SpacedAppend(CondWords(conds[n - 1].0, slots[n - 1], n == 1), CondsFrom(conds, slots, n));
    }
  }

  lemma CountWritten(keyword: string, n: Option<nat>)
    ensures Spaced(CountWords(keyword, n)) == Chars(if n.Some? then " " + keyword + " " + Decimal(n.value) else "")
  {
    if n.Some? { SpacedTwo(keyword, Decimal(n.value)); }
  }

  lemma OrderWritten(q: Query)
    ensures Spaced(OrderWords(q)) ==
            Chars(if q.order.Some? then " ORDER BY " + q.order.value.0 + " " + OrderSql(q.order.value.1) else "")
  {
    if q.order.Some? {
      var dir := if q.order.value.1.Asc? then "ASC" else "DESC";
      SpacedFour("ORDER", "BY", q.order.value.0, dir);
      assert " " + "ORDER" + " " + "BY" + " " == " ORDER BY ";
    }
  }

  lemma ThreeParts(a: seq<Word>, b: seq<Word>, c: seq<Word>, x: string, y: string, z: string)
    requires Spaced(a) == Chars(x) && Spaced(b) == Chars(y) && Spaced(c) == Chars(z)
    ensures Chars(x + y + z) == Spaced(a + (b + c))
  {
    SpacedAppend(b, c);
    SpacedAppend(a, b + c);
    CharsAppend(x + y, z);
    CharsAppend(x, y);
    assert Chars(x) + (Chars(y) + Chars(z)) == Chars(x) + Chars(y) + Chars(z);
  }

  lemma TailWritten(q: Query)
    ensures Chars(Tail(q)) == Spaced(TailWords(q))
  {
    OrderWritten(q);
    CountWritten("LIMIT", q.limit);
    CountWritten("OFFSET", q.offset);
    assert " " + "LIMIT" + " " == " LIMIT " && " " + "OFFSET" + " " == " OFFSET ";
    ThreeParts(OrderWords(q), CountWords("LIMIT", q.limit), CountWords("OFFSET", q.offset),
               if q.order.Some? then " ORDER BY " + q.order.value.0 + " " + OrderSql(q.order.value.1) else "",
               if q.limit.Some? then " LIMIT " + Decimal(q.limit.value) else "",
               if q.offset.Some? then " OFFSET " + Decimal(q.offset.value) else "");
  }

  /** What the builder writes, with any words in the slots, are the words of the query. */
  lemma QueryWritten(q: Query, slots: seq<Word>)
    requires |slots| == |q.conditions|
    ensures TokensOf(Pieces(q), slots) == Chars("SELECT") + Spaced(QueryWords(q, slots))
  {
    var n := |q.conditions|;
    var head, conds, tail := [Clause(Head(q))], CondPieces(q.conditions, n), TailPieces(q);
    TokensAppend(head + conds, tail, slots);
    TokensAppend(head, conds, slots);
    OneClause(Head(q), slots);
    if Tail(q) == "" { assert TokensOf(tail, slots) == Chars(Tail(q)); } else { OneClause(Tail(q), slots); }
    HeadWritten(q);
    CondsWritten(q.conditions, slots, n);
    assert TokensOf(conds, slots) + [] == TokensOf(conds, slots);
    TailWritten(q);
    var front := ColumnWords(q.columns) + [Chars("FROM"), Chars(q.table)];
    SpacedAppend(CondsFrom(q.conditions, slots, 0), TailWords(q));
    SpacedAppend(front, CondsFrom(q.conditions, slots, 0) + TailWords(q));
    TokensAssoc(Chars("SELECT"), Spaced(front), Spaced(CondsFrom(q.conditions, slots, 0)), Spaced(TailWords(q)));
  }

  lemma OneClause(t: string, slots: seq<Word>)
    ensures TokensOf([Clause(t)], slots) == Chars(t)
  {
    assert [Clause(t)][1..] == [];
    assert Chars(t) + [] == Chars(t);
  }

  lemma TokensAssoc(a: seq<Token>, b: seq<Token>, c: seq<Token>, d: seq<Token>)
    ensures ((a + b) + c) + d == a + (b + (c + d))
  {
  }

  // ---- Reading them ----

  lemma CharsInjective(a: string, b: string)
    ensures Chars(a) == Chars(b) <==> a == b
  {
    if Chars(a) == Chars(b) {
      forall i | 0 <= i < |a| ensures a[i] == b[i] { assert Chars(a)[i] == Chars(b)[i]; }
    }
  }

  ghost function CharsAll(ss: seq<string>): (r: seq<Word>)
    ensures |r| == |ss| && forall i :: 0 <= i < |ss| ==> r[i] == Chars(ss[i])
  {
    if ss == [] then [] else [Chars(ss[0])] + CharsAll(ss[1..])
  }

  lemma OneColumn(col: string, rest: seq<Word>)
    requires ValidIdentifier(col)
    ensures ReadColumns([Chars(col)] + rest) == ([Chars(col)], rest)
    ensures ReadColumns([Chars(col + ",")] + rest) == ([Chars(col)] + ReadColumns(rest).0, ReadColumns(rest).1)
  {
    assert IdentChar(col[|col| - 1]);
    assert ([Chars(col)] + rest)[1..] == rest && !EndsInComma(Chars(col));
    var w := Chars(col + ",");
    assert ([w] + rest)[1..] == rest && EndsInComma(w) && w[..|w| - 1] == Chars(col);
  }

  lemma {:induction false} NamedRead(cols: seq<string>, rest: seq<Word>)
    requires cols != [] && forall i :: 0 <= i < |cols| ==> ValidIdentifier(cols[i])
    ensures ReadColumns(NamedWords(cols) + rest) == (CharsAll(cols), rest)
    decreases |cols|
  {
    assert ValidIdentifier(cols[0]);
    if |cols| == 1 {
      OneColumn(cols[0], rest);
      assert CharsAll(cols) == [Chars(cols[0])];
    } else {
      NamedRead(cols[1..], rest);
      OneColumn(cols[0], NamedWords(cols[1..]) + rest);
      WordsAssoc([Chars(cols[0] + ",")], NamedWords(cols[1..]), rest);
    }
  }

  lemma ColumnsRead(cols: seq<string>, rest: seq<Word>)
    requires forall i :: 0 <= i < |cols| ==> ValidIdentifier(cols[i])
    ensures var r := ReadColumns(ColumnWords(cols) + rest);
      r.1 == rest && (if r.0 == [Chars("*")] then [] else r.0) == CharsAll(cols)
  {
    if cols == [] {
      var ws := [Chars("*")] + rest;
      assert ws[0] == Chars("*") && ws[1..] == rest && !EndsInComma(ws[0]);
    } else {
      NamedRead(cols, rest);
      CharsInjective(cols[0], "*");
      assert ValidIdentifier(cols[0]) && IdentChar(cols[0][0]);
      assert CharsAll(cols)[0] == Chars(cols[0]);
    }
  }

  ghost function CondsRead(conds: seq<(string, Param)>, slots: seq<Word>): (r: seq<(Word, Word)>)
    requires |conds| == |slots|
    ensures |r| == |conds| && forall i :: 0 <= i < |conds| ==> r[i] == (Chars(conds[i].0), slots[i])
  {
    seq(|conds|, i requires 0 <= i < |conds| => (Chars(conds[i].0), slots[i]))
  }

  lemma CondsReadFrom(conds: seq<(string, Param)>, slots: seq<Word>, i: nat)
    requires i < |conds| == |slots|
    ensures var all := CondsRead(conds, slots); all[i..] == [(Chars(conds[i].0), slots[i])] + all[i + 1..]
  {
  }

  ghost predicate NoKeyword(ws: seq<Word>, keyword: string) { ws == [] || !Is(ws[0], keyword) }

  lemma WordsAssoc(a: seq<Word>, b: seq<Word>, c: seq<Word>)
    ensures (a + b) + c == a + (b + c)
  {
  }

  lemma OneCondition(keyword: string, col: Word, slot: Word, rest: seq<Word>)
    ensures var (conds, last) := ReadConditions(rest, "AND");
      ReadConditions([Chars(keyword), col, Chars("="), slot] + rest, keyword) == ([(col, slot)] + conds, last)
  {
    var four := [Chars(keyword), col, Chars("="), slot];
    var ws := four + rest;
    assert ws[0] == four[0] && ws[1] == four[1] && ws[2] == four[2] && ws[3] == four[3] && ws[4..] == rest;
  }

  lemma {:induction false} ConditionsRead(conds: seq<(string, Param)>, slots: seq<Word>, i: nat, rest: seq<Word>)
    requires i <= |conds| == |slots| && NoKeyword(rest, "WHERE") && NoKeyword(rest, "AND")
    ensures ReadConditions(CondsFrom(conds, slots, i) + rest, if i == 0 then "WHERE" else "AND") ==
            (CondsRead(conds, slots)[i..], rest)
    decreases |conds| - i
  {
    if i == |conds| {
      assert [] + rest == rest && CondsRead(conds, slots)[i..] == [];
    } else {
      var later := CondsFrom(conds, slots, i + 1);
      WordsAssoc(CondWords(conds[i].0, slots[i], i == 0), later, rest);
      OneCondition(if i == 0 then "WHERE" else "AND", Chars(conds[i].0), slots[i], later + rest);
      ConditionsRead(conds, slots, i + 1, rest);
      CondsReadFrom(conds, slots, i);
    }
  }

  lemma OrderRead(q: Query, rest: seq<Word>)
    requires NoKeyword(rest, "ORDER")
    ensures ReadOrder(OrderWords(q) + rest) ==
      (if q.order.Some? then Some((Chars(q.order.value.0), q.order.value.1)) else None, rest)
  {
    if q.order.Some? {
      var ws := OrderWords(q) + rest;
      CharsInjective("DESC", "ASC");
      assert ws[0] == Chars("ORDER") && ws[1] == Chars("BY") && ws[2] == Chars(q.order.value.0) && ws[4..] == rest;
    } else {
      assert [] + rest == rest;
    }
  }

  lemma CountRead(keyword: string, n: Option<nat>, rest: seq<Word>)
    requires NoKeyword(rest, keyword)
    ensures ReadCount(CountWords(keyword, n) + rest, keyword) == (n, rest)
  {
    if n.Some? {
      var ws := CountWords(keyword, n) + rest;
      assert ws[0] == Chars(keyword) && ws[1] == Chars(Decimal(n.value)) && ws[2..] == rest;
      CharsText(Decimal(n.value));
      DecimalRoundTrip(n.value);
    } else {
      assert [] + rest == rest;
    }
  }

  lemma CountFirst(keyword: string, n: Option<nat>, rest: seq<Word>, other: string)
    requires NoKeyword(rest, other) && keyword != other
    ensures NoKeyword(CountWords(keyword, n) + rest, other)
  {
    CharsInjective(keyword, other);
    if n.None? { assert [] + rest == rest; }
  }

  lemma TailFirst(q: Query, other: string)
    requires other != "ORDER" && other != "LIMIT" && other != "OFFSET"
    ensures NoKeyword(TailWords(q), other)
  {
    CountFirst("OFFSET", q.offset, [], other);
    var o := CountWords("OFFSET", q.offset);
    assert o + [] == o;
    CountFirst("LIMIT", q.limit, o, other);
    CharsInjective("ORDER", other);
    var l := CountWords("LIMIT", q.limit) + o;
    if q.order.None? { assert [] + l == l; }
  }

  lemma TailRead(q: Query)
    ensures var (order, ws2) := ReadOrder(TailWords(q));
      var (limit, ws3) := ReadCount(ws2, "LIMIT");
      var (offset, ws4) := ReadCount(ws3, "OFFSET");
      && order == (if q.order.Some? then Some((Chars(q.order.value.0), q.order.value.1)) else None)
      && limit == q.limit && offset == q.offset && ws4 == []
  {
    var l, o := CountWords("LIMIT", q.limit), CountWords("OFFSET", q.offset);
    assert o + [] == o;
    CountFirst("OFFSET", q.offset, [], "ORDER");
    CountFirst("LIMIT", q.limit, o, "ORDER");
    CountFirst("OFFSET", q.offset, [], "LIMIT");
    OrderRead(q, l + o);
    CountRead("LIMIT", q.limit, o);
    CountRead("OFFSET", q.offset, []);
  }

  /** The query with a word for each parameter. */
  ghost function Meant(q: Query, slots: seq<Word>): Reading
    requires |slots| == |q.conditions|
  {
    Reading(CharsAll(q.columns), Chars(q.table), CondsRead(q.conditions, slots),
            if q.order.Some? then Some((Chars(q.order.value.0), q.order.value.1)) else None, q.limit, q.offset)
  }

  lemma RestRead(q: Query, slots: seq<Word>)
    requires |slots| == |q.conditions|
    ensures ReadRest(CharsAll(q.columns), Chars(q.table), CondsFrom(q.conditions, slots, 0) + TailWords(q)) ==
            Some(Meant(q, slots))
  {
    TailFirst(q, "WHERE");
    TailFirst(q, "AND");
    ConditionsRead(q.conditions, slots, 0, TailWords(q));
    assert CondsRead(q.conditions, slots)[0..] == CondsRead(q.conditions, slots);
    TailRead(q);
  }

  // ---- No word has a space in it ----

  lemma NoSpacesAppend(a: seq<Word>, b: seq<Word>)
    requires NoSpaces(a) && NoSpaces(b)
    ensures NoSpaces(a + b)
  {
  }

  lemma IdentSpaceless(s: string)
    requires ValidIdentifier(s)
    ensures SPACE !in Chars(s) && SPACE !in Chars(s + ",")
  {
    assert forall i :: 0 <= i < |s| ==> IdentChar(s[i]);
    CharsSpaceless(s);
    CharsSpaceless(s + ",");
  }

  lemma {:induction false} NamedNoSpaces(cols: seq<string>)
    requires forall i :: 0 <= i < |cols| ==> ValidIdentifier(cols[i])
    ensures NoSpaces(NamedWords(cols))
  {
    if cols != [] {
      IdentSpaceless(cols[0]);
      if |cols| > 1 { NamedNoSpaces(cols[1..]); }
    }
  }

  lemma {:induction false} CondsNoSpaces(conds: seq<(string, Param)>, slots: seq<Word>, i: nat)
    requires i <= |conds| == |slots| && NoSpaces(slots) && forall k :: 0 <= k < |conds| ==> ValidIdentifier(conds[k].0)
    ensures NoSpaces(CondsFrom(conds, slots, i))
    decreases |conds| - i
  {
    if i < |conds| {
      IdentSpaceless(conds[i].0);
      CharsSpaceless("WHERE");
      CharsSpaceless("AND");
      CharsSpaceless("=");
      CondsNoSpaces(conds, slots, i + 1);
      NoSpacesAppend(CondWords(conds[i].0, slots[i], i == 0), CondsFrom(conds, slots, i + 1));
    }
  }

  lemma CountNoSpaces(keyword: string, n: Option<nat>)
    requires Spaceless(keyword)
    ensures NoSpaces(CountWords(keyword, n))
  {
    CharsSpaceless(keyword);
    if n.Some? {
      var d := Decimal(n.value);
      assert forall i :: 0 <= i < |d| ==> IsDigit(d[i]);
      CharsSpaceless(d);
    }
  }

  lemma TailNoSpaces(q: Query)
    requires ValidQuery(q)
    ensures NoSpaces(TailWords(q))
  {
    CountNoSpaces("LIMIT", q.limit);
    CountNoSpaces("OFFSET", q.offset);
    NoSpacesAppend(CountWords("LIMIT", q.limit), CountWords("OFFSET", q.offset));
    CharsSpaceless("ORDER");
    CharsSpaceless("BY");
    CharsSpaceless("ASC");
    CharsSpaceless("DESC");
    if q.order.Some? { IdentSpaceless(q.order.value.0); }
    NoSpacesAppend(OrderWords(q), CountWords("LIMIT", q.limit) + CountWords("OFFSET", q.offset));
  }

  lemma WordsNoSpaces(q: Query, slots: seq<Word>)
    requires ValidQuery(q) && |slots| == |q.conditions| && NoSpaces(slots)
    ensures NoSpaces(QueryWords(q, slots))
  {
    CharsSpaceless("*");
    CharsSpaceless("FROM");
    IdentSpaceless(q.table);
    NamedNoSpaces(q.columns);
    CondsNoSpaces(q.conditions, slots, 0);
    TailNoSpaces(q);
    NoSpacesAppend(CondsFrom(q.conditions, slots, 0), TailWords(q));
    NoSpacesAppend(ColumnWords(q.columns), [Chars("FROM"), Chars(q.table)]);
    NoSpacesAppend(ColumnWords(q.columns) + [Chars("FROM"), Chars(q.table)],
                   CondsFrom(q.conditions, slots, 0) + TailWords(q));
  }

  // ---- Queries are read back ----

  lemma AfterSelect(ws: seq<Word>, cols: seq<Word>, table: Word, rest: seq<Word>)
    requires ReadColumns(ws) == (cols, [Chars("FROM"), table] + rest)
    ensures ReadStatement([Chars("SELECT")] + ws) == ReadRest(if cols == [Chars("*")] then [] else cols, table, rest)
  {
    assert ([Chars("SELECT")] + ws)[1..] == ws;
    var more := [Chars("FROM"), table] + rest;
    assert more[0] == Chars("FROM") && more[1] == table && more[2..] == rest;
  }

  lemma StatementRead(q: Query, slots: seq<Word>)
    requires ValidQuery(q) && |slots| == |q.conditions|
    ensures ReadStatement([Chars("SELECT")] + QueryWords(q, slots)) == Some(Meant(q, slots))
  {
    var ws, rest := QueryWords(q, slots), CondsFrom(q.conditions, slots, 0) + TailWords(q);
    var more := [Chars("FROM"), Chars(q.table)] + rest;
    assert ws == ColumnWords(q.columns) + more;
    ColumnsRead(q.columns, more);
    AfterSelect(ws, ReadColumns(ws).0, Chars(q.table), rest);
    RestRead(q, slots);
  }

  /** For every validated query, with any words in its slots: the reader finds the query. */
  lemma SelectReadsBack(q: Query, slots: seq<Word>)
    requires ValidQuery(q) && |slots| == |q.conditions| && NoSpaces(slots)
    ensures ReadSelect(TokensOf(Pieces(q), slots)) == Some(Meant(q, slots))
  {
    QueryWritten(q, slots);
    WordsNoSpaces(q, slots);
    CharsSpaceless("SELECT");
    SplitSpaced(Chars("SELECT"), QueryWords(q, slots));
    StatementRead(q, slots);
  }

  /** Columns, table, the columns of the conditions, order, limit and offset are those of the query. */
  ghost predicate SameQuery(r: Reading, q: Query) {
    && |r.columns| == |q.columns| && (forall i :: 0 <= i < |q.columns| ==> r.columns[i] == Chars(q.columns[i]))
    && r.table == Chars(q.table)
    && |r.conditions| == |q.conditions|
    && (forall i :: 0 <= i < |q.conditions| ==> r.conditions[i].0 == Chars(q.conditions[i].0))
    && r.order == (if q.order.Some? then Some((Chars(q.order.value.0), q.order.value.1)) else None)
    && r.limit == q.limit && r.offset == q.offset
  }

  lemma MeantIsQuery(q: Query, slots: seq<Word>)
    requires |slots| == |q.conditions|
    ensures SameQuery(Meant(q, slots), q)
    ensures forall i :: 0 <= i < |slots| ==> Meant(q, slots).conditions[i].1 == slots[i]
  {
  }

  ghost function PlaceholderWords(n: nat): (ws: seq<Word>)
    ensures |ws| == n && forall k :: 0 <= k < n ==> ws[k] == Chars(Placeholder(k))
  {
    seq(n, k requires 0 <= k < n => Chars(Placeholder(k)))
  }

  lemma {:induction false} TemplateTokens(ps: seq<Piece>, n: nat)
    requires forall i :: 0 <= i < |ps| && ps[i].ParamSlot? ==> ps[i].k < n
    ensures Chars(Fill(ps, Placeholder)) == TokensOf(ps, PlaceholderWords(n))
  {
    if ps != [] {
      TemplateTokens(ps[1..], n);
      var t := match ps[0] case Clause(t) => t case ParamSlot(k) => Placeholder(k);
      CharsAppend(t, Fill(ps[1..], Placeholder));
    }
  }

  lemma PlaceholdersNoSpaces(n: nat)
    ensures NoSpaces(PlaceholderWords(n))
  {
    forall k | 0 <= k < n ensures SPACE !in PlaceholderWords(n)[k] {
      var d := Decimal(k + 1);
      assert forall i :: 0 <= i < |d| ==> IsDigit(d[i]);
      CharsSpaceless(Placeholder(k));
    }
  }

  /** A dollar sign and the digits of a number. */
  ghost predicate IsPlaceholder(w: Word, n: nat) { exists d :: w == Chars("$" + d) && ReadDigits(d) == Some(n) }

  /** The template of every validated query is read as the query, and the word in slot `k` is the
      placeholder with number `k + 1`. */
  lemma TemplateReadsBack(q: Query)
    requires ValidQuery(q)
    ensures var r := ReadSelect(Chars(Fill(Pieces(q), Placeholder)));
      && r.Some? && SameQuery(r.value, q)
      && forall k :: 0 <= k < |q.conditions| ==> IsPlaceholder(r.value.conditions[k].1, k + 1)
  {
    var n := |q.conditions|;
    QueryIsTemplate(q);
    TemplateTokens(Pieces(q), n);
    PlaceholdersNoSpaces(n);
    SelectReadsBack(q, PlaceholderWords(n));
    MeantIsQuery(q, PlaceholderWords(n));
    forall k | 0 <= k < n ensures IsPlaceholder(Meant(q, PlaceholderWords(n)).conditions[k].1, k + 1) {
      DecimalRoundTrip(k + 1);
      assert PlaceholderWords(n)[k] == Chars("$" + Decimal(k + 1)) && ReadDigits(Decimal(k + 1)) == Some(k + 1);
    }
  }

  ghost function LiteralWords(params: seq<Param>): (ws: seq<Word>)
    ensures |ws| == |params| && forall k :: 0 <= k < |params| ==> ws[k] == LiteralTokens(params[k])
  {
    seq(|params|, k requires 0 <= k < |params| => LiteralTokens(params[k]))
  }

  lemma {:induction false} FilledTokens(ps: seq<Piece>, params: seq<Param>)
    ensures FillTokens(ps, params) == TokensOf(ps, LiteralWords(params))
  {
    if ps != [] { FilledTokens(ps[1..], params); }
  }

  lemma LiteralsNoSpaces(params: seq<Param>)
    ensures NoSpaces(LiteralWords(params))
  {
    forall k | 0 <= k < |params| ensures SPACE !in LiteralWords(params)[k] {
      if !Quoted(params[k]) {
        LiteralPlain(params[k]);
        CharsSpaceless(Literal(params[k]));
      }
    }
  }

  /** The inlined text of every validated query is read as the query, and the word in slot `k` as the value
      of parameter `k`, whatever it contains; only an infinite or undefined float is not read as one. */
  lemma InlinedReadsBack(q: Query)
    requires ValidQuery(q)
    ensures var sql := Lex(Fill(Pieces(q), LiteralOf(Params(q))));
      && sql.Some? && ReadSelect(sql.value).Some? && SameQuery(ReadSelect(sql.value).value, q)
      && forall k, kind :: 0 <= k < |q.conditions| && Suits(q.conditions[k].1, kind) ==>
           (ReadTokens(kind, ReadSelect(sql.value).value.conditions[k].1) == Some(ValueOf(q.conditions[k].1)) <==>
            (q.conditions[k].1.Float8? ==> FiniteText(q.conditions[k].1.f)))
  {
    var slots := LiteralWords(Params(q));
    InlinedQueryReadsBack(q);
    FilledTokens(Pieces(q), Params(q));
    LiteralsNoSpaces(Params(q));
    SelectReadsBack(q, slots);
    MeantIsQuery(q, slots);
    forall k, kind | 0 <= k < |q.conditions| && Suits(q.conditions[k].1, kind)
      ensures ReadTokens(kind, Meant(q, slots).conditions[k].1) == Some(ValueOf(q.conditions[k].1)) <==>
              (q.conditions[k].1.Float8? ==> FiniteText(q.conditions[k].1.f))
    {
      TokensReadBackIff(q.conditions[k].1, kind);
    }
  }
}
