/** From the text of a SELECT to its answer: tokenizer, parser, and the choice of the path in src/engine.c. */
module SqlAnswers {
  import opened Common
  import opened Cells
  import opened Where
  import opened Select
  import opened StorageIndex
  import opened QueryAgreement
  import opened Engine
  import opened EngineRuns
  import I = IndexedRows
  import S = SqlStatements
  import G = SqlGrammar
  import X = SqlText
  import P = SqlProgram
  import T = Trie

  // ---------- the fields of a parsed statement, as storage reads them ----------

  function ToClause(c: S.Condition): Clause {
    Clause(c.column, c.op, c.value, c.valueTo)
  }

  function ToClauses(conds: seq<S.Condition>): (r: seq<Clause>)
    ensures |r| == |conds| && forall i | 0 <= i < |r| :: r[i] == ToClause(conds[i])
  {
    seq(|conds|, i requires 0 <= i < |conds| => ToClause(conds[i]))
  }

  function ToLinks(links: seq<string>): (r: seq<Option<string>>)
    ensures |r| == |links| && forall i | 0 <= i < |r| :: r[i] == Some(links[i])
  {
    seq(|links|, i requires 0 <= i < |links| => Some(links[i]))
  }

  function ToQuery(p: S.Parsed): Query {
    Query(ToClauses(p.conds), if p.links == [] then None else Some(ToLinks(p.links)), p.logic)
  }

  function ToSelect(p: S.Parsed): SelectSql {
    SelectSql(ToQuery(p), p.columns, if p.order.None? then None else Some(OrderBy(p.order.value.column, p.order.value.asc)),
              p.limit)
  }

  // ---------- what a written SELECT selects ----------

  /** A written condition as it is evaluated. */
  function Asked(c: G.CondForm): Clause {
    match c
    case Plain(column, op, value) => Clause(column, op, value, "")
    case Range(column, _, low, _, high) => Clause(column, "BETWEEN", low, high)
  }

  function AllAsked(conds: seq<G.CondForm>): (r: seq<Clause>)
    ensures |r| == |conds| && forall i | 0 <= i < |r| :: r[i] == Asked(conds[i])
  {
    seq(|conds|, i requires 0 <= i < |conds| => Asked(conds[i]))
  }

  /** Where the text says OR. */
  function Ors(words: seq<string>): (r: seq<bool>)
    ensures |r| == |words| && forall i | 0 <= i < |r| :: r[i] == G.Spells(words[i], "OR")
  {
    seq(|words|, i requires 0 <= i < |words| => G.Spells(words[i], "OR"))
  }

  /** The row meets the written WHERE part: each condition can be evaluated, and the expression they form is true. */
  ghost predicate Meets(schema: seq<ColDef>, row: Row, w: Option<G.WhereForm>, strtod: Strtod)
    requires G.OptionalFits(w)
  {
    w.Some? ==>
      && (forall k | 0 <= k < |w.value.conds| :: Evaluate(schema, row, Asked(w.value.conds[k]), strtod).Some?)
      && Truth(Results(schema, row, AllAsked(w.value.conds), strtod), Ors(w.value.words))
  }

  /** The conditions of a WHERE part, or none. */
  lemma WhereQuery(p: S.Parsed, w: Option<G.WhereForm>)
    requires G.OptionalFits(w) && p.conds == [] && p.links == [] && p.logic == ""
    ensures
      var q := ToQuery(G.WithConditions(p, w));
      if w.None? then q.clauses == []
      else q.clauses == AllAsked(w.value.conds) && q.clauses != [] && LinksRead(q, Ors(w.value.words))
  {
    if w.Some? {
      var q := ToQuery(G.WithConditions(p, w));
      assert q.clauses == AllAsked(w.value.conds);
      forall i | 0 <= i < |w.value.words|
        ensures SameName(G.LinkMeant(w.value.words[i]), if Ors(w.value.words)[i] then "OR" else "AND")
      {
      }
    }
  }

  /** WHERE decides a row as the text says. */
  lemma WrittenDecision(schema: seq<ColDef>, row: Row, p: S.Parsed, w: Option<G.WhereForm>, strtod: Strtod)
    requires G.OptionalFits(w) && p.conds == [] && p.links == [] && p.logic == ""
    ensures
      var q := ToQuery(G.WithConditions(p, w));
      && (Decision(schema, row, q, strtod) == Some(true) <==> Meets(schema, row, w, strtod))
      && (Decision(schema, row, q, strtod) == None <==>
          w.Some? && exists k | 0 <= k < |w.value.conds| :: Evaluate(schema, row, Asked(w.value.conds[k]), strtod).None?)
  {
    var q := ToQuery(G.WithConditions(p, w));
    WhereQuery(p, w);
    WhereErrorExactly(schema, row, q, strtod);
    if w.Some? {
      var ors := Ors(w.value.words);
      assert LinksRead(q, ors);
      assert forall k | 0 <= k < |q.clauses| :: q.clauses[k] == Asked(w.value.conds[k]);
      if forall k | 0 <= k < |q.clauses| :: Evaluate(schema, row, q.clauses[k], strtod).Some? {
        WhereIsExpression(schema, row, q, strtod, ors);
      }
    }
  }

  /** result answers the written SELECT: the rows that meet its WHERE part, in table order, arranged, cut to length and
      to columns as it says. */
  ghost predicate AnswersText(schema: seq<ColDef>, rows: seq<Row>, f: G.Form, result: seq<Row>, strtod: Strtod)
    requires f.SelectForm? && G.OptionalFits(f.where)
  {
    exists at: seq<int>, selection: seq<Row> ::
      && Increasing(at) && selection == AtPositions(rows, at)
      && (forall i: int :: i in at <==> 0 <= i < |rows| && Meets(schema, rows[i], f.where, strtod))
      && Listed(schema, selection, Layout(f), result, strtod)
  }

  function OrderAsked(o: Option<G.OrderForm>): Option<OrderBy> {
    if o.None? then None else Some(OrderBy(o.value.column, !o.value.direction.Descending?))
  }

  function LimitAsked(l: Option<G.LimitForm>): int {
    if l.None? then -1 else l.value.n
  }

  /** Columns, order and length as the text asks for them. */
  function Layout(f: G.Form): SelectSql
    requires f.SelectForm?
  {
    SelectSql(Query([], None, ""), f.columns, OrderAsked(f.order), LimitAsked(f.limit))
  }

  lemma SelectFields(f: G.Form)
    requires f.SelectForm? && G.Written(f)
    ensures
      var sql := ToSelect(G.Meant(f));
      && SameLayout(sql, Layout(f))
      && sql.query == ToQuery(G.WithConditions(S.New(S.SELECT).(table := f.table, columns := f.columns), f.where))
      && G.Meant(f).kind.SELECT? && G.Meant(f).table == f.table
  {
  }

  /** An answer like that of the scan is one to the text. */
  lemma ScanAnswersText(schema: seq<ColDef>, rows: seq<Row>, f: G.Form, result: seq<Row>, strtod: Strtod)
    requires f.SelectForm? && G.Written(f) && LikeScan(schema, rows, ToSelect(G.Meant(f)), strtod, Some(result))
    ensures AnswersText(schema, rows, f, result, strtod)
  {
    var sql := ToSelect(G.Meant(f));
    SelectFields(f);
    var at := ScannedPositions(schema, rows, sql.query, strtod);
    var selection := AtPositions(rows, at);
    forall i: int
      ensures i in at <==> 0 <= i < |rows| && Meets(schema, rows[i], f.where, strtod)
    {
      if 0 <= i < |rows| {
        WrittenDecision(schema, rows[i], S.New(S.SELECT).(table := f.table, columns := f.columns), f.where, strtod);
      }
    }
    ListedSame(schema, selection, sql, Layout(f), result, strtod);
  }

  predicate SameLayout(a: SelectSql, b: SelectSql) {
    a.columns == b.columns && a.order == b.order && a.limit == b.limit
  }

  lemma ListedSame(schema: seq<ColDef>, selection: seq<Row>, a: SelectSql, b: SelectSql, result: seq<Row>, strtod: Strtod)
    requires Answers(schema, selection, a, result, strtod) && SameLayout(a, b)
    ensures Listed(schema, selection, b, result, strtod)
  {
    AnswersListed(schema, selection, a, result, strtod);
    var rows :| && multiset(rows) == multiset(selection)
                && RankedAsAsked(schema, a.order, rows, selection, strtod)
                && |result| == (if 0 <= a.limit < |rows| then a.limit else |rows|)
                && forall i | 0 <= i < |result| :: Cut(schema, rows[i], a.columns, result[i]);
  }

  // ---------- the text ----------

  /** A SELECT on one table, from its text: None if the text is no such statement. */
  method ExecuteText(t: Table, store: TableStore, trie: T.Trie, ready: bool, text: string) returns (reply: Option<Reply>)
    requires Running(t, store, trie) && Rectangular(t.schema, store.rows)
    modifies store, store.TreeRepr()
    ensures Running(t, store, trie) && store.rows == old(store.rows) && trie.Words() == old(trie.Words())
    ensures
      var p := S.ParseSql(text);
      reply.Some? <==> p.Some? && p.value.kind.SELECT? && p.value.table == t.name
    ensures reply.Some? && I.Sound(old(store.State()), t.col) && Current(t, old(ImageOf(store, trie, ready))) ==>
              reply.value.Answer? && Agrees(t, old(store.rows), ToSelect(S.ParseSql(text).value), reply.value.result)
  {
    var parsed := ParseBeside(t, store, trie, text);
    reply := ExecuteParsed(t, store, trie, ready, parsed);
  }

  /** The parser works on storage of its own. */
  method ParseBeside(t: Table, store: TableStore, trie: T.Trie, text: string) returns (parsed: Option<S.Parsed>)
    requires Running(t, store, trie)
    ensures parsed == S.ParseSql(text) && Running(t, store, trie) && trie.Words() == old(trie.Words())
    ensures store.TreeRepr() == old(store.TreeRepr()) && store.State() == old(store.State())
  {
    ghost var repr := store.ReprNow();
    parsed := P.ParseText(text);
    Untouched(trie);
  }

  method ExecuteParsed(t: Table, store: TableStore, trie: T.Trie, ready: bool, parsed: Option<S.Parsed>)
    returns (reply: Option<Reply>)
    requires Running(t, store, trie) && Rectangular(t.schema, store.rows)
    modifies store, store.TreeRepr()
    ensures Running(t, store, trie) && store.rows == old(store.rows) && trie.Words() == old(trie.Words())
    ensures reply.Some? <==> parsed.Some? && parsed.value.kind.SELECT? && parsed.value.table == t.name
    ensures reply.Some? && I.Sound(old(store.State()), t.col) && Current(t, old(ImageOf(store, trie, ready))) ==>
              reply.value.Answer? && Agrees(t, old(store.rows), ToSelect(parsed.value), reply.value.result)
  {
    reply := None;
    if parsed.Some? && parsed.value.kind.SELECT? && parsed.value.table == t.name {
      var answer := ExecuteQuery(t, store, trie, ready, ToSelect(parsed.value));
      reply := Some(answer);
    }
  }

  /** Wherever the indexes say all and the literals do not clash, the answer is one to the text, whatever blanks,
      comments and letter case it is written with. */
  lemma TextAnswered(t: Table, rows: seq<Row>, ls: seq<X.Lexeme>, f: G.Form, result: Option<seq<Row>>)
    requires f.SelectForm? && G.Written(f) && X.Separate(ls) && X.TokenAll(ls) == G.Spelt(f)
    requires Agrees(t, rows, ToSelect(G.Meant(f)), result) && !UsesIdRange(ToSelect(G.Meant(f)).query)
    requires SaysEnough(t, rows, ToSelect(G.Meant(f)).query) && !LiteralClash(t.schema, rows, ToSelect(G.Meant(f)))
    ensures S.ParseSql(X.TextAll(ls)) == Some(G.Meant(f))
    ensures result.Some? ==> AnswersText(t.schema, rows, f, result.value, t.strtod)
  {
    G.TextIsParsed(ls, f);
    if result.Some? {
      ScanAnswersText(t.schema, rows, f, result.value, t.strtod);
    }
  }

  /** The rows with an id between the numbers, by rising id, arranged, cut to length and to columns as the text says. */
  ghost predicate AnswersBetween(t: Table, rows: seq<Row>, f: G.Form, a: int, b: int, result: seq<Row>)
    requires f.SelectForm?
  {
    exists selection: seq<Row> ::
      SelectsBetween(t, rows, a, b, selection) && Listed(t.schema, selection, Layout(f), result, t.strtod)
  }

  ghost predicate SelectsBetween(t: Table, rows: seq<Row>, a: int, b: int, selection: seq<Row>) {
    && (forall i, j | 0 <= i < j < |selection| :: I.IdOf(selection[i], t.col) < I.IdOf(selection[j], t.col))
    && (forall r :: r in selection <==> r in rows && (a <= I.IdOf(r, t.col) <= b || b <= I.IdOf(r, t.col) <= a))
  }

  lemma RangeQuery(p: S.Parsed, w: G.WhereForm, c: G.CondForm)
    requires G.WhereFits(w) && w.conds == [c] && c.Range? && SameName(c.column, "id")
    ensures
      var q := ToQuery(G.WithConditions(p, Some(w)));
      UsesIdRange(q) && q.clauses[0].value == c.low && q.clauses[0].valueTo == c.high
  {
    var q := ToQuery(G.WithConditions(p, Some(w)));
    assert G.CondsMeant(w.conds)[0] == G.CondMeant(c) && q.clauses[0] == ToClause(G.CondMeant(c));
  }

  lemma BoundsListed(t: Table, rows: seq<Row>, f: G.Form, sql: SelectSql, a: int, b: int, selection: seq<Row>, result: seq<Row>)
    requires f.SelectForm? && SameLayout(sql, Layout(f))
    requires InBounds(t.schema, rows, t.col, sql, a, b, t.strtod, Some(result), selection)
    ensures AnswersBetween(t, rows, f, a, b, result)
  {
    ListedSame(t.schema, selection, sql, Layout(f), result, t.strtod);
    assert SelectsBetween(t, rows, a, b, selection);
  }

  /** The same for id BETWEEN a AND b on a key column. */
  lemma BetweenAnswered(t: Table, rows: seq<Row>, ls: seq<X.Lexeme>, f: G.Form, c: G.CondForm, a: int, b: int,
                        result: Option<seq<Row>>)
    requires f.SelectForm? && G.Written(f) && X.Separate(ls) && X.TokenAll(ls) == G.Spelt(f)
    requires f.where.Some? && f.where.value.conds == [c] && c.Range? && SameName(c.column, "id")
    requires ParseInt(c.low) == Some(a) && ParseInt(c.high) == Some(b) && KeyColumn(t.schema, rows, t.col)
    requires Agrees(t, rows, ToSelect(G.Meant(f)), result)
    ensures S.ParseSql(X.TextAll(ls)) == Some(G.Meant(f))
    ensures result.Some? ==> AnswersBetween(t, rows, f, a, b, result.value)
  {
    G.TextIsParsed(ls, f);
    BetweenForm(t, rows, f, c, a, b, result);
  }

  lemma BetweenForm(t: Table, rows: seq<Row>, f: G.Form, c: G.CondForm, a: int, b: int, result: Option<seq<Row>>)
    requires f.SelectForm? && G.Written(f)
    requires f.where.Some? && f.where.value.conds == [c] && c.Range? && SameName(c.column, "id")
    requires ParseInt(c.low) == Some(a) && ParseInt(c.high) == Some(b) && KeyColumn(t.schema, rows, t.col)
    requires Agrees(t, rows, ToSelect(G.Meant(f)), result)
    ensures result.Some? ==> AnswersBetween(t, rows, f, a, b, result.value)
  {
    var sql := ToSelect(G.Meant(f));
    SelectFields(f);
    RangeQuery(S.New(S.SELECT).(table := f.table, columns := f.columns), f.where.value, c);
    var selection: seq<Row> :| BetweenTells(t.schema, rows, t.col, sql, t.strtod, result, selection);
    if result.Some? {
      BoundsListed(t, rows, f, sql, a, b, selection, result.value);
    }
  }
}
