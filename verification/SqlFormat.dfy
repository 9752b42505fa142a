/** The text that print_format of src/sql_format.c prints, statement by statement, as its format strings give it. */
module SqlFormat {
  import opened Common
  import opened Cells
  import opened IndexedRows
  import opened SqlText
  import opened SqlStatements
  import P = SqlProgram
  import B = SqlRoundTrip

  /** A value that starts with a digit or a plus and has no blank, hyphen or colon is printed bare. */
  predicate Bare(v: string) {
    v != "" && ('0' <= v[0] <= '9' || v[0] == '+') && forall i | 0 <= i < |v| :: v[i] !in {' ', '-', ':'}
  }

  function ValueString(v: string): string {
    if Bare(v) then v else "'" + (v + "'")
  }

  lemma ValuePrinted(v: string)
    ensures Text(Value(v)) == ValueString(v)
  {
    if !Bare(v) && v != "" {
      assert NeedsQuote(v);
    }
  }

  function ValueStrings(values: seq<string>): (r: seq<string>)
    ensures |r| == |values| && forall i | 0 <= i < |r| :: r[i] == ValueString(values[i])
  {
    seq(|values|, i requires 0 <= i < |values| => ValueString(values[i]))
  }

  function SetStrings(sets: seq<Assignment>): (r: seq<string>)
    ensures |r| == |sets| && forall i | 0 <= i < |r| :: r[i] == sets[i].column + (" = " + ValueString(sets[i].value))
  {
    seq(|sets|, i requires 0 <= i < |sets| => sets[i].column + (" = " + ValueString(sets[i].value)))
  }

  /** The texts with a comma and a blank between them. */
  function Listed(texts: seq<string>): string {
    if texts == [] then "" else if |texts| == 1 then texts[0] else texts[0] + (", " + Listed(texts[1..]))
  }

  lemma {:induction false} JoinIsListed(texts: seq<string>)
    ensures P.Join(texts) == Listed(texts)
  {
    if |texts| > 1 {
      JoinIsListed(texts[1..]);
    }
  }

  /** The link in front of condition i: the one between it and the one before, or else the shared one, or else AND. */
  function LinkString(p: Parsed, i: nat): string {
    if i == 0 then ""
    else if SameName(if i <= |p.links| then p.links[i - 1] else p.logic, "OR") then " OR "
    else " AND "
  }

  function ConditionString(c: Condition): string {
    c.column + (" " + (c.op + (" " + ValueString(c.value))))
  }

  function ConditionStrings(p: Parsed, i: nat): string
    requires i <= |p.conds|
    decreases |p.conds| - i
  {
    if i == |p.conds| then "" else LinkString(p, i) + (ConditionString(p.conds[i]) + ConditionStrings(p, i + 1))
  }

  function WhereString(p: Parsed): string {
    if p.conds == [] then "" else " WHERE " + ConditionStrings(p, 0)
  }

  function OrderString(p: Parsed): string {
    if p.order.None? then "" else " ORDER BY " + (p.order.value.column + (if p.order.value.asc then " ASC" else " DESC"))
  }

  function LimitString(p: Parsed): string {
    if p.limit >= 0 then " LIMIT " + Digits(p.limit) else ""
  }

  function Format(p: Parsed): string {
    match p.kind
    case CREATE => "CREATE TABLE " + (p.table + (" (" + (Listed(p.colDefs) + ");\n")))
    case INSERT =>
      "INSERT INTO " + (p.table + (" (" + (Listed(p.columns) + (") VALUES (" + (Listed(ValueStrings(p.values)) + ");\n")))))
    case SELECT =>
      "SELECT " + (Listed(p.columns) + (" FROM " + (p.table + (WhereString(p) + (OrderString(p) + (LimitString(p) + ";\n"))))))
    case DELETE => "DELETE FROM " + (p.table + (WhereString(p) + ";\n"))
    case UPDATE => "UPDATE " + (p.table + (" SET " + (Listed(SetStrings(p.sets)) + (WhereString(p) + ";\n"))))
    case UNKNOWN => "-- (UNKNOWN query type)\n"
  }

  // ---------- the parts ----------

  lemma ListPrinted(items: seq<seq<Lexeme>>, texts: seq<string>)
    requires |items| == |texts| && forall i | 0 <= i < |items| :: TextAll(items[i]) == texts[i]
    ensures TextAll(CommaList(items)) == Listed(texts)
  {
    P.ListText(items, texts);
    JoinIsListed(texts);
  }

  lemma NamesPrinted(names: seq<string>)
    ensures TextAll(CommaList(NameItems(names))) == Listed(names)
  {
    forall i | 0 <= i < |names|
      ensures TextAll(NameItems(names)[i]) == names[i]
    {
      P.Text1(Word(names[i]));
    }
    ListPrinted(NameItems(names), names);
  }

  lemma DefsPrinted(defs: seq<string>)
    ensures TextAll(CommaList(DefItems(defs))) == Listed(defs)
  {
    forall i | 0 <= i < |defs|
      ensures TextAll(DefItems(defs)[i]) == defs[i]
    {
      P.DefText(defs[i]);
    }
    ListPrinted(DefItems(defs), defs);
  }

  lemma ColumnsPrinted(columns: seq<string>)
    ensures TextAll(CommaList(ColumnItems(columns))) == Listed(columns)
  {
    forall i | 0 <= i < |columns|
      ensures TextAll(ColumnItems(columns)[i]) == columns[i]
    {
      P.ColumnText(columns[i]);
    }
    ListPrinted(ColumnItems(columns), columns);
  }

  lemma ValuesPrinted(values: seq<string>)
    ensures TextAll(CommaList(ValueItems(values))) == Listed(ValueStrings(values))
  {
    forall i | 0 <= i < |values|
      ensures TextAll(ValueItems(values)[i]) == ValueStrings(values)[i]
    {
      ValuePrinted(values[i]);
      P.Text1(Value(values[i]));
    }
    ListPrinted(ValueItems(values), ValueStrings(values));
  }

  lemma SetsPrinted(sets: seq<Assignment>)
    ensures TextAll(CommaList(SetItems(sets))) == Listed(SetStrings(sets))
  {
    forall i | 0 <= i < |sets|
      ensures TextAll(SetItems(sets)[i]) == SetStrings(sets)[i]
    {
      ValuePrinted(sets[i].value);
      P.SetText(sets[i]);
    }
    ListPrinted(SetItems(sets), SetStrings(sets));
  }

  lemma ConditionPrinted(c: Condition)
    ensures TextAll(OneCondition(c)) == ConditionString(c)
  {
    ValuePrinted(c.value);
    P.Text5(Word(c.column), Blank, Op(c.op), Blank, Value(c.value));
  }

  lemma LinkPrinted(p: Parsed, i: nat)
    requires i > 0
    ensures " " + (LinkAt(p, i - 1) + " ") == LinkString(p, i)
  {
    B.LinkPrinted(p, i - 1);
    assert " " + ("OR" + " ") == " OR " && " " + ("AND" + " ") == " AND ";
  }

  lemma {:induction false} ConditionsPrinted(p: Parsed, i: nat)
    requires i <= |p.conds|
    ensures TextAll(ConditionsFrom(p, i)) == ConditionStrings(p, i)
    decreases |p.conds| - i
  {
    if i < |p.conds| {
      P.ConditionText(p, i);
      ConditionPrinted(p.conds[i]);
      ConditionsPrinted(p, i + 1);
      if i > 0 {
        LinkPrinted(p, i);
      }
    }
  }

  lemma WherePrinted(p: Parsed)
    ensures TextAll(WhereLexemes(p)) == WhereString(p)
  {
    if p.conds != [] {
      P.WhereStart(p);
      ConditionsPrinted(p, 0);
    }
  }

  lemma OrderPrinted(p: Parsed)
    ensures TextAll(OrderLexemes(p)) == OrderString(p)
  {
    if p.order.Some? {
      P.OrderText(p.order.value.column, if p.order.value.asc then "ASC" else "DESC");
      assert " " + "ASC" == " ASC" && " " + "DESC" == " DESC";
    }
  }

  lemma LimitPrinted(p: Parsed)
    ensures TextAll(LimitLexemes(p)) == LimitString(p)
  {
    if p.limit >= 0 {
      P.LimitText(Digits(p.limit));
    }
  }

  // ---------- the statements ----------

  lemma HeadPrinted(a: string, b: string, ab: string, table: string)
    requires a + (" " + (b + " ")) == ab
    ensures TextAll(Opening(a, b, table)) == ab + (table + " (")
  {
    P.OpeningText(a, b, table);
    Chain(b, " ", table + " (");
    Chain(" ", b + " ", table + " (");
    Chain(a, " " + (b + " "), table + " (");
  }

  lemma CreatePrinted(p: Parsed)
    requires p.kind.CREATE?
    ensures Print(p) == Format(p)
  {
    var head, list := Opening("CREATE", "TABLE", p.table), CommaList(DefItems(p.colDefs));
    assert "CREATE" + (" " + ("TABLE" + " ")) == "CREATE TABLE ";
    HeadPrinted("CREATE", "TABLE", "CREATE TABLE ", p.table);
    DefsPrinted(p.colDefs);
    P.ClosingText();
    P.TextConcat(list, Closing());
    P.TextConcat(head, list + Closing());
    Placed("CREATE TABLE ", p.table, " (", Listed(p.colDefs) + ");\n");
  }

  lemma Placed(a: string, b: string, c: string, d: string)
    ensures (a + (b + c)) + d == a + (b + (c + d))
  {
  }

  lemma InsertPrinted(p: Parsed)
    requires p.kind.INSERT?
    ensures Print(p) == Format(p)
  {
    var head := Opening("INSERT", "INTO", p.table);
    var cols, vals := CommaList(NameItems(p.columns)), CommaList(ValueItems(p.values));
    assert "INSERT" + (" " + ("INTO" + " ")) == "INSERT INTO ";
    HeadPrinted("INSERT", "INTO", "INSERT INTO ", p.table);
    NamesPrinted(p.columns);
    ValuesPrinted(p.values);
    P.ValuesPartText();
    P.ClosingText();
    P.TextConcat(vals, Closing());
    P.TextConcat(ValuesPart(), vals + Closing());
    P.TextConcat(cols, ValuesPart() + (vals + Closing()));
    P.TextConcat(head, cols + (ValuesPart() + (vals + Closing())));
    Placed("INSERT INTO ", p.table, " (", Listed(p.columns) + (") VALUES (" + (Listed(ValueStrings(p.values)) + ");\n")));
  }

  lemma TailPrinted(p: Parsed)
    ensures TextAll(WhereLexemes(p) + (OrderLexemes(p) + (LimitLexemes(p) + END)))
            == WhereString(p) + (OrderString(p) + (LimitString(p) + ";\n"))
  {
    WherePrinted(p);
    OrderPrinted(p);
    LimitPrinted(p);
    P.ClosingText();
    P.TextConcat(LimitLexemes(p), END);
    P.TextConcat(OrderLexemes(p), LimitLexemes(p) + END);
    P.TextConcat(WhereLexemes(p), OrderLexemes(p) + (LimitLexemes(p) + END));
  }

  lemma SelectPrinted(p: Parsed)
    requires p.kind.SELECT?
    ensures Print(p) == Format(p)
  {
    var cols, from := CommaList(ColumnItems(p.columns)), [Blank, Word("FROM"), Blank, Word(p.table)];
    var tail := WhereLexemes(p) + (OrderLexemes(p) + (LimitLexemes(p) + END));
    ColumnsPrinted(p.columns);
    P.FromText(p.table);
    TailPrinted(p);
    P.TextConcat(from, tail);
    P.TextConcat(cols, from + tail);
    P.TextConcat([Word("SELECT"), Blank], cols + (from + tail));
    Chain(" FROM ", p.table, TextAll(tail));
  }

  lemma WhereAndEnd(p: Parsed)
    ensures TextAll(WhereLexemes(p) + END) == WhereString(p) + ";\n"
  {
    WherePrinted(p);
    P.ClosingText();
    P.TextConcat(WhereLexemes(p), END);
  }

  lemma DeletePrinted(p: Parsed)
    requires p.kind.DELETE?
    ensures Print(p) == Format(p)
  {
    var head := [Word("DELETE"), Blank, Word("FROM"), Blank, Word(p.table)];
    P.Text5(Word("DELETE"), Blank, Word("FROM"), Blank, Word(p.table));
    WhereAndEnd(p);
    P.TextConcat(head, WhereLexemes(p) + END);
    assert "DELETE" + (" " + ("FROM" + " ")) == "DELETE FROM ";
    Chain("FROM", " ", p.table);
    Chain(" ", "FROM" + " ", p.table);
    Chain("DELETE", " " + ("FROM" + " "), p.table);
    Chain("DELETE FROM ", p.table, WhereString(p) + ";\n");
  }

  lemma UpdatePrinted(p: Parsed)
    requires p.kind.UPDATE?
    ensures Print(p) == Format(p)
  {
    var head := [Word("UPDATE"), Blank, Word(p.table), Blank, Word("SET"), Blank];
    var sets, tail := CommaList(SetItems(p.sets)), WhereLexemes(p) + END;
    P.UpdateText(p.table);
    SetsPrinted(p.sets);
    WhereAndEnd(p);
    P.TextConcat(sets, tail);
    P.TextConcat(head, sets + tail);
    Placed("UPDATE ", p.table, " SET ", Listed(SetStrings(p.sets)) + (WhereString(p) + ";\n"));
  }

  /** What the printer prints is what the format strings say. */
  lemma PrintIsFormat(p: Parsed)
    ensures Print(p) == Format(p)
  {
    match p.kind
    case CREATE => CreatePrinted(p);
    case INSERT => InsertPrinted(p);
    case SELECT => SelectPrinted(p);
    case DELETE => DeletePrinted(p);
    case UPDATE => UpdatePrinted(p);
    case UNKNOWN =>
  }
}
