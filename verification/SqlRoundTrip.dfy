/** Parsing what the printer prints gives the statement back. */
module SqlRoundTrip {
  import opened Common
  import opened Cells
  import opened IndexedRows
  import opened SqlText
  import opened SqlStatements
  import opened SqlGrammar

  // ---------- the statements covered ----------

  /** A value the printer writes as one token: without a quote character, and made of word characters when it
      is written bare. */
  predicate ValueOk(v: string) {
    && (forall i | 0 <= i < |v| :: v[i] != '\'')
    && (!NeedsQuote(v) ==> forall i | 0 <= i < |v| :: WordChar(v[i]))
  }

  predicate ConditionOk(c: Condition) {
    && ShortName(c.column) && ValueOk(c.value) && |c.value| < VALUE_SIZE
    && (c.op == "BETWEEN" || (c.op in {"=", "!=", ">", "<", ">=", "<=", "LIKE"} && c.valueTo == ""))
  }

  predicate NoBetween(conds: seq<Condition>) {
    forall i | 0 <= i < |conds| :: conds[i].op != "BETWEEN"
  }

  predicate WhereOk(p: Parsed) {
    && (forall i | 0 <= i < |p.conds| :: ConditionOk(p.conds[i]))
    && |p.links| == (if p.conds == [] then 0 else |p.conds| - 1)
    && (forall i | 0 <= i < |p.links| :: p.links[i] == "AND" || p.links[i] == "OR")
    && p.logic == Logic(p.links)
  }

  /** A column definition "name TYPE". */
  predicate DefOk(d: string) {
    var n := Until(d, ' ');
    n < |d| && IsName(d[..n]) && IsName(d[n + 1..]) && |d| < COLUMN_SIZE
  }

  predicate SetOk(a: Assignment) {
    ShortName(a.column) && ValueOk(a.value) && |a.value| < VALUE_SIZE
  }

  predicate OrderOk(o: Option<Ordering>) {
    o.Some? ==> ShortName(o.value.column)
  }

  /** A statement with fields of its kind only, within the field sizes. */
  predicate Normal(p: Parsed) {
    && !p.kind.UNKNOWN? && ShortName(p.table)
    && match p.kind
       case CREATE =>
         p == New(CREATE).(table := p.table, colDefs := p.colDefs) && forall i | 0 <= i < |p.colDefs| :: DefOk(p.colDefs[i])
       case INSERT =>
         && p == New(INSERT).(table := p.table, columns := p.columns, values := p.values)
         && (forall i | 0 <= i < |p.columns| :: IsName(p.columns[i]))
         && (forall i | 0 <= i < |p.values| :: ValueOk(p.values[i]) && p.values[i] != ")")
       case SELECT =>
         && p == New(SELECT).(table := p.table, columns := p.columns, conds := p.conds, links := p.links, logic := p.logic,
                              order := p.order, limit := p.limit)
         && (forall i | 0 <= i < |p.columns| :: ColumnOk(p.columns[i]))
         && WhereOk(p) && OrderOk(p.order) && p.limit >= -1
       case DELETE =>
         && p == New(DELETE).(table := p.table, conds := p.conds, links := p.links, logic := p.logic)
         && WhereOk(p)
       case UPDATE =>
         && p == New(UPDATE).(table := p.table, sets := p.sets, conds := p.conds, links := p.links, logic := p.logic)
         && (forall i | 0 <= i < |p.sets| :: SetOk(p.sets[i])) && WhereOk(p)
  }

  // ---------- lexemes and their tokens ----------

  lemma {:induction false} TokenAllConcat(a: seq<Lexeme>, b: seq<Lexeme>)
    ensures TokenAll(a + b) == TokenAll(a) + TokenAll(b)
  {
    if a == [] {
      assert a + b == b;
    } else {
      assert (a + b)[1..] == a[1..] + b;
      TokenAllConcat(a[1..], b);
    }
  }

  /** What may stand behind a word. */
  predicate Free(l: Lexeme) {
    !l.Word? && !l.Comment?
  }

  lemma Joined(a: seq<Lexeme>, b: seq<Lexeme>)
    requires Separate(a) && Separate(b) && (a != [] && b != [] ==> Junction(a[|a| - 1], b[0]))
    ensures Separate(a + b)
  {
    var c := a + b;
    forall i | 0 <= i < |c|
      ensures GoodLexeme(c[i]) && (i + 1 < |c| ==> Junction(c[i], c[i + 1]))
    {
      if i < |a| - 1 {
        assert c[i] == a[i] && c[i + 1] == a[i + 1];
      } else if i >= |a| {
        assert c[i] == b[i - |a|];
        assert i + 1 < |c| ==> c[i + 1] == b[i + 1 - |a|];
      }
    }
  }

  /** An item of a list: separate, and safe before a comma or parenthesis. */
  predicate Item(ls: seq<Lexeme>) {
    ls != [] && Separate(ls) && !(ls[|ls| - 1].Symbol? && ls[|ls| - 1].text != "" && Comparison(ls[|ls| - 1].text[0]))
  }

  lemma {:induction false} CommaListSeparate(items: seq<seq<Lexeme>>)
    requires forall i | 0 <= i < |items| :: Item(items[i])
    ensures Separate(CommaList(items))
    ensures items != [] ==> Item(CommaList(items)) && items[0] != [] && CommaList(items)[0] == items[0][0]
  {
    if |items| > 1 {
      var rest := items[1..];
      CommaListSeparate(rest);
      var tail := CommaList(rest);
      var comma := [Symbol(","), Blank];
      Joined(comma, tail);
      Joined(items[0], comma + tail);
    }
  }

  lemma {:induction false} CommaListTokens(items: seq<seq<Lexeme>>, tokens: seq<seq<string>>)
    requires |items| == |tokens| && forall i | 0 <= i < |items| :: TokenAll(items[i]) == tokens[i]
    ensures TokenAll(CommaList(items)) == JoinTokens(tokens)
  {
    if |items| > 1 {
      CommaListTokens(items[1..], tokens[1..]);
      var tail := CommaList(items[1..]);
      var comma := [Symbol(","), Blank];
      TokenAllConcat(comma, tail);
      TokenAllConcat(items[0], comma + tail);
      assert comma[1..] == [Blank] && TokenAll([Blank]) == [] && TokenAll(comma) == [","];
    }
  }

  // ---------- names and values ----------

  lemma ValueToken(v: string)
    requires ValueOk(v)
    ensures GoodLexeme(Value(v)) && TokenAll([Value(v)]) == [v]
  {
    assert [Value(v)][1..] == [];
    if !NeedsQuote(v) {
      assert forall i | 0 <= i < |v| :: v[i] != '-';
    }
  }

  // ---------- column definitions ----------

  function DefTokens(d: string): seq<string> {
    var n := Until(d, ' ');
    if n < |d| then [d[..n], d[n + 1..]] else [d]
  }

  function DefsTokens(defs: seq<string>): (r: seq<seq<string>>)
    ensures |r| == |defs| && forall i | 0 <= i < |r| :: r[i] == DefTokens(defs[i])
  {
    seq(|defs|, i requires 0 <= i < |defs| => DefTokens(defs[i]))
  }

  lemma DefItem(d: string)
    requires DefOk(d)
    ensures Item(DefLexemes(d)) && TokenAll(DefLexemes(d)) == DefTokens(d)
    ensures d == DefTokens(d)[0] + (" " + DefTokens(d)[1]) && DefTokens(d)[0] != ")"
  {
    var n := Until(d, ' ');
    TwoNames(d[..n], d[n + 1..]);
    SplitAt(d, n);
  }

  lemma TwoNames(a: string, b: string)
    requires IsName(a) && IsName(b)
    ensures
      var ls := [Word(a), Blank, Word(b)];
      Item(ls) && TokenAll(ls) == [a, b] && a != ")"
  {
    NameIsWord(a);
    NameIsWord(b);
    ThreeTokens(Word(a), Blank, Word(b));
  }

  lemma ThreeTokens(x: Lexeme, y: Lexeme, z: Lexeme)
    ensures TokenAll([x, y, z]) == TokenOf(x) + (TokenOf(y) + TokenOf(z))
  {
    assert [x, y, z][1..] == [y, z] && [y, z][1..] == [z] && [z][1..] == [];
    assert TokenAll([z]) == TokenOf(z);
  }

  // ---------- SELECT columns ----------

  lemma StarToken(s: string)
    requires IsName(s) || s == "*"
    ensures GoodLexeme(Star(s)) && TokenOf(Star(s)) == [s]
  {
    if IsName(s) {
      NameIsWord(s);
    }
  }

  lemma CallItem(f: string, a: string)
    requires IsName(f) && (IsName(a) || a == "*")
    ensures
      var ls := [Word(f), Symbol("("), Star(a), Symbol(")")];
      Item(ls) && TokenAll(ls) == [f, "(", a, ")"]
  {
    NameIsWord(f);
    StarToken(a);
    var ls := [Word(f), Symbol("("), Star(a), Symbol(")")];
    assert ls[1..] == [Symbol("("), Star(a), Symbol(")")];
    ThreeTokens(Symbol("("), Star(a), Symbol(")"));
    assert TokenAll(ls) == [f] + (["("] + ([a] + [")"]));
  }

  lemma ColumnItem(c: string)
    requires ColumnOk(c)
    ensures Item(ColumnLexemes(c)) && TokenAll(ColumnLexemes(c)) == ColumnTokens(c)
  {
    var n := Until(c, '(');
    if n == |c| {
      StarItem(c);
    } else {
      CallItem(c[..n], c[n + 1..|c| - 1]);
    }
  }

  lemma StarItem(c: string)
    requires IsName(c) || c == "*"
    ensures Item([Star(c)]) && TokenAll([Star(c)]) == [c]
  {
    StarToken(c);
    assert [Star(c)][1..] == [];
  }

  // ---------- SET lists ----------

  lemma SetItem(a: Assignment)
    requires SetOk(a)
    ensures Item(SetLexemes(a)) && TokenAll(SetLexemes(a)) == SetTokens(a)
  {
    NameIsWord(a.column);
    ValueToken(a.value);
    FiveTokens(Word(a.column), Symbol("="), Value(a.value));
  }

  lemma FiveTokens(x: Lexeme, y: Lexeme, z: Lexeme)
    ensures TokenAll([x, Blank, y, Blank, z]) == TokenOf(x) + (TokenOf(y) + TokenOf(z))
  {
    var ls := [x, Blank, y, Blank, z];
    assert ls[1..] == [Blank, y, Blank, z] && ls[1..][1..] == [y, Blank, z];
    ThreeTokens(y, Blank, z);
  }

  // ---------- WHERE ----------

  function PlainForm(c: Condition): CondForm {
    Plain(c.column, c.op, c.value)
  }

  function PlainForms(conds: seq<Condition>): (r: seq<CondForm>)
    ensures |r| == |conds| && forall i | 0 <= i < |r| :: r[i] == PlainForm(conds[i])
  {
    seq(|conds|, i requires 0 <= i < |conds| => PlainForm(conds[i]))
  }

  /** The printed WHERE part as it is written. */
  function WhereOf(p: Parsed): Option<WhereForm> {
    if p.conds == [] then None else Some(WhereForm("WHERE", PlainForms(p.conds), p.links))
  }

  lemma ConditionItem(c: Condition)
    requires ConditionOk(c)
    ensures Item(OneCondition(c)) && TokenAll(OneCondition(c)) == CondTokens(PlainForm(c))
  {
    NameIsWord(c.column);
    ValueToken(c.value);
    FiveTokens(Word(c.column), Op(c.op), Value(c.value));
  }

  lemma PlainTail(conds: seq<Condition>, links: seq<string>, i: nat)
    requires i + 1 < |conds| == |links| + 1
    ensures
      CondsTokens(PlainForms(conds[i..]), links[i..])
      == CondTokens(PlainForm(conds[i])) + ([links[i]] + CondsTokens(PlainForms(conds[i + 1..]), links[i + 1..]))
  {
    assert PlainForms(conds[i..])[1..] == PlainForms(conds[i + 1..]) && links[i..][1..] == links[i + 1..];
  }

  lemma {:induction false} ConditionsTokens(p: Parsed, i: nat)
    requires WhereOk(p) && i < |p.conds|
    ensures TokenAll(ConditionsFrom(p, i))
            == (if i > 0 then [p.links[i - 1]] else []) + CondsTokens(PlainForms(p.conds[i..]), p.links[i..])
    decreases |p.conds| - i
  {
    var one, rest := OneCondition(p.conds[i]), ConditionsFrom(p, i + 1);
    var link := if i > 0 then [Blank, Word(LinkAt(p, i - 1)), Blank] else [];
    ConditionItem(p.conds[i]);
    LinkTokens(p, i);
    TokenAllConcat(one, rest);
    TokenAllConcat(link, one + rest);
    if i + 1 < |p.conds| {
      ConditionsTokens(p, i + 1);
      PlainTail(p.conds, p.links, i);
    } else {
      assert p.links[i..] == [] && PlainForms(p.conds[i..]) == [PlainForm(p.conds[i])];
    }
  }

  lemma LinkTokens(p: Parsed, i: nat)
    requires WhereOk(p) && i < |p.conds|
    ensures
      var link := if i > 0 then [Blank, Word(LinkAt(p, i - 1)), Blank] else [];
      && TokenAll(link) == (if i > 0 then [p.links[i - 1]] else [])
      && Separate(link)
  {
    if i > 0 {
      LinkIs(p, i - 1);
      BetweenBlanks(p.links[i - 1]);
    }
  }

  lemma LinkIs(p: Parsed, i: nat)
    requires WhereOk(p) && i < |p.links|
    ensures LinkAt(p, i) == p.links[i] && IsWordText(p.links[i])
  {
  }

  lemma {:induction false} ConditionsSeparate(p: Parsed, i: nat)
    requires WhereOk(p) && i < |p.conds|
    ensures Item(ConditionsFrom(p, i)) && (i > 0 ==> ConditionsFrom(p, i)[0].Blank?)
    decreases |p.conds| - i
  {
    var one, rest := OneCondition(p.conds[i]), ConditionsFrom(p, i + 1);
    var link := if i > 0 then [Blank, Word(LinkAt(p, i - 1)), Blank] else [];
    ConditionItem(p.conds[i]);
    LinkTokens(p, i);
    if i + 1 < |p.conds| {
      ConditionsSeparate(p, i + 1);
    }
    JoinedItem(one, rest);
    JoinedItem(link, one + rest);
  }

  lemma JoinedItem(a: seq<Lexeme>, b: seq<Lexeme>)
    requires Separate(a) && (b == [] ==> Item(a)) && (b != [] ==> Item(b))
    requires a != [] && b != [] ==> Junction(a[|a| - 1], b[0])
    ensures Item(a + b) && (if a != [] then (a + b)[0] == a[0] else (a + b)[0] == b[0])
  {
    Joined(a, b);
    assert b == [] ==> a + b == a;
    assert b != [] ==> (a + b)[|a + b| - 1] == b[|b| - 1];
  }

  lemma WhereLexemesTokens(p: Parsed)
    requires WhereOk(p)
    ensures TokenAll(WhereLexemes(p)) == WhereTokens(WhereOf(p))
  {
    if p.conds != [] {
      AllConditionsTokens(p);
      WhereHead();
      TokenAllConcat([Blank, Word("WHERE"), Blank], ConditionsFrom(p, 0));
    }
  }

  lemma AllConditionsTokens(p: Parsed)
    requires WhereOk(p) && p.conds != []
    ensures TokenAll(ConditionsFrom(p, 0)) == CondsTokens(PlainForms(p.conds), p.links)
  {
    ConditionsTokens(p, 0);
    assert p.conds[0..] == p.conds && p.links[0..] == p.links;
  }

  lemma WhereHead()
    ensures TokenAll([Blank, Word("WHERE"), Blank]) == ["WHERE"]
  {
    ThreeTokens(Blank, Word("WHERE"), Blank);
  }

  lemma WhereLexemesSeparate(p: Parsed)
    requires WhereOk(p)
    ensures Separate(WhereLexemes(p)) && (p.conds != [] ==> Item(WhereLexemes(p)) && WhereLexemes(p)[0].Blank?)
  {
    if p.conds != [] {
      ConditionsSeparate(p, 0);
      JoinedItem([Blank, Word("WHERE"), Blank], ConditionsFrom(p, 0));
    }
  }

  /** The printed WHERE part means the conditions and links it was printed from. */
  lemma WhereOfMeans(p: Parsed, q: Parsed)
    requires WhereOk(p) && NoBetween(p.conds) && q.conds == [] && q.links == [] && q.logic == ""
    ensures OptionalFits(WhereOf(p))
    ensures WithConditions(q, WhereOf(p)) == q.(conds := p.conds, links := p.links, logic := p.logic)
  {
    forall i | 0 <= i < |p.conds|
      ensures CondFits(PlainForm(p.conds[i])) && CondMeant(PlainForm(p.conds[i])) == p.conds[i]
    {
      assert ConditionOk(p.conds[i]);
    }
    assert forall i | 0 <= i < |p.links| :: LinkMeant(p.links[i]) == p.links[i];
    if p.conds != [] {
      assert CondsMeant(PlainForms(p.conds)) == p.conds && LinksMeant(p.links) == p.links;
      LogicShared(p.links);
    }
  }

  // ---------- putting statements together ----------

  /** A list between a head that does not end in a word and a tail that does not start with one. */
  lemma Between(a: seq<Lexeme>, l: seq<Lexeme>, b: seq<Lexeme>)
    requires Item(a) && Item(b) && (l != [] ==> Item(l)) && !a[|a| - 1].Word? && Free(b[0])
    ensures Item(a + (l + b)) && (a + (l + b))[0] == a[0]
    ensures TokenAll(a + (l + b)) == TokenAll(a) + (TokenAll(l) + TokenAll(b))
  {
    JoinedItem(l, b);
    JoinedItem(a, l + b);
    TokenAllConcat(l, b);
    TokenAllConcat(a, l + b);
  }

  lemma EndOk()
    ensures Item(END) && TokenAll(END) == [";"]
    ensures Item(Closing()) && TokenAll(Closing()) == [")", ";"] && Free(Closing()[0])
  {
    assert END[1..] == [NewLine] && [NewLine][1..] == [];
    assert TokenAll([NewLine]) == [];
    assert ([Symbol(")")] + END)[1..] == END;
  }

  /** A head of two keywords, a table name and an opening parenthesis. */
  lemma OpenHead(a: string, b: string, table: string)
    requires IsWordText(a) && IsWordText(b) && IsName(table)
    ensures
      var h := Opening(a, b, table);
      Item(h) && TokenAll(h) == [a, b, table, "("] && !h[|h| - 1].Word?
  {
    NameIsWord(table);
    var h := Opening(a, b, table);
    var x, y := [Word(a), Blank, Word(b), Blank], [Word(table), Blank, Symbol("(")];
    assert h == x + y;
    TokenAllConcat(x, y);
    ThreeTokens(Word(table), Blank, Symbol("("));
    ThreeTokens(Blank, Word(b), Blank);
    assert x[1..] == [Blank, Word(b), Blank];
  }

  lemma CreateLexemes(p: Parsed)
    requires p.kind.CREATE? && IsName(p.table) && forall i | 0 <= i < |p.colDefs| :: DefOk(p.colDefs[i])
    ensures Separate(Lexemes(p))
    ensures TokenAll(Lexemes(p)) == ["CREATE", "TABLE", p.table, "("] + (JoinTokens(DefsTokens(p.colDefs)) + [")", ";"])
  {
    DefList(p.colDefs);
    CreateParts(p.table, CommaList(DefItems(p.colDefs)));
  }

  lemma CreateParts(table: string, l: seq<Lexeme>)
    requires IsName(table) && (l != [] ==> Item(l))
    ensures
      var all := Opening("CREATE", "TABLE", table) + (l + Closing());
      Separate(all) && TokenAll(all) == ["CREATE", "TABLE", table, "("] + (TokenAll(l) + [")", ";"])
  {
    CreateOpening(table);
    EndOk();
    Between(Opening("CREATE", "TABLE", table), l, Closing());
  }

  lemma CreateOpening(table: string)
    requires IsName(table)
    ensures
      var h := Opening("CREATE", "TABLE", table);
      Item(h) && TokenAll(h) == ["CREATE", "TABLE", table, "("] && !h[|h| - 1].Word?
  {
    OpenHead("CREATE", "TABLE", table);
  }

  lemma DefList(defs: seq<string>)
    requires forall i | 0 <= i < |defs| :: DefOk(defs[i])
    ensures
      var l := CommaList(DefItems(defs));
      (defs != [] ==> Item(l)) && (defs == [] ==> l == []) && TokenAll(l) == JoinTokens(DefsTokens(defs))
  {
    var items := DefItems(defs);
    forall i | 0 <= i < |items|
      ensures Item(items[i]) && TokenAll(items[i]) == DefsTokens(defs)[i]
    {
      DefItem(defs[i]);
    }
    CommaListSeparate(items);
    CommaListTokens(items, DefsTokens(defs));
  }

  /** Two lists in one statement. */
  lemma TwoLists(head: seq<Lexeme>, l: seq<Lexeme>, mid: seq<Lexeme>, r: seq<Lexeme>, close: seq<Lexeme>)
    requires Item(head) && Item(mid) && Item(close) && (l != [] ==> Item(l)) && (r != [] ==> Item(r))
    requires !head[|head| - 1].Word? && Free(mid[0]) && !mid[|mid| - 1].Word? && Free(close[0])
    ensures
      var all := head + (l + (mid + (r + close)));
      Separate(all) && TokenAll(all) == TokenAll(head) + (TokenAll(l) + (TokenAll(mid) + (TokenAll(r) + TokenAll(close))))
  {
    Between(mid, r, close);
    Between(head, l, mid + (r + close));
  }

  lemma InsertLexemes(p: Parsed)
    requires p.kind.INSERT? && IsName(p.table)
    requires (forall i | 0 <= i < |p.columns| :: IsName(p.columns[i])) && (forall i | 0 <= i < |p.values| :: ValueOk(p.values[i]))
    ensures Separate(Lexemes(p))
    ensures
      var cs, vs := JoinTokens(Singles(p.columns)), JoinTokens(Singles(p.values));
      TokenAll(Lexemes(p)) == ["INSERT", "INTO", p.table, "("] + (cs + ([")", "VALUES", "("] + (vs + [")", ";"])))
  {
    NameList(p.columns);
    ValueList(p.values);
    InsertParts(p.table, CommaList(NameItems(p.columns)), CommaList(ValueItems(p.values)));
  }

  lemma InsertParts(table: string, l: seq<Lexeme>, r: seq<Lexeme>)
    requires IsName(table) && (l != [] ==> Item(l)) && (r != [] ==> Item(r))
    ensures
      var all := Opening("INSERT", "INTO", table) + (l + (ValuesPart() + (r + Closing())));
      && Separate(all)
      && TokenAll(all) == ["INSERT", "INTO", table, "("] + (TokenAll(l) + ([")", "VALUES", "("] + (TokenAll(r) + [")", ";"])))
  {
    InsertOpening(table);
    EndOk();
    MidTokens();
    TwoLists(Opening("INSERT", "INTO", table), l, ValuesPart(), r, Closing());
  }

  lemma InsertOpening(table: string)
    requires IsName(table)
    ensures
      var h := Opening("INSERT", "INTO", table);
      Item(h) && TokenAll(h) == ["INSERT", "INTO", table, "("] && !h[|h| - 1].Word?
  {
    OpenHead("INSERT", "INTO", table);
  }

  lemma MidTokens()
    ensures
      var mid := ValuesPart();
      Item(mid) && TokenAll(mid) == [")", "VALUES", "("] && Free(mid[0]) && !mid[|mid| - 1].Word?
  {
    FiveTokens(Symbol(")"), Word("VALUES"), Symbol("("));
    MidItem();
  }

  lemma MidItem()
    ensures Item(ValuesPart())
  {
    assert IsWordText("VALUES");
    Joined([Symbol(")"), Blank], [Word("VALUES"), Blank, Symbol("(")]);
    assert ValuesPart() == [Symbol(")"), Blank] + [Word("VALUES"), Blank, Symbol("(")];
  }

  lemma NameList(names: seq<string>)
    requires forall i | 0 <= i < |names| :: IsName(names[i])
    ensures
      var l := CommaList(NameItems(names));
      (names != [] ==> Item(l)) && (names == [] ==> l == []) && TokenAll(l) == JoinTokens(Singles(names))
    ensures forall i | 0 <= i < |names| :: names[i] != ")"
  {
    var items := NameItems(names);
    forall i | 0 <= i < |names|
      ensures Item(items[i]) && TokenAll(items[i]) == [names[i]] && names[i] != ")"
    {
      NameIsWord(names[i]);
      assert items[i][1..] == [];
    }
    CommaListSeparate(items);
    CommaListTokens(items, Singles(names));
  }

  lemma ValueList(values: seq<string>)
    requires forall i | 0 <= i < |values| :: ValueOk(values[i])
    ensures
      var l := CommaList(ValueItems(values));
      (values != [] ==> Item(l)) && (values == [] ==> l == []) && TokenAll(l) == JoinTokens(Singles(values))
  {
    var items := ValueItems(values);
    forall i | 0 <= i < |values|
      ensures Item(items[i]) && TokenAll(items[i]) == [values[i]]
    {
      ValueToken(values[i]);
    }
    CommaListSeparate(items);
    CommaListTokens(items, Singles(values));
  }

  lemma TableHead(a: string, b: string, table: string)
    requires IsWordText(a) && IsWordText(b) && IsName(table)
    ensures
      var h := [Word(a), Blank, Word(b), Blank, Word(table)];
      Item(h) && TokenAll(h) == [a, b, table]
  {
    NameIsWord(table);
    FiveTokens(Word(a), Word(b), Word(table));
  }

  lemma WhereEnd(p: Parsed)
    requires WhereOk(p)
    ensures
      var ls := WhereLexemes(p) + END;
      Item(ls) && Free(ls[0]) && TokenAll(ls) == WhereTokens(WhereOf(p)) + [";"]
  {
    EndOk();
    WhereLexemesTokens(p);
    WhereLexemesSeparate(p);
    JoinedItem(WhereLexemes(p), END);
    TokenAllConcat(WhereLexemes(p), END);
  }

  lemma SetListLexemes(sets: seq<Assignment>)
    requires forall i | 0 <= i < |sets| :: SetOk(sets[i])
    ensures
      var l := CommaList(SetItems(sets));
      (sets != [] ==> Item(l)) && (sets == [] ==> l == []) && TokenAll(l) == JoinTokens(SetsTokens(sets))
  {
    var items := SetItems(sets);
    forall i | 0 <= i < |items|
      ensures Item(items[i]) && TokenAll(items[i]) == SetsTokens(sets)[i]
    {
      SetItem(sets[i]);
    }
    CommaListSeparate(items);
    CommaListTokens(items, SetsTokens(sets));
  }

  lemma UpdateHead(table: string)
    requires IsName(table)
    ensures
      var h := [Word("UPDATE"), Blank, Word(table), Blank, Word("SET"), Blank];
      Item(h) && TokenAll(h) == ["UPDATE", table, "SET"]
  {
    NameIsWord(table);
    VerbNameWord("UPDATE", table, "SET");
  }

  lemma VerbNameWord(verb: string, table: string, word: string)
    requires IsWordText(verb) && IsWordText(table) && IsWordText(word)
    ensures
      var h := [Word(verb), Blank, Word(table), Blank, Word(word), Blank];
      Item(h) && TokenAll(h) == [verb, table, word]
  {
    var x, y := [Word(verb), Blank, Word(table)], [Blank, Word(word), Blank];
    assert x + y == [Word(verb), Blank, Word(table), Blank, Word(word), Blank];
    VerbAndName(verb, table);
    BetweenBlanks(word);
    JoinedItem(x, y);
    TokenAllConcat(x, y);
  }

  lemma VerbAndName(verb: string, table: string)
    requires IsWordText(verb) && IsWordText(table)
    ensures
      var x := [Word(verb), Blank, Word(table)];
      Item(x) && TokenAll(x) == [verb, table]
  {
    ThreeTokens(Word(verb), Blank, Word(table));
  }

  lemma BetweenBlanks(word: string)
    requires IsWordText(word)
    ensures
      var y := [Blank, Word(word), Blank];
      Item(y) && TokenAll(y) == [word]
  {
    ThreeTokens(Blank, Word(word), Blank);
  }

  // ---------- SELECT ----------

  lemma SelectHead()
    ensures
      var h := [Word("SELECT"), Blank];
      Item(h) && TokenAll(h) == ["SELECT"] && !h[|h| - 1].Word?
  {
    assert [Word("SELECT"), Blank][1..] == [Blank] && [Blank][1..] == [];
    assert TokenAll([Blank]) == [];
  }

  lemma FromPart(table: string)
    requires IsName(table)
    ensures
      var h := [Blank, Word("FROM"), Blank, Word(table)];
      Item(h) && TokenAll(h) == ["FROM", table] && Free(h[0])
  {
    NameIsWord(table);
    var h := [Blank, Word("FROM"), Blank, Word(table)];
    assert h[1..] == [Word("FROM"), Blank, Word(table)];
    ThreeTokens(Word("FROM"), Blank, Word(table));
  }

  lemma ColumnList(columns: seq<string>)
    requires forall i | 0 <= i < |columns| :: ColumnOk(columns[i])
    ensures
      var l := CommaList(ColumnItems(columns));
      (columns != [] ==> Item(l)) && (columns == [] ==> l == []) && TokenAll(l) == JoinTokens(ColumnsTokens(columns))
  {
    var items := ColumnItems(columns);
    forall i | 0 <= i < |items|
      ensures Item(items[i]) && TokenAll(items[i]) == ColumnsTokens(columns)[i]
    {
      ColumnItem(columns[i]);
    }
    CommaListSeparate(items);
    CommaListTokens(items, ColumnsTokens(columns));
  }

  function OrderOf(o: Option<Ordering>): Option<OrderForm> {
    match o
    case None => None
    case Some(x) => Some(OrderForm("ORDER", "BY", x.column, if x.asc then Ascending("ASC") else Descending("DESC")))
  }

  lemma OrderOkLexemes(p: Parsed)
    requires OrderOk(p.order)
    ensures TokenAll(OrderLexemes(p)) == OrderTokens(OrderOf(p.order)) && OrderFits(OrderOf(p.order))
    ensures p.order.Some? ==> Item(OrderLexemes(p)) && OrderLexemes(p)[0].Blank?
  {
    match p.order
    case None =>
    case Some(o) =>
      NameIsWord(o.column);
      OrderWords(o.column, if o.asc then "ASC" else "DESC");
  }

  lemma OrderWords(column: string, dir: string)
    requires IsWordText(column) && (dir == "ASC" || dir == "DESC")
    ensures
      var ls := [Blank, Word("ORDER"), Blank, Word("BY"), Blank, Word(column), Blank, Word(dir)];
      Item(ls) && TokenAll(ls) == ["ORDER", "BY", column, dir]
  {
    FourWords("ORDER", "BY", column, dir);
  }

  lemma FourWords(a: string, b: string, c: string, d: string)
    requires IsWordText(a) && IsWordText(b) && IsWordText(c) && IsWordText(d)
    ensures
      var ls := [Blank, Word(a), Blank, Word(b), Blank, Word(c), Blank, Word(d)];
      Item(ls) && TokenAll(ls) == [a, b, c, d]
  {
    var x, y := [Blank, Word(a), Blank, Word(b)], [Blank, Word(c), Blank, Word(d)];
    assert [Blank, Word(a), Blank, Word(b), Blank, Word(c), Blank, Word(d)] == x + y;
    TwoWords(a, b);
    TwoWords(c, d);
    JoinedItem(x, y);
    TokenAllConcat(x, y);
  }

  lemma TwoWords(a: string, b: string)
    requires IsWordText(a) && IsWordText(b)
    ensures
      var ls := [Blank, Word(a), Blank, Word(b)];
      Item(ls) && TokenAll(ls) == [a, b]
  {
    assert [Blank, Word(a), Blank, Word(b)][1..] == [Word(a), Blank, Word(b)];
    ThreeTokens(Word(a), Blank, Word(b));
  }

  function LimitOf(limit: int): Option<LimitForm> {
    if limit >= 0 then Some(LimitForm("LIMIT", Digits(limit), limit)) else None
  }

  lemma LimitOkLexemes(p: Parsed)
    ensures TokenAll(LimitLexemes(p)) == LimitTokens(LimitOf(p.limit)) && LimitFits(LimitOf(p.limit))
    ensures p.limit >= 0 ==> Item(LimitLexemes(p)) && LimitLexemes(p)[0].Blank?
  {
    if p.limit >= 0 {
      ReadPrinted(p.limit);
      LeadingNumberExactly(Digits(p.limit), p.limit);
      DecimalOfDigits(p.limit);
      LimitWords(Digits(p.limit));
    }
  }

  lemma LimitWords(count: string)
    requires AllDigits(count)
    ensures
      var ls := [Blank, Word("LIMIT"), Blank, Word(count)];
      Item(ls) && TokenAll(ls) == ["LIMIT", count]
  {
    assert forall i | 0 <= i < |count| :: IsDigit(count[i]);
    TwoWords("LIMIT", count);
  }

  /** A part that starts with a blank may stand behind anything that is an item. */
  lemma Behind(a: seq<Lexeme>, b: seq<Lexeme>)
    requires (a != [] ==> Item(a) && a[0].Blank?) && Item(b) && Free(b[0])
    ensures Item(a + b) && Free((a + b)[0]) && TokenAll(a + b) == TokenAll(a) + TokenAll(b)
  {
    JoinedItem(a, b);
    TokenAllConcat(a, b);
    assert a == [] ==> a + b == b;
  }

  /** The parts of a SELECT behind the table, with the lexemes order for ORDER BY. */
  lemma TailLexemes(p: Parsed, order: seq<Lexeme>, o: Option<OrderForm>)
    requires WhereOk(p) && TokenAll(order) == OrderTokens(o) && (order != [] ==> Item(order) && order[0].Blank?)
    ensures
      var tail := WhereLexemes(p) + (order + (LimitLexemes(p) + END));
      Item(tail) && Free(tail[0])
      && TokenAll(tail) == WhereTokens(WhereOf(p)) + (OrderTokens(o) + (LimitTokens(LimitOf(p.limit)) + [";"]))
  {
    EndOk();
    WhereLexemesTokens(p);
    WhereLexemesSeparate(p);
    LimitOkLexemes(p);
    Behind(LimitLexemes(p), END);
    Behind(order, LimitLexemes(p) + END);
    Behind(WhereLexemes(p), order + (LimitLexemes(p) + END));
  }

  lemma ThreeParts(head: seq<Lexeme>, l: seq<Lexeme>, from: seq<Lexeme>, tail: seq<Lexeme>)
    requires Item(head) && Item(from) && Item(tail) && (l != [] ==> Item(l))
    requires !head[|head| - 1].Word? && Free(from[0]) && Free(tail[0])
    ensures
      var all := head + (l + (from + tail));
      Separate(all) && TokenAll(all) == TokenAll(head) + (TokenAll(l) + (TokenAll(from) + TokenAll(tail)))
  {
    JoinedItem(from, tail);
    TokenAllConcat(from, tail);
    Between(head, l, from + tail);
  }

  lemma SelectParts(table: string, l: seq<Lexeme>, tail: seq<Lexeme>)
    requires IsName(table) && (l != [] ==> Item(l)) && Item(tail) && Free(tail[0])
    ensures
      var all := [Word("SELECT"), Blank] + (l + ([Blank, Word("FROM"), Blank, Word(table)] + tail));
      Separate(all) && TokenAll(all) == ["SELECT"] + (TokenAll(l) + (["FROM", table] + TokenAll(tail)))
  {
    SelectHead();
    FromPart(table);
    ThreeParts([Word("SELECT"), Blank], l, [Blank, Word("FROM"), Blank, Word(table)], tail);
  }

  /** The printed SELECT, with the lexemes order for ORDER BY. */
  function SelectText(p: Parsed, order: seq<Lexeme>): seq<Lexeme> {
    [Word("SELECT"), Blank]
    + (CommaList(ColumnItems(p.columns))
       + ([Blank, Word("FROM"), Blank, Word(p.table)] + (WhereLexemes(p) + (order + (LimitLexemes(p) + END)))))
  }

  lemma SelectLexemes(p: Parsed, order: seq<Lexeme>, o: Option<OrderForm>)
    requires Normal(p) && p.kind.SELECT?
    requires TokenAll(order) == OrderTokens(o) && (order != [] ==> Item(order) && order[0].Blank?)
    ensures Separate(SelectText(p, order))
    ensures
      TokenAll(SelectText(p, order))
      == ["SELECT"] + (JoinTokens(ColumnsTokens(p.columns))
                       + (["FROM", p.table]
                          + (WhereTokens(WhereOf(p)) + (OrderTokens(o) + (LimitTokens(LimitOf(p.limit)) + [";"])))))
  {
    ColumnList(p.columns);
    TailLexemes(p, order, o);
    SelectParts(p.table, CommaList(ColumnItems(p.columns)), WhereLexemes(p) + (order + (LimitLexemes(p) + END)));
  }

  // ---------- the printed statement as it is written ----------

  /** How the printer writes a statement. */
  function FormOf(p: Parsed): Form
    requires !p.kind.UNKNOWN?
  {
    match p.kind
    case CREATE => CreateForm("CREATE", "TABLE", p.table, p.colDefs, DefsTokens(p.colDefs), [";"])
    case INSERT => InsertForm("INSERT", "INTO", p.table, p.columns, "VALUES", p.values, [";"])
    case SELECT =>
      SelectForm("SELECT", p.columns, "FROM", p.table, WhereOf(p), OrderOf(p.order), LimitOf(p.limit), [";"])
    case DELETE => DeleteForm("DELETE", "FROM", p.table, WhereOf(p), [";"])
    case UPDATE => UpdateForm("UPDATE", p.table, "SET", p.sets, WhereOf(p), [";"])
  }

  lemma CreateForms(p: Parsed)
    requires Normal(p) && p.kind.CREATE?
    ensures Written(FormOf(p)) && Meant(FormOf(p)) == p && Separate(Lexemes(p)) && TokenAll(Lexemes(p)) == Spelt(FormOf(p))
  {
    CreateLexemes(p);
    CreateMeans(p);
    ClosedBy();
  }

  lemma ClosedBy()
    ensures [")"] + [";"] == [")", ";"]
  {
  }

  lemma CreateMeans(p: Parsed)
    requires Normal(p) && p.kind.CREATE?
    ensures Written(FormOf(p)) && Meant(FormOf(p)) == p
    ensures Spelt(FormOf(p)) == ["CREATE", "TABLE", p.table, "("] + (JoinTokens(DefsTokens(p.colDefs)) + ([")"] + [";"]))
  {
    forall i | 0 <= i < |p.colDefs|
      ensures TwoTokens(p.colDefs[i], DefsTokens(p.colDefs)[i])
    {
      DefItem(p.colDefs[i]);
    }
  }

  lemma InsertForms(p: Parsed)
    requires Normal(p) && p.kind.INSERT?
    ensures Written(FormOf(p)) && Meant(FormOf(p)) == p && Separate(Lexemes(p)) && TokenAll(Lexemes(p)) == Spelt(FormOf(p))
  {
    InsertLexemes(p);
    InsertMeans(p);
    ClosedBy();
  }

  lemma InsertMeans(p: Parsed)
    requires Normal(p) && p.kind.INSERT?
    ensures Written(FormOf(p)) && Meant(FormOf(p)) == p
    ensures
      var cs, vs := JoinTokens(Singles(p.columns)), JoinTokens(Singles(p.values));
      Spelt(FormOf(p)) == ["INSERT", "INTO", p.table, "("] + (cs + ([")", "VALUES", "("] + (vs + ([")"] + [";"]))))
  {
    NameList(p.columns);
  }

  lemma SelectForms(p: Parsed, order: seq<Lexeme>, o: Option<OrderForm>)
    requires Normal(p) && NoBetween(p.conds) && p.kind.SELECT? && OrderFits(o) && WithOrder(New(SELECT), o).order == p.order
    requires TokenAll(order) == OrderTokens(o) && (order != [] ==> Item(order) && order[0].Blank?)
    ensures
      var f := SelectForm("SELECT", p.columns, "FROM", p.table, WhereOf(p), o, LimitOf(p.limit), [";"]);
      && Written(f) && Meant(f) == p && Separate(SelectText(p, order)) && TokenAll(SelectText(p, order)) == Spelt(f)
  {
    SelectLexemes(p, order, o);
    SelectMeans(p, o);
  }

  lemma SelectMeans(p: Parsed, o: Option<OrderForm>)
    requires Normal(p) && NoBetween(p.conds) && p.kind.SELECT? && OrderFits(o) && WithOrder(New(SELECT), o).order == p.order
    ensures
      var f := SelectForm("SELECT", p.columns, "FROM", p.table, WhereOf(p), o, LimitOf(p.limit), [";"]);
      Written(f) && Meant(f) == p
  {
    LimitOkLexemes(p);
    WhereOfMeans(p, New(SELECT).(table := p.table, columns := p.columns));
  }

  lemma DeleteLexemes(p: Parsed)
    requires Normal(p) && p.kind.DELETE?
    ensures Separate(Lexemes(p)) && TokenAll(Lexemes(p)) == ["DELETE", "FROM", p.table] + (WhereTokens(WhereOf(p)) + [";"])
  {
    var head := [Word("DELETE"), Blank, Word("FROM"), Blank, Word(p.table)];
    TableHead("DELETE", "FROM", p.table);
    WhereEnd(p);
    JoinedItem(head, WhereLexemes(p) + END);
    TokenAllConcat(head, WhereLexemes(p) + END);
  }

  lemma DeleteForms(p: Parsed)
    requires Normal(p) && NoBetween(p.conds) && p.kind.DELETE?
    ensures Written(FormOf(p)) && Meant(FormOf(p)) == p && Separate(Lexemes(p)) && TokenAll(Lexemes(p)) == Spelt(FormOf(p))
  {
    DeleteLexemes(p);
    WhereOfMeans(p, New(DELETE).(table := p.table));
  }

  lemma UpdateLexemes(p: Parsed)
    requires Normal(p) && p.kind.UPDATE?
    ensures Separate(Lexemes(p))
    ensures TokenAll(Lexemes(p)) == ["UPDATE", p.table, "SET"] + (JoinTokens(SetsTokens(p.sets)) + (WhereTokens(WhereOf(p)) + [";"]))
  {
    SetListLexemes(p.sets);
    WhereEnd(p);
    UpdateHead(p.table);
    Between([Word("UPDATE"), Blank, Word(p.table), Blank, Word("SET"), Blank], CommaList(SetItems(p.sets)), WhereLexemes(p) + END);
  }

  lemma UpdateForms(p: Parsed)
    requires Normal(p) && NoBetween(p.conds) && p.kind.UPDATE?
    ensures Written(FormOf(p)) && Meant(FormOf(p)) == p && Separate(Lexemes(p)) && TokenAll(Lexemes(p)) == Spelt(FormOf(p))
  {
    UpdateLexemes(p);
    WhereOfMeans(p, New(UPDATE).(table := p.table, sets := p.sets));
  }

  /** A normal statement is printed as lexemes the tokenizer can tell apart, which spell a form that means it. */
  lemma StatementBack(p: Parsed)
    requires Normal(p) && NoBetween(p.conds)
    ensures Written(FormOf(p)) && Meant(FormOf(p)) == p && Separate(Lexemes(p)) && TokenAll(Lexemes(p)) == Spelt(FormOf(p))
  {
    match p.kind
    case CREATE => CreateForms(p);
    case INSERT => InsertForms(p);
    case SELECT =>
      OrderOkLexemes(p);
      SelectForms(p, OrderLexemes(p), OrderOf(p.order));
    case DELETE => DeleteForms(p);
    case UPDATE => UpdateForms(p);
    case UNKNOWN =>
  }

  // ---------- other ways of writing ----------

  /** ORDER BY without a direction is ascending: the printed text with its ASC left out means the same. */
  lemma AscendingUnsaid(p: Parsed)
    requires Normal(p) && NoBetween(p.conds) && p.kind.SELECT? && p.order.Some? && p.order.value.asc
    ensures
      var order := [Blank, Word("ORDER"), Blank, Word("BY"), Blank, Word(p.order.value.column)];
      ParseSql(TextAll(SelectText(p, order))) == Some(p)
  {
    var column := p.order.value.column;
    var order := [Blank, Word("ORDER"), Blank, Word("BY"), Blank, Word(column)];
    var o := Some(OrderForm("ORDER", "BY", column, Unsaid));
    NameIsWord(column);
    ThreeWords("ORDER", "BY", column);
    SelectForms(p, order, o);
    TextIsParsed(SelectText(p, order), SelectForm("SELECT", p.columns, "FROM", p.table, WhereOf(p), o, LimitOf(p.limit), [";"]));
  }

  lemma ThreeWords(a: string, b: string, c: string)
    requires IsWordText(a) && IsWordText(b) && IsWordText(c)
    ensures
      var ls := [Blank, Word(a), Blank, Word(b), Blank, Word(c)];
      Item(ls) && TokenAll(ls) == [a, b, c]
  {
    var x, y := [Blank, Word(a), Blank, Word(b)], [Blank, Word(c)];
    assert [Blank, Word(a), Blank, Word(b), Blank, Word(c)] == x + y;
    TwoWords(a, b);
    assert y[1..] == [Word(c)] && [Word(c)][1..] == [] && TokenAll([Word(c)]) == [c];
    JoinedItem(x, y);
    TokenAllConcat(x, y);
  }

  /** A comment line before a text changes nothing. */
  lemma CommentBefore(text: string, c: string)
    requires forall i | 0 <= i < |c| :: c[i] != '\n'
    ensures ParseSql("--" + (c + "\n") + text) == ParseSql(text)
  {
    CommentLexeme(c, text);
  }

  /** Nor does one behind a statement, with or without a line end. */
  lemma CommentBehind(ls: seq<Lexeme>, text: string, c: string, closed: string)
    requires Separate(ls) && ls != [] && !ls[|ls| - 1].Word? && text == TextAll(ls)
    requires (forall i | 0 <= i < |c| :: c[i] != '\n') && closed == Text(Comment(c))
    ensures ParseSql(text + ("--" + c)) == ParseSql(text) == ParseSql(text + closed)
  {
    TokensOfText(ls);
    CommentLast(ls, c);
    SameTokens(text, text + ("--" + c));
    SameTokens(text, text + closed);
  }

  lemma SameTokens(a: string, b: string)
    requires Tokens(a) == Tokens(b)
    ensures ParseSql(a) == ParseSql(b)
  {
  }

  // ---------- BETWEEN, whose upper bound is not printed ----------

  /** The first BETWEEN. */
  predicate FirstBetween(conds: seq<Condition>, k: nat) {
    k < |conds| && conds[k].op == "BETWEEN" && NoBetween(conds[..k])
  }

  lemma BetweenAt(conds: seq<Condition>) returns (k: nat)
    requires !NoBetween(conds)
    ensures FirstBetween(conds, k)
  {
    k := 0;
    while conds[k].op != "BETWEEN"
      invariant k < |conds| && NoBetween(conds[..k])
      decreases |conds| - k
    {
      k := k + 1;
    }
  }

  /** Without an upper bound the condition is kept as it is, and two tokens are passed over; where a link follows, it is
      taken for the AND of the condition, if it is one, and the loop ends either way. */
  lemma BetweenRead(c: Condition, ts: seq<string>)
    requires ConditionOk(c) && c.op == "BETWEEN"
    ensures !At(ts, "AND") ==> Conditions(CondTokens(PlainForm(c)) + ts) == ([c.(valueTo := "")], [], Rest(ts, 2))
    ensures |ts| >= 3 && !AtLink(ts[2..]) ==> |Conditions(CondTokens(PlainForm(c)) + ts).0| == 1
  {
    var all := CondTokens(PlainForm(c)) + ts;
    assert all[0] == c.column && all[1] == "BETWEEN" && all[2] == c.value;
    assert Rest(all, 5) == Rest(ts, 2);
    assert ts != [] ==> all[3] == ts[0];
    assert |ts| >= 2 ==> all[5..] == ts[2..];
  }

  /** What the parser makes of printed conditions: it ends with the first BETWEEN. */
  lemma {:induction false} ConditionsRead(conds: seq<Condition>, links: seq<string>, k: nat, rest: seq<string>)
    requires |conds| == |links| + 1 && (forall i | 0 <= i < |conds| :: ConditionOk(conds[i]))
    requires (forall i | 0 <= i < |links| :: links[i] == "AND" || links[i] == "OR") && FirstBetween(conds, k) && !At(rest, "AND")
    ensures
      var r := Conditions(CondsTokens(PlainForms(conds), links) + rest);
      && |r.0| == k + 1
      && (k == |conds| - 1 ==> r == (conds[..k] + [conds[k].(valueTo := "")], links, Rest(rest, 2)))
    decreases |conds|
  {
    if |conds| == 1 {
      BetweenRead(conds[0], rest);
      assert conds[..k] + [conds[k].(valueTo := "")] == [conds[0].(valueTo := "")] && links == [];
    } else {
      var tail := CondsTokens(PlainForms(conds[1..]), links[1..]);
      assert PlainForms(conds)[1..] == PlainForms(conds[1..]);
      Chain([links[0]], tail, rest);
      Chain(CondTokens(PlainForm(conds[0])), [links[0]] + tail, rest);
      if k == 0 {
        NextOperator(conds[1..], links[1..], rest);
        SecondBehind(links[0], tail + rest);
        LinkTaken(conds[0], [links[0]] + (tail + rest));
      } else {
        LaterBetween(conds, k);
        ConditionsRead(conds[1..], links[1..], k - 1, rest);
        PlainBefore(conds[0], links[0], tail + rest);
        assert [links[0]] + links[1..] == links;
      }
    }
  }

  lemma PlainBefore(c: Condition, link: string, next: seq<string>)
    requires ConditionOk(c) && c.op != "BETWEEN" && (link == "AND" || link == "OR")
    ensures
      var more := Conditions(next);
      Conditions(CondTokens(PlainForm(c)) + ([link] + next)) == ([c] + more.0, [link] + more.1, more.2)
  {
    CondStep(PlainForm(c), link, next);
  }

  lemma LaterBetween(conds: seq<Condition>, k: nat)
    requires FirstBetween(conds, k) && k > 0
    ensures FirstBetween(conds[1..], k - 1) && conds[0].op != "BETWEEN"
    ensures [conds[0]] + (conds[1..][..k - 1] + [conds[k].(valueTo := "")]) == conds[..k] + [conds[k].(valueTo := "")]
  {
    assert conds[..k][0] == conds[0] && conds[1..][..k - 1] == conds[..k][1..];
    NoBetweenTail(conds[..k]);
  }

  lemma NoBetweenTail(conds: seq<Condition>)
    requires NoBetween(conds) && conds != []
    ensures NoBetween(conds[1..])
  {
  }

  lemma SecondBehind(link: string, next: seq<string>)
    requires |next| >= 2
    ensures |[link] + next| >= 3 && ([link] + next)[2..] == next[1..]
  {
  }

  lemma LinkTaken(c: Condition, ts: seq<string>)
    requires ConditionOk(c) && c.op == "BETWEEN" && |ts| >= 3 && !AtLink(ts[2..])
    ensures |Conditions(CondTokens(PlainForm(c)) + ts).0| == 1
  {
    BetweenRead(c, ts);
  }

  lemma NextOperator(conds: seq<Condition>, links: seq<string>, rest: seq<string>)
    requires |conds| == |links| + 1 && ConditionOk(conds[0])
    ensures
      var ts := CondsTokens(PlainForms(conds), links) + rest;
      |ts| >= 2 && !AtLink(ts[1..])
  {
    var ts := CondsTokens(PlainForms(conds), links) + rest;
    assert ts[1..][0] == conds[0].op;
    NoLink(conds[0].op);
  }

  lemma NoLink(op: string)
    requires op in {"=", "!=", ">", "<", ">=", "<=", "LIKE", "BETWEEN"}
    ensures !SameName(op, "AND") && !SameName(op, "OR")
  {
    if |op| == 2 {
      Differ(op, "OR", 0);
    }
  }

  lemma WhereRead(p: Parsed, q: Parsed, k: nat, rest: seq<string>)
    requires WhereOk(p) && FirstBetween(p.conds, k) && !At(rest, "AND")
    ensures
      var w := OptionalWhere(q, WhereTokens(WhereOf(p)) + rest);
      && |w.0.conds| == k + 1
      && (k == |p.conds| - 1 ==>
            w == (q.(conds := p.conds[..k] + [p.conds[k].(valueTo := "")], links := p.links, logic := p.logic), Rest(rest, 2)))
  {
    var ts := CondsTokens(PlainForms(p.conds), p.links);
    Chain(["WHERE"], ts, rest);
    assert (["WHERE"] + (ts + rest))[1..] == ts + rest;
    ConditionsRead(p.conds, p.links, k, rest);
  }

  /** A BETWEEN comes back only as the last condition, without an upper bound, and with nothing behind WHERE. */
  predicate ComesBack(p: Parsed) {
    forall i | 0 <= i < |p.conds| && p.conds[i].op == "BETWEEN" ::
      i == |p.conds| - 1 && p.conds[i].valueTo == "" && p.order.None? && p.limit < 0
  }

  /** The condition of ComesBack at the first BETWEEN, which decides. */
  lemma ComesBackAt(p: Parsed, k: nat)
    requires FirstBetween(p.conds, k)
    ensures ComesBack(p) <==> k == |p.conds| - 1 && p.conds[k].valueTo == "" && p.order.None? && p.limit < 0
    ensures k == |p.conds| - 1 ==>
              (p.conds[..k] + [p.conds[k].(valueTo := "")] == p.conds <==> p.conds[k].valueTo == "")
  {
    forall i | 0 <= i < k
      ensures p.conds[i].op != "BETWEEN"
    {
      assert p.conds[i] == p.conds[..k][i];
    }
    if k == |p.conds| - 1 {
      assert (p.conds[..k] + [p.conds[k].(valueTo := "")])[k].valueTo == "";
      assert p.conds[k].valueTo == "" ==> p.conds[k].(valueTo := "") == p.conds[k];
    }
  }

  lemma DeleteRead(p: Parsed, k: nat)
    requires Normal(p) && p.kind.DELETE? && FirstBetween(p.conds, k)
    ensures ParseSql(Print(p)) == Some(p) <==> ComesBack(p)
  {
    var q, body := New(DELETE).(table := p.table), WhereTokens(WhereOf(p)) + [";"];
    DeleteLexemes(p);
    TokensOfText(Lexemes(p));
    SecondAndThird("DELETE", "FROM", p.table, body);
    Opened("DELETE", "DELETE", ["FROM", p.table] + body, Tokens(Print(p)));
    DeleteBody("FROM", p.table, body, ["FROM", p.table] + body);
    WhereRead(p, q, k, [";"]);
    ComesBackAt(p, k);
  }

  lemma UpdateRead(p: Parsed, k: nat)
    requires Normal(p) && p.kind.UPDATE? && FirstBetween(p.conds, k)
    ensures ParseSql(Print(p)) == Some(p) <==> ComesBack(p)
  {
    var q, body := New(UPDATE).(table := p.table, sets := p.sets), WhereTokens(WhereOf(p)) + [";"];
    UpdateTokens(p, body);
    WhereRead(p, q, k, [";"]);
    ComesBackAt(p, k);
  }

  lemma UpdateTokens(p: Parsed, body: seq<string>)
    requires Normal(p) && p.kind.UPDATE? && p.conds != [] && body == WhereTokens(WhereOf(p)) + [";"]
    ensures ParseSql(Print(p)) == Some(OptionalWhere(New(UPDATE).(table := p.table, sets := p.sets), body).0)
  {
    var list := JoinTokens(SetsTokens(p.sets)) + body;
    UpdateLexemes(p);
    TokensOfText(Lexemes(p));
    SecondAndThird("UPDATE", p.table, "SET", list);
    Opened("UPDATE", "UPDATE", [p.table, "SET"] + list, Tokens(Print(p)));
    UpdateBody(p.table, "SET", p.sets, body, [p.table, "SET"] + list);
  }

  lemma SecondAndThird(x: string, y: string, z: string, list: seq<string>)
    ensures [x, y, z] + list == [x] + ([y, z] + list)
  {
  }

  /** What follows WHERE in a SELECT, with two tokens of it passed over. */
  lemma BehindRead(p: Parsed, q: Parsed)
    requires OrderOk(p.order) && p.limit >= -1 && q.order == None && q.limit == -1
    ensures
      var rest := OrderTokens(OrderOf(p.order)) + (LimitTokens(LimitOf(p.limit)) + [";"]);
      var o := OptionalOrder(q, Rest(rest, 2));
      var r := OptionalLimit(o.0, o.1);
      && !At(rest, "AND")
      && (r.order == p.order && r.limit == p.limit <==> p.order.None? && p.limit < 0)
      && (p.order.None? && p.limit < 0 ==> r == q)
  {
    var limit := LimitTokens(LimitOf(p.limit)) + [";"];
    var rest := OrderTokens(OrderOf(p.order)) + limit;
    match p.order
    case None =>
      assert rest == limit;
      if p.limit >= 0 {
        assert Rest(rest, 2) == [";"];
        LimitStops();
      } else {
        assert Rest(rest, 2) == [];
      }
    case Some(o) =>
      assert rest[0] == "ORDER";
      assert Rest(rest, 2)[0] == o.column;
      NotKeyword(o.column, 2);
      OrderStops();
  }

  lemma SelectRead(p: Parsed, k: nat)
    requires Normal(p) && p.kind.SELECT? && FirstBetween(p.conds, k)
    ensures ParseSql(Print(p)) == Some(p) <==> ComesBack(p)
  {
    var rest := OrderTokens(OrderOf(p.order)) + (LimitTokens(LimitOf(p.limit)) + [";"]);
    var q := New(SELECT).(columns := p.columns, table := p.table);
    var w := OptionalWhere(q, WhereTokens(WhereOf(p)) + rest);
    SelectTokens(p, rest, w);
    BehindRead(p, q);
    WhereRead(p, q, k, rest);
    ComesBackAt(p, k);
    SelectRest(p, k, w);
  }

  /** The statement in the end, by its conditions, its order and its limit. */
  lemma SelectRest(p: Parsed, k: nat, w: (Parsed, seq<string>))
    requires Normal(p) && p.kind.SELECT? && FirstBetween(p.conds, k) && |w.0.conds| == k + 1
    requires
      var rest := OrderTokens(OrderOf(p.order)) + (LimitTokens(LimitOf(p.limit)) + [";"]);
      k == |p.conds| - 1 ==>
        w == (New(SELECT).(columns := p.columns, table := p.table, conds := p.conds[..k] + [p.conds[k].(valueTo := "")],
                           links := p.links, logic := p.logic), Rest(rest, 2))
    ensures
      var o := OptionalOrder(w.0, w.1);
      OptionalLimit(o.0, o.1) == p <==> ComesBack(p)
  {
    ComesBackAt(p, k);
    if k == |p.conds| - 1 {
      BehindRead(p, w.0);
    }
  }

  lemma SelectTokens(p: Parsed, rest: seq<string>, w: (Parsed, seq<string>))
    requires Normal(p) && p.kind.SELECT? && rest == OrderTokens(OrderOf(p.order)) + (LimitTokens(LimitOf(p.limit)) + [";"])
    requires w == OptionalWhere(New(SELECT).(columns := p.columns, table := p.table), WhereTokens(WhereOf(p)) + rest)
    ensures
      var o := OptionalOrder(w.0, w.1);
      ParseSql(Print(p)) == Some(OptionalLimit(o.0, o.1))
  {
    var tail := WhereTokens(WhereOf(p)) + rest;
    var body := JoinTokens(ColumnsTokens(p.columns)) + (["FROM", p.table] + tail);
    OrderOkLexemes(p);
    SelectLexemes(p, OrderLexemes(p), OrderOf(p.order));
    TokensOfText(Lexemes(p));
    Opened("SELECT", "SELECT", body, Tokens(Print(p)));
    SelectList(p.columns, "FROM", p.table, tail);
  }

  // ---------- the round trip ----------

  /** Parsing the printed text of a statement gives the statement back, exactly if BETWEEN does not stand in the way. */
  lemma RoundTrip(p: Parsed)
    requires Normal(p)
    ensures ParseSql(Print(p)) == Some(p) <==> ComesBack(p)
  {
    if NoBetween(p.conds) {
      StatementBack(p);
      TextIsParsed(Lexemes(p), FormOf(p));
    } else {
      var k := BetweenAt(p.conds);
      match p.kind
      case SELECT => SelectRead(p, k);
      case DELETE => DeleteRead(p, k);
      case UPDATE => UpdateRead(p, k);
    }
  }

  /** So printing is injective on these statements: what --format shows determines the statement. */
  lemma PrintInjective(p: Parsed, q: Parsed)
    requires Normal(p) && Normal(q) && ComesBack(p) && ComesBack(q) && Print(p) == Print(q)
    ensures p == q
  {
    RoundTrip(p);
    RoundTrip(q);
  }

  /** Printing is a fixed form: printing again what was parsed from printed text changes nothing. */
  lemma FormatIdempotent(p: Parsed)
    requires Normal(p) && ComesBack(p)
    ensures ParseSql(Print(p)).Some? && Print(ParseSql(Print(p)).value) == Print(p)
  {
    RoundTrip(p);
  }

  lemma LetterIsName(s: string)
    requires |s| == 1 && NameChar(s[0])
    ensures IsName(s)
  {
    KeywordsLonger();
    Longer(s, KEYWORDS);
  }

  lemma KeywordsLonger()
    ensures forall i | 0 <= i < |KEYWORDS| :: |KEYWORDS[i]| > 1
  {
    var ks := KEYWORDS;
    assert |ks| == 14 && ks[0] == "FROM" && ks[1] == "WHERE" && ks[2] == "ORDER" && ks[3] == "LIMIT" && ks[4] == "AND" && ks[5] == "OR";
    assert ks[6] == "BETWEEN" && ks[7] == "SET" && ks[8] == "VALUES" && ks[9] == "INTO" && ks[10] == "TABLE" && ks[11] == "BY";
    assert ks[12] == "ASC" && ks[13] == "DESC";
  }

  lemma {:induction false} Longer(s: string, words: seq<string>)
    requires |s| == 1 && forall i | 0 <= i < |words| :: |words[i]| > 1
    ensures !Among(s, words)
  {
    if words != [] {
      Longer(s, words[1..]);
    }
  }

  /** For instance a BETWEEN with an upper bound is printed without it. */
  lemma UpperBoundLost(high: string)
    ensures
      var p := New(DELETE).(table := "t", conds := [Condition("n", "BETWEEN", "1", high)]);
      Normal(p) && (ParseSql(Print(p)) == Some(p) <==> high == "")
  {
    var c := Condition("n", "BETWEEN", "1", high);
    var p := New(DELETE).(table := "t", conds := [c]);
    LetterIsName("t");
    LetterIsName("n");
    OneIsOk();
    DeleteOnOne(c, p, "t");
    RoundTrip(p);
    assert p.conds[0].valueTo == high;
  }

  lemma DeleteOnOne(c: Condition, p: Parsed, table: string)
    requires ShortName(table) && ConditionOk(c) && p == New(DELETE).(table := table, conds := [c])
    ensures Normal(p)
  {
  }

  lemma OneIsOk()
    ensures ValueOk("1")
  {
  }

  // ---------- a link that all share ----------

  lemma PrintedLinkMeans(link: string)
    ensures PrintedLink(link) == if SameName(link, "OR") then "OR" else "AND"
  {
    assert SameName(link, "OR") ==> ToLower(link[0]) == 'o' && ToLower(link[1]) == 'r';
  }

  /** The link printed behind condition i. */
  lemma LinkPrinted(p: Parsed, i: nat)
    ensures i < |p.links| ==> LinkAt(p, i) == if SameName(p.links[i], "OR") then "OR" else "AND"
    ensures i >= |p.links| ==> LinkAt(p, i) == if SameName(p.logic, "OR") then "OR" else "AND"
  {
    if i < |p.links| {
      PrintedLinkMeans(p.links[i]);
    } else {
      PrintedLinkMeans(p.logic);
    }
  }

  lemma {:induction false} SameConditions(p: Parsed, q: Parsed, i: nat)
    requires p.conds == q.conds && i <= |p.conds| && forall j: nat | j + 1 < |p.conds| :: LinkAt(p, j) == LinkAt(q, j)
    ensures ConditionsFrom(p, i) == ConditionsFrom(q, i)
    decreases |p.conds| - i
  {
    if i < |p.conds| {
      SameConditions(p, q, i + 1);
      assert i > 0 ==> LinkAt(p, i - 1) == LinkAt(q, i - 1);
    }
  }

  /** A statement that has only the shared link is printed with it between all conditions, or AND if it has none. */
  lemma SharedLinkPrinted(p: Parsed, q: Parsed)
    requires p.links == [] && q == p.(links := q.links) && |q.links| == (if p.conds == [] then 0 else |p.conds| - 1)
    requires forall i | 0 <= i < |q.links| :: q.links[i] == if SameName(p.logic, "OR") then "OR" else "AND"
    ensures Print(p) == Print(q)
  {
    if p.kind.SELECT? || p.kind.DELETE? || p.kind.UPDATE? {
      forall j: nat | j + 1 < |p.conds|
        ensures LinkAt(p, j) == LinkAt(q, j)
      {
        LinkPrinted(p, j);
        PrintedLinkMeans(q.links[j]);
        assert !SameName("AND", "OR") && SameName("OR", "OR");
      }
      SameConditions(p, q, 0);
    }
  }

  // ---------- which values survive ----------

  lemma {:induction false} TokensFit(s: string)
    ensures forall t | t in Tokens(s) :: |t| <= |s|
    decreases |s|
  {
    if s == "" {
    } else if IsSpace(s[0]) {
      TokensFit(s[1..]);
    } else if s[0] == '-' && |s| > 1 && s[1] == '-' {
      TokensFit(s[Until(s, '\n')..]);
    } else if s[0] == '\'' || s[0] == '"' {
      var rest := s[1 + Until(s[1..], s[0])..];
      TokensFit(if rest == "" then rest else rest[1..]);
    } else if Single(s[0]) {
      TokensFit(s[1..]);
    } else if Comparison(s[0]) {
      TokensFit(if |s| > 1 && s[1] == '=' then s[2..] else s[1..]);
    } else if WordChar(s[0]) {
      TokensFit(s[WordLength(s)..]);
    } else {
      TokensFit(s[1..]);
    }
  }

  /** A value comes back from its printed form exactly when it has no quote character and, if it is printed
      bare, consists of word characters. */
  lemma ValueSurvivesExactly(v: string)
    ensures Tokens(Text(Value(v))) == [v] <==> ValueOk(v)
  {
    if ValueOk(v) {
      ValueToken(v);
      TokensOfText([Value(v)]);
      assert [Value(v)][1..] == [] && TextAll([Value(v)]) == Text(Value(v)) + "";
      assert Text(Value(v)) + "" == Text(Value(v));
    } else if NeedsQuote(v) {
      QuoteInside(v);
    } else {
      BareBroken(v);
    }
  }

  lemma QuoteInside(v: string)
    requires exists i | 0 <= i < |v| :: v[i] == '\''
    ensures Tokens(Text(Quoted(v))) != [v]
  {
    var s := Text(Quoted(v));
    var inner := v + "'";
    assert s[1..] == inner;
    var i :| 0 <= i < |v| && v[i] == '\'';
    assert inner[i] == '\'';
    assert Until(inner, '\'') <= i;
    assert |Tokens(s)[0]| < |v|;
  }

  lemma BareBroken(v: string)
    requires !NeedsQuote(v) && exists i | 0 <= i < |v| :: !WordChar(v[i])
    ensures Tokens(v) != [v]
  {
    if v[0] == '+' {
      PlusBroken(v);
    } else {
      var i :| 0 <= i < |v| && !WordChar(v[i]);
      DigitBroken(v, i);
    }
  }

  lemma PlusBroken(v: string)
    requires v != "" && v[0] == '+'
    ensures Tokens(v) != [v]
  {
    TokensFit(v[1..]);
    assert v in [v];
  }

  lemma DigitBroken(v: string, i: nat)
    requires i < |v| && IsDigit(v[0]) && !WordChar(v[i])
    ensures Tokens(v) != [v]
  {
    var n := WordLength(v);
    assert n <= i;
    assert Tokens(v)[0] == v[..n];
  }
}