/** The statements that the parser of src/parser.c takes, as token lists: each way of writing one, with keywords in any
    case and the optional parts present or not, and what it means.  The parser finds exactly that meaning. */
module SqlGrammar {
  import opened Common
  import opened Cells
  import opened IndexedRows
  import opened SqlText
  import opened SqlStatements

  // ---------- keywords and names ----------

  /** The keyword in any case: each letter as it stands or its small form. */
  predicate Spells(t: string, kw: string) {
    |t| == |kw| && forall i | 0 <= i < |t| :: t[i] == kw[i] || ('A' <= kw[i] <= 'Z' && t[i] as int == kw[i] as int + 32)
  }

  lemma SpelledName(t: string, kw: string)
    requires Spells(t, kw)
    ensures SameName(t, kw) && forall x: string :: SameName(t, x) <==> SameName(kw, x)
  {
  }

  predicate NameChar(c: char) {
    IsAlnum(c) || c == '_'
  }

  const KEYWORDS: seq<string> := ["FROM", "WHERE", "ORDER", "LIMIT", "AND", "OR", "BETWEEN", "SET", "VALUES", "INTO",
                                  "TABLE", "BY", "ASC", "DESC"]

  predicate Among(s: string, words: seq<string>) {
    words != [] && (SameName(s, words[0]) || Among(s, words[1..]))
  }

  predicate Keyword(s: string) {
    Among(s, KEYWORDS)
  }

  lemma {:induction false} NotAmong(s: string, words: seq<string>, i: nat)
    requires !Among(s, words) && i < |words|
    ensures !SameName(s, words[i])
  {
    if i > 0 {
      NotAmong(s, words[1..], i - 1);
    }
  }

  predicate IsName(s: string) {
    s != "" && !Keyword(s) && forall i | 0 <= i < |s| :: NameChar(s[i])
  }

  predicate ShortName(s: string) {
    IsName(s) && |s| < NAME_SIZE
  }

  lemma NameIsWord(s: string)
    requires IsName(s)
    ensures IsWordText(s) && s != ")" && s != ";" && s != "*"
  {
    assert NameChar(s[0]);
  }

  lemma NotKeyword(s: string, i: nat)
    requires IsName(s) && i < |KEYWORDS|
    ensures !SameName(s, KEYWORDS[i])
  {
    NotAmong(s, KEYWORDS, i);
  }

  lemma Differ(a: string, b: string, i: nat)
    requires i < |a| && i < |b| && ToLower(a[i]) != ToLower(b[i])
    ensures !SameName(a, b)
  {
  }

  lemma SplitAt(s: string, n: nat)
    requires n < |s|
    ensures s == s[..n] + ([s[n]] + s[n + 1..])
  {
  }

  // ---------- lists ----------

  /** The items with a comma between them. */
  function JoinTokens(items: seq<seq<string>>): seq<string> {
    if items == [] then []
    else if |items| == 1 then items[0]
    else items[0] + ([","] + JoinTokens(items[1..]))
  }

  function Singles(names: seq<string>): (r: seq<seq<string>>)
    ensures |r| == |names| && forall i | 0 <= i < |r| :: r[i] == [names[i]]
  {
    seq(|names|, i requires 0 <= i < |names| => [names[i]])
  }

  lemma SinglesTail(names: seq<string>)
    requires names != []
    ensures Singles(names)[1..] == Singles(names[1..])
  {
  }

  /** parse_ident_list reads a written list. */
  lemma {:induction false} IdentListBack(names: seq<string>, rest: seq<string>)
    requires forall i | 0 <= i < |names| :: names[i] != ")"
    ensures IdentList(JoinTokens(Singles(names)) + ([")"] + rest)) == (names, rest)
  {
    var ts := JoinTokens(Singles(names)) + ([")"] + rest);
    if |names| == 0 {
      assert ts == [")"] + rest && ts[1..] == rest;
    } else if |names| == 1 {
      assert ts == [names[0]] + ([")"] + rest);
      assert ts[1..] == [")"] + rest && ([")"] + rest)[1..] == rest;
      Differ(")", ",", 0);
      assert [names[0]] == names;
    } else {
      SinglesTail(names);
      var tail := JoinTokens(Singles(names[1..])) + ([")"] + rest);
      assert ts == [names[0]] + ([","] + tail);
      assert ts[1..] == [","] + tail && ts[2..] == tail;
      assert At(ts[1..], ",");
      IdentListBack(names[1..], rest);
      assert [names[0]] + names[1..] == names;
    }
  }

  // ---------- column definitions ----------

  /** The two tokens of a definition, as parse_create joins them again. */
  predicate TwoTokens(d: string, t: seq<string>) {
    |t| == 2 && t[0] != ")" && Fit(t[0] + (" " + t[1]), COLUMN_SIZE) == d
  }

  lemma {:induction false} DefsRead(defs: seq<string>, tokens: seq<seq<string>>, end: seq<string>)
    requires |defs| == |tokens| && (forall i | 0 <= i < |defs| :: TwoTokens(defs[i], tokens[i]))
    requires end == [] || end[0] == ")"
    ensures ColumnDefs(JoinTokens(tokens) + end) == (defs, end)
  {
    var ts := JoinTokens(tokens) + end;
    if |defs| == 0 {
      assert ts == end;
    } else if |defs| == 1 {
      Differ(")", ",", 0);
      assert TwoTokens(defs[0], tokens[0]) && ts[2..] == end;
      assert [defs[0]] == defs;
    } else {
      var tail := JoinTokens(tokens[1..]) + end;
      var more := [","] + tail;
      assert ts == tokens[0] + more;
      assert TwoTokens(defs[0], tokens[0]) && ts[2..] == more && ts[3..] == tail;
      DefsRead(defs[1..], tokens[1..], end);
      assert [defs[0]] + defs[1..] == defs;
    }
  }

  // ---------- SELECT columns ----------

  /** A name, "*", or a call of a name on a name or "*". */
  predicate ColumnOk(c: string) {
    var n := Until(c, '(');
    |c| < COLUMN_SIZE &&
    if n == |c| then IsName(c) || c == "*"
    else
      && n + 1 < |c| && c[|c| - 1] == ')' && IsName(c[..n])
      && (IsName(c[n + 1..|c| - 1]) || c[n + 1..|c| - 1] == "*")
  }

  function ColumnTokens(c: string): seq<string> {
    var n := Until(c, '(');
    if n + 1 < |c| && c[|c| - 1] == ')' then [c[..n], "(", c[n + 1..|c| - 1], ")"] else [c]
  }

  function ColumnsTokens(columns: seq<string>): (r: seq<seq<string>>)
    ensures |r| == |columns| && forall i | 0 <= i < |r| :: r[i] == ColumnTokens(columns[i])
  {
    seq(|columns|, i requires 0 <= i < |columns| => ColumnTokens(columns[i]))
  }

  lemma FirstIsName(f: string, ts: seq<string>)
    requires (IsName(f) || f == "*") && ts != [] && ts[0] == f
    ensures !SelectStop(ts)
  {
    if IsName(f) {
      NameIsWord(f);
      NotKeyword(f, 0);
      NotKeyword(f, 1);
      NotKeyword(f, 2);
      NotKeyword(f, 3);
    }
  }

  lemma ArgumentsBack(a: string, rest: seq<string>)
    requires IsName(a) || a == "*"
    ensures Arguments([a] + ([")"] + rest)) == (a, [")"] + rest) && Skip([")"] + rest, ")") == rest
  {
    var end := [")"] + rest;
    var ts := [a] + end;
    assert ts[1..] == end && end[1..] == rest;
    assert a + "" == a;
    if IsName(a) {
      NameIsWord(a);
    }
  }

  lemma CallBack(f: string, a: string, rest: seq<string>)
    requires (IsName(f) || f == "*") && (IsName(a) || a == "*")
    ensures
      var ts := [f, "(", a, ")"] + rest;
      !SelectStop(ts) && SelectColumn(ts) == (f + ("(" + a) + ")", rest)
  {
    var ts := [f, "(", a, ")"] + rest;
    assert ts[1..][0] == "(" && ts[2..] == [a] + ([")"] + rest);
    FirstIsName(f, ts);
    ArgumentsBack(a, rest);
  }

  lemma NameBack(f: string, rest: seq<string>)
    requires (IsName(f) || f == "*") && !At(rest, "(")
    ensures !SelectStop([f] + rest) && SelectColumn([f] + rest) == (f, rest)
  {
    var ts := [f] + rest;
    assert ts[1..] == rest;
    FirstIsName(f, ts);
  }

  lemma CallText(c: string, n: nat)
    requires n + 1 < |c| && c[n] == '(' && c[|c| - 1] == ')'
    ensures c == c[..n] + ("(" + c[n + 1..|c| - 1]) + ")"
  {
    SplitAt(c, n);
    var tail := c[n + 1..];
    assert tail == c[n + 1..|c| - 1] + ")";
  }

  lemma ColumnBack(c: string, rest: seq<string>)
    requires ColumnOk(c) && !At(rest, "(")
    ensures
      var ts := ColumnTokens(c) + rest;
      !SelectStop(ts) && SelectColumn(ts) == (c, rest)
  {
    var n := Until(c, '(');
    if n == |c| {
      NameBack(c, rest);
    } else {
      CallText(c, n);
      CallBack(c[..n], c[n + 1..|c| - 1], rest);
    }
  }

  /** What ends the columns. */
  predicate AfterColumns(ts: seq<string>) {
    SelectStop(ts) && !At(ts, "(") && !At(ts, ",")
  }

  lemma FromStops(ts: seq<string>)
    requires At(ts, "FROM")
    ensures AfterColumns(ts)
  {
  }

  /** The SELECT column loop reads written columns up to FROM. */
  lemma {:induction false} ColumnsBack(columns: seq<string>, end: seq<string>)
    requires (forall i | 0 <= i < |columns| :: ColumnOk(columns[i])) && AfterColumns(end)
    ensures SelectColumns(JoinTokens(ColumnsTokens(columns)) + end) == (columns, end)
  {
    var ts := JoinTokens(ColumnsTokens(columns)) + end;
    if |columns| == 0 {
      assert ts == end;
    } else {
      var c := ColumnTokens(columns[0]);
      if |columns| == 1 {
        assert ts == c + end;
        ColumnBack(columns[0], end);
        assert [columns[0]] == columns;
      } else {
        assert ColumnsTokens(columns)[1..] == ColumnsTokens(columns[1..]);
        var tail := JoinTokens(ColumnsTokens(columns[1..])) + end;
        assert ts == c + ([","] + tail);
        NextColumn(columns[0], tail);
        ColumnsBack(columns[1..], end);
        assert [columns[0]] + columns[1..] == columns;
      }
    }
  }

  lemma NextColumn(c: string, tail: seq<string>)
    requires ColumnOk(c)
    ensures
      var more := SelectColumns(tail);
      SelectColumns(ColumnTokens(c) + ([","] + tail)) == ([c] + more.0, more.1)
  {
    Differ(",", "(", 0);
    ColumnBack(c, [","] + tail);
    assert ([","] + tail)[1..] == tail;
  }

  // ---------- SET lists ----------

  function SetTokens(a: Assignment): seq<string> {
    [a.column, "=", a.value]
  }

  function SetsTokens(sets: seq<Assignment>): (r: seq<seq<string>>)
    ensures |r| == |sets| && forall i | 0 <= i < |r| :: r[i] == SetTokens(sets[i])
  {
    seq(|sets|, i requires 0 <= i < |sets| => SetTokens(sets[i]))
  }

  predicate SetFits(a: Assignment) {
    ShortName(a.column) && |a.value| < VALUE_SIZE
  }

  /** What ends a SET list. */
  predicate AfterSets(ts: seq<string>) {
    ts == [] || SameName(ts[0], "WHERE") || ts[0] == ";"
  }

  lemma {:induction false} SetsBack(sets: seq<Assignment>, rest: seq<string>)
    requires (forall i | 0 <= i < |sets| :: SetFits(sets[i])) && AfterSets(rest)
    ensures SetList(JoinTokens(SetsTokens(sets)) + rest) == (sets, rest)
  {
    var ts := JoinTokens(SetsTokens(sets)) + rest;
    if |sets| == 0 {
      assert ts == rest;
    } else if |sets| == 1 {
      LastSet(sets[0], rest);
      assert [sets[0]] == sets;
    } else {
      assert SetsTokens(sets)[1..] == SetsTokens(sets[1..]);
      var tail := JoinTokens(SetsTokens(sets[1..])) + rest;
      assert ts == SetTokens(sets[0]) + ([","] + tail);
      SetsBack(sets[1..], rest);
      NextSet(sets[0], tail);
      assert [sets[0]] + sets[1..] == sets;
    }
  }

  lemma NextSet(a: Assignment, tail: seq<string>)
    requires SetFits(a)
    ensures
      var more := SetList(tail);
      SetList(SetTokens(a) + ([","] + tail)) == ([a] + more.0, more.1)
  {
    var ts := SetTokens(a) + ([","] + tail);
    NameIsWord(a.column);
    NotKeyword(a.column, 1);
    assert ts[3..] == [","] + tail && ts[4..] == tail;
  }

  lemma LastSet(a: Assignment, rest: seq<string>)
    requires SetFits(a) && AfterSets(rest)
    ensures SetList(SetTokens(a) + rest) == ([a], rest)
  {
    var ts := SetTokens(a) + rest;
    NameIsWord(a.column);
    NotKeyword(a.column, 1);
    assert ts[3..] == rest;
    if rest != [] && rest[0] == ";" {
      Differ(";", ",", 0);
    }
  }

  // ---------- WHERE ----------

  /** A condition as it is written: column, operator and value, or column BETWEEN low AND high. */
  datatype CondForm =
    | Plain(column: string, op: string, value: string)
    | Range(column: string, between: string, low: string, and: string, high: string)

  function CondTokens(c: CondForm): seq<string> {
    match c
    case Plain(column, op, value) => [column, op, value]
    case Range(column, between, low, and, high) => [column, between, low, and, high]
  }

  function CondMeant(c: CondForm): Condition {
    match c
    case Plain(column, op, value) => Condition(column, op, value, "")
    case Range(column, _, low, _, high) => Condition(column, "BETWEEN", low, high)
  }

  predicate CondFits(c: CondForm) {
    |c.column| < NAME_SIZE &&
    match c
    case Plain(_, op, value) => !SameName(op, "BETWEEN") && |op| < OP_SIZE && |value| < VALUE_SIZE
    case Range(_, between, low, and, high) =>
      Spells(between, "BETWEEN") && Spells(and, "AND") && |low| < VALUE_SIZE && |high| < VALUE_SIZE
  }

  /** The conditions with the words between them. */
  datatype WhereForm = WhereForm(keyword: string, conds: seq<CondForm>, words: seq<string>)

  predicate WhereFits(w: WhereForm) {
    Spells(w.keyword, "WHERE") && CondsFit(w.conds, w.words)
  }

  predicate CondsFit(conds: seq<CondForm>, words: seq<string>) {
    && |conds| == |words| + 1 && (forall i | 0 <= i < |conds| :: CondFits(conds[i]))
    && (forall i | 0 <= i < |words| :: Spells(words[i], "AND") || Spells(words[i], "OR"))
  }

  function CondsTokens(conds: seq<CondForm>, words: seq<string>): seq<string>
    requires |conds| == |words| + 1
  {
    if words == [] then CondTokens(conds[0])
    else CondTokens(conds[0]) + ([words[0]] + CondsTokens(conds[1..], words[1..]))
  }

  function CondsMeant(conds: seq<CondForm>): (r: seq<Condition>)
    ensures |r| == |conds| && forall i | 0 <= i < |r| :: r[i] == CondMeant(conds[i])
  {
    seq(|conds|, i requires 0 <= i < |conds| => CondMeant(conds[i]))
  }

  function LinksMeant(words: seq<string>): (r: seq<string>)
    ensures |r| == |words| && forall i | 0 <= i < |r| :: r[i] == LinkMeant(words[i])
  {
    seq(|words|, i requires 0 <= i < |words| => LinkMeant(words[i]))
  }

  /** The link that all share, if they do. */
  function Shared(links: seq<string>): string {
    if links != [] && forall i | 0 <= i < |links| :: links[i] == links[0] then links[0] else ""
  }

  lemma LinkWord(word: string, ts: seq<string>)
    requires (Spells(word, "AND") || Spells(word, "OR")) && ts != [] && ts[0] == word
    ensures AtLink(ts) && LinkName(word) == if Spells(word, "OR") then "OR" else "AND"
  {
    if Spells(word, "OR") {
      SpelledName(word, "OR");
    } else {
      SpelledName(word, "AND");
    }
  }

  lemma CondStart(c: CondForm, more: seq<string>)
    requires CondFits(c)
    ensures Conditions(CondTokens(c) + more) == After(CondMeant(c), more)
  {
    var ts := CondTokens(c) + more;
    match c
    case Plain(column, op, value) =>
      assert ts[0] == column && ts[1] == op && ts[2] == value && ts[3..] == more;
    case Range(column, between, low, and, high) =>
      SpelledName(between, "BETWEEN");
      SpelledName(and, "AND");
      assert ts[0] == column && ts[1] == between && ts[2] == low && ts[3] == and && ts[4] == high && ts[5..] == more;
  }

  function LinkMeant(word: string): string {
    if Spells(word, "OR") then "OR" else "AND"
  }

  lemma CondStep(c: CondForm, word: string, next: seq<string>)
    requires CondFits(c) && (Spells(word, "AND") || Spells(word, "OR"))
    ensures
      var more := Conditions(next);
      Conditions(CondTokens(c) + ([word] + next)) == ([CondMeant(c)] + more.0, [LinkMeant(word)] + more.1, more.2)
  {
    var ts := [word] + next;
    CondStart(c, ts);
    LinkWord(word, ts);
    assert ts[1..] == next;
  }

  lemma MeantStep(conds: seq<CondForm>, words: seq<string>)
    requires |conds| == |words| + 1 && words != []
    ensures CondsMeant(conds) == [CondMeant(conds[0])] + CondsMeant(conds[1..])
    ensures LinksMeant(words) == [LinkMeant(words[0])] + LinksMeant(words[1..])
  {
  }

  lemma CondsFitTail(conds: seq<CondForm>, words: seq<string>)
    requires CondsFit(conds, words) && words != []
    ensures CondsFit(conds[1..], words[1..])
  {
  }

  /** parse_where reads written conditions. */
  lemma {:induction false} ConditionsBack(conds: seq<CondForm>, words: seq<string>, rest: seq<string>)
    requires CondsFit(conds, words) && !AtLink(rest)
    ensures Conditions(CondsTokens(conds, words) + rest) == (CondsMeant(conds), LinksMeant(words), rest)
    decreases |words|
  {
    if words == [] {
      CondStart(conds[0], rest);
      assert CondsMeant(conds) == [CondMeant(conds[0])] && LinksMeant(words) == [];
    } else {
      var tail := CondsTokens(conds[1..], words[1..]);
      CondsFitTail(conds, words);
      ConditionsBack(conds[1..], words[1..], rest);
      CondStep(conds[0], words[0], tail + rest);
      Chain([words[0]], tail, rest);
      Chain(CondTokens(conds[0]), [words[0]] + tail, rest);
      MeantStep(conds, words);
    }
  }

  lemma LogicShared(links: seq<string>)
    requires forall i | 0 <= i < |links| :: links[i] == "AND" || links[i] == "OR"
    ensures Logic(links) == Shared(links)
  {
    if links != [] {
      Differ("AND", "OR", 0);
      Differ("OR", "AND", 0);
      assert forall i | 0 <= i < |links| :: SameName(links[0], links[i]) <==> links[i] == links[0];
    }
  }

  function WhereTokens(w: Option<WhereForm>): seq<string>
    requires w.Some? ==> |w.value.conds| == |w.value.words| + 1
  {
    if w.None? then [] else [w.value.keyword] + CondsTokens(w.value.conds, w.value.words)
  }

  predicate OptionalFits(w: Option<WhereForm>) {
    w.Some? ==> WhereFits(w.value)
  }

  /** The statement with the WHERE part. */
  function WithConditions(p: Parsed, w: Option<WhereForm>): Parsed {
    if w.None? then p
    else
      var links := LinksMeant(w.value.words);
      p.(conds := CondsMeant(w.value.conds), links := links, logic := Shared(links))
  }

  /** What does not continue a WHERE part, nor is one. */
  predicate AfterWhere(ts: seq<string>) {
    !AtLink(ts) && !At(ts, "WHERE")
  }

  lemma WhereBack(p: Parsed, w: WhereForm, body: seq<string>, rest: seq<string>)
    requires WhereFits(w) && Conditions(body) == (CondsMeant(w.conds), LinksMeant(w.words), rest)
    ensures OptionalWhere(p, [w.keyword] + body) == (WithConditions(p, Some(w)), rest)
  {
    SpelledName(w.keyword, "WHERE");
    assert ([w.keyword] + body)[1..] == body;
    LogicShared(LinksMeant(w.words));
  }

  lemma OptionalWhereBack(p: Parsed, w: Option<WhereForm>, rest: seq<string>)
    requires OptionalFits(w) && AfterWhere(rest)
    ensures OptionalWhere(p, WhereTokens(w) + rest) == (WithConditions(p, w), rest)
  {
    var ts := WhereTokens(w) + rest;
    if w.None? {
      assert ts == rest;
    } else {
      var conds := CondsTokens(w.value.conds, w.value.words);
      Chain([w.value.keyword], conds, rest);
      ConditionsBack(w.value.conds, w.value.words, rest);
      WhereBack(p, w.value, conds + rest, rest);
    }
  }

  // ---------- a link that nothing follows ----------

  lemma {:induction false} DanglingRead(conds: seq<CondForm>, words: seq<string>, word: string, few: seq<string>)
    requires CondsFit(conds, words) && (Spells(word, "AND") || Spells(word, "OR")) && |few| < 3
    ensures Conditions(CondsTokens(conds, words) + ([word] + few)) == (CondsMeant(conds), LinksMeant(words) + [LinkMeant(word)], [])
    decreases |words|
  {
    var rest := [word] + few;
    if words == [] {
      CondStep(conds[0], word, few);
      assert CondsMeant(conds) == [CondMeant(conds[0])] + [] && LinksMeant(words) + [LinkMeant(word)] == [LinkMeant(word)] + [];
    } else {
      var tail := CondsTokens(conds[1..], words[1..]);
      CondsFitTail(conds, words);
      DanglingRead(conds[1..], words[1..], word, few);
      CondStep(conds[0], words[0], tail + rest);
      Chain([words[0]], tail, rest);
      Chain(CondTokens(conds[0]), [words[0]] + tail, rest);
      MeantStep(conds, words);
      Chain([LinkMeant(words[0])], LinksMeant(words[1..]), [LinkMeant(word)]);
    }
  }

  /** A link that no whole condition follows is dropped, with what stands behind it. */
  lemma DanglingLink(p: Parsed, w: WhereForm, word: string, few: seq<string>)
    requires WhereFits(w) && (Spells(word, "AND") || Spells(word, "OR")) && |few| < 3
    ensures OptionalWhere(p, WhereTokens(Some(w)) + ([word] + few)) == (WithConditions(p, Some(w)), [])
  {
    var conds, rest := CondsTokens(w.conds, w.words), [word] + few;
    Chain([w.keyword], conds, rest);
    DanglingRead(w.conds, w.words, word, few);
    DanglingWhere(p, w, conds + rest, LinkMeant(word));
  }

  lemma DanglingWhere(p: Parsed, w: WhereForm, body: seq<string>, link: string)
    requires WhereFits(w) && Conditions(body) == (CondsMeant(w.conds), LinksMeant(w.words) + [link], [])
    ensures OptionalWhere(p, [w.keyword] + body) == (WithConditions(p, Some(w)), [])
  {
    SpelledName(w.keyword, "WHERE");
    assert ([w.keyword] + body)[1..] == body;
    var links := LinksMeant(w.words);
    assert (links + [link])[..|links|] == links;
    LogicShared(links);
  }

  // ---------- ORDER BY and LIMIT ----------

  datatype Direction = Unsaid | Ascending(word: string) | Descending(word: string)

  datatype OrderForm = OrderForm(order: string, byWord: string, column: string, direction: Direction)

  predicate OrderFits(o: Option<OrderForm>) {
    o.Some? ==>
      && Spells(o.value.order, "ORDER") && Spells(o.value.byWord, "BY") && |o.value.column| < NAME_SIZE
      && match o.value.direction
         case Unsaid => true
         case Ascending(word) => Spells(word, "ASC")
         case Descending(word) => Spells(word, "DESC")
  }

  function OrderTokens(o: Option<OrderForm>): seq<string> {
    match o
    case None => []
    case Some(f) =>
      [f.order, f.byWord, f.column] +
      match f.direction
      case Unsaid => []
      case Ascending(word) => [word]
      case Descending(word) => [word]
  }

  /** Ascending unless the text says DESC. */
  function WithOrder(p: Parsed, o: Option<OrderForm>): Parsed {
    if o.None? then p else p.(order := Some(Ordering(o.value.column, !o.value.direction.Descending?)))
  }

  lemma OrderBack(p: Parsed, o: Option<OrderForm>, rest: seq<string>)
    requires OrderFits(o) && !At(rest, "ORDER") && !At(rest, "ASC") && !At(rest, "DESC")
    ensures OptionalOrder(p, OrderTokens(o) + rest) == (WithOrder(p, o), rest)
  {
    match o
    case None =>
      assert OrderTokens(o) + rest == rest;
    case Some(f) =>
      SpelledName(f.order, "ORDER");
      SpelledName(f.byWord, "BY");
      DirectionBack(p, f, rest);
  }

  lemma DirectionBack(p: Parsed, f: OrderForm, rest: seq<string>)
    requires OrderFits(Some(f)) && !At(rest, "ASC") && !At(rest, "DESC")
    requires SameName(f.order, "ORDER") && SameName(f.byWord, "BY")
    ensures OptionalOrder(p, OrderTokens(Some(f)) + rest) == (WithOrder(p, Some(f)), rest)
  {
    var tail := OrderTokens(Some(f))[3..];
    var ts := OrderTokens(Some(f)) + rest;
    assert ts[1..] == [f.byWord, f.column] + (tail + rest);
    assert ts[1..][1..] == [f.column] + (tail + rest);
    assert Rest([f.column] + (tail + rest), 1) == tail + rest;
    match f.direction
    case Unsaid =>
      assert tail + rest == rest;
    case Ascending(word) =>
      SpelledName(word, "ASC");
      Differ("ASC", "DESC", 0);
      assert tail + rest == [word] + rest && (tail + rest)[1..] == rest;
    case Descending(word) =>
      SpelledName(word, "DESC");
      assert tail + rest == [word] + rest && (tail + rest)[1..] == rest;
  }

  datatype LimitForm = LimitForm(keyword: string, count: string, n: int)

  ghost predicate LimitFits(l: Option<LimitForm>) {
    l.Some? ==> Spells(l.value.keyword, "LIMIT") && StartsWithNumber(l.value.count, l.value.n)
  }

  function LimitTokens(l: Option<LimitForm>): seq<string> {
    if l.None? then [] else [l.value.keyword, l.value.count]
  }

  function WithLimit(p: Parsed, l: Option<LimitForm>): Parsed {
    if l.None? then p else p.(limit := l.value.n)
  }

  lemma LimitBack(p: Parsed, l: Option<LimitForm>, rest: seq<string>)
    requires LimitFits(l) && !At(rest, "LIMIT")
    ensures OptionalLimit(p, LimitTokens(l) + rest) == WithLimit(p, l)
  {
    var ts := LimitTokens(l) + rest;
    if l.None? {
      assert ts == rest;
    } else {
      SpelledName(l.value.keyword, "LIMIT");
      LeadingNumberExactly(l.value.count, l.value.n);
      assert ts[0] == l.value.keyword && ts[1] == l.value.count;
    }
  }

  // ---------- statements ----------

  /** A statement as it is written; end is the text behind it. */
  datatype Form =
    | CreateForm(create: string, word: string, table: string, defs: seq<string>, parts: seq<seq<string>>, end: seq<string>)
    | InsertForm(insert: string, into: string, table: string, columns: seq<string>, word: string, values: seq<string>,
                 end: seq<string>)
    | SelectForm(select: string, columns: seq<string>, from: string, table: string, where: Option<WhereForm>,
                 order: Option<OrderForm>, limit: Option<LimitForm>, end: seq<string>)
    | DeleteForm(delete: string, from: string, table: string, where: Option<WhereForm>, end: seq<string>)
    | UpdateForm(update: string, table: string, word: string, sets: seq<Assignment>, where: Option<WhereForm>,
                 end: seq<string>)

  /** Nothing, or a semicolon with whatever behind it. */
  predicate Ended(end: seq<string>) {
    end == [] || end[0] == ";"
  }

  ghost predicate Written(f: Form) {
    |f.table| < NAME_SIZE && Ended(f.end) &&
    match f
    case CreateForm(create, word, _, defs, parts, _) =>
      && Spells(create, "CREATE") && Spells(word, "TABLE")
      && |parts| == |defs| && forall i | 0 <= i < |defs| :: TwoTokens(defs[i], parts[i])
    case InsertForm(insert, into, _, columns, word, values, _) =>
      && Spells(insert, "INSERT") && Spells(into, "INTO") && Spells(word, "VALUES")
      && (forall i | 0 <= i < |columns| :: columns[i] != ")") && (forall i | 0 <= i < |values| :: values[i] != ")")
    case SelectForm(select, columns, from, _, where, order, limit, _) =>
      && Spells(select, "SELECT") && Spells(from, "FROM") && (forall i | 0 <= i < |columns| :: ColumnOk(columns[i]))
      && OptionalFits(where) && OrderFits(order) && LimitFits(limit)
    case DeleteForm(delete, from, _, where, _) => Spells(delete, "DELETE") && Spells(from, "FROM") && OptionalFits(where)
    case UpdateForm(update, _, word, sets, where, _) =>
      && Spells(update, "UPDATE") && Spells(word, "SET") && (forall i | 0 <= i < |sets| :: SetFits(sets[i]))
      && OptionalFits(where)
  }

  /** Its tokens. */
  ghost function Spelt(f: Form): seq<string>
    requires Written(f)
  {
    match f
    case CreateForm(create, word, table, _, parts, end) => [create, word, table, "("] + (JoinTokens(parts) + ([")"] + end))
    case InsertForm(insert, into, table, columns, word, values, end) =>
      [insert, into, table, "("]
      + (JoinTokens(Singles(columns)) + ([")", word, "("] + (JoinTokens(Singles(values)) + ([")"] + end))))
    case SelectForm(select, columns, from, table, where, order, limit, end) =>
      [select] + (JoinTokens(ColumnsTokens(columns)) + ([from, table] + SelectTail(where, order, limit, end)))
    case DeleteForm(delete, from, table, where, end) => [delete, from, table] + (WhereTokens(where) + end)
    case UpdateForm(update, table, word, sets, where, end) =>
      [update, table, word] + (JoinTokens(SetsTokens(sets)) + (WhereTokens(where) + end))
  }

  function SelectTail(where: Option<WhereForm>, order: Option<OrderForm>, limit: Option<LimitForm>, end: seq<string>): seq<string>
    requires OptionalFits(where)
  {
    WhereTokens(where) + (OrderTokens(order) + (LimitTokens(limit) + end))
  }

  /** What it means. */
  function Meant(f: Form): Parsed {
    match f
    case CreateForm(_, _, table, defs, _, _) => New(CREATE).(table := table, colDefs := defs)
    case InsertForm(_, _, table, columns, _, values, _) => New(INSERT).(table := table, columns := columns, values := values)
    case SelectForm(_, columns, _, table, where, order, limit, _) =>
      WithLimit(WithOrder(WithConditions(New(SELECT).(table := table, columns := columns), where), order), limit)
    case DeleteForm(_, _, table, where, _) => WithConditions(New(DELETE).(table := table), where)
    case UpdateForm(_, table, _, sets, where, _) => WithConditions(New(UPDATE).(table := table, sets := sets), where)
  }

  // ---------- the parser finds it ----------

  /** The first token picks the statement kind. */
  lemma FirstToken(ts: seq<string>, kw: string)
    requires ts != [] && Spells(ts[0], kw)
    ensures kw == "CREATE" ==> Parse(ts) == Some(Create(ts[1..]))
    ensures kw == "INSERT" ==> Parse(ts) == Some(Insert(ts[1..]))
    ensures kw == "SELECT" ==> Parse(ts) == Some(Select(ts[1..]))
    ensures kw == "DELETE" ==> Parse(ts) == Some(Delete(ts[1..]))
    ensures kw == "UPDATE" ==> Parse(ts) == Some(Update(ts[1..]))
  {
    KindWords();
    AtSpelled(ts, kw);
  }

  lemma AtSpelled(ts: seq<string>, kw: string)
    requires ts != [] && Spells(ts[0], kw)
    ensures At(ts, "CREATE") == SameName(kw, "CREATE") && At(ts, "INSERT") == SameName(kw, "INSERT")
    ensures At(ts, "SELECT") == SameName(kw, "SELECT") && At(ts, "DELETE") == SameName(kw, "DELETE")
    ensures At(ts, "UPDATE") == SameName(kw, "UPDATE") && At(ts, kw)
  {
    SpelledName(ts[0], kw);
  }

  lemma KindWords()
    ensures !SameName("INSERT", "CREATE") && !SameName("SELECT", "CREATE") && !SameName("SELECT", "INSERT")
    ensures !SameName("DELETE", "CREATE") && !SameName("DELETE", "INSERT") && !SameName("DELETE", "SELECT")
    ensures !SameName("UPDATE", "CREATE") && !SameName("UPDATE", "INSERT") && !SameName("UPDATE", "SELECT")
    ensures !SameName("UPDATE", "DELETE")
  {
    Differ("INSERT", "CREATE", 0);
    Differ("SELECT", "CREATE", 0);
    Differ("SELECT", "INSERT", 0);
    Differ("DELETE", "CREATE", 0);
    Differ("DELETE", "INSERT", 0);
    Differ("DELETE", "SELECT", 0);
    Differ("UPDATE", "CREATE", 0);
    Differ("UPDATE", "INSERT", 0);
    Differ("UPDATE", "SELECT", 0);
    Differ("UPDATE", "DELETE", 0);
  }

  lemma CreateStep(word: string, table: string, defs: seq<string>, parts: seq<seq<string>>, end: seq<string>, a: seq<string>)
    requires Spells(word, "TABLE") && |table| < NAME_SIZE
    requires |parts| == |defs| && forall i | 0 <= i < |defs| :: TwoTokens(defs[i], parts[i])
    requires a == [word, table, "("] + (JoinTokens(parts) + ([")"] + end))
    ensures Create(a) == New(CREATE).(table := table, colDefs := defs)
  {
    SpelledName(word, "TABLE");
    assert a[0] == word && a[1] == table && a[2..][0] == "(" && a[3..] == JoinTokens(parts) + ([")"] + end);
    DefsRead(defs, parts, [")"] + end);
  }

  lemma FirstOfFour(x: string, y: string, z: string, list: seq<string>)
    ensures [x, y, z, "("] + list == [x] + ([y, z, "("] + list)
  {
  }

  lemma CreateParsed(f: Form)
    requires Written(f) && f.CreateForm?
    ensures Parse(Spelt(f)) == Some(Meant(f))
  {
    var a := [f.word, f.table, "("] + (JoinTokens(f.parts) + ([")"] + f.end));
    FirstOfFour(f.create, f.word, f.table, JoinTokens(f.parts) + ([")"] + f.end));
    Opened(f.create, "CREATE", a, Spelt(f));
    CreateStep(f.word, f.table, f.defs, f.parts, f.end, a);
  }

  /** The statement word in front of the rest. */
  lemma Opened(word: string, kw: string, a: seq<string>, ts: seq<string>)
    requires Spells(word, kw) && ts == [word] + a
    ensures kw == "CREATE" ==> Parse(ts) == Some(Create(a))
    ensures kw == "INSERT" ==> Parse(ts) == Some(Insert(a))
    ensures kw == "SELECT" ==> Parse(ts) == Some(Select(a))
    ensures kw == "DELETE" ==> Parse(ts) == Some(Delete(a))
    ensures kw == "UPDATE" ==> Parse(ts) == Some(Update(a))
  {
    FirstToken(ts, kw);
    assert ts[1..] == a;
  }

  lemma InsertLists(columns: seq<string>, word: string, values: seq<string>, end: seq<string>, tail: seq<string>, list: seq<string>)
    requires (forall i | 0 <= i < |columns| :: columns[i] != ")") && (forall i | 0 <= i < |values| :: values[i] != ")")
    requires tail == JoinTokens(Singles(values)) + ([")"] + end)
    requires list == JoinTokens(Singles(columns)) + ([")", word, "("] + tail)
    ensures IdentList(list) == (columns, [word, "("] + tail) && IdentList(tail).0 == values
  {
    var rest := [word, "("] + tail;
    assert [")", word, "("] + tail == [")"] + rest;
    IdentListBack(columns, rest);
    IdentListBack(values, end);
  }

  lemma InsertStep(into: string, table: string, columns: seq<string>, word: string, values: seq<string>,
                   list: seq<string>, tail: seq<string>, a: seq<string>)
    requires Spells(into, "INTO") && Spells(word, "VALUES") && |table| < NAME_SIZE && a == [into, table, "("] + list
    requires IdentList(list) == (columns, [word, "("] + tail) && IdentList(tail).0 == values
    ensures Insert(a) == New(INSERT).(table := table, columns := columns, values := values)
  {
    var rest := [word, "("] + tail;
    SpelledName(into, "INTO");
    SpelledName(word, "VALUES");
    assert a[0] == into && a[1] == table && a[2..][0] == "(" && a[3..] == list;
    assert rest[1..][0] == "(" && rest[2..] == tail;
  }

  lemma InsertParsed(f: Form)
    requires Written(f) && f.InsertForm?
    ensures Parse(Spelt(f)) == Some(Meant(f))
  {
    var tail := JoinTokens(Singles(f.values)) + ([")"] + f.end);
    var list := JoinTokens(Singles(f.columns)) + ([")", f.word, "("] + tail);
    var a := [f.into, f.table, "("] + list;
    InsertLists(f.columns, f.word, f.values, f.end, tail, list);
    FirstOfFour(f.insert, f.into, f.table, list);
    Opened(f.insert, "INSERT", a, Spelt(f));
    InsertStep(f.into, f.table, f.columns, f.word, f.values, list, tail, a);
  }

  /** A semicolon, or nothing, continues no part of a statement. */
  lemma EndStops(end: seq<string>)
    requires Ended(end)
    ensures AfterWhere(end) && !At(end, "ORDER") && !At(end, "LIMIT") && !At(end, "ASC") && !At(end, "DESC")
    ensures AfterSets(end)
  {
  }

  lemma DeleteBody(from: string, table: string, body: seq<string>, a: seq<string>)
    requires Spells(from, "FROM") && |table| < NAME_SIZE && a == [from, table] + body
    ensures Delete(a) == OptionalWhere(New(DELETE).(table := table), body).0
  {
    SpelledName(from, "FROM");
    assert a[0] == from && a[1] == table && Rest(a, 2) == body;
  }

  lemma DeleteParsed(f: Form)
    requires Written(f) && f.DeleteForm?
    ensures Parse(Spelt(f)) == Some(Meant(f))
  {
    var a := [f.from, f.table] + (WhereTokens(f.where) + f.end);
    Opened(f.delete, "DELETE", a, Spelt(f));
    DeleteBody(f.from, f.table, WhereTokens(f.where) + f.end, a);
    EndStops(f.end);
    OptionalWhereBack(New(DELETE).(table := f.table), f.where, f.end);
  }

  lemma SetsStop(w: Option<WhereForm>, end: seq<string>)
    requires OptionalFits(w) && AfterSets(end)
    ensures AfterSets(WhereTokens(w) + end)
  {
    if w.Some? {
      SpelledName(w.value.keyword, "WHERE");
    } else {
      assert WhereTokens(w) + end == end;
    }
  }

  lemma UpdateBody(table: string, word: string, sets: seq<Assignment>, body: seq<string>, a: seq<string>)
    requires |table| < NAME_SIZE && Spells(word, "SET") && (forall i | 0 <= i < |sets| :: SetFits(sets[i])) && AfterSets(body)
    requires a == [table, word] + (JoinTokens(SetsTokens(sets)) + body)
    ensures Update(a) == OptionalWhere(New(UPDATE).(table := table, sets := sets), body).0
  {
    var list := JoinTokens(SetsTokens(sets)) + body;
    SpelledName(word, "SET");
    assert Rest(a, 1) == [word] + list && Rest(a, 2) == list;
    SetsBack(sets, body);
  }

  lemma UpdateParsed(f: Form)
    requires Written(f) && f.UpdateForm?
    ensures Parse(Spelt(f)) == Some(Meant(f))
  {
    var a := [f.table, f.word] + (JoinTokens(SetsTokens(f.sets)) + (WhereTokens(f.where) + f.end));
    Opened(f.update, "UPDATE", a, Spelt(f));
    EndStops(f.end);
    SetsStop(f.where, f.end);
    UpdateBody(f.table, f.word, f.sets, WhereTokens(f.where) + f.end, a);
    OptionalWhereBack(New(UPDATE).(table := f.table, sets := f.sets), f.where, f.end);
  }

  /** What follows a WHERE part of a SELECT does not continue it, and what follows ORDER BY is no direction. */
  lemma TailStops(o: Option<OrderForm>, l: Option<LimitForm>, end: seq<string>)
    requires OrderFits(o) && LimitFits(l) && Ended(end)
    ensures
      var behind := LimitTokens(l) + end;
      && !At(behind, "ORDER") && !At(behind, "ASC") && !At(behind, "DESC")
      && AfterWhere(OrderTokens(o) + behind)
  {
    EndStops(end);
    var behind := LimitTokens(l) + end;
    if l.None? {
      assert behind == end;
    } else {
      SpelledName(l.value.keyword, "LIMIT");
      LimitStops();
    }
    if o.None? {
      assert OrderTokens(o) + behind == behind;
    } else {
      SpelledName(o.value.order, "ORDER");
      OrderStops();
    }
  }

  lemma LimitStops()
    ensures !SameName("LIMIT", "ORDER") && !SameName("LIMIT", "WHERE")
    ensures !SameName("LIMIT", "ASC") && !SameName("LIMIT", "DESC") && !SameName("LIMIT", "AND") && !SameName("LIMIT", "OR")
  {
    Differ("LIMIT", "ORDER", 0);
    Differ("LIMIT", "WHERE", 0);
  }

  lemma OrderStops()
    ensures !SameName("ORDER", "WHERE") && !SameName("ORDER", "AND") && !SameName("ORDER", "OR")
  {
    Differ("ORDER", "WHERE", 0);
  }

  lemma SelectStep(p: Parsed, where: Option<WhereForm>, order: Option<OrderForm>, limit: Option<LimitForm>, end: seq<string>)
    requires OptionalFits(where) && OrderFits(order) && LimitFits(limit) && Ended(end)
    ensures
      var w := OptionalWhere(p, SelectTail(where, order, limit, end));
      var o := OptionalOrder(w.0, w.1);
      OptionalLimit(o.0, o.1) == WithLimit(WithOrder(WithConditions(p, where), order), limit)
  {
    var behind := LimitTokens(limit) + end;
    TailStops(order, limit, end);
    EndStops(end);
    OptionalWhereBack(p, where, OrderTokens(order) + behind);
    OrderBack(WithConditions(p, where), order, behind);
    LimitBack(WithOrder(WithConditions(p, where), order), limit, end);
  }

  lemma SelectList(columns: seq<string>, from: string, table: string, tail: seq<string>)
    requires (forall i | 0 <= i < |columns| :: ColumnOk(columns[i])) && Spells(from, "FROM") && |table| < NAME_SIZE
    ensures
      var p := New(SELECT).(columns := columns, table := table);
      var w := OptionalWhere(p, tail);
      var o := OptionalOrder(w.0, w.1);
      Select(JoinTokens(ColumnsTokens(columns)) + ([from, table] + tail)) == OptionalLimit(o.0, o.1)
  {
    var end := [from, table] + tail;
    SpelledName(from, "FROM");
    FromStops(end);
    ColumnsBack(columns, end);
    assert end[1] == table && Rest(end, 2) == tail;
  }

  lemma SelectParsed(f: Form)
    requires Written(f) && f.SelectForm?
    ensures Parse(Spelt(f)) == Some(Meant(f))
  {
    var tail := SelectTail(f.where, f.order, f.limit, f.end);
    Opened(f.select, "SELECT", JoinTokens(ColumnsTokens(f.columns)) + ([f.from, f.table] + tail), Spelt(f));
    SelectList(f.columns, f.from, f.table, tail);
    SelectStep(New(SELECT).(columns := f.columns, table := f.table), f.where, f.order, f.limit, f.end);
  }

  /** However a statement is written, the parser finds what it means. */
  lemma WrittenIsParsed(f: Form)
    requires Written(f)
    ensures Parse(Spelt(f)) == Some(Meant(f))
  {
    match f
    case CreateForm(_, _, _, _, _, _) => CreateParsed(f);
    case InsertForm(_, _, _, _, _, _, _) => InsertParsed(f);
    case SelectForm(_, _, _, _, _, _, _, _) => SelectParsed(f);
    case DeleteForm(_, _, _, _, _) => DeleteParsed(f);
    case UpdateForm(_, _, _, _, _, _) => UpdateParsed(f);
  }

  /** And so in a text: any arrangement of blanks and comments between the lexemes of its tokens. */
  lemma TextIsParsed(ls: seq<Lexeme>, f: Form)
    requires Written(f) && Separate(ls) && TokenAll(ls) == Spelt(f)
    ensures ParseSql(TextAll(ls)) == Some(Meant(f))
  {
    TokensOfText(ls);
    WrittenIsParsed(f);
  }
}
