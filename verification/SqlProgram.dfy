/** The parser and printer as loops: a token list with a read position, a statement record filled step by
    step, and text appended to an output stream. */
module SqlProgram {
  import opened Common
  import opened Cells
  import opened IndexedRows
  import opened SqlText
  import opened SqlStatements
  import opened SqlGrammar
  import opened SqlRoundTrip
  import Csv

  // ---------- the tokenizer ----------

  /** The end of a run up to the character stop. */
  method FindStop(input: string, from: nat, stop: char) returns (q: nat)
    requires from <= |input|
    ensures q == from + Until(input[from..], stop)
  {
    q := from;
    while q < |input| && input[q] != stop
      invariant from <= q <= |input| && q + Until(input[q..], stop) == from + Until(input[from..], stop)
    {
      assert input[q..][1..] == input[q + 1..];
      q := q + 1;
    }
  }

  /** The end of a run of word characters. */
  method WordEnd(input: string, from: nat) returns (q: nat)
    requires from <= |input|
    ensures q == from + WordLength(input[from..])
  {
    q := from;
    while q < |input| && WordChar(input[q])
      invariant from <= q <= |input| && q + WordLength(input[q..]) == from + WordLength(input[from..])
    {
      assert input[q..][1..] == input[q + 1..];
      q := q + 1;
    }
  }

  /** A round of the tokenizer at position p pushes token, if any, and goes on at next. */
  ghost predicate Round(input: string, p: nat, token: Option<string>, next: nat) {
    && p < next <= |input|
    && Tokens(input[p..]) == (if token.Some? then [token.value] else []) + Tokens(input[next..])
  }

  /** The branch for a quoted string. */
  method QuotedString(input: string, p: nat) returns (token: Option<string>, next: nat)
    requires p < |input| && (input[p] == '\'' || input[p] == '"')
    ensures Round(input, p, token, next)
  {
    var end := FindStop(input, p + 1, input[p]);
    QuotedCuts(input, p, end);
    token := Some(input[p + 1..end]);
    next := if end < |input| then end + 1 else end;
  }

  lemma QuotedCuts(input: string, p: nat, end: nat)
    requires p < end <= |input|
    ensures
      var s := input[p..];
      && s[1..] == input[p + 1..] && s[1..][..end - p - 1] == input[p + 1..end] && s[end - p..] == input[end..]
      && (end < |input| ==> input[end..][1..] == input[end + 1..]) && (end == |input| ==> input[end..] == "")
  {
  }

  /** The branch for a comparison operator of one or two characters. */
  method Operator(input: string, p: nat) returns (token: Option<string>, next: nat)
    requires p < |input| && Comparison(input[p])
    ensures Round(input, p, token, next)
  {
    ghost var s := input[p..];
    if p + 1 < |input| && input[p + 1] == '=' {
      assert s[..2] == input[p..p + 2] && s[2..] == input[p + 2..];
      return Some(input[p..p + 2]), p + 2;
    }
    assert s[..1] == [input[p]] && s[1..] == input[p + 1..];
    return Some([input[p]]), p + 1;
  }

  /** The branch for identifiers, keywords and numbers. */
  method WordToken(input: string, p: nat) returns (token: Option<string>, next: nat)
    requires p < |input| && WordChar(input[p]) && !(input[p] == '-' && p + 1 < |input| && input[p + 1] == '-')
    ensures Round(input, p, token, next)
  {
    next := WordEnd(input, p);
    CutOut(input, p, next);
    token := Some(input[p..next]);
  }

  lemma CutOut(input: string, p: nat, q: nat)
    requires p <= q <= |input|
    ensures input[p..][..q - p] == input[p..q] && input[p..][q - p..] == input[q..]
  {
  }

  /** The branches that push nothing or one character. */
  method Skipped(input: string, p: nat) returns (token: Option<string>, next: nat)
    requires p < |input|
    requires IsSpace(input[p]) || Single(input[p])
             || !(WordChar(input[p]) || Comparison(input[p]) || input[p] == '\'' || input[p] == '"')
    ensures Round(input, p, token, next)
  {
    ghost var s := input[p..];
    assert s[..1] == [input[p]] && s[1..] == input[p + 1..];
    token := if Single(input[p]) then Some([input[p]]) else None;
    next := p + 1;
  }

  method Comment(input: string, p: nat) returns (next: nat)
    requires p + 1 < |input| && input[p] == '-' && input[p + 1] == '-'
    ensures Round(input, p, None, next)
  {
    ghost var s := input[p..];
    next := FindStop(input, p, '\n');
    assert s[next - p..] == input[next..];
  }

  /** One round of the tokenizer. */
  method NextToken(input: string, p: nat) returns (token: Option<string>, next: nat)
    requires p < |input|
    ensures Round(input, p, token, next)
  {
    var c := input[p];
    if IsSpace(c) {
      token, next := Skipped(input, p);
    } else if c == '-' && p + 1 < |input| && input[p + 1] == '-' {
      token := None;
      next := Comment(input, p);
    } else if c == '\'' || c == '"' {
      token, next := QuotedString(input, p);
    } else if Single(c) {
      token, next := Skipped(input, p);
    } else if Comparison(c) {
      token, next := Operator(input, p);
    } else if WordChar(c) {
      token, next := WordToken(input, p);
    } else {
      token, next := Skipped(input, p);
    }
  }

  /** tokenize */
  method Tokenize(input: string) returns (t: seq<string>)
    ensures t == Tokens(input)
  {
    t := [];
    var p := 0;
    assert input[0..] == input;
    while p < |input|
      invariant 0 <= p <= |input| && t + Tokens(input[p..]) == Tokens(input)
    {
      var token, next := NextToken(input, p);
      if token.Some? {
        t := t + [token.value];
      }
      p := next;
    }
  }

  // ---------- the token list ----------

  class TokenList {
    const tok: seq<string>
    var pos: nat

    ghost predicate Valid()
      reads this
    {
      pos <= |tok|
    }

    /** The tokens not yet read. */
    ghost function Ahead(): seq<string>
      reads this
      requires Valid()
    {
      tok[pos..]
    }

    constructor (tok: seq<string>)
      ensures Valid() && Ahead() == tok
    {
      this.tok := tok;
      pos := 0;
    }

    function Peek(): (t: Option<string>)
      reads this
      requires Valid()
      ensures t == if Ahead() == [] then None else Some(Ahead()[0])
    {
      if pos < |tok| then Some(tok[pos]) else None
    }

    method Advance() returns (t: Option<string>)
      requires Valid()
      modifies this
      ensures Valid()
      ensures if old(Ahead()) == [] then t == None && Ahead() == [] else t == Some(old(Ahead())[0]) && Ahead() == old(Ahead())[1..]
    {
      if pos < |tok| {
        t := Some(tok[pos]);
        pos := pos + 1;
      } else {
        t := None;
      }
    }

    /** match, and expect without its message */
    method Match(kw: string) returns (found: bool)
      requires Valid()
      modifies this
      ensures Valid() && found == At(old(Ahead()), kw) && Ahead() == Skip(old(Ahead()), kw)
    {
      found := pos < |tok| && SameName(tok[pos], kw);
      if found {
        pos := pos + 1;
      }
    }
  }

  // ---------- the parser ----------

  /** What a loop has read before the rest. */
  function With<T>(read: seq<T>, r: (seq<T>, seq<string>)): (seq<T>, seq<string>) {
    (read + r.0, r.1)
  }

  lemma WithNothing<T>(r: (seq<T>, seq<string>))
    ensures With([], r) == r
  {
    assert [] + r.0 == r.0;
  }

  lemma WithMore<T>(read: seq<T>, x: T, more: seq<T>, rest: seq<string>)
    ensures With(read, ([x] + more, rest)) == With(read + [x], (more, rest))
  {
    assert read + ([x] + more) == (read + [x]) + more;
  }

  lemma WithEnd<T>(read: seq<T>, rest: seq<string>)
    ensures With(read, ([], rest)) == (read, rest)
  {
    assert read + [] == read;
  }

  /** parse_ident_list */
  method ParseIdentList(t: TokenList) returns (arr: seq<string>)
    requires t.Valid()
    modifies t
    ensures t.Valid() && (arr, t.Ahead()) == IdentList(old(t.Ahead()))
  {
    arr := [];
    ghost var goal := IdentList(t.Ahead());
    WithNothing(goal);
    while t.Peek().Some? && t.Peek().value != ")"
      invariant t.Valid() && With(arr, IdentList(t.Ahead())) == goal
      decreases |t.Ahead()|
    {
      ghost var ts := t.Ahead();
      var name := t.Advance();
      var comma := t.Match(",");
      if comma {
        assert t.Ahead() == ts[2..];
        WithMore(arr, name.value, IdentList(t.Ahead()).0, IdentList(t.Ahead()).1);
      }
      arr := arr + [name.value];
      if !comma {
        var _ := t.Match(")");
        return;
      }
    }
    WithEnd(arr, Skip(t.Ahead(), ")"));
    var _ := t.Match(")");
  }

  /** parse_where: the conditions and links read. */
  method ParseConditions(t: TokenList) returns (conds: seq<Condition>, links: seq<string>)
    requires t.Valid()
    modifies t
    ensures t.Valid() && (conds, links, t.Ahead()) == Conditions(old(t.Ahead()))
  {
    conds, links := [], [];
    ghost var goal := Conditions(t.Ahead());
    BothNothing(goal);
    while true
      invariant t.Valid() && WithBoth(conds, links, Conditions(t.Ahead())) == goal
      decreases |t.Ahead()|
    {
      var more, c := ReadCondition(t);
      if !more {
        if c.Some? {
          conds := conds + [c.value];
        }
        assert links + [] == links && conds + [] == conds;
        return;
      }
      var next := t.Peek();
      if next.None? || !(SameName(next.value, "AND") || SameName(next.value, "OR")) {
        conds := conds + [c.value];
        assert links + [] == links;
        return;
      }
      var logic := t.Advance();
      Together(conds, links, c.value, LinkName(logic.value), Conditions(t.Ahead()));
      conds, links := conds + [c.value], links + [LinkName(logic.value)];
    }
  }

  function WithBoth(conds: seq<Condition>, links: seq<string>, r: (seq<Condition>, seq<string>, seq<string>))
    : (seq<Condition>, seq<string>, seq<string>)
  {
    (conds + r.0, links + r.1, r.2)
  }

  lemma BothNothing(r: (seq<Condition>, seq<string>, seq<string>))
    ensures WithBoth([], [], r) == r
  {
    assert [] + r.0 == r.0 && [] + r.1 == r.1;
  }

  lemma Together(conds: seq<Condition>, links: seq<string>, c: Condition, link: string,
                 r: (seq<Condition>, seq<string>, seq<string>))
    ensures WithBoth(conds, links, ([c] + r.0, [link] + r.1, r.2)) == WithBoth(conds + [c], links + [link], r)
  {
    assert conds + ([c] + r.0) == (conds + [c]) + r.0 && links + ([link] + r.1) == (links + [link]) + r.1;
  }

  /** One condition of parse_where; more says whether the loop looks for a link behind it. */
  method ReadCondition(t: TokenList) returns (more: bool, c: Option<Condition>)
    requires t.Valid()
    modifies t
    ensures t.Valid() && |t.Ahead()| <= |old(t.Ahead())|
    ensures
      if more then c.Some? && Conditions(old(t.Ahead())) == After(c.value, t.Ahead())
      else Conditions(old(t.Ahead())) == (if c.Some? then [c.value] else [], [], t.Ahead())
  {
    ghost var ts := t.Ahead();
    var col := t.Advance();
    var op := t.Advance();
    var val := t.Advance();
    if col.None? || op.None? || val.None? {
      return false, None;
    }
    var w := Condition(Fit(col.value, NAME_SIZE), Fit(op.value, OP_SIZE), Fit(val.value, VALUE_SIZE), "");
    assert w == PlainCondition(ts) && t.Ahead() == ts[3..];
    if SameName(op.value, "BETWEEN") {
      var and := t.Advance();
      var high := t.Advance();
      if and.None? || !SameName(and.value, "AND") || high.None? {
        assert t.Ahead() == Rest(ts, 5);
        return false, Some(w);
      }
      assert t.Ahead() == ts[5..];
      return true, Some(w.(op := "BETWEEN", valueTo := Fit(high.value, VALUE_SIZE)));
    }
    return true, Some(w);
  }

  /** parse_where */
  method ParseWhere(t: TokenList, p: Parsed) returns (sql: Parsed)
    requires t.Valid()
    modifies t
    ensures t.Valid() && (sql, t.Ahead()) == WithWhere(p, old(t.Ahead()))
  {
    var conds, links := ParseConditions(t);
    if links != [] && |links| != |conds| - 1 {
      links := links[..|links| - 1];
    }
    var logic := SharedLink(links);
    sql := p.(conds := conds, links := links, logic := logic);
  }

  /** The end of parse_where: the link all share, if they do. */
  method SharedLink(links: seq<string>) returns (logic: string)
    ensures logic == Logic(links)
  {
    logic := "";
    if links != [] {
      var same := true;
      for i := 1 to |links|
        invariant same <==> forall j | 0 < j < i :: SameName(links[0], links[j])
      {
        if !SameName(links[0], links[i]) {
          same := false;
          break;
        }
      }
      if same {
        logic := Fit(links[0], OP_SIZE);
      }
    }
  }

  method ParseOptionalWhere(t: TokenList, p: Parsed) returns (sql: Parsed)
    requires t.Valid()
    modifies t
    ensures t.Valid() && (sql, t.Ahead()) == OptionalWhere(p, old(t.Ahead()))
  {
    var found := t.Match("WHERE");
    if found {
      sql := ParseWhere(t, p);
    } else {
      sql := p;
    }
  }

  /** The column loop of parse_create. */
  method ParseColumnDefs(t: TokenList) returns (defs: seq<string>)
    requires t.Valid()
    modifies t
    ensures t.Valid() && (defs, t.Ahead()) == ColumnDefs(old(t.Ahead()))
  {
    defs := [];
    ghost var goal := ColumnDefs(t.Ahead());
    WithNothing(goal);
    while t.Peek().Some? && t.Peek().value != ")"
      invariant t.Valid() && With(defs, ColumnDefs(t.Ahead())) == goal
      decreases |t.Ahead()|
    {
      ghost var ts := t.Ahead();
      var cname := t.Advance();
      var ctype := t.Advance();
      if cname.None? || ctype.None? {
        WithEnd(defs, []);
        return;
      }
      assert t.Ahead() == ts[2..];
      var def := Fit(cname.value + (" " + ctype.value), COLUMN_SIZE);
      var comma := t.Match(",");
      if comma {
        assert t.Ahead() == ts[3..];
        WithMore(defs, def, ColumnDefs(t.Ahead()).0, ColumnDefs(t.Ahead()).1);
      }
      defs := defs + [def];
      if !comma {
        return;
      }
    }
    WithEnd(defs, t.Ahead());
  }

  method ParseCreate(t: TokenList) returns (sql: Parsed)
    requires t.Valid()
    modifies t
    ensures t.Valid() && sql == Create(old(t.Ahead()))
  {
    ghost var ts := t.Ahead();
    sql := New(CREATE);
    var found := t.Match("TABLE");
    if !found {
      return;
    }
    var name := t.Advance();
    if name.None? {
      return;
    }
    sql := sql.(table := Fit(name.value, NAME_SIZE));
    assert t.Ahead() == ts[2..];
    found := t.Match("(");
    if !found {
      return;
    }
    assert t.Ahead() == ts[3..];
    var defs := ParseColumnDefs(t);
    sql := sql.(colDefs := defs);
    var _ := t.Match(")");
  }

  method ParseInsert(t: TokenList) returns (sql: Parsed)
    requires t.Valid()
    modifies t
    ensures t.Valid() && sql == Insert(old(t.Ahead()))
  {
    ghost var ts := t.Ahead();
    sql := New(INSERT);
    var found := t.Match("INTO");
    if !found {
      return;
    }
    var name := t.Advance();
    if name.None? {
      return;
    }
    sql := sql.(table := Fit(name.value, NAME_SIZE));
    assert t.Ahead() == ts[2..];
    found := t.Match("(");
    if !found {
      return;
    }
    assert t.Ahead() == ts[3..];
    var columns := ParseIdentList(t);
    sql := sql.(columns := columns);
    ghost var rest := t.Ahead();
    found := t.Match("VALUES");
    if !found {
      return;
    }
    found := t.Match("(");
    if !found {
      return;
    }
    assert t.Ahead() == rest[2..];
    var values := ParseIdentList(t);
    sql := sql.(values := values);
  }

  /** The arguments of a function-call column. */
  method ParseArguments(t: TokenList) returns (args: string)
    requires t.Valid()
    modifies t
    ensures t.Valid() && (args, t.Ahead()) == Arguments(old(t.Ahead()))
  {
    args := "";
    ghost var goal := Arguments(t.Ahead());
    WithNothing(goal);
    while t.Peek().Some? && t.Peek().value != ")" && t.Peek().value != ";"
      invariant t.Valid() && With(args, Arguments(t.Ahead())) == goal
      decreases |t.Ahead()|
    {
      var inner := t.Advance();
      ghost var more := Arguments(t.Ahead()).0;
      assert args + (inner.value + more) == (args + inner.value) + more;
      args := args + inner.value;
    }
    WithEnd(args, t.Ahead());
  }

  /** One column of parse_select. */
  method ParseSelectColumn(t: TokenList) returns (column: string)
    requires t.Valid() && t.Ahead() != []
    modifies t
    ensures t.Valid() && (column, t.Ahead()) == SelectColumn(old(t.Ahead()))
  {
    ghost var ts := t.Ahead();
    var first := t.Advance();
    column := first.value;
    var call := t.Match("(");
    if call {
      assert t.Ahead() == ts[2..];
      var args := ParseArguments(t);
      var closed := t.Match(")");
      column := column + ("(" + args) + if closed then ")" else "";
    }
  }

  method ParseSelectColumns(t: TokenList) returns (columns: seq<string>)
    requires t.Valid()
    modifies t
    ensures t.Valid() && (columns, t.Ahead()) == SelectColumns(old(t.Ahead()))
  {
    columns := [];
    ghost var goal := SelectColumns(t.Ahead());
    WithNothing(goal);
    while t.Peek().Some? && !StopToken(t.Peek().value)
      invariant t.Valid() && With(columns, SelectColumns(t.Ahead())) == goal
      decreases |t.Ahead()|
    {
      var column := ParseSelectColumn(t);
      var name := Fit(column, COLUMN_SIZE);
      var comma := t.Match(",");
      if comma {
        WithMore(columns, name, SelectColumns(t.Ahead()).0, SelectColumns(t.Ahead()).1);
      }
      columns := columns + [name];
      if !comma {
        return;
      }
    }
    WithEnd(columns, t.Ahead());
  }

  /** is_select_stop_token */
  predicate StopToken(tok: string) {
    SameName(tok, "FROM") || SameName(tok, "WHERE") || SameName(tok, "ORDER") || SameName(tok, "LIMIT")
    || tok == ")" || tok == ";"
  }

  method ParseOrder(t: TokenList, p: Parsed) returns (sql: Parsed)
    requires t.Valid()
    modifies t
    ensures t.Valid() && (sql, t.Ahead()) == OptionalOrder(p, old(t.Ahead()))
  {
    sql := p;
    var found := t.Match("ORDER");
    if found {
      var _ := t.Match("BY");
      var col := t.Advance();
      var column := if col.Some? then Fit(col.value, NAME_SIZE) else "";
      var desc := t.Match("DESC");
      if desc {
        sql := sql.(order := Some(Ordering(column, false)));
      } else {
        sql := sql.(order := Some(Ordering(column, true)));
        var _ := t.Match("ASC");
      }
    }
  }

  method ParseSelect(t: TokenList) returns (sql: Parsed)
    requires t.Valid()
    modifies t
    ensures t.Valid() && sql == Select(old(t.Ahead()))
  {
    sql := New(SELECT);
    var columns := ParseSelectColumns(t);
    sql := sql.(columns := columns);
    ghost var rest := t.Ahead();
    var found := t.Match("FROM");
    if !found {
      return;
    }
    var name := t.Advance();
    if name.Some? {
      sql := sql.(table := Fit(name.value, NAME_SIZE));
    }
    assert t.Ahead() == Rest(rest, 2);
    sql := ParseOptionalWhere(t, sql);
    sql := ParseOrder(t, sql);
    var limit := t.Match("LIMIT");
    if limit {
      var n := t.Advance();
      if n.Some? {
        sql := sql.(limit := Atoi(n.value));
      }
    }
  }

  method ParseDelete(t: TokenList) returns (sql: Parsed)
    requires t.Valid()
    modifies t
    ensures t.Valid() && sql == Delete(old(t.Ahead()))
  {
    ghost var ts := t.Ahead();
    sql := New(DELETE);
    var found := t.Match("FROM");
    if !found {
      return;
    }
    var name := t.Advance();
    if name.Some? {
      sql := sql.(table := Fit(name.value, NAME_SIZE));
    }
    assert t.Ahead() == Rest(ts, 2);
    sql := ParseOptionalWhere(t, sql);
  }

  /** The SET loop of parse_update. */
  method ParseSets(t: TokenList) returns (sets: seq<Assignment>)
    requires t.Valid()
    modifies t
    ensures t.Valid() && (sets, t.Ahead()) == SetList(old(t.Ahead()))
  {
    sets := [];
    ghost var goal := SetList(t.Ahead());
    WithNothing(goal);
    while t.Peek().Some? && !SameName(t.Peek().value, "WHERE") && t.Peek().value != ";"
      invariant t.Valid() && With(sets, SetList(t.Ahead())) == goal
      decreases |t.Ahead()|
    {
      ghost var ts := t.Ahead();
      var col := t.Advance();
      var _ := t.Advance();
      var val := t.Advance();
      if col.None? || val.None? {
        WithEnd(sets, []);
        return;
      }
      assert t.Ahead() == ts[3..];
      var pair := Assignment(Fit(col.value, NAME_SIZE), Fit(val.value, VALUE_SIZE));
      var comma := t.Match(",");
      if comma {
        assert t.Ahead() == ts[4..];
        WithMore(sets, pair, SetList(t.Ahead()).0, SetList(t.Ahead()).1);
      }
      sets := sets + [pair];
      if !comma {
        return;
      }
    }
    WithEnd(sets, t.Ahead());
  }

  method ParseUpdate(t: TokenList) returns (sql: Parsed)
    requires t.Valid()
    modifies t
    ensures t.Valid() && sql == Update(old(t.Ahead()))
  {
    ghost var ts := t.Ahead();
    sql := New(UPDATE);
    var name := t.Advance();
    if name.Some? {
      sql := sql.(table := Fit(name.value, NAME_SIZE));
    }
    assert t.Ahead() == Rest(ts, 1);
    var found := t.Match("SET");
    if !found {
      return;
    }
    assert t.Ahead() == Rest(ts, 2);
    var sets := ParseSets(t);
    sql := ParseOptionalWhere(t, sql.(sets := sets));
  }

  /** parse_sql */
  method ParseText(input: string) returns (result: Option<Parsed>)
    ensures result == ParseSql(input)
  {
    var tokens := Tokenize(input);
    if tokens == [] {
      return None;
    }
    var t := new TokenList(tokens);
    var kw := t.Advance();
    var sql;
    if SameName(kw.value, "CREATE") {
      sql := ParseCreate(t);
    } else if SameName(kw.value, "INSERT") {
      sql := ParseInsert(t);
    } else if SameName(kw.value, "SELECT") {
      sql := ParseSelect(t);
    } else if SameName(kw.value, "DELETE") {
      sql := ParseDelete(t);
    } else if SameName(kw.value, "UPDATE") {
      sql := ParseUpdate(t);
    } else {
      sql := New(UNKNOWN);
    }
    result := Some(sql);
  }

  // ---------- the printer ----------

  method Write(out: Csv.OutFile, s: string)
    modifies out
    ensures out.data == old(out.data) + s
  {
    out.data := out.data + s;
  }

  lemma {:induction false} TextConcat(a: seq<Lexeme>, b: seq<Lexeme>)
    ensures TextAll(a + b) == TextAll(a) + TextAll(b)
  {
    if a == [] {
      assert a + b == b;
    } else {
      assert (a + b)[1..] == a[1..] + b;
      TextConcat(a[1..], b);
    }
  }

  function Join(texts: seq<string>): string {
    if texts == [] then "" else if |texts| == 1 then texts[0] else texts[0] + (", " + Join(texts[1..]))
  }

  lemma {:induction false} ListText(items: seq<seq<Lexeme>>, texts: seq<string>)
    requires |items| == |texts| && forall i | 0 <= i < |items| :: TextAll(items[i]) == texts[i]
    ensures TextAll(CommaList(items)) == Join(texts)
  {
    if |items| > 1 {
      ListText(items[1..], texts[1..]);
      var comma := [Symbol(","), Blank];
      TextConcat(comma, CommaList(items[1..]));
      TextConcat(items[0], comma + CommaList(items[1..]));
      assert comma[1..] == [Blank] && [Blank][1..] == [] && TextAll([Blank]) == " " + "";
      assert TextAll(comma) == ", ";
    }
  }

  /** A list loop of print_format: the texts with ", " between them. */
  method EmitList(out: Csv.OutFile, texts: seq<string>)
    modifies out
    ensures out.data == old(out.data) + Join(texts)
  {
    ghost var goal := out.data + Join(texts);
    assert texts[0..] == texts;
    for i := 0 to |texts|
      invariant out.data + ((if 0 < i < |texts| then ", " else "") + Join(texts[i..])) == goal
    {
      ghost var now := out.data;
      assert texts[i..][1..] == texts[i + 1..];
      if i > 0 {
        Write(out, ", ");
      }
      Write(out, texts[i]);
      ghost var sep, more := if i > 0 then ", " else "", Join(texts[i + 1..]);
      assert out.data == now + (sep + texts[i]);
      ListRound(now, sep, texts[i], more, i + 1 < |texts|);
      assert Join(texts[i..]) == texts[i] + (if i + 1 < |texts| then ", " + more else "");
    }
    assert texts[|texts|..] == [];
    assert out.data + ("" + "") == out.data;
  }

  lemma ListRound(now: string, sep: string, x: string, more: string, again: bool)
    ensures (now + (sep + x)) + (if again then ", " + more else "") == now + (sep + (x + (if again then ", " + more else "")))
  {
  }

  /** emit_value */
  method EmitValue(out: Csv.OutFile, v: string)
    modifies out
    ensures out.data == old(out.data) + Text(Value(v))
  {
    if NeedsQuote(v) {
      Write(out, "'" + (v + "'"));
    } else {
      Write(out, v);
    }
  }

  lemma Text1(x: Lexeme)
    ensures TextAll([x]) == Text(x)
  {
    assert [x][1..] == [] && Text(x) + "" == Text(x);
  }

  lemma Text3(x: Lexeme, y: Lexeme, z: Lexeme)
    ensures TextAll([x, y, z]) == Text(x) + (Text(y) + Text(z))
  {
    Text1(z);
    assert [x, y, z][1..] == [y, z] && [y, z][1..] == [z];
  }

  lemma Text5(v: Lexeme, w: Lexeme, x: Lexeme, y: Lexeme, z: Lexeme)
    ensures TextAll([v, w, x, y, z]) == Text(v) + (Text(w) + (Text(x) + (Text(y) + Text(z))))
  {
    Text3(x, y, z);
    assert [v, w, x, y, z][1..] == [w, x, y, z] && [w, x, y, z][1..] == [x, y, z];
  }

  /** What emit_where has still to print from condition i on. */
  ghost function WhereText(p: Parsed, i: nat): string
    requires i <= |p.conds|
  {
    TextAll(ConditionsFrom(p, i))
  }

  ghost function LinkText(p: Parsed, i: nat): string {
    if i > 0 then " " + (LinkAt(p, i - 1) + " ") else ""
  }

  lemma ConditionText(p: Parsed, i: nat)
    requires i < |p.conds|
    ensures WhereText(p, i) == LinkText(p, i) + (TextAll(OneCondition(p.conds[i])) + WhereText(p, i + 1))
  {
    var one, rest := OneCondition(p.conds[i]), ConditionsFrom(p, i + 1);
    var link := if i > 0 then [Blank, Word(LinkAt(p, i - 1)), Blank] else [];
    if i > 0 {
      Text3(Blank, Word(LinkAt(p, i - 1)), Blank);
    }
    TextConcat(one, rest);
    TextConcat(link, one + rest);
  }

  /** emit_where */
  method EmitWhere(out: Csv.OutFile, p: Parsed)
    modifies out
    ensures out.data == old(out.data) + TextAll(WhereLexemes(p))
  {
    if p.conds == [] {
      return;
    }
    WhereStart(p);
    ghost var before := out.data;
    Write(out, " WHERE ");
    Chain(before, " WHERE ", WhereText(p, 0));
    EmitConditions(out, p);
  }

  lemma WhereStart(p: Parsed)
    requires p.conds != []
    ensures TextAll(WhereLexemes(p)) == " WHERE " + WhereText(p, 0)
  {
    Text3(Blank, Word("WHERE"), Blank);
    TextConcat([Blank, Word("WHERE"), Blank], ConditionsFrom(p, 0));
    assert " " + ("WHERE" + " ") == " WHERE ";
  }

  /** The loop of emit_where. */
  method EmitConditions(out: Csv.OutFile, p: Parsed)
    modifies out
    ensures out.data == old(out.data) + WhereText(p, 0)
  {
    ghost var goal := out.data + WhereText(p, 0);
    for i := 0 to |p.conds|
      invariant out.data + WhereText(p, i) == goal
    {
      ghost var now := out.data;
      ConditionText(p, i);
      if i > 0 {
        Write(out, " " + (LinkAt(p, i - 1) + " "));
      }
      assert out.data == now + LinkText(p, i);
      EmitCondition(out, p.conds[i]);
      Chain(now, LinkText(p, i), TextAll(OneCondition(p.conds[i])) + WhereText(p, i + 1));
      Chain(now + LinkText(p, i), TextAll(OneCondition(p.conds[i])), WhereText(p, i + 1));
    }
    assert out.data + "" == out.data;
  }

  method EmitCondition(out: Csv.OutFile, c: Condition)
    modifies out
    ensures out.data == old(out.data) + TextAll(OneCondition(c))
  {
    ghost var before, v := out.data, Text(Value(c.value));
    Write(out, c.column + (" " + (c.op + " ")));
    EmitValue(out, c.value);
    Text5(Word(c.column), Blank, Op(c.op), Blank, Value(c.value));
    assert (c.column + (" " + (c.op + " "))) + v == c.column + (" " + (c.op + (" " + v)));
    Chain(before, c.column + (" " + (c.op + " ")), v);
  }

  // ---------- list items as text ----------

  lemma DefText(d: string)
    ensures TextAll(DefLexemes(d)) == d
  {
    var n := Until(d, ' ');
    if n < |d| {
      Text3(Word(d[..n]), Blank, Word(d[n + 1..]));
      SplitAt(d, n);
    } else {
      Text1(Word(d));
    }
  }

  lemma ColumnText(c: string)
    ensures TextAll(ColumnLexemes(c)) == c
  {
    var n := Until(c, '(');
    if n + 1 < |c| && c[|c| - 1] == ')' {
      var f, a := c[..n], c[n + 1..|c| - 1];
      CallText(c, n);
      CallLexemeText(f, a);
    } else {
      Text1(Star(c));
    }
  }

  lemma CallLexemeText(f: string, a: string)
    ensures TextAll([Word(f), Symbol("("), Star(a), Symbol(")")]) == f + ("(" + a) + ")"
  {
    Text3(Symbol("("), Star(a), Symbol(")"));
    assert [Word(f), Symbol("("), Star(a), Symbol(")")][1..] == [Symbol("("), Star(a), Symbol(")")];
    assert f + ("(" + (a + ")")) == f + ("(" + a) + ")";
  }

  lemma SetText(a: Assignment)
    ensures TextAll(SetLexemes(a)) == a.column + (" = " + Text(Value(a.value)))
  {
    Text5(Word(a.column), Blank, Symbol("="), Blank, Value(a.value));
    assert " " + ("=" + (" " + Text(Value(a.value)))) == " = " + Text(Value(a.value));
  }

  function ValueTexts(values: seq<string>): (r: seq<string>)
    ensures |r| == |values| && forall i | 0 <= i < |r| :: r[i] == Text(Value(values[i]))
  {
    seq(|values|, i requires 0 <= i < |values| => Text(Value(values[i])))
  }

  function SetTexts(sets: seq<Assignment>): (r: seq<string>)
    ensures |r| == |sets| && forall i | 0 <= i < |r| :: r[i] == sets[i].column + (" = " + Text(Value(sets[i].value)))
  {
    seq(|sets|, i requires 0 <= i < |sets| => sets[i].column + (" = " + Text(Value(sets[i].value))))
  }

  method EmitNames(out: Csv.OutFile, names: seq<string>)
    modifies out
    ensures out.data == old(out.data) + TextAll(CommaList(NameItems(names)))
  {
    forall i | 0 <= i < |names|
      ensures TextAll(NameItems(names)[i]) == names[i]
    {
      assert [Word(names[i])][1..] == [] && names[i] + "" == names[i];
    }
    ListText(NameItems(names), names);
    EmitList(out, names);
  }

  method EmitDefs(out: Csv.OutFile, defs: seq<string>)
    modifies out
    ensures out.data == old(out.data) + TextAll(CommaList(DefItems(defs)))
  {
    forall i | 0 <= i < |defs|
      ensures TextAll(DefItems(defs)[i]) == defs[i]
    {
      DefText(defs[i]);
    }
    ListText(DefItems(defs), defs);
    EmitList(out, defs);
  }

  method EmitColumns(out: Csv.OutFile, columns: seq<string>)
    modifies out
    ensures out.data == old(out.data) + TextAll(CommaList(ColumnItems(columns)))
  {
    forall i | 0 <= i < |columns|
      ensures TextAll(ColumnItems(columns)[i]) == columns[i]
    {
      ColumnText(columns[i]);
    }
    ListText(ColumnItems(columns), columns);
    EmitList(out, columns);
  }

  method EmitValues(out: Csv.OutFile, values: seq<string>)
    modifies out
    ensures out.data == old(out.data) + TextAll(CommaList(ValueItems(values)))
  {
    forall i | 0 <= i < |values|
      ensures TextAll(ValueItems(values)[i]) == ValueTexts(values)[i]
    {
      assert [Value(values[i])][1..] == [] && Text(Value(values[i])) + "" == Text(Value(values[i]));
    }
    ListText(ValueItems(values), ValueTexts(values));
    EmitList(out, ValueTexts(values));
  }

  method EmitSets(out: Csv.OutFile, sets: seq<Assignment>)
    modifies out
    ensures out.data == old(out.data) + TextAll(CommaList(SetItems(sets)))
  {
    forall i | 0 <= i < |sets|
      ensures TextAll(SetItems(sets)[i]) == SetTexts(sets)[i]
    {
      SetText(sets[i]);
    }
    ListText(SetItems(sets), SetTexts(sets));
    EmitList(out, SetTexts(sets));
  }

  // ---------- whole statements ----------

  lemma OpeningText(a: string, b: string, table: string)
    ensures TextAll(Opening(a, b, table)) == a + (" " + (b + (" " + (table + " ("))))
  {
    var h := Opening(a, b, table);
    Text5(Word(b), Blank, Word(table), Blank, Symbol("("));
    assert h[1..] == [Blank, Word(b), Blank, Word(table), Blank, Symbol("(")];
    assert h[1..][1..] == [Word(b), Blank, Word(table), Blank, Symbol("(")];
    assert table + (" " + "(") == table + " (";
  }

  lemma ClosingText()
    ensures TextAll(END) == ";\n" && TextAll(Closing()) == ");\n"
  {
    assert END[1..] == [NewLine] && Closing()[1..] == END;
    Text1(NewLine);
    assert ";" + "\n" == ";\n" && ")" + ";\n" == ");\n";
  }

  lemma ValuesPartText()
    ensures TextAll(ValuesPart()) == ") VALUES ("
  {
    Text5(Symbol(")"), Blank, Word("VALUES"), Blank, Symbol("("));
    assert ")" + (" " + ("VALUES" + (" " + "("))) == ") VALUES (";
  }

  method FormatCreate(out: Csv.OutFile, p: Parsed)
    requires p.kind.CREATE?
    modifies out
    ensures out.data == old(out.data) + TextAll(Lexemes(p))
  {
    ghost var before, list := out.data, CommaList(DefItems(p.colDefs));
    OpeningText("CREATE", "TABLE", p.table);
    ClosingText();
    TextConcat(list, Closing());
    TextConcat(Opening("CREATE", "TABLE", p.table), list + Closing());
    ghost var head := TextAll(Opening("CREATE", "TABLE", p.table));
    Write(out, "CREATE" + (" " + ("TABLE" + (" " + (p.table + " (")))));
    EmitDefs(out, p.colDefs);
    Write(out, ");\n");
    Chain(before, head, TextAll(list));
    Chain(before, head + TextAll(list), ");\n");
    Chain(head, TextAll(list), ");\n");
  }

  method FormatInsert(out: Csv.OutFile, p: Parsed)
    requires p.kind.INSERT?
    modifies out
    ensures out.data == old(out.data) + TextAll(Lexemes(p))
  {
    ghost var head := Opening("INSERT", "INTO", p.table);
    ghost var cols, vals := CommaList(NameItems(p.columns)), CommaList(ValueItems(p.values));
    OpeningText("INSERT", "INTO", p.table);
    ValuesPartText();
    ClosingText();
    TextConcat(vals, Closing());
    TextConcat(ValuesPart(), vals + Closing());
    TextConcat(cols, ValuesPart() + (vals + Closing()));
    TextConcat(head, cols + (ValuesPart() + (vals + Closing())));
    ghost var a, b, c, d := out.data, TextAll(head), TextAll(cols), TextAll(vals);
    Write(out, "INSERT" + (" " + ("INTO" + (" " + (p.table + " (")))));
    EmitNames(out, p.columns);
    Write(out, ") VALUES (");
    EmitValues(out, p.values);
    Write(out, ");\n");
    FiveParts(a, b, c, ") VALUES (", d, ");\n");
  }

  lemma FiveParts(a: string, b: string, c: string, d: string, e: string, f: string)
    ensures ((((a + b) + c) + d) + e) + f == a + (b + (c + (d + (e + f))))
  {
    Chain(a, b, c);
    Chain(a, b + c, d);
    Chain(a, (b + c) + d, e);
    Chain(a, ((b + c) + d) + e, f);
    assert (((b + c) + d) + e) + f == b + (c + (d + (e + f)));
  }

  method FormatDelete(out: Csv.OutFile, p: Parsed)
    requires p.kind.DELETE?
    modifies out
    ensures out.data == old(out.data) + TextAll(Lexemes(p))
  {
    ghost var before := out.data;
    ghost var head := [Word("DELETE"), Blank, Word("FROM"), Blank, Word(p.table)];
    Text5(Word("DELETE"), Blank, Word("FROM"), Blank, Word(p.table));
    ClosingText();
    TextConcat(WhereLexemes(p), END);
    TextConcat(head, WhereLexemes(p) + END);
    Write(out, "DELETE" + (" " + ("FROM" + (" " + p.table))));
    EmitWhere(out, p);
    Write(out, ";\n");
    Regrouped(before, TextAll(head), TextAll(WhereLexemes(p)), ";\n");
  }

  lemma Regrouped(a: string, b: string, c: string, d: string)
    ensures ((a + b) + c) + d == a + (b + (c + d))
  {
  }

  method FormatUpdate(out: Csv.OutFile, p: Parsed)
    requires p.kind.UPDATE?
    modifies out
    ensures out.data == old(out.data) + TextAll(Lexemes(p))
  {
    ghost var before := out.data;
    ghost var head := [Word("UPDATE"), Blank, Word(p.table), Blank, Word("SET"), Blank];
    ghost var sets, tail := CommaList(SetItems(p.sets)), WhereLexemes(p) + END;
    UpdateText(p.table);
    ClosingText();
    TextConcat(WhereLexemes(p), END);
    TextConcat(sets, tail);
    TextConcat(head, sets + tail);
    Write(out, "UPDATE " + (p.table + " SET "));
    EmitSets(out, p.sets);
    EmitWhere(out, p);
    Write(out, ";\n");
    Regrouped(before + TextAll(head), TextAll(sets), TextAll(WhereLexemes(p)), ";\n");
    Chain(before, TextAll(head), TextAll(sets) + (TextAll(WhereLexemes(p)) + ";\n"));
  }

  lemma UpdateText(table: string)
    ensures TextAll([Word("UPDATE"), Blank, Word(table), Blank, Word("SET"), Blank]) == "UPDATE " + (table + " SET ")
  {
    var h := [Word("UPDATE"), Blank, Word(table), Blank, Word("SET"), Blank];
    Text5(Blank, Word(table), Blank, Word("SET"), Blank);
    assert h[1..] == [Blank, Word(table), Blank, Word("SET"), Blank];
    assert "UPDATE" + (" " + (table + (" " + ("SET" + " ")))) == "UPDATE " + (table + " SET ");
  }

  method EmitOrder(out: Csv.OutFile, p: Parsed)
    modifies out
    ensures out.data == old(out.data) + TextAll(OrderLexemes(p))
  {
    if p.order.Some? {
      var dir := if p.order.value.asc then "ASC" else "DESC";
      OrderText(p.order.value.column, dir);
      Write(out, " ORDER BY " + (p.order.value.column + (" " + dir)));
    }
  }

  lemma OrderText(column: string, dir: string)
    ensures TextAll([Blank, Word("ORDER"), Blank, Word("BY"), Blank, Word(column), Blank, Word(dir)])
         == " ORDER BY " + (column + (" " + dir))
  {
    var ls := [Blank, Word("ORDER"), Blank, Word("BY"), Blank, Word(column), Blank, Word(dir)];
    var x, y := [Blank, Word("ORDER"), Blank, Word("BY"), Blank], [Word(column), Blank, Word(dir)];
    assert ls == x + y;
    TextConcat(x, y);
    Text5(Blank, Word("ORDER"), Blank, Word("BY"), Blank);
    Text3(Word(column), Blank, Word(dir));
    assert " " + ("ORDER" + (" " + ("BY" + " "))) == " ORDER BY ";
  }

  method EmitLimit(out: Csv.OutFile, p: Parsed)
    modifies out
    ensures out.data == old(out.data) + TextAll(LimitLexemes(p))
  {
    if p.limit >= 0 {
      LimitText(Digits(p.limit));
      Write(out, " LIMIT " + Digits(p.limit));
    }
  }

  lemma LimitText(n: string)
    ensures TextAll([Blank, Word("LIMIT"), Blank, Word(n)]) == " LIMIT " + n
  {
    Text3(Word("LIMIT"), Blank, Word(n));
    assert [Blank, Word("LIMIT"), Blank, Word(n)][1..] == [Word("LIMIT"), Blank, Word(n)];
    assert " " + ("LIMIT" + (" " + n)) == " LIMIT " + n;
  }

  method FormatSelect(out: Csv.OutFile, p: Parsed)
    requires p.kind.SELECT?
    modifies out
    ensures out.data == old(out.data) + TextAll(Lexemes(p))
  {
    ghost var before, cols := out.data, CommaList(ColumnItems(p.columns));
    ghost var from := [Blank, Word("FROM"), Blank, Word(p.table)];
    ghost var tail := WhereLexemes(p) + (OrderLexemes(p) + (LimitLexemes(p) + END));
    FromText(p.table);
    TextConcat(from, tail);
    TextConcat(cols, from + tail);
    TextConcat([Word("SELECT"), Blank], cols + (from + tail));
    Write(out, "SELECT ");
    EmitColumns(out, p.columns);
    Write(out, " FROM " + p.table);
    ghost var middle := out.data;
    FormatTail(out, p);
    Regrouped(before, "SELECT ", TextAll(cols), TextAll(from));
    Chain(before, "SELECT " + (TextAll(cols) + TextAll(from)), TextAll(tail));
    Regroup3("SELECT ", TextAll(cols), TextAll(from), TextAll(tail));
  }

  lemma Regroup3(a: string, b: string, c: string, d: string)
    ensures (a + (b + c)) + d == a + (b + (c + d))
  {
  }

  lemma FromText(table: string)
    ensures TextAll([Blank, Word("FROM"), Blank, Word(table)]) == " FROM " + table
    ensures TextAll([Word("SELECT"), Blank]) == "SELECT "
  {
    Text3(Word("FROM"), Blank, Word(table));
    assert [Blank, Word("FROM"), Blank, Word(table)][1..] == [Word("FROM"), Blank, Word(table)];
    assert " " + ("FROM" + (" " + table)) == " FROM " + table;
    Text1(Blank);
    assert [Word("SELECT"), Blank][1..] == [Blank];
    assert "SELECT" + " " == "SELECT ";
  }

  /** The optional clauses of a SELECT and its end. */
  method FormatTail(out: Csv.OutFile, p: Parsed)
    modifies out
    ensures out.data == old(out.data) + TextAll(WhereLexemes(p) + (OrderLexemes(p) + (LimitLexemes(p) + END)))
  {
    ghost var before := out.data;
    ClosingText();
    TextConcat(LimitLexemes(p), END);
    TextConcat(OrderLexemes(p), LimitLexemes(p) + END);
    TextConcat(WhereLexemes(p), OrderLexemes(p) + (LimitLexemes(p) + END));
    EmitWhere(out, p);
    EmitOrder(out, p);
    EmitLimit(out, p);
    Write(out, ";\n");
    Regrouped(before + TextAll(WhereLexemes(p)), TextAll(OrderLexemes(p)), TextAll(LimitLexemes(p)), ";\n");
    Chain(before, TextAll(WhereLexemes(p)), TextAll(OrderLexemes(p)) + (TextAll(LimitLexemes(p)) + ";\n"));
  }

  /** print_format */
  method PrintFormat(out: Csv.OutFile, p: Parsed)
    modifies out
    ensures out.data == old(out.data) + Print(p)
  {
    match p.kind
    case CREATE => FormatCreate(out, p);
    case INSERT => FormatInsert(out, p);
    case SELECT => FormatSelect(out, p);
    case DELETE => FormatDelete(out, p);
    case UPDATE => FormatUpdate(out, p);
    case UNKNOWN => Write(out, "-- (UNKNOWN query type)\n");
  }
}
