/** The statement parser of src/parser.c on the tokens of a statement, and the printer of src/sql_format.c. */
module SqlStatements {
  import opened Common
  import opened Cells
  import opened IndexedRows
  import opened SqlText

  datatype Kind = CREATE | INSERT | SELECT | DELETE | UPDATE | UNKNOWN

  datatype Condition = Condition(column: string, op: string, value: string, valueTo: string)

  datatype Ordering = Ordering(column: string, asc: bool)

  datatype Assignment = Assignment(column: string, value: string)

  /** The fields of a ParsedSQL; an empty sequence stands for a NULL array. */
  datatype Parsed = Parsed(
    kind: Kind,
    table: string,
    columns: seq<string>,
    values: seq<string>,
    conds: seq<Condition>,
    links: seq<string>,
    logic: string,
    order: Option<Ordering>,
    limit: int,
    sets: seq<Assignment>,
    colDefs: seq<string>)

  const NAME_SIZE: nat := 64
  const OP_SIZE: nat := 8
  const VALUE_SIZE: nat := 256
  const COLUMN_SIZE: nat := 160

  /** strncpy into a zeroed field of n bytes */
  function Fit(s: string, n: nat): string
    requires n > 0
  {
    if |s| < n then s else s[..n - 1]
  }

  function New(kind: Kind): Parsed {
    Parsed(kind, "", [], [], [], [], "", None, -1, [], [])
  }

  // ---------- the parser on the remaining tokens ----------

  /** The next token is the keyword, in any case. */
  predicate At(ts: seq<string>, kw: string) {
    ts != [] && SameName(ts[0], kw)
  }

  /** match */
  function Skip(ts: seq<string>, kw: string): seq<string> {
    if At(ts, kw) then ts[1..] else ts
  }

  function Rest(ts: seq<string>, n: nat): seq<string> {
    if |ts| <= n then [] else ts[n..]
  }

  /** parse_ident_list, and what follows it */
  function IdentList(ts: seq<string>): (seq<string>, seq<string>)
    decreases |ts|
  {
    if ts == [] || ts[0] == ")" then ([], Skip(ts, ")"))
    else if At(ts[1..], ",") then
      var more := IdentList(ts[2..]);
      ([ts[0]] + more.0, more.1)
    else ([ts[0]], Skip(ts[1..], ")"))
  }

  predicate AtLink(ts: seq<string>) {
    At(ts, "AND") || At(ts, "OR")
  }

  function LinkName(token: string): string {
    if SameName(token, "OR") then "OR" else "AND"
  }

  function PlainCondition(ts: seq<string>): Condition
    requires |ts| >= 3
  {
    Condition(Fit(ts[0], NAME_SIZE), Fit(ts[1], OP_SIZE), Fit(ts[2], VALUE_SIZE), "")
  }

  /** The loop of parse_where: conditions, the links read between and after them, and the remaining tokens. */
  function Conditions(ts: seq<string>): (seq<Condition>, seq<string>, seq<string>)
    decreases |ts|
  {
    if |ts| < 3 then ([], [], [])
    else if SameName(ts[1], "BETWEEN") then
      if |ts| < 5 || !SameName(ts[3], "AND") then ([PlainCondition(ts)], [], Rest(ts, 5))
      else After(PlainCondition(ts).(op := "BETWEEN", valueTo := Fit(ts[4], VALUE_SIZE)), ts[5..])
    else After(PlainCondition(ts), ts[3..])
  }

  /** The end of a round of that loop. */
  function After(c: Condition, ts: seq<string>): (seq<Condition>, seq<string>, seq<string>)
    decreases |ts|, 0
  {
    if !AtLink(ts) then ([c], [], ts)
    else
      var more := Conditions(ts[1..]);
      ([c] + more.0, [LinkName(ts[0])] + more.1, more.2)
  }

  /** A link that no condition follows is dropped. */
  function Links(conds: seq<Condition>, links: seq<string>): seq<string> {
    if links != [] && |links| != |conds| - 1 then links[..|links| - 1] else links
  }

  /** where_logic: the link they all share, if they do. */
  function Logic(links: seq<string>): string {
    if links != [] && forall i | 0 <= i < |links| :: SameName(links[0], links[i]) then Fit(links[0], OP_SIZE) else ""
  }

  /** parse_where */
  function WithWhere(p: Parsed, ts: seq<string>): (Parsed, seq<string>) {
    var w := Conditions(ts);
    var links := Links(w.0, w.1);
    (p.(conds := w.0, links := links, logic := Logic(links)), w.2)
  }

  function OptionalWhere(p: Parsed, ts: seq<string>): (Parsed, seq<string>) {
    if At(ts, "WHERE") then WithWhere(p, ts[1..]) else (p, ts)
  }

  /** The column loop of parse_create; a definition is kept as one string. */
  function ColumnDefs(ts: seq<string>): (seq<string>, seq<string>)
    decreases |ts|
  {
    if ts == [] || ts[0] == ")" then ([], ts)
    else if |ts| < 2 then ([], [])
    else
      var def := Fit(ts[0] + (" " + ts[1]), COLUMN_SIZE);
      if At(ts[2..], ",") then
        var more := ColumnDefs(ts[3..]);
        ([def] + more.0, more.1)
      else ([def], ts[2..])
  }

  function Create(ts: seq<string>): Parsed {
    var p := New(CREATE);
    if !At(ts, "TABLE") || |ts| < 2 then p
    else
      var p := p.(table := Fit(ts[1], NAME_SIZE));
      if !At(ts[2..], "(") then p else p.(colDefs := ColumnDefs(ts[3..]).0)
  }

  function Insert(ts: seq<string>): Parsed {
    var p := New(INSERT);
    if !At(ts, "INTO") || |ts| < 2 then p
    else
      var p := p.(table := Fit(ts[1], NAME_SIZE));
      if !At(ts[2..], "(") then p
      else
        var cols := IdentList(ts[3..]);
        var p := p.(columns := cols.0);
        if !At(cols.1, "VALUES") || !At(cols.1[1..], "(") then p
        else p.(values := IdentList(cols.1[2..]).0)
  }

  predicate SelectStop(ts: seq<string>) {
    ts == [] || At(ts, "FROM") || At(ts, "WHERE") || At(ts, "ORDER") || At(ts, "LIMIT") || ts[0] == ")" || ts[0] == ";"
  }

  /** The arguments of a function-call column, joined up to the closing parenthesis. */
  function Arguments(ts: seq<string>): (string, seq<string>)
    decreases |ts|
  {
    if ts == [] || ts[0] == ")" || ts[0] == ";" then ("", ts)
    else
      var more := Arguments(ts[1..]);
      (ts[0] + more.0, more.1)
  }

  /** One SELECT column: a token, or a call joined into one string. */
  function SelectColumn(ts: seq<string>): (string, seq<string>)
    requires ts != []
    ensures |SelectColumn(ts).1| < |ts|
  {
    if At(ts[1..], "(") then
      ArgumentsShorten(ts[2..]);
      var args := Arguments(ts[2..]);
      (ts[0] + ("(" + args.0) + (if At(args.1, ")") then ")" else ""), Skip(args.1, ")"))
    else (ts[0], ts[1..])
  }

  lemma {:induction false} ArgumentsShorten(ts: seq<string>)
    ensures |Arguments(ts).1| <= |ts|
    decreases |ts|
  {
    if ts != [] && ts[0] != ")" && ts[0] != ";" {
      ArgumentsShorten(ts[1..]);
    }
  }

  function SelectColumns(ts: seq<string>): (seq<string>, seq<string>)
    decreases |ts|
  {
    if SelectStop(ts) then ([], ts)
    else
      var c := SelectColumn(ts);
      var name := Fit(c.0, COLUMN_SIZE);
      if At(c.1, ",") then
        var more := SelectColumns(c.1[1..]);
        ([name] + more.0, more.1)
      else ([name], c.1)
  }

  function OptionalOrder(p: Parsed, ts: seq<string>): (Parsed, seq<string>) {
    if !At(ts, "ORDER") then (p, ts)
    else
      var key := Skip(ts[1..], "BY");
      var column := if key == [] then "" else Fit(key[0], NAME_SIZE);
      var rest := Rest(key, 1);
      if At(rest, "DESC") then (p.(order := Some(Ordering(column, false))), rest[1..])
      else (p.(order := Some(Ordering(column, true))), Skip(rest, "ASC"))
  }

  function OptionalLimit(p: Parsed, ts: seq<string>): Parsed {
    if At(ts, "LIMIT") && |ts| > 1 then p.(limit := Atoi(ts[1])) else p
  }

  function Select(ts: seq<string>): Parsed {
    var cols := SelectColumns(ts);
    var p := New(SELECT).(columns := cols.0);
    if !At(cols.1, "FROM") then p
    else
      var p := if |cols.1| > 1 then p.(table := Fit(cols.1[1], NAME_SIZE)) else p;
      var w := OptionalWhere(p, Rest(cols.1, 2));
      var o := OptionalOrder(w.0, w.1);
      OptionalLimit(o.0, o.1)
  }

  function Delete(ts: seq<string>): Parsed {
    var p := New(DELETE);
    if !At(ts, "FROM") then p
    else
      var p := if |ts| > 1 then p.(table := Fit(ts[1], NAME_SIZE)) else p;
      OptionalWhere(p, Rest(ts, 2)).0
  }

  /** The SET loop of parse_update; the token between column and value is not looked at. */
  function SetList(ts: seq<string>): (seq<Assignment>, seq<string>)
    decreases |ts|
  {
    if ts == [] || At(ts, "WHERE") || ts[0] == ";" then ([], ts)
    else if |ts| < 3 then ([], [])
    else
      var a := Assignment(Fit(ts[0], NAME_SIZE), Fit(ts[2], VALUE_SIZE));
      if At(ts[3..], ",") then
        var more := SetList(ts[4..]);
        ([a] + more.0, more.1)
      else ([a], ts[3..])
  }

  function Update(ts: seq<string>): Parsed {
    var p := if ts != [] then New(UPDATE).(table := Fit(ts[0], NAME_SIZE)) else New(UPDATE);
    if !At(Rest(ts, 1), "SET") then p
    else
      var sets := SetList(Rest(ts, 2));
      OptionalWhere(p.(sets := sets.0), sets.1).0
  }

  /** parse_sql, None for NULL */
  function Parse(ts: seq<string>): Option<Parsed> {
    if ts == [] then None
    else if At(ts, "CREATE") then Some(Create(ts[1..]))
    else if At(ts, "INSERT") then Some(Insert(ts[1..]))
    else if At(ts, "SELECT") then Some(Select(ts[1..]))
    else if At(ts, "DELETE") then Some(Delete(ts[1..]))
    else if At(ts, "UPDATE") then Some(Update(ts[1..]))
    else Some(New(UNKNOWN))
  }

  function ParseSql(input: string): Option<Parsed> {
    Parse(Tokens(input))
  }

  // ---------- the printer ----------

  /** needs_quote */
  predicate NeedsQuote(v: string) {
    v == "" || (exists i | 0 <= i < |v| :: v[i] == ' ' || v[i] == '-' || v[i] == ':')
    || !('0' <= v[0] <= '9' || v[0] == '-' || v[0] == '+')
  }

  /** emit_value */
  function Value(v: string): Lexeme {
    if NeedsQuote(v) then Quoted(v) else Word(v)
  }

  /** The items of a list with ", " between them. */
  function CommaList(items: seq<seq<Lexeme>>): seq<Lexeme> {
    if items == [] then []
    else if |items| == 1 then items[0]
    else items[0] + ([Symbol(","), Blank] + CommaList(items[1..]))
  }

  function NameItems(names: seq<string>): (r: seq<seq<Lexeme>>)
    ensures |r| == |names| && forall i | 0 <= i < |r| :: r[i] == [Word(names[i])]
  {
    seq(|names|, i requires 0 <= i < |names| => [Word(names[i])])
  }

  function ValueItems(values: seq<string>): (r: seq<seq<Lexeme>>)
    ensures |r| == |values| && forall i | 0 <= i < |r| :: r[i] == [Value(values[i])]
  {
    seq(|values|, i requires 0 <= i < |values| => [Value(values[i])])
  }

  /** A column definition "name TYPE", seen as its two words. */
  function DefLexemes(d: string): seq<Lexeme> {
    var n := Until(d, ' ');
    if n < |d| then [Word(d[..n]), Blank, Word(d[n + 1..])] else [Word(d)]
  }

  function DefItems(defs: seq<string>): (r: seq<seq<Lexeme>>)
    ensures |r| == |defs| && forall i | 0 <= i < |r| :: r[i] == DefLexemes(defs[i])
  {
    seq(|defs|, i requires 0 <= i < |defs| => DefLexemes(defs[i]))
  }

  function Star(s: string): Lexeme {
    if s == "*" then Symbol(s) else Word(s)
  }

  /** A SELECT column: a name, "*", or a call "f(arg)" seen as its parts. */
  function ColumnLexemes(c: string): seq<Lexeme> {
    var n := Until(c, '(');
    if n + 1 < |c| && c[|c| - 1] == ')' then [Word(c[..n]), Symbol("("), Star(c[n + 1..|c| - 1]), Symbol(")")]
    else [Star(c)]
  }

  function ColumnItems(columns: seq<string>): (r: seq<seq<Lexeme>>)
    ensures |r| == |columns| && forall i | 0 <= i < |r| :: r[i] == ColumnLexemes(columns[i])
  {
    seq(|columns|, i requires 0 <= i < |columns| => ColumnLexemes(columns[i]))
  }

  function SetLexemes(a: Assignment): seq<Lexeme> {
    [Word(a.column), Blank, Symbol("="), Blank, Value(a.value)]
  }

  function SetItems(sets: seq<Assignment>): (r: seq<seq<Lexeme>>)
    ensures |r| == |sets| && forall i | 0 <= i < |r| :: r[i] == SetLexemes(sets[i])
  {
    seq(|sets|, i requires 0 <= i < |sets| => SetLexemes(sets[i]))
  }

  /** where_link_at: OR in any case, and AND for anything else. */
  function PrintedLink(link: string): string {
    if |link| == 2 && (link[0] == 'O' || link[0] == 'o') && (link[1] == 'R' || link[1] == 'r') then "OR" else "AND"
  }

  function LinkAt(p: Parsed, i: nat): string {
    if i < |p.links| then PrintedLink(p.links[i]) else if p.logic != "" then PrintedLink(p.logic) else "AND"
  }

  /** An operator is a symbol or a word. */
  function Op(op: string): Lexeme {
    if IsSymbolText(op) then Symbol(op) else Word(op)
  }

  function OneCondition(c: Condition): seq<Lexeme> {
    [Word(c.column), Blank, Op(c.op), Blank, Value(c.value)]
  }

  /** The conditions from i on, each but the first of all behind its link. */
  function ConditionsFrom(p: Parsed, i: nat): seq<Lexeme>
    requires i <= |p.conds|
    decreases |p.conds| - i
  {
    if i == |p.conds| then []
    else
      (if i > 0 then [Blank, Word(LinkAt(p, i - 1)), Blank] else []) + (OneCondition(p.conds[i]) + ConditionsFrom(p, i + 1))
  }

  /** emit_where */
  function WhereLexemes(p: Parsed): seq<Lexeme> {
    if p.conds == [] then [] else [Blank, Word("WHERE"), Blank] + ConditionsFrom(p, 0)
  }

  function OrderLexemes(p: Parsed): seq<Lexeme> {
    match p.order
    case None => []
    case Some(o) =>
      [Blank, Word("ORDER"), Blank, Word("BY"), Blank, Word(o.column), Blank, Word(if o.asc then "ASC" else "DESC")]
  }

  function LimitLexemes(p: Parsed): seq<Lexeme> {
    if p.limit >= 0 then [Blank, Word("LIMIT"), Blank, Word(Digits(p.limit))] else []
  }

  const END: seq<Lexeme> := [Symbol(";"), NewLine]

  /** Two keywords, the table and an opening parenthesis. */
  function Opening(a: string, b: string, table: string): seq<Lexeme> {
    [Word(a), Blank, Word(b), Blank, Word(table), Blank, Symbol("(")]
  }

  function ValuesPart(): seq<Lexeme> {
    [Symbol(")"), Blank, Word("VALUES"), Blank, Symbol("(")]
  }

  function Closing(): seq<Lexeme> {
    [Symbol(")")] + END
  }

  /** print_format, for the five kinds of statement */
  function Lexemes(p: Parsed): seq<Lexeme>
    requires !p.kind.UNKNOWN?
  {
    match p.kind
    case CREATE => Opening("CREATE", "TABLE", p.table) + (CommaList(DefItems(p.colDefs)) + Closing())
    case INSERT =>
      Opening("INSERT", "INTO", p.table)
      + (CommaList(NameItems(p.columns)) + (ValuesPart() + (CommaList(ValueItems(p.values)) + Closing())))
    case SELECT =>
      [Word("SELECT"), Blank]
      + (CommaList(ColumnItems(p.columns))
         + ([Blank, Word("FROM"), Blank, Word(p.table)]
            + (WhereLexemes(p) + (OrderLexemes(p) + (LimitLexemes(p) + END)))))
    case DELETE =>
      [Word("DELETE"), Blank, Word("FROM"), Blank, Word(p.table)] + (WhereLexemes(p) + END)
    case UPDATE =>
      [Word("UPDATE"), Blank, Word(p.table), Blank, Word("SET"), Blank]
      + (CommaList(SetItems(p.sets)) + (WhereLexemes(p) + END))
  }

  function Print(p: Parsed): string {
    if p.kind.UNKNOWN? then "-- (UNKNOWN query type)\n" else TextAll(Lexemes(p))
  }
}
