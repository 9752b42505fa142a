/** Cells of a table and how src/storage.c reads and compares them: schema lookup, literals and the
    comparison operators of WHERE.  strtod stands for the C library's parser of floating-point text. */
module Cells {
  import opened Common
  import opened Like

  datatype ColumnType = INT | VARCHAR | FLOAT | BOOLEAN | DATE | DATETIME

  datatype ColDef = ColDef(name: string, ctype: ColumnType)

  type Row = seq<string>

  /** A double; strtod reads all of these. */
  datatype Double = NaN | NegInf | Num(value: real) | PosInf

  type Strtod = string -> Option<Double>

  const LONG_MAX: int := 0x7fff_ffff_ffff_ffff
  const LONG_MIN: int := -0x8000_0000_0000_0000
  const LITERAL_SIZE: nat := 256

  // ---------- text ----------

  function ToLower(c: char): char {
    if 'A' <= c <= 'Z' then (c as int + 32) as char else c
  }

  /** equals_ignore_case */
  predicate SameName(a: string, b: string) {
    |a| == |b| && forall i | 0 <= i < |a| :: ToLower(a[i]) == ToLower(b[i])
  }

  /** The same character, or the same letter of the alphabet in the other case. */
  predicate SameLetter(c: char, d: char) {
    c == d || ('A' <= c <= 'Z' && d as int == c as int + 32) || ('A' <= d <= 'Z' && c as int == d as int + 32)
  }

  lemma SameNameMeans(a: string, b: string)
    ensures SameName(a, b) <==> |a| == |b| && forall i | 0 <= i < |a| :: SameLetter(a[i], b[i])
  {
    assert forall c: char, d: char :: SameLetter(c, d) <==> ToLower(c) == ToLower(d);
  }

  /** strcmp, as -1, 0 or 1 */
  function Strcmp(a: string, b: string): int {
    if a == "" then if b == "" then 0 else -1
    else if b == "" then 1
    else if a[0] < b[0] then -1
    else if a[0] > b[0] then 1
    else Strcmp(a[1..], b[1..])
  }

  lemma {:induction false} StrcmpOrder(a: string, b: string)
    ensures Strcmp(a, b) == -Strcmp(b, a)
    ensures Strcmp(a, b) == 0 <==> a == b
  {
    if a != "" && b != "" {
      StrcmpOrder(a[1..], b[1..]);
      assert a == [a[0]] + a[1..] && b == [b[0]] + b[1..];
    }
  }

  lemma {:induction false} StrcmpTransitive(a: string, b: string, c: string)
    requires Strcmp(a, b) <= 0 && Strcmp(b, c) <= 0
    ensures Strcmp(a, c) <= 0
  {
    if a != "" && b != "" && c != "" && a[0] == b[0] == c[0] {
      StrcmpTransitive(a[1..], b[1..], c[1..]);
    }
  }

  /** strip_optional_quotes into a buffer of LITERAL_SIZE bytes */
  function StripQuotes(s: string): string {
    var quoted := |s| >= 2 && ((s[0] == '\'' && s[|s| - 1] == '\'') || (s[0] == '"' && s[|s| - 1] == '"'));
    var inner := if quoted then s[1..|s| - 1] else s;
    if |inner| < LITERAL_SIZE - 1 then inner else inner[..LITERAL_SIZE - 1]
  }

  /** Quotes around a text are taken off, nothing else is, and 255 bytes are kept. */
  lemma StripQuotesMeans(v: string)
    ensures |v| < LITERAL_SIZE ==> StripQuotes("'" + (v + "'")) == v && StripQuotes("\"" + (v + "\"")) == v
    ensures |v| >= LITERAL_SIZE ==> StripQuotes("'" + (v + "'")) == v[..255] == StripQuotes("\"" + (v + "\""))
    ensures |v| < LITERAL_SIZE && (v == "" || (v[0] != '\'' && v[0] != '"')) ==> StripQuotes(v) == v
  {
    var single, double := "'" + (v + "'"), "\"" + (v + "\"");
    assert single[1..|single| - 1] == v && double[1..|double| - 1] == v;
    assert |v| == 255 ==> v[..255] == v;
  }

  // ---------- numbers ----------

  predicate IsSpace(c: char) {
    c == ' ' || '\t' <= c <= '\r'
  }

  predicate IsDigit(c: char) {
    '0' <= c <= '9'
  }

  function SkipSpaces(s: string): string {
    if s != "" && IsSpace(s[0]) then SkipSpaces(s[1..]) else s
  }

  predicate AllDigits(s: string) {
    s != "" && forall i | 0 <= i < |s| :: IsDigit(s[i])
  }

  /** The number that a string of digits denotes. */
  function Decimal(s: string): nat
    requires forall i | 0 <= i < |s| :: IsDigit(s[i])
  {
    if s == "" then 0
    else
      assert IsDigit(s[|s| - 1]);
      10 * Decimal(s[..|s| - 1]) + (s[|s| - 1] as int - '0' as int)
  }

  /** parse_long_value: the whole text is one decimal number in the range of a long. */
  function ParseLong(s: string): Option<int> {
    var t := SkipSpaces(s);
    var signed := t != "" && (t[0] == '-' || t[0] == '+');
    var digits := if signed then t[1..] else t;
    if !AllDigits(digits) then None
    else
      var n: int := Decimal(digits);
      var v := if signed && t[0] == '-' then -n else n;
      if LONG_MIN <= v <= LONG_MAX then Some(v) else None
  }

  /** parse_boolean_value */
  function ParseBoolean(s: string): Option<int> {
    if SameName(s, "true") || s == "1" then Some(1)
    else if SameName(s, "false") || s == "0" then Some(0)
    else None
  }

  /** 1 for "1" and the letters of true in any case, 0 for "0" and those of false, and nothing else. */
  lemma BooleanExactly(s: string)
    ensures ParseBoolean(s) == Some(1) <==>
              s == ['1'] || (|s| == 4 && s[0] in {'t', 'T'} && s[1] in {'r', 'R'} && s[2] in {'u', 'U'} && s[3] in {'e', 'E'})
    ensures ParseBoolean(s) == Some(0) <==>
              s == ['0'] || (|s| == 5 && s[0] in {'f', 'F'} && s[1] in {'a', 'A'} && s[2] in {'l', 'L'} && s[3] in {'s', 'S'}
                             && s[4] in {'e', 'E'})
    ensures ParseBoolean(s).Some? ==> ParseBoolean(s).value == 0 || ParseBoolean(s).value == 1
  {
    Spelled(s, "true", "TRUE");
    Spelled(s, "false", "FALSE");
  }

  /** The letters of a word, each small or capital. */
  lemma Spelled(s: string, small: string, capital: string)
    requires |small| == |capital|
    requires forall i | 0 <= i < |small| :: 'a' <= small[i] <= 'z' && small[i] as int == capital[i] as int + 32
    ensures SameName(s, small) <==> |s| == |small| && forall i | 0 <= i < |s| :: s[i] == small[i] || s[i] == capital[i]
  {
  }

  function Sign(x: int): int {
    if x > 0 then 1 else if x < 0 then -1 else 0
  }

  /** The comparison a < b of C, which is false for NaN. */
  predicate Less(a: Double, b: Double) {
    match (a, b)
    case (NaN, _) => false
    case (_, NaN) => false
    case (Num(x), Num(y)) => x < y
    case (NegInf, _) => !b.NegInf?
    case (_, PosInf) => !a.PosInf?
    case _ => false
  }

  /** (a > b) - (a < b) */
  function CompareDoubles(a: Double, b: Double): int {
    (if Less(b, a) then 1 else 0) - (if Less(a, b) then 1 else 0)
  }

  /** The decimal text of a number. */
  function Digits(n: nat): string {
    if n < 10 then [(n + '0' as int) as char] else Digits(n / 10) + [(n % 10 + '0' as int) as char]
  }

  lemma {:induction false} DecimalOfDigits(n: nat)
    ensures AllDigits(Digits(n)) && Decimal(Digits(n)) == n
  {
    if n >= 10 {
      DecimalOfDigits(n / 10);
      var d := [(n % 10 + '0' as int) as char];
      assert (Digits(n / 10) + d)[..|Digits(n / 10)|] == Digits(n / 10);
    } else {
      var d := [(n + '0' as int) as char];
      assert d[..0] == "" && Digits(n) == d;
    }
  }

  lemma {:induction false} SkipBlanks(blanks: string, t: string)
    requires forall i | 0 <= i < |blanks| :: IsSpace(blanks[i])
    requires t == "" || !IsSpace(t[0])
    ensures SkipSpaces(blanks + t) == t
  {
    if blanks == "" {
      assert blanks + t == t;
    } else {
      assert (blanks + t)[1..] == blanks[1..] + t;
      SkipBlanks(blanks[1..], t);
    }
  }

  lemma {:induction false} BlanksBefore(s: string) returns (blanks: string)
    ensures s == blanks + SkipSpaces(s) && forall i | 0 <= i < |blanks| :: IsSpace(blanks[i])
  {
    blanks := "";
    if s != "" && IsSpace(s[0]) {
      blanks := BlanksBefore(s[1..]);
      assert s == [s[0]] + s[1..];
      blanks := [s[0]] + blanks;
    }
  }

  /** s is the number v: blanks, a sign if any, and digits to the end. */
  ghost predicate WritesNumber(s: string, v: int) {
    exists blanks: string, sign: string, digits: string :: NumberParts(s, v, blanks, sign, digits)
  }

  ghost predicate NumberParts(s: string, v: int, blanks: string, sign: string, digits: string) {
    && (forall i | 0 <= i < |blanks| :: IsSpace(blanks[i])) && sign in {"", "+", "-"} && AllDigits(digits)
    && s == blanks + (sign + digits)
    && var n: int := Decimal(digits); v == if sign == "-" then -n else n
  }

  /** A text reads as v exactly if it writes v and v is in the range of a long. */
  lemma ParseLongExactly(s: string, v: int)
    ensures ParseLong(s) == Some(v) <==> WritesNumber(s, v) && LONG_MIN <= v <= LONG_MAX
  {
    if blanks: string, sign: string, digits: string :| NumberParts(s, v, blanks, sign, digits) {
      assert IsDigit(digits[0]);
      SkipBlanks(blanks, sign + digits);
      assert sign == "" ==> sign + digits == digits;
      assert sign != "" ==> (sign + digits)[1..] == digits;
    }
    if ParseLong(s) == Some(v) {
      var blanks := BlanksBefore(s);
      var t := SkipSpaces(s);
      var signed := t[0] == '-' || t[0] == '+';
      var sign, digits := if signed then t[..1] else "", if signed then t[1..] else t;
      assert t == sign + digits && (signed ==> sign == [t[0]]);
      assert NumberParts(s, v, blanks, sign, digits);
    }
  }

  /** Reading back what printf("%d") wrote. */
  lemma ParsePrinted(n: nat)
    requires n <= LONG_MAX
    ensures ParseLong(Digits(n)) == Some(n)
  {
    DecimalOfDigits(n);
    assert IsDigit(Digits(n)[0]);
  }

  // ---------- comparisons ----------

  function Compared(cmp: int, op: string): Option<bool> {
    if op == "=" then Some(cmp == 0)
    else if op == "!=" then Some(cmp != 0)
    else if op == ">" then Some(cmp > 0)
    else if op == "<" then Some(cmp < 0)
    else if op == ">=" then Some(cmp >= 0)
    else if op == "<=" then Some(cmp <= 0)
    else None
  }

  /** The order of two cells of a column: None where one does not parse. */
  function CellOrder(ctype: ColumnType, left: string, right: string, strtod: Strtod): Option<int> {
    match ctype
    case INT =>
      var l, r := ParseLong(left), ParseLong(right);
      if l.None? || r.None? then None else Some(Sign(l.value - r.value))
    case FLOAT =>
      var l, r := strtod(left), strtod(right);
      if l.None? || r.None? then None else Some(CompareDoubles(l.value, r.value))
    case BOOLEAN =>
      var l, r := ParseBoolean(left), ParseBoolean(right);
      if l.None? || r.None? then None else Some(Sign(l.value - r.value))
    case _ => Some(Strcmp(left, right))
  }

  /** Two cells that parse compare as equal exactly if their values are equal or one of them is NaN. */
  lemma EqualExactly(left: string, right: string, strtod: Strtod)
    requires strtod(left).Some? && strtod(right).Some?
    ensures CellOrder(FLOAT, left, right, strtod) == Some(0) <==>
            strtod(left) == strtod(right) || strtod(left).value.NaN? || strtod(right).value.NaN?
    ensures CompareValue(FLOAT, left, "=", right, strtod) == Some(CellOrder(FLOAT, left, right, strtod) == Some(0))
  {
  }

  // ---------- what the operators mean ----------

  /** The verdict that each operator gives for values that compare so. */
  predicate Verdict(op: string, equal: bool, less: bool, greater: bool, result: Option<bool>) {
    && (op == "=" ==> result == Some(equal)) && (op == "!=" ==> result == Some(!equal))
    && (op == "<" ==> result == Some(less)) && (op == ">" ==> result == Some(greater))
    && (op == "<=" ==> result == Some(!greater)) && (op == ">=" ==> result == Some(!less))
    && (op !in {"=", "!=", "<", ">", "<=", ">="} ==> result == None)
  }

  /** a is below b on the extended line; NaN is below nothing and nothing below it. */
  predicate Below(a: Double, b: Double) {
    && !a.NaN? && !b.NaN?
    && ((a.NegInf? && !b.NegInf?) || (b.PosInf? && !a.PosInf?) || (a.Num? && b.Num? && a.value < b.value))
  }

  /** a comes before b in a dictionary: at the first difference its character is the smaller one, or it ends there. */
  ghost predicate TextBefore(a: string, b: string) {
    exists k: nat :: FirstDifference(a, b, k)
  }

  ghost predicate FirstDifference(a: string, b: string, k: nat) {
    k <= |a| && k < |b| && (forall i | 0 <= i < k :: a[i] == b[i]) && (k < |a| ==> a[k] < b[k])
  }

  lemma {:induction false} StrcmpMeans(a: string, b: string)
    ensures Strcmp(a, b) < 0 <==> TextBefore(a, b)
    ensures Strcmp(a, b) > 0 <==> TextBefore(b, a)
  {
    if a == "" || b == "" {
      assert b != "" ==> FirstDifference("", b, 0);
      assert a != "" ==> FirstDifference("", a, 0);
    } else if a[0] != b[0] {
      assert a[0] < b[0] ==> FirstDifference(a, b, 0);
      assert b[0] < a[0] ==> FirstDifference(b, a, 0);
    } else {
      StrcmpMeans(a[1..], b[1..]);
      TextBeforeTail(a, b);
      TextBeforeTail(b, a);
    }
  }

  lemma TextBeforeTail(a: string, b: string)
    requires a != "" && b != "" && a[0] == b[0]
    ensures TextBefore(a, b) <==> TextBefore(a[1..], b[1..])
  {
    if k: nat :| FirstDifference(a, b, k) {
      assert k > 0;
      var less: nat := k - 1;
      assert FirstDifference(a[1..], b[1..], less);
    }
    if k: nat :| FirstDifference(a[1..], b[1..], k) {
      assert forall i | 0 < i <= k :: a[i] == a[1..][i - 1] && b[i] == b[1..][i - 1];
      assert FirstDifference(a, b, k + 1);
    }
  }

  /** What a comparison of two texts as values of a type has to say. */
  ghost predicate Tells(ctype: ColumnType, left: string, op: string, right: string, strtod: Strtod, result: Option<bool>) {
    match ctype
    case INT =>
      if ParseLong(left).None? || ParseLong(right).None? then result == None
      else
        var l, r := ParseLong(left).value, ParseLong(right).value;
        Verdict(op, l == r, l < r, l > r, result)
    case FLOAT =>
      if strtod(left).None? || strtod(right).None? then result == None
      else
        var l, r := strtod(left).value, strtod(right).value;
        Verdict(op, !Below(l, r) && !Below(r, l), Below(l, r), Below(r, l), result)
    case BOOLEAN =>
      if ParseBoolean(left).None? || ParseBoolean(right).None? then result == None
      else
        var l, r := ParseBoolean(left).value, ParseBoolean(right).value;
        Verdict(op, l == r, l < r, l > r, result)
    case DATE => Verdict(op, left == right, TextBefore(left, right), TextBefore(right, left), result)
    case VARCHAR =>
      if op == "LIKE" then result == Some(Matches(left, right))
      else Verdict(op, left == right, TextBefore(left, right), TextBefore(right, left), result)
    case DATETIME =>
      if op == "=" then result == Some(left == right)
      else if op == "!=" then result == Some(left != right)
      else result == None
  }

  lemma CompareTells(ctype: ColumnType, left: string, op: string, right: string, strtod: Strtod)
    ensures Tells(ctype, left, op, right, strtod, CompareValue(ctype, left, op, right, strtod))
  {
    StrcmpMeans(left, right);
    StrcmpOrder(left, right);
  }

  /** The operators of a type. */
  predicate OperatorOf(ctype: ColumnType, op: string) {
    match ctype
    case VARCHAR => op in {"=", "!=", "<", ">", "<=", ">=", "LIKE"}
    case DATETIME => op in {"=", "!="}
    case _ => op in {"=", "!=", "<", ">", "<=", ">="}
  }

  /** What a condition says of a row: the operator on the cell of the first column of that name and the literal,
      and an error without the column or the operator. */
  ghost predicate ClauseTells(schema: seq<ColDef>, row: Row, clause: Clause, strtod: Strtod, result: Option<bool>) {
    && ((forall j | 0 <= j < |schema| :: !SameName(schema[j].name, clause.column)) ==> result == None)
    && (forall c: nat | FirstNamed(schema, clause.column, c) ::
          if c >= |row| || !OperatorOf(schema[c].ctype, clause.op) then result == None
          else Tells(schema[c].ctype, row[c], clause.op, StripQuotes(clause.value), strtod, result))
  }

  predicate FirstNamed(schema: seq<ColDef>, name: string, c: nat) {
    && c < |schema| && SameName(schema[c].name, name)
    && forall j | 0 <= j < c :: !SameName(schema[j].name, name)
  }

  lemma EvaluateTells(schema: seq<ColDef>, row: Row, clause: Clause, strtod: Strtod)
    ensures ClauseTells(schema, row, clause, strtod, Evaluate(schema, row, clause, strtod))
  {
    var i := FindColumn(schema, clause.column);
    forall c: nat | FirstNamed(schema, clause.column, c)
      ensures c == i
    {
    }
    if 0 <= i < |row| {
      CompareTells(schema[i].ctype, row[i], clause.op, StripQuotes(clause.value), strtod);
    }
  }

  predicate Supported(op: string) {
    op in {"=", "!=", ">", "<", ">=", "<=", "LIKE"}
  }

  predicate SupportedFor(ctype: ColumnType, op: string) {
    match ctype
    case VARCHAR => true
    case DATETIME => op == "=" || op == "!="
    case _ => op != "LIKE"
  }

  predicate ValidLiteral(ctype: ColumnType, literal: string, strtod: Strtod) {
    match ctype
    case INT => ParseLong(literal).Some?
    case FLOAT => strtod(literal).Some?
    case BOOLEAN => ParseBoolean(literal).Some?
    case _ => true
  }

  /** compare_value_by_type: None where a text does not parse or the type has no such operator */
  ghost function CompareValue(ctype: ColumnType, left: string, op: string, right: string, strtod: Strtod): Option<bool> {
    if ctype.VARCHAR? && op == "LIKE" then Some(Matches(left, right))
    else if ctype.DATETIME? && op != "=" && op != "!=" then None
    else
      var cmp := CellOrder(ctype, left, right, strtod);
      if cmp.None? then None else Compared(cmp.value, op)
  }

  /** One condition; valueTo is the upper bound of BETWEEN. */
  datatype Clause = Clause(column: string, op: string, value: string, valueTo: string)

  /** find_schema_index: the first column of that name, in any case, or -1. */
  function FindFrom(schema: seq<ColDef>, column: string, i: nat): (r: int)
    requires i <= |schema|
    ensures r == -1 || i <= r < |schema|
    ensures r >= 0 ==> SameName(schema[r].name, column) && forall j | i <= j < r :: !SameName(schema[j].name, column)
    ensures r < 0 ==> forall j | i <= j < |schema| :: !SameName(schema[j].name, column)
    decreases |schema| - i
  {
    if i == |schema| then -1
    else if SameName(schema[i].name, column) then i
    else FindFrom(schema, column, i + 1)
  }

  function FindColumn(schema: seq<ColDef>, column: string): int {
    FindFrom(schema, column, 0)
  }

  /** evaluate_select_clause: None for its errors. */
  ghost function Evaluate(schema: seq<ColDef>, row: Row, clause: Clause, strtod: Strtod): Option<bool> {
    var i := FindColumn(schema, clause.column);
    var literal := StripQuotes(clause.value);
    if i < 0 || i >= |row| then None
    else if !Supported(clause.op) || !SupportedFor(schema[i].ctype, clause.op) then None
    else if !ValidLiteral(schema[i].ctype, literal, strtod) then None
    else CompareValue(schema[i].ctype, row[i], clause.op, literal, strtod)
  }

  // ---------- the loops ----------

  method EqualsIgnoreCase(left: string, right: string) returns (same: bool)
    ensures same == SameName(left, right)
  {
    var i := 0;
    while i < |left| && i < |right|
      invariant 0 <= i <= |left| && i <= |right|
      invariant forall j | 0 <= j < i :: ToLower(left[j]) == ToLower(right[j])
    {
      if ToLower(left[i]) != ToLower(right[i]) {
        return false;
      }
      i := i + 1;
    }
    same := i == |left| && i == |right|;
  }

  method FindSchemaIndex(schema: seq<ColDef>, column: string) returns (index: int)
    ensures index == FindColumn(schema, column)
  {
    for i := 0 to |schema|
      invariant FindFrom(schema, column, i) == FindColumn(schema, column)
    {
      var same := EqualsIgnoreCase(schema[i].name, column);
      if same {
        return i;
      }
    }
    index := -1;
  }

  method CompareValueByType(ctype: ColumnType, left: string, op: string, right: string, strtod: Strtod)
    returns (result: Option<bool>)
    ensures result == CompareValue(ctype, left, op, right, strtod) && Tells(ctype, left, op, right, strtod, result)
  {
    CompareTells(ctype, left, op, right, strtod);
    if ctype.VARCHAR? && op == "LIKE" {
      var matched := LikeMatch(left, right);
      return Some(matched);
    }
    if ctype.DATETIME? && op != "=" && op != "!=" {
      return None;
    }
    var cmp := CellOrder(ctype, left, right, strtod);
    result := if cmp.None? then None else Compared(cmp.value, op);
  }

  method EvaluateSelectClause(schema: seq<ColDef>, row: Row, clause: Clause, strtod: Strtod)
    returns (result: Option<bool>)
    ensures result == Evaluate(schema, row, clause, strtod) && ClauseTells(schema, row, clause, strtod, result)
  {
    EvaluateTells(schema, row, clause, strtod);
    var i := FindSchemaIndex(schema, clause.column);
    if i < 0 || i >= |row| {
      return None;
    }
    var literal := StripQuotes(clause.value);
    if !Supported(clause.op) || !SupportedFor(schema[i].ctype, clause.op)
       || !ValidLiteral(schema[i].ctype, literal, strtod) {
      return None;
    }
    result := CompareValueByType(schema[i].ctype, row[i], clause.op, literal, strtod);
  }
}
