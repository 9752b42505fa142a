/** Which rows the index paths of src/engine.c select, and that they are the rows a scan would select. */
module QueryAgreement {
  import opened Common
  import opened Cells
  import opened Like
  import opened Where
  import opened Select
  import opened IndexedRows
  import opened TrieWords
  import BPlusTree

  const INT_MAX: int := 0x7fff_ffff
  const INT_MIN: int := -0x8000_0000

  // ---------- literals and path choice ----------

  function TrimEnd(s: string): string {
    if s != "" && IsSpace(s[|s| - 1]) then TrimEnd(s[..|s| - 1]) else s
  }

  /** parse_int_literal */
  function ParseInt(s: string): Option<int> {
    var n := ParseLong(TrimEnd(SkipSpaces(StripQuotes(s))));
    if n.Some? && INT_MIN <= n.value <= INT_MAX then n else None
  }

  lemma {:induction false} TrimBlanks(t: string, blanks: string)
    requires forall i | 0 <= i < |blanks| :: IsSpace(blanks[i])
    requires t == "" || !IsSpace(t[|t| - 1])
    ensures TrimEnd(t + blanks) == t
  {
    if blanks == "" {
      assert t + blanks == t;
    } else {
      assert (t + blanks)[..|t + blanks| - 1] == t + blanks[..|blanks| - 1];
      TrimBlanks(t, blanks[..|blanks| - 1]);
    }
  }

  lemma {:induction false} BlanksBehind(s: string) returns (blanks: string)
    ensures s == TrimEnd(s) + blanks && forall i | 0 <= i < |blanks| :: IsSpace(blanks[i])
  {
    blanks := "";
    if s != "" && IsSpace(s[|s| - 1]) {
      blanks := BlanksBehind(s[..|s| - 1]);
      assert s == s[..|s| - 1] + [s[|s| - 1]];
      blanks := blanks + [s[|s| - 1]];
    }
  }

  /** The text, without its quotes, is the number v between blanks. */
  ghost predicate WritesInt(s: string, v: int) {
    exists number: string, blanks: string :: IntParts(s, v, number, blanks)
  }

  ghost predicate IntParts(s: string, v: int, number: string, blanks: string) {
    StripQuotes(s) == number + blanks && WritesNumber(number, v) && forall i | 0 <= i < |blanks| :: IsSpace(blanks[i])
  }

  lemma ReadsInt(inner: string, v: int, blanks: string, core: string, after: string)
    requires inner == blanks + (core + after) && core != "" && !IsSpace(core[0]) && !IsSpace(core[|core| - 1])
    requires forall i | 0 <= i < |blanks| :: IsSpace(blanks[i])
    requires forall i | 0 <= i < |after| :: IsSpace(after[i])
    ensures TrimEnd(SkipSpaces(inner)) == core
  {
    SkipBlanks(blanks, core + after);
    TrimBlanks(core, after);
  }

  lemma LiteralRead(s: string, v: int, number: string, after: string)
    requires IntParts(s, v, number, after)
    ensures ParseLong(TrimEnd(SkipSpaces(StripQuotes(s)))) == if LONG_MIN <= v <= LONG_MAX then Some(v) else None
  {
    var blanks: string, sign: string, digits: string :| NumberParts(number, v, blanks, sign, digits);
    var core := sign + digits;
    assert IsDigit(digits[0]) && IsDigit(digits[|digits| - 1]);
    assert core[|core| - 1] == digits[|digits| - 1] && core[0] == (if sign == "" then digits[0] else sign[0]);
    Regroup(blanks, sign, digits, after);
    Chain(sign, digits, after);
    ReadsInt(StripQuotes(s), v, blanks, core, after);
    Unspaced(core, v, sign, digits);
  }

  lemma Unspaced(core: string, v: int, sign: string, digits: string)
    requires core == sign + digits && NumberParts(core, v, "", sign, digits)
    ensures ParseLong(core) == if LONG_MIN <= v <= LONG_MAX then Some(v) else None
  {
    ParseLongExactly(core, v);
    assert IsDigit(digits[0]);
    assert sign == "" ==> core == digits;
    assert sign != "" ==> core[1..] == digits;
  }

  lemma LiteralWrites(s: string, v: int)
    requires ParseInt(s) == Some(v)
    ensures WritesInt(s, v)
  {
    var inner := StripQuotes(s);
    var before := BlanksBefore(inner);
    var t := SkipSpaces(inner);
    var after := BlanksBehind(t);
    var core := TrimEnd(t);
    ParseLongExactly(core, v);
    BlanksAhead(before, core, v);
    Chain(before, core, after);
    assert IntParts(s, v, before + core, after);
  }

  lemma BlanksAhead(before: string, core: string, v: int)
    requires WritesNumber(core, v) && forall i | 0 <= i < |before| :: IsSpace(before[i])
    ensures WritesNumber(before + core, v)
  {
    var blanks: string, sign: string, digits: string :| NumberParts(core, v, blanks, sign, digits);
    Chain(before, blanks, sign + digits);
    assert NumberParts(before + core, v, before + blanks, sign, digits);
  }

  /** An id literal reads as v exactly if it writes v and v is in the range of an int. */
  lemma ParseIntExactly(s: string, v: int)
    ensures ParseInt(s) == Some(v) <==> WritesInt(s, v) && INT_MIN <= v <= INT_MAX
  {
    if number: string, after: string :| IntParts(s, v, number, after) {
      LiteralRead(s, v, number, after);
    }
    if ParseInt(s) == Some(v) {
      LiteralWrites(s, v);
    }
  }

  predicate UsesIdIndex(q: Query) {
    |q.clauses| == 1 && SameName(q.clauses[0].column, "id") && q.clauses[0].op == "="
  }

  predicate UsesIdRange(q: Query) {
    |q.clauses| == 1 && SameName(q.clauses[0].column, "id") && SameName(q.clauses[0].op, "BETWEEN")
  }

  /** parse_between_bounds: the bounds in ascending order. */
  function Bounds(c: Clause): Option<(int, int)> {
    var a, b := ParseInt(c.value), ParseInt(c.valueTo);
    if a.None? || b.None? then None
    else if a.value > b.value then Some((b.value, a.value))
    else Some((a.value, b.value))
  }

  /** should_use_trie_prefix: the prefix to look up. */
  function TriePrefix(table: string, q: Query): Option<string> {
    if |q.clauses| != 1 || !SameName(table, "dictionary") || !SameName(q.clauses[0].column, "english")
       || q.clauses[0].op != "LIKE" then None
    else
      var literal := StripQuotes(q.clauses[0].value);
      if |literal| < 2 || literal[|literal| - 1] != '%' then None
      else
        var prefix := literal[..|literal| - 1];
        if NoWildcard(prefix) && IsWord(prefix) then Some(prefix) else None
  }

  // ---------- one condition ----------

  /** With a single condition WHERE decides what that condition says. */
  lemma SingleClause(schema: seq<ColDef>, row: Row, q: Query, strtod: Strtod)
    requires |q.clauses| == 1
    ensures Decision(schema, row, q, strtod) == Evaluate(schema, row, q.clauses[0], strtod)
  {
    var verdicts := Verdicts(schema, row, q.clauses, strtod);
    VerdictAt(schema, row, q.clauses, strtod, 0);
    DecideOne(q, verdicts);
  }

  lemma DecideOne(q: Query, verdicts: seq<Option<bool>>)
    requires |q.clauses| == |verdicts| == 1
    ensures Decide(q, verdicts) == verdicts[0]
  {
    var holds := Holds(verdicts);
    assert Group(q, 0, 0);
    assert AllValid(q, verdicts) <==> verdicts[0].Some?;
    var v: Option<bool> := verdicts[0];
    match v
    case None =>
    case Some(b) =>
      assert v == Some(b);
      assert holds[0] == b;
      if holds[0] {
        assert forall k | 0 <= k <= 0 :: holds[k];
        assert SomeGroupHolds(q, holds);
      }
      if SomeGroupHolds(q, holds) {
        var a: nat, c: nat :| Group(q, a, c) && forall k | a <= k <= c :: holds[k];
        assert a == 0 && holds[a];
      }
  }

  lemma {:induction false} FindSame(schema: seq<ColDef>, a: string, b: string, i: nat)
    requires SameName(a, b) && i <= |schema|
    ensures FindFrom(schema, a, i) == FindFrom(schema, b, i)
    decreases |schema| - i
  {
    if i < |schema| {
      FindSame(schema, a, b, i + 1);
    }
  }

  // ---------- rows by position ----------

  /** The rows at the listed positions, skipping positions that do not exist. */
  function AtPositions(rows: seq<Row>, at: seq<int>): seq<Row> {
    if at == [] then []
    else
      var before, i := AtPositions(rows, at[..|at| - 1]), at[|at| - 1];
      if 0 <= i < |rows| then before + [rows[i]] else before
  }

  lemma {:induction false} AtValidPositions(rows: seq<Row>, at: seq<int>)
    requires forall k | 0 <= k < |at| :: 0 <= at[k] < |rows|
    ensures |AtPositions(rows, at)| == |at| && forall k | 0 <= k < |at| :: AtPositions(rows, at)[k] == rows[at[k]]
  {
    if at != [] {
      AtValidPositions(rows, at[..|at| - 1]);
    }
  }

  ghost predicate Increasing(s: seq<int>) {
    forall i, j | 0 <= i < j < |s| :: s[i] < s[j]
  }

  /** Increasing sequences with the same members are equal. */
  lemma {:induction false} IncreasingUnique(a: seq<int>, b: seq<int>)
    requires Increasing(a) && Increasing(b) && forall x :: x in a <==> x in b
    ensures a == b
  {
    if a == [] || b == [] {
      if a + b != [] {
        HasMember(a + b);
      }
    } else {
      var x, y := a[|a| - 1], b[|b| - 1];
      assert x in a && y in b;
      LastIsMax(a, y);
      LastIsMax(b, x);
      var a', b' := a[..|a| - 1], b[..|b| - 1];
      assert a == a' + [x] && b == b' + [y];
      forall z
        ensures z in a' <==> z in b'
      {
        NotLast(a, z);
        NotLast(b, z);
      }
      IncreasingUnique(a', b');
    }
  }

  lemma HasMember(s: seq<int>)
    requires s != []
    ensures exists x :: x in s
  {
    var x := s[0];
    assert x in s;
  }

  lemma LastIsMax(s: seq<int>, x: int)
    requires Increasing(s) && x in s
    ensures x <= s[|s| - 1]
  {
  }

  lemma NotLast(s: seq<int>, x: int)
    requires Increasing(s) && s != []
    ensures x in s[..|s| - 1] <==> x in s && x != s[|s| - 1]
  {
    var n := |s| - 1;
    assert forall k | 0 <= k < n :: s[..n][k] == s[k];
  }

  /** The positions a scan accepts, in order. */
  lemma ScannedPositions(schema: seq<ColDef>, rows: seq<Row>, q: Query, strtod: Strtod) returns (at: seq<int>)
    requires Matching(schema, rows, q, strtod).Some?
    ensures Increasing(at) && Matching(schema, rows, q, strtod) == Some(AtPositions(rows, at))
    ensures forall i: int :: i in at <==> 0 <= i < |rows| && Decision(schema, rows[i], q, strtod) == Some(true)
  {
    var found := MatchingExactly(schema, rows, q, strtod);
    at := seq(|found|, k requires 0 <= k < |found| => found[k]);
    forall i: int
      ensures i in at <==> 0 <= i < |rows| && Decision(schema, rows[i], q, strtod) == Some(true)
    {
      if i in at {
        var k :| 0 <= k < |at| && at[k] == i;
        assert found[k] in found;
      }
      if 0 <= i < |rows| && Decision(schema, rows[i], q, strtod) == Some(true) {
        var n: nat := i;
        assert n in found;
        var k :| 0 <= k < |found| && found[k] == n;
        assert at[k] == i;
      }
    }
    AtValidPositions(rows, at);
    assert Matching(schema, rows, q, strtod).value == AtPositions(rows, at);
  }

  /** Those positions determine what the scan selects. */
  lemma ScanIsPositions(schema: seq<ColDef>, rows: seq<Row>, q: Query, strtod: Strtod, at: seq<int>)
    requires Matching(schema, rows, q, strtod).Some? && Increasing(at)
    requires forall i: int :: i in at <==> 0 <= i < |rows| && Decision(schema, rows[i], q, strtod) == Some(true)
    ensures Matching(schema, rows, q, strtod).value == AtPositions(rows, at)
  {
    var scanned := ScannedPositions(schema, rows, q, strtod);
    IncreasingUnique(scanned, at);
  }

  // ---------- ids ----------

  /** The table's id column: an INT column of numbers. */
  ghost predicate IdColumn(schema: seq<ColDef>, rows: seq<Row>, col: nat) {
    && FindColumn(schema, "id") == col && schema[col].ctype == INT
    && forall i | 0 <= i < |rows| :: col < |rows[i]| && ParseLong(rows[i][col]).Some?
  }

  /** It is a key if its numbers are distinct and positive. */
  ghost predicate KeyColumn(schema: seq<ColDef>, rows: seq<Row>, col: nat) {
    && IdColumn(schema, rows, col)
    && (forall i | 0 <= i < |rows| :: IdOf(rows[i], col) > 0)
    && DistinctIds(rows, col)
  }

  /** The index, which holds positive ids and the last row of each, says all about id k. */
  ghost predicate SaysAll(rows: seq<Row>, col: nat, k: int) {
    if k > 0 then forall i, j | 0 <= i < j < |rows| && IdOf(rows[i], col) == k :: IdOf(rows[j], col) != k
    else forall i | 0 <= i < |rows| :: IdOf(rows[i], col) != k
  }

  /** A cell that is one whole number is read the same way by strtol, atoi and the scan. */
  lemma WholeNumber(s: string)
    requires ParseLong(s).Some?
    ensures LeadingNumber(s) == ParseLong(s)
  {
    var t := SkipSpaces(s);
    var signed := t != "" && (t[0] == '-' || t[0] == '+');
    DigitPrefixAll(if signed then t[1..] else t);
  }

  lemma {:induction false} SkipSpacesTwice(s: string)
    ensures SkipSpaces(SkipSpaces(s)) == SkipSpaces(s)
  {
    if s != "" && IsSpace(s[0]) {
      SkipSpacesTwice(s[1..]);
    }
  }

  /** A literal the scan accepts means the same to the index path, or nothing outside the range of an int. */
  lemma LiteralAgrees(value: string, k: int)
    requires ParseLong(StripQuotes(value)) == Some(k)
    ensures ParseInt(value) == if INT_MIN <= k <= INT_MAX then Some(k) else None
  {
    var t := SkipSpaces(StripQuotes(value));
    var signed := t != "" && (t[0] == '-' || t[0] == '+');
    var digits := if signed then t[1..] else t;
    assert IsDigit(digits[|digits| - 1]) && digits[|digits| - 1] == t[|t| - 1];
    assert TrimEnd(t) == t;
    SkipSpacesTwice(StripQuotes(value));
  }

  lemma IdDecision(schema: seq<ColDef>, rows: seq<Row>, col: nat, q: Query, k: int, strtod: Strtod, i: nat)
    requires IdColumn(schema, rows, col) && UsesIdIndex(q) && i < |rows|
    requires ParseLong(StripQuotes(q.clauses[0].value)) == Some(k)
    ensures Decision(schema, rows[i], q, strtod) == Some(IdOf(rows[i], col) == k)
  {
    SingleClause(schema, rows[i], q, strtod);
    FindSame(schema, q.clauses[0].column, "id", 0);
    WholeNumber(rows[i][col]);
  }

  lemma IdScanSucceeds(schema: seq<ColDef>, rows: seq<Row>, col: nat, q: Query, k: int, strtod: Strtod)
    requires IdColumn(schema, rows, col) && UsesIdIndex(q)
    requires ParseLong(StripQuotes(q.clauses[0].value)) == Some(k)
    ensures Matching(schema, rows, q, strtod).Some?
  {
    MatchingError(schema, rows, q, strtod);
    forall i | 0 <= i < |rows|
      ensures Decision(schema, rows[i], q, strtod).Some?
    {
      IdDecision(schema, rows, col, q, k, strtod, i);
    }
  }

  /** What bptree_search returns for an id. */
  function Found(m: map<int, int>, id: int): int {
    if id in m then m[id] else -1
  }

  /** WHERE id = k through the tree selects what the scan selects exactly when the index says all about k. */
  lemma IdLookupAgrees(schema: seq<ColDef>, rows: seq<Row>, col: nat, q: Query, k: int, strtod: Strtod)
    requires IdColumn(schema, rows, col) && UsesIdIndex(q)
    requires ParseLong(StripQuotes(q.clauses[0].value)) == Some(k)
    ensures Matching(schema, rows, q, strtod) == Some(AtPositions(rows, [Found(IndexOf(rows, col), k)]))
            <==> SaysAll(rows, col, k)
  {
    IdScanSucceeds(schema, rows, col, q, k, strtod);
    var scanned := ScannedPositions(schema, rows, q, strtod);
    forall i: int
      ensures i in scanned <==> 0 <= i < |rows| && IdOf(rows[i], col) == k
    {
      if 0 <= i < |rows| {
        IdDecision(schema, rows, col, q, k, strtod, i);
      }
    }
    OnePosition(rows, col, k, scanned);
  }

  /** The position the index gives for k, if any, is every position of k exactly when the index says all. */
  lemma OnePosition(rows: seq<Row>, col: nat, k: int, all: seq<int>)
    requires Increasing(all) && forall i: int :: i in all <==> 0 <= i < |rows| && IdOf(rows[i], col) == k
    ensures AtPositions(rows, all) == AtPositions(rows, [Found(IndexOf(rows, col), k)]) <==> SaysAll(rows, col, k)
  {
    IndexMeans(rows, col);
    var p := Found(IndexOf(rows, col), k);
    var at: seq<int> := if p >= 0 then [p] else [];
    assert [p][..0] == [];
    assert p >= 0 ==> LastAt(rows, col, k, p);
    assert forall i | 0 <= i < |all| :: all[i] in all;
    AtValidPositions(rows, all);
    if SaysAll(rows, col, k) {
      assert forall i | i in all :: i in at;
      IncreasingUnique(all, at);
    } else if i: nat, j: nat :| i < j < |rows| && IdOf(rows[i], col) == k && IdOf(rows[j], col) == k {
      assert i in all && j in all;
      assert |all| > 1;
    } else {
      var i :| 0 <= i < |rows| && IdOf(rows[i], col) == k;
      assert i in all && p < 0;
    }
  }

  /** BETWEEN through the tree selects exactly the rows with an id in bounds, each once, by ascending id. */
  lemma RangeSelects(rows: seq<Row>, col: nat, from: int, to: int, ks: seq<int>, at: seq<int>)
    requires DistinctIds(rows, col) && forall i | 0 <= i < |rows| :: IdOf(rows[i], col) > 0
    requires BPlusTree.KeyRange(IndexOf(rows, col), from, to, ks)
    requires BPlusTree.ValuesAt(IndexOf(rows, col), ks, at)
    ensures
      var sel := AtPositions(rows, at);
      && |sel| == |ks|
      && (forall i, j | 0 <= i < j < |sel| :: IdOf(sel[i], col) < IdOf(sel[j], col))
      && (forall r :: r in sel <==> r in rows && from <= IdOf(r, col) <= to)
  {
    var m := IndexOf(rows, col);
    IndexMeans(rows, col);
    forall k | 0 <= k < |at|
      ensures 0 <= at[k] < |rows| && IdOf(rows[at[k]], col) == ks[k] && from <= ks[k] <= to
    {
      assert ks[k] in ks;
      assert LastAt(rows, col, ks[k], m[ks[k]]);
    }
    AtValidPositions(rows, at);
    var sel := AtPositions(rows, at);
    forall r | r in rows && from <= IdOf(r, col) <= to
      ensures r in sel
    {
      var i :| 0 <= i < |rows| && rows[i] == r;
      var id := IdOf(r, col);
      assert id in m && id in ks;
      var k :| 0 <= k < |ks| && ks[k] == id;
      assert IdOf(rows[at[k]], col) == id;
      assert sel[k] == rows[at[k]];
    }
  }

  // ---------- words ----------

  /** The dictionary's word column: words over a-z. */
  ghost predicate WordColumn(schema: seq<ColDef>, rows: seq<Row>, col: nat) {
    && FindColumn(schema, "english") == col && schema[col].ctype == VARCHAR
    && (forall i | 0 <= i < |rows| :: col < |rows[i]| && IsWord(rows[i][col]))
  }

  /** No word that starts with the prefix is there twice. */
  ghost predicate Unrepeated(words: seq<string>, prefix: string) {
    forall i, j | 0 <= i < j < |words| && prefix <= words[i] :: words[i] != words[j]
  }

  ghost predicate LastPlace(words: seq<string>, i: nat) {
    forall j | i < j < |words| :: words[j] != words[i]
  }

  /** What the trie holds after a rebuild from the words in order: the last position of each. */
  function WordIndex(words: seq<string>): map<string, int> {
    if words == [] then map[]
    else WordIndex(words[..|words| - 1])[words[|words| - 1] := |words| - 1]
  }

  lemma {:induction false} WordIndexMeans(words: seq<string>)
    ensures forall w :: w in WordIndex(words) <==> w in words
    ensures forall w | w in WordIndex(words) ::
              var p := WordIndex(words)[w];
              0 <= p < |words| && words[p] == w && forall j | p < j < |words| :: words[j] != w
  {
    if words != [] {
      var front := words[..|words| - 1];
      WordIndexMeans(front);
      assert words == front + [words[|words| - 1]];
      assert forall j | 0 <= j < |front| :: front[j] == words[j];
    }
  }

  function WordsOf(rows: seq<Row>, col: nat): (r: seq<string>)
    ensures |r| == |rows|
    ensures forall i | 0 <= i < |rows| && col < |rows[i]| :: r[i] == rows[i][col]
  {
    seq(|rows|, i requires 0 <= i < |rows| => if col < |rows[i]| then rows[i][col] else "")
  }

  lemma WordDecision(schema: seq<ColDef>, rows: seq<Row>, col: nat, q: Query, prefix: string, strtod: Strtod, i: nat)
    requires WordColumn(schema, rows, col) && TriePrefix("dictionary", q) == Some(prefix) && i < |rows|
    ensures Decision(schema, rows[i], q, strtod) == Some(prefix <= rows[i][col])
  {
    SingleClause(schema, rows[i], q, strtod);
    FindSame(schema, q.clauses[0].column, "english", 0);
    var literal := StripQuotes(q.clauses[0].value);
    assert literal == prefix + "%";
    PrefixPattern(rows[i][col], prefix);
  }

  lemma WordScanSucceeds(schema: seq<ColDef>, rows: seq<Row>, col: nat, q: Query, prefix: string, strtod: Strtod)
    requires WordColumn(schema, rows, col) && TriePrefix("dictionary", q) == Some(prefix)
    ensures Matching(schema, rows, q, strtod).Some?
  {
    MatchingError(schema, rows, q, strtod);
    forall i | 0 <= i < |rows|
      ensures Decision(schema, rows[i], q, strtod).Some?
    {
      WordDecision(schema, rows, col, q, prefix, strtod, i);
    }
  }

  ghost predicate NonDecreasing(s: seq<int>) {
    forall i, j | 0 <= i < j < |s| :: s[i] <= s[j]
  }

  /** Sorting distinct positions gives an increasing list with the same members. */
  lemma SortedPositions(found: seq<int>, sorted: seq<int>)
    requires forall i, j | 0 <= i < j < |found| :: found[i] != found[j]
    requires multiset(sorted) == multiset(found) && NonDecreasing(sorted)
    ensures Increasing(sorted) && forall x :: x in sorted <==> x in found
  {
    forall x
      ensures x in sorted <==> x in found
      ensures multiset(found)[x] <= 1
    {
      assert x in sorted <==> x in multiset(sorted);
      assert x in found <==> x in multiset(found);
      AtMostOnce(found, x);
    }
    forall i, j | 0 <= i < j < |sorted|
      ensures sorted[i] < sorted[j]
    {
      if sorted[i] == sorted[j] {
        Twice(sorted, i, j);
      }
    }
  }

  lemma {:induction false} AtMostOnce(s: seq<int>, x: int)
    requires forall i, j | 0 <= i < j < |s| :: s[i] != s[j]
    ensures multiset(s)[x] <= 1
  {
    if s != [] {
      var front, last := s[..|s| - 1], s[|s| - 1];
      assert s == front + [last];
      AtMostOnce(front, x);
      if last == x {
        assert forall i | 0 <= i < |front| :: front[i] != x;
        assert x !in front;
      }
    }
  }

  lemma Twice(s: seq<int>, i: nat, j: nat)
    requires i < j < |s| && s[i] == s[j]
    ensures multiset(s)[s[i]] >= 2
  {
    assert s == s[..j] + [s[j]] + s[j + 1..];
    assert s[i] == s[..j][i] && s[..j][i] in s[..j];
  }

  /** english LIKE 'p%' through the trie and the sort selects the rows of the scan, in its order, exactly when no
      word with the prefix is repeated: found are the positions of the listed words, sorted is any sorted
      arrangement of them. */
  lemma PrefixLookupAgrees(schema: seq<ColDef>, rows: seq<Row>, col: nat, q: Query, prefix: string, strtod: Strtod,
                           ws: seq<string>, found: seq<int>, sorted: seq<int>)
    requires WordColumn(schema, rows, col) && TriePrefix("dictionary", q) == Some(prefix)
    requires LexList(WordIndex(WordsOf(rows, col)), prefix, ws) && |found| == |ws|
    requires forall k | 0 <= k < |ws| :: ws[k] in WordIndex(WordsOf(rows, col)) && found[k] == WordIndex(WordsOf(rows, col))[ws[k]]
    requires multiset(sorted) == multiset(found) && NonDecreasing(sorted)
    ensures Matching(schema, rows, q, strtod) == Some(AtPositions(rows, sorted)) <==> Unrepeated(WordsOf(rows, col), prefix)
  {
    var words := WordsOf(rows, col);
    WordScanSucceeds(schema, rows, col, q, prefix, strtod);
    DistinctFound(words, prefix, ws, found);
    SortedPositions(found, sorted);
    var scanned := ScannedPositions(schema, rows, q, strtod);
    forall i: int
      ensures i in scanned <==> 0 <= i < |words| && prefix <= words[i]
      ensures i in sorted <==> 0 <= i < |words| && prefix <= words[i] && LastPlace(words, i)
    {
      if 0 <= i < |rows| {
        WordDecision(schema, rows, col, q, prefix, strtod, i);
        FoundMembers(words, prefix, ws, found, i);
      } else {
        FoundInRange(words, prefix, ws, found, i);
      }
    }
    LastPlacesAreAll(rows, words, prefix, sorted, scanned);
  }

  /** The last places of the words with the prefix are all their places exactly when none is repeated. */
  lemma LastPlacesAreAll(rows: seq<Row>, words: seq<string>, prefix: string, last: seq<int>, all: seq<int>)
    requires |rows| == |words| && Increasing(last) && Increasing(all)
    requires forall i: int :: i in all <==> 0 <= i < |words| && prefix <= words[i]
    requires forall i: int :: i in last <==> 0 <= i < |words| && prefix <= words[i] && LastPlace(words, i)
    ensures AtPositions(rows, last) == AtPositions(rows, all) <==> Unrepeated(words, prefix)
  {
    assert forall k | 0 <= k < |last| :: last[k] in last;
    assert forall k | 0 <= k < |all| :: all[k] in all;
    AtValidPositions(rows, last);
    AtValidPositions(rows, all);
    if Unrepeated(words, prefix) {
      IncreasingUnique(last, all);
    } else {
      var i, j :| 0 <= i < j < |words| && prefix <= words[i] && words[i] == words[j];
      assert !LastPlace(words, i);
      FewerPositions(last, all, i);
    }
  }

  lemma {:induction false} MemberCount(s: seq<int>)
    requires Increasing(s)
    ensures |set x | x in s| == |s|
  {
    if s != [] {
      var n := |s| - 1;
      MemberCount(s[..n]);
      assert s == s[..n] + [s[n]];
      assert (set x | x in s) == (set x | x in s[..n]) + {s[n]};
    }
  }

  lemma FewerPositions(a: seq<int>, b: seq<int>, x: int)
    requires Increasing(a) && Increasing(b) && (forall y | y in a :: y in b) && x in b && x !in a
    ensures |a| < |b|
  {
    MemberCount(a);
    MemberCount(b);
    var some, more := set y | y in a, set y | y in b;
    assert more == some + (more - some) && x in more - some;
    assert |more| == |some| + |more - some|;
  }

  ghost predicate Positions(words: seq<string>, ws: seq<string>, found: seq<int>) {
    && |found| == |ws|
    && forall k | 0 <= k < |ws| :: ws[k] in WordIndex(words) && found[k] == WordIndex(words)[ws[k]]
  }

  lemma DistinctFound(words: seq<string>, prefix: string, ws: seq<string>, found: seq<int>)
    requires LexList(WordIndex(words), prefix, ws) && Positions(words, ws, found)
    ensures forall i, j | 0 <= i < j < |found| :: found[i] != found[j]
  {
    WordIndexMeans(words);
    forall i, j | 0 <= i < j < |found|
      ensures found[i] != found[j]
    {
      LexIrreflexive(ws[i]);
      assert LexLess(ws[i], ws[j]);
      assert words[found[i]] == ws[i] && words[found[j]] == ws[j];
    }
  }

  lemma FoundInRange(words: seq<string>, prefix: string, ws: seq<string>, found: seq<int>, i: int)
    requires LexList(WordIndex(words), prefix, ws) && Positions(words, ws, found)
    ensures i in found ==> 0 <= i < |words|
  {
    WordIndexMeans(words);
  }

  lemma FoundMembers(words: seq<string>, prefix: string, ws: seq<string>, found: seq<int>, i: nat)
    requires LexList(WordIndex(words), prefix, ws) && Positions(words, ws, found) && i < |words|
    ensures i in found <==> prefix <= words[i] && LastPlace(words, i)
  {
    WordIndexMeans(words);
    assert words[i] in words;
    var p := WordIndex(words)[words[i]];
    assert words[p] == words[i];
    if prefix <= words[i] && LastPlace(words, i) {
      assert p == i;
      assert words[i] in ws;
      var k :| 0 <= k < |ws| && ws[k] == words[i];
      assert found[k] == i;
    }
    if i in found {
      var k :| 0 <= k < |found| && found[k] == i;
      assert ws[k] in ws && words[found[k]] == ws[k];
    }
  }
}
