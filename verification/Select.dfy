/** SELECT without aggregates over the rows of a table, as in src/storage.c: filter, sort in place, limit,
    project. */
module Select {
  import opened Common
  import opened Cells
  import opened Where

  datatype OrderBy = OrderBy(column: string, asc: bool)

  datatype SelectSql = SelectSql(query: Query, columns: seq<string>, order: Option<OrderBy>, limit: int)

  // ---------- filtering ----------

  /** The rows WHERE accepts, in order; None if it is in error on some row. */
  ghost function Matching(schema: seq<ColDef>, rows: seq<Row>, q: Query, strtod: Strtod): Option<seq<Row>> {
    if rows == [] then Some([])
    else
      var before := Matching(schema, rows[..|rows| - 1], q, strtod);
      var last := Decision(schema, rows[|rows| - 1], q, strtod);
      if before.None? || last.None? then None
      else Some(if last.value then before.value + [rows[|rows| - 1]] else before.value)
  }

  lemma {:induction false} MatchingError(schema: seq<ColDef>, rows: seq<Row>, q: Query, strtod: Strtod)
    ensures Matching(schema, rows, q, strtod).None? <==>
              exists i | 0 <= i < |rows| :: Decision(schema, rows[i], q, strtod).None?
  {
    if rows != [] {
      var front, last := rows[..|rows| - 1], |rows| - 1;
      MatchingError(schema, front, q, strtod);
      assert forall i | 0 <= i < last :: rows[i] == front[i];
      if Matching(schema, rows, q, strtod).None? && Decision(schema, rows[last], q, strtod).Some? {
        var i :| 0 <= i < |front| && Decision(schema, front[i], q, strtod).None?;
        assert Decision(schema, rows[i], q, strtod).None?;
      }
    }
  }

  /** collect_matching_rows */
  method CollectMatchingRows(schema: seq<ColDef>, rows: seq<Row>, q: Query, strtod: Strtod)
    returns (selection: Option<seq<Row>>)
    ensures selection == Matching(schema, rows, q, strtod)
  {
    var found: seq<Row> := [];
    for i := 0 to |rows|
      invariant Matching(schema, rows[..i], q, strtod) == Some(found)
    {
      assert rows[..i + 1][..i] == rows[..i];
      var matched := RowMatches(schema, rows[i], q, strtod);
      if matched.None? {
        MatchingPrefix(schema, rows, q, strtod, i + 1);
        return None;
      }
      if matched.value {
        found := found + [rows[i]];
      }
    }
    assert rows[..|rows|] == rows;
    selection := Some(found);
  }

  lemma MatchingPrefix(schema: seq<ColDef>, rows: seq<Row>, q: Query, strtod: Strtod, n: nat)
    requires n <= |rows| && Matching(schema, rows[..n], q, strtod).None?
    ensures Matching(schema, rows, q, strtod).None?
  {
    MatchingError(schema, rows[..n], q, strtod);
    MatchingError(schema, rows, q, strtod);
    var i :| 0 <= i < |rows[..n]| && Decision(schema, rows[..n][i], q, strtod).None?;
    assert rows[..n][i] == rows[i];
  }

  // ---------- sorting ----------

  /** compare_rows_for_order: cells that do not parse fall back to text order. */
  function CompareRows(ctype: ColumnType, index: nat, left: Row, right: Row, strtod: Strtod): int
    requires index < |left| && index < |right|
  {
    var cmp := CellOrder(ctype, StripQuotes(left[index]), StripQuotes(right[index]), strtod);
    if cmp.Some? then cmp.value else Strcmp(left[index], right[index])
  }

  /** A cell that its column's type can read. */
  predicate Parses(ctype: ColumnType, cell: string, strtod: Strtod) {
    match ctype
    case INT => ParseLong(StripQuotes(cell)).Some?
    case FLOAT => strtod(StripQuotes(cell)).Some?
    case BOOLEAN => ParseBoolean(StripQuotes(cell)).Some?
    case _ => true
  }

  predicate IsNaN(ctype: ColumnType, cell: string, strtod: Strtod) {
    ctype.FLOAT? && strtod(StripQuotes(cell)) == Some(NaN)
  }

  /** Exchanging the rows changes the sign. */
  lemma CompareReversed(ctype: ColumnType, index: nat, x: Row, y: Row, strtod: Strtod)
    requires index < |x| && index < |y|
    ensures CompareRows(ctype, index, x, y, strtod) == -CompareRows(ctype, index, y, x, strtod)
  {
    StrcmpOrder(StripQuotes(x[index]), StripQuotes(y[index]));
    StrcmpOrder(x[index], y[index]);
  }

  /** On cells that parse, NaN apart, the comparison is the sign of a total preorder. */
  lemma CompareIsPreorder(ctype: ColumnType, index: nat, x: Row, y: Row, z: Row, strtod: Strtod)
    requires index < |x| && index < |y| && index < |z|
    requires Parses(ctype, x[index], strtod) && Parses(ctype, y[index], strtod) && Parses(ctype, z[index], strtod)
    requires !IsNaN(ctype, x[index], strtod) && !IsNaN(ctype, y[index], strtod) && !IsNaN(ctype, z[index], strtod)
    ensures CompareRows(ctype, index, x, y, strtod) <= 0 && CompareRows(ctype, index, y, z, strtod) <= 0 ==>
              CompareRows(ctype, index, x, z, strtod) <= 0
  {
    var a, b, c := StripQuotes(x[index]), StripQuotes(y[index]), StripQuotes(z[index]);
    if Strcmp(a, b) <= 0 && Strcmp(b, c) <= 0 {
      StrcmpTransitive(a, b, c);
    }
  }

  /** The comparison sort_selection tests, with the sign of the direction. */
  function Order(ctype: ColumnType, index: nat, asc: bool, strtod: Strtod): (Row, Row) -> int {
    (left: Row, right: Row) =>
      if index < |left| && index < |right| then
        CompareRows(ctype, index, left, right, strtod) * (if asc then 1 else -1)
      else 0
  }

  /** A comparison that is total and transitive on some rows. */
  ghost predicate Preorder(order: (Row, Row) -> int, rows: multiset<Row>) {
    && (forall x, y | x in rows && y in rows :: order(x, y) > 0 ==> order(y, x) <= 0)
    && (forall x, y, z {:trigger order(x, y), order(y, z)} | x in rows && y in rows && z in rows ::
          order(x, y) <= 0 && order(y, z) <= 0 ==> order(x, z) <= 0)
  }

  ghost predicate Wide(rows: multiset<Row>, index: nat) {
    forall r | r in rows :: index < |r|
  }

  /** A cell z that does not parse lies between two that do as text, against the order of their values. */
  ghost predicate Between(ctype: ColumnType, index: nat, x: Row, y: Row, z: Row, strtod: Strtod)
    requires index < |x| && index < |y| && index < |z|
  {
    && Parses(ctype, x[index], strtod) && Parses(ctype, y[index], strtod) && !Parses(ctype, z[index], strtod)
    && CompareRows(ctype, index, x, y, strtod) <= 0
    && Strcmp(x[index], z[index]) > 0 && Strcmp(z[index], y[index]) > 0
  }

  /** NaN is equal to two different numbers. */
  ghost predicate Bridged(ctype: ColumnType, index: nat, x: Row, y: Row, n: Row, strtod: Strtod)
    requires index < |x| && index < |y| && index < |n|
  {
    && Parses(ctype, x[index], strtod) && Parses(ctype, y[index], strtod) && IsNaN(ctype, n[index], strtod)
    && CompareRows(ctype, index, x, y, strtod) < 0
  }

  /** Three cells that ORDER BY compares in no order. */
  ghost predicate Clash(ctype: ColumnType, index: nat, rows: multiset<Row>, strtod: Strtod)
    requires Wide(rows, index)
  {
    exists x, y, z | x in rows && y in rows && z in rows ::
      Between(ctype, index, x, y, z, strtod) || Bridged(ctype, index, x, y, z, strtod)
  }

  /** The three rows break transitivity. */
  ghost predicate Breaks(ctype: ColumnType, index: nat, x: Row, y: Row, z: Row, strtod: Strtod)
    requires index < |x| && index < |y| && index < |z|
  {
    && CompareRows(ctype, index, x, y, strtod) <= 0 && CompareRows(ctype, index, y, z, strtod) <= 0
    && CompareRows(ctype, index, x, z, strtod) > 0
  }

  /** Cells that parse break it only across a NaN. */
  lemma BreakBridges(ctype: ColumnType, index: nat, x: Row, y: Row, z: Row, strtod: Strtod)
    requires index < |x| && index < |y| && index < |z| && Breaks(ctype, index, x, y, z, strtod)
    requires Parses(ctype, x[index], strtod) && Parses(ctype, y[index], strtod) && Parses(ctype, z[index], strtod)
    ensures Bridged(ctype, index, z, x, y, strtod)
  {
    CompareReversed(ctype, index, x, z, strtod);
    if !IsNaN(ctype, x[index], strtod) && !IsNaN(ctype, y[index], strtod) && !IsNaN(ctype, z[index], strtod) {
      CompareIsPreorder(ctype, index, x, y, z, strtod);
    }
  }

  /** With one cell that does not parse, that cell is between the other two. */
  lemma BreakBetween(ctype: ColumnType, index: nat, x: Row, y: Row, z: Row, strtod: Strtod)
    requires index < |x| && index < |y| && index < |z| && Breaks(ctype, index, x, y, z, strtod)
    requires !(Parses(ctype, x[index], strtod) && Parses(ctype, y[index], strtod) && Parses(ctype, z[index], strtod))
    ensures Between(ctype, index, z, x, y, strtod) || Between(ctype, index, y, z, x, strtod)
            || Between(ctype, index, x, y, z, strtod)
  {
    var a, b, c := x[index], y[index], z[index];
    CompareReversed(ctype, index, x, z, strtod);
    StrcmpOrder(a, b);
    StrcmpOrder(b, c);
    StrcmpOrder(c, a);
    if Strcmp(a, b) <= 0 && Strcmp(b, c) <= 0 {
      StrcmpTransitive(a, b, c);
    }
  }

  lemma ClashBreaks(ctype: ColumnType, index: nat, x: Row, y: Row, z: Row, strtod: Strtod)
    requires index < |x| && index < |y| && index < |z|
    requires Between(ctype, index, x, y, z, strtod) || Bridged(ctype, index, x, y, z, strtod)
    ensures Breaks(ctype, index, z, x, y, strtod) || Breaks(ctype, index, y, z, x, strtod)
  {
    CompareReversed(ctype, index, x, y, strtod);
    StrcmpOrder(x[index], z[index]);
    StrcmpOrder(z[index], y[index]);
  }

  lemma BreakClashes(ctype: ColumnType, index: nat, rows: multiset<Row>, x: Row, y: Row, z: Row, strtod: Strtod)
    requires Wide(rows, index) && x in rows && y in rows && z in rows && Breaks(ctype, index, x, y, z, strtod)
    ensures Clash(ctype, index, rows, strtod)
  {
    if Parses(ctype, x[index], strtod) && Parses(ctype, y[index], strtod) && Parses(ctype, z[index], strtod) {
      BreakBridges(ctype, index, x, y, z, strtod);
    } else {
      BreakBetween(ctype, index, x, y, z, strtod);
    }
  }

  /** ORDER BY, in either direction, compares by a preorder exactly when no three cells clash. */
  lemma OrderExactly(ctype: ColumnType, index: nat, asc: bool, rows: multiset<Row>, strtod: Strtod)
    requires Wide(rows, index)
    ensures Preorder(Order(ctype, index, asc, strtod), rows) <==> !Clash(ctype, index, rows, strtod)
  {
    var order := Order(ctype, index, asc, strtod);
    if Clash(ctype, index, rows, strtod) {
      var x, y, z :| x in rows && y in rows && z in rows
                     && (Between(ctype, index, x, y, z, strtod) || Bridged(ctype, index, x, y, z, strtod));
      ClashBreaks(ctype, index, x, y, z, strtod);
      if Breaks(ctype, index, z, x, y, strtod) {
        BreakUnorders(ctype, index, asc, rows, z, x, y, strtod);
      } else {
        BreakUnorders(ctype, index, asc, rows, y, z, x, strtod);
      }
    } else {
      NoClashOrders(ctype, index, asc, rows, strtod);
    }
  }

  lemma BreakUnorders(ctype: ColumnType, index: nat, asc: bool, rows: multiset<Row>, x: Row, y: Row, z: Row, strtod: Strtod)
    requires Wide(rows, index) && x in rows && y in rows && z in rows && Breaks(ctype, index, x, y, z, strtod)
    ensures !Preorder(Order(ctype, index, asc, strtod), rows)
  {
    var order := Order(ctype, index, asc, strtod);
    CompareReversed(ctype, index, x, y, strtod);
    CompareReversed(ctype, index, y, z, strtod);
    CompareReversed(ctype, index, x, z, strtod);
    if asc {
      assert order(x, y) <= 0 && order(y, z) <= 0 && order(x, z) > 0;
    } else {
      assert order(z, y) <= 0 && order(y, x) <= 0 && order(z, x) > 0;
    }
  }

  lemma NoClashOrders(ctype: ColumnType, index: nat, asc: bool, rows: multiset<Row>, strtod: Strtod)
    requires Wide(rows, index) && !Clash(ctype, index, rows, strtod)
    ensures Preorder(Order(ctype, index, asc, strtod), rows)
  {
    var order := Order(ctype, index, asc, strtod);
    forall x, y | x in rows && y in rows && order(x, y) > 0
      ensures order(y, x) <= 0
    {
      CompareReversed(ctype, index, x, y, strtod);
    }
    forall x, y, z | x in rows && y in rows && z in rows && order(x, y) <= 0 && order(y, z) <= 0
      ensures order(x, z) <= 0
    {
      CompareReversed(ctype, index, x, y, strtod);
      CompareReversed(ctype, index, y, z, strtod);
      CompareReversed(ctype, index, x, z, strtod);
      if Breaks(ctype, index, x, y, z, strtod) {
        BreakClashes(ctype, index, rows, x, y, z, strtod);
      }
      if Breaks(ctype, index, z, y, x, strtod) {
        BreakClashes(ctype, index, rows, z, y, x, strtod);
      }
    }
  }

  /** Where every cell parses only a NaN beside two different numbers is in the way. */
  lemma ParsedColumnsOrder(ctype: ColumnType, index: nat, asc: bool, rows: multiset<Row>, strtod: Strtod)
    requires Wide(rows, index) && forall r | r in rows :: Parses(ctype, r[index], strtod)
    ensures Preorder(Order(ctype, index, asc, strtod), rows) <==>
            forall x, y, n | x in rows && y in rows && n in rows :: !Bridged(ctype, index, x, y, n, strtod)
  {
    OrderExactly(ctype, index, asc, rows, strtod);
  }

  ghost predicate Sorted(order: (Row, Row) -> int, rows: seq<Row>) {
    forall i, j | 0 <= i < j < |rows| :: order(rows[i], rows[j]) <= 0
  }

  // ---------- what ORDER BY means ----------

  /** The value of the first cell is at most that of the second: numbers and booleans by value, the rest as texts. */
  ghost predicate AtMost(ctype: ColumnType, x: string, y: string, strtod: Strtod) {
    match ctype
    case INT =>
      var a, b := ParseLong(StripQuotes(x)), ParseLong(StripQuotes(y));
      a.Some? && b.Some? && a.value <= b.value
    case FLOAT =>
      var a, b := strtod(StripQuotes(x)), strtod(StripQuotes(y));
      a.Some? && b.Some? && !Below(b.value, a.value)
    case BOOLEAN =>
      var a, b := ParseBoolean(StripQuotes(x)), ParseBoolean(StripQuotes(y));
      a.Some? && b.Some? && a.value <= b.value
    case _ => !TextBefore(StripQuotes(y), StripQuotes(x))
  }

  /** Rising with ASC, falling with DESC. */
  ghost predicate Ranked(ctype: ColumnType, k: nat, asc: bool, rows: seq<Row>, strtod: Strtod) {
    forall i, j | 0 <= i < j < |rows| && k < |rows[i]| && k < |rows[j]| ::
      if asc then AtMost(ctype, rows[i][k], rows[j][k], strtod) else AtMost(ctype, rows[j][k], rows[i][k], strtod)
  }

  /** Every cell of the column parses, and none is NaN. */
  ghost predicate Sortable(ctype: ColumnType, k: nat, rows: multiset<Row>, strtod: Strtod) {
    forall r | r in rows :: k < |r| && Parses(ctype, r[k], strtod) && !IsNaN(ctype, r[k], strtod)
  }

  lemma CompareMeans(ctype: ColumnType, k: nat, x: Row, y: Row, strtod: Strtod)
    requires k < |x| && k < |y| && Parses(ctype, x[k], strtod) && Parses(ctype, y[k], strtod)
    ensures CompareRows(ctype, k, x, y, strtod) <= 0 <==> AtMost(ctype, x[k], y[k], strtod)
    ensures CompareRows(ctype, k, x, y, strtod) >= 0 <==> AtMost(ctype, y[k], x[k], strtod)
  {
    StrcmpMeans(StripQuotes(x[k]), StripQuotes(y[k]));
  }

  /** A column whose cells all parse, NaN apart, is sorted by value in the direction asked for. */
  lemma SortedMeans(ctype: ColumnType, k: nat, asc: bool, rows: seq<Row>, strtod: Strtod)
    requires Sortable(ctype, k, multiset(rows), strtod)
    requires Preorder(Order(ctype, k, asc, strtod), multiset(rows)) ==> Sorted(Order(ctype, k, asc, strtod), rows)
    ensures Ranked(ctype, k, asc, rows, strtod)
  {
    ParsedColumnsOrder(ctype, k, asc, multiset(rows), strtod);
    var order := Order(ctype, k, asc, strtod);
    forall i, j | 0 <= i < j < |rows|
      ensures
        k < |rows[i]| && k < |rows[j]|
        && if asc then AtMost(ctype, rows[i][k], rows[j][k], strtod) else AtMost(ctype, rows[j][k], rows[i][k], strtod)
    {
      assert rows[i] in multiset(rows) && rows[j] in multiset(rows);
      assert order(rows[i], rows[j]) <= 0;
      CompareMeans(ctype, k, rows[i], rows[j], strtod);
    }
  }

  /** Where the values of the two are different no arrangement is sorted at all: the three follow each other in
      a circle. */
  lemma MixedCellsCycle(ctype: ColumnType, index: nat, asc: bool, rows: seq<Row>, x: Row, y: Row, z: Row, strtod: Strtod)
    requires x in rows && y in rows && z in rows && index < |x| && index < |y| && index < |z|
    requires Between(ctype, index, x, y, z, strtod) && CompareRows(ctype, index, x, y, strtod) < 0
    ensures !Sorted(Order(ctype, index, asc, strtod), rows)
  {
    var order := Order(ctype, index, asc, strtod);
    CompareReversed(ctype, index, x, y, strtod);
    CompareReversed(ctype, index, y, z, strtod);
    CompareReversed(ctype, index, z, x, strtod);
    StrcmpOrder(x[index], z[index]);
    StrcmpOrder(z[index], y[index]);
    var i :| 0 <= i < |rows| && rows[i] == x;
    var j :| 0 <= j < |rows| && rows[j] == y;
    var k :| 0 <= k < |rows| && rows[k] == z;
    if asc {
      assert order(rows[j], rows[i]) > 0 && order(rows[k], rows[j]) > 0 && order(rows[i], rows[k]) > 0;
    } else {
      assert order(rows[i], rows[j]) > 0 && order(rows[j], rows[k]) > 0 && order(rows[k], rows[i]) > 0;
    }
  }

  /** So "9" < "10" < "1a" < "9" in an INT column. */
  lemma MixedColumnCycles(strtod: Strtod, rows: seq<Row>)
    requires multiset(rows) == multiset{["9"], ["10"], ["1a"]}
    ensures !Sorted(Order(INT, 0, true, strtod), rows)
  {
    CycleCells();
    CycleTexts();
    var x, y, z := ["9"], ["10"], ["1a"];
    assert x in multiset(rows) && y in multiset(rows) && z in multiset(rows);
    MixedCellsCycle(INT, 0, true, rows, x, y, z, strtod);
  }

  lemma CycleCells()
    ensures StripQuotes("9") == "9" && StripQuotes("10") == "10" && StripQuotes("1a") == "1a"
    ensures ParseLong("9") == Some(9) && ParseLong("10") == Some(10) && ParseLong("1a").None?
  {
    assert Digits(9) == "9" && Digits(10) == "10";
    ParsePrinted(9);
    ParsePrinted(10);
    assert !IsDigit("1a"[1]);
  }

  lemma CycleTexts()
    ensures Strcmp("1a", "10") == 1 && Strcmp("9", "1a") == 1
  {
    assert "1a"[1..] == "a" && "10"[1..] == "0";
  }

  function Swapped(s: seq<Row>, i: nat, j: nat): (r: seq<Row>)
    requires i < |s| && j < |s|
    ensures |r| == |s|
  {
    s[i := s[j]][j := s[i]]
  }

  lemma SwappedMultiset(s: seq<Row>, i: nat, j: nat)
    requires i < j < |s|
    ensures multiset(Swapped(s, i, j)) == multiset(s)
  {
    var a, b, c := s[..i], s[i + 1..j], s[j + 1..];
    assert s == a + [s[i]] + b + [s[j]] + c;
    assert Swapped(s, i, j) == a + [s[j]] + b + [s[i]] + c;
  }

  /** Rounds 0 .. i are done: their rows come before all later ones. */
  ghost predicate Settled(order: (Row, Row) -> int, rows: seq<Row>, i: nat) {
    forall p, q | 0 <= p < q < |rows| && p < i :: order(rows[p], rows[q]) <= 0
  }

  /** In round i the rows up to j have been compared with row i. */
  ghost predicate Leads(order: (Row, Row) -> int, rows: seq<Row>, i: nat, j: nat)
    requires j <= |rows|
  {
    forall q | i < q < j :: order(rows[i], rows[q]) <= 0
  }

  lemma ExchangeSettled(order: (Row, Row) -> int, rows: seq<Row>, i: nat, j: nat, r: seq<Row>)
    requires i < j < |rows| && r == Swapped(rows, i, j) && Settled(order, rows, i)
    ensures Settled(order, r, i)
  {
    forall p, q | 0 <= p < q < |rows| && p < i
      ensures order(r[p], r[q]) <= 0
    {
      assert r[p] == rows[p] && r[q] == rows[if q == i then j else if q == j then i else q];
    }
  }

  lemma ExchangeLeads(order: (Row, Row) -> int, rows: seq<Row>, i: nat, j: nat, r: seq<Row>)
    requires i < j < |rows| && r == Swapped(rows, i, j) && Preorder(order, multiset(rows))
    requires Leads(order, rows, i, j) && order(rows[i], rows[j]) > 0
    ensures Leads(order, r, i, j + 1)
  {
    assert rows[i] in multiset(rows) && rows[j] in multiset(rows);
    forall q | i < q < j + 1
      ensures order(r[i], r[q]) <= 0
    {
      assert r[i] == rows[j];
      if q < j {
        assert rows[q] in multiset(rows) && r[q] == rows[q];
        assert order(rows[i], rows[q]) <= 0;
      }
    }
  }

  /** The double loop of sort_selection: the result is always a permutation, and sorted when the comparison is
      an order on the rows. */
  method ExchangeSort(rows: array<Row>, order: (Row, Row) -> int)
    modifies rows
    ensures multiset(rows[..]) == multiset(old(rows[..]))
    ensures Preorder(order, multiset(old(rows[..]))) ==> Sorted(order, rows[..])
  {
    ghost var all := multiset(rows[..]);
    ghost var ordered := Preorder(order, all);
    for i := 0 to rows.Length
      invariant multiset(rows[..]) == all
      invariant ordered ==> Settled(order, rows[..], i)
    {
      Round(rows, order, i);
    }
  }

  /** Round i: row i is compared with every later row. */
  method Round(rows: array<Row>, order: (Row, Row) -> int, i: nat)
    requires i < rows.Length
    modifies rows
    ensures multiset(rows[..]) == multiset(old(rows[..]))
    ensures Preorder(order, multiset(old(rows[..]))) && Settled(order, old(rows[..]), i) ==> Settled(order, rows[..], i + 1)
  {
    ghost var all := multiset(rows[..]);
    ghost var ordered := Preorder(order, all) && Settled(order, rows[..], i);
    for j := i + 1 to rows.Length
      invariant multiset(rows[..]) == all
      invariant ordered ==> Settled(order, rows[..], i) && Leads(order, rows[..], i, j)
    {
      Compare(rows, order, i, j);
    }
    RoundDone(order, rows[..], i, ordered);
  }

  lemma RoundDone(order: (Row, Row) -> int, rows: seq<Row>, i: nat, ordered: bool)
    requires i < |rows| && (ordered ==> Settled(order, rows, i) && Leads(order, rows, i, |rows|))
    ensures ordered ==> Settled(order, rows, i + 1)
  {
  }

  method Compare(rows: array<Row>, order: (Row, Row) -> int, i: nat, j: nat)
    requires i < j < rows.Length
    modifies rows
    ensures multiset(rows[..]) == multiset(old(rows[..]))
    ensures
      Preorder(order, multiset(old(rows[..]))) && Settled(order, old(rows[..]), i) && Leads(order, old(rows[..]), i, j) ==>
        Settled(order, rows[..], i) && Leads(order, rows[..], i, j + 1)
  {
    ghost var s := rows[..];
    if order(rows[i], rows[j]) > 0 {
      rows[i], rows[j] := rows[j], rows[i];
      assert rows[..] == Swapped(s, i, j);
      SwappedMultiset(s, i, j);
      if Preorder(order, multiset(s)) && Settled(order, s, i) && Leads(order, s, i, j) {
        ExchangeSettled(order, s, i, j, rows[..]);
        ExchangeLeads(order, s, i, j, rows[..]);
      }
    }
  }

  // ---------- the whole statement ----------

  function Limited(rows: seq<Row>, limit: int): seq<Row> {
    if limit < 0 || limit > |rows| then rows else rows[..limit]
  }

  predicate SelectsAll(columns: seq<string>) {
    columns == [] || columns == ["*"]
  }

  function Indices(n: nat): (r: seq<nat>)
    ensures |r| == n && forall i | 0 <= i < n :: r[i] == i
  {
    if n == 0 then [] else Indices(n - 1) + [n - 1]
  }

  /** resolve_selected_columns */
  function Resolved(schema: seq<ColDef>, columns: seq<string>): Option<seq<nat>> {
    if SelectsAll(columns) then Some(Indices(|schema|))
    else if forall c | 0 <= c < |columns| :: FindColumn(schema, columns[c]) >= 0 then
      Some(seq(|columns|, c requires 0 <= c < |columns| && FindColumn(schema, columns[c]) >= 0 => FindColumn(schema, columns[c])))
    else None
  }

  function Projected(row: Row, indices: seq<nat>): (r: Row)
    requires forall c | 0 <= c < |indices| :: indices[c] < |row|
    ensures |r| == |indices| && forall c | 0 <= c < |r| :: r[c] == row[indices[c]]
  {
    seq(|indices|, c requires 0 <= c < |indices| => row[indices[c]])
  }

  /** Every row has one cell per column, which load_table_rows checks. */
  ghost predicate Rectangular(schema: seq<ColDef>, rows: seq<Row>) {
    forall i | 0 <= i < |rows| :: |rows[i]| == |schema|
  }

  /** sort_selection: nothing without ORDER BY, -1 for an unknown column. */
  method SortSelection(schema: seq<ColDef>, order: Option<OrderBy>, selection: array<Row>, strtod: Strtod)
    returns (rc: int)
    modifies selection
    ensures multiset(selection[..]) == multiset(old(selection[..]))
    ensures order.None? || order.value.column == "" ==> rc == 0 && selection[..] == old(selection[..])
    ensures order.Some? && order.value.column != "" ==>
              var k := FindColumn(schema, order.value.column);
              if k < 0 then rc == -1
              else
                && rc == 0
                && (Preorder(Order(schema[k].ctype, k, order.value.asc, strtod), multiset(selection[..])) ==>
                    Sorted(Order(schema[k].ctype, k, order.value.asc, strtod), selection[..]))
                && (Sortable(schema[k].ctype, k, multiset(selection[..]), strtod) ==>
                    Ranked(schema[k].ctype, k, order.value.asc, selection[..], strtod))
  {
    if order.None? || order.value.column == "" {
      return 0;
    }
    var k := FindSchemaIndex(schema, order.value.column);
    if k < 0 {
      return -1;
    }
    ExchangeSort(selection, Order(schema[k].ctype, k, order.value.asc, strtod));
    if Sortable(schema[k].ctype, k, multiset(selection[..]), strtod) {
      SortedMeans(schema[k].ctype, k, order.value.asc, selection[..], strtod);
    }
    rc := 0;
  }

  /** build_rowset_from_selection */
  method BuildRowset(schema: seq<ColDef>, selection: seq<Row>, columns: seq<string>, limit: int)
    returns (result: Option<seq<Row>>)
    requires Rectangular(schema, selection)
    ensures result.None? <==> Resolved(schema, columns).None?
    ensures result.Some? ==>
              var picked := Limited(selection, limit);
              && |result.value| == |picked|
              && forall i | 0 <= i < |picked| ::
                   && (forall c | 0 <= c < |Resolved(schema, columns).value| :: Resolved(schema, columns).value[c] < |picked[i]|)
                   && result.value[i] == Projected(picked[i], Resolved(schema, columns).value)
  {
    var indices := Resolved(schema, columns);
    if indices.None? {
      return None;
    }
    var count := if limit < 0 || limit > |selection| then |selection| else limit;
    assert Limited(selection, limit) == selection[..count];
    var rows: seq<Row> := [];
    for i := 0 to count
      invariant |rows| == i
      invariant forall k | 0 <= k < i :: rows[k] == Projected(selection[k], indices.value)
    {
      rows := rows + [Projected(selection[i], indices.value)];
    }
    result := Some(rows);
  }

  /** An arrangement of the selected rows that ORDER BY allows. */
  ghost predicate Arranged(schema: seq<ColDef>, selection: seq<Row>, order: Option<OrderBy>, rows: seq<Row>, strtod: Strtod) {
    && multiset(rows) == multiset(selection)
    && if order.None? || order.value.column == "" then rows == selection
       else
         var k := FindColumn(schema, order.value.column);
         && k >= 0
         && var cmp := Order(schema[k].ctype, k, order.value.asc, strtod);
            Preorder(cmp, multiset(selection)) ==> Sorted(cmp, rows)
  }

  ghost predicate Projection(schema: seq<ColDef>, rows: seq<Row>, columns: seq<string>, result: seq<Row>) {
    && Resolved(schema, columns).Some? && |result| == |rows|
    && forall i | 0 <= i < |rows| ::
         && (forall c | 0 <= c < |Resolved(schema, columns).value| :: Resolved(schema, columns).value[c] < |rows[i]|)
         && result[i] == Projected(rows[i], Resolved(schema, columns).value)
  }

  /** result answers the statement over the selected rows: the first limit rows of an ordered permutation of
      them, in the columns asked for. */
  ghost predicate Answers(schema: seq<ColDef>, selection: seq<Row>, sql: SelectSql, result: seq<Row>, strtod: Strtod) {
    exists rows :: Arranged(schema, selection, sql.order, rows, strtod)
                   && Projection(schema, Limited(rows, sql.limit), sql.columns, result)
  }

  /** The same in plain terms: of an arrangement of the selected rows, ranked by the ORDER BY column if its cells can
      be, the first limit rows, or all, each with the cells of the columns asked for. */
  ghost predicate Listed(schema: seq<ColDef>, selection: seq<Row>, sql: SelectSql, result: seq<Row>, strtod: Strtod) {
    exists rows ::
      && multiset(rows) == multiset(selection)
      && RankedAsAsked(schema, sql.order, rows, selection, strtod)
      && |result| == (if 0 <= sql.limit < |rows| then sql.limit else |rows|)
      && forall i | 0 <= i < |result| :: Cut(schema, rows[i], sql.columns, result[i])
  }

  ghost predicate RankedAsAsked(schema: seq<ColDef>, order: Option<OrderBy>, rows: seq<Row>, selection: seq<Row>, strtod: Strtod) {
    if order.None? || order.value.column == "" then rows == selection
    else
      && (exists k: nat :: FirstNamed(schema, order.value.column, k))
      && forall k: nat | FirstNamed(schema, order.value.column, k) && Sortable(schema[k].ctype, k, multiset(rows), strtod) ::
           Ranked(schema[k].ctype, k, order.value.asc, rows, strtod)
  }

  /** The cells of a row under the column names, or all of them for "*" or no names. */
  ghost predicate Cut(schema: seq<ColDef>, row: Row, columns: seq<string>, shown: Row) {
    if columns == [] || columns == ["*"] then |row| >= |schema| && shown == row[..|schema|]
    else
      |shown| == |columns| &&
      forall c | 0 <= c < |columns| ::
        && (exists k: nat :: FirstNamed(schema, columns[c], k))
        && (forall k: nat | FirstNamed(schema, columns[c], k) :: k < |row| && shown[c] == row[k])
  }

  lemma ProjectedCut(schema: seq<ColDef>, row: Row, columns: seq<string>)
    requires Resolved(schema, columns).Some?
    requires forall c | 0 <= c < |Resolved(schema, columns).value| :: Resolved(schema, columns).value[c] < |row|
    ensures Cut(schema, row, columns, Projected(row, Resolved(schema, columns).value))
  {
    var at := Resolved(schema, columns).value;
    if SelectsAll(columns) {
      assert |schema| > 0 ==> at[|schema| - 1] == |schema| - 1;
    } else {
      forall c | 0 <= c < |columns|
        ensures FirstNamed(schema, columns[c], at[c])
        ensures forall k: nat | FirstNamed(schema, columns[c], k) :: k == at[c]
      {
      }
    }
  }

  /** An answer is what the plain terms say. */
  lemma AnswersListed(schema: seq<ColDef>, selection: seq<Row>, sql: SelectSql, result: seq<Row>, strtod: Strtod)
    requires Answers(schema, selection, sql, result, strtod)
    ensures Listed(schema, selection, sql, result, strtod)
  {
    var rows :| Arranged(schema, selection, sql.order, rows, strtod)
                && Projection(schema, Limited(rows, sql.limit), sql.columns, result);
    forall i | 0 <= i < |result|
      ensures Cut(schema, rows[i], sql.columns, result[i])
    {
      assert Limited(rows, sql.limit)[i] == rows[i];
      ProjectedCut(schema, rows[i], sql.columns);
    }
    ArrangedRanked(schema, selection, sql.order, rows, strtod);
  }

  lemma ArrangedRanked(schema: seq<ColDef>, selection: seq<Row>, order: Option<OrderBy>, rows: seq<Row>, strtod: Strtod)
    requires Arranged(schema, selection, order, rows, strtod)
    ensures RankedAsAsked(schema, order, rows, selection, strtod)
  {
    if order.Some? && order.value.column != "" {
      var i: nat := FindColumn(schema, order.value.column);
      assert FirstNamed(schema, order.value.column, i);
      forall k: nat | FirstNamed(schema, order.value.column, k) && Sortable(schema[k].ctype, k, multiset(rows), strtod)
        ensures Ranked(schema[k].ctype, k, order.value.asc, rows, strtod)
      {
        assert k == i;
        SortedMeans(schema[k].ctype, k, order.value.asc, rows, strtod);
      }
    }
  }

  ghost predicate KnownOrder(schema: seq<ColDef>, order: Option<OrderBy>) {
    order.Some? && order.value.column != "" ==> FindColumn(schema, order.value.column) >= 0
  }

  /** Sorting and packaging of the selected rows, common to every way of selecting them. */
  method Finish(schema: seq<ColDef>, selection: seq<Row>, sql: SelectSql, strtod: Strtod)
    returns (result: Option<seq<Row>>)
    requires Rectangular(schema, selection)
    ensures result.None? <==> !KnownOrder(schema, sql.order) || Resolved(schema, sql.columns).None?
    ensures result.Some? ==> Answers(schema, selection, sql, result.value, strtod)
  {
    var buffer := new Row[|selection|](i requires 0 <= i < |selection| => selection[i]);
    assert buffer[..] == selection;
    var rc := SortSelection(schema, sql.order, buffer, strtod);
    if rc != 0 {
      return None;
    }
    var rows := buffer[..];
    PermutedRectangular(schema, selection, rows);
    assert Arranged(schema, selection, sql.order, rows, strtod);
    result := BuildRowset(schema, rows, sql.columns, sql.limit);
    assert result.Some? ==> Projection(schema, Limited(rows, sql.limit), sql.columns, result.value);
  }

  lemma PermutedRectangular(schema: seq<ColDef>, a: seq<Row>, b: seq<Row>)
    requires Rectangular(schema, a) && multiset(a) == multiset(b)
    ensures Rectangular(schema, b)
  {
    forall i | 0 <= i < |b|
      ensures |b[i]| == |schema|
    {
      assert b[i] in multiset(b);
      assert b[i] in multiset(a);
      var j :| 0 <= j < |a| && a[j] == b[i];
    }
  }

  lemma {:induction false} MatchingRectangular(schema: seq<ColDef>, rows: seq<Row>, q: Query, strtod: Strtod)
    requires Rectangular(schema, rows) && Matching(schema, rows, q, strtod).Some?
    ensures Rectangular(schema, Matching(schema, rows, q, strtod).value)
  {
    if rows != [] {
      MatchingRectangular(schema, rows[..|rows| - 1], q, strtod);
    }
  }

  ghost predicate KnownColumns(schema: seq<ColDef>, q: Query) {
    forall k | 0 <= k < |q.clauses| :: FindColumn(schema, q.clauses[k].column) >= 0
  }

  /** storage_select_result by scanning all rows: an error exactly when a column is unknown or WHERE fails on
      some row, and otherwise an answer over exactly the rows that WHERE accepts. */
  method StorageSelectResult(schema: seq<ColDef>, rows: seq<Row>, sql: SelectSql, strtod: Strtod)
    returns (result: Option<seq<Row>>)
    requires Rectangular(schema, rows)
    ensures result.None? <==>
              !KnownColumns(schema, sql.query) || Matching(schema, rows, sql.query, strtod).None?
              || !KnownOrder(schema, sql.order) || Resolved(schema, sql.columns).None?
    ensures result.Some? ==>
              && Answers(schema, Matching(schema, rows, sql.query, strtod).value, sql, result.value, strtod)
              && Listed(schema, Matching(schema, rows, sql.query, strtod).value, sql, result.value, strtod)
  {
    var bad := false;
    for wi := 0 to |sql.query.clauses|
      invariant bad <==> exists k | 0 <= k < wi :: FindColumn(schema, sql.query.clauses[k].column) < 0
    {
      var k := FindSchemaIndex(schema, sql.query.clauses[wi].column);
      if k < 0 {
        bad := true;
      }
    }
    if bad {
      return None;
    }
    var selection := CollectMatchingRows(schema, rows, sql.query, strtod);
    if selection.None? {
      return None;
    }
    MatchingRectangular(schema, rows, sql.query, strtod);
    result := Finish(schema, selection.value, sql, strtod);
    if result.Some? {
      AnswersListed(schema, selection.value, sql, result.value, strtod);
    }
  }

  /** Exactly the accepted rows, in table order: the k-th selected row is the k-th accepted position. */
  lemma MatchingExactly(schema: seq<ColDef>, rows: seq<Row>, q: Query, strtod: Strtod)
    returns (at: seq<nat>)
    requires Matching(schema, rows, q, strtod).Some?
    ensures
      var m := Matching(schema, rows, q, strtod).value;
      && |at| == |m| && (forall k | 0 <= k < |at| :: at[k] < |rows| && m[k] == rows[at[k]])
      && (forall j, k | 0 <= j < k < |at| :: at[j] < at[k])
      && (forall i: nat :: i in at <==> i < |rows| && Decision(schema, rows[i], q, strtod) == Some(true))
  {
    var hits := seq(|rows|, i requires 0 <= i < |rows| => Decision(schema, rows[i], q, strtod) == Some(true));
    at := HitPositions(schema, rows, q, strtod, hits);
  }

  /** at lists the positions of the hits, in order, and m the rows there. */
  ghost predicate Picks(rows: seq<Row>, hits: seq<bool>, m: seq<Row>, at: seq<nat>) {
    && |at| == |m| && (forall k | 0 <= k < |at| :: at[k] < |rows| && m[k] == rows[at[k]])
    && (forall j, k | 0 <= j < k < |at| :: at[j] < at[k])
    && (forall i: nat :: i in at <==> i < |hits| && hits[i])
  }

  lemma PicksStep(rows: seq<Row>, hits: seq<bool>, m: seq<Row>, at: seq<nat>)
    requires rows != [] && |hits| == |rows| && Picks(rows[..|rows| - 1], hits[..|rows| - 1], m, at)
    ensures hits[|rows| - 1] ==> Picks(rows, hits, m + [rows[|rows| - 1]], at + [|rows| - 1])
    ensures !hits[|rows| - 1] ==> Picks(rows, hits, m, at)
  {
    assert forall k | 0 <= k < |at| :: at[k] in at;
  }

  lemma {:induction false} HitPositions(schema: seq<ColDef>, rows: seq<Row>, q: Query, strtod: Strtod, hits: seq<bool>)
    returns (at: seq<nat>)
    requires Matching(schema, rows, q, strtod).Some? && |hits| == |rows|
    requires forall i | 0 <= i < |hits| :: hits[i] <==> Decision(schema, rows[i], q, strtod) == Some(true)
    ensures Picks(rows, hits, Matching(schema, rows, q, strtod).value, at)
  {
    if rows == [] {
      at := [];
    } else {
      var last := |rows| - 1;
      at := HitPositions(schema, rows[..last], q, strtod, hits[..last]);
      PicksStep(rows, hits, Matching(schema, rows[..last], q, strtod).value, at);
      if hits[last] {
        at := at + [last];
      }
    }
  }
}
