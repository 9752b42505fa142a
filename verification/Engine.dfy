/** execute_select of src/engine.c: the choice between the index paths and the scan, on the program's own
    tree, trie and buffers. */
module Engine {
  import opened Common
  import opened Cells
  import opened Where
  import opened Select
  import opened IndexedRows
  import opened QueryAgreement
  import opened BPlusTreeHeap
  import opened BPlusTreeNodes
  import opened StorageIndex
  import BPlusTree
  import TrieWords
  import T = Trie

  const DICTIONARY_TRIE_MAX_ROWS: nat := 4096

  // ---------- buffers of positions ----------

  function Pow2(n: nat): nat {
    if n == 0 then 1 else 2 * Pow2(n - 1)
  }

  lemma {:induction false} Pow2Monotone(a: nat, b: nat)
    requires a <= b
    ensures Pow2(a) <= Pow2(b)
    decreases b
  {
    if a < b {
      Pow2Monotone(a, b - 1);
    }
  }

  lemma Pow2Limit()
    ensures Pow2(4) == 16 && Pow2(29) == 0x2000_0000 && Pow2(30) == 0x4000_0000
  {
    assert Pow2(10) == 1024;
    assert Pow2(20) == 1024 * 1024;
  }

  ghost function TreeRange(t: BPTree, from: int, to: int): seq<int>
    reads t
  {
    BPlusTree.RangeRows(BPlusTree.Flatten(Erase(t.layout)), from, to)
  }

  lemma Footprint(t: BPTree) returns (repr: set<object>)
    ensures repr == t.Repr()
  {
    repr := t.Repr();
  }

  /** One query into a fresh buffer. */
  method QueryInto(t: BPTree, from: int, to: int, capacity: nat) returns (found: seq<int>)
    requires t.Valid()
    ensures
      var all := TreeRange(t, from, to);
      found == if capacity < |all| then all[..capacity] else all
  {
    ghost var repr := Footprint(t);
    ghost var all := TreeRange(t, from, to);
    var buffer := NewBuffer(capacity, repr);
    var count := t.Range(from, to, buffer, capacity);
    found := buffer[..count];
    assert all[..|all|] == all;
  }

  method NewBuffer(capacity: nat, ghost repr: set<object>) returns (buffer: array<int>)
    ensures buffer.Length == capacity && fresh(buffer) && buffer !in repr
  {
    buffer := new int[capacity];
  }

  /** The doubling loop of execute_select: it always ends, with every match when there are fewer than 2^30
      and with the error of the size check otherwise. */
  method RangePositions(t: BPTree, from: int, to: int) returns (result: Option<seq<int>>)
    requires t.Valid()
    ensures
      var all := TreeRange(t, from, to);
      result == if |all| < 0x4000_0000 then Some(all) else None
  {
    ghost var repr := Footprint(t);
    ghost var all := TreeRange(t, from, to);
    var capacity := 16;
    ghost var n := 4;
    Pow2Limit();
    while true
      invariant 4 <= n <= 30 && capacity == Pow2(n) && t.Valid() && TreeRange(t, from, to) == all
      invariant t.Repr() == repr
      decreases 30 - n
    {
      var found := QueryInto(t, from, to, capacity);
      if |found| < capacity {
        Pow2Monotone(n, 30);
        return Some(found);
      }
      if capacity > INT_MAX / 2 {
        if n < 30 {
          Pow2Monotone(n, 29);
        }
        return None;
      }
      n := n + 1;
      capacity := capacity * 2;
    }
  }

  /** load_row_at_index: reads rows up to the one wanted; a negative position selects nothing. */
  method LoadRowAtIndex(rows: seq<Row>, rowIndex: int) returns (selection: seq<Row>)
    ensures selection == AtPositions(rows, [rowIndex])
  {
    assert [rowIndex][..0] == [];
    if rowIndex < 0 {
      return [];
    }
    for current := 0 to |rows|
      invariant current <= rowIndex
    {
      if current == rowIndex {
        return [rows[current]];
      }
    }
    selection := [];
  }

  /** The selection loop of storage_select_result_by_row_indices. */
  method SelectByRowIndices(rows: seq<Row>, indices: seq<int>) returns (selection: seq<Row>)
    ensures selection == AtPositions(rows, indices)
  {
    selection := [];
    for i := 0 to |indices|
      invariant selection == AtPositions(rows, indices[..i])
    {
      assert indices[..i + 1][..i] == indices[..i];
      if 0 <= indices[i] < |rows| {
        selection := selection + [rows[indices[i]]];
      }
    }
    assert indices[..|indices|] == indices;
  }

  // ---------- the dictionary trie ----------

  /** dictionary_trie_rebuild_locked from the words of the table: it fails on the first word that is not one
      over a-z, leaving an empty trie that is not ready. */
  method RebuildTrie(words: seq<string>) returns (trie: T.Trie, ready: bool)
    ensures trie.Valid() && fresh(trie)
    ensures forall p | p in trie.nodes :: fresh(trie.nodes[p]) && fresh(trie.nodes[p].children)
    ensures ready <==> forall i | 0 <= i < |words| :: TrieWords.IsWord(words[i])
    ensures trie.Words() == if ready then WordIndex(words) else map[]
  {
    trie := new T.Trie();
    for i := 0 to |words|
      invariant trie.Valid() && fresh(trie)
      invariant forall p | p in trie.nodes :: fresh(trie.nodes[p]) && fresh(trie.nodes[p].children)
      invariant forall j | 0 <= j < i :: TrieWords.IsWord(words[j])
      invariant trie.Words() == WordIndex(words[..i])
    {
      assert words[..i + 1][..i] == words[..i];
      var rc := trie.Insert(words[i], i);
      if rc != 0 {
        trie := new T.Trie();
        return trie, false;
      }
    }
    assert words[..|words|] == words;
    ready := true;
  }

  /** Stands for qsort with int_compare. */
  method SortInts(s: seq<int>) returns (r: seq<int>)
    ensures multiset(r) == multiset(s) && NonDecreasing(r)
  {
    r := [];
    for i := 0 to |s|
      invariant multiset(r) == multiset(s[..i]) && NonDecreasing(r)
    {
      assert s[..i + 1] == s[..i] + [s[i]];
      var k := 0;
      while k < |r| && r[k] <= s[i]
        invariant 0 <= k <= |r| && forall j | 0 <= j < k :: r[j] <= s[i]
      {
        k := k + 1;
      }
      InsertAt(r, k, s[i], Placed(r, k, s[i]));
      r := Placed(r, k, s[i]);
    }
    assert s[..|s|] == s;
  }

  function Placed(r: seq<int>, k: nat, x: int): seq<int>
    requires k <= |r|
  {
    r[..k] + [x] + r[k..]
  }

  lemma InsertAt(r: seq<int>, k: nat, x: int, q: seq<int>)
    requires k <= |r| && q == Placed(r, k, x) && NonDecreasing(r)
    requires (forall j | 0 <= j < k :: r[j] <= x) && (k < |r| ==> r[k] > x)
    ensures NonDecreasing(q) && multiset(q) == multiset(r) + multiset{x}
  {
    assert r == r[..k] + r[k..];
    PlacedOrder(r, k, x, q);
  }

  lemma PlacedOrder(r: seq<int>, k: nat, x: int, q: seq<int>)
    requires k <= |r| && q == Placed(r, k, x) && NonDecreasing(r)
    requires (forall j | 0 <= j < k :: r[j] <= x) && (k < |r| ==> r[k] > x)
    ensures NonDecreasing(q)
  {
    forall i, j | 0 <= i < j < |q|
      ensures q[i] <= q[j]
    {
      assert q[i] == (if i < k then r[i] else if i == k then x else r[i - 1]);
      assert q[j] == (if j < k then r[j] else if j == k then x else r[j - 1]);
      assert j > k ==> r[j - 1] >= r[k] > x;
    }
  }

  /** The lookup and sort of the trie path; None when the buffer may have been too small. */
  method PrefixPositions(trie: T.Trie, prefix: string) returns (result: Option<seq<int>>, ghost ws: seq<string>, ghost found: seq<int>)
    requires trie.Valid() && TrieWords.IsWord(prefix)
    ensures TrieWords.LexList(trie.Words(), prefix, ws)
    ensures result.None? <==> |ws| >= DICTIONARY_TRIE_MAX_ROWS
    ensures result.Some? ==>
              && |found| == |ws|
              && (forall k | 0 <= k < |ws| :: ws[k] in trie.Words() && found[k] == trie.Words()[ws[k]])
              && multiset(result.value) == multiset(found) && NonDecreasing(result.value)
  {
    var buffer := new int[DICTIONARY_TRIE_MAX_ROWS];
    var count;
    count, ws := trie.SearchPrefix(prefix, buffer, DICTIONARY_TRIE_MAX_ROWS);
    if count >= DICTIONARY_TRIE_MAX_ROWS {
      return None, ws, [];
    }
    found := buffer[..count];
    var sorted := SortInts(buffer[..count]);
    result := Some(sorted);
  }

  // ---------- the statement ----------

  ghost predicate Packaged(schema: seq<ColDef>, selection: seq<Row>, sql: SelectSql, strtod: Strtod, result: Option<seq<Row>>) {
    && (result.None? <==> !KnownOrder(schema, sql.order) || Resolved(schema, sql.columns).None?)
    && (result.Some? ==> Answers(schema, selection, sql, result.value, strtod))
  }

  /** The id lookup branch: None if it does not apply or fails. */
  method IdPath(store: TableStore, sql: SelectSql, strtod: Strtod) returns (tried: bool, result: Option<seq<Row>>)
    requires store.Valid() && Rectangular(store.schema, store.rows) && UsesIdIndex(sql.query)
    ensures tried <==> store.tree != null && ParseInt(sql.query.clauses[0].value).Some?
    ensures !tried ==> result.None?
    ensures tried ==>
              var at := [Found(store.TreeMap(), ParseInt(sql.query.clauses[0].value).value)];
              Packaged(store.schema, AtPositions(store.rows, at), sql, strtod, result)
  {
    tried, result := false, None;
    var id := ParseInt(sql.query.clauses[0].value);
    if store.tree != null && id.Some? {
      tried := true;
      var rowIndex := store.tree.Search(id.value);
      var selection := LoadRowAtIndex(store.rows, rowIndex);
      AtPositionsRectangular(store.schema, store.rows, [rowIndex]);
      result := Finish(store.schema, selection, sql, strtod);
    }
  }

  lemma {:induction false} AtPositionsRectangular(schema: seq<ColDef>, rows: seq<Row>, at: seq<int>)
    requires Rectangular(schema, rows)
    ensures Rectangular(schema, AtPositions(rows, at))
  {
    if at != [] {
      AtPositionsRectangular(schema, rows, at[..|at| - 1]);
    }
  }

  /** The id range branch; overflow is the error of the size check, which ends the statement. */
  method RangePath(store: TableStore, sql: SelectSql, strtod: Strtod)
    returns (tried: bool, overflow: bool, result: Option<seq<Row>>)
    requires store.Valid() && Rectangular(store.schema, store.rows) && UsesIdRange(sql.query)
    ensures (tried || overflow) <==> store.tree != null && Bounds(sql.query.clauses[0]).Some?
    ensures !tried ==> result.None?
    ensures tried || overflow ==>
              var b := Bounds(sql.query.clauses[0]).value;
              var all := TreeRange(store.tree, b.0, b.1);
              && (overflow <==> |all| >= 0x4000_0000)
              && (tried <==> !overflow)
              && (tried ==> Packaged(store.schema, AtPositions(store.rows, all), sql, strtod, result))
  {
    tried, overflow, result := false, false, None;
    var bounds := Bounds(sql.query.clauses[0]);
    if store.tree != null && bounds.Some? {
      var positions := RangePositions(store.tree, bounds.value.0, bounds.value.1);
      if positions.None? {
        overflow := true;
        return;
      }
      tried := true;
      var selection := SelectByRowIndices(store.rows, positions.value);
      AtPositionsRectangular(store.schema, store.rows, positions.value);
      result := Finish(store.schema, selection, sql, strtod);
    }
  }

  /** The trie branch. */
  method TriePath(store: TableStore, trie: T.Trie, prefix: string, sql: SelectSql, strtod: Strtod)
    returns (tried: bool, result: Option<seq<Row>>, ghost ws: seq<string>, ghost found: seq<int>, ghost sorted: seq<int>)
    requires Rectangular(store.schema, store.rows) && trie.Valid() && TrieWords.IsWord(prefix)
    ensures !tried ==> result.None?
    ensures tried ==>
              && TrieWords.LexList(trie.Words(), prefix, ws) && |found| == |ws|
              && (forall k | 0 <= k < |ws| :: ws[k] in trie.Words() && found[k] == trie.Words()[ws[k]])
              && multiset(sorted) == multiset(found) && NonDecreasing(sorted)
              && Packaged(store.schema, AtPositions(store.rows, sorted), sql, strtod, result)
  {
    tried, result, sorted := false, None, [];
    var positions;
    positions, ws, found := PrefixPositions(trie, prefix);
    if positions.Some? {
      tried, sorted := true, positions.value;
      var selection := SelectByRowIndices(store.rows, positions.value);
      AtPositionsRectangular(store.schema, store.rows, positions.value);
      result := Finish(store.schema, selection, sql, strtod);
    }
  }

  /** The result is what a scan with the same statement would give: an error in the same cases, and otherwise
      an answer over exactly the rows WHERE accepts. */
  ghost predicate LikeScan(schema: seq<ColDef>, rows: seq<Row>, sql: SelectSql, strtod: Strtod, result: Option<seq<Row>>) {
    var m := Matching(schema, rows, sql.query, strtod);
    && (result.None? <==>
        !KnownColumns(schema, sql.query) || m.None? || !KnownOrder(schema, sql.order) || Resolved(schema, sql.columns).None?)
    && (result.Some? ==> Answers(schema, m.value, sql, result.value, strtod))
  }

  /** For an id condition: the tree holds the index of the id column. */
  ghost predicate IdReady(store: TableStore, q: Query)
    reads store, store.tree
  {
    UsesIdIndex(q) ==>
      && IdColumn(store.schema, store.rows, store.col)
      && store.TreeMap() == IndexOf(store.rows, store.col)
  }

  /** The rows asked for are all in the index that is asked: ids are positive and distinct, words distinct, as far
      as the condition goes. */
  ghost predicate IndexesSayAll(store: TableStore, table: string, q: Query)
    reads store
  {
    && (UsesIdIndex(q) && ParseLong(StripQuotes(q.clauses[0].value)).Some? ==>
          SaysAll(store.rows, store.col, ParseLong(StripQuotes(q.clauses[0].value)).value))
    && (TriePrefix(table, q).Some? ==>
          forall col: nat | WordColumn(store.schema, store.rows, col) ::
            Unrepeated(WordsOf(store.rows, col), TriePrefix(table, q).value))
  }

  /** The id path takes a literal that the scan of a table with rows refuses: one with blanks behind the number. */
  ghost predicate LiteralClash(schema: seq<ColDef>, rows: seq<Row>, sql: SelectSql) {
    && UsesIdIndex(sql.query) && rows != []
    && ParseInt(sql.query.clauses[0].value).Some? && ParseLong(StripQuotes(sql.query.clauses[0].value)).None?
    && KnownOrder(schema, sql.order) && Resolved(schema, sql.columns).Some?
  }

  lemma BlankBehindNumber()
    ensures ParseInt("'5 '") == Some(5) && ParseLong(StripQuotes("'5 '")).None?
  {
    var s := "5 ";
    assert StripQuotes("'5 '") == s;
    assert !IsDigit(s[1]);
    assert SkipSpaces(s) == s && s[..1] == "5" && TrimEnd(s) == "5";
    assert "5"[..0] == "" && Decimal("5") == 5;
  }

  /** The trie was built from the current rows of a word column. */
  ghost predicate WordsReady(store: TableStore, trie: T.Trie, table: string, q: Query)
    reads store, trie, trie.nodes.Values
  {
    TriePrefix(table, q).Some? ==>
      exists col: nat :: WordColumn(store.schema, store.rows, col) && trie.Words() == WordIndex(WordsOf(store.rows, col))
  }

  lemma KnownIdColumn(schema: seq<ColDef>, rows: seq<Row>, col: nat, q: Query)
    requires IdColumn(schema, rows, col) && UsesIdIndex(q)
    ensures KnownColumns(schema, q)
  {
    FindSame(schema, q.clauses[0].column, "id", 0);
  }

  lemma KnownWordColumn(schema: seq<ColDef>, rows: seq<Row>, col: nat, table: string, q: Query)
    requires WordColumn(schema, rows, col) && TriePrefix(table, q).Some?
    ensures KnownColumns(schema, q) && TriePrefix("dictionary", q) == TriePrefix(table, q)
  {
    FindSame(schema, q.clauses[0].column, "english", 0);
  }

  /** Each index that the condition asks is built from the current rows, and says all about what is asked. */
  ghost predicate AllReady(store: TableStore, trie: T.Trie?, trieReady: bool, table: string, q: Query)
    reads store, store.tree, trie, if trie == null then {} else trie.nodes.Values
  {
    && IdReady(store, q) && IndexesSayAll(store, table, q)
    && (trie != null && trieReady ==> WordsReady(store, trie, table, q))
  }

  /** The choice of the path, for a statement that is not a BETWEEN on ids. */
  method ChoosePath(store: TableStore, trie: T.Trie?, trieReady: bool, table: string, sql: SelectSql, strtod: Strtod)
    returns (result: Option<seq<Row>>)
    requires store.Valid() && Rectangular(store.schema, store.rows) && !UsesIdRange(sql.query)
    requires trie != null && trieReady ==> trie.Valid()
    ensures AllReady(store, trie, trieReady, table, sql.query) ==>
              (LikeScan(store.schema, store.rows, sql, strtod, result)
               <==> store.tree == null || !LiteralClash(store.schema, store.rows, sql))
  {
    if UsesIdIndex(sql.query) {
      var tried;
      tried, result := IdPath(store, sql, strtod);
      if tried {
        if IdReady(store, sql.query) && IndexesSayAll(store, table, sql.query) {
          IdAnswers(store.schema, store.rows, store.col, sql, strtod, result);
        }
        if result.Some? {
          return;
        }
      }
    }
    var prefix := TriePrefix(table, sql.query);
    if prefix.Some? && trieReady && trie != null {
      var tried;
      ghost var ws, found, sorted;
      tried, result, ws, found, sorted := TriePath(store, trie, prefix.value, sql, strtod);
      if tried {
        if WordsReady(store, trie, table, sql.query) && IndexesSayAll(store, table, sql.query) {
          ghost var col: nat :| WordColumn(store.schema, store.rows, col) && trie.Words() == WordIndex(WordsOf(store.rows, col));
          KnownWordColumn(store.schema, store.rows, col, table, sql.query);
          PrefixLookupAgrees(store.schema, store.rows, col, sql.query, prefix.value, strtod, ws, found, sorted);
        }
        if result.Some? {
          return;
        }
      }
    }
    result := StorageSelectResult(store.schema, store.rows, sql, strtod);
  }

  lemma IdAnswers(schema: seq<ColDef>, rows: seq<Row>, col: nat, sql: SelectSql, strtod: Strtod, result: Option<seq<Row>>)
    requires IdColumn(schema, rows, col) && UsesIdIndex(sql.query) && ParseInt(sql.query.clauses[0].value).Some?
    requires ParseLong(StripQuotes(sql.query.clauses[0].value)).Some? ==>
               SaysAll(rows, col, ParseLong(StripQuotes(sql.query.clauses[0].value)).value)
    requires
      var at := [Found(IndexOf(rows, col), ParseInt(sql.query.clauses[0].value).value)];
      Packaged(schema, AtPositions(rows, at), sql, strtod, result)
    ensures result.Some? ==>
              (LikeScan(schema, rows, sql, strtod, result)
               <==> rows == [] || ParseLong(StripQuotes(sql.query.clauses[0].value)).Some?)
  {
    var value := sql.query.clauses[0].value;
    var k := ParseLong(StripQuotes(value));
    KnownIdColumn(schema, rows, col, sql.query);
    if k.Some? {
      LiteralAgrees(value, k.value);
      IdLookupAgrees(schema, rows, col, sql.query, k.value, strtod);
    } else if rows == [] {
      var none := [Found(IndexOf(rows, col), ParseInt(value).value)];
      assert none[..0] == [] && AtPositions(rows, none) == [];
    } else {
      MatchingError(schema, rows, sql.query, strtod);
      SingleClause(schema, rows[0], sql.query, strtod);
      FindSame(schema, sql.query.clauses[0].column, "id", 0);
      assert Decision(schema, rows[0], sql.query, strtod).None?;
    }
  }

  /** The answer over exactly the rows with an id from a to b, or from b to a, each once, by ascending id; an error
      only for a huge range or an unknown column. */
  ghost predicate InBounds(schema: seq<ColDef>, rows: seq<Row>, col: nat, sql: SelectSql, a: int, b: int, strtod: Strtod,
                           result: Option<seq<Row>>, selection: seq<Row>)
  {
    && (result.None? <==> |selection| >= 0x4000_0000 || !KnownOrder(schema, sql.order) || Resolved(schema, sql.columns).None?)
    && (result.Some? ==> Answers(schema, selection, sql, result.value, strtod))
    && (forall i, j | 0 <= i < j < |selection| :: IdOf(selection[i], col) < IdOf(selection[j], col))
    && (forall r :: r in selection <==> r in rows && (a <= IdOf(r, col) <= b || b <= IdOf(r, col) <= a))
  }

  /** What BETWEEN answers: with two numbers the rows in these bounds, on a key column, and otherwise what the scan
      answers. */
  ghost predicate BetweenTells(schema: seq<ColDef>, rows: seq<Row>, col: nat, sql: SelectSql, strtod: Strtod,
                               result: Option<seq<Row>>, selection: seq<Row>)
    requires UsesIdRange(sql.query)
  {
    var a, b := ParseInt(sql.query.clauses[0].value), ParseInt(sql.query.clauses[0].valueTo);
    if a.Some? && b.Some? then
      KeyColumn(schema, rows, col) ==> InBounds(schema, rows, col, sql, a.value, b.value, strtod, result, selection)
    else LikeScan(schema, rows, sql, strtod, result)
  }

  /** The same for a BETWEEN on ids. */
  method ChooseRange(store: TableStore, sql: SelectSql, strtod: Strtod)
    returns (result: Option<seq<Row>>, ghost selection: seq<Row>)
    requires store.Valid() && Rectangular(store.schema, store.rows) && UsesIdRange(sql.query)
    ensures store.tree != null && store.TreeMap() == IndexOf(store.rows, store.col) ==>
              BetweenTells(store.schema, store.rows, store.col, sql, strtod, result, selection)
    ensures store.tree == null ==> LikeScan(store.schema, store.rows, sql, strtod, result)
  {
    var tried, overflow;
    tried, overflow, result := RangePath(store, sql, strtod);
    selection := [];
    if tried || overflow {
      ghost var b, tree := Bounds(sql.query.clauses[0]).value, store.tree;
      BPlusTree.TreeIsShapedAndSorted(Erase(tree.layout), tree.order);
      ghost var ks := BPlusTree.RangeOfMap(BPlusTree.Flatten(Erase(tree.layout)), b.0, b.1);
      ghost var all := TreeRange(tree, b.0, b.1);
      if KeyColumn(store.schema, store.rows, store.col) && store.TreeMap() == IndexOf(store.rows, store.col) {
        RangeSelects(store.rows, store.col, b.0, b.1, ks, all);
      }
      selection := AtPositions(store.rows, all);
      if overflow || result.Some? {
        return;
      }
    }
    result := StorageSelectResult(store.schema, store.rows, sql, strtod);
  }

  /** The trie shares no storage with the tree of the table. */
  ghost predicate TrieApart(store: TableStore, trie: T.Trie)
    reads store, store.tree, trie
  {
    forall o | o in store.TreeRepr() :: o != trie && forall p | p in trie.nodes :: o != trie.nodes[p] && o != trie.nodes[p].children
  }

  /** A trie none of whose objects change. */
  twostate lemma Untouched(trie: T.Trie)
    requires old(trie.Valid()) && unchanged(trie)
    requires forall p | p in old(trie.nodes) :: unchanged(old(trie.nodes)[p]) && unchanged(old(trie.nodes)[p].children)
    ensures trie.Valid() && trie.Words() == old(trie.Words())
  {
  }

  /** storage_ensure_index leaves the trie alone. */
  method EnsureBeside(store: TableStore, trie: T.Trie?)
    requires store.Valid() && (trie != null ==> trie.Valid() && TrieApart(store, trie))
    modifies store`tree, store`hasMeta, store`nextId, store`nextRow, store`rebuilt, store.TreeRepr()
    ensures store.Valid() && store.State() == Ensured(old(store.State()), store.col)
    ensures forall x | x in store.TreeRepr() && x !in old(store.TreeRepr()) :: fresh(x)
    ensures trie != null ==> trie.Valid() && TrieApart(store, trie) && trie.Words() == old(trie.Words())
  {
    store.EnsureIndex();
    if trie != null {
      Untouched(trie);
    }
  }

  /** execute_select for a statement that is not a BETWEEN on ids: where the indexes say all about what is asked,
      the result is that of the scan whichever path it takes, except exactly where the literals clash. */
  method ExecuteSelect(store: TableStore, trie: T.Trie?, trieReady: bool, table: string, sql: SelectSql, strtod: Strtod)
    returns (result: Option<seq<Row>>)
    requires store.Valid() && Rectangular(store.schema, store.rows) && !UsesIdRange(sql.query)
    requires trie != null ==> trie.Valid() && TrieApart(store, trie)
    modifies store`tree, store`hasMeta, store`nextId, store`nextRow, store`rebuilt, store.TreeRepr()
    ensures store.Valid() && store.State() == Ensured(old(store.State()), store.col)
    ensures forall x | x in store.TreeRepr() && x !in old(store.TreeRepr()) :: fresh(x)
    ensures trie != null ==> trie.Valid() && TrieApart(store, trie) && trie.Words() == old(trie.Words())
    ensures AllReady(store, trie, trieReady, table, sql.query) ==>
              (LikeScan(store.schema, store.rows, sql, strtod, result) <==> !LiteralClash(store.schema, store.rows, sql))
  {
    EnsureBeside(store, trie);
    ghost var repr := store.ReprNow();
    result := ChoosePath(store, trie, trieReady, table, sql, strtod);
    if trie != null {
      Untouched(trie);
    }
  }

  /** execute_select for BETWEEN with an index in step: on a key column exactly the rows with an id between the two
      numbers, in whatever order they are given, each once, taken by ascending id before ORDER BY and LIMIT apply; an
      error only for a huge range or an unknown column.  Without two numbers the scan answers, and refuses BETWEEN. */
  method ExecuteRange(store: TableStore, trie: T.Trie?, sql: SelectSql, strtod: Strtod)
    returns (result: Option<seq<Row>>, ghost selection: seq<Row>)
    requires store.Valid() && Rectangular(store.schema, store.rows) && UsesIdRange(sql.query)
    requires trie != null ==> trie.Valid() && TrieApart(store, trie)
    modifies store`tree, store`hasMeta, store`nextId, store`nextRow, store`rebuilt, store.TreeRepr()
    ensures store.Valid() && store.State() == Ensured(old(store.State()), store.col)
    ensures forall x | x in store.TreeRepr() && x !in old(store.TreeRepr()) :: fresh(x)
    ensures trie != null ==> trie.Valid() && TrieApart(store, trie) && trie.Words() == old(trie.Words())
    ensures store.TreeMap() == IndexOf(store.rows, store.col) ==>
              BetweenTells(store.schema, store.rows, store.col, sql, strtod, result, selection)
  {
    EnsureBeside(store, trie);
    ghost var repr := store.ReprNow();
    result, selection := ChooseRange(store, sql, strtod);
    if trie != null {
      Untouched(trie);
    }
  }

  /** The scan has no BETWEEN: it is an error there exactly on a table with rows. */
  lemma ScanRefusesBetween(schema: seq<ColDef>, rows: seq<Row>, q: Query, strtod: Strtod)
    requires UsesIdRange(q)
    ensures Matching(schema, rows, q, strtod).None? <==> rows != []
  {
    MatchingError(schema, rows, q, strtod);
    if rows != [] {
      SingleClause(schema, rows[0], q, strtod);
      assert Decision(schema, rows[0], q, strtod).None?;
    }
  }
}
