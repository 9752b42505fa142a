/** The statement loop of src/engine.c on one table: runs of INSERT, SELECT, DELETE and UPDATE, with the tree, the
    cached counters and, for the dictionary, the trie that is rebuilt after each write. */
module EngineRuns {
  import opened Common
  import opened Cells
  import opened Where
  import opened Select
  import opened IndexedRows
  import opened Rewrites
  import opened StorageIndex
  import opened QueryAgreement
  import opened Engine
  import TrieWords
  import T = Trie

  datatype Table = Table(name: string, schema: seq<ColDef>, col: nat, strtod: Strtod)

  datatype Statement =
    | InsertInto(i: Insertion)
    | SelectFrom(sql: SelectSql)
    | DeleteFrom(q: Query)
    | UpdateRows(q: Query, sets: Assignments)

  datatype Reply = Done(ok: bool) | Answer(result: Option<seq<Row>>)

  /** What a process holds: the rows, the index and the counters, and the words of the trie if it is ready. */
  datatype Image = Image(store: Store, words: Option<map<string, int>>)

  // ---------- what a statement does ----------

  predicate IsDictionary(t: Table) {
    SameName(t.name, "dictionary")
  }

  /** What a rebuild of the trie finds in the rows: nothing without a column of words over a-z. */
  function WordsIn(schema: seq<ColDef>, rows: seq<Row>): Option<map<string, int>> {
    var c := FindColumn(schema, "english");
    if c >= 0 && forall i | 0 <= i < |rows| :: TrieWords.IsWord(WordsOf(rows, c)[i]) then Some(WordIndex(WordsOf(rows, c)))
    else None
  }

  /** dictionary_trie_refresh_after_write */
  function Refreshed(t: Table, s: Store, words: Option<map<string, int>>, ok: bool): Image {
    Image(s, if ok && IsDictionary(t) then WordsIn(t.schema, s.rows) else words)
  }

  predicate Writes(stmt: Statement) {
    stmt.DeleteFrom? || stmt.UpdateRows?
  }

  /** The rows a DELETE or UPDATE leaves; None if it fails. */
  ghost function NewRows(t: Table, rows: seq<Row>, stmt: Statement): Option<seq<Row>>
    requires Writes(stmt)
  {
    if stmt.DeleteFrom? then Kept(t.schema, rows, stmt.q, t.strtod)
    else Updated(t.schema, rows, stmt.q, stmt.sets, t.strtod)
  }

  /** What the checks of storage_insert and storage_update let through. */
  ghost predicate WellFormed(t: Table, stmt: Statement) {
    t.col < |t.schema| &&
    match stmt
    case InsertInto(i) => |i.row| == |t.schema|
    case UpdateRows(_, sets) => Assigns(sets, |t.schema|)
    case _ => true
  }

  ghost function Next(t: Table, e: Image, stmt: Statement): Image
    requires WellFormed(t, stmt) && e.store.nextId >= 0
  {
    match stmt
    case InsertInto(i) => var r := Inserted(e.store, i, false, t.col); Refreshed(t, r.0, e.words, r.1 == 0)
    case SelectFrom(_) => e.(store := Ensured(e.store, t.col))
    case _ =>
      var rows := NewRows(t, e.store.rows, stmt);
      if rows.None? then e else Refreshed(t, Rewritten(e.store, rows.value, t.col), e.words, true)
  }

  ghost predicate AllWellFormed(t: Table, stmts: seq<Statement>) {
    forall k | 0 <= k < |stmts| :: WellFormed(t, stmts[k])
  }

  ghost function After(t: Table, e: Image, stmts: seq<Statement>): (r: Image)
    requires AllWellFormed(t, stmts) && Held(t, e)
    ensures Held(t, r)
  {
    if stmts == [] then e
    else
      var before, last := After(t, e, stmts[..|stmts| - 1]), stmts[|stmts| - 1];
      NextHeld(t, before, last);
      Next(t, before, last)
  }

  /** In every state of a process. */
  ghost predicate Held(t: Table, e: Image) {
    Sane(e.store) && Rectangular(t.schema, e.store.rows)
  }

  lemma NextHeld(t: Table, e: Image, stmt: Statement)
    requires WellFormed(t, stmt) && Held(t, e)
    ensures Held(t, Next(t, e, stmt))
  {
    if Writes(stmt) && NewRows(t, e.store.rows, stmt).Some? {
      NewRowsRectangular(t, e.store.rows, stmt);
    }
  }

  lemma {:induction false} NewRowsRectangular(t: Table, rows: seq<Row>, stmt: Statement)
    requires WellFormed(t, stmt) && Rectangular(t.schema, rows) && Writes(stmt) && NewRows(t, rows, stmt).Some?
    ensures Rectangular(t.schema, NewRows(t, rows, stmt).value)
  {
    if rows != [] {
      NewRowsRectangular(t, rows[..|rows| - 1], stmt);
    }
  }

  // ---------- when the indexes are right ----------

  /** Every INSERT since the last DELETE or UPDATE that rewrote the file has filed rightly. */
  ghost predicate IndexKept(t: Table, e: Image, stmts: seq<Statement>)
    requires AllWellFormed(t, stmts) && Held(t, e)
  {
    stmts == [] ||
    var front, last := stmts[..|stmts| - 1], stmts[|stmts| - 1];
    var before := After(t, e, front);
    match last
    case InsertInto(i) => IndexKept(t, e, front) && RightInsert(before.store, i, t.col)
    case SelectFrom(_) => IndexKept(t, e, front)
    case _ => NewRows(t, before.store.rows, last).Some? || IndexKept(t, e, front)
  }

  /** At every point of every run: the index is sound exactly in that case, and a DELETE or UPDATE mends it. */
  lemma {:induction false} IndexKeptExactly(t: Table, e: Image, stmts: seq<Statement>)
    requires AllWellFormed(t, stmts) && Held(t, e) && Sound(e.store, t.col)
    ensures Sound(After(t, e, stmts).store, t.col) <==> IndexKept(t, e, stmts)
    ensures IndexKept(t, e, stmts) || Wrong(After(t, e, stmts).store, t.col)
  {
    if stmts != [] {
      var front, last := stmts[..|stmts| - 1], stmts[|stmts| - 1];
      IndexKeptExactly(t, e, front);
      IndexStep(t, After(t, e, front), last);
      if Wrong(After(t, e, stmts).store, t.col) {
        WrongIsUnsound(After(t, e, stmts).store, t.col);
      }
    }
  }

  lemma IndexStep(t: Table, e: Image, stmt: Statement)
    requires WellFormed(t, stmt) && Held(t, e)
    requires Sound(e.store, t.col) || Wrong(e.store, t.col)
    ensures
      var r := Next(t, e, stmt).store;
      match stmt
      case InsertInto(i) =>
        if Sound(e.store, t.col) && RightInsert(e.store, i, t.col) then Sound(r, t.col) else Wrong(r, t.col)
      case SelectFrom(_) => if Sound(e.store, t.col) then Sound(r, t.col) else Wrong(r, t.col)
      case _ =>
        if NewRows(t, e.store.rows, stmt).Some? then Sound(r, t.col) else r == e.store
  {
    EnsuredSound(e.store, t.col);
    if Wrong(e.store, t.col) {
      WrongIsUnsound(e.store, t.col);
    }
    match stmt
    case InsertInto(i) =>
      if Sound(e.store, t.col) {
        InsertedSound(e.store, i, t.col);
      } else {
        StaysWrong(e.store, i, t.col);
      }
    case SelectFrom(_) =>
      if Wrong(e.store, t.col) {
        EnsuredStaysWrong(e.store, t.col);
      }
    case _ =>
  }

  // ---------- when the trie is current ----------

  /** A ready trie holds the words of the rows. */
  ghost predicate Current(t: Table, e: Image) {
    IsDictionary(t) && e.words.Some? ==> e.words == WordsIn(t.schema, e.store.rows)
  }

  /** The trie misses the last row. */
  ghost predicate Stale(e: Image) {
    && e.words.Some? && e.store.rows != []
    && forall w | w in e.words.value :: e.words.value[w] < |e.store.rows| - 1
  }

  lemma StaleIsOld(t: Table, e: Image)
    requires Stale(e)
    ensures e.words != WordsIn(t.schema, e.store.rows)
  {
    if WordsIn(t.schema, e.store.rows).Some? {
      var words := WordsOf(e.store.rows, FindColumn(t.schema, "english"));
      var last := words[|words| - 1];
      assert last in WordIndex(words) && WordIndex(words)[last] == |words| - 1;
    }
  }

  /** Since the last write that succeeded no INSERT has failed after its row was appended, unless the trie was not
      ready anyway. */
  ghost predicate WordsKept(t: Table, e: Image, stmts: seq<Statement>)
    requires AllWellFormed(t, stmts) && Held(t, e)
  {
    stmts == [] ||
    var front, last := stmts[..|stmts| - 1], stmts[|stmts| - 1];
    var before := After(t, e, front);
    match last
    case InsertInto(i) => Files(i, t.col) || before.words.None?
    case SelectFrom(_) => WordsKept(t, e, front)
    case _ => NewRows(t, before.store.rows, last).Some? || WordsKept(t, e, front)
  }

  /** At every point of every run on the dictionary the trie, if it is ready, is current exactly in that case. */
  lemma {:induction false} WordsKeptExactly(t: Table, e: Image, stmts: seq<Statement>)
    requires AllWellFormed(t, stmts) && Held(t, e) && Current(t, e) && IsDictionary(t)
    ensures Current(t, After(t, e, stmts)) <==> WordsKept(t, e, stmts)
    ensures WordsKept(t, e, stmts) || Stale(After(t, e, stmts))
  {
    if stmts != [] {
      var front, last := stmts[..|stmts| - 1], stmts[|stmts| - 1];
      WordsKeptExactly(t, e, front);
      WordsStep(t, After(t, e, front), last);
      if Stale(After(t, e, stmts)) {
        StaleIsOld(t, After(t, e, stmts));
      }
    }
  }

  lemma WordsStep(t: Table, e: Image, stmt: Statement)
    requires WellFormed(t, stmt) && Held(t, e) && IsDictionary(t) && (Current(t, e) || Stale(e))
    ensures
      var r := Next(t, e, stmt);
      match stmt
      case InsertInto(i) => if Files(i, t.col) || e.words.None? then Current(t, r) else Stale(r)
      case SelectFrom(_) => (Current(t, r) <==> Current(t, e)) && (Stale(r) <==> Stale(e))
      case _ => if NewRows(t, e.store.rows, stmt).Some? then Current(t, r) else r == e
  {
    if e.words.Some? && Current(t, e) {
      WordIndexMeans(WordsOf(e.store.rows, FindColumn(t.schema, "english")));
    }
  }

  // ---------- runs that keep both right ----------

  /** Cached counters count the rows. */
  predicate Counting(s: Store) {
    s.hasMeta ==> s.nextRow == |s.rows| && s.nextId > 0
  }

  /** The ids that INSERTs give are positive. */
  ghost predicate GivesPositive(t: Table, stmts: seq<Statement>) {
    forall k | 0 <= k < |stmts| && stmts[k].InsertInto? :: stmts[k].i.auto || IdOf(stmts[k].i.row, t.col) > 0
  }

  /** The DELETE or UPDATE at j rewrites the file and zeroes cached counters. */
  ghost predicate Zeroes(t: Table, e: Image, stmts: seq<Statement>, j: nat)
    requires AllWellFormed(t, stmts) && Held(t, e) && j < |stmts|
  {
    var before := After(t, e, stmts[..j]).store;
    Writes(stmts[j]) && before.hasMeta && NewRows(t, before.rows, stmts[j]).Some?
  }

  lemma ZeroesFront(t: Table, e: Image, stmts: seq<Statement>, n: nat)
    requires AllWellFormed(t, stmts) && Held(t, e) && n <= |stmts|
    ensures forall j: nat | j < n :: Zeroes(t, e, stmts[..n], j) <==> Zeroes(t, e, stmts, j)
  {
    forall j: nat | j < n
      ensures Zeroes(t, e, stmts[..n], j) <==> Zeroes(t, e, stmts, j)
    {
      assert stmts[..n][..j] == stmts[..j];
    }
  }

  lemma {:induction false} StaysCounting(t: Table, e: Image, stmts: seq<Statement>)
    requires AllWellFormed(t, stmts) && Held(t, e) && Counting(e.store) && GivesPositive(t, stmts)
    requires forall j: nat | j < |stmts| :: !Zeroes(t, e, stmts, j)
    ensures Counting(After(t, e, stmts).store)
  {
    if stmts != [] {
      var n := |stmts| - 1;
      ZeroesFront(t, e, stmts, n);
      StaysCounting(t, e, stmts[..n]);
      assert !Zeroes(t, e, stmts, n);
    }
  }

  /** With positive or automatic ids, and no INSERT behind a DELETE or UPDATE that zeroed cached counters, a run keeps
      index and trie right. */
  lemma {:induction false} KeptWithoutZeroing(t: Table, e: Image, stmts: seq<Statement>)
    requires AllWellFormed(t, stmts) && Held(t, e) && Counting(e.store) && GivesPositive(t, stmts)
    requires forall j: nat, k | j < k < |stmts| && stmts[k].InsertInto? :: !Zeroes(t, e, stmts, j)
    ensures IndexKept(t, e, stmts) && WordsKept(t, e, stmts)
  {
    if stmts != [] {
      var n := |stmts| - 1;
      ZeroesFront(t, e, stmts, n);
      KeptWithoutZeroing(t, e, stmts[..n]);
      if stmts[n].InsertInto? {
        StaysCounting(t, e, stmts[..n]);
      }
    }
  }

  // ---------- what a SELECT answers ----------

  /** The rows asked for are all in the index that is asked. */
  ghost predicate SaysEnough(t: Table, rows: seq<Row>, q: Query) {
    && (UsesIdIndex(q) ==>
          && IdColumn(t.schema, rows, t.col)
          && (ParseLong(StripQuotes(q.clauses[0].value)).Some? ==>
                SaysAll(rows, t.col, ParseLong(StripQuotes(q.clauses[0].value)).value)))
    && (TriePrefix(t.name, q).Some? && FindColumn(t.schema, "english") >= 0 ==>
          var c := FindColumn(t.schema, "english");
          t.schema[c].ctype == VARCHAR && Unrepeated(WordsOf(rows, c), TriePrefix(t.name, q).value))
  }

  /** The answer over the rows: for BETWEEN on a key column exactly the rows in bounds, and otherwise, where the
      indexes say all, what the scan answers. */
  ghost predicate Agrees(t: Table, rows: seq<Row>, sql: SelectSql, result: Option<seq<Row>>) {
    if UsesIdRange(sql.query) then
      exists selection: seq<Row> :: BetweenTells(t.schema, rows, t.col, sql, t.strtod, result, selection)
    else
      SaysEnough(t, rows, sql.query) ==>
        (LikeScan(t.schema, rows, sql, t.strtod, result) <==> !LiteralClash(t.schema, rows, sql))
  }

  /** What the reply to a statement says in a state. */
  ghost predicate Replied(t: Table, e: Image, stmt: Statement, reply: Reply)
    requires WellFormed(t, stmt) && e.store.nextId >= 0
  {
    match stmt
    case InsertInto(i) => reply == Done(Inserted(e.store, i, false, t.col).1 == 0)
    case SelectFrom(sql) =>
      reply.Answer? && (Sound(e.store, t.col) && Current(t, e) ==> Agrees(t, e.store.rows, sql, reply.result))
    case _ => reply == Done(NewRows(t, e.store.rows, stmt).Some?)
  }

  // ---------- the statements ----------

  ghost function ImageOf(store: TableStore, trie: T.Trie, ready: bool): Image
    reads store, store.tree, trie, trie.nodes.Values
  {
    Image(store.State(), if ready then Some(trie.Words()) else None)
  }

  /** The objects are those of the table and its trie, and hold their invariants. */
  ghost predicate Running(t: Table, store: TableStore, trie: T.Trie)
    reads store, store.tree, store.TreeRepr(), trie, trie.nodes.Values, set p | p in trie.nodes :: trie.nodes[p].children
  {
    && store.Valid() && store.schema == t.schema && store.col == t.col
    && trie.Valid() && TrieApart(store, trie)
  }

  /** The cells that SELECT english FROM dictionary reads. */
  method ReadColumn(t: Table, rows: seq<Row>, sql: SelectSql) returns (result: Option<seq<Row>>)
    requires Rectangular(t.schema, rows) && sql.query.clauses == [] && sql.order == None
    ensures result.None? <==> Resolved(t.schema, sql.columns).None?
    ensures result.Some? ==> Answers(t.schema, rows, sql, result.value, t.strtod)
  {
    AllMatch(t.schema, rows, sql.query, t.strtod);
    result := StorageSelectResult(t.schema, rows, sql, t.strtod);
  }

  /** The words of SELECT english FROM dictionary. */
  method ReadWords(t: Table, rows: seq<Row>) returns (words: Option<seq<string>>)
    requires Rectangular(t.schema, rows)
    ensures
      var c := FindColumn(t.schema, "english");
      words == if c < 0 then None else Some(WordsOf(rows, c))
  {
    var sql := SelectSql(Query([], None, ""), ["english"], None, -1);
    var result := ReadColumn(t, rows, sql);
    if result.None? {
      return None;
    }
    var read := seq(|result.value|, i requires 0 <= i < |result.value| => if result.value[i] == [] then "" else result.value[i][0]);
    OneColumn(t.schema, rows, sql, result.value, read, t.strtod);
    words := Some(read);
  }

  lemma {:induction false} AllMatch(schema: seq<ColDef>, rows: seq<Row>, q: Query, strtod: Strtod)
    requires q.clauses == []
    ensures Matching(schema, rows, q, strtod) == Some(rows)
  {
    if rows != [] {
      AllMatch(schema, rows[..|rows| - 1], q, strtod);
      assert rows == rows[..|rows| - 1] + [rows[|rows| - 1]];
    }
  }

  lemma OneColumn(schema: seq<ColDef>, rows: seq<Row>, sql: SelectSql, result: seq<Row>, read: seq<string>, strtod: Strtod)
    requires Rectangular(schema, rows) && sql.columns == ["english"] && sql.order == None && sql.limit < 0
    requires Answers(schema, rows, sql, result, strtod) && |read| == |result|
    requires forall i | 0 <= i < |result| :: read[i] == if result[i] == [] then "" else result[i][0]
    ensures FindColumn(schema, "english") >= 0 && read == WordsOf(rows, FindColumn(schema, "english"))
  {
    var arranged :| Arranged(schema, rows, sql.order, arranged, strtod)
                    && Projection(schema, Limited(arranged, sql.limit), sql.columns, result);
    assert arranged == rows && Resolved(schema, sql.columns).value[0] == FindColumn(schema, "english");
  }

  /** dictionary_trie_refresh_after_write and the rebuild that it calls. */
  method Refresh(t: Table, store: TableStore, trie: T.Trie, ready: bool, ok: bool)
    returns (trie': T.Trie, ready': bool)
    requires Running(t, store, trie) && Rectangular(t.schema, store.rows)
    ensures Running(t, store, trie')
    ensures ImageOf(store, trie', ready') == Refreshed(t, store.State(), ImageOf(store, trie, ready).words, ok)
  {
    trie', ready' := trie, ready;
    if ok && IsDictionary(t) {
      ghost var repr := store.ReprNow();
      var words := ReadWords(t, store.rows);
      if words.None? {
        trie' := new T.Trie();
        ready' := false;
      } else {
        trie', ready' := RebuildTrie(words.value);
      }
    }
  }

  /** execute_statement for an INSERT. */
  method ExecuteInsert(t: Table, store: TableStore, trie: T.Trie, ready: bool, i: Insertion)
    returns (reply: Reply, trie': T.Trie, ready': bool)
    requires Running(t, store, trie) && Held(t, ImageOf(store, trie, ready)) && WellFormed(t, InsertInto(i))
    modifies store, store.TreeRepr()
    ensures Running(t, store, trie') && forall x | x in store.TreeRepr() && x !in old(store.TreeRepr()) :: fresh(x)
    ensures ImageOf(store, trie', ready') == Next(t, old(ImageOf(store, trie, ready)), InsertInto(i))
    ensures reply == Done(Inserted(old(store.State()), i, false, t.col).1 == 0)
  {
    ghost var e := ImageOf(store, trie, ready);
    var rc := InsertBeside(store, trie, i);
    NextHeld(t, e, InsertInto(i));
    trie', ready' := Refresh(t, store, trie, ready, rc == 0);
    reply := Done(rc == 0);
  }

  /** storage_insert leaves the trie alone. */
  method InsertBeside(store: TableStore, trie: T.Trie, i: Insertion) returns (rc: int)
    requires store.Valid() && trie.Valid() && TrieApart(store, trie)
    requires Fits(i, store.col) && store.nextId >= 0
    modifies store, store.TreeRepr()
    ensures store.Valid() && trie.Valid() && TrieApart(store, trie) && trie.Words() == old(trie.Words())
    ensures forall x | x in store.TreeRepr() && x !in old(store.TreeRepr()) :: fresh(x)
    ensures (store.State(), rc) == Inserted(old(store.State()), i, false, store.col)
  {
    rc := store.Insert(i.row, i.auto, false);
    Untouched(trie);
  }

  /** execute_statement for a DELETE or UPDATE. */
  method ExecuteRewrite(t: Table, store: TableStore, trie: T.Trie, ready: bool, stmt: Statement)
    returns (reply: Reply, trie': T.Trie, ready': bool)
    requires Running(t, store, trie) && Held(t, ImageOf(store, trie, ready)) && WellFormed(t, stmt) && Writes(stmt)
    modifies store, store.TreeRepr()
    ensures Running(t, store, trie') && forall x | x in store.TreeRepr() && x !in old(store.TreeRepr()) :: fresh(x)
    ensures ImageOf(store, trie', ready') == Next(t, old(ImageOf(store, trie, ready)), stmt)
    ensures reply == Done(NewRows(t, old(store.rows), stmt).Some?)
  {
    ghost var e := ImageOf(store, trie, ready);
    var rc := RewriteBeside(t, store, trie, stmt);
    NextHeld(t, e, stmt);
    trie', ready' := Refresh(t, store, trie, ready, rc == 0);
    reply := Done(rc == 0);
  }

  /** storage_delete and storage_update leave the trie alone. */
  method RewriteBeside(t: Table, store: TableStore, trie: T.Trie, stmt: Statement) returns (rc: int)
    requires Running(t, store, trie) && Rectangular(t.schema, store.rows) && WellFormed(t, stmt) && Writes(stmt)
    modifies store
    ensures Running(t, store, trie) && trie.Words() == old(trie.Words())
    ensures forall x | x in store.TreeRepr() && x !in old(store.TreeRepr()) :: fresh(x)
    ensures
      var rows := NewRows(t, old(store.rows), stmt);
      if rows.None? then rc == -1 && store.State() == old(store.State())
      else rc == 0 && store.State() == Rewritten(old(store.State()), rows.value, t.col)
  {
    match stmt
    case DeleteFrom(q) => rc := DeleteBeside(store, trie, q, t.strtod);
    case UpdateRows(q, sets) => rc := UpdateBeside(store, trie, q, sets, t.strtod);
  }

  method DeleteBeside(store: TableStore, trie: T.Trie, q: Query, strtod: Strtod) returns (rc: int)
    requires store.Valid() && trie.Valid() && TrieApart(store, trie)
    modifies store
    ensures store.Valid() && trie.Valid() && TrieApart(store, trie) && trie.Words() == old(trie.Words())
    ensures forall x | x in store.TreeRepr() && x !in old(store.TreeRepr()) :: fresh(x)
    ensures
      var rows := Kept(store.schema, old(store.rows), q, strtod);
      if rows.None? then rc == -1 && store.State() == old(store.State())
      else rc == 0 && store.State() == Rewritten(old(store.State()), rows.value, store.col)
  {
    rc := store.Delete(q, strtod);
    Untouched(trie);
  }

  method UpdateBeside(store: TableStore, trie: T.Trie, q: Query, sets: Assignments, strtod: Strtod) returns (rc: int)
    requires store.Valid() && trie.Valid() && TrieApart(store, trie)
    requires Assigns(sets, |store.schema|) && Rectangular(store.schema, store.rows)
    modifies store
    ensures store.Valid() && trie.Valid() && TrieApart(store, trie) && trie.Words() == old(trie.Words())
    ensures forall x | x in store.TreeRepr() && x !in old(store.TreeRepr()) :: fresh(x)
    ensures
      var rows := Updated(store.schema, old(store.rows), q, sets, strtod);
      if rows.None? then rc == -1 && store.State() == old(store.State())
      else rc == 0 && store.State() == Rewritten(old(store.State()), rows.value, store.col)
  {
    rc := store.Update(q, sets, strtod);
    Untouched(trie);
  }

  /** execute_statement for a SELECT. */
  method ExecuteQuery(t: Table, store: TableStore, trie: T.Trie, ready: bool, sql: SelectSql) returns (reply: Reply)
    requires Running(t, store, trie) && Rectangular(t.schema, store.rows)
    modifies store, store.TreeRepr()
    ensures Running(t, store, trie) && forall x | x in store.TreeRepr() && x !in old(store.TreeRepr()) :: fresh(x)
    ensures store.State() == Ensured(old(store.State()), t.col) && trie.Words() == old(trie.Words())
    ensures reply.Answer?
    ensures Sound(old(store.State()), t.col) && Current(t, old(ImageOf(store, trie, ready))) ==>
              Agrees(t, old(store.rows), sql, reply.result)
  {
    EnsuredSound(store.State(), t.col);
    ghost var before := ImageOf(store, trie, ready);
    var result;
    if UsesIdRange(sql.query) {
      ghost var selection;
      result, selection := ExecuteRange(store, trie, sql, t.strtod);
      assert Sound(before.store, t.col) ==>
               BetweenTells(t.schema, store.rows, t.col, sql, t.strtod, result, selection);
    } else {
      result := ExecuteSelect(store, trie, ready, t.name, sql, t.strtod);
      if Sound(before.store, t.col) && Current(t, before) && SaysEnough(t, store.rows, sql.query) {
        EnoughIsReady(t, store, trie, ready, sql.query);
      }
    }
    reply := Answer(result);
  }

  /** In the terms of ExecuteSelect. */
  lemma EnoughIsReady(t: Table, store: TableStore, trie: T.Trie, ready: bool, q: Query)
    requires Running(t, store, trie) && Rectangular(t.schema, store.rows)
    requires store.TreeMap() == IndexOf(store.rows, t.col) && Current(t, ImageOf(store, trie, ready))
    requires SaysEnough(t, store.rows, q)
    ensures AllReady(store, trie, ready, t.name, q)
  {
    var c := FindColumn(t.schema, "english");
    if TriePrefix(t.name, q).Some? && ready {
      assert WordsIn(t.schema, store.rows).Some?;
      forall i | 0 <= i < |store.rows|
        ensures c < |store.rows[i]| && TrieWords.IsWord(store.rows[i][c])
      {
        assert WordsOf(store.rows, c)[i] == store.rows[i][c];
      }
      assert WordColumn(t.schema, store.rows, c);
    }
  }

  /** execute_statement on one table. */
  method ExecuteStatement(t: Table, store: TableStore, trie: T.Trie, ready: bool, stmt: Statement)
    returns (reply: Reply, trie': T.Trie, ready': bool)
    requires Running(t, store, trie) && Held(t, ImageOf(store, trie, ready)) && WellFormed(t, stmt)
    modifies store, store.TreeRepr()
    ensures Running(t, store, trie') && forall x | x in store.TreeRepr() && x !in old(store.TreeRepr()) :: fresh(x)
    ensures ImageOf(store, trie', ready') == Next(t, old(ImageOf(store, trie, ready)), stmt)
    ensures Replied(t, old(ImageOf(store, trie, ready)), stmt, reply)
  {
    match stmt
    case InsertInto(i) => reply, trie', ready' := ExecuteInsert(t, store, trie, ready, i);
    case SelectFrom(sql) =>
      reply := ExecuteQuery(t, store, trie, ready, sql);
      trie', ready' := trie, ready;
    case _ => reply, trie', ready' := ExecuteRewrite(t, store, trie, ready, stmt);
  }

  // ---------- runs ----------

  /** A new process on a table file, and for the dictionary the rebuild that engine_init does. */
  method Start(t: Table, rows: seq<Row>) returns (store: TableStore, trie: T.Trie, ready: bool)
    requires Rectangular(t.schema, rows)
    ensures Running(t, store, trie) && fresh(store) && store.TreeRepr() == {}
    ensures
      var e := ImageOf(store, trie, ready);
      && e == Refreshed(t, Store(rows, map[], false, 0, 0, false), None, true)
      && Held(t, e) && Sound(e.store, t.col) && Current(t, e) && Counting(e.store)
  {
    store := new TableStore(t.schema, t.col, rows);
    trie := new T.Trie();
    trie, ready := Refresh(t, store, trie, false, true);
  }

  /** The reply to the statement at k: the status of a write, and for a SELECT, if the run up to there has kept tree
      and trie right, an answer over the rows then. */
  ghost predicate RepliedAt(t: Table, e: Image, stmts: seq<Statement>, k: nat, reply: Reply)
    requires AllWellFormed(t, stmts) && Held(t, e) && k < |stmts|
  {
    var before := After(t, e, stmts[..k]);
    match stmts[k]
    case SelectFrom(sql) =>
      && reply.Answer?
      && (IndexKept(t, e, stmts[..k]) && (IsDictionary(t) ==> WordsKept(t, e, stmts[..k])) ==>
            Agrees(t, before.store.rows, sql, reply.result))
    case InsertInto(i) => reply == Done(Inserted(before.store, i, false, t.col).1 == 0)
    case _ => reply == Done(NewRows(t, before.store.rows, stmts[k]).Some?)
  }

  lemma RepliedInRun(t: Table, e: Image, stmts: seq<Statement>, k: nat, reply: Reply)
    requires AllWellFormed(t, stmts) && Held(t, e) && k < |stmts| && Sound(e.store, t.col) && Current(t, e)
    requires Replied(t, After(t, e, stmts[..k]), stmts[k], reply)
    ensures RepliedAt(t, e, stmts, k, reply)
  {
    IndexKeptExactly(t, e, stmts[..k]);
    if IsDictionary(t) {
      WordsKeptExactly(t, e, stmts[..k]);
    }
  }

  /** So for every statement so far. */
  ghost predicate AllReplied(t: Table, e: Image, stmts: seq<Statement>, replies: seq<Reply>)
    requires AllWellFormed(t, stmts) && Held(t, e)
  {
    |replies| <= |stmts| && forall k | 0 <= k < |replies| :: RepliedAt(t, e, stmts, k, replies[k])
  }

  lemma OneMoreReply(t: Table, e: Image, stmts: seq<Statement>, replies: seq<Reply>, reply: Reply, at: Image)
    requires AllWellFormed(t, stmts) && Held(t, e) && Sound(e.store, t.col) && Current(t, e)
    requires AllReplied(t, e, stmts, replies) && |replies| < |stmts| && at == After(t, e, stmts[..|replies|])
    requires Replied(t, at, stmts[|replies|], reply)
    ensures AllReplied(t, e, stmts, replies + [reply])
    ensures After(t, e, stmts[..|replies| + 1]) == Next(t, at, stmts[|replies|])
  {
    var k := |replies|;
    RepliedInRun(t, e, stmts, k, reply);
    assert stmts[..k + 1][..k] == stmts[..k];
  }

  /** One more statement of a run. */
  method ExecuteNext(t: Table, ghost e: Image, store: TableStore, trie: T.Trie, ready: bool, stmts: seq<Statement>,
                     replies: seq<Reply>)
    returns (replies': seq<Reply>, trie': T.Trie, ready': bool)
    requires AllWellFormed(t, stmts) && Held(t, e) && Sound(e.store, t.col) && Current(t, e)
    requires AllReplied(t, e, stmts, replies) && |replies| < |stmts|
    requires Running(t, store, trie) && ImageOf(store, trie, ready) == After(t, e, stmts[..|replies|])
    modifies store, store.TreeRepr()
    ensures Running(t, store, trie') && forall x | x in store.TreeRepr() && x !in old(store.TreeRepr()) :: fresh(x)
    ensures |replies'| == |replies| + 1 && AllReplied(t, e, stmts, replies')
    ensures ImageOf(store, trie', ready') == After(t, e, stmts[..|replies'|])
  {
    ghost var at := ImageOf(store, trie, ready);
    var reply;
    reply, trie', ready' := ExecuteStatement(t, store, trie, ready, stmts[|replies|]);
    OneMoreReply(t, e, stmts, replies, reply, at);
    replies' := replies + [reply];
  }

  /** The statement loop of engine_exec_sql on one table, from a state in which index and trie are right, as in a
      fresh process: the state after any run of statements, and the reply to each of them. */
  method ExecuteStatements(t: Table, store: TableStore, trie: T.Trie, ready: bool, stmts: seq<Statement>)
    returns (replies: seq<Reply>, trie': T.Trie, ready': bool)
    requires Running(t, store, trie) && Held(t, ImageOf(store, trie, ready)) && AllWellFormed(t, stmts)
    requires Sound(store.State(), t.col) && Current(t, ImageOf(store, trie, ready))
    modifies store, store.TreeRepr()
    ensures Running(t, store, trie')
    ensures ImageOf(store, trie', ready') == After(t, old(ImageOf(store, trie, ready)), stmts)
    ensures |replies| == |stmts| && AllReplied(t, old(ImageOf(store, trie, ready)), stmts, replies)
  {
    replies, trie', ready' := [], trie, ready;
    ghost var e, repr := ImageOf(store, trie, ready), store.TreeRepr();
    while |replies| < |stmts|
      invariant Running(t, store, trie') && AllReplied(t, e, stmts, replies)
      invariant ImageOf(store, trie', ready') == After(t, e, stmts[..|replies|])
      invariant forall x | x in store.TreeRepr() && x !in repr :: fresh(x)
    {
      replies, trie', ready' := ExecuteNext(t, e, store, trie', ready', stmts, replies);
    }
    assert stmts[..|stmts|] == stmts;
  }
}
