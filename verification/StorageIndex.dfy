/** The same on the program's own state: the B+ tree of the table and the cached counters. */
module StorageIndex {
  import opened Common
  import opened Cells
  import opened Where
  import opened Select
  import opened Rewrites
  import opened IndexedRows
  import opened BPlusTreeHeap
  import opened BPlusTreeNodes

  const INDEX_ORDER: nat := 128

  class TableStore {
    const schema: seq<ColDef>
    const col: nat            // the position of the id column
    var rows: seq<Row>        // the rows of the table file
    var tree: BPTree?         // the registry's entry for the table
    var hasMeta: bool
    var nextId: int
    var nextRow: int
    var rebuilt: bool

    ghost predicate Valid()
      reads this, if tree == null then {} else tree.Repr()
    {
      && (tree != null ==> this !in tree.Repr() && tree.Valid())
      && (rebuilt ==> tree != null)
    }

    ghost function TreeMap(): map<int, int>
      reads this, tree
    {
      if tree == null then map[] else tree.Map()
    }

    ghost function State(): Store
      reads this, tree
    {
      Store(rows, TreeMap(), hasMeta, nextId, nextRow, rebuilt)
    }

    ghost function TreeRepr(): set<object>
      reads this, tree
    {
      if tree == null then {} else tree.Repr()
    }

    /** A table just opened by a new process. */
    constructor (schema: seq<ColDef>, col: nat, rows: seq<Row>)
      ensures Valid() && State() == Store(rows, map[], false, 0, 0, false) && tree == null
      ensures this.schema == schema && this.col == col
    {
      this.schema, this.col, this.rows := schema, col, rows;
      tree, hasMeta, nextId, nextRow, rebuilt := null, false, 0, 0, false;
    }

    /** index_registry_get_or_create */
    method GetOrCreate() returns (t: BPTree)
      requires Valid()
      modifies this`tree
      ensures Valid() && t == tree && TreeMap() == old(TreeMap())
      ensures fresh(t.Repr() - old(TreeRepr()))
    {
      if tree == null {
        var made := BPTree.Create(INDEX_ORDER);
        tree := made;
      }
      t := tree;
    }

    /** One pass over the rows, putting the positive ids in the tree. */
    method ScanInto(t: BPTree) returns (maxId: nat)
      requires Valid() && t == tree
      modifies t.Repr()
      ensures Valid() && tree == t && unchanged(this)
      ensures forall x | x in t.Repr() && x !in old(t.Repr()) :: fresh(x)
      ensures TreeMap() == Refilled(old(TreeMap()), rows, col) && maxId == MaxId(rows, col)
    {
      maxId := 0;
      ghost var before, repr := TreeMap(), t.Repr();
      for rowIdx := 0 to |rows|
        invariant Valid() && tree == t
        invariant forall x | x in t.Repr() && x !in repr :: fresh(x)
        invariant unchanged(this)
        invariant TreeMap() == Refilled(before, rows[..rowIdx], col) && maxId == MaxId(rows[..rowIdx], col)
      {
        assert rows[..rowIdx + 1][..rowIdx] == rows[..rowIdx];
        var id := if col < |rows[rowIdx]| then Atoi(rows[rowIdx][col]) else 0;
        if id > 0 {
          AddId(t, id, rowIdx);
          if id > maxId {
            maxId := id;
          }
        }
      }
      assert rows[..|rows|] == rows;
    }

    method AddId(t: BPTree, id: int, row: int)
      requires Valid() && t == tree
      modifies t.Repr()
      ensures Valid() && tree == t && unchanged(this)
      ensures forall x | x in t.Repr() && x !in old(t.Repr()) :: fresh(x)
      ensures TreeMap() == old(TreeMap())[id := row]
    {
      ghost var foot := FootNow(t.layout);
      t.Insert(id, row);
    }

    /** The storage of the tree as a set that exists now. */
    lemma ReprNow() returns (repr: set<object>)
      ensures repr == TreeRepr()
    {
      repr := TreeRepr();
    }

    /** storage_ensure_index */
    method EnsureIndex()
      requires Valid()
      modifies this`tree, this`hasMeta, this`nextId, this`nextRow, this`rebuilt, TreeRepr()
      ensures Valid() && State() == Ensured(old(State()), col)
      ensures forall x | x in TreeRepr() && x !in old(TreeRepr()) :: fresh(x)
    {
      if rebuilt {
        return;
      }
      var maxId := FillIndex();
      SetCounters(maxId);
    }

    /** The counters after the scan, and the mark of the table in the rebuilt list. */
    method SetCounters(maxId: nat)
      requires Valid() && tree != null
      modifies this`hasMeta, this`nextId, this`nextRow, this`rebuilt
      ensures Valid() && tree == old(tree)
      ensures State() == old(State()).(hasMeta := true, nextId := maxId + 1, nextRow := |rows|, rebuilt := true)
      ensures TreeRepr() == old(TreeRepr())
    {
      ghost var repr := ReprNow();
      hasMeta, nextId, nextRow, rebuilt := true, maxId + 1, |rows|, true;
    }

    /** The scan of storage_ensure_index. */
    method FillIndex() returns (maxId: nat)
      requires Valid()
      modifies this`tree, TreeRepr()
      ensures Valid() && TreeMap() == Refilled(old(TreeMap()), rows, col) && maxId == MaxId(rows, col)
      ensures tree != null
      ensures forall x | x in TreeRepr() && x !in old(TreeRepr()) :: fresh(x)
    {
      var t := GetOrCreate();
      maxId := ScanInto(t);
    }

    /** scan_csv_meta */
    method ScanMeta() returns (maxId: nat, rowCount: nat)
      ensures maxId == MaxId(rows, col) && rowCount == |rows|
    {
      maxId, rowCount := 0, 0;
      for i := 0 to |rows|
        invariant maxId == MaxId(rows[..i], col) && rowCount == i
      {
        assert rows[..i + 1][..i] == rows[..i];
        rowCount := rowCount + 1;
        if col < |rows[i]| {
          var val := Atoi(rows[i][col]);
          if val > maxId {
            maxId := val;
          }
        }
      }
      assert rows[..|rows|] == rows;
    }

    /** The counters as storage_insert needs them. */
    method EnsureMeta()
      requires Valid()
      modifies this`hasMeta, this`nextId, this`nextRow
      ensures Valid() && State() == Counted(old(State()), col)
    {
      ghost var repr := ReprNow();
      if !hasMeta {
        var maxId, rowCount := ScanMeta();
        hasMeta, nextId, nextRow := true, maxId + 1, rowCount;
      }
    }

    /** storage_insert past the checks of its input; row is in schema order. */
    method Insert(row: Row, auto: bool, emptied: bool) returns (rc: int)
      requires Valid() && col < |row| && nextId >= 0
      modifies this`rows, this`tree, this`hasMeta, this`nextId, this`nextRow, TreeRepr()
      ensures Valid() && (State(), rc) == Inserted(old(State()), Insertion(row, auto), emptied, col)
      ensures forall x | x in TreeRepr() && x !in old(TreeRepr()) :: fresh(x)
    {
      InsertedSteps(State(), Insertion(row, auto), emptied, col);
      EnsureMeta();
      var id := AppendRow(row, auto, emptied);
      if id.None? {
        return -1;
      }
      IndexRow(id.value, auto);
      rc := 0;
    }

    /** The middle of storage_insert: an automatic id is filled in, the row is appended, and its id is read. */
    method AppendRow(row: Row, auto: bool, emptied: bool) returns (id: Option<int>)
      requires Valid() && col < |row| && nextId >= 0
      modifies this`rows, this`nextId, this`nextRow
      ensures Valid()
      ensures (State(), id) == Appended(old(State()), Insertion(row, auto), emptied, col)
    {
      ghost var repr := ReprNow();
      var final := row;
      if auto {
        if nextRow > 0 && emptied {
          nextId, nextRow := 1, 0;
        }
        final := row[col := Digits(nextId)];
      }
      rows := rows + [final];
      id := if auto then Some(nextId) else LeadingNumber(final[col]);
    }

    /** The end of storage_insert: the new id goes into the tree and the counters move on. */
    method IndexRow(id: int, auto: bool)
      requires Valid()
      modifies this`tree, this`nextRow, this`nextId, TreeRepr()
      ensures Valid() && (forall x | x in TreeRepr() && x !in old(TreeRepr()) :: fresh(x))
      ensures State() == Filed(old(State()), id, auto)
    {
      FileId(id);
      StepCounters(auto);
    }

    method FileId(id: int)
      requires Valid()
      modifies this`tree, TreeRepr()
      ensures Valid() && tree != null && (forall x | x in TreeRepr() && x !in old(TreeRepr()) :: fresh(x))
      ensures State() == old(State()).(index := old(TreeMap())[id := nextRow])
    {
      var t := GetOrCreate();
      AddId(t, id, nextRow);
    }

    method StepCounters(auto: bool)
      requires Valid()
      modifies this`nextRow, this`nextId
      ensures Valid() && tree == old(tree) && TreeRepr() == old(TreeRepr())
      ensures State() == old(State()).(nextRow := old(nextRow) + 1, nextId := if auto then old(nextId) + 1 else old(nextId))
    {
      ghost var repr := ReprNow();
      nextRow := nextRow + 1;
      if auto {
        nextId := nextId + 1;
      }
    }

    /** invalidate_meta_cache and rebuild_index after the file has been rewritten. */
    method Rewrite(newRows: seq<Row>)
      requires Valid()
      modifies this
      ensures Valid() && State() == Rewritten(old(State()), newRows, col)
      ensures fresh(TreeRepr())
    {
      ghost var repr := ReprNow();
      rows := newRows;
      if hasMeta {
        nextId, nextRow := 0, 0;
      }
      RebuildIndex();
    }

    /** rebuild_index */
    method RebuildIndex()
      requires Valid()
      modifies this`tree
      ensures Valid() && TreeMap() == IndexOf(rows, col) && fresh(TreeRepr())
    {
      NewTree();
      var _ := FillIndex();
      RefilledEmpty(rows, col);
    }

    /** The registry emptied, and a new tree for this table. */
    method NewTree()
      requires Valid()
      modifies this`tree
      ensures Valid() && tree != null && TreeMap() == map[] && fresh(TreeRepr())
    {
      var made := BPTree.Create(INDEX_ORDER);
      tree := made;
    }

    /** storage_delete */
    method Delete(q: Query, strtod: Strtod) returns (rc: int)
      requires Valid()
      modifies this
      ensures Valid()
      ensures
        var kept := Kept(schema, old(rows), q, strtod);
        if kept.None? then rc == -1 && unchanged(this)
        else rc == 0 && State() == Rewritten(old(State()), kept.value, col) && fresh(TreeRepr())
    {
      ghost var repr := ReprNow();
      var kept := KeptRows(schema, rows, q, strtod);
      if kept.None? {
        return -1;
      }
      Rewrite(kept.value);
      rc := 0;
    }

    /** storage_update, for a SET clause already resolved to columns */
    method Update(q: Query, sets: Assignments, strtod: Strtod) returns (rc: int)
      requires Valid() && Assigns(sets, |schema|) && Rectangular(schema, rows)
      modifies this
      ensures Valid()
      ensures
        var updated := Updated(schema, old(rows), q, sets, strtod);
        if updated.None? then rc == -1 && unchanged(this)
        else rc == 0 && State() == Rewritten(old(State()), updated.value, col) && fresh(TreeRepr())
    {
      ghost var repr := ReprNow();
      var updated := UpdatedTable(schema, rows, q, sets, strtod);
      if updated.None? {
        return -1;
      }
      Rewrite(updated.value);
      rc := 0;
    }
  }

  /** The loop of delete_rows_from_table; None for an error, which leaves the table as it was. */
  method KeptRows(schema: seq<ColDef>, rows: seq<Row>, q: Query, strtod: Strtod) returns (result: Option<seq<Row>>)
    ensures result == Kept(schema, rows, q, strtod)
  {
    var kept: seq<Row> := [];
    for i := 0 to |rows|
      invariant Kept(schema, rows[..i], q, strtod) == Some(kept)
    {
      assert rows[..i + 1][..i] == rows[..i];
      var matches := RowMatches(schema, rows[i], q, strtod);
      if matches.None? {
        KeptPrefix(schema, rows, q, strtod, i + 1);
        return None;
      }
      if !matches.value {
        kept := kept + [rows[i]];
      }
    }
    assert rows[..|rows|] == rows;
    result := Some(kept);
  }

  /** The loop of update_rows_from_table. */
  method UpdatedTable(schema: seq<ColDef>, rows: seq<Row>, q: Query, sets: Assignments, strtod: Strtod)
    returns (result: Option<seq<Row>>)
    requires Assigns(sets, |schema|) && Rectangular(schema, rows)
    ensures result == Updated(schema, rows, q, sets, strtod)
  {
    var updated: seq<Row> := [];
    for i := 0 to |rows|
      invariant Updated(schema, rows[..i], q, sets, strtod) == Some(updated)
    {
      assert rows[..i + 1][..i] == rows[..i];
      var matches := RowMatches(schema, rows[i], q, strtod);
      if matches.None? {
        UpdatedPrefix(schema, rows, q, sets, strtod, i + 1);
        return None;
      }
      var row := rows[i];
      if matches.value {
        row := ApplyUpdate(row, sets);
      }
      updated := updated + [row];
    }
    assert rows[..|rows|] == rows;
    result := Some(updated);
  }

  /** apply_update_to_row */
  method ApplyUpdate(row: Row, sets: Assignments) returns (r: Row)
    requires Assigns(sets, |row|)
    ensures r == Assigned(row, sets)
  {
    r := row;
    for i := 0 to |sets|
      invariant |r| == |row| && r == Assigned(row, sets[..i])
    {
      assert sets[..i + 1][..i] == sets[..i];
      r := r[sets[i].0 := sets[i].1];
    }
    assert sets[..|sets|] == sets;
  }

  lemma {:induction false} KeptPrefix(schema: seq<ColDef>, rows: seq<Row>, q: Query, strtod: Strtod, n: nat)
    requires n <= |rows| && Kept(schema, rows[..n], q, strtod).None?
    ensures Kept(schema, rows, q, strtod).None?
  {
    if n < |rows| {
      var front := rows[..|rows| - 1];
      assert front[..n] == rows[..n];
      KeptPrefix(schema, front, q, strtod, n);
    } else {
      assert rows[..n] == rows;
    }
  }

  lemma {:induction false} UpdatedPrefix(schema: seq<ColDef>, rows: seq<Row>, q: Query, sets: Assignments, strtod: Strtod, n: nat)
    requires n <= |rows| && Updated(schema, rows[..n], q, sets, strtod).None?
    ensures Updated(schema, rows, q, sets, strtod).None?
  {
    if n < |rows| {
      var front := rows[..|rows| - 1];
      assert front[..n] == rows[..n];
      UpdatedPrefix(schema, front, q, sets, strtod, n);
    } else {
      assert rows[..n] == rows;
    }
  }
}
