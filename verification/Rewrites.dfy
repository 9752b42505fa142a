/** What DELETE and UPDATE make of the rows of a table. */
module Rewrites {
  import opened Common
  import opened Cells
  import opened Where
  import opened Select

  /** The rows a DELETE keeps; None if WHERE is in error on some row. */
  ghost function Kept(schema: seq<ColDef>, rows: seq<Row>, q: Query, strtod: Strtod): Option<seq<Row>> {
    if rows == [] then Some([])
    else
      var before := Kept(schema, rows[..|rows| - 1], q, strtod);
      var last := Decision(schema, rows[|rows| - 1], q, strtod);
      if before.None? || last.None? then None
      else Some(if last.value then before.value else before.value + [rows[|rows| - 1]])
  }

  /** A SET clause: column positions, all different, and their new values. */
  type Assignments = seq<(nat, string)>

  ghost predicate Assigns(sets: Assignments, width: nat) {
    && (forall k | 0 <= k < |sets| :: sets[k].0 < width)
    && (forall j, k | 0 <= j < k < |sets| :: sets[j].0 != sets[k].0)
  }

  /** apply_update_to_row */
  function Assigned(row: Row, sets: Assignments): (r: Row)
    ensures |r| == |row|
  {
    if sets == [] then row
    else
      var before := Assigned(row, sets[..|sets| - 1]);
      var last := sets[|sets| - 1];
      if last.0 < |row| then before[last.0 := last.1] else before
  }

  ghost function Updated(schema: seq<ColDef>, rows: seq<Row>, q: Query, sets: Assignments, strtod: Strtod): Option<seq<Row>> {
    if rows == [] then Some([])
    else
      var row := rows[|rows| - 1];
      var before := Updated(schema, rows[..|rows| - 1], q, sets, strtod);
      var last := Decision(schema, row, q, strtod);
      if before.None? || last.None? then None
      else Some(before.value + [if last.value then Assigned(row, sets) else row])
  }

  /** A DELETE splits the table: what it keeps and what a SELECT with the same WHERE finds are all the rows. */
  lemma {:induction false} DeletePartitions(schema: seq<ColDef>, rows: seq<Row>, q: Query, strtod: Strtod)
    ensures Kept(schema, rows, q, strtod).None? <==> Matching(schema, rows, q, strtod).None?
    ensures Kept(schema, rows, q, strtod).Some? ==>
              multiset(Kept(schema, rows, q, strtod).value) + multiset(Matching(schema, rows, q, strtod).value)
              == multiset(rows)
  {
    if rows != [] {
      var front, last := rows[..|rows| - 1], rows[|rows| - 1];
      DeletePartitions(schema, front, q, strtod);
      assert multiset(rows) == multiset(front) + multiset{last} by {
        assert rows == front + [last];
      }
    }
  }

  /** A DELETE keeps exactly the rows that WHERE refuses, in their order. */
  lemma {:induction false} KeptExactly(schema: seq<ColDef>, rows: seq<Row>, q: Query, strtod: Strtod, refused: seq<bool>)
    returns (at: seq<nat>)
    requires Kept(schema, rows, q, strtod).Some? && |refused| == |rows|
    requires forall i | 0 <= i < |rows| :: refused[i] <==> Decision(schema, rows[i], q, strtod) == Some(false)
    ensures Picks(rows, refused, Kept(schema, rows, q, strtod).value, at)
  {
    at := [];
    if rows != [] {
      var last := |rows| - 1;
      at := KeptExactly(schema, rows[..last], q, strtod, refused[..last]);
      PicksStep(rows, refused, Kept(schema, rows[..last], q, strtod).value, at);
      if refused[last] {
        at := at + [last];
      }
    }
  }

  /** After a DELETE a SELECT with the same WHERE finds nothing. */
  lemma {:induction false} DeletedAreGone(schema: seq<ColDef>, rows: seq<Row>, q: Query, strtod: Strtod)
    requires Kept(schema, rows, q, strtod).Some?
    ensures Matching(schema, Kept(schema, rows, q, strtod).value, q, strtod) == Some([])
  {
    if rows != [] {
      var front, last := rows[..|rows| - 1], rows[|rows| - 1];
      DeletedAreGone(schema, front, q, strtod);
      var kept := Kept(schema, front, q, strtod).value;
      assert (kept + [last])[..|kept|] == kept;
    }
  }

  /** The assignments hit their cells and no others. */
  lemma {:induction false} AssignedCells(row: Row, sets: Assignments, c: nat)
    requires Assigns(sets, |row|) && c < |row|
    ensures
      if k :| 0 <= k < |sets| && sets[k].0 == c then Assigned(row, sets)[c] == sets[k].1
      else Assigned(row, sets)[c] == row[c]
  {
    if sets != [] {
      AssignedCells(row, sets[..|sets| - 1], c);
    }
  }

  /** An UPDATE keeps every row in its place and changes exactly the cells of the matching rows. */
  lemma {:induction false} UpdatedRows(schema: seq<ColDef>, rows: seq<Row>, q: Query, sets: Assignments, strtod: Strtod)
    requires Updated(schema, rows, q, sets, strtod).Some?
    ensures
      var r := Updated(schema, rows, q, sets, strtod).value;
      && |r| == |rows|
      && forall i | 0 <= i < |rows| ::
           r[i] == if Decision(schema, rows[i], q, strtod) == Some(true) then Assigned(rows[i], sets) else rows[i]
  {
    if rows != [] {
      UpdatedRows(schema, rows[..|rows| - 1], q, sets, strtod);
      assert forall i | 0 <= i < |rows| - 1 :: rows[i] == rows[..|rows| - 1][i];
    }
  }
}
