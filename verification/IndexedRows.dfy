/** The row and id bookkeeping of src/storage.c for one table with an id column: the rows of the file, the
    index from ids to row positions, and the cached counters. */
module IndexedRows {
  import opened Common
  import opened Cells

  /** Digits up to the first other character. */
  function DigitPrefix(s: string): (r: string)
    ensures forall i | 0 <= i < |r| :: IsDigit(r[i])
  {
    if s != "" && IsDigit(s[0]) then [s[0]] + DigitPrefix(s[1..]) else ""
  }

  /** The number strtol and atoi read at the start of a cell; None if there is none. */
  function LeadingNumber(s: string): Option<int> {
    var t := SkipSpaces(s);
    var signed := t != "" && (t[0] == '-' || t[0] == '+');
    var digits := DigitPrefix(if signed then t[1..] else t);
    var n: int := Decimal(digits);
    if digits == "" then None else Some(if signed && t[0] == '-' then -n else n)
  }

  function Atoi(s: string): int {
    var n := LeadingNumber(s);
    if n.None? then 0 else n.value
  }

  lemma {:induction false} DigitPrefixAll(s: string)
    requires forall i | 0 <= i < |s| :: IsDigit(s[i])
    ensures DigitPrefix(s) == s
  {
    if s != "" {
      DigitPrefixAll(s[1..]);
    }
  }

  lemma {:induction false} DigitsThen(digits: string, rest: string)
    requires (forall i | 0 <= i < |digits| :: IsDigit(digits[i])) && (rest == "" || !IsDigit(rest[0]))
    ensures DigitPrefix(digits + rest) == digits
  {
    if digits == "" {
      assert digits + rest == rest;
    } else {
      assert (digits + rest)[1..] == digits[1..] + rest;
      DigitsThen(digits[1..], rest);
    }
  }

  lemma {:induction false} DigitsSplit(s: string) returns (rest: string)
    ensures s == DigitPrefix(s) + rest && (rest == "" || !IsDigit(rest[0]))
  {
    rest := s;
    if s != "" && IsDigit(s[0]) {
      rest := DigitsSplit(s[1..]);
      assert s == [s[0]] + s[1..];
    }
  }

  /** The text starts with the number v: blanks, a sign if any, digits, and no further digit. */
  ghost predicate StartsWithNumber(s: string, v: int) {
    exists number: string, rest: string :: StartParts(s, v, number, rest)
  }

  ghost predicate StartParts(s: string, v: int, number: string, rest: string) {
    s == number + rest && WritesNumber(number, v) && (rest == "" || !IsDigit(rest[0]))
  }

  lemma ReadsStart(s: string, v: int, blanks: string, sign: string, digits: string, rest: string)
    requires NumberParts(blanks + (sign + digits), v, blanks, sign, digits) && (rest == "" || !IsDigit(rest[0]))
    requires s == blanks + (sign + (digits + rest))
    ensures LeadingNumber(s) == Some(v)
  {
    var t := sign + (digits + rest);
    assert IsDigit(digits[0]) && t[0] == (if sign == "" then digits[0] else sign[0]);
    SkipBlanks(blanks, t);
    assert sign == "" ==> t == digits + rest;
    assert sign != "" ==> t[1..] == digits + rest;
    DigitsThen(digits, rest);
  }

  lemma StartRead(s: string, v: int)
    requires LeadingNumber(s) == Some(v)
    ensures StartsWithNumber(s, v)
  {
    var blanks := BlanksBefore(s);
    var t := SkipSpaces(s);
    var signed := t != "" && (t[0] == '-' || t[0] == '+');
    var sign, u := if signed then [t[0]] else "", if signed then t[1..] else t;
    var rest := DigitsSplit(u);
    var digits := DigitPrefix(u);
    assert t == sign + u;
    assert sign == "-" <==> (signed && t[0] == '-');
    Parts(s, v, blanks, sign, digits, rest);
  }

  lemma Parts(s: string, v: int, blanks: string, sign: string, digits: string, rest: string)
    requires NumberParts(blanks + (sign + digits), v, blanks, sign, digits)
    requires s == blanks + (sign + (digits + rest)) && (rest == "" || !IsDigit(rest[0]))
    ensures StartsWithNumber(s, v)
  {
    Regroup(blanks, sign, digits, rest);
    assert StartParts(s, v, blanks + (sign + digits), rest);
  }

  /** strtol and atoi read v exactly if the text starts with v. */
  lemma LeadingNumberExactly(s: string, v: int)
    ensures LeadingNumber(s) == Some(v) <==> StartsWithNumber(s, v)
  {
    if number: string, rest: string :| StartParts(s, v, number, rest) {
      var blanks: string, sign: string, digits: string :| NumberParts(number, v, blanks, sign, digits);
      Regroup(blanks, sign, digits, rest);
      ReadsStart(s, v, blanks, sign, digits, rest);
    }
    if LeadingNumber(s) == Some(v) {
      StartRead(s, v);
    }
  }

  lemma Regroup(a: string, b: string, c: string, d: string)
    ensures (a + (b + c)) + d == a + (b + (c + d))
  {
  }

  /** An id printed with %d is read back as itself. */
  lemma ReadPrinted(n: nat)
    ensures LeadingNumber(Digits(n)) == Some(n)
  {
    DecimalOfDigits(n);
    assert IsDigit(Digits(n)[0]);
    DigitPrefixAll(Digits(n));
  }

  function IdOf(row: Row, col: nat): int {
    if col < |row| then Atoi(row[col]) else 0
  }

  /** What a rescan of the rows puts in the index. */
  function IndexOf(rows: seq<Row>, col: nat): map<int, int> {
    if rows == [] then map[]
    else
      var last := |rows| - 1;
      var before, id := IndexOf(rows[..last], col), IdOf(rows[last], col);
      if id > 0 then before[id := last] else before
  }

  function MaxId(rows: seq<Row>, col: nat): nat {
    if rows == [] then 0
    else
      var before, id := MaxId(rows[..|rows| - 1], col), IdOf(rows[|rows| - 1], col);
      if id > before then id else before
  }

  /** p is the last position that holds id. */
  ghost predicate LastAt(rows: seq<Row>, col: nat, id: int, p: int) {
    0 <= p < |rows| && IdOf(rows[p], col) == id && forall j | p < j < |rows| :: IdOf(rows[j], col) != id
  }

  lemma {:induction false} IndexAt(rows: seq<Row>, col: nat, id: int)
    ensures id in IndexOf(rows, col) <==> id > 0 && exists i | 0 <= i < |rows| :: IdOf(rows[i], col) == id
    ensures id in IndexOf(rows, col) ==> LastAt(rows, col, id, IndexOf(rows, col)[id])
  {
    if rows != [] {
      var last := |rows| - 1;
      var front := rows[..last];
      IndexAt(front, col, id);
      assert forall j | 0 <= j < last :: front[j] == rows[j];
      if id in IndexOf(front, col) {
        var p := IndexOf(front, col)[id];
        assert IdOf(rows[p], col) == id;
      } else if id > 0 {
        assert forall j | 0 <= j < last :: IdOf(rows[j], col) == IdOf(front[j], col) != id;
      }
    }
  }

  /** The index maps each positive id to the last position that holds it, and nothing else. */
  lemma IndexMeans(rows: seq<Row>, col: nat)
    ensures forall id :: id in IndexOf(rows, col) <==> id > 0 && exists i | 0 <= i < |rows| :: IdOf(rows[i], col) == id
    ensures forall id | id in IndexOf(rows, col) :: LastAt(rows, col, id, IndexOf(rows, col)[id])
  {
    forall id
      ensures id in IndexOf(rows, col) <==> id > 0 && exists i | 0 <= i < |rows| :: IdOf(rows[i], col) == id
      ensures id in IndexOf(rows, col) ==> LastAt(rows, col, id, IndexOf(rows, col)[id])
    {
      IndexAt(rows, col, id);
    }
  }

  lemma {:induction false} MaxIdBounds(rows: seq<Row>, col: nat)
    ensures forall i | 0 <= i < |rows| :: IdOf(rows[i], col) <= MaxId(rows, col)
  {
    if rows != [] {
      MaxIdBounds(rows[..|rows| - 1], col);
      assert forall i | 0 <= i < |rows| - 1 :: rows[i] == rows[..|rows| - 1][i];
    }
  }

  // ---------- the bookkeeping state ----------

  datatype Store = Store(
    rows: seq<Row>,
    index: map<int, int>,
    hasMeta: bool,
    nextId: int,
    nextRow: int,
    rebuilt: bool)

  /** storage_ensure_index: one scan fills the index and the counters. */
  function Ensured(s: Store, col: nat): Store {
    if s.rebuilt then s
    else s.(index := Refilled(s.index, s.rows, col), hasMeta := true, nextId := MaxId(s.rows, col) + 1,
            nextRow := |s.rows|, rebuilt := true)
  }

  /** Inserting the scanned ids into an index that may hold some already. */
  function Refilled(m: map<int, int>, rows: seq<Row>, col: nat): map<int, int> {
    if rows == [] then m
    else
      var last := |rows| - 1;
      var before, id := Refilled(m, rows[..last], col), IdOf(rows[last], col);
      if id > 0 then before[id := last] else before
  }

  lemma {:induction false} RefilledEmpty(rows: seq<Row>, col: nat)
    ensures Refilled(map[], rows, col) == IndexOf(rows, col)
  {
    if rows != [] {
      RefilledEmpty(rows[..|rows| - 1], col);
    }
  }

  /** The counters as the first part of storage_insert leaves them. */
  function Counted(s: Store, col: nat): Store {
    if s.hasMeta then s
    else s.(hasMeta := true, nextId := MaxId(s.rows, col) + 1, nextRow := |s.rows|)
  }

  /** An INSERT: the row in schema order, whose id cell is filled in here if the id is automatic. */
  datatype Insertion = Insertion(row: Row, auto: bool)

  predicate Fits(i: Insertion, col: nat) {
    col < |i.row|
  }

  function FinalRow(s: Store, i: Insertion, col: nat): Row
    requires Fits(i, col) && (i.auto ==> s.nextId >= 0)
  {
    if i.auto then i.row[col := Digits(s.nextId)] else i.row
  }

  /** storage_insert past the checks of its input.  The file was found empty if emptied. */
  function Inserted(s: Store, i: Insertion, emptied: bool, col: nat): (Store, int)
    requires Fits(i, col) && s.nextId >= 0
  {
    var c := Counted(s, col);
    var c := if i.auto && c.nextRow > 0 && emptied then c.(nextId := 1, nextRow := 0) else c;
    var row := FinalRow(c, i, col);
    var appended := c.(rows := c.rows + [row]);
    var id := if i.auto then Some(c.nextId) else LeadingNumber(row[col]);
    if id.None? then (appended, -1)
    else
      (appended.(index := c.index[id.value := c.nextRow], nextRow := c.nextRow + 1,
                 nextId := if i.auto then c.nextId + 1 else c.nextId), 0)
  }

  /** Its steps: the row is appended, and the id it then has is filed. */
  function Appended(s: Store, i: Insertion, emptied: bool, col: nat): (Store, Option<int>)
    requires Fits(i, col) && s.nextId >= 0
  {
    var c := if i.auto && s.nextRow > 0 && emptied then s.(nextId := 1, nextRow := 0) else s;
    var row := FinalRow(c, i, col);
    (c.(rows := c.rows + [row]), if i.auto then Some(c.nextId) else LeadingNumber(row[col]))
  }

  function Filed(s: Store, id: int, auto: bool): Store {
    s.(index := s.index[id := s.nextRow], nextRow := s.nextRow + 1, nextId := if auto then s.nextId + 1 else s.nextId)
  }

  lemma InsertedSteps(s: Store, i: Insertion, emptied: bool, col: nat)
    requires Fits(i, col) && s.nextId >= 0
    ensures
      var a := Appended(Counted(s, col), i, emptied, col);
      Inserted(s, i, emptied, col) == if a.1.None? then (a.0, -1) else (Filed(a.0, a.1.value, i.auto), 0)
  {
  }

  /** A DELETE or UPDATE that has rewritten the file: the index is rebuilt and the counters are zeroed. */
  function Rewritten(s: Store, rows: seq<Row>, col: nat): Store {
    s.(rows := rows, index := IndexOf(rows, col), nextId := if s.hasMeta then 0 else s.nextId,
       nextRow := if s.hasMeta then 0 else s.nextRow)
  }

  /** The index and the row counter agree with the rows. */
  ghost predicate InStep(s: Store, col: nat) {
    s.hasMeta && s.index == IndexOf(s.rows, col) && s.nextRow == |s.rows| && s.nextId > 0
  }

  /** Every row's id is below the next automatic one. */
  ghost predicate IdsBelow(s: Store, col: nat) {
    forall i | 0 <= i < |s.rows| :: IdOf(s.rows[i], col) < s.nextId
  }

  lemma EnsureInStep(s: Store, col: nat)
    requires !s.rebuilt && s.index == map[]
    ensures InStep(Ensured(s, col), col) && IdsBelow(Ensured(s, col), col)
  {
    RefilledEmpty(s.rows, col);
    MaxIdBounds(s.rows, col);
  }

  lemma {:induction false} MaxIdReached(rows: seq<Row>, col: nat)
    ensures MaxId(rows, col) == 0 || exists i | 0 <= i < |rows| :: IdOf(rows[i], col) == MaxId(rows, col)
  {
    if rows != [] {
      var last := |rows| - 1;
      MaxIdReached(rows[..last], col);
      assert forall i | 0 <= i < last :: rows[..last][i] == rows[i];
    }
  }

  ghost predicate IsNextId(rows: seq<Row>, col: nat, id: int) {
    && id >= 1 && (forall k | 0 <= k < |rows| :: IdOf(rows[k], col) < id)
    && (id == 1 || exists k | 0 <= k < |rows| :: IdOf(rows[k], col) == id - 1)
  }

  /** The first automatic id of a process is one above the largest id of the table, or 1. */
  lemma FirstAutomaticId(s: Store, i: Insertion, col: nat)
    requires !s.hasMeta && !s.rebuilt && Fits(i, col) && i.auto && s.nextId >= 0
    ensures
      var r := Inserted(s, i, false, col).0;
      && |r.rows| == |s.rows| + 1 && r.rows[..|s.rows|] == s.rows && IsNextId(s.rows, col, IdOf(r.rows[|s.rows|], col))
      && Inserted(Ensured(s, col), i, false, col).0.rows == r.rows
  {
    MaxIdBounds(s.rows, col);
    MaxIdReached(s.rows, col);
    ReadPrinted(MaxId(s.rows, col) + 1);
  }

  /** One INSERT with a positive or automatic id stays in step. */
  lemma InsertInStep(s: Store, i: Insertion, col: nat)
    requires InStep(s, col) && Fits(i, col) && (!i.auto ==> IdOf(i.row, col) > 0)
    ensures Inserted(s, i, false, col).1 == 0
    ensures InStep(Inserted(s, i, false, col).0, col)
    ensures Inserted(s, i, false, col).0.rows == s.rows + [FinalRow(s, i, col)]
    ensures i.auto ==> IdOf(FinalRow(s, i, col), col) == s.nextId
    ensures i.auto && IdsBelow(s, col) ==> IdsBelow(Inserted(s, i, false, col).0, col)
  {
    ReadPrinted(s.nextId);
    var r := Inserted(s, i, false, col).0;
    var last := |r.rows| - 1;
    assert r.rows[..last] == s.rows;
  }

  /** The file is never empty when the row counter is positive, so the check for a vanished file changes
      nothing while the store is in step. */
  lemma EmptiedNeverSeen(s: Store, i: Insertion, emptied: bool, col: nat)
    requires InStep(s, col) && Fits(i, col) && (emptied ==> s.rows == [])
    ensures Inserted(s, i, emptied, col) == Inserted(s, i, false, col)
  {
  }

  // ---------- runs ----------

  function InsertAll(s: Store, ops: seq<Insertion>, col: nat): Store
    requires forall k | 0 <= k < |ops| :: Fits(ops[k], col)
    requires s.nextId >= 0
  {
    if ops == [] then s
    else
      var before := InsertAll(s, ops[..|ops| - 1], col);
      if before.nextId < 0 then before else Inserted(before, ops[|ops| - 1], false, col).0
  }

  ghost predicate Acceptable(ops: seq<Insertion>, col: nat) {
    forall k | 0 <= k < |ops| :: Fits(ops[k], col) && (!ops[k].auto ==> IdOf(ops[k].row, col) > 0)
  }

  /** After storage_ensure_index, any run of INSERTs with positive or automatic ids keeps the index exactly
      the map from each id to the last position that holds it, and the row counter the number of rows. */
  lemma {:induction false} RunInStep(s: Store, ops: seq<Insertion>, col: nat)
    requires !s.rebuilt && s.index == map[] && Acceptable(ops, col)
    ensures InStep(InsertAll(Ensured(s, col), ops, col), col)
    ensures |InsertAll(Ensured(s, col), ops, col).rows| == |s.rows| + |ops|
  {
    EnsureInStep(s, col);
    if ops != [] {
      var front, last := ops[..|ops| - 1], ops[|ops| - 1];
      RunInStep(s, front, col);
      InsertInStep(InsertAll(Ensured(s, col), front, col), last, col);
    }
  }

  /** Out of step for good: the index has an id that no rescan puts there, or the row counter has fallen behind. */
  ghost predicate Broken(s: Store) {
    (exists id :: id in s.index && id <= 0) || s.nextRow < |s.rows|
  }

  lemma InsertBreaks(s: Store, i: Insertion, col: nat)
    requires s.hasMeta && s.nextId >= 0 && Fits(i, col)
    requires Broken(s) || (InStep(s, col) && !i.auto && IdOf(i.row, col) <= 0)
    ensures
      var r := Inserted(s, i, false, col).0;
      Broken(r) && r.hasMeta && r.nextId >= s.nextId
  {
    var r := Inserted(s, i, false, col).0;
    if id :| id in s.index && id <= 0 {
      assert id in r.index;
    } else if Broken(s) {
      assert r.nextRow < |r.rows|;
    } else if LeadingNumber(i.row[col]).Some? {
      assert IdOf(i.row, col) in r.index;
    }
  }

  /** A run of INSERTs stays in step exactly when all their ids are positive or automatic. */
  lemma {:induction false} RunInStepExactly(s: Store, ops: seq<Insertion>, col: nat)
    requires !s.rebuilt && s.index == map[] && forall k | 0 <= k < |ops| :: Fits(ops[k], col)
    ensures
      var r := InsertAll(Ensured(s, col), ops, col);
      (InStep(r, col) <==> Acceptable(ops, col)) && (InStep(r, col) || (Broken(r) && r.hasMeta && r.nextId >= 0))
  {
    EnsureInStep(s, col);
    if ops != [] {
      var front, last := ops[..|ops| - 1], ops[|ops| - 1];
      RunInStepExactly(s, front, col);
      InsertInStepExactly(InsertAll(Ensured(s, col), front, col), last, col);
      AcceptableStep(ops, col);
    }
  }

  lemma AcceptableStep(ops: seq<Insertion>, col: nat)
    requires ops != [] && forall k | 0 <= k < |ops| :: Fits(ops[k], col)
    ensures
      var front, last := ops[..|ops| - 1], ops[|ops| - 1];
      Acceptable(ops, col) <==> Acceptable(front, col) && (last.auto || IdOf(last.row, col) > 0)
  {
    var front := ops[..|ops| - 1];
    assert forall k | 0 <= k < |front| :: front[k] == ops[k];
  }

  lemma InsertInStepExactly(s: Store, i: Insertion, col: nat)
    requires Fits(i, col) && (InStep(s, col) || (Broken(s) && s.hasMeta && s.nextId >= 0))
    ensures
      var r := Inserted(s, i, false, col).0;
      && (InStep(r, col) <==> InStep(s, col) && (i.auto || IdOf(i.row, col) > 0))
      && (InStep(r, col) || (Broken(r) && r.hasMeta && r.nextId >= 0))
  {
    if InStep(s, col) && (i.auto || IdOf(i.row, col) > 0) {
      InsertInStep(s, i, col);
    } else {
      if Broken(s) {
        BrokenIsOut(s, col);
      }
      InsertBreaks(s, i, col);
      BrokenIsOut(Inserted(s, i, false, col).0, col);
    }
  }

  lemma BrokenIsOut(s: Store, col: nat)
    requires Broken(s)
    ensures !InStep(s, col)
  {
    IndexMeans(s.rows, col);
  }

  /** The index holds nothing but ids of the rows, and is theirs once storage_ensure_index has built it. */
  ghost predicate Sound(s: Store, col: nat) {
    (forall id | id in s.index :: id in IndexOf(s.rows, col)) && (s.rebuilt ==> s.index == IndexOf(s.rows, col))
  }

  lemma {:induction false} RefilledOver(m: map<int, int>, rows: seq<Row>, col: nat)
    ensures Refilled(m, rows, col) == m + IndexOf(rows, col)
  {
    if rows != [] {
      RefilledOver(m, rows[..|rows| - 1], col);
    }
  }

  /** storage_ensure_index may also come late: it overwrites what INSERTs have filed before, and makes the index
      that of the rows exactly when only their ids were filed. */
  lemma EnsuredSound(s: Store, col: nat)
    ensures Ensured(s, col).index == IndexOf(s.rows, col) <==> Sound(s, col)
    ensures Sound(Ensured(s, col), col) <==> Sound(s, col)
  {
    RefilledOver(s.index, s.rows, col);
    Overlay(s.index, IndexOf(s.rows, col));
  }

  lemma Overlay(m: map<int, int>, right: map<int, int>)
    ensures m + right == right <==> forall id | id in m :: id in right
  {
    if forall id | id in m :: id in right {
      assert (m + right).Keys == right.Keys;
    } else {
      var id :| id in m && id !in right;
      assert id in m + right;
    }
  }

  lemma IndexGrows(rows: seq<Row>, row: Row, col: nat)
    requires IdOf(row, col) > 0
    ensures IndexOf(rows + [row], col) == IndexOf(rows, col)[IdOf(row, col) := |rows|]
  {
    assert (rows + [row])[..|rows|] == rows;
  }

  ghost predicate DistinctIds(rows: seq<Row>, col: nat) {
    forall i, j | 0 <= i < j < |rows| :: IdOf(rows[i], col) != IdOf(rows[j], col)
  }

  ghost predicate HasId(rows: seq<Row>, col: nat, id: int) {
    exists i | 0 <= i < |rows| :: IdOf(rows[i], col) == id
  }

  lemma DistinctAppend(rows: seq<Row>, row: Row, col: nat)
    ensures DistinctIds(rows + [row], col) <==> DistinctIds(rows, col) && !HasId(rows, col, IdOf(row, col))
    ensures forall id :: HasId(rows + [row], col, id) <==> HasId(rows, col, id) || id == IdOf(row, col)
  {
    var r := rows + [row];
    assert forall i | 0 <= i < |rows| :: r[i] == rows[i];
    assert r[|rows|] == row;
    forall id
      ensures HasId(r, col, id) <==> HasId(rows, col, id) || id == IdOf(row, col)
    {
      if HasId(rows, col, id) {
        var i :| 0 <= i < |rows| && IdOf(rows[i], col) == id;
        assert IdOf(r[i], col) == id;
      }
      if id == IdOf(row, col) {
        assert IdOf(r[|rows|], col) == id;
      }
    }
  }

  /** The id an INSERT stores. */
  function StoredId(s: Store, i: Insertion, col: nat): int {
    if i.auto then s.nextId else IdOf(i.row, col)
  }

  /** An INSERT keeps ids distinct exactly when its id, given or automatic, is not there yet. */
  lemma InsertDistinctExactly(s: Store, i: Insertion, col: nat)
    requires s.hasMeta && s.nextId >= 0 && Fits(i, col)
    ensures
      var r := Inserted(s, i, false, col).0;
      && (DistinctIds(r.rows, col) <==> DistinctIds(s.rows, col) && !HasId(s.rows, col, StoredId(s, i, col)))
      && (forall id :: HasId(r.rows, col, id) <==> HasId(s.rows, col, id) || id == StoredId(s, i, col))
      && r.hasMeta && r.nextId == s.nextId + (if i.auto then 1 else 0)
  {
    if i.auto {
      ReadPrinted(s.nextId);
    }
    DistinctAppend(s.rows, FinalRow(s, i, col), col);
  }

  /** In step, the index tells: an automatic or positive id repeats one exactly when the index has it. */
  lemma IndexTellsRepeats(s: Store, i: Insertion, col: nat)
    requires InStep(s, col) && Fits(i, col) && (i.auto || IdOf(i.row, col) > 0) && DistinctIds(s.rows, col)
    ensures DistinctIds(Inserted(s, i, false, col).0.rows, col) <==> StoredId(s, i, col) !in s.index
  {
    InsertDistinctExactly(s, i, col);
    IndexMeans(s.rows, col);
  }

  function Autos(ops: seq<Insertion>): nat {
    if ops == [] then 0 else Autos(ops[..|ops| - 1]) + (if ops[|ops| - 1].auto then 1 else 0)
  }

  ghost predicate GivesId(ops: seq<Insertion>, col: nat, id: int) {
    exists k | 0 <= k < |ops| :: !ops[k].auto && IdOf(ops[k].row, col) == id
  }

  ghost predicate GivenDistinct(ops: seq<Insertion>, col: nat) {
    forall j, k | 0 <= j < k < |ops| && !ops[j].auto && !ops[k].auto :: IdOf(ops[j].row, col) != IdOf(ops[k].row, col)
  }

  /** No two of the ids in the rows, the given ids and the n automatic ones from next on are equal. */
  ghost predicate NoRepeats(rows: seq<Row>, next: int, ops: seq<Insertion>, col: nat) {
    && DistinctIds(rows, col) && GivenDistinct(ops, col)
    && (forall id | HasId(rows, col, id) :: !GivesId(ops, col, id))
    && (forall id | next <= id < next + Autos(ops) :: !HasId(rows, col, id) && !GivesId(ops, col, id))
  }

  lemma GivesMore(ops: seq<Insertion>, col: nat)
    requires ops != []
    ensures
      var front, last := ops[..|ops| - 1], ops[|ops| - 1];
      && (forall id :: GivesId(ops, col, id) <==> GivesId(front, col, id) || (!last.auto && id == IdOf(last.row, col)))
      && (GivenDistinct(ops, col) <==>
          GivenDistinct(front, col) && (!last.auto ==> !GivesId(front, col, IdOf(last.row, col))))
  {
    var n := |ops| - 1;
    var front, last := ops[..n], ops[n];
    assert forall k | 0 <= k < n :: front[k] == ops[k];
    forall id
      ensures GivesId(ops, col, id) <==> GivesId(front, col, id) || (!last.auto && id == IdOf(last.row, col))
    {
      if GivesId(front, col, id) {
        var k :| 0 <= k < n && !front[k].auto && IdOf(front[k].row, col) == id;
        assert !ops[k].auto && IdOf(ops[k].row, col) == id;
      }
    }
  }

  lemma NoRepeatsStep(rows: seq<Row>, next: int, ops: seq<Insertion>, col: nat)
    requires ops != []
    ensures
      var front, last := ops[..|ops| - 1], ops[|ops| - 1];
      var id := if last.auto then next + Autos(front) else IdOf(last.row, col);
      NoRepeats(rows, next, ops, col) <==>
      NoRepeats(rows, next, front, col) && !HasId(rows, col, id) && !GivesId(front, col, id)
      && !(next <= id < next + Autos(front))
  {
    GivesMore(ops, col);
  }

  /** What a run of INSERTs stores, and that it keeps ids distinct exactly when no two of the old ids, the given
      ids and the run of automatic ids that starts at the counter are equal: a condition on the state before it. */
  lemma {:induction false} RunDistinctExactly(s: Store, ops: seq<Insertion>, col: nat)
    requires s.hasMeta && s.nextId >= 0 && forall k | 0 <= k < |ops| :: Fits(ops[k], col)
    ensures
      var r := InsertAll(s, ops, col);
      && (DistinctIds(r.rows, col) <==> NoRepeats(s.rows, s.nextId, ops, col))
      && (forall id :: HasId(r.rows, col, id) <==>
            HasId(s.rows, col, id) || GivesId(ops, col, id) || s.nextId <= id < s.nextId + Autos(ops))
      && r.hasMeta && r.nextId == s.nextId + Autos(ops)
  {
    if ops != [] {
      var front, last := ops[..|ops| - 1], ops[|ops| - 1];
      RunDistinctExactly(s, front, col);
      InsertDistinctExactly(InsertAll(s, front, col), last, col);
      NoRepeatsStep(s.rows, s.nextId, ops, col);
      GivesMore(ops, col);
    }
  }

  /** Runs of automatic ids keep the ids distinct: each new one is above all before it. */
  lemma {:induction false} AutoIdsDistinct(s: Store, ops: seq<Insertion>, col: nat)
    requires !s.rebuilt && s.index == map[] && Acceptable(ops, col) && DistinctIds(s.rows, col)
    requires forall k | 0 <= k < |ops| :: ops[k].auto
    ensures
      var r := InsertAll(Ensured(s, col), ops, col);
      DistinctIds(r.rows, col) && IdsBelow(r, col) && s.rows <= r.rows
  {
    EnsureInStep(s, col);
    if ops != [] {
      var front, last := ops[..|ops| - 1], ops[|ops| - 1];
      AutoIdsDistinct(s, front, col);
      RunInStep(s, front, col);
      InsertInStep(InsertAll(Ensured(s, col), front, col), last, col);
    }
  }

  /** Mixed runs need not: an explicit id does not move the automatic counter, which then meets it. */
  lemma MixedIdsCollide()
    ensures
      var s := Ensured(Store([], map[], false, 0, 0, false), 0);
      var ops := [Insertion(["1"], false), Insertion([""], true)];
      && Acceptable(ops, 0)
      && InsertAll(s, ops, 0).rows == [["1"], ["1"]]
  {
    var s := Ensured(Store([], map[], false, 0, 0, false), 0);
    var one := Insertion(["1"], false);
    var two := Insertion([""], true);
    var ops := [one, two];
    assert Digits(1) == "1";
    ReadPrinted(1);
    assert ops[..1] == [one] && [one][..0] == [];
    var m := Inserted(s, one, false, 0).0;
    assert InsertAll(s, [one], 0) == m && m.nextId == 1 && m.rows == [["1"]];
    assert [""][0 := "1"] == ["1"];
  }

  /** Right after a DELETE or UPDATE the index is exactly that of the rewritten rows. */
  lemma RewriteExact(s: Store, rows: seq<Row>, col: nat)
    ensures Rewritten(s, rows, col).rows == rows
    ensures forall id :: id in Rewritten(s, rows, col).index <==> id > 0 && exists i | 0 <= i < |rows| :: IdOf(rows[i], col) == id
    ensures forall id | id in Rewritten(s, rows, col).index :: LastAt(rows, col, id, Rewritten(s, rows, col).index[id])
  {
    IndexMeans(rows, col);
  }

  /** The id under which an INSERT is filed, if its cell can be read as one. */
  function FiledId(i: Insertion, col: nat): Option<int>
    requires Fits(i, col) && !i.auto
  {
    LeadingNumber(i.row[col])
  }

  /** Whether the first INSERT after a rewrite meets counters that it can use: without cached counters they are
      scanned afresh; zeroed ones serve only a given id in an empty table.  An id below 1 is never right in the
      index, and a row without a readable id does not touch it. */
  predicate RightAfterRewrite(hasMeta: bool, rows: seq<Row>, i: Insertion, col: nat)
    requires Fits(i, col)
  {
    if i.auto then !hasMeta
    else
      var id := FiledId(i, col);
      id.None? || (id.value > 0 && (!hasMeta || rows == []))
  }

  /** The INSERT after a DELETE or UPDATE leaves the index that of the rows exactly in these cases. */
  lemma InsertAfterRewrite(s: Store, rows: seq<Row>, i: Insertion, emptied: bool, col: nat)
    requires s.nextId >= 0 && Fits(i, col) && (emptied ==> rows == [])
    ensures
      var r := Inserted(Rewritten(s, rows, col), i, emptied, col).0;
      && (r.index == IndexOf(r.rows, col) <==> RightAfterRewrite(s.hasMeta, rows, i, col))
      && (InStep(r, col) <==> !s.hasMeta && (i.auto || (FiledId(i, col).Some? && FiledId(i, col).value > 0)))
  {
    if i.auto {
      AutoAfterRewrite(s, rows, i, emptied, col);
    } else {
      GivenAfterRewrite(s, rows, i, emptied, col);
    }
  }

  lemma AutoAfterRewrite(s: Store, rows: seq<Row>, i: Insertion, emptied: bool, col: nat)
    requires s.nextId >= 0 && Fits(i, col) && (emptied ==> rows == []) && i.auto
    ensures
      var r := Inserted(Rewritten(s, rows, col), i, emptied, col).0;
      (r.index == IndexOf(r.rows, col) <==> !s.hasMeta) && (InStep(r, col) <==> !s.hasMeta)
  {
    var c := Counted(Rewritten(s, rows, col), col);
    ReadPrinted(c.nextId);
    FiledAt(rows, FinalRow(c, i, col), col, c.nextId, c.nextRow);
  }

  lemma GivenAfterRewrite(s: Store, rows: seq<Row>, i: Insertion, emptied: bool, col: nat)
    requires s.nextId >= 0 && Fits(i, col) && !i.auto
    ensures
      var r, id := Inserted(Rewritten(s, rows, col), i, emptied, col).0, FiledId(i, col);
      && (r.index == IndexOf(r.rows, col) <==> id.None? || (id.value > 0 && (!s.hasMeta || rows == [])))
      && (InStep(r, col) <==> !s.hasMeta && id.Some? && id.value > 0)
  {
    var c, id := Counted(Rewritten(s, rows, col), col), FiledId(i, col);
    var r, all := Inserted(Rewritten(s, rows, col), i, emptied, col).0, rows + [i.row];
    assert c.rows == rows && c.index == IndexOf(rows, col) && r.rows == all && r.nextId == c.nextId;
    match id
    case None =>
      assert all[..|rows|] == rows;
      assert r.index == c.index && r.nextRow == c.nextRow;
    case Some(v) =>
      assert r.index == c.index[v := c.nextRow] && r.nextRow == c.nextRow + 1;
      FiledAt(rows, i.row, col, v, c.nextRow);
  }

  /** Filing an id under a position gives the index of the longer table exactly for its own id and place. */
  lemma FiledAt(rows: seq<Row>, row: Row, col: nat, id: int, at: int)
    requires IdOf(row, col) == id
    ensures IndexOf(rows, col)[id := at] == IndexOf(rows + [row], col) <==> id > 0 && at == |rows|
  {
    assert (rows + [row])[..|rows|] == rows;
    IndexMeans(rows, col);
    var filed, right := IndexOf(rows, col)[id := at], IndexOf(rows + [row], col);
    assert filed[id] == at;
    if id > 0 {
      assert right == IndexOf(rows, col)[id := |rows|] && right[id] == |rows|;
    } else {
      assert id !in right;
    }
  }

  // ---------- runs that leave the index right ----------

  /** The INSERT files an id: its id is automatic, or its cell can be read as one. */
  predicate Files(i: Insertion, col: nat)
    requires Fits(i, col)
  {
    i.auto || FiledId(i, col).Some?
  }

  /** No id is filed behind a row without one, which the row counter does not count. */
  ghost predicate FiledFirst(ops: seq<Insertion>, col: nat)
    requires forall k | 0 <= k < |ops| :: Fits(ops[k], col)
  {
    forall j, k | 0 <= j < k < |ops| && Files(ops[k], col) :: Files(ops[j], col)
  }

  /** The ids filed are ones that a rescan files, if the automatic ones are. */
  ghost predicate FiledPositive(ops: seq<Insertion>, col: nat, autos: bool)
    requires forall k | 0 <= k < |ops| :: Fits(ops[k], col)
  {
    forall k | 0 <= k < |ops| && Files(ops[k], col) :: if ops[k].auto then autos else FiledId(ops[k], col).value > 0
  }

  /** When a run of INSERTs leaves the index right that was so before it. */
  ghost predicate LeavesRight(s: Store, ops: seq<Insertion>, col: nat)
    requires forall k | 0 <= k < |ops| :: Fits(ops[k], col)
  {
    || (forall k | 0 <= k < |ops| :: !Files(ops[k], col))
    || (s.nextRow == |s.rows| && FiledFirst(ops, col) && FiledPositive(ops, col, s.nextId > 0))
  }

  /** Wrong for good: the index has an id that no rescan files, or a position that a lagging counter gave. */
  ghost predicate Spoilt(s: Store, col: nat) {
    exists id :: id in s.index && SpoiltAt(s, col, id)
  }

  ghost predicate SpoiltAt(s: Store, col: nat, id: int)
    requires id in s.index
  {
    || id <= 0
    || (s.nextRow < |s.rows| && id in IndexOf(s.rows, col) && s.index[id] < IndexOf(s.rows, col)[id])
  }

  lemma SpoiltIsWrong(s: Store, col: nat)
    requires Spoilt(s, col)
    ensures s.index != IndexOf(s.rows, col)
  {
    IndexMeans(s.rows, col);
  }

  lemma IndexSame(rows: seq<Row>, row: Row, col: nat)
    requires IdOf(row, col) <= 0
    ensures IndexOf(rows + [row], col) == IndexOf(rows, col)
  {
    assert (rows + [row])[..|rows|] == rows;
  }

  lemma StaysSpoilt(s: Store, i: Insertion, col: nat)
    requires s.hasMeta && s.nextId >= 0 && Fits(i, col) && s.nextRow <= |s.rows| && Spoilt(s, col)
    ensures Spoilt(Inserted(s, i, false, col).0, col)
  {
    var id :| id in s.index && SpoiltAt(s, col, id);
    var row, r := FinalRow(s, i, col), Inserted(s, i, false, col).0;
    if i.auto {
      ReadPrinted(s.nextId);
    }
    if IdOf(row, col) > 0 {
      IndexGrows(s.rows, row, col);
    } else {
      IndexSame(s.rows, row, col);
    }
    assert r.rows == s.rows + [row];
    assert id in r.index && SpoiltAt(r, col, id);
  }

  /** One INSERT on a right index. */
  lemma InsertLeavesRight(s: Store, i: Insertion, col: nat)
    requires s.hasMeta && s.nextId >= 0 && Fits(i, col)
    requires s.index == IndexOf(s.rows, col) && s.nextRow <= |s.rows|
    ensures
      var r, positive := Inserted(s, i, false, col).0, if i.auto then s.nextId > 0 else IdOf(i.row, col) > 0;
      if !Files(i, col) || (s.nextRow == |s.rows| && positive) then
        r.index == IndexOf(r.rows, col) && (r.nextRow == |r.rows| <==> s.nextRow == |s.rows| && Files(i, col))
      else Spoilt(r, col)
  {
    var row, r := FinalRow(s, i, col), Inserted(s, i, false, col).0;
    if i.auto {
      ReadPrinted(s.nextId);
    }
    assert r.rows == s.rows + [row];
    var id := IdOf(row, col);
    if id > 0 {
      IndexGrows(s.rows, row, col);
    } else {
      IndexSame(s.rows, row, col);
    }
    if Files(i, col) {
      assert r.index == s.index[id := s.nextRow];
      assert id > 0 && s.nextRow < |s.rows| ==> SpoiltAt(r, col, id);
    }
  }

  lemma LeavesRightStep(s: Store, ops: seq<Insertion>, col: nat)
    requires ops != [] && forall k | 0 <= k < |ops| :: Fits(ops[k], col)
    ensures
      var front, last := ops[..|ops| - 1], ops[|ops| - 1];
      var level := s.nextRow == |s.rows| && forall k | 0 <= k < |front| :: Files(front[k], col);
      LeavesRight(s, ops, col) <==>
      LeavesRight(s, front, col) &&
      (Files(last, col) ==> level && if last.auto then s.nextId > 0 else FiledId(last, col).value > 0)
  {
    var n := |ops| - 1;
    assert forall k | 0 <= k < n :: ops[..n][k] == ops[k];
  }

  ghost predicate AllFile(ops: seq<Insertion>, col: nat)
    requires forall k | 0 <= k < |ops| :: Fits(ops[k], col)
  {
    forall k | 0 <= k < |ops| :: Files(ops[k], col)
  }

  /** What is known of the state r that the run leads to. */
  ghost predicate RanTo(s: Store, ops: seq<Insertion>, col: nat, r: Store)
    requires forall k | 0 <= k < |ops| :: Fits(ops[k], col)
  {
    && r.hasMeta && r.nextRow <= |r.rows| && r.nextId >= s.nextId
    && (if LeavesRight(s, ops, col) then
          && r.index == IndexOf(r.rows, col)
          && (r.nextRow == |r.rows| <==> s.nextRow == |s.rows| && AllFile(ops, col))
          && (s.nextId == 0 ==> r.nextId == 0)
        else Spoilt(r, col))
  }

  lemma RanToStep(s: Store, ops: seq<Insertion>, col: nat, before: Store)
    requires ops != [] && forall k | 0 <= k < |ops| :: Fits(ops[k], col)
    requires s.nextId >= 0 && RanTo(s, ops[..|ops| - 1], col, before)
    ensures RanTo(s, ops, col, Inserted(before, ops[|ops| - 1], false, col).0)
  {
    var front, last := ops[..|ops| - 1], ops[|ops| - 1];
    LeavesRightStep(s, ops, col);
    assert AllFile(ops, col) <==> AllFile(front, col) && Files(last, col);
    if LeavesRight(s, front, col) {
      InsertLeavesRight(before, last, col);
    } else {
      StaysSpoilt(before, last, col);
    }
  }

  /** A run of INSERTs with any ids leaves a right index right exactly if it files no id, or the row counter was
      right, every id it files is positive, and no row without a readable id comes before one it files. */
  lemma {:induction false} RunLeavesRightExactly(s: Store, ops: seq<Insertion>, col: nat)
    requires s.hasMeta && s.nextId >= 0 && s.index == IndexOf(s.rows, col) && s.nextRow <= |s.rows|
    requires forall k | 0 <= k < |ops| :: Fits(ops[k], col)
    ensures
      var r := InsertAll(s, ops, col);
      RanTo(s, ops, col, r) && (r.index == IndexOf(r.rows, col) <==> LeavesRight(s, ops, col))
  {
    if ops != [] {
      RunLeavesRightExactly(s, ops[..|ops| - 1], col);
      RanToStep(s, ops, col, InsertAll(s, ops[..|ops| - 1], col));
    }
    if !LeavesRight(s, ops, col) {
      SpoiltIsWrong(InsertAll(s, ops, col), col);
    }
  }

  /** So after a DELETE or UPDATE: with cached counters a run leaves the index right exactly if it files no id, or
      the table is empty, all ids it files are given and positive, and none comes behind a row without one. */
  lemma RunAfterRewrite(s: Store, rows: seq<Row>, ops: seq<Insertion>, col: nat)
    requires s.nextId >= 0 && ops != [] && forall k | 0 <= k < |ops| :: Fits(ops[k], col)
    ensures
      var r := InsertAll(Rewritten(s, rows, col), ops, col);
      r.index == IndexOf(r.rows, col) <==>
      || (forall k | 0 <= k < |ops| :: !Files(ops[k], col))
      || ((!s.hasMeta || rows == []) && FiledFirst(ops, col) && FiledPositive(ops, col, !s.hasMeta))
  {
    var w := Rewritten(s, rows, col);
    RunCounted(w, ops, col);
    RunLeavesRightExactly(Counted(w, col), ops, col);
  }

  /** What holds of the counters in every state of a process. */
  ghost predicate Sane(s: Store) {
    s.nextId >= 0 && (s.rebuilt ==> s.hasMeta) && (s.hasMeta ==> s.nextRow <= |s.rows|)
  }

  /** The INSERT files no id, or a positive one, and once the index is built under the position of its row. */
  predicate RightInsert(s: Store, i: Insertion, col: nat)
    requires Fits(i, col)
  {
    || !Files(i, col)
    || ((if i.auto then Counted(s, col).nextId > 0 else FiledId(i, col).value > 0)
        && (s.rebuilt ==> s.nextRow == |s.rows|))
  }

  /** No later INSERT or storage_ensure_index makes the index right again. */
  ghost predicate Wrong(s: Store, col: nat) {
    (exists id :: id in s.index && id <= 0) || (s.rebuilt && Spoilt(s, col))
  }

  lemma WrongIsUnsound(s: Store, col: nat)
    requires Wrong(s, col)
    ensures !Sound(s, col)
  {
    IndexMeans(s.rows, col);
    if s.rebuilt && Spoilt(s, col) {
      SpoiltIsWrong(s, col);
    }
  }

  lemma StaysWrong(s: Store, i: Insertion, col: nat)
    requires Sane(s) && Fits(i, col) && Wrong(s, col)
    ensures Wrong(Inserted(s, i, false, col).0, col)
  {
    if id :| id in s.index && id <= 0 {
      assert id in Inserted(s, i, false, col).0.index;
    } else {
      StaysSpoilt(s, i, col);
    }
  }

  lemma EnsuredStaysWrong(s: Store, col: nat)
    requires Wrong(s, col)
    ensures Wrong(Ensured(s, col), col)
  {
    RefilledOver(s.index, s.rows, col);
    if id :| id in s.index && id <= 0 {
      assert id in Ensured(s, col).index;
    }
  }

  /** An INSERT keeps the index sound exactly when it files rightly, and otherwise makes it wrong for good. */
  lemma InsertedSound(s: Store, i: Insertion, col: nat)
    requires Sane(s) && Sound(s, col) && Fits(i, col)
    ensures
      var r := Inserted(s, i, false, col).0;
      Sane(r) && if RightInsert(s, i, col) then Sound(r, col) else Wrong(r, col)
  {
    if s.rebuilt {
      InsertLeavesRight(s, i, col);
      if !RightInsert(s, i, col) {
        assert Spoilt(Inserted(s, i, false, col).0, col);
      }
    } else {
      InsertedEarly(s, i, col);
    }
  }

  lemma InsertedEarly(s: Store, i: Insertion, col: nat)
    requires Sane(s) && Sound(s, col) && Fits(i, col) && !s.rebuilt
    ensures
      var r := Inserted(s, i, false, col).0;
      if RightInsert(s, i, col) then Sound(r, col) else Wrong(r, col)
  {
    var c := Counted(s, col);
    var row, r := FinalRow(c, i, col), Inserted(s, i, false, col).0;
    ReadPrinted(c.nextId);
    assert r.rows == s.rows + [row];
    var id := IdOf(row, col);
    if id > 0 {
      IndexGrows(s.rows, row, col);
    } else {
      IndexSame(s.rows, row, col);
    }
    if Files(i, col) {
      assert r.index == s.index[id := c.nextRow] && id in r.index;
    }
  }

  lemma {:induction false} AutosAll(ops: seq<Insertion>)
    requires forall k | 0 <= k < |ops| :: ops[k].auto
    ensures Autos(ops) == |ops|
  {
    if ops != [] {
      AutosAll(ops[..|ops| - 1]);
    }
  }

  lemma {:induction false} RunCounted(s: Store, ops: seq<Insertion>, col: nat)
    requires s.nextId >= 0 && ops != [] && forall k | 0 <= k < |ops| :: Fits(ops[k], col)
    ensures InsertAll(s, ops, col) == InsertAll(Counted(s, col), ops, col)
  {
    var front := ops[..|ops| - 1];
    if front != [] {
      RunCounted(s, front, col);
    }
  }

  /** Automatic ids after a DELETE or UPDATE are first, first + 1, ...: they restart at 0 if the counters were
      cached, and repeat an id exactly when the table still holds one of them; otherwise they go on above all. */
  lemma AutoRunAfterRewrite(s: Store, rows: seq<Row>, ops: seq<Insertion>, col: nat)
    requires s.nextId >= 0 && ops != [] && forall k | 0 <= k < |ops| :: Fits(ops[k], col) && ops[k].auto
    ensures
      var r, first := InsertAll(Rewritten(s, rows, col), ops, col), if s.hasMeta then 0 else MaxId(rows, col) + 1;
      && (forall id :: HasId(r.rows, col, id) <==> HasId(rows, col, id) || first <= id < first + |ops|)
      && (DistinctIds(r.rows, col) <==>
          DistinctIds(rows, col) && forall id | first <= id < first + |ops| :: !HasId(rows, col, id))
      && (!s.hasMeta ==> (DistinctIds(r.rows, col) <==> DistinctIds(rows, col)))
  {
    var w := Rewritten(s, rows, col);
    RunCounted(w, ops, col);
    AutosAll(ops);
    RunDistinctExactly(Counted(w, col), ops, col);
    NothingGiven(rows, Counted(w, col).nextId, ops, col);
    MaxIdBounds(rows, col);
  }

  lemma NothingGiven(rows: seq<Row>, next: int, ops: seq<Insertion>, col: nat)
    requires forall k | 0 <= k < |ops| :: ops[k].auto
    ensures forall id :: !GivesId(ops, col, id)
    ensures NoRepeats(rows, next, ops, col) <==>
            DistinctIds(rows, col) && forall id | next <= id < next + Autos(ops) :: !HasId(rows, col, id)
  {
    assert forall id :: !GivesId(ops, col, id);
  }
}
