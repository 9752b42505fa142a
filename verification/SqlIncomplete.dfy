/** What parse_sql of src/parser.c makes of statements that lack some of their parts: the fields that were read. */
module SqlIncomplete {
  import opened Common
  import opened Cells
  import opened IndexedRows
  import opened SqlText
  import opened SqlStatements
  import opened SqlGrammar

  // ---------- no statement ----------

  /** No token is no statement, and a first token that opens none makes an unknown one. */
  lemma NoStatement(ts: seq<string>)
    ensures Parse(ts).None? <==> ts == []
    ensures ts != [] && (forall kw | kw in ["CREATE", "INSERT", "SELECT", "DELETE", "UPDATE"] :: !SameName(ts[0], kw)) ==>
              Parse(ts) == Some(New(UNKNOWN))
  {
    var kinds := ["CREATE", "INSERT", "SELECT", "DELETE", "UPDATE"];
    assert kinds[0] == "CREATE" && kinds[1] == "INSERT" && kinds[2] == "SELECT" && kinds[3] == "DELETE" && kinds[4] == "UPDATE";
  }

  // ---------- CREATE ----------

  /** Without TABLE, or with nothing behind it, nothing is read; without an opening parenthesis, the table only. */
  lemma CreateShort(create: string, ts: seq<string>)
    requires Spells(create, "CREATE")
    ensures !At(ts, "TABLE") || |ts| < 2 ==> Parse([create] + ts) == Some(New(CREATE))
    ensures At(ts, "TABLE") && |ts| >= 2 && |ts[1]| < NAME_SIZE && !At(ts[2..], "(") ==>
              Parse([create] + ts) == Some(New(CREATE).(table := ts[1]))
  {
    Opened(create, "CREATE", ts, [create] + ts);
  }

  /** Definitions without a closing parenthesis are kept. */
  lemma CreateUnclosed(create: string, word: string, table: string, defs: seq<string>, parts: seq<seq<string>>)
    requires Spells(create, "CREATE") && Spells(word, "TABLE") && |table| < NAME_SIZE
    requires |parts| == |defs| && forall i | 0 <= i < |defs| :: TwoTokens(defs[i], parts[i])
    ensures Parse([create, word, table, "("] + JoinTokens(parts)) == Some(New(CREATE).(table := table, colDefs := defs))
  {
    CreateOpened(create, word, table, JoinTokens(parts));
    CreateList(word, table, defs, parts, [word, table, "("] + JoinTokens(parts));
  }

  lemma CreateOpened(create: string, word: string, table: string, list: seq<string>)
    requires Spells(create, "CREATE")
    ensures Parse([create, word, table, "("] + list) == Some(Create([word, table, "("] + list))
  {
    FirstOfFour(create, word, table, list);
    Opened(create, "CREATE", [word, table, "("] + list, [create, word, table, "("] + list);
  }

  lemma CreateList(word: string, table: string, defs: seq<string>, parts: seq<seq<string>>, a: seq<string>)
    requires Spells(word, "TABLE") && |table| < NAME_SIZE && a == [word, table, "("] + JoinTokens(parts)
    requires |parts| == |defs| && forall i | 0 <= i < |defs| :: TwoTokens(defs[i], parts[i])
    ensures Create(a) == New(CREATE).(table := table, colDefs := defs)
  {
    var list := JoinTokens(parts);
    SpelledName(word, "TABLE");
    assert a[0] == word && a[1] == table && a[2..][0] == "(" && a[3..] == list && list + [] == list;
    DefsRead(defs, parts, []);
  }

  /** A definition of one token at the end is dropped. */
  lemma {:induction false} LastDefCut(defs: seq<string>, parts: seq<seq<string>>, t: string)
    requires |parts| == |defs| > 0 && forall i | 0 <= i < |defs| :: TwoTokens(defs[i], parts[i])
    ensures ColumnDefs(JoinTokens(parts) + [",", t]).0 == defs
  {
    var ts := JoinTokens(parts) + [",", t];
    if |defs| == 1 {
      assert TwoTokens(defs[0], parts[0]) && ts[2..] == [",", t] && ts[3..] == [t];
      assert [defs[0]] + [] == defs;
    } else {
      var tail := JoinTokens(parts[1..]) + [",", t];
      assert ts == parts[0] + ([","] + tail);
      assert TwoTokens(defs[0], parts[0]) && ts[2..] == [","] + tail && ts[3..] == tail;
      LastDefCut(defs[1..], parts[1..], t);
      assert [defs[0]] + defs[1..] == defs;
    }
  }

  // ---------- INSERT ----------

  /** Without INTO, or with nothing behind it, nothing is read; without an opening parenthesis, the table only. */
  lemma InsertShort(insert: string, ts: seq<string>)
    requires Spells(insert, "INSERT")
    ensures !At(ts, "INTO") || |ts| < 2 ==> Parse([insert] + ts) == Some(New(INSERT))
    ensures At(ts, "INTO") && |ts| >= 2 && |ts[1]| < NAME_SIZE && !At(ts[2..], "(") ==>
              Parse([insert] + ts) == Some(New(INSERT).(table := ts[1]))
  {
    Opened(insert, "INSERT", ts, [insert] + ts);
  }

  /** Without VALUES and its parenthesis behind the columns, table and columns. */
  lemma InsertWithoutValues(insert: string, into: string, table: string, columns: seq<string>, rest: seq<string>)
    requires Spells(insert, "INSERT") && Spells(into, "INTO") && |table| < NAME_SIZE
    requires (forall i | 0 <= i < |columns| :: columns[i] != ")") && (!At(rest, "VALUES") || !At(rest[1..], "("))
    ensures Parse([insert, into, table, "("] + (JoinTokens(Singles(columns)) + ([")"] + rest)))
            == Some(New(INSERT).(table := table, columns := columns))
  {
    var list := JoinTokens(Singles(columns)) + ([")"] + rest);
    var a := [into, table, "("] + list;
    InsertOpened(insert, into, table, list);
    SpelledName(into, "INTO");
    assert a[1] == table && a[2..][0] == "(" && a[3..] == list;
    IdentListBack(columns, rest);
  }

  /** A list that is not closed is kept. */
  lemma {:induction false} UnclosedList(names: seq<string>)
    requires forall i | 0 <= i < |names| :: names[i] != ")"
    ensures IdentList(JoinTokens(Singles(names))) == (names, [])
  {
    var ts := JoinTokens(Singles(names));
    if |names| == 1 {
      assert ts == [names[0]] && ts[1..] == [] && [names[0]] == names;
    } else if |names| > 1 {
      SinglesTail(names);
      var tail := JoinTokens(Singles(names[1..]));
      assert ts == [names[0]] + ([","] + tail);
      assert ts[1..] == [","] + tail && ts[2..] == tail;
      assert At(ts[1..], ",");
      UnclosedList(names[1..]);
      assert [names[0]] + names[1..] == names;
    }
  }

  lemma InsertUnclosed(insert: string, into: string, table: string, columns: seq<string>, word: string, values: seq<string>)
    requires Spells(insert, "INSERT") && Spells(into, "INTO") && Spells(word, "VALUES") && |table| < NAME_SIZE
    requires (forall i | 0 <= i < |columns| :: columns[i] != ")") && (forall i | 0 <= i < |values| :: values[i] != ")")
    ensures Parse([insert, into, table, "("] + (JoinTokens(Singles(columns)) + ([")", word, "("] + JoinTokens(Singles(values)))))
            == Some(New(INSERT).(table := table, columns := columns, values := values))
  {
    var tail := JoinTokens(Singles(values));
    var list := JoinTokens(Singles(columns)) + ([")", word, "("] + tail);
    InsertOpened(insert, into, table, list);
    ColumnsThenValues(columns, word, values, list);
    InsertStep(into, table, columns, word, values, list, tail, [into, table, "("] + list);
  }

  lemma ColumnsThenValues(columns: seq<string>, word: string, values: seq<string>, list: seq<string>)
    requires (forall i | 0 <= i < |columns| :: columns[i] != ")") && (forall i | 0 <= i < |values| :: values[i] != ")")
    requires list == JoinTokens(Singles(columns)) + ([")", word, "("] + JoinTokens(Singles(values)))
    ensures
      var tail := JoinTokens(Singles(values));
      IdentList(list) == (columns, [word, "("] + tail) && IdentList(tail).0 == values
  {
    var tail := JoinTokens(Singles(values));
    assert [")", word, "("] + tail == [")"] + ([word, "("] + tail);
    IdentListBack(columns, [word, "("] + tail);
    UnclosedList(values);
  }

  lemma InsertOpened(insert: string, into: string, table: string, list: seq<string>)
    requires Spells(insert, "INSERT")
    ensures Parse([insert, into, table, "("] + list) == Some(Insert([into, table, "("] + list))
  {
    FirstOfFour(insert, into, table, list);
    Opened(insert, "INSERT", [into, table, "("] + list, [insert, into, table, "("] + list);
  }

  // ---------- SELECT ----------

  /** Columns without FROM are all that is read. */
  lemma SelectWithoutFrom(select: string, columns: seq<string>, rest: seq<string>)
    requires Spells(select, "SELECT") && (forall i | 0 <= i < |columns| :: ColumnOk(columns[i]))
    requires AfterColumns(rest) && !At(rest, "FROM")
    ensures Parse([select] + (JoinTokens(ColumnsTokens(columns)) + rest)) == Some(New(SELECT).(columns := columns))
  {
    var a := JoinTokens(ColumnsTokens(columns)) + rest;
    Opened(select, "SELECT", a, [select] + a);
    ColumnsBack(columns, rest);
  }

  /** FROM at the end names no table. */
  lemma SelectFromNothing(select: string, columns: seq<string>, from: string)
    requires Spells(select, "SELECT") && (forall i | 0 <= i < |columns| :: ColumnOk(columns[i])) && Spells(from, "FROM")
    ensures Parse([select] + (JoinTokens(ColumnsTokens(columns)) + [from])) == Some(New(SELECT).(columns := columns))
  {
    var a := JoinTokens(ColumnsTokens(columns)) + [from];
    Opened(select, "SELECT", a, [select] + a);
    SpelledName(from, "FROM");
    FromStops([from]);
    ColumnsBack(columns, [from]);
  }

  /** BY may be left out behind ORDER. */
  lemma OrderWithoutBy(p: Parsed, order: string, column: string, rest: seq<string>)
    requires Spells(order, "ORDER") && !SameName(column, "BY") && |column| < NAME_SIZE
    requires !At(rest, "ASC") && !At(rest, "DESC")
    ensures OptionalOrder(p, [order, column] + rest) == (p.(order := Some(Ordering(column, true))), rest)
  {
    SpelledName(order, "ORDER");
    assert ([order, column] + rest)[1..] == [column] + rest && Rest([column] + rest, 1) == rest;
  }

  // ---------- DELETE and UPDATE ----------

  lemma DeleteShort(delete: string, ts: seq<string>)
    requires Spells(delete, "DELETE")
    ensures !At(ts, "FROM") || |ts| == 1 ==> Parse([delete] + ts) == Some(New(DELETE))
  {
    Opened(delete, "DELETE", ts, [delete] + ts);
  }

  lemma UpdateShort(update: string, ts: seq<string>)
    requires Spells(update, "UPDATE")
    ensures ts == [] ==> Parse([update] + ts) == Some(New(UPDATE))
    ensures ts != [] && |ts[0]| < NAME_SIZE && !At(ts[1..], "SET") ==> Parse([update] + ts) == Some(New(UPDATE).(table := ts[0]))
  {
    Opened(update, "UPDATE", ts, [update] + ts);
  }

  /** Fewer than three tokens behind the last comma of a SET list are dropped. */
  lemma {:induction false} LastSetCut(sets: seq<Assignment>, few: seq<string>)
    requires (forall i | 0 <= i < |sets| :: SetFits(sets[i])) && sets != [] && |few| < 3
    requires few != [] ==> few[0] != ";" && !SameName(few[0], "WHERE")
    ensures SetList(JoinTokens(SetsTokens(sets)) + ([","] + few)) == (sets, [])
  {
    var ts := JoinTokens(SetsTokens(sets)) + ([","] + few);
    if |sets| == 1 {
      assert ts == SetTokens(sets[0]) + ([","] + few);
      NextSet(sets[0], few);
      assert [sets[0]] + [] == sets;
    } else {
      assert SetsTokens(sets)[1..] == SetsTokens(sets[1..]);
      var tail := JoinTokens(SetsTokens(sets[1..])) + ([","] + few);
      assert ts == SetTokens(sets[0]) + ([","] + tail);
      LastSetCut(sets[1..], few);
      NextSet(sets[0], tail);
      assert [sets[0]] + sets[1..] == sets;
    }
  }
}
