/** What parse_sql of src/parser.c leaves in the fields of a statement, whatever the text. */
module SqlFields {
  import opened Common
  import opened Cells
  import opened SqlText
  import opened SqlStatements
  import G = SqlGrammar

  /** A condition in its buffers, with a second value for BETWEEN only. */
  predicate ConditionFits(c: Condition) {
    && |c.column| < NAME_SIZE && |c.op| < OP_SIZE && |c.value| < VALUE_SIZE && |c.valueTo| < VALUE_SIZE
    && (c.valueTo != "" ==> c.op == "BETWEEN")
  }

  predicate SetFits(a: Assignment) {
    |a.column| < NAME_SIZE && |a.value| < VALUE_SIZE
  }

  /** Conditions with exactly one link between each and the next, and the link that all share. */
  predicate WhereFits(p: Parsed) {
    && (forall i | 0 <= i < |p.conds| :: ConditionFits(p.conds[i]))
    && (forall i | 0 <= i < |p.links| :: p.links[i] == "AND" || p.links[i] == "OR")
    && |p.links| == (if p.conds == [] then 0 else |p.conds| - 1)
    && p.logic == G.Shared(p.links)
  }

  /** Texts no longer than the buffer of n bytes takes with its end mark. */
  predicate Within(texts: seq<string>, n: nat) {
    forall i | 0 <= i < |texts| :: |texts[i]| < n
  }

  /** Every field within its buffer, and those of other statements empty. */
  predicate FieldsFit(p: Parsed) {
    && |p.table| < NAME_SIZE && WhereFits(p) && (p.order.Some? ==> |p.order.value.column| < NAME_SIZE)
    && (forall i | 0 <= i < |p.sets| :: SetFits(p.sets[i])) && Within(p.colDefs, COLUMN_SIZE)
    && (p.kind.SELECT? ==> Within(p.columns, COLUMN_SIZE))
    && (!p.kind.CREATE? ==> p.colDefs == []) && (!p.kind.UPDATE? ==> p.sets == []) && (!p.kind.INSERT? ==> p.values == [])
    && (!p.kind.SELECT? ==> p.order == None && p.limit == -1)
    && (p.kind.CREATE? || p.kind.INSERT? || p.kind.UNKNOWN? ==> p.conds == [])
  }

  /** A text cut to a buffer is the longest beginning that fits with its end mark. */
  lemma FitExactly(s: string, n: nat)
    requires n > 0
    ensures Fit(s, n) <= s && |Fit(s, n)| < n && (|Fit(s, n)| == |s| || |Fit(s, n)| == n - 1)
  {
  }

  lemma {:induction false} ConditionsFit(ts: seq<string>)
    ensures
      var w := Conditions(ts);
      && (forall i | 0 <= i < |w.0| :: ConditionFits(w.0[i]))
      && (forall i | 0 <= i < |w.1| :: w.1[i] == "AND" || w.1[i] == "OR")
      && (if w.0 == [] then w.1 == [] else |w.1| == |w.0| - 1 || |w.1| == |w.0|)
    decreases |ts|
  {
    if |ts| >= 3 {
      if SameName(ts[1], "BETWEEN") {
        if |ts| >= 5 && SameName(ts[3], "AND") {
          AfterFits(PlainCondition(ts).(op := "BETWEEN", valueTo := Fit(ts[4], VALUE_SIZE)), ts[5..]);
        }
      } else {
        AfterFits(PlainCondition(ts), ts[3..]);
      }
    }
  }

  lemma {:induction false} AfterFits(c: Condition, ts: seq<string>)
    requires ConditionFits(c)
    ensures
      var w := After(c, ts);
      && (forall i | 0 <= i < |w.0| :: ConditionFits(w.0[i]))
      && (forall i | 0 <= i < |w.1| :: w.1[i] == "AND" || w.1[i] == "OR")
      && |w.0| > 0 && (|w.1| == |w.0| - 1 || |w.1| == |w.0|)
    decreases |ts|, 0
  {
    if AtLink(ts) {
      ConditionsFit(ts[1..]);
    }
  }

  lemma OptionalWhereFits(p: Parsed, ts: seq<string>)
    requires FieldsFit(p) && p.conds == [] && (p.kind.SELECT? || p.kind.DELETE? || p.kind.UPDATE?)
    ensures FieldsFit(OptionalWhere(p, ts).0)
    ensures
      var q := OptionalWhere(p, ts).0;
      q == p.(conds := q.conds, links := q.links, logic := q.logic)
  {
    if At(ts, "WHERE") {
      ConditionsFit(ts[1..]);
      var w := Conditions(ts[1..]);
      G.LogicShared(Links(w.0, w.1));
    }
  }

  lemma {:induction false} DefsFit(ts: seq<string>)
    ensures Within(ColumnDefs(ts).0, COLUMN_SIZE)
    decreases |ts|
  {
    if |ts| >= 2 && ts[0] != ")" && At(ts[2..], ",") {
      DefsFit(ts[3..]);
    }
  }

  lemma {:induction false} ColumnsFit(ts: seq<string>)
    ensures Within(SelectColumns(ts).0, COLUMN_SIZE)
    decreases |ts|
  {
    if !SelectStop(ts) {
      var c := SelectColumn(ts);
      if At(c.1, ",") {
        ColumnsFit(c.1[1..]);
      }
    }
  }

  lemma {:induction false} SetsFit(ts: seq<string>)
    ensures forall i | 0 <= i < |SetList(ts).0| :: SetFits(SetList(ts).0[i])
    decreases |ts|
  {
    if |ts| >= 3 && !At(ts, "WHERE") && ts[0] != ";" && At(ts[3..], ",") {
      SetsFit(ts[4..]);
    }
  }

  lemma CreateFits(ts: seq<string>)
    ensures FieldsFit(Create(ts))
  {
    if |ts| >= 2 && At(ts[2..], "(") {
      DefsFit(ts[3..]);
    }
  }

  lemma OrderFits(p: Parsed, ts: seq<string>)
    requires FieldsFit(p) && p.kind.SELECT?
    ensures FieldsFit(OptionalOrder(p, ts).0) && OptionalOrder(p, ts).0.kind.SELECT?
  {
    var q := OptionalOrder(p, ts).0;
    assert q == p.(order := q.order);
  }

  lemma LimitFits(p: Parsed, ts: seq<string>)
    requires FieldsFit(p) && p.kind.SELECT?
    ensures FieldsFit(OptionalLimit(p, ts))
  {
    var q := OptionalLimit(p, ts);
    assert q == p.(limit := q.limit);
  }

  lemma BehindFromFits(p: Parsed, ts: seq<string>)
    requires FieldsFit(p) && p.conds == [] && p.kind.SELECT?
    ensures
      var w := OptionalWhere(p, ts);
      var o := OptionalOrder(w.0, w.1);
      FieldsFit(OptionalLimit(o.0, o.1))
  {
    OptionalWhereFits(p, ts);
    var w := OptionalWhere(p, ts);
    OrderFits(w.0, w.1);
    var o := OptionalOrder(w.0, w.1);
    LimitFits(o.0, o.1);
  }

  lemma SelectFits(ts: seq<string>)
    ensures FieldsFit(Select(ts))
  {
    ColumnsFit(ts);
    var cols := SelectColumns(ts);
    var p := New(SELECT).(columns := cols.0);
    if At(cols.1, "FROM") {
      BehindFromFits(if |cols.1| > 1 then p.(table := Fit(cols.1[1], NAME_SIZE)) else p, Rest(cols.1, 2));
    }
  }

  lemma DeleteFits(ts: seq<string>)
    ensures FieldsFit(Delete(ts))
  {
    var p := if |ts| > 1 then New(DELETE).(table := Fit(ts[1], NAME_SIZE)) else New(DELETE);
    OptionalWhereFits(p, Rest(ts, 2));
  }

  lemma UpdateFits(ts: seq<string>)
    ensures FieldsFit(Update(ts))
  {
    var p := if ts != [] then New(UPDATE).(table := Fit(ts[0], NAME_SIZE)) else New(UPDATE);
    var sets := SetList(Rest(ts, 2));
    SetsFit(Rest(ts, 2));
    OptionalWhereFits(p.(sets := sets.0), sets.1);
  }

  lemma InsertFits(ts: seq<string>)
    ensures FieldsFit(Insert(ts))
  {
  }

  lemma KindFits(ts: seq<string>)
    requires ts != []
    ensures Parse(ts).Some? && FieldsFit(Parse(ts).value)
  {
    if At(ts, "CREATE") {
      CreateFits(ts[1..]);
    } else if At(ts, "INSERT") {
      InsertFits(ts[1..]);
    } else if At(ts, "SELECT") {
      SelectFits(ts[1..]);
    } else if At(ts, "DELETE") {
      DeleteFits(ts[1..]);
    } else if At(ts, "UPDATE") {
      UpdateFits(ts[1..]);
    }
  }

  /** No text overruns a buffer, and the conditions always have the links that storage counts on. */
  lemma ParsedFits(text: string)
    requires ParseSql(text).Some?
    ensures FieldsFit(ParseSql(text).value)
  {
    KindFits(Tokens(text));
  }
}
