/** WHERE over one row: the one-pass loop of src/storage.c and what it decides. */
module Where {
  import opened Common
  import opened Cells

  datatype Query = Query(
    clauses: seq<Clause>,
    links: Option<seq<Option<string>>>,  // where_links, with its NULL entries
    logic: string)                       // where_logic, empty if unused

  /** resolve_where_link for the link behind clause index */
  function Link(q: Query, index: nat): string {
    if q.links.Some? && index < |q.clauses| - 1 && index < |q.links.value| && q.links.value[index].Some? then
      q.links.value[index].value
    else if q.logic != "" then q.logic
    else "AND"
  }

  predicate IsAnd(link: string) { SameName(link, "AND") }

  predicate IsOr(link: string) { SameName(link, "OR") }

  lemma AndIsNotOr(link: string)
    ensures !(IsAnd(link) && IsOr(link))
  {
  }

  /** Clauses a .. b are a maximal run joined by AND: OR, or an end of the list, on either side. */
  ghost predicate Group(q: Query, a: nat, b: nat) {
    && a <= b < |q.clauses|
    && (forall k: nat | a <= k < b :: IsAnd(Link(q, k)))
    && (a > 0 ==> IsOr(Link(q, a - 1)))
    && (b < |q.clauses| - 1 ==> IsOr(Link(q, b)))
  }

  /** Some maximal AND-group holds throughout. */
  ghost predicate SomeGroupHolds(q: Query, holds: seq<bool>)
    requires |holds| == |q.clauses|
  {
    exists a: nat, b: nat :: Group(q, a, b) && forall k | a <= k <= b :: holds[k]
  }

  /** What each clause says of the row, None for an error. */
  ghost function Verdicts(schema: seq<ColDef>, row: Row, clauses: seq<Clause>, strtod: Strtod): seq<Option<bool>> {
    if clauses == [] then []
    else [Evaluate(schema, row, clauses[0], strtod)] + Verdicts(schema, row, clauses[1..], strtod)
  }

  lemma {:induction false} VerdictAt(schema: seq<ColDef>, row: Row, clauses: seq<Clause>, strtod: Strtod, k: nat)
    requires k < |clauses|
    ensures |Verdicts(schema, row, clauses, strtod)| == |clauses|
    ensures Verdicts(schema, row, clauses, strtod)[k] == Evaluate(schema, row, clauses[k], strtod)
  {
    if k > 0 {
      VerdictAt(schema, row, clauses[1..], strtod, k - 1);
    } else if |clauses| > 1 {
      VerdictAt(schema, row, clauses[1..], strtod, 0);
    }
  }

  /** Every clause evaluates and every link is AND or OR. */
  ghost predicate AllValid(q: Query, verdicts: seq<Option<bool>>) {
    && (forall k | 0 <= k < |verdicts| :: verdicts[k].Some?)
    && (forall k: nat | k + 1 < |q.clauses| :: IsAnd(Link(q, k)) || IsOr(Link(q, k)))
  }

  ghost function Holds(verdicts: seq<Option<bool>>): (r: seq<bool>)
    ensures |r| == |verdicts| && forall k | 0 <= k < |r| :: r[k] == (verdicts[k] == Some(true))
  {
    seq(|verdicts|, k requires 0 <= k < |verdicts| => verdicts[k] == Some(true))
  }

  ghost function Decide(q: Query, verdicts: seq<Option<bool>>): Option<bool>
    requires |verdicts| == |q.clauses|
  {
    if q.clauses == [] then Some(true)
    else if !AllValid(q, verdicts) then None
    else Some(SomeGroupHolds(q, Holds(verdicts)))
  }

  lemma {:induction false} VerdictCount(schema: seq<ColDef>, row: Row, clauses: seq<Clause>, strtod: Strtod)
    ensures |Verdicts(schema, row, clauses, strtod)| == |clauses|
  {
    if clauses != [] {
      VerdictCount(schema, row, clauses[1..], strtod);
    }
  }

  /** What WHERE decides for a row: no condition accepts it, and otherwise OR binds weaker than AND. */
  ghost function Decision(schema: seq<ColDef>, row: Row, q: Query, strtod: Strtod): Option<bool> {
    VerdictCount(schema, row, q.clauses, strtod);
    Decide(q, Verdicts(schema, row, q.clauses, strtod))
  }

  /** A group that is still open at clause b: it started at a and has run to b. */
  ghost predicate Open(q: Query, a: nat, b: nat) {
    && a <= b < |q.clauses|
    && (forall k: nat | a <= k < b :: IsAnd(Link(q, k)))
    && (a > 0 ==> IsOr(Link(q, a - 1)))
  }

  ghost predicate HoldsFrom(holds: seq<bool>, a: nat, b: nat)
    requires a <= b < |holds|
  {
    forall k | a <= k <= b :: holds[k]
  }

  /** Some group that ended before clause n holds. */
  ghost predicate ClosedGroupHolds(q: Query, holds: seq<bool>, n: nat)
    requires |holds| == |q.clauses|
  {
    exists a: nat, b: nat :: Group(q, a, b) && b < n && HoldsFrom(holds, a, b)
  }

  /** Groups that end at the same clause start at the same clause. */
  lemma OneGroup(q: Query, a: nat, b: nat, c: nat)
    requires Open(q, a, b) && Open(q, c, b)
    ensures a == c
  {
    if a < c {
      AndIsNotOr(Link(q, c - 1));
    } else if c < a {
      AndIsNotOr(Link(q, a - 1));
    }
  }

  /** An OR closes the open group. */
  lemma CloseGroup(q: Query, holds: seq<bool>, a: nat, b: nat)
    requires |holds| == |q.clauses| && Open(q, a, b) && b + 1 < |q.clauses| && IsOr(Link(q, b))
    ensures ClosedGroupHolds(q, holds, b + 1) <==> ClosedGroupHolds(q, holds, b) || HoldsFrom(holds, a, b)
  {
    assert Group(q, a, b);
    if c: nat, d: nat :| Group(q, c, d) && d < b + 1 && HoldsFrom(holds, c, d) {
      if d == b {
        OneGroup(q, a, b, c);
      }
    }
  }

  /** An AND lets it run on. */
  lemma ExtendGroup(q: Query, holds: seq<bool>, a: nat, b: nat)
    requires |holds| == |q.clauses| && Open(q, a, b) && b + 1 < |q.clauses| && IsAnd(Link(q, b))
    ensures ClosedGroupHolds(q, holds, b + 1) <==> ClosedGroupHolds(q, holds, b)
    ensures Open(q, a, b + 1) && (HoldsFrom(holds, a, b + 1) <==> HoldsFrom(holds, a, b) && holds[b + 1])
  {
    if c: nat, d: nat :| Group(q, c, d) && d < b + 1 && HoldsFrom(holds, c, d) {
      AndIsNotOr(Link(q, b));
      assert d < b;
    }
  }

  /** The end of the list closes the last group. */
  lemma LastGroup(q: Query, holds: seq<bool>, a: nat, b: nat)
    requires |holds| == |q.clauses| && Open(q, a, b) && b + 1 == |q.clauses|
    ensures SomeGroupHolds(q, holds) <==> ClosedGroupHolds(q, holds, b) || HoldsFrom(holds, a, b)
  {
    assert Group(q, a, b);
    if c: nat, d: nat :| Group(q, c, d) && forall k | c <= k <= d :: holds[k] {
      assert HoldsFrom(holds, c, d);
      if d == b {
        OneGroup(q, a, b, c);
      }
    }
  }

  /** What the loop of row_matches_delete knows before clause index: the open group starts at start. */
  ghost predicate Folded(q: Query, holds: seq<bool>, start: nat, index: nat, groupMatch: bool, outMatch: bool)
    requires |holds| == |q.clauses|
  {
    && 0 < index && Open(q, start, index - 1)
    && outMatch == ClosedGroupHolds(q, holds, index - 1) && groupMatch == HoldsFrom(holds, start, index - 1)
  }

  lemma FoldedFirst(q: Query, holds: seq<bool>)
    requires |holds| == |q.clauses| > 0
    ensures Folded(q, holds, 0, 1, holds[0], false)
  {
  }

  lemma FoldedAnd(q: Query, holds: seq<bool>, start: nat, index: nat, group: bool, out: bool)
    requires index < |holds| == |q.clauses| && Folded(q, holds, start, index, group, out) && IsAnd(Link(q, index - 1))
    ensures Folded(q, holds, start, index + 1, group && holds[index], out)
  {
    ExtendGroup(q, holds, start, index - 1);
  }

  lemma FoldedOr(q: Query, holds: seq<bool>, start: nat, index: nat, group: bool, out: bool)
    requires index < |holds| == |q.clauses| && Folded(q, holds, start, index, group, out) && IsOr(Link(q, index - 1))
    ensures Folded(q, holds, index, index + 1, holds[index], out || group)
  {
    CloseGroup(q, holds, start, index - 1);
  }

  /** One round of the loop: an AND extends the open group, an OR closes it. */
  method FoldClause(q: Query, ghost holds: seq<bool>, ghost start: nat, index: nat, groupMatch: bool, outMatch: bool,
                    value: bool)
    returns (groupMatch': bool, outMatch': bool, ghost start': nat)
    requires 0 < index < |holds| == |q.clauses| && Folded(q, holds, start, index, groupMatch, outMatch)
    requires value == holds[index] && (IsAnd(Link(q, index - 1)) || IsOr(Link(q, index - 1)))
    ensures Folded(q, holds, start', index + 1, groupMatch', outMatch')
  {
    if IsAnd(Link(q, index - 1)) {
      FoldedAnd(q, holds, start, index, groupMatch, outMatch);
      groupMatch', outMatch', start' := groupMatch && value, outMatch, start;
    } else {
      FoldedOr(q, holds, start, index, groupMatch, outMatch);
      groupMatch', outMatch', start' := value, outMatch || groupMatch, index;
    }
  }

  /** The first n clauses evaluate, and the links between them are AND or OR. */
  ghost predicate ValidTo(q: Query, verdicts: seq<Option<bool>>, n: nat)
    requires n <= |verdicts|
  {
    && (forall k | 0 <= k < n :: verdicts[k].Some?)
    && (forall k: nat | k + 1 < n :: IsAnd(Link(q, k)) || IsOr(Link(q, k)))
  }

  lemma NotValid(q: Query, verdicts: seq<Option<bool>>, k: nat)
    requires k < |q.clauses| == |verdicts|
    requires verdicts[k].None? || (k > 0 && !IsAnd(Link(q, k - 1)) && !IsOr(Link(q, k - 1)))
    ensures Decide(q, verdicts) == None
  {
    if k > 0 && verdicts[k].Some? {
      var before: nat := k - 1;
      assert before + 1 < |q.clauses|;
    }
  }

  lemma FoldedAll(q: Query, verdicts: seq<Option<bool>>, start: nat, groupMatch: bool, outMatch: bool)
    requires |q.clauses| == |verdicts| && ValidTo(q, verdicts, |verdicts|)
    requires Folded(q, Holds(verdicts), start, |q.clauses|, groupMatch, outMatch)
    ensures Decide(q, verdicts) == Some(outMatch || groupMatch)
  {
    LastGroup(q, Holds(verdicts), start, |q.clauses| - 1);
  }

  /** row_matches_delete, which SELECT, DELETE and UPDATE share. */
  method RowMatches(schema: seq<ColDef>, row: Row, q: Query, strtod: Strtod) returns (result: Option<bool>)
    ensures result == Decision(schema, row, q, strtod)
  {
    if q.clauses == [] {
      return Some(true);
    }
    VerdictCount(schema, row, q.clauses, strtod);
    result := FoldClauses(schema, row, q, strtod, Verdicts(schema, row, q.clauses, strtod));
  }

  /** The loop: groupMatch is the verdict of the open group, outMatch that of the closed ones. */
  method FoldClauses(schema: seq<ColDef>, row: Row, q: Query, strtod: Strtod, ghost verdicts: seq<Option<bool>>)
    returns (result: Option<bool>)
    requires 0 < |q.clauses| == |verdicts| && verdicts == Verdicts(schema, row, q.clauses, strtod)
    ensures result == Decide(q, verdicts)
  {
    var first := EvaluateAt(schema, row, q, strtod, 0, verdicts);
    if first.None? {
      NotValid(q, verdicts, 0);
      return None;
    }
    var groupMatch, outMatch := first.value, false;
    ghost var start, holds := 0, Holds(verdicts);
    FoldedFirst(q, holds);
    for index := 1 to |q.clauses|
      invariant Folded(q, holds, start, index, groupMatch, outMatch) && ValidTo(q, verdicts, index)
    {
      var clause := EvaluateAt(schema, row, q, strtod, index, verdicts);
      if clause.None? || (!IsAnd(Link(q, index - 1)) && !IsOr(Link(q, index - 1))) {
        NotValid(q, verdicts, index);
        return None;
      }
      ValidStep(q, verdicts, index);
      groupMatch, outMatch, start := FoldClause(q, holds, start, index, groupMatch, outMatch, clause.value);
    }
    FoldedAll(q, verdicts, start, groupMatch, outMatch);
    result := Some(outMatch || groupMatch);
  }

  lemma ValidStep(q: Query, verdicts: seq<Option<bool>>, k: nat)
    requires 0 < k < |verdicts| && ValidTo(q, verdicts, k) && verdicts[k].Some?
    requires IsAnd(Link(q, k - 1)) || IsOr(Link(q, k - 1))
    ensures ValidTo(q, verdicts, k + 1)
  {
    forall j: nat | j + 1 < k + 1
      ensures IsAnd(Link(q, j)) || IsOr(Link(q, j))
    {
      assert j + 1 < k || j == k - 1;
    }
  }

  method EvaluateAt(schema: seq<ColDef>, row: Row, q: Query, strtod: Strtod, k: nat, ghost verdicts: seq<Option<bool>>)
    returns (result: Option<bool>)
    requires k < |q.clauses| == |verdicts| && verdicts == Verdicts(schema, row, q.clauses, strtod)
    ensures result == verdicts[k]
  {
    VerdictAt(schema, row, q.clauses, strtod, k);
    result := EvaluateSelectClause(schema, row, q.clauses[k], strtod);
  }

  // ---------- WHERE as an expression ----------

  /** Verdicts joined by OR, at the places so marked, and AND, which binds tighter. */
  function Truth(holds: seq<bool>, ors: seq<bool>): bool
    requires |holds| == |ors| + 1
    decreases |holds|
  {
    if ors == [] then holds[0]
    else if ors[0] then holds[0] || Truth(holds[1..], ors[1..])
    else Truth([holds[0] && holds[1]] + holds[2..], ors[1..])
  }

  /** From clause k on, with what the clauses before have left. */
  lemma {:induction false} TruthFrom(q: Query, holds: seq<bool>, ors: seq<bool>, start: nat, k: nat, group: bool, out: bool)
    requires 0 < k <= |q.clauses| == |holds| == |ors| + 1 && Folded(q, holds, start, k, group, out)
    requires forall i: nat | i < |ors| :: if ors[i] then IsOr(Link(q, i)) else IsAnd(Link(q, i))
    ensures SomeGroupHolds(q, holds) <==> out || Truth([group] + holds[k..], ors[k - 1..])
    decreases |q.clauses| - k
  {
    if k == |q.clauses| {
      LastGroup(q, holds, start, k - 1);
    } else if ors[k - 1] {
      FoldedOr(q, holds, start, k, group, out);
      TruthFrom(q, holds, ors, k, k + 1, holds[k], out || group);
      OneLess(group, holds, ors, k);
    } else {
      FoldedAnd(q, holds, start, k, group, out);
      TruthFrom(q, holds, ors, start, k + 1, group && holds[k], out);
      OneLess(group, holds, ors, k);
    }
  }

  lemma OneLess(group: bool, holds: seq<bool>, ors: seq<bool>, k: nat)
    requires 0 < k < |holds| == |ors| + 1
    ensures
      var rest := Truth([group] + holds[k..], ors[k - 1..]);
      rest == if ors[k - 1] then group || Truth([holds[k]] + holds[k + 1..], ors[k..])
              else Truth([group && holds[k]] + holds[k + 1..], ors[k..])
  {
    var hs := [group] + holds[k..];
    assert hs[1..] == [holds[k]] + holds[k + 1..] && hs[2..] == holds[k + 1..];
    assert ors[k - 1..][1..] == ors[k..];
  }

  /** The links of a query: those given, the common one for a missing entry or list, AND without one. */
  ghost predicate LinksRead(q: Query, ors: seq<bool>) {
    && |ors| + 1 == |q.clauses|
    && forall i | 0 <= i < |ors| ::
         var given := q.links.Some? && i < |q.links.value| && q.links.value[i].Some?;
         if given then SameName(q.links.value[i].value, if ors[i] then "OR" else "AND")
         else if q.logic != "" then SameName(q.logic, if ors[i] then "OR" else "AND")
         else !ors[i]
  }

  /** WHERE is true exactly if its conditions, read as an expression in which AND binds tighter than OR, are; it is
      an error exactly if a condition is, or a link is neither. */
  lemma WhereIsExpression(schema: seq<ColDef>, row: Row, q: Query, strtod: Strtod, ors: seq<bool>)
    requires q.clauses != []
    requires forall k | 0 <= k < |q.clauses| :: Evaluate(schema, row, q.clauses[k], strtod).Some?
    requires LinksRead(q, ors)
    ensures Decision(schema, row, q, strtod) == Some(Truth(Results(schema, row, q.clauses, strtod), ors))
  {
    var verdicts := Verdicts(schema, row, q.clauses, strtod);
    VerdictCount(schema, row, q.clauses, strtod);
    forall k | 0 <= k < |q.clauses|
      ensures verdicts[k] == Evaluate(schema, row, q.clauses[k], strtod)
    {
      VerdictAt(schema, row, q.clauses, strtod, k);
    }
    var holds := Holds(verdicts);
    assert holds == Results(schema, row, q.clauses, strtod);
    FoldedFirst(q, holds);
    TruthFrom(q, holds, ors, 0, 1, holds[0], false);
    assert [holds[0]] + holds[1..] == holds && ors[0..] == ors;
  }

  /** Which conditions hold. */
  ghost function Results(schema: seq<ColDef>, row: Row, clauses: seq<Clause>, strtod: Strtod): (r: seq<bool>)
    ensures |r| == |clauses|
    ensures forall k | 0 <= k < |r| :: r[k] <==> Evaluate(schema, row, clauses[k], strtod) == Some(true)
  {
    seq(|clauses|, k requires 0 <= k < |clauses| => Evaluate(schema, row, clauses[k], strtod) == Some(true))
  }

  /** It is an error in the other cases, and without conditions every row is accepted. */
  lemma WhereErrorExactly(schema: seq<ColDef>, row: Row, q: Query, strtod: Strtod)
    ensures Decision(schema, row, q, strtod).None? <==>
            q.clauses != [] && ((exists k | 0 <= k < |q.clauses| :: Evaluate(schema, row, q.clauses[k], strtod).None?)
                                || forall ors :: !LinksRead(q, ors))
    ensures q.clauses == [] ==> Decision(schema, row, q, strtod) == Some(true)
  {
    var verdicts := Verdicts(schema, row, q.clauses, strtod);
    VerdictCount(schema, row, q.clauses, strtod);
    forall k | 0 <= k < |q.clauses|
      ensures verdicts[k] == Evaluate(schema, row, q.clauses[k], strtod)
    {
      VerdictAt(schema, row, q.clauses, strtod, k);
    }
    if q.clauses != [] && Decision(schema, row, q, strtod).Some? {
      var n: nat := |q.clauses| - 1;
      var ors := seq(n, i requires 0 <= i < n => IsOr(Link(q, i)));
      assert forall k: nat | k + 1 < |q.clauses| :: IsAnd(Link(q, k)) || IsOr(Link(q, k));
      assert LinksRead(q, ors);
    }
    if ors :| LinksRead(q, ors) {
      assert forall i: nat | i + 1 < |q.clauses| :: if ors[i] then IsOr(Link(q, i)) else IsAnd(Link(q, i));
    }
  }
}
