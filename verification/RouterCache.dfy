/** The answer cache of src/router.c.  Dictionary lookups are answered from the cache under the text asked for,
    and an insert drops the entry of its word.  A cached answer is the engine's JSON text, of which only the
    rows it lists matter here: rowsIn reads them off. */
module RouterCache {
  import opened Common
  import opened Cells
  import opened Where
  import opened Select
  import opened IndexedRows
  import opened QueryAgreement
  import opened TrieWords
  import L = RecencyList

  const DICTIONARY: seq<ColDef> := [ColDef("id", INT), ColDef("english", VARCHAR), ColDef("korean", VARCHAR)]

  datatype World = World(strtod: Strtod, rowsIn: string -> seq<Row>, capacity: nat)

  datatype Wanted = ByEnglish(text: string) | ById(text: string)

  function KeyOf(w: Wanted): string {
    match w
    case ByEnglish(t) => "english:" + t
    case ById(t) => "id:" + t
  }

  lemma KeysDiffer(a: Wanted, b: Wanted)
    ensures KeyOf(a) == KeyOf(b) <==> a == b
  {
    var x, y := KeyOf(a), KeyOf(b);
    assert x[0] == if a.ByEnglish? then 'e' else 'i';
    assert y[0] == if b.ByEnglish? then 'e' else 'i';
    assert a.text == if a.ByEnglish? then x[8..] else x[3..];
    assert b.text == if b.ByEnglish? then y[8..] else y[3..];
  }

  /** The condition of the SELECT that handle_dict_request makes. */
  function QueryOf(w: Wanted): Query {
    match w
    case ByEnglish(t) => Query([Clause("english", "=", t, "")], None, "")
    case ById(t) => Query([Clause("id", "=", t, "")], None, "")
  }

  /** The columns that SELECT asks for: the translation of a word, or both texts of an id. */
  function SqlOf(w: Wanted): SelectSql {
    SelectSql(QueryOf(w), if w.ByEnglish? then ["korean"] else ["english", "korean"], None, -1)
  }

  function Places(w: Wanted): (r: seq<nat>)
    ensures forall c | 0 <= c < |r| :: r[c] < |DICTIONARY|
  {
    if w.ByEnglish? then [2] else [1, 2]
  }

  /** The selected rows as the answer lists them. */
  function Shown(w: Wanted, selection: seq<Row>): (r: seq<Row>)
    ensures |r| == |selection|
  {
    seq(|selection|, i requires 0 <= i < |selection| =>
      if |selection[i]| == |DICTIONARY| then Projected(selection[i], Places(w)) else [])
  }

  /** An id that the index path can read. */
  predicate Number(w: Wanted) {
    w.ById? && ParseInt(w.text).Some?
  }

  /** The rows that query selects: for an id the one the index has, while it is that of the rows, and otherwise
      those of a scan. */
  ghost function Selected(world: World, rows: seq<Row>, w: Wanted): Option<seq<Row>> {
    if Number(w) then Some(AtPositions(rows, [Found(IndexOf(rows, 0), ParseInt(w.text).value)]))
    else Matching(DICTIONARY, rows, QueryOf(w), world.strtod)
  }

  /** What the query answers; different words may well have the same answer. */
  ghost function Answer(world: World, rows: seq<Row>, w: Wanted): Option<seq<Row>> {
    var m := Selected(world, rows, w);
    if m.None? then None else Some(Shown(w, m.value))
  }

  /** For an id that is what a scan selects exactly when the index says all about it. */
  lemma SelectedIsScan(world: World, rows: seq<Row>, w: Wanted, k: int)
    requires Number(w) && ParseLong(StripQuotes(w.text)) == Some(k) && IdColumn(DICTIONARY, rows, 0)
    ensures Selected(world, rows, w) == Matching(DICTIONARY, rows, QueryOf(w), world.strtod) <==> SaysAll(rows, 0, k)
  {
    LiteralAgrees(w.text, k);
    IdLookupAgrees(DICTIONARY, rows, 0, QueryOf(w), k, world.strtod);
  }

  lemma OneRow(rows: seq<Row>, p: int)
    ensures AtPositions(rows, [p]) == if 0 <= p < |rows| then [rows[p]] else []
  {
    assert [p][..0] == [];
  }

  /** The answer is that of the SELECT statement over the selected rows. */
  lemma AnswerIsSelect(world: World, rows: seq<Row>, w: Wanted, result: seq<Row>)
    requires Rectangular(DICTIONARY, rows) && Selected(world, rows, w).Some?
    ensures Answer(world, rows, w) == Some(result) <==>
            Answers(DICTIONARY, Selected(world, rows, w).value, SqlOf(w), result, world.strtod)
  {
    var m := Selected(world, rows, w).value;
    if Number(w) {
      OneRow(rows, Found(IndexOf(rows, 0), ParseInt(w.text).value));
    } else {
      MatchingRectangular(DICTIONARY, rows, QueryOf(w), world.strtod);
    }
    assert Arranged(DICTIONARY, m, SqlOf(w).order, m, world.strtod) && Limited(m, SqlOf(w).limit) == m;
    ShownIsProjection(w, m, result);
  }

  lemma ShownIsProjection(w: Wanted, m: seq<Row>, result: seq<Row>)
    requires Rectangular(DICTIONARY, m)
    ensures Projection(DICTIONARY, m, SqlOf(w).columns, result) <==> result == Shown(w, m)
  {
    PlacesResolved(w);
    if Projection(DICTIONARY, m, SqlOf(w).columns, result) {
      assert forall i | 0 <= i < |m| :: result[i] == Projected(m[i], Places(w));
      assert result == Shown(w, m);
    }
  }

  lemma PlacesResolved(w: Wanted)
    ensures Resolved(DICTIONARY, SqlOf(w).columns) == Some(Places(w))
  {
    assert "id"[0] != "english"[0] && "id"[0] != "korean"[0] && |"english"| != |"korean"|;
    assert FindFrom(DICTIONARY, "english", 0) == FindFrom(DICTIONARY, "english", 1) == 1;
    assert "english"[0] != "korean"[0];
    assert FindFrom(DICTIONARY, "korean", 0) == FindFrom(DICTIONARY, "korean", 1) == FindFrom(DICTIONARY, "korean", 2) == 2;
    var columns := SqlOf(w).columns;
    assert |columns| == |Places(w)| && forall c | 0 <= c < |columns| :: FindColumn(DICTIONARY, columns[c]) == Places(w)[c];
    assert !SelectsAll(columns);
    assert Resolved(DICTIONARY, columns).value == Places(w);
  }

  /** json lists what a query would find now. */
  ghost predicate Current(world: World, rows: seq<Row>, w: Wanted, json: string) {
    Answer(world, rows, w) == Some(world.rowsIn(json))
  }

  /** A lowercase word that fits the literal buffers. */
  predicate IsEntry(s: string) {
    IsWord(s) && |s| < LITERAL_SIZE
  }

  predicate Word(w: Wanted) {
    w.ByEnglish? && IsEntry(w.text)
  }

  // ---------- what an insert does to an answer ----------

  lemma WordDecision(world: World, row: Row, w: Wanted)
    requires |row| == |DICTIONARY| && Word(w)
    ensures Decision(DICTIONARY, row, QueryOf(w), world.strtod) == Some(row[1] == w.text)
  {
    SingleClause(DICTIONARY, row, QueryOf(w), world.strtod);
    assert "id"[0] != "english"[0];
    assert FindFrom(DICTIONARY, "english", 0) == FindFrom(DICTIONARY, "english", 1) == 1;
    assert StripQuotes(w.text) == w.text;
    StrcmpOrder(row[1], w.text);
  }

  /** The answer for a word that is current stays so exactly when the new row is not among what is wanted. */
  lemma StaysCurrent(world: World, rows: seq<Row>, row: Row, w: Wanted, json: string, hit: bool)
    requires Word(w) && Current(world, rows, w, json)
    requires Decision(DICTIONARY, row, QueryOf(w), world.strtod) == Some(hit)
    ensures Current(world, rows + [row], w, json) <==> !hit
  {
    assert (rows + [row])[..|rows|] == rows;
    var m := Matching(DICTIONARY, rows, QueryOf(w), world.strtod).value;
    assert |Shown(w, m + [row])| != |world.rowsIn(json)|;
  }

  // ---------- requests in any interleaving ----------

  /** Where a request is between its critical sections: before the query, between query and put, or between
      an INSERT and the invalidation of its word. */
  datatype Task = Idle | Asking(wanted: Wanted) | Holding(wanted: Wanted, json: string) | Dropping(word: string)

  datatype State = State(rows: seq<Row>, cache: seq<L.Item>, tasks: seq<Task>)

  datatype Event =
    | Look(t: nat, wanted: Wanted)   // dict_cache_get
    | Ask(t: nat, json: string)      // the query succeeds
    | AskFails(t: nat)               // the query fails, or the engine is not ready
    | Keep(t: nat)                   // dict_cache_put
    | Write(t: nat, row: Row)        // the INSERT succeeds
    | Drop(t: nat)                   // dict_cache_invalidate

  ghost predicate Enabled(world: World, s: State, e: Event) {
    && e.t < |s.tasks|
    && match e
       case Look(t, _) => s.tasks[t].Idle?
       case Ask(t, json) =>
         s.tasks[t].Asking? && (Word(s.tasks[t].wanted) ==> Current(world, s.rows, s.tasks[t].wanted, json))
       case AskFails(t) => s.tasks[t].Asking?
       case Keep(t) => s.tasks[t].Holding?
       case Write(t, row) => s.tasks[t].Idle? && |row| == |DICTIONARY| && IsEntry(row[1])
       case Drop(t) => s.tasks[t].Dropping?
  }

  function Apply(world: World, s: State, e: Event): State
    requires e.t < |s.tasks| && (e.Write? ==> |e.row| == |DICTIONARY|)
    requires (e.Ask? ==> s.tasks[e.t].Asking?) && (e.Keep? ==> s.tasks[e.t].Holding?) && (e.Drop? ==> s.tasks[e.t].Dropping?)
  {
    match e
    case Look(t, w) =>
      if L.Lookup(s.cache, KeyOf(w)).Some? then s.(cache := L.AfterGet(s.cache, KeyOf(w)))
      else s.(tasks := s.tasks[t := Asking(w)])
    case Ask(t, json) => s.(tasks := s.tasks[t := Holding(s.tasks[t].wanted, json)])
    case AskFails(t) => s.(tasks := s.tasks[t := Idle])
    case Keep(t) =>
      var h := s.tasks[t];
      s.(cache := L.AfterPut(s.cache, world.capacity, KeyOf(h.wanted), h.json), tasks := s.tasks[t := Idle])
    case Write(t, row) => s.(rows := s.rows + [row], tasks := s.tasks[t := Dropping(row[1])])
    case Drop(t) =>
      s.(cache := L.Without(s.cache, KeyOf(ByEnglish(s.tasks[t].word))), tasks := s.tasks[t := Idle])
  }

  /** The words an insert of which has not reached the cache yet. */
  function Pending(tasks: seq<Task>): set<string> {
    set t | 0 <= t < |tasks| && tasks[t].Dropping? :: tasks[t].word
  }

  /** What the cache says of a word is current, pending words apart. */
  ghost predicate Coherent(world: World, rows: seq<Row>, cache: seq<L.Item>, pending: set<string>) {
    forall w: Wanted | Word(w) && w.text !in pending && L.Lookup(cache, KeyOf(w)).Some? ::
      Current(world, rows, w, L.Lookup(cache, KeyOf(w)).value)
  }

  /** An answer on its way to the cache is current. */
  ghost predicate HeldCurrent(world: World, rows: seq<Row>, tasks: seq<Task>) {
    forall t | 0 <= t < |tasks| && tasks[t].Holding? && Word(tasks[t].wanted) ::
      Current(world, rows, tasks[t].wanted, tasks[t].json)
  }

  ghost predicate Inv(world: World, s: State) {
    && world.capacity > 0 && L.UniqueKeys(s.cache) && |s.cache| <= world.capacity
    && Coherent(world, s.rows, s.cache, Pending(s.tasks))
    && HeldCurrent(world, s.rows, s.tasks)
  }

  /** Some request has queried the word and not yet put its answer. */
  predicate Held(tasks: seq<Task>, word: string) {
    exists t | 0 <= t < |tasks| :: tasks[t].Holding? && tasks[t].wanted == ByEnglish(word)
  }

  lemma LookKeeps(world: World, s: State, e: Event)
    requires Inv(world, s) && Enabled(world, s, e) && (e.Look? || e.Ask? || e.AskFails?)
    ensures Inv(world, Apply(world, s, e))
  {
    var r := Apply(world, s, e);
    if e.Look? {
      L.GetKeeps(s.cache, world.capacity, KeyOf(e.wanted));
    }
    OtherPending(s.tasks, e.t, r.tasks[e.t]);
    assert forall k | 0 <= k < |s.tasks| && k != e.t :: r.tasks[k] == s.tasks[k];
  }

  lemma KeepKeeps(world: World, s: State, t: nat)
    requires Inv(world, s) && Enabled(world, s, Keep(t))
    ensures Inv(world, Apply(world, s, Keep(t)))
  {
    var r, h := Apply(world, s, Keep(t)), s.tasks[t];
    L.PutKeeps(s.cache, world.capacity, KeyOf(h.wanted), h.json);
    OtherPending(s.tasks, t, Idle);
    forall w: Wanted | Word(w) && w.text !in Pending(r.tasks) && L.Lookup(r.cache, KeyOf(w)).Some?
      ensures Current(world, r.rows, w, L.Lookup(r.cache, KeyOf(w)).value)
    {
      KeysDiffer(w, h.wanted);
    }
  }

  lemma DropKeeps(world: World, s: State, t: nat)
    requires Inv(world, s) && Enabled(world, s, Drop(t))
    ensures Inv(world, Apply(world, s, Drop(t)))
  {
    var r, gone := Apply(world, s, Drop(t)), ByEnglish(s.tasks[t].word);
    L.WithoutMember(s.cache, KeyOf(gone));
    forall w: Wanted | Word(w) && w.text !in Pending(r.tasks) && L.Lookup(r.cache, KeyOf(w)).Some?
      ensures Current(world, r.rows, w, L.Lookup(r.cache, KeyOf(w)).value)
    {
      L.LookupWithout(s.cache, KeyOf(gone), KeyOf(w));
      KeysDiffer(w, gone);
      DropPending(s.tasks, t);
    }
  }

  lemma DropPending(tasks: seq<Task>, t: nat)
    requires t < |tasks| && tasks[t].Dropping?
    ensures Pending(tasks) == Pending(tasks[t := Idle]) + {tasks[t].word}
  {
    var r := tasks[t := Idle];
    forall k | 0 <= k < |tasks| && tasks[k].Dropping?
      ensures tasks[k].word in Pending(r) + {tasks[t].word}
    {
      assert k != t ==> r[k] == tasks[k];
    }
  }

  lemma OtherPending(tasks: seq<Task>, t: nat, x: Task)
    requires t < |tasks| && !tasks[t].Dropping? && !x.Dropping?
    ensures Pending(tasks[t := x]) == Pending(tasks)
  {
    var r := tasks[t := x];
    assert forall k | 0 <= k < |tasks| && k != t :: r[k] == tasks[k];
    assert forall k | 0 <= k < |tasks| && tasks[k].Dropping? :: r[k].Dropping? && r[k].word == tasks[k].word;
  }

  /** An INSERT leaves the cache coherent exactly when no request holds an answer for its word: such an answer
      is out of date at once, and the put that follows would undo the invalidation. */
  lemma WriteSafeExactly(world: World, s: State, t: nat, row: Row)
    requires Inv(world, s) && Enabled(world, s, Write(t, row))
    ensures Inv(world, Apply(world, s, Write(t, row))) <==> !Held(s.tasks, row[1])
  {
    var r := Apply(world, s, Write(t, row));
    assert r.tasks[t].word == row[1];
    assert forall k | 0 <= k < |s.tasks| && k != t :: r.tasks[k] == s.tasks[k];
    forall w: Wanted | Word(w) && w.text !in Pending(r.tasks) && L.Lookup(r.cache, KeyOf(w)).Some?
      ensures Current(world, r.rows, w, L.Lookup(r.cache, KeyOf(w)).value)
    {
      WritePending(s.tasks, t, row[1]);
      WordDecision(world, row, w);
      StaysCurrent(world, s.rows, row, w, L.Lookup(s.cache, KeyOf(w)).value, row[1] == w.text);
    }
    forall k | 0 <= k < |s.tasks| && s.tasks[k].Holding? && Word(s.tasks[k].wanted)
      ensures Current(world, r.rows, s.tasks[k].wanted, s.tasks[k].json) <==> s.tasks[k].wanted.text != row[1]
    {
      var w := s.tasks[k].wanted;
      WordDecision(world, row, w);
      StaysCurrent(world, s.rows, row, w, s.tasks[k].json, row[1] == w.text);
    }
    if Held(s.tasks, row[1]) {
      var k :| 0 <= k < |s.tasks| && s.tasks[k].Holding? && s.tasks[k].wanted == ByEnglish(row[1]);
      assert r.tasks[k] == s.tasks[k] && !Current(world, r.rows, r.tasks[k].wanted, r.tasks[k].json);
    }
  }

  lemma WritePending(tasks: seq<Task>, t: nat, word: string)
    requires t < |tasks| && tasks[t].Idle?
    ensures Pending(tasks[t := Dropping(word)]) == Pending(tasks) + {word}
  {
    var r := tasks[t := Dropping(word)];
    assert r[t].word == word;
    assert forall k | 0 <= k < |tasks| && k != t :: r[k] == tasks[k];
  }

  /** No write of a word while its answer is on the way to the cache. */
  ghost predicate Guarded(s: State, e: Event) {
    e.Write? && |e.row| == |DICTIONARY| ==> !Held(s.tasks, e.row[1])
  }

  lemma StepKeeps(world: World, s: State, e: Event)
    requires Inv(world, s) && Enabled(world, s, e) && Guarded(s, e)
    ensures Inv(world, Apply(world, s, e))
  {
    match e
    case Keep(t) => KeepKeeps(world, s, t);
    case Drop(t) => DropKeeps(world, s, t);
    case Write(t, row) => WriteSafeExactly(world, s, t, row);
    case _ => LookKeeps(world, s, e);
  }

  ghost predicate IsRun(world: World, states: seq<State>, events: seq<Event>) {
    && |states| == |events| + 1
    && states[0].cache == [] && (forall t | 0 <= t < |states[0].tasks| :: states[0].tasks[t].Idle?)
    && forall k | 0 <= k < |events| ::
         Enabled(world, states[k], events[k]) && states[k + 1] == Apply(world, states[k], events[k])
  }

  lemma {:induction false} RunInv(world: World, states: seq<State>, events: seq<Event>, k: nat)
    requires IsRun(world, states, events) && world.capacity > 0 && k <= |events|
    requires forall j | 0 <= j < k :: Guarded(states[j], events[j])
    ensures Inv(world, states[k])
  {
    if k > 0 {
      RunInv(world, states, events, k - 1);
      StepKeeps(world, states[k - 1], events[k - 1]);
    }
  }

  /** In every run whose inserts meet no answer for their word on its way to the cache, what a cache hit serves
      for a word is what a query would find, unless an insert of the word has not returned yet. */
  lemma HitsAreCurrent(world: World, states: seq<State>, events: seq<Event>, k: nat, w: Wanted)
    requires IsRun(world, states, events) && world.capacity > 0 && k <= |events|
    requires forall j | 0 <= j < k :: Guarded(states[j], events[j])
    requires Word(w) && w.text !in Pending(states[k].tasks) && L.Lookup(states[k].cache, KeyOf(w)).Some?
    ensures Current(world, states[k].rows, w, L.Lookup(states[k].cache, KeyOf(w)).value)
  {
    RunInv(world, states, events, k);
  }

  /** A request starts only when no other is under way. */
  ghost predicate OneAtATime(states: seq<State>, events: seq<Event>) {
    forall k, t | 0 <= k < |events| < |states| && 0 <= t < |states[k].tasks| && t != events[k].t :: states[k].tasks[t].Idle?
  }

  /** In every run of requests that do not overlap, a hit for a word serves exactly what a query would find. */
  lemma SequentialHitsAreCurrent(world: World, states: seq<State>, events: seq<Event>, k: nat, w: Wanted)
    requires IsRun(world, states, events) && world.capacity > 0 && OneAtATime(states, events)
    requires k < |events| && events[k] == Look(events[k].t, w) && Word(w)
    requires L.Lookup(states[k].cache, KeyOf(w)).Some?
    ensures Current(world, states[k].rows, w, L.Lookup(states[k].cache, KeyOf(w)).value)
  {
    forall j | 0 <= j < k
      ensures Guarded(states[j], events[j])
    {
      assert Enabled(world, states[j], events[j]);
    }
    assert Enabled(world, states[k], events[k]);
    assert Pending(states[k].tasks) == {};
    HitsAreCurrent(world, states, events, k, w);
  }

  /** A miss that overlaps an insert of its word: it queries before the insert and puts after the invalidation. */
  function Overlap(w: Wanted, json: string, row: Row): seq<Event> {
    [Look(0, w), Ask(0, json), Write(1, row), Drop(1), Keep(0)]
  }

  /** It leaves an out-of-date answer in the cache with every request finished. */
  lemma OverlapLeavesStale(world: World, rows: seq<Row>, w: Wanted, json: string, row: Row) returns (states: seq<State>)
    requires Word(w) && Current(world, rows, w, json) && world.capacity > 0
    requires |row| == |DICTIONARY| && row[1] == w.text
    ensures IsRun(world, states, Overlap(w, json, row)) && states[0].rows == rows
    ensures
      var end := states[5];
      && (forall t | 0 <= t < |end.tasks| :: end.tasks[t].Idle?)
      && L.Lookup(end.cache, KeyOf(w)) == Some(json) && !Current(world, end.rows, w, json)
  {
    states := OverlapRun(world, rows, w, json, row);
    WordDecision(world, row, w);
    StaysCurrent(world, rows, row, w, json, true);
  }

  lemma OverlapRun(world: World, rows: seq<Row>, w: Wanted, json: string, row: Row) returns (states: seq<State>)
    requires Word(w) && Current(world, rows, w, json) && |row| == |DICTIONARY| && row[1] == w.text
    ensures IsRun(world, states, Overlap(w, json, row)) && states[0].rows == rows
    ensures states[5] == State(rows + [row], [L.Item(KeyOf(w), json)], [Idle, Idle])
  {
    var s0 := State(rows, [], [Idle, Idle]);
    var s1 := State(rows, [], [Asking(w), Idle]);
    var s2 := State(rows, [], [Holding(w, json), Idle]);
    var s3 := State(rows + [row], [], [Holding(w, json), Dropping(w.text)]);
    var s4 := State(rows + [row], [], [Holding(w, json), Idle]);
    var s5 := State(rows + [row], [L.Item(KeyOf(w), json)], [Idle, Idle]);
    states := [s0, s1, s2, s3, s4, s5];
    assert Apply(world, s0, Look(0, w)) == s1;
    assert Apply(world, s1, Ask(0, json)) == s2;
    assert Apply(world, s2, Write(1, row)) == s3;
    assert Apply(world, s3, Drop(1)) == s4;
    assert Apply(world, s4, Keep(0)) == s5;
  }

  /** Nothing drops the entry of an id: after an insert it is out of date exactly when the new row has that id, which
      the index then gives, and the entry does not happen to show its texts. */
  lemma IdEntryFate(world: World, s: State, t: nat, row: Row, w: Wanted)
    requires Enabled(world, s, Write(t, row)) && Number(w) && L.Lookup(s.cache, KeyOf(w)).Some?
    requires Current(world, s.rows, w, L.Lookup(s.cache, KeyOf(w)).value)
    ensures
      var r, json := Apply(world, Apply(world, s, Write(t, row)), Drop(t)), L.Lookup(s.cache, KeyOf(w)).value;
      && L.Lookup(r.cache, KeyOf(w)) == Some(json)
      && (Current(world, r.rows, w, json) <==> !Superseded(row, w) || world.rowsIn(json) == [[row[1], row[2]]])
  {
    var gone := KeyOf(ByEnglish(row[1]));
    KeysDiffer(w, ByEnglish(row[1]));
    L.LookupWithout(s.cache, gone, KeyOf(w));
    IdStaysCurrent(world, s.rows, row, w, L.Lookup(s.cache, KeyOf(w)).value);
    var r := Apply(world, Apply(world, s, Write(t, row)), Drop(t));
    assert r.rows == s.rows + [row] && r.cache == L.Without(s.cache, gone);
  }

  /** The row has the id that is wanted, as the index files it. */
  predicate Superseded(row: Row, w: Wanted)
    requires Number(w)
  {
    IdOf(row, 0) == ParseInt(w.text).value > 0
  }

  lemma IdStaysCurrent(world: World, rows: seq<Row>, row: Row, w: Wanted, json: string)
    requires |row| == |DICTIONARY| && Number(w) && Current(world, rows, w, json)
    ensures Current(world, rows + [row], w, json) <==> !Superseded(row, w) || world.rowsIn(json) == [[row[1], row[2]]]
  {
    var k, all := ParseInt(w.text).value, rows + [row];
    var p, q := Found(IndexOf(rows, 0), k), Found(IndexOf(all, 0), k);
    PlaceAfter(rows, row, k);
    OneRow(rows, p);
    OneRow(all, q);
    ShownRow(w, row);
  }

  lemma ShownRow(w: Wanted, row: Row)
    requires |row| == |DICTIONARY| && w.ById?
    ensures Shown(w, [row]) == [[row[1], row[2]]]
  {
    var texts := Projected(row, Places(w));
    assert |texts| == 2 && texts[0] == row[1] && texts[1] == row[2];
    assert texts == [row[1], row[2]];
    assert Shown(w, [row])[0] == texts;
  }

  /** Where the index has k after one more row. */
  lemma PlaceAfter(rows: seq<Row>, row: Row, k: int)
    ensures
      var p, q := Found(IndexOf(rows, 0), k), Found(IndexOf(rows + [row], 0), k);
      p < |rows| && q == if IdOf(row, 0) == k > 0 then |rows| else p
  {
    IndexMeans(rows, 0);
    assert k in IndexOf(rows, 0) ==> LastAt(rows, 0, k, IndexOf(rows, 0)[k]);
    assert (rows + [row])[..|rows|] == rows;
  }
}
