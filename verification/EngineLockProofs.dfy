module EngineLockProofs {
  import opened Common
  import opened LockRegistry
  import opened EngineLock

  lemma SlotIs(s: State, st: Statement, k: nat)
    requires WellFormed(s.names) && !st.Create? && k < |s.names| && s.names[k] == st.table
    ensures Slot(s, st) == k
  {
    var j := Slot(s, st);
    assert j == k || j < k || k < j;
  }

  lemma OtherTables(s: State, r: State, t: nat, k: nat)
    requires Inv(s) && t < |s.phase| && k < |s.names| && |r.names| > k && r.names[k] == s.names[k]
    requires |r.phase| == |s.phase| && |r.tables| == |s.tables| && r.tables[k] == s.tables[k]
    requires |r.names| <= |r.tables|
    requires forall u | 0 <= u < |s.phase| && u != t :: r.phase[u] == s.phase[u]
    requires s.phase[t].Running? ==> s.phase[t].st.Create? || s.phase[t].st.table != s.names[k]
    requires r.phase[t].Running? ==> r.phase[t].st.Create? || r.phase[t].st.table != s.names[k]
    ensures TableOk(r, k)
  {
    assert TableOk(s, k);
    forall u: nat | u < |s.phase|
      ensures Reads(r, u, k) == Reads(s, u, k) && Writes(r, u, k) == Writes(s, u, k)
    {
    }
  }

  lemma BeginKeeps(s: State, t: nat, st: Statement)
    requires Inv(s) && Enabled(s, Begin(t, st))
    ensures Inv(Apply(s, Begin(t, st)))
  {
    var r := Apply(s, Begin(t, st));
    forall k: nat | k < |s.names|
      ensures TableOk(r, k)
    {
      OtherTables(s, r, t, k);
    }
  }

  lemma CatalogKeeps(s: State, t: nat)
    requires Inv(s) && Enabled(s, TakeCatalog(t))
    ensures Inv(Apply(s, TakeCatalog(t)))
  {
    var r := Apply(s, TakeCatalog(t));
    forall k: nat | k < |s.names|
      ensures TableOk(r, k)
    {
      OtherTables(s, r, t, k);
    }
  }

  lemma RegisterKeeps(s: State, t: nat)
    requires Inv(s) && Enabled(s, Register(t))
    ensures Inv(Apply(s, Register(t)))
  {
    var r := Apply(s, Register(t));
    var name := s.phase[t].st.table;
    RegisteredWellFormed(s.names, name);
    forall k: nat | k < |r.names|
      ensures TableOk(r, k)
    {
      if k < |s.names| {
        OtherTables(s, r, t, k);
      } else {
        assert r.names[k] == name && name !in s.names && |s.names| < MAX_TABLES;
        assert forall u: nat | u < |r.phase| :: !Reads(r, u, k) && !Writes(r, u, k);
      }
    }
  }

  lemma TakeTableKeeps(s: State, t: nat)
    requires Inv(s) && Enabled(s, TakeTable(t))
    ensures Inv(Apply(s, TakeTable(t)))
  {
    var r, st := Apply(s, TakeTable(t)), s.phase[t].st;
    forall k: nat | k < |r.names|
      ensures TableOk(r, k)
    {
      if r.names[k] == st.table {
        SlotIs(s, st, k);
        TakenTable(s, t, k);
      } else {
        OtherTables(s, r, t, k);
      }
    }
  }

  lemma TakenTable(s: State, t: nat, k: nat)
    requires Inv(s) && Enabled(s, TakeTable(t))
    requires k < |s.names| && s.names[k] == s.phase[t].st.table && Slot(s, s.phase[t].st) == k
    ensures TableOk(Apply(s, TakeTable(t)), k)
  {
    var r := Apply(s, TakeTable(t));
    assert TableOk(s, k);
    assert forall u: nat | u < |s.phase| && u != t :: Reads(r, u, k) == Reads(s, u, k) && Writes(r, u, k) == Writes(s, u, k);
  }

  lemma ReleaseTableKeeps(s: State, t: nat)
    requires Inv(s) && Enabled(s, ReleaseTable(t))
    ensures Inv(Apply(s, ReleaseTable(t)))
  {
    var r, st := Apply(s, ReleaseTable(t)), s.phase[t].st;
    forall k: nat | k < |r.names|
      ensures TableOk(r, k)
    {
      if r.names[k] == st.table {
        SlotIs(s, st, k);
        ReleasedTable(s, t, k);
      } else {
        OtherTables(s, r, t, k);
      }
    }
  }

  lemma ReleasedTable(s: State, t: nat, k: nat)
    requires Inv(s) && Enabled(s, ReleaseTable(t))
    requires k < |s.names| && s.names[k] == s.phase[t].st.table && Slot(s, s.phase[t].st) == k
    ensures TableOk(Apply(s, ReleaseTable(t)), k)
  {
    var r := Apply(s, ReleaseTable(t));
    assert TableOk(s, k);
    assert forall u: nat | u < |s.phase| && u != t :: Reads(r, u, k) == Reads(s, u, k) && Writes(r, u, k) == Writes(s, u, k);
    assert Reads(s, t, k) || Writes(s, t, k);
  }

  lemma ReleaseCatalogKeeps(s: State, t: nat)
    requires Inv(s) && Enabled(s, ReleaseCatalog(t))
    ensures Inv(Apply(s, ReleaseCatalog(t)))
  {
    var r := Apply(s, ReleaseCatalog(t));
    forall k: nat | k < |s.names|
      ensures TableOk(r, k)
    {
      OtherTables(s, r, t, k);
    }
  }

  lemma StepKeeps(s: State, e: Event)
    requires Inv(s) && Enabled(s, e)
    ensures Inv(Apply(s, e))
  {
    match e
    case Begin(t, st) => BeginKeeps(s, t, st);
    case TakeCatalog(t) => CatalogKeeps(s, t);
    case Register(t) => RegisterKeeps(s, t);
    case TakeTable(t) => TakeTableKeeps(s, t);
    case ReleaseTable(t) => ReleaseTableKeeps(s, t);
    case ReleaseCatalog(t) => ReleaseCatalogKeeps(s, t);
  }

  // ---------- runs ----------

  ghost function Start(threads: nat): State {
    State(FREE, [], seq(MAX_TABLES, _ => FREE), seq(threads, _ => Idle))
  }

  ghost predicate IsRun(states: seq<State>, events: seq<Event>) {
    && |states| == |events| + 1
    && states[0] == Start(|states[0].phase|)
    && forall k | 0 <= k < |events| :: Enabled(states[k], events[k]) && states[k + 1] == Apply(states[k], events[k])
  }

  lemma {:induction false} RunInv(states: seq<State>, events: seq<Event>, k: nat)
    requires IsRun(states, events) && k < |states|
    ensures Inv(states[k])
  {
    if k > 0 {
      RunInv(states, events, k - 1);
      StepKeeps(states[k - 1], events[k - 1]);
    }
  }

  ghost predicate Reachable(s: State) {
    exists states: seq<State>, events: seq<Event> :: IsRun(states, events) && s == states[|states| - 1]
  }

  lemma ReachableInv(s: State)
    requires Reachable(s)
    ensures Inv(s)
  {
    var states: seq<State>, events: seq<Event> :| IsRun(states, events) && s == states[|states| - 1];
    RunInv(states, events, |states| - 1);
  }

  /** A statement that runs as a writer of a registered table runs alone on that table. */
  lemma WriterExcludes(s: State, t: nat, u: nat, table: string)
    requires Reachable(s) && t < |s.phase| && u < |s.phase| && t != u
    requires s.phase[t] == Running(Write(table)) && table in s.names
    ensures !(s.phase[u].Running? && !s.phase[u].st.Create? && s.phase[u].st.table == table)
  {
    ReachableInv(s);
    var k :| 0 <= k < |s.names| && s.names[k] == table;
    assert TableOk(s, k) && Writes(s, t, k);
    assert !Reads(s, u, k) && !Writes(s, u, k);
  }

  /** While a CREATE runs every other thread is idle or waits for the catalog. */
  lemma CreateExcludesAll(s: State, t: nat, u: nat)
    requires Reachable(s) && t < |s.phase| && u < |s.phase| && t != u && s.phase[t] == Running(Create)
    ensures s.phase[u].Idle? || s.phase[u].WantCatalog?
  {
    ReachableInv(s);
    assert Creating(s.phase[t]) && !Creating(s.phase[u]);
    assert u !in s.catalog.readers;
  }

  /** Every release finds the lock its thread acquired, in the mode it acquired it. */
  lemma ReleaseMatches(s: State, e: Event)
    requires Reachable(s) && Enabled(s, e)
    ensures
      match e
      case ReleaseTable(t) =>
        var st, k := s.phase[t].st, Slot(s, s.phase[t].st);
        if !Locked(s, st) then k < 0
        else 0 <= k < |s.tables| && if st.Select? then t in s.tables[k].readers else s.tables[k].writer == Some(t)
      case ReleaseCatalog(t) =>
        if s.phase[t].st.Create? then s.catalog.writer == Some(t) else t in s.catalog.readers
      case _ => true
  {
    ReachableInv(s);
    match e
    case ReleaseTable(t) =>
      var st := s.phase[t].st;
      if Locked(s, st) {
        var k := Slot(s, st);
        assert TableOk(s, k) && (Reads(s, t, k) || Writes(s, t, k));
      }
    case ReleaseCatalog(t) =>
      assert Creating(s.phase[t]) || InsideCatalog(s.phase[t]);
    case _ =>
  }

  // ---------- progress ----------

  /** A thread waits behind the holders of a lock and, under a policy that prefers writers, a reader also
      waits behind waiting writers. */
  ghost predicate Admitted(s: State, e: Event, preferWriters: bool) {
    Enabled(s, e) &&
    match e
    case TakeCatalog(t) =>
      preferWriters && !s.phase[t].st.Create? ==>
        forall u | 0 <= u < |s.phase| :: s.phase[u] != WantCatalog(Create)
    case TakeTable(t) =>
      preferWriters && s.phase[t].st.Select? ==>
        forall u | 0 <= u < |s.phase| :: s.phase[u] != WantTable(Write(s.phase[t].st.table))
    case _ => true
  }

  ghost predicate CanMove(s: State, preferWriters: bool) {
    exists e :: Admitted(s, e, preferWriters) && !e.Begin?
  }

  lemma TableFree(s: State, k: nat)
    requires Inv(s) && k < |s.names| && forall u | 0 <= u < |s.phase| :: !s.phase[u].Running?
    ensures CanWrite(s.tables[k])
  {
    assert TableOk(s, k);
    assert forall w: nat | w < |s.phase| :: !Reads(s, w, k) && !Writes(s, w, k);
    assert forall w: nat :: s.tables[k].writer != Some(w);
  }

  lemma SomeTableMoves(s: State, t: nat, preferWriters: bool)
    requires Inv(s) && t < |s.phase| && s.phase[t].WantTable?
    requires forall u | 0 <= u < |s.phase| :: !s.phase[u].Running?
    ensures CanMove(s, preferWriters)
  {
    var st := s.phase[t].st;
    if Locked(s, st) {
      TableFree(s, Slot(s, st));
    }
    if st.Select? && exists u | 0 <= u < |s.phase| :: s.phase[u] == WantTable(Write(st.table)) {
      var u :| 0 <= u < |s.phase| && s.phase[u] == WantTable(Write(st.table));
      assert Admitted(s, TakeTable(u), preferWriters);
    } else {
      assert Admitted(s, TakeTable(t), preferWriters);
    }
  }

  lemma SomeCatalogMoves(s: State, t: nat, preferWriters: bool)
    requires Inv(s) && t < |s.phase| && s.phase[t].WantCatalog?
    requires forall u | 0 <= u < |s.phase| :: s.phase[u].Idle? || s.phase[u].WantCatalog?
    ensures CanMove(s, preferWriters)
  {
    assert forall w: nat | w < |s.phase| :: !InsideCatalog(s.phase[w]) && !Creating(s.phase[w]);
    assert forall w: nat :: s.catalog.writer != Some(w);
    if exists u | 0 <= u < |s.phase| :: s.phase[u] == WantCatalog(Create) {
      var u :| 0 <= u < |s.phase| && s.phase[u] == WantCatalog(Create);
      assert Admitted(s, TakeCatalog(u), preferWriters);
    } else {
      assert Admitted(s, TakeCatalog(t), preferWriters);
    }
  }

  /** No deadlock: while some statement is under way, some thread inside a statement can take its next step,
      whichever way the locks treat waiting writers. */
  lemma NoDeadlock(s: State, t: nat, preferWriters: bool)
    requires Reachable(s) && t < |s.phase| && !s.phase[t].Idle?
    ensures CanMove(s, preferWriters)
  {
    ReachableInv(s);
    if u: nat :| u < |s.phase| && s.phase[u].Running? {
      var e := if s.phase[u].st.Create? then ReleaseCatalog(u) else ReleaseTable(u);
      assert Admitted(s, e, preferWriters);
    } else if u: nat :| u < |s.phase| && s.phase[u].TableReleased? {
      assert Admitted(s, ReleaseCatalog(u), preferWriters);
    } else if u: nat :| u < |s.phase| && s.phase[u].HaveCatalog? {
      assert Admitted(s, Register(u), preferWriters);
    } else if u: nat :| u < |s.phase| && s.phase[u].WantTable? {
      SomeTableMoves(s, u, preferWriters);
    } else {
      SomeCatalogMoves(s, t, preferWriters);
    }
  }

  /** Steps left in a statement. */
  function Left(p: Phase): nat {
    match p
    case Idle => 0
    case WantCatalog(st) => if st.Create? then 2 else 6
    case HaveCatalog(_) => 5
    case WantTable(_) => 3
    case Running(st) => if st.Create? then 1 else 2
    case TableReleased(_) => 1
  }

  function LeftAll(ps: seq<Phase>): nat {
    if ps == [] then 0 else Left(ps[0]) + LeftAll(ps[1..])
  }

  lemma {:induction false} LeftUpdate(ps: seq<Phase>, t: nat, p: Phase)
    requires t < |ps|
    ensures LeftAll(ps[t := p]) == LeftAll(ps) - Left(ps[t]) + Left(p)
  {
    if t > 0 {
      LeftUpdate(ps[1..], t - 1, p);
      assert ps[t := p][1..] == ps[1..][t - 1 := p];
    } else {
      assert ps[0 := p][1..] == ps[1..];
    }
  }

  /** Every step of a statement brings the statements under way closer to their end, so with no new
      statements every run is finite, and by NoDeadlock it can only stop with every thread idle. */
  lemma StepsRunOut(s: State, e: Event)
    requires Reachable(s) && Enabled(s, e) && !e.Begin?
    ensures LeftAll(Apply(s, e).phase) < LeftAll(s.phase)
  {
    ReachableInv(s);
    LeftUpdate(s.phase, e.t, Apply(s, e).phase[e.t]);
    assert Apply(s, e).phase == s.phase[e.t := Apply(s, e).phase[e.t]];
  }

  /** The registry only forgets a table once it is full: with at most MAX_TABLES tables in use every running
      statement holds the lock of its table. */
  lemma RegisteredWhenFew(s: State, t: nat)
    requires Reachable(s) && t < |s.phase| && s.phase[t].Running? && !s.phase[t].st.Create?
    requires |s.names| < MAX_TABLES
    ensures s.phase[t].st.table in s.names
  {
    ReachableInv(s);
  }

  /** Past the limit exclusion is lost: two waiting writers of one table can run together exactly when the table
      is not in the registry. */
  lemma UnregisteredWritersOverlap(s: State, t: nat, u: nat, table: string)
    requires Reachable(s) && t < |s.phase| && u < |s.phase| && t != u
    requires s.phase[t] == s.phase[u] == WantTable(Write(table))
    ensures
      (Enabled(s, TakeTable(t)) && Enabled(Apply(s, TakeTable(t)), TakeTable(u))) <==> table !in s.names
    ensures table !in s.names ==>
              var r := Apply(Apply(s, TakeTable(t)), TakeTable(u));
              r.phase[t] == r.phase[u] == Running(Write(table))
  {
    ReachableInv(s);
  }

  // ---------- a full registry ----------

  lemma ReachStep(s: State, e: Event)
    requires Reachable(s) && Enabled(s, e)
    ensures Reachable(Apply(s, e))
  {
    var states: seq<State>, events: seq<Event> :| IsRun(states, events) && s == states[|states| - 1];
    assert IsRun(states + [Apply(s, e)], events + [e]);
  }

  function TableName(i: nat): (r: string)
    requires i <= MAX_TABLES
    ensures IsName(r) && |r| == 2 && i == 10 * (r[0] as int - 'a' as int) + (r[1] as int - 'a' as int)
  {
    [('a' as int + i / 10) as char, ('a' as int + i % 10) as char]
  }

  function TableNames(n: nat): (r: seq<string>)
    requires n <= MAX_TABLES
    ensures |r| == n && (forall k | 0 <= k < n :: r[k] == TableName(k)) && WellFormed(r)
    ensures forall k | n <= k <= MAX_TABLES :: TableName(k) !in r
  {
    if n == 0 then [] else TableNames(n - 1) + [TableName(n - 1)]
  }

  /** All threads idle after n tables have been used. */
  ghost function Rested(threads: nat, n: nat): State
    requires n <= MAX_TABLES
  {
    Start(threads).(names := TableNames(n))
  }

  /** A thread reads one table more. */
  lemma VisitTable(threads: nat, n: nat)
    requires threads > 0 && n < MAX_TABLES && Reachable(Rested(threads, n))
    ensures Reachable(Rested(threads, n + 1))
  {
    var s, st := Rested(threads, n), Statement.Select(TableName(n));
    var s1 := At(s, 0, WantCatalog(st));
    ReachStep(s, Begin(0, st));
    var s2 := At(s, 0, HaveCatalog(st)).(catalog := Lock({0}, None));
    assert Apply(s1, TakeCatalog(0)) == s2;
    ReachStep(s1, TakeCatalog(0));
    var s3 := At(s, 0, WantTable(st)).(catalog := Lock({0}, None), names := TableNames(n + 1));
    assert Apply(s2, Register(0)) == s3;
    ReachStep(s2, Register(0));
    VisitEnd(threads, n, s3, st);
  }

  lemma VisitEnd(threads: nat, n: nat, s: State, st: Statement)
    requires threads > 0 && n < MAX_TABLES && st == Statement.Select(TableName(n)) && Reachable(s)
    requires s == At(Rested(threads, n + 1), 0, WantTable(st)).(catalog := Lock({0}, None))
    ensures Reachable(Rested(threads, n + 1))
  {
    var s1 := At(s, 0, Running(st)).(tables := s.tables[n := Lock({0}, None)]);
    SlotIs(s, st, n);
    assert s.tables[n] == FREE && FREE.(readers := FREE.readers + {0}) == Lock({0}, None);
    assert Apply(s, TakeTable(0)) == s1;
    ReachStep(s, TakeTable(0));
    var s2 := At(s, 0, TableReleased(st));
    SlotIs(s1, st, n);
    assert Unlock(Lock({0}, None), 0) == FREE;
    assert s1.tables[n := FREE] == s.tables;
    assert Apply(s1, ReleaseTable(0)) == s2;
    ReachStep(s1, ReleaseTable(0));
    assert Apply(s2, ReleaseCatalog(0)) == Rested(threads, n + 1);
    ReachStep(s2, ReleaseCatalog(0));
  }

  lemma {:induction false} RestedReachable(threads: nat, n: nat)
    requires threads > 0 && n <= MAX_TABLES
    ensures Reachable(Rested(threads, n))
  {
    if n == 0 {
      assert IsRun([Start(threads)], []);
      assert Rested(threads, 0) == Start(threads);
    } else {
      RestedReachable(threads, n - 1);
      VisitTable(threads, n - 1);
    }
  }

  /** With the registry full a writer of another table comes to wait without a slot. */
  lemma WriterWaits(s: State, t: nat, table: string)
    requires Reachable(s) && t < |s.phase| && s.phase[t].Idle? && s.catalog.writer.None?
    requires |s.names| == MAX_TABLES && IsName(table)
    ensures Reachable(At(s, t, WantTable(Write(table))).(catalog := Lock(s.catalog.readers + {t}, None)))
  {
    var st := Write(table);
    var s1 := At(s, t, WantCatalog(st));
    ReachStep(s, Begin(t, st));
    var s2 := At(s, t, HaveCatalog(st)).(catalog := Lock(s.catalog.readers + {t}, None));
    assert Apply(s1, TakeCatalog(t)) == s2;
    ReachStep(s1, TakeCatalog(t));
    assert Apply(s2, Register(t)) == At(s, t, WantTable(st)).(catalog := s2.catalog);
    ReachStep(s2, Register(t));
  }

  /** Such writers do meet: after 64 other tables two threads write the 65th. */
  lemma WritersMeet() returns (s: State, table: string)
    ensures Reachable(s) && |s.phase| == 2 && table !in s.names
    ensures s.phase[0] == s.phase[1] == WantTable(Write(table))
  {
    table := TableName(MAX_TABLES);
    RestedReachable(2, MAX_TABLES);
    s := Rested(2, MAX_TABLES);
    WriterWaits(s, 0, table);
    s := At(s, 0, WantTable(Write(table))).(catalog := Lock({0}, None));
    WriterWaits(s, 1, table);
    s := At(s, 1, WantTable(Write(table))).(catalog := Lock({0, 1}, None));
  }

  // ---------- who waits for whom ----------

  /** A statement gets the catalog lock exactly if no CREATE runs, and a CREATE exactly if all others are idle or wait
      for it too. */
  lemma TakeCatalogExactly(s: State, t: nat)
    requires Inv(s) && t < |s.phase| && s.phase[t].WantCatalog?
    ensures Enabled(s, TakeCatalog(t)) <==>
            forall u | 0 <= u < |s.phase| ::
              if s.phase[t].st.Create? then s.phase[u].Idle? || s.phase[u].WantCatalog?
              else s.phase[u].Running? ==> !s.phase[u].st.Create?
  {
    var l := s.catalog;
    if s.phase[t].st.Create? {
      if u :| u in l.readers {
        assert InsideCatalog(s.phase[u]);
      }
      if l.writer.Some? {
        assert Creating(s.phase[l.writer.value]);
      }
      forall u: nat | u < |s.phase| && !s.phase[u].Idle? && !s.phase[u].WantCatalog?
        ensures u in l.readers || l.writer == Some(u)
      {
      }
    } else {
      if l.writer.Some? {
        assert Creating(s.phase[l.writer.value]);
      }
      forall u: nat | u < |s.phase| && s.phase[u].Running? && s.phase[u].st.Create?
        ensures l.writer == Some(u)
      {
        assert Creating(s.phase[u]);
      }
    }
  }

  /** A statement gets the lock of a registered table exactly if every statement that runs on the table reads, and it
      reads too: readers share a table, a writer has it alone.  A table without a slot has no lock to wait for. */
  lemma TakeTableExactly(s: State, t: nat)
    requires Inv(s) && t < |s.phase| && s.phase[t].WantTable?
    ensures Enabled(s, TakeTable(t)) <==>
            s.phase[t].st.table in s.names ==>
              forall u | 0 <= u < |s.phase| && s.phase[u].Running? && !s.phase[u].st.Create?
                         && s.phase[u].st.table == s.phase[t].st.table ::
                s.phase[t].st.Select? && s.phase[u].st.Select?
  {
    var st := s.phase[t].st;
    if st.table in s.names {
      var k: nat := Slot(s, st);
      var l := s.tables[k];
      assert TableOk(s, k) && s.names[k] == st.table;
      if l.writer.Some? {
        assert Writes(s, l.writer.value, k);
      }
      if u :| u in l.readers {
        assert Reads(s, u, k);
      }
      forall u: nat | u < |s.phase| && s.phase[u].Running? && !s.phase[u].st.Create? && s.phase[u].st.table == st.table
        ensures if s.phase[u].st.Select? then u in l.readers else l.writer == Some(u)
      {
        assert Reads(s, u, k) || Writes(s, u, k);
      }
    }
  }
}
