/** The statement lock protocol of src/engine.c over the locks of src/engine_lock.c, as a state machine:
    every lock call of every thread is one step. */
module EngineLock {
  import opened Common
  import opened LockRegistry

  /** CREATE takes the catalog for writing; SELECT takes its table for reading, all others for writing. */
  datatype Statement = Create | Select(table: string) | Write(table: string)

  /** Where a thread is between lock_for_statement and unlock_statement. */
  datatype Phase =
    | Idle
    | WantCatalog(st: Statement)
    | HaveCatalog(st: Statement)
    | WantTable(st: Statement)
    | Running(st: Statement)
    | TableReleased(st: Statement)

  /** A pthread_rwlock_t and who holds it. */
  datatype Lock = Lock(readers: set<nat>, writer: Option<nat>)

  const FREE: Lock := Lock({}, None)

  datatype State = State(catalog: Lock, names: seq<string>, tables: seq<Lock>, phase: seq<Phase>)

  datatype Event =
    | Begin(t: nat, st: Statement)
    | TakeCatalog(t: nat)
    | Register(t: nat)
    | TakeTable(t: nat)
    | ReleaseTable(t: nat)
    | ReleaseCatalog(t: nat)

  ghost predicate CanRead(l: Lock) { l.writer.None? }

  ghost predicate CanWrite(l: Lock) { l.writer.None? && l.readers == {} }

  /** pthread_rwlock_unlock by thread t */
  ghost function Unlock(l: Lock, t: nat): Lock {
    if l.writer == Some(t) then l.(writer := None) else l.(readers := l.readers - {t})
  }

  /** The table slot of a statement: -1 where registry_get_or_create_locked returns NULL. */
  ghost function Slot(s: State, st: Statement): int {
    if st.Create? then -1 else Lookup(s.names, st.table)
  }

  ghost predicate Locked(s: State, st: Statement) {
    !st.Create? && st.table in s.names
  }

  ghost predicate Enabled(s: State, e: Event) {
    e.t < |s.phase| &&
    match e
    case Begin(t, st) => s.phase[t].Idle? && (st.Create? || IsName(st.table))
    case TakeCatalog(t) =>
      s.phase[t].WantCatalog? && if s.phase[t].st.Create? then CanWrite(s.catalog) else CanRead(s.catalog)
    case Register(t) => s.phase[t].HaveCatalog?
    case TakeTable(t) =>
      && s.phase[t].WantTable? && |s.names| <= |s.tables|
      && (Locked(s, s.phase[t].st) ==>
            if s.phase[t].st.Select? then CanRead(s.tables[Slot(s, s.phase[t].st)])
            else CanWrite(s.tables[Slot(s, s.phase[t].st)]))
    case ReleaseTable(t) => s.phase[t].Running? && !s.phase[t].st.Create? && |s.names| <= |s.tables|
    case ReleaseCatalog(t) => s.phase[t].TableReleased? || (s.phase[t].Running? && s.phase[t].st.Create?)
  }

  ghost function At(s: State, t: nat, p: Phase): State
    requires t < |s.phase|
  {
    s.(phase := s.phase[t := p])
  }

  ghost function Apply(s: State, e: Event): State
    requires Enabled(s, e)
  {
    match e
    case Begin(t, st) => At(s, t, WantCatalog(st))
    case TakeCatalog(t) =>
      var st := s.phase[t].st;
      if st.Create? then At(s, t, Running(st)).(catalog := s.catalog.(writer := Some(t)))
      else At(s, t, HaveCatalog(st)).(catalog := s.catalog.(readers := s.catalog.readers + {t}))
    case Register(t) =>
      var st := s.phase[t].st;
      At(s, t, WantTable(st)).(names := if st.Create? then s.names else Registered(s.names, st.table))
    case TakeTable(t) =>
      var st := s.phase[t].st;
      var k := Slot(s, st);
      var next := At(s, t, Running(st));
      if k < 0 then next
      else if st.Select? then next.(tables := s.tables[k := s.tables[k].(readers := s.tables[k].readers + {t})])
      else next.(tables := s.tables[k := s.tables[k].(writer := Some(t))])
    case ReleaseTable(t) =>
      var st := s.phase[t].st;
      var k := Slot(s, st);
      At(s, t, TableReleased(st)).(tables := if k < 0 then s.tables else s.tables[k := Unlock(s.tables[k], t)])
    case ReleaseCatalog(t) => At(s, t, Idle).(catalog := Unlock(s.catalog, t))
  }

  // ---------- the invariant ----------

  ghost predicate InsideCatalog(p: Phase) {
    p.HaveCatalog? || p.WantTable? || p.TableReleased? || (p.Running? && !p.st.Create?)
  }

  ghost predicate Creating(p: Phase) { p.Running? && p.st.Create? }

  ghost predicate Reads(s: State, t: nat, k: nat)
    requires t < |s.phase| && k < |s.names|
  {
    s.phase[t] == Running(Select(s.names[k]))
  }

  ghost predicate Writes(s: State, t: nat, k: nat)
    requires t < |s.phase| && k < |s.names|
  {
    s.phase[t] == Running(Write(s.names[k]))
  }

  /** The catalog lock is held by exactly the threads between its acquire and its release. */
  ghost predicate CatalogOk(s: State) {
    && (forall t: nat :: t in s.catalog.readers <==> t < |s.phase| && InsideCatalog(s.phase[t]))
    && (forall t: nat :: s.catalog.writer == Some(t) <==> t < |s.phase| && Creating(s.phase[t]))
    && (s.catalog.writer.Some? ==> s.catalog.readers == {})
  }

  /** A registered table's lock is held by exactly the threads running a statement on that table. */
  ghost predicate TableOk(s: State, k: nat)
    requires k < |s.names| <= |s.tables|
  {
    && (forall t: nat :: t in s.tables[k].readers <==> t < |s.phase| && Reads(s, t, k))
    && (forall t: nat :: s.tables[k].writer == Some(t) <==> t < |s.phase| && Writes(s, t, k))
    && (s.tables[k].writer.Some? ==> s.tables[k].readers == {})
  }

  /** A thread on an unregistered table means that the registry is full. */
  ghost predicate PhasesOk(s: State) {
    forall t | 0 <= t < |s.phase| ::
      && (s.phase[t].Idle? || s.phase[t].st.Create? || IsName(s.phase[t].st.table))
      && (s.phase[t].HaveCatalog? || s.phase[t].WantTable? || s.phase[t].TableReleased? ==> !s.phase[t].st.Create?)
      && ((s.phase[t].WantTable? || s.phase[t].Running?) && !s.phase[t].st.Create? ==>
            s.phase[t].st.table in s.names || |s.names| == MAX_TABLES)
  }

  ghost predicate Inv(s: State) {
    && WellFormed(s.names) && |s.tables| == MAX_TABLES
    && CatalogOk(s) && PhasesOk(s)
    && (forall k: nat | k < |s.names| :: TableOk(s, k))
    && (forall k: nat | |s.names| <= k < |s.tables| :: s.tables[k] == FREE)
  }
}
