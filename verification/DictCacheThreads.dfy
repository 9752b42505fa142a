/** The cache of src/dict_cache.c under its read-write lock.  Readers interleave freely: a hit takes its
    stamp from the clock in one step and stores it in another.  Writers hold the lock alone, so each is one
    step that no reader is in the middle of. */
module DictCacheThreads {
  import opened Common
  import opened RecencyList
  import opened DictCache

  /** Where a thread is inside dict_cache_get. */
  datatype Phase = Idle | Reading(key: string) | Found(slot: nat) | Stamped(slot: nat, stamp: nat)

  datatype Shared = Shared(entries: seq<Entry>, clock: nat, threads: seq<Phase>)

  datatype Event =
    | LockRead(t: nat, key: string)
    | FindHit(t: nat, slot: nat)
    | FindMiss(t: nat)
    | FetchAdd(t: nat)
    | StoreStamp(t: nat)
    | Write(slot: nat, key: string, json: string)
    | Invalidate(slot: nat)
    | InvalidateAll

  /** The write lock can be granted. */
  ghost predicate NoReader(s: Shared) {
    forall t | 0 <= t < |s.threads| :: s.threads[t].Idle?
  }

  /** A put writes the slot of its key if the key is stored, and any slot otherwise. */
  ghost predicate MayWrite(es: seq<Entry>, slot: nat, key: string) {
    slot < |es| && forall j | 0 <= j < |es| && j != slot :: es[j].key != Some(key)
  }

  ghost predicate Enabled(s: Shared, e: Event) {
    match e
    case LockRead(t, _) => t < |s.threads| && s.threads[t].Idle?
    case FindHit(t, slot) =>
      t < |s.threads| && s.threads[t].Reading? && slot < |s.entries| && s.entries[slot].key == Some(s.threads[t].key)
    case FindMiss(t) =>
      t < |s.threads| && s.threads[t].Reading?
      && forall j | 0 <= j < |s.entries| :: s.entries[j].key != Some(s.threads[t].key)
    case FetchAdd(t) => t < |s.threads| && s.threads[t].Found?
    case StoreStamp(t) => t < |s.threads| && s.threads[t].Stamped? && s.threads[t].slot < |s.entries|
    case Write(slot, key, _) => NoReader(s) && MayWrite(s.entries, slot, key)
    case Invalidate(slot) => NoReader(s) && slot < |s.entries|
    case InvalidateAll => NoReader(s)
  }

  function Cleared(n: nat): (r: seq<Entry>)
    ensures |r| == n && forall i | 0 <= i < n :: r[i] == FREE
  {
    seq(n, _ => FREE)
  }

  function At(s: Shared, t: nat, p: Phase): Shared
    requires t < |s.threads|
  {
    s.(threads := s.threads[t := p])
  }

  function Reset(s: Shared): Shared {
    s.(entries := Cleared(|s.entries|), clock := 0)
  }

  ghost function Apply(s: Shared, e: Event): Shared
    requires Enabled(s, e)
  {
    match e
    case LockRead(t, key) => At(s, t, Reading(key))
    case FindHit(t, slot) => At(s, t, Found(slot))
    case FindMiss(t) => At(s, t, Idle)
    case FetchAdd(t) => At(s, t, Stamped(s.threads[t].slot, s.clock + 1)).(clock := s.clock + 1)
    case StoreStamp(t) =>
      var slot := s.threads[t].slot;
      At(s, t, Idle).(entries := s.entries[slot := s.entries[slot].(lastUsed := s.threads[t].stamp)])
    case Write(slot, key, json) =>
      s.(entries := s.entries[slot := Entry(Some(key), json, s.clock + 1)], clock := s.clock + 1)
    case Invalidate(slot) => s.(entries := s.entries[slot := FREE])
    case InvalidateAll => Reset(s)
  }

  /** Stamps of live entries differ and were given out by the clock; no key is stored twice. */
  ghost predicate LiveOk(s: Shared) {
    && (forall i | 0 <= i < |s.entries| && s.entries[i].key.Some? :: 0 < s.entries[i].lastUsed <= s.clock)
    && (forall i, j | 0 <= i < j < |s.entries| && s.entries[i].key.Some? && s.entries[j].key.Some? ::
          s.entries[i].lastUsed != s.entries[j].lastUsed && s.entries[i].key != s.entries[j].key)
  }

  /** A stamp in flight belongs to a live entry and is nobody else's. */
  ghost predicate PendingOk(s: Shared) {
    && (forall t | 0 <= t < |s.threads| && (s.threads[t].Found? || s.threads[t].Stamped?) ::
          s.threads[t].slot < |s.entries| && s.entries[s.threads[t].slot].key.Some?)
    && (forall t | 0 <= t < |s.threads| && s.threads[t].Stamped? :: 0 < s.threads[t].stamp <= s.clock)
    && (forall t, u | 0 <= t < u < |s.threads| && s.threads[t].Stamped? && s.threads[u].Stamped? ::
          s.threads[t].stamp != s.threads[u].stamp)
    && (forall t, i | 0 <= t < |s.threads| && 0 <= i < |s.entries| && s.threads[t].Stamped? && s.entries[i].key.Some? ::
          s.threads[t].stamp != s.entries[i].lastUsed)
  }

  ghost predicate Inv(s: Shared) {
    LiveOk(s) && PendingOk(s)
  }

  lemma StoreKeeps(s: Shared, t: nat)
    requires Inv(s) && Enabled(s, StoreStamp(t))
    ensures Inv(Apply(s, StoreStamp(t)))
  {
  }

  lemma FetchKeeps(s: Shared, t: nat)
    requires Inv(s) && Enabled(s, FetchAdd(t))
    ensures Inv(Apply(s, FetchAdd(t)))
  {
  }

  lemma StepKeeps(s: Shared, e: Event)
    requires Inv(s) && Enabled(s, e)
    ensures Inv(Apply(s, e))
  {
    match e
    case StoreStamp(t) => StoreKeeps(s, t);
    case FetchAdd(t) => FetchKeeps(s, t);
    case _ =>
  }

  ghost predicate IsRun(states: seq<Shared>, events: seq<Event>, capacity: nat, threads: nat) {
    && |states| == |events| + 1
    && states[0] == Shared(Cleared(capacity), 0, seq(threads, _ => Idle))
    && forall k | 0 <= k < |events| :: Enabled(states[k], events[k]) && states[k + 1] == Apply(states[k], events[k])
  }

  /** In every interleaving the stamps of live entries stay pairwise distinct and at most the clock. */
  lemma {:induction false} StampsStayDistinct(states: seq<Shared>, events: seq<Event>, capacity: nat, threads: nat, k: nat)
    requires IsRun(states, events, capacity, threads) && k < |states|
    ensures Inv(states[k])
  {
    if k > 0 {
      StampsStayDistinct(states, events, capacity, threads, k - 1);
      StepKeeps(states[k - 1], events[k - 1]);
    }
  }

  /** Resetting the clock is safe exactly when no reader has a slot or a stamp in hand, which is what the
      write lock of dict_cache_invalidate_all excludes. */
  lemma ResetSafeExactly(s: Shared)
    requires Inv(s)
    ensures Inv(Reset(s)) <==> forall t | 0 <= t < |s.threads| :: s.threads[t].Idle? || s.threads[t].Reading?
  {
    if t :| 0 <= t < |s.threads| && (s.threads[t].Found? || s.threads[t].Stamped?) {
      assert Reset(s).threads[t] == s.threads[t];
    }
  }

  /** Places a slot in an order of falling stamps. */
  lemma {:induction false} Insert(es: seq<Entry>, order: seq<nat>, i: nat) returns (r: seq<nat>)
    requires i < |es| && InRange(es, order) && es[i].key.Some?
    requires forall p, q | 0 <= p < q < |order| :: es[order[p]].lastUsed > es[order[q]].lastUsed
    requires forall p | 0 <= p < |order| :: es[order[p]].lastUsed != es[i].lastUsed
    ensures InRange(es, r) && forall p, q | 0 <= p < q < |r| :: es[r[p]].lastUsed > es[r[q]].lastUsed
    ensures forall x :: x in r <==> x == i || x in order
  {
    if order == [] || es[order[0]].lastUsed < es[i].lastUsed {
      r := [i] + order;
    } else {
      var rest := Insert(es, order[1..], i);
      r := [order[0]] + rest;
      forall q | 0 < q < |r|
        ensures es[r[0]].lastUsed > es[r[q]].lastUsed
      {
        assert r[q] in rest;
        assert r[q] == i || exists p :: 0 < p < |order| && order[p] == r[q];
      }
      assert forall x :: x in order <==> x == order[0] || x in order[1..];
      assert forall q | 0 < q < |r| :: r[q] == rest[q - 1];
    }
  }

  lemma {:induction false} OrderUpTo(s: Shared, n: nat) returns (order: seq<nat>)
    requires LiveOk(s) && n <= |s.entries|
    ensures InRange(s.entries, order)
    ensures forall p, q | 0 <= p < q < |order| :: s.entries[order[p]].lastUsed > s.entries[order[q]].lastUsed
    ensures forall i: nat :: i in order <==> i < n && s.entries[i].key.Some?
  {
    if n == 0 {
      order := [];
    } else {
      order := OrderUpTo(s, n - 1);
      if s.entries[n - 1].key.Some? {
        assert forall p | 0 <= p < |order| :: order[p] in order;
        order := Insert(s.entries, order, n - 1);
      }
    }
  }

  // ---------- what a stamp says ----------

  /** log lists the keys whose puts and hits took the stamps 1, 2, ... since the last reset, and puts the stamp
      of the last put of each key. */
  datatype History = History(log: seq<string>, puts: map<string, nat>)

  ghost function Recorded(h: History, s: Shared, e: Event): History
    requires Enabled(s, e)
  {
    match e
    case FetchAdd(t) =>
      var slot := s.threads[t].slot;
      if slot < |s.entries| && s.entries[slot].key.Some? then h.(log := h.log + [s.entries[slot].key.value]) else h
    case Write(_, key, _) => History(h.log + [key], h.puts[key := s.clock + 1])
    case InvalidateAll => History([], map[])
    case _ => h
  }

  /** The history of a run. */
  ghost function HistoryOf(states: seq<Shared>, events: seq<Event>): History
    requires |states| == |events| + 1
    requires forall k | 0 <= k < |events| :: Enabled(states[k], events[k])
  {
    if events == [] then History([], map[])
    else
      var n := |events| - 1;
      Recorded(HistoryOf(states[..n + 1], events[..n]), states[n], events[n])
  }

  /** The stamp was taken by a put or hit of key, not before its last put. */
  ghost predicate TakenFor(h: History, key: Option<string>, stamp: nat) {
    && 0 < stamp <= |h.log| && key == Some(h.log[stamp - 1])
    && h.log[stamp - 1] in h.puts && h.puts[h.log[stamp - 1]] <= stamp
  }

  ghost predicate HistoryOk(s: Shared, h: History) {
    && |h.log| == s.clock
    && (forall i | 0 <= i < |s.entries| && s.entries[i].key.Some? :: TakenFor(h, s.entries[i].key, s.entries[i].lastUsed))
    && (forall t | 0 <= t < |s.threads| && s.threads[t].Stamped? && s.threads[t].slot < |s.entries| ::
          TakenFor(h, s.entries[s.threads[t].slot].key, s.threads[t].stamp))
  }

  lemma FetchRecorded(s: Shared, h: History, t: nat)
    requires Inv(s) && HistoryOk(s, h) && Enabled(s, FetchAdd(t))
    ensures HistoryOk(Apply(s, FetchAdd(t)), Recorded(h, s, FetchAdd(t)))
  {
    var slot := s.threads[t].slot;
    var r := Recorded(h, s, FetchAdd(t));
    assert r.log[..s.clock] == h.log;
    assert TakenFor(h, s.entries[slot].key, s.entries[slot].lastUsed);
  }

  lemma WriteRecorded(s: Shared, h: History, slot: nat, key: string, json: string)
    requires Inv(s) && HistoryOk(s, h) && Enabled(s, Write(slot, key, json))
    ensures HistoryOk(Apply(s, Write(slot, key, json)), Recorded(h, s, Write(slot, key, json)))
  {
    assert Recorded(h, s, Write(slot, key, json)).log[..s.clock] == h.log;
  }

  lemma StepRecorded(s: Shared, h: History, e: Event)
    requires Inv(s) && HistoryOk(s, h) && Enabled(s, e)
    ensures HistoryOk(Apply(s, e), Recorded(h, s, e))
  {
    match e
    case FetchAdd(t) => FetchRecorded(s, h, t);
    case Write(slot, key, json) => WriteRecorded(s, h, slot, key, json);
    case _ =>
  }

  lemma {:induction false} RunRecorded(states: seq<Shared>, events: seq<Event>, capacity: nat, threads: nat)
    requires IsRun(states, events, capacity, threads)
    ensures HistoryOk(states[|events|], HistoryOf(states, events))
  {
    if events != [] {
      var n := |events| - 1;
      RunRecorded(states[..n + 1], events[..n], capacity, threads);
      StampsStayDistinct(states, events, capacity, threads, n);
      StepRecorded(states[n], HistoryOf(states[..n + 1], events[..n]), events[n]);
    }
  }

  /** Whatever readers did before, the array a writer finds stands for a recency list: the live slots by falling
      stamps, where each stamp was taken by a put or hit of that key, no earlier than its last put. */
  lemma WriterSeesRecencyList(states: seq<Shared>, events: seq<Event>, capacity: nat, threads: nat)
    returns (order: seq<nat>)
    requires IsRun(states, events, capacity, threads)
    ensures
      var s, h := states[|events|], HistoryOf(states, events);
      && Ordered(s.entries, order, s.clock)
      && forall i | 0 <= i < |s.entries| && s.entries[i].key.Some? :: TakenFor(h, s.entries[i].key, s.entries[i].lastUsed)
  {
    StampsStayDistinct(states, events, capacity, threads, |events|);
    RunRecorded(states, events, capacity, threads);
    order := OrderUpTo(states[|events|], |states[|events|].entries|);
  }

  // ---------- which of two hits wins ----------

  /** n is the last stamp taken for key. */
  ghost predicate Newest(log: seq<string>, key: Option<string>, n: nat) {
    && 0 < n <= |log| && key == Some(log[n - 1])
    && forall m | n <= m < |log| :: key != Some(log[m])
  }

  /** A thread on its way to store a stamp in slot i. */
  ghost predicate OnSlot(s: Shared, t: nat, i: nat) {
    t < |s.threads| && s.threads[t].Stamped? && s.threads[t].slot == i
  }

  /** The last use of the key in slot i is in the slot, or a thread is about to store it. */
  ghost predicate Kept(s: Shared, log: seq<string>, i: nat)
    requires i < |s.entries|
  {
    s.entries[i].key.Some? ==>
      || Newest(log, s.entries[i].key, s.entries[i].lastUsed)
      || exists t: nat :: OnSlot(s, t, i) && Newest(log, s.entries[i].key, s.threads[t].stamp)
  }

  /** The store of thread t puts back an older stamp: none on the way to its slot is newer than what is there. */
  ghost predicate Losing(s: Shared, t: nat)
    requires t < |s.threads| && s.threads[t].Stamped? && s.threads[t].slot < |s.entries|
  {
    forall u: nat | OnSlot(s, u, s.threads[t].slot) :: s.threads[u].stamp <= s.entries[s.threads[t].slot].lastUsed
  }

  /** A store keeps the last use of its key exactly if it was kept and the store is not a losing one. */
  lemma StoreKeepsExactly(s: Shared, h: History, t: nat)
    requires Inv(s) && HistoryOk(s, h) && Enabled(s, StoreStamp(t))
    ensures
      var i := s.threads[t].slot;
      Kept(Apply(s, StoreStamp(t)), h.log, i) <==> Kept(s, h.log, i) && !Losing(s, t)
  {
    var i := s.threads[t].slot;
    var r, key, last := Apply(s, StoreStamp(t)), s.entries[i].key, s.entries[i].lastUsed;
    assert OnSlot(s, t, i) && TakenFor(h, key, last) && TakenFor(h, key, s.threads[t].stamp);
    assert forall u: nat :: OnSlot(r, u, i) <==> OnSlot(s, u, i) && u != t;
    if Kept(s, h.log, i) && !Losing(s, t) {
      var u: nat :| OnSlot(s, u, i) && s.threads[u].stamp > last;
      assert TakenFor(h, key, s.threads[u].stamp);
      var w: nat :| OnSlot(s, w, i) && Newest(h.log, key, s.threads[w].stamp);
      assert w != t ==> OnSlot(r, w, i);
    }
    if Losing(s, t) {
      assert s.threads[t].stamp < last && key == Some(h.log[last - 1]);
      assert forall u: nat | OnSlot(r, u, i) :: s.threads[u].stamp < last;
    }
  }

  /** Every other step leaves it kept or lost, except that a new use of the slot keeps it. */
  lemma FetchKeepsUse(s: Shared, h: History, t: nat, i: nat)
    requires Inv(s) && HistoryOk(s, h) && Enabled(s, FetchAdd(t)) && i < |s.entries|
    ensures
      Kept(Apply(s, FetchAdd(t)), Recorded(h, s, FetchAdd(t)).log, i) <==> i == s.threads[t].slot || Kept(s, h.log, i)
  {
    var slot := s.threads[t].slot;
    var r, log := Apply(s, FetchAdd(t)), Recorded(h, s, FetchAdd(t)).log;
    if i == slot {
      assert OnSlot(r, t, i) && Newest(log, r.entries[i].key, r.threads[t].stamp);
    } else {
      assert forall u: nat :: OnSlot(r, u, i) <==> OnSlot(s, u, i);
      SameNewest(h.log, log[|h.log|], s.entries[i].key);
    }
  }

  lemma SameNewest(log: seq<string>, used: string, key: Option<string>)
    requires key != Some(used)
    ensures forall n :: Newest(log + [used], key, n) <==> Newest(log, key, n)
  {
    forall n: nat
      ensures Newest(log + [used], key, n) <==> Newest(log, key, n)
    {
      if Newest(log + [used], key, n) {
        assert forall m | n <= m < |log| :: (log + [used])[m] == log[m];
      }
    }
  }

  lemma WriteKeepsUse(s: Shared, h: History, slot: nat, key: string, json: string, i: nat)
    requires Inv(s) && HistoryOk(s, h) && Enabled(s, Write(slot, key, json)) && i < |s.entries|
    ensures
      var e := Write(slot, key, json);
      Kept(Apply(s, e), Recorded(h, s, e).log, i) <==> i == slot || Kept(s, h.log, i)
  {
    var r := Apply(s, Write(slot, key, json));
    if i == slot {
      assert Newest(h.log + [key], r.entries[i].key, r.entries[i].lastUsed);
    } else {
      assert forall u: nat :: OnSlot(r, u, i) <==> OnSlot(s, u, i);
      SameNewest(h.log, key, s.entries[i].key);
    }
  }

  ghost predicate Storable(states: seq<Shared>, events: seq<Event>) {
    && |states| == |events| + 1
    && forall k | 0 <= k < |events| :: Enabled(states[k], events[k])
  }

  /** Whether slot i has lost the last use of its key after one more step: a losing store loses it, and a use, put
      or removal ends that. */
  ghost predicate LostAfter(s: Shared, e: Event, i: nat, lost: bool)
    requires Enabled(s, e)
  {
    match e
    case FetchAdd(t) => lost && s.threads[t].slot != i
    case Write(slot, _, _) => lost && slot != i
    case Invalidate(slot) => lost && slot != i
    case InvalidateAll => false
    case StoreStamp(t) => lost || (s.threads[t].slot == i && Losing(s, t))
    case _ => lost
  }

  /** Whether a losing store is the last word on slot i in a run. */
  ghost predicate Lost(states: seq<Shared>, events: seq<Event>, i: nat)
    requires Storable(states, events)
  {
    events != [] &&
    var n := |events| - 1;
    LostAfter(states[n], events[n], i, Lost(states[..n + 1], events[..n], i))
  }

  lemma StepKept(s: Shared, h: History, e: Event, i: nat, lost: bool)
    requires Inv(s) && HistoryOk(s, h) && Enabled(s, e) && i < |s.entries|
    requires s.entries[i].key.Some? ==> (Kept(s, h.log, i) <==> !lost)
    requires s.entries[i].key.None? ==> !lost
    ensures
      var r, log := Apply(s, e), Recorded(h, s, e).log;
      var lost' := LostAfter(s, e, i, lost);
      && |r.entries| == |s.entries|
      && (r.entries[i].key.Some? ==> (Kept(r, log, i) <==> !lost'))
      && (r.entries[i].key.None? ==> !lost')
  {
    var r := Apply(s, e);
    match e
    case FetchAdd(t) => FetchKeepsUse(s, h, t, i);
    case Write(slot, key, json) => WriteKeepsUse(s, h, slot, key, json, i);
    case StoreStamp(t) =>
      if s.threads[t].slot == i {
        StoreKeepsExactly(s, h, t);
      } else {
        assert forall u: nat :: OnSlot(r, u, i) <==> OnSlot(s, u, i);
      }
    case _ =>
      assert forall u: nat :: OnSlot(r, u, i) <==> OnSlot(s, u, i);
  }

  lemma {:induction false} RunSize(states: seq<Shared>, events: seq<Event>, capacity: nat, threads: nat)
    requires IsRun(states, events, capacity, threads)
    ensures Storable(states, events) && |states[|events|].entries| == capacity
  {
    if events != [] {
      var n := |events| - 1;
      RunSize(states[..n + 1], events[..n], capacity, threads);
    }
  }

  lemma {:induction false} RunKept(states: seq<Shared>, events: seq<Event>, capacity: nat, threads: nat, i: nat)
    requires IsRun(states, events, capacity, threads) && i < capacity
    ensures Storable(states, events)
    ensures
      var s := states[|events|];
      && |s.entries| == capacity
      && (s.entries[i].key.Some? ==> (Kept(s, HistoryOf(states, events).log, i) <==> !Lost(states, events, i)))
      && (s.entries[i].key.None? ==> !Lost(states, events, i))
  {
    if events != [] {
      var n := |events| - 1;
      RunKept(states[..n + 1], events[..n], capacity, threads, i);
      StampsStayDistinct(states, events, capacity, threads, n);
      RunRecorded(states[..n + 1], events[..n], capacity, threads);
      StepKept(states[n], HistoryOf(states[..n + 1], events[..n]), events[n], i, Lost(states[..n + 1], events[..n], i));
    }
  }

  /** When no reader is inside the stamps in the array are those of the last uses, so that the recency list is by
      last use, exactly if no losing store was the last word on a slot. */
  lemma OrderedByLastUseExactly(states: seq<Shared>, events: seq<Event>, capacity: nat, threads: nat)
    requires IsRun(states, events, capacity, threads) && NoReader(states[|events|])
    ensures Storable(states, events) && |states[|events|].entries| == capacity
    ensures
      var s, log := states[|events|], HistoryOf(states, events).log;
      (forall i | 0 <= i < capacity && s.entries[i].key.Some? :: Newest(log, s.entries[i].key, s.entries[i].lastUsed))
      <==> forall i | 0 <= i < capacity :: !Lost(states, events, i)
  {
    var s, log := states[|events|], HistoryOf(states, events).log;
    RunSize(states, events, capacity, threads);
    forall i | 0 <= i < capacity
      ensures Lost(states, events, i) <==>
              s.entries[i].key.Some? && !Newest(log, s.entries[i].key, s.entries[i].lastUsed)
    {
      RunKept(states, events, capacity, threads, i);
    }
  }

  datatype Trace = Trace(states: seq<Shared>, events: seq<Event>)

  ghost predicate Traced(r: Trace, capacity: nat, threads: nat, s: Shared, log: seq<string>) {
    IsRun(r.states, r.events, capacity, threads) && r.states[|r.events|] == s && HistoryOf(r.states, r.events).log == log
  }

  lemma Extend(r: Trace, capacity: nat, threads: nat, s: Shared, log: seq<string>, e: Event) returns (r': Trace)
    requires Traced(r, capacity, threads, s, log) && Enabled(s, e)
    ensures r'.states == r.states + [Apply(s, e)] && r'.events == r.events + [e]
    ensures Traced(r', capacity, threads, Apply(s, e), Recorded(History(log, map[]), s, e).log)
  {
    r' := Trace(r.states + [Apply(s, e)], r.events + [e]);
    assert r'.states[..|r.states|] == r.states && r'.events[..|r.events|] == r.events;
  }

  /** A hit of key in slot by an idle thread, up to its stamp. */
  lemma TakeStamp(r: Trace, capacity: nat, threads: nat, s: Shared, log: seq<string>, t: nat, slot: nat, key: string)
    returns (r': Trace)
    requires Traced(r, capacity, threads, s, log) && t < |s.threads| && s.threads[t].Idle?
    requires slot < |s.entries| && s.entries[slot].key == Some(key)
    ensures Traced(r', capacity, threads, At(s, t, Stamped(slot, s.clock + 1)).(clock := s.clock + 1), log + [key])
  {
    var s1, s2 := At(s, t, Reading(key)), At(s, t, Found(slot));
    var r1 := Extend(r, capacity, threads, s, log, LockRead(t, key));
    assert At(s1, t, Found(slot)) == s2;
    var r2 := Extend(r1, capacity, threads, s1, log, FindHit(t, slot));
    r' := Extend(r2, capacity, threads, s2, log, FetchAdd(t));
    assert Apply(s2, FetchAdd(t)) == At(s, t, Stamped(slot, s.clock + 1)).(clock := s.clock + 1);
  }

  /** Two hits of one key may store their stamps in reverse; then the older stamp stays, and another key hit
      between them counts as used later although it was not. */
  lemma HitsStoredInReverse(a: string, b: string, x: string, y: string) returns (r: Trace)
    requires a != b
    ensures
      Traced(r, 2, 3, Shared([Entry(Some(a), x, 3), Entry(Some(b), y, 4)], 5, [Idle, Idle, Idle]), [a, b, a, b, a])
  {
    var s0 := Shared(Cleared(2), 0, seq(3, _ => Idle));
    r := Trace([s0], []);
    assert s0.entries == [FREE, FREE] && s0.threads == [Idle, Idle, Idle];
    r := Extend(r, 2, 3, s0, [], Write(0, a, x));
    var s1 := Shared([Entry(Some(a), x, 1), FREE], 1, [Idle, Idle, Idle]);
    assert Apply(s0, Write(0, a, x)) == s1;
    r := Extend(r, 2, 3, s1, [a], Write(1, b, y));
    var s2 := Shared([Entry(Some(a), x, 1), Entry(Some(b), y, 2)], 2, [Idle, Idle, Idle]);
    assert Apply(s1, Write(1, b, y)) == s2;
    r := ThreeHits(r, s2, a, b, x, y);
  }

  lemma ThreeHits(r: Trace, s: Shared, a: string, b: string, x: string, y: string) returns (r': Trace)
    requires s == Shared([Entry(Some(a), x, 1), Entry(Some(b), y, 2)], 2, [Idle, Idle, Idle])
    requires Traced(r, 2, 3, s, [a, b])
    ensures
      Traced(r', 2, 3, Shared([Entry(Some(a), x, 3), Entry(Some(b), y, 4)], 5, [Idle, Idle, Idle]), [a, b, a, b, a])
  {
    r' := TakeStamp(r, 2, 3, s, [a, b], 0, 0, a);
    var s1 := Shared(s.entries, 3, [Stamped(0, 3), Idle, Idle]);
    assert [a, b] + [a] == [a, b, a];
    r' := TakeStamp(r', 2, 3, s1, [a, b, a], 1, 1, b);
    var s2 := Shared(s.entries, 4, [Stamped(0, 3), Stamped(1, 4), Idle]);
    assert [a, b, a] + [b] == [a, b, a, b];
    r' := TakeStamp(r', 2, 3, s2, [a, b, a, b], 2, 0, a);
    var s3 := Shared(s.entries, 5, [Stamped(0, 3), Stamped(1, 4), Stamped(0, 5)]);
    assert [a, b, a, b] + [a] == [a, b, a, b, a];
    r' := ThreeStores(r', s3, [a, b, a, b, a], a, b, x, y);
  }

  lemma ThreeStores(r: Trace, s: Shared, log: seq<string>, a: string, b: string, x: string, y: string) returns (r': Trace)
    requires s == Shared([Entry(Some(a), x, 1), Entry(Some(b), y, 2)], 5, [Stamped(0, 3), Stamped(1, 4), Stamped(0, 5)])
    requires Traced(r, 2, 3, s, log)
    ensures Traced(r', 2, 3, Shared([Entry(Some(a), x, 3), Entry(Some(b), y, 4)], 5, [Idle, Idle, Idle]), log)
  {
    r' := Extend(r, 2, 3, s, log, StoreStamp(1));
    var s4 := Shared([Entry(Some(a), x, 1), Entry(Some(b), y, 4)], 5, [Stamped(0, 3), Idle, Stamped(0, 5)]);
    assert Apply(s, StoreStamp(1)) == s4;
    r' := Extend(r', 2, 3, s4, log, StoreStamp(2));
    var s5 := Shared([Entry(Some(a), x, 5), Entry(Some(b), y, 4)], 5, [Stamped(0, 3), Idle, Idle]);
    assert Apply(s4, StoreStamp(2)) == s5;
    r' := Extend(r', 2, 3, s5, log, StoreStamp(0));
  }
}
