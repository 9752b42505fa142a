/** Every step of the pool keeps the invariant, and what follows over whole runs. */
module ThreadPoolProofs {
  import opened Common
  import opened ThreadPool

  // ---------- counting ----------

  lemma BusyGains(s: Pool, r: Pool, slot: nat)
    requires Sized(s) && Sized(r) && slot < ABS_MAX && !s.worker[slot].Running? && r.worker[slot].Running?
    requires forall i: nat | i < ABS_MAX && i != slot :: s.worker[i] == r.worker[i]
    ensures |Busy(r)| == |Busy(s)| + 1
  {
    assert Busy(r) == Busy(s) + {slot};
  }

  lemma ReadyLoses(s: Pool, r: Pool, slot: nat)
    requires Sized(s) && Sized(r) && slot < ABS_MAX && s.retiring == r.retiring
    requires s.worker[slot].Idle? && !s.retiring[slot] && !r.worker[slot].Idle?
    requires forall i: nat | i < ABS_MAX && i != slot :: s.worker[i] == r.worker[i]
    ensures |Ready(r)| == |Ready(s)| - 1
  {
    assert Ready(r) == Ready(s) - {slot};
    assert slot in Ready(s);
  }

  lemma ReadyGrows(s: Pool, r: Pool)
    requires Sized(s) && Sized(r)
    requires forall i: nat | i < ABS_MAX && s.worker[i].Idle? && !s.retiring[i] :: r.worker[i].Idle? && !r.retiring[i]
    ensures |Ready(s)| <= |Ready(r)|
  {
    SetSize(Ready(s), Ready(r));
  }

  lemma MembersGain(s: Pool, r: Pool, slot: nat)
    requires Sized(s) && Sized(r) && slot < ABS_MAX && !s.alive[slot] && r.alive[slot] && !r.retiring[slot]
    requires forall i: nat | i < ABS_MAX && i != slot :: s.alive[i] == r.alive[i] && s.retiring[i] == r.retiring[i]
    ensures |Members(r)| == |Members(s)| + 1
  {
    assert Members(r) == Members(s) + {slot};
  }

  lemma MembersLose(s: Pool, r: Pool, slot: nat)
    requires Sized(s) && Sized(r) && slot < ABS_MAX && s.alive[slot] && !s.retiring[slot]
    requires r.alive == s.alive && r.retiring == s.retiring[slot := true]
    ensures |Members(r)| == |Members(s)| - 1
    ensures |MembersBelow(s, slot + 1)| == |MembersBelow(r, slot)| + 1
  {
    assert Members(r) == Members(s) - {slot} && slot in Members(s);
    assert MembersBelow(s, slot + 1) == MembersBelow(r, slot) + {slot};
  }

  ghost function MembersBelow(s: Pool, slot: nat): set<nat>
    requires Sized(s)
  {
    set i: nat | i < slot && i < ABS_MAX && s.alive[i] && !s.retiring[i]
  }

  // ---------- steps of one worker ----------

  lemma FifoTake(s: Pool)
    requires Fifo(s) && s.queue != []
    ensures s.queue[0] == s.dispatched && s.dispatched < s.accepted && !s.dropped
    ensures Fifo(s.(queue := s.queue[1..], dispatched := s.dispatched + 1))
  {
  }

  lemma BlockKeeps(s: Pool, slot: nat)
    requires Inv(s) && slot < ABS_MAX && s.worker[slot].Idle?
    requires s.queue == [] && !s.shutdown && !s.retiring[slot]
    ensures Inv(s.(worker := s.worker[slot := Blocked]))
  {
    var r := s.(worker := s.worker[slot := Blocked]);
    assert Members(r) == Members(s);
    assert Busy(r) == Busy(s);
    SameRunning(s, r);
  }

  lemma ExitKeeps(s: Pool, slot: nat)
    requires Inv(s) && slot < ABS_MAX && s.worker[slot].Idle?
    requires s.shutdown || s.retiring[slot]
    ensures Inv(s.(worker := s.worker[slot := Exited]))
  {
    var r := s.(worker := s.worker[slot := Exited]);
    assert Members(r) == Members(s);
    assert Busy(r) == Busy(s);
    assert s.retiring[slot] ==> Ready(r) == Ready(s);
    assert SomeBlocked(r) ==> SomeBlocked(s);
    SameRunning(s, r);
  }

  lemma TakeHistory(s: Pool, slot: nat)
    requires Inv(s) && slot < ABS_MAX && s.worker[slot].Idle?
    requires s.queue != [] && !s.shutdown && !s.retiring[slot]
    ensures Fifo(Enter(s, slot)) && Ledger(Enter(s, slot))
  {
    FifoTake(s);
    TakeLedger(s, slot);
    var l := s.(worker := s.worker[slot := Running(s.queue[0])], dispatched := s.dispatched + 1);
    SameRunning(l, Enter(s, slot));
  }

  lemma TakeCounts(s: Pool, slot: nat)
    requires Inv(s) && slot < ABS_MAX && s.worker[slot].Idle?
    requires s.queue != [] && !s.shutdown && !s.retiring[slot]
    ensures
      var r := Enter(s, slot);
      Sized(r) && SlotsOk(r) && CountsOk(r) && WorkConserving(r) && DrainOk(r)
  {
    var r := Enter(s, slot);
    assert Members(r) == Members(s);
    BusyGains(s, r, slot);
    ReadyLoses(s, r, slot);
  }

  /** The first critical section of the worker loop keeps the invariant. */
  lemma EnterKeeps(s: Pool, slot: nat)
    requires Inv(s) && slot < ABS_MAX && s.worker[slot].Idle?
    ensures Inv(Enter(s, slot))
  {
    if s.shutdown || s.retiring[slot] {
      ExitKeeps(s, slot);
    } else if s.queue == [] {
      BlockKeeps(s, slot);
    } else {
      TakeHistory(s, slot);
      TakeCounts(s, slot);
    }
  }

  /** Steps that start and end no job keep the ledger. */
  lemma SameRunning(s: Pool, r: Pool)
    requires Sized(s) && Sized(r) && Ledger(s)
    requires r.finished == s.finished && r.dispatched == s.dispatched
    requires forall i: nat | i < ABS_MAX :: (s.worker[i].Running? || r.worker[i].Running?) ==> s.worker[i] == r.worker[i]
    ensures Ledger(r)
  {
    forall t: nat | t < r.dispatched && t !in r.finished
      ensures exists i: nat | i < ABS_MAX :: r.worker[i] == Running(t)
    {
      var i: nat :| i < ABS_MAX && s.worker[i] == Running(t);
      assert r.worker[i] == Running(t);
    }
  }

  lemma TakeLedger(s: Pool, slot: nat)
    requires Sized(s) && Ledger(s) && Fifo(s) && slot < ABS_MAX && s.worker[slot].Idle? && s.queue != []
    requires s.queue[0] == s.dispatched
    ensures Ledger(s.(worker := s.worker[slot := Running(s.queue[0])], dispatched := s.dispatched + 1))
  {
    var r := s.(worker := s.worker[slot := Running(s.queue[0])], dispatched := s.dispatched + 1);
    forall t: nat | t < r.dispatched && t !in r.finished
      ensures exists i: nat | i < ABS_MAX :: r.worker[i] == Running(t)
    {
      if t == s.dispatched {
        assert r.worker[slot] == Running(t);
      } else {
        var i: nat :| i < ABS_MAX && s.worker[i] == Running(t);
        assert r.worker[i] == Running(t);
      }
    }
  }

  lemma FinishLedger(s: Pool, slot: nat)
    requires Sized(s) && Ledger(s) && slot < ABS_MAX && s.worker[slot].Running?
    ensures Ledger(Finish(s, slot))
  {
    var r := Finish(s, slot);
    forall t: nat | t < r.dispatched && t !in r.finished
      ensures exists i: nat | i < ABS_MAX :: r.worker[i] == Running(t)
    {
      var i: nat :| i < ABS_MAX && s.worker[i] == Running(t);
      assert r.worker[i] == Running(t);
    }
  }

  lemma FinishCounts(s: Pool, slot: nat)
    requires Sized(s) && SlotsOk(s) && slot < ABS_MAX && s.worker[slot].Running?
    ensures
      var r := Finish(s, slot);
      && SlotsOk(r)
      && Members(r) == Members(s) && |Busy(r)| == |Busy(s)| - 1 && Busy(s) != {}
      && |Ready(s)| <= |Ready(r)|
      && (SomeBlocked(r) ==> SomeBlocked(s))
  {
    var r := Finish(s, slot);
    assert Members(r) == Members(s);
    assert Busy(r) == Busy(s) - {slot} && slot in Busy(s);
    ReadyGrows(s, r);
  }

  lemma FinishKeeps(s: Pool, slot: nat)
    requires Inv(s) && slot < ABS_MAX && s.worker[slot].Running?
    ensures Inv(Finish(s, slot))
  {
    FinishLedger(s, slot);
    FinishCounts(s, slot);
  }

  lemma {:induction false} SetSize(a: set<nat>, b: set<nat>)
    requires a <= b
    ensures |a| <= |b|
  {
    if a != {} {
      var x :| x in a;
      SetSize(a - {x}, b - {x});
    }
  }

  // ---------- submit and wakeups ----------

  /** Waking waiting workers only adds ready ones. */
  lemma WakeKeeps(s: Pool, ws: seq<Worker>)
    requires Sized(s) && |ws| == ABS_MAX && SlotsOk(s) && Ledger(s)
    requires forall i | 0 <= i < ABS_MAX :: ws[i] == s.worker[i] || (s.worker[i].Blocked? && ws[i].Idle?)
    ensures
      var r := s.(worker := ws);
      && SlotsOk(r) && Ledger(r)
      && Members(r) == Members(s) && Busy(r) == Busy(s) && Ready(s) <= Ready(r)
      && (SomeBlocked(r) ==> SomeBlocked(s))
      && |Ready(s)| <= |Ready(r)|
  {
    var r := s.(worker := ws);
    SameRunning(s, r);
    SetSize(Ready(s), Ready(r));
  }

  /** The signal of a submission readies a worker that was not ready, if any waits. */
  lemma SignalReadies(s: Pool, woken: set<nat>)
    requires Sized(s) && SlotsOk(s) && SignalWakes(s.worker, woken)
    ensures
      var r := s.(worker := Wake(s.worker, woken));
      SomeBlocked(r) ==> SomeBlocked(s) && |Ready(s)| < |Ready(r)|
  {
    var r := s.(worker := Wake(s.worker, woken));
    if SomeBlocked(r) {
      var j: nat :| j < ABS_MAX && r.worker[j].Blocked?;
      assert s.worker[j].Blocked?;
      var i :| 0 <= i < |s.worker| && i in woken && s.worker[i].Blocked?;
      assert i !in Ready(s) && i in Ready(r);
      SetSize(Ready(s) + {i}, Ready(r));
    }
  }

  lemma SubmitKeeps(s: Pool, woken: set<nat>)
    requires Inv(s) && SignalWakes(s.worker, woken) && !s.dropped
    ensures Inv(Submit(s, woken).0)
  {
    if Submit(s, woken).1 == 0 {
      var ws := Wake(s.worker, woken);
      var m := s.(worker := ws);
      WakeKeeps(s, ws);
      SignalReadies(s, woken);
      Accepted(m);
    }
  }

  /** Accepting a job once its signal has been sent. */
  lemma Accepted(m: Pool)
    requires Sized(m) && SlotsOk(m) && CountsOk(m) && Fifo(m) && Ledger(m) && DrainOk(m)
    requires !m.dropped && !m.submitClosed
    requires SomeBlocked(m) ==> |m.queue| < |Ready(m)|
    ensures Inv(m.(queue := m.queue + [m.accepted], accepted := m.accepted + 1))
  {
    var r := m.(queue := m.queue + [m.accepted], accepted := m.accepted + 1);
    assert Members(r) == Members(m) && Busy(r) == Busy(m) && Ready(r) == Ready(m);
    SameRunning(m, r);
  }

  lemma SpuriousKeeps(s: Pool, slot: nat)
    requires Inv(s) && slot < ABS_MAX && s.worker[slot].Blocked?
    ensures Inv(s.(worker := s.worker[slot := Idle]))
  {
    WakeKeeps(s, s.worker[slot := Idle]);
  }

  lemma ShutdownKeeps(s: Pool)
    requires Inv(s)
    ensures Inv(s.(shutdown := true, worker := WakeAll(s.worker)))
  {
    WakeKeeps(s, WakeAll(s.worker));
    var r := s.(shutdown := true, worker := WakeAll(s.worker));
    assert Busy(r) == Busy(s);
    SameRunning(s, r);
  }

  // ---------- growing and shrinking ----------

  lemma StartCounts(s: Pool, slot: nat)
    requires Sized(s) && SlotsOk(s) && slot < ABS_MAX && !s.alive[slot] && !s.shutdown
    ensures
      var r := Start(s, slot);
      && SlotsOk(r)
      && |Members(r)| == |Members(s)| + 1
      && Busy(r) == Busy(s)
      && |Ready(s)| <= |Ready(r)|
      && (SomeBlocked(r) ==> SomeBlocked(s))
  {
    var r := Start(s, slot);
    MembersGain(s, r, slot);
    ReadyGrows(s, r);
    assert Busy(r) == Busy(s);
  }

  lemma StartKeeps(s: Pool, slot: nat)
    requires Inv(s) && slot < ABS_MAX && !s.alive[slot] && !s.shutdown
    requires s.nWorkers < (if s.floor > SOFT_MAX then s.floor else SOFT_MAX)
    ensures Inv(Start(s, slot))
  {
    StartCounts(s, slot);
    SameRunning(s, Start(s, slot));
  }

  ghost function Ceiling(s: Pool): int {
    if s.floor > SOFT_MAX then s.floor else SOFT_MAX
  }

  /** Expanding keeps the invariant and never overshoots the target. */
  lemma {:induction false} ExpandKeeps(s: Pool, slot: nat, target: int)
    requires Inv(s) && !s.shutdown && target <= Ceiling(s)
    ensures
      var r := ExpandFrom(s, slot, target);
      && Inv(r)
      && s.nWorkers <= r.nWorkers <= (if target > s.nWorkers then target else s.nWorkers)
    decreases |s.alive| - slot
  {
    if slot < ABS_MAX && s.nWorkers < target {
      if s.alive[slot] {
        ExpandKeeps(s, slot + 1, target);
      } else {
        var m := Start(s, slot);
        StartKeeps(s, slot);
        ExpandKeeps(m, slot + 1, target);
      }
    }
  }

  /** It touches no running thread's slot, and falls short of the target only when every slot from the
      start on is taken. */
  lemma {:induction false} ExpandFrame(s: Pool, slot: nat, target: int)
    requires Sized(s)
    ensures
      var r := ExpandFrom(s, slot, target);
      && Sized(r) && r == s.(worker := r.worker, alive := r.alive, retiring := r.retiring, nWorkers := r.nWorkers)
      && (r.nWorkers >= target || forall i: nat | slot <= i < ABS_MAX :: r.alive[i])
      && (forall i: nat | i < ABS_MAX && s.alive[i] :: r.alive[i] && r.retiring[i] == s.retiring[i] && r.worker[i] == s.worker[i])
      && (forall i: nat | i < slot && i < ABS_MAX :: r.alive[i] == s.alive[i])
    decreases |s.alive| - slot
  {
    if slot < ABS_MAX && s.nWorkers < target {
      if s.alive[slot] {
        ExpandFrame(s, slot + 1, target);
      } else {
        ExpandFrame(Start(s, slot), slot + 1, target);
      }
    }
  }

  /** Retiring changes flags only: it takes up to left members, from the highest slot down. */
  lemma {:induction false} RetireFrame(s: Pool, slot: nat, left: nat)
    requires Sized(s) && slot <= ABS_MAX
    ensures
      var r := RetireFrom(s, slot, left);
      && r == s.(retiring := r.retiring, nWorkers := r.nWorkers) && |r.retiring| == ABS_MAX
      && (forall i: nat | i < ABS_MAX && s.retiring[i] :: r.retiring[i])
      && (forall i: nat | i < ABS_MAX && r.retiring[i] && !s.retiring[i] :: s.alive[i])
    decreases slot
  {
    if slot > 0 && left > 0 {
      if s.alive[slot - 1] && !s.retiring[slot - 1] {
        RetireFrame(Retire(s, slot - 1), slot - 1, left - 1);
      } else {
        RetireFrame(s, slot - 1, left);
      }
    }
  }

  /** Exactly left members retire when there are that many. */
  lemma {:induction false} RetireCount(s: Pool, slot: nat, left: nat)
    requires Sized(s) && slot <= ABS_MAX && s.nWorkers == |Members(s)|
    requires left <= |MembersBelow(s, slot)|
    ensures
      var r := RetireFrom(s, slot, left);
      r.nWorkers == s.nWorkers - left && Sized(r) && r.nWorkers == |Members(r)|
    decreases slot
  {
    if slot == 0 {
      assert MembersBelow(s, 0) == {};
    } else if left > 0 {
      if s.alive[slot - 1] && !s.retiring[slot - 1] {
        var m := Retire(s, slot - 1);
        MembersLose(s, m, slot - 1);
        RetireCount(m, slot - 1, left - 1);
      } else {
        assert MembersBelow(s, slot) == MembersBelow(s, slot - 1);
        RetireCount(s, slot - 1, left);
      }
    }
  }

  /** The retire section keeps the invariant: the broadcast leaves no worker waiting. */
  lemma MarkRetireKeeps(s: Pool, target: int, cap: nat)
    requires Inv(s) && !s.shutdown
    ensures Inv(MarkRetire(s, target, cap))
    ensures MarkRetire(s, target, cap).nWorkers == s.nWorkers - RetireNumber(s, target, cap)
  {
    if RetireGoal(s, target) < s.nWorkers {
      var left := RetireNumber(s, target, cap);
      var r := RetireFrom(s, |s.alive|, left);
      RetireSome(s, left);
      RetiredInv(s, r, WakeAll(r.worker));
    }
  }

  lemma RetireSome(s: Pool, left: nat)
    requires Sized(s) && s.nWorkers == |Members(s)| && left <= s.nWorkers
    ensures
      var r := RetireFrom(s, |s.alive|, left);
      && r == s.(retiring := r.retiring, nWorkers := s.nWorkers - left) && |r.retiring| == ABS_MAX
      && (forall i: nat | i < ABS_MAX && s.retiring[i] :: r.retiring[i])
      && (forall i: nat | i < ABS_MAX && r.retiring[i] && !s.retiring[i] :: s.alive[i])
      && r.nWorkers == |Members(r)|
  {
    assert MembersBelow(s, ABS_MAX) == Members(s);
    RetireCount(s, ABS_MAX, left);
    RetireFrame(s, ABS_MAX, left);
  }

  lemma RetiredInv(s: Pool, r: Pool, ws: seq<Worker>)
    requires Inv(s) && !s.shutdown
    requires r == s.(retiring := r.retiring, nWorkers := r.nWorkers) && |r.retiring| == ABS_MAX
    requires forall i: nat | i < ABS_MAX && s.retiring[i] :: r.retiring[i]
    requires forall i: nat | i < ABS_MAX && r.retiring[i] && !s.retiring[i] :: s.alive[i]
    requires r.nWorkers == |Members(r)| && s.floor <= r.nWorkers <= s.nWorkers
    requires ws == WakeAll(s.worker)
    ensures Inv(r.(worker := ws))
  {
    var q := r.(worker := ws);
    assert Members(q) == Members(r);
    assert Busy(q) == Busy(s);
    SameRunning(s, q);
  }

  lemma JoinKeeps(s: Pool, slot: nat)
    requires Inv(s) && slot < ABS_MAX && s.retiring[slot] && s.worker[slot].Exited?
    ensures Inv(Join(s, slot))
  {
    var r := Join(s, slot);
    assert Members(r) == Members(s);
    assert Busy(r) == Busy(s);
    assert Ready(r) == Ready(s);
    assert SomeBlocked(r) ==> SomeBlocked(s);
    SameRunning(s, r);
  }

  lemma ResizeKeeps(s: Pool, newN: int)
    requires Inv(s)
    ensures Inv(Resize(s, newN))
  {
    if newN > 0 && !s.shutdown && !s.submitClosed {
      var a := if newN > SOFT_MAX then SOFT_MAX as int else newN;
      var n := if a < s.floor then s.floor as int else a;
      if n > s.nWorkers {
        ExpandKeeps(s, 0, n);
      } else if n < s.nWorkers {
        MarkRetireKeeps(s, n, ABS_MAX);
      }
    }
  }

  /** The monitor's counters play no part in the invariant. */
  lemma CountersKeep(s: Pool, high: nat, low: nat, skip: nat)
    requires Inv(s)
    ensures Inv(s.(high := high, low := low, skip := skip))
  {
    var r := s.(high := high, low := low, skip := skip);
    assert Members(r) == Members(s) && Busy(r) == Busy(s) && Ready(r) == Ready(s);
    SameRunning(s, r);
  }

  lemma HighSampleKeeps(s: Pool)
    requires Inv(s) && !s.shutdown
    ensures Inv(HighSample(s))
  {
    CountersKeep(s, s.high + 1, 0, s.skip);
    var s1 := s.(high := s.high + 1, low := 0);
    if s1.high >= HIGH_CONSECUTIVE && s.nWorkers < SOFT_MAX {
      GrowKeeps(s1, if s.nWorkers + STEP > SOFT_MAX then SOFT_MAX else s.nWorkers + STEP);
    }
  }

  lemma GrowKeeps(s: Pool, t: nat)
    requires Inv(s) && !s.shutdown && s.nWorkers <= t <= SOFT_MAX
    ensures Inv(Expand(s, t).(high := 0, skip := HYSTERESIS_SAMPLES))
  {
    ExpandKeeps(s, 0, t);
    var r := Expand(s, t);
    CountersKeep(r, 0, r.low, HYSTERESIS_SAMPLES);
  }

  lemma LowSampleKeeps(s: Pool)
    requires Inv(s) && !s.shutdown
    ensures Inv(LowSample(s))
  {
    CountersKeep(s, 0, s.low + 1, s.skip);
    var s1 := s.(high := 0, low := s.low + 1);
    if s1.low >= LOW_CONSECUTIVE && s.nWorkers > s.floor {
      var t := if s.nWorkers - STEP < s.floor then s.floor else s.nWorkers - STEP;
      MarkRetireKeeps(s1, t, STEP);
      var r := MarkRetire(s1, t, STEP);
      CountersKeep(r, r.high, 0, HYSTERESIS_SAMPLES);
    }
  }

  lemma SampleKeeps(s: Pool)
    requires Inv(s)
    ensures Inv(MonitorSample(s))
  {
    if s.shutdown {
    } else if s.skip > 0 {
      CountersKeep(s, s.high, s.low, s.skip - 1);
    } else if UtilPct(s) >= HIGH_WATER_PCT {
      HighSampleKeeps(s);
    } else if UtilPct(s) <= LOW_WATER_PCT {
      LowSampleKeeps(s);
    } else {
      CountersKeep(s, 0, 0, s.skip);
    }
  }

  lemma FinalJoinKeeps(s: Pool, slot: nat)
    requires Inv(s) && slot < ABS_MAX && s.shutdown && s.worker[slot].Exited?
    ensures Inv(s.(worker := s.worker[slot := Absent], alive := s.alive[slot := false]))
  {
    var r := s.(worker := s.worker[slot := Absent], alive := s.alive[slot := false]);
    assert Busy(r) == Busy(s);
    SameRunning(s, r);
  }

  lemma FreeKeeps(s: Pool)
    requires Inv(s) && Enabled(s, FreeJobs)
    ensures Inv(s.(queue := [], dropped := true))
  {
    var r := s.(queue := [], dropped := true);
    assert Busy(r) == Busy(s);
    assert !SomeBlocked(r);
    SameRunning(s, r);
  }

  lemma DrainSeenKeeps(s: Pool)
    requires Inv(s) && Enabled(s, DrainSeen) && !s.dropped
    ensures Inv(s.(drained := true))
  {
    var r := s.(drained := true);
    assert Busy(r) == Busy(s) == {};
    SameRunning(s, r);
  }

  // ---------- whole runs ----------

  /** Every step keeps the invariant. */
  lemma StepKeeps(s: Pool, e: Event)
    requires Inv(s) && Enabled(s, e)
    ensures Inv(Apply(s, e))
  {
    match e
    case SubmitEv(woken) => SubmitKeeps(s, woken);
    case EnterEv(slot) => EnterKeeps(s, slot);
    case FinishEv(slot) => FinishKeeps(s, slot);
    case SpuriousWake(slot) => SpuriousKeeps(s, slot);
    case ResizeEv(newN) => ResizeKeeps(s, newN);
    case SampleEv => SampleKeeps(s);
    case JoinEv(slot) => JoinKeeps(s, slot);
    case SetQueueMax(max) => SettingKeeps(s, max, s.submitClosed);
    case CloseSubmit => SettingKeeps(s, s.queueMax, true);
    case DrainSeen => DrainSeenKeeps(s);
    case ShutdownEv => ShutdownKeeps(s);
    case FinalJoin(slot) => FinalJoinKeeps(s, slot);
    case FreeJobs => FreeKeeps(s);
  }

  lemma SettingKeeps(s: Pool, max: nat, closed: bool)
    requires Inv(s) && (s.submitClosed ==> closed)
    ensures Inv(s.(queueMax := max, submitClosed := closed))
  {
    var r := s.(queueMax := max, submitClosed := closed);
    assert Members(r) == Members(s) && Busy(r) == Busy(s) && Ready(r) == Ready(s);
    SameRunning(s, r);
  }

  /** A fresh pool with k workers started. */
  ghost function Fresh(n: nat, k: nat): Pool
    requires k <= ABS_MAX
  {
    Pool(seq(ABS_MAX, i requires 0 <= i < ABS_MAX => if i < k then Idle else Absent),
         seq(ABS_MAX, i requires 0 <= i < ABS_MAX => i < k), seq(ABS_MAX, _ => false), k, n, [],
         QUEUE_MAX_DEFAULT, 0, 0, false, false, 0, 0, 0, 0, 0, {}, false, false)
  }

  lemma {:induction false} CreateFrom(n: nat, k: nat)
    requires k <= n <= ABS_MAX
    ensures ExpandFrom(Fresh(n, k), k, n) == Fresh(n, n)
    decreases n - k
  {
    if k < n {
      var s := Fresh(n, k);
      var r := Start(s, k);
      var t := Fresh(n, k + 1);
      assert r.worker == t.worker && r.alive == t.alive && r.retiring == t.retiring;
      CreateFrom(n, k + 1);
    }
  }

  lemma FreshInv(n: nat)
    requires 1 <= n <= ABS_MAX
    ensures Inv(Fresh(n, n))
  {
    var s := Fresh(n, n);
    assert Members(s) == Upto(n);
    assert Busy(s) == {};
  }

  lemma CreateIsFresh(n: nat)
    requires 1 <= n <= ABS_MAX
    ensures Create(n) == Fresh(n, n)
  {
    var z := Empty(n);
    var f := Fresh(n, 0);
    assert z.worker == f.worker && z.alive == f.alive && z.retiring == f.retiring;
    CreateFrom(n, 0);
  }

  /** threadpool_create starts exactly the requested workers. */
  lemma CreateInv(n: nat)
    requires 1 <= n <= ABS_MAX
    ensures Inv(Create(n)) && Create(n).nWorkers == n
  {
    CreateIsFresh(n);
    FreshInv(n);
  }

  /** A run: the states passed through by a sequence of steps from creation. */
  ghost predicate IsRun(n: nat, states: seq<Pool>, events: seq<Event>) {
    && 1 <= n <= ABS_MAX
    && |states| == |events| + 1
    && states[0] == Create(n)
    && forall k | 0 <= k < |events| :: Enabled(states[k], events[k]) && states[k + 1] == Apply(states[k], events[k])
  }

  lemma {:induction false} RunInv(n: nat, states: seq<Pool>, events: seq<Event>, k: nat)
    requires IsRun(n, states, events) && k < |states|
    ensures Inv(states[k])
  {
    if k == 0 {
      CreateInv(n);
    } else {
      RunInv(n, states, events, k - 1);
      StepKeeps(states[k - 1], events[k - 1]);
    }
  }

  ghost predicate Reachable(s: Pool) {
    exists n: nat, states: seq<Pool>, events: seq<Event> ::
      IsRun(n, states, events) && s == states[|states| - 1]
  }

  lemma ReachableInv(s: Pool)
    requires Reachable(s)
    ensures Inv(s)
  {
    var n: nat, states: seq<Pool>, events: seq<Event> :| IsRun(n, states, events) && s == states[|states| - 1];
    RunInv(n, states, events, |states| - 1);
  }

  /** Work conservation: in every reachable state, while some worker waits on cond_nonempty, every queued
      job has a worker of its own already on the way to the queue.  No accepted job is stranded by a lost
      or misdirected wakeup. */
  lemma WorkConservation(s: Pool)
    requires Reachable(s)
    ensures Sized(s) && (SomeBlocked(s) ==> |s.queue| <= |Ready(s)|)
  {
    ReachableInv(s);
  }

  /** With jobs queued and no shutdown some member of the pool is running a job or awake: the pool is
      never asleep over a non-empty queue. */
  lemma NeverAsleepOnWork(s: Pool)
    requires Reachable(s) && s.queue != [] && !s.shutdown
    ensures Sized(s)
    ensures exists i: nat :: i < ABS_MAX && !s.retiring[i] && (s.worker[i].Idle? || s.worker[i].Running?)
  {
    ReachableInv(s);
    assert Members(s) != {};
    var i :| i in Members(s);
    if s.worker[i].Blocked? {
      assert |Ready(s)| > 0;
      var j :| j in Ready(s);
      assert s.worker[j].Idle?;
    }
  }

  /** The tickets 0 .. n - 1 in order. */
  function Tickets(n: nat): (r: seq<nat>)
    ensures |r| == n && forall k | 0 <= k < n :: r[k] == k
  {
    if n == 0 then [] else Tickets(n - 1) + [n - 1]
  }

  lemma QueueTickets(s: Pool)
    requires Fifo(s) && !s.dropped
    ensures Tickets(s.dispatched) + s.queue == Tickets(s.accepted)
  {
    var q := Tickets(s.dispatched) + s.queue;
    assert |q| == s.accepted;
    assert forall k | 0 <= k < |q| :: q[k] == k;
  }

  lemma ReachableFifo(s: Pool)
    requires Reachable(s)
    ensures Fifo(s)
  {
    ReachableInv(s);
  }

  /** First in, first out: until a shutdown drops the rest, the tickets dispatched so far followed by the
      queue are exactly the accepted submissions, in order of acceptance. */
  lemma FifoOrder(s: Pool)
    requires Reachable(s) && !s.dropped
    ensures s.dispatched <= s.accepted && Tickets(s.dispatched) + s.queue == Tickets(s.accepted)
  {
    ReachableFifo(s);
    QueueTickets(s);
  }

  /** Exactly once: a dispatched ticket is finished or running, not both, and running in one slot only. */
  lemma ExactlyOnce(s: Pool, t: nat)
    requires Reachable(s)
    ensures Sized(s)
    ensures t < s.dispatched <==> t in s.finished || exists i: nat :: i < ABS_MAX && s.worker[i] == Running(t)
    ensures forall i: nat, j: nat | i < ABS_MAX && j < ABS_MAX && s.worker[i] == Running(t) == s.worker[j] :: i == j
    ensures t in s.finished ==> forall i: nat | i < ABS_MAX :: s.worker[i] != Running(t)
  {
    ReachableInv(s);
  }

  /** Worker bookkeeping between creation and shutdown. */
  lemma Bookkeeping(s: Pool)
    requires Reachable(s)
    ensures Sized(s)
    ensures s.active == |Busy(s)| && Busy(s) <= (set i: nat | i < ABS_MAX && s.alive[i])
    ensures !s.shutdown ==> s.nWorkers == |Members(s)|
    ensures !s.shutdown ==> s.floor <= s.nWorkers <= if s.floor > SOFT_MAX then s.floor else SOFT_MAX
  {
    ReachableInv(s);
  }

  // ---------- what steps cannot do ----------

  /** The life of the thread in slot i over one step: it is created only where no thread is left, a job in
      progress is only ended by its own return, an exited thread only by a join. */
  ghost predicate SlotStep(i: nat, w: Worker, w': Worker, e: Event) {
    match w
    case Absent => w'.Absent? || w'.Idle?
    case Idle => if e == EnterEv(i) then w'.Blocked? || w'.Running? || w'.Exited? else w'.Idle?
    case Blocked => w'.Blocked? || w'.Idle?
    case Running(t) => if e == FinishEv(i) then w'.Idle? else w' == Running(t)
    case Exited => w'.Exited? || (w'.Absent? && (e == JoinEv(i) || e == FinalJoin(i)))
  }

  lemma SlotLifecycle(s: Pool, e: Event, i: nat)
    requires Sized(s) && SlotsOk(s) && Enabled(s, e) && i < ABS_MAX
    ensures Sized(Apply(s, e)) && SlotStep(i, s.worker[i], Apply(s, e).worker[i], e)
  {
    match e
    case ResizeEv(newN) => ResizeSlot(s, newN, i);
    case SampleEv => SampleSlot(s, i);
    case _ =>
  }

  /** What growing and shrinking may do to a slot: start a thread where there is none, or wake one. */
  ghost predicate OnlyStartsAndWakes(w: Worker, w': Worker) {
    w' == w || ((w.Absent? || w.Blocked?) && w'.Idle?)
  }

  lemma ExpandOneSlot(s: Pool, target: int, i: nat)
    requires Sized(s) && SlotsOk(s) && i < ABS_MAX
    ensures Sized(Expand(s, target)) && OnlyStartsAndWakes(s.worker[i], Expand(s, target).worker[i])
  {
    ExpandSlot(s, 0, if target > ABS_MAX then ABS_MAX else target, i);
  }

  lemma RetireShape(s: Pool, target: int, cap: nat)
    requires Sized(s)
    ensures
      var r := MarkRetire(s, target, cap);
      r == s || (r == s.(retiring := r.retiring, nWorkers := r.nWorkers, worker := WakeAll(s.worker)) && Sized(r))
  {
    if RetireGoal(s, target) < s.nWorkers {
      RetireFrame(s, ABS_MAX, RetireNumber(s, target, cap));
    }
  }

  lemma RetireOneSlot(s: Pool, target: int, cap: nat, i: nat)
    requires Sized(s) && i < ABS_MAX
    ensures Sized(MarkRetire(s, target, cap)) && OnlyStartsAndWakes(s.worker[i], MarkRetire(s, target, cap).worker[i])
  {
    RetireShape(s, target, cap);
  }

  lemma ResizeSlot(s: Pool, newN: int, i: nat)
    requires Sized(s) && SlotsOk(s) && i < ABS_MAX
    ensures Sized(Resize(s, newN)) && OnlyStartsAndWakes(s.worker[i], Resize(s, newN).worker[i])
  {
    var a := if newN > SOFT_MAX then SOFT_MAX as int else newN;
    var n := if a < s.floor then s.floor as int else a;
    ExpandOneSlot(s, n, i);
    RetireOneSlot(s, n, ABS_MAX, i);
  }

  lemma HighSlot(s: Pool, i: nat)
    requires Sized(s) && SlotsOk(s) && i < ABS_MAX
    ensures Sized(HighSample(s)) && OnlyStartsAndWakes(s.worker[i], HighSample(s).worker[i])
  {
    var t := if s.nWorkers + STEP > SOFT_MAX then SOFT_MAX else s.nWorkers + STEP;
    ExpandOneSlot(s.(high := s.high + 1, low := 0), t, i);
  }

  lemma LowSlot(s: Pool, i: nat)
    requires Sized(s) && i < ABS_MAX
    ensures Sized(LowSample(s)) && OnlyStartsAndWakes(s.worker[i], LowSample(s).worker[i])
  {
    var t := if s.nWorkers - STEP < s.floor then s.floor else s.nWorkers - STEP;
    RetireOneSlot(s.(high := 0, low := s.low + 1), t, STEP, i);
  }

  lemma SampleSlot(s: Pool, i: nat)
    requires Sized(s) && SlotsOk(s) && i < ABS_MAX
    ensures Sized(MonitorSample(s)) && OnlyStartsAndWakes(s.worker[i], MonitorSample(s).worker[i])
  {
    HighSlot(s, i);
    LowSlot(s, i);
  }

  lemma {:induction false} ExpandSlot(s: Pool, slot: nat, target: int, i: nat)
    requires Sized(s) && i < ABS_MAX && (s.worker[i].Absent? || s.worker[i].Idle? || s.alive[i])
    ensures
      var x := ExpandFrom(s, slot, target);
      && Sized(x)
      && (if s.alive[i] then x.worker[i] == s.worker[i] else x.worker[i] == s.worker[i] || x.worker[i].Idle?)
    decreases |s.alive| - slot
  {
    if slot < ABS_MAX && s.nWorkers < target {
      if s.alive[slot] {
        ExpandSlot(s, slot + 1, target, i);
      } else {
        ExpandSlot(Start(s, slot), slot + 1, target, i);
      }
    }
  }

  ghost predicate SameHistory(s: Pool, r: Pool) {
    && r.finished == s.finished && r.dispatched == s.dispatched && r.accepted == s.accepted && r.queue == s.queue
    && r.submitClosed == s.submitClosed && r.shutdown == s.shutdown && r.drained == s.drained
    && r.dropped == s.dropped && r.floor == s.floor && r.active == s.active
    && r.queueMax == s.queueMax && r.rejected == s.rejected
  }

  lemma {:induction false} ExpandHistory(s: Pool, slot: nat, target: int)
    requires Sized(s)
    ensures SameHistory(s, ExpandFrom(s, slot, target))
    decreases |s.alive| - slot
  {
    if slot < ABS_MAX && s.nWorkers < target {
      if s.alive[slot] {
        ExpandHistory(s, slot + 1, target);
      } else {
        ExpandHistory(Start(s, slot), slot + 1, target);
      }
    }
  }

  lemma RetireHistory(s: Pool, target: int, cap: nat)
    requires Sized(s)
    ensures SameHistory(s, MarkRetire(s, target, cap))
  {
    RetireShape(s, target, cap);
  }

  /** Growing and shrinking leave the job histories alone. */
  lemma ResizeHistory(s: Pool, newN: int)
    requires Sized(s)
    ensures SameHistory(s, Resize(s, newN))
  {
    var a := if newN > SOFT_MAX then SOFT_MAX as int else newN;
    var t := if a < s.floor then s.floor as int else a;
    ExpandHistory(s, 0, if t > ABS_MAX then ABS_MAX else t);
    RetireHistory(s, t, ABS_MAX);
  }

  lemma HighHistory(s: Pool)
    requires Sized(s)
    ensures SameHistory(s, HighSample(s))
  {
    var h := s.(high := s.high + 1, low := 0);
    ExpandHistory(h, 0, if s.nWorkers + STEP > SOFT_MAX then SOFT_MAX else s.nWorkers + STEP);
  }

  lemma LowHistory(s: Pool)
    requires Sized(s)
    ensures SameHistory(s, LowSample(s))
  {
    var l := s.(high := 0, low := s.low + 1);
    RetireHistory(l, if s.nWorkers - STEP < s.floor then s.floor else s.nWorkers - STEP, STEP);
  }

  lemma SampleHistory(s: Pool)
    requires Sized(s)
    ensures SameHistory(s, MonitorSample(s))
  {
    HighHistory(s);
    LowHistory(s);
  }

  /** Histories only grow, and nothing is accepted once submission is closed. */
  ghost predicate Later(s: Pool, r: Pool) {
    && s.finished <= r.finished && s.dispatched <= r.dispatched && s.accepted <= r.accepted
    && (s.submitClosed ==> r.submitClosed && r.accepted == s.accepted)
    && (s.shutdown ==> r.shutdown) && (s.drained ==> r.drained)
  }

  lemma StepLater(s: Pool, e: Event)
    requires Inv(s) && Enabled(s, e)
    ensures Later(s, Apply(s, e))
  {
    match e
    case ResizeEv(newN) => ResizeHistory(s, newN);
    case SampleEv => SampleHistory(s);
    case _ =>
  }

  lemma {:induction false} RunLater(n: nat, states: seq<Pool>, events: seq<Event>, j: nat, k: nat)
    requires IsRun(n, states, events) && j <= k < |states|
    ensures Later(states[j], states[k])
    decreases k
  {
    if j < k {
      RunLater(n, states, events, j, k - 1);
      RunInv(n, states, events, k - 1);
      StepLater(states[k - 1], events[k - 1]);
    }
  }

  /** No job runs twice: two job returns in a run are returns of different tickets. */
  lemma NoJobRunsTwice(n: nat, states: seq<Pool>, events: seq<Event>, j: nat, k: nat)
    requires IsRun(n, states, events) && j < k < |events|
    requires events[j].FinishEv? && events[k].FinishEv?
    ensures Enabled(states[j], events[j]) && Enabled(states[k], events[k])
    ensures states[j].worker[events[j].slot].ticket != states[k].worker[events[k].slot].ticket
  {
    RunInv(n, states, events, k);
    RunLater(n, states, events, j + 1, k);
    assert states[j].worker[events[j].slot].ticket in states[j + 1].finished;
  }

  lemma NothingRunning(s: Pool)
    requires Sized(s) && Ledger(s) && Busy(s) == {}
    ensures forall t: nat :: t < s.dispatched <==> t in s.finished
  {
    forall i: nat | i < ABS_MAX
      ensures !s.worker[i].Running?
    {
      assert i !in Busy(s);
    }
    assert forall t: nat | t < s.dispatched && t !in s.finished :: false;
  }

  /** Graceful shutdown: once its wait loop ends on its own condition (the call returns 0), every
      accepted job has finished, then and in every later state, and no further job is accepted. */
  lemma GracefulFinishesAll(n: nat, states: seq<Pool>, events: seq<Event>, j: nat, k: nat)
    requires IsRun(n, states, events) && j < |events| && events[j] == DrainSeen && j < k < |states|
    ensures states[k].accepted == states[j].accepted
    ensures forall t: nat :: t < states[k].accepted <==> t in states[k].finished
  {
    RunInv(n, states, events, k);
    RunLater(n, states, events, j, j + 1);
    RunLater(n, states, events, j + 1, k);
    var s := states[k];
    assert s.drained && s.submitClosed;
    NothingRunning(s);
  }

  /** After threadpool_free_jobs the pool is shut down and no thread is left. */
  ghost predicate Gone(s: Pool)
    requires Sized(s)
  {
    s.dropped ==> s.shutdown && forall i: nat | i < ABS_MAX :: !s.alive[i]
  }

  /** After a shutdown nothing more is dispatched and no thread is started. */
  lemma ShutdownStep(s: Pool, e: Event)
    requires Inv(s) && Enabled(s, e) && s.shutdown && Gone(s)
    ensures Sized(Apply(s, e)) && Gone(Apply(s, e))
    ensures Apply(s, e).shutdown && Apply(s, e).dispatched == s.dispatched
  {
  }

  lemma {:induction false} ShutdownRun(n: nat, states: seq<Pool>, events: seq<Event>, j: nat, k: nat)
    requires IsRun(n, states, events) && j < |events| && events[j] == ShutdownEv && !states[j].dropped && j < k < |states|
    ensures Sized(states[k]) && Gone(states[k]) && states[k].shutdown && states[k].dispatched == states[j].dispatched
    decreases k
  {
    RunInv(n, states, events, k - 1);
    if k - 1 > j {
      ShutdownRun(n, states, events, j, k - 1);
      ShutdownStep(states[k - 1], events[k - 1]);
    }
  }

  /** Hard shutdown: when its last part has run, exactly the jobs dispatched before its flag was set have run to
      their end; the rest of the queue is dropped. */
  lemma HardShutdownDropsRest(n: nat, states: seq<Pool>, events: seq<Event>, j: nat, k: nat)
    requires IsRun(n, states, events) && j < |events| && events[j] == ShutdownEv && !states[j].dropped
    requires j < k < |states| && states[k].dropped
    ensures forall t: nat :: t in states[k].finished <==> t < states[j].dispatched
    ensures states[j].dispatched + |states[j].queue| == states[j].accepted
  {
    ShutdownRun(n, states, events, j, k);
    RunInv(n, states, events, k);
    RunInv(n, states, events, j);
    var s := states[k];
    assert Busy(s) == {};
    NothingRunning(s);
  }

  /** A resize that is not refused reaches the requested size clamped to the floor and the soft cap,
      unless every slot already has a thread. */
  lemma ResizeReaches(s: Pool, newN: int)
    requires Inv(s) && newN > 0 && !s.shutdown && !s.submitClosed
    ensures
      var a := if newN > SOFT_MAX then SOFT_MAX as int else newN;
      var n := if a < s.floor then s.floor as int else a;
      var r := Resize(s, newN);
      Sized(r) && (r.nWorkers == n || (r.nWorkers < n && forall i: nat | i < ABS_MAX :: r.alive[i]))
  {
    var a := if newN > SOFT_MAX then SOFT_MAX as int else newN;
    var n := if a < s.floor then s.floor as int else a;
    if n > s.nWorkers {
      ExpandKeeps(s, 0, n);
      ExpandFrame(s, 0, n);
    } else if n < s.nWorkers {
      MarkRetireKeeps(s, n, ABS_MAX);
    }
  }

  // ---------- the limit of the queue ----------

  /** A submission is refused exactly after a shutdown or close, and when a limited queue is full; only the last is
      counted.  An accepted one is queued last. */
  lemma SubmitExactly(s: Pool, woken: set<nat>)
    requires Inv(s)
    ensures
      var (r, rc) := Submit(s, woken);
      && (rc == 0 <==> !s.shutdown && !s.submitClosed && (s.queueMax == 0 || |s.queue| < s.queueMax))
      && (rc == 0 ==> r == s.(queue := r.queue, accepted := s.accepted + 1, worker := r.worker)
                      && |r.queue| == |s.queue| + 1 && s.queue < r.queue && r.queue[|s.queue|] == s.accepted)
      && (rc != 0 ==> rc == -1 && r == s.(rejected := r.rejected)
                      && r.rejected == s.rejected + (if s.shutdown || s.submitClosed then 0 else 1))
  {
  }

  /** No step but an accepted submission makes the queue longer, nor any but the setter its limit. */
  lemma QueueStep(s: Pool, e: Event)
    requires Inv(s) && Enabled(s, e) && !e.SetQueueMax? && 0 < s.queueMax && |s.queue| <= s.queueMax
    ensures Apply(s, e).queueMax == s.queueMax && |Apply(s, e).queue| <= s.queueMax
  {
    match e
    case ResizeEv(newN) => ResizeHistory(s, newN);
    case SampleEv => SampleHistory(s);
    case SubmitEv(woken) => SubmitExactly(s, woken);
    case _ =>
  }

  /** While nobody sets another limit the queue never holds more than 256 jobs. */
  lemma {:induction false} QueueBounded(n: nat, states: seq<Pool>, events: seq<Event>, k: nat)
    requires IsRun(n, states, events) && k < |states|
    requires forall i | 0 <= i < |events| :: !events[i].SetQueueMax?
    ensures states[k].queueMax == 256 && |states[k].queue| <= 256
  {
    if k == 0 {
      CreateIsFresh(n);
    } else {
      QueueBounded(n, states, events, k - 1);
      RunInv(n, states, events, k - 1);
      QueueStep(states[k - 1], events[k - 1]);
    }
  }

  // ---------- which slots ----------

  /** Members retire from the top: every one that stays has a lower slot than every one that goes. */
  lemma {:induction false} RetireFromTop(s: Pool, slot: nat, left: nat)
    requires Sized(s) && slot <= ABS_MAX
    ensures
      var r := RetireFrom(s, slot, left);
      |r.retiring| == ABS_MAX &&
      forall i: nat, j: nat | i < ABS_MAX && j < slot && r.retiring[i] && !s.retiring[i] && s.alive[j] && !r.retiring[j] :: j < i
    decreases slot
  {
    RetireFrame(s, slot, left);
    if slot > 0 && left > 0 {
      if s.alive[slot - 1] && !s.retiring[slot - 1] {
        var m := Retire(s, slot - 1);
        var r := RetireFrom(m, slot - 1, left - 1);
        RetireFromTop(m, slot - 1, left - 1);
        RetireFrame(m, slot - 1, left - 1);
        assert m.retiring[slot - 1] && r.retiring[slot - 1];
        forall i: nat, j: nat | i < ABS_MAX && j < slot && r.retiring[i] && !s.retiring[i] && s.alive[j] && !r.retiring[j]
          ensures j < i
        {
          assert i != slot - 1 ==> !m.retiring[i];
          assert j < slot - 1 && m.alive[j];
        }
      } else {
        RetireFromTop(s, slot - 1, left);
      }
    }
  }

  /** Threads are started in the lowest free slots: none stays free below one that is taken. */
  lemma {:induction false} StartFromBelow(s: Pool, slot: nat, target: int)
    requires Sized(s)
    ensures
      var r := ExpandFrom(s, slot, target);
      Sized(r) &&
      forall i: nat, j: nat | i < ABS_MAX && slot <= j < ABS_MAX && r.alive[i] && !s.alive[i] && !r.alive[j] :: i < j
    decreases |s.alive| - slot
  {
    ExpandFrame(s, slot, target);
    if slot < ABS_MAX && s.nWorkers < target {
      var m := if s.alive[slot] then s else Start(s, slot);
      StartFromBelow(m, slot + 1, target);
      ExpandFrame(m, slot + 1, target);
    }
  }
}
