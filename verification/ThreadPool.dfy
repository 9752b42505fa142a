/** The worker pool of src/threadpool.c as a state machine: every critical section under the pool mutex,
    every job body and every wakeup is one step.  Tickets number the accepted submissions; the histories
    of tickets say what ran.  ThreadPoolClass.dfy carries out the same steps on the pool's own fields. */
module ThreadPool {

  const ABS_MAX: nat := 64
  const SOFT_MAX: nat := 16
  const STEP: nat := 4
  const HIGH_WATER_PCT: nat := 80
  const LOW_WATER_PCT: nat := 30
  const HIGH_CONSECUTIVE: nat := 3
  const LOW_CONSECUTIVE: nat := 30
  const HYSTERESIS_SAMPLES: nat := 2
  const QUEUE_MAX_DEFAULT: nat := 256

  /** Where the thread of a slot is: not created (or joined), awake before the queue test, waiting on
      cond_nonempty, running a job, or returned and not yet joined. */
  datatype Worker = Absent | Idle | Blocked | Running(ticket: nat) | Exited

  datatype Pool = Pool(
    worker: seq<Worker>,
    alive: seq<bool>,
    retiring: seq<bool>,
    nWorkers: int,
    floor: nat,
    queue: seq<nat>,
    queueMax: nat,
    rejected: nat,
    active: int,
    shutdown: bool,
    submitClosed: bool,
    high: nat,
    low: nat,
    skip: nat,
    accepted: nat,       // submissions accepted so far: tickets 0 .. accepted - 1
    dispatched: nat,     // tickets taken off the queue so far
    finished: set<nat>,  // tickets whose job has returned
    dropped: bool,       // threadpool_free_jobs has run
    drained: bool)       // graceful shutdown saw an empty queue and no active worker

  // ---------- the critical sections ----------

  /** pthread_cond_broadcast on cond_nonempty. */
  function WakeAll(ws: seq<Worker>): (r: seq<Worker>)
    ensures |r| == |ws|
    ensures forall i | 0 <= i < |ws| :: r[i] == if ws[i].Blocked? then Idle else ws[i]
  {
    seq(|ws|, i requires 0 <= i < |ws| => if ws[i].Blocked? then Idle else ws[i])
  }

  /** pthread_cond_signal on cond_nonempty: the threads in woken leave the wait. */
  function Wake(ws: seq<Worker>, woken: set<nat>): (r: seq<Worker>)
    ensures |r| == |ws|
    ensures forall i | 0 <= i < |ws| :: r[i] == if i in woken && ws[i].Blocked? then Idle else ws[i]
  {
    seq(|ws|, i requires 0 <= i < |ws| => if i in woken && ws[i].Blocked? then Idle else ws[i])
  }

  /** A signal unblocks at least one waiting thread if there is any. */
  ghost predicate SignalWakes(ws: seq<Worker>, woken: set<nat>) {
    (exists i | 0 <= i < |ws| :: ws[i].Blocked?) ==> exists i | 0 <= i < |ws| :: i in woken && ws[i].Blocked?
  }

  /** threadpool_submit; the second component is its return value. */
  function Submit(s: Pool, woken: set<nat>): (Pool, int) {
    if s.shutdown || s.submitClosed then (s, -1)
    else if s.queueMax > 0 && |s.queue| >= s.queueMax then (s.(rejected := s.rejected + 1), -1)
    else
      (s.(queue := s.queue + [s.accepted], accepted := s.accepted + 1, worker := Wake(s.worker, woken)), 0)
  }

  /** The first critical section of the worker loop, for an awake worker. */
  function Enter(s: Pool, slot: nat): Pool
    requires slot < |s.worker| && slot < |s.retiring|
  {
    if s.queue == [] && !s.shutdown && !s.retiring[slot] then
      s.(worker := s.worker[slot := Blocked])
    else if s.shutdown || s.retiring[slot] then
      s.(worker := s.worker[slot := Exited])
    else
      s.(worker := s.worker[slot := Running(s.queue[0])], queue := s.queue[1..],
         active := s.active + 1, dispatched := s.dispatched + 1)
  }

  /** The job returns and the worker runs its second critical section. */
  function Finish(s: Pool, slot: nat): Pool
    requires slot < |s.worker| && s.worker[slot].Running?
  {
    s.(worker := s.worker[slot := Idle], active := s.active - 1,
       finished := s.finished + {s.worker[slot].ticket})
  }

  /** A thread started in a free slot. */
  function Start(s: Pool, slot: nat): Pool
    requires slot < |s.worker| && slot < |s.alive| && slot < |s.retiring|
  {
    s.(retiring := s.retiring[slot := false], alive := s.alive[slot := true],
       worker := s.worker[slot := Idle], nWorkers := s.nWorkers + 1)
  }

  /** The slot loop of threadpool_expand_locked. */
  function ExpandFrom(s: Pool, slot: nat, target: int): Pool
    requires |s.worker| == |s.alive| == |s.retiring| == ABS_MAX
    decreases |s.alive| - slot
  {
    if slot >= ABS_MAX || s.nWorkers >= target then s
    else ExpandFrom(if s.alive[slot] then s else Start(s, slot), slot + 1, target)
  }

  /** threadpool_expand_locked */
  function Expand(s: Pool, target: int): Pool
    requires |s.worker| == |s.alive| == |s.retiring| == ABS_MAX
  {
    ExpandFrom(s, 0, if target > ABS_MAX then ABS_MAX else target)
  }

  /** A member told to retire. */
  function Retire(s: Pool, slot: nat): Pool
    requires slot < |s.retiring|
  {
    s.(retiring := s.retiring[slot := true], nWorkers := s.nWorkers - 1)
  }

  /** The slot loop of threadpool_mark_retire_locked: slots below slot are still to be visited. */
  function RetireFrom(s: Pool, slot: nat, left: nat): Pool
    requires |s.worker| == |s.alive| == |s.retiring| == ABS_MAX && slot <= ABS_MAX
    decreases |s.alive|, slot
  {
    if slot == 0 || left == 0 then s
    else if s.alive[slot - 1] && !s.retiring[slot - 1] then RetireFrom(Retire(s, slot - 1), slot - 1, left - 1)
    else RetireFrom(s, slot - 1, left)
  }

  /** The size to shrink to: never below the floor. */
  function RetireGoal(s: Pool, target: int): int {
    if target < s.floor then s.floor else target
  }

  /** How many members are told to retire: at most cap in one go. */
  function RetireNumber(s: Pool, target: int, cap: nat): nat {
    var n := s.nWorkers - RetireGoal(s, target);
    if n < 0 then 0 else if n < cap then n else cap
  }

  /** threadpool_mark_retire_locked */
  function MarkRetire(s: Pool, target: int, cap: nat): Pool
    requires |s.worker| == |s.alive| == |s.retiring| == ABS_MAX
  {
    if RetireGoal(s, target) >= s.nWorkers then s
    else
      var r := RetireFrom(s, |s.alive|, RetireNumber(s, target, cap));
      r.(worker := WakeAll(r.worker))
  }

  /** The second half of threadpool_join_retired for one slot, whose thread has exited. */
  function Join(s: Pool, slot: nat): Pool
    requires slot < |s.worker| && slot < |s.alive| && slot < |s.retiring|
  {
    s.(worker := s.worker[slot := Absent], alive := s.alive[slot := false], retiring := s.retiring[slot := false])
  }

  /** The critical section of threadpool_resize. */
  function Resize(s: Pool, newN: int): Pool
    requires |s.worker| == |s.alive| == |s.retiring| == ABS_MAX
  {
    if newN <= 0 || s.shutdown || s.submitClosed then s
    else
      var a := if newN > SOFT_MAX then SOFT_MAX as int else newN;
      var n := if a < s.floor then s.floor as int else a;
      if n > s.nWorkers then Expand(s, n)
      else if n < s.nWorkers then MarkRetire(s, n, ABS_MAX)
      else s
  }

  function UtilPct(s: Pool): int {
    if s.nWorkers > 0 then s.active * 100 / s.nWorkers else 0
  }

  /** A sample at or above the high water mark. */
  function HighSample(s: Pool): Pool
    requires |s.worker| == |s.alive| == |s.retiring| == ABS_MAX
  {
    var s1 := s.(high := s.high + 1, low := 0);
    if s1.high >= HIGH_CONSECUTIVE && s.nWorkers < SOFT_MAX then
      var t := s.nWorkers + STEP;
      Expand(s1, if t > SOFT_MAX then SOFT_MAX else t).(high := 0, skip := HYSTERESIS_SAMPLES)
    else s1
  }

  /** A sample at or below the low water mark. */
  function LowSample(s: Pool): Pool
    requires |s.worker| == |s.alive| == |s.retiring| == ABS_MAX
  {
    var s1 := s.(high := 0, low := s.low + 1);
    if s1.low >= LOW_CONSECUTIVE && s.nWorkers > s.floor then
      var t := s.nWorkers - STEP;
      MarkRetire(s1, if t < s.floor then s.floor else t, STEP).(low := 0, skip := HYSTERESIS_SAMPLES)
    else s1
  }

  /** One sample of the monitor thread. */
  function MonitorSample(s: Pool): Pool
    requires |s.worker| == |s.alive| == |s.retiring| == ABS_MAX
  {
    if s.shutdown then s
    else if s.skip > 0 then s.(skip := s.skip - 1)
    else if UtilPct(s) >= HIGH_WATER_PCT then HighSample(s)
    else if UtilPct(s) <= LOW_WATER_PCT then LowSample(s)
    else s.(high := 0, low := 0)
  }

  /** The zeroed pool, before any worker starts. */
  function Empty(n: nat): Pool {
    Pool(seq(ABS_MAX, _ => Absent), seq(ABS_MAX, _ => false), seq(ABS_MAX, _ => false), 0, n, [],
         QUEUE_MAX_DEFAULT, 0, 0, false, false, 0, 0, 0, 0, 0, {}, false, false)
  }

  /** threadpool_create up to the start of the monitor. */
  function Create(n: nat): Pool
    requires 1 <= n <= ABS_MAX
  {
    Expand(Empty(n), n)
  }

  // ---------- the transition system ----------

  /** One atomic step of some thread.  SpuriousWake is a return from pthread_cond_wait without a signal;
      DrainSeen is the exit of graceful shutdown's wait loop on its own condition; FinalJoin and FreeJobs
      belong to threadpool_shutdown. */
  datatype Event =
    | SubmitEv(woken: set<nat>)
    | EnterEv(slot: nat)
    | FinishEv(slot: nat)
    | SpuriousWake(slot: nat)
    | ResizeEv(newN: int)
    | SampleEv
    | JoinEv(slot: nat)
    | SetQueueMax(max: nat)
    | CloseSubmit
    | DrainSeen
    | ShutdownEv
    | FinalJoin(slot: nat)
    | FreeJobs

  ghost predicate Sized(s: Pool) {
    |s.worker| == |s.alive| == |s.retiring| == ABS_MAX
  }

  ghost predicate Enabled(s: Pool, e: Event) {
    Sized(s) &&
    match e
    case SubmitEv(woken) => SignalWakes(s.worker, woken) && !s.dropped
    case EnterEv(slot) => slot < ABS_MAX && s.worker[slot].Idle?
    case FinishEv(slot) => slot < ABS_MAX && s.worker[slot].Running?
    case SpuriousWake(slot) => slot < ABS_MAX && s.worker[slot].Blocked?
    case ResizeEv(_) => true
    case SampleEv => true
    case JoinEv(slot) => slot < ABS_MAX && s.retiring[slot] && s.worker[slot].Exited?
    case SetQueueMax(_) => true
    case CloseSubmit => true
    case DrainSeen => s.submitClosed && !s.dropped && s.queue == [] && s.active == 0
    case ShutdownEv => true
    case FinalJoin(slot) => slot < ABS_MAX && s.shutdown && s.alive[slot] && s.worker[slot].Exited?
    case FreeJobs => s.shutdown && forall i | 0 <= i < ABS_MAX :: !s.alive[i]
  }

  ghost function Apply(s: Pool, e: Event): Pool
    requires Enabled(s, e)
  {
    match e
    case SubmitEv(woken) => Submit(s, woken).0
    case EnterEv(slot) => Enter(s, slot)
    case FinishEv(slot) => Finish(s, slot)
    case SpuriousWake(slot) => s.(worker := s.worker[slot := Idle])
    case ResizeEv(newN) => Resize(s, newN)
    case SampleEv => MonitorSample(s)
    case JoinEv(slot) => Join(s, slot)
    case SetQueueMax(max) => s.(queueMax := max)
    case CloseSubmit => s.(submitClosed := true)
    case DrainSeen => s.(drained := true)
    case ShutdownEv => s.(shutdown := true, worker := WakeAll(s.worker))
    case FinalJoin(slot) => s.(worker := s.worker[slot := Absent], alive := s.alive[slot := false])
    case FreeJobs => s.(queue := [], dropped := true)
  }

  // ---------- the invariant ----------

  /** Workers that count as members of the pool: created and not told to retire. */
  ghost function Members(s: Pool): set<nat>
    requires Sized(s)
  {
    set i: nat | i < ABS_MAX && s.alive[i] && !s.retiring[i]
  }

  ghost function Busy(s: Pool): set<nat>
    requires Sized(s)
  {
    set i: nat | i < ABS_MAX && s.worker[i].Running?
  }

  /** Awake workers that will take a job if they find one. */
  ghost function Ready(s: Pool): set<nat>
    requires Sized(s)
  {
    set i: nat | i < ABS_MAX && s.worker[i].Idle? && !s.retiring[i]
  }

  ghost predicate SomeBlocked(s: Pool)
    requires Sized(s)
  {
    exists i: nat | i < ABS_MAX :: s.worker[i].Blocked?
  }

  /** Threads and slot flags agree. */
  ghost predicate SlotsOk(s: Pool)
    requires Sized(s)
  {
    forall i: nat | i < ABS_MAX ::
      && (s.alive[i] <==> !s.worker[i].Absent?)
      && (s.retiring[i] && !s.shutdown ==> s.alive[i])
      && (s.worker[i].Blocked? ==> !s.retiring[i] && !s.shutdown)
      && (s.worker[i].Exited? ==> s.retiring[i] || s.shutdown)
  }

  ghost predicate CountsOk(s: Pool)
    requires Sized(s)
  {
    && s.active == |Busy(s)|
    && 1 <= s.floor <= ABS_MAX
    && (!s.shutdown ==>
          && s.nWorkers == |Members(s)|
          && s.floor <= s.nWorkers <= (if s.floor > SOFT_MAX then s.floor else SOFT_MAX))
  }

  /** The queue is exactly the accepted tickets not dispatched yet, in order. */
  ghost predicate Fifo(s: Pool) {
    && s.dispatched <= s.accepted
    && (if s.dropped then s.queue == []
        else
          && |s.queue| == s.accepted - s.dispatched
          && forall k | 0 <= k < |s.queue| :: s.queue[k] == s.dispatched + k)
  }

  /** Every dispatched ticket is finished or running in exactly one slot, never both. */
  ghost predicate Ledger(s: Pool)
    requires Sized(s)
  {
    && (forall t | t in s.finished :: t < s.dispatched)
    && (forall i: nat | i < ABS_MAX && s.worker[i].Running? ::
          s.worker[i].ticket < s.dispatched && s.worker[i].ticket !in s.finished)
    && (forall i: nat, j: nat | i < j < ABS_MAX && s.worker[i].Running? && s.worker[j].Running? ::
          s.worker[i].ticket != s.worker[j].ticket)
    && (forall t: nat | t < s.dispatched && t !in s.finished ::
          exists i: nat | i < ABS_MAX :: s.worker[i] == Running(t))
  }

  /** A worker waits only if the jobs in the queue are covered by workers on their way to them. */
  ghost predicate WorkConserving(s: Pool)
    requires Sized(s)
  {
    SomeBlocked(s) ==> |s.queue| <= |Ready(s)|
  }

  ghost predicate DrainOk(s: Pool)
    requires Sized(s)
  {
    s.drained ==> s.submitClosed && s.queue == [] && s.dispatched == s.accepted && Busy(s) == {}
  }

  ghost predicate Inv(s: Pool) {
    && Sized(s) && SlotsOk(s) && CountsOk(s) && Fifo(s) && Ledger(s) && WorkConserving(s) && DrainOk(s)
  }
}
