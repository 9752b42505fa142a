/** The pool object of src/threadpool.c.  Each method is one critical section under the pool mutex, on the
    pool's own fields: the linked job queue, the slot flag arrays and the counters.  Each is proved to take
    the state machine of ThreadPool.dfy from its old state to the state the specification names. */
module ThreadPoolClass {
  import opened ThreadPool
  import M = PoolMonitor
  import P = ThreadPoolProofs

  /** A queued job.  The ticket only serves the specification. */
  class Job {
    ghost const ticket: nat
    var next: Job?

    constructor (ghost ticket: nat)
      ensures this.ticket == ticket && next == null
    {
      this.ticket := ticket;
      next := null;
    }
  }

  ghost function TicketsOf(jobs: seq<Job>): (r: seq<nat>)
    ensures |r| == |jobs| && forall i | 0 <= i < |jobs| :: r[i] == jobs[i].ticket
  {
    seq(|jobs|, i requires 0 <= i < |jobs| => jobs[i].ticket)
  }

  function NextOf(jobs: seq<Job>, i: nat): Job? {
    if i + 1 < |jobs| then jobs[i + 1] else null
  }

  /** first and last are the ends of the list of depth jobs that next links. */
  ghost predicate Chain(jobs: seq<Job>, first: Job?, last: Job?, depth: int)
    reads jobs
  {
    && depth == |jobs|
    && (forall i, j | 0 <= i < j < |jobs| :: jobs[i] != jobs[j])
    && (forall i {:trigger jobs[i].next} | 0 <= i < |jobs| :: jobs[i].next == NextOf(jobs, i))
    && first == (if jobs == [] then null else jobs[0])
    && last == (if jobs == [] then null else jobs[|jobs| - 1])
  }

  lemma ChainTail(jobs: seq<Job>, first: Job?, last: Job?, depth: int)
    requires Chain(jobs, first, last, depth) && first != null
    ensures first.next == null <==> |jobs| == 1
    ensures Chain(jobs[1..], first.next, if first.next == null then null else last, depth - 1)
    ensures jobs[0] == first && TicketsOf(jobs[1..]) == TicketsOf(jobs)[1..]
  {
    var rest := jobs[1..];
    assert jobs[0].next == NextOf(jobs, 0);
    forall i | 0 <= i < |rest|
      ensures rest[i].next == NextOf(rest, i)
    {
      assert rest[i] == jobs[i + 1] && jobs[i + 1].next == NextOf(jobs, i + 1);
    }
    assert forall i, j | 0 <= i < j < |rest| :: rest[i] == jobs[i + 1] && rest[j] == jobs[j + 1];
  }

  /** out lists exactly the slots flagged now and not before. */
  ghost predicate Listed(before: seq<bool>, now: seq<bool>, out: seq<nat>) {
    && |before| == |now|
    && (forall k | 0 <= k < |out| :: out[k] < |now| && now[out[k]] && !before[out[k]])
    && (forall i | 0 <= i < |now| && now[i] && !before[i] :: i in out)
  }

  /** The fields head, tail and queue_depth. */
  class JobQueue {
    var head: Job?
    var tail: Job?
    var depth: int
    ghost var jobs: seq<Job>

    ghost predicate Valid()
      reads this, jobs
    {
      Chain(jobs, head, tail, depth)
    }

    ghost function Tickets(): (r: seq<nat>)
      reads this
      ensures |r| == |jobs|
    {
      TicketsOf(jobs)
    }

    constructor ()
      ensures Valid() && jobs == [] && Tickets() == []
    {
      head, tail, depth, jobs := null, null, 0, [];
    }

    /** Links a new job behind the tail. */
    method Append(job: Job)
      requires Valid() && job !in jobs && job.next == null
      modifies this, jobs
      ensures Valid() && jobs == old(jobs) + [job] && Tickets() == old(Tickets()) + [job.ticket]
    {
      if tail != null {
        tail.next := job;
      } else {
        head := job;
      }
      tail := job;
      depth := depth + 1;
      jobs := jobs + [job];
      assert Tickets() == old(Tickets()) + [job.ticket];
    }

    /** Takes the job at the head. */
    method Take() returns (job: Job)
      requires Valid() && head != null
      modifies this
      ensures Valid() && old(jobs) != [] && old(jobs)[0] == job && jobs == old(jobs)[1..]
      ensures old(Tickets())[0] == job.ticket && Tickets() == old(Tickets())[1..]
    {
      ChainTail(jobs, head, tail, depth);
      job := head;
      head := job.next;
      if head == null {
        tail := null;
      }
      depth := depth - 1;
      jobs := jobs[1..];
    }

    /** threadpool_free_jobs: walks the list to its end and empties the queue. */
    method FreeJobs() returns (freed: nat)
      requires Valid()
      modifies this
      ensures Valid() && freed == |old(jobs)| && jobs == [] && Tickets() == []
    {
      var job := head;
      freed := 0;
      while job != null
        invariant Valid() && freed <= |jobs|
        invariant job == if freed < |jobs| then jobs[freed] else null
        decreases |jobs| - freed
      {
        job := job.next;
        freed := freed + 1;
      }
      head, tail, depth, jobs := null, null, 0, [];
    }
  }

  /** The flags in a are those of s. */
  ghost predicate Flags(a: array<bool>, s: seq<bool>)
    reads a
  {
    a.Length == |s| && forall i | 0 <= i < |s| :: a[i] == s[i]
  }

  /** The slot loop of threadpool_expand_locked. */
  method StartSlots(ghost s: Pool, newN: int, nWorkers: int, alive: array<bool>, retiring: array<bool>)
    returns (added: int)
    requires Sized(s) && Flags(alive, s.alive) && Flags(retiring, s.retiring) && alive != retiring && nWorkers == s.nWorkers
    modifies alive, retiring
    ensures
      var r := ExpandFrom(s, 0, newN);
      && Sized(r) && Flags(alive, r.alive) && Flags(retiring, r.retiring) && added == r.nWorkers - s.nWorkers
  {
    added := 0;
    var slot := 0;
    ghost var t := s;
    while slot < ABS_MAX && nWorkers + added < newN
      invariant 0 <= slot <= ABS_MAX && Sized(t)
      invariant Flags(alive, t.alive) && Flags(retiring, t.retiring)
      invariant t.nWorkers == nWorkers + added
      invariant ExpandFrom(t, slot, newN) == ExpandFrom(s, 0, newN)
    {
      if !alive[slot] {
        retiring[slot] := false;
        alive[slot] := true;
        added := added + 1;
        t := Start(t, slot);
      }
      slot := slot + 1;
    }
  }

  /** The slots that RetireFrom flags, in the order it visits them. */
  ghost function RetireList(s: Pool, slot: nat, left: nat): seq<nat>
    requires Sized(s) && slot <= ABS_MAX
    decreases |s.alive|, slot
  {
    if slot == 0 || left == 0 then []
    else if s.alive[slot - 1] && !s.retiring[slot - 1] then
      [slot - 1] + RetireList(Retire(s, slot - 1), slot - 1, left - 1)
    else RetireList(s, slot - 1, left)
  }

  /** The slots in out, all below slot, are the ones flagged now and not before. */
  ghost predicate Took(before: seq<bool>, now: seq<bool>, out: seq<nat>, slot: nat) {
    && |before| == |now| == ABS_MAX
    && (forall i | 0 <= i < ABS_MAX :: now[i] <==> before[i] || i in out)
    && (forall i | i in out :: i < slot && i < ABS_MAX && !before[i])
  }

  lemma TookOne(before: seq<bool>, now: seq<bool>, out: seq<nat>, x: nat)
    requires x < ABS_MAX == |before| && !before[x] && Took(before[x := true], now, out, x)
    ensures Took(before, now, [x] + out, x + 1)
  {
    assert forall i :: i in [x] + out <==> i == x || i in out;
  }

  /** The slots on that list are exactly the newly flagged ones. */
  lemma {:induction false} RetireListed(s: Pool, slot: nat, left: nat)
    requires Sized(s) && slot <= ABS_MAX
    ensures Took(s.retiring, RetireFrom(s, slot, left).retiring, RetireList(s, slot, left), slot)
    ensures |RetireList(s, slot, left)| <= left
    decreases slot
  {
    if slot > 0 && left > 0 {
      if s.alive[slot - 1] && !s.retiring[slot - 1] {
        var m := Retire(s, slot - 1);
        RetireListed(m, slot - 1, left - 1);
        var r, out := RetireFrom(m, slot - 1, left - 1), RetireList(m, slot - 1, left - 1);
        TookOne(s.retiring, r.retiring, out, slot - 1);
      } else {
        RetireListed(s, slot - 1, left);
      }
    }
  }

  lemma RetireListedAll(s: Pool, left: nat)
    requires Sized(s)
    ensures Listed(s.retiring, RetireFrom(s, |s.alive|, left).retiring, RetireList(s, |s.alive|, left))
    ensures |RetireList(s, |s.alive|, left)| <= left
  {
    RetireListed(s, |s.alive|, left);
  }

  lemma AppendPrepend(a: seq<nat>, x: nat, b: seq<nat>)
    ensures a + ([x] + b) == (a + [x]) + b
  {
  }

  /** The slot loop of threadpool_mark_retire_locked. */
  method FlagSlots(ghost s: Pool, nRetire: nat, ghost nWorkers: int, alive: array<bool>, retiring: array<bool>,
                   outSlots: array<nat>, cap: nat)
    returns (marked: nat)
    requires Sized(s) && Flags(alive, s.alive) && Flags(retiring, s.retiring) && alive != retiring && nWorkers == s.nWorkers
    requires cap <= outSlots.Length
    modifies retiring, outSlots
    ensures
      var r := RetireFrom(s, |s.alive|, if nRetire < cap then nRetire else cap);
      && Sized(r) && Flags(retiring, r.retiring) && marked == s.nWorkers - r.nWorkers && marked <= cap
      && outSlots[..marked] == RetireList(s, |s.alive|, if nRetire < cap then nRetire else cap)
  {
    marked := 0;
    var slot: nat := ABS_MAX;
    ghost var left: nat := if nRetire < cap then nRetire else cap;
    ghost var t, out := s, [];
    while slot > 0 && marked < nRetire && marked < cap
      invariant slot <= ABS_MAX && marked <= left && Sized(t)
      invariant Flags(alive, s.alive) && Flags(retiring, t.retiring) && t.alive == s.alive
      invariant t.nWorkers == nWorkers - marked
      invariant outSlots[..marked] == out
      invariant RetireFrom(t, slot, left - marked) == RetireFrom(s, |s.alive|, left)
      invariant out + RetireList(t, slot, left - marked) == RetireList(s, |s.alive|, left)
    {
      slot := slot - 1;
      if alive[slot] && !retiring[slot] {
        AppendPrepend(out, slot, RetireList(Retire(t, slot), slot, left - marked - 1));
        retiring[slot] := true;
        outSlots[marked] := slot;
        marked := marked + 1;
        t, out := Retire(t, slot), out + [slot];
      }
    }
  }

  class WorkerPool {
    const alive: array<bool>
    const retiring: array<bool>
    var nWorkers: int
    const floor: nat
    const queue: JobQueue
    var queueMax: nat
    var rejected: nat
    var active: int
    var shutdown: bool
    var submitClosed: bool
    var high: nat
    var low: nat
    var skip: nat
    ghost var abs: Pool

    /** The fields are those of the abstract state abs, which also says where each thread is and what ran.
        The queue's own invariant, queue.Valid(), matters only to the sections that touch the list. */
    ghost predicate Valid()
      reads this, alive, retiring, queue
    {
      && Sized(abs) && alive != retiring
      && Flags(alive, abs.alive) && Flags(retiring, abs.retiring) && queue.Tickets() == abs.queue
      && nWorkers == abs.nWorkers && floor == abs.floor && active == abs.active
      && queueMax == abs.queueMax && rejected == abs.rejected
      && shutdown == abs.shutdown && submitClosed == abs.submitClosed
      && high == abs.high && low == abs.low && skip == abs.skip
    }

    constructor Init(n: nat)
      requires 1 <= n <= ABS_MAX
      ensures Valid() && queue.Valid() && fresh(alive) && fresh(retiring) && fresh(queue)
      ensures abs == Empty(n)
    {
      alive := new bool[ABS_MAX](_ => false);
      retiring := new bool[ABS_MAX](_ => false);
      queue := new JobQueue();
      nWorkers, floor, queueMax, rejected, active := 0, n, QUEUE_MAX_DEFAULT, 0, 0;
      shutdown, submitClosed, high, low, skip := false, false, 0, 0, 0;
      abs := Empty(n);
      new;
    }

    /** threadpool_create, up to the start of the monitor thread. */
    static method Create(n: int) returns (tp: WorkerPool?)
      ensures (tp == null) <==> n <= 0 || n > ABS_MAX
      ensures tp != null ==> fresh(tp) && tp.Valid() && tp.queue.Valid() && tp.abs == ThreadPool.Create(n)
    {
      if n <= 0 || n > ABS_MAX {
        return null;
      }
      var p := new WorkerPool.Init(n);
      var _ := p.ExpandLocked(n);
      tp := p;
    }

    /** threadpool_submit.  woken is the set of waiting threads that the signal unblocks. */
    method Submit(hasFn: bool, ghost woken: set<nat>) returns (rc: int)
      requires Valid() && queue.Valid()
      modifies this, queue, queue.jobs
      ensures Valid() && queue.Valid() && (forall j | j in queue.jobs && j !in old(queue.jobs) :: fresh(j))
      ensures (abs, rc) == if hasFn then ThreadPool.Submit(old(abs), woken) else (old(abs), -1)
    {
      if !hasFn {
        return -1;
      }
      var job := new Job(abs.accepted);
      if shutdown || submitClosed {
        return -1;
      }
      if queueMax > 0 && queue.depth >= queueMax {
        rejected := rejected + 1;
        abs := abs.(rejected := rejected);
        return -1;
      }
      queue.Append(job);
      abs := ThreadPool.Submit(abs, woken).0;
      return 0;
    }

    /** The first critical section of the worker loop: wait, leave, or take the job at the head. */
    method EnterSection(slot: nat) returns (job: Job?)
      requires Valid() && queue.Valid() && slot < ABS_MAX && abs.worker[slot].Idle?
      modifies this, queue
      ensures Valid() && queue.Valid() && (forall j | j in queue.jobs :: j in old(queue.jobs))
      ensures abs == Enter(old(abs), slot)
      ensures if abs.worker[slot].Running? then job == old(queue.head) && job != null && abs.worker[slot].ticket == job.ticket
              else job == null
    {
      if queue.head == null && !shutdown && !retiring[slot] {
        abs := Enter(abs, slot);
        return null;
      }
      if shutdown || retiring[slot] {
        abs := Enter(abs, slot);
        return null;
      }
      job := TakeJob(slot);
    }

    /** The end of the first critical section: the worker leaves with the job at the head. */
    method TakeJob(slot: nat) returns (job: Job)
      requires Valid() && queue.Valid() && slot < ABS_MAX && queue.head != null && !shutdown && !abs.retiring[slot]
      modifies this`active, this`abs, queue
      ensures Valid() && queue.Valid() && (forall j | j in queue.jobs :: j in old(queue.jobs))
      ensures abs == Enter(old(abs), slot) && abs.worker[slot] == Running(job.ticket)
      ensures job == old(queue.head)
    {
      job := queue.Take();
      active := active + 1;
      abs := Enter(abs, slot);
    }

    /** The job has returned: the second critical section of the worker loop. */
    method FinishSection(slot: nat)
      requires Valid() && slot < ABS_MAX && abs.worker[slot].Running?
      modifies this
      ensures Valid() && abs == Finish(old(abs), slot)
    {
      active := active - 1;
      abs := Finish(abs, slot);
    }

    /** threadpool_expand_locked: returns how many threads it started. */
    method ExpandLocked(target: int) returns (added: int)
      requires Valid()
      modifies this`nWorkers, this`abs, alive, retiring
      ensures Valid() && abs == Expand(old(abs), target)
      ensures added == nWorkers - old(nWorkers)
    {
      var newN := if target > ABS_MAX then ABS_MAX else target;
      if newN <= nWorkers {
        return 0;
      }
      ghost var r := ExpandFrom(abs, 0, newN);
      P.ExpandFrame(abs, 0, newN);
      added := StartSlots(abs, newN, nWorkers, alive, retiring);
      nWorkers := nWorkers + added;
      abs := r;
    }

    /** threadpool_mark_retire_locked: flags up to cap members, from the highest slot down, lists them in
        outSlots and wakes every waiting worker. */
    method MarkRetireLocked(target: int, outSlots: array<nat>, cap: nat) returns (marked: nat)
      requires Valid() && cap <= outSlots.Length
      modifies this`nWorkers, this`abs, retiring, outSlots
      ensures Valid() && abs == MarkRetire(old(abs), target, cap)
      ensures marked <= cap && Listed(old(abs).retiring, abs.retiring, outSlots[..marked])
    {
      var newN := if target < floor then floor else target;
      if newN >= nWorkers {
        return 0;
      }
      var nRetire := nWorkers - newN;
      ghost var r := RetireFrom(abs, |abs.alive|, if nRetire < cap then nRetire else cap);
      P.RetireFrame(abs, |abs.alive|, if nRetire < cap then nRetire else cap);
      RetireListedAll(abs, if nRetire < cap then nRetire else cap);
      marked := FlagSlots(abs, nRetire, nWorkers, alive, retiring, outSlots, cap);
      nWorkers := nWorkers - marked;
      abs := r.(worker := WakeAll(r.worker));
    }

    /** One round of threadpool_join_retired, after pthread_join has returned. */
    method JoinSection(slot: nat)
      requires Valid() && slot < ABS_MAX && abs.worker[slot].Exited?
      modifies this, alive, retiring
      ensures Valid() && abs == Join(old(abs), slot)
    {
      alive[slot] := false;
      retiring[slot] := false;
      abs := Join(abs, slot);
    }

    /** threadpool_resize up to the joins: the retired slots to join are outSlots[..retired]. */
    method Resize(newN: int, outSlots: array<nat>) returns (rc: int, retired: nat)
      requires Valid() && outSlots.Length >= ABS_MAX
      modifies this`nWorkers, this`abs, alive, retiring, outSlots
      ensures Valid() && abs == ThreadPool.Resize(old(abs), newN)
      ensures rc == if newN <= 0 || shutdown || submitClosed then -1 else 0
      ensures rc != 0 ==> abs == old(abs)
      ensures retired <= ABS_MAX && Listed(old(abs).retiring, abs.retiring, outSlots[..retired])
    {
      retired := 0;
      if newN <= 0 {
        return -1, 0;
      }
      if shutdown || submitClosed {
        return -1, 0;
      }
      var n := if newN > SOFT_MAX then SOFT_MAX else newN;
      n := if n < floor then floor else n;
      if n > nWorkers {
        ExpandFlags(abs, 0, if n > ABS_MAX then ABS_MAX else n);
        var _ := ExpandLocked(n);
      } else if n < nWorkers {
        retired := MarkRetireLocked(n, outSlots, ABS_MAX);
      }
      rc := 0;
    }

    /** One sample of the monitor thread, up to the joins; stop says that the thread leaves its loop. */
    method Sample(shouldExit: bool, outSlots: array<nat>) returns (stop: bool, retired: nat)
      requires Valid() && outSlots.Length >= STEP
      modifies this, alive, retiring, outSlots
      ensures Valid()
      ensures stop <==> shouldExit || old(shutdown)
      ensures abs == if shouldExit then old(abs) else MonitorSample(old(abs))
      ensures !stop && Inv(old(abs)) ==> M.Sampled(old(abs), abs)
      ensures retired <= STEP && Listed(old(abs).retiring, abs.retiring, outSlots[..retired])
    {
      ghost var s := abs;
      if !shouldExit && !shutdown && Inv(s) {
        M.SampleExactly(s);
      }
      retired, stop := 0, false;
      if shouldExit || shutdown {
        stop := true;
        return;
      }
      if skip > 0 {
        skip := skip - 1;
        abs := MonitorSample(abs);
        return;
      }
      var utilPct := if nWorkers > 0 then active * 100 / nWorkers else 0;
      if utilPct >= HIGH_WATER_PCT {
        HighBranch();
      } else if utilPct <= LOW_WATER_PCT {
        retired := LowBranch(outSlots);
      } else {
        high := 0;
        low := 0;
        abs := MonitorSample(abs);
      }
    }

    /** The monitor's branch at or above the high water mark. */
    method HighBranch()
      requires Valid()
      modifies this`high, this`low, this`skip, this`nWorkers, this`abs, alive, retiring
      ensures Valid() && abs == HighSample(old(abs))
      ensures Listed(old(abs).retiring, abs.retiring, [])
    {
      high := high + 1;
      low := 0;
      abs := abs.(high := high, low := low);
      if high >= HIGH_CONSECUTIVE && nWorkers < SOFT_MAX {
        Grow();
      }
    }

    /** The step up after enough high samples. */
    method Grow()
      requires Valid() && nWorkers < SOFT_MAX
      modifies this`high, this`skip, this`nWorkers, this`abs, alive, retiring
      ensures Valid()
      ensures
        var t := old(abs).nWorkers + STEP;
        abs == Expand(old(abs), if t > SOFT_MAX then SOFT_MAX else t).(high := 0, skip := HYSTERESIS_SAMPLES)
      ensures Listed(old(abs).retiring, abs.retiring, [])
    {
      var target := nWorkers + STEP;
      if target > SOFT_MAX {
        target := SOFT_MAX;
      }
      ExpandFlags(abs, 0, target);
      var _ := ExpandLocked(target);
      skip := HYSTERESIS_SAMPLES;
      high := 0;
      abs := abs.(high := 0, skip := HYSTERESIS_SAMPLES);
    }

    /** The monitor's branch at or below the low water mark. */
    method LowBranch(outSlots: array<nat>) returns (retired: nat)
      requires Valid() && outSlots.Length >= STEP
      modifies this`high, this`low, this`skip, this`nWorkers, this`abs, retiring, outSlots
      ensures Valid() && abs == LowSample(old(abs))
      ensures retired <= STEP && Listed(old(abs).retiring, abs.retiring, outSlots[..retired])
    {
      retired := 0;
      low := low + 1;
      high := 0;
      abs := abs.(high := high, low := low);
      if low >= LOW_CONSECUTIVE && nWorkers > floor {
        retired := Shrink(outSlots);
      }
    }

    /** The step down after enough low samples. */
    method Shrink(outSlots: array<nat>) returns (retired: nat)
      requires Valid() && nWorkers > floor && outSlots.Length >= STEP
      modifies this`low, this`skip, this`nWorkers, this`abs, retiring, outSlots
      ensures Valid()
      ensures
        var t := old(abs).nWorkers - STEP;
        abs == MarkRetire(old(abs), if t < floor then floor else t, STEP).(low := 0, skip := HYSTERESIS_SAMPLES)
      ensures retired <= STEP && Listed(old(abs).retiring, abs.retiring, outSlots[..retired])
    {
      var target := nWorkers - STEP;
      if target < floor {
        target := floor;
      }
      retired := MarkRetireLocked(target, outSlots, STEP);
      skip := HYSTERESIS_SAMPLES;
      low := 0;
      abs := abs.(low := 0, skip := HYSTERESIS_SAMPLES);
    }

    /** The flag section of threadpool_shutdown. */
    method ShutdownSection()
      requires Valid()
      modifies this
      ensures Valid() && abs == old(abs).(shutdown := true, worker := WakeAll(old(abs).worker))
    {
      shutdown := true;
      abs := abs.(shutdown := true, worker := WakeAll(abs.worker));
    }

    /** The last part of threadpool_shutdown, once every worker is joined. */
    method FreeSection() returns (freed: nat)
      requires Valid() && queue.Valid()
      modifies this, queue
      ensures Valid() && queue.Valid() && freed == |old(abs).queue| && abs == old(abs).(queue := [], dropped := true)
    {
      freed := queue.FreeJobs();
      abs := abs.(queue := [], dropped := true);
    }
  }

  /** Expanding flags no slot as retiring. */
  lemma {:induction false} ExpandFlags(s: Pool, slot: nat, target: int)
    requires Sized(s)
    ensures
      var r := ExpandFrom(s, slot, target);
      Sized(r) && Listed(s.retiring, r.retiring, [])
    decreases |s.alive| - slot
  {
    if slot < ABS_MAX && s.nWorkers < target {
      ExpandFlags(if s.alive[slot] then s else Start(s, slot), slot + 1, target);
    }
  }
}
