/** What the monitor thread of src/threadpool.c does to the size of the pool, in terms of utilisation and of runs of
    samples. */
module PoolMonitor {
  import opened ThreadPool
  import opened ThreadPoolProofs

  // ---------- one sample ----------

  /** At least 80 of 100 workers run a job. */
  predicate Busy80(s: Pool) {
    100 * s.active >= 80 * s.nWorkers
  }

  /** At most 30 of 100, in whole percent. */
  predicate Busy30(s: Pool) {
    100 * s.active < 31 * s.nWorkers
  }

  ghost predicate AllTaken(s: Pool) {
    forall i | 0 <= i < |s.alive| :: s.alive[i]
  }

  lemma Quotient(x: int, n: int, k: int)
    requires n > 0
    ensures x / n >= k <==> x >= k * n
  {
    var q := x / n;
    assert x == q * n + x % n && 0 <= x % n < n;
    if q >= k {
      assert q * n >= k * n by {
        Ordered(q, k, n);
      }
    } else {
      Ordered(k - 1, q, n);
      assert (k - 1) * n == k * n - n;
    }
  }

  lemma Ordered(a: int, b: int, n: int)
    requires a >= b && n >= 0
    ensures a * n >= b * n
  {
    assert (a - b) * n >= 0;
  }

  lemma Percent(s: Pool)
    requires s.nWorkers > 0
    ensures UtilPct(s) >= 80 <==> Busy80(s)
    ensures UtilPct(s) <= 30 <==> Busy30(s)
  {
    Quotient(s.active * 100, s.nWorkers, 80);
    Quotient(s.active * 100, s.nWorkers, 31);
  }

  /** The size after a step up from n: four more, but at most 16. */
  function Up(n: int): int {
    if n + 4 > 16 then 16 else n + 4
  }

  /** The size after a step down: four less, but at least the floor. */
  function Down(n: int, floor: int): int {
    if n - 4 < floor then floor else n - 4
  }

  /** What one sample does: r is the pool after it. */
  ghost predicate Sampled(s: Pool, r: Pool) {
    if s.skip > 0 then r == s.(skip := s.skip - 1)
    else if Busy80(s) then
      if s.high >= 2 && s.nWorkers < 16 then
        && r.high == r.low == 0 && r.skip == 2
        && (r.nWorkers == Up(s.nWorkers) || (s.nWorkers <= r.nWorkers < Up(s.nWorkers) && AllTaken(r)))
      else r == s.(high := s.high + 1, low := 0)
    else if Busy30(s) then
      if s.low >= 29 && s.nWorkers > s.floor then
        r.high == r.low == 0 && r.skip == 2 && r.nWorkers == Down(s.nWorkers, s.floor)
      else r == s.(low := s.low + 1, high := 0)
    else r == s.(high := 0, low := 0)
  }

  lemma SampleExactly(s: Pool)
    requires Inv(s) && !s.shutdown
    ensures Sampled(s, Apply(s, SampleEv))
  {
    Percent(s);
    if s.skip == 0 && Busy80(s) {
      if s.high >= 2 && s.nWorkers < 16 {
        StepUp(s.(high := s.high + 1, low := 0), s.high, s.low);
      }
    } else if s.skip == 0 && Busy30(s) {
      if s.low >= 29 && s.nWorkers > s.floor {
        StepDown(s.(high := 0, low := s.low + 1), s.high, s.low);
      }
    }
  }

  lemma StepUp(s: Pool, high: nat, low: nat)
    requires Inv(s.(high := high, low := low)) && !s.shutdown && s.nWorkers < 16
    ensures
      var r := Expand(s, Up(s.nWorkers));
      r.low == s.low && (r.nWorkers == Up(s.nWorkers) || (s.nWorkers <= r.nWorkers < Up(s.nWorkers) && AllTaken(r)))
  {
    CountersKeep(s.(high := high, low := low), s.high, s.low, s.skip);
    ExpandKeeps(s, 0, Up(s.nWorkers));
    ExpandFrame(s, 0, Up(s.nWorkers));
  }

  lemma StepDown(s: Pool, high: nat, low: nat)
    requires Inv(s.(high := high, low := low)) && !s.shutdown && s.nWorkers > s.floor
    ensures
      var r := MarkRetire(s, Down(s.nWorkers, s.floor), 4);
      r.high == s.high && r.nWorkers == Down(s.nWorkers, s.floor)
  {
    CountersKeep(s.(high := high, low := low), s.high, s.low, s.skip);
    MarkRetireKeeps(s, Down(s.nWorkers, s.floor), 4);
    RetireFrame(s, |s.alive|, RetireNumber(s, Down(s.nWorkers, s.floor), 4));
  }

  /** The pool grows only under load and shrinks only when idle, and by at most four either way. */
  lemma SampleDirection(s: Pool)
    requires Inv(s) && !s.shutdown
    ensures
      var r := Apply(s, SampleEv);
      && (r.nWorkers > s.nWorkers ==> 100 * s.active >= 80 * s.nWorkers)
      && (r.nWorkers < s.nWorkers ==> 100 * s.active < 31 * s.nWorkers)
      && -4 <= r.nWorkers - s.nWorkers <= 4
  {
    SampleExactly(s);
  }

  // ---------- other steps ----------

  /** No other step touches the monitor's counts. */
  lemma CountsStay(s: Pool, e: Event)
    requires Inv(s) && Enabled(s, e) && !e.SampleEv?
    ensures
      var r := Apply(s, e);
      r.high == s.high && r.low == s.low && r.skip == s.skip
  {
    match e
    case ResizeEv(newN) =>
      var a := if newN > SOFT_MAX then SOFT_MAX as int else newN;
      var n := if a < s.floor then s.floor as int else a;
      ExpandFrame(s, 0, if n > ABS_MAX then ABS_MAX else n);
      RetireFrame(s, |s.alive|, RetireNumber(s, n, ABS_MAX));
    case _ =>
  }

  // ---------- runs of samples ----------

  /** Steps that follow each other, before the shutdown. */
  ghost predicate Stretch(states: seq<Pool>, events: seq<Event>) {
    && |states| == |events| + 1
    && (forall k | 0 <= k < |states| :: Inv(states[k]) && !states[k].shutdown)
    && (forall k | 0 <= k < |events| :: Enabled(states[k], events[k]) && states[k + 1] == Apply(states[k], events[k]))
  }

  ghost predicate Sampling(states: seq<Pool>, events: seq<Event>, level: Pool -> bool)
    requires |states| == |events| + 1
  {
    forall k | 0 <= k < |events| && events[k].SampleEv? :: level(states[k])
  }

  function Samples(events: seq<Event>): nat {
    if events == [] then 0 else Samples(events[..|events| - 1]) + (if events[|events| - 1].SampleEv? then 1 else 0)
  }

  lemma StretchFront(states: seq<Pool>, events: seq<Event>)
    requires Stretch(states, events) && events != []
    ensures Stretch(states[..|events|], events[..|events| - 1])
  {
  }

  /** The samples so far have changed the size of the pool nowhere. */
  ghost predicate Steady(states: seq<Pool>, events: seq<Event>)
    requires |states| == |events| + 1
  {
    forall k | 0 <= k < |events| && events[k].SampleEv? :: states[k + 1].nWorkers == states[k].nWorkers
  }

  lemma SteadyStep(states: seq<Pool>, events: seq<Event>)
    requires |states| == |events| + 1 && events != []
    ensures
      var n := |events| - 1;
      Steady(states, events) <==>
      Steady(states[..n + 1], events[..n]) && (events[n].SampleEv? ==> states[n + 1].nWorkers == states[n].nWorkers)
  {
    var n := |events| - 1;
    var before, front := states[..n + 1], events[..n];
    assert forall k | 0 <= k <= n :: before[k] == states[k];
    assert forall k | 0 <= k < n :: front[k] == events[k];
  }

  lemma SamplingFront(states: seq<Pool>, events: seq<Event>, level: Pool -> bool)
    requires |states| == |events| + 1 && events != [] && Sampling(states, events, level)
    ensures Sampling(states[..|events|], events[..|events| - 1], level)
    ensures events[|events| - 1].SampleEv? ==> level(states[|events| - 1])
  {
  }

  /** Up to two high samples are only counted. */
  lemma {:induction false} HighCounted(states: seq<Pool>, events: seq<Event>)
    requires Stretch(states, events) && states[0].skip == 0 && states[0].high == 0 && Samples(events) <= 2
    requires Sampling(states, events, Busy80)
    ensures states[|events|].skip == 0 && states[|events|].high == Samples(events) && Steady(states, events)
  {
    if events != [] {
      var n := |events| - 1;
      StretchFront(states, events);
      SamplingFront(states, events, Busy80);
      HighCounted(states[..n + 1], events[..n]);
      LastStep(states, events);
      SteadyStep(states, events);
    }
  }

  lemma LastStep(states: seq<Pool>, events: seq<Event>)
    requires Stretch(states, events) && events != []
    ensures
      var n := |events| - 1;
      if events[n].SampleEv? then Sampled(states[n], states[n + 1])
      else states[n + 1].high == states[n].high && states[n + 1].low == states[n].low && states[n + 1].skip == states[n].skip
  {
    var n := |events| - 1;
    if events[n].SampleEv? {
      SampleExactly(states[n]);
    } else {
      CountsStay(states[n], events[n]);
    }
  }

  /** The third high sample in a row, and no earlier one, makes the pool of n < 16 workers four larger, up to 16,
      unless all slots are taken. */
  lemma ThirdHighGrows(states: seq<Pool>, events: seq<Event>)
    requires Stretch(states, events) && states[0].skip == 0 && states[0].high == 0
    requires Samples(events) == 3 && events[|events| - 1].SampleEv? && Sampling(states, events, Busy80)
    ensures
      var n := |events| - 1;
      && Steady(states[..n + 1], events[..n])
      && (if states[n].nWorkers < 16 then
            && (states[n + 1].nWorkers == Up(states[n].nWorkers)
                || (states[n].nWorkers <= states[n + 1].nWorkers < Up(states[n].nWorkers) && AllTaken(states[n + 1])))
            && states[n + 1].skip == 2
          else states[n + 1].nWorkers == states[n].nWorkers)
  {
    var n := |events| - 1;
    StretchFront(states, events);
    HighCounted(states[..n + 1], events[..n]);
    LastStep(states, events);
  }

  lemma {:induction false} LowCounted(states: seq<Pool>, events: seq<Event>)
    requires Stretch(states, events) && states[0].skip == 0 && states[0].low == 0 && Samples(events) <= 29
    requires Sampling(states, events, Busy30)
    ensures states[|events|].skip == 0 && states[|events|].low == Samples(events) && Steady(states, events)
  {
    if events != [] {
      var n := |events| - 1;
      StretchFront(states, events);
      SamplingFront(states, events, Busy30);
      LowCounted(states[..n + 1], events[..n]);
      LastStep(states, events);
      SteadyStep(states, events);
    }
  }

  /** The thirtieth low sample in a row, and no earlier one, makes the pool four smaller, down to the floor. */
  lemma ThirtiethLowShrinks(states: seq<Pool>, events: seq<Event>)
    requires Stretch(states, events) && states[0].skip == 0 && states[0].low == 0
    requires Samples(events) == 30 && events[|events| - 1].SampleEv? && Sampling(states, events, Busy30)
    ensures
      var n := |events| - 1;
      && Steady(states[..n + 1], events[..n])
      && states[n + 1].nWorkers == Down(states[n].nWorkers, states[n].floor)
      && (states[n].nWorkers > states[n].floor ==> states[n + 1].skip == 2)
  {
    var n := |events| - 1;
    StretchFront(states, events);
    LowCounted(states[..n + 1], events[..n]);
    LastStep(states, events);
  }

  /** Every sample so far has only counted down to the next one that counts. */
  ghost predicate Skipping(states: seq<Pool>, events: seq<Event>)
    requires |states| == |events| + 1
  {
    forall k | 0 <= k < |events| && events[k].SampleEv? :: SkippedAt(states[k], states[k + 1])
  }

  ghost predicate SkippedAt(s: Pool, r: Pool) {
    s.skip > 0 && r == s.(skip := s.skip - 1)
  }

  lemma SkippingStep(states: seq<Pool>, events: seq<Event>)
    requires |states| == |events| + 1 && events != []
    ensures
      var n := |events| - 1;
      Skipping(states, events) <==>
      Skipping(states[..n + 1], events[..n]) && (events[n].SampleEv? ==> SkippedAt(states[n], states[n + 1]))
  {
    var n := |events| - 1;
    var before, front := states[..n + 1], events[..n];
    assert forall k | 0 <= k <= n :: before[k] == states[k];
    assert forall k | 0 <= k < n :: front[k] == events[k];
  }

  /** After a step the next two samples are skipped whatever the load, and no more. */
  lemma {:induction false} StepThenSkips(states: seq<Pool>, events: seq<Event>)
    requires Stretch(states, events) && states[0].skip == 2 && Samples(events) <= 2
    ensures states[|events|].skip == 2 - Samples(events)
    ensures states[|events|].high == states[0].high && states[|events|].low == states[0].low
    ensures Skipping(states, events)
  {
    if events != [] {
      var n := |events| - 1;
      StretchFront(states, events);
      StepThenSkips(states[..n + 1], events[..n]);
      LastStep(states, events);
      SkippingStep(states, events);
    }
  }

  /** A step up or down leaves both counts at 0, and so does a sample between the marks. */
  lemma CountsReset(s: Pool)
    requires Inv(s) && !s.shutdown && s.skip == 0
    ensures
      var r := Apply(s, SampleEv);
      && (r.nWorkers != s.nWorkers ==> r.high == 0 && r.low == 0 && r.skip == 2)
      && (!Busy80(s) && !Busy30(s) ==> r == s.(high := 0, low := 0))
      && (!Busy80(s) ==> r.high == 0) && (!Busy30(s) ==> r.low == 0)
  {
    SampleExactly(s);
  }

  // ---------- and conversely ----------

  /** How many of the latest samples, without a gap, were counted ones at this level. */
  ghost function InARow(states: seq<Pool>, events: seq<Event>, level: Pool -> bool): nat
    requires |states| == |events| + 1
  {
    if events == [] then 0
    else
      var n := |events| - 1;
      var before := InARow(states[..n + 1], events[..n], level);
      if !events[n].SampleEv? then before
      else if states[n].skip == 0 && level(states[n]) then before + 1
      else 0
  }

  lemma InARowStep(states: seq<Pool>, events: seq<Event>, level: Pool -> bool)
    requires |states| == |events| + 1 && events != []
    ensures
      var n := |events| - 1;
      var before := InARow(states[..n + 1], events[..n], level);
      && (!events[n].SampleEv? ==> InARow(states, events, level) == before)
      && (events[n].SampleEv? && states[n].skip == 0 && level(states[n]) ==> InARow(states, events, level) == before + 1)
  {
  }

  /** From the start of the pool on, the counts never run ahead of the samples. */
  lemma {:induction false} CountsAreSamples(states: seq<Pool>, events: seq<Event>)
    requires Stretch(states, events) && states[0].high == 0 && states[0].low == 0
    ensures states[|events|].high <= InARow(states, events, Busy80)
    ensures states[|events|].low <= InARow(states, events, Busy30)
    ensures states[|events|].skip > 0 ==> states[|events|].high == 0 && states[|events|].low == 0
  {
    if events != [] {
      var n := |events| - 1;
      StretchFront(states, events);
      CountsAreSamples(states[..n + 1], events[..n]);
      LastStep(states, events);
      InARowStep(states, events, Busy80);
      InARowStep(states, events, Busy30);
    }
  }

  /** So the pool grows only at the third high sample in a row or later, and shrinks only at the thirtieth low one or
      later. */
  lemma StepsNeedARow(states: seq<Pool>, events: seq<Event>)
    requires Stretch(states, events) && states[0].high == 0 && states[0].low == 0
    requires events != [] && events[|events| - 1].SampleEv?
    ensures
      var n := |events| - 1;
      && (states[n + 1].nWorkers > states[n].nWorkers ==> InARow(states, events, Busy80) >= 3)
      && (states[n + 1].nWorkers < states[n].nWorkers ==> InARow(states, events, Busy30) >= 30)
  {
    var n := |events| - 1;
    StretchFront(states, events);
    CountsAreSamples(states[..n + 1], events[..n]);
    LastStep(states, events);
    InARowStep(states, events, Busy80);
    InARowStep(states, events, Busy30);
  }
}
