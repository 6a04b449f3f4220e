/** While Stop is not called, every job that Enqueue accepted ends: nothing waits or runs forever. */
module QueueProgress {
  import opened Wrappers
  import opened QueueMachine
  import opened QueueSafety
  import opened QueueShutdown

  ghost predicate ActsAtOrAfter(events: nat -> Event, w: nat, i: nat) {
    exists j: nat :: i <= j && events(j).Work? && events(j).worker == w
  }

  /** Every worker that has not returned eventually acts: handlers, timers and sink calls end. */
  ghost predicate EveryWorkerFair(states: nat -> State, events: nat -> Event) {
    forall i: nat, w: nat :: w < |states(i).workers| && !states(i).workers[w].Returned? ==> ActsAtOrAfter(events, w, i)
  }

  /** The one-second timer of a select wins only while no job is waiting. */
  ghost predicate TimerYields(states: nat -> State, events: nat -> Event) {
    forall i: nat :: events(i).Work? && events(i).action.Tick? ==> states(i).channel == []
  }

  ghost predicate NeverCancelled(states: nat -> State) {
    forall i: nat :: !states(i).cancelled
  }

  // ---------- a job a worker holds ----------

  predicate Busy(p: Phase) {
    !p.Top? && !p.Selecting? && !p.Returned?
  }

  lemma OthersLeavePhase(s: State, e: Event, w: nat)
    requires Enabled(s, e) && w < |s.workers| && !(e.Work? && e.worker == w)
    requires !s.workers[w].Selecting? || s.channel != []
    ensures |Apply(s, e).workers| == |s.workers| && Apply(s, e).workers[w] == s.workers[w]
  {
    if e.Work? {
      OnlyOwnPhase(s, e.worker, e.action);
    }
  }

  /** The first action of a busy worker at or before j. */
  lemma {:induction false} FirstAct(states: nat -> State, events: nat -> Event, w: nat, i: nat, j: nat)
    returns (k: nat)
    requires IsRun(states, events) && w < |states(i).workers| && Busy(states(i).workers[w])
    requires i <= j && events(j).Work? && events(j).worker == w
    ensures i <= k && events(k).Work? && events(k).worker == w
    ensures w < |states(k).workers| && states(k).workers[w] == states(i).workers[w]
    decreases j - i
  {
    assert StepAt(states, events, i);
    if events(i).Work? && events(i).worker == w {
      k := i;
    } else {
      OthersLeavePhase(states(i), events(i), w);
      k := FirstAct(states, events, w, i + 1, j);
    }
  }

  /** A busy worker keeps its job or ends it. */
  lemma KeptOrEnded(s: State, w: nat, a: Action, serial: nat)
    requires Enabled(s, Work(w, a)) && Busy(s.workers[w])
    ensures var s' := ApplyWork(s, w, a);
            HeldBy(s'.workers[w], serial) + Ended(s'.ends, serial)
            == HeldBy(s.workers[w], serial) + Ended(s.ends, serial)
  {
    var s' := ApplyWork(s, w, a);
    WorkConserves(s, w, a, serial);
    OnlyOwnPhase(s, w, a);
    HeldUpdate(s.workers, w, s'.workers[w], serial);
    ChannelUntouched(s, w, a);
  }

  lemma ChannelUntouched(s: State, w: nat, a: Action)
    requires Enabled(s, Work(w, a)) && !a.Take?
    ensures ApplyWork(s, w, a).channel == s.channel && ApplyWork(s, w, a).rejecting == s.rejecting
  {
  }

  lemma HeldStep(s: State, w: nat, a: Action, serial: nat)
    requires Enabled(s, Work(w, a)) && RecordsFit(s) && HeldBy(s.workers[w], serial) == 1
    ensures var s' := ApplyWork(s, w, a);
            && |s'.workers| == |s.workers| && Weight(s'.workers[w]) < Weight(s.workers[w])
            && (HeldBy(s'.workers[w], serial) == 1 || Ended(s'.ends, serial) >= 1)
  {
    KeptOrEnded(s, w, a, serial);
    PhaseLowers(s, w, a);
    OnlyOwnPhase(s, w, a);
  }

  lemma HeldStepAt(states: nat -> State, events: nat -> Event, k: nat, w: nat, serial: nat)
    requires IsRun(states, events) && Inv(states(0)) && events(k).Work? && events(k).worker == w
    requires w < |states(k).workers| && HeldBy(states(k).workers[w], serial) == 1
    ensures w < |states(k + 1).workers| && Weight(states(k + 1).workers[w]) < Weight(states(k).workers[w])
    ensures HeldBy(states(k + 1).workers[w], serial) == 1 || Ended(states(k + 1).ends, serial) >= 1
  {
    assert StepAt(states, events, k);
    RunKeepsInv(states, events, k);
    HeldStep(states(k), w, events(k).action, serial);
  }

  /** A job that a worker holds ends, with or without Stop. */
  lemma {:induction false} HeldEnds(states: nat -> State, events: nat -> Event, i: nat, w: nat, serial: nat)
    returns (m: nat)
    requires IsRun(states, events) && EveryWorkerFair(states, events) && Inv(states(0))
    requires w < |states(i).workers| && HeldBy(states(i).workers[w], serial) == 1
    ensures i <= m && Ended(states(m).ends, serial) >= 1
    decreases Weight(states(i).workers[w])
  {
    assert ActsAtOrAfter(events, w, i);
    var j: nat :| i <= j && events(j).Work? && events(j).worker == w;
    var k := FirstAct(states, events, w, i, j);
    HeldStepAt(states, events, k, w, serial);
    if HeldBy(states(k + 1).workers[w], serial) == 1 {
      m := HeldEnds(states, events, k + 1, w, serial);
    } else {
      m := k + 1;
    }
  }

  // ---------- a job in the channel ----------

  predicate IsTake(e: Event) {
    e.Work? && e.action.Take?
  }

  /** Until somebody receives, a waiting job keeps its place. */
  lemma KeepsPlace(s: State, e: Event, p: nat)
    requires Enabled(s, e) && p < |s.channel| && !IsTake(e)
    ensures p < |Apply(s, e).channel| && Apply(s, e).channel[p] == s.channel[p]
  {
    if e.Work? {
      ChannelUntouched(s, e.worker, e.action);
    }
  }

  /** A worker that acts while jobs wait receives one, or comes closer to doing so. */
  lemma CloserToTake(s: State, w: nat, a: Action)
    requires RecordsFit(s) && Enabled(s, Work(w, a)) && s.channel != [] && !s.cancelled && !a.Take? && !a.Tick?
    ensures |ApplyWork(s, w, a).workers| == |s.workers|
    ensures Weight(ApplyWork(s, w, a).workers[w]) < Weight(s.workers[w])
  {
    OnlyOwnPhase(s, w, a);
    PhaseLowers(s, w, a);
  }

  lemma TakeAdvances(s: State, v: nat, p: nat)
    requires Enabled(s, Work(v, Take)) && p < |s.channel|
    ensures var s' := ApplyWork(s, v, Take);
            && |s'.workers| == |s.workers| && v < |s'.workers| && s'.workers[v] == Looking(s.channel[0])
            && (p > 0 ==> p - 1 < |s'.channel| && s'.channel[p - 1] == s.channel[p])
  {
  }

  /** The event is not a receive, and not worker w's: the worker stays where it is; if it is, it comes closer. */
  lemma WaitingStep(s: State, e: Event, p: nat, w: nat)
    requires Enabled(s, e) && RecordsFit(s) && !s.cancelled && p < |s.channel| && w < |s.workers|
    requires !IsTake(e) && !(e.Work? && e.action.Tick?)
    ensures var s' := Apply(s, e);
            && p < |s'.channel| && s'.channel[p] == s.channel[p] && |s'.workers| == |s.workers|
            && if e.Work? && e.worker == w then Weight(s'.workers[w]) < Weight(s.workers[w])
               else s'.workers[w] == s.workers[w]
  {
    KeepsPlace(s, e, p);
    if e.Work? && e.worker == w {
      CloserToTake(s, w, e.action);
    } else {
      OthersLeavePhase(s, e, w);
    }
  }

  lemma NextAct(states: nat -> State, events: nat -> Event, i: nat, w: nat) returns (j: nat)
    requires IsRun(states, events) && EveryWorkerFair(states, events) && NeverCancelled(states) && Inv(states(0))
    requires w < |states(i).workers|
    ensures i <= j && events(j).Work? && events(j).worker == w
  {
    RunKeepsInv(states, events, i);
    assert !states(i).cancelled;
    assert ActsAtOrAfter(events, w, i);
    j :| i <= j && events(j).Work? && events(j).worker == w;
  }

  lemma WaitingStepAt(states: nat -> State, events: nat -> Event, i: nat, p: nat, w: nat)
    requires IsRun(states, events) && TimerYields(states, events) && NeverCancelled(states) && Inv(states(0))
    requires p < |states(i).channel| && w < |states(i).workers| && !IsTake(events(i))
    ensures p < |states(i + 1).channel| && states(i + 1).channel[p] == states(i).channel[p]
    ensures w < |states(i + 1).workers|
    ensures if events(i).Work? && events(i).worker == w
            then Weight(states(i + 1).workers[w]) < Weight(states(i).workers[w])
            else states(i + 1).workers[w] == states(i).workers[w]
  {
    assert StepAt(states, events, i);
    RunKeepsInv(states, events, i);
    WaitingStep(states(i), events(i), p, w);
  }

  lemma TakeAdvancesAt(states: nat -> State, events: nat -> Event, i: nat, p: nat)
    requires IsRun(states, events) && p < |states(i).channel| && IsTake(events(i))
    ensures var v := events(i).worker;
            && v < |states(i + 1).workers| && states(i + 1).workers[v] == Looking(states(i).channel[0])
            && (p > 0 ==> p - 1 < |states(i + 1).channel| && states(i + 1).channel[p - 1] == states(i).channel[p])
  {
    assert StepAt(states, events, i);
    TakeAdvances(states(i), events(i).worker, p);
  }

  /** While a job waits, some worker receives: if no other is faster, worker w, whose next action is event j. */
  lemma {:induction false} NextTake(states: nat -> State, events: nat -> Event, i: nat, p: nat, w: nat, j: nat)
    returns (k: nat)
    requires IsRun(states, events) && EveryWorkerFair(states, events) && TimerYields(states, events)
    requires NeverCancelled(states) && Inv(states(0))
    requires p < |states(i).channel| && w < |states(i).workers|
    requires i <= j && events(j).Work? && events(j).worker == w
    ensures i <= k && IsTake(events(k))
    ensures p < |states(k).channel| && states(k).channel[p] == states(i).channel[p]
    decreases Weight(states(i).workers[w]), j - i
  {
    if IsTake(events(i)) {
      k := i;
    } else {
      WaitingStepAt(states, events, i, p, w);
      var j' := j;
      if events(i).Work? && events(i).worker == w {
        j' := NextAct(states, events, i + 1, w);
      }
      k := NextTake(states, events, i + 1, p, w, j');
    }
  }

  /** The job at place p of the channel is received. */
  lemma {:induction false} WaitingIsTaken(states: nat -> State, events: nat -> Event, i: nat, p: nat)
    returns (k: nat, v: nat)
    requires IsRun(states, events) && EveryWorkerFair(states, events) && TimerYields(states, events)
    requires NeverCancelled(states) && Inv(states(0))
    requires p < |states(i).channel| && states(i).workers != []
    ensures i <= k && v < |states(k).workers| && states(k).workers[v] == Looking(states(i).channel[p])
    decreases p
  {
    var j := NextAct(states, events, i, 0);
    var t := NextTake(states, events, i, p, 0, j);
    TakeAdvancesAt(states, events, t, p);
    if p == 0 {
      k, v := t + 1, events(t).worker;
    } else {
      k, v := WaitingIsTaken(states, events, t + 1, p - 1);
    }
  }

  // ---------- every accepted job ----------

  lemma {:induction false} PlaceOf(ts: seq<Task>, serial: nat) returns (p: nat)
    requires Count(ts, serial) >= 1
    ensures p < |ts| && ts[p].serial == serial
  {
    if ts[0].serial == serial {
      p := 0;
    } else {
      p := PlaceOf(ts[1..], serial);
      p := p + 1;
    }
  }

  lemma {:induction false} HolderOf(ws: seq<Phase>, serial: nat) returns (w: nat)
    requires Held(ws, serial) >= 1
    ensures w < |ws| && HeldBy(ws[w], serial) == 1
  {
    if HeldBy(ws[0], serial) == 1 {
      w := 0;
    } else {
      w := HolderOf(ws[1..], serial);
      w := w + 1;
    }
  }

  lemma {:induction false} CountedOnceAt(capacity: nat, workers: int, states: nat -> State, events: nat -> Event,
                                         i: nat, serial: nat)
    requires IsRun(states, events) && states(0) == Init(capacity, workers)
    ensures CountedOnce(states(i), serial) && |states(i).workers| == WorkerCount(workers)
  {
    if i == 0 {
      HeldAtStart(WorkerCount(workers), serial);
    } else {
      CountedOnceAt(capacity, workers, states, events, i - 1, serial);
      assert StepAt(states, events, i - 1);
      StepConserves(states(i - 1), events(i - 1), serial);
      SameWorkers(states(i - 1), events(i - 1));
    }
  }

  lemma SameWorkers(s: State, e: Event)
    requires Enabled(s, e)
    ensures |Apply(s, e).workers| == |s.workers|
  {
    if e.Work? {
      OnlyOwnPhase(s, e.worker, e.action);
    }
  }

  /** The pool never grows or shrinks: the configured number of workers, or 5 if that is not positive. */
  lemma PoolSize(capacity: nat, workers: int, es: seq<Event>)
    requires Possible(Init(capacity, workers), es)
    ensures |Run(Init(capacity, workers), es).workers| == if workers <= 0 then 5 else workers
  {
    PoolStays(Init(capacity, workers), es);
  }

  lemma {:induction false} PoolStays(s: State, es: seq<Event>)
    requires Possible(s, es)
    ensures |Run(s, es).workers| == |s.workers|
    decreases |es|
  {
    if es != [] {
      SameWorkers(s, es[0]);
      PoolStays(Apply(s, es[0]), es[1..]);
    }
  }

  lemma {:induction false} SubmittedGrows(states: nat -> State, events: nat -> Event, i: nat, j: nat)
    requires IsRun(states, events) && i <= j
    ensures states(i).submitted <= states(j).submitted
    decreases j - i
  {
    if i < j {
      assert StepAt(states, events, i);
      SubmittedGrows(states, events, i + 1, j);
    }
  }

  lemma AcceptedEnds(capacity: nat, workers: int, states: nat -> State, events: nat -> Event, i: nat, serial: nat)
    returns (m: nat)
    requires IsRun(states, events) && EveryWorkerFair(states, events) && TimerYields(states, events)
    requires NeverCancelled(states) && states(0) == Init(capacity, workers)
    requires serial < states(i).submitted && Count(states(i).rejecting, serial) == 0
    ensures i <= m && Ended(states(m).ends, serial) >= 1
  {
    CountedOnceAt(capacity, workers, states, events, i, serial);
    if Count(states(i).channel, serial) >= 1 {
      var p := PlaceOf(states(i).channel, serial);
      var k, v := WaitingIsTaken(states, events, i, p);
      m := HeldEnds(states, events, k, v, serial);
    } else if Held(states(i).workers, serial) >= 1 {
      var w := HolderOf(states(i).workers, serial);
      m := HeldEnds(states, events, i, w, serial);
    } else {
      m := i;
    }
  }

  /** In every fair run without Stop, each job whose Enqueue call has returned eventually ends, in exactly one
      way: it succeeds, is dead-lettered, is reported to a nil sink, or is skipped for its negative MaxRetry. */
  lemma EveryJobEnds(capacity: nat, workers: int, states: nat -> State, events: nat -> Event, i: nat, serial: nat)
    returns (m: nat)
    requires IsRun(states, events) && EveryWorkerFair(states, events) && TimerYields(states, events)
    requires NeverCancelled(states) && states(0) == Init(capacity, workers)
    requires serial < states(i).submitted && Count(states(i).rejecting, serial) == 0
    ensures i <= m
    ensures var e := states(m).ends;
            Count(e.succeeded, serial) + Count(LetterTasks(e.dead), serial)
            + Count(e.discarded, serial) + Count(e.skipped, serial) == 1
  {
    m := AcceptedEnds(capacity, workers, states, events, i, serial);
    SubmittedGrows(states, events, i, m);
    CountedOnceAt(capacity, workers, states, events, m, serial);
    RunKeepsInv(states, events, m);
    assert !states(m).cancelled;
  }
}
