/** After Stop cancels the context every worker returns, so the wait in Stop ends. */
module QueueShutdown {
  import opened QueueMachine
  import opened QueueSafety

  /** Steps a worker can still take before it is back at the top of its loop, bounded from the attempts it
      has left. A worker in the second select has no such bound: it may still take a job with any MaxRetry. */
  function Weight(p: Phase): nat {
    match p
    case Returned => 0
    case Top => 1
    case Selecting => 0
    case Reporting(_, _, _) => 2
    case Pausing(t, n, _, _) => if n <= t.job.maxRetry then 2 * (t.job.maxRetry - n) + 2 else 0
    case Running(t, n, _, _) => if n <= t.job.maxRetry then 2 * (t.job.maxRetry - n) + 3 else 0
    case Looking(t) => if t.job.maxRetry >= 0 then 2 * t.job.maxRetry + 4 else 3
  }

  function SelectingCount(ws: seq<Phase>): nat {
    if ws == [] then 0 else (if ws[0].Selecting? then 1 else 0) + SelectingCount(ws[1..])
  }

  function TotalWeight(ws: seq<Phase>): nat {
    if ws == [] then 0 else Weight(ws[0]) + TotalWeight(ws[1..])
  }

  /** Lexicographic order on (workers in the second select, total weight). */
  predicate Below(vs: seq<Phase>, ws: seq<Phase>) {
    || SelectingCount(vs) < SelectingCount(ws)
    || (SelectingCount(vs) == SelectingCount(ws) && TotalWeight(vs) < TotalWeight(ws))
  }

  predicate AllReturned(s: State) {
    forall w :: 0 <= w < |s.workers| ==> s.workers[w].Returned?
  }

  lemma {:induction false} MeasureUpdate(ws: seq<Phase>, w: nat, p: Phase)
    requires w < |ws|
    ensures SelectingCount(ws[w := p]) + (if ws[w].Selecting? then 1 else 0)
            == SelectingCount(ws) + (if p.Selecting? then 1 else 0)
    ensures TotalWeight(ws[w := p]) + Weight(ws[w]) == TotalWeight(ws) + Weight(p)
  {
    if w == 0 {
      assert ws[w := p][1..] == ws[1..];
    } else {
      MeasureUpdate(ws[1..], w - 1, p);
      assert ws[w := p][1..] == ws[1..][w - 1 := p];
    }
  }

  lemma LookupLowers(s: State, w: nat)
    requires Enabled(s, Work(w, Lookup))
    ensures var p' := ApplyLookup(s, w, s.workers[w].task).workers[w];
            !p'.Selecting? && Weight(p') < Weight(s.workers[w])
  {
  }

  lemma HandlerEndLowers(s: State, w: nat, outcome: Outcome)
    requires Enabled(s, Work(w, HandlerEnds(outcome))) && s.workers[w].attempt <= s.workers[w].task.job.maxRetry
    ensures var p' := ApplyHandlerEnd(s, w, s.workers[w], outcome).workers[w];
            !p'.Selecting? && Weight(p') < Weight(s.workers[w])
  {
  }

  /** Outside the second select, every action brings a worker closer to the top of its loop, cancelled or not. */
  lemma PhaseLowers(s: State, w: nat, a: Action)
    requires RecordsFit(s) && Enabled(s, Work(w, a)) && !s.workers[w].Selecting?
    ensures Weight(ApplyWork(s, w, a).workers[w]) < Weight(s.workers[w])
    ensures ApplyWork(s, w, a).workers[w].Selecting? ==> !s.cancelled
  {
    assert PhaseFits(s.workers[w]);
    match a {
      case Lookup => LookupLowers(s, w);
      case HandlerEnds(outcome) => HandlerEndLowers(s, w, outcome);
      case _ =>
    }
  }

  lemma OnlyOwnPhase(s: State, w: nat, a: Action)
    requires Enabled(s, Work(w, a))
    ensures ApplyWork(s, w, a).workers == s.workers[w := ApplyWork(s, w, a).workers[w]]
  {
    match a {
      case Lookup =>
      case HandlerEnds(_) =>
      case _ =>
    }
  }

  /** After cancellation every action of every worker lowers the measure, whichever select branch is taken. */
  lemma WorkLowers(s: State, w: nat, a: Action)
    requires s.cancelled && RecordsFit(s) && Enabled(s, Work(w, a))
    ensures Below(Apply(s, Work(w, a)).workers, s.workers)
  {
    OnlyOwnPhase(s, w, a);
    MeasureUpdate(s.workers, w, ApplyWork(s, w, a).workers[w]);
    if !s.workers[w].Selecting? {
      PhaseLowers(s, w, a);
    }
  }

  /** Everybody else leaves the measure alone or lowers it (a send handed straight to a waiting worker). */
  lemma OthersDoNotRaise(s: State, e: Event)
    requires Enabled(s, e) && !e.Work?
    ensures Apply(s, e).workers == s.workers || Below(Apply(s, e).workers, s.workers)
  {
    if e.Submit? && e.send.Handoff? {
      MeasureUpdate(s.workers, e.send.receiver, Looking(NewTask(s, e.job)));
    }
  }

  /** After cancellation a worker that has not returned always has something it can do. */
  function NextAction(p: Phase): Action {
    match p
    case Top => CheckContext
    case Selecting => SeeDone
    case Looking(_) => Lookup
    case Running(_, _, _, _) => HandlerEnds(Ok)
    case Pausing(_, _, _, _) => BackoffCancelled
    case Reporting(_, _, _) => Report
    case Returned => CheckContext
  }

  lemma NeverStuck(s: State, w: nat)
    requires s.cancelled && w < |s.workers|
    ensures Enabled(s, Work(w, NextAction(s.workers[w]))) <==> !s.workers[w].Returned?
    ensures s.workers[w].Returned? ==> forall a :: !Enabled(s, Work(w, a))
  {
  }

  // ---------- unbounded runs ----------

  ghost predicate StepAt(states: nat -> State, events: nat -> Event, i: nat) {
    Enabled(states(i), events(i)) && states(i + 1) == Apply(states(i), events(i))
  }

  ghost predicate IsRun(states: nat -> State, events: nat -> Event) {
    forall i: nat :: StepAt(states, events, i)
  }

  ghost predicate WorkAtOrAfter(events: nat -> Event, i: nat) {
    exists j: nat :: i <= j && events(j).Work?
  }

  /** While some worker has not returned, some worker eventually acts: handlers and timers end. */
  ghost predicate Fair(states: nat -> State, events: nat -> Event) {
    forall i: nat :: !AllReturned(states(i)) ==> WorkAtOrAfter(events, i)
  }

  lemma {:induction false} RunKeepsInv(states: nat -> State, events: nat -> Event, i: nat)
    requires IsRun(states, events) && Inv(states(0))
    ensures Inv(states(i))
  {
    if i > 0 {
      RunKeepsInv(states, events, i - 1);
      assert StepAt(states, events, i - 1);
      StepInv(states(i - 1), events(i - 1));
    }
  }

  lemma {:induction false} StaysCancelled(states: nat -> State, events: nat -> Event, i: nat, j: nat)
    requires IsRun(states, events) && states(i).cancelled && i <= j
    ensures states(j).cancelled
    decreases j - i
  {
    if i < j {
      assert StepAt(states, events, i);
      StaysCancelled(states, events, i + 1, j);
    }
  }

  /** From a cancelled state, the next worker action at or before j leads to a smaller measure. */
  lemma {:induction false} LowerBy(states: nat -> State, events: nat -> Event, i: nat, j: nat)
    returns (k: nat)
    requires IsRun(states, events) && Inv(states(0)) && states(i).cancelled
    requires i <= j && events(j).Work?
    ensures i < k && Below(states(k).workers, states(i).workers)
    decreases j - i
  {
    RunKeepsInv(states, events, i);
    assert StepAt(states, events, i);
    if events(i).Work? {
      WorkLowers(states(i), events(i).worker, events(i).action);
      k := i + 1;
    } else {
      OthersDoNotRaise(states(i), events(i));
      if states(i + 1).workers == states(i).workers {
        StaysCancelled(states, events, i, i + 1);
        k := LowerBy(states, events, i + 1, j);
      } else {
        k := i + 1;
      }
    }
  }

  /** Stop ends: in every fair run, some time after the cancellation all workers have returned. */
  lemma {:induction false} StopEnds(states: nat -> State, events: nat -> Event, i: nat) returns (done: nat)
    requires IsRun(states, events) && Fair(states, events) && Inv(states(0)) && states(i).cancelled
    ensures i <= done && AllReturned(states(done))
    decreases SelectingCount(states(i).workers), TotalWeight(states(i).workers)
  {
    if AllReturned(states(i)) {
      done := i;
    } else {
      assert WorkAtOrAfter(events, i);
      var j: nat :| i <= j && events(j).Work?;
      var k := LowerBy(states, events, i, j);
      StaysCancelled(states, events, i, k);
      done := StopEnds(states, events, k);
    }
  }

  /** Once all workers have returned they stay returned, and the channel is never drained again. */
  lemma {:induction false} ReturnedForGood(s: State, es: seq<Event>)
    requires AllReturned(s) && Possible(s, es)
    ensures AllReturned(Run(s, es)) && Run(s, es).taken == s.taken && s.channel <= Run(s, es).channel
    decreases |es|
  {
    if es != [] {
      assert !es[0].Work?;
      ReturnedForGood(Apply(s, es[0]), es[1..]);
    }
  }
}
