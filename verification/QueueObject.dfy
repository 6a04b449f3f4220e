/**
 The Queue object of internal/queue/queue.go: its fields, the methods its callers use, and one pass of a
 worker's loop written as the loop it is. Each method is proved to perform events of QueueMachine, so the
 theorems about all event sequences cover it.
 */
module QueueObject {
  import opened Wrappers
  import opened QueueMachine

  /** The event is an action of worker w, or hands w a job directly. */
  predicate Touches(e: Event, w: nat) {
    (e.Work? && e.worker == w) || (e.Submit? && e.send == Handoff(w))
  }

  /** What the other goroutines do, and how selects and handlers turn out, during one pass of a worker. */
  datatype Schedule = Schedule(
    pick: Pick,
    outcome: nat -> Outcome,          // of attempt 0, 1, ...
    contextWins: nat -> bool,         // in the backoff select after attempt 0, 1, ...
    beforeSelect: seq<Event>,
    beforeLookup: seq<Event>,
    duringCall: nat -> seq<Event>,
    duringBackoff: nat -> seq<Event>,
    beforeReport: seq<Event>
  )

  datatype Pick = PickJob | PickTimer | PickContext

  lemma {:induction false} OthersLeaveWorker(s: State, es: seq<Event>, w: nat)
    requires Possible(s, es) && w < |s.workers|
    requires forall i :: 0 <= i < |es| ==> !Touches(es[i], w)
    ensures |Run(s, es).workers| == |s.workers| && Run(s, es).workers[w] == s.workers[w]
    decreases |es|
  {
    if es != [] {
      var s1 := Apply(s, es[0]);
      assert |s1.workers| == |s.workers| && s1.workers[w] == s.workers[w];
      OthersLeaveWorker(s1, es[1..], w);
    }
  }

  lemma RunOne(s: State, es: seq<Event>, e: Event)
    requires Possible(s, es) && Enabled(Run(s, es), e)
    ensures Possible(s, es + [e]) && Run(s, es + [e]) == Apply(Run(s, es), e)
  {
    assert [e][1..] == [];
    assert Possible(Run(s, es), [e]);
    RunAppend(s, es, [e]);
  }

  // ---------- what worker w itself does ----------

  /** The actions of worker w among the events. */
  function Own(es: seq<Event>, w: nat): seq<Action> {
    if es == [] then []
    else
      var e := es[|es| - 1];
      Own(es[..|es| - 1], w) + if e.Work? && e.worker == w then [e.action] else []
  }

  /** Appending an action of worker w to a run. */
  lemma Perform(s: State, es: seq<Event>, w: nat, a: Action)
    requires Possible(s, es) && Enabled(Run(s, es), Work(w, a))
    ensures Possible(s, es + [Work(w, a)]) && Run(s, es + [Work(w, a)]) == Apply(Run(s, es), Work(w, a))
    ensures Own(es + [Work(w, a)], w) == Own(es, w) + [a]
  {
    RunOne(s, es, Work(w, a));
    OwnSnoc(es, Work(w, a), w);
  }

  lemma OwnSnoc(es: seq<Event>, e: Event, w: nat)
    ensures Own(es + [e], w) == Own(es, w) + if e.Work? && e.worker == w then [e.action] else []
  {
    assert (es + [e])[..|es|] == es;
  }

  lemma {:induction false} OthersOwnNothing(before: seq<Event>, es: seq<Event>, w: nat)
    requires forall i :: 0 <= i < |es| ==> !Touches(es[i], w)
    ensures Own(before + es, w) == Own(before, w)
    decreases |es|
  {
    if es == [] {
      assert before + es == before;
    } else {
      var n := |es| - 1;
      OthersOwnNothing(before, es[..n], w);
      assert (before + es)[..|before| + n] == before + es[..n] && (before + es)[|before| + n] == es[n];
    }
  }

  predicate Admissible(s: State, es: seq<Event>, w: nat) {
    Possible(s, es) && forall i :: 0 <= i < |es| ==> !Touches(es[i], w)
  }

  /** The state after other goroutines have run the events, if these are possible and not worker w's. */
  function Interrupted(s: State, es: seq<Event>, w: nat): State {
    if Admissible(s, es, w) then Run(s, es) else s
  }

  function After(s: State, e: Event): State {
    if Enabled(s, e) then Apply(s, e) else s
  }

  /** The same for a receive, from a named state. */
  lemma PerformTake(s0: State, before: seq<Event>, s: State, w: nat) returns (es: seq<Event>)
    requires Possible(s0, before) && Run(s0, before) == s && Enabled(s, Work(w, Take))
    ensures es == before + [Work(w, Take)]
    ensures Possible(s0, es) && Run(s0, es) == After(s, Work(w, Take)) && Own(es, w) == Own(before, w) + [Take]
  {
    Perform(s0, before, w, Take);
    es := before + [Work(w, Take)];
  }

  /** n failed attempts, each followed by its whole backoff. */
  function Retries(outcome: nat -> Outcome, n: nat): seq<Action> {
    if n == 0 then [] else Retries(outcome, n - 1) + [HandlerEnds(outcome(n - 1))] + [BackoffOver]
  }

  function Ending(outcome: Outcome, returned: bool): seq<Action> {
    if returned then [BackoffCancelled] else if outcome.Ok? then [] else [Report]
  }

  /** After the actions so far, attempts 0 to last were made: all but the last failed, and after the last came
      nothing if it succeeded, the cancelled backoff, or the report when no attempt is left. */
  predicate AttemptsMade(soFar: seq<Action>, own: seq<Action>, last: nat, maxRetry: int, sched: Schedule,
                         returned: bool)
  {
    && last <= maxRetry
    && (forall k: nat :: k < last ==> !sched.outcome(k).Ok?)
    && own == soFar + Retries(sched.outcome, last) + [HandlerEnds(sched.outcome(last))]
              + Ending(sched.outcome(last), returned)
    && (if returned then !sched.outcome(last).Ok? && last < maxRetry && sched.contextWins(last)
        else sched.outcome(last).Ok? || last == maxRetry)
  }

  /** After the actions so far, attempts 0 to n - 1 failed and were waited for. */
  predicate Retried(soFar: seq<Action>, own: seq<Action>, n: nat, sched: Schedule) {
    && own == soFar + Retries(sched.outcome, n)
    && forall k: nat :: k < n ==> !sched.outcome(k).Ok?
  }

  lemma AnotherRetry(soFar: seq<Action>, own: seq<Action>, n: nat, sched: Schedule)
    requires Retried(soFar, own, n, sched) && !sched.outcome(n).Ok?
    ensures Retried(soFar, own + [HandlerEnds(sched.outcome(n))] + [BackoffOver], n + 1, sched)
  {
  }

  /** What a worker does with a received job, depending on the handlers at the lookup; last is the last attempt. */
  predicate Processed(soFar: seq<Action>, own: seq<Action>, job: Job, handlers: map<string, HandlerId>,
                      last: nat, sched: Schedule, returned: bool)
  {
    if job.kind !in handlers then own == soFar + [Lookup] + [Report] && !returned
    else if job.maxRetry < 0 then own == soFar + [Lookup] && !returned
    else AttemptsMade(soFar + [Lookup], own, last, job.maxRetry, sched, returned)
  }

  /** The handlers a worker sees that receives a job in state s. */
  function HandlersAtLookup(s: State, w: nat, sched: Schedule): map<string, HandlerId> {
    Interrupted(After(s, Work(w, Take)), sched.beforeLookup, w).handlers
  }

  /** What the second select and all that follows it do, from state s. */
  predicate Chosen(s: State, soFar: seq<Action>, own: seq<Action>, w: nat, last: nat, sched: Schedule,
                   returned: bool)
  {
    if sched.pick.PickJob? && s.channel != [] then
      Processed(soFar + [Take], own, s.channel[0].job, HandlersAtLookup(s, w, sched), last, sched, returned)
    else if sched.pick.PickContext? && s.cancelled then own == soFar + [SeeDone] && returned
    else own == soFar + [Tick] && !returned
  }

  /** What a pass from state s does: a cancelled context ends it at once, otherwise the select follows. */
  predicate Passed(s: State, own: seq<Action>, w: nat, last: nat, sched: Schedule, returned: bool) {
    var atSelect := Interrupted(After(s, Work(w, CheckContext)), sched.beforeSelect, w);
    if s.cancelled then own == [CheckContext] && returned
    else Chosen(atSelect, [CheckContext], own, w, last, sched, returned)
  }

  class Queue {
    const capacity: nat
    var inMemory: seq<Task>
    var workers: seq<Phase>
    var handlers: map<string, HandlerId>
    var dlq: Option<SinkId>
    var cancelled: bool
    var rejecting: seq<Task>
    var submitted: nat
    var accepted: seq<Task>
    var taken: seq<Task>
    var ends: Ends

    function View(): State
      reads this
    {
      State(capacity, inMemory, workers, handlers, dlq, cancelled, rejecting, submitted, accepted, taken, ends)
    }

    constructor (bufferSize: nat, configuredWorkers: int)
      ensures View() == Init(bufferSize, configuredWorkers)
    {
      capacity := bufferSize;
      inMemory, handlers, dlq, cancelled := [], map[], None, false;
      rejecting, submitted, accepted, taken := [], 0, [], [];
      ends := Ends([], [], [], [], []);
      workers := [];
      new;
      var count := if configuredWorkers <= 0 then 5 else configuredWorkers;
      for i := 0 to count
        invariant workers == seq(i, _ => Top)
        invariant View() == Init(bufferSize, configuredWorkers).(workers := workers)
      {
        workers := workers + [Top];
      }
    }

    method SetDLQ(sink: Option<SinkId>)
      modifies this
      ensures View() == Apply(old(View()), SetSink(sink))
    {
      dlq := sink;
    }

    method RegisterHandler(kind: string, handler: HandlerId)
      modifies this
      ensures View() == Apply(old(View()), Register(kind, handler))
    {
      handlers := handlers[kind := handler];
    }

    /** The part of Stop before the wait. */
    method CancelContext()
      modifies this
      ensures View() == Apply(old(View()), Cancel)
    {
      cancelled := true;
    }

    /** Enqueue with no Redis client: default the retry count, try the send, else report the full buffer.
        In the full case SetDLQ may run between the failed send and the reading of the sink. */
    method Enqueue(job: Job, receiver: Option<nat>, newSink: Option<Option<SinkId>>) returns (ghost es: seq<Event>)
      requires receiver.Some? ==> inMemory == [] && receiver.value < |workers| && workers[receiver.value].Selecting?
      modifies this
      ensures Possible(old(View()), es) && View() == Run(old(View()), es)
      ensures submitted == old(submitted) + 1
      ensures receiver.Some? ==>
                && receiver.value < |workers| && workers[receiver.value].Looking?
                && inMemory == old(inMemory) && ends == old(ends)
      ensures receiver.None? && |old(inMemory)| < capacity ==>
                inMemory == old(inMemory) + [Task(old(submitted), WithDefaultRetry(job), [], 0)] && ends == old(ends)
      ensures receiver.None? && |old(inMemory)| >= capacity ==>
                && inMemory == old(inMemory)
                && ends == Deliver(old(ends), Task(old(submitted), WithDefaultRetry(job), [], 0), BufferFull, dlq)
    {
      ghost var s0 := View();
      var stored := job;
      if stored.maxRetry == 0 {
        stored := stored.(maxRetry := 3);
      }
      var task := Task(submitted, stored, [], 0);
      if receiver.Some? {
        submitted, accepted, taken := submitted + 1, accepted + [task], taken + [task];
        workers := workers[receiver.value := Looking(task)];
        es := [Submit(job, Handoff(receiver.value))];
      } else if |inMemory| < capacity {
        submitted, inMemory, accepted := submitted + 1, inMemory + [task], accepted + [task];
        es := [Submit(job, Buffer)];
      } else {
        es := BufferIsFull(job, task, newSink);
      }
    }

    /** The default branch of the send: the caller reports the job instead. */
    method BufferIsFull(job: Job, task: Task, newSink: Option<Option<SinkId>>) returns (ghost es: seq<Event>)
      requires |inMemory| >= capacity && task == NewTask(View(), job)
      modifies this
      ensures Possible(old(View()), es) && View() == Run(old(View()), es)
      ensures submitted == old(submitted) + 1 && inMemory == old(inMemory)
      ensures ends == Deliver(old(ends), task, BufferFull, dlq)
    {
      ghost var s0 := View();
      submitted, rejecting := submitted + 1, rejecting + [task];
      es := [Submit(job, Full)];
      assert es[1..] == [] && View() == Run(s0, es);
      if newSink.Some? {
        SetDLQ(newSink.value);
        RunOne(s0, es, SetSink(newSink.value));
        es := es + [SetSink(newSink.value)];
      }
      RunOne(s0, es, ReadSink(|rejecting| - 1));
      es := es + [ReadSink(|rejecting| - 1)];
      RejectLast();
    }

    /** The caller that found the buffer full last reads the sink and reports to it. */
    method RejectLast()
      requires rejecting != []
      modifies this
      ensures View() == Apply(old(View()), ReadSink(|old(rejecting)| - 1))
    {
      var task := rejecting[|rejecting| - 1];
      var sink := dlq;
      rejecting := rejecting[..|rejecting| - 1];
      if sink.Some? {
        ends := ends.(dead := ends.dead + [Letter(sink.value, task, BufferFull)]);
      } else {
        ends := ends.(discarded := ends.discarded + [task]);
      }
    }

    /** Other goroutines run here: any possible events that are not worker w's. */
    method Interfere(w: nat, es: seq<Event>, ghost s0: State, ghost before: seq<Event>)
      returns (ghost after: seq<Event>)
      requires w < |workers| && Possible(s0, before) && View() == Run(s0, before)
      modifies this
      ensures Possible(s0, after) && View() == Run(s0, after)
      ensures before <= after && Own(after, w) == Own(before, w)
      ensures View() == Interrupted(old(View()), es, w)
      ensures |workers| == |old(workers)| && workers[w] == old(workers[w])
    {
      after := before;
      if Admissible(View(), es, w) {
        OthersLeaveWorker(View(), es, w);
        RunAppend(s0, before, es);
        CapacityFixed(View(), es);
        OthersOwnNothing(before, es, w);
        after := before + es;
        var s := Run(View(), es);
        inMemory, workers, handlers, dlq, cancelled := s.channel, s.workers, s.handlers, s.sink, s.cancelled;
        rejecting, submitted, accepted, taken, ends := s.rejecting, s.submitted, s.accepted, s.taken, s.ends;
      }
    }

    /** One pass of the worker loop, with the other goroutines interleaved anywhere. */
    method WorkOnce(w: nat, sched: Schedule) returns (ghost es: seq<Event>, returned: bool, ghost last: nat)
      requires w < |workers| && workers[w].Top?
      modifies this
      ensures Possible(old(View()), es) && View() == Run(old(View()), es)
      ensures es != [] && es[0] == Work(w, CheckContext)
      ensures Passed(old(View()), Own(es, w), w, last, sched, returned)
      ensures w < |workers| && workers[w] == (if returned then Returned else Top)
    {
      ghost var s0 := View();
      es, returned, last := [Work(w, CheckContext)], cancelled, 0;
      Perform(s0, [], w, CheckContext);
      assert [] + es == es && Own(es, w) == [CheckContext];
      PollContext(w);
      if !returned {
        es := Interfere(w, sched.beforeSelect, s0, es);
        assert View() == Interrupted(After(s0, Work(w, CheckContext)), sched.beforeSelect, w);
        es, returned, last := Select(w, sched, s0, es);
      }
    }

    /** The first select. */
    method PollContext(w: nat)
      requires w < |workers| && workers[w].Top?
      modifies this
      ensures View() == Apply(old(View()), Work(w, CheckContext))
    {
      workers := workers[w := if cancelled then Returned else Selecting];
    }

    /** The second select, between a job, the context and the timer. */
    method Select(w: nat, sched: Schedule, ghost s0: State, ghost before: seq<Event>)
      returns (ghost es: seq<Event>, returned: bool, ghost last: nat)
      requires w < |workers| && workers[w].Selecting?
      requires Possible(s0, before) && View() == Run(s0, before)
      modifies this
      ensures Possible(s0, es) && View() == Run(s0, es)
      ensures before <= es && Chosen(old(View()), Own(before, w), Own(es, w), w, last, sched, returned)
      ensures w < |workers| && workers[w] == (if returned then Returned else Top)
    {
      if sched.pick.PickJob? && inMemory != [] {
        es, returned, last := Receive(w, sched, s0, before);
      } else if sched.pick.PickContext? && cancelled {
        Perform(s0, before, w, SeeDone);
        es, returned, last := before + [Work(w, SeeDone)], true, 0;
        workers := workers[w := Returned];
      } else {
        Perform(s0, before, w, Tick);
        es, returned, last := before + [Work(w, Tick)], false, 0;
        workers := workers[w := Top];
      }
    }

    /** The branch of the select that receives a job. */
    method Receive(w: nat, sched: Schedule, ghost s0: State, ghost before: seq<Event>)
      returns (ghost es: seq<Event>, returned: bool, ghost last: nat)
      requires w < |workers| && workers[w].Selecting? && inMemory != []
      requires Possible(s0, before) && View() == Run(s0, before)
      modifies this
      ensures Possible(s0, es) && View() == Run(s0, es)
      ensures before <= es
      ensures Processed(Own(before, w) + [Take], Own(es, w), old(inMemory)[0].job,
                        HandlersAtLookup(old(View()), w, sched), last, sched, returned)
      ensures w < |workers| && workers[w] == (if returned then Returned else Top)
    {
      var job;
      es, job := TakeJob(w, s0, before);
      es := Interfere(w, sched.beforeLookup, s0, es);
      es, returned, last := Process(w, job, sched, s0, es);
    }

    method TakeJob(w: nat, ghost s0: State, ghost before: seq<Event>) returns (ghost es: seq<Event>, job: Task)
      requires w < |workers| && workers[w].Selecting? && inMemory != []
      requires Possible(s0, before) && View() == Run(s0, before)
      modifies this
      ensures Possible(s0, es) && View() == Run(s0, es)
      ensures before <= es && Own(es, w) == Own(before, w) + [Take]
      ensures View() == After(old(View()), Work(w, Take))
      ensures w < |workers| && workers[w] == Looking(job) && job == old(inMemory)[0]
    {
      es := PerformTake(s0, before, View(), w);
      job := TakeFirst(w);
    }

    method TakeFirst(w: nat) returns (job: Task)
      requires w < |workers| && workers[w].Selecting? && inMemory != []
      modifies this
      ensures View() == After(old(View()), Work(w, Take))
      ensures w < |workers| && workers[w] == Looking(job) && job == old(inMemory)[0]
    {
      job := inMemory[0];
      inMemory, taken := inMemory[1..], taken + [job];
      workers := workers[w := Looking(job)];
    }

    /** From the handler lookup to the end of the pass: the attempt loop and the report. */
    method Process(w: nat, received: Task, sched: Schedule, ghost s0: State, ghost before: seq<Event>)
      returns (ghost es: seq<Event>, returned: bool, ghost last: nat)
      requires w < |workers| && workers[w] == Looking(received)
      requires Possible(s0, before) && View() == Run(s0, before)
      modifies this
      ensures Possible(s0, es) && View() == Run(s0, es)
      ensures before <= es
      ensures Processed(Own(before, w), Own(es, w), received.job, old(handlers), last, sched, returned)
      ensures w < |workers| && workers[w] == (if returned then Returned else Top)
    {
      returned, last := false, 0;
      Perform(s0, before, w, Lookup);
      es := before + [Work(w, Lookup)];
      var p := LookUp(w, received);
      if p.Reporting? {
        es := ReportFailure(w, p.task, p.reason, p.sink, sched, s0, es);
      } else if p.Running? {
        es, returned, last := Attempts(w, p, sched, s0, es);
      }
    }

    /** Reads the handler and the sink under the lock; says whether there is anything to run or to report. */
    method LookUp(w: nat, received: Task) returns (p: Phase)
      requires w < |workers| && workers[w] == Looking(received)
      modifies this
      ensures View() == Apply(old(View()), Work(w, Lookup))
      ensures handlers == old(handlers) && w < |workers| && workers[w] == p
      ensures if received.job.kind !in handlers then p == Reporting(received, NoHandler(received.job.kind), dlq)
              else if received.job.maxRetry < 0 then p == Top
              else p == Running(received.(job := received.job.(attempts := 1)), 0, handlers[received.job.kind], dlq)
    {
      var job, sink := received, dlq;
      p := Top;
      if job.job.kind !in handlers {
        p := Reporting(job, NoHandler(job.job.kind), sink);
      } else if job.job.maxRetry < 0 {
        ends := ends.(skipped := ends.skipped + [job]);
      } else {
        p := Running(job.(job := job.job.(attempts := 1)), 0, handlers[job.job.kind], sink);
      }
      workers := workers[w := p];
    }

    /** The attempt loop, and the report when it ends with an error. */
    method Attempts(w: nat, first: Phase, sched: Schedule, ghost s0: State, ghost before: seq<Event>)
      returns (ghost es: seq<Event>, returned: bool, ghost last: nat)
      requires w < |workers| && workers[w] == first
      requires first.Running? && first.attempt == 0 && first.task.job.maxRetry >= 0
      requires Possible(s0, before) && View() == Run(s0, before)
      modifies this
      ensures Possible(s0, es) && View() == Run(s0, es)
      ensures before <= es
      ensures AttemptsMade(Own(before, w), Own(es, w), last, first.task.job.maxRetry, sched, returned)
      ensures w < |workers| && workers[w] == (if returned then Returned else Top)
    {
      es, returned, last := before, false, 0;
      var p := first;
      while true
        invariant w < |workers| && workers[w] == p && p.Running? && p.attempt == last
        invariant last <= p.task.job.maxRetry == first.task.job.maxRetry
        invariant Possible(s0, es) && View() == Run(s0, es)
        invariant before <= es && Retried(Own(before, w), Own(es, w), last, sched)
        decreases p.task.job.maxRetry - last
      {
        ghost var own := Own(es, w);
        var again;
        es, again, returned := Attempt(w, p, sched, s0, es);
        if !again {
          break;
        }
        AnotherRetry(Own(before, w), own, last, sched);
        p, last := workers[w], last + 1;
      }
    }

    /** One iteration of the attempt loop, with the report when it is the last one and fails. */
    method Attempt(w: nat, p: Phase, sched: Schedule, ghost s0: State, ghost before: seq<Event>)
      returns (ghost es: seq<Event>, again: bool, returned: bool)
      requires w < |workers| && workers[w] == p && p.Running? && p.attempt <= p.task.job.maxRetry
      requires Possible(s0, before) && View() == Run(s0, before)
      modifies this
      ensures Possible(s0, es) && View() == Run(s0, es)
      ensures before <= es && w < |workers|
      ensures var called := Own(before, w) + [HandlerEnds(sched.outcome(p.attempt))];
              Own(es, w) == called + if again then [BackoffOver] else Ending(sched.outcome(p.attempt), returned)
      ensures again || returned ==> !sched.outcome(p.attempt).Ok? && p.attempt < p.task.job.maxRetry
      ensures again ==> !returned && workers[w].Running? && workers[w].attempt == p.attempt + 1
                        && workers[w].task.job.maxRetry == p.task.job.maxRetry
      ensures returned ==> sched.contextWins(p.attempt) && workers[w] == Returned
      ensures !again && !returned ==>
                workers[w] == Top && (sched.outcome(p.attempt).Ok? || p.attempt == p.task.job.maxRetry)
    {
      var job, lastErr;
      es, job, lastErr := CallHandler(w, p, sched, s0, before);
      again, returned := false, false;
      if lastErr.Some? {
        if p.attempt < job.job.maxRetry {
          es, job, returned := Backoff(w, workers[w], sched, s0, es);
          again := !returned;
        } else {
          es := ReportFailure(w, job, HandlerFailed(lastErr.value), p.sink, sched, s0, es);
        }
      }
    }

    /** The handler call of one attempt, with its panic recovery, and what the loop does with the result. */
    method CallHandler(w: nat, p: Phase, sched: Schedule, ghost s0: State, ghost before: seq<Event>)
      returns (ghost es: seq<Event>, job: Task, lastErr: Option<Outcome>)
      requires w < |workers| && workers[w] == p && p.Running? && p.attempt <= p.task.job.maxRetry
      requires Possible(s0, before) && View() == Run(s0, before)
      modifies this
      ensures Possible(s0, es) && View() == Run(s0, es)
      ensures before <= es && Own(es, w) == Own(before, w) + [HandlerEnds(sched.outcome(p.attempt))]
      ensures job == p.task.(calls := p.task.calls + [Call(p.handler, p.task.job.attempts, sched.outcome(p.attempt))])
      ensures lastErr == if sched.outcome(p.attempt).Ok? then None else Some(sched.outcome(p.attempt))
      ensures w < |workers|
      ensures workers[w] == if lastErr.None? then Top
                            else if p.attempt < job.job.maxRetry then Pausing(job, p.attempt, p.handler, p.sink)
                            else Reporting(job, HandlerFailed(lastErr.value), p.sink)
    {
      es := Interfere(w, sched.duringCall(p.attempt), s0, before);
      var outcome := sched.outcome(p.attempt);
      Perform(s0, es, w, HandlerEnds(outcome));
      es := es + [Work(w, HandlerEnds(outcome))];
      job := p.task.(calls := p.task.calls + [Call(p.handler, p.task.job.attempts, outcome)]);
      lastErr := if outcome.Ok? then None else Some(outcome);
      if lastErr.None? {
        workers := workers[w := Top];
        ends := ends.(succeeded := ends.succeeded + [job]);
      } else if p.attempt < job.job.maxRetry {
        workers := workers[w := Pausing(job, p.attempt, p.handler, p.sink)];
      } else {
        workers := workers[w := Reporting(job, HandlerFailed(outcome), p.sink)];
      }
    }

    /** The select between the backoff timer and the context. */
    method Backoff(w: nat, p: Phase, sched: Schedule, ghost s0: State, ghost before: seq<Event>)
      returns (ghost es: seq<Event>, job: Task, stopped: bool)
      requires w < |workers| && workers[w] == p && p.Pausing?
      requires Possible(s0, before) && View() == Run(s0, before)
      modifies this
      ensures Possible(s0, es) && View() == Run(s0, es)
      ensures before <= es && Own(es, w) == Own(before, w) + [if stopped then BackoffCancelled else BackoffOver]
      ensures stopped == (sched.contextWins(p.attempt) && cancelled)
      ensures w < |workers| && job.job.maxRetry == p.task.job.maxRetry
      ensures workers[w] == if stopped then Returned else Running(job, p.attempt + 1, p.handler, p.sink)
      ensures !stopped ==> job.waited == p.task.waited + 5 * (p.attempt + 1) && job.job.attempts == p.attempt + 2
    {
      es := Interfere(w, sched.duringBackoff(p.attempt), s0, before);
      job := p.task;
      stopped := sched.contextWins(p.attempt) && cancelled;
      if stopped {
        Perform(s0, es, w, BackoffCancelled);
        es := es + [Work(w, BackoffCancelled)];
        workers := workers[w := Returned];
        ends := ends.(abandoned := ends.abandoned + [job]);
      } else {
        Perform(s0, es, w, BackoffOver);
        es := es + [Work(w, BackoffOver)];
        job := NextAttempt(w, p);
      }
    }

    /** The end of the wait and the start of the next iteration. */
    method NextAttempt(w: nat, p: Phase) returns (job: Task)
      requires w < |workers| && workers[w] == p && p.Pausing?
      modifies this
      ensures View() == Apply(old(View()), Work(w, BackoffOver))
      ensures w < |workers| && workers[w] == Running(job, p.attempt + 1, p.handler, p.sink)
      ensures job.job.maxRetry == p.task.job.maxRetry
      ensures job.waited == p.task.waited + 5 * (p.attempt + 1) && job.job.attempts == p.attempt + 2
    {
      job := p.task;
      job := job.(waited := job.waited + (p.attempt + 1) * 5, job := job.job.(attempts := p.attempt + 2));
      workers := workers[w := Running(job, p.attempt + 1, p.handler, p.sink)];
    }

    method ReportFailure(w: nat, job: Task, reason: Reason, sink: Option<SinkId>, sched: Schedule,
                         ghost s0: State, ghost before: seq<Event>)
      returns (ghost es: seq<Event>)
      requires w < |workers| && workers[w] == Reporting(job, reason, sink)
      requires Possible(s0, before) && View() == Run(s0, before)
      modifies this
      ensures Possible(s0, es) && View() == Run(s0, es)
      ensures before <= es && Own(es, w) == Own(before, w) + [Report]
      ensures w < |workers| && workers[w] == Top
    {
      es := Interfere(w, sched.beforeReport, s0, before);
      Perform(s0, es, w, Report);
      es := es + [Work(w, Report)];
      workers := workers[w := Top];
      if sink.Some? {
        ends := ends.(dead := ends.dead + [Letter(sink.value, job, reason)]);
      } else {
        ends := ends.(discarded := ends.discarded + [job]);
      }
    }
  }
}
