/** What reaches the handlers and the sinks: the submitted jobs, in order, and no silent loss. */
module QueueDelivery {
  import opened Wrappers
  import opened QueueMachine
  import opened QueueSafety

  // ---------- jobs are taken in the order of their submission ----------

  predicate Ascending(ts: seq<Task>, bound: nat) {
    && (forall i, j :: 0 <= i < j < |ts| ==> ts[i].serial < ts[j].serial)
    && (forall i :: 0 <= i < |ts| ==> ts[i].serial < bound)
  }

  lemma StepAscending(s: State, e: Event)
    requires Ascending(s.accepted, s.submitted) && Enabled(s, e)
    ensures Ascending(Apply(s, e).accepted, Apply(s, e).submitted)
  {
    match e {
      case Submit(job, Buffer) =>
      case Submit(job, Handoff(_)) =>
      case Submit(job, Full) =>
      case _ => assert Apply(s, e).accepted == s.accepted;
    }
  }

  lemma {:induction false} RunAscending(s: State, es: seq<Event>)
    requires Ascending(s.accepted, s.submitted) && Possible(s, es)
    ensures Ascending(Run(s, es).accepted, Run(s, es).submitted)
    decreases |es|
  {
    if es != [] {
      StepAscending(s, es[0]);
      RunAscending(Apply(s, es[0]), es[1..]);
    }
  }

  /** Workers take jobs in the order in which they were submitted, and everything still in the channel was
      submitted after everything taken. */
  lemma TakenInSubmissionOrder(capacity: nat, workers: int, es: seq<Event>)
    requires Possible(Init(capacity, workers), es)
    ensures var s := Run(Init(capacity, workers), es);
            && (forall i, j :: 0 <= i < j < |s.taken| ==> s.taken[i].serial < s.taken[j].serial)
            && (forall i, j :: 0 <= i < |s.taken| && 0 <= j < |s.channel| ==> s.taken[i].serial < s.channel[j].serial)
  {
    FifoAndBounded(capacity, workers, es);
    RunAscending(Init(capacity, workers), es);
    var s := Run(Init(capacity, workers), es);
    forall i, j | 0 <= i < |s.taken| && 0 <= j < |s.channel| ensures s.taken[i].serial < s.channel[j].serial {
      assert s.accepted[i] == s.taken[i] && s.accepted[|s.taken| + j] == s.channel[j];
    }
    forall i, j | 0 <= i < j < |s.taken| ensures s.taken[i].serial < s.taken[j].serial {
      assert s.accepted[i] == s.taken[i] && s.accepted[j] == s.taken[j];
    }
  }

  // ---------- a job stays the job that was submitted ----------

  /** The jobs of the Enqueue calls, in order: entry k is the job with serial number k. */
  function Submitted(es: seq<Event>): seq<Job> {
    if es == [] then []
    else (if es[0].Submit? then [es[0].job] else []) + Submitted(es[1..])
  }

  /** The task carries the job that was submitted under its serial number: nothing but Attempts differs, and a
      MaxRetry of 0 has become 3. */
  predicate Genuine(t: Task, jobs: seq<Job>) {
    && t.serial < |jobs|
    && var j := jobs[t.serial];
       t.job == Job(j.id, j.kind, j.payload, t.job.attempts, if j.maxRetry == 0 then 3 else j.maxRetry, j.priority)
  }

  predicate AllGenuine(ts: seq<Task>, jobs: seq<Job>) {
    forall i :: 0 <= i < |ts| ==> Genuine(ts[i], jobs)
  }

  predicate GenuineAt(p: Phase, jobs: seq<Job>) {
    p.Top? || p.Selecting? || p.Returned? || Genuine(p.task, jobs)
  }

  predicate EndsGenuine(e: Ends, jobs: seq<Job>) {
    && AllGenuine(e.succeeded, jobs) && AllGenuine(e.abandoned, jobs) && AllGenuine(e.discarded, jobs)
    && AllGenuine(e.skipped, jobs) && forall i :: 0 <= i < |e.dead| ==> Genuine(e.dead[i].task, jobs)
  }

  predicate EverythingGenuine(s: State, jobs: seq<Job>) {
    && s.submitted == |jobs|
    && AllGenuine(s.channel, jobs) && AllGenuine(s.rejecting, jobs)
    && (forall w :: 0 <= w < |s.workers| ==> GenuineAt(s.workers[w], jobs))
    && EndsGenuine(s.ends, jobs)
  }

  lemma DeliverGenuine(e: Ends, task: Task, reason: Reason, sink: Option<SinkId>, jobs: seq<Job>)
    requires EndsGenuine(e, jobs) && Genuine(task, jobs)
    ensures EndsGenuine(Deliver(e, task, reason, sink), jobs)
  {
  }

  /** A worker in a new phase, with new ends, leaves the rest of the state as it was. */
  lemma MoveGenuine(s: State, w: nat, p: Phase, e: Ends, jobs: seq<Job>)
    requires EverythingGenuine(s, jobs) && w < |s.workers| && GenuineAt(p, jobs) && EndsGenuine(e, jobs)
    ensures EverythingGenuine(Goto(s, w, p).(ends := e), jobs)
  {
  }

  lemma LookupGenuine(s: State, w: nat, jobs: seq<Job>)
    requires EverythingGenuine(s, jobs) && Enabled(s, Work(w, Lookup))
    ensures EverythingGenuine(ApplyLookup(s, w, s.workers[w].task), jobs)
  {
    assert GenuineAt(s.workers[w], jobs);
    var s' := ApplyLookup(s, w, s.workers[w].task);
    assert GenuineAt(s'.workers[w], jobs) && EndsGenuine(s'.ends, jobs);
    MoveGenuine(s, w, s'.workers[w], s'.ends, jobs);
  }

  lemma HandlerEndGenuine(s: State, w: nat, outcome: Outcome, jobs: seq<Job>)
    requires EverythingGenuine(s, jobs) && Enabled(s, Work(w, HandlerEnds(outcome)))
    ensures EverythingGenuine(ApplyHandlerEnd(s, w, s.workers[w], outcome), jobs)
  {
    assert GenuineAt(s.workers[w], jobs);
    var s' := ApplyHandlerEnd(s, w, s.workers[w], outcome);
    assert GenuineAt(s'.workers[w], jobs) && EndsGenuine(s'.ends, jobs);
    MoveGenuine(s, w, s'.workers[w], s'.ends, jobs);
  }

  lemma TakeGenuine(s: State, w: nat, jobs: seq<Job>)
    requires EverythingGenuine(s, jobs) && Enabled(s, Work(w, Take))
    ensures EverythingGenuine(ApplyWork(s, w, Take), jobs)
  {
    assert Genuine(s.channel[0], jobs);
    MoveGenuine(s, w, Looking(s.channel[0]), s.ends, jobs);
  }

  lemma WorkGenuine(s: State, w: nat, a: Action, jobs: seq<Job>)
    requires EverythingGenuine(s, jobs) && Enabled(s, Work(w, a))
    ensures EverythingGenuine(ApplyWork(s, w, a), jobs)
  {
    var p := s.workers[w];
    assert GenuineAt(p, jobs);
    match a {
      case Take => TakeGenuine(s, w, jobs);
      case Lookup => LookupGenuine(s, w, jobs);
      case HandlerEnds(outcome) => HandlerEndGenuine(s, w, outcome, jobs);
      case Report => DeliverGenuine(s.ends, p.task, p.reason, p.sink, jobs);
      case _ => MoveGenuine(s, w, ApplyWork(s, w, a).workers[w], ApplyWork(s, w, a).ends, jobs);
    }
  }

  lemma StepGenuine(s: State, e: Event, jobs: seq<Job>)
    requires EverythingGenuine(s, jobs) && Enabled(s, e)
    ensures EverythingGenuine(Apply(s, e), jobs + if e.Submit? then [e.job] else [])
  {
    match e {
      case Work(w, a) =>
        WorkGenuine(s, w, a, jobs);
        assert jobs + [] == jobs;
      case ReadSink(k) =>
        DeliverGenuine(s.ends, s.rejecting[k], BufferFull, s.sink, jobs);
        assert jobs + [] == jobs;
      case Submit(job, send) => SubmitGenuine(s, job, send, jobs);
      case _ => assert jobs + [] == jobs;
    }
  }

  lemma SubmitGenuine(s: State, job: Job, send: Send, jobs: seq<Job>)
    requires EverythingGenuine(s, jobs) && Enabled(s, Submit(job, send))
    ensures EverythingGenuine(ApplySubmit(s, job, send), jobs + [job])
  {
    assert Genuine(NewTask(s, job), jobs + [job]);
    assert forall t: Task :: Genuine(t, jobs) ==> Genuine(t, jobs + [job]);
  }

  lemma {:induction false} RunGenuine(s: State, es: seq<Event>, jobs: seq<Job>)
    requires EverythingGenuine(s, jobs) && Possible(s, es)
    ensures EverythingGenuine(Run(s, es), jobs + Submitted(es))
    decreases |es|
  {
    if es == [] {
      assert jobs + [] == jobs;
    } else {
      var more := if es[0].Submit? then [es[0].job] else [];
      StepGenuine(s, es[0], jobs);
      RunGenuine(Apply(s, es[0]), es[1..], jobs + more);
      assert jobs + more + Submitted(es[1..]) == jobs + (more + Submitted(es[1..]));
    }
  }

  /** Wherever a job is, in the channel, at a worker, in a dead letter or finished, it is the submitted one. For the
      payload that is the identity of the map, and its contents when neither the caller nor a handler writes into it. */
  lemma JobsAreUnchanged(capacity: nat, workers: int, es: seq<Event>)
    requires Possible(Init(capacity, workers), es)
    ensures EverythingGenuine(Run(Init(capacity, workers), es), Submitted(es))
  {
    RunGenuine(Init(capacity, workers), es, []);
    assert [] + Submitted(es) == Submitted(es);
  }

  // ---------- which sinks are called ----------

  predicate SinkRead(p: Phase, allowed: Option<SinkId> -> bool) {
    match p
    case Running(_, _, _, sink) => allowed(sink)
    case Pausing(_, _, _, sink) => allowed(sink)
    case Reporting(_, _, sink) => allowed(sink)
    case _ => true
  }

  predicate ReportedTo(e: Ends, allowed: Option<SinkId> -> bool) {
    && (forall i :: 0 <= i < |e.dead| ==> allowed(Some(e.dead[i].sink)))
    && (e.discarded != [] ==> allowed(None))
  }

  /** Every sink that is installed, that a worker has read, or that was called is an allowed one; a discarded job
      was reported to the nil sink. */
  predicate SinksWithin(s: State, allowed: Option<SinkId> -> bool) {
    && allowed(s.sink)
    && (forall w :: 0 <= w < |s.workers| ==> SinkRead(s.workers[w], allowed))
    && ReportedTo(s.ends, allowed)
  }

  lemma DeliverReports(e: Ends, task: Task, reason: Reason, sink: Option<SinkId>, allowed: Option<SinkId> -> bool)
    requires ReportedTo(e, allowed) && allowed(sink)
    ensures ReportedTo(Deliver(e, task, reason, sink), allowed)
  {
    var e' := Deliver(e, task, reason, sink);
    forall i | 0 <= i < |e'.dead| ensures allowed(Some(e'.dead[i].sink)) {
      if i < |e.dead| {
        assert e'.dead[i] == e.dead[i];
      } else {
        assert sink == Some(e'.dead[i].sink);
      }
    }
  }

  lemma HandlerEndSinks(s: State, w: nat, outcome: Outcome, allowed: Option<SinkId> -> bool)
    requires SinksWithin(s, allowed) && Enabled(s, Work(w, HandlerEnds(outcome)))
    ensures SinksWithin(ApplyHandlerEnd(s, w, s.workers[w], outcome), allowed)
  {
    assert SinkRead(s.workers[w], allowed);
  }

  lemma WorkSinks(s: State, w: nat, a: Action, allowed: Option<SinkId> -> bool)
    requires SinksWithin(s, allowed) && Enabled(s, Work(w, a))
    ensures SinksWithin(ApplyWork(s, w, a), allowed)
  {
    var p := s.workers[w];
    assert SinkRead(p, allowed);
    match a {
      case Lookup =>
      case HandlerEnds(outcome) => HandlerEndSinks(s, w, outcome, allowed);
      case Report => DeliverReports(s.ends, p.task, p.reason, p.sink, allowed);
      case _ =>
    }
  }

  lemma StepSinks(s: State, e: Event, allowed: Option<SinkId> -> bool)
    requires SinksWithin(s, allowed) && Enabled(s, e) && (e.SetSink? ==> allowed(e.sink))
    ensures SinksWithin(Apply(s, e), allowed)
  {
    match e {
      case Work(w, a) => WorkSinks(s, w, a, allowed);
      case ReadSink(k) => DeliverReports(s.ends, s.rejecting[k], BufferFull, s.sink, allowed);
      case _ =>
    }
  }

  predicate Sets(es: seq<Event>, allowed: Option<SinkId> -> bool) {
    forall i :: 0 <= i < |es| && es[i].SetSink? ==> allowed(es[i].sink)
  }

  lemma {:induction false} RunSinks(s: State, es: seq<Event>, allowed: Option<SinkId> -> bool)
    requires SinksWithin(s, allowed) && Possible(s, es) && Sets(es, allowed)
    ensures SinksWithin(Run(s, es), allowed)
    decreases |es|
  {
    if es != [] {
      StepSinks(s, es[0], allowed);
      RunSinks(Apply(s, es[0]), es[1..], allowed);
    }
  }

  /** A dead letter goes only to a sink that was installed at some time. */
  lemma LettersGoToInstalledSinks(capacity: nat, workers: int, es: seq<Event>, l: Letter)
    requires Possible(Init(capacity, workers), es) && l in Run(Init(capacity, workers), es).ends.dead
    ensures SetSink(Some(l.sink)) in es
  {
    var allowed := (sink: Option<SinkId>) => sink.None? || SetSink(sink) in es;
    assert forall i :: 0 <= i < |es| ==> es[i] in es;
    RunSinks(Init(capacity, workers), es, allowed);
  }

  /** No job is anywhere. */
  predicate Idle(s: State) {
    && s.channel == [] && s.rejecting == [] && s.ends == Ends([], [], [], [], [])
    && forall w :: 0 <= w < |s.workers| ==> s.workers[w].Top? || s.workers[w].Selecting? || s.workers[w].Returned?
  }

  /** Workers may poll, handlers and sinks may be registered and Stop may be called, but without a submission
      there is no job. */
  lemma {:induction false} StaysIdle(s: State, es: seq<Event>)
    requires Idle(s) && Possible(s, es) && forall i :: 0 <= i < |es| ==> !es[i].Submit?
    ensures Idle(Run(s, es))
    decreases |es|
  {
    if es != [] {
      assert Idle(Apply(s, es[0]));
      StaysIdle(Apply(s, es[0]), es[1..]);
    }
  }

  lemma NothingDiscarded(capacity: nat, workers: int, pre: seq<Event>, sink: SinkId, es: seq<Event>)
    requires Possible(Init(capacity, workers), pre + ([SetSink(Some(sink))] + es))
    requires (forall i :: 0 <= i < |pre| ==> !pre[i].Submit?) && SetSink(None) !in es
    ensures Run(Init(capacity, workers), pre + ([SetSink(Some(sink))] + es)).ends.discarded == []
  {
    var installed := [SetSink(Some(sink))] + es;
    var allowed := (sink: Option<SinkId>) => sink.Some?;
    RunSplit(Init(capacity, workers), pre, installed);
    var s := Run(Init(capacity, workers), pre);
    StaysIdle(Init(capacity, workers), pre);
    assert installed[0] == SetSink(Some(sink)) && installed[1..] == es;
    assert forall i :: 0 <= i < |es| ==> es[i] in es;
    RunSinks(Apply(s, installed[0]), es, allowed);
  }

  /** With a sink installed before the first job and never removed, no job is dropped without a trace:
      each submission is waiting, held, succeeded, dead-lettered, abandoned by Stop, or skipped. */
  lemma SinkCatchesEverything(capacity: nat, workers: int, pre: seq<Event>, sink: SinkId, es: seq<Event>, serial: nat)
    requires Possible(Init(capacity, workers), pre + ([SetSink(Some(sink))] + es))
    requires (forall i :: 0 <= i < |pre| ==> !pre[i].Submit?) && SetSink(None) !in es
    ensures var s := Run(Init(capacity, workers), pre + ([SetSink(Some(sink))] + es));
            && s.ends.discarded == []
            && (serial < s.submitted ==>
                  Count(s.channel, serial) + Count(s.rejecting, serial) + Held(s.workers, serial)
                  + Count(s.ends.succeeded, serial) + Count(LetterTasks(s.ends.dead), serial)
                  + Count(s.ends.abandoned, serial) + Count(s.ends.skipped, serial) == 1)
  {
    NothingDiscarded(capacity, workers, pre, sink, es);
    ExactlyOnePlace(capacity, workers, pre + ([SetSink(Some(sink))] + es), serial);
  }
}
