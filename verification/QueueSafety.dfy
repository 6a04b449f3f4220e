/** What every reachable state of the queue satisfies, whatever the schedule. */
module QueueSafety {
  import opened Wrappers
  import opened QueueMachine

  // ---------- where each submission is ----------

  /** How often a submission occurs in a list. */
  function Count(ts: seq<Task>, serial: nat): nat {
    if ts == [] then 0 else (if ts[0].serial == serial then 1 else 0) + Count(ts[1..], serial)
  }

  function LetterTasks(ls: seq<Letter>): seq<Task> {
    seq(|ls|, i requires 0 <= i < |ls| => ls[i].task)
  }

  function HeldBy(p: Phase, serial: nat): nat {
    if p.Top? || p.Selecting? || p.Returned? || p.task.serial != serial then 0 else 1
  }

  /** How many workers hold the submission. */
  function Held(ws: seq<Phase>, serial: nat): nat {
    if ws == [] then 0 else HeldBy(ws[0], serial) + Held(ws[1..], serial)
  }

  function Ended(e: Ends, serial: nat): nat {
    Count(e.succeeded, serial) + Count(LetterTasks(e.dead), serial) + Count(e.abandoned, serial)
    + Count(e.discarded, serial) + Count(e.skipped, serial)
  }

  /** Occurrences of a submission, over all the places it can be. */
  function Everywhere(s: State, serial: nat): nat {
    Count(s.channel, serial) + Count(s.rejecting, serial) + Held(s.workers, serial) + Ended(s.ends, serial)
  }

  function One(t: Task, serial: nat): nat {
    if t.serial == serial then 1 else 0
  }

  lemma {:induction false} CountAppend(ts: seq<Task>, us: seq<Task>, serial: nat)
    ensures Count(ts + us, serial) == Count(ts, serial) + Count(us, serial)
  {
    if ts == [] {
      assert ts + us == us;
    } else {
      CountAppend(ts[1..], us, serial);
      assert (ts + us)[1..] == ts[1..] + us;
    }
  }

  lemma CountRemove(ts: seq<Task>, k: nat, serial: nat)
    requires k < |ts|
    ensures Count(ts, serial) == Count(ts[..k] + ts[k + 1..], serial) + Count([ts[k]], serial)
  {
    assert ts == ts[..k] + ([ts[k]] + ts[k + 1..]);
    CountAppend(ts[..k], [ts[k]] + ts[k + 1..], serial);
    CountAppend([ts[k]], ts[k + 1..], serial);
    CountAppend(ts[..k], ts[k + 1..], serial);
  }

  lemma {:induction false} HeldUpdate(ws: seq<Phase>, w: nat, p: Phase, serial: nat)
    requires w < |ws|
    ensures Held(ws[w := p], serial) + HeldBy(ws[w], serial) == Held(ws, serial) + HeldBy(p, serial)
  {
    if w == 0 {
      assert ws[w := p][1..] == ws[1..];
    } else {
      HeldUpdate(ws[1..], w - 1, p, serial);
      assert ws[w := p][1..] == ws[1..][w - 1 := p];
    }
  }

  lemma {:induction false} HeldAtStart(n: nat, serial: nat)
    ensures Held(seq(n, _ => Top), serial) == 0
  {
    if n > 0 {
      HeldAtStart(n - 1, serial);
      assert seq(n, _ => Top)[1..] == seq(n - 1, _ => Top);
    }
  }

  lemma CountPush(ts: seq<Task>, t: Task, serial: nat)
    ensures Count(ts + [t], serial) == Count(ts, serial) + One(t, serial)
  {
    CountAppend(ts, [t], serial);
  }

  lemma DeliverAddsOne(e: Ends, task: Task, reason: Reason, sink: Option<SinkId>, serial: nat)
    ensures Ended(Deliver(e, task, reason, sink), serial) == Ended(e, serial) + One(task, serial)
  {
    CountPush(e.discarded, task, serial);
    CountPush(LetterTasks(e.dead), task, serial);
    if sink.Some? {
      assert LetterTasks(e.dead + [Letter(sink.value, task, reason)]) == LetterTasks(e.dead) + [task];
    }
  }

  /** A worker changes phase and the ends change with it: nothing is lost if the one makes up for the other. */
  lemma MoveConserves(s: State, w: nat, p: Phase, e: Ends, serial: nat)
    requires w < |s.workers|
    requires HeldBy(p, serial) + Ended(e, serial) == HeldBy(s.workers[w], serial) + Ended(s.ends, serial)
    ensures Everywhere(Goto(s, w, p).(ends := e), serial) == Everywhere(s, serial)
  {
    HeldUpdate(s.workers, w, p, serial);
  }

  lemma HandlerEndConserves(s: State, w: nat, outcome: Outcome, serial: nat)
    requires Enabled(s, Work(w, HandlerEnds(outcome)))
    ensures Everywhere(ApplyHandlerEnd(s, w, s.workers[w], outcome), serial) == Everywhere(s, serial)
  {
    var p := s.workers[w];
    var task := Record(p.task, p.handler, outcome);
    if outcome.Ok? {
      CountPush(s.ends.succeeded, task, serial);
      MoveConserves(s, w, Top, s.ends.(succeeded := s.ends.succeeded + [task]), serial);
    } else if p.attempt < p.task.job.maxRetry {
      HeldUpdate(s.workers, w, Pausing(task, p.attempt, p.handler, p.sink), serial);
    } else {
      HeldUpdate(s.workers, w, Reporting(task, HandlerFailed(outcome), p.sink), serial);
    }
  }

  lemma LookupConserves(s: State, w: nat, serial: nat)
    requires Enabled(s, Work(w, Lookup))
    ensures Everywhere(ApplyLookup(s, w, s.workers[w].task), serial) == Everywhere(s, serial)
  {
    var s' := ApplyLookup(s, w, s.workers[w].task);
    CountPush(s.ends.skipped, s.workers[w].task, serial);
    MoveConserves(s, w, s'.workers[w], s'.ends, serial);
  }

  /** A worker action moves the job it holds or takes, and never copies or loses one. */
  lemma WorkConserves(s: State, w: nat, a: Action, serial: nat)
    requires Enabled(s, Work(w, a))
    ensures Everywhere(ApplyWork(s, w, a), serial) == Everywhere(s, serial)
  {
    var p := s.workers[w];
    match a {
      case Lookup => LookupConserves(s, w, serial);
      case HandlerEnds(outcome) => HandlerEndConserves(s, w, outcome, serial);
      case Take =>
        HeldUpdate(s.workers, w, Looking(s.channel[0]), serial);
      case BackoffCancelled =>
        HeldUpdate(s.workers, w, Returned, serial);
        CountPush(s.ends.abandoned, p.task, serial);
      case Report =>
        HeldUpdate(s.workers, w, Top, serial);
        DeliverAddsOne(s.ends, p.task, p.reason, p.sink, serial);
      case _ => HeldUpdate(s.workers, w, ApplyWork(s, w, a).workers[w], serial);
    }
  }

  lemma SubmitAddsOne(s: State, job: Job, send: Send, serial: nat)
    requires Enabled(s, Submit(job, send))
    ensures Everywhere(ApplySubmit(s, job, send), serial)
            == Everywhere(s, serial) + (if serial == s.submitted then 1 else 0)
  {
    var task := NewTask(s, job);
    match send {
      case Buffer => CountPush(s.channel, task, serial);
      case Handoff(w) => HeldUpdate(s.workers, w, Looking(task), serial);
      case Full => CountPush(s.rejecting, task, serial);
    }
  }

  lemma ReadSinkConserves(s: State, k: nat, serial: nat)
    requires Enabled(s, ReadSink(k))
    ensures Everywhere(Apply(s, ReadSink(k)), serial) == Everywhere(s, serial)
  {
    CountRemove(s.rejecting, k, serial);
    DeliverAddsOne(s.ends, s.rejecting[k], BufferFull, s.sink, serial);
  }

  predicate CountedOnce(s: State, serial: nat) {
    Everywhere(s, serial) == if serial < s.submitted then 1 else 0
  }

  lemma StepConserves(s: State, e: Event, serial: nat)
    requires Enabled(s, e) && CountedOnce(s, serial)
    ensures CountedOnce(Apply(s, e), serial)
  {
    match e {
      case Submit(job, send) => SubmitAddsOne(s, job, send, serial);
      case ReadSink(k) => ReadSinkConserves(s, k, serial);
      case Work(w, a) => WorkConserves(s, w, a, serial);
      case _ =>
    }
  }

  lemma {:induction false} RunConserves(s: State, es: seq<Event>, serial: nat)
    requires Possible(s, es) && CountedOnce(s, serial)
    ensures CountedOnce(Run(s, es), serial)
    decreases |es|
  {
    if es != [] {
      StepConserves(s, es[0], serial);
      RunConserves(Apply(s, es[0]), es[1..], serial);
    }
  }

  /** Every submission is in exactly one of the eight places, and in it exactly once. */
  lemma ExactlyOnePlace(capacity: nat, workers: int, es: seq<Event>, serial: nat)
    requires Possible(Init(capacity, workers), es)
    ensures var s := Run(Init(capacity, workers), es);
            Count(s.channel, serial) + Count(s.rejecting, serial) + Held(s.workers, serial)
            + Count(s.ends.succeeded, serial) + Count(LetterTasks(s.ends.dead), serial)
            + Count(s.ends.abandoned, serial) + Count(s.ends.discarded, serial) + Count(s.ends.skipped, serial)
            == if serial < s.submitted then 1 else 0
  {
    HeldAtStart(WorkerCount(workers), serial);
    RunConserves(Init(capacity, workers), es, serial);
  }

  // ---------- what has been done to each submission ----------

  /** Calls 1, 2, ..., n were made, in that order, and all of them failed. */
  predicate FailedCalls(calls: seq<Call>, n: int) {
    |calls| == n && forall i :: 0 <= i < n ==> calls[i].attempts == i + 1 && !calls[i].outcome.Ok?
  }

  /** Total backoff after n failed attempts that were each followed by a wait. */
  function TotalPause(n: nat): nat {
    if n == 0 then 0 else TotalPause(n - 1) + Pause(n - 1)
  }

  lemma {:induction false} TotalPauseClosedForm(n: nat)
    ensures TotalPause(n) == 5 * n * (n + 1) / 2
  {
    if n > 0 {
      TotalPauseClosedForm(n - 1);
      assert 5 * n * (n + 1) == 5 * (n - 1) * n + 10 * n;
    }
  }

  predicate Untouched(t: Task) {
    t.calls == [] && t.waited == 0 && t.job.maxRetry != 0
  }

  /** The job stopped after n calls, all failed, the last one seen as Attempts == n. */
  predicate FailedSoFar(t: Task, n: nat) {
    && FailedCalls(t.calls, n)
    && t.job.attempts == n
    && 1 <= n <= t.job.maxRetry + 1
    && t.waited == TotalPause(n - 1)
  }

  predicate Exhausted(t: Task) {
    t.job.maxRetry >= 1 && FailedSoFar(t, t.job.maxRetry + 1)
  }

  /** The last call is the only one that returned nil. */
  predicate Succeeded(t: Task) {
    var n := |t.calls|;
    && 1 <= n <= t.job.maxRetry + 1
    && FailedCalls(t.calls[..n - 1], n - 1)
    && t.calls[n - 1].attempts == n && t.calls[n - 1].outcome.Ok?
    && t.job.attempts == n
    && t.waited == TotalPause(n - 1)
  }

  predicate Abandoned(t: Task) {
    |t.calls| <= t.job.maxRetry && FailedSoFar(t, |t.calls|)
  }

  predicate ReasonFits(t: Task, r: Reason) {
    match r
    case HandlerFailed(last) => Exhausted(t) && t.calls[t.job.maxRetry].outcome == last
    case NoHandler(kind) => Untouched(t) && t.job.kind == kind
    case BufferFull => Untouched(t)
  }

  predicate PhaseFits(p: Phase) {
    match p
    case Looking(t) => Untouched(t)
    case Running(t, n, _, _) =>
      && FailedCalls(t.calls, n) && n <= t.job.maxRetry && t.job.attempts == n + 1
      && t.waited == TotalPause(n) && t.job.maxRetry != 0
    case Pausing(t, n, _, _) => FailedSoFar(t, n + 1) && n < t.job.maxRetry
    case Reporting(t, r, _) => ReasonFits(t, r) && !r.BufferFull?
    case _ => true
  }

  predicate AllUntouched(ts: seq<Task>) {
    forall i :: 0 <= i < |ts| ==> Untouched(ts[i])
  }

  predicate WorkersFit(ws: seq<Phase>) {
    forall w :: 0 <= w < |ws| ==> PhaseFits(ws[w])
  }

  ghost predicate EndsFit(e: Ends) {
    && (forall t :: t in e.succeeded ==> Succeeded(t))
    && (forall l :: l in e.dead ==> ReasonFits(l.task, l.reason))
    && (forall t :: t in e.abandoned ==> Abandoned(t))
    && (forall t :: t in e.discarded ==> Untouched(t) || Exhausted(t))
    && (forall t :: t in e.skipped ==> Untouched(t) && t.job.maxRetry < 0)
  }

  /** Every submission's record fits the place it is in. */
  ghost predicate RecordsFit(s: State) {
    AllUntouched(s.channel) && AllUntouched(s.rejecting) && WorkersFit(s.workers) && EndsFit(s.ends)
  }

  lemma DeliverFits(e: Ends, task: Task, reason: Reason, sink: Option<SinkId>)
    requires EndsFit(e) && ReasonFits(task, reason)
    ensures EndsFit(Deliver(e, task, reason, sink))
  {
  }

  lemma SucceededFits(p: Phase)
    requires p.Running? && PhaseFits(p)
    ensures Succeeded(Record(p.task, p.handler, Ok))
  {
    assert Record(p.task, p.handler, Ok).calls[..p.attempt] == p.task.calls;
  }

  lemma HandlerEndFits(s: State, w: nat, outcome: Outcome)
    requires RecordsFit(s) && Enabled(s, Work(w, HandlerEnds(outcome)))
    ensures RecordsFit(ApplyHandlerEnd(s, w, s.workers[w], outcome))
  {
    var p := s.workers[w];
    assert PhaseFits(p);
    if outcome.Ok? {
      SucceededFits(p);
    }
  }

  lemma LookupFits(s: State, w: nat)
    requires RecordsFit(s) && Enabled(s, Work(w, Lookup))
    ensures RecordsFit(ApplyLookup(s, w, s.workers[w].task))
  {
    assert PhaseFits(s.workers[w]);
  }

  lemma WorkFits(s: State, w: nat, a: Action)
    requires RecordsFit(s) && Enabled(s, Work(w, a))
    ensures RecordsFit(ApplyWork(s, w, a))
  {
    var p := s.workers[w];
    assert PhaseFits(p);
    match a {
      case Lookup => LookupFits(s, w);
      case HandlerEnds(outcome) => HandlerEndFits(s, w, outcome);
      case Report => DeliverFits(s.ends, p.task, p.reason, p.sink);
      case _ =>
    }
  }

  lemma StepFits(s: State, e: Event)
    requires RecordsFit(s) && Enabled(s, e)
    ensures RecordsFit(Apply(s, e))
  {
    match e {
      case Work(w, a) => WorkFits(s, w, a);
      case ReadSink(k) => DeliverFits(s.ends, s.rejecting[k], BufferFull, s.sink);
      case _ =>
    }
  }

  // ---------- reachable states ----------

  /** No worker returns, and no job is abandoned, before Stop. */
  predicate StoppedFirst(s: State) {
    && (s.ends.abandoned != [] ==> s.cancelled)
    && forall w :: 0 <= w < |s.workers| && s.workers[w].Returned? ==> s.cancelled
  }

  lemma StepStoppedFirst(s: State, e: Event)
    requires StoppedFirst(s) && Enabled(s, e)
    ensures StoppedFirst(Apply(s, e))
  {
    match e {
      case Work(w, Lookup) =>
      case Work(w, HandlerEnds(_)) =>
      case Work(w, a) =>
      case _ =>
    }
  }

  lemma StepFifo(s: State, e: Event)
    requires s.accepted == s.taken + s.channel && |s.channel| <= s.capacity && Enabled(s, e)
    ensures var s' := Apply(s, e); s'.accepted == s'.taken + s'.channel && |s'.channel| <= s'.capacity
  {
    match e {
      case Work(w, Take) => assert s.channel == [s.channel[0]] + s.channel[1..];
      case _ =>
    }
  }

  /** FIFO, the bound on the buffer, and the attempt records. */
  ghost predicate Inv(s: State) {
    && s.accepted == s.taken + s.channel
    && |s.channel| <= s.capacity
    && RecordsFit(s)
    && StoppedFirst(s)
  }

  lemma StepInv(s: State, e: Event)
    requires Inv(s) && Enabled(s, e)
    ensures Inv(Apply(s, e))
  {
    StepFits(s, e);
    StepFifo(s, e);
    StepStoppedFirst(s, e);
  }

  lemma InitInv(capacity: nat, workers: int)
    ensures Inv(Init(capacity, workers))
  {
  }

  lemma {:induction false} RunInv(s: State, es: seq<Event>)
    requires Inv(s) && Possible(s, es)
    ensures Inv(Run(s, es))
    decreases |es|
  {
    if es != [] {
      StepInv(s, es[0]);
      RunInv(Apply(s, es[0]), es[1..]);
    }
  }

  /** The invariant holds after any sequence of events of any schedule. */
  lemma ReachableInv(capacity: nat, workers: int, es: seq<Event>)
    requires Possible(Init(capacity, workers), es)
    ensures Inv(Run(Init(capacity, workers), es))
  {
    InitInv(capacity, workers);
    RunInv(Init(capacity, workers), es);
  }

  /** First in, first out, and never more than the buffer holds. */
  lemma FifoAndBounded(capacity: nat, workers: int, es: seq<Event>)
    requires Possible(Init(capacity, workers), es)
    ensures var s := Run(Init(capacity, workers), es);
            s.accepted == s.taken + s.channel && |s.channel| <= capacity
  {
    ReachableInv(capacity, workers, es);
    CapacityFixed(Init(capacity, workers), es);
  }

  /** A job dead-lettered by its handler was called with Attempts 1, 2, ..., MaxRetry + 1, failed each
      time, and waited 5 * MaxRetry * (MaxRetry + 1) / 2 seconds in between. */
  lemma ExhaustionIsExact(capacity: nat, workers: int, es: seq<Event>, l: Letter)
    requires Possible(Init(capacity, workers), es)
    requires l in Run(Init(capacity, workers), es).ends.dead && l.reason.HandlerFailed?
    ensures var m := l.task.job.maxRetry;
            && m >= 1
            && FailedCalls(l.task.calls, m + 1)
            && l.task.job.attempts == m + 1
            && l.task.calls[m].outcome == l.reason.last
            && l.task.waited == 5 * m * (m + 1) / 2
  {
    ReachableInv(capacity, workers, es);
    TotalPauseClosedForm(l.task.job.maxRetry);
  }

  /** A success is the first one, and comes within MaxRetry + 1 attempts. */
  lemma SuccessIsFirst(capacity: nat, workers: int, es: seq<Event>, t: Task)
    requires Possible(Init(capacity, workers), es)
    requires t in Run(Init(capacity, workers), es).ends.succeeded
    ensures 1 <= |t.calls| <= t.job.maxRetry + 1
    ensures forall i :: 0 <= i < |t.calls| ==> t.calls[i].attempts == i + 1
    ensures forall i :: 0 <= i < |t.calls| ==> (t.calls[i].outcome.Ok? <==> i == |t.calls| - 1)
  {
    ReachableInv(capacity, workers, es);
    var n := |t.calls|;
    assert forall i :: 0 <= i < n - 1 ==> t.calls[i] == t.calls[..n - 1][i];
  }

  /** Jobs abandoned in backoff exist only after Stop; each failed at least once and had attempts left. */
  lemma AbandonedByStop(capacity: nat, workers: int, es: seq<Event>, t: Task)
    requires Possible(Init(capacity, workers), es)
    requires t in Run(Init(capacity, workers), es).ends.abandoned
    ensures Run(Init(capacity, workers), es).cancelled
    ensures 1 <= |t.calls| <= t.job.maxRetry && FailedCalls(t.calls, |t.calls|) && t.job.attempts == |t.calls|
  {
    ReachableInv(capacity, workers, es);
  }

  /** A dead letter for a full buffer or a missing handler is about a job no handler ever saw, and so is a
      skipped job; a job is skipped only when its MaxRetry is negative. */
  lemma UnattemptedEnds(capacity: nat, workers: int, es: seq<Event>)
    requires Possible(Init(capacity, workers), es)
    ensures var e := Run(Init(capacity, workers), es).ends;
            && (forall l :: l in e.dead && !l.reason.HandlerFailed? ==> l.task.calls == [])
            && (forall t :: t in e.skipped ==> t.calls == [] && t.job.maxRetry < 0)
  {
    ReachableInv(capacity, workers, es);
  }

  /** And conversely: no worker ever runs a job with a negative MaxRetry, and it neither succeeds nor is
      abandoned nor dead-lettered by a handler; wherever it ends, it ends without a call. */
  lemma NegativeRetryNeverRuns(capacity: nat, workers: int, es: seq<Event>)
    requires Possible(Init(capacity, workers), es)
    ensures var s := Run(Init(capacity, workers), es);
            && (forall w :: 0 <= w < |s.workers| && (s.workers[w].Running? || s.workers[w].Pausing?) ==>
                  s.workers[w].task.job.maxRetry >= 1)
            && (forall t :: t in s.ends.succeeded + s.ends.abandoned ==> t.job.maxRetry >= 0)
            && (forall l :: l in s.ends.dead && l.task.job.maxRetry < 0 ==>
                  !l.reason.HandlerFailed? && l.task.calls == [])
            && (forall t :: t in s.ends.discarded + s.ends.skipped && t.job.maxRetry < 0 ==> t.calls == [])
  {
    ReachableInv(capacity, workers, es);
    var s := Run(Init(capacity, workers), es);
    forall w | 0 <= w < |s.workers| && (s.workers[w].Running? || s.workers[w].Pausing?)
      ensures s.workers[w].task.job.maxRetry >= 1
    {
      assert PhaseFits(s.workers[w]);
    }
  }

  lemma RunFirst(s: State, e: Event, es: seq<Event>)
    requires Enabled(s, e) && Possible(Apply(s, e), es)
    ensures Possible(s, [e] + es) && Run(s, [e] + es) == Run(Apply(s, e), es)
  {
    assert ([e] + es)[1..] == es;
  }

  /** A worker takes such a job and is back at the top of its loop, without a call or a report. */
  lemma TakenAndSkipped(s: State, task: Task) returns (es: seq<Event>)
    requires s.workers == [Top] && s.channel == [task] && !s.cancelled
    requires task.job.kind in s.handlers && task.job.maxRetry < 0
    ensures Possible(s, es)
    ensures Run(s, es) == s.(channel := [], taken := s.taken + [task],
                             ends := s.ends.(skipped := s.ends.skipped + [task]))
  {
    var s1 := Apply(s, Work(0, CheckContext));
    var s2 := Apply(s1, Work(0, Take));
    assert s1.workers == [Selecting] && s2.workers == [Looking(task)];
    assert s2.channel == [];
    assert Apply(s2, Work(0, Lookup)).workers == [Top];
    es := [];
    RunFirst(s2, Work(0, Lookup), es);
    es := [Work(0, Lookup)] + es;
    RunFirst(s1, Work(0, Take), es);
    es := [Work(0, Take)] + es;
    RunFirst(s, Work(0, CheckContext), es);
    es := [Work(0, CheckContext)] + es;
  }

  /** It happens: with a handler registered for its type and whatever sink, the only job is skipped. */
  lemma SomeJobIsSkipped(sink: Option<SinkId>) returns (es: seq<Event>)
    ensures Possible(Init(1, 1), es)
    ensures var s := Run(Init(1, 1), es);
            && s.handlers == map["scan" := 0] && s.sink == sink && s.submitted == 1
            && s.ends == Ends([], [], [], [], [Task(0, Job("j", "scan", map[], 0, -1, 0), [], 0)])
  {
    var job := Job("j", "scan", map[], 0, -1, 0);
    var s1 := Apply(Init(1, 1), SetSink(sink));
    var s2 := Apply(s1, Register("scan", 0));
    var s3 := Apply(s2, Submit(job, Buffer));
    assert s3.workers == [Top] && s3.channel == [Task(0, job, [], 0)];
    es := TakenAndSkipped(s3, Task(0, job, [], 0));
    RunFirst(s2, Submit(job, Buffer), es);
    es := [Submit(job, Buffer)] + es;
    RunFirst(s1, Register("scan", 0), es);
    es := [Register("scan", 0)] + es;
    RunFirst(Init(1, 1), SetSink(sink), es);
    es := [SetSink(sink)] + es;
  }
}
