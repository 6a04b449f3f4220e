/**
 The in-memory job queue of internal/queue/queue.go as a step machine.

 One event is one atomic action of the Go program: an Enqueue call's non-blocking send, a
 caller that found the buffer full reading the sink, a registration, the cancellation done
 by Stop, or one action of one worker goroutine. Any interleaving of the goroutines is a
 sequence of events, so a statement about all sequences of events is a statement about all
 schedules.
 */
module QueueMachine {
  import opened Wrappers

  type SinkId = nat
  type HandlerId = nat

  /** In Go the payload is a map that the caller, the channel, every attempt and the sink share by reference. Here it
      is a value: nobody writes into it after the Enqueue call. */
  datatype Job = Job(id: string, kind: string, payload: map<string, string>,
                     attempts: int, maxRetry: int, priority: int)

  /** How one handler call ends; a panic is recovered into an error. */
  datatype Outcome = Ok | Error(message: string) | Panic(message: string)

  /** A call of a handler: the Attempts value it saw, and how it ended. */
  datatype Call = Call(handler: HandlerId, attempts: int, outcome: Outcome)

  /** One Enqueue call: its serial number, the job value, and what has happened to it so far.
      Go passes the job by value from the caller to the channel to a worker; the record of
      calls and waits travels with it. */
  datatype Task = Task(serial: nat, job: Job, calls: seq<Call>, waited: nat)

  datatype Reason = BufferFull | NoHandler(kind: string) | HandlerFailed(last: Outcome)

  datatype Letter = Letter(sink: SinkId, task: Task, reason: Reason)

  /** Where a worker goroutine stands in its loop. */
  datatype Phase =
    | Top                                    // before the first select
    | Selecting                              // in the second select
    | Looking(task: Task)                    // took a job, before the read lock
    | Running(task: Task, attempt: nat, handler: HandlerId, sink: Option<SinkId>)
    | Pausing(task: Task, attempt: nat, handler: HandlerId, sink: Option<SinkId>)
    | Reporting(task: Task, reason: Reason, sink: Option<SinkId>)
    | Returned

  datatype State = State(
    capacity: nat,
    channel: seq<Task>,
    workers: seq<Phase>,
    handlers: map<string, HandlerId>,
    sink: Option<SinkId>,
    cancelled: bool,
    rejecting: seq<Task>,      // callers that found the buffer full and have not read the sink yet
    submitted: nat,            // Enqueue calls so far; also the next serial number
    accepted: seq<Task>,       // every successful send, in order
    taken: seq<Task>,          // every receive, in order
    ends: Ends
  )

  /** The ways a submission can end. */
  datatype Ends = Ends(
    succeeded: seq<Task>,
    dead: seq<Letter>,
    abandoned: seq<Task>,      // left in backoff when Stop was called
    discarded: seq<Task>,      // reported to a nil sink
    skipped: seq<Task>         // negative MaxRetry: the attempt loop runs zero times
  )

  datatype Send = Buffer | Handoff(receiver: nat) | Full

  /** A choice made by a worker, or by what the worker waits for. */
  datatype Action =
    | CheckContext             // first select: the context is polled
    | Take | Tick | SeeDone    // second select: a job, the one-second timer, the context
    | Lookup
    | HandlerEnds(outcome: Outcome)
    | BackoffOver | BackoffCancelled
    | Report

  datatype Event =
    | Submit(job: Job, send: Send)
    | ReadSink(caller: nat)
    | SetSink(sink: Option<SinkId>)
    | Register(kind: string, handler: HandlerId)
    | Cancel
    | Work(worker: nat, action: Action)

  function WorkerCount(configured: int): nat {
    if configured <= 0 then 5 else configured
  }

  function Init(capacity: nat, configuredWorkers: int): State {
    State(capacity, [], seq(WorkerCount(configuredWorkers), _ => Top), map[], None, false, [], 0, [], [],
          Ends([], [], [], [], []))
  }

  function WithDefaultRetry(job: Job): Job {
    if job.maxRetry == 0 then job.(maxRetry := 3) else job
  }

  function NewTask(s: State, job: Job): Task {
    Task(s.submitted, WithDefaultRetry(job), [], 0)
  }

  /** Start of an iteration of the attempt loop: Attempts is set before the handler is called. */
  function StartAttempt(task: Task, attempt: nat, handler: HandlerId, sink: Option<SinkId>): Phase {
    Running(task.(job := task.job.(attempts := attempt + 1)), attempt, handler, sink)
  }

  function Record(task: Task, handler: HandlerId, outcome: Outcome): Task {
    task.(calls := task.calls + [Call(handler, task.job.attempts, outcome)])
  }

  /** Seconds of backoff after failed attempt number attempt (counted from 0). */
  function Pause(attempt: nat): nat {
    (attempt + 1) * 5
  }

  predicate WorkEnabled(s: State, p: Phase, a: Action) {
    match a
    case CheckContext => p.Top?
    case Take => p.Selecting? && s.channel != []
    case Tick => p.Selecting?
    case SeeDone => p.Selecting? && s.cancelled
    case Lookup => p.Looking?
    case HandlerEnds(_) => p.Running?
    case BackoffOver => p.Pausing?
    case BackoffCancelled => p.Pausing? && s.cancelled
    case Report => p.Reporting?
  }

  predicate Enabled(s: State, e: Event) {
    match e
    case Submit(_, Buffer) => |s.channel| < s.capacity
    case Submit(_, Handoff(w)) => s.channel == [] && w < |s.workers| && s.workers[w].Selecting?
    case Submit(_, Full) => |s.channel| >= s.capacity
    case ReadSink(k) => k < |s.rejecting|
    case SetSink(_) => true
    case Register(_, _) => true
    case Cancel => true
    case Work(w, a) => w < |s.workers| && WorkEnabled(s, s.workers[w], a)
  }

  /** A sink call, or the silent drop when the sink that was read is nil. */
  function Deliver(e: Ends, task: Task, reason: Reason, sink: Option<SinkId>): Ends {
    match sink
    case Some(k) => e.(dead := e.dead + [Letter(k, task, reason)])
    case None => e.(discarded := e.discarded + [task])
  }

  function Goto(s: State, w: nat, p: Phase): State
    requires w < |s.workers|
  {
    s.(workers := s.workers[w := p])
  }

  function ApplyLookup(s: State, w: nat, task: Task): State
    requires w < |s.workers|
  {
    if task.job.kind !in s.handlers then
      Goto(s, w, Reporting(task, NoHandler(task.job.kind), s.sink))
    else if task.job.maxRetry < 0 then
      Goto(s, w, Top).(ends := s.ends.(skipped := s.ends.skipped + [task]))
    else
      Goto(s, w, StartAttempt(task, 0, s.handlers[task.job.kind], s.sink))
  }

  /** What follows a handler call: done, back off, or give up. */
  function ApplyHandlerEnd(s: State, w: nat, p: Phase, outcome: Outcome): State
    requires w < |s.workers| && p.Running?
  {
    var task := Record(p.task, p.handler, outcome);
    if outcome.Ok? then
      Goto(s, w, Top).(ends := s.ends.(succeeded := s.ends.succeeded + [task]))
    else if p.attempt < p.task.job.maxRetry then
      Goto(s, w, Pausing(task, p.attempt, p.handler, p.sink))
    else
      Goto(s, w, Reporting(task, HandlerFailed(outcome), p.sink))
  }

  function ApplyWork(s: State, w: nat, a: Action): State
    requires Enabled(s, Work(w, a))
  {
    var p := s.workers[w];
    match a
    case CheckContext => Goto(s, w, if s.cancelled then Returned else Selecting)
    case Take =>
      Goto(s, w, Looking(s.channel[0])).(channel := s.channel[1..], taken := s.taken + [s.channel[0]])
    case Tick => Goto(s, w, Top)
    case SeeDone => Goto(s, w, Returned)
    case Lookup => ApplyLookup(s, w, p.task)
    case HandlerEnds(outcome) => ApplyHandlerEnd(s, w, p, outcome)
    case BackoffOver =>
      var rested := p.task.(waited := p.task.waited + Pause(p.attempt));
      Goto(s, w, StartAttempt(rested, p.attempt + 1, p.handler, p.sink))
    case BackoffCancelled =>
      Goto(s, w, Returned).(ends := s.ends.(abandoned := s.ends.abandoned + [p.task]))
    case Report =>
      Goto(s, w, Top).(ends := Deliver(s.ends, p.task, p.reason, p.sink))
  }

  function ApplySubmit(s: State, job: Job, send: Send): State
    requires Enabled(s, Submit(job, send))
  {
    var task := NewTask(s, job);
    var s' := s.(submitted := s.submitted + 1);
    match send
    case Buffer => s'.(channel := s.channel + [task], accepted := s.accepted + [task])
    case Handoff(w) =>
      Goto(s', w, Looking(task)).(accepted := s.accepted + [task], taken := s.taken + [task])
    case Full => s'.(rejecting := s.rejecting + [task])
  }

  function Apply(s: State, e: Event): State
    requires Enabled(s, e)
  {
    match e
    case Submit(job, send) => ApplySubmit(s, job, send)
    case ReadSink(k) =>
      s.(rejecting := s.rejecting[..k] + s.rejecting[k + 1..],
         ends := Deliver(s.ends, s.rejecting[k], BufferFull, s.sink))
    case SetSink(sink) => s.(sink := sink)
    case Register(kind, h) => s.(handlers := s.handlers[kind := h])
    case Cancel => s.(cancelled := true)
    case Work(w, a) => ApplyWork(s, w, a)
  }

  /** Every event of the sequence is enabled when its turn comes. */
  predicate Possible(s: State, es: seq<Event>)
    decreases |es|
  {
    es == [] || (Enabled(s, es[0]) && Possible(Apply(s, es[0]), es[1..]))
  }

  function Run(s: State, es: seq<Event>): State
    requires Possible(s, es)
    decreases |es|
  {
    if es == [] then s else Run(Apply(s, es[0]), es[1..])
  }

  lemma {:induction false} RunAppend(s: State, es: seq<Event>, more: seq<Event>)
    requires Possible(s, es) && Possible(Run(s, es), more)
    ensures Possible(s, es + more) && Run(s, es + more) == Run(Run(s, es), more)
    decreases |es|
  {
    if es == [] {
      assert es + more == more;
    } else {
      var s1 := Apply(s, es[0]);
      RunAppend(s1, es[1..], more);
      assert (es + more)[0] == es[0] && (es + more)[1..] == es[1..] + more;
    }
  }

  lemma {:induction false} RunSplit(s: State, es: seq<Event>, more: seq<Event>)
    requires Possible(s, es + more)
    ensures Possible(s, es) && Possible(Run(s, es), more) && Run(s, es + more) == Run(Run(s, es), more)
    decreases |es|
  {
    if es == [] {
      assert es + more == more;
    } else {
      assert (es + more)[0] == es[0] && (es + more)[1..] == es[1..] + more;
      RunSplit(Apply(s, es[0]), es[1..], more);
    }
  }

  lemma {:induction false} CapacityFixed(s: State, es: seq<Event>)
    requires Possible(s, es)
    ensures Run(s, es).capacity == s.capacity
    decreases |es|
  {
    if es != [] {
      CapacityFixed(Apply(s, es[0]), es[1..]);
    }
  }
}
