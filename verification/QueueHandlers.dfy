/** Which handler runs a job and which sink hears of it, told from the events alone. */
module QueueHandlers {
  import opened Wrappers
  import opened QueueMachine
  import opened QueueSafety

  /** The handler registered last for a job type. */
  function Registered(es: seq<Event>, kind: string): Option<HandlerId> {
    if es == [] then None
    else
      var e := es[|es| - 1];
      if e.Register? && e.kind == kind then Some(e.handler) else Registered(es[..|es| - 1], kind)
  }

  /** The sink installed last. */
  function Installed(es: seq<Event>): Option<SinkId> {
    if es == [] then None
    else if es[|es| - 1].SetSink? then es[|es| - 1].sink
    else Installed(es[..|es| - 1])
  }

  predicate IsLookup(e: Event) {
    e.Work? && e.action.Lookup?
  }

  /** Event n is the last lookup of worker w. */
  predicate LastLookup(es: seq<Event>, w: nat, n: int) {
    && 0 <= n < |es| && es[n] == Work(w, Lookup)
    && forall i :: n < i < |es| ==> es[i] != Work(w, Lookup)
  }

  predicate CallsBy(t: Task, handler: Option<HandlerId>) {
    forall i :: 0 <= i < |t.calls| ==> handler == Some(t.calls[i].handler)
  }

  // ---------- what a worker has read ----------

  /** A running worker has the handler and the sink that were current at its lookup, and made all calls to that
      handler; a report names the sink of that time. */
  predicate ReadFrom(p: Phase, seen: seq<Event>) {
    match p
    case Running(t, _, h, sink) =>
      Registered(seen, t.job.kind) == Some(h) && CallsBy(t, Some(h)) && sink == Installed(seen)
    case Pausing(t, _, h, sink) =>
      Registered(seen, t.job.kind) == Some(h) && CallsBy(t, Some(h)) && sink == Installed(seen)
    case Reporting(t, reason, sink) =>
      && sink == Installed(seen) && CallsBy(t, Registered(seen, t.job.kind))
      && (reason.NoHandler? <==> Registered(seen, t.job.kind).None?)
    case _ => true
  }

  predicate PastLookup(p: Phase) {
    p.Running? || p.Pausing? || p.Reporting?
  }

  ghost predicate PhaseRead(p: Phase, es: seq<Event>, w: nat) {
    && (p.Looking? ==> p.task.calls == [])
    && (PastLookup(p) ==> exists n :: LastLookup(es, w, n) && ReadFrom(p, es[..n]))
  }

  // ---------- what an end goes back to ----------

  /** The task was looked up at event n, and every call was to the handler registered then. */
  predicate CalledFrom(t: Task, es: seq<Event>, n: int) {
    && 0 <= n < |es| && IsLookup(es[n])
    && Registered(es[..n], t.job.kind).Some? && CallsBy(t, Registered(es[..n], t.job.kind))
  }

  /** Event n read the sink: the lookup of the job, or the reading by the caller that found the buffer full. */
  predicate LetterFrom(t: Task, reason: Reason, sink: Option<SinkId>, es: seq<Event>, n: int) {
    && 0 <= n < |es| && Installed(es[..n]) == sink
    && match reason
       case BufferFull => es[n].ReadSink?
       case NoHandler(_) => IsLookup(es[n]) && Registered(es[..n], t.job.kind).None?
       case HandlerFailed(_) => CalledFrom(t, es, n)
  }

  ghost predicate LetterRead(l: Letter, es: seq<Event>) {
    exists n :: LetterFrom(l.task, l.reason, Some(l.sink), es, n)
  }

  ghost predicate DiscardRead(t: Task, es: seq<Event>) {
    exists n, reason :: LetterFrom(t, reason, None, es, n)
  }

  ghost predicate CalledRead(t: Task, es: seq<Event>) {
    exists n :: CalledFrom(t, es, n)
  }

  ghost predicate EndsRead(e: Ends, es: seq<Event>) {
    && (forall i :: 0 <= i < |e.succeeded| ==> CalledRead(e.succeeded[i], es))
    && (forall i :: 0 <= i < |e.abandoned| ==> CalledRead(e.abandoned[i], es))
    && (forall i :: 0 <= i < |e.skipped| ==> CalledRead(e.skipped[i], es))
    && (forall i :: 0 <= i < |e.dead| ==> LetterRead(e.dead[i], es))
    && (forall i :: 0 <= i < |e.discarded| ==> DiscardRead(e.discarded[i], es))
  }

  // ---------- one more event ----------

  lemma RegisteredSnoc(es: seq<Event>, e: Event, kind: string)
    ensures Registered(es + [e], kind)
            == if e.Register? && e.kind == kind then Some(e.handler) else Registered(es, kind)
    ensures Installed(es + [e]) == if e.SetSink? then e.sink else Installed(es)
  {
    assert (es + [e])[..|es|] == es;
  }

  lemma PrefixStays(es: seq<Event>, e: Event, n: int)
    requires 0 <= n < |es|
    ensures (es + [e])[..n] == es[..n] && (es + [e])[n] == es[n]
  {
  }

  lemma LetterStays(t: Task, reason: Reason, sink: Option<SinkId>, es: seq<Event>, e: Event, n: int)
    requires LetterFrom(t, reason, sink, es, n)
    ensures LetterFrom(t, reason, sink, es + [e], n)
  {
    PrefixStays(es, e, n);
  }

  lemma CalledStays(t: Task, es: seq<Event>, e: Event)
    requires CalledRead(t, es)
    ensures CalledRead(t, es + [e])
  {
    var n :| CalledFrom(t, es, n);
    PrefixStays(es, e, n);
    assert CalledFrom(t, es + [e], n);
  }

  lemma EndsStay(ends: Ends, es: seq<Event>, e: Event)
    requires EndsRead(ends, es)
    ensures EndsRead(ends, es + [e])
  {
    forall i | 0 <= i < |ends.succeeded| ensures CalledRead(ends.succeeded[i], es + [e]) {
      CalledStays(ends.succeeded[i], es, e);
    }
    forall i | 0 <= i < |ends.abandoned| ensures CalledRead(ends.abandoned[i], es + [e]) {
      CalledStays(ends.abandoned[i], es, e);
    }
    forall i | 0 <= i < |ends.skipped| ensures CalledRead(ends.skipped[i], es + [e]) {
      CalledStays(ends.skipped[i], es, e);
    }
    forall i | 0 <= i < |ends.dead| ensures LetterRead(ends.dead[i], es + [e]) {
      var l := ends.dead[i];
      var n :| LetterFrom(l.task, l.reason, Some(l.sink), es, n);
      LetterStays(l.task, l.reason, Some(l.sink), es, e, n);
    }
    forall i | 0 <= i < |ends.discarded| ensures DiscardRead(ends.discarded[i], es + [e]) {
      var n, reason :| LetterFrom(ends.discarded[i], reason, None, es, n);
      LetterStays(ends.discarded[i], reason, None, es, e, n);
    }
  }

  lemma PhaseStays(p: Phase, es: seq<Event>, w: nat, e: Event)
    requires PhaseRead(p, es, w) && e != Work(w, Lookup)
    ensures PhaseRead(p, es + [e], w)
  {
    if PastLookup(p) {
      var n :| LastLookup(es, w, n) && ReadFrom(p, es[..n]);
      PrefixStays(es, e, n);
      assert LastLookup(es + [e], w, n);
    }
  }

  // ---------- the invariant ----------

  /** The maps of the queue are what the events say. */
  ghost predicate Current(s: State, es: seq<Event>) {
    && s.sink == Installed(es)
    && forall kind :: Registered(es, kind) == if kind in s.handlers then Some(s.handlers[kind]) else None
  }

  ghost predicate Reads(s: State, es: seq<Event>) {
    && Current(s, es)
    && (forall i :: 0 <= i < |s.channel| ==> s.channel[i].calls == [])
    && (forall w :: 0 <= w < |s.workers| ==> PhaseRead(s.workers[w], es, w))
    && EndsRead(s.ends, es)
  }

  lemma StepCurrent(s: State, es: seq<Event>, e: Event)
    requires Current(s, es) && Enabled(s, e)
    ensures Current(Apply(s, e), es + [e])
  {
    forall kind
      ensures Registered(es + [e], kind)
              == if e.Register? && e.kind == kind then Some(e.handler) else Registered(es, kind)
      ensures Installed(es + [e]) == if e.SetSink? then e.sink else Installed(es)
    {
      RegisteredSnoc(es, e, kind);
    }
    SameMaps(s, e);
  }

  lemma SameMaps(s: State, e: Event)
    requires Enabled(s, e)
    ensures Apply(s, e).handlers == if e.Register? then s.handlers[e.kind := e.handler] else s.handlers
    ensures Apply(s, e).sink == if e.SetSink? then e.sink else s.sink
    ensures |Apply(s, e).workers| == |s.workers|
  {
    match e {
      case Work(w, Lookup) =>
      case Work(w, HandlerEnds(_)) =>
      case Work(w, a) =>
      case _ =>
    }
  }

  lemma StepChannel(s: State, e: Event)
    requires Enabled(s, e) && forall i :: 0 <= i < |s.channel| ==> s.channel[i].calls == []
    ensures forall i :: 0 <= i < |Apply(s, e).channel| ==> Apply(s, e).channel[i].calls == []
  {
    match e {
      case Work(w, Lookup) =>
      case Work(w, HandlerEnds(_)) =>
      case Work(w, a) =>
      case _ =>
    }
  }

  /** A worker whose phase the event does not touch. */
  lemma UntouchedPhase(s: State, e: Event, v: nat)
    requires Enabled(s, e) && v < |s.workers|
    requires !(e.Work? && e.worker == v) && !(e.Submit? && e.send == Handoff(v))
    ensures v < |Apply(s, e).workers| && Apply(s, e).workers[v] == s.workers[v]
  {
    match e {
      case Work(w, Lookup) =>
      case Work(w, HandlerEnds(_)) =>
      case Work(w, a) =>
      case _ =>
    }
  }

  lemma LookupRead(s: State, es: seq<Event>, w: nat)
    requires Reads(s, es) && Enabled(s, Work(w, Lookup))
    ensures var s', es' := Apply(s, Work(w, Lookup)), es + [Work(w, Lookup)];
            PhaseRead(s'.workers[w], es', w) && EndsRead(s'.ends, es')
  {
    var e, task := Work(w, Lookup), s.workers[w].task;
    var es' := es + [e];
    assert es'[..|es|] == es;
    assert PhaseRead(s.workers[w], es, w);
    assert LastLookup(es', w, |es|);
    EndsStay(s.ends, es, e);
    assert ReadFrom(Apply(s, e).workers[w], es'[..|es|]);
    if task.job.kind in s.handlers {
      assert CalledFrom(task, es', |es|);
    }
  }

  lemma HandlerEndRead(s: State, es: seq<Event>, w: nat, outcome: Outcome)
    requires Reads(s, es) && Enabled(s, Work(w, HandlerEnds(outcome)))
    ensures var e := Work(w, HandlerEnds(outcome));
            PhaseRead(Apply(s, e).workers[w], es + [e], w) && EndsRead(Apply(s, e).ends, es + [e])
  {
    var e, p := Work(w, HandlerEnds(outcome)), s.workers[w];
    assert PhaseRead(p, es, w);
    var n :| LastLookup(es, w, n) && ReadFrom(p, es[..n]);
    var task := Record(p.task, p.handler, outcome);
    assert CallsBy(task, Some(p.handler));
    EndsStay(s.ends, es, e);
    PrefixStays(es, e, n);
    assert LastLookup(es + [e], w, n) && CalledFrom(task, es + [e], n);
    assert CalledRead(task, es + [e]);
    assert Apply(s, e).workers[w].Top? || ReadFrom(Apply(s, e).workers[w], (es + [e])[..n]);
  }

  lemma DeliverRead(ends: Ends, es: seq<Event>, t: Task, reason: Reason, sink: Option<SinkId>, n: int)
    requires EndsRead(ends, es) && LetterFrom(t, reason, sink, es, n)
    ensures EndsRead(Deliver(ends, t, reason, sink), es)
  {
    var ends' := Deliver(ends, t, reason, sink);
    forall i | 0 <= i < |ends'.dead| ensures LetterRead(ends'.dead[i], es) {
      if i < |ends.dead| {
        assert ends'.dead[i] == ends.dead[i];
      } else {
        assert ends'.dead[i] == Letter(sink.value, t, reason);
      }
    }
    forall i | 0 <= i < |ends'.discarded| ensures DiscardRead(ends'.discarded[i], es) {
      if i < |ends.discarded| {
        assert ends'.discarded[i] == ends.discarded[i];
      } else {
        assert ends'.discarded[i] == t && sink.None?;
      }
    }
  }

  lemma ReportRead(s: State, es: seq<Event>, w: nat)
    requires Reads(s, es) && Enabled(s, Work(w, Report)) && !s.workers[w].reason.BufferFull?
    ensures EndsRead(Apply(s, Work(w, Report)).ends, es + [Work(w, Report)])
  {
    var e, p := Work(w, Report), s.workers[w];
    assert PhaseRead(p, es, w);
    var n :| LastLookup(es, w, n) && ReadFrom(p, es[..n]);
    EndsStay(s.ends, es, e);
    assert LetterFrom(p.task, p.reason, p.sink, es, n);
    LetterStays(p.task, p.reason, p.sink, es, e, n);
    DeliverRead(s.ends, es + [e], p.task, p.reason, p.sink, n);
  }

  lemma AbandonRead(s: State, es: seq<Event>, w: nat)
    requires Reads(s, es) && Enabled(s, Work(w, BackoffCancelled))
    ensures EndsRead(Apply(s, Work(w, BackoffCancelled)).ends, es + [Work(w, BackoffCancelled)])
  {
    var e, p := Work(w, BackoffCancelled), s.workers[w];
    assert PhaseRead(p, es, w);
    var n :| LastLookup(es, w, n) && ReadFrom(p, es[..n]);
    assert CalledFrom(p.task, es, n);
    CalledStays(p.task, es, e);
    EndsStay(s.ends, es, e);
  }

  lemma BackoffRead(s: State, es: seq<Event>, w: nat)
    requires Reads(s, es) && Enabled(s, Work(w, BackoffOver))
    ensures PhaseRead(Apply(s, Work(w, BackoffOver)).workers[w], es + [Work(w, BackoffOver)], w)
  {
    var p := s.workers[w];
    assert PhaseRead(p, es, w);
    PhaseStays(p, es, w, Work(w, BackoffOver));
    var es' := es + [Work(w, BackoffOver)];
    var n :| LastLookup(es', w, n) && ReadFrom(p, es'[..n]);
    assert ReadFrom(Apply(s, Work(w, BackoffOver)).workers[w], es'[..n]);
  }

  predicate ReportsFit(s: State) {
    forall w :: 0 <= w < |s.workers| && s.workers[w].Reporting? ==> !s.workers[w].reason.BufferFull?
  }

  /** The worker that acts, and the ends. */
  lemma WorkRead(s: State, es: seq<Event>, w: nat, a: Action)
    requires Reads(s, es) && Enabled(s, Work(w, a)) && ReportsFit(s)
    ensures var e := Work(w, a);
            PhaseRead(Apply(s, e).workers[w], es + [e], w) && EndsRead(Apply(s, e).ends, es + [e])
  {
    assert PhaseRead(s.workers[w], es, w);
    match a {
      case Lookup => LookupRead(s, es, w);
      case HandlerEnds(outcome) => HandlerEndRead(s, es, w, outcome);
      case Report => ReportRead(s, es, w);
      case BackoffCancelled => AbandonRead(s, es, w);
      case BackoffOver =>
        BackoffRead(s, es, w);
        EndsStay(s.ends, es, Work(w, a));
      case _ => EndsStay(s.ends, es, Work(w, a));
    }
  }

  lemma OtherRead(s: State, es: seq<Event>, e: Event)
    requires Reads(s, es) && Enabled(s, e) && !e.Work?
    ensures EndsRead(Apply(s, e).ends, es + [e])
    ensures e.Submit? && e.send.Handoff? ==>
              PhaseRead(Apply(s, e).workers[e.send.receiver], es + [e], e.send.receiver)
  {
    EndsStay(s.ends, es, e);
    if e.ReadSink? {
      assert (es + [e])[..|es|] == es;
      assert LetterFrom(s.rejecting[e.caller], BufferFull, s.sink, es + [e], |es|);
      DeliverRead(s.ends, es + [e], s.rejecting[e.caller], BufferFull, s.sink, |es|);
    }
  }

  lemma StepReads(s: State, es: seq<Event>, e: Event)
    requires Reads(s, es) && Enabled(s, e) && ReportsFit(s)
    ensures Reads(Apply(s, e), es + [e])
  {
    StepCurrent(s, es, e);
    StepChannel(s, e);
    SameMaps(s, e);
    if e.Work? {
      WorkRead(s, es, e.worker, e.action);
    } else {
      OtherRead(s, es, e);
    }
    forall v | 0 <= v < |s.workers| ensures PhaseRead(Apply(s, e).workers[v], es + [e], v) {
      if !(e.Work? && e.worker == v) && !(e.Submit? && e.send == Handoff(v)) {
        UntouchedPhase(s, e, v);
        PhaseStays(s.workers[v], es, v, e);
      }
    }
  }

  lemma StepReportsFit(s: State, e: Event)
    requires ReportsFit(s) && Enabled(s, e)
    ensures ReportsFit(Apply(s, e))
  {
    match e {
      case Work(w, Lookup) =>
      case Work(w, HandlerEnds(_)) =>
      case Work(w, a) =>
      case _ =>
    }
  }

  lemma {:induction false} RunReads(capacity: nat, workers: int, es: seq<Event>)
    requires Possible(Init(capacity, workers), es)
    ensures Reads(Run(Init(capacity, workers), es), es) && ReportsFit(Run(Init(capacity, workers), es))
    decreases |es|
  {
    if es != [] {
      var front, e := es[..|es| - 1], es[|es| - 1];
      assert es == front + [e];
      RunSplit(Init(capacity, workers), front, [e]);
      assert [e][1..] == [];
      RunReads(capacity, workers, front);
      StepReads(Run(Init(capacity, workers), front), front, e);
      StepReportsFit(Run(Init(capacity, workers), front), e);
    }
  }

  /** A worker that runs a job, or waits to run it again, uses the handler that was registered last for the job's type
      when the worker looked it up, however often handlers were replaced since, and made every call to it; the sink
      it will report to is the one installed last at that time. */
  lemma RunsRegisteredHandler(capacity: nat, workers: int, es: seq<Event>, w: nat) returns (n: nat)
    requires Possible(Init(capacity, workers), es) && w < |Run(Init(capacity, workers), es).workers|
    requires var p := Run(Init(capacity, workers), es).workers[w]; p.Running? || p.Pausing?
    ensures var p := Run(Init(capacity, workers), es).workers[w];
            && n < |es| && es[n] == Work(w, Lookup) && (forall i :: n < i < |es| ==> es[i] != Work(w, Lookup))
            && Registered(es[..n], p.task.job.kind) == Some(p.handler) && Installed(es[..n]) == p.sink
            && forall i :: 0 <= i < |p.task.calls| ==> p.task.calls[i].handler == p.handler
  {
    RunReads(capacity, workers, es);
    assert PhaseRead(Run(Init(capacity, workers), es).workers[w], es, w);
    n :| LastLookup(es, w, n) && ReadFrom(Run(Init(capacity, workers), es).workers[w], es[..n]);
  }

  /** Every call recorded in a finished job was to the handler registered for its type at the job's lookup. Every
      dead letter went to the sink installed at that lookup, or when the rejected caller read it, and says that there
      is no handler exactly when none was registered; a discarded job found the nil sink in the same way. */
  lemma EndsGoBackToLookups(capacity: nat, workers: int, es: seq<Event>)
    requires Possible(Init(capacity, workers), es)
    ensures EndsRead(Run(Init(capacity, workers), es).ends, es)
  {
    RunReads(capacity, workers, es);
  }

  // ---------- Stop, and the buffer, told from the events ----------

  /** The context is cancelled exactly when Stop was called. */
  lemma {:induction false} CancelledExactly(capacity: nat, workers: int, es: seq<Event>)
    requires Possible(Init(capacity, workers), es)
    ensures Run(Init(capacity, workers), es).cancelled <==> Cancel in es
    decreases |es|
  {
    if es != [] {
      var front, e := es[..|es| - 1], es[|es| - 1];
      assert es == front + [e];
      RunSplit(Init(capacity, workers), front, [e]);
      assert [e][1..] == [];
      CancelledExactly(capacity, workers, front);
      OnlyCancelCancels(Run(Init(capacity, workers), front), e);
    }
  }

  lemma OnlyCancelCancels(s: State, e: Event)
    requires Enabled(s, e)
    ensures Apply(s, e).cancelled <==> s.cancelled || e == Cancel
  {
    match e {
      case Work(w, Lookup) =>
      case Work(w, HandlerEnds(_)) =>
      case Work(w, a) =>
      case _ =>
    }
  }

  /** A submission is turned away exactly when the buffer is full and no worker takes it directly, and a worker takes
      one directly only while it waits and nothing is buffered. */
  lemma SendsFollowBuffer(capacity: nat, workers: int, es: seq<Event>, n: nat)
    requires Possible(Init(capacity, workers), es) && n < |es| && es[n].Submit?
    ensures Possible(Init(capacity, workers), es[..n])
    ensures var s := Run(Init(capacity, workers), es[..n]);
            match es[n].send
            case Full => |s.channel| == capacity
            case Buffer => |s.channel| < capacity
            case Handoff(w) => s.channel == [] && w < |s.workers| && s.workers[w].Selecting?
  {
    assert es == es[..n] + es[n..];
    RunSplit(Init(capacity, workers), es[..n], es[n..]);
    CapacityFixed(Init(capacity, workers), es[..n]);
    FifoAndBounded(capacity, workers, es[..n]);
  }
}
