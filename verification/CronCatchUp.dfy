/** dispatchDomainCronScans of internal/scheduler/scheduler.go: one scan per tick that has an occurrence behind it. */
module CronCatchUp {
  import opened Wrappers
  import QueueMachine
  import opened Sequences

  datatype Domain = Domain(orgId: string, name: string, scanCron: string, monitored: bool,
                           updatedAt: int, lastScannedAt: Option<int>)

  /** A parsed cron expression: the time of the next occurrence after a given time. */
  type Schedule = int -> int

  function LastScan(d: Domain): int {
    match d.lastScannedAt
    case Some(t) => t
    case None => d.updatedAt
  }

  /** The row is selected, its expression parses, and the next occurrence is not after now. */
  predicate IsDue(d: Domain, parse: map<string, Schedule>, now: int) {
    && d.scanCron != "" && d.monitored && d.scanCron in parse
    && parse[d.scanCron](LastScan(d)) <= now
  }

  /** Writing last_scanned_at also touches updated_at. */
  function Touched(d: Domain, now: int): Domain {
    d.(lastScannedAt := Some(now), updatedAt := now)
  }

  function ScanJob(d: Domain, id: string): QueueMachine.Job {
    QueueMachine.Job(id, "scan", map["job_id" := id, "org_id" := d.orgId, "type" := "subdomain"], 0, 0, 0)
  }

  /** The jobs of the first n rows; created says which scan rows the database accepts. */
  function Jobs(rows: seq<Domain>, parse: map<string, Schedule>, now: int, created: nat -> bool, ids: nat -> string,
                n: nat): seq<QueueMachine.Job>
    requires n <= |rows|
  {
    if n == 0 then []
    else Jobs(rows, parse, now, created, ids, n - 1)
         + if IsDue(rows[n - 1], parse, now) && created(n - 1) then [ScanJob(rows[n - 1], ids(n - 1))] else []
  }

  /** What one pass does to a row. */
  function PassedRow(d: Domain, parse: map<string, Schedule>, now: int, created: bool, written: bool): Domain {
    if IsDue(d, parse, now) && created && written then Touched(d, now) else d
  }

  method DispatchDomainCronScans(table: array<Domain>, parse: map<string, Schedule>, now: int,
                                 created: nat -> bool, written: nat -> bool, ids: nat -> string)
    returns (enqueued: seq<QueueMachine.Job>)
    modifies table
    ensures enqueued == Jobs(old(table[..]), parse, now, created, ids, table.Length)
    ensures table[..] == Changed(old(table[..]), parse, Pass(now, created, written))
  {
    enqueued := [];
    ghost var rows := table[..];
    for i := 0 to table.Length
      invariant enqueued == Jobs(rows, parse, now, created, ids, i)
      invariant forall k :: i <= k < table.Length ==> table[k] == rows[k]
      invariant forall k :: 0 <= k < i ==> table[k] == PassedRow(rows[k], parse, now, created(k), written(k))
    {
      enqueued := DispatchRow(table, i, parse, now, created(i), written(i), ids(i), enqueued);
    }
    PassChanges(rows, table[..], parse, now, created, written);
  }

  /** One iteration: the scan row, the job, and the time of the last scan. */
  method DispatchRow(table: array<Domain>, i: nat, parse: map<string, Schedule>, now: int, created: bool, written: bool,
                     id: string, queued: seq<QueueMachine.Job>) returns (enqueued: seq<QueueMachine.Job>)
    requires i < table.Length
    modifies table
    ensures table[..] == old(table[..])[i := PassedRow(old(table[i]), parse, now, created, written)]
    ensures enqueued == queued
                        + if IsDue(old(table[i]), parse, now) && created then [ScanJob(old(table[i]), id)] else []
  {
    enqueued := queued;
    var domain := table[i];
    var due := RunIsDue(domain, parse, now);
    if due && created {
      enqueued := enqueued + [ScanJob(domain, id)];
      if written {
        table[i] := domain.(lastScannedAt := Some(now), updatedAt := now);
      }
    }
  }

  /** The checks before a scan is created; the next run is relative to the last scan. */
  method RunIsDue(domain: Domain, parse: map<string, Schedule>, now: int) returns (due: bool)
    ensures due == IsDue(domain, parse, now)
  {
    if domain.scanCron == "" || !domain.monitored {
      return false;
    }
    if domain.scanCron !in parse {
      return false;
    }
    var lastScan := domain.updatedAt;
    if domain.lastScannedAt.Some? {
      lastScan := domain.lastScannedAt.value;
    }
    var nextRun := parse[domain.scanCron](lastScan);
    return nextRun <= now;
  }

  // ---------- what happens to one row ----------

  /** next gives the least occurrence strictly after a time. */
  ghost predicate LeastAfter(occurs: int -> bool, next: Schedule) {
    forall t :: next(t) > t && occurs(next(t)) && forall u :: t < u < next(t) ==> !occurs(u)
  }

  /** A pass over the row, with the answers of the database to its insert and its write, or another write of the
      row, as risk scoring does, which only moves updated_at. */
  datatype Step = Tick(now: int, created: bool, written: bool) | Scored(now: int)

  predicate FiresNow(d: Domain, next: Schedule, now: int) {
    next(LastScan(d)) <= now
  }

  function Next(d: Domain, next: Schedule, s: Step): Domain {
    match s
    case Tick(now, created, written) => if FiresNow(d, next, now) && created && written then Touched(d, now) else d
    case Scored(now) => d.(updatedAt := now)
  }

  function After(d: Domain, next: Schedule, steps: seq<Step>): Domain {
    if steps == [] then d else Next(After(d, next, steps[..|steps| - 1]), next, steps[|steps| - 1])
  }

  /** A scan is enqueued at step k. */
  predicate FiresAt(d: Domain, next: Schedule, steps: seq<Step>, k: nat)
    requires k < |steps|
  {
    steps[k].Tick? && steps[k].created && FiresNow(After(d, next, steps[..k]), next, steps[k].now)
  }

  // ---------- passes over the whole table ----------

  datatype TableEvent = Pass(now: int, created: nat -> bool, written: nat -> bool) | Score(row: nat, at: int)

  function Changed(rows: seq<Domain>, parse: map<string, Schedule>, e: TableEvent): seq<Domain> {
    match e
    case Pass(now, created, written) =>
      seq(|rows|, i requires 0 <= i < |rows| => PassedRow(rows[i], parse, now, created(i), written(i)))
    case Score(row, at) => if row < |rows| then rows[row := rows[row].(updatedAt := at)] else rows
  }

  function TableAfter(rows: seq<Domain>, parse: map<string, Schedule>, es: seq<TableEvent>): (r: seq<Domain>)
    ensures |r| == |rows|
  {
    if es == [] then rows else Changed(TableAfter(rows, parse, es[..|es| - 1]), parse, es[|es| - 1])
  }

  lemma PassChanges(rows: seq<Domain>, after: seq<Domain>, parse: map<string, Schedule>, now: int,
                    created: nat -> bool, written: nat -> bool)
    requires |after| == |rows|
    requires forall k :: 0 <= k < |rows| ==> after[k] == PassedRow(rows[k], parse, now, created(k), written(k))
    ensures after == Changed(rows, parse, Pass(now, created, written))
  {
  }

  /** What the event is for row i. */
  function StepOf(e: TableEvent, i: nat): seq<Step> {
    match e
    case Pass(now, created, written) => [Tick(now, created(i), written(i))]
    case Score(row, at) => if row == i then [Scored(at)] else []
  }

  function StepsOf(es: seq<TableEvent>, i: nat): seq<Step> {
    if es == [] then [] else StepsOf(es[..|es| - 1], i) + StepOf(es[|es| - 1], i)
  }

  /** A row as the query selects it, with the parsed form of its expression. */
  predicate Selected(d: Domain, parse: map<string, Schedule>) {
    d.scanCron != "" && d.monitored && d.scanCron in parse
  }

  lemma AfterOneMore(d: Domain, next: Schedule, steps: seq<Step>, s: Step)
    ensures After(d, next, steps + [s]) == Next(After(d, next, steps), next, s)
  {
    assert (steps + [s])[..|steps|] == steps;
  }

  /** Passes and scorings change nothing of a row but its two times. */
  predicate OnlyTimesDiffer(before: Domain, after: Domain) {
    after == Domain(before.orgId, before.name, before.scanCron, before.monitored, after.updatedAt, after.lastScannedAt)
  }

  lemma ChangedRow(rows: seq<Domain>, parse: map<string, Schedule>, e: TableEvent, i: nat)
    requires i < |rows| && Selected(rows[i], parse)
    ensures var r, next := Changed(rows, parse, e)[i], parse[rows[i].scanCron];
            && r == (if StepOf(e, i) == [] then rows[i] else Next(rows[i], next, StepOf(e, i)[0]))
            && OnlyTimesDiffer(rows[i], r) && Selected(r, parse)
  {
  }

  /** The rows of the table do not disturb each other: over any passes and scorings each selected row goes through
      its own steps. */
  lemma {:induction false} TableRunsRows(rows: seq<Domain>, parse: map<string, Schedule>, es: seq<TableEvent>, i: nat)
    requires i < |rows| && Selected(rows[i], parse)
    ensures var r := TableAfter(rows, parse, es)[i];
            r == After(rows[i], parse[rows[i].scanCron], StepsOf(es, i))
            && Selected(r, parse) && OnlyTimesDiffer(rows[i], r)
    decreases |es|
  {
    if es != [] {
      var front, e := es[..|es| - 1], es[|es| - 1];
      var steps := StepsOf(front, i);
      TableRunsRows(rows, parse, front, i);
      ChangedRow(TableAfter(rows, parse, front), parse, e, i);
      if StepOf(e, i) == [] {
        assert steps + [] == steps;
      } else {
        assert StepOf(e, i) == [StepOf(e, i)[0]];
        AfterOneMore(rows[i], parse[rows[i].scanCron], steps, StepOf(e, i)[0]);
      }
    }
  }

  /** A row that has no expression, or one that does not parse, or is not monitored is left alone by every pass. */
  lemma {:induction false} UnselectedUntouched(rows: seq<Domain>, parse: map<string, Schedule>, es: seq<TableEvent>,
                                               i: nat)
    requires i < |rows| && (rows[i].scanCron == "" || rows[i].scanCron !in parse || !rows[i].monitored)
    ensures var r := TableAfter(rows, parse, es)[i];
            OnlyTimesDiffer(rows[i], r) && r.lastScannedAt == rows[i].lastScannedAt
            && ((forall e :: e in es ==> e.Pass?) ==> r == rows[i])
    decreases |es|
  {
    if es != [] {
      var front, e := es[..|es| - 1], es[|es| - 1];
      UnselectedUntouched(rows, parse, front, i);
      UnselectedStays(TableAfter(rows, parse, front), parse, e, i);
      assert forall x :: x in front ==> x in es;
    }
  }

  lemma UnselectedStays(rows: seq<Domain>, parse: map<string, Schedule>, e: TableEvent, i: nat)
    requires i < |rows| && (rows[i].scanCron == "" || rows[i].scanCron !in parse || !rows[i].monitored)
    ensures var r := Changed(rows, parse, e)[i];
            r == if e.Score? && e.row == i then rows[i].(updatedAt := e.at) else rows[i]
  {
    match e {
      case Pass(now, created, written) =>
        assert Changed(rows, parse, e)[i] == PassedRow(rows[i], parse, now, created(i), written(i));
      case Score(row, at) =>
    }
  }

  /** A queue job that asks for a subdomain scan; its retry count is left to the queue. */
  predicate IsScanOf(job: QueueMachine.Job, id: string, orgId: string) {
    && job.id == id && job.kind == "scan" && job.attempts == 0 && job.maxRetry == 0 && job.priority == 0
    && job.payload == map["job_id" := id, "org_id" := orgId, "type" := "subdomain"]
  }

  /** The jobs are scans of the rows at the given positions, in order. */
  predicate ScansOf(jobs: seq<QueueMachine.Job>, rows: seq<Domain>, ids: nat -> string, at: seq<nat>) {
    && |jobs| == |at|
    && forall p :: 0 <= p < |at| ==> at[p] < |rows| && IsScanOf(jobs[p], ids(at[p]), rows[at[p]].orgId)
  }

  lemma ScansMore(jobs: seq<QueueMachine.Job>, rows: seq<Domain>, ids: nat -> string, at: seq<nat>, n: nat)
    requires ScansOf(jobs, rows, ids, at) && n < |rows|
    ensures ScansOf(jobs + [ScanJob(rows[n], ids(n))], rows, ids, at + [n])
  {
  }

  /** The row is selected and due, and the database accepts its scan row. */
  predicate Scans(rows: seq<Domain>, parse: map<string, Schedule>, now: int, created: nat -> bool, i: nat) {
    && i < |rows| && created(i)
    && Selected(rows[i], parse) && FiresNow(rows[i], parse[rows[i].scanCron], now)
  }

  /** The jobs of a pass, in the order of the rows: one for each selected row that is due and whose scan row the
      database accepts, naming that scan row and the domain's organisation. */
  lemma {:induction false} JobsExactly(rows: seq<Domain>, parse: map<string, Schedule>, now: int, created: nat -> bool,
                                       ids: nat -> string, n: nat) returns (at: seq<nat>)
    requires n <= |rows|
    ensures Increasing(at, n) && ScansOf(Jobs(rows, parse, now, created, ids, n), rows, ids, at)
    ensures forall i: nat :: i < n ==> (i in at <==> Scans(rows, parse, now, created, i))
  {
    at := [];
    if n > 0 {
      at := JobsExactly(rows, parse, now, created, ids, n - 1);
      IncreasingSnoc(at, n - 1);
      ScansMore(Jobs(rows, parse, now, created, ids, n - 1), rows, ids, at, n - 1);
      JobsNext(rows, parse, now, created, ids, n);
      if Scans(rows, parse, now, created, n - 1) {
        at := at + [n - 1];
      }
    }
  }

  lemma JobsNext(rows: seq<Domain>, parse: map<string, Schedule>, now: int, created: nat -> bool, ids: nat -> string,
                 n: nat)
    requires 0 < n <= |rows|
    ensures var before := Jobs(rows, parse, now, created, ids, n - 1);
            Jobs(rows, parse, now, created, ids, n)
            == if Scans(rows, parse, now, created, n - 1) then before + [ScanJob(rows[n - 1], ids(n - 1))] else before
  {
    var before := Jobs(rows, parse, now, created, ids, n - 1);
    assert before + [] == before;
  }

  lemma {:induction false} StepsUpTo(es: seq<TableEvent>, i: nat, n: nat)
    requires n < |es| && es[n].Pass?
    ensures var k := |StepsOf(es[..n], i)|;
            && k < |StepsOf(es, i)| && StepsOf(es, i)[..k] == StepsOf(es[..n], i)
            && StepsOf(es, i)[k] == Tick(es[n].now, es[n].created(i), es[n].written(i))
    decreases |es|
  {
    var front := es[..|es| - 1];
    if n < |front| {
      StepsUpTo(front, i, n);
      assert front[..n] == es[..n];
    } else {
      assert es[..n] == front;
    }
  }

  /** Over any passes and scorings of the table, pass n enqueues a scan of a domain exactly when the domain is
      monitored, has an expression that parses, and fires at that step of its own run; the job carries its
      organisation. */
  lemma ScansAreFirings(rows: seq<Domain>, parse: map<string, Schedule>, es: seq<TableEvent>, n: nat,
                        ids: nat -> string) returns (at: seq<nat>)
    requires n < |es| && es[n].Pass?
    ensures Increasing(at, |rows|)
    ensures forall i: nat :: i < |rows| ==>
              (i in at <==>
                 && rows[i].scanCron != "" && rows[i].scanCron in parse && rows[i].monitored
                 && |StepsOf(es[..n], i)| < |StepsOf(es, i)|
                 && FiresAt(rows[i], parse[rows[i].scanCron], StepsOf(es, i), |StepsOf(es[..n], i)|))
    ensures ScansOf(Jobs(TableAfter(rows, parse, es[..n]), parse, es[n].now, es[n].created, ids, |rows|), rows, ids, at)
  {
    var table := TableAfter(rows, parse, es[..n]);
    at := JobsExactly(table, parse, es[n].now, es[n].created, ids, |rows|);
    forall i: nat | i < |rows|
      ensures OnlyTimesDiffer(rows[i], table[i])
      ensures Selected(rows[i], parse) ==>
                && |StepsOf(es[..n], i)| < |StepsOf(es, i)|
                && (FiresAt(rows[i], parse[rows[i].scanCron], StepsOf(es, i), |StepsOf(es[..n], i)|)
                    <==> es[n].created(i) && FiresNow(table[i], parse[rows[i].scanCron], es[n].now))
    {
      StepsUpTo(es, i, n);
      if Selected(rows[i], parse) {
        TableRunsRows(rows, parse, es[..n], i);
      } else {
        UnselectedUntouched(rows, parse, es[..n], i);
      }
    }
  }

  // ---------- firings and occurrences ----------

  ghost predicate Pending(occurs: int -> bool, a: int, b: int) {
    exists o :: a < o <= b && occurs(o)
  }

  /** Up to when occurrences have been dealt with, and whether the row has been scanned. */
  datatype Progress = Progress(served: int, scanned: bool)

  /** A tick serves everything up to it, unless something is pending and the insert or the write fails. Before the
      first scan another write of the row starts the count anew. */
  ghost function Advance(p: Progress, occurs: int -> bool, s: Step): Progress {
    match s
    case Tick(now, created, written) =>
      if !Pending(occurs, p.served, now) then p.(served := if now > p.served then now else p.served)
      else if created && written then Progress(now, true)
      else p
    case Scored(now) => if p.scanned then p else p.(served := now)
  }

  ghost function ProgressAfter(d: Domain, occurs: int -> bool, steps: seq<Step>): Progress {
    if steps == [] then Progress(LastScan(d), d.lastScannedAt.Some?)
    else Advance(ProgressAfter(d, occurs, steps[..|steps| - 1]), occurs, steps[|steps| - 1])
  }

  /** The stored time lags behind, but no occurrence lies between it and what has been served. */
  ghost predicate InStep(d: Domain, next: Schedule, p: Progress) {
    d.lastScannedAt.Some? == p.scanned && LastScan(d) <= p.served < next(LastScan(d))
  }

  lemma FiresNowExactly(d: Domain, occurs: int -> bool, next: Schedule, p: Progress, now: int)
    requires LeastAfter(occurs, next) && InStep(d, next, p)
    ensures FiresNow(d, next, now) <==> Pending(occurs, p.served, now)
  {
    var first := next(LastScan(d));
    assert occurs(first);
    forall o | p.served < o <= now && occurs(o) ensures first <= o {
      assert LastScan(d) < o;
    }
  }

  lemma {:induction false} StaysInStep(d: Domain, occurs: int -> bool, next: Schedule, steps: seq<Step>)
    requires LeastAfter(occurs, next)
    ensures InStep(After(d, next, steps), next, ProgressAfter(d, occurs, steps))
    decreases |steps|
  {
    if steps != [] {
      var front, s := steps[..|steps| - 1], steps[|steps| - 1];
      StaysInStep(d, occurs, next, front);
      if s.Tick? {
        FiresNowExactly(After(d, next, front), occurs, next, ProgressAfter(d, occurs, front), s.now);
      }
    }
  }

  /** A scan is enqueued at a tick exactly when the insert succeeds and an occurrence falls after what has been
      served and not after the tick. */
  lemma FiresExactly(d: Domain, occurs: int -> bool, next: Schedule, steps: seq<Step>, k: nat)
    requires LeastAfter(occurs, next) && k < |steps|
    ensures FiresAt(d, next, steps, k) <==>
              && steps[k].Tick? && steps[k].created
              && Pending(occurs, ProgressAfter(d, occurs, steps[..k]).served, steps[k].now)
  {
    StaysInStep(d, occurs, next, steps[..k]);
    FiresNowExactly(After(d, next, steps[..k]), occurs, next, ProgressAfter(d, occurs, steps[..k]), steps[k].now);
  }

  /** The two times of the row: a scan whose time is written sets both, another write sets updated_at, and nothing else
      sets either. */
  lemma TimesExactly(d: Domain, next: Schedule, steps: seq<Step>, s: Step)
    ensures var before, after := After(d, next, steps), After(d, next, steps + [s]);
            var scanned := FiresAt(d, next, steps + [s], |steps|) && s.written;
            && after.lastScannedAt == (if scanned then Some(s.now) else before.lastScannedAt)
            && after.updatedAt == (if scanned || s.Scored? then s.now else before.updatedAt)
  {
    assert (steps + [s])[..|steps|] == steps;
  }

  predicate OnlySuccessfulTicks(steps: seq<Step>) {
    forall i :: 0 <= i < |steps| ==> steps[i].Tick? && steps[i].created && steps[i].written
  }

  predicate Nondecreasing(steps: seq<Step>) {
    forall i, j :: 0 <= i < j < |steps| ==> steps[i].now <= steps[j].now
  }

  /** When the database accepts everything, what has been served is everything up to the previous tick. */
  lemma {:induction false} ServedUpToPreviousTick(d: Domain, occurs: int -> bool, steps: seq<Step>)
    requires OnlySuccessfulTicks(steps) && Nondecreasing(steps)
    ensures ProgressAfter(d, occurs, steps).served
            == if steps == [] || steps[|steps| - 1].now < LastScan(d) then LastScan(d) else steps[|steps| - 1].now
    decreases |steps|
  {
    if steps != [] {
      ServedUpToPreviousTick(d, occurs, steps[..|steps| - 1]);
    }
  }

  /** After a tick whose insert and write succeed the next occurrence counted from the stored time is in the future. */
  lemma NextIsInFuture(d: Domain, occurs: int -> bool, next: Schedule, steps: seq<Step>)
    requires LeastAfter(occurs, next) && steps != []
    requires steps[|steps| - 1].Tick? && steps[|steps| - 1].created && steps[|steps| - 1].written
    ensures next(LastScan(After(d, next, steps))) > steps[|steps| - 1].now
  {
    StaysInStep(d, occurs, next, steps);
  }

  predicate Serves(s: Step, o: int) {
    s.Tick? && s.created && o <= s.now
  }

  /** Step i starts the count of a row that was never scanned anew, at or after o, and nothing else occurs up to
      step k. */
  ghost predicate Hides(d: Domain, occurs: int -> bool, next: Schedule, steps: seq<Step>, i: nat, o: int, k: nat)
    requires i < |steps| && k < |steps|
  {
    && steps[i].Scored? && o <= steps[i].now
    && After(d, next, steps[..i]).lastScannedAt.None?
    && !Pending(occurs, steps[i].now, steps[k].now)
  }

  lemma ProgressOneMore(d: Domain, occurs: int -> bool, steps: seq<Step>, n: nat)
    requires n < |steps|
    ensures ProgressAfter(d, occurs, steps[..n + 1]) == Advance(ProgressAfter(d, occurs, steps[..n]), occurs, steps[n])
  {
    assert steps[..n + 1][..n] == steps[..n];
  }

  /** What has been served beyond a pending occurrence has been served by a write that started the count anew, and
      by ticks that found nothing since. */
  lemma {:induction false} ServedByWrite(d: Domain, occurs: int -> bool, next: Schedule, steps: seq<Step>, o: int,
                                         n: nat)
    returns (i: nat)
    requires LeastAfter(occurs, next) && occurs(o) && LastScan(d) < o && n <= |steps|
    requires forall j :: 0 <= j < n ==> !Serves(steps[j], o)
    requires o <= ProgressAfter(d, occurs, steps[..n]).served
    ensures i < n && steps[i].Scored? && o <= steps[i].now && After(d, next, steps[..i]).lastScannedAt.None?
    ensures steps[i].now <= ProgressAfter(d, occurs, steps[..n]).served
    ensures !Pending(occurs, steps[i].now, ProgressAfter(d, occurs, steps[..n]).served)
  {
    var before := ProgressAfter(d, occurs, steps[..n - 1]);
    ProgressOneMore(d, occurs, steps, n - 1);
    StaysInStep(d, occurs, next, steps[..n - 1]);
    if steps[n - 1].Scored? && !before.scanned {
      i := n - 1;
    } else {
      assert o <= before.served;
      i := ServedByWrite(d, occurs, next, steps, o, n - 1);
    }
  }

  /** Time does not go back behind a write that started the count anew. */
  lemma {:induction false} ServedFromWrite(d: Domain, occurs: int -> bool, next: Schedule, steps: seq<Step>, i: nat,
                                           n: nat)
    requires LeastAfter(occurs, next) && Nondecreasing(steps) && i < n <= |steps|
    requires steps[i].Scored? && After(d, next, steps[..i]).lastScannedAt.None?
    ensures steps[i].now <= ProgressAfter(d, occurs, steps[..n]).served
  {
    ProgressOneMore(d, occurs, steps, n - 1);
    if n - 1 == i {
      StaysInStep(d, occurs, next, steps[..i]);
    } else {
      ServedFromWrite(d, occurs, next, steps, i, n - 1);
      assert steps[i].now <= steps[n - 1].now;
    }
  }

  /** When an occurrence is missed: whatever failed before, the first tick at or after it whose insert succeeds
      enqueues a scan, unless the row was never scanned and another write hides the occurrence. As long as time
      does not go back, that is exact. */
  lemma MissedExactly(d: Domain, occurs: int -> bool, next: Schedule, steps: seq<Step>, o: int, k: nat)
    requires LeastAfter(occurs, next) && occurs(o) && LastScan(d) < o
    requires k < |steps| && Serves(steps[k], o) && forall i :: 0 <= i < k ==> !Serves(steps[i], o)
    ensures !FiresAt(d, next, steps, k) ==> exists i :: 0 <= i < k && Hides(d, occurs, next, steps, i, o, k)
    ensures Nondecreasing(steps) ==>
              (!FiresAt(d, next, steps, k) <==> exists i :: 0 <= i < k && Hides(d, occurs, next, steps, i, o, k))
  {
    var served := ProgressAfter(d, occurs, steps[..k]).served;
    FiresExactly(d, occurs, next, steps, k);
    if !FiresAt(d, next, steps, k) {
      var i := ServedByWrite(d, occurs, next, steps, o, k);
      assert !Pending(occurs, served, steps[k].now);
      assert Hides(d, occurs, next, steps, i, o, k);
    } else if Nondecreasing(steps) {
      var p :| served < p <= steps[k].now && occurs(p);
      forall i | 0 <= i < k && steps[i].Scored? && After(d, next, steps[..i]).lastScannedAt.None?
        ensures Pending(occurs, steps[i].now, steps[k].now)
      {
        ServedFromWrite(d, occurs, next, steps, i, k);
      }
    }
  }

  /** No occurrence is missed once the row has been scanned, or while nobody else writes it. */
  lemma NoneMissed(d: Domain, occurs: int -> bool, next: Schedule, steps: seq<Step>, o: int, m: nat) returns (k: nat)
    requires LeastAfter(occurs, next) && occurs(o) && LastScan(d) < o
    requires m < |steps| && Serves(steps[m], o)
    requires d.lastScannedAt.Some? || forall i :: 0 <= i < m && steps[i].Scored? ==> steps[i].now < o
    ensures k <= m && Serves(steps[k], o) && (forall i :: 0 <= i < k ==> !Serves(steps[i], o))
    ensures FiresAt(d, next, steps, k)
  {
    k := 0;
    while !Serves(steps[k], o)
      invariant k <= m && forall i :: 0 <= i < k ==> !Serves(steps[i], o)
      decreases m - k
    {
      k := k + 1;
    }
    MissedExactly(d, occurs, next, steps, o, k);
    forall i | 0 <= i < k ensures !Hides(d, occurs, next, steps, i, o, k) {
      StaysScanned(d, next, steps[..i]);
    }
  }

  lemma {:induction false} StaysScanned(d: Domain, next: Schedule, steps: seq<Step>)
    ensures d.lastScannedAt.Some? ==> After(d, next, steps).lastScannedAt.Some?
    decreases |steps|
  {
    if steps != [] {
      StaysScanned(d, next, steps[..|steps| - 1]);
    }
  }

  /** The exception is real: the tick that would serve an occurrence does not, after another write. */
  lemma WriteHidesOccurrence(d: Domain, occurs: int -> bool, next: Schedule, at: int, now: int)
    requires LeastAfter(occurs, next) && d.lastScannedAt.None?
    requires Pending(occurs, LastScan(d), at) && at <= now && !Pending(occurs, at, now)
    ensures FiresAt(d, next, [Tick(now, true, true)], 0)
    ensures !FiresAt(d, next, [Scored(at), Tick(now, true, true)], 1)
  {
    var o :| LastScan(d) < o <= at && occurs(o);
    var alone, hidden := [Tick(now, true, true)], [Scored(at), Tick(now, true, true)];
    FiresExactly(d, occurs, next, alone, 0);
    FiresExactly(d, occurs, next, hidden, 1);
    assert alone[..0] == [] && hidden[..1] == [Scored(at)] && [Scored(at)][..0] == [];
  }

  function Firings(d: Domain, next: Schedule, steps: seq<Step>): nat {
    if steps == [] then 0
    else
      var n := |steps| - 1;
      Firings(d, next, steps[..n]) + if FiresAt(d, next, steps, n) then 1 else 0
  }

  /** Firings whose write of last_scanned_at failed. */
  function LostWrites(d: Domain, next: Schedule, steps: seq<Step>): nat {
    if steps == [] then 0
    else
      var n := |steps| - 1;
      LostWrites(d, next, steps[..n]) + if FiresAt(d, next, steps, n) && !steps[n].written then 1 else 0
  }

  /** Occurrences after a and not after b. */
  function Occurrences(occurs: int -> bool, a: int, b: int): nat
    decreases b - a
  {
    if b <= a then 0 else Occurrences(occurs, a, b - 1) + if occurs(b) then 1 else 0
  }

  lemma {:induction false} OccurrencesSplit(occurs: int -> bool, a: int, b: int, c: int)
    requires a <= b <= c
    ensures Occurrences(occurs, a, c) == Occurrences(occurs, a, b) + Occurrences(occurs, b, c)
    decreases c - b
  {
    if b < c {
      OccurrencesSplit(occurs, a, b, c - 1);
    }
  }

  lemma {:induction false} OccurrenceCounts(occurs: int -> bool, a: int, b: int, o: int)
    requires a < o <= b && occurs(o)
    ensures Occurrences(occurs, a, b) >= 1
    decreases b - a
  {
    if o < b {
      OccurrenceCounts(occurs, a, b - 1, o);
    }
  }

  /** Time does not go back, nor does another write of the row start before the row's own time. */
  predicate Chronological(d: Domain, steps: seq<Step>) {
    Nondecreasing(steps) && forall i :: 0 <= i < |steps| && steps[i].Scored? ==> LastScan(d) <= steps[i].now
  }

  lemma {:induction false} ServedGrows(d: Domain, occurs: int -> bool, steps: seq<Step>)
    requires Chronological(d, steps)
    ensures var served := ProgressAfter(d, occurs, steps).served;
            && LastScan(d) <= served
            && (steps == [] ==> served == LastScan(d))
            && (steps != [] ==>
                  && (served <= LastScan(d) || served <= steps[|steps| - 1].now)
                  && ProgressAfter(d, occurs, steps[..|steps| - 1]).served <= served)
    decreases |steps|
  {
    if steps != [] {
      ServedGrows(d, occurs, steps[..|steps| - 1]);
    }
  }

  /** There are never more scans than occurrences plus scans whose time could not be written; several occurrences
      between two ticks give one scan. */
  lemma {:induction false} FiringsAtMostOccurrences(d: Domain, occurs: int -> bool, next: Schedule, steps: seq<Step>)
    requires LeastAfter(occurs, next) && Chronological(d, steps)
    ensures Firings(d, next, steps)
            <= Occurrences(occurs, LastScan(d), ProgressAfter(d, occurs, steps).served) + LostWrites(d, next, steps)
    decreases |steps|
  {
    if steps != [] {
      var n := |steps| - 1;
      var a, b := ProgressAfter(d, occurs, steps[..n]).served, ProgressAfter(d, occurs, steps).served;
      FiringsAtMostOccurrences(d, occurs, next, steps[..n]);
      ServedGrows(d, occurs, steps);
      ServedGrows(d, occurs, steps[..n]);
      OccurrencesSplit(occurs, LastScan(d), a, b);
      FiresExactly(d, occurs, next, steps, n);
      if FiresAt(d, next, steps, n) && steps[n].written {
        var o :| a < o <= steps[n].now && occurs(o);
        OccurrenceCounts(occurs, a, b, o);
      }
    }
  }
}
