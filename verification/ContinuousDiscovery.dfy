/** DispatchContinuousDiscovery of internal/scheduler/continuous_discovery.go. Times are nanoseconds. */
module ContinuousDiscovery {
  import opened Wrappers
  import opened SeedKeys
  import opened Sequences
  import QueueMachine

  /** The text form of a UUID has no vertical bar. */
  type OrgId = s: string | '|' !in s witness ""

  datatype DiscoveryJob = DiscoveryJob(
    id: string, orgId: OrgId, createdBy: Option<string>, seedDomains: seq<string>, status: string,
    cadence: string, depth: int, options: map<string, string>, completedAt: Option<int>)

  const HOUR := 3_600_000_000_000

  const CADENCE_INTERVAL := map["daily" := 24 * HOUR, "weekly" := 7 * 24 * HOUR, "monthly" := 30 * 24 * HOUR]

  /** The series a job belongs to, as the key string of the loop. */
  function Series(job: DiscoveryJob): string {
    job.orgId + "|" + job.cadence + "|" + Key(job.seedDomains)
  }

  /** What the query returns: completed jobs of a recurring cadence. */
  predicate QueryResult(candidates: seq<DiscoveryJob>) {
    forall i :: 0 <= i < |candidates| ==>
      candidates[i].cadence in ["daily", "weekly", "monthly"] && candidates[i].status == "completed"
  }

  /** The job's last run ended at least one cadence interval ago. */
  predicate Due(job: DiscoveryJob, now: int) {
    && job.cadence in CADENCE_INTERVAL
    && job.completedAt.Some?
    && now - job.completedAt.value >= CADENCE_INTERVAL[job.cadence]
  }

  function NewJob(job: DiscoveryJob, id: string): DiscoveryJob {
    DiscoveryJob(id, job.orgId, job.createdBy, job.seedDomains, "pending", job.cadence, job.depth, job.options, None)
  }

  function QueueJob(job: DiscoveryJob): QueueMachine.Job {
    QueueMachine.Job(job.id, "discovery_run", map["job_id" := job.id, "org_id" := job.orgId], 0, 0, 0)
  }

  predicate FirstOfSeries(candidates: seq<DiscoveryJob>, i: nat)
    requires i < |candidates|
  {
    forall k :: 0 <= k < i ==> Series(candidates[k]) != Series(candidates[i])
  }

  /** The rows inserted for the first n candidates; insertOk says which inserts the database accepts. */
  function Inserted(candidates: seq<DiscoveryJob>, now: int, insertOk: nat -> bool, ids: nat -> string, n: nat)
    : seq<DiscoveryJob>
    requires n <= |candidates|
  {
    if n == 0 then []
    else
      Inserted(candidates, now, insertOk, ids, n - 1)
      + if FirstOfSeries(candidates, n - 1) && Due(candidates[n - 1], now) && insertOk(n - 1)
        then [NewJob(candidates[n - 1], ids(n - 1))] else []
  }

  function QueueJobs(jobs: seq<DiscoveryJob>): seq<QueueMachine.Job> {
    if jobs == [] then [] else QueueJobs(jobs[..|jobs| - 1]) + [QueueJob(jobs[|jobs| - 1])]
  }

  lemma QueueJobsMore(jobs: seq<DiscoveryJob>, job: DiscoveryJob)
    ensures QueueJobs(jobs + [job]) == QueueJobs(jobs) + [QueueJob(job)]
  {
    assert (jobs + [job])[..|jobs|] == jobs;
  }

  /** The keys seen are those of the first n candidates. */
  ghost predicate Seen(candidates: seq<DiscoveryJob>, n: nat, seen: set<string>) {
    && n <= |candidates|
    && (forall k :: 0 <= k < n ==> Series(candidates[k]) in seen)
    && (forall s :: s in seen ==> exists k :: 0 <= k < n && Series(candidates[k]) == s)
  }

  lemma SeenNext(candidates: seq<DiscoveryJob>, n: nat, seen: set<string>)
    requires n < |candidates| && Seen(candidates, n, seen)
    ensures FirstOfSeries(candidates, n) <==> Series(candidates[n]) !in seen
    ensures Seen(candidates, n + 1, seen + {Series(candidates[n])})
    ensures Series(candidates[n]) in seen ==> Seen(candidates, n + 1, seen)
  {
    var s := Series(candidates[n]);
    if s in seen {
      var k :| 0 <= k < n && Series(candidates[k]) == s;
    }
  }

  method DispatchContinuousDiscovery(candidates: seq<DiscoveryJob>, now: int, insertOk: nat -> bool,
                                     ids: nat -> string)
    returns (inserted: seq<DiscoveryJob>, enqueued: seq<QueueMachine.Job>)
    ensures inserted == Inserted(candidates, now, insertOk, ids, |candidates|)
    ensures enqueued == QueueJobs(inserted)
  {
    inserted, enqueued := [], [];
    var seenKey: set<string> := {};
    for i := 0 to |candidates|
      invariant Seen(candidates, i, seenKey)
      invariant inserted == Inserted(candidates, now, insertOk, ids, i)
      invariant enqueued == QueueJobs(inserted)
    {
      var job := candidates[i];
      var first;
      first, seenKey := CheckSeries(candidates, i, seenKey);
      if !first {
        continue;
      }
      var due := RunIsDue(job, now);
      if due && insertOk(i) {
        var newJob := NewJob(job, ids(i));
        QueueJobsMore(inserted, newJob);
        inserted, enqueued := inserted + [newJob], enqueued + [QueueJob(newJob)];
      }
    }
  }

  /** Builds the row's key and looks it up among those seen. */
  method CheckSeries(candidates: seq<DiscoveryJob>, i: nat, seenKey: set<string>)
    returns (first: bool, seenKey': set<string>)
    requires i < |candidates| && Seen(candidates, i, seenKey)
    ensures first == FirstOfSeries(candidates, i) && Seen(candidates, i + 1, seenKey')
  {
    var job := candidates[i];
    var domains := new string[|job.seedDomains|](k requires 0 <= k < |job.seedDomains| => job.seedDomains[k]);
    assert domains[..] == job.seedDomains;
    var seeds := SeedKey(domains);
    var key := job.orgId + "|" + job.cadence + "|" + seeds;
    SeenNext(candidates, i, seenKey);
    if key in seenKey {
      return false, seenKey;
    }
    return true, seenKey + {key};
  }

  /** The two checks on a series' first row. */
  method RunIsDue(job: DiscoveryJob, now: int) returns (due: bool)
    ensures due == Due(job, now)
  {
    if job.cadence !in CADENCE_INTERVAL || job.completedAt.None? {
      return false;
    }
    if now - job.completedAt.value < CADENCE_INTERVAL[job.cadence] {
      return false;
    }
    return true;
  }

  // ---------- what a series is ----------

  lemma BarSplit(a: string, x: string, b: string, y: string)
    requires '|' !in a && '|' !in b && a + "|" + x == b + "|" + y
    ensures a == b && x == y
  {
    var s, t := a + "|" + x, b + "|" + y;
    assert s[|a|] == '|' && t[|b|] == '|';
    assert |a| == |b|;
    assert s[..|a|] == a && t[..|a|] == b;
    assert s[|a| + 1..] == x && t[|a| + 1..] == y;
  }

  lemma PartsSplit(a: string, b: string, c: string, x: string, y: string, z: string)
    requires '|' !in a && '|' !in x && '|' !in b && '|' !in y
    requires a + "|" + b + "|" + c == x + "|" + y + "|" + z
    ensures a == x && b == y && c == z
  {
    assert a + "|" + (b + "|" + c) == a + "|" + b + "|" + c;
    assert x + "|" + (y + "|" + z) == x + "|" + y + "|" + z;
    BarSplit(a, b + "|" + c, x, y + "|" + z);
    BarSplit(b, c, y, z);
  }

  lemma NoBarInCadence(cadence: string)
    requires cadence in CADENCE_INTERVAL
    ensures '|' !in cadence
  {
  }

  /** Two candidates are of one series exactly when org, cadence and seed key agree. */
  lemma SeriesExactly(j: DiscoveryJob, k: DiscoveryJob)
    requires j.cadence in CADENCE_INTERVAL && k.cadence in CADENCE_INTERVAL
    ensures Series(j) == Series(k) <==>
              j.orgId == k.orgId && j.cadence == k.cadence && Key(j.seedDomains) == Key(k.seedDomains)
  {
    NoBarInCadence(j.cadence);
    NoBarInCadence(k.cadence);
    if Series(j) == Series(k) {
      PartsSplit(j.orgId, j.cadence, Key(j.seedDomains), k.orgId, k.cadence, Key(k.seedDomains));
    }
  }

  // ---------- what one pass does ----------

  /** Where an inserted row comes from. */
  lemma {:induction false} Origin(c: seq<DiscoveryJob>, now: int, ok: nat -> bool, ids: nat -> string, n: nat, p: nat)
    returns (i: nat)
    requires n <= |c| && p < |Inserted(c, now, ok, ids, n)|
    ensures i < n && Inserted(c, now, ok, ids, n)[p] == NewJob(c[i], ids(i)) && FirstOfSeries(c, i) && Due(c[i], now)
  {
    if p < |Inserted(c, now, ok, ids, n - 1)| {
      i := Origin(c, now, ok, ids, n - 1, p);
    } else {
      i := n - 1;
    }
  }

  lemma {:induction false} IsInserted(c: seq<DiscoveryJob>, now: int, ok: nat -> bool, ids: nat -> string, n: nat,
                                      i: nat)
    returns (p: nat)
    requires i < n <= |c| && FirstOfSeries(c, i) && Due(c[i], now) && ok(i)
    ensures p < |Inserted(c, now, ok, ids, n)| && Inserted(c, now, ok, ids, n)[p] == NewJob(c[i], ids(i))
  {
    if i < n - 1 {
      p := IsInserted(c, now, ok, ids, n - 1, i);
    } else {
      p := |Inserted(c, now, ok, ids, n - 1)|;
    }
  }

  predicate DifferentSeries(jobs: seq<DiscoveryJob>) {
    forall p, q :: 0 <= p < q < |jobs| ==> Series(jobs[p]) != Series(jobs[q])
  }

  predicate NoneOfSeries(jobs: seq<DiscoveryJob>, job: DiscoveryJob) {
    forall p :: 0 <= p < |jobs| ==> Series(jobs[p]) != Series(job)
  }

  lemma NewJobSameSeries(job: DiscoveryJob, id: string)
    ensures Series(NewJob(job, id)) == Series(job)
  {
  }

  lemma {:induction false} InsertedDistinct(c: seq<DiscoveryJob>, now: int, ok: nat -> bool, ids: nat -> string, n: nat)
    requires n <= |c|
    ensures DifferentSeries(Inserted(c, now, ok, ids, n))
  {
    if n > 0 {
      InsertedDistinct(c, now, ok, ids, n - 1);
      if FirstOfSeries(c, n - 1) {
        NotYetInserted(c, now, ok, ids, n - 1);
        DifferentSeriesPush(Inserted(c, now, ok, ids, n - 1), NewJob(c[n - 1], ids(n - 1)));
      }
    }
  }

  lemma DifferentSeriesPush(jobs: seq<DiscoveryJob>, job: DiscoveryJob)
    requires DifferentSeries(jobs) && NoneOfSeries(jobs, job)
    ensures DifferentSeries(jobs + [job])
  {
  }

  lemma NotYetInserted(c: seq<DiscoveryJob>, now: int, ok: nat -> bool, ids: nat -> string, n: nat)
    requires n < |c| && FirstOfSeries(c, n)
    ensures NoneOfSeries(Inserted(c, now, ok, ids, n), NewJob(c[n], ids(n)))
  {
    var before := Inserted(c, now, ok, ids, n);
    NewJobSameSeries(c[n], ids(n));
    forall p | 0 <= p < |before| ensures Series(before[p]) != Series(c[n]) {
      var i := Origin(c, now, ok, ids, n, p);
      NewJobSameSeries(c[i], ids(i));
    }
  }

  /** Daily, weekly and monthly, in days. */
  function Days(cadence: string): nat {
    if cadence == "daily" then 1 else if cadence == "weekly" then 7 else 30
  }

  /** No earlier row has the organisation, cadence and seed key of row i, whose run ended at least 1, 7 or 30 days
      ago; and its insert succeeds. */
  predicate Dispatches(c: seq<DiscoveryJob>, now: int, ok: nat -> bool, i: nat)
    requires i < |c|
  {
    && ok(i)
    && (forall k :: 0 <= k < i ==>
          !(c[k].orgId == c[i].orgId && c[k].cadence == c[i].cadence
            && Key(c[k].seedDomains) == Key(c[i].seedDomains)))
    && c[i].completedAt.Some?
    && now - c[i].completedAt.value >= Days(c[i].cadence) * 86_400_000_000_000
  }

  /** A pending copy of a run, under a new id and without a completion time. */
  predicate PendingCopy(job: DiscoveryJob, run: DiscoveryJob, id: string) {
    && job.id == id && job.status == "pending" && job.completedAt.None?
    && job.orgId == run.orgId && job.createdBy == run.createdBy && job.seedDomains == run.seedDomains
    && job.cadence == run.cadence && job.depth == run.depth && job.options == run.options
  }

  lemma DispatchesExactly(c: seq<DiscoveryJob>, now: int, ok: nat -> bool, i: nat)
    requires QueryResult(c) && i < |c|
    ensures Dispatches(c, now, ok, i) <==> FirstOfSeries(c, i) && Due(c[i], now) && ok(i)
  {
    FirstExactly(c, i);
    DueExactly(c[i], now);
  }

  /** The jobs are pending copies of the picked rows, in order. */
  predicate Copies(jobs: seq<DiscoveryJob>, c: seq<DiscoveryJob>, ids: nat -> string, at: seq<nat>) {
    && |jobs| == |at|
    && forall p :: 0 <= p < |at| ==> at[p] < |c| && PendingCopy(jobs[p], c[at[p]], ids(at[p]))
  }

  lemma CopiesMore(jobs: seq<DiscoveryJob>, c: seq<DiscoveryJob>, ids: nat -> string, at: seq<nat>, n: nat)
    requires Copies(jobs, c, ids, at) && n < |c|
    ensures Copies(jobs + [NewJob(c[n], ids(n))], c, ids, at + [n])
  {
  }

  predicate Picks(c: seq<DiscoveryJob>, now: int, ok: nat -> bool, i: nat) {
    i < |c| && FirstOfSeries(c, i) && Due(c[i], now) && ok(i)
  }

  lemma {:induction false} PickedInOrder(c: seq<DiscoveryJob>, now: int, ok: nat -> bool, ids: nat -> string, n: nat)
    returns (at: seq<nat>)
    requires n <= |c|
    ensures Increasing(at, n) && Copies(Inserted(c, now, ok, ids, n), c, ids, at)
    ensures forall i: nat :: i < n ==> (i in at <==> Picks(c, now, ok, i))
  {
    at := [];
    if n > 0 {
      at := PickedInOrder(c, now, ok, ids, n - 1);
      IncreasingSnoc(at, n - 1);
      CopiesMore(Inserted(c, now, ok, ids, n - 1), c, ids, at, n - 1);
      if Picks(c, now, ok, n - 1) {
        at := at + [n - 1];
      }
    }
  }

  /** The new jobs: a pending copy of every row that dispatches, in the order of the rows. */
  lemma InsertedExactly(c: seq<DiscoveryJob>, now: int, ok: nat -> bool, ids: nat -> string) returns (at: seq<nat>)
    requires QueryResult(c)
    ensures Increasing(at, |c|) && Copies(Inserted(c, now, ok, ids, |c|), c, ids, at)
    ensures forall i: nat :: i < |c| ==> (i in at <==> Dispatches(c, now, ok, i))
  {
    at := PickedInOrder(c, now, ok, ids, |c|);
    forall i: nat | i < |c| ensures Picks(c, now, ok, i) <==> Dispatches(c, now, ok, i) {
      DispatchesExactly(c, now, ok, i);
    }
  }

  lemma FirstExactly(c: seq<DiscoveryJob>, i: nat)
    requires QueryResult(c) && i < |c|
    ensures FirstOfSeries(c, i) <==> forall k :: 0 <= k < i ==>
              !(c[k].orgId == c[i].orgId && c[k].cadence == c[i].cadence
                && Key(c[k].seedDomains) == Key(c[i].seedDomains))
  {
    forall k | 0 <= k < i
      ensures Series(c[k]) == Series(c[i]) <==>
                c[k].orgId == c[i].orgId && c[k].cadence == c[i].cadence
                && Key(c[k].seedDomains) == Key(c[i].seedDomains)
    {
      SeriesExactly(c[k], c[i]);
    }
  }

  lemma DueExactly(job: DiscoveryJob, now: int)
    requires job.cadence in CADENCE_INTERVAL
    ensures Due(job, now) <==>
              job.completedAt.Some? && now - job.completedAt.value >= Days(job.cadence) * 86_400_000_000_000
  {
  }

  /** Every new job is handed to the queue once, in order, under its own id and for its own organisation. */
  lemma {:induction false} EnqueuedExactly(jobs: seq<DiscoveryJob>)
    ensures |QueueJobs(jobs)| == |jobs|
    ensures forall p :: 0 <= p < |jobs| ==>
              QueueJobs(jobs)[p] == QueueMachine.Job(jobs[p].id, "discovery_run",
                map["job_id" := jobs[p].id, "org_id" := jobs[p].orgId], 0, 0, 0)
  {
    if jobs != [] {
      EnqueuedExactly(jobs[..|jobs| - 1]);
    }
  }

  /** At most one new job per organisation, cadence and seed set, however the seeds are ordered. */
  lemma OneJobPerSeries(c: seq<DiscoveryJob>, now: int, ok: nat -> bool, ids: nat -> string, p: nat, q: nat)
    requires p < q < |Inserted(c, now, ok, ids, |c|)|
    ensures var r := Inserted(c, now, ok, ids, |c|);
            !(r[p].orgId == r[q].orgId && r[p].cadence == r[q].cadence
              && multiset(r[p].seedDomains) == multiset(r[q].seedDomains))
  {
    InsertedDistinct(c, now, ok, ids, |c|);
    var r := Inserted(c, now, ok, ids, |c|);
    if multiset(r[p].seedDomains) == multiset(r[q].seedDomains) {
      PermutationsShareKey(r[p].seedDomains, r[q].seedDomains);
    }
  }

  ghost predicate Dispatched(c: seq<DiscoveryJob>, now: int, ok: nat -> bool, ids: nat -> string, series: string) {
    exists j :: j in Inserted(c, now, ok, ids, |c|) && Series(j) == series
  }

  lemma {:induction false} FirstExists(c: seq<DiscoveryJob>, i: nat) returns (f: nat)
    requires i < |c|
    ensures f <= i && FirstOfSeries(c, f) && Series(c[f]) == Series(c[i])
  {
    if FirstOfSeries(c, i) {
      f := i;
    } else {
      var k :| 0 <= k < i && Series(c[k]) == Series(c[i]);
      f := FirstExists(c, k);
    }
  }

  /** On any rows, the first row of a series alone decides whether the series is dispatched. */
  lemma DecidedByFirstRow(c: seq<DiscoveryJob>, now: int, ok: nat -> bool, ids: nat -> string, f: nat)
    requires f < |c| && FirstOfSeries(c, f) && ok(f)
    ensures Dispatched(c, now, ok, ids, Series(c[f])) <==> Due(c[f], now)
  {
    NewJobSameSeries(c[f], ids(f));
    if Due(c[f], now) {
      var p := IsInserted(c, now, ok, ids, |c|, f);
      assert Inserted(c, now, ok, ids, |c|)[p] in Inserted(c, now, ok, ids, |c|);
    }
    var all := Inserted(c, now, ok, ids, |c|);
    if p :| 0 <= p < |all| && Series(all[p]) == Series(c[f]) {
      var i := Origin(c, now, ok, ids, |c|, p);
      NewJobSameSeries(c[i], ids(i));
      assert i == f;
    }
  }

  /** Descending completion time, rows without one first, as in a descending PostgreSQL sort. */
  predicate NotNewer(later: DiscoveryJob, earlier: DiscoveryJob) {
    earlier.completedAt.Some? ==>
      later.completedAt.Some? && later.completedAt.value <= earlier.completedAt.value
  }

  /** Within a series, no row completed after an earlier one. */
  predicate NewestFirst(c: seq<DiscoveryJob>) {
    forall i, k :: 0 <= i < k < |c| && Series(c[i]) == Series(c[k]) ==> NotNewer(c[k], c[i])
  }

  /** The row is a newest one of its series. */
  predicate Newest(c: seq<DiscoveryJob>, f: nat)
    requires f < |c|
  {
    forall k :: 0 <= k < |c| && Series(c[k]) == Series(c[f]) ==> NotNewer(c[k], c[f])
  }

  /** Every run of the series ended at least one interval ago. */
  predicate AllDue(c: seq<DiscoveryJob>, now: int, series: string) {
    forall k :: 0 <= k < |c| && Series(c[k]) == series ==> Due(c[k], now)
  }

  /** Whether a series is dispatched agrees with whether its runs are all due, at every time, if and only if
      the first row of the series is a newest one. */
  lemma RightAtAllTimesExactly(c: seq<DiscoveryJob>, ok: nat -> bool, ids: nat -> string, f: nat)
    requires QueryResult(c) && f < |c| && FirstOfSeries(c, f) && ok(f)
    ensures (forall now :: Dispatched(c, now, ok, ids, Series(c[f])) <==> AllDue(c, now, Series(c[f])))
            <==> Newest(c, f)
  {
    var series := Series(c[f]);
    forall k | 0 <= k < |c| && Series(c[k]) == series ensures c[k].cadence == c[f].cadence {
      SeriesExactly(c[f], c[k]);
    }
    forall now ensures Dispatched(c, now, ok, ids, series) <==> Due(c[f], now) {
      DecidedByFirstRow(c, now, ok, ids, f);
    }
    if k :| 0 <= k < |c| && Series(c[k]) == series && !NotNewer(c[k], c[f]) {
      var now := c[f].completedAt.value + CADENCE_INTERVAL[c[f].cadence];
      assert Dispatched(c, now, ok, ids, series) && !Due(c[k], now);
    } else {
      assert forall now :: Due(c[f], now) ==> AllDue(c, now, series);
    }
  }

  ghost predicate HasRun(c: seq<DiscoveryJob>, series: string) {
    exists k :: 0 <= k < |c| && Series(c[k]) == series
  }

  predicate FirstRowsNewest(c: seq<DiscoveryJob>) {
    forall f :: 0 <= f < |c| && FirstOfSeries(c, f) ==> Newest(c, f)
  }

  lemma NoRunNotDispatched(c: seq<DiscoveryJob>, now: int, ok: nat -> bool, ids: nat -> string, series: string)
    requires !HasRun(c, series)
    ensures !Dispatched(c, now, ok, ids, series)
  {
    var all := Inserted(c, now, ok, ids, |c|);
    forall p | 0 <= p < |all| ensures Series(all[p]) != series {
      var i := Origin(c, now, ok, ids, |c|, p);
      NewJobSameSeries(c[i], ids(i));
    }
  }

  /** With successful inserts, a series is at every time dispatched exactly when it has a run and every run of
      it, the newest included, ended at least one interval ago, if and only if the first row of each series is a
      newest one. */
  lemma DispatchedExactlyWhenDue(c: seq<DiscoveryJob>, ok: nat -> bool, ids: nat -> string)
    requires QueryResult(c) && forall i: nat :: ok(i)
    ensures (forall now, series ::
              Dispatched(c, now, ok, ids, series) <==> HasRun(c, series) && AllDue(c, now, series))
            <==> FirstRowsNewest(c)
  {
    forall f | 0 <= f < |c| && FirstOfSeries(c, f)
      ensures (forall now :: Dispatched(c, now, ok, ids, Series(c[f])) <==> AllDue(c, now, Series(c[f])))
              <==> Newest(c, f)
    {
      RightAtAllTimesExactly(c, ok, ids, f);
    }
    if FirstRowsNewest(c) {
      forall now, series
        ensures Dispatched(c, now, ok, ids, series) <==> HasRun(c, series) && AllDue(c, now, series)
      {
        if k :| 0 <= k < |c| && Series(c[k]) == series {
          var f := FirstExists(c, k);
        } else {
          NoRunNotDispatched(c, now, ok, ids, series);
        }
      }
    }
  }

  // ---------- the order of the query ----------

  /** How PostgreSQL compares text arrays, element by element in the order of the column's collation. */
  predicate ListBelow(a: seq<string>, b: seq<string>, collation: (string, string) -> bool) {
    if b == [] then false
    else if a == [] then true
    else if a[0] == b[0] then ListBelow(a[1..], b[1..], collation)
    else collation(a[0], b[0])
  }

  /** Sorted by organisation, seed list, and completion time descending. */
  predicate QueryOrder(c: seq<DiscoveryJob>, collation: (string, string) -> bool) {
    forall i, k :: 0 <= i < k < |c| ==>
      || Less(c[i].orgId, c[k].orgId)
      || (c[i].orgId == c[k].orgId
          && (|| ListBelow(c[i].seedDomains, c[k].seedDomains, collation)
              || (c[i].seedDomains == c[k].seedDomains && NotNewer(c[k], c[i]))))
  }

  /** Within an organisation, a set of comma-free seeds is always stored in one order. */
  predicate OneStoredOrder(c: seq<DiscoveryJob>) {
    && (forall i :: 0 <= i < |c| ==> CommaFreeList(c[i].seedDomains))
    && forall i, k :: 0 <= i < k < |c| && c[i].orgId == c[k].orgId ==>
         (multiset(c[i].seedDomains) == multiset(c[k].seedDomains) ==> c[i].seedDomains == c[k].seedDomains)
  }

  lemma {:induction false} ListNotBelowItself(a: seq<string>, collation: (string, string) -> bool)
    ensures !ListBelow(a, a, collation)
  {
    if a != [] {
      ListNotBelowItself(a[1..], collation);
    }
  }

  lemma {:induction false} NotLessItself(a: string)
    ensures !Less(a, a)
  {
    if a != "" {
      NotLessItself(a[1..]);
    }
  }

  /** What a caller can see to: when each seed set is stored in one order, the query delivers every series
      newest first, whatever the collation. */
  lemma OneOrderGivesNewestFirst(c: seq<DiscoveryJob>, collation: (string, string) -> bool)
    requires QueryResult(c) && QueryOrder(c, collation) && OneStoredOrder(c)
    ensures NewestFirst(c) && FirstRowsNewest(c)
  {
    forall i, k | 0 <= i < k < |c| && Series(c[i]) == Series(c[k]) ensures NotNewer(c[k], c[i]) {
      SeriesExactly(c[i], c[k]);
      KeyIdentifiesSet(c[i].seedDomains, c[k].seedDomains);
      ListNotBelowItself(c[i].seedDomains, collation);
      NotLessItself(c[i].orgId);
    }
    forall f | 0 <= f < |c| && FirstOfSeries(c, f) ensures Newest(c, f) {
      assert forall k :: 0 <= k < |c| && Series(c[k]) == Series(c[f]) ==> f <= k;
    }
  }

  function Run(seeds: seq<string>, completed: int): DiscoveryJob {
    DiscoveryJob("", "o", None, seeds, "completed", "daily", 2, map[], Some(completed))
  }

  /** A set stored in two orders can arrive oldest first although the rows are in the query's order; the
      series is then dispatched although its newest run has only just ended. */
  lemma StoredOrderMatters(ok: nat -> bool, ids: nat -> string, collation: (string, string) -> bool)
    requires ok(0) && collation("a", "b")
    ensures var c := [Run(["a", "b"], 0), Run(["b", "a"], 24 * HOUR)];
            && QueryResult(c) && QueryOrder(c, collation)
            && Series(c[0]) == Series(c[1])
            && Dispatched(c, 24 * HOUR, ok, ids, Series(c[1]))
            && !Due(c[1], 24 * HOUR)
  {
    var c := [Run(["a", "b"], 0), Run(["b", "a"], 24 * HOUR)];
    assert ["a", "b"] == ["a"] + ["b"] && ["b", "a"] == ["b"] + ["a"];
    assert multiset(["a", "b"]) == multiset(["b", "a"]);
    PermutationsShareKey(["a", "b"], ["b", "a"]);
    assert ListBelow(c[0].seedDomains, c[1].seedDomains, collation);
    DecidedByFirstRow(c, 24 * HOUR, ok, ids, 0);
  }
}
