/** detectDeadSubdomains of internal/scheduler/scheduler.go. */
module DeadSubdomains {
  import opened Sequences
  import opened Wrappers

  datatype Subdomain = Subdomain(orgId: string, fqdn: string, consecutiveFailures: int, dead: bool,
                                 lastCheckedAt: Option<int>)

  /** A row after its DNS check, before it is saved. */
  function Checked(sub: Subdomain, resolves: bool, now: int): Subdomain {
    var s := sub.(lastCheckedAt := Some(now));
    if resolves then s.(consecutiveFailures := 0, dead := false)
    else
      var n := s.consecutiveFailures + 1;
      s.(consecutiveFailures := n, dead := s.dead || n >= 3)
  }

  /** The check makes the job try to create a dead alert. */
  predicate Alerts(sub: Subdomain, resolves: bool) {
    !sub.dead && !resolves && sub.consecutiveFailures + 1 >= 3
  }

  /** The alert that the job tries to create: the subdomain, and how often it failed. */
  datatype Alert = Alert(orgId: string, fqdn: string, failures: int)

  function AlertsOf(rows: seq<Subdomain>, resolves: nat -> bool, n: nat): seq<Alert>
    requires n <= |rows|
  {
    if n == 0 then []
    else
      var sub := rows[n - 1];
      AlertsOf(rows, resolves, n - 1)
      + if Alerts(sub, resolves(n - 1)) then [Alert(sub.orgId, sub.fqdn, sub.consecutiveFailures + 1)] else []
  }

  /** One run over the table: only rows not yet dead are selected, and each is checked and saved. */
  method DetectDeadSubdomains(table: array<Subdomain>, now: int, resolves: nat -> bool, saved: nat -> bool)
    returns (alerts: seq<Alert>)
    modifies table
    ensures alerts == AlertsOf(old(table[..]), resolves, table.Length)
    ensures table[..] == Passed(old(table[..]), Pass(now, resolves, saved))
  {
    alerts := [];
    ghost var rows := table[..];
    for i := 0 to table.Length
      invariant alerts == AlertsOf(rows, resolves, i)
      invariant forall k :: i <= k < table.Length ==> table[k] == rows[k]
      invariant forall k :: 0 <= k < i ==> table[k] == PassedRow(rows[k], now, resolves(k), saved(k))
    {
      if table[i].dead {
        continue;
      }
      alerts := CheckRow(table, i, now, resolves(i), saved(i), alerts);
    }
    AllPassed(rows, table[..], now, resolves, saved);
  }

  /** One iteration: the check, the alert when it is the third failure, and the save. */
  method CheckRow(table: array<Subdomain>, i: nat, now: int, resolves: bool, saved: bool, before: seq<Alert>)
    returns (alerts: seq<Alert>)
    requires i < table.Length && !table[i].dead
    modifies table
    ensures table[..] == old(table[..])[i := if saved then Checked(old(table[i]), resolves, now) else old(table[i])]
    ensures var sub := old(table[i]);
            alerts == before + if !resolves && sub.consecutiveFailures >= 2
                               then [Alert(sub.orgId, sub.fqdn, sub.consecutiveFailures + 1)] else []
  {
    alerts := before;
    var sub := table[i].(lastCheckedAt := Some(now));
    if !resolves {
      sub := sub.(consecutiveFailures := sub.consecutiveFailures + 1);
      if sub.consecutiveFailures >= 3 {
        sub := sub.(dead := true);
        alerts := alerts + [Alert(sub.orgId, sub.fqdn, sub.consecutiveFailures)];
      }
    } else {
      sub := sub.(consecutiveFailures := 0, dead := false);
    }
    if saved {
      table[i] := sub;
    }
  }

  /** A run of the job over the whole table. */
  datatype Pass = Pass(now: int, resolves: nat -> bool, saved: nat -> bool)

  function PassedRow(sub: Subdomain, now: int, resolves: bool, saved: bool): Subdomain {
    if !sub.dead && saved then Checked(sub, resolves, now) else sub
  }

  function Passed(rows: seq<Subdomain>, p: Pass): seq<Subdomain> {
    seq(|rows|, i requires 0 <= i < |rows| => PassedRow(rows[i], p.now, p.resolves(i), p.saved(i)))
  }

  lemma AllPassed(rows: seq<Subdomain>, after: seq<Subdomain>, now: int, resolves: nat -> bool, saved: nat -> bool)
    requires |after| == |rows|
    requires forall k :: 0 <= k < |rows| ==> after[k] == PassedRow(rows[k], now, resolves(k), saved(k))
    ensures after == Passed(rows, Pass(now, resolves, saved))
  {
  }

  // ---------- one subdomain over many runs ----------

  /** A run of the job as one subdomain sees it. */
  datatype Visit = Visit(now: int, resolves: bool, saved: bool)

  function New(orgId: string, fqdn: string): Subdomain {
    Subdomain(orgId, fqdn, 0, false, None)
  }

  function After(sub: Subdomain, visits: seq<Visit>): Subdomain {
    if visits == [] then sub
    else
      var before, v := After(sub, visits[..|visits| - 1]), visits[|visits| - 1];
      PassedRow(before, v.now, v.resolves, v.saved)
  }

  predicate AlertAt(sub: Subdomain, visits: seq<Visit>, k: nat)
    requires k < |visits|
  {
    Alerts(After(sub, visits[..k]), visits[k].resolves)
  }

  /** The results of the checks whose saves went through. */
  function Results(visits: seq<Visit>): seq<bool> {
    if visits == [] then []
    else
      var v := visits[|visits| - 1];
      Results(visits[..|visits| - 1]) + if v.saved then [v.resolves] else []
  }

  predicate ThreeFailures(results: seq<bool>) {
    exists i :: 0 <= i && i + 2 < |results| && !results[i] && !results[i + 1] && !results[i + 2]
  }

  /** Length of the run of failures at the end. */
  function Streak(results: seq<bool>): nat {
    if results == [] || results[|results| - 1] then 0 else 1 + Streak(results[..|results| - 1])
  }

  lemma {:induction false} StreakIsFailures(results: seq<bool>)
    ensures Streak(results) <= |results|
    ensures forall i :: |results| - Streak(results) <= i < |results| ==> !results[i]
    ensures Streak(results) < |results| ==> results[|results| - Streak(results) - 1]
  {
    if results != [] && !results[|results| - 1] {
      StreakIsFailures(results[..|results| - 1]);
    }
  }

  /** Three failures in a row are in the history exactly when they were before, or the streak reaches three. */
  lemma ThreeFailuresSnoc(results: seq<bool>, r: bool)
    ensures ThreeFailures(results + [r]) <==> ThreeFailures(results) || Streak(results + [r]) >= 3
  {
    var all := results + [r];
    StreakIsFailures(all);
    if ThreeFailures(results) {
      var i :| 0 <= i && i + 2 < |results| && !results[i] && !results[i + 1] && !results[i + 2];
      assert !all[i] && !all[i + 1] && !all[i + 2];
    }
    if Streak(all) >= 3 {
      assert !all[|all| - 3] && !all[|all| - 3 + 1] && !all[|all| - 3 + 2];
    }
    if i :| 0 <= i && i + 2 < |all| && !all[i] && !all[i + 1] && !all[i + 2] {
      if i + 2 < |results| {
        assert !results[i] && !results[i + 1] && !results[i + 2];
      } else if Streak(all) < 3 {
        assert all[|all| - Streak(all) - 1];
      }
    }
  }

  /** A subdomain is dead exactly when its saved checks contain three failures in a row; until then its counter
      is the length of the current run of failures, at most two. */
  lemma {:induction false} DeadExactly(orgId: string, fqdn: string, visits: seq<Visit>)
    ensures var sub, r := After(New(orgId, fqdn), visits), Results(visits);
            && (sub.dead <==> ThreeFailures(r))
            && (!sub.dead ==> sub.consecutiveFailures == Streak(r) <= 2)
    decreases |visits|
  {
    if visits != [] {
      var front, v := visits[..|visits| - 1], visits[|visits| - 1];
      DeadExactly(orgId, fqdn, front);
      var r := Results(front);
      if v.saved {
        ThreeFailuresSnoc(r, v.resolves);
        assert (r + [v.resolves])[..|r|] == r;
      } else {
        assert r + [] == r;
      }
    }
  }

  predicate AllSaved(visits: seq<Visit>) {
    forall i :: 0 <= i < |visits| ==> visits[i].saved
  }

  /** When saves succeed, an alert is attempted exactly at the visit that completes the first three failures. */
  lemma AlertAtTransition(orgId: string, fqdn: string, visits: seq<Visit>, k: nat)
    requires AllSaved(visits) && k < |visits|
    ensures AlertAt(New(orgId, fqdn), visits, k) <==>
              !ThreeFailures(Results(visits[..k])) && ThreeFailures(Results(visits[..k + 1]))
  {
    DeadExactly(orgId, fqdn, visits[..k]);
    DeadExactly(orgId, fqdn, visits[..k + 1]);
    assert visits[..k + 1][..k] == visits[..k];
  }

  function AlertCount(sub: Subdomain, visits: seq<Visit>): nat {
    if visits == [] then 0
    else
      var n := |visits| - 1;
      AlertCount(sub, visits[..n]) + if AlertAt(sub, visits, n) then 1 else 0
  }

  /** Visit k would complete the first three saved failures in a row. */
  predicate AtThreshold(visits: seq<Visit>, k: nat)
    requires k < |visits|
  {
    !ThreeFailures(Results(visits[..k])) && Streak(Results(visits[..k])) == 2 && !visits[k].resolves
  }

  /** Whatever saves fail, an alert is attempted exactly at the failing checks that find two saved failures just
      before them and never three in a row. */
  lemma AlertAtExactly(orgId: string, fqdn: string, visits: seq<Visit>, k: nat)
    requires k < |visits|
    ensures AlertAt(New(orgId, fqdn), visits, k) <==> AtThreshold(visits, k)
  {
    DeadExactly(orgId, fqdn, visits[..k]);
  }

  /** How many checks at the threshold could not be saved. */
  function LostSaves(visits: seq<Visit>): nat {
    if visits == [] then 0
    else
      var n := |visits| - 1;
      LostSaves(visits[..n]) + if AtThreshold(visits, n) && !visits[n].saved then 1 else 0
  }

  /** One alert for a dead subdomain, none for a live one, plus one for each save lost at the threshold. So a
      dead subdomain was announced exactly once if and only if no save failed at the threshold. */
  lemma {:induction false} AlertsExactly(orgId: string, fqdn: string, visits: seq<Visit>)
    ensures AlertCount(New(orgId, fqdn), visits)
            == (if ThreeFailures(Results(visits)) then 1 else 0) + LostSaves(visits)
    decreases |visits|
  {
    if visits != [] {
      var n := |visits| - 1;
      var r := Results(visits[..n]);
      AlertsExactly(orgId, fqdn, visits[..n]);
      AlertAtExactly(orgId, fqdn, visits, n);
      if visits[n].saved {
        DeadExactly(orgId, fqdn, visits[..n]);
        ThreeFailuresSnoc(r, visits[n].resolves);
        assert (r + [visits[n].resolves])[..|r|] == r;
      } else {
        assert r + [] == r;
      }
    }
  }

  lemma OneMoreVisit(sub: Subdomain, visits: seq<Visit>, v: Visit)
    ensures var before := After(sub, visits);
            && After(sub, visits + [v])
               == (if !before.dead && v.saved then Checked(before, v.resolves, v.now) else before)
            && AlertCount(sub, visits + [v])
               == AlertCount(sub, visits) + (if Alerts(before, v.resolves) then 1 else 0)
  {
    assert (visits + [v])[..|visits|] == visits;
  }

  /** With a failed save at the threshold the same subdomain is announced twice. */
  lemma LostSaveAlertsAgain()
    ensures var f, lost := Visit(0, false, true), Visit(0, false, false);
            AlertCount(New("o", "s"), [f, f, lost, f]) == 2
  {
    var sub, f, lost := New("o", "s"), Visit(0, false, true), Visit(0, false, false);
    OneMoreVisit(sub, [], f);
    OneMoreVisit(sub, [f], f);
    OneMoreVisit(sub, [f, f], lost);
    OneMoreVisit(sub, [f, f, lost], f);
    assert [] + [f] == [f] && [f] + [f] == [f, f];
    assert [f, f] + [lost] == [f, f, lost] && [f, f, lost] + [f] == [f, f, lost, f];
  }

  // ---------- what a row records ----------

  /** When the subdomain was checked last: at its last saved check before it was dead. */
  function LastCheck(visits: seq<Visit>): Option<int> {
    if visits == [] then None
    else
      var front, v := visits[..|visits| - 1], visits[|visits| - 1];
      if v.saved && !ThreeFailures(Results(front)) then Some(v.now) else LastCheck(front)
  }

  /** The whole row after any checks and saves, told from them alone. */
  lemma {:induction false} RowExactly(orgId: string, fqdn: string, visits: seq<Visit>)
    ensures var sub := After(New(orgId, fqdn), visits);
            && sub.orgId == orgId && sub.fqdn == fqdn
            && sub.dead == ThreeFailures(Results(visits))
            && sub.lastCheckedAt == LastCheck(visits)
            && sub.consecutiveFailures == if sub.dead then 3 else Streak(Results(visits))
    decreases |visits|
  {
    DeadExactly(orgId, fqdn, visits);
    if visits != [] {
      DeadExactly(orgId, fqdn, visits[..|visits| - 1]);
      RowExactly(orgId, fqdn, visits[..|visits| - 1]);
    }
  }

  // ---------- the job over the whole table ----------

  function TableAfter(rows: seq<Subdomain>, passes: seq<Pass>): (r: seq<Subdomain>)
    ensures |r| == |rows|
  {
    if passes == [] then rows else Passed(TableAfter(rows, passes[..|passes| - 1]), passes[|passes| - 1])
  }

  /** What the passes are for row i. */
  function VisitsOf(passes: seq<Pass>, i: nat): seq<Visit> {
    seq(|passes|, n requires 0 <= n < |passes| =>
      Visit(passes[n].now, passes[n].resolves(i), passes[n].saved(i)))
  }

  lemma {:induction false} TableRunsRows(rows: seq<Subdomain>, passes: seq<Pass>, i: nat)
    requires i < |rows|
    ensures TableAfter(rows, passes)[i] == After(rows[i], VisitsOf(passes, i))
    decreases |passes|
  {
    if passes != [] {
      var n := |passes| - 1;
      TableRunsRows(rows, passes[..n], i);
      assert VisitsOf(passes, i)[..n] == VisitsOf(passes[..n], i);
    }
  }

  lemma {:induction false} AlertsInOrder(rows: seq<Subdomain>, resolves: nat -> bool, n: nat) returns (at: seq<nat>)
    requires n <= |rows|
    ensures Increasing(at, n) && |AlertsOf(rows, resolves, n)| == |at|
    ensures forall p :: 0 <= p < |at| ==>
              var sub := rows[at[p]];
              AlertsOf(rows, resolves, n)[p] == Alert(sub.orgId, sub.fqdn, sub.consecutiveFailures + 1)
    ensures forall i: nat :: i < n ==> (i in at <==> Alerts(rows[i], resolves(i)))
  {
    at := [];
    if n > 0 {
      at := AlertsInOrder(rows, resolves, n - 1);
      IncreasingSnoc(at, n - 1);
      if Alerts(rows[n - 1], resolves(n - 1)) {
        at := at + [n - 1];
      }
    }
  }

  predicate AllNew(rows: seq<Subdomain>) {
    forall i :: 0 <= i < |rows| ==> rows[i] == Subdomain(rows[i].orgId, rows[i].fqdn, 0, false, None)
  }

  /** Run n of the job over a table of new subdomains announces, in the order of the table, exactly those whose check
      fails with two saved failures just before it and never three in a row; each with its own name, its organisation
      and a count of three. */
  lemma AlertsOfRun(rows: seq<Subdomain>, passes: seq<Pass>, n: nat) returns (at: seq<nat>)
    requires AllNew(rows) && n < |passes|
    ensures Increasing(at, |rows|)
    ensures forall i: nat :: i < |rows| ==> (i in at <==> AtThreshold(VisitsOf(passes, i), n))
    ensures var alerts := AlertsOf(TableAfter(rows, passes[..n]), passes[n].resolves, |rows|);
            && |alerts| == |at|
            && forall p :: 0 <= p < |at| ==> alerts[p] == Alert(rows[at[p]].orgId, rows[at[p]].fqdn, 3)
  {
    var table := TableAfter(rows, passes[..n]);
    at := AlertsInOrder(table, passes[n].resolves, |rows|);
    forall i: nat | i < |rows|
      ensures Alerts(table[i], passes[n].resolves(i)) <==> AtThreshold(VisitsOf(passes, i), n)
      ensures Alerts(table[i], passes[n].resolves(i)) ==>
                Alert(table[i].orgId, table[i].fqdn, table[i].consecutiveFailures + 1)
                == Alert(rows[i].orgId, rows[i].fqdn, 3)
    {
      var visits := VisitsOf(passes, i);
      TableRunsRows(rows, passes[..n], i);
      assert visits[..n] == VisitsOf(passes[..n], i);
      AlertAtExactly(rows[i].orgId, rows[i].fqdn, visits, n);
      RowExactly(rows[i].orgId, rows[i].fqdn, visits[..n]);
    }
  }
}
