/** The map-building and diff loops of ServiceDiff in internal/api/handlers/admin_ops.go. */
module ServiceDiff {
  import opened Wrappers

  /** A current service, or a row of service_history; createdAt orders the latter. */
  datatype Service = Service(port: int, protocol: string, service: string, version: string, state: string,
                             createdAt: int)

  datatype Change = Appeared | Changed | Disappeared

  datatype DiffRow = DiffRow(port: int, protocol: string, service: string, change: Change,
                             currentState: string, prevState: string)

  // ---------- the map key ----------

  function DigitChar(d: nat): (c: char)
    requires d < 10
    ensures '0' <= c <= '9' && c as int == '0' as int + d
  {
    ('0' as int + d) as char
  }

  function Digits(n: nat): string {
    if n < 10 then [DigitChar(n)] else Digits(n / 10) + [DigitChar(n % 10)]
  }

  function Decimal(n: int): string {
    if n < 0 then "-" + Digits(-n) else Digits(n)
  }

  function Key(port: int, protocol: string): string {
    Decimal(port) + "/" + protocol
  }

  lemma {:induction false} DigitsOnly(n: nat)
    ensures Digits(n) != "" && forall i :: 0 <= i < |Digits(n)| ==> '0' <= Digits(n)[i] <= '9'
  {
    if n >= 10 {
      DigitsOnly(n / 10);
    }
  }

  lemma {:induction false} DigitsInjective(m: nat, n: nat)
    requires Digits(m) == Digits(n)
    ensures m == n
  {
    var s, t := Digits(m), Digits(n);
    DigitsOnly(m / 10);
    DigitsOnly(n / 10);
    assert s[|s| - 1] == DigitChar(m % 10) && t[|t| - 1] == DigitChar(n % 10);
    if m >= 10 && n >= 10 {
      assert s[..|s| - 1] == Digits(m / 10) && t[..|t| - 1] == Digits(n / 10);
      DigitsInjective(m / 10, n / 10);
    }
  }

  /** Different ports or protocols never share a key. */
  lemma KeyInjective(port: int, protocol: string, port': int, protocol': string)
    requires Key(port, protocol) == Key(port', protocol')
    ensures port == port' && protocol == protocol'
  {
    var a, b := Decimal(port), Decimal(port');
    DigitsOnly(if port < 0 then -port else port);
    DigitsOnly(if port' < 0 then -port' else port');
    assert '/' !in a && '/' !in b;
    assert Key(port, protocol)[|a|] == '/' && Key(port', protocol')[|b|] == '/';
    assert |a| == |b|;
    assert a == Key(port, protocol)[..|a|] && b == Key(port', protocol')[..|b|];
    assert protocol == Key(port, protocol)[|a| + 1..] && protocol' == Key(port', protocol')[|b| + 1..];
    if port < 0 {
      assert a[0] == '-' && a[1..] == Digits(-port) && b[1..] == Digits(-port');
      DigitsInjective(-port, -port');
    } else {
      assert b[0] != '-';
      DigitsInjective(port, port');
    }
  }

  // ---------- the two maps ----------

  function KeyOf(s: Service): string {
    Key(s.port, s.protocol)
  }

  /** Later rows overwrite earlier ones. */
  function CurrentMap(rows: seq<Service>): map<string, Service> {
    if rows == [] then map[]
    else CurrentMap(rows[..|rows| - 1])[KeyOf(rows[|rows| - 1]) := rows[|rows| - 1]]
  }

  /** Earlier rows stay. */
  function HistoryMap(rows: seq<Service>): map<string, Service> {
    if rows == [] then map[]
    else
      var m, last := HistoryMap(rows[..|rows| - 1]), rows[|rows| - 1];
      if KeyOf(last) in m then m else m[KeyOf(last) := last]
  }

  predicate WellKeyed(m: map<string, Service>) {
    forall k :: k in m ==> KeyOf(m[k]) == k
  }

  lemma OneRowMore(rows: seq<Service>, i: nat)
    requires i < |rows|
    ensures CurrentMap(rows[..i + 1]) == CurrentMap(rows[..i])[KeyOf(rows[i]) := rows[i]]
    ensures HistoryMap(rows[..i + 1]) == var m := HistoryMap(rows[..i]);
                                         if KeyOf(rows[i]) in m then m else m[KeyOf(rows[i]) := rows[i]]
  {
    assert rows[..i + 1][..i] == rows[..i];
  }

  lemma WellKeyedMore(m: map<string, Service>, s: Service)
    requires WellKeyed(m)
    ensures WellKeyed(m[KeyOf(s) := s])
  {
  }

  method BuildCurrent(current: seq<Service>) returns (currentMap: map<string, Service>)
    ensures currentMap == CurrentMap(current) && WellKeyed(currentMap)
  {
    currentMap := map[];
    for i := 0 to |current|
      invariant currentMap == CurrentMap(current[..i]) && WellKeyed(currentMap)
    {
      OneRowMore(current, i);
      WellKeyedMore(currentMap, current[i]);
      currentMap := currentMap[KeyOf(current[i]) := current[i]];
    }
    assert current[..|current|] == current;
  }

  method BuildHistory(history: seq<Service>) returns (historyMap: map<string, Service>)
    ensures historyMap == HistoryMap(history) && WellKeyed(historyMap)
  {
    historyMap := map[];
    for i := 0 to |history|
      invariant historyMap == HistoryMap(history[..i]) && WellKeyed(historyMap)
    {
      OneRowMore(history, i);
      WellKeyedMore(historyMap, history[i]);
      if KeyOf(history[i]) !in historyMap {
        historyMap := historyMap[KeyOf(history[i]) := history[i]];
      }
    }
    assert history[..|history|] == history;
  }

  method BuildMaps(current: seq<Service>, history: seq<Service>)
    returns (currentMap: map<string, Service>, historyMap: map<string, Service>)
    ensures currentMap == CurrentMap(current) && historyMap == HistoryMap(history)
    ensures WellKeyed(currentMap) && WellKeyed(historyMap)
  {
    currentMap := BuildCurrent(current);
    historyMap := BuildHistory(history);
  }

  lemma {:induction false} KeyInHistory(rows: seq<Service>, i: nat)
    requires i < |rows|
    ensures KeyOf(rows[i]) in HistoryMap(rows)
  {
    if i < |rows| - 1 {
      KeyInHistory(rows[..|rows| - 1], i);
    }
  }

  /** The first row of a key is the one the map holds. */
  lemma {:induction false} FirstOfKey(rows: seq<Service>, k: string) returns (f: nat)
    requires k in HistoryMap(rows)
    ensures f < |rows| && rows[f] == HistoryMap(rows)[k] && KeyOf(rows[f]) == k
    ensures forall j :: 0 <= j < f ==> KeyOf(rows[j]) != k
  {
    var front := rows[..|rows| - 1];
    if k in HistoryMap(front) {
      f := FirstOfKey(front, k);
      assert rows[f] == front[f];
      forall j | 0 <= j < f ensures KeyOf(rows[j]) != k {
        assert rows[j] == front[j];
      }
    } else {
      f := |rows| - 1;
      forall j | 0 <= j < f ensures KeyOf(rows[j]) != k {
        KeyInHistory(front, j);
      }
    }
  }

  /** The rows are fetched newest first, so the history map holds the newest fetched row of each key. */
  lemma HistoryMapIsNewest(rows: seq<Service>, i: nat)
    requires forall p, q :: 0 <= p < q < |rows| ==> rows[p].createdAt >= rows[q].createdAt
    requires i < |rows|
    ensures var k := KeyOf(rows[i]);
            && k in HistoryMap(rows) && HistoryMap(rows)[k] in rows && KeyOf(HistoryMap(rows)[k]) == k
            && HistoryMap(rows)[k].createdAt >= rows[i].createdAt
  {
    KeyInHistory(rows, i);
    var f := FirstOfKey(rows, KeyOf(rows[i]));
    assert f <= i;
  }

  // ---------- the diff ----------

  function RowKey(r: DiffRow): string {
    Key(r.port, r.protocol)
  }

  /** The row the loops append for a key, if any. */
  function RowFor(k: string, cur: map<string, Service>, hist: map<string, Service>): Option<DiffRow> {
    if k in cur then
      var c := cur[k];
      if k !in hist then Some(DiffRow(c.port, c.protocol, c.service, Appeared, c.state, ""))
      else if hist[k].state != c.state || hist[k].version != c.version then
        Some(DiffRow(c.port, c.protocol, c.service, Changed, c.state, hist[k].state))
      else None
    else if k in hist then
      Some(DiffRow(hist[k].port, hist[k].protocol, hist[k].service, Disappeared, "", hist[k].state))
    else None
  }

  predicate DistinctKeys(rows: seq<DiffRow>) {
    forall i, j :: 0 <= i < j < |rows| ==> RowKey(rows[i]) != RowKey(rows[j])
  }

  /** The rows are those of the given keys, one each, in some order. */
  ghost predicate RowsOf(rows: seq<DiffRow>, keys: set<string>, cur: map<string, Service>, hist: map<string, Service>) {
    && DistinctKeys(rows)
    && (forall i :: 0 <= i < |rows| ==> RowKey(rows[i]) in keys && RowFor(RowKey(rows[i]), cur, hist) == Some(rows[i]))
    && (forall k :: k in keys && RowFor(k, cur, hist).Some? ==> RowFor(k, cur, hist).value in rows)
  }

  lemma RowForKey(k: string, cur: map<string, Service>, hist: map<string, Service>)
    requires WellKeyed(cur) && WellKeyed(hist) && RowFor(k, cur, hist).Some?
    ensures RowKey(RowFor(k, cur, hist).value) == k
  {
    assert k in cur ==> KeyOf(cur[k]) == k;
    assert k in hist ==> KeyOf(hist[k]) == k;
  }

  lemma RowsOfMore(rows: seq<DiffRow>, keys: set<string>, k: string, cur: map<string, Service>,
                   hist: map<string, Service>)
    requires WellKeyed(cur) && WellKeyed(hist) && RowsOf(rows, keys, cur, hist) && k !in keys
    ensures RowsOf(rows + match RowFor(k, cur, hist) { case Some(r) => [r] case None => [] }, keys + {k}, cur, hist)
  {
    if RowFor(k, cur, hist).Some? {
      RowForKey(k, cur, hist);
      var all := rows + [RowFor(k, cur, hist).value];
      assert forall i :: 0 <= i < |rows| ==> all[i] == rows[i];
      assert all[|rows|] == RowFor(k, cur, hist).value;
    } else {
      assert rows + [] == rows;
    }
  }

  /** The loop over the current map; Go visits the keys in any order. */
  method DiffCurrent(cur: map<string, Service>, hist: map<string, Service>) returns (diffs: seq<DiffRow>)
    requires WellKeyed(cur) && WellKeyed(hist)
    ensures RowsOf(diffs, cur.Keys, cur, hist)
  {
    diffs := [];
    ghost var visited: set<string> := {};
    var todo := cur.Keys;
    while todo != {}
      invariant todo <= cur.Keys && visited == cur.Keys - todo
      invariant RowsOf(diffs, visited, cur, hist)
      decreases |todo|
    {
      var key :| key in todo;
      todo := todo - {key};
      var c := cur[key];
      var more: seq<DiffRow> := [];
      if key !in hist {
        more := [DiffRow(c.port, c.protocol, c.service, Appeared, c.state, "")];
      } else if hist[key].state != c.state || hist[key].version != c.version {
        more := [DiffRow(c.port, c.protocol, c.service, Changed, c.state, hist[key].state)];
      }
      RowsOfMore(diffs, visited, key, cur, hist);
      diffs := diffs + more;
      visited := visited + {key};
    }
    assert visited == cur.Keys;
  }

  /** One pass of the loop over the history map. */
  method VisitHistory(key: string, cur: map<string, Service>, hist: map<string, Service>, before: seq<DiffRow>,
                      ghost visited: set<string>)
    returns (diffs: seq<DiffRow>)
    requires WellKeyed(cur) && WellKeyed(hist) && RowsOf(before, visited, cur, hist)
    requires key in hist && (key in cur <==> key in visited)
    ensures RowsOf(diffs, visited + {key}, cur, hist)
  {
    if key in cur {
      assert visited + {key} == visited;
      return before;
    }
    var prev := hist[key];
    RowsOfMore(before, visited, key, cur, hist);
    diffs := before + [DiffRow(prev.port, prev.protocol, prev.service, Disappeared, "", prev.state)];
  }

  lemma VisitOne(a: set<string>, b: set<string>, todo: set<string>, k: string)
    requires todo <= b && k in todo
    ensures a + (b - todo) + {k} == a + (b - (todo - {k}))
    ensures k in a <==> k in a + (b - todo)
  {
  }

  /** The loop over the history map: rows for keys that are gone. */
  method DiffVanished(cur: map<string, Service>, hist: map<string, Service>, before: seq<DiffRow>)
    returns (diffs: seq<DiffRow>, ghost visited: set<string>)
    requires WellKeyed(cur) && WellKeyed(hist) && RowsOf(before, cur.Keys, cur, hist)
    ensures visited == cur.Keys + hist.Keys && RowsOf(diffs, visited, cur, hist)
  {
    diffs, visited := before, cur.Keys;
    var todo := hist.Keys;
    assert visited == cur.Keys + (hist.Keys - todo);
    while todo != {}
      invariant todo <= hist.Keys && visited == cur.Keys + (hist.Keys - todo)
      invariant RowsOf(diffs, visited, cur, hist)
      decreases |todo|
    {
      var key :| key in todo;
      VisitOne(cur.Keys, hist.Keys, todo, key);
      diffs := VisitHistory(key, cur, hist, diffs, visited);
      todo, visited := todo - {key}, visited + {key};
    }
    assert hist.Keys - todo == hist.Keys;
  }

  method DiffServices(current: seq<Service>, history: seq<Service>) returns (diffs: seq<DiffRow>)
    ensures WellKeyed(CurrentMap(current)) && WellKeyed(HistoryMap(history))
    ensures RowsOf(diffs, CurrentMap(current).Keys + HistoryMap(history).Keys, CurrentMap(current), HistoryMap(history))
  {
    var currentMap, historyMap := BuildMaps(current, history);
    diffs := DiffCurrent(currentMap, historyMap);
    ghost var visited;
    diffs, visited := DiffVanished(currentMap, historyMap, diffs);
  }

  // ---------- the diff as a patch ----------

  function States(m: map<string, Service>): map<string, string> {
    map k | k in m :: m[k].state
  }

  function ApplyRow(m: map<string, string>, r: DiffRow): map<string, string> {
    if r.change.Disappeared? then m - {RowKey(r)} else m[RowKey(r) := r.currentState]
  }

  function ApplyRows(m: map<string, string>, rows: seq<DiffRow>): map<string, string> {
    if rows == [] then m else ApplyRow(ApplyRows(m, rows[..|rows| - 1]), rows[|rows| - 1])
  }

  lemma {:induction false} ApplyUntouched(m: map<string, string>, rows: seq<DiffRow>, k: string)
    requires forall i :: 0 <= i < |rows| ==> RowKey(rows[i]) != k
    ensures k in ApplyRows(m, rows) <==> k in m
    ensures k in m ==> ApplyRows(m, rows)[k] == m[k]
  {
    if rows != [] {
      assert RowKey(rows[|rows| - 1]) != k;
      ApplyUntouched(m, rows[..|rows| - 1], k);
    }
  }

  lemma {:induction false} ApplyTouched(m: map<string, string>, rows: seq<DiffRow>, i: nat)
    requires DistinctKeys(rows) && i < |rows|
    ensures var k := RowKey(rows[i]);
            && (k in ApplyRows(m, rows) <==> !rows[i].change.Disappeared?)
            && (!rows[i].change.Disappeared? ==> ApplyRows(m, rows)[k] == rows[i].currentState)
  {
    if i < |rows| - 1 {
      assert RowKey(rows[|rows| - 1]) != RowKey(rows[i]);
      ApplyTouched(m, rows[..|rows| - 1], i);
    }
  }

  lemma PatchAt(rows: seq<DiffRow>, cur: map<string, Service>, hist: map<string, Service>, k: string)
    requires WellKeyed(cur) && WellKeyed(hist) && RowsOf(rows, cur.Keys + hist.Keys, cur, hist)
    ensures k in ApplyRows(States(hist), rows) <==> k in cur
    ensures k in cur ==> k in ApplyRows(States(hist), rows) && ApplyRows(States(hist), rows)[k] == cur[k].state
  {
    if RowFor(k, cur, hist).Some? {
      RowForKey(k, cur, hist);
      var r := RowFor(k, cur, hist).value;
      var i :| 0 <= i < |rows| && rows[i] == r;
      ApplyTouched(States(hist), rows, i);
    } else {
      ApplyUntouched(States(hist), rows, k);
    }
  }

  /** Applying the diff rows to the states of the history gives exactly the current states. */
  lemma DiffIsPatch(rows: seq<DiffRow>, cur: map<string, Service>, hist: map<string, Service>)
    requires WellKeyed(cur) && WellKeyed(hist) && RowsOf(rows, cur.Keys + hist.Keys, cur, hist)
    ensures ApplyRows(States(hist), rows) == States(cur)
  {
    var patched := ApplyRows(States(hist), rows);
    forall k ensures k in patched <==> k in States(cur) {
      PatchAt(rows, cur, hist, k);
    }
    forall k | k in patched ensures patched[k] == States(cur)[k] {
      PatchAt(rows, cur, hist, k);
    }
  }

  /** The diff is empty exactly when both sides have the same keys, states and versions. */
  lemma EmptyExactly(rows: seq<DiffRow>, cur: map<string, Service>, hist: map<string, Service>)
    requires WellKeyed(cur) && WellKeyed(hist) && RowsOf(rows, cur.Keys + hist.Keys, cur, hist)
    ensures rows == [] <==>
              && cur.Keys == hist.Keys
              && forall k :: k in cur && k in hist ==>
                   cur[k].state == hist[k].state && cur[k].version == hist[k].version
  {
    if rows == [] {
      forall k | k in cur.Keys + hist.Keys ensures RowFor(k, cur, hist).None? {
      }
      assert forall k :: k in cur.Keys ==> k in hist.Keys;
      assert forall k :: k in hist.Keys ==> k in cur.Keys;
    } else {
      var k := RowKey(rows[0]);
      assert RowFor(k, cur, hist) == Some(rows[0]);
      assert k in cur <==> k in cur.Keys;
      assert k in hist <==> k in hist.Keys;
    }
  }

  // ---------- the diff, told from the fetched rows ----------

  predicate IsOf(s: Service, port: int, protocol: string) {
    s.port == port && s.protocol == protocol
  }

  predicate Absent(rows: seq<Service>, port: int, protocol: string) {
    forall j :: 0 <= j < |rows| ==> !IsOf(rows[j], port, protocol)
  }

  /** Row i is the last one of its port and protocol. */
  predicate LastOf(rows: seq<Service>, i: int, port: int, protocol: string) {
    && 0 <= i < |rows| && IsOf(rows[i], port, protocol)
    && forall j :: i < j < |rows| ==> !IsOf(rows[j], port, protocol)
  }

  /** Row i is the first one of its port and protocol. */
  predicate FirstOf(rows: seq<Service>, i: int, port: int, protocol: string) {
    && 0 <= i < |rows| && IsOf(rows[i], port, protocol)
    && forall j :: 0 <= j < i ==> !IsOf(rows[j], port, protocol)
  }

  predicate KeyMeans(rows: seq<Service>, k: string, port: int, protocol: string) {
    forall j :: 0 <= j < |rows| ==> (KeyOf(rows[j]) == k <==> IsOf(rows[j], port, protocol))
  }

  lemma KeysMean(rows: seq<Service>, port: int, protocol: string)
    ensures KeyMeans(rows, Key(port, protocol), port, protocol)
  {
    forall j | 0 <= j < |rows| ensures KeyOf(rows[j]) == Key(port, protocol) <==> IsOf(rows[j], port, protocol) {
      if KeyOf(rows[j]) == Key(port, protocol) {
        KeyInjective(rows[j].port, rows[j].protocol, port, protocol);
      }
    }
  }

  lemma {:induction false} KeyInCurrent(rows: seq<Service>, i: nat)
    requires i < |rows|
    ensures KeyOf(rows[i]) in CurrentMap(rows)
  {
    if i < |rows| - 1 {
      KeyInCurrent(rows[..|rows| - 1], i);
    }
  }

  /** Row i is the last one of the first n with the key. */
  predicate LastAt(rows: seq<Service>, n: nat, i: nat, k: string) {
    i < n <= |rows| && KeyOf(rows[i]) == k && forall j :: i < j < n ==> KeyOf(rows[j]) != k
  }

  lemma LastAtMore(rows: seq<Service>, n: nat, i: nat, k: string)
    requires LastAt(rows, n, i, k) && n < |rows| && KeyOf(rows[n]) != k
    ensures LastAt(rows, n + 1, i, k)
  {
  }

  lemma MapOfMore(m: map<string, Service>, s: Service, k: string, all: map<string, Service>)
    requires all == m[KeyOf(s) := s] && k in all
    ensures if KeyOf(s) == k then all[k] == s else k in m && all[k] == m[k]
  {
  }

  /** The last row of a key is the one the current map holds. */
  lemma {:induction false} LastOfKey(rows: seq<Service>, n: nat, k: string) returns (i: nat)
    requires n <= |rows| && k in CurrentMap(rows[..n])
    ensures LastAt(rows, n, i, k) && rows[i] == CurrentMap(rows[..n])[k]
  {
    OneRowMore(rows, n - 1);
    MapOfMore(CurrentMap(rows[..n - 1]), rows[n - 1], k, CurrentMap(rows[..n]));
    if KeyOf(rows[n - 1]) == k {
      i := n - 1;
    } else {
      i := LastOfKey(rows, n - 1, k);
      LastAtMore(rows, n - 1, i, k);
    }
  }

  /** The current map holds the last fetched row of a port and protocol. */
  lemma CurrentExactly(rows: seq<Service>, k: string, port: int, protocol: string) returns (i: int)
    requires KeyMeans(rows, k, port, protocol)
    ensures if k in CurrentMap(rows) then LastOf(rows, i, port, protocol) && CurrentMap(rows)[k] == rows[i]
            else Absent(rows, port, protocol)
  {
    i := -1;
    if k in CurrentMap(rows) {
      assert rows[..|rows|] == rows;
      i := LastOfKey(rows, |rows|, k);
    } else {
      forall j | 0 <= j < |rows| ensures KeyOf(rows[j]) != k {
        KeyInCurrent(rows, j);
      }
    }
  }

  /** The history map holds the first fetched row of a port and protocol. */
  lemma HistoryExactly(rows: seq<Service>, k: string, port: int, protocol: string) returns (i: int)
    requires KeyMeans(rows, k, port, protocol)
    ensures if k in HistoryMap(rows) then FirstOf(rows, i, port, protocol) && HistoryMap(rows)[k] == rows[i]
            else Absent(rows, port, protocol)
  {
    i := -1;
    if k in HistoryMap(rows) {
      i := FirstOfKey(rows, k);
    } else {
      forall j | 0 <= j < |rows| ensures KeyOf(rows[j]) != k {
        KeyInHistory(rows, j);
      }
    }
  }

  /** The row reports what happened to its port and protocol between the first history row and the last current row:
      appeared, changed state or version, or disappeared, with the name of the newer row and both states. */
  ghost predicate Reports(r: DiffRow, current: seq<Service>, history: seq<Service>) {
    match r.change
    case Appeared =>
      && Absent(history, r.port, r.protocol) && r.prevState == ""
      && exists i :: LastOf(current, i, r.port, r.protocol)
                     && r.service == current[i].service && r.currentState == current[i].state
    case Changed =>
      exists i, j :: LastOf(current, i, r.port, r.protocol) && FirstOf(history, j, r.port, r.protocol)
                     && (current[i].state != history[j].state || current[i].version != history[j].version)
                     && r.service == current[i].service
                     && r.currentState == current[i].state && r.prevState == history[j].state
    case Disappeared =>
      && Absent(current, r.port, r.protocol) && r.currentState == ""
      && exists j :: FirstOf(history, j, r.port, r.protocol)
                     && r.service == history[j].service && r.prevState == history[j].state
  }

  /** What the report says, when the two rows it is about are known. */
  predicate Says(r: DiffRow, c: Option<Service>, h: Option<Service>) {
    match r.change
    case Appeared =>
      c.Some? && h.None? && r.service == c.value.service && r.currentState == c.value.state && r.prevState == ""
    case Changed =>
      && c.Some? && h.Some? && (c.value.state != h.value.state || c.value.version != h.value.version)
      && r.service == c.value.service && r.currentState == c.value.state && r.prevState == h.value.state
    case Disappeared =>
      c.None? && h.Some? && r.service == h.value.service && r.currentState == "" && r.prevState == h.value.state
  }

  lemma ReportsSays(r: DiffRow, current: seq<Service>, history: seq<Service>, i: int, j: int, c: Option<Service>,
                    h: Option<Service>)
    requires if c.Some? then LastOf(current, i, r.port, r.protocol) && current[i] == c.value
             else Absent(current, r.port, r.protocol)
    requires if h.Some? then FirstOf(history, j, r.port, r.protocol) && history[j] == h.value
             else Absent(history, r.port, r.protocol)
    ensures Reports(r, current, history) <==> Says(r, c, h)
  {
    assert forall m :: c.Some? && LastOf(current, m, r.port, r.protocol) ==> m == i;
    assert forall m :: h.Some? && FirstOf(history, m, r.port, r.protocol) ==> m == j;
  }

  function Found(m: map<string, Service>, k: string): Option<Service> {
    if k in m then Some(m[k]) else None
  }

  lemma RowForSays(r: DiffRow, k: string, cur: map<string, Service>, hist: map<string, Service>)
    requires k in cur ==> IsOf(cur[k], r.port, r.protocol)
    requires k in hist ==> IsOf(hist[k], r.port, r.protocol)
    ensures RowFor(k, cur, hist) == Some(r) <==> Says(r, Found(cur, k), Found(hist, k))
  {
  }

  lemma ReportsExactly(r: DiffRow, current: seq<Service>, history: seq<Service>)
    ensures RowFor(RowKey(r), CurrentMap(current), HistoryMap(history)) == Some(r) <==> Reports(r, current, history)
  {
    var k := RowKey(r);
    KeysMean(current, r.port, r.protocol);
    KeysMean(history, r.port, r.protocol);
    ReportsForKey(r, k, current, history);
  }

  lemma ReportsForKey(r: DiffRow, k: string, current: seq<Service>, history: seq<Service>)
    requires KeyMeans(current, k, r.port, r.protocol) && KeyMeans(history, k, r.port, r.protocol)
    ensures RowFor(k, CurrentMap(current), HistoryMap(history)) == Some(r) <==> Reports(r, current, history)
  {
    var i := CurrentExactly(current, k, r.port, r.protocol);
    var j := HistoryExactly(history, k, r.port, r.protocol);
    var cur, hist := CurrentMap(current), HistoryMap(history);
    ReportsSays(r, current, history, i, j, Found(cur, k), Found(hist, k));
    RowForSays(r, k, cur, hist);
  }

  /** The answer, whatever order Go visits its maps in: exactly the rows that report something, and never two for one
      port and protocol. */
  lemma DiffExactly(rows: seq<DiffRow>, current: seq<Service>, history: seq<Service>)
    requires RowsOf(rows, CurrentMap(current).Keys + HistoryMap(history).Keys, CurrentMap(current), HistoryMap(history))
    ensures forall r :: r in rows <==> Reports(r, current, history)
    ensures forall m, n :: 0 <= m < n < |rows| ==> rows[m].port != rows[n].port || rows[m].protocol != rows[n].protocol
  {
    var cur, hist := CurrentMap(current), HistoryMap(history);
    forall r ensures r in rows <==> Reports(r, current, history) {
      ReportsExactly(r, current, history);
      var k := RowKey(r);
      assert RowFor(k, cur, hist).Some? ==> k in cur.Keys + hist.Keys;
    }
    forall m, n | 0 <= m < n < |rows| ensures rows[m].port != rows[n].port || rows[m].protocol != rows[n].protocol {
      assert RowKey(rows[m]) != RowKey(rows[n]);
    }
  }
}
