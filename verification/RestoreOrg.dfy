/**
 RestoreOrg of internal/api/handlers/admin_ops.go: import of a backup by upserts, over abstract tables.
 A failed insert leaves its table unchanged.
 */
module RestoreOrg {
  import opened Sequences

  type Id = nat

  const NIL: Id := 0

  /** The columns of a row without its primary key: the owner, the columns of the business key, the rest. */
  datatype Columns = Columns(org: nat, key: seq<string>, rest: string)

  datatype Row = Row(id: Id, columns: Columns)

  type Table = seq<Row>

  /** A unique index besides the primary key: a stored row that keeps another from being inserted. */
  type Uniqueness = (Columns, Columns) -> bool

  predicate HasId(table: Table, id: Id) {
    exists i :: 0 <= i < |table| && table[i].id == id
  }

  predicate Blocked(table: Table, c: Columns, clash: Uniqueness) {
    exists i :: 0 <= i < |table| && clash(table[i].columns, c)
  }

  predicate HasKey(table: Table, org: nat, key: seq<string>) {
    exists i :: 0 <= i < |table| && table[i].columns.org == org && table[i].columns.key == key
  }

  predicate OwnedBy(table: Table, id: Id, org: nat) {
    exists i :: 0 <= i < |table| && table[i].id == id && table[i].columns.org == org
  }

  predicate OwnedByOther(table: Table, id: Id, org: nat) {
    exists i :: 0 <= i < |table| && table[i].id == id && table[i].columns.org != org
  }

  /** A table after one upsert, and whether the upsert went through. */
  datatype Outcome = Outcome(table: Table, ok: bool)

  function Create(table: Table, row: Row, clash: Uniqueness): Outcome {
    if HasId(table, row.id) || Blocked(table, row.columns, clash) then Outcome(table, false)
    else Outcome(table + [row], true)
  }

  /** FirstOrCreate on the business key; a new row gets a minted primary key. */
  function UpsertByKey(table: Table, row: Row, org: nat, minted: Id, clash: Uniqueness): Outcome {
    var c := row.columns.(org := org);
    if HasKey(table, org, c.key) then Outcome(table, true) else Create(table, Row(minted, c), clash)
  }

  /** The rule for todos and findings: keep the backup's primary key unless another organisation owns it. */
  function UpsertById(table: Table, row: Row, org: nat, minted: Id, clash: Uniqueness): Outcome {
    var c := row.columns.(org := org);
    var id := if OwnedByOther(table, row.id, org) then NIL else row.id;
    if id == NIL then Create(table, Row(minted, c), clash)
    else if OwnedBy(table, row.id, org) then Outcome(table, true)
    else Create(table, Row(id, c), clash)
  }

  function Upsert(byId: bool, table: Table, row: Row, org: nat, minted: Id, clash: Uniqueness): Outcome {
    if byId then UpsertById(table, row, org, minted, clash) else UpsertByKey(table, row, org, minted, clash)
  }

  /** The whole loop over one collection of the backup. */
  function Restored(byId: bool, table: Table, rows: seq<Row>, org: nat, minted: seq<Id>, clash: Uniqueness): Table
    requires |minted| == |rows|
    decreases |rows|
  {
    if rows == [] then table
    else Restored(byId, Upsert(byId, table, rows[0], org, minted[0], clash).table, rows[1..], org, minted[1..], clash)
  }

  function CountRestored(byId: bool, table: Table, rows: seq<Row>, org: nat, minted: seq<Id>, clash: Uniqueness): nat
    requires |minted| == |rows|
    decreases |rows|
  {
    if rows == [] then 0
    else
      var o := Upsert(byId, table, rows[0], org, minted[0], clash);
      (if o.ok then 1 else 0) + CountRestored(byId, o.table, rows[1..], org, minted[1..], clash)
  }

  datatype Collection = Domains | Hosts | Subdomains | Projects | Notes | Todos | DNSRecords | Findings
  {
    predicate ById() {
      Todos? || Findings?
    }
  }

  predicate Total<T>(m: map<Collection, T>) {
    forall c: Collection :: c in m
  }

  class Database {
    var tables: map<Collection, Table>
    const clash: map<Collection, Uniqueness>

    ghost predicate Valid()
      reads this
    {
      Total(tables) && Total(clash)
    }

    constructor (tables: map<Collection, Table>, clash: map<Collection, Uniqueness>)
      requires Total(tables) && Total(clash)
      ensures Valid() && this.tables == tables && this.clash == clash
    {
      this.tables, this.clash := tables, clash;
    }

    /** One upsert of the loop over a collection. */
    method UpsertRow(c: Collection, row: Row, org: nat, minted: Id) returns (ok: bool)
      requires Valid()
      modifies this
      ensures Valid()
      ensures var o := Upsert(c.ById(), old(tables)[c], row, org, minted, clash[c]);
              ok == o.ok && tables == old(tables)[c := o.table]
    {
      var table := tables[c];
      var stored := row.columns.(org := org);
      var id := if c.ById() then row.id else NIL;
      var found := false;
      if c.ById() {
        if OwnedByOther(table, row.id, org) {
          id := NIL;
        }
        found := id != NIL && OwnedBy(table, row.id, org);
      } else {
        found := HasKey(table, org, stored.key);
      }
      if found {
        assert tables == tables[c := table];
        return true;
      }
      if id == NIL {
        id := minted;
      }
      ok := !HasId(table, id) && !Blocked(table, stored, clash[c]);
      if ok {
        table := table + [Row(id, stored)];
      }
      tables := tables[c := table];
    }

    method RestoreCollection(c: Collection, rows: seq<Row>, org: nat, minted: seq<Id>) returns (count: nat)
      requires Valid() && |minted| == |rows|
      modifies this
      ensures Valid()
      ensures tables == old(tables)[c := Restored(c.ById(), old(tables)[c], rows, org, minted, clash[c])]
      ensures count == CountRestored(c.ById(), old(tables)[c], rows, org, minted, clash[c])
    {
      count := 0;
      for i := 0 to |rows|
        invariant Valid() && tables == old(tables)[c := tables[c]]
        invariant Restored(c.ById(), tables[c], rows[i..], org, minted[i..], clash[c])
               == Restored(c.ById(), old(tables)[c], rows, org, minted, clash[c])
        invariant count + CountRestored(c.ById(), tables[c], rows[i..], org, minted[i..], clash[c])
               == CountRestored(c.ById(), old(tables)[c], rows, org, minted, clash[c])
      {
        assert rows[i..][1..] == rows[i + 1..] && minted[i..][1..] == minted[i + 1..];
        var ok := UpsertRow(c, rows[i], org, minted[i]);
        if ok {
          count := count + 1;
        }
      }
    }

    /** One loop of the transaction, and its entry in the statistics. */
    method RestoreNext(c: Collection, backup: Backup, org: nat, stats: map<Collection, nat>)
      returns (stats': map<Collection, nat>)
      requires Valid() && c in backup && backup[c].Supplied()
      modifies this
      ensures Valid() && Progress(tables, stats') == Next(c, Progress(old(tables), stats), backup, org, clash)
    {
      var n := RestoreCollection(c, backup[c].rows, org, backup[c].minted);
      stats' := stats[c := n];
    }

    /** The eight loops of the transaction, in order. */
    method Restore(backup: Backup, org: nat) returns (stats: map<Collection, nat>)
      requires Valid() && Total(backup) && forall c :: c in backup ==> backup[c].Supplied()
      modifies this
      ensures Valid() && Progress(tables, stats) == AllRestored(Progress(old(tables), map[]), ORDER, backup, org, clash)
    {
      ghost var start := Progress(tables, map[]);
      stats := RestoreNext(Domains, backup, org, map[]);
      stats := RestoreNext(Hosts, backup, org, stats);
      stats := RestoreNext(Subdomains, backup, org, stats);
      stats := RestoreNext(Projects, backup, org, stats);
      stats := RestoreNext(Notes, backup, org, stats);
      stats := RestoreNext(Todos, backup, org, stats);
      stats := RestoreNext(DNSRecords, backup, org, stats);
      stats := RestoreNext(Findings, backup, org, stats);
      UnrollOrder(start, backup, org, clash);
    }
  }

  const ORDER := [Domains, Hosts, Subdomains, Projects, Notes, Todos, DNSRecords, Findings]

  /** One collection of the backup, and the primary keys that will be minted for its rows. */
  datatype Part = Part(rows: seq<Row>, minted: seq<Id>) {
    predicate Supplied() {
      |minted| == |rows|
    }
  }

  type Backup = map<Collection, Part>

  datatype Progress = Progress(tables: map<Collection, Table>, stats: map<Collection, nat>)

  function Next(c: Collection, p: Progress, backup: Backup, org: nat, clash: map<Collection, Uniqueness>): Progress {
    if c !in p.tables || c !in backup || c !in clash || !backup[c].Supplied() then p
    else
      var part := backup[c];
      Progress(p.tables[c := Restored(c.ById(), p.tables[c], part.rows, org, part.minted, clash[c])],
               p.stats[c := CountRestored(c.ById(), p.tables[c], part.rows, org, part.minted, clash[c])])
  }

  function AllRestored(p: Progress, order: seq<Collection>, backup: Backup, org: nat,
                       clash: map<Collection, Uniqueness>): Progress
  {
    if order == [] then p
    else Next(order[|order| - 1], AllRestored(p, order[..|order| - 1], backup, org, clash), backup, org, clash)
  }

  lemma UnrollOrder(p: Progress, backup: Backup, org: nat, clash: map<Collection, Uniqueness>)
    ensures AllRestored(p, ORDER, backup, org, clash) ==
              Next(Findings, Next(DNSRecords, Next(Todos, Next(Notes, Next(Projects, Next(Subdomains, Next(Hosts,
                Next(Domains, p, backup, org, clash), backup, org, clash), backup, org, clash), backup, org, clash),
                backup, org, clash), backup, org, clash), backup, org, clash), backup, org, clash)
  {
    AllRestoredStep(p, 0, backup, org, clash);
    AllRestoredStep(p, 1, backup, org, clash);
    AllRestoredStep(p, 2, backup, org, clash);
    AllRestoredStep(p, 3, backup, org, clash);
    AllRestoredStep(p, 4, backup, org, clash);
    AllRestoredStep(p, 5, backup, org, clash);
    AllRestoredStep(p, 6, backup, org, clash);
    AllRestoredStep(p, 7, backup, org, clash);
    assert ORDER[..0] == [] && ORDER[..8] == ORDER;
  }

  lemma AllRestoredStep(p: Progress, n: nat, backup: Backup, org: nat, clash: map<Collection, Uniqueness>)
    requires n < 8
    ensures AllRestored(p, ORDER[..n + 1], backup, org, clash)
            == Next(ORDER[n], AllRestored(p, ORDER[..n], backup, org, clash), backup, org, clash)
  {
    assert ORDER[..n + 1][..n] == ORDER[..n];
  }

  lemma {:induction false} AllRestoredAt(p: Progress, order: seq<Collection>, backup: Backup, org: nat,
                                         clash: map<Collection, Uniqueness>, c: Collection)
    requires Total(p.tables) && Total(backup) && Total(clash) && forall d :: d in backup ==> backup[d].Supplied()
    requires forall i, j :: 0 <= i < j < |order| ==> order[i] != order[j]
    ensures var r := AllRestored(p, order, backup, org, clash);
            && Total(r.tables)
            && (c !in order ==> r.tables[c] == p.tables[c])
            && (c in order ==>
                  && backup[c].Supplied()
                  && r.tables[c] == Restored(c.ById(), p.tables[c], backup[c].rows, org, backup[c].minted, clash[c])
                  && c in r.stats
                  && r.stats[c]
                     == CountRestored(c.ById(), p.tables[c], backup[c].rows, org, backup[c].minted, clash[c]))
    decreases |order|
  {
    if order != [] {
      var n := |order| - 1;
      AllRestoredAt(p, order[..n], backup, org, clash, c);
      AllRestoredAt(p, order[..n], backup, org, clash, order[n]);
      assert order[n] !in order[..n];
      assert order == order[..n] + [order[n]];
    }
  }

  /** The eight loops do not disturb each other: every table ends as its own loop leaves it. */
  lemma EveryCollectionRestored(tables: map<Collection, Table>, backup: Backup, org: nat,
                                clash: map<Collection, Uniqueness>, c: Collection)
    requires Total(tables) && Total(backup) && Total(clash) && forall d :: d in backup ==> backup[d].Supplied()
    ensures var r := AllRestored(Progress(tables, map[]), ORDER, backup, org, clash);
            && c in r.tables && c in r.stats && backup[c].Supplied()
            && r.tables[c] == Restored(c.ById(), tables[c], backup[c].rows, org, backup[c].minted, clash[c])
            && r.stats[c] == CountRestored(c.ById(), tables[c], backup[c].rows, org, backup[c].minted, clash[c])
  {
    AllRestoredAt(Progress(tables, map[]), ORDER, backup, org, clash, c);
    assert c in ORDER by {
      match c {
        case Domains => assert ORDER[0] == c;
        case Hosts => assert ORDER[1] == c;
        case Subdomains => assert ORDER[2] == c;
        case Projects => assert ORDER[3] == c;
        case Notes => assert ORDER[4] == c;
        case Todos => assert ORDER[5] == c;
        case DNSRecords => assert ORDER[6] == c;
        case Findings => assert ORDER[7] == c;
      }
    }
  }

  // ---------- what a restore puts into a table ----------

  /** The backup's own primary key can be used: it is a key, and no other organisation owns it. */
  predicate Usable(byId: bool, table: Table, row: Row, org: nat) {
    byId && row.id != 0 && forall i :: 0 <= i < |table| && table[i].id == row.id ==> table[i].columns.org == org
  }

  /** The organisation already has the row: the one with its usable primary key, or one with its business key. */
  predicate Matched(byId: bool, table: Table, row: Row, org: nat) {
    && (byId ==> Usable(byId, table, row, org))
    && exists i :: 0 <= i < |table| && table[i].columns.org == org
                   && if byId then table[i].id == row.id else table[i].columns.key == row.columns.key
  }

  /** The row to insert: all of the backup's columns, for the caller's organisation. */
  function NewRow(byId: bool, table: Table, row: Row, org: nat, minted: Id): Row {
    Row(if Usable(byId, table, row, org) then row.id else minted, Columns(org, row.columns.key, row.columns.rest))
  }

  predicate Refused(table: Table, row: Row, clash: Uniqueness) {
    exists i :: 0 <= i < |table| && (table[i].id == row.id || clash(table[i].columns, row.columns))
  }

  lemma UpsertExactly(byId: bool, table: Table, row: Row, org: nat, minted: Id, clash: Uniqueness)
    ensures var r := NewRow(byId, table, row, org, minted);
            Upsert(byId, table, row, org, minted, clash)
            == if Matched(byId, table, row, org) then Outcome(table, true)
               else if Refused(table, r, clash) then Outcome(table, false)
               else Outcome(table + [r], true)
  {
    var r := NewRow(byId, table, row, org, minted);
    assert r.columns == row.columns.(org := org);
    assert Refused(table, r, clash) <==> HasId(table, r.id) || Blocked(table, r.columns, clash);
  }

  /** The table when the turn of row j comes. */
  function AtTurn(byId: bool, table: Table, rows: seq<Row>, org: nat, minted: seq<Id>, clash: Uniqueness, j: nat): Table
    requires |minted| == |rows| && j <= |rows|
  {
    Restored(byId, table, rows[..j], org, minted[..j], clash)
  }

  lemma {:induction false} RestoredSnoc(byId: bool, table: Table, rows: seq<Row>, row: Row, org: nat, minted: seq<Id>,
                                        id: Id, clash: Uniqueness)
    requires |minted| == |rows|
    ensures var before := Restored(byId, table, rows, org, minted, clash);
            var o := Upsert(byId, before, row, org, id, clash);
            && Restored(byId, table, rows + [row], org, minted + [id], clash) == o.table
            && CountRestored(byId, table, rows + [row], org, minted + [id], clash)
               == CountRestored(byId, table, rows, org, minted, clash) + if o.ok then 1 else 0
    decreases |rows|
  {
    if rows == [] {
      assert rows + [row] == [row] && minted + [id] == [id] && [row][1..] == [] && [id][1..] == [];
    } else {
      var after := Upsert(byId, table, rows[0], org, minted[0], clash).table;
      RestoredSnoc(byId, after, rows[1..], row, org, minted[1..], id, clash);
      assert (rows + [row])[1..] == rows[1..] + [row] && (minted + [id])[1..] == minted[1..] + [id];
    }
  }

  lemma NextTurn(byId: bool, table: Table, rows: seq<Row>, org: nat, minted: seq<Id>, clash: Uniqueness, j: nat)
    requires |minted| == |rows| && j < |rows|
    ensures var o := Upsert(byId, AtTurn(byId, table, rows, org, minted, clash, j), rows[j], org, minted[j], clash);
            && AtTurn(byId, table, rows, org, minted, clash, j + 1) == o.table
            && CountRestored(byId, table, rows[..j + 1], org, minted[..j + 1], clash)
               == CountRestored(byId, table, rows[..j], org, minted[..j], clash) + if o.ok then 1 else 0
  {
    RestoredSnoc(byId, table, rows[..j], rows[j], org, minted[..j], minted[j], clash);
    assert rows[..j] + [rows[j]] == rows[..j + 1] && minted[..j] + [minted[j]] == minted[..j + 1];
  }

  /** Row j is matched when its turn comes. */
  predicate MatchedAt(byId: bool, table: Table, rows: seq<Row>, org: nat, minted: seq<Id>, clash: Uniqueness, j: nat)
    requires |minted| == |rows| && j < |rows|
  {
    Matched(byId, AtTurn(byId, table, rows, org, minted, clash, j), rows[j], org)
  }

  function NewAt(byId: bool, table: Table, rows: seq<Row>, org: nat, minted: seq<Id>, clash: Uniqueness, j: nat): Row
    requires |minted| == |rows| && j < |rows|
  {
    NewRow(byId, AtTurn(byId, table, rows, org, minted, clash, j), rows[j], org, minted[j])
  }

  predicate RefusedAt(byId: bool, table: Table, rows: seq<Row>, org: nat, minted: seq<Id>, clash: Uniqueness, j: nat)
    requires |minted| == |rows| && j < |rows|
  {
    Refused(AtTurn(byId, table, rows, org, minted, clash, j), NewAt(byId, table, rows, org, minted, clash, j), clash)
  }

  lemma TurnExactly(byId: bool, table: Table, rows: seq<Row>, org: nat, minted: seq<Id>, clash: Uniqueness, j: nat)
    requires |minted| == |rows| && j < |rows|
    ensures var matched := MatchedAt(byId, table, rows, org, minted, clash, j);
            var refused := RefusedAt(byId, table, rows, org, minted, clash, j);
            && AtTurn(byId, table, rows, org, minted, clash, j + 1)
               == AtTurn(byId, table, rows, org, minted, clash, j)
                  + (if matched || refused then [] else [NewAt(byId, table, rows, org, minted, clash, j)])
            && CountRestored(byId, table, rows[..j + 1], org, minted[..j + 1], clash)
               == CountRestored(byId, table, rows[..j], org, minted[..j], clash) + if matched || !refused then 1 else 0
  {
    NextTurn(byId, table, rows, org, minted, clash, j);
    UpsertExactly(byId, AtTurn(byId, table, rows, org, minted, clash, j), rows[j], org, minted[j], clash);
    assert forall t: Table :: t + [] == t;
  }

  /** One more row: nothing is added, or the next new row. */
  lemma ImportedMore(byId: bool, table: Table, rows: seq<Row>, org: nat, minted: seq<Id>, clash: Uniqueness, n: nat,
                     before: Table, js: seq<nat>, adds: bool)
    requires |minted| == |rows| && n < |rows| && Imported(byId, table, rows, org, minted, clash, n, before, js)
    requires adds <==> !MatchedAt(byId, table, rows, org, minted, clash, n)
                       && !RefusedAt(byId, table, rows, org, minted, clash, n)
    ensures adds ==> Imported(byId, table, rows, org, minted, clash, n + 1,
                              before + [NewAt(byId, table, rows, org, minted, clash, n)], js + [n])
    ensures !adds ==> Imported(byId, table, rows, org, minted, clash, n + 1, before, js)
  {
    IncreasingSnoc(js, n);
  }

  /** The table after the first n rows: the old rows, and in the order of the backup one new row for each that was
      neither matched nor refused when its turn came. */
  ghost predicate Imported(byId: bool, table: Table, rows: seq<Row>, org: nat, minted: seq<Id>, clash: Uniqueness,
                           n: nat, after: Table, js: seq<nat>)
    requires |minted| == |rows| && n <= |rows|
  {
    && Increasing(js, n)
    && (forall j: nat :: j < n ==>
          (j in js <==> !MatchedAt(byId, table, rows, org, minted, clash, j)
                        && !RefusedAt(byId, table, rows, org, minted, clash, j)))
    && |after| == |table| + |js| && after[..|table|] == table
    && forall m :: 0 <= m < |js| ==> after[|table| + m] == NewAt(byId, table, rows, org, minted, clash, js[m])
  }

  /** A row counts as restored when it was matched or inserted. */
  ghost predicate Tallied(byId: bool, table: Table, rows: seq<Row>, org: nat, minted: seq<Id>, clash: Uniqueness,
                          n: nat, ks: seq<nat>)
    requires |minted| == |rows| && n <= |rows|
  {
    && Increasing(ks, n)
    && forall j: nat :: j < n ==>
         (j in ks <==> MatchedAt(byId, table, rows, org, minted, clash, j)
                       || !RefusedAt(byId, table, rows, org, minted, clash, j))
  }

  lemma {:induction false} ImportedAfter(byId: bool, table: Table, rows: seq<Row>, org: nat, minted: seq<Id>,
                                         clash: Uniqueness, n: nat) returns (js: seq<nat>)
    requires |minted| == |rows| && n <= |rows|
    ensures Imported(byId, table, rows, org, minted, clash, n, AtTurn(byId, table, rows, org, minted, clash, n), js)
    decreases n
  {
    if n == 0 {
      js := [];
    } else {
      js := ImportedAfter(byId, table, rows, org, minted, clash, n - 1);
      var before := AtTurn(byId, table, rows, org, minted, clash, n - 1);
      var adds := !MatchedAt(byId, table, rows, org, minted, clash, n - 1)
                  && !RefusedAt(byId, table, rows, org, minted, clash, n - 1);
      TurnExactly(byId, table, rows, org, minted, clash, n - 1);
      ImportedMore(byId, table, rows, org, minted, clash, n - 1, before, js, adds);
      assert before + [] == before;
      js := if adds then js + [n - 1] else js;
    }
  }

  lemma {:induction false} TalliedAfter(byId: bool, table: Table, rows: seq<Row>, org: nat, minted: seq<Id>,
                                        clash: Uniqueness, n: nat) returns (ks: seq<nat>)
    requires |minted| == |rows| && n <= |rows|
    ensures Tallied(byId, table, rows, org, minted, clash, n, ks)
    ensures CountRestored(byId, table, rows[..n], org, minted[..n], clash) == |ks|
    decreases n
  {
    if n == 0 {
      ks := [];
    } else {
      ks := TalliedAfter(byId, table, rows, org, minted, clash, n - 1);
      TurnExactly(byId, table, rows, org, minted, clash, n - 1);
      IncreasingSnoc(ks, n - 1);
      if MatchedAt(byId, table, rows, org, minted, clash, n - 1)
         || !RefusedAt(byId, table, rows, org, minted, clash, n - 1) {
        ks := ks + [n - 1];
      }
    }
  }

  /** One collection: the result is the old table followed, in the backup's order, by a complete copy of every row that
      was neither there nor refused, and the statistic counts the rows that were not refused. */
  lemma RestoredExactly(byId: bool, table: Table, rows: seq<Row>, org: nat, minted: seq<Id>, clash: Uniqueness)
    returns (js: seq<nat>, ks: seq<nat>)
    requires |minted| == |rows|
    ensures Imported(byId, table, rows, org, minted, clash, |rows|,
                     Restored(byId, table, rows, org, minted, clash), js)
    ensures Tallied(byId, table, rows, org, minted, clash, |rows|, ks)
    ensures CountRestored(byId, table, rows, org, minted, clash) == |ks|
  {
    assert rows[..|rows|] == rows && minted[..|rows|] == minted;
    js := ImportedAfter(byId, table, rows, org, minted, clash, |rows|);
    ks := TalliedAfter(byId, table, rows, org, minted, clash, |rows|);
  }

  // ---------- a restore only adds ----------

  /** The old rows are all still there, in place and unchanged, and the added ones belong to org. */
  predicate OnlyAdds(before: Table, after: Table, org: nat) {
    && before <= after
    && forall i :: |before| <= i < |after| ==> after[i].columns.org == org
  }

  lemma UpsertOnlyAdds(byId: bool, table: Table, row: Row, org: nat, minted: Id, clash: Uniqueness)
    ensures OnlyAdds(table, Upsert(byId, table, row, org, minted, clash).table, org)
  {
  }

  /** No row of any organisation is changed or removed, and every added row belongs to the caller's. */
  lemma {:induction false} RestoreOnlyAdds(byId: bool, table: Table, rows: seq<Row>, org: nat, minted: seq<Id>,
                                           clash: Uniqueness)
    requires |minted| == |rows|
    ensures OnlyAdds(table, Restored(byId, table, rows, org, minted, clash), org)
    decreases |rows|
  {
    if rows != [] {
      UpsertOnlyAdds(byId, table, rows[0], org, minted[0], clash);
      var after := Upsert(byId, table, rows[0], org, minted[0], clash).table;
      RestoreOnlyAdds(byId, after, rows[1..], org, minted[1..], clash);
    }
  }

  // ---------- restoring twice ----------

  /** Minted keys are new to the table and to the backup, and do not repeat. */
  predicate FreshKeys(table: Table, rows: seq<Row>, minted: seq<Id>) {
    && |minted| == |rows|
    && (forall i :: 0 <= i < |minted| ==> !HasId(table, minted[i]))
    && (forall i, j :: 0 <= i < j < |minted| ==> minted[i] != minted[j])
    && (forall i, j :: 0 <= i < |minted| && 0 <= j < |rows| ==> minted[i] != rows[j].id)
  }

  /** The row carries no usable primary key: nil, or one that another organisation owns. */
  predicate Loose(table: Table, row: Row, org: nat) {
    row.id == NIL || OwnedByOther(table, row.id, org)
  }

  /** An upsert of the row has nothing left to do, or can never succeed. */
  predicate Settled(byId: bool, table: Table, row: Row, org: nat, clash: Uniqueness) {
    || Blocked(table, row.columns.(org := org), clash)
    || (if byId then OwnedBy(table, row.id, org) else HasKey(table, org, row.columns.key))
  }

  lemma SettledStays(byId: bool, before: Table, after: Table, row: Row, org: nat, clash: Uniqueness)
    requires OnlyAdds(before, after, org) && Settled(byId, before, row, org, clash)
    ensures Settled(byId, after, row, org, clash)
  {
    if Blocked(before, row.columns.(org := org), clash) {
      var i :| 0 <= i < |before| && clash(before[i].columns, row.columns.(org := org));
      assert after[i] == before[i];
    } else if byId {
      var i :| 0 <= i < |before| && before[i].id == row.id && before[i].columns.org == org;
      assert after[i] == before[i];
    } else {
      var i :| 0 <= i < |before| && before[i].columns.org == org && before[i].columns.key == row.columns.key;
      assert after[i] == before[i];
    }
  }

  lemma LooseStays(before: Table, after: Table, row: Row, org: nat)
    requires OnlyAdds(before, after, org)
    ensures Loose(before, row, org) <==> Loose(after, row, org)
  {
    if OwnedByOther(before, row.id, org) {
      var i :| 0 <= i < |before| && before[i].id == row.id && before[i].columns.org != org;
      assert after[i] == before[i];
    }
    if OwnedByOther(after, row.id, org) {
      var i :| 0 <= i < |after| && after[i].id == row.id && after[i].columns.org != org;
      assert after[i] == before[i];
    }
  }

  /** After its upsert a row is settled, unless it is matched by a primary key it does not have. */
  lemma UpsertSettles(byId: bool, table: Table, row: Row, org: nat, minted: Id, clash: Uniqueness)
    requires !HasId(table, minted) && (byId ==> !Loose(table, row, org))
    ensures Settled(byId, Upsert(byId, table, row, org, minted, clash).table, row, org, clash)
  {
    var after := Upsert(byId, table, row, org, minted, clash).table;
    if |after| > |table| {
      assert after[|table|].columns == row.columns.(org := org);
      assert byId ==> after[|table|].id == row.id;
    } else if byId && HasId(table, row.id) {
      var i :| 0 <= i < |table| && table[i].id == row.id;
      assert table[i].columns.org == org;
    }
  }

  lemma UpsertOfSettled(byId: bool, table: Table, row: Row, org: nat, minted: Id, clash: Uniqueness)
    requires Settled(byId, table, row, org, clash) && (byId ==> !Loose(table, row, org))
    ensures Upsert(byId, table, row, org, minted, clash).table == table
  {
  }

  lemma FreshAfterUpsert(byId: bool, table: Table, rows: seq<Row>, org: nat, minted: seq<Id>, clash: Uniqueness)
    requires rows != [] && FreshKeys(table, rows, minted)
    ensures FreshKeys(Upsert(byId, table, rows[0], org, minted[0], clash).table, rows[1..], minted[1..])
  {
    var after := Upsert(byId, table, rows[0], org, minted[0], clash).table;
    forall i | 0 <= i < |minted[1..]| ensures !HasId(after, minted[1..][i]) {
      assert minted[1..][i] == minted[i + 1];
      assert !HasId(table, minted[i + 1]);
      forall k | 0 <= k < |after| ensures after[k].id != minted[i + 1] {
        if k < |table| {
          assert after[k] == table[k];
        }
      }
    }
  }

  lemma {:induction false} RestoreSettlesAll(byId: bool, table: Table, rows: seq<Row>, org: nat, minted: seq<Id>,
                                             clash: Uniqueness, k: nat)
    requires FreshKeys(table, rows, minted) && k < |rows|
    requires byId ==> forall i :: 0 <= i < |rows| ==> !Loose(table, rows[i], org)
    ensures Settled(byId, Restored(byId, table, rows, org, minted, clash), rows[k], org, clash)
    decreases |rows|
  {
    var after := Upsert(byId, table, rows[0], org, minted[0], clash).table;
    UpsertOnlyAdds(byId, table, rows[0], org, minted[0], clash);
    RestoreOnlyAdds(byId, after, rows[1..], org, minted[1..], clash);
    if k == 0 {
      UpsertSettles(byId, table, rows[0], org, minted[0], clash);
      SettledStays(byId, after, Restored(byId, after, rows[1..], org, minted[1..], clash), rows[0], org, clash);
    } else {
      FreshAfterUpsert(byId, table, rows, org, minted, clash);
      forall i | 0 <= i < |rows[1..]| && byId ensures !Loose(after, rows[1..][i], org) {
        LooseStays(table, after, rows[i + 1], org);
      }
      RestoreSettlesAll(byId, after, rows[1..], org, minted[1..], clash, k - 1);
    }
  }

  lemma {:induction false} RestoreOfSettled(byId: bool, table: Table, rows: seq<Row>, org: nat, minted: seq<Id>,
                                            clash: Uniqueness)
    requires |minted| == |rows|
    requires forall i :: 0 <= i < |rows| ==> Settled(byId, table, rows[i], org, clash)
    requires byId ==> forall i :: 0 <= i < |rows| ==> !Loose(table, rows[i], org)
    ensures Restored(byId, table, rows, org, minted, clash) == table
    decreases |rows|
  {
    if rows != [] {
      UpsertOfSettled(byId, table, rows[0], org, minted[0], clash);
      RestoreOfSettled(byId, table, rows[1..], org, minted[1..], clash);
    }
  }

  /** Restoring a backup twice leaves the tables as after once: always for the collections matched by business
      key, and for todos and findings when each carries a primary key no other organisation owns. */
  lemma RestoreTwice(byId: bool, table: Table, rows: seq<Row>, org: nat, minted: seq<Id>, again: seq<Id>,
                     clash: Uniqueness)
    requires FreshKeys(table, rows, minted) && |again| == |rows|
    requires byId ==> forall i :: 0 <= i < |rows| ==> !Loose(table, rows[i], org)
    ensures var once := Restored(byId, table, rows, org, minted, clash);
            Restored(byId, once, rows, org, again, clash) == once
  {
    var once := Restored(byId, table, rows, org, minted, clash);
    RestoreOnlyAdds(byId, table, rows, org, minted, clash);
    forall i | 0 <= i < |rows| ensures Settled(byId, once, rows[i], org, clash) {
      RestoreSettlesAll(byId, table, rows, org, minted, clash, i);
    }
    forall i | 0 <= i < |rows| && byId ensures !Loose(once, rows[i], org) {
      LooseStays(table, once, rows[i], org);
    }
    RestoreOfSettled(byId, once, rows, org, again, clash);
  }

  /** A loose row is inserted anew by every restore. */
  lemma {:induction false} LooseRowsAccumulate(table: Table, rows: seq<Row>, org: nat, minted: seq<Id>,
                                               clash: Uniqueness, k: nat)
    requires FreshKeys(table, rows, minted) && k < |rows| && Loose(table, rows[k], org)
    requires forall a, b :: !clash(a, b)
    ensures |Restored(true, table, rows, org, minted, clash)| > |table|
    decreases |rows|
  {
    var after := Upsert(true, table, rows[0], org, minted[0], clash).table;
    UpsertOnlyAdds(true, table, rows[0], org, minted[0], clash);
    RestoreOnlyAdds(true, after, rows[1..], org, minted[1..], clash);
    if k > 0 {
      FreshAfterUpsert(true, table, rows, org, minted, clash);
      LooseStays(table, after, rows[k], org);
      LooseRowsAccumulate(after, rows[1..], org, minted[1..], clash, k - 1);
    }
  }

  /** When no unique index interferes, a second restore of todos or findings changes nothing if and only if no
      row has a nil primary key or one that another organisation owns. */
  lemma RestoreByIdTwiceExactly(table: Table, rows: seq<Row>, org: nat, minted: seq<Id>, again: seq<Id>,
                                clash: Uniqueness)
    requires FreshKeys(table, rows, minted)
    requires FreshKeys(Restored(true, table, rows, org, minted, clash), rows, again)
    requires forall a, b :: !clash(a, b)
    ensures var once := Restored(true, table, rows, org, minted, clash);
            Restored(true, once, rows, org, again, clash) == once
            <==> forall i :: 0 <= i < |rows| ==> !Loose(table, rows[i], org)
  {
    if k :| 0 <= k < |rows| && Loose(table, rows[k], org) {
      var once := Restored(true, table, rows, org, minted, clash);
      RestoreOnlyAdds(true, table, rows, org, minted, clash);
      LooseStays(table, once, rows[k], org);
      LooseRowsAccumulate(once, rows, org, again, clash, k);
    } else {
      RestoreTwice(true, table, rows, org, minted, again, clash);
    }
  }

  // ---------- the whole backup ----------

  predicate Complete(backup: Backup) {
    Total(backup) && forall c :: c in backup ==> backup[c].Supplied()
  }

  function RestoredDatabase(tables: map<Collection, Table>, backup: Backup, org: nat,
                            clash: map<Collection, Uniqueness>): map<Collection, Table>
  {
    AllRestored(Progress(tables, map[]), ORDER, backup, org, clash).tables
  }

  /** The whole import: every table holds its old rows and complete copies of the new ones, todos and findings under
      their own primary keys where these are usable, and every statistic counts what was not refused. */
  lemma ImportedExactly(tables: map<Collection, Table>, backup: Backup, org: nat, clash: map<Collection, Uniqueness>,
                        c: Collection)
    returns (js: seq<nat>, ks: seq<nat>)
    requires Total(tables) && Total(clash) && Complete(backup)
    ensures var p := AllRestored(Progress(tables, map[]), ORDER, backup, org, clash);
            var rows, minted, byId := backup[c].rows, backup[c].minted, c == Todos || c == Findings;
            && c in p.tables && c in p.stats && |minted| == |rows|
            && Imported(byId, tables[c], rows, org, minted, clash[c], |rows|, p.tables[c], js)
            && Tallied(byId, tables[c], rows, org, minted, clash[c], |rows|, ks)
            && p.stats[c] == |ks|
  {
    EveryCollectionRestored(tables, backup, org, clash, c);
    js, ks := RestoredExactly(c.ById(), tables[c], backup[c].rows, org, backup[c].minted, clash[c]);
  }

  /** The minted keys of every collection are new. */
  predicate AllFresh(tables: map<Collection, Table>, backup: Backup)
    requires Total(tables) && Total(backup)
  {
    forall c: Collection :: FreshKeys(tables[c], backup[c].rows, backup[c].minted)
  }

  /** The same backup with other keys minted for it. */
  predicate SameRows(a: Backup, b: Backup)
    requires Total(a) && Total(b)
  {
    forall c: Collection :: a[c].rows == b[c].rows
  }

  /** An import changes and removes no row of any table, and every row it adds belongs to the caller's organisation. */
  lemma RestoreAllOnlyAdds(tables: map<Collection, Table>, backup: Backup, org: nat,
                           clash: map<Collection, Uniqueness>, c: Collection)
    requires Total(tables) && Total(clash) && Complete(backup)
    ensures var after := RestoredDatabase(tables, backup, org, clash);
            c in after && OnlyAdds(tables[c], after[c], org)
  {
    EveryCollectionRestored(tables, backup, org, clash, c);
    RestoreOnlyAdds(c.ById(), tables[c], backup[c].rows, org, backup[c].minted, clash[c]);
  }

  predicate NothingLoose(tables: map<Collection, Table>, backup: Backup, org: nat, c: Collection)
    requires Total(tables) && Total(backup)
  {
    forall i :: 0 <= i < |backup[c].rows| ==> !Loose(tables[c], backup[c].rows[i], org)
  }

  lemma SameTables(a: map<Collection, Table>, b: map<Collection, Table>)
    requires Total(a) && Total(b) && forall c: Collection :: a[c] == b[c]
    ensures a == b
  {
  }

  /** Importing a backup twice leaves the whole database as importing it once, when every todo and finding
      carries a primary key no other organisation owns. */
  lemma RestoreAllTwice(tables: map<Collection, Table>, backup: Backup, again: Backup, org: nat,
                        clash: map<Collection, Uniqueness>)
    requires Total(tables) && Total(clash) && Complete(backup) && Complete(again) && SameRows(backup, again)
    requires AllFresh(tables, backup)
    requires NothingLoose(tables, backup, org, Todos) && NothingLoose(tables, backup, org, Findings)
    ensures var once := RestoredDatabase(tables, backup, org, clash);
            RestoredDatabase(once, again, org, clash) == once
  {
    var once := RestoredDatabase(tables, backup, org, clash);
    forall c: Collection ensures c in once {
      EveryCollectionRestored(tables, backup, org, clash, c);
    }
    var twice := RestoredDatabase(once, again, org, clash);
    forall c: Collection ensures c in twice && twice[c] == once[c] {
      EveryCollectionRestored(tables, backup, org, clash, c);
      EveryCollectionRestored(once, again, org, clash, c);
      assert c.ById() ==> NothingLoose(tables, backup, org, c);
      RestoreTwice(c.ById(), tables[c], backup[c].rows, org, backup[c].minted, again[c].minted, clash[c]);
    }
    SameTables(twice, once);
  }

  /** As todos and findings have no unique index besides the primary key, that is exact, whatever indexes the other
      tables have: the second import changes nothing if and only if no todo and no finding has a nil primary key
      or one that another organisation owns. */
  lemma RestoreAllTwiceExactly(tables: map<Collection, Table>, backup: Backup, again: Backup, org: nat,
                               clash: map<Collection, Uniqueness>)
    requires Total(tables) && Total(clash) && Complete(backup) && Complete(again) && SameRows(backup, again)
    requires AllFresh(tables, backup) && Total(RestoredDatabase(tables, backup, org, clash))
    requires AllFresh(RestoredDatabase(tables, backup, org, clash), again)
    requires forall c: Collection, a, b :: c.ById() ==> !clash[c](a, b)
    ensures var once := RestoredDatabase(tables, backup, org, clash);
            RestoredDatabase(once, again, org, clash) == once
            <==> NothingLoose(tables, backup, org, Todos) && NothingLoose(tables, backup, org, Findings)
  {
    var once := RestoredDatabase(tables, backup, org, clash);
    forall c: Collection | c.ById() && RestoredDatabase(once, again, org, clash) == once
      ensures NothingLoose(tables, backup, org, c)
    {
      EveryCollectionRestored(tables, backup, org, clash, c);
      EveryCollectionRestored(once, again, org, clash, c);
      RestoreByIdTwiceExactly(tables[c], backup[c].rows, org, backup[c].minted, again[c].minted, clash[c]);
    }
    if NothingLoose(tables, backup, org, Todos) && NothingLoose(tables, backup, org, Findings) {
      RestoreAllTwice(tables, backup, again, org, clash);
    }
  }
}
