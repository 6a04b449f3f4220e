/** normalizeDomain and expandTargetsWithDiscoveredSubdomains of internal/modules/dispatcher.go. */
module TargetExpansion {
  import opened Sequences
  import opened Text

  /** unicode.IsSpace. */
  predicate IsSpace(c: char) {
    var n := c as int;
    || 9 <= n <= 13 || n == 0x20 || n == 0x85 || n == 0xA0 || n == 0x1680
    || 0x2000 <= n <= 0x200A || n == 0x2028 || n == 0x2029 || n == 0x202F || n == 0x205F || n == 0x3000
  }

  function NormalizeDomain(d: string): string {
    var d1 := Trim(d, IsSpace);
    var d2 := TrimPrefix(d1, "https://");
    var d3 := TrimPrefix(d2, "http://");
    TrimSuffix(d3, "/")
  }

  const MAX_EXPANDED := 500

  type DomainId = nat

  // The lists are compared by a normalising function norm. The program's is NormalizeDomain; nothing below
  // depends on what it does.

  /** What the database answers for the scan's organisation: the domain row of a name, if any, and the at most
      500 subdomains fetched for a domain, or a failed query. */
  datatype Database = Database(domainOf: map<string, DomainId>, subdomainsOf: map<DomainId, seq<string>>) {
    /** The subdomains fetched for one original target. */
    function Fetched(norm: string -> string, root: string): seq<string> {
      var name := norm(root);
      if name in domainOf && domainOf[name] in subdomainsOf then subdomainsOf[domainOf[name]] else []
    }

    function FetchedAll(norm: string -> string, roots: seq<string>): seq<string> {
      if roots == [] then [] else FetchedAll(norm, roots[..|roots| - 1]) + Fetched(norm, roots[|roots| - 1])
    }
  }

  function Names(norm: string -> string, ts: seq<string>): set<string> {
    set i | 0 <= i < |ts| :: norm(ts[i])
  }

  /** Keeps the first target of each normalised name. */
  function Distinct(norm: string -> string, ts: seq<string>): seq<string> {
    if ts == [] then []
    else
      var front := Distinct(norm, ts[..|ts| - 1]);
      var last := ts[|ts| - 1];
      if norm(last) in Names(norm, front) then front else front + [last]
  }

  function Max(a: nat, b: nat): nat {
    if a < b then b else a
  }

  /** What the loops have merged after reading the list so far: everything new, up to the limit. */
  function Cut(norm: string -> string, read: seq<string>, limit: nat): seq<string> {
    var all := Distinct(norm, read);
    if |all| <= limit then all else all[..limit]
  }

  /** The merged list, cut off at 500 entries unless the originals alone are more. */
  function Expanded(norm: string -> string, original: seq<string>, db: Database): seq<string> {
    Cut(norm, original + db.FetchedAll(norm, original), Max(MAX_EXPANDED, |Distinct(norm, original)|))
  }

  lemma NamesSnoc(norm: string -> string, ts: seq<string>, t: string)
    ensures Names(norm, ts + [t]) == Names(norm, ts) + {norm(t)}
  {
    var us := ts + [t];
    forall n | n in Names(norm, ts) + {norm(t)} ensures n in Names(norm, us) {
      if n in Names(norm, ts) {
        var i :| 0 <= i < |ts| && norm(ts[i]) == n;
        assert us[i] == ts[i];
      } else {
        assert us[|ts|] == t;
      }
    }
  }

  lemma DistinctSnoc(norm: string -> string, ts: seq<string>, t: string)
    ensures Distinct(norm, ts + [t]) ==
              if norm(t) in Names(norm, Distinct(norm, ts)) then Distinct(norm, ts) else Distinct(norm, ts) + [t]
  {
    assert (ts + [t])[..|ts|] == ts;
  }

  lemma {:induction false} DistinctPrefix(norm: string -> string, ts: seq<string>, us: seq<string>)
    ensures Distinct(norm, ts) <= Distinct(norm, ts + us)
    decreases |us|
  {
    if us == [] {
      assert ts + us == ts;
    } else {
      var front := us[..|us| - 1];
      DistinctPrefix(norm, ts, front);
      assert ts + us == (ts + front) + [us[|us| - 1]];
      DistinctSnoc(norm, ts + front, us[|us| - 1]);
    }
  }

  /** Once the limit is reached, further input changes nothing. */
  lemma CutFull(norm: string -> string, read: seq<string>, more: seq<string>, all: seq<string>, limit: nat)
    requires all == read + more && |Distinct(norm, read)| >= limit
    ensures Cut(norm, all, limit) == Cut(norm, read, limit)
  {
    DistinctPrefix(norm, read, more);
  }

  lemma Regroup(front: seq<string>, done: seq<string>, all: seq<string>)
    requires done <= all
    ensures front + all == (front + done) + all[|done|..]
  {
    assert all == done + all[|done|..];
  }

  /** What one more target does to the merged list and the set of names seen. */
  lemma AppendOne(norm: string -> string, read: seq<string>, t: string, merged: seq<string>, seen: set<string>)
    requires merged == Distinct(norm, read) && seen == Names(norm, merged)
    ensures Distinct(norm, read + [t]) == if norm(t) in seen then merged else merged + [t]
    ensures Names(norm, merged + [t]) == seen + {norm(t)}
  {
    DistinctSnoc(norm, read, t);
    NamesSnoc(norm, merged, t);
  }

  /** The first i fetched subdomains have been merged. */
  predicate Merging(norm: string -> string, read: seq<string>, subs: seq<string>, i: nat, merged: seq<string>,
                    seen: set<string>)
  {
    && i <= |subs| && |merged| <= MAX_EXPANDED
    && merged == Distinct(norm, read + subs[..i]) && seen == Names(norm, merged)
  }

  lemma AppendNext(norm: string -> string, read: seq<string>, subs: seq<string>, i: nat, merged: seq<string>,
                   seen: set<string>, merged': seq<string>, seen': set<string>)
    requires Merging(norm, read, subs, i, merged, seen) && i < |subs| && |merged| < MAX_EXPANDED
    requires merged' == (if norm(subs[i]) in seen then merged else merged + [subs[i]])
    requires seen' == (if norm(subs[i]) in seen then seen else seen + {norm(subs[i])})
    ensures Merging(norm, read, subs, i + 1, merged', seen')
  {
    AppendOne(norm, read + subs[..i], subs[i], merged, seen);
    assert read + subs[..i + 1] == (read + subs[..i]) + [subs[i]];
  }

  /** The inner loop stops at the end of the input or at the limit. */
  lemma CutAtEnd(norm: string -> string, read: seq<string>, subs: seq<string>, i: nat, merged: seq<string>,
                 seen: set<string>)
    requires Merging(norm, read, subs, i, merged, seen)
    requires i < |subs| ==> |merged| >= MAX_EXPANDED
    ensures merged == Cut(norm, read + subs, MAX_EXPANDED)
    ensures |merged| < MAX_EXPANDED ==> merged == Distinct(norm, read + subs)
    ensures seen == Names(norm, merged)
  {
    if i < |subs| {
      Regroup(read, subs[..i], subs);
      CutFull(norm, read + subs[..i], subs[i..], read + subs, MAX_EXPANDED);
    } else {
      assert subs[..i] == subs;
    }
  }

  /** The inner loop: append the fetched subdomains of one root until the limit is reached. */
  method AppendNew(norm: string -> string, merged: seq<string>, seen: set<string>, subs: seq<string>,
                   ghost read: seq<string>)
    returns (merged': seq<string>, seen': set<string>)
    requires merged == Distinct(norm, read) && seen == Names(norm, merged) && |merged| < MAX_EXPANDED
    ensures merged' == Cut(norm, read + subs, MAX_EXPANDED) && seen' == Names(norm, merged')
    ensures |merged'| < MAX_EXPANDED ==> merged' == Distinct(norm, read + subs)
  {
    merged', seen' := merged, seen;
    assert read + subs[..0] == read;
    var i := 0;
    while i < |subs| && |merged'| < MAX_EXPANDED
      invariant Merging(norm, read, subs, i, merged', seen')
    {
      var key := norm(subs[i]);
      ghost var before, seenBefore := merged', seen';
      if key !in seen' {
        seen' := seen' + {key};
        merged' := merged' + [subs[i]];
      }
      AppendNext(norm, read, subs, i, before, seenBefore, merged', seen');
      i := i + 1;
    }
    CutAtEnd(norm, read, subs, i, merged', seen');
  }

  /** The first loop: the originals without repeated names. */
  method DedupOriginals(norm: string -> string, original: seq<string>) returns (merged: seq<string>, seen: set<string>)
    ensures merged == Distinct(norm, original) && seen == Names(norm, merged)
  {
    seen, merged := {}, [];
    for i := 0 to |original|
      invariant merged == Distinct(norm, original[..i]) && seen == Names(norm, merged)
    {
      var t := original[i];
      assert original[..i + 1][..i] == original[..i];
      var key := norm(t);
      if key !in seen {
        NamesSnoc(norm, merged, t);
        seen := seen + {key};
        merged := merged + [t];
      }
    }
    assert original[..|original|] == original;
  }

  /** The originals and what was fetched for the first r of them. */
  function Read(norm: string -> string, original: seq<string>, db: Database, r: nat): seq<string>
    requires r <= |original|
  {
    original + db.FetchedAll(norm, original[..r])
  }

  lemma ReadNext(norm: string -> string, original: seq<string>, db: Database, r: nat)
    requires r < |original|
    ensures Read(norm, original, db, r + 1) == Read(norm, original, db, r) + db.Fetched(norm, original[r])
  {
    assert original[..r + 1][..r] == original[..r];
  }

  lemma ReadRest(norm: string -> string, original: seq<string>, db: Database, r: nat, limit: nat)
    requires r <= |original| && |Distinct(norm, Read(norm, original, db, r))| >= limit
    ensures Cut(norm, Read(norm, original, db, r), limit) == Cut(norm, original + db.FetchedAll(norm, original), limit)
  {
    FetchedSplit(norm, original, db, r);
    var done, all := db.FetchedAll(norm, original[..r]), db.FetchedAll(norm, original);
    Regroup(original, done, all);
    CutFull(norm, original + done, all[|done|..], original + all, limit);
  }

  /** The loop over the roots stops as soon as the list is full. */
  method ExpandTargets(norm: string -> string, original: seq<string>, db: Database) returns (merged: seq<string>)
    ensures merged == Expanded(norm, original, db)
  {
    if |original| == 0 {
      return original;
    }
    var seen;
    merged, seen := DedupOriginals(norm, original);
    assert Read(norm, original, db, 0) == original;
    ghost var limit := Max(MAX_EXPANDED, |merged|);
    var r := 0;
    while r < |original| && |merged| < MAX_EXPANDED
      invariant 0 <= r <= |original|
      invariant merged == Cut(norm, Read(norm, original, db, r), limit) && seen == Names(norm, merged)
      invariant |merged| < MAX_EXPANDED ==> merged == Distinct(norm, Read(norm, original, db, r))
      invariant |merged| >= MAX_EXPANDED ==> |merged| == limit
      invariant limit > MAX_EXPANDED ==> |merged| >= MAX_EXPANDED
    {
      ghost var read := Read(norm, original, db, r);
      var normRoot := norm(original[r]);
      ReadNext(norm, original, db, r);
      if normRoot in db.domainOf && db.domainOf[normRoot] in db.subdomainsOf {
        merged, seen := AppendNew(norm, merged, seen, db.subdomainsOf[db.domainOf[normRoot]], read);
      } else {
        assert read + [] == read;
      }
      r := r + 1;
    }
    if r < |original| {
      ReadRest(norm, original, db, r, limit);
    } else {
      assert original[..r] == original;
    }
  }

  lemma {:induction false} FetchedSplit(norm: string -> string, roots: seq<string>, db: Database, r: nat)
    requires r <= |roots|
    ensures db.FetchedAll(norm, roots[..r]) <= db.FetchedAll(norm, roots)
    decreases |roots|
  {
    if r == |roots| {
      assert roots[..r] == roots;
    } else {
      FetchedSplit(norm, roots[..|roots| - 1], db, r);
      assert roots[..|roots| - 1][..r] == roots[..r];
    }
  }

  method ExpandTargetsWithDiscoveredSubdomains(original: seq<string>, db: Database) returns (merged: seq<string>)
    ensures merged == Expanded(NormalizeDomain, original, db)
  {
    merged := ExpandTargets(NormalizeDomain, original, db);
  }

  // ---------- what the expansion promises ----------

  predicate DistinctNames(norm: string -> string, ts: seq<string>) {
    forall i, j :: 0 <= i < j < |ts| ==> norm(ts[i]) != norm(ts[j])
  }

  lemma {:induction false} DistinctIsDistinct(norm: string -> string, ts: seq<string>)
    ensures DistinctNames(norm, Distinct(norm, ts)) && Names(norm, Distinct(norm, ts)) == Names(norm, ts)
    ensures forall t :: t in Distinct(norm, ts) ==> t in ts
  {
    if ts != [] {
      var front, last := ts[..|ts| - 1], ts[|ts| - 1];
      DistinctIsDistinct(norm, front);
      assert ts == front + [last];
      NamesSnoc(norm, front, last);
      NamesSnoc(norm, Distinct(norm, front), last);
    }
  }

  /** The deduplicated originals come first, no two entries name the same host, and the size is bounded. */
  lemma ExpansionBounds(norm: string -> string, original: seq<string>, db: Database)
    ensures Distinct(norm, original) <= Expanded(norm, original, db)
    ensures DistinctNames(norm, Expanded(norm, original, db))
    ensures |Expanded(norm, original, db)| <= Max(MAX_EXPANDED, |Distinct(norm, original)|)
    ensures Names(norm, original) <= Names(norm, Expanded(norm, original, db))
  {
    var all := original + db.FetchedAll(norm, original);
    DistinctPrefix(norm, original, db.FetchedAll(norm, original));
    DistinctIsDistinct(norm, all);
    DistinctIsDistinct(norm, original);
    var e := Expanded(norm, original, db);
    forall n | n in Names(norm, original) ensures n in Names(norm, e) {
      var d := Distinct(norm, original);
      assert n in Names(norm, d);
      var i :| 0 <= i < |d| && norm(d[i]) == n;
      assert e[i] == d[i];
    }
  }

  lemma {:induction false} FetchedAllMembers(norm: string -> string, roots: seq<string>, db: Database, s: string)
    ensures s in db.FetchedAll(norm, roots) <==> exists i :: 0 <= i < |roots| && s in db.Fetched(norm, roots[i])
  {
    if roots != [] {
      var front := roots[..|roots| - 1];
      FetchedAllMembers(norm, front, db, s);
      if s in db.FetchedAll(norm, front) {
        var i :| 0 <= i < |front| && s in db.Fetched(norm, front[i]);
        assert roots[i] == front[i];
      }
      if i :| 0 <= i < |roots| && s in db.Fetched(norm, roots[i]) {
        if i < |front| {
          assert front[i] == roots[i];
        }
      }
    }
  }

  lemma NameNotInPrefix(norm: string -> string, d: seq<string>, e: seq<string>, k: nat)
    requires d <= e && DistinctNames(norm, e) && |d| <= k < |e|
    ensures norm(e[k]) !in Names(norm, d)
  {
    forall i | 0 <= i < |d| ensures norm(d[i]) != norm(e[k]) {
      assert e[i] == d[i];
    }
  }

  /** Subdomain s was fetched for the domain row whose name is the normalised target. */
  predicate Known(norm: string -> string, root: string, db: Database, s: string) {
    && norm(root) in db.domainOf && db.domainOf[norm(root)] in db.subdomainsOf
    && s in db.subdomainsOf[db.domainOf[norm(root)]]
  }

  /** Everything added is a subdomain stored for a domain that one of the originals names. */
  lemma OnlyKnownSubdomainsAdded(norm: string -> string, original: seq<string>, db: Database, k: nat)
    requires |Distinct(norm, original)| <= k < |Expanded(norm, original, db)|
    ensures exists i :: 0 <= i < |original| && Known(norm, original[i], db, Expanded(norm, original, db)[k])
  {
    var all := original + db.FetchedAll(norm, original);
    var e := Expanded(norm, original, db);
    DistinctIsDistinct(norm, all);
    ExpansionBounds(norm, original, db);
    assert e[k] in Distinct(norm, all) && e[k] in all;
    NameNotInPrefix(norm, Distinct(norm, original), e, k);
    DistinctIsDistinct(norm, original);
    forall m | 0 <= m < |original| ensures original[m] != e[k] {
      assert norm(original[m]) in Names(norm, original);
    }
    FetchedAllMembers(norm, original, db, e[k]);
    var i :| 0 <= i < |original| && e[k] in db.Fetched(norm, original[i]);
    assert Known(norm, original[i], db, e[k]);
  }

  /** Below the cap nothing that was fetched is left out. */
  lemma NothingOmittedBelowCap(norm: string -> string, original: seq<string>, db: Database, i: nat, s: string)
    requires |Expanded(norm, original, db)| < 500
    requires i < |original| && Known(norm, original[i], db, s)
    ensures norm(s) in Names(norm, Expanded(norm, original, db))
  {
    var all := original + db.FetchedAll(norm, original);
    assert s in db.Fetched(norm, original[i]);
    FetchedAllMembers(norm, original, db, s);
    DistinctIsDistinct(norm, all);
    assert s in all;
    var k :| 0 <= k < |all| && all[k] == s;
    assert norm(all[k]) in Names(norm, all);
  }

  predicate FirstOfName(norm: string -> string, ts: seq<string>, i: nat)
    requires i < |ts|
  {
    forall j :: 0 <= j < i ==> norm(ts[j]) != norm(ts[i])
  }

  lemma FirstOfNameSnoc(norm: string -> string, ts: seq<string>, t: string)
    ensures forall i: nat :: i < |ts| ==> (FirstOfName(norm, ts + [t], i) <==> FirstOfName(norm, ts, i))
    ensures FirstOfName(norm, ts + [t], |ts|) <==> norm(t) !in Names(norm, ts)
  {
    var all := ts + [t];
    forall i: nat | i < |ts| ensures FirstOfName(norm, all, i) <==> FirstOfName(norm, ts, i) {
      assert all[i] == ts[i] && forall j :: 0 <= j < i ==> all[j] == ts[j];
    }
    assert forall j :: 0 <= j < |ts| ==> all[j] == ts[j];
    assert all[|ts|] == t;
  }

  /** The targets that keep their place: those whose name no earlier one has. */
  lemma {:induction false} DistinctExactly(norm: string -> string, ts: seq<string>) returns (at: seq<nat>)
    ensures Increasing(at, |ts|) && PickedAt(Distinct(norm, ts), ts, at)
    ensures forall i: nat :: i < |ts| ==> (i in at <==> FirstOfName(norm, ts, i))
  {
    at := [];
    if ts != [] {
      var front, last := ts[..|ts| - 1], ts[|ts| - 1];
      at := DistinctExactly(norm, front);
      assert ts == front + [last];
      IncreasingSnoc(at, |front|);
      PickedMore(Distinct(norm, front), front, at, last);
      DistinctIsDistinct(norm, front);
      DistinctSnoc(norm, front, last);
      FirstOfNameSnoc(norm, front, last);
      if norm(last) !in Names(norm, front) {
        at := at + [|front|];
      }
    }
  }

  /** What is fetched, target by target and in the order of the answers: nothing when there is no domain row of the
      normalised name, or the query for its subdomains fails. */
  lemma FetchedExactly(norm: string -> string, roots: seq<string>, root: string, db: Database)
    ensures db.FetchedAll(norm, []) == []
    ensures db.FetchedAll(norm, roots + [root]) == db.FetchedAll(norm, roots)
              + if norm(root) in db.domainOf && db.domainOf[norm(root)] in db.subdomainsOf
                then db.subdomainsOf[db.domainOf[norm(root)]] else []
  {
    assert (roots + [root])[..|roots|] == roots;
  }

  /** The expansion: of the originals followed by everything fetched, the first target of each name, in that order,
      and of these as many as there are distinct originals, or 500 if that is more. */
  lemma ExpandedExactly(norm: string -> string, original: seq<string>, db: Database)
    returns (at: seq<nat>, originals: seq<nat>)
    ensures var all := original + db.FetchedAll(norm, original);
            var e := Expanded(norm, original, db);
            && Increasing(at, |all|) && Increasing(originals, |original|)
            && (forall i: nat :: i < |all| ==> (i in at <==> FirstOfName(norm, all, i)))
            && (forall i: nat :: i < |original| ==> (i in originals <==> FirstOfName(norm, original, i)))
            && |e| == (if |at| <= 500 || |at| <= |originals| then |at|
                       else if |originals| < 500 then 500 else |originals|)
            && PickedAt(e, all, at[..|e|])
  {
    at := DistinctExactly(norm, original + db.FetchedAll(norm, original));
    originals := DistinctExactly(norm, original);
  }

  // ---------- normalising one target ----------

  /** A name with nothing for normalizeDomain to remove: no outer white space, no scheme in front, no slash at the
      end. It may still have a path, a port or inner white space. */
  predicate Stripped(d: string) {
    Tight(d, IsSpace) && !("https://" <= d) && !("http://" <= d) && d[|d| - 1] != '/'
  }

  predicate Clean(n: string) {
    n == "" || Stripped(n)
  }

  predicate IsScheme(scheme: string) {
    scheme == "" || scheme == "http://" || scheme == "https://" || scheme == "https://http://"
  }

  predicate IsSlash(slash: string) {
    slash == "" || slash == "/"
  }

  /** The target is the name, with at most a scheme, a slash and white space around it. */
  predicate Spells(d: string, n: string, before: string, scheme: string, slash: string, after: string) {
    && AllIn(before, IsSpace) && AllIn(after, IsSpace) && IsScheme(scheme) && IsSlash(slash)
    && d == before + (scheme + n + slash) + after
  }

  ghost predicate Spelling(d: string, n: string) {
    exists before, scheme, slash, after :: Spells(d, n, before, scheme, slash, after)
  }

  /** Every spelling of a clean name normalises to the name. */
  lemma SpellingsAgree(d: string, n: string, before: string, scheme: string, slash: string, after: string)
    requires Clean(n) && Spells(d, n, before, scheme, slash, after)
    ensures NormalizeDomain(d) == n
  {
    var t := n + slash;
    assert scheme + n + slash == scheme + t;
    if scheme + t == "" {
      assert d == before + after;
      TrimBlank(d, IsSpace);
    } else {
      SpellingTight(scheme, n, slash);
      TrimPadded(before, scheme + n + slash, after, IsSpace);
    }
    SchemeNotAcross(n, slash, "https://");
    SchemeNotAcross(n, slash, "http://");
    SchemeRemoved(scheme, t);
    SlashRemoved(n, slash);
  }

  lemma SpellingTight(scheme: string, n: string, slash: string)
    requires Clean(n) && IsScheme(scheme) && IsSlash(slash) && scheme + n + slash != ""
    ensures Tight(scheme + n + slash, IsSpace)
  {
    var s := scheme + n + slash;
    assert s[0] == if scheme != "" then 'h' else if n != "" then n[0] else '/';
    assert s[|s| - 1] == if slash != "" then '/' else if n != "" then n[|n| - 1] else scheme[|scheme| - 1];
    assert scheme != "" ==> scheme[|scheme| - 1] == '/';
  }

  lemma SlashRemoved(n: string, slash: string)
    requires Clean(n) && IsSlash(slash)
    ensures TrimSuffix(n + slash, "/") == n
  {
    var t := n + slash;
    if slash == "" {
      assert t == n && (n != "" ==> t[|t| - 1..][0] == n[|n| - 1]);
    } else {
      assert t[|t| - 1..] == "/" && t[..|n|] == n;
    }
  }

  lemma SchemeRemoved(scheme: string, t: string)
    requires IsScheme(scheme) && !("https://" <= t) && !("http://" <= t)
    ensures TrimPrefix(TrimPrefix(scheme + t, "https://"), "http://") == t
  {
    var s := scheme + t;
    assert s[|scheme|..] == t;
    assert scheme == "http://" ==> s[4] == ':';
    assert scheme == "" ==> s == t;
    if scheme == "https://http://" {
      assert s[8..] == "http://" + t && ("http://" + t)[7..] == t;
    }
  }

  /** A slash added to a clean name does not complete a scheme. */
  lemma SchemeNotAcross(n: string, slash: string, scheme: string)
    requires Clean(n) && IsSlash(slash) && (scheme == "https://" || scheme == "http://")
    ensures !(scheme <= n + slash)
  {
    var t := n + slash;
    assert scheme[|scheme| - 2] == '/';
    if |scheme| <= |n| {
      assert t[..|scheme|] == n[..|scheme|];
    } else if |scheme| == |t| {
      assert t[|n| - 1] == n[|n| - 1];
    }
  }

  lemma PrefixSplit(s: string, prefix: string) returns (removed: string)
    ensures s == removed + TrimPrefix(s, prefix) && (removed == "" || removed == prefix)
    ensures removed == "" ==> TrimPrefix(s, prefix) == s
  {
    removed := if prefix <= s then prefix else "";
  }

  lemma SuffixSplit(s: string, suffix: string) returns (removed: string)
    ensures s == TrimSuffix(s, suffix) + removed && (removed == "" || removed == suffix)
    ensures removed == "" ==> TrimSuffix(s, suffix) == s
  {
    removed := if TrimSuffix(s, suffix) == s then "" else suffix;
  }

  lemma RegroupParts(https: string, http: string, n: string, slash: string)
    ensures https + (http + (n + slash)) == https + http + n + slash
  {
  }

  /** Whatever normalizeDomain returns, the target is a spelling of it. */
  lemma ResultIsSpelled(d: string) returns (before: string, scheme: string, slash: string, after: string)
    ensures Spells(d, NormalizeDomain(d), before, scheme, slash, after)
  {
    before, after := TrimSplit(d, IsSpace);
    var d1 := Trim(d, IsSpace);
    var https := PrefixSplit(d1, "https://");
    var d2 := TrimPrefix(d1, "https://");
    var http := PrefixSplit(d2, "http://");
    var d3 := TrimPrefix(d2, "http://");
    slash := SuffixSplit(d3, "/");
    scheme := https + http;
    SchemesJoin(https, http);
    RegroupParts(https, http, TrimSuffix(d3, "/"), slash);
  }

  lemma SchemesJoin(https: string, http: string)
    requires https in ["", "https://"] && http in ["", "http://"]
    ensures IsScheme(https + http)
  {
  }

  /** A clean name is the result of exactly its spellings. */
  lemma SpelledExactly(d: string, n: string)
    requires Clean(n)
    ensures NormalizeDomain(d) == n <==> Spelling(d, n)
  {
    if before, scheme, slash, after :| Spells(d, n, before, scheme, slash, after) {
      SpellingsAgree(d, n, before, scheme, slash, after);
    }
    var before, scheme, slash, after := ResultIsSpelled(d);
  }

  /** The targets normalizeDomain leaves alone are the clean names. */
  lemma UnchangedExactly(d: string)
    ensures NormalizeDomain(d) == d <==> Clean(d)
  {
    if NormalizeDomain(d) == d {
      var before, after := TrimSplit(d, IsSpace);
      NothingRemoved(d);
    }
    if Stripped(d) {
      TrimTight(d, IsSpace);
    }
  }

  lemma NothingRemoved(d: string)
    requires NormalizeDomain(d) == d
    ensures Trim(d, IsSpace) == d
    ensures !("https://" <= d) && !("http://" <= d) && (d != "" ==> d[|d| - 1] != '/')
  {
    var before, after := TrimSplit(d, IsSpace);
    var d1 := Trim(d, IsSpace);
    assert |NormalizeDomain(d)| <= |TrimPrefix(TrimPrefix(d1, "https://"), "http://")| <= |d1| <= |d|;
    assert d != "" ==> d[|d| - 1..] == [d[|d| - 1]];
  }

  /** Normalising a second time changes nothing if and only if the target spells a clean name. */
  lemma IdempotentExactly(d: string)
    ensures NormalizeDomain(NormalizeDomain(d)) == NormalizeDomain(d) <==> exists n :: Clean(n) && Spelling(d, n)
  {
    var r := NormalizeDomain(d);
    UnchangedExactly(r);
    if Clean(r) {
      SpelledExactly(d, r);
    }
    if n :| Clean(n) && Spelling(d, n) {
      SpelledExactly(d, n);
    }
  }

  /** What a scanner expects: a name without path, port, scheme or white space. */
  predicate BareDomain(n: string) {
    n != "" && forall i :: 0 <= i < |n| ==> n[i] != '/' && n[i] != ':' && !IsSpace(n[i])
  }

  lemma BareIsStripped(n: string)
    requires BareDomain(n)
    ensures Stripped(n)
  {
    assert "https://"[6] == '/' && "http://"[5] == '/';
  }

  /** The result is a bare domain if and only if the target spells one. */
  lemma BareExactly(d: string)
    ensures BareDomain(NormalizeDomain(d)) <==> exists n :: BareDomain(n) && Spelling(d, n)
  {
    var r := NormalizeDomain(d);
    if BareDomain(r) {
      BareIsStripped(r);
      SpelledExactly(d, r);
    }
    if n :| BareDomain(n) && Spelling(d, n) {
      BareIsStripped(n);
      SpelledExactly(d, n);
    }
  }

  /** A path is kept. */
  lemma PathIsKept()
    ensures NormalizeDomain("https://a.com/x") == "a.com/x" && !BareDomain("a.com/x")
  {
    var n := "a.com/x";
    assert n[0] == 'a' && n[5] == '/' && n[6] == 'x';
    assert "" + ("https://" + n + "") + "" == "https://a.com/x";
    SpellingsAgree("https://a.com/x", n, "", "https://", "", "");
  }

  /** normalizeDomain may leave a scheme behind, so it is not idempotent. */
  lemma NormalizeNotIdempotent()
    ensures NormalizeDomain("http://https://x") == "https://x" && NormalizeDomain("https://x") == "x"
  {
    assert "http://https://x"[7..] == "https://x" && "https://x"[8..] == "x";
    assert "http://https://x"[4] == ':';
  }

  /** However a target is written: when it spells the clean name of a domain row, every subdomain fetched for the row
      is scanned, unless the cap was reached. */
  lemma SpelledTargetsExpand(original: seq<string>, db: Database, i: nat, n: string, s: string)
    requires i < |original| && Clean(n) && Spelling(original[i], n)
    requires n in db.domainOf && db.domainOf[n] in db.subdomainsOf && s in db.subdomainsOf[db.domainOf[n]]
    requires |Expanded(NormalizeDomain, original, db)| < 500
    ensures NormalizeDomain(s) in Names(NormalizeDomain, Expanded(NormalizeDomain, original, db))
  {
    SpelledExactly(original[i], n);
    NothingOmittedBelowCap(NormalizeDomain, original, db, i, s);
  }

  /** The code points of the Unicode property White_Space. */
  lemma SpacesExactly(c: char)
    ensures IsSpace(c) <==> c as int in [9, 10, 11, 12, 13, 0x20, 0x85, 0xA0, 0x1680,
                                         0x2000, 0x2001, 0x2002, 0x2003, 0x2004, 0x2005, 0x2006, 0x2007, 0x2008, 0x2009,
                                         0x200A, 0x2028, 0x2029, 0x202F, 0x205F, 0x3000]
  {
  }
}
