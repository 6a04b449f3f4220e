/** The stored recent-search list of frontend/src/utils/recentSearches.ts. */
module RecentSearches {
  import opened Sequences
  import opened Text

  /** White space as String.prototype.trim removes it. */
  predicate IsBlank(c: char) {
    var n := c as int;
    || 9 <= n <= 13 || n == 0x20 || n == 0xA0 || n == 0x1680 || 0x2000 <= n <= 0x200A
    || n == 0x2028 || n == 0x2029 || n == 0x202F || n == 0x205F || n == 0x3000 || n == 0xFEFF
  }

  function Trimmed(q: string): string {
    Trim(q, IsBlank)
  }

  const MAX_RECENTS := 8

  /** The localStorage entry: missing, not parseable, or a stored list. */
  datatype Entry = Absent | Garbled | Stored(items: seq<string>)

  function Loaded(e: Entry): seq<string> {
    if e.Stored? then e.items else []
  }

  function Without(items: seq<string>, t: string): seq<string> {
    if items == [] then [] else (if items[0] == t then [] else [items[0]]) + Without(items[1..], t)
  }

  function Take(items: seq<string>, n: nat): seq<string> {
    if |items| <= n then items else items[..n]
  }

  function Saved(e: Entry, q: string): Entry {
    var t := Trimmed(q);
    if t == "" then e else Stored(Take([t] + Without(Loaded(e), t), MAX_RECENTS))
  }

  /** A call, and whether the browser lets it write. */
  datatype Action = Search(q: string, writable: bool) | Clear(writable: bool)

  function EntryNext(before: Entry, a: Action): Entry {
    if !a.writable then before else if a.Clear? then Absent else Saved(before, a.q)
  }

  class RecentStore {
    var entry: Entry

    constructor (initial: Entry)
      ensures entry == initial
    {
      entry := initial;
    }

    method Load() returns (items: seq<string>)
      ensures items == Loaded(entry) == if entry.Stored? then entry.items else []
    {
      if entry.Stored? {
        return entry.items;
      }
      return [];
    }

    /** writable is false when the browser refuses to store, in private mode or over quota. */
    method Save(q: string, writable: bool)
      modifies this
      ensures entry == EntryNext(old(entry), Search(q, writable))
      ensures !writable || Trimmed(q) == "" ==> entry == old(entry)
      ensures writable && Trimmed(q) != "" ==>
                var before := if old(entry).Stored? then old(entry).items else [];
                && entry.Stored? && entry.items != [] && |entry.items| <= 8
                && entry.items <= [Trimmed(q)] + Without(before, Trimmed(q))
                && (|entry.items| == 8 || entry.items == [Trimmed(q)] + Without(before, Trimmed(q)))
    {
      var t := Trimmed(q);
      if t == "" {
        return;
      }
      var items := Load();
      var next := Take([t] + Without(items, t), MAX_RECENTS);
      if writable {
        entry := Stored(next);
      }
    }

    method Clear(writable: bool)
      modifies this
      ensures entry == EntryNext(old(entry), Action.Clear(writable)) == if writable then Absent else old(entry)
    {
      if writable {
        entry := Absent;
      }
    }
  }

  // ---------- histories ----------

  function EntryAfter(initial: Entry, h: seq<Action>): Entry {
    if h == [] then initial else EntryNext(EntryAfter(initial, h[..|h| - 1]), h[|h| - 1])
  }

  /** The list as it would be without a limit. */
  function AllRecent(items: seq<string>, h: seq<Action>): seq<string> {
    if h == [] then items
    else
      var before, a := AllRecent(items, h[..|h| - 1]), h[|h| - 1];
      if !a.writable then before
      else if a.Clear? then []
      else if Trimmed(a.q) == "" then before
      else [Trimmed(a.q)] + Without(before, Trimmed(a.q))
  }

  predicate NoDuplicates(items: seq<string>) {
    forall i, j :: 0 <= i < j < |items| ==> items[i] != items[j]
  }

  lemma {:induction false} WithoutMembers(items: seq<string>, t: string)
    ensures forall x :: x in Without(items, t) <==> x in items && x != t
  {
    if items != [] {
      WithoutMembers(items[1..], t);
    }
  }

  lemma {:induction false} WithoutKeepsDistinct(items: seq<string>, t: string)
    requires NoDuplicates(items)
    ensures NoDuplicates(Without(items, t))
  {
    if items != [] {
      WithoutKeepsDistinct(items[1..], t);
      WithoutMembers(items[1..], t);
      forall i | 0 <= i < |Without(items[1..], t)| ensures Without(items[1..], t)[i] != items[0] {
        assert Without(items[1..], t)[i] in Without(items[1..], t);
      }
    }
  }

  lemma {:induction false} WithoutAbsent(items: seq<string>, t: string)
    requires t !in items
    ensures Without(items, t) == items
  {
    if items != [] {
      WithoutAbsent(items[1..], t);
      assert items == [items[0]] + items[1..];
    }
  }

  lemma TakeCons(x: string, items: seq<string>, n: nat)
    ensures Take([x] + items, n + 1) == [x] + Take(items, n)
  {
  }

  /** Cutting one entry further down before removing t loses nothing of the first n. */
  lemma {:induction false} CutThenRemove(items: seq<string>, t: string, n: nat)
    requires NoDuplicates(items)
    ensures Take(Without(Take(items, n + 1), t), n) == Take(Without(items, t), n)
    decreases |items|
  {
    if items != [] && n > 0 {
      var x, rest := items[0], items[1..];
      assert items == [x] + rest;
      TakeCons(x, rest, n);
      assert Take(items, n + 1)[1..] == Take(rest, n);
      if x == t {
        assert t !in rest;
        WithoutAbsent(rest, t);
        WithoutAbsent(Take(rest, n), t);
        assert Take(Take(rest, n), n) == Take(rest, n);
      } else {
        CutThenRemove(rest, t, n - 1);
        TakeCons(x, Without(rest, t), n - 1);
        TakeCons(x, Without(Take(rest, n), t), n - 1);
      }
    }
  }

  lemma {:induction false} AllRecentDistinct(items: seq<string>, h: seq<Action>)
    requires NoDuplicates(items)
    ensures NoDuplicates(AllRecent(items, h))
    decreases |h|
  {
    if h != [] {
      var before, a := AllRecent(items, h[..|h| - 1]), h[|h| - 1];
      AllRecentDistinct(items, h[..|h| - 1]);
      if a.Search? {
        WithoutKeepsDistinct(before, Trimmed(a.q));
        WithoutMembers(before, Trimmed(a.q));
        forall i | 0 <= i < |Without(before, Trimmed(a.q))| ensures Without(before, Trimmed(a.q))[i] != Trimmed(a.q) {
          assert Without(before, Trimmed(a.q))[i] in Without(before, Trimmed(a.q));
        }
      }
    }
  }

  /** Cutting the list at every save gives the same as keeping everything and cutting once. */
  lemma {:induction false} CuttingLosesNothing(initial: Entry, h: seq<Action>)
    requires NoDuplicates(Loaded(initial)) && |Loaded(initial)| <= MAX_RECENTS
    ensures var all := AllRecent(Loaded(initial), h);
            Loaded(EntryAfter(initial, h)) == if |all| <= 8 then all else all[..8]
    decreases |h|
  {
    if h != [] {
      var front, a := h[..|h| - 1], h[|h| - 1];
      CuttingLosesNothing(initial, front);
      if a.Search? && a.writable && Trimmed(a.q) != "" {
        var t, all := Trimmed(a.q), AllRecent(Loaded(initial), front);
        AllRecentDistinct(Loaded(initial), front);
        CutThenRemove(all, t, MAX_RECENTS - 1);
        TakeAfterHead(t, Without(Take(all, MAX_RECENTS), t));
        TakeAfterHead(t, Without(all, t));
      }
    }
  }

  lemma TakeAfterHead(t: string, items: seq<string>)
    ensures Take([t] + items, MAX_RECENTS) == [t] + Take(items, MAX_RECENTS - 1)
  {
  }

  // ---------- what the unlimited list is ----------

  /** The action was not refused, and cleared the list or searched for t. */
  predicate Affects(a: Action, t: string) {
    a.writable && (a.Clear? || Trimmed(a.q) == t)
  }

  /** Action i searched for t, and no later action cleared the list or searched for t. */
  predicate LastSearch(h: seq<Action>, i: int, t: string) {
    && 0 <= i < |h| && h[i].Search? && Affects(h[i], t)
    && forall j :: i < j < |h| ==> !Affects(h[j], t)
  }

  lemma LastSearchSnoc(h: seq<Action>, a: Action, i: int, t: string)
    ensures LastSearch(h + [a], i, t) <==> if Affects(a, t) then a.Search? && i == |h| else LastSearch(h, i, t)
  {
    var all := h + [a];
    if !Affects(a, t) && LastSearch(all, i, t) {
      assert i < |h| && h[i] == all[i];
      forall j | i < j < |h| ensures !Affects(h[j], t) {
        assert all[j] == h[j];
      }
    }
    if LastSearch(all, i, t) && i < |h| {
      assert all[|h|] == a;
    }
  }

  /** Entry k of the unlimited list is a non-blank query, and each earlier entry was searched for later. */
  predicate OrderedBySearch(h: seq<Action>, items: seq<string>, at: seq<int>) {
    && |at| == |items|
    && (forall k :: 0 <= k < |items| ==> items[k] != "" && LastSearch(h, at[k], items[k]))
    && (forall k, m :: 0 <= k < m < |items| ==> at[k] > at[m])
  }

  lemma OrderedCons(h: seq<Action>, x: string, i: int, items: seq<string>, at: seq<int>)
    requires x != "" && LastSearch(h, i, x) && OrderedBySearch(h, items, at)
    requires forall k :: 0 <= k < |at| ==> at[k] < i
    ensures OrderedBySearch(h, [x] + items, [i] + at)
  {
    var xs, ns := [x] + items, [i] + at;
    forall k | 0 <= k < |xs| ensures xs[k] != "" && LastSearch(h, ns[k], xs[k]) {
      if k > 0 {
        assert xs[k] == items[k - 1] && ns[k] == at[k - 1];
      }
    }
    forall k, m | 0 <= k < m < |xs| ensures ns[k] > ns[m] {
      assert ns[m] == at[m - 1];
      if k > 0 {
        assert ns[k] == at[k - 1];
      }
    }
  }

  lemma OrderedTail(h: seq<Action>, items: seq<string>, at: seq<int>)
    requires items != [] && OrderedBySearch(h, items, at)
    ensures OrderedBySearch(h, items[1..], at[1..])
  {
  }

  lemma {:induction false} WithoutOrdered(h: seq<Action>, items: seq<string>, at: seq<int>, t: string, bound: int)
    returns (at': seq<int>)
    requires OrderedBySearch(h, items, at) && forall k :: 0 <= k < |at| ==> at[k] < bound
    ensures OrderedBySearch(h, Without(items, t), at')
    ensures forall k :: 0 <= k < |at'| ==> at'[k] < bound
    decreases |items|
  {
    if items == [] {
      at' := [];
    } else {
      OrderedTail(h, items, at);
      at' := WithoutOrdered(h, items[1..], at[1..], t, at[0]);
      if items[0] != t {
        OrderedCons(h, items[0], at[0], Without(items[1..], t), at');
        at' := [at[0]] + at';
      }
    }
  }

  lemma SearchedAgain(front: seq<Action>, before: seq<string>, at: seq<int>, a: Action) returns (at': seq<int>)
    requires OrderedBySearch(front, before, at) && a.Search? && a.writable && Trimmed(a.q) != ""
    ensures OrderedBySearch(front + [a], [Trimmed(a.q)] + Without(before, Trimmed(a.q)), at')
  {
    var t := Trimmed(a.q);
    var rest := Without(before, t);
    var h := front + [a];
    at' := WithoutOrdered(front, before, at, t, |front|);
    WithoutMembers(before, t);
    forall k | 0 <= k < |at'| ensures LastSearch(h, at'[k], rest[k]) {
      assert rest[k] in rest;
      LastSearchSnoc(front, a, at'[k], rest[k]);
    }
    LastSearchSnoc(front, a, |front|, t);
    assert OrderedBySearch(h, rest, at');
    OrderedCons(h, t, |front|, rest, at');
    at' := [|front|] + at';
  }

  /** The unlimited list, newest search first: it is ordered by the last search of each entry. */
  lemma {:induction false} NewestFirst(h: seq<Action>) returns (at: seq<int>)
    ensures OrderedBySearch(h, AllRecent([], h), at)
    decreases |h|
  {
    if h == [] {
      at := [];
    } else {
      var front, a := h[..|h| - 1], h[|h| - 1];
      assert h == front + [a];
      var before := AllRecent([], front);
      at := NewestFirst(front);
      if a.writable && a.Clear? {
        at := [];
      } else if a.writable && Trimmed(a.q) != "" {
        at := SearchedAgain(front, before, at, a);
      } else {
        forall k | 0 <= k < |at| ensures LastSearch(h, at[k], before[k]) {
          LastSearchSnoc(front, a, at[k], before[k]);
        }
      }
    }
  }

  /** Nothing is missing from it: every non-blank query searched since the last clear is there. */
  lemma {:induction false} EverySearchListed(h: seq<Action>, i: int, t: string)
    requires LastSearch(h, i, t) && t != ""
    ensures t in AllRecent([], h)
    decreases |h|
  {
    var front, a := h[..|h| - 1], h[|h| - 1];
    assert h == front + [a];
    LastSearchSnoc(front, a, i, t);
    if !Affects(a, t) {
      EverySearchListed(front, i, t);
      if a.writable {
        WithoutMembers(AllRecent([], front), Trimmed(a.q));
      }
    }
  }

  // ---------- what trimming and removing do ----------

  /** The code points that String.prototype.trim removes: those of the property White_Space without the next-line
      character, and the byte order mark. */
  lemma BlanksExactly(c: char)
    ensures IsBlank(c) <==> c as int in [9, 10, 11, 12, 13, 0x20, 0xA0, 0x1680, 0x2000, 0x2001, 0x2002, 0x2003, 0x2004,
                                         0x2005, 0x2006, 0x2007, 0x2008, 0x2009, 0x200A, 0x2028, 0x2029, 0x202F,
                                         0x205F, 0x3000, 0xFEFF]
  {
  }

  /** The query with the blanks around it removed, all of them, and nothing else. */
  lemma TrimmedExactly(q: string, t: string)
    ensures Trimmed(q) == t <==>
              && (t == "" || (!IsBlank(t[0]) && !IsBlank(t[|t| - 1])))
              && exists before, after :: AllIn(before, IsBlank) && AllIn(after, IsBlank) && q == before + t + after
  {
    var b, a := TrimSplit(q, IsBlank);
    if (t == "" || (!IsBlank(t[0]) && !IsBlank(t[|t| - 1]))) {
      if before, after :| AllIn(before, IsBlank) && AllIn(after, IsBlank) && q == before + t + after {
        if t == "" {
          TrimBlank(q, IsBlank);
        } else {
          TrimPadded(before, t, after, IsBlank);
        }
      }
    }
  }

  lemma {:induction false} WithoutSnoc(items: seq<string>, x: string, t: string)
    ensures Without(items + [x], t) == Without(items, t) + if x == t then [] else [x]
  {
    if items == [] {
      assert items + [x] == [x] && [x][1..] == [];
    } else {
      WithoutSnoc(items[1..], x, t);
      assert (items + [x])[1..] == items[1..] + [x];
    }
  }

  /** The other entries keep their order, and none is dropped. */
  lemma {:induction false} WithoutExactly(items: seq<string>, t: string, n: nat) returns (at: seq<nat>)
    requires n <= |items|
    ensures Increasing(at, n) && |Without(items[..n], t)| == |at|
    ensures forall m :: 0 <= m < |at| ==> Without(items[..n], t)[m] == items[at[m]]
    ensures forall i: nat :: i < n ==> (i in at <==> items[i] != t)
  {
    at := [];
    if n > 0 {
      at := WithoutExactly(items, t, n - 1);
      IncreasingSnoc(at, n - 1);
      assert items[..n] == items[..n - 1] + [items[n - 1]];
      WithoutSnoc(items[..n - 1], items[n - 1], t);
      if items[n - 1] != t {
        at := at + [n - 1];
      }
    }
  }
}
