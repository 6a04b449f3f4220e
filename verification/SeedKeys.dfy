/** seedKey of internal/scheduler/continuous_discovery.go: a sorted copy, joined, as a set-equality key. */
module SeedKeys {
  import opened Text

  // ---------- the order of Go strings ----------

  predicate Less(a: string, b: string) {
    if b == "" then false
    else if a == "" then true
    else a[0] < b[0] || (a[0] == b[0] && Less(a[1..], b[1..]))
  }

  predicate AtMost(a: string, b: string) {
    !Less(b, a)
  }

  lemma {:induction false} LessAsymmetric(a: string, b: string)
    requires Less(a, b)
    ensures !Less(b, a)
    decreases |a|
  {
    if a != "" && a[0] == b[0] {
      LessAsymmetric(a[1..], b[1..]);
    }
  }

  lemma {:induction false} AtMostAntisymmetric(a: string, b: string)
    requires AtMost(a, b) && AtMost(b, a)
    ensures a == b
    decreases |a|
  {
    if a != "" && b != "" {
      AtMostAntisymmetric(a[1..], b[1..]);
      assert a == [a[0]] + a[1..] && b == [b[0]] + b[1..];
    }
  }

  lemma {:induction false} AtMostTransitive(a: string, b: string, c: string)
    requires AtMost(a, b) && AtMost(b, c)
    ensures AtMost(a, c)
    decreases |a|
  {
    if a != "" && b != "" && c != "" && a[0] == b[0] == c[0] {
      AtMostTransitive(a[1..], b[1..], c[1..]);
    }
  }

  // ---------- sorting ----------

  predicate Sorted(s: seq<string>) {
    forall p, q :: 0 <= p < q < |s| ==> AtMost(s[p], s[q])
  }

  function Insert(x: string, s: seq<string>): seq<string> {
    if s == [] then [x] else if AtMost(x, s[0]) then [x] + s else [s[0]] + Insert(x, s[1..])
  }

  function Sort(s: seq<string>): seq<string> {
    if s == [] then [] else Insert(s[0], Sort(s[1..]))
  }

  lemma ConsSorted(x: string, s: seq<string>)
    requires Sorted(s) && forall q :: 0 <= q < |s| ==> AtMost(x, s[q])
    ensures Sorted([x] + s)
  {
    var t := [x] + s;
    forall p, q | 0 <= p < q < |t| ensures AtMost(t[p], t[q]) {
      assert t[q] == s[q - 1] && (p > 0 ==> t[p] == s[p - 1]);
    }
  }

  lemma {:induction false} InsertSorts(x: string, s: seq<string>)
    requires Sorted(s)
    ensures Sorted(Insert(x, s)) && multiset(Insert(x, s)) == multiset(s) + multiset{x}
  {
    if s != [] {
      assert s == [s[0]] + s[1..];
      if AtMost(x, s[0]) {
        forall q | 0 <= q < |s| ensures AtMost(x, s[q]) {
          if q > 0 {
            AtMostTransitive(x, s[0], s[q]);
          }
        }
        ConsSorted(x, s);
      } else {
        LessAsymmetric(s[0], x);
        InsertSorts(x, s[1..]);
        var t := Insert(x, s[1..]);
        forall q | 0 <= q < |t| ensures AtMost(s[0], t[q]) {
          assert t[q] in multiset(t);
          if t[q] != x {
            assert t[q] in s[1..];
          }
        }
        ConsSorted(s[0], t);
      }
    }
  }

  lemma {:induction false} SortSorts(s: seq<string>)
    ensures Sorted(Sort(s)) && multiset(Sort(s)) == multiset(s)
  {
    if s != [] {
      SortSorts(s[1..]);
      InsertSorts(s[0], Sort(s[1..]));
      assert s == [s[0]] + s[1..];
    }
  }

  /** A sorted permutation is unique. */
  lemma {:induction false} SortedUnique(a: seq<string>, b: seq<string>)
    requires Sorted(a) && Sorted(b) && multiset(a) == multiset(b)
    ensures a == b
    decreases |a|
  {
    assert |a| == |multiset(a)| == |multiset(b)| == |b|;
    if a != [] {
      FirstAtMost(a, b);
      FirstAtMost(b, a);
      AtMostAntisymmetric(a[0], b[0]);
      assert a == [a[0]] + a[1..] && b == [b[0]] + b[1..];
      assert multiset(a[1..]) == multiset(a) - multiset{a[0]};
      assert multiset(b[1..]) == multiset(b) - multiset{b[0]};
      SortedUnique(a[1..], b[1..]);
    }
  }

  lemma FirstAtMost(a: seq<string>, b: seq<string>)
    requires a != [] && b != [] && Sorted(a) && multiset(a) == multiset(b)
    ensures AtMost(a[0], b[0])
  {
    assert b[0] in multiset(a);
    var k :| 0 <= k < |a| && a[k] == b[0];
    if k == 0 {
      SelfAtMost(a[0]);
    }
  }

  lemma {:induction false} SelfAtMost(a: string)
    ensures AtMost(a, a)
  {
    if a != "" {
      SelfAtMost(a[1..]);
    }
  }

  // ---------- the key ----------

  function Terminated(s: seq<string>): string {
    if s == [] then "" else s[0] + "," + Terminated(s[1..])
  }

  function Key(domains: seq<string>): string {
    Terminated(Sort(domains))
  }

  lemma {:induction false} TerminatedSnoc(s: seq<string>, d: string)
    ensures Terminated(s + [d]) == Terminated(s) + d + ","
  {
    if s == [] {
      assert [d][1..] == [];
      assert s + [d] == [d];
    } else {
      TerminatedSnoc(s[1..], d);
      assert (s + [d])[1..] == s[1..] + [d];
    }
  }

  /** The first i + 1 elements are in order, except that element j may be too small for its place. */
  predicate SortedExcept(s: seq<string>, i: nat, j: nat) {
    i < |s| && forall p, q :: 0 <= p < q <= i && q != j ==> AtMost(s[p], s[q])
  }

  lemma SwapDown(s: seq<string>, t: seq<string>, i: nat, j: nat)
    requires SortedExcept(s, i, j) && 0 < j <= i && Less(s[j], s[j - 1])
    requires t == s[j - 1 := s[j]][j := s[j - 1]]
    ensures SortedExcept(t, i, j - 1) && multiset(t) == multiset(s)
  {
    LessAsymmetric(s[j], s[j - 1]);
    forall p, q | 0 <= p < q <= i && q != j - 1 ensures AtMost(t[p], t[q]) {
      assert q != j ==> AtMost(s[p], s[q]);
      assert p < j - 1 ==> AtMost(s[p], s[j - 1]);
      assert q > j ==> AtMost(s[j], s[q]) && AtMost(s[j - 1], s[q]);
    }
  }

  lemma PlaceFound(s: seq<string>, i: nat, j: nat)
    requires SortedExcept(s, i, j) && j <= i && (j > 0 ==> AtMost(s[j - 1], s[j]))
    ensures Sorted(s[..i + 1])
  {
    forall p | 0 <= p < j ensures AtMost(s[p], s[j]) {
      if p < j - 1 {
        AtMostTransitive(s[p], s[j - 1], s[j]);
      }
    }
  }

  /** One swap-down pass of the insertion sort: element i sinks into the sorted prefix before it. */
  method SinkInto(sorted: array<string>, i: nat)
    requires 0 < i < sorted.Length && Sorted(sorted[..i])
    modifies sorted
    ensures Sorted(sorted[..i + 1])
    ensures multiset(sorted[..]) == multiset(old(sorted[..]))
  {
    var j := i;
    forall p, q | 0 <= p < q < i ensures AtMost(sorted[..][p], sorted[..][q]) {
      assert AtMost(sorted[..i][p], sorted[..i][q]);
    }
    while j > 0 && Less(sorted[j], sorted[j - 1])
      invariant 0 <= j <= i
      invariant multiset(sorted[..]) == multiset(old(sorted[..]))
      invariant SortedExcept(sorted[..], i, j)
    {
      ghost var before := sorted[..];
      sorted[j - 1], sorted[j] := sorted[j], sorted[j - 1];
      SwapDown(before, sorted[..], i, j);
      j := j - 1;
    }
    PlaceFound(sorted[..], i, j);
    assert sorted[..][..i + 1] == sorted[..i + 1];
  }

  /** The insertion sort, in place. */
  method SortInPlace(sorted: array<string>)
    modifies sorted
    ensures sorted[..] == Sort(old(sorted[..]))
  {
    var i := 1;
    while i < sorted.Length
      invariant 1 <= i && (i <= sorted.Length || sorted.Length == 0)
      invariant sorted.Length > 0 ==> Sorted(sorted[..i])
      invariant multiset(sorted[..]) == multiset(old(sorted[..]))
    {
      SinkInto(sorted, i);
      i := i + 1;
    }
    assert sorted[..sorted.Length] == sorted[..];
    SortSorts(old(sorted[..]));
    SortedUnique(sorted[..], Sort(old(sorted[..])));
  }

  /** The key of a caller's list, which the sorting must leave as it is: only the copy is sorted. */
  method SeedKey(domains: array<string>) returns (key: string)
    ensures key == Key(domains[..])
  {
    var sorted := new string[domains.Length](k requires 0 <= k < domains.Length reads domains => domains[k]);
    assert sorted[..] == domains[..];
    SortInPlace(sorted);
    key := "";
    for n := 0 to sorted.Length
      invariant sorted[..] == Sort(domains[..])
      invariant key == Terminated(sorted[..n])
    {
      assert sorted[..n + 1] == sorted[..n] + [sorted[n]];
      TerminatedSnoc(sorted[..n], sorted[n]);
      key := key + sorted[n] + ",";
    }
    assert sorted[..sorted.Length] == sorted[..];
  }

  // ---------- what the key identifies ----------

  /** Lists with the same domains, in whatever order, have the same key. */
  lemma PermutationsShareKey(a: seq<string>, b: seq<string>)
    requires multiset(a) == multiset(b)
    ensures Key(a) == Key(b)
  {
    SortSorts(a);
    SortSorts(b);
    SortedUnique(Sort(a), Sort(b));
  }

  /** All the comma-separated parts of all the domains. */
  function Parts(s: seq<string>): seq<string> {
    if s == [] then [] else Fields(s[0]) + Parts(s[1..])
  }

  /** Fields, with one more character in front. */
  function Prepend(c: char, f: seq<string>): seq<string>
    requires f != []
  {
    if c == ',' then [""] + f else [[c] + f[0]] + f[1..]
  }

  lemma PrependToFirst(c: char, f: seq<string>, g: seq<string>)
    requires f != []
    ensures Prepend(c, f + g) == Prepend(c, f) + g
  {
    assert (f + g)[1..] == f[1..] + g;
  }

  lemma {:induction false} FieldsAfterComma(d: string, rest: string)
    ensures Fields(d + "," + rest) == Fields(d) + Fields(rest)
  {
    if d == "" {
      assert d + "," + rest == "," + rest;
    } else {
      FieldsAfterComma(d[1..], rest);
      assert (d + "," + rest)[1..] == d[1..] + "," + rest;
      PrependToFirst(d[0], Fields(d[1..]), Fields(rest));
    }
  }

  lemma {:induction false} FieldsOfTerminated(s: seq<string>)
    ensures Fields(Terminated(s)) == Parts(s) + [""]
  {
    if s != [] {
      FieldsOfTerminated(s[1..]);
      FieldsAfterComma(s[0], Terminated(s[1..]));
    }
  }

  /** The exact meaning of equal keys: the sorted lists agree once split at their commas. */
  lemma EqualKeysExactly(a: seq<string>, b: seq<string>)
    ensures Key(a) == Key(b) <==> Parts(Sort(a)) == Parts(Sort(b))
  {
    FieldsOfTerminated(Sort(a));
    FieldsOfTerminated(Sort(b));
    var p, q := Parts(Sort(a)), Parts(Sort(b));
    if Key(a) == Key(b) {
      assert p == (p + [""])[..|p|] && q == (q + [""])[..|q|];
      assert |p + [""]| == |q + [""]|;
    }
    JoinFields(Key(a));
    JoinFields(Key(b));
  }

  predicate CommaFreeList(s: seq<string>) {
    forall i :: 0 <= i < |s| ==> CommaFree(s[i])
  }

  lemma {:induction false} PartsOfCommaFree(s: seq<string>)
    requires CommaFreeList(s)
    ensures Parts(s) == s
  {
    if s != [] {
      FieldsOfOne(s[0]);
      PartsOfCommaFree(s[1..]);
      assert s == [s[0]] + s[1..];
    }
  }

  /** For comma-free domains the key is exact: equal keys if and only if the same domains, counted. */
  lemma KeyIdentifiesSet(a: seq<string>, b: seq<string>)
    requires CommaFreeList(a) && CommaFreeList(b)
    ensures Key(a) == Key(b) <==> multiset(a) == multiset(b)
  {
    SortSorts(a);
    SortSorts(b);
    SortKeepsCommaFree(a);
    SortKeepsCommaFree(b);
    PartsOfCommaFree(Sort(a));
    PartsOfCommaFree(Sort(b));
    EqualKeysExactly(a, b);
    if multiset(a) == multiset(b) {
      PermutationsShareKey(a, b);
    }
  }

  lemma SortKeepsCommaFree(s: seq<string>)
    requires CommaFreeList(s)
    ensures CommaFreeList(Sort(s))
  {
    SortSorts(s);
    forall i | 0 <= i < |Sort(s)| ensures CommaFree(Sort(s)[i]) {
      assert Sort(s)[i] in multiset(Sort(s));
      assert Sort(s)[i] in s;
    }
  }

  /** A domain that contains a comma can share its key with another set. */
  lemma CommaCollision()
    ensures Key(["a,b"]) == Key(["a", "b"]) && multiset(["a,b"]) != multiset(["a", "b"])
  {
    assert Sort(["a,b"]) == ["a,b"];
    assert ["a", "b"][1..] == ["b"] && ["b"][1..] == [];
    assert Sort(["b"]) == ["b"];
    assert AtMost("a", "b");
    assert Sort(["a", "b"]) == ["a", "b"];
    assert ["a,b"][1..] == [];
    assert "a,b" in multiset(["a,b"]) && "a,b" !in multiset(["a", "b"]);
  }
}
