/** The comma splitter splitHosts of pkg/httpclient/httpclient.go. */
module HostList {
  import opened Sequences
  import opened Text

  function NonEmpty(fields: seq<string>): seq<string> {
    if fields == [] then [] else (if fields[0] == "" then [] else [fields[0]]) + NonEmpty(fields[1..])
  }

  /** The hosts from position start on; nothing follows the end of the string. */
  function HostsFrom(s: string, start: nat): seq<string>
    requires start <= |s| + 1
  {
    if start == |s| + 1 then [] else NonEmpty(Fields(s[start..]))
  }

  /** The field from start to the comma, or the end, at i. */
  lemma HostsFromField(s: string, start: nat, i: nat)
    requires start <= i <= |s| && CommaFree(s[start..i]) && (i < |s| ==> s[i] == ',')
    ensures HostsFrom(s, start) == (if s[start..i] == "" then [] else [s[start..i]]) + HostsFrom(s, i + 1)
  {
    var h := s[start..i];
    if i < |s| {
      assert s[start..] == h + "," + s[i + 1..];
      FieldsOfFirst(h, s[i + 1..]);
      assert ([h] + Fields(s[i + 1..]))[1..] == Fields(s[i + 1..]);
    } else {
      assert s[start..] == h && s[start..i] == h;
      FieldsOfOne(h);
      assert [h][1..] == [];
      assert NonEmpty([h]) == if h == "" then [] else [h];
    }
  }

  lemma Regroup(out: seq<string>, h: string, rest: seq<string>)
    ensures out + ((if h == "" then [] else [h]) + rest) == (if h == "" then out else out + [h]) + rest
  {
  }

  /** The hosts are the non-empty fields of the comma split, in order. */
  method SplitHosts(s: string) returns (out: seq<string>)
    ensures out == NonEmpty(Fields(s))
  {
    ghost var all := HostsFrom(s, 0);
    assert s[0..] == s;
    out := [];
    var start := 0;
    for i := 0 to |s| + 1
      invariant start <= i && out + HostsFrom(s, start) == all
      invariant i <= |s| ==> CommaFree(s[start..i])
      invariant i == |s| + 1 ==> start == i
    {
      if i == |s| || s[i] == ',' {
        HostsFromField(s, start, i);
        var h := s[start..i];
        Regroup(out, h, HostsFrom(s, i + 1));
        if h != "" {
          out := out + [h];
        }
        start := i + 1;
      } else {
        assert s[start..i + 1] == s[start..i] + [s[i]];
      }
    }
  }

  predicate HostNames(hosts: seq<string>) {
    forall h :: h in hosts ==> h != "" && CommaFree(h)
  }

  lemma {:induction false} NonEmptyAll(hosts: seq<string>)
    requires forall i :: 0 <= i < |hosts| ==> hosts[i] != ""
    ensures NonEmpty(hosts) == hosts
  {
    if hosts != [] {
      NonEmptyAll(hosts[1..]);
      assert hosts == [hosts[0]] + hosts[1..];
    }
  }

  /** Splitting the comma join of non-empty comma-free hosts gives the hosts back. */
  lemma SplitJoin(hosts: seq<string>)
    requires HostNames(hosts)
    ensures NonEmpty(Fields(JoinCommas(hosts))) == hosts
  {
    if hosts != [] {
      FieldsJoin(hosts);
      assert forall i :: 0 <= i < |hosts| ==> hosts[i] in hosts;
      NonEmptyAll(hosts);
    }
  }

  lemma {:induction false} NonEmptyMembers(fs: seq<string>)
    ensures forall f :: f in NonEmpty(fs) <==> f in fs && f != ""
  {
    if fs != [] {
      NonEmptyMembers(fs[1..]);
    }
  }

  lemma {:induction false} NonEmptySnoc(fs: seq<string>, f: string)
    ensures NonEmpty(fs + [f]) == NonEmpty(fs) + if f == "" then [] else [f]
  {
    if fs == [] {
      assert fs + [f] == [f] && [f][1..] == [];
    } else {
      NonEmptySnoc(fs[1..], f);
      assert (fs + [f])[1..] == fs[1..] + [f];
    }
  }

  /** The non-empty fields keep their order, and none is dropped. */
  lemma {:induction false} NonEmptyExactly(fs: seq<string>, n: nat) returns (at: seq<nat>)
    requires n <= |fs|
    ensures Increasing(at, n)
    ensures |NonEmpty(fs[..n])| == |at| && forall m :: 0 <= m < |at| ==> NonEmpty(fs[..n])[m] == fs[at[m]]
    ensures forall i: nat :: i < n ==> (i in at <==> fs[i] != "")
  {
    if n == 0 {
      at := [];
    } else {
      at := NonEmptyExactly(fs, n - 1);
      IncreasingSnoc(at, n - 1);
      assert fs[..n] == fs[..n - 1] + [fs[n - 1]];
      NonEmptySnoc(fs[..n - 1], fs[n - 1]);
      if fs[n - 1] != "" {
        at := at + [n - 1];
      }
    }
  }

  /** Every list that is split out can be joined and split again without change, so no-proxy strings that
      differ only in empty fields mean the same hosts. */
  lemma SplitIsNormalForm(s: string)
    ensures var hosts := NonEmpty(Fields(s)); HostNames(hosts) && NonEmpty(Fields(JoinCommas(hosts))) == hosts
  {
    JoinFields(s);
    assert forall f :: f in Fields(s) ==> CommaFree(f);
    NonEmptyMembers(Fields(s));
    SplitJoin(NonEmpty(Fields(s)));
  }
}
