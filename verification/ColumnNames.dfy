/** excelColumnName of internal/modules/dispatcher.go: bijective base 26. */
module ColumnNames {

  function Letter(k: nat): (c: char)
    requires k < 26
    ensures 'A' <= c <= 'Z'
  {
    ('A' as int + k) as char
  }

  /** The name of a column, most significant letter first. */
  function Name(index: nat): string {
    if index < 26 then [Letter(index)] else Name(index / 26 - 1) + [Letter(index % 26)]
  }

  /** The loop works from the last letter to the first. A negative index has no letters. */
  method ExcelColumnName(index: int) returns (col: string)
    ensures col == if index < 0 then "" else Name(index)
  {
    col := "";
    var rest := index;
    while rest >= 0
      invariant rest >= 0 ==> index >= 0 && Name(index) == Name(rest) + col
      invariant rest < 0 ==> col == if index < 0 then "" else Name(index)
      decreases rest
    {
      assert Name(rest) + col == (if rest < 26 then "" else Name(rest / 26 - 1)) + ([Letter(rest % 26)] + col);
      col := [Letter(rest % 26)] + col;
      rest := rest / 26 - 1;
    }
  }

  predicate IsName(s: string) {
    s != "" && forall i :: 0 <= i < |s| ==> 'A' <= s[i] <= 'Z'
  }

  function Digit(c: char): int {
    c as int - 'A' as int + 1
  }

  /** The number a name stands for, counted from 1. */
  function Rank(s: string): int {
    if s == "" then 0 else 26 * Rank(s[..|s| - 1]) + Digit(s[|s| - 1])
  }

  /** Names decode to the index they were made from. */
  lemma {:induction false} RankOfName(index: nat)
    ensures IsName(Name(index)) && Rank(Name(index)) == index + 1
  {
    if index >= 26 {
      RankOfName(index / 26 - 1);
      var s := Name(index);
      assert s[..|s| - 1] == Name(index / 26 - 1);
    }
  }

  lemma {:induction false} RankPositive(s: string)
    requires IsName(s)
    ensures Rank(s) >= 1
  {
    if |s| > 1 {
      RankPositive(s[..|s| - 1]);
    }
  }

  /** Every non-empty string over A-Z is the name of exactly one column. */
  lemma {:induction false} NameOfRank(s: string)
    requires IsName(s)
    ensures Rank(s) >= 1 && Name(Rank(s) - 1) == s
  {
    RankPositive(s);
    var t := s[..|s| - 1];
    assert s == t + [s[|s| - 1]];
    if t != "" {
      NameOfRank(t);
      assert (Rank(s) - 1) / 26 == Rank(t);
    } else {
      assert Rank(t) == 0;
    }
  }

  /** Shorter first, then by the first letter that differs. */
  predicate Before(u: string, v: string) {
    || |u| < |v|
    || (|u| == |v| && exists k :: 0 <= k < |u| && u[..k] == v[..k] && u[k] < v[k])
  }

  /** 26 ^ 0 + ... + 26 ^ (n - 1): the rank of the first name with n letters. */
  function Ones(n: nat): nat {
    if n == 0 then 0 else 26 * Ones(n - 1) + 1
  }

  lemma {:induction false} RankBounds(s: string)
    requires forall i :: 0 <= i < |s| ==> 'A' <= s[i] <= 'Z'
    ensures Ones(|s|) <= Rank(s) <= 26 * Ones(|s|)
  {
    if s != "" {
      RankBounds(s[..|s| - 1]);
    }
  }

  lemma {:induction false} OnesGrow(m: nat, n: nat)
    requires m <= n
    ensures Ones(m) <= Ones(n)
    decreases n
  {
    if m < n {
      OnesGrow(m, n - 1);
    }
  }

  lemma {:induction false} SameLengthRank(u: string, v: string, k: nat)
    requires |u| == |v| && k < |u| && u[..k] == v[..k] && u[k] < v[k]
    requires forall i :: 0 <= i < |u| ==> 'A' <= u[i] <= 'Z' && 'A' <= v[i] <= 'Z'
    ensures Rank(u) < Rank(v)
  {
    var u1, v1 := u[..|u| - 1], v[..|v| - 1];
    if k < |u| - 1 {
      assert u1[..k] == u[..k] && v1[..k] == v[..k];
      SameLengthRank(u1, v1, k);
    } else {
      assert u1 == u[..k] && v1 == v[..k];
    }
  }

  lemma BeforeMeansLower(u: string, v: string)
    requires IsName(u) && IsName(v) && Before(u, v)
    ensures Rank(u) < Rank(v)
  {
    if |u| < |v| {
      RankBounds(u);
      RankBounds(v);
      OnesGrow(|u| + 1, |v|);
    } else {
      var k :| 0 <= k < |u| && u[..k] == v[..k] && u[k] < v[k];
      SameLengthRank(u, v, k);
    }
  }

  lemma {:induction false} BeforeTotal(u: string, v: string)
    requires |u| == |v| && u != v
    ensures Before(u, v) || Before(v, u)
    decreases |u|
  {
    var n := |u| - 1;
    if u[..n] == v[..n] {
      assert u == u[..n] + [u[n]] && v == v[..n] + [v[n]];
    } else {
      BeforeTotal(u[..n], v[..n]);
      var k :| 0 <= k < n && u[..n][..k] == v[..n][..k] && u[..n][k] != v[..n][k];
      assert u[..k] == u[..n][..k] && v[..k] == v[..n][..k];
    }
  }

  /** Columns further right have later names, in length-then-alphabetical order, and conversely. */
  lemma OrderIsColumnOrder(i: nat, j: nat)
    ensures i < j <==> Before(Name(i), Name(j))
  {
    RankOfName(i);
    RankOfName(j);
    var u, v := Name(i), Name(j);
    if Before(u, v) {
      BeforeMeansLower(u, v);
    }
    if i < j && !Before(u, v) {
      if |u| == |v| {
        BeforeTotal(u, v);
      }
      BeforeMeansLower(v, u);
    }
  }
}
