/** String operations shared by the other modules. A string is a sequence of Unicode code points. */
module Text {

  /** strings.ReplaceAll for a one-character pattern. */
  function ReplaceChar(s: string, c: char, sub: string): string {
    if s == "" then "" else (if s[0] == c then sub else [s[0]]) + ReplaceChar(s[1..], c, sub)
  }

  lemma ReplaceCharCons(x: char, s: string, c: char, sub: string)
    ensures ReplaceChar([x] + s, c, sub) == (if x == c then sub else [x]) + ReplaceChar(s, c, sub)
  {
    assert ([x] + s)[1..] == s;
  }

  lemma Associate(a: string, b: string, c: string)
    ensures a + (b + c) == a + b + c
  {
  }

  lemma {:induction false} ReplaceCharAppend(s: string, t: string, c: char, sub: string)
    ensures ReplaceChar(s + t, c, sub) == ReplaceChar(s, c, sub) + ReplaceChar(t, c, sub)
  {
    if s == "" {
      assert s + t == t;
    } else {
      var x, rest := s[0], s[1..];
      ReplaceCharAppend(rest, t, c, sub);
      Associate([x], rest, t);
      assert s == [x] + rest;
      ReplaceCharCons(x, rest, c, sub);
      ReplaceCharCons(x, rest + t, c, sub);
      Associate(if x == c then sub else [x], ReplaceChar(rest, c, sub), ReplaceChar(t, c, sub));
    }
  }

  /** strings.Join with a comma. */
  function JoinCommas(parts: seq<string>): string {
    if parts == [] then ""
    else if |parts| == 1 then parts[0]
    else parts[0] + "," + JoinCommas(parts[1..])
  }

  predicate CommaFree(s: string) {
    ',' !in s
  }

  /** The fields between the commas; a string with n commas has n + 1 of them. */
  function Fields(s: string): (fields: seq<string>)
    ensures fields != []
  {
    if s == "" then [""]
    else if s[0] == ',' then [""] + Fields(s[1..])
    else var rest := Fields(s[1..]); [[s[0]] + rest[0]] + rest[1..]
  }

  /** Fields is the inverse of the comma join: joining the fields gives the string back. */
  lemma {:induction false} JoinFields(s: string)
    ensures JoinCommas(Fields(s)) == s
    ensures forall i :: 0 <= i < |Fields(s)| ==> CommaFree(Fields(s)[i])
  {
    if s != "" {
      JoinFields(s[1..]);
      var rest := Fields(s[1..]);
      if s[0] == ',' {
        assert Fields(s) == [""] + rest;
        assert ([""] + rest)[1..] == rest;
      } else {
        assert CommaFree(rest[0]);
        assert Fields(s) == [[s[0]] + rest[0]] + rest[1..];
        assert Fields(s)[1..] == rest[1..];
        assert s == [s[0]] + s[1..];
      }
    }
  }

  /** A comma-free string followed by a comma is the first field. */
  lemma {:induction false} FieldsOfFirst(f: string, s: string)
    requires CommaFree(f)
    ensures Fields(f + "," + s) == [f] + Fields(s)
  {
    if f == "" {
      assert f + "," + s == "," + s;
    } else {
      FieldsOfFirst(f[1..], s);
      assert (f + "," + s)[1..] == f[1..] + "," + s;
      assert f == [f[0]] + f[1..];
      assert ([f[1..]] + Fields(s))[1..] == Fields(s);
    }
  }

  lemma {:induction false} FieldsOfOne(f: string)
    requires CommaFree(f)
    ensures Fields(f) == [f]
  {
    if f != "" {
      FieldsOfOne(f[1..]);
      assert f == [f[0]] + f[1..];
    }
  }

  /** The other direction: comma-free parts are the fields of their join. */
  lemma {:induction false} FieldsJoin(parts: seq<string>)
    requires parts != [] && forall p :: p in parts ==> CommaFree(p)
    ensures Fields(JoinCommas(parts)) == parts
  {
    if |parts| == 1 {
      FieldsOfOne(parts[0]);
    } else {
      FieldsJoin(parts[1..]);
      FieldsOfFirst(parts[0], JoinCommas(parts[1..]));
    }
  }

  function TrimPrefix(s: string, prefix: string): string {
    if prefix <= s then s[|prefix|..] else s
  }

  function TrimSuffix(s: string, suffix: string): string {
    if |suffix| <= |s| && s[|s| - |suffix|..] == suffix then s[..|s| - |suffix|] else s
  }

  function TrimLeft(s: string, space: char -> bool): string {
    if s != "" && space(s[0]) then TrimLeft(s[1..], space) else s
  }

  function TrimRight(s: string, space: char -> bool): string {
    if s != "" && space(s[|s| - 1]) then TrimRight(s[..|s| - 1], space) else s
  }

  function Trim(s: string, space: char -> bool): string {
    TrimRight(TrimLeft(s, space), space)
  }

  predicate AllIn(s: string, space: char -> bool) {
    forall i :: 0 <= i < |s| ==> space(s[i])
  }

  /** A string that trimming leaves alone. */
  predicate Tight(s: string, space: char -> bool) {
    s != "" && !space(s[0]) && !space(s[|s| - 1])
  }

  /** Trimming removes the space around a tight string, all of it, and nothing else. */
  lemma {:induction false} TrimPadded(before: string, s: string, after: string, space: char -> bool)
    requires AllIn(before, space) && Tight(s, space) && AllIn(after, space)
    ensures Trim(before + s + after, space) == s
  {
    TrimLeftPadded(before, s + after, space);
    TrimRightPadded(s, after, space);
    assert before + s + after == before + (s + after);
  }

  lemma {:induction false} TrimLeftPadded(before: string, s: string, space: char -> bool)
    requires AllIn(before, space) && s != "" && !space(s[0])
    ensures TrimLeft(before + s, space) == s
  {
    if before == "" {
      assert before + s == s;
    } else {
      TrimLeftPadded(before[1..], s, space);
      assert (before + s)[1..] == before[1..] + s;
    }
  }

  lemma {:induction false} TrimRightPadded(s: string, after: string, space: char -> bool)
    requires AllIn(after, space) && s != "" && !space(s[|s| - 1])
    ensures TrimRight(s + after, space) == s
  {
    if after == "" {
      assert s + after == s;
    } else {
      var t := s + after;
      TrimRightPadded(s, after[..|after| - 1], space);
      assert t[..|t| - 1] == s + after[..|after| - 1];
    }
  }

  /** Every string is its trimmed form between two paddings, and the trimmed form is empty or tight. */
  lemma TrimSplit(s: string, space: char -> bool) returns (before: string, after: string)
    ensures AllIn(before, space) && AllIn(after, space) && s == before + Trim(s, space) + after
    ensures Trim(s, space) == "" || Tight(Trim(s, space), space)
  {
    before := TrimLeftSplit(s, space);
    after := TrimRightSplit(TrimLeft(s, space), space);
    var t := TrimLeft(s, space);
    assert before + t == before + Trim(s, space) + after;
    assert Trim(s, space) != "" ==> Trim(s, space)[0] == t[0];
  }

  lemma {:induction false} TrimLeftSplit(s: string, space: char -> bool) returns (before: string)
    ensures AllIn(before, space) && s == before + TrimLeft(s, space)
    ensures TrimLeft(s, space) == "" || !space(TrimLeft(s, space)[0])
  {
    if s != "" && space(s[0]) {
      before := TrimLeftSplit(s[1..], space);
      before := [s[0]] + before;
      assert s == [s[0]] + s[1..];
    } else {
      before := "";
    }
  }

  lemma {:induction false} TrimRightSplit(s: string, space: char -> bool) returns (after: string)
    ensures AllIn(after, space) && s == TrimRight(s, space) + after
    ensures TrimRight(s, space) == "" || !space(TrimRight(s, space)[|TrimRight(s, space)| - 1])
  {
    if s != "" && space(s[|s| - 1]) {
      after := TrimRightSplit(s[..|s| - 1], space);
      after := after + [s[|s| - 1]];
    } else {
      after := "";
    }
  }

  lemma TrimBlank(s: string, space: char -> bool)
    requires AllIn(s, space)
    ensures Trim(s, space) == ""
  {
    var before, after := TrimSplit(s, space);
    assert forall i :: 0 <= i < |Trim(s, space)| ==> Trim(s, space)[i] == s[|before| + i];
  }

  lemma TrimTight(s: string, space: char -> bool)
    requires Tight(s, space)
    ensures Trim(s, space) == s
  {
    TrimPadded("", s, "", space);
    assert "" + s + "" == s;
  }
}
