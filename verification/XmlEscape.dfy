/** The xmlEsc closure of convertReportContent in internal/modules/dispatcher.go. */
module XmlEscape {
  import opened Text

  /** Four passes over the whole string; the ampersand pass comes first. */
  function XmlEsc(s: string): string {
    var s1 := ReplaceChar(s, '&', "&amp;");
    var s2 := ReplaceChar(s1, '<', "&lt;");
    var s3 := ReplaceChar(s2, '>', "&gt;");
    ReplaceChar(s3, '"', "&quot;")
  }

  function EscapeChar(c: char): string {
    match c
    case '&' => "&amp;"
    case '<' => "&lt;"
    case '>' => "&gt;"
    case '"' => "&quot;"
    case _ => [c]
  }

  /** One pass, one character at a time. */
  function EscapeEach(s: string): string {
    if s == "" then "" else EscapeChar(s[0]) + EscapeEach(s[1..])
  }

  lemma ReplaceSingle(c: char, d: char, sub: string)
    ensures ReplaceChar([c], d, sub) == if c == d then sub else [c]
  {
    assert [c][1..] == "";
  }

  lemma {:induction false} ReplaceAbsent(s: string, c: char, sub: string)
    requires c !in s
    ensures ReplaceChar(s, c, sub) == s
  {
    if s != "" {
      ReplaceAbsent(s[1..], c, sub);
    }
  }

  lemma XmlEscAppend(s: string, t: string)
    ensures XmlEsc(s + t) == XmlEsc(s) + XmlEsc(t)
  {
    ReplaceCharAppend(s, t, '&', "&amp;");
    var s1, t1 := ReplaceChar(s, '&', "&amp;"), ReplaceChar(t, '&', "&amp;");
    ReplaceCharAppend(s1, t1, '<', "&lt;");
    var s2, t2 := ReplaceChar(s1, '<', "&lt;"), ReplaceChar(t1, '<', "&lt;");
    ReplaceCharAppend(s2, t2, '>', "&gt;");
    ReplaceCharAppend(ReplaceChar(s2, '>', "&gt;"), ReplaceChar(t2, '>', "&gt;"), '"', "&quot;");
  }

  /** A later pass leaves what an earlier one produced alone. */
  lemma PassOverEntity(entity: string, d: char, sub: string)
    requires entity in ["&amp;", "&lt;", "&gt;"] && d in ['<', '>', '"']
    ensures ReplaceChar(entity, d, sub) == entity
  {
    ReplaceAbsent(entity, d, sub);
  }

  lemma EscapeAmpersand()
    ensures XmlEsc("&") == "&amp;"
  {
    ReplaceSingle('&', '&', "&amp;");
    PassOverEntity("&amp;", '<', "&lt;");
    PassOverEntity("&amp;", '>', "&gt;");
    PassOverEntity("&amp;", '"', "&quot;");
  }

  lemma EscapeLess()
    ensures XmlEsc("<") == "&lt;"
  {
    ReplaceSingle('<', '&', "&amp;");
    ReplaceSingle('<', '<', "&lt;");
    PassOverEntity("&lt;", '>', "&gt;");
    PassOverEntity("&lt;", '"', "&quot;");
  }

  lemma EscapeGreater()
    ensures XmlEsc(">") == "&gt;"
  {
    ReplaceSingle('>', '&', "&amp;");
    ReplaceSingle('>', '<', "&lt;");
    ReplaceSingle('>', '>', "&gt;");
    PassOverEntity("&gt;", '"', "&quot;");
  }

  lemma EscapeOther(c: char)
    requires c !in ['&', '<', '>']
    ensures XmlEsc([c]) == EscapeChar(c)
  {
    ReplaceSingle(c, '&', "&amp;");
    ReplaceSingle(c, '<', "&lt;");
    ReplaceSingle(c, '>', "&gt;");
    ReplaceSingle(c, '"', "&quot;");
  }

  lemma XmlEscSingle(c: char)
    ensures XmlEsc([c]) == EscapeChar(c)
  {
    match c {
      case '&' => EscapeAmpersand();
      case '<' => EscapeLess();
      case '>' => EscapeGreater();
      case _ => EscapeOther(c);
    }
  }

  /** No pass touches what an earlier pass produced: the four passes equal the single one. */
  lemma {:induction false} PassesEqualSinglePass(s: string)
    ensures XmlEsc(s) == EscapeEach(s)
  {
    if s != "" {
      assert s == [s[0]] + s[1..];
      XmlEscAppend([s[0]], s[1..]);
      XmlEscSingle(s[0]);
      PassesEqualSinglePass(s[1..]);
    }
  }

  predicate StartsEntity(s: string) {
    "&amp;" <= s || "&lt;" <= s || "&gt;" <= s || "&quot;" <= s
  }

  /** Section 2.4 of XML 1.0: no markup character is left, and an ampersand only starts an entity. */
  predicate WellEscaped(s: string) {
    && '<' !in s && '>' !in s && '"' !in s
    && forall i :: 0 <= i < |s| && s[i] == '&' ==> StartsEntity(s[i..])
  }

  lemma WellEscapedCons(c: char, tail: string)
    requires WellEscaped(tail)
    ensures WellEscaped(EscapeChar(c) + tail)
  {
    var head := EscapeChar(c);
    var s := head + tail;
    forall i | 0 <= i < |s| && s[i] == '&'
      ensures StartsEntity(s[i..])
    {
      if i < |head| {
        assert i == 0;
        assert head <= s && s[0..] == s;
      } else {
        assert s[i..] == tail[i - |head|..];
      }
    }
  }

  lemma {:induction false} EscapedIsWellEscaped(s: string)
    ensures WellEscaped(XmlEsc(s))
  {
    PassesEqualSinglePass(s);
    if s != "" {
      EscapedIsWellEscaped(s[1..]);
      PassesEqualSinglePass(s[1..]);
      WellEscapedCons(s[0], EscapeEach(s[1..]));
    }
  }

  /** Entity decoding from left to right. */
  function Decode(s: string): string {
    if s == "" then ""
    else if "&amp;" <= s then "&" + Decode(s[5..])
    else if "&lt;" <= s then "<" + Decode(s[4..])
    else if "&gt;" <= s then ">" + Decode(s[4..])
    else if "&quot;" <= s then "\"" + Decode(s[6..])
    else [s[0]] + Decode(s[1..])
  }

  lemma DecodeEscapedChar(c: char, rest: string)
    ensures Decode(EscapeChar(c) + rest) == [c] + Decode(rest)
  {
    var s := EscapeChar(c) + rest;
    assert s[|EscapeChar(c)|..] == rest;
    assert EscapeChar(c) <= s;
    match c {
      case '&' =>
      case '<' => assert s[1] == 'l';
      case '>' => assert s[1] == 'g';
      case '"' => assert s[1] == 'q';
      case _ => assert s[0] == c;
    }
  }

  /** Decoding gives the original text back. */
  lemma {:induction false} DecodeUndoesEscape(s: string)
    ensures Decode(XmlEsc(s)) == s
  {
    PassesEqualSinglePass(s);
    if s != "" {
      DecodeUndoesEscape(s[1..]);
      PassesEqualSinglePass(s[1..]);
      DecodeEscapedChar(s[0], EscapeEach(s[1..]));
    }
  }

  lemma EscapeInjective(s: string, t: string)
    requires XmlEsc(s) == XmlEsc(t)
    ensures s == t
  {
    DecodeUndoesEscape(s);
    DecodeUndoesEscape(t);
  }

  /** The other direction: every well-escaped string is the escape of what it decodes to. */
  lemma {:induction false} EscapeUndoesDecode(s: string)
    requires WellEscaped(s)
    ensures XmlEsc(Decode(s)) == s
    decreases |s|
  {
    PassesEqualSinglePass(Decode(s));
    if s != "" {
      var n := if "&amp;" <= s then 5 else if "&lt;" <= s || "&gt;" <= s then 4 else if "&quot;" <= s then 6 else 1;
      assert s[0] == '&' ==> StartsEntity(s[0..]);
      assert s[0..] == s;
      forall i | 0 <= i < |s[n..]| && s[n..][i] == '&' ensures StartsEntity(s[n..][i..]) {
        assert s[n..][i..] == s[n + i..];
      }
      EscapeUndoesDecode(s[n..]);
      PassesEqualSinglePass(Decode(s[n..]));
      assert s == s[..n] + s[n..];
      assert Decode(s)[1..] == Decode(s[n..]);
      assert EscapeChar(Decode(s)[0]) == s[..n];
    }
  }
}
