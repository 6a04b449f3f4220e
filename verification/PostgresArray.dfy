/**
 The text[] column type of internal/models/types.go: the printer Value, the reader Scan and its parser.
 */
module PostgresArray {
  import opened Wrappers
  import opened Text

  // ---------- printing ----------

  /** Backslashes first, then quotes, in two passes as Value does. */
  function Escape(s: string): string {
    ReplaceChar(ReplaceChar(s, '\\', "\\\\"), '"', "\\\"")
  }

  function Quote(s: string): string {
    "\"" + Escape(s) + "\""
  }

  function Print(a: seq<string>): string {
    Render(a, seq(|a|, _ => true))
  }

  /** An element that PostgreSQL may print without quotes. */
  predicate Plain(s: string) {
    '\\' !in s && '"' !in s && ',' !in s
  }

  predicate Renderable(a: seq<string>, quoted: seq<bool>) {
    |quoted| == |a| && forall i :: 0 <= i < |a| && !quoted[i] ==> Plain(a[i])
  }

  function Pieces(a: seq<string>, quoted: seq<bool>): seq<string>
    requires |quoted| == |a|
  {
    seq(|a|, i requires 0 <= i < |a| => if quoted[i] then Quote(a[i]) else a[i])
  }

  /** An array literal in which each element is quoted or not. Value quotes all of them. */
  function Render(a: seq<string>, quoted: seq<bool>): string
    requires |quoted| == |a|
  {
    "{" + JoinCommas(Pieces(a, quoted)) + "}"
  }

  method Value(a: seq<string>) returns (r: string)
    ensures r == Print(a)
  {
    if |a| == 0 {
      return "{}";
    }
    var quoted := new string[|a|];
    for i := 0 to |a|
      invariant forall k :: 0 <= k < i ==> quoted[k] == Quote(a[k])
    {
      var s := a[i];
      s := ReplaceChar(s, '\\', "\\\\");
      s := ReplaceChar(s, '"', "\\\"");
      quoted[i] := "\"" + s + "\"";
    }
    assert quoted[..] == Pieces(a, seq(|a|, _ => true));
    r := "{" + JoinCommas(quoted[..]) + "}";
  }

  // ---------- parsing ----------

  /** The variables of the parser's loop. */
  datatype Parser = Parser(result: seq<string>, cur: string, inQuote: bool, escape: bool)

  const START := Parser([], "", false, false)

  function Step(p: Parser, r: char): Parser {
    if p.escape then p.(cur := p.cur + [r], escape := false)
    else if r == '\\' then p.(escape := true)
    else if r == '"' then p.(inQuote := !p.inQuote)
    else if r == ',' && !p.inQuote then p.(result := p.result + [p.cur], cur := "")
    else p.(cur := p.cur + [r])
  }

  function Feed(p: Parser, s: string): Parser
    decreases |s|
  {
    if s == "" then p else Feed(Step(p, s[0]), s[1..])
  }

  /** A last element is kept only when it is not empty. */
  function Finish(p: Parser): seq<string> {
    if |p.cur| > 0 then p.result + [p.cur] else p.result
  }

  lemma {:induction false} FeedAppend(p: Parser, s: string, t: string)
    ensures Feed(p, s + t) == Feed(Feed(p, s), t)
    decreases |s|
  {
    if s == "" {
      assert s + t == t;
    } else {
      FeedAppend(Step(p, s[0]), s[1..], t);
      assert (s + t)[1..] == s[1..] + t;
    }
  }

  lemma FeedThen(p: Parser, s: string, x: string, y: string, mid: Parser)
    requires s == x + y && Feed(p, x) == mid
    ensures Feed(p, s) == Feed(mid, y)
  {
    FeedAppend(p, x, y);
  }

  method ParsePostgresArray(s: string) returns (parsed: seq<string>)
    ensures parsed == Finish(Feed(START, s))
  {
    parsed := [];
    var cur, inQuote, escape := "", false, false;
    for i := 0 to |s|
      invariant Parser(parsed, cur, inQuote, escape) == Feed(START, s[..i])
    {
      var r := s[i];
      FeedAppend(START, s[..i], [r]);
      assert s[..i + 1] == s[..i] + [r];
      assert [r][1..] == "";
      if escape {
        cur := cur + [r];
        escape := false;
      } else if r == '\\' {
        escape := true;
      } else if r == '"' {
        inQuote := !inQuote;
      } else if r == ',' && !inQuote {
        parsed := parsed + [cur];
        cur := "";
      } else {
        cur := cur + [r];
      }
    }
    assert s[..|s|] == s;
    if |cur| > 0 {
      parsed := parsed + [cur];
    }
  }

  /** What the database driver hands to Scan. */
  datatype Source = Null | Str(s: string) | Bytes(s: string) | Other(typeName: string)

  function Scanned(src: Source): Result<seq<string>, string> {
    match src
    case Null => Success([])
    case Other(name) => Failure("StringArray.Scan: unsupported type " + name)
    case _ =>
      var s := TrimSuffix(TrimPrefix(src.s, "{"), "}");
      Success(if s == "" then [] else Finish(Feed(START, s)))
  }

  method Scan(src: Source) returns (r: Result<seq<string>, string>)
    ensures r == Scanned(src)
    ensures src.Null? ==> r == Success([])
    ensures src.Other? ==> r == Failure("StringArray.Scan: unsupported type " + src.typeName)
  {
    if src.Null? {
      return Success([]);
    }
    if src.Other? {
      return Failure("StringArray.Scan: unsupported type " + src.typeName);
    }
    var s := TrimSuffix(TrimPrefix(src.s, "{"), "}");
    if s == "" {
      return Success([]);
    }
    var parsed := ParsePostgresArray(s);
    return Success(parsed);
  }

  // ---------- the round trip ----------

  function EscapeOne(c: char): string {
    if c == '\\' then "\\\\" else if c == '"' then "\\\"" else [c]
  }

  /** The two passes of the printer escape character by character. */
  lemma EscapeFirst(s: string)
    requires s != ""
    ensures Escape(s) == EscapeOne(s[0]) + Escape(s[1..])
  {
    var head := if s[0] == '\\' then "\\\\" else [s[0]];
    ReplaceCharAppend(head, ReplaceChar(s[1..], '\\', "\\\\"), '"', "\\\"");
    assert ReplaceChar(head, '"', "\\\"") == EscapeOne(s[0]) by {
      assert head[1..] == if s[0] == '\\' then "\\" else "";
    }
  }

  lemma FeedEscapedOne(p: Parser, c: char)
    requires p.inQuote && !p.escape
    ensures Feed(p, EscapeOne(c)) == p.(cur := p.cur + [c])
  {
    var x := EscapeOne(c);
    if |x| == 2 {
      assert x[1..] == [c] && [c][1..] == "";
      assert Feed(p, x) == Feed(p.(escape := true), [c]);
    } else {
      assert x[1..] == "";
    }
  }

  lemma FeedEscapedMore(p: Parser, c: char, escaped: string, plain: string)
    requires p.inQuote && !p.escape
    requires var p1 := p.(cur := p.cur + [c]); Feed(p1, escaped) == p1.(cur := p1.cur + plain)
    ensures Feed(p, EscapeOne(c) + escaped) == p.(cur := p.cur + ([c] + plain))
  {
    FeedEscapedOne(p, c);
    FeedAppend(p, EscapeOne(c), escaped);
    assert p.cur + [c] + plain == p.cur + ([c] + plain);
  }

  lemma {:induction false} FeedEscaped(p: Parser, e: string)
    requires p.inQuote && !p.escape
    ensures Feed(p, Escape(e)) == p.(cur := p.cur + e)
    decreases |e|
  {
    if e == "" {
      assert p.cur + e == p.cur;
    } else {
      EscapeFirst(e);
      FeedEscaped(p.(cur := p.cur + [e[0]]), e[1..]);
      FeedEscapedMore(p, e[0], Escape(e[1..]), e[1..]);
      assert [e[0]] + e[1..] == e;
    }
  }

  lemma {:induction false} FeedPlain(p: Parser, e: string)
    requires Plain(e) && !p.inQuote && !p.escape
    ensures Feed(p, e) == p.(cur := p.cur + e)
    decreases |e|
  {
    if e == "" {
      assert p.cur + e == p.cur;
    } else {
      FeedPlain(p.(cur := p.cur + [e[0]]), e[1..]);
      assert p.cur + [e[0]] + e[1..] == p.cur + e;
    }
  }

  lemma FeedQuoted(p: Parser, e: string)
    requires !p.inQuote && !p.escape
    ensures Feed(p, Quote(e)) == p.(cur := p.cur + e)
  {
    var q := p.(inQuote := true);
    assert Quote(e)[1..] == Escape(e) + "\"";
    FeedAppend(q, Escape(e), "\"");
    FeedEscaped(q, e);
    assert "\""[1..] == "";
  }

  lemma PiecesTail(a: seq<string>, quoted: seq<bool>)
    requires |a| > 1 && |quoted| == |a|
    ensures Pieces(a, quoted)[1..] == Pieces(a[1..], quoted[1..])
    ensures JoinCommas(Pieces(a, quoted)) == Pieces(a, quoted)[0] + "," + JoinCommas(Pieces(a[1..], quoted[1..]))
  {
    assert Pieces(a, quoted)[1..] == Pieces(a[1..], quoted[1..]);
  }

  lemma FrontTail(done: seq<string>, a: seq<string>)
    requires |a| > 1
    ensures done + [a[0]] + a[1..][..|a| - 2] == done + a[..|a| - 1] && a[1..][|a| - 2] == a[|a| - 1]
  {
  }

  /** Reading a rendered array leaves the last element in the builder and the others in the result. */
  lemma {:induction false} FeedRendered(done: seq<string>, a: seq<string>, quoted: seq<bool>)
    requires a != [] && Renderable(a, quoted)
    ensures Feed(Parser(done, "", false, false), JoinCommas(Pieces(a, quoted)))
            == Parser(done + a[..|a| - 1], a[|a| - 1], false, false)
    decreases |a|
  {
    FeedPiece(done, a[0], quoted[0]);
    if |a| == 1 {
      assert done + a[..0] == done;
    } else {
      var piece, rest := Pieces(a, quoted)[0], JoinCommas(Pieces(a[1..], quoted[1..]));
      PiecesTail(a, quoted);
      FeedAppend(Parser(done, "", false, false), piece + ",", rest);
      FeedRendered(done + [a[0]], a[1..], quoted[1..]);
      FrontTail(done, a);
    }
  }

  /** One element, and one element with the comma after it. */
  lemma FeedPiece(done: seq<string>, e: string, quote: bool)
    requires quote || Plain(e)
    ensures var p, piece := Parser(done, "", false, false), if quote then Quote(e) else e;
            && Feed(p, piece) == p.(cur := e)
            && Feed(p, piece + ",") == Parser(done + [e], "", false, false)
  {
    var p := Parser(done, "", false, false);
    if quote {
      FeedQuoted(p, e);
    } else {
      FeedPlain(p, e);
    }
    assert "" + e == e;
    FeedThen(p, (if quote then Quote(e) else e) + ",", if quote then Quote(e) else e, ",", p.(cur := e));
    assert ","[1..] == "";
  }

  /** The array without one empty last element. */
  function DropEmptyLast(a: seq<string>): seq<string> {
    if a != [] && a[|a| - 1] == "" then a[..|a| - 1] else a
  }

  lemma TrimBraces(body: string)
    ensures TrimSuffix(TrimPrefix("{" + body + "}", "{"), "}") == body
  {
    assert ("{" + body + "}")[1..] == body + "}";
    assert (body + "}")[|body|..] == "}";
  }

  /** The rendered body read from the parser's start. */
  lemma BodyFeeds(a: seq<string>, quoted: seq<bool>)
    requires a != [] && Renderable(a, quoted)
    ensures Feed(START, JoinCommas(Pieces(a, quoted))) == Parser(a[..|a| - 1], a[|a| - 1], false, false)
  {
    FeedRendered([], a, quoted);
    assert [] + a[..|a| - 1] == a[..|a| - 1];
  }

  function FromBody(body: string): seq<string> {
    if body == "" then [] else Finish(Feed(START, body))
  }

  lemma ScannedBody(body: string)
    ensures Scanned(Str("{" + body + "}")) == Success(FromBody(body))
    ensures Scanned(Bytes("{" + body + "}")) == Success(FromBody(body))
  {
    TrimBraces(body);
  }

  lemma FinishDropsEmptyLast(a: seq<string>)
    requires a != []
    ensures Finish(Parser(a[..|a| - 1], a[|a| - 1], false, false)) == DropEmptyLast(a)
  {
    assert a == a[..|a| - 1] + [a[|a| - 1]];
  }

  /** Scan reads back any rendering, quoted or not, except for one empty last element. */
  lemma ScanRendered(a: seq<string>, quoted: seq<bool>)
    requires Renderable(a, quoted)
    ensures Scanned(Str(Render(a, quoted))) == Success(DropEmptyLast(a))
    ensures Scanned(Bytes(Render(a, quoted))) == Success(DropEmptyLast(a))
  {
    var body := JoinCommas(Pieces(a, quoted));
    ScannedBody(body);
    if a != [] {
      BodyFeeds(a, quoted);
      FinishDropsEmptyLast(a);
    }
  }

  lemma ScanPrinted(a: seq<string>)
    ensures Scanned(Str(Print(a))) == Success(DropEmptyLast(a))
  {
    ScanRendered(a, seq(|a|, _ => true));
  }

  /** The round trip is exact if and only if the array is empty or its last element is not. */
  lemma RoundTripExactly(a: seq<string>)
    ensures Scanned(Str(Print(a))) == Success(a) <==> (a == [] || a[|a| - 1] != "")
  {
    ScanPrinted(a);
  }

  lemma RoundTripLosesEmptyLast()
    ensures Scanned(Str(Print(["x", ""]))) == Success(["x"])
  {
    ScanPrinted(["x", ""]);
    assert ["x", ""][..1] == ["x"];
  }

  /** Printing is injective on all arrays, including the ones the reader shortens. */
  lemma PrintInjective(a: seq<string>, b: seq<string>)
    requires Print(a) == Print(b)
    ensures a == b
  {
    Recover(a);
    Recover(b);
  }

  /** The array a literal's body came from: what the parser holds when it reaches the end. */
  function HeldIn(body: string): seq<string> {
    if body == "" then [] else var p := Feed(START, body); p.result + [p.cur]
  }

  /** The same, with the braces around the body. */
  function Held(printed: string): seq<string> {
    HeldIn(TrimSuffix(TrimPrefix(printed, "{"), "}"))
  }

  lemma Recover(a: seq<string>)
    ensures Held(Print(a)) == a
  {
    var body := JoinCommas(Pieces(a, seq(|a|, _ => true)));
    TrimBraces(body);
    RecoverBody(a);
    assert Held(Print(a)) == HeldIn(body);
  }

  lemma RecoverBody(a: seq<string>)
    ensures HeldIn(JoinCommas(Pieces(a, seq(|a|, _ => true)))) == a
  {
    var quoted := seq(|a|, _ => true);
    if a != [] {
      BodyFeeds(a, quoted);
      QuotedNotEmpty(Pieces(a, quoted), a[0]);
      assert a == a[..|a| - 1] + [a[|a| - 1]];
    }
  }

  lemma QuotedNotEmpty(pieces: seq<string>, e: string)
    requires pieces != [] && pieces[0] == Quote(e)
    ensures JoinCommas(pieces) != ""
  {
  }

  function RoundTrips(a: seq<string>, n: nat): seq<string>
    decreases n
  {
    if n == 0 then a
    else match Scanned(Str(Print(a)))
      case Success(b) => RoundTrips(b, n - 1)
      case Failure(_) => a
  }

  function TrailingEmpty(a: seq<string>): nat {
    if a != [] && a[|a| - 1] == "" then 1 + TrailingEmpty(a[..|a| - 1]) else 0
  }

  function Least(m: nat, n: nat): nat {
    if m < n then m else n
  }

  function DropEmptyLasts(a: seq<string>, n: nat): seq<string>
    decreases n
  {
    if n == 0 then a else DropEmptyLasts(DropEmptyLast(a), n - 1)
  }

  lemma {:induction false} RoundTripsDrop(a: seq<string>, n: nat)
    ensures RoundTrips(a, n) == DropEmptyLasts(a, n)
    decreases n
  {
    if n > 0 {
      ScanPrinted(a);
      RoundTripsDrop(DropEmptyLast(a), n - 1);
    }
  }

  lemma {:induction false} DropsExactly(a: seq<string>, n: nat)
    ensures TrailingEmpty(a) <= |a|
    ensures DropEmptyLasts(a, n) == a[..|a| - Least(n, TrailingEmpty(a))]
    decreases n + |a|
  {
    if a != [] && a[|a| - 1] == "" {
      var b := a[..|a| - 1];
      DropsExactly(b, if n == 0 then 0 else n - 1);
      if n > 0 {
        assert b[..|b| - Least(n - 1, TrailingEmpty(b))] == a[..|a| - Least(n, TrailingEmpty(a))];
      }
    } else if n > 0 {
      DropsExactly(a, n - 1);
    }
  }

  /** n writes and reads of a column remove exactly min(n, trailing empty strings) elements. */
  lemma RepeatedRoundTrips(a: seq<string>, n: nat)
    ensures TrailingEmpty(a) <= |a|
    ensures RoundTrips(a, n) == a[..|a| - Least(n, TrailingEmpty(a))]
  {
    RoundTripsDrop(a, n);
    DropsExactly(a, n);
  }

  // ---------- what is printed ----------

  lemma {:induction false} JoinSnoc(parts: seq<string>, p: string)
    ensures JoinCommas(parts + [p]) == if parts == [] then p else JoinCommas(parts) + "," + p
  {
    if parts == [] {
      assert parts + [p] == [p];
    } else {
      JoinSnoc(parts[1..], p);
      assert (parts + [p])[1..] == parts[1..] + [p];
    }
  }

  function AllQuoted(a: seq<string>): seq<string> {
    Pieces(a, seq(|a|, _ => true))
  }

  lemma AllQuotedSnoc(a: seq<string>, e: string)
    ensures AllQuoted(a + [e]) == AllQuoted(a) + [Quote(e)]
  {
  }

  lemma WrapMore(body: string, piece: string)
    ensures ("{" + body + "}")[..|body| + 1] + "," + piece + "}" == "{" + (body + "," + piece) + "}"
  {
  }

  /** Every element is quoted, in order, with one backslash before each of its backslashes and quotes. */
  lemma PrintedExactly(a: seq<string>, e: string)
    ensures Print([]) == "{}"
    ensures Print([e]) == "{" + ("\"" + Escape(e) + "\"") + "}"
    ensures a != [] ==> Print(a + [e]) == Print(a)[..|Print(a)| - 1] + "," + ("\"" + Escape(e) + "\"") + "}"
  {
    AllQuotedSnoc([], e);
    assert [] + [e] == [e] && AllQuoted([]) == [];
    JoinSnoc([], Quote(e));
    AllQuotedSnoc(a, e);
    JoinSnoc(AllQuoted(a), Quote(e));
    PrintMore(a, e);
  }

  lemma PrintMore(a: seq<string>, e: string)
    requires AllQuoted(a + [e]) == AllQuoted(a) + [Quote(e)]
    requires a != [] ==> JoinCommas(AllQuoted(a + [e])) == JoinCommas(AllQuoted(a)) + "," + Quote(e)
    ensures a != [] ==> Print(a + [e]) == Print(a)[..|Print(a)| - 1] + "," + Quote(e) + "}"
  {
    var body := JoinCommas(AllQuoted(a));
    assert Print(a) == "{" + body + "}" && |Print(a)| - 1 == |body| + 1;
    WrapMore(body, Quote(e));
  }

  lemma EscapedExactly(c: char, s: string)
    ensures Escape("") == ""
    ensures Escape([c] + s) == (if c == '\\' || c == '"' then ['\\', c] else [c]) + Escape(s)
  {
    EscapeFirst([c] + s);
    assert ([c] + s)[1..] == s;
  }

  // ---------- literals the printer does not produce ----------

  lemma OpenBrace(open: string, s: string)
    requires (open == "" || open == "{") && (s == "" || s[0] != '{')
    ensures TrimPrefix(open + s, "{") == s
  {
    if open == "{" {
      assert (open + s)[1..] == s;
    } else {
      assert open + s == s && "{"[0] == '{';
    }
  }

  lemma CloseBrace(s: string, close: string)
    requires (close == "" || close == "}") && (s != "" ==> s[|s| - 1] != '}')
    ensures TrimSuffix(s + close, "}") == s
  {
    if close == "}" {
      assert (s + close)[|s|..] == "}";
    } else {
      assert s + close == s;
      assert s != "" ==> s[|s| - 1..] == [s[|s| - 1]];
    }
  }

  /** Missing braces do not matter. */
  lemma BracesAreOptional(open: string, body: string, close: string)
    requires (open == "" || open == "{") && (close == "" || close == "}")
    requires body == "" || (body[0] != '{' && body[|body| - 1] != '}')
    ensures Scanned(Str(open + (body + close))) == Scanned(Str("{" + body + "}"))
  {
    ScannedBody(body);
    if body == "" {
      assert body + close == close;
    }
    OpenBrace(open, body + close);
    CloseBrace(body, close);
  }

  /** An element with a backslash before every character, without quotes. */
  function Backslashed(e: string): string {
    if e == "" then "" else ['\\', e[0]] + Backslashed(e[1..])
  }

  lemma FeedPair(p: Parser, c: char)
    requires !p.escape
    ensures Feed(p, ['\\', c]) == p.(cur := p.cur + [c])
  {
    var x, q := ['\\', c], p.(escape := true);
    assert x[1..] == [c] && [c][1..] == "";
    assert Feed(p, x) == Feed(q, [c]) == Feed(Step(q, c), "");
  }

  /** A backslash makes the next character an ordinary one, in quotes and out of them. */
  lemma {:induction false} FeedBackslashed(p: Parser, e: string)
    requires !p.escape
    ensures Feed(p, Backslashed(e)) == p.(cur := p.cur + e)
    decreases |e|
  {
    if e == "" {
      assert p.cur + e == p.cur;
    } else {
      FeedPair(p, e[0]);
      FeedAppend(p, ['\\', e[0]], Backslashed(e[1..]));
      FeedBackslashed(p.(cur := p.cur + [e[0]]), e[1..]);
      assert p.cur + [e[0]] + e[1..] == p.cur + e;
    }
  }

  /** Quoting, bare text and backslashes may be mixed within one element. */
  lemma MixedElement(bare: string, escaped: string, quoted: string)
    requires Plain(bare)
    ensures Finish(Feed(START, bare + Backslashed(escaped) + Quote(quoted)))
            == var e := bare + escaped + quoted; if e == "" then [] else [e]
  {
    var b := Backslashed(escaped);
    FeedPlain(START, bare);
    var p1 := START.(cur := bare);
    assert "" + bare == bare;
    FeedAppend(START, bare, b);
    FeedBackslashed(p1, escaped);
    var p2 := START.(cur := bare + escaped);
    FeedAppend(START, bare + b, Quote(quoted));
    FeedQuoted(p2, quoted);
  }
}
