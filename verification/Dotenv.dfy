/** The dotenv parser (server/pkg/dotenv/parser.go). Each char is one code point of a valid UTF-8 text. */
module Dotenv {
  import opened Prelude

  // ---------------------------------------------------------------- what lineRE matches

  predicate IsBlank(c: char) {
    c == ' ' || c == '\t'
  }

  predicate IsKeyChar(c: char) {
    'A' <= c <= 'Z' || 'a' <= c <= 'z' || '0' <= c <= '9' || c == '_' || c == '.' || c == '-'
  }

  predicate IsBare(c: char) {
    c != '#' && c != '\r' && c != '\n'
  }

  function Not(d: char): char -> bool {
    c => c != d
  }

  predicate All(s: string, p: char -> bool) {
    forall c | c in s :: p(c)
  }

  /** A value between quotes, a bare value, or no value at all. */
  datatype Alternative = Quoted(quote: char, body: string) | Bare(body: string) | NoValue

  /** The order lineRE tries them in. */
  function Rank(a: Alternative): nat {
    match a
    case Quoted(quote, _) => if quote == '"' then 0 else 1
    case Bare(_) => 2
    case NoValue => 3
  }

  predicate AltOk(a: Alternative) {
    match a
    case Quoted(quote, body) => (quote == '"' || quote == '\'') && All(body, Not(quote))
    case Bare(body) => All(body, IsBare)
    case NoValue => true
  }

  /** The blanks and comment that end a line, and the text after it. */
  datatype End = End(trail: string, comment: string, rest: string)

  /** rest starts where $ holds. */
  predicate EndOk(e: End) {
    && All(e.trail, IsBlank)
    && (e.comment == "" || (e.comment[0] == '#' && All(e.comment, Not('\n'))))
    && (e.rest == "" || e.rest[0] == '\n')
  }

  datatype Line = Line(lead: string, key: string, beforeEq: string, afterEq: string, alt: Alternative, end: End)

  predicate LineOk(l: Line) {
    && All(l.lead, IsBlank) && l.key != "" && All(l.key, IsKeyChar) && All(l.beforeEq, IsBlank)
    && All(l.afterEq, IsBlank) && AltOk(l.alt) && EndOk(l.end)
  }

  function EndText(e: End): string {
    e.trail + (e.comment + e.rest)
  }

  function AltText(a: Alternative, after: string): string {
    match a
    case Quoted(quote, body) => [quote] + (body + ([quote] + after))
    case Bare(body) => body + after
    case NoValue => after
  }

  /** The text with this line at its front. */
  function LineText(l: Line): string {
    l.lead + (l.key + (l.beforeEq + ("=" + (l.afterEq + AltText(l.alt, EndText(l.end))))))
  }

  // ---------------------------------------------------------------- the scanner

  /** The longest prefix whose characters p holds of. */
  function Span(s: string, p: char -> bool): (r: string)
    ensures r <= s && All(r, p) && (|r| < |s| ==> !p(s[|r|]))
  {
    if s != "" && p(s[0]) then
      assert s == [s[0]] + s[1..];
      [s[0]] + Span(s[1..], p)
    else ""
  }

  /** What follows it. */
  function After(s: string, p: char -> bool): (r: string)
    ensures s == Span(s, p) + r && (r != "" ==> !p(r[0]))
  {
    s[|Span(s, p)|..]
  }

  function MatchEnd(s: string): Option<End> {
    var after := After(s, IsBlank);
    if after == "" || after[0] == '\n' then Some(End(Span(s, IsBlank), "", after))
    else if after[0] == '#' then Some(End(Span(s, IsBlank), Span(after, Not('\n')), After(after, Not('\n'))))
    else None
  }

  datatype Tail = Tail(alt: Alternative, end: End)

  function WithEnd(alt: Alternative, end: Option<End>): Option<Tail> {
    if end.Some? then Some(Tail(alt, end.value)) else None
  }

  function MatchQuoted(s: string, quote: char): Option<Tail> {
    if s == "" || s[0] != quote || After(s[1..], Not(quote)) == "" then None
    else WithEnd(Quoted(quote, Span(s[1..], Not(quote))), MatchEnd(After(s[1..], Not(quote))[1..]))
  }

  function MatchBare(s: string): Option<Tail> {
    WithEnd(Bare(Span(s, IsBare)), MatchEnd(After(s, IsBare)))
  }

  function MatchValue(s: string): Option<Tail> {
    if MatchQuoted(s, '"').Some? then MatchQuoted(s, '"')
    else if MatchQuoted(s, '\'').Some? then MatchQuoted(s, '\'')
    else MatchBare(s)
  }

  function MatchAfterKey(lead: string, key: string, s: string): Option<Line> {
    var atEq := After(s, IsBlank);
    if atEq == "" || atEq[0] != '=' then None
    else
      match MatchValue(After(atEq[1..], IsBlank))
      case None => None
      case Some(t) => Some(Line(lead, key, Span(s, IsBlank), Span(atEq[1..], IsBlank), t.alt, t.end))
  }

  /** lineRE at the start of a line. */
  function MatchLine(s: string): Option<Line> {
    var atKey := After(s, IsBlank);
    if Span(atKey, IsKeyChar) == "" then None
    else MatchAfterKey(Span(s, IsBlank), Span(atKey, IsKeyChar), After(atKey, IsKeyChar))
  }

  // ---------------------------------------------------------------- what it finds is a match

  lemma EndSound(s: string)
    ensures MatchEnd(s).Some? ==> EndOk(MatchEnd(s).value) && EndText(MatchEnd(s).value) == s
  {
    var after := After(s, IsBlank);
    assert "" + after == after;
  }

  lemma HeadTail(s: string, c: char)
    requires s != "" && s[0] == c
    ensures s == [c] + s[1..]
  {
  }

  lemma QuotedSound(s: string, quote: char)
    requires quote == '"' || quote == '\''
    ensures MatchQuoted(s, quote).Some? ==>
              var t := MatchQuoted(s, quote).value;
              && t.alt.Quoted? && t.alt.quote == quote && AltOk(t.alt)
              && EndOk(t.end) && AltText(t.alt, EndText(t.end)) == s
  {
    if MatchQuoted(s, quote).Some? {
      var after := After(s[1..], Not(quote));
      HeadTail(s, quote);
      HeadTail(after, quote);
      EndSound(after[1..]);
    }
  }

  lemma ValueSound(s: string)
    ensures MatchValue(s).Some? ==>
              var t := MatchValue(s).value;
              AltOk(t.alt) && EndOk(t.end) && AltText(t.alt, EndText(t.end)) == s
  {
    QuotedSound(s, '"');
    QuotedSound(s, '\'');
    EndSound(After(s, IsBare));
  }

  lemma AfterKeySound(lead: string, key: string, s: string)
    requires All(lead, IsBlank) && key != "" && All(key, IsKeyChar)
    ensures MatchAfterKey(lead, key, s).Some? ==>
              var l := MatchAfterKey(lead, key, s).value;
              LineOk(l) && LineText(l) == lead + (key + s)
  {
    if MatchAfterKey(lead, key, s).Some? {
      var atEq := After(s, IsBlank);
      HeadTail(atEq, '=');
      ValueSound(After(atEq[1..], IsBlank));
    }
  }

  lemma LineSound(s: string)
    ensures MatchLine(s).Some? ==> LineOk(MatchLine(s).value) && LineText(MatchLine(s).value) == s
  {
    var atKey := After(s, IsBlank);
    if Span(atKey, IsKeyChar) != "" {
      AfterKeySound(Span(s, IsBlank), Span(atKey, IsKeyChar), After(atKey, IsKeyChar));
    }
  }

  // ---------------------------------------------------------------- it finds the match lineRE prefers

  lemma {:induction false} SpanIs(a: string, b: string, p: char -> bool)
    requires All(a, p) && (b != "" ==> !p(b[0]))
    ensures Span(a + b, p) == a && After(a + b, p) == b
  {
    if a == "" {
      assert a + b == b;
    } else {
      assert (a + b)[1..] == a[1..] + b;
      SpanIs(a[1..], b, p);
      assert (a + b)[|a|..] == b;
    }
  }

  lemma EndFound(e: End)
    requires EndOk(e)
    ensures MatchEnd(EndText(e)) == Some(e)
  {
    SpanIs(e.trail, e.comment + e.rest, IsBlank);
    if e.comment == "" {
      assert e.comment + e.rest == e.rest;
    } else {
      SpanIs(e.comment, e.rest, Not('\n'));
    }
  }

  lemma QuotedFound(a: Alternative, e: End)
    requires a.Quoted? && AltOk(a) && EndOk(e)
    ensures MatchQuoted(AltText(a, EndText(e)), a.quote) == Some(Tail(a, e))
    ensures MatchValue(AltText(a, EndText(e))).Some?
    ensures var t := MatchValue(AltText(a, EndText(e))).value;
            Rank(t.alt) <= Rank(a) && (Rank(t.alt) == Rank(a) ==> t == Tail(a, e))
  {
    var s := AltText(a, EndText(e));
    assert s[1..] == a.body + ([a.quote] + EndText(e));
    SpanIs(a.body, [a.quote] + EndText(e), Not(a.quote));
    assert ([a.quote] + EndText(e))[1..] == EndText(e);
    EndFound(e);
    QuotedSound(s, '"');
  }

  lemma BareFound(text: string, e: End)
    requires All(text, IsBare) && EndOk(e) && e.trail == ""
    ensures MatchValue(text + EndText(e)).Some?
    ensures var t := MatchValue(text + EndText(e)).value;
            Rank(t.alt) <= 2 && (Rank(t.alt) == 2 ==> t == Tail(Bare(text), e))
  {
    var s := text + EndText(e);
    assert EndText(e) == e.comment + e.rest;
    SpanIs(text, EndText(e), IsBare);
    EndFound(e);
    QuotedSound(s, '"');
    QuotedSound(s, '\'');
  }

  // ---------------------------------------------------------------- the value of a line

  /** unicode.IsSpace. */
  predicate IsSpace(c: char) {
    || '\U{0009}' <= c <= '\U{000D}' || c == ' ' || c == '\U{0085}' || c == '\U{00A0}' || c == '\U{1680}'
    || '\U{2000}' <= c <= '\U{200A}' || c == '\U{2028}' || c == '\U{2029}' || c == '\U{202F}'
    || c == '\U{205F}' || c == '\U{3000}'
  }

  function TrimRight(s: string): (r: string)
    ensures r <= s && All(s[|r|..], IsSpace) && (r != "" ==> !IsSpace(r[|r| - 1]))
  {
    if s != "" && IsSpace(s[|s| - 1]) then
      assert s == s[..|s| - 1] + [s[|s| - 1]];
      TrimRight(s[..|s| - 1])
    else s
  }

  /** strings.TrimSpace. */
  function Trim(s: string): string {
    TrimRight(After(s, IsSpace))
  }

  function ValueOf(l: Line): string {
    match l.alt
    case Quoted(_, body) => body
    case Bare(body) => Trim(body)
    case NoValue => ""
  }

  lemma {:induction false} TrimRightMore(s: string, c: string)
    requires All(c, IsSpace)
    ensures TrimRight(s + c) == TrimRight(s)
  {
    if c == "" {
      assert s + c == s;
    } else {
      assert (s + c)[..|s + c| - 1] == s + c[..|c| - 1];
      TrimRightMore(s, c[..|c| - 1]);
    }
  }

  lemma AfterMore(a: string, s: string, p: char -> bool)
    requires All(a, p)
    ensures After(a + s, p) == After(s, p)
  {
    assert a + s == (a + Span(s, p)) + After(s, p);
    SpanIs(a + Span(s, p), After(s, p), p);
  }

  /** White space around a text does not change what is left of it when trimmed. */
  lemma TrimMore(a: string, s: string, c: string)
    requires All(a, IsSpace) && All(c, IsSpace)
    ensures Trim(a + (s + c)) == Trim(s)
  {
    AfterMore(a, s + c, IsSpace);
    var rest := After(s, IsSpace);
    if rest == "" {
      assert s == Span(s, IsSpace) && (s + c) + "" == s + c;
      SpanIs(s + c, "", IsSpace);
    } else {
      assert s + c == Span(s, IsSpace) + (rest + c);
      SpanIs(Span(s, IsSpace), rest + c, IsSpace);
      TrimRightMore(rest, c);
    }
  }

  lemma AllBare(a: string, body: string, c: string)
    requires All(a, IsBlank) && All(body, IsBare) && All(c, IsBlank)
    ensures All(a + (body + c), IsBare)
  {
  }

  lemma AfterThen(s: string, t: string, p: char -> bool)
    requires t != "" ==> !p(t[0])
    ensures After(s + t, p) == After(s, p) + t
  {
    assert s + t == Span(s, p) + (After(s, p) + t);
    SpanIs(Span(s, p), After(s, p) + t, p);
  }

  lemma TrimAfterBlanks(s: string)
    ensures Trim(After(s, IsBlank)) == Trim(s)
  {
    assert s == Span(s, IsBlank) + (After(s, IsBlank) + "");
    TrimMore(Span(s, IsBlank), After(s, IsBlank), "");
  }

  lemma Regroup(a: string, b: string, c: string, d: string)
    ensures a + (b + (c + d)) == (a + (b + c)) + d
  {
  }

  lemma BareAnywhere(afterEq: string, body: string, e: End)
    requires All(afterEq, IsBlank) && All(body, IsBare) && EndOk(e)
    ensures var found := MatchValue(After(afterEq + (body + EndText(e)), IsBlank));
            && found.Some? && Rank(found.value.alt) <= 2
            && (Rank(found.value.alt) == 2 ==>
                  found.value.alt.Bare? && Trim(found.value.alt.body) == Trim(body) && found.value.end.rest == e.rest)
  {
    var whole := afterEq + (body + e.trail);
    AllBare(afterEq, body, e.trail);
    TrimMore(afterEq, body, e.trail);
    TrimAfterBlanks(whole);
    Regroup(afterEq, body, e.trail, e.comment + e.rest);
    BareWhole(whole, End("", e.comment, e.rest));
  }

  lemma BareWhole(whole: string, end: End)
    requires All(whole, IsBare) && EndOk(end) && end.trail == ""
    ensures var found := MatchValue(After(whole + (end.comment + end.rest), IsBlank));
            && found.Some? && Rank(found.value.alt) <= 2
            && (Rank(found.value.alt) == 2 ==> found.value == Tail(Bare(After(whole, IsBlank)), end))
  {
    assert EndText(end) == end.comment + end.rest;
    AfterThen(whole, EndText(end), IsBlank);
    BareFound(After(whole, IsBlank), end);
  }

  lemma ValueAnywhere(afterEq: string, alt: Alternative, e: End)
    requires All(afterEq, IsBlank) && AltOk(alt) && EndOk(e)
    ensures var found := MatchValue(After(afterEq + AltText(alt, EndText(e)), IsBlank));
            && found.Some? && Rank(found.value.alt) <= Rank(alt)
            && (Rank(found.value.alt) == Rank(alt) ==>
                  && ValueOf(Line("", "", "", "", found.value.alt, e)) == ValueOf(Line("", "", "", "", alt, e))
                  && found.value.end.rest == e.rest)
  {
    match alt
    case Quoted(quote, body) =>
      SpanIs(afterEq, AltText(alt, EndText(e)), IsBlank);
      QuotedFound(alt, e);
    case Bare(body) => BareAnywhere(afterEq, body, e);
    case NoValue =>
      assert "" + EndText(e) == EndText(e);
      BareAnywhere(afterEq, "", e);
  }

  lemma AfterKeyFound(l: Line)
    requires LineOk(l)
    ensures var value := l.afterEq + AltText(l.alt, EndText(l.end));
            var found := MatchAfterKey(l.lead, l.key, l.beforeEq + ("=" + value));
            && found.Some? && found.value.key == l.key && Rank(found.value.alt) <= Rank(l.alt)
            && (Rank(found.value.alt) == Rank(l.alt) ==>
                  ValueOf(found.value) == ValueOf(l) && found.value.end.rest == l.end.rest)
  {
    var value := l.afterEq + AltText(l.alt, EndText(l.end));
    SpanIs(l.beforeEq, "=" + value, IsBlank);
    assert ("=" + value)[1..] == value;
    ValueAnywhere(l.afterEq, l.alt, l.end);
  }

  /** lineRE can match at the front of s, this way. */
  predicate CanMatch(s: string, l: Line) {
    LineOk(l) && LineText(l) == s
  }

  lemma LineFound(l: Line)
    requires LineOk(l)
    ensures var found := MatchLine(LineText(l));
            && found.Some? && found.value.key == l.key && Rank(found.value.alt) <= Rank(l.alt)
            && (Rank(found.value.alt) == Rank(l.alt) ==>
                  ValueOf(found.value) == ValueOf(l) && found.value.end.rest == l.end.rest)
  {
    var afterEq := l.afterEq + AltText(l.alt, EndText(l.end));
    var afterKey := l.beforeEq + ("=" + afterEq);
    assert l.key[0] in l.key && (l.key + afterKey)[0] == l.key[0];
    SpanIs(l.lead, l.key + afterKey, IsBlank);
    assert afterKey[0] == if l.beforeEq == "" then '=' else l.beforeEq[0];
    assert l.beforeEq != "" ==> l.beforeEq[0] in l.beforeEq;
    SpanIs(l.key, afterKey, IsKeyChar);
    AfterKeyFound(l.(lead := Span(LineText(l), IsBlank)));
  }

  /**
   The scanner finds a match of lineRE exactly when there is one. Among all the ways to match, it takes
   the earliest alternative for the value, as a regular expression does, and all ways through the same
   alternative give the same key, value and rest of the text.
   */
  lemma MatchesAsLineRE(s: string)
    ensures MatchLine(s).Some? <==> exists l :: CanMatch(s, l)
    ensures MatchLine(s).Some? ==> CanMatch(s, MatchLine(s).value)
    ensures forall l | CanMatch(s, l) ::
              var m := MatchLine(s).value;
              && m.key == l.key && Rank(m.alt) <= Rank(l.alt)
              && (Rank(m.alt) == Rank(l.alt) ==> ValueOf(m) == ValueOf(l) && m.end.rest == l.end.rest)
  {
    LineSound(s);
    forall l | CanMatch(s, l)
      ensures MatchLine(s).Some?
      ensures var m := MatchLine(s).value;
              && m.key == l.key && Rank(m.alt) <= Rank(l.alt)
              && (Rank(m.alt) == Rank(l.alt) ==> ValueOf(m) == ValueOf(l) && m.end.rest == l.end.rest)
    {
      LineFound(l);
    }
  }

  // ---------------------------------------------------------------- parse

  lemma LineShrinks(s: string)
    requires MatchLine(s).Some?
    ensures var l := MatchLine(s).value;
            |l.end.rest| + |ValueOf(l)| + 2 <= |s|
  {
    LineSound(s);
  }

  /** A match takes more text than it gives back as the value. */
  ghost predicate Consumes(re: string -> Option<Line>) {
    forall s | re(s).Some? :: |re(s).value.end.rest| + |ValueOf(re(s).value)| + 2 <= |s|
  }

  lemma ScannerConsumes()
    ensures Consumes(MatchLine)
  {
    forall s | MatchLine(s).Some? ensures |MatchLine(s).value.end.rest| + |ValueOf(MatchLine(s).value)| + 2 <= |s| {
      LineShrinks(s);
    }
  }

  /** FindAllStringSubmatch for a re that matches at the start of a line; atStart says that one starts here. */
  function FindAll(re: string -> Option<Line>, s: string, atStart: bool): seq<Line>
    requires Consumes(re)
    decreases |s|
  {
    if atStart && re(s).Some? then
      var rest := re(s).value.end.rest;
      [re(s).value] + FindAll(re, rest, s[|s| - |rest| - 1] == '\n')
    else if s == "" then []
    else FindAll(re, s[1..], s[0] == '\n')
  }

  /** The matches of lineRE. */
  function Lines(s: string): seq<Line> {
    ScannerConsumes();
    FindAll(MatchLine, s, true)
  }

  function ReplaceCrlf(s: string): string {
    if s == "" then ""
    else if "\r\n" <= s then "\n" + ReplaceCrlf(s[2..])
    else [s[0]] + ReplaceCrlf(s[1..])
  }

  datatype Pair = Pair(key: string, value: string)

  function PairsOf(lines: seq<Line>): seq<Pair> {
    if lines == [] then []
    else PairsOf(lines[..|lines| - 1]) + [Pair(lines[|lines| - 1].key, ValueOf(lines[|lines| - 1]))]
  }

  function LastWins(pairs: seq<Pair>): map<string, string> {
    if pairs == [] then map[]
    else LastWins(pairs[..|pairs| - 1])[pairs[|pairs| - 1].key := pairs[|pairs| - 1].value]
  }

  function ParseOf(s: string): map<string, string> {
    LastWins(PairsOf(Lines(ReplaceCrlf(s))))
  }

  /** What the three groups of the value hold; a group that took no part holds nothing. */
  function Groups(l: Line): (string, string, string) {
    match l.alt
    case Quoted(quote, body) => if quote == '"' then (body, "", "") else ("", body, "")
    case Bare(body) => ("", "", body)
    case NoValue => ("", "", "")
  }

  lemma GroupsGiveValue(l: Line)
    ensures var (double, single, bare) := Groups(l);
            (if double != "" then double else if single != "" then single else Trim(bare)) == ValueOf(l)
  {
    assert Trim("") == "";
  }

  method Collect(lines: seq<Line>) returns (out: map<string, string>)
    ensures out == LastWins(PairsOf(lines))
  {
    out := map[];
    for i := 0 to |lines|
      invariant out == LastWins(PairsOf(lines[..i]))
    {
      var (double, single, bare) := Groups(lines[i]);
      var val := if double != "" then double else if single != "" then single else Trim(bare);
      GroupsGiveValue(lines[i]);
      assert lines[..i + 1][..i] == lines[..i];
      assert PairsOf(lines[..i + 1]) == PairsOf(lines[..i]) + [Pair(lines[i].key, val)];
      LastWinsStep(PairsOf(lines[..i]), Pair(lines[i].key, val));
      out := out[lines[i].key := val];
    }
    assert lines[..|lines|] == lines;
  }

  lemma LastWinsStep(pairs: seq<Pair>, p: Pair)
    ensures LastWins(pairs + [p]) == LastWins(pairs)[p.key := p.value]
  {
    assert (pairs + [p])[..|pairs|] == pairs;
  }

  method Parse(s: string) returns (out: map<string, string>)
    ensures out == ParseOf(s)
  {
    out := Collect(Lines(ReplaceCrlf(s)));
  }
}
