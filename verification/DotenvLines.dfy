/** Line by line, what the dotenv parser makes of a text (server/pkg/dotenv/parser.go). */
module DotenvLines {
  import opened Prelude
  import opened Dotenv
  import opened DotenvRoundTrip

  // ---------------------------------------------------------------- line endings

  /** s with CRLF for the line feeds chosen. */
  function WithCrlf(s: string, chosen: seq<bool>): string
    requires |chosen| == |s|
  {
    if s == "" then ""
    else (if s[0] == '\n' && chosen[0] then "\r\n" else [s[0]]) + WithCrlf(s[1..], chosen[1..])
  }

  lemma {:induction false} CrlfUndone(s: string, chosen: seq<bool>)
    requires |chosen| == |s| && !HasCrlf(s)
    ensures ReplaceCrlf(WithCrlf(s, chosen)) == s
  {
    if s != "" {
      CrlfLater(s);
      CrlfUndone(s[1..], chosen[1..]);
      assert s == [s[0]] + s[1..];
      var rest := WithCrlf(s[1..], chosen[1..]);
      if s[0] == '\n' && chosen[0] {
        assert ("\r\n" + rest)[2..] == rest;
      } else {
        assert ([s[0]] + rest)[1..] == rest;
        NoNewlineAfterReturn(s, chosen);
      }
    }
  }

  lemma NoNewlineAfterReturn(s: string, chosen: seq<bool>)
    requires |chosen| == |s| && s != "" && !HasCrlf(s) && !(s[0] == '\n' && chosen[0])
    ensures !("\r\n" <= [s[0]] + WithCrlf(s[1..], chosen[1..]))
  {
    var rest := WithCrlf(s[1..], chosen[1..]);
    assert ([s[0]] + rest)[0] == s[0];
    if |s| > 1 {
      assert !CrlfAt(s, 0);
      assert s[1..][0] == s[1] && rest != "" && (s[1] != '\n' ==> rest[0] == s[1]);
      assert ([s[0]] + rest)[1] == rest[0];
    }
  }

  /** Whichever lines of a text end in CRLF in place of LF, it parses the same. */
  lemma LineEndingsAlike(s: string, chosen: seq<bool>)
    requires |chosen| == |s| && !HasCrlf(s)
    ensures ParseOf(WithCrlf(s, chosen)) == ParseOf(s) == LastWins(PairsOf(Lines(s)))
  {
    CrlfUndone(s, chosen);
    ReplaceNothing(s);
  }

  // ---------------------------------------------------------------- one line after another

  /** What is after the first line feed. */
  function NextLine(s: string): string
    requires '\n' in s
  {
    After(s, Not('\n'))[1..]
  }

  /** The matches from one place on, when none crosses it. */
  lemma SkipLine(re: string -> Option<Line>, s: string)
    requires Consumes(re) && re(s).None? && re("").None?
    ensures FindAll(re, s, true) == if '\n' in s then FindAll(re, NextLine(s), true) else []
  {
    var line, after := Span(s, Not('\n')), After(s, Not('\n'));
    assert '\n' in s <==> after != "";
    if line == "" {
      assert s == after;
    } else {
      assert s[1..] == line[1..] + after && s[0] == line[0];
      assert forall c | c in line[1..] :: c in line;
      SkipText(re, line[1..], after);
    }
  }

  /** Where a line can start, for any re whose matches end where a line does. */
  lemma LinesBy(re: string -> Option<Line>, s: string)
    requires Consumes(re) && re("").None?
    requires re(s).Some? ==> var rest := re(s).value.end.rest; re(rest).None? && (rest == "" || rest[0] == '\n')
    ensures FindAll(re, s, true)
            == match re(s)
               case Some(l) => [l] + if l.end.rest == "" then [] else FindAll(re, l.end.rest[1..], true)
               case None => if '\n' in s then FindAll(re, NextLine(s), true) else []
  {
    if re(s).None? {
      SkipLine(re, s);
    }
  }

  /**
   For every text: where a line can start, the match there comes first, if lineRE has one, and the rest goes on
   after the line it ends on. If it has none, the line adds nothing.
   */
  lemma LinesExactly(s: string)
    ensures Lines(s)
            == match MatchLine(s)
               case Some(l) => [l] + if l.end.rest == "" then [] else Lines(l.end.rest[1..])
               case None => if '\n' in s then Lines(NextLine(s)) else []
  {
    ScannerConsumes();
    NoLineAtNewline("");
    if MatchLine(s).Some? {
      LineSound(s);
      NoLineAtNewline(MatchLine(s).value.end.rest);
    }
    LinesBy(MatchLine, s);
  }

  /** No assignment: there is no equals sign, or something that is not of a key comes first. */
  predicate AssignsNothing(line: string) {
    && '\n' !in line && '\r' !in line
    && ('=' !in line || !IsKeyChar(After(line, IsBlank)[0]))
  }

  lemma NoMatchWithout(line: string, s: string)
    requires AssignsNothing(line)
    ensures MatchLine(line + ("\n" + s)) == None
  {
    var all := line + ("\n" + s);
    AfterThen(line, "\n" + s, IsBlank);
    var atKey := After(line, IsBlank);
    if atKey == "" || !IsKeyChar(atKey[0]) {
      Nothing(After(all, IsBlank), IsKeyChar);
    } else {
      AfterThen(atKey, "\n" + s, IsKeyChar);
      AfterThen(After(atKey, IsKeyChar), "\n" + s, IsBlank);
      NoEquals(line, atKey);
    }
  }

  lemma NoEquals(line: string, atKey: string)
    requires '=' !in line && atKey == After(line, IsBlank)
    ensures '=' !in After(After(atKey, IsKeyChar), IsBlank)
  {
    assert line == Span(line, IsBlank) + atKey;
    assert atKey == Span(atKey, IsKeyChar) + After(atKey, IsKeyChar);
    var afterKey := After(atKey, IsKeyChar);
    assert afterKey == Span(afterKey, IsBlank) + After(afterKey, IsBlank);
  }

  /** A line that assigns nothing, blank, a comment or not valid, changes nothing about the lines after it. */
  lemma InvalidLinesSkipped(line: string, s: string)
    requires AssignsNothing(line)
    ensures ParseOf(line + ("\n" + s)) == ParseOf(s)
  {
    var rest := ReplaceCrlf(s);
    ReplaceAfter(line, "\n" + s);
    ReplaceAfter("\n", s);
    NoMatchWithout(line, rest);
    LinesExactly(line + ("\n" + rest));
    SpanIs(line, "\n" + rest, Not('\n'));
    assert (line + ("\n" + rest))[|line|] == '\n';
  }

  // ---------------------------------------------------------------- all ways to write a pair

  datatype Style = Double | Single | Plain

  datatype Written = Written(pair: Pair, style: Style)

  function ValueText(w: Written): string {
    match w.style
    case Double => "\"" + w.pair.value + "\""
    case Single => "'" + w.pair.value + "'"
    case Plain => w.pair.value
  }

  /** The value can be written this way: a plain one must not read as quoted, as a comment, or as having blanks. */
  predicate Writable(w: Written) {
    var value := w.pair.value;
    && LegalKey(w.pair.key) && !HasCrlf(value)
    && match w.style
       case Double => '"' !in value
       case Single => '\'' !in value
       case Plain =>
         && All(value, IsBare)
         && (value != "" ==> && value[0] != '"' && value[0] != '\''
                             && !IsSpace(value[0]) && !IsSpace(value[|value| - 1]))
  }

  function Write(ws: seq<Written>): string {
    if ws == [] then ""
    else ws[0].pair.key + ("=" + (ValueText(ws[0]) + ("\n" + Write(ws[1..]))))
  }

  function PairsWritten(ws: seq<Written>): seq<Pair> {
    seq(|ws|, i requires 0 <= i < |ws| => ws[i].pair)
  }

  lemma KeyThen(key: string, u: string)
    requires LegalKey(key) && u != "" && !IsBlank(u[0])
    ensures MatchLine(key + ("=" + u))
            == match MatchValue(u) case None => None case Some(t) => Some(Line("", key, "", "", t.alt, t.end))
  {
    var s := key + ("=" + u);
    assert s[0] == key[0] && key[0] in key && ("=" + u)[1..] == u;
    Nothing(s, IsBlank);
    SpanIs(key, "=" + u, IsKeyChar);
    Nothing("=" + u, IsBlank);
    Nothing(u, IsBlank);
  }

  function AltOf(w: Written): Alternative {
    match w.style
    case Double => Quoted('"', w.pair.value)
    case Single => Quoted('\'', w.pair.value)
    case Plain => Bare(w.pair.value)
  }

  lemma WrittenText(w: Written, rest: string)
    ensures AltText(AltOf(w), EndText(End("", "", "\n" + rest))) == ValueText(w) + ("\n" + rest)
  {
    var after := "\n" + rest;
    assert "" + ("" + after) == after;
    if !w.style.Plain? {
      var q := if w.style.Double? then "\"" else "'";
      assert q + w.pair.value + q + after == q + (w.pair.value + (q + after));
    }
  }

  lemma PlainFound(value: string, u: string, e: End)
    requires All(value, IsBare) && (value != "" ==> value[0] != '"' && value[0] != '\'' && !IsBlank(value[0]))
    requires EndOk(e) && e.trail == e.comment == "" && e.rest != "" && u == value + e.rest
    ensures !IsBlank(u[0]) && MatchValue(u) == Some(Tail(Bare(value), e))
  {
    EndFound(e);
    assert EndText(e) == e.rest;
    SpanIs(value, e.rest, IsBare);
    assert u[0] == if value == "" then '\n' else value[0];
  }

  lemma QuotesFound(a: Alternative, u: string, e: End)
    requires a.Quoted? && AltOk(a) && EndOk(e) && u == AltText(a, EndText(e))
    ensures u != "" && !IsBlank(u[0]) && MatchValue(u) == Some(Tail(a, e))
  {
    QuotedFound(a, e);
  }

  lemma ValueFound(w: Written, rest: string)
    requires Writable(w)
    ensures var u := ValueText(w) + ("\n" + rest);
            !IsBlank(u[0]) && MatchValue(u) == Some(Tail(AltOf(w), End("", "", "\n" + rest)))
  {
    var u, e := ValueText(w) + ("\n" + rest), End("", "", "\n" + rest);
    if w.style.Plain? {
      PlainFound(w.pair.value, u, e);
    } else {
      WrittenText(w, rest);
      QuotesFound(AltOf(w), u, e);
    }
  }

  lemma TrimmedAlready(v: string)
    requires v != "" ==> !IsSpace(v[0]) && !IsSpace(v[|v| - 1])
    ensures Trim(v) == v
  {
    if v != "" {
      Nothing(v, IsSpace);
    }
  }

  lemma ValueWritten(w: Written, end: End)
    requires Writable(w)
    ensures ValueOf(Line("", w.pair.key, "", "", AltOf(w), end)) == w.pair.value
  {
    if w.style.Plain? {
      TrimmedAlready(w.pair.value);
    }
  }

  lemma MatchThen(s: string, l: Line, rest: string)
    requires MatchLine(s) == Some(l) && l.end.rest == "\n" + rest
    ensures PairsOf(Lines(s)) == [Pair(l.key, ValueOf(l))] + PairsOf(Lines(rest))
  {
    LinesExactly(s);
    assert ("\n" + rest)[1..] == rest;
    FrontPair(l, Lines(rest));
  }

  lemma FrontPair(l: Line, lines: seq<Line>)
    ensures PairsOf([l] + lines) == [Pair(l.key, ValueOf(l))] + PairsOf(lines)
  {
    PairsOfFront([l] + lines);
    assert ([l] + lines)[1..] == lines;
  }

  lemma LineWritten(w: Written, rest: string)
    requires Writable(w)
    ensures PairsOf(Lines(w.pair.key + ("=" + (ValueText(w) + ("\n" + rest))))) == [w.pair] + PairsOf(Lines(rest))
  {
    var u, l := ValueText(w) + ("\n" + rest), Line("", w.pair.key, "", "", AltOf(w), End("", "", "\n" + rest));
    ValueFound(w, rest);
    KeyThen(w.pair.key, u);
    ValueWritten(w, l.end);
    MatchThen(w.pair.key + ("=" + u), l, rest);
  }

  lemma {:induction false} ReplaceUpTo(text: string, rest: string)
    requires !HasCrlf(text) && (text != "" ==> text[|text| - 1] != '\r')
    ensures ReplaceCrlf(text + ("\n" + rest)) == text + ("\n" + ReplaceCrlf(rest))
  {
    if text == "" {
      assert text + ("\n" + rest) == "\n" + rest && ("\n" + rest)[1..] == rest;
    } else {
      CrlfLater(text);
      var s := text + ("\n" + rest);
      assert s[1..] == text[1..] + ("\n" + rest) && s[0] == text[0];
      assert |text| > 1 ==> text[1..][|text| - 2] == text[|text| - 1] && s[1] == text[1];
      ReplaceUpTo(text[1..], rest);
      assert text == [text[0]] + text[1..];
    }
  }

  lemma NoCrlfWritten(w: Written)
    requires Writable(w)
    ensures !HasCrlf(ValueText(w)) && (ValueText(w) != "" ==> ValueText(w)[|ValueText(w)| - 1] != '\r')
  {
    var v, text := w.pair.value, ValueText(w);
    if w.style.Plain? {
      assert v != "" ==> v[|v| - 1] in v;
    } else {
      forall i: nat ensures !CrlfAt(text, i) {
        assert i > 0 ==> !CrlfAt(v, i - 1);
      }
    }
  }

  lemma {:induction false} ReplaceWritten(ws: seq<Written>)
    requires forall w | w in ws :: Writable(w)
    ensures ReplaceCrlf(Write(ws)) == Write(ws)
  {
    if ws != [] {
      var w, rest := ws[0], Write(ws[1..]);
      assert w in ws && forall w' | w' in ws[1..] :: w' in ws;
      ReplaceAfter(w.pair.key, "=" + (ValueText(w) + ("\n" + rest)));
      ReplaceAfter("=", ValueText(w) + ("\n" + rest));
      NoCrlfWritten(w);
      ReplaceUpTo(ValueText(w), rest);
      ReplaceWritten(ws[1..]);
    }
  }

  lemma {:induction false} FindsAllWritten(ws: seq<Written>)
    requires forall w | w in ws :: Writable(w)
    ensures PairsOf(Lines(Write(ws))) == PairsWritten(ws)
  {
    if ws == [] {
      LinesExactly("");
      NoLineAtNewline("");
    } else {
      assert ws[0] in ws && forall w | w in ws[1..] :: w in ws;
      LineWritten(ws[0], Write(ws[1..]));
      FindsAllWritten(ws[1..]);
      assert PairsWritten(ws) == [ws[0].pair] + PairsWritten(ws[1..]);
    }
  }

  /** Pairs written double-quoted, single-quoted or plain, mixed as they come, parse to the last-wins map. */
  lemma WrittenRoundTrip(ws: seq<Written>)
    requires forall w | w in ws :: Writable(w)
    ensures ParseOf(Write(ws)) == LastWins(PairsWritten(ws))
  {
    ReplaceWritten(ws);
    FindsAllWritten(ws);
  }

  // ---------------------------------------------------------------- trimming

  /** s is t with white space around it, and t has none at its ends. */
  predicate TrimsTo(s: string, a: string, t: string, c: string) {
    && All(a, IsSpace) && All(c, IsSpace) && s == a + (t + c)
    && (t != "" ==> !IsSpace(t[0]) && !IsSpace(t[|t| - 1]))
  }

  lemma TrimOnly(s: string, a: string, t: string, c: string)
    requires TrimsTo(s, a, t, c)
    ensures Trim(s) == t
  {
    TrimMore(a, t, c);
    TrimmedAlready(t);
  }

  lemma TrimSome(s: string) returns (a: string, c: string)
    ensures TrimsTo(s, a, Trim(s), c)
  {
    a := Span(s, IsSpace);
    var rest := After(s, IsSpace);
    var r := TrimRight(rest);
    c := rest[|r|..];
    assert r + c == rest;
  }

  /** Trimming takes all white space from both ends, and nothing else. */
  lemma TrimExactly(s: string, t: string)
    ensures Trim(s) == t <==> exists a, c :: TrimsTo(s, a, t, c)
  {
    var a, c := TrimSome(s);
    forall a', c' | TrimsTo(s, a', t, c') ensures Trim(s) == t {
      TrimOnly(s, a', t, c');
    }
  }
}
