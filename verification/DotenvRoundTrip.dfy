/** Printing pairs as KEY="value" lines and parsing them back (server/pkg/dotenv/parser.go). */
module DotenvRoundTrip {
  import opened Prelude
  import opened Dotenv

  function PrintPair(p: Pair, rest: string): string {
    p.key + ("=\"" + (p.value + ("\"\n" + rest)))
  }

  function Print(pairs: seq<Pair>): string {
    if pairs == [] then "" else PrintPair(pairs[0], Print(pairs[1..]))
  }

  predicate LegalKey(key: string) {
    key != "" && All(key, IsKeyChar)
  }

  predicate CrlfAt(s: string, i: nat) {
    i + 1 < |s| && s[i] == '\r' && s[i + 1] == '\n'
  }

  predicate HasCrlf(s: string) {
    exists i | 0 <= i < |s| :: CrlfAt(s, i)
  }

  predicate Printable(p: Pair) {
    LegalKey(p.key) && '"' !in p.value && !HasCrlf(p.value)
  }

  // ---------------------------------------------------------------- line endings

  lemma CrlfLater(s: string)
    requires s != ""
    ensures HasCrlf(s) <==> "\r\n" <= s || HasCrlf(s[1..])
  {
    assert "\r\n" <= s <==> CrlfAt(s, 0);
    assert forall i: nat :: CrlfAt(s[1..], i) ==> CrlfAt(s, i + 1);
    assert forall i: nat | i > 0 :: CrlfAt(s, i) ==> CrlfAt(s[1..], i - 1);
  }

  lemma {:induction false} ReplaceNothing(s: string)
    requires !HasCrlf(s)
    ensures ReplaceCrlf(s) == s
  {
    if s != "" {
      CrlfLater(s);
      ReplaceNothing(s[1..]);
      assert s == [s[0]] + s[1..];
    }
  }

  lemma {:induction false} ReplaceShrinks(s: string)
    ensures |ReplaceCrlf(s)| <= |s| && (HasCrlf(s) ==> |ReplaceCrlf(s)| < |s|)
    ensures '"' in ReplaceCrlf(s) <==> '"' in s
  {
    if s != "" {
      CrlfLater(s);
      if "\r\n" <= s {
        assert s == "\r\n" + s[2..];
        ReplaceShrinks(s[2..]);
      } else {
        assert s == [s[0]] + s[1..];
        ReplaceShrinks(s[1..]);
      }
    }
  }

  lemma {:induction false} ReplaceApart(a: string, b: string)
    requires b != "" && b[0] != '\n'
    ensures ReplaceCrlf(a + b) == ReplaceCrlf(a) + ReplaceCrlf(b)
  {
    if a == "" {
      assert a + b == b;
    } else if "\r\n" <= a {
      assert (a + b)[2..] == a[2..] + b;
      ReplaceApart(a[2..], b);
    } else {
      assert (a + b)[1..] == a[1..] + b;
      ReplaceApart(a[1..], b);
      assert !("\r\n" <= a + b);
    }
  }

  lemma {:induction false} ReplaceAfter(a: string, b: string)
    requires '\r' !in a
    ensures ReplaceCrlf(a + b) == a + ReplaceCrlf(b)
  {
    if a == "" {
      assert a + b == b;
    } else {
      assert (a + b)[1..] == a[1..] + b && (a + b)[0] == a[0];
      assert a == [a[0]] + a[1..];
      ReplaceAfter(a[1..], b);
    }
  }

  lemma ReplacePair(p: Pair, rest: string)
    requires LegalKey(p.key)
    ensures ReplaceCrlf(PrintPair(p, rest)) == PrintPair(p.(value := ReplaceCrlf(p.value)), ReplaceCrlf(rest))
  {
    var close := "\"\n" + rest;
    ReplaceAfter(p.key, "=\"" + (p.value + close));
    ReplaceAfter("=\"", p.value + close);
    ReplaceApart(p.value, close);
    ReplaceAfter("\"\n", rest);
  }

  predicate AllPrintable(pairs: seq<Pair>) {
    forall p | p in pairs :: Printable(p)
  }

  lemma {:induction false} ReplacePrinted(pairs: seq<Pair>)
    requires AllPrintable(pairs)
    ensures ReplaceCrlf(Print(pairs)) == Print(pairs)
  {
    if pairs != [] {
      assert pairs[0] in pairs && forall p | p in pairs[1..] :: p in pairs;
      ReplacePair(pairs[0], Print(pairs[1..]));
      ReplaceNothing(pairs[0].value);
      ReplacePrinted(pairs[1..]);
    }
  }

  // ---------------------------------------------------------------- the round trip

  /** The line lineRE has to match for a printed pair. */
  function PrintedLine(p: Pair, rest: string): Line {
    Line("", p.key, "", "", Quoted('"', p.value), End("", "", "\n" + rest))
  }

  lemma PrintedText(p: Pair, rest: string)
    ensures LineText(PrintedLine(p, rest)) == PrintPair(p, rest)
  {
    var after := "\"\n" + rest;
    assert "" + ("" + ("\n" + rest)) == "\n" + rest;
    assert "\"" + ("\n" + rest) == after;
    assert "" + ("\"" + (p.value + after)) == "\"" + (p.value + after);
    assert "=" + ("\"" + (p.value + after)) == "=\"" + (p.value + after);
    assert "" + ("=\"" + (p.value + after)) == "=\"" + (p.value + after);
  }

  lemma FindPrinted(p: Pair, rest: string)
    requires LegalKey(p.key) && '"' !in p.value
    ensures var lines := Lines(PrintPair(p, rest));
            && lines != [] && lines[0].key == p.key && ValueOf(lines[0]) == p.value
            && lines[1..] == Lines(rest)
  {
    var s := PrintPair(p, rest);
    PrintedText(p, rest);
    LineFound(PrintedLine(p, rest));
    assert s[|s| - |"\n" + rest| - 1] == '"';
    assert ("\n" + rest)[1..] == rest;
    ScannerConsumes();
    assert FindAll(MatchLine, "\n" + rest, false) == Lines(rest);
  }

  lemma {:induction false} PairsOfFront(lines: seq<Line>)
    requires lines != []
    ensures PairsOf(lines) == [Pair(lines[0].key, ValueOf(lines[0]))] + PairsOf(lines[1..])
  {
    if |lines| > 1 {
      PairsOfFront(lines[..|lines| - 1]);
      assert lines[..|lines| - 1][1..] == lines[1..][..|lines| - 2];
    } else {
      assert lines[..0] == [] && lines[1..] == [];
    }
  }

  /** Parsing finds the printed pairs again, every one and in order. */
  lemma {:induction false} FindsAllPrinted(pairs: seq<Pair>)
    requires forall p | p in pairs :: LegalKey(p.key) && '"' !in p.value
    ensures PairsOf(Lines(Print(pairs))) == pairs
  {
    if pairs == [] {
      assert MatchLine("") == None;
    } else {
      assert pairs[0] in pairs && forall p | p in pairs[1..] :: p in pairs;
      FindPrinted(pairs[0], Print(pairs[1..]));
      PairsOfFront(Lines(Print(pairs)));
      FindsAllPrinted(pairs[1..]);
    }
  }

  /** Printing any list of pairs and parsing it gives back the last-wins map. */
  lemma RoundTrip(pairs: seq<Pair>)
    requires AllPrintable(pairs)
    ensures ParseOf(Print(pairs)) == LastWins(pairs)
  {
    ReplacePrinted(pairs);
    forall p | p in pairs ensures LegalKey(p.key) && '"' !in p.value {
      assert Printable(p);
    }
    FindsAllPrinted(pairs);
  }

  predicate Occurs(pairs: seq<Pair>, key: string) {
    exists p | p in pairs :: p.key == key
  }

  lemma {:induction false} KeysOccur(pairs: seq<Pair>, key: string)
    ensures key in LastWins(pairs) <==> Occurs(pairs, key)
  {
    if pairs != [] {
      var front, last := pairs[..|pairs| - 1], pairs[|pairs| - 1];
      KeysOccur(front, key);
      assert pairs == front + [last];
      assert forall p :: p in pairs <==> p in front || p == last;
    }
  }

  predicate LastFor(pairs: seq<Pair>, i: nat) {
    i < |pairs| && forall j | i < j < |pairs| :: pairs[j].key != pairs[i].key
  }

  lemma {:induction false} LastIsKept(pairs: seq<Pair>, i: nat)
    requires LastFor(pairs, i)
    ensures pairs[i].key in LastWins(pairs) && LastWins(pairs)[pairs[i].key] == pairs[i].value
  {
    if i < |pairs| - 1 {
      var front := pairs[..|pairs| - 1];
      assert forall j | 0 <= j < |front| :: front[j] == pairs[j];
      LastIsKept(front, i);
      assert pairs[|pairs| - 1].key != pairs[i].key;
    }
  }

  /** The last-wins map has exactly the keys that occur, each with the value of its last pair. */
  lemma LastWinsMeans(pairs: seq<Pair>)
    ensures forall key :: key in LastWins(pairs) <==> Occurs(pairs, key)
    ensures forall i: nat | LastFor(pairs, i) ::
              pairs[i].key in LastWins(pairs) && LastWins(pairs)[pairs[i].key] == pairs[i].value
  {
    forall key ensures key in LastWins(pairs) <==> Occurs(pairs, key) {
      KeysOccur(pairs, key);
    }
    forall i: nat | LastFor(pairs, i)
      ensures pairs[i].key in LastWins(pairs) && LastWins(pairs)[pairs[i].key] == pairs[i].value
    {
      LastIsKept(pairs, i);
    }
  }

  // ---------------------------------------------------------------- and only those values

  lemma {:induction false} ValuesShort(re: string -> Option<Line>, s: string, atStart: bool)
    requires Consumes(re)
    ensures forall l | l in FindAll(re, s, atStart) :: |ValueOf(l)| + 2 <= |s|
    decreases |s|
  {
    if atStart && re(s).Some? {
      var rest := re(s).value.end.rest;
      ValuesShort(re, rest, s[|s| - |rest| - 1] == '\n');
    } else if s != "" {
      ValuesShort(re, s[1..], s[0] == '\n');
    }
  }

  lemma {:induction false} SkipText(re: string -> Option<Line>, a: string, b: string)
    requires Consumes(re) && '\n' !in a
    ensures FindAll(re, a + b, false) == FindAll(re, b, false)
  {
    if a == "" {
      assert a + b == b;
    } else {
      assert (a + b)[1..] == a[1..] + b && (a + b)[0] == a[0];
      SkipText(re, a[1..], b);
    }
  }

  /** A printed value, from its opening quote on. */
  function AtValue(value: string): string {
    "\"" + (value + "\"\n")
  }

  lemma MatchPrinted(p: Pair)
    requires LegalKey(p.key)
    ensures var s := PrintPair(p, "");
            match MatchValue(AtValue(p.value))
            case None => MatchLine(s) == None
            case Some(t) => MatchLine(s) == Some(Line("", p.key, "", "", t.alt, t.end))
  {
    var s, u := PrintPair(p, ""), AtValue(p.value);
    assert "\"\n" + "" == "\"\n";
    assert "=\"" + (p.value + "\"\n") == "=" + u;
    assert s == p.key + ("=" + u) && ("=" + u)[1..] == u;
    assert p.key[0] in p.key && s[0] == p.key[0];
    Nothing(s, IsBlank);
    SpanIs(p.key, "=" + u, IsKeyChar);
    Nothing("=" + u, IsBlank);
    Nothing(u, IsBlank);
  }

  lemma Nothing(s: string, p: char -> bool)
    requires s != "" && !p(s[0])
    ensures Span(s, p) == "" && After(s, p) == s
  {
  }

  lemma {:induction false} QuotesOnly(value: string, after: string, n: nat)
    requires value <= "\"" + (value + after) && n < |value|
    ensures value[n] == '"'
  {
    var u := "\"" + (value + after);
    assert value[n] == u[n];
    if n > 0 {
      assert u[n] == value[n - 1];
      QuotesOnly(value, after, n - 1);
    }
  }

  lemma BareHasNoCrlf(v: string, b: string)
    requires v <= b && All(b, IsBare)
    ensures !HasCrlf(v)
  {
    forall i | 0 <= i < |v| ensures !CrlfAt(v, i) {
      assert v[i] == b[i] && b[i] in b;
    }
  }

  lemma BareQuotes(value: string)
    requires All(value, c => c == '"')
    ensures |Trim(Span(AtValue(value), IsBare))| == |value| + 2
  {
    var b := "\"" + value + "\"";
    assert AtValue(value) == b + "\n";
    SpanIs(b, "\n", IsBare);
    Nothing(b, IsSpace);
    assert b[|b| - 1] == '"';
  }

  lemma BareDiffers(value: string, v: string)
    requires '"' in value && (value == v || HasCrlf(v))
    ensures Trim(Span(AtValue(value), IsBare)) != v
  {
    var b := Span(AtValue(value), IsBare);
    Nothing(b, IsSpace);
    if Trim(b) == v {
      BareHasNoCrlf(v, b);
      forall c | c in value ensures c == '"' {
        var n :| 0 <= n < |value| && value[n] == c;
        QuotesOnly(value, "\"\n", n);
      }
      BareQuotes(value);
    }
  }

  lemma QuotedIsShorter(value: string)
    requires '"' in value
    ensures MatchQuoted(AtValue(value), '\'') == None
    ensures MatchQuoted(AtValue(value), '"').Some? ==>
              var alt := MatchQuoted(AtValue(value), '"').value.alt;
              alt.Quoted? && |alt.body| < |value|
  {
    var u := AtValue(value);
    assert u[1..] == value + "\"\n";
    var body := Span(u[1..], Not('"'));
    var i :| 0 <= i < |value| && value[i] == '"';
    assert u[1..][i] == '"';
    assert forall k | 0 <= k < |body| :: body[k] == u[1..][k] && body[k] in body;
  }

  lemma FirstDiffers(value: string, v: string)
    requires '"' in value && (value == v || (HasCrlf(v) && |value| < |v|))
    requires MatchValue(AtValue(value)).Some?
    ensures ValueOf(Line("", "", "", "", MatchValue(AtValue(value)).value.alt, End("", "", ""))) != v
  {
    QuotedIsShorter(value);
    BareDiffers(value, v);
  }

  /** What is found after, or without, a match at the front of a printed pair. */
  lemma LaterShorter(re: string -> Option<Line>, p: Pair, s: string)
    requires Consumes(re) && LegalKey(p.key) && s == PrintPair(p, "")
    requires re(s).Some? ==>
               var rest := re(s).value.end.rest;
               |rest| <= |p.value| + 2 && (rest == "" || rest[0] == '\n') && re(rest) == None
    ensures var lines := FindAll(re, s, true);
            forall l | l in (if re(s).Some? then lines[1..] else lines) :: |ValueOf(l)| < |p.value|
  {
    if re(s).Some? {
      var rest := re(s).value.end.rest;
      if rest != "" {
        ValuesShort(re, rest[1..], true);
      }
    } else {
      var front, close := p.key[1..] + "=\"", p.value + "\"\n";
      PrintedFront(p, s);
      SkipText(re, front, close);
      ValuesShort(re, close[1..], close[0] == '\n');
    }
  }

  lemma PrintedFront(p: Pair, s: string)
    requires LegalKey(p.key) && s == PrintPair(p, "")
    ensures s != "" && s[0] != '\n' && s[1..] == (p.key[1..] + "=\"") + (p.value + "\"\n")
    ensures '\n' !in p.key[1..] + "=\""
  {
    assert "\"\n" + "" == "\"\n";
    assert p.key[0] in p.key;
    assert forall c | c in p.key[1..] :: c in p.key;
  }

  lemma NoLineAtNewline(s: string)
    requires s == "" || s[0] == '\n'
    ensures MatchLine(s) == None
  {
    if s != "" {
      Nothing(s, IsBlank);
      Nothing(s, IsKeyChar);
    }
  }

  /** The first match takes at least the opening quote. */
  lemma AfterFirst(p: Pair, m: Line)
    requires LineOk(m) && m.lead == m.beforeEq == m.afterEq == "" && m.key == p.key
    requires LineText(m) == PrintPair(p, "")
    ensures |m.end.rest| <= |p.value| + 2
  {
    var s := PrintPair(p, "");
    assert s[|p.key| + 1] == '"';
    assert s == p.key + ("=" + AltText(m.alt, EndText(m.end)));
    assert AltText(m.alt, EndText(m.end))[0] == '"';
  }

  lemma QuoteNeverReturns(p: Pair, v: string)
    requires LegalKey(p.key) && '"' in p.value && (p.value == v || (HasCrlf(v) && |p.value| < |v|))
    ensures forall l | l in Lines(PrintPair(p, "")) :: ValueOf(l) != v
  {
    var s := PrintPair(p, "");
    ScannerConsumes();
    FirstMatch(p, v);
    LaterShorter(MatchLine, p, s);
    var lines := Lines(s);
    if MatchLine(s).Some? {
      assert lines == [MatchLine(s).value] + lines[1..];
    }
  }

  lemma FirstMatch(p: Pair, v: string)
    requires LegalKey(p.key) && '"' in p.value && (p.value == v || (HasCrlf(v) && |p.value| < |v|))
    ensures MatchLine(PrintPair(p, "")).Some? ==>
              var m := MatchLine(PrintPair(p, "")).value;
              var rest := m.end.rest;
              && ValueOf(m) != v
              && |rest| <= |p.value| + 2 && (rest == "" || rest[0] == '\n') && MatchLine(rest) == None
  {
    MatchPrinted(p);
    if MatchLine(PrintPair(p, "")).Some? {
      var m := MatchLine(PrintPair(p, "")).value;
      LineSound(PrintPair(p, ""));
      FirstDiffers(p.value, v);
      AfterFirst(p, m);
      NoLineAtNewline(m.end.rest);
    }
  }

  lemma {:induction false} ValuesComeFromLines(lines: seq<Line>, value: string)
    requires forall l | l in lines :: ValueOf(l) != value
    ensures forall key | key in LastWins(PairsOf(lines)) :: LastWins(PairsOf(lines))[key] != value
  {
    if lines != [] {
      ValuesComeFromLines(lines[..|lines| - 1], value);
      LastWinsStep(PairsOf(lines[..|lines| - 1]), Pair(lines[|lines| - 1].key, ValueOf(lines[|lines| - 1])));
    }
  }

  ghost predicate GivesLegalKeys(re: string -> Option<Line>) {
    forall s | re(s).Some? :: LegalKey(re(s).value.key)
  }

  lemma ScannerGivesLegalKeys()
    ensures GivesLegalKeys(MatchLine)
  {
    forall s | MatchLine(s).Some? ensures LegalKey(MatchLine(s).value.key) {
      LineSound(s);
    }
  }

  lemma {:induction false} FoundKeysLegal(re: string -> Option<Line>, s: string, atStart: bool)
    requires Consumes(re) && GivesLegalKeys(re)
    ensures forall l | l in FindAll(re, s, atStart) :: LegalKey(l.key)
    decreases |s|
  {
    if atStart && re(s).Some? {
      var rest := re(s).value.end.rest;
      FoundKeysLegal(re, rest, s[|s| - |rest| - 1] == '\n');
    } else if s != "" {
      FoundKeysLegal(re, s[1..], s[0] == '\n');
    }
  }

  lemma {:induction false} KeysComeFromLines(lines: seq<Line>)
    requires forall l | l in lines :: LegalKey(l.key)
    ensures forall key | key in LastWins(PairsOf(lines)) :: LegalKey(key)
  {
    if lines != [] {
      KeysComeFromLines(lines[..|lines| - 1]);
      LastWinsStep(PairsOf(lines[..|lines| - 1]), Pair(lines[|lines| - 1].key, ValueOf(lines[|lines| - 1])));
    }
  }

  /** Parsing gives legal keys only. */
  lemma ParsedKeysLegal(s: string)
    ensures forall key | key in ParseOf(s) :: LegalKey(key)
  {
    ScannerConsumes();
    ScannerGivesLegalKeys();
    FoundKeysLegal(MatchLine, ReplaceCrlf(s), true);
    KeysComeFromLines(Lines(ReplaceCrlf(s)));
  }

  /** A single pair comes back exactly when its key is legal and its value has no double quote and no CRLF. */
  lemma ComesBackExactly(p: Pair)
    ensures ParseOf(Print([p])) == map[p.key := p.value] <==> Printable(p)
  {
    if LegalKey(p.key) {
      LegalComesBackExactly(p);
    } else {
      ParsedKeysLegal(Print([p]));
      assert p.key in map[p.key := p.value];
    }
  }

  lemma LegalComesBackExactly(p: Pair)
    requires LegalKey(p.key)
    ensures ParseOf(Print([p])) == map[p.key := p.value] <==> Printable(p)
  {
    var p' := p.(value := ReplaceCrlf(p.value));
    assert [p][1..] == [] && Print([p]) == PrintPair(p, "");
    ReplacePair(p, "");
    ReplaceShrinks(p.value);
    if Printable(p) {
      RoundTrip([p]);
      assert [p][..0] == [];
    } else if '"' in p.value {
      if !HasCrlf(p.value) {
        ReplaceNothing(p.value);
      }
      QuoteNeverReturns(p', p.value);
      ValuesComeFromLines(Lines(PrintPair(p', "")), p.value);
      assert p.key in map[p.key := p.value];
    } else {
      assert [p'][1..] == [] && Print([p']) == PrintPair(p', "");
      FindsAllPrinted([p']);
      assert [p'][..0] == [];
      assert LastWins([p'])[p.key] == p'.value;
    }
  }
}
