/**
 safeReturnTo (server/internal/handler/auth.go), against the reference resolution of RFC 3986.
 Each char is one byte.
 */
module ReturnTo {
  import opened Prelude

  // ---------------------------------------------------------------- what url.Parse makes of a path

  /** What is before the first c in s. */
  function UpTo(s: string, c: char): (r: string)
    ensures c !in r && |r| <= |s| && r == s[..|r|]
    ensures |r| < |s| ==> s[|r|] == c
    ensures c !in s ==> r == s
  {
    if s == "" || s[0] == c then "" else [s[0]] + UpTo(s[1..], c)
  }

  /** What is after the first c in s, with c: the empty string when there is none. */
  function From(s: string, c: char): string {
    s[|UpTo(s, c)|..]
  }

  function HexValue(c: char): Option<int> {
    if '0' <= c <= '9' then Some(c as int - '0' as int)
    else if 'a' <= c <= 'f' then Some(c as int - 'a' as int + 10)
    else if 'A' <= c <= 'F' then Some(c as int - 'A' as int + 10)
    else None
  }

  function HexByte(hi: char, lo: char): Option<char> {
    match (HexValue(hi), HexValue(lo))
    case (Some(h), Some(l)) =>
      if 0 <= 16 * h + l < 256 then Some((16 * h + l) as char) else None
    case _ => None
  }

  datatype Decoded = Decoded(byte: char, rest: string)

  /** Percent-decodes one byte; None for a stray percent sign, or no byte at all. */
  function DecodeByte(s: string): (d: Option<Decoded>)
    ensures d.Some? ==> |d.value.rest| < |s|
  {
    if s == "" then None
    else if s[0] != '%' then Some(Decoded(s[0], s[1..]))
    else if |s| < 3 || HexByte(s[1], s[2]).None? then None
    else Some(Decoded(HexByte(s[1], s[2]).value, s[3..]))
  }

  ghost predicate Shrinks(first: string -> Option<Decoded>) {
    forall s | first(s).Some? :: |first(s).value.rest| < |s|
  }

  /** Decodes a text byte by byte. */
  function DecodeWith(first: string -> Option<Decoded>, s: string): Option<string>
    requires Shrinks(first)
    decreases |s|
  {
    if s == "" then Some("")
    else
      match first(s)
      case None => None
      case Some(d) =>
        var rest := DecodeWith(first, d.rest);
        if rest.None? then None else Some([d.byte] + rest.value)
  }

  /** Percent-decoding. */
  function Unescape(s: string): Option<string> {
    DecodeWith(DecodeByte, s)
  }

  /** The candidate without its fragment. */
  function BeforeFragment(s: string): string {
    UpTo(s, '#')
  }

  function RawPath(s: string): string {
    UpTo(BeforeFragment(s), '?')
  }

  function Fragment(s: string): string {
    if From(s, '#') == "" then "" else From(s, '#')[1..]
  }

  predicate IsControl(c: char) {
    c < ' ' || c == 0x7f as char
  }

  /** url.Parse takes a string that starts with one slash. */
  predicate Parses(s: string) {
    && (forall c | c in BeforeFragment(s) :: !IsControl(c))
    && Unescape(RawPath(s)).Some?
    && Unescape(Fragment(s)).Some?
  }

  function Split(s: string): (r: seq<string>) {
    var first := UpTo(s, '/');
    if |first| == |s| then [first] else [first] + Split(s[|first| + 1..])
  }

  predicate IsSafe(candidate: string) {
    && |candidate| <= 1024
    && "/" <= candidate && !("//" <= candidate) && !("/\\" <= candidate)
    && Parses(candidate)
    && var path := Unescape(RawPath(candidate)).value;
       '\\' !in path && forall segment | segment in Split(path) :: segment != "." && segment != ".."
  }

  function SafeReturnTo(candidate: string, fallback: string): string {
    if IsSafe(candidate) then candidate else fallback
  }

  // ---------------------------------------------------------------- RFC 3986

  /** A single or double dot segment; when encoded, percent-encoded dots are dots too. */
  predicate IsDots(segment: string, dots: string, encoded: bool) {
    segment == dots || (encoded && Unescape(segment) == Some(dots))
  }

  /** The output buffer without its last segment and the slash before it. */
  function DropLast(output: string): string {
    if output == "" then ""
    else if output[|output| - 1] == '/' then output[..|output| - 1]
    else DropLast(output[..|output| - 1])
  }

  /** The first segment of a path, after its slash, and the rest of the path. */
  function Head(path: string): (r: string)
    requires path != ""
    ensures '/' !in r
  {
    UpTo(path[1..], '/')
  }

  function Tail(path: string): (r: string)
    requires path != ""
    ensures |r| < |path| && IsPath(r) && path == [path[0]] + Head(path) + r
  {
    path[1 + |Head(path)|..]
  }

  /** Empty, or starting with a slash. */
  predicate IsPath(s: string) {
    s == "" || s[0] == '/'
  }

  /** The remove_dot_segments loop of section 5.2.4, from an input and an output buffer. */
  function RemoveDotSegments(input: string, output: string, encoded: bool): string
    decreases |input|
  {
    if input == "" then output
    else if input[0] != '/' then
      var segment := UpTo(input, '/');
      var rest := input[|segment|..];
      if IsDots(segment, ".", encoded) || IsDots(segment, "..", encoded) then
        RemoveDotSegments(if rest == "" then "" else rest[1..], output, encoded)
      else RemoveDotSegments(rest, output + segment, encoded)
    else
      var segment, rest := Head(input), Tail(input);
      if IsDots(segment, ".", encoded) then
        RemoveDotSegments(if rest == "" then "/" else rest, output, encoded)
      else if IsDots(segment, "..", encoded) then
        RemoveDotSegments(if rest == "" then "/" else rest, DropLast(output), encoded)
      else RemoveDotSegments(rest, output + "/" + segment, encoded)
  }

  datatype Reference = Reference(
    scheme: Option<string>,
    authority: Option<string>,
    path: string,
    query: Option<string>,
    fragment: Option<string>)

  /** The components of a reference, as the expression of appendix B divides them. */
  function Divide(s: string): Reference {
    var noFragment := UpTo(s, '#');
    var fragment := if From(s, '#') == "" then None else Some(From(s, '#')[1..]);
    var hier := UpTo(noFragment, '?');
    var query := if From(noFragment, '?') == "" then None else Some(From(noFragment, '?')[1..]);
    var head := UpTo(UpTo(hier, ':'), '/');
    var hasScheme := head != "" && |head| < |hier| && hier[|head|] == ':';
    var rest := if hasScheme then hier[|head| + 1..] else hier;
    var hasAuthority := "//" <= rest;
    var authority := if hasAuthority then UpTo(rest[2..], '/') else "";
    Reference(
      if hasScheme then Some(head) else None,
      if hasAuthority then Some(authority) else None,
      if hasAuthority then rest[2 + |authority|..] else rest,
      query,
      fragment)
  }

  /** Section 5.2.3. */
  function Merge(base: Reference, path: string): string {
    if base.authority.Some? && base.path == "" then "/" + path
    else DirectoryOf(base.path) + path
  }

  function DirectoryOf(path: string): string {
    if path == "" || path[|path| - 1] == '/' then path else DirectoryOf(path[..|path| - 1])
  }

  /** Section 5.2.2. */
  function Resolve(base: Reference, r: Reference, encoded: bool): Reference {
    if r.scheme.Some? then r.(path := RemoveDotSegments(r.path, "", encoded))
    else if r.authority.Some? then
      r.(scheme := base.scheme, path := RemoveDotSegments(r.path, "", encoded))
    else if r.path == "" then
      base.(query := if r.query.Some? then r.query else base.query, fragment := r.fragment)
    else
      var path := if "/" <= r.path then r.path else Merge(base, r.path);
      Reference(base.scheme, base.authority, RemoveDotSegments(path, "", encoded), r.query, r.fragment)
  }

  function Optional(prefix: string, part: Option<string>): string {
    match part case None => "" case Some(s) => prefix + s
  }

  /** Section 5.3. */
  function Recompose(r: Reference): string {
    (match r.scheme case None => "" case Some(s) => s + ":")
    + Optional("//", r.authority) + r.path + Optional("?", r.query) + Optional("#", r.fragment)
  }

  // ---------------------------------------------------------------- decoding keeps slashes apart

  /** The first byte of a text is the same when a path follows the text. */
  ghost predicate FirstAt(first: string -> Option<Decoded>, a: string, path: string) {
    a != "" && first(a + path).Some? ==>
      && first(a).Some?
      && first(a + path).value == Decoded(first(a).value.byte, first(a).value.rest + path)
  }

  lemma DecodeByteAt(a: string, path: string)
    requires path != "" && path[0] == '/'
    ensures FirstAt(DecodeByte, a, path)
  {
    var s := a + path;
    if a == "" || DecodeByte(s) == None {
    } else if a[0] != '%' {
      assert s[1..] == a[1..] + path;
    } else {
      assert s[|a|] == '/' && HexValue('/') == None;
      assert s[3..] == a[3..] + path;
    }
  }

  lemma {:induction false} DecodeAt(first: string -> Option<Decoded>, a: string, path: string)
    requires Shrinks(first) && (forall b :: FirstAt(first, b, path)) && DecodeWith(first, a + path).Some?
    ensures DecodeWith(first, a).Some? && DecodeWith(first, path).Some?
    ensures DecodeWith(first, a + path).value == DecodeWith(first, a).value + DecodeWith(first, path).value
    decreases |a|
  {
    if a == "" {
      assert a + path == path;
    } else {
      assert FirstAt(first, a, path);
      DecodeAt(first, first(a).value.rest, path);
    }
  }

  lemma UnescapeAt(a: string, path: string)
    requires path != "" && path[0] == '/' && Unescape(a + path).Some?
    ensures Unescape(a).Some? && Unescape(path).Some?
    ensures Unescape(a + path).value == Unescape(a).value + Unescape(path).value
  {
    forall b ensures FirstAt(DecodeByte, b, path) {
      DecodeByteAt(b, path);
    }
    DecodeAt(DecodeByte, a, path);
  }

  // ---------------------------------------------------------------- accepted paths are fixed points

  lemma {:induction false} UpToPrefix(front: string, rest: string)
    requires IsPath(rest)
    ensures UpTo(front + rest, '/') == UpTo(front, '/')
  {
    if front == "" {
      assert front + rest == rest;
    } else if front[0] != '/' {
      assert (front + rest)[1..] == front[1..] + rest;
      UpToPrefix(front[1..], rest);
    }
  }

  /** A segment put before a path is its head. */
  lemma HeadTail(segment: string, rest: string)
    requires '/' !in segment && IsPath(rest)
    ensures Head("/" + segment + rest) == segment && Tail("/" + segment + rest) == rest
  {
    var path := "/" + segment + rest;
    assert path[1..] == segment + rest;
    UpToPrefix(segment, rest);
  }

  /** A path with no dot segment. */
  predicate DotFree(path: string, encoded: bool)
    decreases |path|
  {
    path == ""
    || (&& path[0] == '/'
        && !IsDots(Head(path), ".", encoded) && !IsDots(Head(path), "..", encoded)
        && DotFree(Tail(path), encoded))
  }

  lemma Reassociate(a: string, b: string, c: string, d: string)
    ensures a + b + c + d == a + (b + c + d)
  {
  }

  lemma {:induction false} DotFreeIsFixed(path: string, output: string, encoded: bool)
    requires DotFree(path, encoded)
    ensures RemoveDotSegments(path, output, encoded) == output + path
    decreases |path|
  {
    if path != "" {
      DotFreeIsFixed(Tail(path), output + "/" + Head(path), encoded);
      Reassociate(output, "/", Head(path), Tail(path));
    }
  }

  lemma SplitAtHead(path: string)
    requires path != "" && path[0] == '/'
    ensures Split(path) == [""] + Split(path[1..])
    ensures Split(path[1..]) == [Head(path)] + if Tail(path) == "" then [] else Split(Tail(path)[1..])
  {
    var tail := path[1..];
    assert tail[|Head(path)|..] == Tail(path);
  }

  lemma SplitTail(path: string)
    requires path != "" && path[0] == '/'
    ensures Head(path) in Split(path)
    ensures forall x | x in Split(Tail(path)) :: x == "" || x in Split(path)
  {
    SplitAtHead(path);
    var after := Split(path[1..]);
    assert Split(path)[1] == after[0] == Head(path);
    if Tail(path) != "" {
      SplitAtHead(Tail(path));
      InTails(Split(path), after, Split(Tail(path)[1..]));
    }
  }

  lemma InTails(all: seq<string>, after: seq<string>, rest: seq<string>)
    requires |all| > 0 && all[1..] == after && |after| > 0 && after[1..] == rest
    ensures forall x | x in rest :: x in all
  {
    assert forall x | x in rest :: x in after;
  }

  /** A path whose segments Split finds to be no dots is dot-free. */
  lemma {:induction false} SplitDotFree(path: string)
    requires IsPath(path)
    requires forall segment | segment in Split(path) :: segment != "." && segment != ".."
    ensures DotFree(path, false)
    decreases |path|
  {
    if path != "" {
      SplitTail(path);
      SplitDotFree(Tail(path));
    }
  }

  /** What follows, from a slash on, in a dot-free path is dot-free. */
  lemma {:induction false} DotFreeAfter(front: string, rest: string, encoded: bool)
    requires DotFree(front + rest, encoded) && IsPath(front) && IsPath(rest)
    ensures DotFree(rest, encoded)
    decreases |front|
  {
    if front == "" {
      assert front + rest == rest;
    } else {
      SplitsOff(front, rest);
      DotFreeAfter(Tail(front), rest, encoded);
    }
  }

  lemma SplitsOff(front: string, rest: string)
    requires front != "" && front[0] == '/' && IsPath(rest)
    ensures Head(front + rest) == Head(front) && Tail(front + rest) == Tail(front) + rest
  {
    assert (front + rest)[1..] == front[1..] + rest;
    UpToPrefix(front[1..], rest);
  }

  lemma PathDecodes(s: string)
    requires IsPath(s) && Unescape(s).Some?
    ensures IsPath(Unescape(s).value) && (s == "" <==> Unescape(s).value == "")
  {
  }

  lemma SlashDecodes(rest: string)
    requires Unescape("/" + rest).Some?
    ensures Unescape(rest).Some? && Unescape("/" + rest).value == "/" + Unescape(rest).value
  {
    assert ("/" + rest)[1..] == rest;
    assert DecodeByte("/" + rest) == Some(Decoded('/', rest));
  }

  lemma HeadAndTail(path: string)
    requires path != "" && path[0] == '/'
    ensures path == "/" + (Head(path) + Tail(path))
  {
  }

  /** Decoding a path decodes its head and its tail. */
  lemma UnescapePath(raw: string)
    requires raw != "" && raw[0] == '/' && Unescape(raw).Some?
    ensures Unescape(Head(raw)).Some? && Unescape(Tail(raw)).Some?
    ensures Unescape(raw).value == "/" + (Unescape(Head(raw)).value + Unescape(Tail(raw)).value)
  {
    var head, tail := Head(raw), Tail(raw);
    HeadAndTail(raw);
    SlashDecodes(head + tail);
    if tail == "" {
      assert head + tail == head;
    } else {
      UnescapeAt(head, tail);
    }
  }

  /** A segment that decodes to dots would show in the decoded path. */
  lemma DecodedHead(segment: string, rest: string)
    requires IsPath(rest) && DotFree("/" + (segment + rest), false)
    ensures segment != "." && segment != ".."
  {
    if '/' !in segment {
      assert "/" + (segment + rest) == "/" + segment + rest;
      HeadTail(segment, rest);
    }
  }

  /** A path dot-free once decoded is dot-free as sent, whether or not encoded dots count. */
  lemma {:induction false} RawDotFree(raw: string, encoded: bool)
    requires IsPath(raw)
    requires Unescape(raw).Some? && DotFree(Unescape(raw).value, false)
    ensures DotFree(raw, encoded)
    decreases |raw|
  {
    if raw != "" {
      UnescapePath(raw);
      var segment, rest := Unescape(Head(raw)).value, Unescape(Tail(raw)).value;
      PathDecodes(Tail(raw));
      DecodedHead(segment, rest);
      assert "/" + (segment + rest) == ("/" + segment) + rest;
      DotFreeAfter("/" + segment, rest, false);
      RawDotFree(Tail(raw), encoded);
      PlainDots(Head(raw));
    }
  }

  lemma UnescapePlain(c: char, rest: string)
    requires c != '%' && Unescape(rest).Some?
    ensures Unescape([c] + rest) == Some([c] + Unescape(rest).value)
  {
    assert ([c] + rest)[1..] == rest;
  }

  /** Plain dots decode to themselves. */
  lemma PlainDots(segment: string)
    requires Unescape(segment) != Some(".") && Unescape(segment) != Some("..")
    ensures segment != "." && segment != ".."
  {
    UnescapePlain('.', "");
    UnescapePlain('.', ['.'] + "");
    assert ['.'] + "" == "." && ['.'] + "." == "..";
  }

  /**
   Only fixed points are accepted: removing dot segments leaves both the path as sent, even when
   percent-encoded dots count as dots, and the decoded path as they are.
   */
  lemma AcceptedIsFixedPoint(candidate: string, encoded: bool)
    requires IsSafe(candidate)
    ensures RemoveDotSegments(RawPath(candidate), "", encoded) == RawPath(candidate)
    ensures var path := Unescape(RawPath(candidate)).value; RemoveDotSegments(path, "", false) == path
  {
    var raw := RawPath(candidate);
    var path := Unescape(raw).value;
    assert raw[0] == '/';
    PathDecodes(raw);
    SplitDotFree(path);
    RawDotFree(raw, encoded);
    DotFreeIsFixed(raw, "", encoded);
    DotFreeIsFixed(path, "", false);
  }

  lemma UpToFrom(s: string, c: char)
    ensures s == UpTo(s, c) + From(s, c)
    ensures From(s, c) == Optional([c], if From(s, c) == "" then None else Some(From(s, c)[1..]))
  {
  }

  /** A path that starts with one slash has neither a scheme nor an authority. */
  lemma NoSchemeOrAuthority(candidate: string)
    requires "/" <= candidate && !("//" <= candidate)
    ensures var r := Divide(candidate);
            r.scheme == None && r.authority == None && r.path == RawPath(candidate) && r.path[..1] == "/"
  {
    var hier := RawPath(candidate);
    assert hier[0] == '/' && UpTo(UpTo(hier, ':'), '/') == "";
    assert hier == candidate[..|hier|];
  }

  lemma DividedAccepted(candidate: string)
    requires "/" <= candidate && !("//" <= candidate)
    ensures var r := Divide(candidate);
            r.path + Optional("?", r.query) + Optional("#", r.fragment) == candidate
  {
    NoSchemeOrAuthority(candidate);
    UpToFrom(candidate, '#');
    UpToFrom(BeforeFragment(candidate), '?');
  }

  lemma Concat5(a: string, b: string, c: string, d: string, e: string)
    ensures a + b + c + d + e == a + b + (c + d + e)
  {
  }

  /**
   Resolving an accepted candidate against any page of the site keeps the page's scheme and
   authority and lands on exactly the candidate: nothing of its path, query or fragment changes.
   */
  lemma AcceptedStaysOnSite(base: Reference, candidate: string, encoded: bool)
    requires IsSafe(candidate) && base.scheme.Some? && base.authority.Some?
    ensures var target := Resolve(base, Divide(candidate), encoded);
            && target.scheme == base.scheme && target.authority == base.authority
            && Recompose(target) == base.scheme.value + ":" + ("//" + base.authority.value) + candidate
  {
    NoSchemeOrAuthority(candidate);
    DividedAccepted(candidate);
    AcceptedIsFixedPoint(candidate, encoded);
    var r := Divide(candidate);
    Concat5(base.scheme.value + ":", "//" + base.authority.value, r.path,
            Optional("?", r.query), Optional("#", r.fragment));
  }

  /**
   An accepted candidate has exactly one leading slash, and nothing that a browser would read as a slash,
   or drop: no backslash in its path, encoded or not, and no tab or line break before its fragment.
   */
  lemma AcceptedHasNoTricks(candidate: string)
    requires IsSafe(candidate)
    ensures candidate[0] == '/' && (|candidate| > 1 ==> candidate[1] != '/' && candidate[1] != '\\')
    ensures '\\' !in RawPath(candidate) && '\\' !in Unescape(RawPath(candidate)).value
    ensures forall c | c in BeforeFragment(candidate) :: c != '\t' && c != '\n' && c != '\r'
  {
    BackslashDecodes(RawPath(candidate));
    if |candidate| > 1 {
      assert candidate[..2] == [candidate[0], candidate[1]];
    }
  }

  lemma {:induction false} BackslashDecodes(s: string)
    requires Unescape(s).Some? && '\\' !in Unescape(s).value
    ensures '\\' !in s
  {
    if s != "" && s[0] != '%' {
      var rest := Unescape(s[1..]).value;
      assert Unescape(s).value == [s[0]] + rest;
      assert forall c | c in rest :: c in Unescape(s).value;
      assert s[0] == Unescape(s).value[0];
      BackslashDecodes(s[1..]);
    } else if s != "" {
      var rest := Unescape(s[3..]).value;
      assert Unescape(s).value == [HexByte(s[1], s[2]).value] + rest;
      assert forall c | c in rest :: c in Unescape(s).value;
      BackslashDecodes(s[3..]);
      assert HexValue('\\') == None;
      assert s == [s[0], s[1], s[2]] + s[3..];
    }
  }

  /** Checking twice changes nothing, and the result is safe whenever the fallback is. */
  lemma SafeReturnToIdempotent(candidate: string, fallback: string)
    ensures var r := SafeReturnTo(candidate, fallback);
            SafeReturnTo(r, fallback) == r && (IsSafe(fallback) ==> IsSafe(r))
  {
  }

  /** The fallback in use is itself safe. */
  lemma RootIsSafe()
    ensures IsSafe("/")
  {
    assert BeforeFragment("/") == "/" && RawPath("/") == "/" && Fragment("/") == "";
    assert Unescape("/") == Some("/");
    assert Split("/") == ["", ""];
  }
}
