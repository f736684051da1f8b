/** What safeReturnTo (server/internal/handler/auth.go) takes and what it does not, byte by byte. */
module ReturnToExact {
  import opened Prelude
  import opened ReturnTo

  // ---------------------------------------------------------------- percent-encoding

  predicate IsHex(c: char) {
    '0' <= c <= '9' || 'a' <= c <= 'f' || 'A' <= c <= 'F'
  }

  lemma HexExactly(hi: char, lo: char)
    ensures HexByte(hi, lo).Some? <==> IsHex(hi) && IsHex(lo)
  {
  }

  /** A percent sign at i starts an encoded byte. */
  predicate PairedAt(s: string, i: nat) {
    i < |s| && s[i] == '%' ==> i + 2 < |s| && IsHex(s[i + 1]) && IsHex(s[i + 2])
  }

  /** Each percent sign comes before two hexadecimal digits. */
  ghost predicate PercentsPaired(s: string) {
    forall i: nat :: PairedAt(s, i)
  }

  lemma PairedTail(s: string, k: nat)
    requires k <= |s|
    ensures PercentsPaired(s) ==> PercentsPaired(s[k..])
    ensures PercentsPaired(s[k..]) && (forall i: nat | i < k :: PairedAt(s, i)) ==> PercentsPaired(s)
  {
    assert forall i: nat :: PairedAt(s, i + k) <==> PairedAt(s[k..], i);
    forall i: nat | PercentsPaired(s[k..]) && i >= k ensures PairedAt(s, i) {
      assert PairedAt(s[k..], i - k);
    }
  }

  /** How Unescape takes the first byte of a text that has one. */
  lemma UnescapeFirst(s: string)
    requires s != ""
    ensures s[0] != '%' ==>
              Unescape(s) == match Unescape(s[1..]) case None => None case Some(rest) => Some([s[0]] + rest)
    ensures s[0] == '%' && (|s| < 3 || HexByte(s[1], s[2]).None?) ==> Unescape(s) == None
    ensures s[0] == '%' && |s| >= 3 && HexByte(s[1], s[2]).Some? ==>
              Unescape(s)
              == match Unescape(s[3..]) case None => None case Some(rest) => Some([HexByte(s[1], s[2]).value] + rest)
  {
  }

  /** A text decodes exactly when each of its percent signs comes before two hexadecimal digits. */
  lemma {:induction false} DecodesExactly(s: string)
    ensures Unescape(s).Some? <==> PercentsPaired(s)
    decreases |s|
  {
    if s != "" {
      UnescapeFirst(s);
      assert PercentsPaired(s) ==> PairedAt(s, 0);
      if s[0] != '%' {
        DecodesExactly(s[1..]);
        PairedTail(s, 1);
      } else if |s| >= 3 {
        HexExactly(s[1], s[2]);
        DecodesExactly(s[3..]);
        PairedTail(s, 3);
      }
    }
  }

  function HexDigits(upper: bool): string {
    if upper then "0123456789ABCDEF" else "0123456789abcdef"
  }

  /** The digit stands for the value, in either case. */
  predicate DigitIs(digit: char, value: int) {
    0 <= value < 16 && (digit == HexDigits(false)[value] || digit == HexDigits(true)[value])
  }

  lemma DigitExactly(digit: char, value: int)
    ensures HexValue(digit) == Some(value) <==> DigitIs(digit, value)
  {
  }

  /** The piece is the byte itself, unless that is a percent sign, or the byte's two digits after a percent sign. */
  predicate IsPiece(piece: string, byte: char) {
    || (piece == [byte] && byte != '%')
    || (&& |piece| == 3 && piece[0] == '%' && byte as int < 256
        && DigitIs(piece[1], byte as int / 16) && DigitIs(piece[2], byte as int % 16))
  }

  function Joined(pieces: seq<string>): string {
    if pieces == [] then "" else pieces[0] + Joined(pieces[1..])
  }

  /** raw is text with some of its bytes percent-encoded. */
  ghost predicate Encodes(raw: string, text: string, pieces: seq<string>) {
    && |pieces| == |text| && raw == Joined(pieces)
    && forall i | 0 <= i < |text| :: IsPiece(pieces[i], text[i])
  }

  lemma PieceDecodes(piece: string, byte: char, rest: string)
    requires IsPiece(piece, byte)
    ensures Unescape(piece + rest) == match Unescape(rest) case None => None case Some(r) => Some([byte] + r)
  {
    var s := piece + rest;
    UnescapeFirst(s);
    assert s[|piece|..] == rest;
    if |piece| == 3 {
      DigitExactly(piece[1], byte as int / 16);
      DigitExactly(piece[2], byte as int % 16);
    }
  }

  lemma {:induction false} EncodingDecodes(raw: string, text: string, pieces: seq<string>)
    requires Encodes(raw, text, pieces)
    ensures Unescape(raw) == Some(text)
    decreases |pieces|
  {
    if pieces != [] {
      PieceDecodes(pieces[0], text[0], Joined(pieces[1..]));
      EncodingDecodes(Joined(pieces[1..]), text[1..], pieces[1..]);
      assert [text[0]] + text[1..] == text;
    }
  }

  lemma HexPiece(hi: char, lo: char)
    requires HexByte(hi, lo).Some?
    ensures IsPiece(['%', hi, lo], HexByte(hi, lo).value)
  {
    var byte := HexByte(hi, lo).value as int;
    HexParts(HexValue(hi).value, HexValue(lo).value);
    DigitExactly(hi, byte / 16);
    DigitExactly(lo, byte % 16);
  }

  lemma HexParts(h: int, l: int)
    requires 0 <= l < 16
    ensures (16 * h + l) / 16 == h && (16 * h + l) % 16 == l
  {
  }

  lemma FirstPiece(s: string, text: string) returns (piece: string)
    requires Unescape(s) == Some(text) && s != ""
    ensures text != "" && IsPiece(piece, text[0])
    ensures piece != "" && piece <= s && Unescape(s[|piece|..]) == Some(text[1..])
  {
    UnescapeFirst(s);
    if s[0] != '%' {
      piece := [s[0]];
    } else {
      piece := [s[0], s[1], s[2]];
      HexPiece(s[1], s[2]);
    }
  }

  lemma {:induction false} PiecesOf(raw: string, text: string) returns (pieces: seq<string>)
    requires Unescape(raw) == Some(text)
    ensures Encodes(raw, text, pieces)
    decreases |raw|
  {
    if raw == "" {
      pieces := [];
    } else {
      var piece := FirstPiece(raw, text);
      var rest := PiecesOf(raw[|piece|..], text[1..]);
      pieces := [piece] + rest;
      assert pieces[1..] == rest && raw == piece + raw[|piece|..];
    }
  }

  /** Percent-decoding is what undoes percent-encoding, of whichever bytes and in either case. */
  lemma UnescapeExactly(raw: string, text: string)
    ensures Unescape(raw) == Some(text) <==> exists pieces :: Encodes(raw, text, pieces)
  {
    if Unescape(raw) == Some(text) {
      var pieces := PiecesOf(raw, text);
    }
    forall pieces | Encodes(raw, text, pieces) ensures Unescape(raw) == Some(text) {
      EncodingDecodes(raw, text, pieces);
    }
  }

  // ---------------------------------------------------------------- segments

  /** From i to j, path has a segment: it has no slash, and is between slashes or the ends. */
  predicate SegmentAt(path: string, i: nat, j: nat) {
    && i <= j <= |path| && '/' !in path[i..j]
    && (i == 0 || path[i - 1] == '/') && (j == |path| || path[j] == '/')
  }

  ghost predicate HasSegment(path: string, segment: string) {
    exists i: nat, j: nat :: SegmentAt(path, i, j) && path[i..j] == segment
  }

  lemma FirstSegment(path: string, j: nat)
    requires SegmentAt(path, 0, j)
    ensures UpTo(path, '/') == path[0..j]
  {
    assert |UpTo(path, '/')| == j;
  }

  lemma SegmentAfter(path: string, k: nat, i: nat, j: nat)
    requires k < |path| && path[k] == '/'
    requires i <= j && k + 1 + j <= |path|
    ensures SegmentAt(path[k + 1..], i, j) <==> SegmentAt(path, k + 1 + i, k + 1 + j)
    ensures path[k + 1..][i..j] == path[k + 1 + i..k + 1 + j]
  {
    var rest := path[k + 1..];
    assert rest[i..j] == path[k + 1 + i..k + 1 + j];
    assert i > 0 ==> rest[i - 1] == path[k + i];
    assert j < |rest| ==> rest[j] == path[k + 1 + j];
  }

  /** The first segment comes before the first slash, and is the only one of a path without any. */
  lemma HasFirst(path: string)
    ensures HasSegment(path, UpTo(path, '/'))
    ensures UpTo(path, '/') == path ==> forall segment | HasSegment(path, segment) :: segment == path
  {
    var k := |UpTo(path, '/')|;
    assert path[0..k] == UpTo(path, '/') && SegmentAt(path, 0, k);
    if UpTo(path, '/') == path {
      forall i: nat, j: nat | SegmentAt(path, i, j) ensures path[i..j] == path {
        OnlySegment(path, i, j);
      }
    }
  }

  lemma OnlySegment(path: string, i: nat, j: nat)
    requires SegmentAt(path, i, j) && '/' !in path
    ensures i == 0 && j == |path| && path[i..j] == path
  {
  }

  lemma SegmentsUp(path: string, i: nat, j: nat)
    requires var k := |UpTo(path, '/')|; k < |path| && SegmentAt(path[k + 1..], i, j)
    ensures HasSegment(path, path[|UpTo(path, '/')| + 1..][i..j])
  {
    var k := |UpTo(path, '/')|;
    SegmentAfter(path, k, i, j);
  }

  lemma SegmentsDown(path: string, i: nat, j: nat)
    requires |UpTo(path, '/')| < |path| && SegmentAt(path, i, j)
    ensures path[i..j] == UpTo(path, '/') || HasSegment(path[|UpTo(path, '/')| + 1..], path[i..j])
  {
    var k := |UpTo(path, '/')|;
    if i == 0 {
      FirstSegment(path, j);
    } else {
      SlashesFrom(path, i - 1);
      SegmentAfter(path, k, i - k - 1, j - k - 1);
    }
  }

  lemma HasAfter(path: string, segment: string)
    requires |UpTo(path, '/')| < |path| && HasSegment(path[|UpTo(path, '/')| + 1..], segment)
    ensures HasSegment(path, segment)
  {
    var rest := path[|UpTo(path, '/')| + 1..];
    var i: nat, j: nat :| SegmentAt(rest, i, j) && rest[i..j] == segment;
    SegmentsUp(path, i, j);
  }

  lemma HasEither(path: string, segment: string)
    requires |UpTo(path, '/')| < |path| && HasSegment(path, segment)
    ensures segment == UpTo(path, '/') || HasSegment(path[|UpTo(path, '/')| + 1..], segment)
  {
    var i: nat, j: nat :| SegmentAt(path, i, j) && path[i..j] == segment;
    SegmentsDown(path, i, j);
  }

  /** The segments Split finds are all there are: of a path with a slash, the first, and those after the slash. */
  lemma {:induction false} SplitExactly(path: string, segment: string)
    ensures segment in Split(path) <==> HasSegment(path, segment)
    decreases |path|
  {
    var first := UpTo(path, '/');
    HasFirst(path);
    if |first| < |path| {
      var rest := path[|first| + 1..];
      SplitExactly(rest, segment);
      InFront(first, Split(rest), segment);
      if HasSegment(path, segment) {
        HasEither(path, segment);
      }
      if HasSegment(rest, segment) {
        HasAfter(path, segment);
      }
    }
  }

  lemma InFront(first: string, rest: seq<string>, segment: string)
    ensures segment in [first] + rest <==> segment == first || segment in rest
  {
  }

  /** No slash comes before the first. */
  lemma SlashesFrom(path: string, i: nat)
    requires i < |path| && path[i] == '/'
    ensures |UpTo(path, '/')| <= i
  {
  }

  // ---------------------------------------------------------------- what is accepted

  /** No backslash, and no segment that is one or two dots. */
  ghost predicate Lands(path: string) {
    '\\' !in path && !HasSegment(path, ".") && !HasSegment(path, "..")
  }

  /**
   Exactly these are accepted, of all strings: at most 1024 bytes, one leading slash that no backslash follows, no
   control character before the fragment, percent signs that encode bytes in path and fragment, and in the decoded
   path no backslash and no dot segment. Anything else gives the fallback.
   */
  lemma AcceptedExactly(candidate: string, fallback: string)
    ensures IsSafe(candidate)
            <==> && 1 <= |candidate| <= 1024
                 && candidate[0] == '/' && (|candidate| > 1 ==> candidate[1] != '/' && candidate[1] != '\\')
                 && (forall c | c in BeforeFragment(candidate) :: ' ' <= c && c != 0x7f as char)
                 && PercentsPaired(RawPath(candidate)) && PercentsPaired(Fragment(candidate))
                 && forall path, pieces | Encodes(RawPath(candidate), path, pieces) :: Lands(path)
    ensures SafeReturnTo(candidate, fallback) == if IsSafe(candidate) then candidate else fallback
  {
    LeadingSlash(candidate);
    var raw := RawPath(candidate);
    DecodesExactly(raw);
    DecodesExactly(Fragment(candidate));
    if Unescape(raw).Some? {
      var path := Unescape(raw).value;
      SplitExactly(path, ".");
      SplitExactly(path, "..");
      var pieces := PiecesOf(raw, path);
      forall path', pieces' | Encodes(raw, path', pieces') ensures path' == path {
        EncodingDecodes(raw, path', pieces');
      }
    }
  }

  lemma LeadingSlash(s: string)
    ensures "/" <= s && !("//" <= s) && !("/\\" <= s)
            <==> |s| > 0 && s[0] == '/' && (|s| > 1 ==> s[1] != '/' && s[1] != '\\')
  {
    if |s| > 1 {
      assert s[..2] == [s[0], s[1]];
    }
  }
}
