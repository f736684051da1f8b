/** CSRF token masking (server/internal/session/csrf.go). */
module Csrf {
  import opened Prelude

  // ---------------------------------------------------------------- base64.RawURLEncoding

  /** The URL-safe alphabet of section 5 of RFC 4648, as ASCII codes. */
  function Digit(sextet: bv8): bv8
    requires sextet < 64
  {
    if sextet < 26 then sextet + 65
    else if sextet < 52 then sextet + 71
    else if sextet < 62 then sextet - 4
    else if sextet == 62 then 45
    else 95
  }

  function Value(digit: bv8): (s: Option<bv8>)
    ensures s.Some? ==> s.value < 64 && Digit(s.value) == digit
  {
    if 65 <= digit <= 90 then Some(digit - 65)
    else if 97 <= digit <= 122 then Some(digit - 71)
    else if 48 <= digit <= 57 then Some(digit + 4)
    else if digit == 45 then Some(62)
    else if digit == 95 then Some(63)
    else None
  }

  // The four sextets of three bytes x, y and z.
  function Sextet0(x: bv8): (s: bv8) ensures s < 64 { x >> 2 }
  function Sextet1(x: bv8, y: bv8): (s: bv8) ensures s < 64 { ((x & 3) << 4) | (y >> 4) }
  function Sextet2(y: bv8, z: bv8): (s: bv8) ensures s < 64 { ((y & 15) << 2) | (z >> 6) }
  function Sextet3(z: bv8): (s: bv8) ensures s < 64 { z & 63 }

  /** Without padding: three bytes give four sextets, and one or two left over two or three. */
  function Split(b: Bytes): (s: seq<bv8>)
    ensures forall i | 0 <= i < |s| :: s[i] < 64
  {
    if b == [] then []
    else if |b| == 1 then [Sextet0(b[0]), Sextet1(b[0], 0)]
    else if |b| == 2 then [Sextet0(b[0]), Sextet1(b[0], b[1]), Sextet2(b[1], 0)]
    else [Sextet0(b[0]), Sextet1(b[0], b[1]), Sextet2(b[1], b[2]), Sextet3(b[2])] + Split(b[3..])
  }

  function Base64(b: Bytes): Bytes {
    seq(|Split(b)|, i requires 0 <= i < |Split(b)| => Digit(Split(b)[i]))
  }

  predicate IsNewline(c: bv8) {
    c == 10 || c == 13
  }

  /** Go's decoder skips CR and LF wherever they stand. */
  function DropNewlines(m: Bytes): Bytes {
    if m == [] then []
    else (if IsNewline(m[0]) then [] else [m[0]]) + DropNewlines(m[1..])
  }

  predicate AreDigits(m: Bytes) {
    forall i | 0 <= i < |m| :: Value(m[i]).Some?
  }

  function Values(m: Bytes): seq<bv8>
    requires AreDigits(m)
  {
    seq(|m|, i requires 0 <= i < |m| => Value(m[i]).value)
  }

  // The three bytes of four sextets p, q, r and s.
  function Byte0(p: bv8, q: bv8): bv8 { (p << 2) | (q >> 4) }
  function Byte1(q: bv8, r: bv8): bv8 { (q << 4) | (r >> 2) }
  function Byte2(r: bv8, s: bv8): bv8 { (r << 6) | s }

  /** Regroups sextets as bytes; bits left over in the last sextet are not looked at. */
  function Regroup(s: seq<bv8>): Option<Bytes> {
    if s == [] then Some([])
    else if |s| == 1 then None
    else if |s| == 2 then Some([Byte0(s[0], s[1])])
    else if |s| == 3 then Some([Byte0(s[0], s[1]), Byte1(s[1], s[2])])
    else
      match Regroup(s[4..])
      case None => None
      case Some(rest) => Some([Byte0(s[0], s[1]), Byte1(s[1], s[2]), Byte2(s[2], s[3])] + rest)
  }

  function Unbase64(m: Bytes): Option<Bytes> {
    var digits := DropNewlines(m);
    if AreDigits(digits) then Regroup(Values(digits)) else None
  }

  // ---------------------------------------------------------------- masking

  /** subtle.XORBytes on slices of one length. */
  function Xor(a: Bytes, b: Bytes): (c: Bytes)
    requires |a| == |b|
    ensures |c| == |a|
  {
    seq(|a|, i requires 0 <= i < |a| => a[i] ^ b[i])
  }

  method XorBytes(dst: array<bv8>, start: nat, x: Bytes, y: Bytes)
    requires |x| == |y| && start + |x| <= dst.Length
    modifies dst
    ensures dst[..] == old(dst[..start]) + Xor(x, y) + old(dst[start + |x|..])
  {
    for i := 0 to |x|
      invariant dst[..start] == old(dst[..start])
      invariant dst[start..start + i] == Xor(x, y)[..i]
      invariant dst[start + i..] == old(dst[start + i..])
    {
      dst[start + i] := x[i] ^ y[i];
      assert dst[start..start + i + 1] == dst[start..start + i] + [x[i] ^ y[i]];
    }
    assert dst[..] == dst[..start] + dst[start..start + |x|] + dst[start + |x|..];
  }

  /** mask: otp, the bytes rand.Read returns, followed by the token under it. */
  function Masked(otp: Bytes, token: Bytes): Bytes
    requires |otp| == |token|
  {
    otp + Xor(otp, token)
  }

  method Mask(token: Bytes, otp: Bytes) returns (masked: array<bv8>)
    requires |otp| == |token|
    ensures fresh(masked) && masked[..] == Masked(otp, token)
  {
    var n := |token|;
    masked := new bv8[2 * n];
    for i := 0 to n
      invariant masked[..i] == otp[..i]
    {
      masked[i] := otp[i];
    }
    XorBytes(masked, n, otp, token);
    assert masked[..n] == otp;
  }

  function Unmasked(b: Bytes): Option<Bytes> {
    if |b| % 2 != 0 then None
    else Some(Xor(b[..|b| / 2], b[|b| / 2..]))
  }

  method Unmask(b: Bytes) returns (token: array?<bv8>)
    ensures if token == null then Unmasked(b) == None else Unmasked(b) == Some(token[..])
  {
    if |b| % 2 != 0 {
      return null;
    }
    var n := |b| / 2;
    token := new bv8[n];
    XorBytes(token, 0, b[..n], b[n..]);
    assert token[..] == Xor(b[..n], b[n..]);
  }

  function MaskToken(token: Bytes, otp: Bytes): Bytes
    requires |otp| == |token|
  {
    Base64(Masked(otp, token))
  }

  predicate VerifyToken(token: Bytes, masked: Bytes) {
    && token != []
    && var b := Unbase64(masked);
       b.Some? && |b.value| == 2 * |token| && Unmasked(b.value) == Some(token)
  }

  // ---------------------------------------------------------------- the encoding round-trips

  lemma ValueOfDigit(x: bv8)
    requires x < 64
    ensures Value(Digit(x)) == Some(x) && !IsNewline(Digit(x))
  {
  }

  lemma Bytes0(x: bv8, y: bv8)
    ensures Byte0(Sextet0(x), Sextet1(x, y)) == x && Sextet1(x, 0) & 15 == 0
  {
  }

  lemma Bytes1(x: bv8, y: bv8, z: bv8)
    ensures Byte1(Sextet1(x, y), Sextet2(y, z)) == y && Sextet2(y, 0) & 3 == 0
  {
  }

  lemma Bytes2(y: bv8, z: bv8)
    ensures Byte2(Sextet2(y, z), Sextet3(z)) == z
  {
  }

  lemma Sextets0(p: bv8, q: bv8)
    requires p < 64 && q < 64
    ensures Sextet0(Byte0(p, q)) == p
  {
  }

  lemma Sextets1(p: bv8, q: bv8, r: bv8)
    requires p < 64 && q < 64 && r < 64
    ensures Sextet1(Byte0(p, q), Byte1(q, r)) == q && (q & 15 == 0 ==> Sextet1(Byte0(p, q), 0) == q)
  {
  }

  lemma Sextets2(q: bv8, r: bv8, s: bv8)
    requires q < 64 && r < 64 && s < 64
    ensures Sextet2(Byte1(q, r), Byte2(r, s)) == r && (r & 3 == 0 ==> Sextet2(Byte1(q, r), 0) == r)
  {
  }

  lemma Sextets3(r: bv8, s: bv8)
    requires r < 64 && s < 64
    ensures Sextet3(Byte2(r, s)) == s
  {
  }

  /** The bits decoding does not look at are zero. */
  predicate ZeroLeftOver(s: seq<bv8>) {
    && (|s| % 4 == 2 ==> s[|s| - 1] & 15 == 0)
    && (|s| % 4 == 3 ==> s[|s| - 1] & 3 == 0)
  }

  lemma RegroupFour(s: seq<bv8>)
    requires |s| >= 4 && Regroup(s[4..]).Some?
    ensures Regroup(s) == Some([Byte0(s[0], s[1]), Byte1(s[1], s[2]), Byte2(s[2], s[3])] + Regroup(s[4..]).value)
  {
  }

  lemma RegroupShort(b: Bytes)
    requires |b| < 3
    ensures Regroup(Split(b)) == Some(b)
  {
    if |b| == 1 {
      Bytes0(b[0], 0);
      assert b == [b[0]];
    } else if |b| == 2 {
      Bytes0(b[0], b[1]);
      Bytes1(b[0], b[1], 0);
      assert b == [b[0], b[1]];
    }
  }

  lemma {:induction false} RegroupSplit(b: Bytes)
    ensures Regroup(Split(b)) == Some(b)
  {
    if |b| < 3 {
      RegroupShort(b);
    } else {
      var s := Split(b);
      var tail := Split(b[3..]);
      assert s == [Sextet0(b[0]), Sextet1(b[0], b[1]), Sextet2(b[1], b[2]), Sextet3(b[2])] + tail;
      RegroupSplit(b[3..]);
      assert s[4..] == tail;
      RegroupFour(s);
      Bytes0(b[0], b[1]);
      Bytes1(b[0], b[1], b[2]);
      Bytes2(b[1], b[2]);
      assert b == [b[0], b[1], b[2]] + b[3..];
    }
  }

  lemma {:induction false} SplitLeavesZeros(b: Bytes)
    ensures ZeroLeftOver(Split(b))
    ensures |b| >= 3 ==> |Split(b)| == 4 + |Split(b[3..])|
  {
    if |b| >= 3 {
      SplitLeavesZeros(b[3..]);
      assert |Split(b)| % 4 == |Split(b[3..])| % 4;
      assert Split(b[3..]) != [] ==> Split(b)[|Split(b)| - 1] == Split(b[3..])[|Split(b[3..])| - 1];
    } else if |b| == 1 {
      Bytes0(b[0], 0);
    } else if |b| == 2 {
      Bytes1(b[0], b[1], 0);
    }
  }

  lemma {:induction false} SplitRegroup(s: seq<bv8>)
    requires (forall i | 0 <= i < |s| :: s[i] < 64) && Regroup(s).Some? && ZeroLeftOver(s)
    ensures Split(Regroup(s).value) == s
  {
    if |s| == 2 {
      Sextets0(s[0], s[1]);
      Sextets1(s[0], s[1], 0);
    } else if |s| == 3 {
      Sextets0(s[0], s[1]);
      Sextets1(s[0], s[1], s[2]);
      Sextets2(s[1], s[2], 0);
    } else if s != [] {
      Sextets0(s[0], s[1]);
      Sextets1(s[0], s[1], s[2]);
      Sextets2(s[1], s[2], s[3]);
      Sextets3(s[2], s[3]);
      SplitRegroup(s[4..]);
      assert Regroup(s).value[3..] == Regroup(s[4..]).value;
    }
  }

  lemma {:induction false} NothingDropped(m: Bytes)
    requires forall i | 0 <= i < |m| :: !IsNewline(m[i])
    ensures DropNewlines(m) == m
  {
    if m != [] {
      NothingDropped(m[1..]);
    }
  }

  lemma {:induction false} DroppedAppended(m: Bytes, c: bv8)
    requires IsNewline(c)
    ensures DropNewlines(m + [c]) == DropNewlines(m)
  {
    if m != [] {
      DroppedAppended(m[1..], c);
      assert (m + [c])[1..] == m[1..] + [c];
    }
  }

  /** The text is one that encoding gives: no newlines, and no bits that decoding would ignore. */
  predicate Canonical(m: Bytes) {
    && (forall i | 0 <= i < |m| :: !IsNewline(m[i]))
    && (AreDigits(m) ==> ZeroLeftOver(Values(m)))
  }

  /** Decoding undoes encoding, and canonical text is all that encoding gives. */
  lemma DecodeEncoded(b: Bytes)
    ensures Unbase64(Base64(b)) == Some(b) && Canonical(Base64(b))
  {
    var m := Base64(b);
    forall i | 0 <= i < |m| ensures Value(m[i]) == Some(Split(b)[i]) && !IsNewline(m[i]) {
      ValueOfDigit(Split(b)[i]);
    }
    NothingDropped(m);
    assert Values(m) == Split(b);
    RegroupSplit(b);
    SplitLeavesZeros(b);
  }

  lemma EncodeDecoded(m: Bytes)
    requires Canonical(m) && Unbase64(m).Some?
    ensures Base64(Unbase64(m).value) == m
  {
    NothingDropped(m);
    SplitRegroup(Values(m));
  }

  // ---------------------------------------------------------------- what verification promises

  lemma XorTwice(a: Bytes, b: Bytes)
    requires |a| == |b|
    ensures Xor(a, Xor(a, b)) == b
  {
    forall i | 0 <= i < |a| ensures a[i] ^ (a[i] ^ b[i]) == b[i] {
      XorBits(a[i], b[i]);
    }
  }

  lemma XorBits(a: bv8, b: bv8)
    ensures a ^ (a ^ b) == b
  {
  }

  lemma UnmaskMasked(otp: Bytes, token: Bytes)
    requires |otp| == |token|
    ensures Unmasked(Masked(otp, token)) == Some(token)
  {
    var b := Masked(otp, token);
    assert b[..|b| / 2] == otp && b[|b| / 2..] == Xor(otp, token);
    XorTwice(otp, token);
  }

  /** The text decodes to twice the token's length, in halves that XOR to the token. */
  ghost predicate DecodesToMasking(token: Bytes, masked: Bytes) {
    exists otp: Bytes :: |otp| == |token| && Unbase64(masked) == Some(Masked(otp, token))
  }

  /** Verification accepts exactly the text that decodes to a masking of a non-empty token. */
  lemma VerifiesExactly(token: Bytes, masked: Bytes)
    ensures VerifyToken(token, masked) <==> token != [] && DecodesToMasking(token, masked)
  {
    if VerifyToken(token, masked) {
      var b := Unbase64(masked).value;
      var otp, rest := b[..|token|], b[|token|..];
      XorTwice(otp, rest);
      assert b == Masked(otp, token);
    }
    forall otp: Bytes | |otp| == |token| && Unbase64(masked) == Some(Masked(otp, token))
      ensures Unmasked(Masked(otp, token)) == Some(token)
    {
      UnmaskMasked(otp, token);
    }
  }

  /** Every masking of a token verifies, and maskings made with different bytes differ. */
  lemma MaskingsVerify(token: Bytes, otp: Bytes, other: Bytes)
    requires token != [] && |otp| == |token| == |other|
    ensures VerifyToken(token, MaskToken(token, otp))
    ensures MaskToken(token, otp) == MaskToken(token, other) ==> otp == other
  {
    DecodeEncoded(Masked(otp, token));
    DecodeEncoded(Masked(other, token));
    UnmaskMasked(otp, token);
    if MaskToken(token, otp) == MaskToken(token, other) {
      assert Masked(otp, token)[..|otp|] == Masked(other, token)[..|otp|];
    }
  }

  /** No text verifies for two tokens. */
  lemma NoTextVerifiesTwice(token: Bytes, other: Bytes, masked: Bytes)
    requires VerifyToken(token, masked) && VerifyToken(other, masked)
    ensures token == other
  {
  }

  /**
   Text that verifies was made by masking the token exactly when it is canonical: the decoder also
   takes text with newlines in it, or with other bits at its end.
   */
  lemma VerifiedIsMaskedIffCanonical(token: Bytes, masked: Bytes)
    requires VerifyToken(token, masked)
    ensures Canonical(masked) <==> exists otp: Bytes :: |otp| == |token| && masked == MaskToken(token, otp)
  {
    VerifiesExactly(token, masked);
    if Canonical(masked) {
      EncodeDecoded(masked);
    }
    forall otp: Bytes | |otp| == |token| && masked == MaskToken(token, otp) ensures Canonical(masked) {
      DecodeEncoded(Masked(otp, token));
    }
  }

  /** So a token returned by maskToken still verifies with a newline after it. */
  lemma NewlineStillVerifies(token: Bytes, otp: Bytes)
    requires token != [] && |otp| == |token|
    ensures var masked := MaskToken(token, otp) + [10];
            VerifyToken(token, masked) && !Canonical(masked)
  {
    MaskingsVerify(token, otp, otp);
    DroppedAppended(MaskToken(token, otp), 10);
    assert IsNewline((MaskToken(token, otp) + [10])[|MaskToken(token, otp)|]);
  }

  // ---------------------------------------------------------------- bit by bit

  /** The masks of single bits. */
  predicate IsBit(m: bv8) {
    m == 1 || m == 2 || m == 4 || m == 8 || m == 16 || m == 32 || m == 64 || m == 128
  }

  predicate HasBit(x: bv8, m: bv8) {
    x & m != 0
  }

  lemma XorBit(x: bv8, y: bv8, m: bv8)
    requires IsBit(m)
    ensures HasBit(x ^ y, m) <==> HasBit(x, m) != HasBit(y, m)
  {
  }

  /** The encrypted half has each bit of the token, flipped where the random bytes have a one. */
  lemma MaskedBits(otp: Bytes, token: Bytes, i: nat, m: bv8)
    requires |otp| == |token| && i < |token| && IsBit(m)
    ensures |Masked(otp, token)| == 2 * |token| && Masked(otp, token)[i] == otp[i]
    ensures HasBit(Masked(otp, token)[|token| + i], m) <==> HasBit(token[i], m) != HasBit(otp[i], m)
  {
    XorBit(otp[i], token[i], m);
  }

  lemma XorSwaps(a: Bytes, b: Bytes)
    requires |a| == |b|
    ensures Xor(a, b) == Xor(b, a)
  {
    forall i | 0 <= i < |a| ensures a[i] ^ b[i] == b[i] ^ a[i] {
      XorBytesSwap(a[i], b[i]);
    }
  }

  lemma XorBytesSwap(x: bv8, y: bv8)
    ensures x ^ y == y ^ x
  {
  }

  /**
   Whatever the token, each encrypted half there can be comes from exactly one choice of the random bytes, so by
   itself it says nothing of the token but its length.
   */
  lemma EncryptedHalfSaysNothing(token: Bytes, half: Bytes, otp: Bytes)
    requires |token| == |half| == |otp|
    ensures Masked(otp, token)[|token|..] == half <==> otp == Xor(half, token)
  {
    assert Masked(otp, token)[|token|..] == Xor(otp, token);
    XorSwaps(otp, token);
    XorTwice(token, otp);
    XorSwaps(half, token);
    XorTwice(token, half);
  }

  // ---------------------------------------------------------------- as RFC 4648 has it, in sections 4 and 5

  const ALPHABET := "ABCDEFGHIJKLMNOPQRSTUVWXYZabcdefghijklmnopqrstuvwxyz0123456789-_"

  /** The digits are those of the URL-safe alphabet, in its order. */
  lemma DigitsExactly()
    ensures [Digit(0) as char, Digit(1) as char, Digit(2) as char, Digit(3) as char, Digit(4) as char,
             Digit(5) as char, Digit(6) as char, Digit(7) as char, Digit(8) as char, Digit(9) as char,
             Digit(10) as char, Digit(11) as char, Digit(12) as char, Digit(13) as char, Digit(14) as char,
             Digit(15) as char, Digit(16) as char, Digit(17) as char, Digit(18) as char, Digit(19) as char,
             Digit(20) as char, Digit(21) as char, Digit(22) as char, Digit(23) as char, Digit(24) as char,
             Digit(25) as char, Digit(26) as char, Digit(27) as char, Digit(28) as char, Digit(29) as char,
             Digit(30) as char, Digit(31) as char, Digit(32) as char, Digit(33) as char, Digit(34) as char,
             Digit(35) as char, Digit(36) as char, Digit(37) as char, Digit(38) as char, Digit(39) as char,
             Digit(40) as char, Digit(41) as char, Digit(42) as char, Digit(43) as char, Digit(44) as char,
             Digit(45) as char, Digit(46) as char, Digit(47) as char, Digit(48) as char, Digit(49) as char,
             Digit(50) as char, Digit(51) as char, Digit(52) as char, Digit(53) as char, Digit(54) as char,
             Digit(55) as char, Digit(56) as char, Digit(57) as char, Digit(58) as char, Digit(59) as char,
             Digit(60) as char, Digit(61) as char, Digit(62) as char, Digit(63) as char]
            == ALPHABET
  {
  }

  /** Three bytes, and four sextets, as one number of 24 bits. */
  function FromBytes(x: bv8, y: bv8, z: bv8): bv32 {
    ((x as bv32) << 16) | ((y as bv32) << 8) | (z as bv32)
  }

  function FromSextets(p: bv8, q: bv8, r: bv8, s: bv8): bv32 {
    ((p as bv32) << 18) | ((q as bv32) << 12) | ((r as bv32) << 6) | (s as bv32)
  }

  lemma SameBits(x: bv8, y: bv8, z: bv8)
    ensures FromSextets(Sextet0(x), Sextet1(x, y), Sextet2(y, z), Sextet3(z)) == FromBytes(x, y, z)
  {
  }

  /** Each three bytes and the four sextets they become are the same 24 bits. */
  lemma {:induction false} GroupsExactly(b: Bytes, k: nat)
    requires 3 * k + 3 <= |b|
    ensures |Split(b)| >= 4 * k + 4
    ensures var s := Split(b);
            FromSextets(s[4 * k], s[4 * k + 1], s[4 * k + 2], s[4 * k + 3])
            == FromBytes(b[3 * k], b[3 * k + 1], b[3 * k + 2])
  {
    if k == 0 {
      SameBits(b[0], b[1], b[2]);
    } else {
      var rest := b[3..];
      GroupsExactly(rest, k - 1);
      assert rest[3 * (k - 1)] == b[3 * k] && rest[3 * (k - 1) + 1] == b[3 * k + 1];
      assert rest[3 * (k - 1) + 2] == b[3 * k + 2];
    }
  }

  /** One or two bytes left over are encoded as though zeros followed, without the digits of zeros only. */
  lemma {:induction false} LeftOverExactly(b: Bytes)
    ensures |Split(b)| == (4 * |b| + 2) / 3
    ensures |b| % 3 == 1 ==> Split(b + [0, 0]) == Split(b) + [0, 0]
    ensures |b| % 3 == 2 ==> Split(b + [0]) == Split(b) + [0]
  {
    if |b| >= 3 {
      LeftOverExactly(b[3..]);
      SplitMore(b, [0, 0]);
      SplitMore(b, [0]);
    } else {
      ZeroSextets();
    }
  }

  lemma ZeroSextets()
    ensures Sextet3(0) == 0 && Sextet2(0, 0) == 0
  {
  }

  lemma SplitMore(b: Bytes, more: Bytes)
    requires |b| >= 3
    ensures Split(b + more)
            == [Sextet0(b[0]), Sextet1(b[0], b[1]), Sextet2(b[1], b[2]), Sextet3(b[2])] + Split(b[3..] + more)
  {
    assert (b + more)[3..] == b[3..] + more;
  }
}
