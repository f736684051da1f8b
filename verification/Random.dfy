/** Random strings by rejection sampling (server/pkg/random/random.go). */
module Random {
  import opened Prelude

  /** The number of values a Go uint64 takes. */
  const TWO_64: int := 0x1_0000_0000_0000_0000

  // ---------------------------------------------------------------- arithmetic

  function Pow(b: nat, e: nat): nat {
    if e == 0 then 1 else b * Pow(b, e - 1)
  }

  lemma {:induction false} PowPositive(b: nat, e: nat)
    requires b >= 1
    ensures Pow(b, e) >= 1
  {
    if e > 0 {
      PowPositive(b, e - 1);
      assert b * Pow(b, e - 1) >= 1;
    }
  }

  lemma {:induction false} PowAdds(b: nat, e: nat, f: nat)
    ensures Pow(b, e + f) == Pow(b, e) * Pow(b, f)
  {
    if e > 0 {
      PowAdds(b, e - 1, f);
      assert b * (Pow(b, e - 1) * Pow(b, f)) == (b * Pow(b, e - 1)) * Pow(b, f);
    }
  }

  lemma MulAssociates(x: int, y: int, z: int)
    ensures (x * y) * z == x * (y * z)
  {
  }

  lemma MulPositive(x: int, y: int)
    requires x > 0 && y > 0
    ensures x * y > 0
  {
  }

  lemma MulNonNegative(x: int, y: int)
    requires x >= 0 && y >= 0
    ensures x * y >= 0
  {
  }

  lemma MulAtLeast(d: int, x: int)
    requires d > 0
    ensures x >= 1 ==> d * x >= d
    ensures x <= -1 ==> d * x <= -d
  {
  }

  lemma TimesGrows(x: int, y: int)
    requires x >= 1 && y >= 2
    ensures x * y > x
  {
  }

  lemma QuotientUnique(d: int, q: int, r: int, q': int, r': int)
    requires d * q + r == d * q' + r' && 0 <= r < d && 0 <= r' < d
    ensures q == q' && r == r'
  {
    assert d * (q - q') == d * q - d * q';
    MulAtLeast(d, q - q');
  }

  lemma DivMul(a: int, d: int, q: int, r: int)
    requires d > 0 && a == d * q + r && 0 <= r < d
    ensures a / d == q && a % d == r
  {
    QuotientUnique(d, q, r, a / d, a % d);
  }

  /** Go's / and % on uint64 values, with their bounds. */
  function Div(d: nat, b: nat): (q: nat)
    requires b > 0
    ensures q <= d
  {
    QuotientBound(d, b);
    d / b
  }

  function Mod(d: nat, b: nat): (r: nat)
    requires b > 0
    ensures r < b
  {
    d % b
  }

  lemma QuotientBound(d: nat, b: nat)
    requires b > 0
    ensures 0 <= d / b <= d
  {
    var q := d / b;
    assert d == b * q + d % b;
    if q >= 1 {
      assert b * q == q + (b - 1) * q;
      MulNonNegative(b - 1, q);
    } else {
      MulAtLeast(b, q);
    }
  }

  // ---------------------------------------------------------------- what a draw is worth

  /** The characters a draw packs, and the number of values they can take. */
  datatype Packing = Packing(chars: nat, limit: nat)

  /** limit is the greatest power of size that a uint64 holds. */
  ghost predicate Packs(size: nat, p: Packing) {
    && p.chars >= 1
    && p.limit == Pow(size, p.chars)
    && p.limit < TWO_64 <= p.limit * size
  }

  function PackFrom(size: nat, p: Packing): Packing
    requires 2 <= size && p.limit >= 1
    decreases TWO_64 - p.limit
  {
    if p.limit * size >= TWO_64 then p
    else
      TimesGrows(p.limit, size);
      PackFrom(size, Packing(p.chars + 1, p.limit * size))
  }

  function PackingOf(size: nat): Packing
    requires size >= 2
  {
    PackFrom(size, Packing(1, size))
  }

  method Pack(size: nat) returns (p: Packing)
    requires 2 <= size < TWO_64
    ensures p == PackingOf(size) && Packs(size, p) && p.limit > 0
  {
    var limit, m := size, 1;
    assert Pow(size, 1) == size * Pow(size, 0);
    while limit * size < TWO_64 // the high word of the 128-bit product is zero
      invariant m >= 1 && limit == Pow(size, m) && 1 <= limit < TWO_64
      invariant PackFrom(size, Packing(m, limit)) == PackingOf(size)
      decreases TWO_64 - limit
    {
      TimesGrows(limit, size);
      limit := limit * size;
      m := m + 1;
    }
    p := Packing(m, limit);
  }

  lemma PackingOfPacks(size: nat)
    requires 2 <= size < TWO_64
    ensures Packs(size, PackingOf(size)) && 0 < PackingOf(size).limit
  {
    assert Pow(size, 1) == size * Pow(size, 0);
    PackFromPacks(size, Packing(1, size));
  }

  lemma {:induction false} PackFromPacks(size: nat, p: Packing)
    requires 2 <= size && p.chars >= 1 && p.limit == Pow(size, p.chars) && 1 <= p.limit < TWO_64
    ensures Packs(size, PackFrom(size, p)) && PackFrom(size, p).limit >= 1
    decreases TWO_64 - p.limit
  {
    if p.limit * size < TWO_64 {
      TimesGrows(p.limit, size);
      PackFromPacks(size, Packing(p.chars + 1, p.limit * size));
    }
  }

  /** Draws from here up would bias the result; they are rejected. */
  function Threshold(limit: nat): nat
    requires 0 < limit < TWO_64
  {
    TWO_64 - 1 - Mod(TWO_64 - 1, limit)
  }

  /** The threshold is a multiple of limit that keeps at least half of all draws. */
  lemma ThresholdKeepsHalf(limit: nat)
    requires 0 < limit < TWO_64
    ensures Threshold(limit) % limit == 0 && limit <= Threshold(limit) < TWO_64
    ensures 2 * Threshold(limit) >= TWO_64
    ensures Threshold(limit) / limit >= 1 && Threshold(limit) == limit * (Threshold(limit) / limit)
  {
    var q, r := Div(TWO_64 - 1, limit), Mod(TWO_64 - 1, limit);
    assert TWO_64 - 1 == limit * q + r;
    assert Threshold(limit) == limit * q;
    DivMul(limit * q, limit, q, 0);
    assert q >= 1;
    MulAtLeast(limit, q);
  }

  // ---------------------------------------------------------------- the string as a function of the draws

  /** The lowest count base-|alphabet| digits of d, lowest first, as characters. */
  function Digits(d: nat, count: nat, alphabet: string): (s: string)
    requires |alphabet| > 0
    ensures |s| == count
  {
    if count == 0 then ""
    else [alphabet[Mod(d, |alphabet|)]] + Digits(Div(d, |alphabet|), count - 1, alphabet)
  }

  function Batch(n: nat, m: nat): nat {
    if n < m then n else m
  }

  /** How many accepted draws n characters take. */
  function DrawsNeeded(n: nat, m: nat): nat
    requires m >= 1
  {
    if n == 0 then 0 else 1 + DrawsNeeded(n - Batch(n, m), m)
  }

  /** What a draw spells: its lowest digits, a given number of them. */
  function Speller(limit: nat, alphabet: string): (nat, nat) -> string
    requires limit > 0 && |alphabet| > 0
  {
    (d: nat, count: nat) => Digits(Mod(d, limit), count, alphabet)
  }

  /** The n characters that accepted draws give, m to a draw but for the last. */
  function Output(draws: seq<nat>, n: nat, m: nat, spell: (nat, nat) -> string): string
    requires m >= 1
    requires |draws| >= DrawsNeeded(n, m)
    decreases n
  {
    if n == 0 then ""
    else spell(draws[0], Batch(n, m)) + Output(draws[1..], n - Batch(n, m), m, spell)
  }

  ghost predicate SpellsCount(spell: (nat, nat) -> string) {
    forall d: nat, count: nat :: |spell(d, count)| == count
  }

  lemma {:induction false} OutputLength(draws: seq<nat>, n: nat, m: nat, spell: (nat, nat) -> string)
    requires m >= 1 && |draws| >= DrawsNeeded(n, m) && SpellsCount(spell)
    ensures |Output(draws, n, m, spell)| == n
    decreases n
  {
    if n > 0 {
      OutputLength(draws[1..], n - Batch(n, m), m, spell);
    }
  }

  // ---------------------------------------------------------------- uniformity: one batch

  predicate Over(s: string, alphabet: string) {
    forall c | c in s :: c in alphabet
  }

  function IndexOf(c: char, alphabet: string): (i: nat)
    requires c in alphabet
    ensures i < |alphabet| && alphabet[i] == c
  {
    if alphabet[0] == c then 0 else 1 + IndexOf(c, alphabet[1..])
  }

  /** The number whose lowest digits spell s. */
  function Number(s: string, alphabet: string): nat
    requires Over(s, alphabet)
  {
    if s == "" then 0
    else
      assert s[0] in s && Over(s[1..], alphabet) by {
        assert forall c | c in s[1..] :: c in s;
      }
      IndexOf(s[0], alphabet) + |alphabet| * Number(s[1..], alphabet)
  }

  lemma DigitsFirst(d: nat, s: string, alphabet: string)
    requires s != "" && |alphabet| >= 1 && DuplicateFree(alphabet) && s[0] in alphabet
    ensures Digits(d, |s|, alphabet) == s
            <==> Mod(d, |alphabet|) == IndexOf(s[0], alphabet)
                 && Digits(Div(d, |alphabet|), |s| - 1, alphabet) == s[1..]
  {
    var rest := Digits(Div(d, |alphabet|), |s| - 1, alphabet);
    assert Digits(d, |s|, alphabet) == [alphabet[Mod(d, |alphabet|)]] + rest;
    assert s == [s[0]] + s[1..];
    assert ([alphabet[Mod(d, |alphabet|)]] + rest)[1..] == rest;
  }

  lemma NumberFirst(s: string, alphabet: string)
    requires s != "" && Over(s, alphabet)
    ensures s[0] in alphabet && Over(s[1..], alphabet)
    ensures Number(s, alphabet) == IndexOf(s[0], alphabet) + |alphabet| * Number(s[1..], alphabet)
  {
    assert s[0] in s && forall c | c in s[1..] :: c in s;
  }

  /** Digits spells s exactly for the numbers congruent to Number(s): base-size digits are a bijection. */
  lemma {:induction false} DigitsSpell(d: nat, s: string, alphabet: string)
    requires |alphabet| >= 1 && DuplicateFree(alphabet) && Over(s, alphabet)
    ensures Number(s, alphabet) < Pow(|alphabet|, |s|)
    ensures Digits(d, |s|, alphabet) == s <==> d % Pow(|alphabet|, |s|) == Number(s, alphabet)
    decreases |s|
  {
    if s != "" {
      var b, rest := |alphabet|, s[1..];
      NumberFirst(s, alphabet);
      DigitsSpell(Div(d, b), rest, alphabet);
      PowPositive(b, |rest|);
      DigitStep(d, b, Pow(b, |rest|), IndexOf(s[0], alphabet), Number(rest, alphabet));
      DigitsFirst(d, s, alphabet);
    }
  }

  /** A number is i + b * v modulo b * p exactly when its lowest digit is i and the rest is v modulo p. */
  lemma DigitStep(d: nat, b: nat, p: nat, i: nat, v: nat)
    requires b >= 1 && p >= 1 && i < b && v < p
    ensures i + b * v < b * p
    ensures d % (b * p) == i + b * v <==> d % b == i && (d / b) % p == v
  {
    MulAtLeast(b, p - v);
    assert b * (p - v) == b * p - b * v;
    ModDigit(d, b, p);
    SameDigits(b, i, v, d % b, (d / b) % p);
  }

  lemma SameDigits(b: nat, i: nat, v: nat, i': nat, v': nat)
    requires i < b && i' < b
    ensures i' + b * v' == i + b * v <==> i' == i && v' == v
  {
    if i' + b * v' == i + b * v {
      QuotientUnique(b, v, i, v', i');
    }
  }

  lemma ModDigit(d: nat, b: nat, p: nat)
    requires b >= 1 && p >= 1
    ensures b * p >= 1 && d % (b * p) == d % b + b * ((d / b) % p)
  {
    var q, i := d / b, d % b;
    var t, u := q / p, q % p;
    assert d == b * q + i && q == p * t + u;
    assert b * q == b * (p * t) + b * u;
    assert b * (p * t) == (b * p) * t;
    assert b * u <= b * (p - 1);
    assert b * (p - 1) == b * p - b;
    DivMul(d, b * p, t, b * u + i);
  }

  /** The numbers below t whose remainder by m is v. */
  function Congruent(t: nat, m: nat, v: nat): set<nat>
    requires m > 0
  {
    set d | 0 <= d < t && d % m == v
  }

  lemma {:induction false} CongruentCount(q: nat, m: nat, v: nat)
    requires v < m
    ensures |Congruent(m * q, m, v)| == q
  {
    if q == 0 {
      assert Congruent(m * q, m, v) == {};
    } else {
      CongruentCount(q - 1, m, v);
      var low := m * (q - 1);
      assert m * q == low + m;
      DivMul(low + v, m, q - 1, v);
      forall d | low <= d < m * q && d % m == v ensures d == low + v {
        DivMul(d, m, q - 1, d - low);
      }
      assert Congruent(m * q, m, v) == Congruent(low, m, v) + {low + v};
    }
  }

  /** The draws below t that spell s. */
  function Spelling(s: string, t: nat, spell: (nat, nat) -> string): set<nat> {
    set d | 0 <= d < t && spell(d, |s|) == s
  }

  lemma SpellsWhen(d: nat, s: string, limit: nat, alphabet: string, low: nat, high: nat)
    requires |alphabet| >= 2 && DuplicateFree(alphabet) && Over(s, alphabet)
    requires low == Pow(|alphabet|, |s|) && low > 0 && limit > 0 && limit == low * high
    ensures Speller(limit, alphabet)(d, |s|) == s <==> d % low == Number(s, alphabet)
  {
    DigitsSpell(Mod(d, limit), s, alphabet);
    ModOfMod(d, low, high);
  }

  lemma SpellingIs(s: string, limit: nat, alphabet: string, t: nat, low: nat, high: nat)
    requires |alphabet| >= 2 && DuplicateFree(alphabet) && Over(s, alphabet)
    requires low == Pow(|alphabet|, |s|) && low > 0 && limit > 0 && limit == low * high
    ensures Spelling(s, t, Speller(limit, alphabet)) == Congruent(t, low, Number(s, alphabet))
  {
    forall d: nat ensures Speller(limit, alphabet)(d, |s|) == s <==> d % low == Number(s, alphabet) {
      SpellsWhen(d, s, limit, alphabet, low, high);
    }
  }

  lemma CongruentCountIn(limit: nat, low: nat, high: nat, k: nat, v: nat)
    requires limit == low * high && v < low
    ensures |Congruent(limit * k, low, v)| == k * high
  {
    MulAssociates(low, high, k);
    CongruentCount(high * k, low, v);
  }

  /** Every string of one batch is spelled by the same number of draws. */
  lemma SpellingCount(s: string, p: Packing, alphabet: string, k: nat)
    requires |alphabet| >= 2 && DuplicateFree(alphabet) && Over(s, alphabet)
    requires p.limit == Pow(|alphabet|, p.chars) && |s| <= p.chars
    ensures p.limit > 0
    ensures |Spelling(s, p.limit * k, Speller(p.limit, alphabet))| == k * Pow(|alphabet|, p.chars - |s|)
  {
    var low, high := Pow(|alphabet|, |s|), Pow(|alphabet|, p.chars - |s|);
    PowPositive(|alphabet|, |s|);
    PowPositive(|alphabet|, p.chars);
    PowAdds(|alphabet|, |s|, p.chars - |s|);
    DigitsSpell(0, s, alphabet);
    SpellingIs(s, p.limit, alphabet, p.limit * k, low, high);
    CongruentCountIn(p.limit, low, high, k, Number(s, alphabet));
  }

  lemma ModOfMod(d: nat, m: nat, k: nat)
    requires m > 0 && m * k > 0
    ensures (d % (m * k)) % m == d % m
  {
    var q, r := d / (m * k), d % (m * k);
    assert r == m * (r / m) + r % m;
    assert (m * k) * q == m * (k * q);
    assert d == m * (k * q + r / m) + r % m;
    DivMul(d, m, k * q + r / m, r % m);
  }

  // ---------------------------------------------------------------- uniformity: whole strings

  /** The sequences with a head in heads and a tail in tails. */
  function Product(heads: set<nat>, tails: set<seq<nat>>): (r: set<seq<nat>>)
    ensures forall s :: s in r <==> s != [] && s[0] in heads && s[1..] in tails
  {
    var r := set d, rest | d in heads && rest in tails :: [d] + rest;
    assert forall s | s in r :: exists d, rest :: d in heads && rest in tails && s == [d] + rest && s[1..] == rest;
    assert forall s | s != [] && s[0] in heads && s[1..] in tails :: s == [s[0]] + s[1..];
    r
  }

  function Below(t: nat): (r: set<nat>)
    ensures forall d: nat :: d in r <==> d < t
  {
    if t == 0 then {} else Below(t - 1) + {t - 1}
  }

  /** All sequences of k draws below t. */
  function DrawSequences(k: nat, t: nat): (r: set<seq<nat>>)
    ensures forall draws | draws in r :: |draws| == k
  {
    if k == 0 then {[]} else Product(Below(t), DrawSequences(k - 1, t))
  }

  lemma {:induction false} PrependCount(d: nat, tails: set<seq<nat>>)
    ensures |Product({d}, tails)| == |tails|
  {
    if tails == {} {
      assert Product({d}, tails) == {};
    } else {
      var rest :| rest in tails;
      PrependCount(d, tails - {rest});
      var s := [d] + rest;
      assert s[1..] == rest;
      forall other ensures other in Product({d}, tails) <==> other in Product({d}, tails - {rest}) + {s} {
        if other != [] && other[0] == d && other[1..] == rest {
          assert other == [d] + other[1..];
        }
      }
      assert Product({d}, tails) == Product({d}, tails - {rest}) + {s};
    }
  }

  lemma {:induction false} ProductCount(heads: set<nat>, tails: set<seq<nat>>)
    ensures |Product(heads, tails)| == |heads| * |tails|
    decreases |heads|
  {
    if heads == {} {
      assert Product(heads, tails) == {};
    } else {
      var d :| d in heads;
      var others := heads - {d};
      ProductSplits(heads, d, tails);
      ProductCount(others, tails);
      PrependCount(d, tails);
      OneMore(|others|, |tails|);
    }
  }

  lemma ProductSplits(heads: set<nat>, d: nat, tails: set<seq<nat>>)
    requires d in heads
    ensures |heads| == |heads - {d}| + 1
    ensures |Product(heads, tails)| == |Product(heads - {d}, tails)| + |Product({d}, tails)|
  {
    assert Product(heads - {d}, tails) !! Product({d}, tails);
    assert Product(heads, tails) == Product(heads - {d}, tails) + Product({d}, tails);
  }

  lemma OneMore(x: nat, y: nat)
    ensures (x + 1) * y == x * y + y
  {
  }

  /** The sequences of draws below t that give the string w. */
  function Preimages(w: string, m: nat, t: nat, spell: (nat, nat) -> string): set<seq<nat>>
    requires m >= 1
  {
    set draws | draws in DrawSequences(DrawsNeeded(|w|, m), t) && Output(draws, |w|, m, spell) == w
  }

  /** How many draws spell the same batch of characters. */
  function BatchWays(batch: nat, p: Packing, size: nat): int
    requires 0 < p.limit < TWO_64 && batch <= p.chars
  {
    (Threshold(p.limit) / p.limit) * Pow(size, p.chars - batch)
  }

  /** How many sequences give the same string of n characters. */
  function Ways(n: nat, p: Packing, size: nat): int
    requires p.chars >= 1 && 0 < p.limit < TWO_64
    decreases n
  {
    if n == 0 then 1
    else BatchWays(Batch(n, p.chars), p, size) * Ways(n - Batch(n, p.chars), p, size)
  }

  lemma BatchCount(s: string, p: Packing, alphabet: string)
    requires 2 <= |alphabet| < TWO_64 && DuplicateFree(alphabet) && Over(s, alphabet)
    requires Packs(|alphabet|, p) && |s| <= p.chars
    ensures p.limit > 0
    ensures |Spelling(s, Threshold(p.limit), Speller(p.limit, alphabet))| == BatchWays(|s|, p, |alphabet|) > 0
  {
    PowPositive(|alphabet|, p.chars);
    PowPositive(|alphabet|, p.chars - |s|);
    ThresholdKeepsHalf(p.limit);
    var k := Threshold(p.limit) / p.limit;
    SpellingCount(s, p, alphabet, k);
    MulPositive(k, Pow(|alphabet|, p.chars - |s|));
  }

  lemma ConcatIs(a: string, b: string, front: string, rest: string)
    requires |a| == |front| && |b| == |rest|
    ensures a + b == front + rest <==> a == front && b == rest
  {
    assert a == (a + b)[..|a|] && b == (a + b)[|a|..];
    assert front == (front + rest)[..|a|] && rest == (front + rest)[|a|..];
  }

  lemma OutputSplits(draws: seq<nat>, front: string, rest: string, m: nat, spell: (nat, nat) -> string)
    requires m >= 1 && SpellsCount(spell)
    requires front != "" && |front| == Batch(|front| + |rest|, m)
    requires |draws| >= DrawsNeeded(|front| + |rest|, m)
    ensures Output(draws, |front| + |rest|, m, spell) == front + rest
            <==> spell(draws[0], |front|) == front && Output(draws[1..], |rest|, m, spell) == rest
  {
    OutputLength(draws[1..], |rest|, m, spell);
    ConcatIs(spell(draws[0], |front|), Output(draws[1..], |rest|, m, spell), front, rest);
  }

  lemma PreimageSplits(draws: seq<nat>, front: string, rest: string, m: nat, t: nat, spell: (nat, nat) -> string)
    requires m >= 1 && SpellsCount(spell) && front != "" && |front| == Batch(|front| + |rest|, m)
    ensures draws in Preimages(front + rest, m, t, spell)
            <==> draws != [] && draws[0] in Spelling(front, t, spell) && draws[1..] in Preimages(rest, m, t, spell)
  {
    var w := front + rest;
    assert DrawsNeeded(|w|, m) == 1 + DrawsNeeded(|rest|, m);
    if |draws| == DrawsNeeded(|w|, m) {
      OutputSplits(draws, front, rest, m, spell);
    }
  }

  lemma PreimagesSplit(w: string, m: nat, t: nat, spell: (nat, nat) -> string)
    requires m >= 1 && SpellsCount(spell) && w != ""
    ensures var batch := Batch(|w|, m);
            Preimages(w, m, t, spell) == Product(Spelling(w[..batch], t, spell), Preimages(w[batch..], m, t, spell))
  {
    var front, rest := w[..Batch(|w|, m)], w[Batch(|w|, m)..];
    assert w == front + rest;
    forall draws
      ensures draws in Preimages(w, m, t, spell)
              <==> draws in Product(Spelling(front, t, spell), Preimages(rest, m, t, spell))
    {
      PreimageSplits(draws, front, rest, m, t, spell);
    }
  }

  lemma SpellerCounts(limit: nat, alphabet: string)
    requires limit > 0 && |alphabet| > 0
    ensures SpellsCount(Speller(limit, alphabet))
  {
  }

  /**
   Every string of n characters is given by the same number of sequences of accepted draws, for any
   duplicate-free alphabet: Alphanumeric is exactly uniform.
   */
  lemma {:induction false} Uniform(w: string, p: Packing, alphabet: string)
    requires 2 <= |alphabet| < TWO_64 && DuplicateFree(alphabet) && Over(w, alphabet)
    requires Packs(|alphabet|, p)
    ensures p.limit > 0
    ensures |Preimages(w, p.chars, Threshold(p.limit), Speller(p.limit, alphabet))| == Ways(|w|, p, |alphabet|) > 0
    decreases |w|
  {
    PowPositive(|alphabet|, p.chars);
    var t, spell := Threshold(p.limit), Speller(p.limit, alphabet);
    if w == "" {
      assert Preimages(w, p.chars, t, spell) == {[]};
    } else {
      var batch := Batch(|w|, p.chars);
      var front, rest := w[..batch], w[batch..];
      OverParts(w, batch, alphabet);
      Uniform(rest, p, alphabet);
      BatchCount(front, p, alphabet);
      SpellerCounts(p.limit, alphabet);
      PreimagesSplit(w, p.chars, t, spell);
      ProductCount(Spelling(front, t, spell), Preimages(rest, p.chars, t, spell));
      MulPositive(BatchWays(batch, p, |alphabet|), Ways(|rest|, p, |alphabet|));
    }
  }

  /** So it is under the packing Alphanumeric works out for its alphabet. */
  lemma AlphanumericUniform(w: string, alphabet: string)
    requires 2 <= |alphabet| < TWO_64 && DuplicateFree(alphabet) && Over(w, alphabet)
    ensures var p := PackingOf(|alphabet|);
            && 0 < p.limit < TWO_64 && p.chars >= 1
            && |Preimages(w, p.chars, Threshold(p.limit), Speller(p.limit, alphabet))|
               == Ways(|w|, p, |alphabet|) > 0
  {
    PackingOfPacks(|alphabet|);
    Uniform(w, PackingOf(|alphabet|), alphabet);
  }

  lemma OverParts(w: string, i: nat, alphabet: string)
    requires Over(w, alphabet) && i <= |w|
    ensures Over(w[..i], alphabet) && Over(w[i..], alphabet)
  {
    assert forall c | c in w[..i] :: c in w;
    assert forall c | c in w[i..] :: c in w;
  }

  /** And every sequence of accepted draws gives a string over the alphabet. */
  lemma {:induction false} OutputOver(draws: seq<nat>, n: nat, p: Packing, alphabet: string)
    requires p.chars >= 1 && p.limit > 0 && |alphabet| > 0
    requires |draws| >= DrawsNeeded(n, p.chars)
    ensures Over(Output(draws, n, p.chars, Speller(p.limit, alphabet)), alphabet)
    decreases n
  {
    if n > 0 {
      var batch := Batch(n, p.chars);
      DigitsOver(Mod(draws[0], p.limit), batch, alphabet);
      OutputOver(draws[1..], n - batch, p, alphabet);
    }
  }

  lemma {:induction false} DigitsOver(d: nat, count: nat, alphabet: string)
    requires |alphabet| > 0
    ensures Over(Digits(d, count, alphabet), alphabet)
  {
    if count > 0 {
      DigitsOver(Div(d, |alphabet|), count - 1, alphabet);
    }
  }

  // ---------------------------------------------------------------- the loop

  type Octet = b: int | 0 <= b < 256

  /** crypto/rand: each Read fills a buffer with the next bytes of one endless stream. */
  class Source {
    const stream: nat -> Octet
    var pos: nat

    constructor (stream: nat -> Octet)
      ensures this.stream == stream && pos == 0
    {
      this.stream := stream;
      pos := 0;
    }

    method Read(buf: array<Octet>)
      modifies this, buf
      ensures pos == old(pos) + buf.Length
      ensures forall i | 0 <= i < buf.Length :: buf[i] == stream(old(pos) + i)
    {
      for i := 0 to buf.Length
        invariant forall j | 0 <= j < i :: buf[j] == stream(pos + j)
        invariant pos == old(pos)
      {
        buf[i] := stream(pos + i);
      }
      pos := pos + buf.Length;
    }
  }

  function BigEndian(b: seq<Octet>): nat {
    if b == [] then 0 else 256 * BigEndian(b[..|b| - 1]) + b[|b| - 1]
  }

  /** Eight bytes make a uint64, each one in exactly one way. */
  lemma {:induction false} BigEndianOneToOne(a: seq<Octet>, b: seq<Octet>)
    requires |a| == |b|
    ensures BigEndian(a) < Pow(256, |a|)
    ensures BigEndian(a) == BigEndian(b) ==> a == b
  {
    if a != [] {
      BigEndianOneToOne(a[..|a| - 1], b[..|b| - 1]);
      assert a == a[..|a| - 1] + [a[|a| - 1]] && b == b[..|b| - 1] + [b[|b| - 1]];
    }
  }

  /** The next n bytes of the stream from start on. */
  function Prefix(stream: nat -> Octet, start: nat, n: nat): (b: seq<Octet>)
    ensures |b| == n && forall i | 0 <= i < n :: b[i] == stream(start + i)
  {
    seq(n, i requires 0 <= i < n => stream(start + i))
  }

  /** The k-th uint64 of the stream from start on. */
  function Draw(stream: nat -> Octet, start: nat, k: nat): nat {
    BigEndian(Prefix(stream, start + 8 * k, 8))
  }

  /** Of the first count draws, those below the threshold. */
  function Accepted(stream: nat -> Octet, start: nat, count: nat, threshold: nat): seq<nat> {
    if count == 0 then []
    else
      var d := Draw(stream, start, count - 1);
      Accepted(stream, start, count - 1, threshold) + if d < threshold then [d] else []
  }

  lemma {:induction false} AcceptedGrows(stream: nat -> Octet, start: nat, count: nat, more: nat, threshold: nat)
    requires count <= more
    ensures |Accepted(stream, start, count, threshold)| <= |Accepted(stream, start, more, threshold)|
  {
    if count < more {
      AcceptedGrows(stream, start, count, more - 1, threshold);
    }
  }

  /** The characters of k full batches. */
  function Full(k: nat, m: nat): nat {
    if k == 0 then 0 else Full(k - 1, m) + m
  }

  /** Full batches, and one more draw after them. */
  lemma {:induction false} BatchesNeed(k: nat, m: nat, batch: nat)
    requires 1 <= batch <= m
    ensures DrawsNeeded(Full(k, m), m) == k && DrawsNeeded(Full(k, m) + batch, m) == k + 1
  {
    if k == 0 {
      assert batch - Batch(batch, m) == 0;
    } else {
      BatchesNeed(k - 1, m, batch);
    }
  }

  lemma {:induction false} OutputGrows(draws: seq<nat>, d: nat, batch: nat, m: nat, spell: (nat, nat) -> string)
    requires 1 <= batch <= m
    ensures var n := Full(|draws|, m);
            && DrawsNeeded(n, m) == |draws| && DrawsNeeded(n + batch, m) == |draws| + 1
            && Output(draws + [d], n + batch, m, spell) == Output(draws, n, m, spell) + spell(d, batch)
  {
    BatchesNeed(|draws|, m, batch);
    if draws != [] {
      OutputGrows(draws[1..], d, batch, m, spell);
      assert (draws + [d])[1..] == draws[1..] + [d];
    }
  }

  datatype Result = Panics | Returns(text: string)

  /** The stream holds enough accepted draws, among the first bound, for n characters. */
  ghost predicate Enough(stream: nat -> Octet, start: nat, bound: nat, n: int, alphabet: string) {
    n >= 0 && 2 <= |alphabet| < TWO_64 ==>
      var p := PackingOf(|alphabet|);
      && 0 < p.limit < TWO_64 && p.chars >= 1
      && |Accepted(stream, start, bound, Threshold(p.limit))| >= DrawsNeeded(n, p.chars)
  }

  /** The buffer holds the last bytes read, and the next draw is at the next byte not yet used. */
  ghost predicate Buffered(src: Source, buf: array<Octet>, bufPos: nat, start: nat, used: nat)
    reads src, buf
  {
    && buf.Length == 64 && bufPos <= 64 && src.pos >= 64
    && start + 8 * used == src.pos - 64 + bufPos
    && bufPos % 8 == 0
    && forall i | 0 <= i < 64 :: buf[i] == src.stream(src.pos - 64 + i)
  }

  /** The next draw, refilling the buffer when it is spent. */
  method NextDraw(src: Source, buf: array<Octet>, bufPos: nat, ghost start: nat, ghost used: nat)
    returns (r: nat, bufPos': nat)
    requires Buffered(src, buf, bufPos, start, used)
    modifies src, buf
    ensures Buffered(src, buf, bufPos', start, used + 1)
    ensures r == Draw(src.stream, start, used)
  {
    bufPos' := bufPos;
    if bufPos' + 8 > buf.Length {
      src.Read(buf);
      bufPos' := 0;
    }
    r := BigEndian(buf[bufPos'..bufPos' + 8]);
    assert buf[bufPos'..bufPos' + 8] == Prefix(src.stream, start + 8 * used, 8);
    bufPos' := bufPos' + 8;
  }

  /** The next draw below the threshold. */
  method NextAccepted(src: Source, buf: array<Octet>, bufPos: nat, threshold: nat,
                      ghost start: nat, ghost used: nat, ghost bound: nat)
    returns (r: nat, bufPos': nat, ghost used': nat)
    requires Buffered(src, buf, bufPos, start, used)
    requires |Accepted(src.stream, start, used, threshold)| < |Accepted(src.stream, start, bound, threshold)|
    modifies src, buf
    ensures Buffered(src, buf, bufPos', start, used')
    ensures r < threshold && used' > used && r == Draw(src.stream, start, used' - 1)
    ensures Accepted(src.stream, start, used', threshold) == Accepted(src.stream, start, used, threshold) + [r]
  {
    bufPos', used' := bufPos, used;
    while true
      invariant Buffered(src, buf, bufPos', start, used') && used' >= used
      invariant Accepted(src.stream, start, used', threshold) == Accepted(src.stream, start, used, threshold)
      decreases bound - used'
    {
      if used' >= bound {
        AcceptedGrows(src.stream, start, bound, used', threshold);
      }
      r, bufPos' := NextDraw(src, buf, bufPos', start, used');
      used' := used' + 1;
      if r < threshold {
        break;
      }
    }
  }

  /** Writes the batch lowest digits of r at pos. */
  method WriteDigits(out: array<char>, pos: nat, batch: nat, r: nat, alphabet: string)
    requires |alphabet| > 0 && pos + batch <= out.Length
    modifies out
    ensures out[..pos + batch] == old(out[..pos]) + Digits(r, batch, alphabet)
  {
    var d: nat := r;
    for i := 0 to batch
      invariant out[..pos + i] + Digits(d, batch - i, alphabet) == old(out[..pos]) + Digits(r, batch, alphabet)
    {
      ghost var rest := Digits(Div(d, |alphabet|), batch - i - 1, alphabet);
      assert Digits(d, batch - i, alphabet) == [alphabet[Mod(d, |alphabet|)]] + rest;
      out[pos + i] := alphabet[Mod(d, |alphabet|)];
      d := Div(d, |alphabet|);
      assert out[..pos + i + 1] == out[..pos + i] + [out[pos + i]];
    }
    assert Digits(d, 0, alphabet) == "";
  }

  /** Writes what draw r is worth at pos: a full batch, or what is left of out. */
  method WriteBatch(out: array<char>, pos: nat, r: nat, p: Packing, alphabet: string) returns (batch: nat)
    requires |alphabet| > 0 && p.chars >= 1 && p.limit > 0 && pos < out.Length
    modifies out
    ensures batch == Batch(out.Length - pos, p.chars)
    ensures out[..pos + batch] == old(out[..pos]) + Speller(p.limit, alphabet)(r, batch)
  {
    batch := Batch(out.Length - pos, p.chars);
    WriteDigits(out, pos, batch, Mod(r, p.limit), alphabet);
  }

  /** The characters so far are the output of the accepted draws, in full batches until the last. */
  ghost predicate Spelled(text: string, draws: seq<nat>, n: nat, m: nat, spell: (nat, nat) -> string)
    requires m >= 1
  {
    && |text| <= n
    && (|text| < n ==> |text| == Full(|draws|, m))
    && DrawsNeeded(|text|, m) == |draws|
    && text == Output(draws, |text|, m, spell)
  }

  lemma SpellMore(text: string, draws: seq<nat>, r: nat, n: nat, m: nat, spell: (nat, nat) -> string)
    requires m >= 1 && SpellsCount(spell) && |text| < n
    requires Spelled(text, draws, n, m, spell)
    ensures Spelled(text + spell(r, Batch(n - |text|, m)), draws + [r], n, m, spell)
  {
    OutputGrows(draws, r, Batch(n - |text|, m), m, spell);
    assert (draws + [r])[..|draws|] == draws;
  }

  /**
   The string is the output of the first accepted draws of the stream, as many as it needs and none read
   after the last: bytes
   are taken eight at a time from where the stream stood, each once, and none beyond what was read.
   It terminates on every stream with enough accepted draws.
   */
  method Alphanumeric(n: int, alphabet: string, src: Source, ghost bound: nat)
    returns (result: Result, ghost used: nat)
    requires |alphabet| < TWO_64
    requires Enough(src.stream, src.pos, bound, n, alphabet)
    modifies src
    ensures result.Panics? <==> n < 0 || |alphabet| < 2
    ensures result.Returns? ==>
              var p := PackingOf(|alphabet|);
              && 0 < p.limit < TWO_64 && p.chars >= 1
              && var draws := Accepted(src.stream, old(src.pos), used, Threshold(p.limit));
                 && |draws| == DrawsNeeded(n, p.chars)
                 && result.text == Output(draws, n, p.chars, Speller(p.limit, alphabet))
                 && old(src.pos) + 8 * used <= src.pos
                 && (used > 0 ==> Draw(src.stream, old(src.pos), used - 1) < Threshold(p.limit))
  {
    used := 0;
    if n < 0 || |alphabet| < 2 {
      return Panics, used;
    }
    var p := Pack(|alphabet|);
    var text;
    text, used := Generate(n, alphabet, p, Threshold(p.limit), src, bound);
    result := Returns(text);
  }

  /** One round of the loop: it takes the next accepted draw and writes what it is worth. */
  method NextBatch(src: Source, buf: array<Octet>, bufPos: nat, out: array<char>, pos: nat,
                   alphabet: string, p: Packing, threshold: nat, ghost start: nat, ghost used: nat, ghost bound: nat)
    returns (bufPos': nat, pos': nat, ghost used': nat)
    requires |alphabet| > 0 && p.chars >= 1 && p.limit > 0 && pos < out.Length
    requires Buffered(src, buf, bufPos, start, used)
    requires Spelled(out[..pos], Accepted(src.stream, start, used, threshold), out.Length, p.chars,
                     Speller(p.limit, alphabet))
    requires |Accepted(src.stream, start, bound, threshold)| >= DrawsNeeded(out.Length, p.chars)
    modifies src, buf, out
    ensures pos < pos' <= out.Length && used' > 0 && Draw(src.stream, start, used' - 1) < threshold
    ensures Buffered(src, buf, bufPos', start, used')
    ensures Spelled(out[..pos'], Accepted(src.stream, start, used', threshold), out.Length, p.chars,
                    Speller(p.limit, alphabet))
  {
    ghost var draws, text := Accepted(src.stream, start, used, threshold), out[..pos];
    NeedsMore(out.Length, p.chars, |draws|);
    var r;
    r, bufPos', used' := NextAccepted(src, buf, bufPos, threshold, start, used, bound);
    SpellerCounts(p.limit, alphabet);
    SpellMore(text, draws, r, out.Length, p.chars, Speller(p.limit, alphabet));
    var batch := WriteBatch(out, pos, r, p, alphabet);
    pos' := pos + batch;
  }

  /** The rejection loop. */
  method Generate(n: nat, alphabet: string, p: Packing, threshold: nat, src: Source, ghost bound: nat)
    returns (text: string, ghost used: nat)
    requires |alphabet| > 0 && p.chars >= 1 && p.limit > 0
    requires |Accepted(src.stream, src.pos, bound, threshold)| >= DrawsNeeded(n, p.chars)
    modifies src
    ensures var draws := Accepted(src.stream, old(src.pos), used, threshold);
            && |draws| == DrawsNeeded(n, p.chars)
            && text == Output(draws, n, p.chars, Speller(p.limit, alphabet))
            && old(src.pos) + 8 * used <= src.pos
            && (used > 0 ==> Draw(src.stream, old(src.pos), used - 1) < threshold)
  {
    ghost var start := src.pos;
    used := 0;
    var buf := new Octet[64];
    src.Read(buf);
    var bufPos := 0;
    var out := new char[n];
    var pos := 0;
    while pos < n
      invariant pos <= n && (used > 0 ==> Draw(src.stream, start, used - 1) < threshold)
      invariant Buffered(src, buf, bufPos, start, used)
      invariant Spelled(out[..pos], Accepted(src.stream, start, used, threshold), n, p.chars,
                        Speller(p.limit, alphabet))
    {
      bufPos, pos, used := NextBatch(src, buf, bufPos, out, pos, alphabet, p, threshold, start, used, bound);
    }
    assert out[..] == out[..n];
    text := out[..];
  }

  lemma {:induction false} NeedsMore(n: nat, m: nat, k: nat)
    requires m >= 1 && Full(k, m) < n
    ensures k < DrawsNeeded(n, m)
  {
    if k > 0 {
      NeedsMore(n - m, m, k - 1);
    }
  }
}
