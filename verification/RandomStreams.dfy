/**
 Random strings over the bytes they are made from (server/pkg/random/random.go): what the draws are, and
 that every string comes from the same number of byte streams, rejected draws included.
 */
module RandomStreams {
  import opened Prelude
  import opened Random

  // ---------------------------------------------------------------- bytes and draws

  /** n as k bytes, highest first. */
  function BytesOf(n: nat, k: nat): (b: seq<Octet>)
    ensures |b| == k
  {
    if k == 0 then [] else BytesOf(n / 256, k - 1) + [n % 256]
  }

  lemma {:induction false} NumberOfBytes(n: nat, k: nat)
    requires n < Pow(256, k)
    ensures BigEndian(BytesOf(n, k)) == n
  {
    if k > 0 {
      var front := BytesOf(n / 256, k - 1);
      assert BytesOf(n, k)[..k - 1] == front;
      NumberOfBytes(n / 256, k - 1);
    }
  }

  lemma {:induction false} BytesOfNumber(b: seq<Octet>)
    ensures BigEndian(b) < Pow(256, |b|) && BytesOf(BigEndian(b), |b|) == b
  {
    if b != [] {
      BytesOfNumber(b[..|b| - 1]);
      assert b == b[..|b| - 1] + [b[|b| - 1]];
    }
  }

  /** Byte e of a number, counting from the lowest. */
  function ByteAt(n: nat, e: nat): nat {
    if e == 0 then n % 256 else ByteAt(n / 256, e - 1)
  }

  lemma {:induction false} ByteAtIs(n: nat, e: nat)
    ensures Pow(256, e) > 0 && ByteAt(n, e) == (n / Pow(256, e)) % 256
  {
    PowPositive(256, e);
    if e == 0 {
      assert Pow(256, 0) == 1;
    } else {
      PowPositive(256, e - 1);
      ByteAtIs(n / 256, e - 1);
      DivTwice(n, Pow(256, e - 1));
    }
  }

  /** Dividing by 256 * m drops the last byte, then divides by m. */
  lemma DivTwice(n: nat, m: nat)
    requires m > 0
    ensures 256 * m > 0 && n / (256 * m) == (n / 256) / m
  {
    var q, r := (n / 256) / m, (n / 256) % m;
    assert n / 256 == m * q + r;
    assert 256 * (m * q) == (256 * m) * q;
    DivMul(n, 256 * m, q, 256 * r + n % 256);
  }

  lemma {:induction false} ByteOfNumber(b: seq<Octet>, j: nat)
    requires j < |b|
    ensures ByteAt(BigEndian(b), |b| - 1 - j) == b[j]
  {
    var front, last := b[..|b| - 1], b[|b| - 1];
    assert (256 * BigEndian(front) + last) / 256 == BigEndian(front);
    if j < |b| - 1 {
      ByteOfNumber(front, j);
    }
  }

  /** Byte j of draw k is stream byte 8k + j from the start: each draw is eight bytes of its own, in order. */
  lemma DrawBytes(stream: nat -> Octet, start: nat, k: nat, j: nat)
    requires j < 8
    ensures ByteAt(Draw(stream, start, k), 7 - j) == stream(start + 8 * k + j)
  {
    ByteOfNumber(Prefix(stream, start + 8 * k, 8), j);
  }

  /** A string of bytes as groups of eight. */
  function Groups(bytes: seq<Octet>): (g: seq<seq<Octet>>)
    ensures forall group | group in g :: |group| == 8
  {
    if |bytes| < 8 then [] else [bytes[..8]] + Groups(bytes[8..])
  }

  function Join(groups: seq<seq<Octet>>): seq<Octet> {
    if groups == [] then [] else groups[0] + Join(groups[1..])
  }

  lemma {:induction false} JoinGroups(bytes: seq<Octet>, n: nat)
    requires |bytes| == 8 * n
    ensures |Groups(bytes)| == n && Join(Groups(bytes)) == bytes
  {
    if n > 0 {
      JoinGroups(bytes[8..], n - 1);
      assert bytes == bytes[..8] + bytes[8..];
    }
  }

  lemma {:induction false} GroupsJoin(groups: seq<seq<Octet>>)
    requires forall group | group in groups :: |group| == 8
    ensures |Join(groups)| == 8 * |groups| && Groups(Join(groups)) == groups
  {
    if groups != [] {
      var first, rest := groups[0], groups[1..];
      assert first in groups && forall group | group in rest :: group in groups;
      GroupsJoin(rest);
      assert (first + Join(rest))[..8] == first && (first + Join(rest))[8..] == Join(rest);
    }
  }

  /** The draws that a string of bytes holds. */
  function DrawsOf(bytes: seq<Octet>): (draws: seq<nat>)
    ensures |draws| == |Groups(bytes)|
    ensures forall i | 0 <= i < |draws| :: draws[i] == BigEndian(Groups(bytes)[i])
  {
    seq(|Groups(bytes)|, i requires 0 <= i < |Groups(bytes)| => BigEndian(Groups(bytes)[i]))
  }

  function BytesOfDraws(draws: seq<nat>): seq<Octet> {
    Join(GroupsOfDraws(draws))
  }

  function GroupsOfDraws(draws: seq<nat>): (g: seq<seq<Octet>>)
    ensures |g| == |draws| && forall i | 0 <= i < |g| :: g[i] == BytesOf(draws[i], 8)
    ensures forall group | group in g :: |group| == 8
  {
    seq(|draws|, i requires 0 <= i < |draws| => BytesOf(draws[i], 8))
  }

  lemma SixtyFourBits()
    ensures Pow(256, 8) == TWO_64
  {
    assert Pow(256, 2) == 65536 && Pow(256, 4) == 65536 * 65536;
  }

  predicate AllBelow(draws: seq<nat>, t: nat) {
    forall d | d in draws :: d < t
  }

  lemma DrawToBytes(d: nat)
    requires d < TWO_64
    ensures BigEndian(BytesOf(d, 8)) == d
  {
    SixtyFourBits();
    NumberOfBytes(d, 8);
  }

  lemma BytesToDraw(b: seq<Octet>)
    requires |b| == 8
    ensures BigEndian(b) < TWO_64 && BytesOf(BigEndian(b), 8) == b
  {
    SixtyFourBits();
    BytesOfNumber(b);
  }

  /** Draws and groups of eight bytes are in bijection: each sequence of uint64 values comes from exactly one string. */
  lemma DrawsOfBytes(draws: seq<nat>)
    requires AllBelow(draws, TWO_64)
    ensures |BytesOfDraws(draws)| == 8 * |draws| && DrawsOf(BytesOfDraws(draws)) == draws
  {
    GroupsJoin(GroupsOfDraws(draws));
    forall i | 0 <= i < |draws| ensures DrawsOf(BytesOfDraws(draws))[i] == draws[i] {
      assert draws[i] in draws;
      DrawToBytes(draws[i]);
    }
  }

  lemma BytesOfDrawsOf(bytes: seq<Octet>, n: nat)
    requires |bytes| == 8 * n
    ensures |DrawsOf(bytes)| == n && AllBelow(DrawsOf(bytes), TWO_64) && BytesOfDraws(DrawsOf(bytes)) == bytes
  {
    JoinGroups(bytes, n);
    var groups, draws := Groups(bytes), DrawsOf(bytes);
    forall i | 0 <= i < n ensures draws[i] < TWO_64 && GroupsOfDraws(draws)[i] == groups[i] {
      assert groups[i] in groups;
      BytesToDraw(groups[i]);
    }
    assert GroupsOfDraws(draws) == groups;
  }

  lemma {:induction false} LastGroup(bytes: seq<Octet>, last: seq<Octet>, n: nat)
    requires |bytes| == 8 * n && |last| == 8
    ensures Groups(bytes + last) == Groups(bytes) + [last]
  {
    if n == 0 {
      assert bytes + last == last && last[..8] == last && last[8..] == [];
    } else {
      assert (bytes + last)[..8] == bytes[..8] && (bytes + last)[8..] == bytes[8..] + last;
      LastGroup(bytes[8..], last, n - 1);
    }
  }

  /** The draws of a stream's first bytes, one by one. */
  lemma OneMoreDraw(stream: nat -> Octet, start: nat, n: nat)
    ensures DrawsOf(Prefix(stream, start, 8 * n + 8))
            == DrawsOf(Prefix(stream, start, 8 * n)) + [Draw(stream, start, n)]
  {
    var front, last := Prefix(stream, start, 8 * n), Prefix(stream, start + 8 * n, 8);
    assert Prefix(stream, start, 8 * n + 8) == front + last;
    LastGroup(front, last, n);
  }

  // ---------------------------------------------------------------- when the loop stops

  /** The draws that are accepted. */
  function Kept(draws: seq<nat>, t: nat): seq<nat> {
    if draws == [] then [] else (if draws[0] < t then [draws[0]] else []) + Kept(draws[1..], t)
  }

  /** The loop reads these draws and no more, and accepts these of them. */
  predicate Stops(draws: seq<nat>, accepted: seq<nat>, t: nat) {
    Kept(draws, t) == accepted && (draws != [] ==> draws[|draws| - 1] < t)
  }

  lemma {:induction false} KeptAppends(draws: seq<nat>, d: nat, t: nat)
    ensures Kept(draws + [d], t) == Kept(draws, t) + if d < t then [d] else []
  {
    if draws == [] {
      assert (draws + [d])[1..] == [];
    } else {
      assert (draws + [d])[1..] == draws[1..] + [d];
      KeptAppends(draws[1..], d, t);
    }
  }

  /** acc keeps those below t of the draws that all lists. */
  ghost predicate Keeps(acc: nat -> seq<nat>, all: nat -> seq<nat>, draw: nat -> nat, t: nat) {
    && acc(0) == [] && all(0) == []
    && (forall m: nat :: acc(m + 1) == acc(m) + if draw(m) < t then [draw(m)] else [])
    && (forall m: nat :: all(m + 1) == all(m) + [draw(m)])
  }

  lemma {:induction false} KeepsKept(acc: nat -> seq<nat>, all: nat -> seq<nat>, draw: nat -> nat, t: nat, n: nat)
    requires Keeps(acc, all, draw, t)
    ensures acc(n) == Kept(all(n), t)
  {
    if n > 0 {
      var m := n - 1;
      KeepsKept(acc, all, draw, t, m);
      KeptAppends(all(m), draw(m), t);
      assert acc(m + 1) == Kept(all(m + 1), t);
    }
  }

  lemma AcceptedIsKept(stream: nat -> Octet, start: nat, n: nat, t: nat)
    ensures Accepted(stream, start, n, t) == Kept(DrawsOf(Prefix(stream, start, 8 * n)), t)
  {
    var acc := (m: nat) => Accepted(stream, start, m, t);
    var all := (m: nat) => DrawsOf(Prefix(stream, start, 8 * m));
    var draw := (m: nat) => Draw(stream, start, m);
    forall m: nat
      ensures acc(m + 1) == acc(m) + if draw(m) < t then [draw(m)] else []
      ensures all(m + 1) == all(m) + [draw(m)]
    {
      OneMoreDraw(stream, start, m);
      assert 8 * (m + 1) == 8 * m + 8;
    }
    assert all(0) == [];
    KeepsKept(acc, all, draw, t, n);
  }

  // ---------------------------------------------------------------- counting the draws

  /** x times y, one x at a time. */
  function Times(x: nat, y: nat): nat {
    if x == 0 then 0 else y + Times(x - 1, y)
  }

  lemma {:induction false} TimesIs(x: nat, y: nat)
    ensures Times(x, y) == x * y
  {
    if x > 0 {
      TimesIs(x - 1, y);
      OneMore(x - 1, y);
    }
  }

  lemma {:induction false} BelowCount(t: nat)
    ensures |Below(t)| == t
  {
    if t > 0 {
      BelowCount(t - 1);
      assert t - 1 !in Below(t - 1);
    }
  }

  /** The values below top that are rejected. */
  function Rejected(top: nat, t: nat): set<nat> {
    Below(top) - Below(t)
  }

  lemma RejectedCount(top: nat, t: nat)
    requires t <= top
    ensures |Rejected(top, t)| == top - t && Rejects(Rejected(top, t), t, top)
  {
    BelowCount(top);
    BelowCount(t);
    assert Below(t) <= Below(top);
  }

  /** How many there are for n accepted draws, when each of the others is one of r values. */
  function Stoppings(k: nat, n: nat, r: nat): nat {
    if n == 0 then if k == 0 then 1 else 0
    else if k == 0 then 0
    else Times(r, Stoppings(k - 1, n, r)) + Stoppings(k - 1, n - 1, r)
  }

  lemma StopsFirst(draws: seq<nat>, accepted: seq<nat>, t: nat)
    requires draws != [] && accepted != [] && AllBelow(accepted, t)
    ensures Stops(draws, accepted, t)
            <==> || (draws[0] >= t && Stops(draws[1..], accepted, t))
                 || (draws[0] == accepted[0] && Stops(draws[1..], accepted[1..], t))
  {
    assert accepted[0] in accepted && accepted == [accepted[0]] + accepted[1..];
    var rest := Kept(draws[1..], t);
    assert |draws| > 1 ==> draws[1..][|draws| - 2] == draws[|draws| - 1];
    if draws[0] < t {
      assert Kept(draws, t) == [draws[0]] + rest;
      assert ([draws[0]] + rest)[1..] == rest && accepted[1..] != accepted;
    } else {
      assert Kept(draws, t) == rest;
    }
  }

  lemma KeptNothing(draws: seq<nat>, t: nat)
    requires Stops(draws, [], t)
    ensures draws == []
  {
    if draws != [] {
      var front, last := draws[..|draws| - 1], draws[|draws| - 1];
      assert draws == front + [last];
      KeptAppends(front, last, t);
    }
  }

  lemma BelowFirst(draws: seq<nat>, t: nat)
    requires draws != []
    ensures AllBelow(draws, t) <==> draws[0] < t && AllBelow(draws[1..], t)
  {
    assert draws == [draws[0]] + draws[1..] && draws[0] in draws;
    assert forall d :: d in draws <==> d == draws[0] || d in draws[1..];
  }

  /** Sequences with a first draw that is rejected and a rest in a, or with this head and a rest in b. */
  function Branch(rejected: set<nat>, a: set<seq<nat>>, head: nat, b: set<seq<nat>>): set<seq<nat>> {
    Product(rejected, a) + Product({head}, b)
  }

  type Branching = (set<nat>, set<seq<nat>>, nat, set<seq<nat>>) -> set<seq<nat>>

  /** What is used of Branch: its members and its size. */
  ghost predicate BranchHere(
      step: Branching, rejected: set<nat>, a: set<seq<nat>>, head: nat, b: set<seq<nat>>)
  {
    && (forall draws :: draws in step(rejected, a, head, b)
                        <==> draws != [] && ((draws[0] in rejected && draws[1..] in a)
                                             || (draws[0] == head && draws[1..] in b)))
    && (head !in rejected ==> |step(rejected, a, head, b)| == Times(|rejected|, |a|) + |b|)
  }

  ghost predicate Branches(step: Branching) {
    forall rejected, a, head: nat, b :: BranchHere(step, rejected, a, head, b)
  }

  lemma BranchBranches()
    ensures Branches(Branch)
  {
    forall rejected, a, head: nat, b ensures BranchHere(Branch, rejected, a, head, b) {
      if head !in rejected {
        ProductCount(rejected, a);
        TimesIs(|rejected|, |a|);
        PrependCount(head, b);
        assert Product(rejected, a) !! Product({head}, b);
      }
    }
  }

  /** The sequences of k draws after which the loop stops with these accepted, given the values it rejects. */
  function StopSet(step: Branching, rejected: set<nat>, k: nat, accepted: seq<nat>): set<seq<nat>> {
    if accepted == [] then if k == 0 then {[]} else {}
    else if k == 0 then {}
    else step(rejected, StopSet(step, rejected, k - 1, accepted), accepted[0],
              StopSet(step, rejected, k - 1, accepted[1..]))
  }

  /** The values from t up to top are rejected. */
  ghost predicate Rejects(rejected: set<nat>, t: nat, top: nat) {
    t <= top && forall d: nat :: d in rejected <==> t <= d < top
  }

  /** The loop reads k draws and no more, of values below top, and accepts these. */
  predicate StopsAfter(draws: seq<nat>, k: nat, accepted: seq<nat>, t: nat, top: nat) {
    |draws| == k && AllBelow(draws, top) && Stops(draws, accepted, t)
  }

  lemma StopsAfterFirst(rejected: set<nat>, k: nat, accepted: seq<nat>, t: nat, top: nat, draws: seq<nat>)
    requires AllBelow(accepted, t) && Rejects(rejected, t, top) && k > 0 && accepted != [] && draws != []
    ensures StopsAfter(draws, k, accepted, t, top)
            <==> || (draws[0] in rejected && StopsAfter(draws[1..], k - 1, accepted, t, top))
                 || (draws[0] == accepted[0] && StopsAfter(draws[1..], k - 1, accepted[1..], t, top))
  {
    assert accepted[0] in accepted;
    StopsFirst(draws, accepted, t);
    BelowFirst(draws, top);
  }

  lemma StopsAtEnds(k: nat, accepted: seq<nat>, t: nat, top: nat, draws: seq<nat>)
    requires accepted == [] || draws == [] || k == 0
    ensures StopsAfter(draws, k, accepted, t, top) <==> accepted == [] && draws == [] && k == 0
  {
    if accepted == [] && Stops(draws, [], t) {
      KeptNothing(draws, t);
    }
    assert Kept([], t) == [];
  }

  lemma {:induction false} StopSetMember(
      step: Branching, rejected: set<nat>, k: nat, accepted: seq<nat>, t: nat, top: nat, draws: seq<nat>)
    requires Branches(step) && AllBelow(accepted, t) && Rejects(rejected, t, top)
    ensures draws in StopSet(step, rejected, k, accepted) <==> StopsAfter(draws, k, accepted, t, top)
    decreases k
  {
    if accepted != [] && k > 0 {
      assert BranchHere(step, rejected, StopSet(step, rejected, k - 1, accepted), accepted[0],
                        StopSet(step, rejected, k - 1, accepted[1..]));
    }
    if accepted == [] || draws == [] || k == 0 {
      StopsAtEnds(k, accepted, t, top, draws);
    } else {
      assert forall d | d in accepted[1..] :: d in accepted;
      StopSetMember(step, rejected, k - 1, accepted, t, top, draws[1..]);
      StopSetMember(step, rejected, k - 1, accepted[1..], t, top, draws[1..]);
      StopsAfterFirst(rejected, k, accepted, t, top, draws);
    }
  }

  lemma {:induction false} StopSetCount(step: Branching, rejected: set<nat>, k: nat, accepted: seq<nat>)
    requires Branches(step) && forall d | d in accepted :: d !in rejected
    ensures |StopSet(step, rejected, k, accepted)| == Stoppings(k, |accepted|, |rejected|)
    decreases k
  {
    if accepted != [] && k > 0 {
      assert accepted[0] in accepted && forall d | d in accepted[1..] :: d in accepted;
      StopSetCount(step, rejected, k - 1, accepted);
      StopSetCount(step, rejected, k - 1, accepted[1..]);
      assert BranchHere(step, rejected, StopSet(step, rejected, k - 1, accepted), accepted[0],
                        StopSet(step, rejected, k - 1, accepted[1..]));
    }
  }

  /** What f gives for all of these together. */
  ghost function Union<T(!new)>(all: set<T>, f: T -> set<T>): (r: set<T>)
    ensures forall y :: y in r <==> exists x | x in all :: y in f(x)
  {
    var r := set x, y | x in all && y in f(x) :: y;
    assert forall y, x | x in all && y in f(x) :: y in r;
    r
  }

  lemma {:induction false} UnionCount<T(!new)>(all: set<T>, f: T -> set<T>, c: nat)
    requires forall x | x in all :: |f(x)| == c
    requires forall x, x' | x in all && x' in all && x != x' :: f(x) !! f(x')
    ensures |Union(all, f)| == Times(|all|, c)
    decreases |all|
  {
    if all == {} {
      assert Union(all, f) == {};
    } else {
      var x :| x in all;
      var others := all - {x};
      UnionCount(others, f, c);
      UnionSplits(all, f, x);
      assert |all| == |others| + 1;
    }
  }

  lemma UnionSplits<T(!new)>(all: set<T>, f: T -> set<T>, x: T)
    requires x in all
    requires forall x, x' | x in all && x' in all && x != x' :: f(x) !! f(x')
    ensures |Union(all, f)| == |f(x)| + |Union(all - {x}, f)|
  {
    var others := Union(all - {x}, f);
    assert f(x) !! others;
    forall y ensures y in Union(all, f) <==> y in f(x) + others {
      if y in Union(all, f) {
        var x' :| x' in all && y in f(x');
        assert x' == x || x' in all - {x};
      }
    }
    assert Union(all, f) == f(x) + others;
  }

  /** The sequences of k draws after which the loop stops, by the draws it accepts. */
  function StopSets(step: Branching, rejected: set<nat>, k: nat): seq<nat> -> set<seq<nat>> {
    accepted => StopSet(step, rejected, k, accepted)
  }

  lemma StopUnionCount(step: Branching, rejected: set<nat>, k: nat, all: set<seq<nat>>, n: nat, t: nat, top: nat)
    requires Branches(step) && Rejects(rejected, t, top)
    requires forall accepted | accepted in all :: |accepted| == n && AllBelow(accepted, t)
    ensures |Union(all, StopSets(step, rejected, k))| == Times(|all|, Stoppings(k, n, |rejected|))
  {
    var f := StopSets(step, rejected, k);
    forall x | x in all ensures |f(x)| == Stoppings(k, n, |rejected|) {
      StopSetCount(step, rejected, k, x);
    }
    forall x, x' | x in all && x' in all && x != x' ensures f(x) !! f(x') {
      forall draws ensures !(draws in f(x) && draws in f(x')) {
        StopSetMember(step, rejected, k, x, t, top, draws);
        StopSetMember(step, rejected, k, x', t, top, draws);
      }
    }
    UnionCount(all, f, Stoppings(k, n, |rejected|));
  }

  lemma {:induction false} FewestDraws(n: nat, r: nat)
    ensures Stoppings(n, n, r) > 0
  {
    if n > 0 {
      FewestDraws(n - 1, r);
    }
  }

  lemma {:induction false} DrawSequencesBelow(draws: seq<nat>, t: nat)
    ensures draws in DrawSequences(|draws|, t) <==> AllBelow(draws, t)
  {
    if draws != [] {
      BelowFirst(draws, t);
      DrawSequencesBelow(draws[1..], t);
    }
  }

  // ---------------------------------------------------------------- counting the streams

  /** All strings of k bytes. */
  function ByteStrings(k: nat): (r: set<seq<Octet>>)
    ensures forall b :: b in r <==> |b| == k
  {
    if k == 0 then
      assert forall b: seq<Octet> :: |b| == 0 <==> b in {[]};
      {[]}
    else
      var r := set x: Octet, rest | 0 <= x < 256 && rest in ByteStrings(k - 1) :: [x] + rest;
      assert forall b: seq<Octet> | |b| == k :: b == [b[0]] + b[1..] && b[1..] in ByteStrings(k - 1);
      r
  }

  /** The loop, reading these bytes, reads all of them and returns w. */
  predicate Gives(bytes: seq<Octet>, w: string, m: nat, t: nat, spell: (nat, nat) -> string)
    requires m >= 1
  {
    var accepted := Kept(DrawsOf(bytes), t);
    && Stops(DrawsOf(bytes), accepted, t)
    && |accepted| == DrawsNeeded(|w|, m) && Output(accepted, |w|, m, spell) == w
  }

  /** The strings of 8k bytes for which it does. */
  function Streams(k: nat, w: string, m: nat, t: nat, spell: (nat, nat) -> string): set<seq<Octet>>
    requires m >= 1
  {
    set bytes | bytes in ByteStrings(8 * k) && Gives(bytes, w, m, t, spell)
  }

  /** Sets that two functions take into each other, one undoing the other, are of one size. */
  lemma {:induction false} SameSize<A(!new), B(!new)>(a: set<A>, b: set<B>, f: A -> B, g: B -> A)
    requires forall x | x in a :: f(x) in b && g(f(x)) == x
    requires forall y | y in b :: g(y) in a && f(g(y)) == y
    ensures |a| == |b|
  {
    if a == {} {
      assert b == {};
    } else {
      var x :| x in a;
      SameSize(a - {x}, b - {f(x)}, f, g);
    }
  }

  lemma KeptBelow(draws: seq<nat>, t: nat)
    ensures AllBelow(Kept(draws, t), t)
  {
  }

  lemma PreimagesBelow(w: string, m: nat, t: nat, spell: (nat, nat) -> string)
    requires m >= 1
    ensures forall accepted | accepted in Preimages(w, m, t, spell) ::
              |accepted| == DrawsNeeded(|w|, m) && AllBelow(accepted, t)
  {
    forall accepted | accepted in Preimages(w, m, t, spell)
      ensures |accepted| == DrawsNeeded(|w|, m) && AllBelow(accepted, t)
    {
      DrawSequencesBelow(accepted, t);
    }
  }

  lemma StreamIsDraws(
      bytes: seq<Octet>, step: Branching, rejected: set<nat>, k: nat, w: string, m: nat, t: nat,
      spell: (nat, nat) -> string)
    requires Branches(step) && m >= 1 && Rejects(rejected, t, TWO_64) && |bytes| == 8 * k
    ensures Gives(bytes, w, m, t, spell)
            <==> DrawsOf(bytes) in Union(Preimages(w, m, t, spell), StopSets(step, rejected, k))
  {
    var draws := DrawsOf(bytes);
    var accepted := Kept(draws, t);
    BytesOfDrawsOf(bytes, k);
    KeptBelow(draws, t);
    DrawSequencesBelow(accepted, t);
    PreimagesBelow(w, m, t, spell);
    StopSetMember(step, rejected, k, accepted, t, TWO_64, draws);
    if Gives(bytes, w, m, t, spell) {
      assert accepted in Preimages(w, m, t, spell) && draws in StopSets(step, rejected, k)(accepted);
    }
    forall x | x in Preimages(w, m, t, spell) && draws in StopSets(step, rejected, k)(x) ensures x == accepted {
      StopSetMember(step, rejected, k, x, t, TWO_64, draws);
    }
  }

  lemma UnionDraws(
      draws: seq<nat>, step: Branching, rejected: set<nat>, k: nat, w: string, m: nat, t: nat,
      spell: (nat, nat) -> string)
    requires Branches(step) && m >= 1 && Rejects(rejected, t, TWO_64)
    requires draws in Union(Preimages(w, m, t, spell), StopSets(step, rejected, k))
    ensures |draws| == k && AllBelow(draws, TWO_64)
  {
    PreimagesBelow(w, m, t, spell);
    var x :| x in Preimages(w, m, t, spell) && draws in StopSets(step, rejected, k)(x);
    StopSetMember(step, rejected, k, x, t, TWO_64, draws);
  }

  lemma StreamsAreDraws(
      step: Branching, rejected: set<nat>, k: nat, w: string, m: nat, t: nat, spell: (nat, nat) -> string)
    requires Branches(step) && m >= 1 && Rejects(rejected, t, TWO_64)
    ensures |Streams(k, w, m, t, spell)| == |Union(Preimages(w, m, t, spell), StopSets(step, rejected, k))|
  {
    var a, b := Streams(k, w, m, t, spell), Union(Preimages(w, m, t, spell), StopSets(step, rejected, k));
    forall bytes | bytes in a ensures DrawsOf(bytes) in b && BytesOfDraws(DrawsOf(bytes)) == bytes {
      BytesOfDrawsOf(bytes, k);
      StreamIsDraws(bytes, step, rejected, k, w, m, t, spell);
    }
    forall draws | draws in b ensures BytesOfDraws(draws) in a && DrawsOf(BytesOfDraws(draws)) == draws {
      UnionDraws(draws, step, rejected, k, w, m, t, spell);
      DrawsOfBytes(draws);
      StreamIsDraws(BytesOfDraws(draws), step, rejected, k, w, m, t, spell);
    }
    SameSize(a, b, DrawsOf, BytesOfDraws);
  }

  lemma StreamCount(
      step: Branching, rejected: set<nat>, k: nat, w: string, m: nat, t: nat, spell: (nat, nat) -> string,
      all: set<seq<nat>>)
    requires Branches(step) && m >= 1 && Rejects(rejected, t, TWO_64) && all == Preimages(w, m, t, spell)
    ensures |Streams(k, w, m, t, spell)| == Times(|all|, Stoppings(k, DrawsNeeded(|w|, m), |rejected|))
  {
    StreamsAreDraws(step, rejected, k, w, m, t, spell);
    PreimagesBelow(w, m, t, spell);
    StopUnionCount(step, rejected, k, all, DrawsNeeded(|w|, m), t, TWO_64);
  }

  /** How many strings of 8k bytes Alphanumeric reads in full to return one string of n characters. */
  function StreamsPerString(k: nat, n: nat, size: nat): int
    requires 2 <= size < TWO_64 && 0 < PackingOf(size).limit < TWO_64 && PackingOf(size).chars >= 1
  {
    var p := PackingOf(size);
    Ways(n, p, size) * Stoppings(k, DrawsNeeded(n, p.chars), TWO_64 - Threshold(p.limit))
  }

  /** The strings of 8k bytes that Alphanumeric reads in full and returns w for. */
  function StreamsFor(k: nat, w: string, alphabet: string): set<seq<Octet>>
    requires 2 <= |alphabet| < TWO_64
    requires 0 < PackingOf(|alphabet|).limit < TWO_64 && PackingOf(|alphabet|).chars >= 1
  {
    var p := PackingOf(|alphabet|);
    Streams(k, w, p.chars, Threshold(p.limit), Speller(p.limit, alphabet))
  }

  /**
   Uniform over the bytes read, rejections included: however many draws are made, each string of n characters
   over the alphabet comes from the same number of byte strings, and from some when no draw is rejected.
   */
  lemma UniformOverStreams(w: string, k: nat, alphabet: string)
    requires 2 <= |alphabet| < TWO_64 && DuplicateFree(alphabet) && Over(w, alphabet)
    ensures 0 < PackingOf(|alphabet|).limit < TWO_64 && PackingOf(|alphabet|).chars >= 1
    ensures |StreamsFor(k, w, alphabet)| == StreamsPerString(k, |w|, |alphabet|)
    ensures k == DrawsNeeded(|w|, PackingOf(|alphabet|).chars) ==> StreamsPerString(k, |w|, |alphabet|) > 0
  {
    AlphanumericUniform(w, alphabet);
    StreamsForCount(w, k, alphabet);
    var p := PackingOf(|alphabet|);
    var r := TWO_64 - Threshold(p.limit);
    if k == DrawsNeeded(|w|, p.chars) {
      FewestDraws(k, r);
      MulPositive(Ways(|w|, p, |alphabet|), Stoppings(k, k, r));
    }
  }

  lemma StreamsForCount(w: string, k: nat, alphabet: string)
    requires 2 <= |alphabet| < TWO_64 && DuplicateFree(alphabet) && Over(w, alphabet)
    requires 0 < PackingOf(|alphabet|).limit < TWO_64 && PackingOf(|alphabet|).chars >= 1
    ensures |StreamsFor(k, w, alphabet)| == StreamsPerString(k, |w|, |alphabet|)
  {
    var p := PackingOf(|alphabet|);
    var t, spell := Threshold(p.limit), Speller(p.limit, alphabet);
    AlphanumericUniform(w, alphabet);
    RejectedCount(TWO_64, t);
    var all := Preimages(w, p.chars, t, spell);
    BranchBranches();
    StreamCount(Branch, Rejected(TWO_64, t), k, w, p.chars, t, spell, all);
    TimesIs(|all|, Stoppings(k, DrawsNeeded(|w|, p.chars), TWO_64 - t));
  }

  lemma GivesText(
      stream: nat -> Octet, start: nat, used: nat, n: nat, m: nat, t: nat, spell: (nat, nat) -> string, text: string)
    requires m >= 1 && SpellsCount(spell)
    requires var draws := Accepted(stream, start, used, t);
             |draws| == DrawsNeeded(n, m) && text == Output(draws, n, m, spell)
    requires used > 0 ==> Draw(stream, start, used - 1) < t
    ensures |text| == n && Gives(Prefix(stream, start, 8 * used), text, m, t, spell)
  {
    AcceptedIsKept(stream, start, used, t);
    OutputLength(Accepted(stream, start, used, t), n, m, spell);
    if used > 0 {
      OneMoreDraw(stream, start, used - 1);
    }
  }

  /** What Alphanumeric returns is the string its bytes are for: the bytes from where the stream stood, no others. */
  lemma ReturnsForItsBytes(stream: nat -> Octet, start: nat, used: nat, n: nat, alphabet: string, text: string)
    requires 2 <= |alphabet| < TWO_64
    requires 0 < PackingOf(|alphabet|).limit < TWO_64 && PackingOf(|alphabet|).chars >= 1
    requires var p := PackingOf(|alphabet|);
             var draws := Accepted(stream, start, used, Threshold(p.limit));
             && |draws| == DrawsNeeded(n, p.chars)
             && text == Output(draws, n, p.chars, Speller(p.limit, alphabet))
             && (used > 0 ==> Draw(stream, start, used - 1) < Threshold(p.limit))
    ensures |text| == n && Prefix(stream, start, 8 * used) in StreamsFor(used, text, alphabet)
  {
    var p := PackingOf(|alphabet|);
    var t, spell := Threshold(p.limit), Speller(p.limit, alphabet);
    SpellerCounts(p.limit, alphabet);
    GivesText(stream, start, used, n, p.chars, t, spell, text);
  }
}
