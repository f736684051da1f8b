/** resolveEdupassGroups and the sign-in decision made from it (server/internal/handler/auth.go). */
module EdupassGroups {
  import opened Prelude
  import opened Edupass

  // ---------------------------------------------------------------- sequences

  /** The elements p picks, in order. */
  function Filter<T>(s: seq<T>, p: T -> bool): seq<T> {
    if s == [] then []
    else Filter(s[..|s| - 1], p) + if p(s[|s| - 1]) then [s[|s| - 1]] else []
  }

  function Map<T, U>(s: seq<T>, f: T -> U): (r: seq<U>)
    ensures |r| == |s| && forall i | 0 <= i < |s| :: r[i] == f(s[i])
  {
    seq(|s|, i requires 0 <= i < |s| => f(s[i]))
  }

  /** First occurrences only. */
  function Dedup<T(==)>(s: seq<T>): seq<T> {
    if s == [] then []
    else
      var d := Dedup(s[..|s| - 1]);
      if s[|s| - 1] in d then d else d + [s[|s| - 1]]
  }

  /** d is a value of s that s shows at i and not before. */
  ghost predicate FirstAt<T(!new)>(s: seq<T>, x: T, i: nat) {
    i < |s| && s[i] == x && x !in s[..i]
  }

  /** Dedup keeps exactly the values of s, each once, in the order of their first occurrences. */
  lemma {:induction false} DedupKeepsFirsts<T(!new)>(s: seq<T>)
    ensures DuplicateFree(Dedup(s))
    ensures forall x :: x in Dedup(s) <==> x in s
    ensures var d := Dedup(s);
            forall i, j, k: nat, l: nat | 0 <= i < j < |d| && FirstAt(s, d[i], k) && FirstAt(s, d[j], l) :: k < l
  {
    if s != [] {
      var front, last := s[..|s| - 1], s[|s| - 1];
      DedupKeepsFirsts(front);
      assert s == front + [last];
      forall x, k: nat | FirstAt(s, x, k) && x in front ensures FirstAt(front, x, k) {
        if k < |front| {
          assert s[..k] == front[..k];
        }
      }
      var d := Dedup(s);
      forall i, j, k: nat, l: nat | 0 <= i < j < |d| && FirstAt(s, d[i], k) && FirstAt(s, d[j], l) ensures k < l {
        assert d[i] == Dedup(front)[i] && d[i] in front;
        if j < |Dedup(front)| {
          assert d[j] == Dedup(front)[j] && d[j] in front;
        } else {
          assert d[j] == last && last !in front;
          assert s[l] == last;
        }
      }
    }
  }

  lemma {:induction false} FilterCount<T>(s: seq<T>, p: T -> bool, x: T)
    ensures multiset(Filter(s, p))[x] == if p(x) then multiset(s)[x] else 0
  {
    if s != [] {
      FilterCount(s[..|s| - 1], p, x);
      assert s == s[..|s| - 1] + [s[|s| - 1]];
    }
  }

  lemma FilterMembers<T(!new)>(s: seq<T>, p: T -> bool)
    ensures forall x :: x in Filter(s, p) <==> x in s && p(x)
  {
    forall x ensures x in Filter(s, p) <==> x in s && p(x) {
      FilterCount(s, p, x);
      assert x in Filter(s, p) <==> x in multiset(Filter(s, p));
      assert x in s <==> x in multiset(s);
    }
  }

  lemma MapMembers<T(!new), U(!new)>(s: seq<T>, f: T -> U)
    ensures forall y :: y in Map(s, f) <==> exists x | x in s :: f(x) == y
  {
    forall y ensures y in Map(s, f) <==> exists x | x in s :: f(x) == y {
      if y in Map(s, f) {
        var i :| 0 <= i < |s| && Map(s, f)[i] == y;
        assert s[i] in s;
      }
      forall x | x in s && f(x) == y ensures y in Map(s, f) {
        var i :| 0 <= i < |s| && s[i] == x;
        assert Map(s, f)[i] == y;
      }
    }
  }

  // ---------------------------------------------------------------- the specification

  datatype Grant = Grant(location: string, code: string)

  datatype Groups = Groups(
    roles: seq<Grant>,
    attributes: seq<string>,
    unrecognized: seq<string>,
    removedMKRole: bool)

  function GrantOf(e: string, c: string -> Class): Grant {
    match c(e)
    case Role(location, code) => Grant(location, code)
    case Attribute(location, code) => Grant(location, code)
    case _ => Grant("", "")
  }

  function CodeOf(e: string, c: string -> Class): string {
    GrantOf(e, c).code
  }

  predicate IsRole(k: Class) {
    k.Role?
  }

  predicate IsAttribute(k: Class) {
    k.Attribute?
  }

  predicate IsOther(k: Class) {
    k.MKRole? || k.Unrecognized?
  }

  /** The entry grants an attribute at the location of the single base role. */
  predicate IsKept(e: string, roles: seq<Grant>, c: string -> Class) {
    c(e).Attribute? && |roles| == 1 && c(e).location == roles[0].location
  }

  function RoleEntries(raw: seq<string>, c: string -> Class): seq<string> {
    Filter(raw, IsOf(c, IsRole))
  }

  function AttributeEntries(raw: seq<string>, c: string -> Class): seq<string> {
    Filter(raw, IsOf(c, IsAttribute))
  }

  /** Entries that are neither a role nor an attribute. */
  function OtherEntries(raw: seq<string>, c: string -> Class): seq<string> {
    Filter(raw, IsOf(c, IsOther))
  }

  function IsOf(c: string -> Class, p: Class -> bool): string -> bool {
    e => p(c(e))
  }

  function KeptTest(roles: seq<Grant>, keep: bool, c: string -> Class): string -> bool {
    e => IsKept(e, roles, c) == keep
  }

  /** Of the attribute entries, those kept, or those dropped. */
  function Sorted(entries: seq<string>, roles: seq<Grant>, keep: bool, c: string -> Class): seq<string> {
    Filter(entries, KeptTest(roles, keep, c))
  }

  function Codes(entries: seq<string>, c: string -> Class): seq<string> {
    Map(entries, e => CodeOf(e, c))
  }

  function Grants(entries: seq<string>, c: string -> Class): seq<Grant> {
    Map(entries, e => GrantOf(e, c))
  }

  function Roles(raw: seq<string>, c: string -> Class): seq<Grant> {
    Dedup(Grants(RoleEntries(raw, c), c))
  }

  /** The attributes kept of these attribute entries. */
  function Attributes(entries: seq<string>, roles: seq<Grant>, c: string -> Class): seq<string> {
    Dedup(Codes(Sorted(entries, roles, true, c), c))
  }

  /** Entries that are neither a role nor an attribute, then attributes that are not kept. */
  function UnrecognizedOf(raw: seq<string>, roles: seq<Grant>, c: string -> Class): seq<string> {
    OtherEntries(raw, c) + Sorted(AttributeEntries(raw, c), roles, false, c)
  }

  predicate HasMKRole(raw: seq<string>, c: string -> Class) {
    exists e | e in raw :: c(e) == MKRole
  }

  /** c says what one entry is: Classify, for the server's app code. */
  function Resolve(raw: seq<string>, c: string -> Class): Groups {
    var roles := Roles(raw, c);
    var candidates := AttributeEntries(raw, c);
    Groups(
      roles,
      Attributes(candidates, roles, c),
      UnrecognizedOf(raw, roles, c),
      HasMKRole(raw, c))
  }

  // ---------------------------------------------------------------- the two loops

  lemma FilterAppends<T>(s: seq<T>, x: T, p: T -> bool)
    ensures Filter(s + [x], p) == Filter(s, p) + if p(x) then [x] else []
  {
    assert (s + [x])[..|s|] == s;
  }

  lemma DedupAppends<T>(s: seq<T>, x: T)
    ensures Dedup(s + [x]) == if x in Dedup(s) then Dedup(s) else Dedup(s) + [x]
  {
    assert (s + [x])[..|s|] == s;
  }

  lemma RolesAppend(raw: seq<string>, e: string, c: string -> Class)
    ensures Roles(raw + [e], c)
            == Roles(raw, c) + if c(e).Role? && GrantOf(e, c) !in Roles(raw, c) then [GrantOf(e, c)] else []
  {
    FilterAppends(raw, e, IsOf(c, IsRole));
    var entries := RoleEntries(raw, c);
    if c(e).Role? {
      assert Grants(entries + [e], c) == Grants(entries, c) + [GrantOf(e, c)];
      DedupAppends(Grants(entries, c), GrantOf(e, c));
    } else {
      assert RoleEntries(raw + [e], c) == entries;
    }
  }

  lemma OthersAppend(raw: seq<string>, e: string, c: string -> Class)
    ensures AttributeEntries(raw + [e], c) == AttributeEntries(raw, c) + if c(e).Attribute? then [e] else []
    ensures OtherEntries(raw + [e], c) == OtherEntries(raw, c) + if IsOther(c(e)) then [e] else []
    ensures HasMKRole(raw + [e], c) <==> HasMKRole(raw, c) || c(e) == MKRole
  {
    FilterAppends(raw, e, IsOf(c, IsAttribute));
    FilterAppends(raw, e, IsOf(c, IsOther));
    assert e in raw + [e];
  }

  lemma AttributesAppend(entries: seq<string>, e: string, roles: seq<Grant>, c: string -> Class)
    ensures Attributes(entries + [e], roles, c)
            == Attributes(entries, roles, c)
               + if IsKept(e, roles, c) && CodeOf(e, c) !in Attributes(entries, roles, c) then [CodeOf(e, c)] else []
  {
    FilterAppends(entries, e, KeptTest(roles, true, c));
    var kept := Sorted(entries, roles, true, c);
    if IsKept(e, roles, c) {
      assert Codes(kept + [e], c) == Codes(kept, c) + [CodeOf(e, c)];
      DedupAppends(Codes(kept, c), CodeOf(e, c));
    } else {
      assert Sorted(entries + [e], roles, true, c) == kept;
    }
  }

  method ResolveEntries(raw: seq<string>, c: string -> Class) returns (g: Groups)
    ensures g == Resolve(raw, c)
  {
    var roles: seq<Grant> := [];
    var candidates: seq<string> := [];
    var unrecognized: seq<string> := [];
    var removedMKRole := false;
    for i := 0 to |raw|
      invariant roles == Roles(raw[..i], c)
      invariant candidates == AttributeEntries(raw[..i], c)
      invariant unrecognized == OtherEntries(raw[..i], c)
      invariant removedMKRole == HasMKRole(raw[..i], c)
    {
      var entry := raw[i];
      assert raw[..i + 1] == raw[..i] + [entry];
      RolesAppend(raw[..i], entry, c);
      OthersAppend(raw[..i], entry, c);
      match c(entry)
      case Unrecognized => unrecognized := unrecognized + [entry];
      case MKRole =>
        unrecognized := unrecognized + [entry];
        removedMKRole := true;
      case Role(location, code) =>
        if Grant(location, code) !in roles {
          roles := roles + [Grant(location, code)];
        }
      case Attribute(_, _) => candidates := candidates + [entry];
    }
    assert raw[..|raw|] == raw;
    FilterMembers(raw, IsOf(c, IsAttribute));
    var attributes, dropped := KeepAttributes(candidates, roles, c);
    g := Groups(roles, attributes, unrecognized + dropped, removedMKRole);
  }

  /** The second loop: an attribute can arrive before its base role. */
  method KeepAttributes(candidates: seq<string>, roles: seq<Grant>, c: string -> Class)
    returns (attributes: seq<string>, dropped: seq<string>)
    requires forall e | e in candidates :: c(e).Attribute?
    ensures attributes == Attributes(candidates, roles, c)
    ensures dropped == Sorted(candidates, roles, false, c)
  {
    attributes, dropped := [], [];
    for i := 0 to |candidates|
      invariant attributes == Attributes(candidates[..i], roles, c)
      invariant dropped == Sorted(candidates[..i], roles, false, c)
    {
      var entry := candidates[i];
      assert entry in candidates && candidates[..i + 1] == candidates[..i] + [entry];
      AttributesAppend(candidates[..i], entry, roles, c);
      FilterAppends(candidates[..i], entry, KeptTest(roles, false, c));
      if |roles| != 1 || c(entry).location != roles[0].location {
        dropped := dropped + [entry];
      } else if c(entry).code !in attributes {
        attributes := attributes + [c(entry).code];
      }
    }
    assert candidates[..|candidates|] == candidates;
  }

  function Classifier(appCode: string): string -> Class {
    e => Classify(e, appCode)
  }

  // ---------------------------------------------------------------- conservation

  lemma CountsOf(raw: seq<string>, roles: seq<Grant>, c: string -> Class, e: string)
    ensures var candidates := AttributeEntries(raw, c);
            && multiset(RoleEntries(raw, c))[e] == (if c(e).Role? then multiset(raw)[e] else 0)
            && multiset(Sorted(candidates, roles, true, c))[e] == (if IsKept(e, roles, c) then multiset(raw)[e] else 0)
            && multiset(UnrecognizedOf(raw, roles, c))[e]
               == (if c(e).Role? || IsKept(e, roles, c) then 0 else multiset(raw)[e])
  {
    var candidates := AttributeEntries(raw, c);
    FilterCount(raw, IsOf(c, IsRole), e);
    FilterCount(raw, IsOf(c, IsAttribute), e);
    FilterCount(raw, IsOf(c, IsOther), e);
    FilterCount(candidates, KeptTest(roles, true, c), e);
    FilterCount(candidates, KeptTest(roles, false, c), e);
  }

  /**
   Each raw entry counts exactly once: as an occurrence of a role, as an occurrence of a kept
   attribute, or as unrecognized, which is all the rest, each as often as it came.
   */
  lemma EntriesConserved(raw: seq<string>, roles: seq<Grant>, c: string -> Class)
    ensures multiset(raw)
            == multiset(RoleEntries(raw, c)) + multiset(Sorted(AttributeEntries(raw, c), roles, true, c))
               + multiset(UnrecognizedOf(raw, roles, c))
    ensures forall e :: multiset(UnrecognizedOf(raw, roles, c))[e]
                        == if c(e).Role? || IsKept(e, roles, c) then 0 else multiset(raw)[e]
  {
    var roleEntries := multiset(RoleEntries(raw, c));
    var kept := multiset(Sorted(AttributeEntries(raw, c), roles, true, c));
    var rest := multiset(UnrecognizedOf(raw, roles, c));
    forall e
      ensures multiset(raw)[e] == (roleEntries + kept + rest)[e]
      ensures rest[e] == if c(e).Role? || IsKept(e, roles, c) then 0 else multiset(raw)[e]
    {
      CountsOf(raw, roles, c, e);
    }
  }

  /** The roles are exactly those granted, each once, in the order of their first grants. */
  lemma RolesExact(raw: seq<string>, c: string -> Class)
    ensures DuplicateFree(Roles(raw, c))
    ensures forall x :: x in Roles(raw, c) <==> exists e | e in raw :: c(e).Role? && GrantOf(e, c) == x
  {
    DedupKeepsFirsts(Grants(RoleEntries(raw, c), c));
    FilterMembers(raw, IsOf(c, IsRole));
    MapMembers(RoleEntries(raw, c), e => GrantOf(e, c));
  }

  /** The attributes are exactly those granted at the single role's location, each once. */
  lemma AttributesExact(raw: seq<string>, roles: seq<Grant>, c: string -> Class)
    ensures var attributes := Attributes(AttributeEntries(raw, c), roles, c);
            && DuplicateFree(attributes)
            && forall x :: x in attributes <==> exists e | e in raw :: IsKept(e, roles, c) && CodeOf(e, c) == x
  {
    var candidates := AttributeEntries(raw, c);
    var kept := Sorted(candidates, roles, true, c);
    DedupKeepsFirsts(Codes(kept, c));
    FilterMembers(raw, IsOf(c, IsAttribute));
    FilterMembers(candidates, KeptTest(roles, true, c));
    assert forall e :: e in kept <==> e in raw && IsKept(e, roles, c);
    MapMembers(kept, e => CodeOf(e, c));
  }

  // ---------------------------------------------------------------- what a claim comes to

  function Printed(g: Grant, appCode: string): string {
    PrintEntry(Parts(g.location, appCode, g.code))
  }

  predicate IsBaseRole(g: Grant) {
    IsRecognizedRole(g.code) && IsLocationCode(g.location) && !IsMKSchoolCode(g.location)
  }

  predicate IsMKGrant(g: Grant) {
    IsRecognizedRole(g.code) && IsMKSchoolCode(g.location)
  }

  /** The claim grants this base role. */
  predicate HasRole(raw: seq<string>, appCode: string, role: Grant) {
    Printed(role, appCode) in raw && IsBaseRole(role)
  }

  /** The claim grants this attribute at this location. */
  predicate HasAttribute(raw: seq<string>, appCode: string, location: string, code: string) {
    Printed(Grant(location, code), appCode) in raw && IsRecognizedAttribute(code)
  }

  /** The claim grants a base role at a kindergarten. */
  ghost predicate HasMKGrant(raw: seq<string>, appCode: string) {
    exists role :: Printed(role, appCode) in raw && IsMKGrant(role)
  }

  /** The entries first stand in raw in this order. */
  ghost predicate InOrder(raw: seq<string>, entries: seq<string>) {
    forall i, j, k: nat, l: nat |
      0 <= i < j < |entries| && FirstAt(raw, entries[i], k) && FirstAt(raw, entries[j], l) :: k < l
  }

  function PrintedRoles(roles: seq<Grant>, appCode: string): seq<string> {
    Map(roles, g => Printed(g, appCode))
  }

  function PrintedAttributes(codes: seq<string>, location: string, appCode: string): seq<string> {
    Map(codes, code => Printed(Grant(location, code), appCode))
  }

  ghost predicate RolesAre(raw: seq<string>, appCode: string, roles: seq<Grant>) {
    && DuplicateFree(roles)
    && (forall role :: role in roles <==> HasRole(raw, appCode, role))
    && InOrder(raw, PrintedRoles(roles, appCode))
  }

  ghost predicate AttributesAre(raw: seq<string>, appCode: string, location: string, codes: seq<string>) {
    && DuplicateFree(codes)
    && (forall code :: code in codes <==> HasAttribute(raw, appCode, location, code))
    && InOrder(raw, PrintedAttributes(codes, location, appCode))
  }

  /** The entry came to be a role, or an attribute that is kept. */
  predicate Resolved(entry: string, appCode: string, g: Groups) {
    || entry in PrintedRoles(g.roles, appCode)
    || (|g.roles| == 1 && entry in PrintedAttributes(g.attributes, g.roles[0].location, appCode))
  }

  /**
   What a groups claim comes to. The roles are the base roles whose entries it has, and the attributes those whose
   entries it has at the location of the only role, each once, in order of arrival. Every other entry is
   unrecognized, as often as it came.
   */
  ghost predicate ComesTo(raw: seq<string>, appCode: string, g: Groups) {
    && RolesAre(raw, appCode, g.roles)
    && (if |g.roles| == 1 then AttributesAre(raw, appCode, g.roles[0].location, g.attributes) else g.attributes == [])
    && (g.removedMKRole <==> HasMKGrant(raw, appCode))
    && forall e :: multiset(g.unrecognized)[e] == if Resolved(e, appCode, g) then 0 else multiset(raw)[e]
  }

  /** Classes by printed grants. */
  lemma ClassIs(entry: string, appCode: string, g: Grant)
    requires IsAppCode(appCode)
    ensures Classify(entry, appCode) == Role(g.location, g.code) <==> entry == Printed(g, appCode) && IsBaseRole(g)
    ensures Classify(entry, appCode) == Attribute(g.location, g.code)
            <==> entry == Printed(g, appCode) && IsRecognizedAttribute(g.code) && IsLocationCode(g.location)
  {
    RoleGrantedExactly(entry, appCode, g.location, g.code);
    AttributeGrantedExactly(entry, appCode, g.location, g.code);
  }

  lemma FirstOf(raw: seq<string>, e: string, x: string, k: nat)
    requires FirstAt(raw + [e], x, k)
    ensures if x in raw then FirstAt(raw, x, k) else k == |raw| && x == e
  {
    if k < |raw| {
      assert (raw + [e])[..k] == raw[..k];
    } else {
      assert (raw + [e])[..k] == raw;
    }
  }

  /** An entry that comes last and is new leaves the order of the others. */
  lemma InOrderAppend(raw: seq<string>, e: string, entries: seq<string>, entries': seq<string>)
    requires InOrder(raw, entries) && forall x | x in entries :: x in raw
    requires entries' == entries || (entries' == entries + [e] && e !in raw)
    ensures InOrder(raw + [e], entries')
  {
    forall i, j, k: nat, l: nat |
      0 <= i < j < |entries'| && FirstAt(raw + [e], entries'[i], k) && FirstAt(raw + [e], entries'[j], l)
      ensures k < l
    {
      assert entries'[i] == entries[i] && entries[i] in entries;
      FirstOf(raw, e, entries'[i], k);
      FirstOf(raw, e, entries'[j], l);
      if j < |entries| {
        assert entries'[j] == entries[j] && entries[j] in entries;
      }
    }
  }

  lemma {:induction false} RolesInOrder(raw: seq<string>, appCode: string)
    requires IsAppCode(appCode)
    ensures var entries := PrintedRoles(Roles(raw, Classifier(appCode)), appCode);
            InOrder(raw, entries) && forall x | x in entries :: x in raw
  {
    if raw != [] {
      var front, e, c := raw[..|raw| - 1], raw[|raw| - 1], Classifier(appCode);
      assert raw == front + [e];
      RolesInOrder(front, appCode);
      PrintedRolesAppend(front, e, appCode);
      InOrderAppend(front, e, PrintedRoles(Roles(front, c), appCode), PrintedRoles(Roles(raw, c), appCode));
    }
  }

  lemma PrintedRolesAppend(raw: seq<string>, e: string, appCode: string)
    requires IsAppCode(appCode)
    ensures var c := Classifier(appCode);
            var entries, entries' := PrintedRoles(Roles(raw, c), appCode), PrintedRoles(Roles(raw + [e], c), appCode);
            entries' == entries || (entries' == entries + [e] && e !in raw)
  {
    var c := Classifier(appCode);
    RolesAppend(raw, e, c);
    if c(e).Role? && GrantOf(e, c) !in Roles(raw, c) {
      NewRole(raw, e, appCode);
      var roles, g := Roles(raw, c), GrantOf(e, c);
      assert PrintedRoles(roles + [g], appCode) == PrintedRoles(roles, appCode) + [Printed(g, appCode)];
    }
  }

  lemma NewRole(raw: seq<string>, e: string, appCode: string)
    requires IsAppCode(appCode)
    requires var c := Classifier(appCode); c(e).Role? && GrantOf(e, c) !in Roles(raw, c)
    ensures e == Printed(GrantOf(e, Classifier(appCode)), appCode) && e !in raw
  {
    var c := Classifier(appCode);
    ClassIs(e, appCode, GrantOf(e, c));
    RolesExact(raw, c);
  }

  function KeptPrinted(raw: seq<string>, roles: seq<Grant>, appCode: string): seq<string>
    requires |roles| == 1
  {
    var c := Classifier(appCode);
    PrintedAttributes(Attributes(AttributeEntries(raw, c), roles, c), roles[0].location, appCode)
  }

  lemma {:induction false} AttributesInOrder(raw: seq<string>, roles: seq<Grant>, appCode: string)
    requires IsAppCode(appCode) && |roles| == 1
    ensures InOrder(raw, KeptPrinted(raw, roles, appCode))
    ensures forall x | x in KeptPrinted(raw, roles, appCode) :: x in raw
  {
    if raw != [] {
      var front, e := raw[..|raw| - 1], raw[|raw| - 1];
      assert raw == front + [e];
      AttributesInOrder(front, roles, appCode);
      KeptPrintedAppend(front, e, roles, appCode);
      InOrderAppend(front, e, KeptPrinted(front, roles, appCode), KeptPrinted(raw, roles, appCode));
    }
  }

  lemma KeptPrintedAppend(raw: seq<string>, e: string, roles: seq<Grant>, appCode: string)
    requires IsAppCode(appCode) && |roles| == 1
    ensures var entries, entries' := KeptPrinted(raw, roles, appCode), KeptPrinted(raw + [e], roles, appCode);
            entries' == entries || (entries' == entries + [e] && e !in raw)
  {
    var c := Classifier(appCode);
    var candidates := AttributeEntries(raw, c);
    OthersAppend(raw, e, c);
    if c(e).Attribute? {
      AttributesAppend(candidates, e, roles, c);
      var codes := Attributes(candidates, roles, c);
      if IsKept(e, roles, c) && CodeOf(e, c) !in codes {
        NewAttribute(raw, e, roles, appCode);
        assert PrintedAttributes(codes + [CodeOf(e, c)], roles[0].location, appCode)
            == PrintedAttributes(codes, roles[0].location, appCode) + [e];
      }
    } else {
      assert AttributeEntries(raw + [e], c) == candidates;
    }
  }

  lemma NewAttribute(raw: seq<string>, e: string, roles: seq<Grant>, appCode: string)
    requires IsAppCode(appCode) && |roles| == 1
    requires var c := Classifier(appCode);
             IsKept(e, roles, c) && CodeOf(e, c) !in Attributes(AttributeEntries(raw, c), roles, c)
    ensures e == Printed(Grant(roles[0].location, CodeOf(e, Classifier(appCode))), appCode) && e !in raw
  {
    var c := Classifier(appCode);
    ClassIs(e, appCode, GrantOf(e, c));
    AttributesExact(raw, roles, c);
  }

  lemma RolesMeant(raw: seq<string>, appCode: string)
    requires IsAppCode(appCode)
    ensures RolesAre(raw, appCode, Roles(raw, Classifier(appCode)))
  {
    var c := Classifier(appCode);
    RolesExact(raw, c);
    RolesInOrder(raw, appCode);
    forall role ensures role in Roles(raw, c) <==> HasRole(raw, appCode, role) {
      ClassIs(Printed(role, appCode), appCode, role);
      forall e | e in raw && c(e).Role? && GrantOf(e, c) == role ensures HasRole(raw, appCode, role) {
        ClassIs(e, appCode, role);
      }
    }
  }

  lemma AttributesMeant(raw: seq<string>, roles: seq<Grant>, appCode: string)
    requires IsAppCode(appCode) && |roles| == 1 && IsLocationCode(roles[0].location)
    ensures var c := Classifier(appCode);
            AttributesAre(raw, appCode, roles[0].location, Attributes(AttributeEntries(raw, c), roles, c))
  {
    var c, location := Classifier(appCode), roles[0].location;
    AttributesExact(raw, roles, c);
    AttributesInOrder(raw, roles, appCode);
    forall code
      ensures code in Attributes(AttributeEntries(raw, c), roles, c) <==> HasAttribute(raw, appCode, location, code)
    {
      ClassIs(Printed(Grant(location, code), appCode), appCode, Grant(location, code));
      forall e | e in raw && IsKept(e, roles, c) && CodeOf(e, c) == code
        ensures HasAttribute(raw, appCode, location, code)
      {
        ClassIs(e, appCode, Grant(location, code));
      }
    }
  }

  lemma MKMeant(raw: seq<string>, appCode: string)
    requires IsAppCode(appCode)
    ensures HasMKRole(raw, Classifier(appCode)) <==> HasMKGrant(raw, appCode)
  {
    forall e | e in raw && Classify(e, appCode) == MKRole ensures HasMKGrant(raw, appCode) {
      MKRoleExactly(e, appCode);
      var location, code :| && e == PrintEntry(Parts(location, appCode, code))
                            && IsRecognizedRole(code) && IsMKSchoolCode(location);
      assert Printed(Grant(location, code), appCode) in raw && IsMKGrant(Grant(location, code));
    }
    forall role | Printed(role, appCode) in raw && IsMKGrant(role) ensures HasMKRole(raw, Classifier(appCode)) {
      MKPrinted(Parts(role.location, appCode, role.code));
      assert Classifier(appCode)(Printed(role, appCode)) == MKRole;
    }
  }

  /** Of the entries of a claim, those that become roles or kept attributes, by what they become. */
  lemma ResolvedMeans(raw: seq<string>, appCode: string, e: string)
    requires IsAppCode(appCode) && e in raw
    ensures var c := Classifier(appCode);
            var g := Resolve(raw, c);
            Resolved(e, appCode, g) <==> c(e).Role? || IsKept(e, g.roles, c)
  {
    var c := Classifier(appCode);
    var g := Resolve(raw, c);
    RolesMeant(raw, appCode);
    RoleResolved(raw, appCode, e);
    if |g.roles| == 1 {
      assert g.roles[0] in g.roles;
      AttributesMeant(raw, g.roles, appCode);
      AttributeResolved(raw, appCode, g.roles[0].location, g.attributes, e);
    }
  }

  lemma RoleResolved(raw: seq<string>, appCode: string, e: string)
    requires IsAppCode(appCode) && e in raw
    requires RolesAre(raw, appCode, Roles(raw, Classifier(appCode)))
    ensures e in PrintedRoles(Roles(raw, Classifier(appCode)), appCode) <==> Classify(e, appCode).Role?
  {
    var roles := Roles(raw, Classifier(appCode));
    MapMembers(roles, g => Printed(g, appCode));
    forall role | role in roles && Printed(role, appCode) == e ensures Classify(e, appCode).Role? {
      ClassIs(e, appCode, role);
    }
    if Classify(e, appCode).Role? {
      var role := GrantOf(e, Classifier(appCode));
      ClassIs(e, appCode, role);
      assert role in roles;
    }
  }

  lemma AttributeResolved(raw: seq<string>, appCode: string, location: string, codes: seq<string>, e: string)
    requires IsAppCode(appCode) && IsLocationCode(location) && e in raw && AttributesAre(raw, appCode, location, codes)
    ensures e in PrintedAttributes(codes, location, appCode)
            <==> Classify(e, appCode).Attribute? && Classify(e, appCode).location == location
  {
    MapMembers(codes, code => Printed(Grant(location, code), appCode));
    forall code | code in codes && Printed(Grant(location, code), appCode) == e
      ensures Classify(e, appCode) == Attribute(location, code)
    {
      ClassIs(e, appCode, Grant(location, code));
    }
    if Classify(e, appCode).Attribute? && Classify(e, appCode).location == location {
      ClassIs(e, appCode, GrantOf(e, Classifier(appCode)));
      assert Classify(e, appCode).code in codes;
    }
  }

  lemma FirstIsMember(s: seq<string>)
    ensures s == [] || s[0] in s
  {
  }

  /** For every claim: it comes to what its entries, as printed, say. */
  lemma ResolvedExactly(raw: seq<string>, appCode: string)
    requires IsAppCode(appCode)
    ensures ComesTo(raw, appCode, Resolve(raw, Classifier(appCode)))
  {
    var c := Classifier(appCode);
    var g := Resolve(raw, c);
    RolesMeant(raw, appCode);
    MKMeant(raw, appCode);
    if |g.roles| == 1 {
      assert g.roles[0] in g.roles;
      AttributesMeant(raw, g.roles, appCode);
    } else {
      AttributesExact(raw, g.roles, c);
      FirstIsMember(g.attributes);
    }
    EntriesConserved(raw, g.roles, c);
    forall e ensures multiset(g.unrecognized)[e] == if Resolved(e, appCode, g) then 0 else multiset(raw)[e] {
      if e in raw {
        ResolvedMeans(raw, appCode, e);
      } else {
        assert e !in multiset(raw);
      }
    }
  }

  method ResolveEdupassGroups(raw: seq<string>, appCode: string) returns (g: Groups)
    ensures g == Resolve(raw, Classifier(appCode))
    ensures IsAppCode(appCode) ==> ComesTo(raw, appCode, g)
  {
    g := ResolveEntries(raw, Classifier(appCode));
    if IsAppCode(appCode) {
      ResolvedExactly(raw, appCode);
    }
  }

  // ---------------------------------------------------------------- arrival order

  datatype Decision = SignsIn(role: Grant) | Refused(errCode: string)

  /** Whether authEdupassCallback signs the user in, and the login error code when it does not. */
  function Decide(g: Groups): Decision {
    if |g.roles| == 1 then SignsIn(g.roles[0])
    else if |g.roles| > 1 then Refused("multiple_roles")
    else if g.removedMKRole then Refused("unsupported_school_mk")
    else Refused("no_role")
  }

  function Elements<T>(s: seq<T>): set<T> {
    set x | x in s
  }

  lemma {:induction false} ElementCount<T(!new)>(s: seq<T>)
    requires DuplicateFree(s)
    ensures |Elements(s)| == |s|
  {
    if s != [] {
      var front, last := s[..|s| - 1], s[|s| - 1];
      ElementCount(front);
      assert Elements(s) == Elements(front) + {last};
      assert last !in front;
    }
  }

  lemma SameRoles(raw: seq<string>, raw': seq<string>, c: string -> Class)
    requires forall e :: e in raw <==> e in raw'
    ensures Elements(Roles(raw, c)) == Elements(Roles(raw', c))
    ensures |Roles(raw, c)| == |Roles(raw', c)| && (|Roles(raw, c)| == 1 ==> Roles(raw, c) == Roles(raw', c))
  {
    RolesExact(raw, c);
    RolesExact(raw', c);
    SameSingle(Roles(raw, c), Roles(raw', c));
  }

  lemma SameAttributes(
      raw: seq<string>, roles: seq<Grant>, raw': seq<string>, roles': seq<Grant>, c: string -> Class)
    requires (forall e :: e in raw <==> e in raw') && (forall e :: IsKept(e, roles, c) == IsKept(e, roles', c))
    ensures Elements(Attributes(AttributeEntries(raw, c), roles, c))
            == Elements(Attributes(AttributeEntries(raw', c), roles', c))
  {
    AttributesExact(raw, roles, c);
    AttributesExact(raw', roles', c);
  }

  lemma SameKept(roles: seq<Grant>, roles': seq<Grant>, c: string -> Class)
    requires |roles| == |roles'| && (|roles| == 1 ==> roles == roles')
    ensures forall e :: IsKept(e, roles, c) == IsKept(e, roles', c)
  {
  }

  /**
   The order of the groups claim does not matter: not to the roles, the attributes, what is
   unrecognized, or whether a kindergarten role was set aside, and so not to the decision.
   */
  lemma OrderIrrelevant(raw: seq<string>, raw': seq<string>, c: string -> Class)
    requires multiset(raw) == multiset(raw')
    ensures var g, g' := Resolve(raw, c), Resolve(raw', c);
            && Elements(g.roles) == Elements(g'.roles)
            && Elements(g.attributes) == Elements(g'.attributes)
            && multiset(g.unrecognized) == multiset(g'.unrecognized)
            && g.removedMKRole == g'.removedMKRole
            && Decide(g) == Decide(g')
  {
    var roles, roles' := Roles(raw, c), Roles(raw', c);
    SameMembers(raw, raw');
    SameRoles(raw, raw', c);
    SameKept(roles, roles', c);
    SameAttributes(raw, roles, raw', roles', c);
    SameUnrecognized(raw, roles, raw', roles', c);
  }

  lemma SameUnrecognized(
      raw: seq<string>, roles: seq<Grant>, raw': seq<string>, roles': seq<Grant>, c: string -> Class)
    requires multiset(raw) == multiset(raw') && forall e :: IsKept(e, roles, c) == IsKept(e, roles', c)
    ensures multiset(UnrecognizedOf(raw, roles, c)) == multiset(UnrecognizedOf(raw', roles', c))
  {
    EntriesConserved(raw, roles, c);
    EntriesConserved(raw', roles', c);
  }

  lemma SameMembers<T>(s: seq<T>, t: seq<T>)
    requires multiset(s) == multiset(t)
    ensures forall x :: x in s <==> x in t
  {
    forall x ensures x in s <==> x in t {
      assert x in s <==> x in multiset(s);
      assert x in t <==> x in multiset(t);
    }
  }

  lemma SameSingle<T(!new)>(s: seq<T>, t: seq<T>)
    requires DuplicateFree(s) && DuplicateFree(t) && Elements(s) == Elements(t)
    ensures |s| == |t| && (|s| == 1 ==> s == t)
  {
    ElementCount(s);
    ElementCount(t);
    if |s| == 1 {
      assert s[0] in Elements(t);
    }
  }
}
