/** Resolution of an Edupass groups claim (server/internal/handler/auth.go). Each char is one byte. */
module Edupass {
  import opened Prelude

  // ---------------------------------------------------------------- reference lists

  const ROLE_INFIX := "_ROLE_"
  const ATTR_INFIX := "_ATTR_"

  /** edupassRoleLabels: the code and its label. */
  const ROLE_LABELS: map<string, string> := map[
    "ROLE_PRINCIPAL" := "Principal",
    "ROLE_VICE_PRINCIPAL" := "Vice Principal",
    "ROLE_VICE_PRINCIPAL_ADMINISTRATION" := "Vice Principal (Administration)",
    "ROLE_ADMIN_MANAGER" := "Administration Manager",
    "ROLE_ADMIN_SUPPORT" := "Administrative Support Staff",
    "ROLE_YEAR_HEAD" := "Year Head",
    "ROLE_ASST_YEAR_HEAD" := "Assistant Year Head",
    "ROLE_HOD" := "Head of Department",
    "ROLE_SUBJECT_HEAD" := "Subject Head",
    "ROLE_LEVEL_HEAD" := "Level Head",
    "ROLE_SSD" := "School Staff Developer",
    "ROLE_LEAD_TEACHER" := "Lead Teacher",
    "ROLE_SNR_TEACHER" := "Senior Teacher",
    "ROLE_TEACHER" := "Teacher",
    "ROLE_SNR_COUNSELLOR" := "Senior School Counsellor",
    "ROLE_COUNSELLOR" := "School Counsellor",
    "ROLE_SNR_SEN_OFFICER" := "Senior SEN Officer",
    "ROLE_SEN_OFFICER" := "SEN Officer",
    "ROLE_SNR_SWO" := "Senior Student Welfare Officer",
    "ROLE_SWO" := "Student Welfare Officer",
    "ROLE_AED_TL" := "Allied Educator (T&L)",
    "ROLE_ICT_MANAGER" := "ICT Manager"
  ]

  /** edupassRoleLabel: empty for a code that is not recognized. */
  function RoleLabel(code: string): string {
    if code in ROLE_LABELS then ROLE_LABELS[code] else ""
  }

  predicate IsRecognizedRole(code: string) {
    code in ROLE_LABELS
  }

  predicate IsRecognizedAttribute(code: string) {
    code in ["ATTR_PG_ADMIN", "ATTR_PG_USER", "ATTR_CCE", "ATTR_DM", "ATTR_SDE", "ATTR_ECGC",
             "ATTR_WB_SPECIALIST", "ATTR_WB_TCI", "ATTR_SLD"]
  }

  predicate IsDigit(c: char) {
    '0' <= c <= '9'
  }

  predicate IsLocationCode(code: string) {
    |code| == 4 && forall c | c in code :: IsDigit(c)
  }

  /** The MOE Kindergarten codes: 6101 to 6159, but not 6125. */
  predicate IsMKSchoolCode(code: string) {
    && |code| == 4 && code[..2] == "61" && IsDigit(code[2]) && IsDigit(code[3])
    && code[2] <= '5' && code != "6100" && code != "6125"
  }

  /** The number four digits spell. */
  function Number(code: string): (n: nat)
    requires IsLocationCode(code)
    ensures n < 10_000
  {
    assert forall i | 0 <= i < 4 :: code[i] in code;
    (code[0] - '0') as int * 1000 + (code[1] - '0') as int * 100 + (code[2] - '0') as int * 10 + (code[3] - '0') as int
  }

  lemma FourChars(code: string)
    requires |code| == 4
    ensures code[..2] == [code[0], code[1]] && code == [code[0], code[1], code[2], code[3]]
    ensures IsLocationCode(code) <==> forall i | 0 <= i < 4 :: IsDigit(code[i])
  {
    assert forall i | 0 <= i < 4 :: code[i] in code;
  }

  /** The kindergarten codes by number. */
  lemma MKCodesExactly(code: string)
    ensures IsMKSchoolCode(code) <==> IsLocationCode(code) && 6101 <= Number(code) <= 6159 && Number(code) != 6125
  {
    if |code| == 4 {
      FourChars(code);
      MKDigits(code, code[0], code[1], code[2], code[3]);
    }
  }

  lemma MKDigits(code: string, a: char, b: char, c: char, d: char)
    requires code == [a, b, c, d] && code[..2] == [a, b]
    ensures IsMKSchoolCode(code)
            <==> a == '6' && b == '1' && '0' <= c <= '5' && IsDigit(d) && !(c == d == '0') && !(c == '2' && d == '5')
  {
  }

  // ---------------------------------------------------------------- splitting an entry

  predicate HasAt(s: string, infix: string, i: nat) {
    i + |infix| <= |s| && s[i..i + |infix|] == infix
  }

  lemma HasAtTail(s: string, infix: string, j: nat)
    requires s != ""
    ensures HasAt(s, infix, j + 1) <==> HasAt(s[1..], infix, j)
  {
    if j + 1 + |infix| <= |s| {
      assert s[j + 1..j + 1 + |infix|] == s[1..][j..j + |infix|];
    }
  }

  /** strings.Index: the first place infix stands at, if any. */
  function Index(s: string, infix: string): (r: Option<nat>)
    ensures r.Some? ==> HasAt(s, infix, r.value) && forall j: nat | j < r.value :: !HasAt(s, infix, j)
    ensures r.None? ==> forall j: nat :: !HasAt(s, infix, j)
  {
    if HasAt(s, infix, 0) then Some(0)
    else if s == "" then None
    else
      assert forall j: nat | j > 0 :: HasAt(s, infix, j) <==> HasAt(s[1..], infix, j - 1) by {
        forall j: nat | j > 0 ensures HasAt(s, infix, j) <==> HasAt(s[1..], infix, j - 1) {
          HasAtTail(s, infix, j - 1);
        }
      }
      match Index(s[1..], infix)
      case None => None
      case Some(i) => Some(i + 1)
  }

  /** strings.Cut at the first underscore: what is before it, and what is after. */
  function Cut(s: string): (r: (string, string))
    ensures '_' !in r.0
    ensures if '_' in s then s == r.0 + "_" + r.1 else r == (s, "")
  {
    if s == "" then ("", "")
    else if s[0] == '_' then
      assert s == "" + "_" + s[1..];
      ("", s[1..])
    else
      var (before, after) := Cut(s[1..]);
      assert '_' in s <==> '_' in s[1..];
      assert s == [s[0]] + s[1..];
      ([s[0]] + before, after)
  }

  datatype Parts = Parts(location: string, app: string, code: string)

  function SplitEntry(entry: string, infix: string): Parts
    requires Index(entry, infix).Some? && infix != ""
  {
    var idx := Index(entry, infix).value;
    var (location, app) := Cut(entry[..idx]);
    Parts(location, app, entry[idx + 1..])
  }

  /** The entry that these parts make. */
  function PrintEntry(p: Parts): string {
    p.location + "_" + p.app + "_" + p.code
  }

  // ---------------------------------------------------------------- what one entry is

  datatype Class =
    | Role(location: string, code: string)
    | MKRole
    | Attribute(location: string, code: string)
    | Unrecognized

  function Classify(entry: string, appCode: string): Class {
    if Index(entry, ROLE_INFIX).Some? then
      var p := SplitEntry(entry, ROLE_INFIX);
      if p.app != appCode || !IsRecognizedRole(p.code) || !IsLocationCode(p.location) then Unrecognized
      else if IsMKSchoolCode(p.location) then MKRole
      else Role(p.location, p.code)
    else if Index(entry, ATTR_INFIX).Some? then
      var p := SplitEntry(entry, ATTR_INFIX);
      if p.app != appCode || !IsRecognizedAttribute(p.code) || !IsLocationCode(p.location) then Unrecognized
      else Attribute(p.location, p.code)
    else Unrecognized
  }

  // ---------------------------------------------------------------- splitting and printing

  /** One of the two infixes. */
  predicate IsInfix(infix: string) {
    infix == ROLE_INFIX || infix == ATTR_INFIX
  }

  /** The entry passes the branch for infix but for its code. */
  predicate Accepted(entry: string, infix: string, appCode: string)
    requires infix != ""
  {
    && Index(entry, infix).Some?
    && SplitEntry(entry, infix).app == appCode
    && IsLocationCode(SplitEntry(entry, infix).location)
  }

  lemma InfixChars(s: string, infix: string, j: nat)
    requires IsInfix(infix) && HasAt(s, infix, j)
    ensures s[j] == '_' == s[j + 5] && s[j + 1] == infix[1]
    ensures forall k | j < k < j + 5 :: s[k] != '_'
  {
    assert forall k | j <= k < j + 6 :: s[k] == s[j..j + 6][k - j];
  }

  lemma InfixSlices(s: string, infix: string, j: nat)
    requires IsInfix(infix) && HasAt(s, infix, j)
    ensures s[j + 1..j + 5] == infix[1..5] && s[j + 1..][..5] == infix[1..]
  {
    var x := s[j..j + 6];
    assert forall k | 0 <= k < 5 :: x[1..][k] == x[k + 1] && s[j + 1..][..5][k] == s[j + 1 + k];
    assert s[j + 1..][..5] == x[1..];
    assert forall k | 0 <= k < 4 :: x[1..5][k] == x[k + 1] && s[j + 1..j + 5][k] == s[j + 1 + k];
    assert s[j + 1..j + 5] == x[1..5];
  }

  /** Printing undoes splitting, unless nothing at all stands between the location and the infix. */
  lemma PrintSplit(entry: string, infix: string)
    requires IsInfix(infix) && Index(entry, infix).Some?
    ensures var p := SplitEntry(entry, infix);
            && (PrintEntry(p) == entry <==> '_' in entry[..Index(entry, infix).value])
            && ('_' !in entry[..Index(entry, infix).value] ==> p.app == "")
  {
    var i := Index(entry, infix).value;
    InfixChars(entry, infix, i);
    PrintCut(entry[..i], entry[i + 1..]);
    Around(entry, i);
  }

  lemma Around(s: string, i: nat)
    requires i < |s| && s[i] == '_'
    ensures s == s[..i] + "_" + s[i + 1..]
  {
  }

  lemma PrintCut(front: string, code: string)
    ensures var (location, app) := Cut(front);
            PrintEntry(Parts(location, app, code)) == front + "_" + code <==> '_' in front
  {
    var (location, app) := Cut(front);
    if '_' in front {
      assert location + "_" + app == front;
    } else {
      assert |PrintEntry(Parts(location, app, code))| == |front + "_" + code| + 1;
    }
  }

  /** Splitting undoes printing, for an app code such as TW or TWSTG and a code with the infix's prefix. */
  lemma SplitPrint(p: Parts, infix: string)
    requires IsInfix(infix) && IsLocationCode(p.location)
    requires '_' !in p.app && p.app != infix[1..5]
    requires |p.code| >= 5 && p.code[..5] == infix[1..]
    ensures Index(PrintEntry(p), infix).Some? && SplitEntry(PrintEntry(p), infix) == p
  {
    var s := PrintEntry(p);
    var at := 5 + |p.app|;
    PrintedInfix(p, infix);
    forall j: nat | j < at ensures !HasAt(s, infix, j) {
      NoEarlierInfix(p, infix, j);
    }
    IndexIs(s, infix, at);
    NoUnderscore(p.location);
    CutAt(p.location, p.app);
  }

  lemma NoUnderscore(location: string)
    requires IsLocationCode(location)
    ensures '_' !in location
  {
  }

  lemma PrintedInfix(p: Parts, infix: string)
    requires IsInfix(infix) && |p.location| == 4 && |p.code| >= 5 && p.code[..5] == infix[1..]
    ensures var s, at := PrintEntry(p), 5 + |p.app|;
            HasAt(s, infix, at) && s[..at] == p.location + "_" + p.app && s[at + 1..] == p.code
  {
    var s, at := PrintEntry(p), 5 + |p.app|;
    assert s[at..at + 6] == [s[at]] + p.code[..5];
    assert infix == [infix[0]] + infix[1..];
  }

  lemma NoEarlierInfix(p: Parts, infix: string, j: nat)
    requires IsInfix(infix) && IsLocationCode(p.location) && '_' !in p.app && p.app != infix[1..5]
    requires j < 5 + |p.app|
    ensures !HasAt(PrintEntry(p), infix, j)
  {
    var s := PrintEntry(p);
    var at := 5 + |p.app|;
    assert forall k | 0 <= k < 4 :: s[k] == p.location[k] && p.location[k] in p.location;
    assert forall k | 5 <= k < at :: s[k] == p.app[k - 5] && p.app[k - 5] in p.app;
    assert s[at] == '_' && s[5..at] == p.app;
    if HasAt(s, infix, j) {
      InfixChars(s, infix, j);
      InfixSlices(s, infix, j);
    }
  }

  lemma CutAt(location: string, app: string)
    requires '_' !in location
    ensures Cut(location + "_" + app) == (location, app)
  {
    var s := location + "_" + app;
    assert s[|location|] == '_';
    var (before, after) := Cut(s);
    assert '_' in s;
    assert s == before + "_" + after && s[|before|] == '_';
    assert forall k | 0 <= k < |location| :: s[k] == location[k];
    assert forall k | 0 <= k < |before| :: s[k] == before[k];
    assert |before| == |location|;
    assert s[..|location|] == location && s[..|location|] == before;
    assert s[|location| + 1..] == app && s[|location| + 1..] == after;
  }

  /** No entry could be accepted under both branches. */
  lemma NotBothBranches(entry: string, appCode: string)
    requires Accepted(entry, ROLE_INFIX, appCode)
    ensures !Accepted(entry, ATTR_INFIX, appCode)
  {
    if Accepted(entry, ATTR_INFIX, appCode) {
      InfixPlace(entry, ROLE_INFIX, appCode);
      InfixPlace(entry, ATTR_INFIX, appCode);
      InfixChars(entry, ROLE_INFIX, Index(entry, ROLE_INFIX).value);
      InfixChars(entry, ATTR_INFIX, Index(entry, ATTR_INFIX).value);
    }
  }

  lemma InfixPlace(entry: string, infix: string, appCode: string)
    requires IsInfix(infix) && Accepted(entry, infix, appCode)
    ensures var i := Index(entry, infix).value;
            i == 5 + |appCode| || (appCode == "" && i == 4)
  {
  }

  predicate IsGrant(c: Class) {
    c.Role? || c.Attribute?
  }

  /**
   Two entries that grant the same are the same entry, so dropping repeats by location and code
   drops repeats of the raw entry. That holds exactly when the app code is not empty, as the
   configuration requires.
   */
  lemma SameGrantSameEntry(appCode: string)
    ensures appCode != "" <==>
            forall e, e' | IsGrant(Classify(e, appCode)) && Classify(e, appCode) == Classify(e', appCode) :: e == e'
  {
    if appCode != "" {
      forall e, e' | IsGrant(Classify(e, appCode)) && Classify(e, appCode) == Classify(e', appCode)
        ensures e == e'
      {
        GrantIsPrinted(e, appCode);
        GrantIsPrinted(e', appCode);
      }
    } else {
      RepeatWithoutApp();
    }
  }

  lemma RoleCodePrefix(code: string)
    requires IsRecognizedRole(code)
    ensures |code| >= 5 && code[..5] == "ROLE_"
  {
  }

  /**
   An entry grants a role exactly when it is that role printed, for a recognized code at a four-digit
   location that is no kindergarten's.
   */
  lemma RoleGrantedExactly(entry: string, appCode: string, location: string, code: string)
    requires appCode != "" && '_' !in appCode && appCode != "ROLE"
    ensures Classify(entry, appCode) == Role(location, code)
            <==> && entry == PrintEntry(Parts(location, appCode, code))
                 && IsRecognizedRole(code) && IsLocationCode(location) && !IsMKSchoolCode(location)
  {
    if Classify(entry, appCode) == Role(location, code) {
      GrantIsPrinted(entry, appCode);
    } else if IsRecognizedRole(code) && IsLocationCode(location) && !IsMKSchoolCode(location) {
      RoleCodePrefix(code);
      SplitPrint(Parts(location, appCode, code), ROLE_INFIX);
      RoleClass(PrintEntry(Parts(location, appCode, code)), Parts(location, appCode, code));
    }
  }

  /** App codes such as TW and TWSTG, the only two the configuration allows. */
  predicate IsAppCode(appCode: string) {
    appCode != "" && '_' !in appCode && appCode != "ROLE" && appCode != "ATTR"
  }

  lemma AttributeCodes(code: string)
    requires IsRecognizedAttribute(code)
    ensures |code| >= 5 && code[..5] == "ATTR_" && 'O' !in code
  {
  }

  /** No printed attribute goes to the branch for roles. */
  lemma NoRoleInfix(p: Parts)
    requires IsLocationCode(p.location) && '_' !in p.app && p.app != "ROLE" && IsRecognizedAttribute(p.code)
    ensures Index(PrintEntry(p), ROLE_INFIX).None?
  {
    var s, at := PrintEntry(p), 5 + |p.app|;
    AttributeCodes(p.code);
    forall j: nat ensures !HasAt(s, ROLE_INFIX, j) {
      if j < at {
        NoEarlierInfix(p, ROLE_INFIX, j);
      } else {
        RoleInfixChar(s, j);
        assert j + 2 < |s| ==> s[j + 2] == p.code[j + 1 - at];
      }
    }
  }

  lemma RoleInfixChar(s: string, j: nat)
    ensures HasAt(s, ROLE_INFIX, j) ==> j + 6 <= |s| && s[j + 2] == 'O'
  {
    if j + 6 <= |s| {
      assert s[j..j + 6][2] == s[j + 2];
    }
  }

  /**
   An entry grants an attribute exactly when it is that attribute printed, for a recognized code at a four-digit
   location.
   */
  lemma AttributeGrantedExactly(entry: string, appCode: string, location: string, code: string)
    requires IsAppCode(appCode)
    ensures Classify(entry, appCode) == Attribute(location, code)
            <==> && entry == PrintEntry(Parts(location, appCode, code))
                 && IsRecognizedAttribute(code) && IsLocationCode(location)
  {
    if Classify(entry, appCode) == Attribute(location, code) {
      GrantIsPrinted(entry, appCode);
    } else if IsRecognizedAttribute(code) && IsLocationCode(location) {
      AttributeCodes(code);
      SplitPrint(Parts(location, appCode, code), ATTR_INFIX);
      NoRoleInfix(Parts(location, appCode, code));
      AttributeClass(PrintEntry(Parts(location, appCode, code)), Parts(location, appCode, code));
    }
  }

  lemma AttributeClass(entry: string, p: Parts)
    requires Index(entry, ROLE_INFIX).None? && Index(entry, ATTR_INFIX).Some? && SplitEntry(entry, ATTR_INFIX) == p
    requires IsLocationCode(p.location) && IsRecognizedAttribute(p.code)
    ensures Classify(entry, p.app) == Attribute(p.location, p.code)
  {
  }

  /** An entry is a kindergarten's role exactly when it is a recognized role printed, at one of their codes. */
  lemma MKRoleExactly(entry: string, appCode: string)
    requires IsAppCode(appCode)
    ensures Classify(entry, appCode) == MKRole
            <==> exists location, code :: && entry == PrintEntry(Parts(location, appCode, code))
                                          && IsRecognizedRole(code) && IsMKSchoolCode(location)
  {
    if Classify(entry, appCode) == MKRole {
      var p := SplitEntry(entry, ROLE_INFIX);
      PrintSplit(entry, ROLE_INFIX);
      assert entry == PrintEntry(Parts(p.location, appCode, p.code));
    }
    forall location, code | && entry == PrintEntry(Parts(location, appCode, code))
                            && IsRecognizedRole(code) && IsMKSchoolCode(location)
      ensures Classify(entry, appCode) == MKRole
    {
      MKPrinted(Parts(location, appCode, code));
    }
  }

  lemma MKPrinted(p: Parts)
    requires IsAppCode(p.app) && IsRecognizedRole(p.code) && IsMKSchoolCode(p.location)
    ensures Classify(PrintEntry(p), p.app) == MKRole
  {
    MKCodesExactly(p.location);
    RoleCodePrefix(p.code);
    SplitPrint(p, ROLE_INFIX);
  }

  lemma SampleParts()
    ensures IsLocationCode("1234") && !IsMKSchoolCode("1234") && "ROLE_HOD"[..5] == "ROLE_"
    ensures IsRecognizedRole("ROLE_HOD")
  {
    assert "1234"[..2] == "12";
  }

  lemma RepeatWithoutApp()
    ensures exists e, e' :: IsGrant(Classify(e, "")) && Classify(e, "") == Classify(e', "") && e != e'
  {
    SampleParts();
    RepeatsDiffer("1234", "ROLE_HOD");
  }

  lemma RepeatsDiffer(location: string, code: string)
    requires IsLocationCode(location) && !IsMKSchoolCode(location) && IsRecognizedRole(code)
    requires |code| >= 5 && code[..5] == "ROLE_"
    ensures exists e, e' :: IsGrant(Classify(e, "")) && Classify(e, "") == Classify(e', "") && e != e'
  {
    var e, e' := location + "_" + code, PrintEntry(Parts(location, "", code));
    SameWithoutApp(location, code);
    RoleClass(e, Parts(location, "", code));
    RoleClass(e', Parts(location, "", code));
  }

  lemma RoleClass(entry: string, p: Parts)
    requires Index(entry, ROLE_INFIX).Some? && SplitEntry(entry, ROLE_INFIX) == p
    requires IsLocationCode(p.location) && !IsMKSchoolCode(p.location) && IsRecognizedRole(p.code)
    ensures Classify(entry, p.app) == Role(p.location, p.code)
  {
  }

  lemma GrantIsPrinted(e: string, appCode: string)
    requires appCode != "" && IsGrant(Classify(e, appCode))
    ensures var c := Classify(e, appCode);
            e == PrintEntry(Parts(c.location, appCode, c.code))
  {
    PrintSplit(e, if Classify(e, appCode).Role? then ROLE_INFIX else ATTR_INFIX);
  }

  /** With an empty app code, one underscore after the location does as well as two. */
  lemma SameWithoutApp(location: string, code: string)
    requires IsLocationCode(location) && |code| >= 5 && code[..5] == "ROLE_"
    ensures var e, e' := location + "_" + code, PrintEntry(Parts(location, "", code));
            && e != e' && Index(e, ROLE_INFIX).Some? && Index(e', ROLE_INFIX).Some?
            && SplitEntry(e, ROLE_INFIX) == Parts(location, "", code) == SplitEntry(e', ROLE_INFIX)
  {
    var e := location + "_" + code;
    SplitPrint(Parts(location, "", code), ROLE_INFIX);
    assert e[4..10] == [e[4]] + code[..5] && ROLE_INFIX == ['_'] + "ROLE_";
    forall j: nat | j < 4 ensures !HasAt(e, ROLE_INFIX, j) {
      assert e[j] == location[j] && location[j] in location;
      if HasAt(e, ROLE_INFIX, j) {
        InfixChars(e, ROLE_INFIX, j);
      }
    }
    IndexIs(e, ROLE_INFIX, 4);
    NoUnderscore(location);
    assert e[..4] == location && e[5..] == code;
    assert |PrintEntry(Parts(location, "", code))| == |e| + 1;
  }

  lemma IndexIs(s: string, infix: string, i: nat)
    requires HasAt(s, infix, i) && forall j: nat | j < i :: !HasAt(s, infix, j)
    ensures Index(s, infix) == Some(i)
  {
  }
}
