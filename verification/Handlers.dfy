/**
 The handlers of server/internal/handler/auth.go as what they do to the session and where they
 redirect, and what this keeps in every run of the session protocol.
 */
module Handlers {
  import opened Prelude
  import opened SessionModel
  import opened Sessions
  import opened Protocol
  import opened ProtocolSafety
  import opened ProtocolData
  import Edupass
  import EdupassGroups
  import ReturnTo

  const KEY_RETURN_TO := "edupass_return_to"
  const KEY_STATE := "edupass_state"
  const KEY_NONCE := "edupass_nonce"
  const KEY_CODE_VERIFIER := "edupass_code_verifier"

  /** A redirect to a path of this site, to its login page with these parameters, or to Edupass. */
  datatype Redirect = ToPath(path: string) | ToLogin(returnTo: string, errCode: string) | ToEdupass

  // ---------------------------------------------------------------- what the handlers do

  /** The changes authEdupass makes to the session. */
  function PendingLogin(returnTo: string, state: string, nonce: string, codeVerifier: string): seq<Op> {
    [SetValue(KEY_RETURN_TO, Text(ReturnTo.SafeReturnTo(returnTo, "/"))),
     SetValue(KEY_STATE, Text(state)),
     SetValue(KEY_NONCE, Text(nonce)),
     SetValue(KEY_CODE_VERIFIER, Text(codeVerifier))]
  }

  function TextAt(data: map<string, Value>, key: string): Option<string> {
    if key in data && data[key].Text? then Some(data[key].text) else None
  }

  /**
   What the code exchange and ID token verification come to: a failure, or a verified token with its
   nonce and claims. issuedOk says that its iat is present and not in the future.
   */
  datatype Exchange =
    | ExchangeFailed
    | Verified(nonce: string, issuedOk: bool, id: string, name: string, email: string, groups: seq<string>)

  datatype Query = Query(state: string, error: string)

  const CALLBACK_FAILED := "oauth2_callback_failed"

  /** Whether a callback with this state parameter gets past the pending login and state checks. */
  predicate PassesState(data: map<string, Value>, state: string) {
    && TextAt(data, KEY_STATE).Some? && TextAt(data, KEY_NONCE).Some? && TextAt(data, KEY_CODE_VERIFIER).Some?
    && state == TextAt(data, KEY_STATE).value
  }

  function PendingReturnTo(data: map<string, Value>): string {
    match TextAt(data, KEY_RETURN_TO)
    case None => "/"
    case Some(path) => if path == "" then "/" else path
  }

  /** The user authEdupassCallback signs in, or the error code it refuses with. */
  datatype Verdict = Accept(user: User) | Refuse(errCode: string)

  /** What the callback makes of a token that passed verification and of the resolved groups claim. */
  function JudgeGroups(e: Exchange, g: EdupassGroups.Groups): Verdict
    requires e.Verified?
  {
    match EdupassGroups.Decide(g)
    case Refused(errCode) => Refuse(errCode)
    case SignsIn(role) => Accept(User(e.id, e.name, e.email, role.code, role.location, Some(g.attributes)))
  }

  /** The token carries the pending login's nonce, was not issued in the future, and says who the user is. */
  predicate TokenOk(nonce: string, e: Exchange) {
    e.Verified? && e.nonce == nonce && e.issuedOk && e.id != "" && e.name != "" && e.email != ""
  }

  function Judge(data: map<string, Value>, q: Query, e: Exchange, appCode: string): Verdict {
    if !PassesState(data, q.state) || q.error != "" || !TokenOk(TextAt(data, KEY_NONCE).value, e) then
      Refuse(CALLBACK_FAILED)
    else
      JudgeGroups(e, EdupassGroups.Resolve(e.groups, EdupassGroups.Classifier(appCode)))
  }

  const CLEAR_PENDING: seq<Op> :=
    [RemoveValue(KEY_RETURN_TO), RemoveValue(KEY_STATE), RemoveValue(KEY_NONCE), RemoveValue(KEY_CODE_VERIFIER)]

  /** The changes authEdupassCallback makes to the session. */
  function CallbackOps(v: Verdict, freshId: string, freshToken: Bytes): seq<Op> {
    CLEAR_PENDING + if v.Accept? then [Op.SetUser(v.user, freshId, freshToken)] else []
  }

  function CallbackRedirect(data: map<string, Value>, v: Verdict): Redirect {
    match v
    case Accept(_) => ToPath(PendingReturnTo(data))
    case Refuse(errCode) => ToLogin(PendingReturnTo(data), errCode)
  }

  function ApplyOps(s: Sess, ops: seq<Op>): Sess
    decreases |ops|
  {
    if ops == [] then s else ApplyOps(ApplyOp(s, ops[0]), ops[1..])
  }

  lemma FourOps(s: Sess, ops: seq<Op>)
    requires |ops| == 4
    ensures ApplyOps(s, ops) == ApplyOp(ApplyOp(ApplyOp(ApplyOp(s, ops[0]), ops[1]), ops[2]), ops[3])
  {
    assert ops == [] + [ops[0]] + [ops[1]] + [ops[2]] + [ops[3]];
    OpsAppend(s, [], ops[0]);
    OpsAppend(s, [] + [ops[0]], ops[1]);
    OpsAppend(s, [] + [ops[0]] + [ops[1]], ops[2]);
    OpsAppend(s, [] + [ops[0]] + [ops[1]] + [ops[2]], ops[3]);
  }

  lemma {:induction false} OpsAppend(s: Sess, ops: seq<Op>, op: Op)
    ensures ApplyOps(s, ops + [op]) == ApplyOp(ApplyOps(s, ops), op)
    decreases |ops|
  {
    if ops == [] {
      assert (ops + [op])[1..] == [];
    } else {
      assert (ops + [op])[1..] == ops[1..] + [op];
      OpsAppend(ApplyOp(s, ops[0]), ops[1..], op);
    }
  }

  /** Session data with a pending login added, or replaced. */
  function WithLogin(
      data: map<string, Value>, returnTo: string, state: string, nonce: string, codeVerifier: string)
    : map<string, Value>
  {
    data[KEY_RETURN_TO := Text(if ReturnTo.IsSafe(returnTo) then returnTo else "/")]
    [KEY_STATE := Text(state)][KEY_NONCE := Text(nonce)][KEY_CODE_VERIFIER := Text(codeVerifier)]
  }

  /** authEdupass records the four values of a pending login, and changes nothing else. */
  lemma PendingLoginExactly(s: Sess, returnTo: string, state: string, nonce: string, codeVerifier: string)
    ensures ApplyOps(s, PendingLogin(returnTo, state, nonce, codeVerifier))
            == s.(data := WithLogin(s.data, returnTo, state, nonce, codeVerifier))
  {
    FourOps(s, PendingLogin(returnTo, state, nonce, codeVerifier));
  }

  function WithoutLogin(data: map<string, Value>): map<string, Value> {
    data - {KEY_RETURN_TO, KEY_STATE, KEY_NONCE, KEY_CODE_VERIFIER}
  }

  /** What the callback starts with takes exactly the four values of a pending login away. */
  lemma ClearPendingExactly(s: Sess)
    ensures ApplyOps(s, CLEAR_PENDING) == s.(data := WithoutLogin(s.data))
  {
    FourOps(s, CLEAR_PENDING);
    assert s.data - {KEY_RETURN_TO} - {KEY_STATE} - {KEY_NONCE} - {KEY_CODE_VERIFIER} == WithoutLogin(s.data);
  }

  method AuthEdupass(sess: Session, returnTo: string, state: string, nonce: string, codeVerifier: string)
    returns (redirect: Redirect)
    modifies sess
    ensures sess.State() == ApplyOps(old(sess.State()), PendingLogin(returnTo, state, nonce, codeVerifier))
    ensures sess.State() == old(sess.State()).(data := WithLogin(old(sess.data), returnTo, state, nonce, codeVerifier))
    ensures redirect == ToEdupass
  {
    ghost var s0 := sess.State();
    ghost var ops := PendingLogin(returnTo, state, nonce, codeVerifier);
    sess.Set(KEY_RETURN_TO, Text(ReturnTo.SafeReturnTo(returnTo, "/")));
    sess.Set(KEY_STATE, Text(state));
    sess.Set(KEY_NONCE, Text(nonce));
    sess.Set(KEY_CODE_VERIFIER, Text(codeVerifier));
    FourOps(s0, ops);
    PendingLoginExactly(s0, returnTo, state, nonce, codeVerifier);
    redirect := ToEdupass;
  }

  /** The start of authEdupassCallback: whatever happens next, the pending login is gone from the session. */
  method TakePending(sess: Session) returns (returnTo: string, state: Option<string>, nonce: Option<string>, ok: bool)
    modifies sess
    ensures sess.State() == ApplyOps(old(sess.State()), CLEAR_PENDING)
    ensures sess.State() == old(sess.State()).(data := WithoutLogin(old(sess.data)))
    ensures returnTo == PendingReturnTo(old(sess.data))
    ensures state == TextAt(old(sess.data), KEY_STATE) && nonce == TextAt(old(sess.data), KEY_NONCE)
    ensures ok <==> state.Some? && nonce.Some? && TextAt(old(sess.data), KEY_CODE_VERIFIER).Some?
  {
    ghost var s0 := sess.State();
    var text, _ := sess.GetAndDeleteText(KEY_RETURN_TO);
    returnTo := if text == "" then "/" else text;
    var stateText, stateOk := sess.GetAndDeleteText(KEY_STATE);
    var nonceText, nonceOk := sess.GetAndDeleteText(KEY_NONCE);
    var _, codeVerifierOk := sess.GetAndDeleteText(KEY_CODE_VERIFIER);
    FourOps(s0, CLEAR_PENDING);
    ClearPendingExactly(s0);
    state := if stateOk then Some(stateText) else None;
    nonce := if nonceOk then Some(nonceText) else None;
    ok := stateOk && nonceOk && codeVerifierOk;
  }

  // ---------------------------------------------------------------- what the callback is for

  /**
   The callback belongs to the pending login of this session, and brings a token for it, issued in time, that says
   who the user is.
   */
  predicate Genuine(data: map<string, Value>, q: Query, e: Exchange) {
    && KEY_STATE in data && data[KEY_STATE] == Text(q.state)
    && KEY_NONCE in data && data[KEY_NONCE].Text?
    && KEY_CODE_VERIFIER in data && data[KEY_CODE_VERIFIER].Text?
    && q.error == ""
    && e.Verified? && data[KEY_NONCE] == Text(e.nonce) && e.issuedOk
    && e.id != "" && e.name != "" && e.email != ""
  }

  /** The only base role the groups claim grants. */
  ghost predicate OnlyRole(groups: seq<string>, appCode: string, role: EdupassGroups.Grant) {
    && EdupassGroups.HasRole(groups, appCode, role)
    && forall role' | EdupassGroups.HasRole(groups, appCode, role') :: role' == role
  }

  /** Who signs in with a genuine token whose groups claim grants one base role: who it says, in that role. */
  ghost predicate IsUserOf(u: User, e: Exchange, appCode: string)
    requires e.Verified?
  {
    && u.id == e.id && u.name == e.name && u.email == e.email
    && OnlyRole(e.groups, appCode, EdupassGroups.Grant(u.schoolCode, u.role))
    && u.attributes.Some?
    && EdupassGroups.AttributesAre(e.groups, appCode, u.schoolCode, u.attributes.value)
  }

  ghost predicate HasNoRole(groups: seq<string>, appCode: string) {
    forall role :: !EdupassGroups.HasRole(groups, appCode, role)
  }

  ghost predicate IsRefusalOf(errCode: string, data: map<string, Value>, q: Query, e: Exchange, appCode: string) {
    if !Genuine(data, q, e) then errCode == "oauth2_callback_failed"
    else if !HasNoRole(e.groups, appCode) then errCode == "multiple_roles"
    else if EdupassGroups.HasMKGrant(e.groups, appCode) then errCode == "unsupported_school_mk"
    else errCode == "no_role"
  }

  ghost predicate SignsInWith(data: map<string, Value>, q: Query, e: Exchange, appCode: string) {
    Genuine(data, q, e) && exists role :: OnlyRole(e.groups, appCode, role)
  }

  /**
   What the callback makes of session s0. It signs in exactly when the callback is genuine and the claim grants
   exactly one base role: then the session has a new ID, a new token, no data and the user. Otherwise it loses the
   pending login and nothing else. Either way the user goes on to the pending return path, or to the login page
   with it.
   */
  ghost predicate CallbackMeets(
      s0: Sess, q: Query, e: Exchange, appCode: string, freshId: string, freshToken: Bytes, s: Sess, redirect: Redirect)
  {
    var returnTo :=
      if KEY_RETURN_TO in s0.data && s0.data[KEY_RETURN_TO].Text? && s0.data[KEY_RETURN_TO] != Text("")
      then s0.data[KEY_RETURN_TO].text else "/";
    if SignsInWith(s0.data, q, e, appCode) then
      && s.user.Some? && IsUserOf(s.user.value, e, appCode)
      && s == Sess(freshId, freshToken, s.user, map[], s0.destroyed, s0.storedId)
      && redirect == ToPath(returnTo)
    else
      && s == s0.(data := WithoutLogin(s0.data))
      && redirect.ToLogin? && redirect.returnTo == returnTo
      && IsRefusalOf(redirect.errCode, s0.data, q, e, appCode)
  }

  /** A claim's roles settle whether it grants none, one or more. */
  lemma RolesCount(groups: seq<string>, appCode: string, roles: seq<EdupassGroups.Grant>)
    requires EdupassGroups.RolesAre(groups, appCode, roles)
    ensures |roles| == 0 <==> HasNoRole(groups, appCode)
    ensures |roles| == 1 <==> exists role :: OnlyRole(groups, appCode, role)
    ensures |roles| == 1 ==> OnlyRole(groups, appCode, roles[0])
  {
    if |roles| >= 1 {
      assert roles[0] in roles;
    }
    if |roles| >= 2 {
      assert roles[1] in roles && roles[0] != roles[1];
    }
    if |roles| == 1 {
      assert OnlyRole(groups, appCode, roles[0]);
    }
  }

  /** What the callback makes of the groups claim of a genuine token. */
  lemma JudgedGroups(data: map<string, Value>, q: Query, e: Exchange, appCode: string, g: EdupassGroups.Groups)
    requires Genuine(data, q, e) && EdupassGroups.ComesTo(e.groups, appCode, g)
    ensures match JudgeGroups(e, g)
            case Accept(user) => SignsInWith(data, q, e, appCode) && IsUserOf(user, e, appCode)
            case Refuse(errCode) => !SignsInWith(data, q, e, appCode) && IsRefusalOf(errCode, data, q, e, appCode)
  {
    RolesCount(e.groups, appCode, g.roles);
  }

  lemma JudgeUnfolds(data: map<string, Value>, q: Query, e: Exchange, appCode: string)
    ensures Judge(data, q, e, appCode)
            == if Genuine(data, q, e) then
                 JudgeGroups(e, EdupassGroups.Resolve(e.groups, EdupassGroups.Classifier(appCode)))
               else Refuse("oauth2_callback_failed")
  {
  }

  /** The verdict is the one the callback is meant to come to. */
  ghost predicate VerdictOk(v: Verdict, data: map<string, Value>, q: Query, e: Exchange, appCode: string) {
    match v
    case Accept(user) => SignsInWith(data, q, e, appCode) && IsUserOf(user, e, appCode)
    case Refuse(errCode) => !SignsInWith(data, q, e, appCode) && IsRefusalOf(errCode, data, q, e, appCode)
  }

  lemma JudgedExactly(data: map<string, Value>, q: Query, e: Exchange, appCode: string)
    requires Edupass.IsAppCode(appCode)
    ensures VerdictOk(Judge(data, q, e, appCode), data, q, e, appCode)
  {
    JudgeUnfolds(data, q, e, appCode);
    if Genuine(data, q, e) {
      EdupassGroups.ResolvedExactly(e.groups, appCode);
      JudgedGroups(data, q, e, appCode, EdupassGroups.Resolve(e.groups, EdupassGroups.Classifier(appCode)));
    }
  }

  lemma CallbackOutcome(s: Sess, v: Verdict, freshId: string, freshToken: Bytes)
    ensures ApplyOps(s, CallbackOps(v, freshId, freshToken))
            == if v.Accept? then Sess(freshId, freshToken, Some(v.user), map[], s.destroyed, s.storedId)
               else s.(data := WithoutLogin(s.data))
  {
    ClearPendingExactly(s);
    if v.Accept? {
      OpsAppend(s, CLEAR_PENDING, Op.SetUser(v.user, freshId, freshToken));
    } else {
      assert CallbackOps(v, freshId, freshToken) == CLEAR_PENDING;
    }
  }

  lemma MeetsBy(
      s: Sess, q: Query, e: Exchange, appCode: string, v: Verdict, freshId: string, freshToken: Bytes, s': Sess)
    requires VerdictOk(v, s.data, q, e, appCode)
    requires s' == if v.Accept? then Sess(freshId, freshToken, Some(v.user), map[], s.destroyed, s.storedId)
                   else s.(data := WithoutLogin(s.data))
    ensures CallbackMeets(s, q, e, appCode, freshId, freshToken, s', CallbackRedirect(s.data, v))
  {
  }

  /** For every session, query and token: the callback's changes and redirect are those it is meant to make. */
  lemma CallbackExactly(s: Sess, q: Query, e: Exchange, appCode: string, freshId: string, freshToken: Bytes)
    requires Edupass.IsAppCode(appCode)
    ensures var v := Judge(s.data, q, e, appCode);
            CallbackMeets(s, q, e, appCode, freshId, freshToken,
                          ApplyOps(s, CallbackOps(v, freshId, freshToken)), CallbackRedirect(s.data, v))
  {
    var v := Judge(s.data, q, e, appCode);
    JudgedExactly(s.data, q, e, appCode);
    CallbackOutcome(s, v, freshId, freshToken);
    MeetsBy(s, q, e, appCode, v, freshId, freshToken, ApplyOps(s, CallbackOps(v, freshId, freshToken)));
  }

  /** The token answers the pending login with this nonce, and grants one base role to who it names. */
  ghost predicate TokenInOrder(e: Exchange, nonce: string, appCode: string) {
    && e.Verified? && e.nonce == nonce && e.issuedOk && e.id != "" && e.name != "" && e.email != ""
    && exists role :: OnlyRole(e.groups, appCode, role)
  }

  /**
   A login from start to end: authEdupass, then the callback. The user signs in exactly when the callback has the
   login's state and no error and the token is in order, and goes on to where they asked to if that is safe.
   */
  lemma LoginRoundTrip(
      s: Sess, returnTo: string, state: string, nonce: string, codeVerifier: string, q: Query, e: Exchange,
      appCode: string, freshId: string, freshToken: Bytes)
    requires Edupass.IsAppCode(appCode)
    ensures var s1 := ApplyOps(s, PendingLogin(returnTo, state, nonce, codeVerifier));
            var v := Judge(s1.data, q, e, appCode);
            var s2, redirect := ApplyOps(s1, CallbackOps(v, freshId, freshToken)), CallbackRedirect(s1.data, v);
            var path := if ReturnTo.IsSafe(returnTo) then returnTo else "/";
            if q.state == state && q.error == "" && TokenInOrder(e, nonce, appCode) then
              && s2 == Sess(freshId, freshToken, s2.user, map[], s.destroyed, s.storedId)
              && s2.user.Some? && IsUserOf(s2.user.value, e, appCode) && redirect == ToPath(path)
            else
              && s2 == s.(data := WithoutLogin(s.data))
              && redirect.ToLogin? && redirect.returnTo == path
  {
    var s1 := ApplyOps(s, PendingLogin(returnTo, state, nonce, codeVerifier));
    PendingLoginExactly(s, returnTo, state, nonce, codeVerifier);
    CallbackExactly(s1, q, e, appCode, freshId, freshToken);
    LoginIsPending(s.data, returnTo, state, nonce, codeVerifier, q, e, appCode);
  }

  lemma LoginIsPending(
      data: map<string, Value>, returnTo: string, state: string, nonce: string, codeVerifier: string, q: Query,
      e: Exchange, appCode: string)
    ensures var data' := WithLogin(data, returnTo, state, nonce, codeVerifier);
            && (SignsInWith(data', q, e, appCode)
                <==> q.state == state && q.error == "" && TokenInOrder(e, nonce, appCode))
            && WithoutLogin(data') == WithoutLogin(data)
            && data'[KEY_RETURN_TO] == Text(if ReturnTo.IsSafe(returnTo) then returnTo else "/") != Text("")
  {
    assert !ReturnTo.IsSafe("");
  }

  method AuthEdupassCallback(
      sess: Session, q: Query, exchange: Exchange, appCode: string, freshId: string, freshToken: Bytes)
    returns (redirect: Redirect)
    modifies sess
    ensures var v := Judge(old(sess.data), q, exchange, appCode);
            && sess.State() == ApplyOps(old(sess.State()), CallbackOps(v, freshId, freshToken))
            && redirect == CallbackRedirect(old(sess.data), v)
    ensures Edupass.IsAppCode(appCode) ==>
              CallbackMeets(old(sess.State()), q, exchange, appCode, freshId, freshToken, sess.State(), redirect)
  {
    if Edupass.IsAppCode(appCode) {
      CallbackExactly(sess.State(), q, exchange, appCode, freshId, freshToken);
    }
    ghost var s0, data := sess.State(), sess.data;
    var returnTo, state, nonce, ok := TakePending(sess);
    assert CLEAR_PENDING + [] == CLEAR_PENDING;
    if !ok || q.state != state.value {
      return ToLogin(returnTo, CALLBACK_FAILED);
    }
    if q.error != "" || exchange.ExchangeFailed? {
      return ToLogin(returnTo, CALLBACK_FAILED);
    }
    if exchange.nonce != nonce.value || !exchange.issuedOk {
      return ToLogin(returnTo, CALLBACK_FAILED);
    }
    if exchange.id == "" || exchange.name == "" || exchange.email == "" {
      return ToLogin(returnTo, CALLBACK_FAILED);
    }
    var resolved := EdupassGroups.ResolveEdupassGroups(exchange.groups, appCode);
    redirect := SignIn(sess, exchange, resolved, returnTo, freshId, freshToken);
    ghost var v := JudgeGroups(exchange, resolved);
    assert v == Judge(data, q, exchange, appCode);
    if v.Accept? {
      OpsAppend(s0, CLEAR_PENDING, Op.SetUser(v.user, freshId, freshToken));
    }
  }

  /** The end of authEdupassCallback, from the resolved groups on. */
  method SignIn(
      sess: Session, e: Exchange, g: EdupassGroups.Groups, returnTo: string, freshId: string, freshToken: Bytes)
    returns (redirect: Redirect)
    requires e.Verified?
    modifies sess
    ensures match JudgeGroups(e, g)
            case Accept(user) =>
              && sess.State() == ApplyOp(old(sess.State()), Op.SetUser(user, freshId, freshToken))
              && redirect == ToPath(returnTo)
            case Refuse(errCode) => sess.State() == old(sess.State()) && redirect == ToLogin(returnTo, errCode)
  {
    if |g.roles| != 1 {
      var errCode := "no_role";
      if |g.roles| > 1 {
        errCode := "multiple_roles";
      } else if g.removedMKRole {
        errCode := "unsupported_school_mk";
      }
      return ToLogin(returnTo, errCode);
    }
    sess.SetUser(User(e.id, e.name, e.email, g.roles[0].code, g.roles[0].location, Some(g.attributes)),
                 freshId, freshToken);
    redirect := ToPath(returnTo);
  }

  method Logout(sess: Session) returns (redirect: Redirect)
    modifies sess
    ensures sess.State() == ApplyOps(old(sess.State()), [Op.Destroy]) && redirect == ToEdupass
    ensures sess.destroyed && sess.user == None && sess.data == map[]
    ensures sess.id == old(sess.id) && sess.csrfToken == old(sess.csrfToken) && sess.storedId == old(sess.storedId)
  {
    ghost var s0 := sess.State();
    sess.Destroy();
    assert [Op.Destroy][1..] == [];
    assert ApplyOps(s0, [Op.Destroy]) == ApplyOps(ApplyOp(s0, Op.Destroy), []);
    redirect := ToEdupass;
  }

  // ---------------------------------------------------------------- who is signed in

  /** A user complete in every field, with a role and attributes of the reference lists. */
  ghost predicate Complete(u: User) {
    && u.id != "" && u.name != "" && u.email != ""
    && Edupass.IsRecognizedRole(u.role) && Edupass.RoleLabel(u.role) != ""
    && Edupass.IsLocationCode(u.schoolCode) && !Edupass.IsMKSchoolCode(u.schoolCode)
    && u.attributes.Some?
    && DuplicateFree(u.attributes.value)
    && forall code | code in u.attributes.value :: Edupass.IsRecognizedAttribute(code)
  }

  /** The proxy's completeness check (server/internal/handler/proxy.go). */
  predicate ProxyTakes(u: User) {
    u.id != "" && u.email != "" && u.role != "" && u.schoolCode != "" && u.attributes.Some?
  }

  lemma RoleEntryFacts(entry: string, appCode: string)
    ensures match Edupass.Classify(entry, appCode)
            case Role(location, code) =>
              && Edupass.IsRecognizedRole(code) && Edupass.RoleLabel(code) != ""
              && Edupass.IsLocationCode(location) && !Edupass.IsMKSchoolCode(location)
            case Attribute(_, code) => Edupass.IsRecognizedAttribute(code)
            case _ => true
  {
  }

  lemma GroupsFacts(raw: seq<string>, appCode: string, roles: seq<EdupassGroups.Grant>, attributes: seq<string>)
    requires var c := EdupassGroups.Classifier(appCode);
             && roles == EdupassGroups.Roles(raw, c)
             && attributes == EdupassGroups.Attributes(EdupassGroups.AttributeEntries(raw, c), roles, c)
    ensures forall role | role in roles ::
              && Edupass.IsRecognizedRole(role.code) && Edupass.RoleLabel(role.code) != ""
              && Edupass.IsLocationCode(role.location) && !Edupass.IsMKSchoolCode(role.location)
    ensures DuplicateFree(attributes)
    ensures forall code | code in attributes :: Edupass.IsRecognizedAttribute(code)
  {
    var c := EdupassGroups.Classifier(appCode);
    EdupassGroups.RolesExact(raw, c);
    EdupassGroups.AttributesExact(raw, roles, c);
    forall e ensures c(e) == Edupass.Classify(e, appCode) {
    }
    forall role | role in roles
      ensures Edupass.IsRecognizedRole(role.code) && Edupass.RoleLabel(role.code) != ""
      ensures Edupass.IsLocationCode(role.location) && !Edupass.IsMKSchoolCode(role.location)
    {
      var e :| e in raw && c(e).Role? && EdupassGroups.GrantOf(e, c) == role;
      RoleEntryFacts(e, appCode);
    }
    forall code | code in attributes ensures Edupass.IsRecognizedAttribute(code) {
      var e :| e in raw && EdupassGroups.IsKept(e, roles, c) && EdupassGroups.CodeOf(e, c) == code;
      RoleEntryFacts(e, appCode);
    }
  }

  /** Whoever the callback signs in is complete, whatever the claims. */
  lemma AcceptedIsComplete(data: map<string, Value>, q: Query, e: Exchange, appCode: string)
    ensures var v := Judge(data, q, e, appCode);
            v.Accept? ==> Complete(v.user) && ProxyTakes(v.user)
  {
    if Judge(data, q, e, appCode).Accept? {
      var c := EdupassGroups.Classifier(appCode);
      var roles := EdupassGroups.Roles(e.groups, c);
      GroupsFacts(e.groups, appCode, roles,
                  EdupassGroups.Attributes(EdupassGroups.AttributeEntries(e.groups, c), roles, c));
      EmptyIsNoRole();
    }
  }

  lemma EmptyIsNoRole()
    ensures !Edupass.IsRecognizedRole("")
  {
  }

  // ---------------------------------------------------------------- what every run keeps

  /** The op is one the handlers make: these are the only callers of the session's mutating methods. */
  ghost predicate HandlerOp(op: Op, appCode: string) {
    || (exists returnTo, state, nonce, codeVerifier :: op in PendingLogin(returnTo, state, nonce, codeVerifier))
    || (exists data, q, e, id, token :: op in CallbackOps(Judge(data, q, e, appCode), id, token))
    || op == Op.Destroy
  }

  ghost predicate HandlerSteps(steps: seq<Step>, appCode: string) {
    forall step | step in steps && step.Mutate? :: HandlerOp(step.op, appCode)
  }

  /** A return path under its key is a text safeReturnTo accepts. */
  predicate ReturnToOk(key: string, value: Value) {
    key == KEY_RETURN_TO ==> value.Text? && ReturnTo.IsSafe(value.text)
  }

  ghost function HandlerRules(): Rules {
    Rules(ReturnToOk, u => Complete(u))
  }

  lemma HandlerOpOk(op: Op, appCode: string)
    requires HandlerOp(op, appCode)
    ensures OpOk(op, HandlerRules())
  {
    if returnTo, state, nonce, codeVerifier :| op in PendingLogin(returnTo, state, nonce, codeVerifier) {
      ReturnTo.RootIsSafe();
      ReturnTo.SafeReturnToIdempotent(returnTo, "/");
    } else if data, q, e, id, token :| op in CallbackOps(Judge(data, q, e, appCode), id, token) {
      AcceptedIsComplete(data, q, e, appCode);
    }
  }

  lemma HandlerRunOk(steps: seq<Step>, appCode: string, opts: Options)
    requires CanRun(INITIAL, steps, opts) && HandlerSteps(steps, appCode)
    ensures WorldOk(Run(INITIAL, steps, opts), HandlerRules())
  {
    forall step | step in steps ensures StepOk(step, HandlerRules()) {
      if step.Mutate? {
        HandlerOpOk(step.op, appCode);
      }
    }
    RunKeepsOk(INITIAL, steps, opts, HandlerRules());
  }

  /**
   From an empty store, in every run: each session stored or in flight with a user has a complete one,
   which the proxy takes.
   */
  lemma UsersAlwaysComplete(steps: seq<Step>, w: World, appCode: string, opts: Options)
    requires CanRun(INITIAL, steps, opts) && HandlerSteps(steps, appCode) && w == Run(INITIAL, steps, opts)
    ensures forall id | id in w.table ::
              var snap := Decode(w.table[id].data);
              && snap.Some?
              && (snap.value.user.Some? ==> Complete(snap.value.user.value) && ProxyTakes(snap.value.user.value))
    ensures forall r | IsActive(w, r) && w.requests[r].sess.user.Some? ::
              Complete(w.requests[r].sess.user.value) && ProxyTakes(w.requests[r].sess.user.value)
  {
    HandlerRunOk(steps, appCode, opts);
    ReachableFromInitial(steps, opts);
    EmptyIsNoRole();
    forall id | id in w.table
      ensures Decode(w.table[id].data).Some?
      ensures UserOk(Decode(w.table[id].data).value.user, HandlerRules())
    {
      assert Protocol.EntryOk(w, id, w.table[id]) && ProtocolData.EntryOk(w.table[id].data, HandlerRules());
    }
    forall r | IsActive(w, r) ensures UserOk(w.requests[r].sess.user, HandlerRules()) {
      assert SessOk(w.requests[r].sess, HandlerRules());
    }
  }

  lemma ReachableFromInitial(steps: seq<Step>, opts: Options)
    requires CanRun(INITIAL, steps, opts)
    ensures Inv(Run(INITIAL, steps, opts))
  {
    RunKeeps(INITIAL, steps, opts);
  }

  /** Where a redirect leaves the user's return path. */
  predicate RedirectOk(redirect: Redirect) {
    match redirect
    case ToPath(path) => ReturnTo.IsSafe(path)
    case ToLogin(returnTo, _) => ReturnTo.IsSafe(returnTo)
    case ToEdupass => true
  }

  /**
   In every run: each return path stored or in flight is one safeReturnTo accepts, and so is wherever
   a callback redirects to, whichever way it goes.
   */
  lemma RedirectsAlwaysSafe(steps: seq<Step>, w: World, r: nat, v: Verdict, appCode: string, opts: Options)
    requires CanRun(INITIAL, steps, opts) && HandlerSteps(steps, appCode) && w == Run(INITIAL, steps, opts)
    requires IsActive(w, r)
    ensures RedirectOk(CallbackRedirect(w.requests[r].sess.data, v))
    ensures forall id | id in w.table && Decode(w.table[id].data).Some? ::
              var data := Decode(w.table[id].data).value.data;
              KEY_RETURN_TO in data ==> data[KEY_RETURN_TO].Text? && ReturnTo.IsSafe(data[KEY_RETURN_TO].text)
  {
    HandlerRunOk(steps, appCode, opts);
    ReturnTo.RootIsSafe();
    var data := w.requests[r].sess.data;
    assert SessOk(w.requests[r].sess, HandlerRules());
    assert KEY_RETURN_TO in data ==> ReturnToOk(KEY_RETURN_TO, data[KEY_RETURN_TO]);
    forall id | id in w.table && Decode(w.table[id].data).Some?
      ensures DataOk(Decode(w.table[id].data).value.data, HandlerRules())
    {
      assert ProtocolData.EntryOk(w.table[id].data, HandlerRules());
    }
  }
}
