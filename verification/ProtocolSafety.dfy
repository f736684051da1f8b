/** What every run of the session protocol keeps. */
module ProtocolSafety {
  import opened Prelude
  import opened TtlTable
  import opened SessionModel
  import opened Protocol

  // ---------------------------------------------------------------- one step keeps the invariant

  lemma StoredIdsCreated(w: World)
    requires Inv(w)
    ensures w.table.Keys <= w.created
  {
    forall id | id in w.table ensures id in w.created {
      assert EntryOk(w, id, w.table[id]);
    }
  }

  /** Bindings and the set of created IDs only grow. */
  ghost predicate Grows(w: World, w': World) {
    && w.created <= w'.created
    && forall id | id in w.issued :: id in w'.issued && w'.issued[id] == w.issued[id]
  }

  /** Replacing one request keeps RequestsOk, if no other request may create the IDs it brings. */
  lemma ReplaceRequest(w: World, w': World, r: nat, q: Request)
    requires RequestsOk(w) && Grows(w, w')
    requires w'.requests == w.requests[r := q]
    requires q.Active? ==> SessionOk(w', q.sess) && PhaseOk(w', q.phase)
    requires WillCreate(q) ==> q.sess.id !in w'.created
    requires forall p | p in w.requests && p != r && WillCreate(w.requests[p]) ::
               && w.requests[p].sess.id !in w'.created
               && (WillCreate(q) ==> w.requests[p].sess.id != q.sess.id)
    ensures RequestsOk(w')
  {
    forall p | IsActive(w', p) ensures SessionOk(w', w'.requests[p].sess) && PhaseOk(w', w'.requests[p].phase) {
      if p != r {
        assert IsActive(w, p);
        assert SessionOk(w, w.requests[p].sess);
      }
    }
  }

  lemma OthersKeepIds(w: World, r: nat)
    requires RequestsOk(w) && IsActive(w, r)
    ensures forall p | p in w.requests && p != r && WillCreate(w.requests[p]) ::
              && w.requests[p].sess.id !in w.created
              && w.requests[p].sess.id in w.issued
              && (WillCreate(w.requests[r]) ==> w.requests[p].sess.id != w.requests[r].sess.id)
  {
    forall p | p in w.requests && p != r && WillCreate(w.requests[p])
      ensures w.requests[p].sess.id in w.issued
    {
      assert IsActive(w, p);
    }
  }

  /** A loaded session is the stored one; anything else is a new session. */
  lemma OpenOk(w: World, cookie: string, freshId: string, freshToken: Bytes)
    requires Inv(w)
    ensures var (s, made) := Open(w, cookie, freshId, freshToken);
            && made == !Live(w.table, cookie, w.now)
            && s == (if made then NewSession(freshId, freshToken)
                     else var snap := Decode(w.table[cookie].data).value;
                          Sess(cookie, snap.csrfToken, snap.user, snap.data, false, cookie))
            && (!made ==> SessionOk(w, s))
  {
    if Live(w.table, cookie, w.now) {
      assert EntryOk(w, cookie, w.table[cookie]);
    }
  }

  lemma IssueKeeps(w: World, w': World, s: Sess)
    requires IssuedOk(w) && Fresh(w, s.id, s.csrfToken)
    requires w'.issued == Issue(w, s).issued && w'.created == w.created
    ensures IssuedOk(w') && Grows(w, w')
  {
  }

  lemma ArriveKeepsInv(w: World, step: Step, opts: Options)
    requires Inv(w) && Enabled(w, step) && step.Arrive?
    ensures Inv(Apply(w, step, opts))
  {
    var w' := Apply(w, step, opts);
    OpenOk(w, step.cookie, step.freshId, step.freshToken);
    if step.outcome == Works && !Live(w.table, step.cookie, w.now) {
      IssueKeeps(w, w', NewSession(step.freshId, step.freshToken));
    }
    forall p | p in w.requests && WillCreate(w.requests[p]) ensures w.requests[p].sess.id in w.issued {
      assert IsActive(w, p);
    }
    ReplaceRequest(w, w', step.r, w'.requests[step.r]);
    TableKeeps(w, w');
  }

  lemma TableKeeps(w: World, w': World)
    requires Grows(w, w')
    requires forall id | id in w.table :: EntryOk(w, id, w.table[id])
    ensures forall id | id in w.table :: EntryOk(w', id, w.table[id])
  {
    forall id | id in w.table ensures EntryOk(w', id, w.table[id]) {
      assert EntryOk(w, id, w.table[id]);
    }
  }

  lemma MutateKeepsInv(w: World, step: Step, opts: Options)
    requires Inv(w) && Enabled(w, step) && step.Mutate?
    ensures Inv(Apply(w, step, opts))
  {
    var w' := Apply(w, step, opts);
    assert SessionOk(w, w.requests[step.r].sess);
    OthersKeepIds(w, step.r);
    if step.op.SetUser? {
      IssueKeeps(w, w', w'.requests[step.r].sess);
    }
    ReplaceRequest(w, w', step.r, w'.requests[step.r]);
    TableKeeps(w, w');
  }

  /**
   What request r's commit call can do, whatever its outcome: the table changes at the session's
   IDs only, and the session at most takes its own ID as the one it is stored under.
   */
  ghost predicate CommitShape(w: World, w': World, r: nat)
    requires IsActive(w, r)
  {
    && IsActive(w', r)
    && var s, q := w.requests[r].sess, w'.requests[r];
       && w'.requests == w.requests[r := q]
       && w'.issued == w.issued
       && w'.created == w.created + w'.table.Keys
       && q.phase != Handling
       && (q.phase.Superseding? ==> q.phase.previous == s.storedId)
       && (q.sess == s || (q.sess == s.(storedId := s.id) && s.id in w'.table))
       && (w'.table == w.table
           || (s.destroyed && w'.table == Delete(w.table, s.storedId))
           || WritesSession(w, w', s))
  }

  ghost predicate WritesSession(w: World, w': World, s: Sess) {
    && !s.destroyed && Encodable(s.data)
    && s.id in w'.table && w'.table == w.table[s.id := w'.table[s.id]]
    && w'.table[s.id].data == Encode(ToSnapshot(s))
    && (s.id == s.storedId ==> Live(w.table, s.id, w.now))
  }

  lemma CommitHasShape(w: World, step: Step, opts: Options)
    requires Enabled(w, step) && step.CommitCall?
    ensures CommitShape(w, Apply(w, step, opts), step.r)
  {
  }

  lemma CommitWorldKeepsInv(w: World, w': World, r: nat)
    requires Inv(w) && IsActive(w, r) && w.requests[r].phase == Handling
    requires CommitShape(w, w', r)
    ensures Inv(w')
  {
    var s := w.requests[r].sess;
    assert SessionOk(w, s);
    StoredIdsCreated(w);
    assert w'.created <= w.created + {s.id};
    TableKeeps(w, w');
    forall id | id in w'.table ensures EntryOk(w', id, w'.table[id]) {
      if WritesSession(w, w', s) && id == s.id {
        assert EntryOk(w', id, w'.table[id]);
      } else {
        assert id in w.table && w'.table[id] == w.table[id];
      }
    }
    OthersKeepIds(w, r);
    assert w'.created != w.created ==> WillCreate(w.requests[r]);
    ReplaceRequest(w, w', r, w'.requests[r]);
  }

  lemma CloseKeepsInv(w: World, step: Step, r: nat, opts: Options)
    requires Inv(w) && Enabled(w, step) && (step == Panic(r) || (step.SupersedeCall? && step.r == r))
    ensures Inv(Apply(w, step, opts))
  {
    var w' := Apply(w, step, opts);
    OthersKeepIds(w, r);
    ReplaceRequest(w, w', r, w'.requests[r]);
    TableKeeps(w, w');
  }

  lemma InvStep(w: World, step: Step, opts: Options)
    requires Inv(w) && Enabled(w, step)
    ensures Inv(Apply(w, step, opts))
  {
    match step
    case Arrive(_, _, _, _, _) => ArriveKeepsInv(w, step, opts);
    case Mutate(_, _) => MutateKeepsInv(w, step, opts);
    case CommitCall(r, _, _) =>
      CommitHasShape(w, step, opts);
      CommitWorldKeepsInv(w, Apply(w, step, opts), r);
    case SupersedeCall(r, _) => CloseKeepsInv(w, step, r, opts);
    case Panic(r) => CloseKeepsInv(w, step, r, opts);
    case Tick(_) => TableKeeps(w, Apply(w, step, opts));
  }

  // ---------------------------------------------------------------- what a later world keeps

  /**
   Time moves on, IDs stay bound to what they were issued with, and an ID that was created but
   has no live entry stays without one.
   */
  ghost predicate Extends(w: World, w': World) {
    && w.now <= w'.now
    && w.created <= w'.created
    && (forall id | id in w.issued :: id in w'.issued && w'.issued[id] == w.issued[id])
    && (forall id | id in w.created && !Live(w.table, id, w.now) :: !Live(w'.table, id, w'.now))
  }

  lemma CommitExtends(w: World, w': World, r: nat)
    requires Inv(w) && IsActive(w, r) && w.requests[r].phase == Handling
    requires CommitShape(w, w', r) && w'.now >= w.now
    ensures Extends(w, w')
  {
    forall id | id in w.created && !Live(w.table, id, w.now) ensures !Live(w'.table, id, w'.now) {
      assert WillCreate(w.requests[r]) ==> id != w.requests[r].sess.id;
    }
  }

  lemma ExtendsStep(w: World, step: Step, opts: Options)
    requires Inv(w) && Enabled(w, step)
    ensures Extends(w, Apply(w, step, opts))
  {
    match step
    case Arrive(_, cookie, _, id, token) => OpenOk(w, cookie, id, token);
    case CommitCall(r, _, _) =>
      CommitHasShape(w, step, opts);
      CommitExtends(w, Apply(w, step, opts), r);
    case _ =>
  }

  lemma {:induction false} RunKeeps(w: World, steps: seq<Step>, opts: Options)
    requires Inv(w) && CanRun(w, steps, opts)
    ensures Inv(Run(w, steps, opts)) && Extends(w, Run(w, steps, opts))
    decreases |steps|
  {
    if steps != [] {
      InvStep(w, steps[0], opts);
      ExtendsStep(w, steps[0], opts);
      RunKeeps(Apply(w, steps[0], opts), steps[1..], opts);
    }
  }

  ghost predicate Reachable(w: World, opts: Options) {
    exists steps :: CanRun(INITIAL, steps, opts) && Run(INITIAL, steps, opts) == w
  }

  lemma ReachableInv(w: World, opts: Options)
    requires Reachable(w, opts)
    ensures Inv(w)
  {
    var steps :| CanRun(INITIAL, steps, opts) && Run(INITIAL, steps, opts) == w;
    RunKeeps(INITIAL, steps, opts);
  }

  // ---------------------------------------------------------------- IDs never come back

  /** An ID that was in the store and has left it, however it left, is never in the store again. */
  lemma IdsNeverReturn(w: World, away: seq<Step>, w1: World, rest: seq<Step>, w2: World, id: string, opts: Options)
    requires Reachable(w, opts) && Live(w.table, id, w.now)
    requires CanRun(w, away, opts) && w1 == Run(w, away, opts) && !Live(w1.table, id, w1.now)
    requires CanRun(w1, rest, opts) && w2 == Run(w1, rest, opts)
    ensures !Live(w2.table, id, w2.now) && LoadFrom(Get(w2.table, id, w2.now), id) == Absent
  {
    ReachableInv(w, opts);
    assert EntryOk(w, id, w.table[id]);
    RunKeeps(w, away, opts);
    RunKeeps(w1, rest, opts);
  }

  /** The step is request r's commit call, and the call works. */
  predicate Commits(step: Step, r: nat) {
    step.CommitCall? && step.r == r && step.outcome == Works
  }

  /** Once a signed-out session was removed, even by a call that reported failure, no run brings its ID back. */
  lemma SignOutIsFinal(w: World, r: nat, step: Step, rest: seq<Step>, w': World, opts: Options)
    requires Reachable(w, opts) && Enabled(w, step)
    requires step.CommitCall? && step.r == r && step.outcome != FailsUnchanged
    requires w.requests[r].sess.destroyed
    requires CanRun(Apply(w, step, opts), rest, opts) && w' == Run(Apply(w, step, opts), rest, opts)
    ensures var id := w.requests[r].sess.storedId;
            !Live(w'.table, id, w'.now) && LoadFrom(Get(w'.table, id, w'.now), id) == Absent
  {
    ReachableInv(w, opts);
    assert SessionOk(w, w.requests[r].sess);
    InvStep(w, step, opts);
    ExtendsStep(w, step, opts);
    RunKeeps(Apply(w, step, opts), rest, opts);
    StoredIdsCreated(w');
  }

  /**
   A request still in flight when its session is signed out cannot restore it: whenever its commit
   runs, and however the call ends, the store is left as it was and no cookie is sent.
   */
  lemma SignOutBeatsRequestsInFlight(
      w: World, q: nat, signOut: Step, rest: seq<Step>, w': World, r: nat, late: Step, opts: Options)
    requires Reachable(w, opts) && Enabled(w, signOut)
    requires signOut.CommitCall? && signOut.r == q && signOut.outcome != FailsUnchanged
    requires w.requests[q].sess.destroyed
    requires CanRun(Apply(w, signOut, opts), rest, opts) && w' == Run(Apply(w, signOut, opts), rest, opts)
    requires Enabled(w', late) && late.CommitCall? && late.r == r
    requires !w'.requests[r].sess.destroyed
    requires w'.requests[r].sess.id == w'.requests[r].sess.storedId == w.requests[q].sess.storedId
    ensures Apply(w', late, opts).table == w'.table
    ensures SettledCookie(Apply(w', late, opts).requests[r]) == None
  {
    SignOutIsFinal(w, q, signOut, rest, w', opts);
  }

  /** The removal of a superseded entry is final in the same way. */
  lemma SupersedingIsFinal(w: World, step: Step, rest: seq<Step>, w': World, opts: Options)
    requires Reachable(w, opts) && Enabled(w, step) && step.SupersedeCall? && step.outcome != FailsUnchanged
    requires CanRun(Apply(w, step, opts), rest, opts) && w' == Run(Apply(w, step, opts), rest, opts)
    ensures var id := w.requests[step.r].phase.previous;
            LoadFrom(Get(w'.table, id, w'.now), id) == Absent
  {
    ReachableInv(w, opts);
    var id := w.requests[step.r].phase.previous;
    InvStep(w, step, opts);
    ExtendsStep(w, step, opts);
    RunKeeps(Apply(w, step, opts), rest, opts);
    StoredIdsCreated(w');
  }

  /** Commit's "ID already taken" branch is unreachable, and so is Load's undecodable one. */
  lemma ErrorBranchesUnreachable(w: World, opts: Options)
    requires Reachable(w, opts)
    ensures forall step: Step | Enabled(w, step) && step.CommitCall? ::
              var s := w.requests[step.r].sess;
              CommitFirst(w.table, w.now, w.now + step.elapsed, s, TtlFor(opts, s), step.outcome).next
              != Return(ErrTaken)
    ensures forall id :: LoadFrom(Get(w.table, id, w.now), id) != Undecodable
  {
    ReachableInv(w, opts);
    StoredIdsCreated(w);
    forall id ensures LoadFrom(Get(w.table, id, w.now), id) != Undecodable {
      if Live(w.table, id, w.now) {
        assert EntryOk(w, id, w.table[id]);
      }
    }
  }

  // ---------------------------------------------------------------- IDs are bound for life

  /**
   Whatever loads under an ID, at any two moments of a run, has the same user (or none) and the
   same CSRF token, and so has every session in flight under it that is not destroyed.
   */
  lemma IdsBoundForLife(w: World, steps: seq<Step>, id: string, opts: Options)
    requires Reachable(w, opts) && Live(w.table, id, w.now) && CanRun(w, steps, opts)
    ensures var w' := Run(w, steps, opts);
            var before := LoadFrom(Get(w.table, id, w.now), id);
            var after := LoadFrom(Get(w'.table, id, w'.now), id);
            && before.Loaded?
            && (after == Absent
                || (after.Loaded? && after.sess.user == before.sess.user
                    && after.sess.csrfToken == before.sess.csrfToken))
            && forall r | IsActive(w', r) && w'.requests[r].sess.id == id && !w'.requests[r].sess.destroyed ::
                 && w'.requests[r].sess.user == before.sess.user
                 && w'.requests[r].sess.csrfToken == before.sess.csrfToken
  {
    var w' := Run(w, steps, opts);
    ReachableInv(w, opts);
    RunKeeps(w, steps, opts);
    assert EntryOk(w, id, w.table[id]);
    OpenOk(w, id, "", []);
    if Live(w'.table, id, w'.now) {
      assert EntryOk(w', id, w'.table[id]);
    }
    forall r | IsActive(w', r) && w'.requests[r].sess.id == id && !w'.requests[r].sess.destroyed
      ensures Bound(w', id, w'.requests[r].sess.csrfToken, w'.requests[r].sess.user)
    {
      assert SessionOk(w', w'.requests[r].sess);
    }
  }

  /** Sessions loaded under different IDs, at any two moments of a run, have different CSRF tokens. */
  lemma TokensDiffer(w: World, steps: seq<Step>, id: string, other: string, opts: Options)
    requires Reachable(w, opts) && CanRun(w, steps, opts) && id != other
    ensures var w' := Run(w, steps, opts);
            var one := LoadFrom(Get(w.table, id, w.now), id);
            var two := LoadFrom(Get(w'.table, other, w'.now), other);
            one.Loaded? && two.Loaded? ==> one.sess.csrfToken != two.sess.csrfToken
  {
    var w' := Run(w, steps, opts);
    ReachableInv(w, opts);
    RunKeeps(w, steps, opts);
    if Live(w.table, id, w.now) && Live(w'.table, other, w'.now) {
      assert EntryOk(w, id, w.table[id]) && EntryOk(w', other, w'.table[other]);
    }
  }

  // ---------------------------------------------------------------- cookie and store

  /** The cookie a request's response carries, from the commit step that settles it. */
  function SettledCookie(q: Request): Option<Cookie> {
    if !q.Active? then None
    else match q.phase
      case Handling => None
      case Superseding(_, ttl) => Respond(q.sess, ttl, NoError).cookie
      case Finished(response) => response.cookie
  }

  ghost predicate ValidOptions(opts: Options) {
    opts.defaultTtl >= SECOND && opts.authenticatedTtl >= SECOND
  }

  /** w's store holds exactly request r's session under id, for at least maxAge seconds: its TTL in whole seconds. */
  ghost predicate WrittenFor(w: World, r: nat, id: string, maxAge: int, opts: Options) {
    && IsActive(w, r) && w.requests[r].sess.id == id && !w.requests[r].sess.destroyed
    && 1 <= maxAge == TtlFor(opts, w.requests[r].sess) / SECOND
    && Live(w.table, id, w.now)
    && w.table[id].data == Encode(ToSnapshot(w.requests[r].sess))
    && w.table[id].expiresAt >= w.now + maxAge * SECOND
  }

  /** Request r's commit call settles its cookie. */
  lemma CommitSettles(w: World, step: Step, r: nat, opts: Options)
    requires Inv(w) && Enabled(w, step) && step.CommitCall? && step.r == r && ValidOptions(opts)
    ensures var s := w.requests[r].sess;
            var w' := Apply(w, step, opts);
            match SettledCookie(w'.requests[r])
            case None => true
            case Some(Carries(id, maxAge)) => step.outcome == Works && WrittenFor(w', r, id, maxAge, opts)
            case Some(Expires) => step.outcome == Works && s.destroyed && s.storedId !in w'.table
  {
    StoredIdsCreated(w);
    assert TtlFor(opts, w.requests[r].sess) >= SECOND;
  }

  /**
   The cookie of a response is settled at its request's own commit step, once and for all. It
   carries an ID only when that step wrote the session under it, and expires the client's cookie
   exactly when the step removed a destroyed session.
   */
  lemma CookieSettled(w: World, step: Step, r: nat, opts: Options)
    requires Inv(w) && Enabled(w, step) && ValidOptions(opts) && r in w.requests
    ensures var w' := Apply(w, step, opts);
            var before, after := SettledCookie(w.requests[r]), SettledCookie(w'.requests[r]);
            if before != None || after == None then after == before
            else
              && Commits(step, r)
              && (after.value.Carries? ==> WrittenFor(w', r, after.value.id, after.value.maxAge, opts))
              && (after.value.Expires? ==>
                    w.requests[r].sess.destroyed && w.requests[r].sess.storedId !in w'.table)
    ensures Commits(step, r) && w.requests[r].sess.destroyed ==>
              SettledCookie(Apply(w, step, opts).requests[r]) == Some(Expires)
  {
    if step.CommitCall? && step.r == r {
      CommitSettles(w, step, r, opts);
    } else if step.SupersedeCall? {
      assert SettledCookie(w.requests[step.r]) == SettledCookie(Apply(w, step, opts).requests[step.r]);
    }
  }

  /** After the step that settles it, a cookie stays as it is. */
  lemma {:induction false} CookieStays(w: World, steps: seq<Step>, r: nat, opts: Options)
    requires Inv(w) && CanRun(w, steps, opts) && ValidOptions(opts) && r in w.requests
    ensures r in Run(w, steps, opts).requests
    ensures SettledCookie(w.requests[r]) != None ==>
              SettledCookie(Run(w, steps, opts).requests[r]) == SettledCookie(w.requests[r])
    decreases |steps|
  {
    if steps != [] {
      InvStep(w, steps[0], opts);
      CookieSettled(w, steps[0], r, opts);
      CookieStays(Apply(w, steps[0], opts), steps[1..], r, opts);
    }
  }

  /**
   In every run: a response that carries a session ID carries one that its own commit call wrote,
   with the session as the handler left it, to last at least as long as the cookie.
   */
  lemma {:induction false} CookieWasWritten(w: World, steps: seq<Step>, r: nat, id: string, maxAge: int, opts: Options)
    requires Inv(w) && CanRun(w, steps, opts) && ValidOptions(opts)
    requires !Settled(w, r)
    requires r in Run(w, steps, opts).requests
    requires SettledCookie(Run(w, steps, opts).requests[r]) == Some(Carries(id, maxAge))
    ensures exists i: nat :: WrittenAt(w, steps, i, r, id, maxAge, opts)
    decreases |steps|
  {
    if steps != [] {
      InvStep(w, steps[0], opts);
      if Settled(Apply(w, steps[0], opts), r) {
        CookieStays(Apply(w, steps[0], opts), steps[1..], r, opts);
        WrittenByFirst(w, steps, r, id, maxAge, opts);
      } else {
        CookieWasWritten(Apply(w, steps[0], opts), steps[1..], r, id, maxAge, opts);
        var i: nat :| WrittenAt(Apply(w, steps[0], opts), steps[1..], i, r, id, maxAge, opts);
        WrittenOneLater(w, steps, i, r, id, maxAge, opts);
      }
    }
  }

  predicate Settled(w: World, r: nat) {
    r in w.requests && SettledCookie(w.requests[r]) != None
  }

  lemma WrittenByFirst(w: World, steps: seq<Step>, r: nat, id: string, maxAge: int, opts: Options)
    requires Inv(w) && steps != [] && Enabled(w, steps[0]) && ValidOptions(opts)
    requires !Settled(w, r) && Settled(Apply(w, steps[0], opts), r)
    requires SettledCookie(Apply(w, steps[0], opts).requests[r]) == Some(Carries(id, maxAge))
    ensures WrittenAt(w, steps, 0, r, id, maxAge, opts)
  {
    if r in w.requests {
      CookieSettled(w, steps[0], r, opts);
    }
    assert steps[..1] == [steps[0]];
  }

  ghost predicate WrittenAt(w: World, steps: seq<Step>, i: nat, r: nat, id: string, maxAge: int, opts: Options) {
    && i < |steps|
    && Commits(steps[i], r)
    && CanRun(w, steps[..i + 1], opts)
    && WrittenFor(Run(w, steps[..i + 1], opts), r, id, maxAge, opts)
  }

  lemma WrittenOneLater(w: World, steps: seq<Step>, i: nat, r: nat, id: string, maxAge: int, opts: Options)
    requires steps != [] && Enabled(w, steps[0])
    requires WrittenAt(Apply(w, steps[0], opts), steps[1..], i, r, id, maxAge, opts)
    ensures WrittenAt(w, steps, i + 1, r, id, maxAge, opts)
  {
    assert steps[..i + 2][1..] == steps[1..][..i + 1];
    assert steps[..i + 2][0] == steps[0];
  }

  /** The step may change what is stored under id. */
  predicate Touches(w: World, step: Step, id: string)
    requires Enabled(w, step)
  {
    match step
    case CommitCall(r, _, _) => w.requests[r].sess.id == id || w.requests[r].sess.storedId == id
    case SupersedeCall(r, _) => w.requests[r].phase.previous == id
    case _ => false
  }

  ghost predicate Untouched(w: World, steps: seq<Step>, id: string, opts: Options)
    requires CanRun(w, steps, opts)
    decreases |steps|
  {
    steps != [] ==> !Touches(w, steps[0], id) && Untouched(Apply(w, steps[0], opts), steps[1..], id, opts)
  }

  lemma {:induction false} UntouchedEntryStays(w: World, steps: seq<Step>, id: string, opts: Options)
    requires CanRun(w, steps, opts) && Untouched(w, steps, id, opts) && id in w.table
    ensures id in Run(w, steps, opts).table && Run(w, steps, opts).table[id] == w.table[id]
    decreases |steps|
  {
    if steps != [] {
      UntouchedEntryStays(Apply(w, steps[0], opts), steps[1..], id, opts);
    }
  }

  /**
   Sending the cookie back before it expires, with no other request having committed under the ID
   meanwhile, loads the very session that was committed.
   */
  lemma CookieLoadsCommitted(w: World, r: nat, id: string, maxAge: int, steps: seq<Step>, opts: Options)
    requires Inv(w) && WrittenFor(w, r, id, maxAge, opts)
    requires CanRun(w, steps, opts) && Untouched(w, steps, id, opts)
    requires Run(w, steps, opts).now < w.now + maxAge * SECOND
    ensures var w' := Run(w, steps, opts);
            var s := w.requests[r].sess;
            LoadFrom(Get(w'.table, id, w'.now), id)
            == Loaded(Sess(id, s.csrfToken, s.user, s.data, false, id))
  {
    UntouchedEntryStays(w, steps, id, opts);
    RunKeeps(w, steps, opts);
    var w' := Run(w, steps, opts);
    OpenOk(w', id, "", []);
    assert EntryOk(w', id, w'.table[id]);
  }

  // ---------------------------------------------------------------- how long a cookie loads

  /** The step takes the entry under id out of the store: a sign-out, or the removal of a superseded entry. */
  predicate Removes(w: World, step: Step, id: string)
    requires Enabled(w, step)
  {
    match step
    case CommitCall(r, outcome, _) =>
      w.requests[r].sess.destroyed && w.requests[r].sess.storedId == id && outcome != FailsUnchanged
    case SupersedeCall(r, outcome) => w.requests[r].phase.previous == id && outcome != FailsUnchanged
    case _ => false
  }

  ghost predicate NeverRemoved(w: World, steps: seq<Step>, id: string, opts: Options)
    requires CanRun(w, steps, opts)
    decreases |steps|
  {
    steps != [] ==> !Removes(w, steps[0], id) && NeverRemoved(Apply(w, steps[0], opts), steps[1..], id, opts)
  }

  /** The TTL that every session under an issued ID is saved for. */
  function BoundTtl(w: World, id: string, opts: Options): int
    requires id in w.issued
  {
    if w.issued[id].user.Some? then opts.authenticatedTtl else opts.defaultTtl
  }

  /** The entry under id lasts until then, and no save can shorten it. */
  ghost predicate Lasts(w: World, id: string, until: int, opts: Options) {
    && id in w.table && id in w.issued
    && w.table[id].expiresAt >= until && until <= w.now + BoundTtl(w, id, opts)
  }

  /** A commit call's table still holds the entry it saves, for as long as its TTL says. */
  lemma CommitLasts(t: Table<Blob>, now: int, later: int, s: Sess, ttl: int, outcome: Outcome, id: string, until: int)
    requires id in t && t[id].expiresAt >= until && now <= later
    requires s.id == id && !s.destroyed ==> until <= now + ttl
    requires s.destroyed && s.storedId == id ==> outcome == FailsUnchanged
    ensures var t' := CommitFirst(t, now, later, s, ttl, outcome).table;
            id in t' && t'[id].expiresAt >= until
  {
  }

  lemma CommitTable(w: World, step: Step, opts: Options)
    requires Enabled(w, step) && step.CommitCall?
    ensures var s := w.requests[step.r].sess;
            Apply(w, step, opts).table
            == CommitFirst(w.table, w.now, w.now + step.elapsed, s, TtlFor(opts, s), step.outcome).table
  {
  }

  lemma SaveTtl(w: World, r: nat, id: string, opts: Options)
    requires RequestsOk(w) && IsActive(w, r) && w.requests[r].sess.id == id && !w.requests[r].sess.destroyed
    ensures id in w.issued && TtlFor(opts, w.requests[r].sess) == BoundTtl(w, id, opts)
  {
    assert SessionOk(w, w.requests[r].sess);
  }

  lemma CommitSpares(w: World, step: Step, id: string, until: int, opts: Options)
    requires Inv(w) && Enabled(w, step) && Lasts(w, id, until, opts) && !Removes(w, step, id)
    requires step.CommitCall?
    ensures var s := w.requests[step.r].sess;
            && (s.id == id && !s.destroyed ==> until <= w.now + TtlFor(opts, s))
            && (s.destroyed && s.storedId == id ==> step.outcome == FailsUnchanged)
  {
    if w.requests[step.r].sess.id == id && !w.requests[step.r].sess.destroyed {
      SaveTtl(w, step.r, id, opts);
    }
  }

  lemma CommitKeepsEntry(w: World, step: Step, id: string, until: int, opts: Options)
    requires Enabled(w, step) && step.CommitCall? && id in w.table && w.table[id].expiresAt >= until
    requires var s := w.requests[step.r].sess;
             && (s.id == id && !s.destroyed ==> until <= w.now + TtlFor(opts, s))
             && (s.destroyed && s.storedId == id ==> step.outcome == FailsUnchanged)
    ensures id in Apply(w, step, opts).table && Apply(w, step, opts).table[id].expiresAt >= until
  {
    var s := w.requests[step.r].sess;
    CommitLasts(w.table, w.now, w.now + step.elapsed, s, TtlFor(opts, s), step.outcome, id, until);
    CommitTable(w, step, opts);
  }

  lemma OthersKeepEntry(w: World, step: Step, id: string, opts: Options)
    requires Enabled(w, step) && !step.CommitCall? && id in w.table && !Removes(w, step, id)
    ensures id in Apply(w, step, opts).table && Apply(w, step, opts).table[id] == w.table[id]
  {
  }

  lemma LastsStep(w: World, step: Step, id: string, until: int, opts: Options)
    requires Inv(w) && Enabled(w, step) && Lasts(w, id, until, opts) && !Removes(w, step, id)
    ensures Lasts(Apply(w, step, opts), id, until, opts)
  {
    ExtendsStep(w, step, opts);
    if step.CommitCall? {
      CommitSpares(w, step, id, until, opts);
      CommitKeepsEntry(w, step, id, until, opts);
    } else {
      OthersKeepEntry(w, step, id, opts);
    }
  }

  lemma RemovesStep(w: World, step: Step, id: string, opts: Options)
    requires Inv(w) && Enabled(w, step) && Removes(w, step, id)
    ensures id !in Apply(w, step, opts).table
  {
    StoredIdsCreated(w);
  }

  lemma {:induction false} LastsRun(w: World, steps: seq<Step>, id: string, until: int, opts: Options)
    requires Inv(w) && CanRun(w, steps, opts) && Lasts(w, id, until, opts)
    ensures if NeverRemoved(w, steps, id, opts) then Lasts(Run(w, steps, opts), id, until, opts)
            else !Live(Run(w, steps, opts).table, id, Run(w, steps, opts).now)
    decreases |steps|
  {
    if steps != [] {
      var w1 := Apply(w, steps[0], opts);
      InvStep(w, steps[0], opts);
      if Removes(w, steps[0], id) {
        assert EntryOk(w, id, w.table[id]);
        RemovesStep(w, steps[0], id, opts);
        ExtendsStep(w, steps[0], opts);
        RunKeeps(w1, steps[1..], opts);
      } else {
        LastsStep(w, steps[0], id, until, opts);
        LastsRun(w1, steps[1..], id, until, opts);
      }
    }
  }

  /**
   Until its Max-Age is over, a cookie loads a session with the committed user and token, whatever else
   is done meanwhile by any other requests, those on the same session included, unless one of them signs
   the session out or supersedes its ID. Then it loads nothing.
   */
  lemma CookieLoadsUntilRemoved(w: World, r: nat, id: string, maxAge: int, steps: seq<Step>, opts: Options)
    requires Inv(w) && WrittenFor(w, r, id, maxAge, opts)
    requires CanRun(w, steps, opts) && Run(w, steps, opts).now < w.now + maxAge * SECOND
    ensures var w' := Run(w, steps, opts);
            var load := LoadFrom(Get(w'.table, id, w'.now), id);
            if NeverRemoved(w, steps, id, opts) then
              && load.Loaded? && load.sess.user == w.requests[r].sess.user
              && load.sess.csrfToken == w.requests[r].sess.csrfToken
            else load == Absent
  {
    var w' := Run(w, steps, opts);
    assert EntryOk(w, id, w.table[id]);
    LastsRun(w, steps, id, w.now + maxAge * SECOND, opts);
    RunKeeps(w, steps, opts);
    OpenOk(w', id, "", []);
    if NeverRemoved(w, steps, id, opts) {
      assert EntryOk(w', id, w'.table[id]);
    }
  }

  /** Running one stretch and then another is running both. */
  lemma {:induction false} RunJoins(w: World, a: seq<Step>, b: seq<Step>, opts: Options)
    requires CanRun(w, a + b, opts)
    ensures CanRun(w, a, opts) && CanRun(Run(w, a, opts), b, opts)
    ensures Run(Run(w, a, opts), b, opts) == Run(w, a + b, opts)
    decreases |a|
  {
    if a == [] {
      assert a + b == b;
    } else {
      assert (a + b)[0] == a[0] && (a + b)[1..] == a[1..] + b;
      RunJoins(Apply(w, a[0], opts), a[1..], b, opts);
    }
  }

  lemma RunSplits(w: World, steps: seq<Step>, i: nat, opts: Options)
    requires CanRun(w, steps, opts) && i <= |steps|
    ensures CanRun(w, steps[..i], opts) && CanRun(Run(w, steps[..i], opts), steps[i..], opts)
    ensures Run(Run(w, steps[..i], opts), steps[i..], opts) == Run(w, steps, opts)
  {
    assert steps[..i] + steps[i..] == steps;
    RunJoins(w, steps[..i], steps[i..], opts);
  }

  /**
   End to end, in every run from an empty store: the cookie of a response was written at its request's own
   commit step, and from then until its Max-Age is over it loads the user and token committed there, unless
   a later step signed the session out or superseded its ID, and then nothing.
   */
  lemma ResponseCookieLoads(steps: seq<Step>, w': World, r: nat, id: string, maxAge: int, opts: Options)
    returns (i: nat, w: World)
    requires CanRun(INITIAL, steps, opts) && w' == Run(INITIAL, steps, opts) && ValidOptions(opts)
    requires r in w'.requests && SettledCookie(w'.requests[r]) == Some(Carries(id, maxAge))
    ensures i < |steps| && Commits(steps[i], r)
    ensures CanRun(INITIAL, steps[..i + 1], opts) && w == Run(INITIAL, steps[..i + 1], opts)
    ensures CanRun(w, steps[i + 1..], opts) && WrittenFor(w, r, id, maxAge, opts)
    ensures w'.now < w.now + maxAge * SECOND ==>
              var load := LoadFrom(Get(w'.table, id, w'.now), id);
              if NeverRemoved(w, steps[i + 1..], id, opts) then
                && load.Loaded? && load.sess.user == w.requests[r].sess.user
                && load.sess.csrfToken == w.requests[r].sess.csrfToken
              else load == Absent
  {
    CookieWasWritten(INITIAL, steps, r, id, maxAge, opts);
    i :| WrittenAt(INITIAL, steps, i, r, id, maxAge, opts);
    w := Run(INITIAL, steps[..i + 1], opts);
    RunSplits(INITIAL, steps, i + 1, opts);
    RunKeeps(INITIAL, steps[..i + 1], opts);
    if w'.now < w.now + maxAge * SECOND {
      CookieLoadsUntilRemoved(w, r, id, maxAge, steps[i + 1..], opts);
    }
  }

  /**
   A request that kept its session's ID writes nothing and sends no cookie exactly when the entry
   is gone; its handler's response is then left alone. Otherwise its session is saved.
   */
  lemma StaleRequestWritesNothing(w: World, r: nat, step: Step, w': World, opts: Options)
    requires Reachable(w, opts) && Enabled(w, step) && Commits(step, r) && w' == Apply(w, step, opts)
    requires !w.requests[r].sess.destroyed && Encodable(w.requests[r].sess.data)
    requires w.requests[r].sess.id == w.requests[r].sess.storedId
    ensures var s := w.requests[r].sess;
            if Live(w.table, s.id, w.now) then
              && w'.requests[r].phase == Finished(Response(false, Some(Carries(s.id, TtlFor(opts, s) / SECOND))))
              && w'.table == w.table[s.id := Entry(Encode(ToSnapshot(s)), w'.now + TtlFor(opts, s))]
            else
              && w'.requests[r].phase == Finished(Response(false, None))
              && w'.table == w.table
  {
  }
}
