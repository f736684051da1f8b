/**
 What each change a handler makes to its session comes to, from the change through the commit to what the
 client's cookie loads afterwards (server/internal/session/session.go).
 */
module SessionEffects {
  import opened Prelude
  import opened TtlTable
  import opened SessionModel
  import opened Protocol
  import opened ProtocolSafety

  // ---------------------------------------------------------------- loading

  /** Bytes load exactly when they are a session stored under the ID, and then as it was stored. */
  lemma LoadsExactly(b: Blob, id: string)
    ensures LoadFrom(None, id) == Absent
    ensures var load := LoadFrom(Some(b), id);
            if Decode(b).Some? && Decode(b).value.id == id && Decode(b).value.csrfToken != [] then
              && load.Loaded? && ToSnapshot(load.sess) == Decode(b).value
              && load.sess.storedId == id && !load.sess.destroyed
            else load == Undecodable
  {
  }

  /** A client never gets a session under an ID of its choosing: when its own does not load, it gets a fresh one. */
  lemma UnknownCookieGetsNewSession(w: World, step: Step, opts: Options)
    requires Inv(w) && Enabled(w, step) && step.Arrive? && step.outcome == Works && !Live(w.table, step.cookie, w.now)
    ensures var w' := Apply(w, step, opts);
            && IsActive(w', step.r) && w'.requests[step.r].phase == Handling
            && var s := w'.requests[step.r].sess;
               && s.id == step.freshId && s.id !in w.issued && s.csrfToken == step.freshToken
               && s.user == None && s.data == map[] && s.storedId == "" && !s.destroyed
  {
    OpenOk(w, step.cookie, step.freshId, step.freshToken);
  }

  // ---------------------------------------------------------------- one request's session until its commit

  /** Request r is still handling, with this much of its session settled. */
  ghost predicate HandlingFrom(w: World, r: nat, storedId: string) {
    IsActive(w, r) && w.requests[r].phase == Handling && w.requests[r].sess.storedId == storedId
  }

  /** A request that is handling was handling before, under the same stored ID; a destroyed session stays so. */
  lemma HandlingStep(w: World, step: Step, r: nat, opts: Options)
    requires Enabled(w, step) && r in w.requests
    ensures var w' := Apply(w, step, opts);
            && r in w'.requests
            && (IsActive(w', r) && w'.requests[r].phase == Handling ==>
                  && HandlingFrom(w, r, w'.requests[r].sess.storedId)
                  && (w.requests[r].sess.destroyed ==> w'.requests[r].sess.destroyed)
                  && (!(step.Mutate? && step.r == r) ==> w'.requests[r].sess == w.requests[r].sess))
  {
  }

  /** The run has no change of request r's session. */
  predicate LeavesSession(steps: seq<Step>, r: nat) {
    forall step | step in steps :: !(step.Mutate? && step.r == r)
  }

  lemma {:induction false} HandlingRun(w: World, mid: seq<Step>, r: nat, opts: Options)
    requires CanRun(w, mid, opts) && r in w.requests
    ensures var w' := Run(w, mid, opts);
            && r in w'.requests
            && (IsActive(w', r) && w'.requests[r].phase == Handling ==>
                  && HandlingFrom(w, r, w'.requests[r].sess.storedId)
                  && (w.requests[r].sess.destroyed ==> w'.requests[r].sess.destroyed)
                  && (LeavesSession(mid, r) ==> w'.requests[r].sess == w.requests[r].sess))
    decreases |mid|
  {
    if mid != [] {
      HandlingStep(w, mid[0], r, opts);
      HandlingRun(Apply(w, mid[0], opts), mid[1..], r, opts);
      assert mid[0] in mid && forall step | step in mid[1..] :: step in mid;
    }
  }

  // ---------------------------------------------------------------- signing out

  /**
   Signing out, in every run: a handler destroys its session, anything at all follows, and then its request's
   commit call works. The client's cookie is expired, and in every continuation the ID the session was stored
   under loads nothing.
   */
  lemma SignOutSignsOut(
      w: World, r: nat, mid: seq<Step>, w1: World, commit: Step, rest: seq<Step>, w2: World, opts: Options)
    requires Reachable(w, opts) && Enabled(w, Mutate(r, Destroy))
    requires CanRun(Apply(w, Mutate(r, Destroy), opts), mid, opts)
    requires w1 == Run(Apply(w, Mutate(r, Destroy), opts), mid, opts)
    requires Enabled(w1, commit) && Commits(commit, r)
    requires CanRun(Apply(w1, commit, opts), rest, opts) && w2 == Run(Apply(w1, commit, opts), rest, opts)
    ensures SettledCookie(Apply(w1, commit, opts).requests[r]) == Some(Expires)
    ensures r in w2.requests && SettledCookie(w2.requests[r]) == Some(Expires)
    ensures var id := w.requests[r].sess.storedId;
            id !in Apply(w1, commit, opts).table && LoadFrom(Get(w2.table, id, w2.now), id) == Absent
  {
    var out := Mutate(r, Destroy);
    ReachableInv(w, opts);
    InvStep(w, out, opts);
    RunKeeps(Apply(w, out, opts), mid, opts);
    HandlingRun(Apply(w, out, opts), mid, r, opts);
    assert w1.requests[r].sess.destroyed;
    DestroyedCommit(w1, commit, r, rest, w2, opts);
  }

  lemma DestroyedCommit(w: World, commit: Step, r: nat, rest: seq<Step>, w': World, opts: Options)
    requires Inv(w) && Enabled(w, commit) && Commits(commit, r) && w.requests[r].sess.destroyed
    requires CanRun(Apply(w, commit, opts), rest, opts) && w' == Run(Apply(w, commit, opts), rest, opts)
    ensures SettledCookie(Apply(w, commit, opts).requests[r]) == Some(Expires)
    ensures r in w'.requests && SettledCookie(w'.requests[r]) == Some(Expires)
    ensures var id := w.requests[r].sess.storedId;
            id !in Apply(w, commit, opts).table && LoadFrom(Get(w'.table, id, w'.now), id) == Absent
  {
    var id := w.requests[r].sess.storedId;
    StoredIdsCreated(w);
    assert SessionOk(w, w.requests[r].sess);
    InvStep(w, commit, opts);
    ExtendsStep(w, commit, opts);
    RunKeeps(Apply(w, commit, opts), rest, opts);
    StoredIdsCreated(w');
    FinishedStays(Apply(w, commit, opts), rest, r, opts);
  }

  lemma {:induction false} FinishedStays(w: World, steps: seq<Step>, r: nat, opts: Options)
    requires CanRun(w, steps, opts) && IsActive(w, r) && w.requests[r].phase.Finished?
    ensures IsActive(Run(w, steps, opts), r) && Run(w, steps, opts).requests[r].phase == w.requests[r].phase
    decreases |steps|
  {
    if steps != [] {
      FinishedStays(Apply(w, steps[0], opts), steps[1..], r, opts);
    }
  }

  // ---------------------------------------------------------------- saving

  /** The session is saved under its ID until its TTL is over, and the client gets its cookie for as long. */
  ghost predicate SavedFor(w: World, w': World, r: nat, s: Sess, ttl: int) {
    && w'.table == w.table[s.id := Entry(Encode(ToSnapshot(s)), w'.now + ttl)]
    && r in w'.requests && SettledCookie(w'.requests[r]) == Some(Carries(s.id, ttl / SECOND))
    && (LoadFrom(Get(w'.table, s.id, w'.now), s.id)
        == if ttl > 0 then Loaded(Sess(s.id, s.csrfToken, s.user, s.data, false, s.id)) else Absent)
  }

  /**
   A commit call that works saves a session with a new ID, always, and one with the ID it is stored under
   exactly when its entry is still there: for AuthenticatedTTL with a user, and for DefaultTTL without.
   */
  lemma CommitSaves(w: World, commit: Step, r: nat, opts: Options)
    requires Inv(w) && Enabled(w, commit) && Commits(commit, r)
    requires var s := w.requests[r].sess;
             && !s.destroyed && (forall key | key in s.data :: s.data[key] != Unencodable)
             && (s.id != s.storedId || Live(w.table, s.id, w.now))
    ensures var s := w.requests[r].sess;
            SavedFor(w, Apply(w, commit, opts), r, s,
                     match s.user case Some(_) => opts.authenticatedTtl case None => opts.defaultTtl)
  {
    StoredIdsCreated(w);
    assert SessionOk(w, w.requests[r].sess) && Bound(w, w.requests[r].sess.id, w.requests[r].sess.csrfToken,
                                                     w.requests[r].sess.user);
  }

  /** Until its commit, a session is as its handler's last change left it. */
  lemma SessionAfter(w: World, r: nat, op: Op, mid: seq<Step>, w1: World, commit: Step, opts: Options)
    requires Inv(w) && Enabled(w, Mutate(r, op)) && LeavesSession(mid, r)
    requires CanRun(Apply(w, Mutate(r, op), opts), mid, opts) && w1 == Run(Apply(w, Mutate(r, op), opts), mid, opts)
    requires Enabled(w1, commit) && Commits(commit, r)
    ensures Inv(w1) && w1.requests[r].sess == ApplyOp(w.requests[r].sess, op)
  {
    InvStep(w, Mutate(r, op), opts);
    RunKeeps(Apply(w, Mutate(r, op), opts), mid, opts);
    HandlingRun(Apply(w, Mutate(r, op), opts), mid, r, opts);
  }

  lemma NewIdSupersedes(w: World, commit: Step, r: nat, opts: Options)
    requires Inv(w) && Enabled(w, commit) && Commits(commit, r)
    requires var s := w.requests[r].sess;
             !s.destroyed && s.user.Some? && s.data == map[] && s.id != s.storedId
    ensures Apply(w, commit, opts).requests[r].phase == Superseding(w.requests[r].sess.storedId, opts.authenticatedTtl)
  {
    StoredIdsCreated(w);
  }

  /**
   Signing in, in every run: a handler attaches a user, other requests do anything, and then its request's
   commit call works. The client's new cookie loads exactly that user, the new CSRF token and no data.
   */
  lemma SignInSignsIn(
      w: World, r: nat, u: User, freshId: string, freshToken: Bytes, mid: seq<Step>, w1: World, commit: Step,
      opts: Options)
    requires var signIn := Mutate(r, SetUser(u, freshId, freshToken));
             && Reachable(w, opts) && Enabled(w, signIn) && !w.requests[r].sess.destroyed
             && CanRun(Apply(w, signIn, opts), mid, opts) && w1 == Run(Apply(w, signIn, opts), mid, opts)
    requires LeavesSession(mid, r) && Enabled(w1, commit) && Commits(commit, r) && opts.authenticatedTtl > 0
    ensures var w2 := Apply(w1, commit, opts);
            && SettledCookie(w2.requests[r]) == Some(Carries(freshId, opts.authenticatedTtl / SECOND))
            && LoadFrom(Get(w2.table, freshId, w2.now), freshId)
               == Loaded(Sess(freshId, freshToken, Some(u), map[], false, freshId))
            && w2.requests[r].phase == Superseding(w.requests[r].sess.storedId, opts.authenticatedTtl)
  {
    ReachableInv(w, opts);
    SessionAfter(w, r, SetUser(u, freshId, freshToken), mid, w1, commit, opts);
    FreshIdIsNew(w, r, u, freshId, freshToken);
    CommitSaves(w1, commit, r, opts);
    NewIdSupersedes(w1, commit, r, opts);
  }

  lemma FreshIdIsNew(w: World, r: nat, u: User, freshId: string, freshToken: Bytes)
    requires Inv(w) && Enabled(w, Mutate(r, SetUser(u, freshId, freshToken)))
    ensures freshId != w.requests[r].sess.storedId
  {
    assert SessionOk(w, w.requests[r].sess);
  }

  /** A value set is the value under its key when the saved session is loaded, and one removed is gone. */
  lemma ValuesAreSaved(
      w: World, r: nat, op: Op, mid: seq<Step>, w1: World, commit: Step, opts: Options)
    requires Reachable(w, opts) && Enabled(w, Mutate(r, op)) && (op.SetValue? || op.RemoveValue?)
    requires CanRun(Apply(w, Mutate(r, op), opts), mid, opts) && w1 == Run(Apply(w, Mutate(r, op), opts), mid, opts)
    requires LeavesSession(mid, r) && Enabled(w1, commit) && Commits(commit, r)
    requires opts.authenticatedTtl > 0 && opts.defaultTtl > 0
    requires var s := w.requests[r].sess;
             && !s.destroyed && (forall key | key in s.data && key != op.key :: s.data[key] != Unencodable)
             && (op.SetValue? ==> op.value != Unencodable)
             && (s.id != s.storedId || Live(w1.table, s.id, w1.now))
    ensures var s := w.requests[r].sess;
            var w2 := Apply(w1, commit, opts);
            var load := LoadFrom(Get(w2.table, s.id, w2.now), s.id);
            && load.Loaded? && load.sess.user == s.user && load.sess.csrfToken == s.csrfToken
            && (forall key | key != op.key ::
                  && (key in load.sess.data <==> key in s.data)
                  && (key in s.data ==> load.sess.data[key] == s.data[key]))
            && if op.SetValue? then op.key in load.sess.data && load.sess.data[op.key] == op.value
               else op.key !in load.sess.data
  {
    ReachableInv(w, opts);
    SessionAfter(w, r, op, mid, w1, commit, opts);
    CommitSaves(w1, commit, r, opts);
  }

  // ---------------------------------------------------------------- when the response fails

  /**
   The response is replaced with a 500 exactly when the session could not be saved, or a destroyed one not
   removed: the first store call reported a failure, or a value could not be encoded.
   */
  lemma ResponseFailsExactly(w: World, step: Step, r: nat, opts: Options)
    requires Inv(w) && Enabled(w, step) && (step.CommitCall? || step.SupersedeCall?) && step.r == r
    ensures var phase := Apply(w, step, opts).requests[r].phase;
            (phase.Finished? && phase.response.failed)
            <==> && step.CommitCall?
                 && (step.outcome != Works
                     || (!w.requests[r].sess.destroyed
                         && exists key | key in w.requests[r].sess.data :: w.requests[r].sess.data[key] == Unencodable))
  {
    StoredIdsCreated(w);
  }
}
