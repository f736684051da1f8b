/**
 Whether the callback of authEdupassCallback can be repeated (server/internal/handler/auth.go): a state
 value that has passed the state check once, and how the callback that it passed in ends.
 */
module RepeatedCallback {
  import opened Prelude
  import opened TtlTable
  import opened SessionModel
  import opened Protocol
  import opened ProtocolSafety
  import opened Handlers
  import opened StateHolders

  // ---------------------------------------------------------------- what a request's last step leaves

  /** A step that a request can end with: a store call of its commit, or a panic. */
  predicate Ends(step: Step, q: nat) {
    (step.CommitCall? || step.SupersedeCall? || step.Panic?) && step.r == q
  }

  /** The commit call takes the entry under id out of the store, or overwrites it. */
  predicate Replaces(s: Sess, outcome: Outcome, id: string) {
    && outcome != FailsUnchanged
    && s.storedId == id
    && (s.destroyed || (s.id == id && Encodable(s.data)))
  }

  /**
   The step leaves the state in the store: its entry does not expire first, and the step neither removes
   nor overwrites it. So does a panic, a commit call that fails unchanged, one that cannot encode the
   session, one that saves it under a new ID, and a removal of the superseded entry that fails unchanged.
   */
  predicate Leaves(w: World, step: Step, id: string, state: string)
    requires Enabled(w, step)
  {
    && EntryHolds(w, id, state)
    && match step
       case CommitCall(q, outcome, elapsed) =>
         w.table[id].expiresAt > w.now + elapsed && !Replaces(w.requests[q].sess, outcome, id)
       case SupersedeCall(q, outcome) => w.requests[q].phase.previous != id || outcome == FailsUnchanged
       case _ => true
  }

  lemma CommitLeaves(t: Table<Blob>, now: int, later: int, s: Sess, ttl: int, outcome: Outcome, id: string)
    requires Live(t, id, now) && id != "" && (s.id == s.storedId || s.id !in t)
    ensures var t' := CommitFirst(t, now, later, s, ttl, outcome).table;
            if !Replaces(s, outcome, id) then id in t' && t'[id] == t[id]
            else if s.destroyed then id !in t'
            else id in t' && t'[id].data == Encode(ToSnapshot(s))
  {
  }

  lemma NonEmpty(w: World, id: string)
    requires Inv(w) && id in w.table
    ensures id != ""
  {
    StoredIdsCreated(w);
  }

  /** What is left in the store is the entry as it was. */
  ghost predicate LeftAs(w: World, w': World, id: string, state: string, left: bool) {
    && (EntryHolds(w', id, state) <==> left)
    && (left ==> id in w.table && w'.table[id].data == w.table[id].data)
  }

  lemma CommitLeft(w: World, step: Step, id: string, state: string, opts: Options)
    requires Inv(w) && Enabled(w, step) && step.CommitCall? && !RequestHolds(w, step.r, state)
    ensures LeftAs(w, Apply(w, step, opts), id, state, Leaves(w, step, id, state))
  {
    StepInherits(w, step, state, opts);
    if EntryHolds(w, id, state) {
      var s := w.requests[step.r].sess;
      NonEmpty(w, id);
      NewIdsNotStored(w, step.r);
      CommitTable(w, step, opts);
      CommitLeaves(w.table, w.now, w.now + step.elapsed, s, TtlFor(opts, s), step.outcome, id);
    }
  }

  lemma OtherLeft(w: World, step: Step, id: string, state: string, opts: Options)
    requires Inv(w) && Enabled(w, step) && (step.SupersedeCall? || step.Panic?)
    ensures LeftAs(w, Apply(w, step, opts), id, state, Leaves(w, step, id, state))
  {
    if EntryHolds(w, id, state) {
      NonEmpty(w, id);
    }
  }

  lemma OthersInFlight(w: World, step: Step, q: nat, state: string, opts: Options)
    requires Inv(w) && Enabled(w, step) && Ends(step, q) && !RequestHolds(w, q, state)
    ensures var w' := Apply(w, step, opts);
            (exists p: nat :: RequestHolds(w', p, state)) <==> Overlaps(w, q, state)
  {
    var w' := Apply(w, step, opts);
    StepInherits(w, step, state, opts);
    if p: nat :| p != q && RequestHolds(w, p, state) {
      assert w'.requests[p] == w.requests[p];
      assert RequestHolds(w', p, state);
    }
  }

  /**
   The exact condition, at the last step of a request that has given the state up: the state can pass
   again if and only if at that moment another request in flight has it, or the step leaves it in the
   store.
   */
  lemma CanPassAfterExactly(
      w: World, step: Step, q: nat, id: string, state: string,
      r: nat, freshId: string, freshToken: Bytes, opts: Options)
    requires Inv(w) && SoleId(w, id, state) && Enabled(w, step) && Ends(step, q)
    requires !RequestHolds(w, q, state)
    requires r !in Apply(w, step, opts).requests && Fresh(Apply(w, step, opts), freshId, freshToken)
    ensures CanPass(Apply(w, step, opts), state, opts)
            <==> Overlaps(w, q, state) || Leaves(w, step, id, state)
  {
    var w' := Apply(w, step, opts);
    InvStep(w, step, opts);
    SoleIdStep(w, step, id, state, opts);
    CanPassExactly(w', state, r, freshId, freshToken, opts);
    OthersInFlight(w, step, q, state, opts);
    if step.CommitCall? {
      CommitLeft(w, step, id, state, opts);
    } else {
      OtherLeft(w, step, id, state, opts);
    }
  }

  // ---------------------------------------------------------------- from the state check to the last step

  /** The request no longer has the state, which is held under this ID only. */
  ghost predicate GivenUp(w: World, q: nat, id: string, state: string) {
    Inv(w) && SoleId(w, id, state) && q in w.requests && !RequestHolds(w, q, state)
  }

  lemma GivenUpStep(w: World, step: Step, q: nat, id: string, state: string, opts: Options)
    requires GivenUp(w, q, id, state) && Enabled(w, step) && !SetsState(step, state)
    ensures GivenUp(Apply(w, step, opts), q, id, state)
  {
    InvStep(w, step, opts);
    StepInherits(w, step, state, opts);
    SoleIdStep(w, step, id, state, opts);
    RequestStays(w, step, q, opts);
  }

  lemma RequestStays(w: World, step: Step, q: nat, opts: Options)
    requires q in w.requests && Enabled(w, step)
    ensures q in Apply(w, step, opts).requests
  {
  }

  /** While a run does not set the state, a request that gave it up does not get it back. */
  lemma {:induction false} StaysGivenUp(w: World, mid: seq<Step>, q: nat, id: string, state: string, opts: Options)
    requires GivenUp(w, q, id, state) && CanRun(w, mid, opts) && Sets(mid, state) == 0
    ensures GivenUp(Run(w, mid, opts), q, id, state)
    decreases |mid|
  {
    if mid != [] {
      GivenUpStep(w, mid[0], q, id, state, opts);
      StaysGivenUp(Apply(w, mid[0], opts), mid[1..], q, id, state, opts);
    }
  }

  /**
   In every run from an empty store, for a state value made once: a callback takes it and passes the state
   check. Between that and its last step, a store call or a panic, anything may happen: further steps of
   its own, such as removing the rest of the pending login, signing the user in or an earlier store call,
   any steps of other requests, and time. After the last step the state can pass again if and only if,
   just before it, another request in flight has the state, or the step leaves it in the store.
   */
  lemma RepeatedCallbackExactly(
      before: seq<Step>, w0: World, q: nat, state: string, mid: seq<Step>, w: World, last: Step,
      r: nat, freshId: string, freshToken: Bytes, opts: Options)
    requires CanRun(INITIAL, before, opts) && w0 == Run(INITIAL, before, opts)
    requires RequestHolds(w0, q, state) && PassesState(w0.requests[q].sess.data, state)
    requires CanRun(Apply(w0, Take(q), opts), mid, opts) && w == Run(Apply(w0, Take(q), opts), mid, opts)
    requires Sets(before, state) + Sets(mid, state) <= 1
    requires Enabled(w, last) && Ends(last, q)
    requires r !in Apply(w, last, opts).requests && Fresh(Apply(w, last, opts), freshId, freshToken)
    ensures PassesWith(w0, Take(q), state)
    ensures CanPass(Apply(w, last, opts), state, opts)
            <==> Overlaps(w, q, state) || Leaves(w, last, w0.requests[q].sess.id, state)
  {
    var id := w0.requests[q].sess.id;
    ReachableFromInitial(before, opts);
    var sole := HeldUnderOneId(INITIAL, before, state, id, 0, opts);
    assert sole == id;
    InvStep(w0, Take(q), opts);
    SoleIdStep(w0, Take(q), id, state, opts);
    StaysGivenUp(Apply(w0, Take(q), opts), mid, q, id, state, opts);
    CanPassAfterExactly(w, last, q, id, state, r, freshId, freshToken, opts);
  }

  /**
   The callback repeated at once, after the last step of one that has given the state up, passes exactly
   when that step left the pending login in the store.
   */
  lemma RepeatPassesExactly(
      w: World, last: Step, q: nat, id: string, state: string,
      r: nat, freshId: string, freshToken: Bytes, opts: Options)
    requires Inv(w) && Enabled(w, last) && Ends(last, q) && !RequestHolds(w, q, state)
    requires EntryHolds(w, id, state) ==> PassesState(Decode(w.table[id].data).value.data, state)
    requires r !in Apply(w, last, opts).requests && Fresh(Apply(w, last, opts), freshId, freshToken)
    ensures var w' := Apply(w, last, opts);
            var arrive := Arrive(r, id, Works, freshId, freshToken);
            && Enabled(w', arrive) && Enabled(Apply(w', arrive, opts), Take(r))
            && (PassesWith(Apply(w', arrive, opts), Take(r), state) <==> Leaves(w, last, id, state))
  {
    var w' := Apply(w, last, opts);
    InvStep(w, last, opts);
    if last.CommitCall? {
      CommitLeft(w, last, id, state, opts);
    } else {
      OtherLeft(w, last, id, state, opts);
    }
    Repeats(w', id, state, r, freshId, freshToken, opts);
  }

  lemma Repeats(w: World, id: string, state: string, r: nat, freshId: string, freshToken: Bytes, opts: Options)
    requires Inv(w) && r !in w.requests && Fresh(w, freshId, freshToken)
    requires EntryHolds(w, id, state) ==> PassesState(Decode(w.table[id].data).value.data, state)
    ensures var arrive := Arrive(r, id, Works, freshId, freshToken);
            && Enabled(w, arrive) && Enabled(Apply(w, arrive, opts), Take(r))
            && (PassesWith(Apply(w, arrive, opts), Take(r), state) <==> EntryHolds(w, id, state))
  {
    if EntryHolds(w, id, state) {
      ArriveLoads(w, id, state, r, freshId, freshToken, opts);
    } else {
      ArriveInherits(w, Arrive(r, id, Works, freshId, freshToken), state, opts);
    }
  }

  /**
   A sign-in whose superseded entry is not removed is a success to the client, which gets the new
   session's cookie, and leaves the state in the store all the same.
   */
  lemma SignedInYetRepeatable(w: World, last: Step, id: string, state: string, opts: Options)
    requires Inv(w) && Enabled(w, last) && last.SupersedeCall? && last.outcome == FailsUnchanged
    requires EntryHolds(w, id, state) && !w.requests[last.r].sess.destroyed
    ensures var w' := Apply(w, last, opts);
            && SettledCookie(w'.requests[last.r])
               == Some(Carries(w.requests[last.r].sess.id, w.requests[last.r].phase.ttl / SECOND))
            && w'.requests[last.r].phase.Finished? && !w'.requests[last.r].phase.response.failed
            && Leaves(w, last, id, state) && EntryHolds(w', id, state)
  {
    OtherLeft(w, last, id, state, opts);
  }

  /**
   Whichever login is pending, two callbacks that overlap both pass: each loads its own copy of the
   session before either has saved one.
   */
  lemma OverlapPassesTwice(
      w: World, id: string, state: string, q: nat, r: nat, freshId: string, freshToken: Bytes, opts: Options)
    requires Inv(w) && EntryHolds(w, id, state) && PassesState(Decode(w.table[id].data).value.data, state)
    requires q !in w.requests && r !in w.requests && q != r && Fresh(w, freshId, freshToken)
    ensures var steps := [Arrive(q, id, Works, freshId, freshToken)]
                         + ([Arrive(r, id, Works, freshId, freshToken)] + ([Take(q)] + ([Take(r)] + [])));
            CanRun(w, steps, opts) && Passes(w, steps, state, opts) == 2
  {
    var a, b := Arrive(q, id, Works, freshId, freshToken), Arrive(r, id, Works, freshId, freshToken);
    ArriveLoads(w, id, state, q, freshId, freshToken, opts);
    var w1 := Apply(w, a, opts);
    InvStep(w, a, opts);
    ArriveLoads(w1, id, state, r, freshId, freshToken, opts);
    var w2 := Apply(w1, b, opts);
    var w3 := Apply(w2, Take(q), opts);
    assert w3.requests[r] == w2.requests[r];
    FirstStep(w3, Take(r), [], state, opts);
    FirstStep(w2, Take(q), [Take(r)] + [], state, opts);
    FirstStep(w1, b, [Take(q)] + ([Take(r)] + []), state, opts);
    FirstStep(w, a, [b] + ([Take(q)] + ([Take(r)] + [])), state, opts);
  }
}
