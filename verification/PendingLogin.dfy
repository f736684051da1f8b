/**
 The pending login that authEdupass leaves in a session and authEdupassCallback takes out
 (server/internal/handler/auth.go): the runs in which it passes one callback at most.
 */
module PendingLogins {
  import opened Prelude
  import opened TtlTable
  import opened SessionModel
  import opened Protocol
  import opened ProtocolSafety
  import opened ProtocolData
  import opened Handlers
  import opened StateHolders

  // ---------------------------------------------------------------- orderly runs

  /** The entry an unfinished request was loaded from and may still write to. */
  function Origin(q: Request): string {
    if !q.Active? then ""
    else match q.phase
      case Handling => q.sess.storedId
      case Superseding(previous, _) => previous
      case Finished(_) => ""
  }

  /** An unfinished request whose session no longer has the state that the entry it came from still has. */
  predicate Owes(w: World, r: nat, state: string) {
    && r in w.requests && Origin(w.requests[r]) != ""
    && EntryHolds(w, Origin(w.requests[r]), state) && !RequestHolds(w, r, state)
  }

  /** The commit call leaves nothing of the entry the session came from, or leaves that to the second call. */
  predicate Clears(s: Sess, outcome: Outcome) {
    if s.destroyed then outcome != FailsUnchanged
    else if s.id == s.storedId then outcome != FailsUnchanged && Encodable(s.data)
    else outcome == Works && Encodable(s.data)
  }

  /**
   What the state asks of a step, and of no step of an unrelated session. A callback that takes it is
   the only request in flight that has it. From then on, until it is out of the store, each request
   that owes its removal makes it, and no request loads it.
   */
  ghost predicate Orderly(w: World, step: Step, state: string, taken: bool)
    requires Enabled(w, step)
  {
    match step
    case Mutate(r, _) => TakesState(w, step, state) ==> !Overlaps(w, r, state)
    case Arrive(_, cookie, outcome, _, _) => taken && outcome == Works ==> !EntryHolds(w, cookie, state)
    case CommitCall(r, outcome, _) => taken && Owes(w, r, state) ==> Clears(w.requests[r].sess, outcome)
    case SupersedeCall(r, outcome) => taken && Owes(w, r, state) ==> outcome != FailsUnchanged
    case Panic(r) => taken ==> !Owes(w, r, state)
    case Tick(_) => true
  }

  ghost predicate AllOrderly(w: World, steps: seq<Step>, state: string, taken: bool, opts: Options)
    requires CanRun(w, steps, opts)
    decreases |steps|
  {
    steps != [] ==>
      && Orderly(w, steps[0], state, taken)
      && AllOrderly(Apply(w, steps[0], opts), steps[1..], state, taken || TakesState(w, steps[0], state), opts)
  }

  ghost predicate SomeOwes(w: World, state: string) {
    exists r: nat :: Owes(w, r, state)
  }

  /** Once taken, no session in flight has the state, and if its entry does some request owes the removal. */
  ghost predicate Tracks(w: World, state: string, id: string, sets: nat, taken: nat) {
    && taken <= sets <= 1
    && SoleId(w, id, state)
    && (sets == 0 ==> Dead(w, state))
    && (taken == 1 ==>
          && (forall r: nat :: !RequestHolds(w, r, state))
          && (EntryHolds(w, id, state) ==> SomeOwes(w, state)))
  }

  lemma ClearedTable(t: Table<Blob>, now: int, later: int, s: Sess, ttl: int, outcome: Outcome)
    requires Clears(s, outcome) && Live(t, s.storedId, now) && s.storedId != ""
    requires s.id != s.storedId ==> s.id !in t
    ensures var p := CommitFirst(t, now, later, s, ttl, outcome);
            if s.destroyed then s.storedId !in p.table
            else if s.id == s.storedId then s.id in p.table && p.table[s.id].data == Encode(ToSnapshot(s))
            else p.next == DeleteSuperseded(s.storedId)
  {
  }

  lemma CommitPhase(w: World, step: Step, opts: Options)
    requires Enabled(w, step) && step.CommitCall?
    ensures var s := w.requests[step.r].sess;
            var p := CommitFirst(w.table, w.now, w.now + step.elapsed, s, TtlFor(opts, s), step.outcome);
            var w' := Apply(w, step, opts);
            && step.r in w'.requests && w'.requests == w.requests[step.r := w'.requests[step.r]]
            && w'.now == w.now + step.elapsed && w'.requests[step.r].Active?
            && match p.next
               case Return(_) => w'.requests[step.r].phase.Finished?
               case DeleteSuperseded(previous) =>
                 w'.requests[step.r] == Active(p.sess, Superseding(previous, TtlFor(opts, s)))
  {
  }

  /** A request that owes the removal still owes it after its commit call, or has made it. */
  lemma CommitPays(w: World, step: Step, state: string, opts: Options)
    requires Inv(w) && Enabled(w, step) && step.CommitCall? && Owes(w, step.r, state)
    requires Clears(w.requests[step.r].sess, step.outcome)
    ensures var w' := Apply(w, step, opts);
            var id := Origin(w.requests[step.r]);
            !EntryHolds(w', id, state) || Owes(w', step.r, state)
  {
    var s := w.requests[step.r].sess;
    CommitTable(w, step, opts);
    CommitPhase(w, step, opts);
    NewIdsNotStored(w, step.r);
    ClearedTable(w.table, w.now, w.now + step.elapsed, s, TtlFor(opts, s), step.outcome);
  }

  lemma OthersStillOwe(w: World, step: Step, r: nat, state: string, opts: Options)
    requires Enabled(w, step) && Owes(w, r, state) && (step.CommitCall? ==> step.r != r)
    requires step.SupersedeCall? && step.r == r ==> step.outcome != FailsUnchanged
    requires step != Panic(r) && !SetsState(step, state)
    ensures var w' := Apply(w, step, opts);
            EntryHolds(w', Origin(w.requests[r]), state) ==> Owes(w', r, state)
  {
  }

  lemma StillOwes(w: World, step: Step, r: nat, state: string, opts: Options)
    requires Inv(w) && Enabled(w, step) && Orderly(w, step, state, true) && Owes(w, r, state)
    requires !SetsState(step, state)
    ensures var w' := Apply(w, step, opts);
            EntryHolds(w', Origin(w.requests[r]), state) ==> Owes(w', r, state)
  {
    if step.CommitCall? && step.r == r {
      CommitPays(w, step, state, opts);
    } else {
      OthersStillOwe(w, step, r, state, opts);
    }
  }

  /** A step of a run in which the state has been taken. */
  lemma TakenStep(w: World, step: Step, state: string, id: string, opts: Options)
    requires Inv(w) && Enabled(w, step) && Tracks(w, state, id, 1, 1)
    requires Orderly(w, step, state, true) && !SetsState(step, state)
    ensures Tracks(Apply(w, step, opts), state, id, 1, 1)
  {
    var w' := Apply(w, step, opts);
    StepInherits(w, step, state, opts);
    if EntryHolds(w', id, state) {
      var r: nat :| Owes(w, r, state);
      StillOwes(w, step, r, state, opts);
    }
  }

  /** The step at which a callback takes it. */
  lemma TakingStep(w: World, step: Step, state: string, id: string, opts: Options)
    requires Inv(w) && Enabled(w, step) && Tracks(w, state, id, 1, 0)
    requires Orderly(w, step, state, false) && TakesState(w, step, state)
    ensures Tracks(Apply(w, step, opts), state, id, 1, 1)
  {
    var w', r := Apply(w, step, opts), step.r;
    StepInherits(w, step, state, opts);
    assert forall p: nat | p != r :: !RequestHolds(w, p, state);
    NewIdsNotStored(w, r);
    assert SessionOk(w, w.requests[r].sess);
    if EntryHolds(w', id, state) {
      assert Owes(w', r, state);
    }
  }

  lemma TracksStep(w: World, step: Step, state: string, id: string, sets: nat, taken: nat, opts: Options)
    returns (id': string)
    requires Inv(w) && Enabled(w, step) && Tracks(w, state, id, sets, taken)
    requires Orderly(w, step, state, taken == 1) && sets + Count(SetsState(step, state)) <= 1
    ensures Tracks(Apply(w, step, opts), state, id',
                   sets + Count(SetsState(step, state)), taken + Count(TakesState(w, step, state)))
  {
    id' := id;
    if taken == 1 {
      TakenStep(w, step, state, id, opts);
    } else if TakesState(w, step, state) {
      TakingStep(w, step, state, id, opts);
    } else {
      StepInherits(w, step, state, opts);
      if SetsState(step, state) {
        id' := Apply(w, step, opts).requests[step.r].sess.id;
      }
    }
  }

  lemma {:induction false} PassesFrom(
      w: World, steps: seq<Step>, state: string, id: string, sets: nat, taken: nat, opts: Options)
    requires Inv(w) && CanRun(w, steps, opts) && AllOrderly(w, steps, state, taken == 1, opts)
    requires Tracks(w, state, id, sets, taken) && sets + Sets(steps, state) <= 1
    ensures taken + Passes(w, steps, state, opts) <= 1
    decreases |steps|
  {
    if steps != [] {
      InvStep(w, steps[0], opts);
      var id' := TracksStep(w, steps[0], state, id, sets, taken, opts);
      PassesFrom(Apply(w, steps[0], opts), steps[1..], state, id',
                 sets + Count(SetsState(steps[0], state)), taken + Count(TakesState(w, steps[0], state)), opts);
    }
  }

  /**
   In every run from an empty store that is orderly for a state value made once, it passes the state
   check of at most one callback, whatever becomes of other sessions' requests and store calls.
   */
  lemma StatePassesOnce(steps: seq<Step>, state: string, opts: Options)
    requires CanRun(INITIAL, steps, opts) && AllOrderly(INITIAL, steps, state, false, opts) && Sets(steps, state) <= 1
    ensures Passes(INITIAL, steps, state, opts) <= 1
  {
    PassesFrom(INITIAL, steps, state, "", 0, 0, opts);
  }

  // ---------------------------------------------------------------- requests that do not overlap

  /** No two unfinished requests were loaded from one entry. */
  ghost predicate NoOverlap(w: World) {
    forall q: nat, r: nat | q in w.requests && r in w.requests :: SameOrigin(w.requests[q], w.requests[r]) ==> q == r
  }

  predicate SameOrigin(q: Request, r: Request) {
    Origin(q) == Origin(r) != ""
  }

  /** Store calls work, handlers return, and what they set can be encoded. */
  predicate Smooth(step: Step) {
    match step
    case Tick(_) => true
    case Arrive(_, _, outcome, _, _) => outcome == Works
    case Mutate(r, op) => op.SetValue? ==> op.value != Unencodable
    case CommitCall(_, outcome, _) => outcome == Works
    case SupersedeCall(_, outcome) => outcome == Works
    case Panic(_) => false
  }

  ghost predicate AllSeparate(w: World, steps: seq<Step>, opts: Options)
    requires CanRun(w, steps, opts)
    decreases |steps|
  {
    steps != [] ==>
      && Smooth(steps[0])
      && NoOverlap(Apply(w, steps[0], opts))
      && AllSeparate(Apply(w, steps[0], opts), steps[1..], opts)
  }

  predicate NotUnencodable(key: string, value: Value) {
    value != Unencodable
  }

  ghost function EncodableRules(): Rules {
    Rules(NotUnencodable, _ => true)
  }

  lemma SeparateStep(w: World, step: Step, state: string, id: string, sets: nat, taken: nat, opts: Options)
    requires Inv(w) && WorldOk(w, EncodableRules()) && NoOverlap(w) && Tracks(w, state, id, sets, taken)
    requires Enabled(w, step) && Smooth(step) && NoOverlap(Apply(w, step, opts))
    ensures Orderly(w, step, state, taken == 1)
  {
    match step
    case Mutate(r, _) =>
      if TakesState(w, step, state) {
        forall p: nat | p != r ensures !RequestHolds(w, p, state) {
          if RequestHolds(w, p, state) {
            HoldersOverlap(w, p, r, state, id);
          }
        }
      }
    case Arrive(r, cookie, _, freshId, freshToken) =>
      if taken == 1 && EntryHolds(w, cookie, state) {
        var p: nat :| Owes(w, p, state);
        ArriveLoads(w, cookie, state, r, freshId, freshToken, opts);
        StoredIdsCreated(w);
        assert SameOrigin(Apply(w, step, opts).requests[p], Apply(w, step, opts).requests[r]);
      }
    case CommitCall(r, _, _) =>
      assert SessOk(w.requests[r].sess, EncodableRules());
      assert Encodable(w.requests[r].sess.data);
    case _ =>
  }

  /** Two sessions in flight that hold the state were loaded from one entry. */
  lemma HoldersOverlap(w: World, p: nat, r: nat, state: string, id: string)
    requires Inv(w) && SoleId(w, id, state) && RequestHolds(w, p, state) && RequestHolds(w, r, state) && p != r
    ensures SameOrigin(w.requests[p], w.requests[r])
  {
    assert SessionOk(w, w.requests[p].sess) && SessionOk(w, w.requests[r].sess);
    assert !(WillCreate(w.requests[p]) && WillCreate(w.requests[r]));
  }

  lemma {:induction false} SeparateRunOrderly(
      w: World, steps: seq<Step>, state: string, id: string, sets: nat, taken: nat, opts: Options)
    requires Inv(w) && WorldOk(w, EncodableRules()) && NoOverlap(w) && Tracks(w, state, id, sets, taken)
    requires CanRun(w, steps, opts) && AllSeparate(w, steps, opts) && sets + Sets(steps, state) <= 1
    ensures AllOrderly(w, steps, state, taken == 1, opts)
    decreases |steps|
  {
    if steps != [] {
      SeparateStep(w, steps[0], state, id, sets, taken, opts);
      InvStep(w, steps[0], opts);
      StepKeepsOk(w, steps[0], opts, EncodableRules());
      var id' := TracksStep(w, steps[0], state, id, sets, taken, opts);
      SeparateRunOrderly(Apply(w, steps[0], opts), steps[1..], state, id', sets + Count(SetsState(steps[0], state)),
                         taken + Count(TakesState(w, steps[0], state)), opts);
    }
  }

  /** So it does in every run in which requests on one session do not overlap and store calls work. */
  lemma SeparateRequestsPassOnce(steps: seq<Step>, state: string, opts: Options)
    requires CanRun(INITIAL, steps, opts) && AllSeparate(INITIAL, steps, opts) && Sets(steps, state) <= 1
    ensures Passes(INITIAL, steps, state, opts) <= 1
  {
    SeparateRunOrderly(INITIAL, steps, state, "", 0, 0, opts);
    StatePassesOnce(steps, state, opts);
  }
}
