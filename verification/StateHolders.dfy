/**
 Who can hold the state value of a pending login (server/internal/handler/auth.go) in runs of the session
 protocol, and so let a callback pass the state check with it.
 */
module StateHolders {
  import opened Prelude
  import opened TtlTable
  import opened SessionModel
  import opened Protocol
  import opened ProtocolSafety
  import opened Handlers

  // ---------------------------------------------------------------- counting over a run

  /** The session data holds a pending login for this state value. */
  predicate Holds(data: map<string, Value>, state: string) {
    TextAt(data, KEY_STATE) == Some(state)
  }

  predicate SetsState(step: Step, state: string) {
    step.Mutate? && step.op == SetValue(KEY_STATE, Text(state))
  }

  predicate EntryHolds(w: World, id: string, state: string) {
    && Live(w.table, id, w.now)
    && Decode(w.table[id].data).Some? && Holds(Decode(w.table[id].data).value.data, state)
  }

  /** A handler can still find the state in its session, or leave it to be stored. */
  predicate RequestHolds(w: World, r: nat, state: string) {
    IsActive(w, r) && w.requests[r].phase == Handling && Holds(w.requests[r].sess.data, state)
  }

  /** The step is a callback taking this state value out of its session, as it does before it responds. */
  predicate TakesState(w: World, step: Step, state: string)
    requires Enabled(w, step)
  {
    step.Mutate? && step.op == RemoveValue(KEY_STATE) && RequestHolds(w, step.r, state)
  }

  /** It passes the state check with it. */
  predicate PassesWith(w: World, step: Step, state: string)
    requires Enabled(w, step)
  {
    TakesState(w, step, state) && PassesState(w.requests[step.r].sess.data, state)
  }

  function Count(b: bool): nat {
    if b then 1 else 0
  }

  ghost function Sets(steps: seq<Step>, state: string): nat {
    if steps == [] then 0 else Count(SetsState(steps[0], state)) + Sets(steps[1..], state)
  }

  ghost function Passes(w: World, steps: seq<Step>, state: string, opts: Options): nat
    requires CanRun(w, steps, opts)
    decreases |steps|
  {
    if steps == [] then 0
    else Count(PassesWith(w, steps[0], state)) + Passes(Apply(w, steps[0], opts), steps[1..], state, opts)
  }

  // ---------------------------------------------------------------- who can hold a state value

  /** Only sessions under one ID hold the state: the one stored under it, and those in flight. */
  ghost predicate SoleId(w: World, id: string, state: string) {
    && (forall r: nat | RequestHolds(w, r, state) :: w.requests[r].sess.id == id)
    && (forall a | EntryHolds(w, a, state) :: a == id)
  }

  ghost predicate Dead(w: World, state: string) {
    (forall r: nat :: !RequestHolds(w, r, state)) && (forall a :: !EntryHolds(w, a, state))
  }

  /** What holds the state after a step held it before, but for a session loaded and an entry written. */
  ghost predicate Inherits(w: World, w': World, step: Step, state: string)
    requires Enabled(w, step)
  {
    && (forall r: nat | RequestHolds(w', r, state) ::
          || (RequestHolds(w, r, state) && w'.requests[r].sess.id == w.requests[r].sess.id
              && w'.requests[r].sess.storedId == w.requests[r].sess.storedId)
          || (step.Arrive? && step.r == r && EntryHolds(w, step.cookie, state)
              && w'.requests[r].sess.id == w'.requests[r].sess.storedId == step.cookie)
          || (SetsState(step, state) && step.r == r))
    && (forall a | EntryHolds(w', a, state) ::
          || EntryHolds(w, a, state)
          || (step.CommitCall? && RequestHolds(w, step.r, state) && a == w.requests[step.r].sess.id))
  }

  lemma CommitInherits(w: World, w': World, step: Step, state: string)
    requires Enabled(w, step) && step.CommitCall? && CommitShape(w, w', step.r) && w'.now >= w.now
    ensures Inherits(w, w', step, state)
  {
  }

  lemma ArriveInherits(w: World, step: Step, state: string, opts: Options)
    requires Inv(w) && Enabled(w, step) && step.Arrive?
    ensures Inherits(w, Apply(w, step, opts), step, state)
  {
    OpenOk(w, step.cookie, step.freshId, step.freshToken);
  }

  lemma SupersedeInherits(w: World, step: Step, state: string, opts: Options)
    requires Enabled(w, step) && step.SupersedeCall?
    ensures Inherits(w, Apply(w, step, opts), step, state)
  {
  }

  lemma QuietInherits(w: World, step: Step, state: string, opts: Options)
    requires Enabled(w, step) && (step.Tick? || step.Panic?)
    ensures Inherits(w, Apply(w, step, opts), step, state)
  {
  }

  lemma MutateInherits(w: World, step: Step, state: string, opts: Options)
    requires Enabled(w, step) && step.Mutate?
    ensures Inherits(w, Apply(w, step, opts), step, state)
  {
  }

  lemma StepInherits(w: World, step: Step, state: string, opts: Options)
    requires Inv(w) && Enabled(w, step)
    ensures Inherits(w, Apply(w, step, opts), step, state)
  {
    match step
    case Arrive(_, _, _, _, _) => ArriveInherits(w, step, state, opts);
    case CommitCall(_, _, _) =>
      CommitHasShape(w, step, opts);
      CommitInherits(w, Apply(w, step, opts), step, state);
    case SupersedeCall(_, _) => SupersedeInherits(w, step, state, opts);
    case Mutate(_, _) => MutateInherits(w, step, state, opts);
    case _ => QuietInherits(w, step, state, opts);
  }

  lemma SoleIdStep(w: World, step: Step, id: string, state: string, opts: Options)
    requires Inv(w) && Enabled(w, step) && SoleId(w, id, state) && !SetsState(step, state)
    ensures SoleId(Apply(w, step, opts), id, state)
  {
    StepInherits(w, step, state, opts);
  }

  lemma DeadStep(w: World, step: Step, state: string, opts: Options)
    requires Inv(w) && Enabled(w, step) && Dead(w, state) && !SetsState(step, state)
    ensures Dead(Apply(w, step, opts), state)
  {
    StepInherits(w, step, state, opts);
  }

  /** In every run, however it goes, a state value set at most once is held under one ID only. */
  lemma {:induction false} HeldUnderOneId(
      w: World, steps: seq<Step>, state: string, id: string, sets: nat, opts: Options) returns (sole: string)
    requires Inv(w) && CanRun(w, steps, opts) && SoleId(w, id, state)
    requires (sets == 0 ==> Dead(w, state)) && sets + Sets(steps, state) <= 1
    ensures SoleId(Run(w, steps, opts), sole, state)
    ensures sets + Sets(steps, state) == 0 ==> Dead(Run(w, steps, opts), state)
    decreases |steps|
  {
    sole := id;
    if steps != [] {
      var step, w1 := steps[0], Apply(w, steps[0], opts);
      InvStep(w, step, opts);
      StepInherits(w, step, state, opts);
      if SetsState(step, state) {
        sole := HeldUnderOneId(w1, steps[1..], state, w1.requests[step.r].sess.id, 1, opts);
      } else {
        sole := HeldUnderOneId(w1, steps[1..], state, id, sets, opts);
      }
    }
  }

  // ---------------------------------------------------------------- when it can pass again

  /** Some continuation of the run lets a callback pass with the state, without setting it anew. */
  ghost predicate CanPass(w: World, state: string, opts: Options) {
    exists rest :: CanRun(w, rest, opts) && Sets(rest, state) == 0 && Passes(w, rest, state, opts) > 0
  }

  lemma {:induction false} DeadNeverPasses(w: World, rest: seq<Step>, state: string, opts: Options)
    requires Inv(w) && Dead(w, state) && CanRun(w, rest, opts) && Sets(rest, state) == 0
    ensures Passes(w, rest, state, opts) == 0
    decreases |rest|
  {
    if rest != [] {
      InvStep(w, rest[0], opts);
      DeadStep(w, rest[0], state, opts);
      DeadNeverPasses(Apply(w, rest[0], opts), rest[1..], state, opts);
    }
  }

  lemma FirstStep(w: World, step: Step, rest: seq<Step>, state: string, opts: Options)
    requires Enabled(w, step) && CanRun(Apply(w, step, opts), rest, opts)
    ensures CanRun(w, [step] + rest, opts)
    ensures Sets([step] + rest, state) == Count(SetsState(step, state)) + Sets(rest, state)
    ensures Passes(w, [step] + rest, state, opts)
            == Count(PassesWith(w, step, state)) + Passes(Apply(w, step, opts), rest, state, opts)
  {
    assert ([step] + rest)[1..] == rest;
  }

  lemma StepThenPass(w: World, step: Step, state: string, opts: Options)
    requires Enabled(w, step) && !SetsState(step, state) && CanPass(Apply(w, step, opts), state, opts)
    ensures CanPass(w, state, opts)
  {
    var w1 := Apply(w, step, opts);
    var rest :| CanRun(w1, rest, opts) && Sets(rest, state) == 0 && Passes(w1, rest, state, opts) > 0;
    FirstStep(w, step, rest, state, opts);
  }

  /** The step by which a callback takes the state out of its session. */
  function Take(r: nat): Step {
    Mutate(r, RemoveValue(KEY_STATE))
  }

  lemma PassNow(w: World, r: nat, state: string, opts: Options)
    requires RequestHolds(w, r, state) && PassesState(w.requests[r].sess.data, state)
    ensures CanPass(w, state, opts)
  {
    FirstStep(w, Take(r), [], state, opts);
    assert PassesWith(w, Take(r), state);
  }

  lemma HolderPasses(w: World, r: nat, state: string, opts: Options)
    requires RequestHolds(w, r, state)
    ensures CanPass(w, state, opts)
  {
    var nonce, verifier := Mutate(r, SetValue(KEY_NONCE, Text(""))), Mutate(r, SetValue(KEY_CODE_VERIFIER, Text("")));
    var w1 := Apply(w, nonce, opts);
    PassNow(Apply(w1, verifier, opts), r, state, opts);
    StepThenPass(w1, verifier, state, opts);
    StepThenPass(w, nonce, state, opts);
  }

  lemma ArriveLoads(w: World, id: string, state: string, r: nat, freshId: string, freshToken: Bytes, opts: Options)
    requires Inv(w) && EntryHolds(w, id, state) && r !in w.requests && Fresh(w, freshId, freshToken)
    ensures var w' := Apply(w, Arrive(r, id, Works, freshId, freshToken), opts);
            && w' == w.(requests := w.requests[r := w'.requests[r]])
            && RequestHolds(w', r, state)
            && w'.requests[r].sess.id == w'.requests[r].sess.storedId == id && !w'.requests[r].sess.destroyed
            && w'.requests[r].sess.data == Decode(w.table[id].data).value.data
  {
    OpenOk(w, id, freshId, freshToken);
  }

  /** A state value can pass again exactly as long as something holds it. */
  lemma CanPassExactly(w: World, state: string, r: nat, freshId: string, freshToken: Bytes, opts: Options)
    requires Inv(w) && r !in w.requests && Fresh(w, freshId, freshToken)
    ensures CanPass(w, state, opts) <==> !Dead(w, state)
  {
    if Dead(w, state) {
      forall rest | CanRun(w, rest, opts) && Sets(rest, state) == 0 ensures Passes(w, rest, state, opts) == 0 {
        DeadNeverPasses(w, rest, state, opts);
      }
    } else if p: nat :| RequestHolds(w, p, state) {
      HolderPasses(w, p, state, opts);
    } else {
      var a :| EntryHolds(w, a, state);
      var arrive := Arrive(r, a, Works, freshId, freshToken);
      ArriveLoads(w, a, state, r, freshId, freshToken, opts);
      HolderPasses(Apply(w, arrive, opts), r, state, opts);
      StepThenPass(w, arrive, state, opts);
    }
  }

  /** Another request in flight has the state too. */
  ghost predicate Overlaps(w: World, q: nat, state: string) {
    exists p: nat | p != q :: RequestHolds(w, p, state)
  }

  lemma NewIdsNotStored(w: World, r: nat)
    requires Inv(w) && IsActive(w, r) && w.requests[r].phase == Handling
    ensures w.requests[r].sess.id == w.requests[r].sess.storedId || w.requests[r].sess.id !in w.table
  {
    StoredIdsCreated(w);
  }
}
