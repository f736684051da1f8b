/**
 Concurrent requests sharing one session store, as the session middleware runs them
 (server/internal/middleware/session.go) over Load and Commit
 (server/internal/session/session.go). Requests interleave between store calls, the clock
 may advance between any two steps, and any store call may fail.
 */
module Protocol {
  import opened Prelude
  import opened TtlTable
  import opened SessionModel

  datatype Phase = Handling | Superseding(previous: string, ttl: int) | Finished(response: Response)

  /** Closed: the session never loaded, or the handler panicked before finalise ran. */
  datatype Request = Closed | Active(sess: Sess, phase: Phase)

  /** What an ID was issued with. */
  datatype Binding = Binding(token: Bytes, user: Option<User>)

  datatype World = World(
    table: Table<Blob>,
    now: int,
    requests: map<nat, Request>,
    issued: map<string, Binding>, // history: every ID ever issued
    created: set<string>)         // history: every ID ever created in the store

  const INITIAL := World(map[], 0, map[], map[], {})

  /** A client may send any cookie; the fresh values are used only when a session is made. */
  datatype Step =
    | Tick(elapsed: nat)
    | Arrive(r: nat, cookie: string, outcome: Outcome, freshId: string, freshToken: Bytes)
    | Mutate(r: nat, op: Op)
    | CommitCall(r: nat, outcome: Outcome, elapsed: nat) // the clock moves on within the call
    | SupersedeCall(r: nat, outcome: Outcome)
    | Panic(r: nat)

  /** random.Base58 is taken to return values never seen before, and never an empty one. */
  predicate Fresh(w: World, id: string, token: Bytes) {
    && id != "" && id !in w.issued
    && token != [] && forall i | i in w.issued :: w.issued[i].token != token
  }

  predicate IsActive(w: World, r: nat) {
    r in w.requests && w.requests[r].Active?
  }

  predicate Enabled(w: World, step: Step) {
    match step
    case Tick(_) => true
    case Arrive(r, _, _, id, token) => r !in w.requests && Fresh(w, id, token)
    case Mutate(r, op) =>
      && IsActive(w, r)
      && !w.requests[r].phase.Superseding?
      && (op.SetUser? ==> Fresh(w, op.freshId, op.freshToken))
    case CommitCall(r, _, _) => IsActive(w, r) && w.requests[r].phase == Handling
    case SupersedeCall(r, _) => IsActive(w, r) && w.requests[r].phase.Superseding?
    case Panic(r) => IsActive(w, r) && w.requests[r].phase == Handling
  }

  /** The session a request gets, and whether it had to be made. */
  function Open(w: World, cookie: string, freshId: string, freshToken: Bytes): (Sess, bool) {
    match LoadFrom(Get(w.table, cookie, w.now), cookie)
    case Loaded(s) => (s, false)
    case _ => (NewSession(freshId, freshToken), true)
  }

  function Issue(w: World, s: Sess): World {
    w.(issued := w.issued[s.id := Binding(s.csrfToken, s.user)])
  }

  function Apply(w: World, step: Step, opts: Options): World
    requires Enabled(w, step)
  {
    match step
    case Tick(elapsed) => w.(now := w.now + elapsed)
    case Arrive(r, cookie, outcome, freshId, freshToken) =>
      if outcome != Works then w.(requests := w.requests[r := Closed])
      else
        var (s, made) := Open(w, cookie, freshId, freshToken);
        var w' := w.(requests := w.requests[r := Active(s, Handling)]);
        if made then Issue(w', s) else w'
    case Mutate(r, op) =>
      var s := ApplyOp(w.requests[r].sess, op);
      var w' := w.(requests := w.requests[r := Active(s, w.requests[r].phase)]);
      if op.SetUser? then Issue(w', s) else w'
    case CommitCall(r, outcome, elapsed) =>
      var s := w.requests[r].sess;
      var ttl := TtlFor(opts, s);
      var p := CommitFirst(w.table, w.now, w.now + elapsed, s, ttl, outcome);
      var phase := match p.next {
        case Return(err) => Finished(Respond(p.sess, ttl, err))
        case DeleteSuperseded(previous) => Superseding(previous, ttl)
      };
      w.(table := p.table,
         now := w.now + elapsed,
         requests := w.requests[r := Active(p.sess, phase)],
         created := w.created + p.table.Keys)
    case SupersedeCall(r, outcome) =>
      var Active(s, Superseding(previous, ttl)) := w.requests[r];
      var (t, err) := CommitSecond(w.table, previous, outcome);
      w.(table := t, requests := w.requests[r := Active(s, Finished(Respond(s, ttl, err)))])
    case Panic(r) => w.(requests := w.requests[r := Closed])
  }

  ghost predicate CanRun(w: World, steps: seq<Step>, opts: Options)
    decreases |steps|
  {
    steps == [] || (Enabled(w, steps[0]) && CanRun(Apply(w, steps[0], opts), steps[1..], opts))
  }

  /** The world after a whole run. */
  ghost function Run(w: World, steps: seq<Step>, opts: Options): World
    requires CanRun(w, steps, opts)
    decreases |steps|
  {
    if steps == [] then w else Run(Apply(w, steps[0], opts), steps[1..], opts)
  }

  // ---------------------------------------------------------------- the invariant

  predicate Bound(w: World, id: string, token: Bytes, user: Option<User>) {
    id in w.issued && w.issued[id] == Binding(token, user)
  }

  /** A stored entry is a decodable session stored under its own ID, as that ID was issued. */
  predicate EntryOk(w: World, id: string, e: Entry<Blob>) {
    && id in w.created
    && Decode(e.data).Some?
    && var snap := Decode(e.data).value;
       && snap.id == id
       && Bound(w, id, snap.csrfToken, snap.user)
       && Encodable(snap.data)
  }

  predicate SessionOk(w: World, s: Sess) {
    && s.id in w.issued
    && (s.storedId != "" ==> s.storedId in w.created)
    && (!s.destroyed ==> Bound(w, s.id, s.csrfToken, s.user))
  }

  /** An entry about to be removed as superseded was once created. */
  predicate PhaseOk(w: World, phase: Phase) {
    phase.Superseding? && phase.previous != "" ==> phase.previous in w.created
  }

  /** The request may still create an entry under its session's ID. */
  predicate WillCreate(q: Request) {
    q.Active? && q.phase == Handling && q.sess.id != q.sess.storedId
  }

  ghost predicate IssuedOk(w: World) {
    && (forall id | id in w.issued :: id != "" && w.issued[id].token != [])
    && (forall i, j | i in w.issued && j in w.issued && w.issued[i].token == w.issued[j].token :: i == j)
    && w.created <= w.issued.Keys
  }

  ghost predicate RequestsOk(w: World) {
    && (forall r | IsActive(w, r) :: SessionOk(w, w.requests[r].sess) && PhaseOk(w, w.requests[r].phase))
    && (forall r | r in w.requests && WillCreate(w.requests[r]) :: w.requests[r].sess.id !in w.created)
    && (forall q, r | q in w.requests && r in w.requests && WillCreate(w.requests[q])
                      && WillCreate(w.requests[r]) && w.requests[q].sess.id == w.requests[r].sess.id :: q == r)
  }

  ghost predicate Inv(w: World) {
    && IssuedOk(w)
    && RequestsOk(w)
    && (forall id | id in w.table :: EntryOk(w, id, w.table[id]))
  }
}
