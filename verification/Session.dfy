/**
 The Session class of server/internal/session/session.go, its Load and Commit over a store, and
 the finalise closure of server/internal/middleware/session.go.
 */
module Sessions {
  import opened Prelude
  import opened TtlTable
  import opened SessionModel
  import opened MemStore

  class Session {
    var id: string
    var csrfToken: Bytes
    var user: Option<User>
    var data: map<string, Value>
    var destroyed: bool
    var storedId: string

    function State(): Sess
      reads this
    {
      Sess(id, csrfToken, user, data, destroyed, storedId)
    }

    /** random.Base58 supplies freshId and freshToken. */
    constructor New(freshId: string, freshToken: Bytes)
      ensures State() == NewSession(freshId, freshToken)
    {
      id, csrfToken := freshId, freshToken;
      user, data := None, map[];
      destroyed, storedId := false, "";
    }

    constructor FromSnapshot(snap: Snapshot)
      ensures State() == Sess(snap.id, snap.csrfToken, snap.user, snap.data, false, snap.id)
    {
      id, csrfToken := snap.id, snap.csrfToken;
      user, data := snap.user, snap.data;
      destroyed, storedId := false, snap.id;
    }

    method Set(key: string, value: Value)
      modifies this
      ensures State() == ApplyOp(old(State()), SetValue(key, value))
      ensures State() == old(State()).(data := old(data)[key := value])
    {
      data := data[key := value];
    }

    method Delete(key: string)
      modifies this
      ensures State() == ApplyOp(old(State()), RemoveValue(key))
      ensures State() == old(State()).(data := old(data) - {key})
    {
      data := data - {key};
    }

    /** GetAndDelete at type string: the key goes even when its value is of another type. */
    method GetAndDeleteText(key: string) returns (text: string, ok: bool)
      modifies this
      ensures State() == ApplyOp(old(State()), RemoveValue(key))
      ensures State() == old(State()).(data := old(data) - {key})
      ensures ok <==> key in old(data) && old(data)[key].Text?
      ensures text == if ok then old(data)[key].text else ""
    {
      text, ok := "", false;
      if key in data && data[key].Text? {
        text, ok := data[key].text, true;
      }
      data := data - {key};
    }

    method SetUser(u: User, freshId: string, freshToken: Bytes)
      modifies this
      ensures State() == ApplyOp(old(State()), SessionModel.SetUser(u, freshId, freshToken))
      ensures State() == Sess(freshId, freshToken, Some(u), map[], old(destroyed), old(storedId))
    {
      id := freshId;
      csrfToken := freshToken;
      user := Some(u);
      data := map[];
    }

    method Destroy()
      modifies this
      ensures State() == ApplyOp(old(State()), SessionModel.Destroy)
      ensures State() == Sess(old(id), old(csrfToken), None, map[], true, old(storedId))
    {
      user := None;
      data := map[];
      destroyed := true;
    }
  }

  // ---------------------------------------------------------------- a store whose calls may fail

  /** How a call of a store ended, and its clock readings. */
  datatype Made = Made(outcome: Outcome, looked: int, stamped: int)

  function AsCall(op: Operation<Snapshot>, made: Made): Call<Snapshot> {
    Call(op, false, made.looked, made.stamped)
  }

  /** What a call does to the store, and its reply, unless it fails. */
  function Attempt(m: Table<Blob>, op: Operation<Snapshot>, made: Made): (Table<Blob>, Option<Reply<Snapshot>>) {
    var (m', reply) := LazyStep(m, AsCall(op, made));
    (if made.outcome == FailsUnchanged then m else m',
     if made.outcome != Works || reply.Refused? then None else Some(reply))
  }

  /**
   The in-memory store behind calls that may fail, before or after they took effect, as calls of a remote
   store may. A call whose context is done is one that fails and changes nothing.
   */
  class FallibleStore {
    const inner: Store<Snapshot>

    constructor (inner: Store<Snapshot>)
      ensures this.inner == inner
    {
      this.inner := inner;
    }

    method Get(id: string) returns (data: array?<Snapshot>, failed: bool, ghost made: Made)
      modifies inner, inner.clock
      ensures inner.clock.now >= old(inner.clock.now) && made.looked == made.stamped == inner.clock.now
      ensures var (m, reply) := Attempt(old(inner.Contents()), GetData(id), made);
              && inner.Contents() == m && (failed <==> reply.None?)
              && (reply.Some? ==> reply.value == Data(if data == null then None else Some(data[..])))
      ensures data != null ==> fresh(data)
    {
      var outcome: Outcome :| true;
      if outcome == FailsUnchanged {
        return null, true, Made(outcome, inner.clock.now, inner.clock.now);
      }
      var err;
      ghost var call;
      data, err, call := inner.Get(false, id);
      failed := outcome != Works || err != MemStore.NoError;
      made := Made(outcome, inner.clock.now, inner.clock.now);
    }

    method Create(id: string, data: array<Snapshot>, ttl: int) returns (created: bool, failed: bool, ghost made: Made)
      modifies inner, inner.clock
      ensures old(inner.clock.now) <= made.looked <= made.stamped == inner.clock.now
      ensures var (m, reply) := Attempt(old(inner.Contents()), CreateEntry(id, old(data[..]), ttl), made);
              && inner.Contents() == m && (failed <==> reply.None?)
              && (reply.Some? ==> reply.value == Written(created))
    {
      var outcome: Outcome :| true;
      if outcome == FailsUnchanged {
        return false, true, Made(outcome, inner.clock.now, inner.clock.now);
      }
      var err;
      ghost var call;
      created, err, call := inner.Create(false, id, data, ttl);
      failed := outcome != Works || err != MemStore.NoError;
      made := Made(outcome, call.looked, call.stamped);
    }

    method Update(id: string, data: array<Snapshot>, ttl: int) returns (updated: bool, failed: bool, ghost made: Made)
      modifies inner, inner.clock
      ensures old(inner.clock.now) <= made.looked <= made.stamped == inner.clock.now
      ensures var (m, reply) := Attempt(old(inner.Contents()), UpdateEntry(id, old(data[..]), ttl), made);
              && inner.Contents() == m && (failed <==> reply.None?)
              && (reply.Some? ==> reply.value == Written(updated))
    {
      var outcome: Outcome :| true;
      if outcome == FailsUnchanged {
        return false, true, Made(outcome, inner.clock.now, inner.clock.now);
      }
      var err;
      ghost var call;
      updated, err, call := inner.Update(false, id, data, ttl);
      failed := outcome != Works || err != MemStore.NoError;
      made := Made(outcome, call.looked, call.stamped);
    }

    method Delete(id: string) returns (failed: bool, ghost made: Made)
      modifies inner
      ensures made.looked == made.stamped == inner.clock.now
      ensures var (m, reply) := Attempt(old(inner.Contents()), DeleteEntry(id), made);
              inner.Contents() == m && (failed <==> reply.None?)
    {
      var outcome: Outcome :| true;
      if outcome != FailsUnchanged {
        var _, _ := inner.Delete(false, id);
      }
      failed := outcome != Works;
      made := Made(outcome, inner.clock.now, inner.clock.now);
    }
  }

  // ---------------------------------------------------------------- Load and Commit

  datatype LoadError = Fine | StoreFailed | NotDecodable

  /** Loads through the store; made is the store call. */
  method Load(store: FallibleStore, id: string, freshId: string, freshToken: Bytes)
    returns (sess: Session?, err: LoadError, ghost made: Made)
    modifies store.inner, store.inner.clock
    ensures store.inner.clock.now >= old(store.inner.clock.now)
    ensures made.looked == made.stamped == store.inner.clock.now
    ensures var (m, reply) := Attempt(old(store.inner.Contents()), GetData(id), made);
            && store.inner.Contents() == m
            && match reply
               case Some(Data(stored)) =>
                 (match LoadFrom(stored, id)
                  case Loaded(s) => err == Fine && sess != null && fresh(sess) && sess.State() == s
                  case Absent =>
                    err == Fine && sess != null && fresh(sess) && sess.State() == NewSession(freshId, freshToken)
                  case Undecodable => err == NotDecodable && sess == null)
               case _ => err == StoreFailed && sess == null
  {
    var data, failed;
    data, failed, made := store.Get(id);
    if failed {
      return null, StoreFailed, made;
    }
    if data == null {
      sess := new Session.New(freshId, freshToken);
      return sess, Fine, made;
    }
    var decoded := Decode(data[..]);
    if decoded.None? || decoded.value.id != id || decoded.value.csrfToken == [] {
      return null, NotDecodable, made;
    }
    sess := new Session.FromSnapshot(decoded.value);
    err := Fine;
  }

  /** The first store call Commit makes, unless the session cannot be encoded. */
  function FirstOperation(s: Sess, ttl: int): Operation<Snapshot> {
    if s.destroyed then DeleteEntry(s.storedId)
    else if s.id != s.storedId then CreateEntry(s.id, Encode(ToSnapshot(s)), ttl)
    else UpdateEntry(s.id, Encode(ToSnapshot(s)), ttl)
  }

  /** What Commit makes of its reply, if there is one. */
  function AfterFirst(s: Sess, reply: Option<Reply<Snapshot>>): (Sess, Next) {
    match reply
    case None => (s, Return(ErrStore))
    case Some(Written(true)) =>
      if s.id != s.storedId then (s.(storedId := s.id), DeleteSuperseded(s.storedId))
      else (s, Return(SessionModel.NoError))
    case Some(Written(false)) => (s, Return(if s.id != s.storedId then ErrTaken else ErrNotFound))
    case Some(_) => (s, Return(SessionModel.NoError))
  }

  /** The session, the table and the error after a commit whose store calls went this way. */
  function Committed(s: Sess, m: Table<Blob>, ttl: int, first: Made, second: Made): (Sess, Table<Blob>, CommitError) {
    if !s.destroyed && !Encodable(s.data) then (s, m, ErrUnencodable)
    else
      var (m1, reply) := Attempt(m, FirstOperation(s, ttl), first);
      var (s1, next) := AfterFirst(s, reply);
      match next
      case Return(err) => (s1, m1, err)
      case DeleteSuperseded(previous) =>
        var (m2, deleted) := Attempt(m1, DeleteEntry(previous), second);
        (s1, m2, if deleted.None? then ErrSupersededNotDeleted else SessionModel.NoError)
  }

  method Commit(store: FallibleStore, sess: Session, ttl: int)
    returns (err: CommitError, ghost first: Made, ghost second: Made)
    modifies store.inner, store.inner.clock, sess
    ensures old(store.inner.clock.now) <= first.looked <= first.stamped <= store.inner.clock.now
    ensures (sess.State(), store.inner.Contents(), err)
            == Committed(old(sess.State()), old(store.inner.Contents()), ttl, first, second)
  {
    first := Made(Works, store.inner.clock.now, store.inner.clock.now);
    second := first;
    ghost var s := sess.State();
    if sess.destroyed {
      var failed;
      failed, first := store.Delete(sess.storedId);
      err := if failed then ErrStore else SessionModel.NoError;
      return err, first, second;
    }
    if exists key | key in sess.data :: sess.data[key] == Unencodable {
      return ErrUnencodable, first, second;
    }
    ghost var m := store.inner.Contents();
    var text := Encode(ToSnapshot(sess.State()));
    var data := new Snapshot[1](_ => text[0]);
    assert data[..] == text && store.inner.Contents() == m && sess.State() == s;
    if sess.id != sess.storedId {
      err, first, second := SaveUnderNewId(store, sess, data, ttl);
    } else {
      var updated, failed;
      updated, failed, first := store.Update(sess.id, data, ttl);
      err := if failed then ErrStore else if !updated then ErrNotFound else SessionModel.NoError;
    }
  }

  /** The part of Commit for a session whose ID is not the one it is stored under. */
  method SaveUnderNewId(store: FallibleStore, sess: Session, data: array<Snapshot>, ttl: int)
    returns (err: CommitError, ghost first: Made, ghost second: Made)
    requires !sess.destroyed && sess.id != sess.storedId && Encodable(sess.data)
    requires data[..] == Encode(ToSnapshot(sess.State()))
    modifies store.inner, store.inner.clock, sess
    ensures old(store.inner.clock.now) <= first.looked <= first.stamped <= store.inner.clock.now
    ensures (sess.State(), store.inner.Contents(), err)
            == Committed(old(sess.State()), old(store.inner.Contents()), ttl, first, second)
  {
    var created, failed;
    created, failed, first := store.Create(sess.id, data, ttl);
    second := first;
    if failed {
      return ErrStore, first, second;
    }
    if !created {
      return ErrTaken, first, second;
    }
    var superseded := sess.storedId;
    ghost var m1 := store.inner.Contents();
    sess.storedId := sess.id;
    assert store.inner.Contents() == m1;
    failed, second := store.Delete(superseded);
    err := if failed then ErrSupersededNotDeleted else SessionModel.NoError;
  }

  /**
   The session middleware's finalise closure: it commits the session for the TTL its user calls for,
   and settles the response by the error.
   */
  method Finalise(store: FallibleStore, sess: Session, opts: Options)
    returns (response: Response, ghost first: Made, ghost second: Made)
    modifies store.inner, store.inner.clock, sess
    ensures old(store.inner.clock.now) <= first.looked <= first.stamped <= store.inner.clock.now
    ensures var s := old(sess.State());
            var ttl := TtlFor(opts, s);
            var (s', m', err) := Committed(s, old(store.inner.Contents()), ttl, first, second);
            sess.State() == s' && store.inner.Contents() == m' && response == Respond(s', ttl, err)
  {
    var ttl := if sess.user.Some? then opts.authenticatedTtl else opts.defaultTtl;
    var err;
    err, first, second := Commit(store, sess, ttl);
    if err == ErrNotFound {
      return Response(false, None), first, second;
    }
    if err != SessionModel.NoError && err != ErrSupersededNotDeleted {
      return Response(true, None), first, second;
    }
    var cookie := if sess.destroyed then Expires else Carries(sess.id, ttl / SECOND);
    response := Response(false, Some(cookie));
  }

  /** The protocol's outcome for a first call: the store refuses an empty ID and a TTL that is not positive. */
  function FirstOutcome(s: Sess, ttl: int, first: Made): Outcome {
    if !s.destroyed && (s.id == "" || ttl <= 0) then FailsUnchanged else first.outcome
  }

  /** Same session, same error, and from then on the same visible table. */
  ghost predicate AsSteps(m: Table<Blob>, s: Sess, ttl: int, first: Made, second: Made) {
    var (s', m', err) := Committed(s, m, ttl, first, second);
    var p := CommitFirst(m, first.looked, first.stamped, s, ttl, FirstOutcome(s, ttl, first));
    && s' == p.sess
    && match p.next
       case Return(e) => err == e && SameFrom(m', p.table, first.stamped)
       case DeleteSuperseded(previous) =>
         var (t, e) := CommitSecond(p.table, previous, second.outcome);
         err == e && SameFrom(m', t, first.stamped)
  }

  /** The first call alone. */
  ghost predicate FirstAsStep(m: Table<Blob>, s: Sess, ttl: int, first: Made) {
    var (m1, reply) := Attempt(m, FirstOperation(s, ttl), first);
    var p := CommitFirst(m, first.looked, first.stamped, s, ttl, FirstOutcome(s, ttl, first));
    AfterFirst(s, reply) == (p.sess, p.next) && SameFrom(m1, p.table, first.stamped)
  }

  lemma UpdateAsStep(m: Table<Blob>, s: Sess, ttl: int, first: Made)
    requires first.looked <= first.stamped && !s.destroyed && Encodable(s.data) && s.id == s.storedId
    ensures FirstAsStep(m, s, ttl, first)
  {
    var e := Entry(Encode(ToSnapshot(s)), first.stamped + ttl);
    SameAfterWrite(m, Lookup(m, s.id, first.looked).0, first.looked, s.id, e);
  }

  /** A Create of the in-memory store is the contract's, from its write on. */
  lemma CreateAttempt(m: Table<Blob>, id: string, data: Blob, ttl: int, made: Made)
    requires made.looked <= made.stamped && data != []
    ensures var (m1, reply) := Attempt(m, CreateEntry(id, data, ttl), made);
            if made.outcome == FailsUnchanged || id == "" || ttl <= 0 then m1 == m && reply == None
            else
              var (t, created) := TtlTable.Create(m, id, data, ttl, made.looked, made.stamped);
              && SameFrom(m1, t, made.stamped)
              && reply == if made.outcome == Works then Some(Written(created)) else None
  {
    SameAfterWrite(m, Lookup(m, id, made.looked).0, made.looked, id, Entry(data, made.stamped + ttl));
  }

  lemma CreateAsStep(m: Table<Blob>, s: Sess, ttl: int, first: Made)
    requires first.looked <= first.stamped && !s.destroyed && Encodable(s.data) && s.id != s.storedId
    ensures FirstAsStep(m, s, ttl, first)
  {
    CreateAttempt(m, s.id, Encode(ToSnapshot(s)), ttl, first);
  }

  lemma RemovalAsStep(m: Table<Blob>, t: Table<Blob>, previous: string, second: Made, now: int)
    requires SameFrom(m, t, now)
    ensures var (m2, deleted) := Attempt(m, DeleteEntry(previous), second);
            var (t2, e) := CommitSecond(t, previous, second.outcome);
            && SameFrom(m2, t2, now)
            && e == if deleted.None? then ErrSupersededNotDeleted else SessionModel.NoError
  {
    SameAfterWrite(m, t, now, previous, Entry([], 0));
  }

  lemma BothAsSteps(m: Table<Blob>, s: Sess, ttl: int, first: Made, second: Made)
    requires !s.destroyed && Encodable(s.data) && FirstAsStep(m, s, ttl, first)
    ensures AsSteps(m, s, ttl, first, second)
  {
    var (m1, reply) := Attempt(m, FirstOperation(s, ttl), first);
    var p := CommitFirst(m, first.looked, first.stamped, s, ttl, FirstOutcome(s, ttl, first));
    if p.next.DeleteSuperseded? {
      RemovalAsStep(m1, p.table, p.next.previous, second, first.stamped);
    }
  }

  /**
   Commit is the protocol's commit step followed, when that leaves a superseded entry, by its removal
   step, for every outcome of either call.
   */
  lemma CommitIsProtocolSteps(m: Table<Blob>, s: Sess, ttl: int, first: Made, second: Made)
    requires first.looked <= first.stamped
    ensures AsSteps(m, s, ttl, first, second)
  {
    if !s.destroyed && Encodable(s.data) {
      if s.id == s.storedId {
        UpdateAsStep(m, s, ttl, first);
      } else {
        CreateAsStep(m, s, ttl, first);
      }
      BothAsSteps(m, s, ttl, first, second);
    }
  }

  predicate Saved(err: CommitError) {
    err == SessionModel.NoError || err == ErrSupersededNotDeleted
  }

  /** Whatever its store calls do, a commit changes nothing of the session but the ID it is stored under. */
  lemma CommitLeavesSession(m: Table<Blob>, s: Sess, ttl: int, first: Made, second: Made)
    ensures var (s', _, err) := Committed(s, m, ttl, first, second);
            s' == s.(storedId := if !s.destroyed && Saved(err) then s.id else s.storedId)
  {
  }

  /** So a later commit of a saved session sees its ID as unchanged, and saves it only while its entry is there. */
  lemma CommitAgain(
      m: Table<Blob>, s: Sess, ttl: int, first: Made, second: Made, data: map<string, Value>, m': Table<Blob>,
      ttl': int, third: Made, fourth: Made)
    requires !s.destroyed && s.id != "" && Saved(Committed(s, m, ttl, first, second).2)
    requires Encodable(data) && ttl' > 0 && third.outcome == Works
    ensures var s' := Committed(s, m, ttl, first, second).0.(data := data);
            Committed(s', m', ttl', third, fourth).2
            == if Live(m', s.id, third.looked) then SessionModel.NoError else ErrNotFound
  {
    CommitLeavesSession(m, s, ttl, first, second);
  }
}
