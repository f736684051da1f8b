/**
 The values and pure steps of server/internal/session/session.go. The class in Session.dfy
 updates its fields in place and is proved against these functions; Protocol.dfy interleaves
 them between concurrent requests.
 */
module SessionModel {
  import opened Prelude
  import opened TtlTable

  /** attributes is None for Go's nil slice, which JSON keeps apart from an empty one. */
  datatype User = User(
    id: string,
    name: string,
    email: string,
    role: string,
    schoolCode: string,
    attributes: Option<seq<string>>)

  /** A value of the session's data: a string, some other JSON value, or one JSON cannot encode. */
  datatype Value = Text(text: string) | OtherJson(tag: int) | Unencodable

  datatype Sess = Sess(
    id: string,
    csrfToken: Bytes,
    user: Option<User>,
    data: map<string, Value>,
    destroyed: bool,
    storedId: string)

  datatype Snapshot = Snapshot(
    id: string,
    csrfToken: Bytes,
    user: Option<User>,
    data: map<string, Value>)

  /**
   Stored bytes. Encoding a snapshot gives one symbol; bytes of any other shape stand for
   text that does not decode as a snapshot.
   */
  type Blob = seq<Snapshot>

  predicate Encodable(data: map<string, Value>) {
    forall key | key in data :: data[key] != Unencodable
  }

  function Encode(snap: Snapshot): (b: Blob)
    ensures Decode(b) == Some(snap)
  {
    [snap]
  }

  function Decode(b: Blob): Option<Snapshot> {
    if |b| == 1 then Some(b[0]) else None
  }

  function NewSession(id: string, token: Bytes): Sess {
    Sess(id, token, None, map[], false, "")
  }

  function ToSnapshot(s: Sess): Snapshot {
    Snapshot(s.id, s.csrfToken, s.user, s.data)
  }

  datatype LoadResult = Loaded(sess: Sess) | Absent | Undecodable

  /** What Load makes of the bytes Get returned for id. */
  function LoadFrom(stored: Option<Blob>, id: string): LoadResult {
    match stored
    case None => Absent
    case Some(b) =>
      match Decode(b)
      case None => Undecodable
      case Some(snap) =>
        if snap.id != id || snap.csrfToken == [] then Undecodable
        else Loaded(Sess(snap.id, snap.csrfToken, snap.user, snap.data, false, snap.id))
  }

  /** One change a handler makes to its session. */
  datatype Op =
    | SetValue(key: string, value: Value)
    | RemoveValue(key: string)
    | SetUser(user: User, freshId: string, freshToken: Bytes)
    | Destroy

  function ApplyOp(s: Sess, op: Op): Sess {
    match op
    case SetValue(key, value) => s.(data := s.data[key := value])
    case RemoveValue(key) => s.(data := s.data - {key})
    case SetUser(u, id, token) => s.(id := id, csrfToken := token, user := Some(u), data := map[])
    case Destroy => s.(user := None, data := map[], destroyed := true)
  }

  /**
   How a store call ends: it works, it fails and changes nothing, or it fails although its
   change was made, as when the reply to a remote store is lost.
   */
  datatype Outcome = Works | FailsUnchanged | FailsChanged

  datatype CommitError =
    NoError | ErrNotFound | ErrSupersededNotDeleted | ErrTaken | ErrUnencodable | ErrStore

  datatype Next = Return(err: CommitError) | DeleteSuperseded(previous: string)

  datatype Progress = Progress(table: Table<Blob>, sess: Sess, next: Next)

  /** Commit up to and including its first store call. */
  function CommitFirst(t: Table<Blob>, looked: int, stamped: int, s: Sess, ttl: int, outcome: Outcome): Progress
  {
    if s.destroyed then
      Progress(
        if outcome == FailsUnchanged then t else Delete(t, s.storedId),
        s,
        Return(if outcome == Works then NoError else ErrStore))
    else if !Encodable(s.data) then
      Progress(t, s, Return(ErrUnencodable))
    else if outcome == FailsUnchanged then
      Progress(t, s, Return(ErrStore))
    else if s.id != s.storedId then
      var (t', created) := Create(t, s.id, Encode(ToSnapshot(s)), ttl, looked, stamped);
      if outcome == FailsChanged then Progress(t', s, Return(ErrStore))
      else if !created then Progress(t, s, Return(ErrTaken))
      else Progress(t', s.(storedId := s.id), DeleteSuperseded(s.storedId))
    else
      var (t', updated) := Update(t, s.id, Encode(ToSnapshot(s)), ttl, looked, stamped);
      if outcome == FailsChanged then Progress(t', s, Return(ErrStore))
      else if !updated then Progress(t, s, Return(ErrNotFound))
      else Progress(t', s, Return(NoError))
  }

  /** Commit's second store call, which removes the superseded entry. */
  function CommitSecond(t: Table<Blob>, previous: string, outcome: Outcome): (Table<Blob>, CommitError) {
    (if outcome == FailsUnchanged then t else Delete(t, previous),
     if outcome == Works then NoError else ErrSupersededNotDeleted)
  }

  datatype Cookie = Carries(id: string, maxAge: int) | Expires

  /** What finalise leaves of a response: a 500 in its place, and the session cookie it sets. */
  datatype Response = Response(failed: bool, cookie: Option<Cookie>)

  datatype Options = Options(defaultTtl: int, authenticatedTtl: int)

  /** Durations count nanoseconds. */
  const SECOND := 1_000_000_000

  function TtlFor(opts: Options, s: Sess): int {
    if s.user.Some? then opts.authenticatedTtl else opts.defaultTtl
  }

  /** What finalise does with the error Commit returned. */
  function Respond(s: Sess, ttl: int, err: CommitError): Response {
    match err
    case ErrNotFound => Response(false, None)
    case ErrTaken => Response(true, None)
    case ErrUnencodable => Response(true, None)
    case ErrStore => Response(true, None)
    case _ => Response(false, Some(if s.destroyed then Expires else Carries(s.id, ttl / SECOND)))
  }
}
