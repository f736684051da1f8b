/**
 The two response writers of the middleware stack: sessionResponseWriter
 (server/internal/middleware/session.go), which runs finalise before the response goes out, over
 requestLogResponseWriter (server/internal/middleware/requestlog.go), which records the status,
 over a writer that behaves as net/http's does. Each is a value with a step per call; the classes
 in WriterClasses.dfy are proved against the steps.
 */
module Writers {
  import opened Prelude

  type Headers = map<string, seq<string>>

  /** One use a handler makes of its response writer. Hijack says whether the server allows it. */
  datatype Call =
    | SetHeader(name: string, values: seq<string>)
    | WriteHeader(status: int)
    | Write(body: string)
    | Flush
    | Hijack(allowed: bool)

  predicate IsFinal(status: int) {
    status >= 200 || status == 101
  }

  // ---------------------------------------------------------------- net/http's writer

  /** What reaches the client, with the headers it is sent with. */
  datatype Event = Informational(status: int, headers: Headers) | Final(status: int, headers: Headers)
                 | Body(body: string) | Flushed | TakenOver

  datatype Net = Net(header: Headers, committed: Option<int>, hijacked: bool, wire: seq<Event>)

  /** Statuses outside this range make net/http panic. */
  predicate IsValidStatus(status: int) {
    100 <= status <= 999
  }

  function NetWriteHeader(n: Net, status: int): Net {
    if n.hijacked || n.committed.Some? || !IsValidStatus(status) then n
    else if !IsFinal(status) then n.(wire := n.wire + [Informational(status, n.header)])
    else n.(committed := Some(status), wire := n.wire + [Final(status, n.header)])
  }

  function NetStep(n: Net, c: Call): Net {
    match c
    case SetHeader(name, values) => n.(header := n.header[name := values])
    case WriteHeader(status) => NetWriteHeader(n, status)
    case Write(body) =>
      if n.hijacked then n
      else var n' := NetWriteHeader(n, 200); n'.(wire := n'.wire + [Body(body)])
    case Flush =>
      if n.hijacked then n
      else var n' := NetWriteHeader(n, 200); n'.(wire := n'.wire + [Flushed])
    case Hijack(allowed) =>
      if n.hijacked || !allowed then n else n.(hijacked := true, wire := n.wire + [TakenOver])
  }

  /** Once the handler has returned, net/http sends a 200 for a response that was never written. */
  function NetFinish(n: Net): Net {
    NetWriteHeader(n, 200)
  }

  // ---------------------------------------------------------------- requestLogResponseWriter

  /** status is 0 until one is committed; calls records the calls received. */
  datatype Log = Log(status: int, hijacked: bool, net: Net, calls: seq<Call>)

  function SetStatus(l: Log, status: int): Log {
    if l.status == 0 && !l.hijacked then l.(status := status) else l
  }

  function LogStep(l: Log, c: Call): Log {
    var l1 := match c {
      case WriteHeader(status) => if IsFinal(status) then SetStatus(l, status) else l
      case Write(_) => SetStatus(l, 200)
      case Flush => SetStatus(l, 200)
      case Hijack(allowed) => if allowed && !l.net.hijacked then l.(hijacked := true) else l
      case SetHeader(_, _) => l
    };
    l1.(net := NetStep(l1.net, c), calls := l1.calls + [c])
  }

  /** RequestLog once the handler has returned: it records the 200 that net/http sends. */
  function LogFinish(l: Log): Log {
    var l1 := SetStatus(l, 200);
    l1.(net := NetFinish(l1.net))
  }

  // ---------------------------------------------------------------- sessionResponseWriter

  /** What finalise does when it runs: it may set a cookie, or it fails. */
  datatype Finalise = Works(cookie: Option<string>) | Fails

  /** finalised counts the runs of finalise; initial holds the headers the writer was created with. */
  datatype Writer = Writer(finalised: nat, failed: bool, initial: Headers, log: Log)

  function Values(h: Headers, name: string): seq<string> {
    if name in h then h[name] else []
  }

  /** The headers finalise leaves: Cache-Control is replaced, the cookie comes after any other. */
  function Added(h: Headers, fin: Finalise): Headers {
    var h' := h["Cache-Control" := ["no-store"]];
    if fin.Works? && fin.cookie.Some? then h'["Set-Cookie" := Values(h, "Set-Cookie") + [fin.cookie.value]] else h'
  }

  /** RenderPlain's headers. */
  function PlainHeaders(h: Headers): Headers {
    h["Content-Type" := ["text/plain; charset=UTF-8"]]["X-Content-Type-Options" := ["nosniff"]]
  }

  const PLAIN_500 := "Internal Server Error"

  function WithHeader(l: Log, h: Headers): Log {
    l.(net := l.net.(header := h))
  }

  function FinaliseOnce(s: Writer, fin: Finalise): Writer {
    if s.finalised > 0 then s
    else
      var s1 := s.(finalised := 1, log := WithHeader(s.log, Added(s.log.net.header, fin)));
      if fin.Works? then s1
      else
        var l := WithHeader(s1.log, PlainHeaders(s.initial));
        s1.(failed := true, log := LogStep(LogStep(l, WriteHeader(500)), Write(PLAIN_500)))
  }

  function WriterStep(s: Writer, c: Call, fin: Finalise): Writer {
    match c
    case SetHeader(name, values) => s.(log := WithHeader(s.log, s.log.net.header[name := values]))
    case WriteHeader(status) =>
      var s1 := if IsFinal(status) then FinaliseOnce(s, fin) else s;
      if s1.failed then s1 else s1.(log := LogStep(s1.log, c))
    case _ =>
      var s1 := FinaliseOnce(s, fin);
      if s1.failed then s1 else s1.(log := LogStep(s1.log, c))
  }

  function Created(h: Headers): Writer {
    Writer(0, false, h, Log(0, false, Net(h, None, false, []), []))
  }

  /** The stack after a handler has made these calls. */
  function RunCalls(h: Headers, calls: seq<Call>, fin: Finalise): Writer {
    if calls == [] then Created(h)
    else WriterStep(RunCalls(h, calls[..|calls| - 1], fin), calls[|calls| - 1], fin)
  }

  /** After the handler returns, the session middleware makes sure finalise has run. */
  function Return(h: Headers, calls: seq<Call>, fin: Finalise): Writer {
    var s := FinaliseOnce(RunCalls(h, calls, fin), fin);
    s.(log := LogFinish(s.log))
  }

  // ---------------------------------------------------------------- finalise comes first

  predicate OnlyInformational(calls: seq<Call>) {
    forall c | c in calls :: c.WriteHeader? && c.status < 200 && c.status != 101
  }

  predicate OnlyInformationalEvents(wire: seq<Event>) {
    forall e | e in wire :: e.Informational?
  }

  /**
   Until finalise runs, the inner writer gets nothing but statuses that are not final. If finalise
   fails, it then gets one 500 with its body, and nothing after.
   */
  ghost predicate WriterOk(s: Writer, h: Headers, fin: Finalise) {
    && s.initial == h
    && s.finalised <= 1
    && (s.failed <==> s.finalised == 1 && fin == Fails)
    && (s.finalised == 0 ==> Untouched(s.log))
    && (s.failed ==> FailedLog(s.log, h))
  }

  /** No final status, body, flush or hijack has got through. */
  ghost predicate Untouched(l: Log) {
    && OnlyInformational(l.calls) && OnlyInformationalEvents(l.net.wire)
    && l.status == 0 && !l.hijacked && l.net.committed == None && !l.net.hijacked
  }

  /** After what informational responses there were, the 500 with the initial headers went out. */
  ghost predicate FailedLog(l: Log, h: Headers) {
    && l.status == 500 && !l.hijacked && l.net.committed == Some(500) && !l.net.hijacked
    && |l.calls| >= 2 && OnlyInformational(l.calls[..|l.calls| - 2])
    && l.calls[|l.calls| - 2..] == [WriteHeader(500), Write(PLAIN_500)]
    && |l.net.wire| >= 2 && OnlyInformationalEvents(l.net.wire[..|l.net.wire| - 2])
    && l.net.wire[|l.net.wire| - 2..] == [Final(500, PlainHeaders(h)), Body(PLAIN_500)]
  }

  lemma FinaliseOnceOk(s: Writer, h: Headers, fin: Finalise)
    requires WriterOk(s, h, fin)
    ensures WriterOk(FinaliseOnce(s, fin), h, fin) && FinaliseOnce(s, fin).finalised == 1
  {
    var l, l' := s.log, FinaliseOnce(s, fin).log;
    if s.finalised == 0 && fin.Fails? {
      assert l'.calls == l.calls + [WriteHeader(500), Write(PLAIN_500)];
      assert l'.calls[..|l'.calls| - 2] == l.calls;
      assert l'.net.wire == l.net.wire + [Final(500, PlainHeaders(h)), Body(PLAIN_500)];
      assert l'.net.wire[..|l'.net.wire| - 2] == l.net.wire;
    }
  }

  lemma {:induction false} RunCallsOk(h: Headers, calls: seq<Call>, fin: Finalise)
    ensures WriterOk(RunCalls(h, calls, fin), h, fin)
  {
    if calls != [] {
      var s := RunCalls(h, calls[..|calls| - 1], fin);
      RunCallsOk(h, calls[..|calls| - 1], fin);
      FinaliseOnceOk(s, h, fin);
    }
  }

  /**
   For every trace of calls of a handler that returns: finalise runs exactly once; at no earlier
   point of the trace has anything but informational statuses got through before it ran.
   */
  lemma FinaliseRunsOnceAndFirst(h: Headers, calls: seq<Call>, fin: Finalise, k: nat)
    requires k <= |calls|
    ensures Return(h, calls, fin).finalised == 1
    ensures RunCalls(h, calls[..k], fin).finalised == 0 ==> Untouched(RunCalls(h, calls[..k], fin).log)
  {
    RunCallsOk(h, calls, fin);
    RunCallsOk(h, calls[..k], fin);
  }

  /** If it fails, the client sees the earlier informational responses and then one 500, whatever else is called. */
  lemma FailureSendsOne500(h: Headers, calls: seq<Call>)
    ensures FailedLog(Return(h, calls, Fails).log, h)
  {
    RunCallsOk(h, calls, Fails);
    FinaliseOnceOk(RunCalls(h, calls, Fails), h, Fails);
  }

  // ---------------------------------------------------------------- which status is logged

  /** The call settles the response's status, or that it has none. */
  predicate Settles(c: Call) {
    match c
    case WriteHeader(status) => status == 101 || status >= 200
    case Write(_) => true
    case Flush => true
    case Hijack(allowed) => allowed
    case SetHeader(_, _) => false
  }

  function Settling(calls: seq<Call>): Option<Call> {
    if calls == [] then None
    else
      var before := Settling(calls[..|calls| - 1]);
      if before.Some? then before
      else if Settles(calls[|calls| - 1]) then Some(calls[|calls| - 1])
      else None
  }

  /** The first call to settle the status gives one that net/http has no three digits for. */
  predicate Overlong(calls: seq<Call>) {
    match Settling(calls)
    case Some(WriteHeader(status)) => status > 999
    case _ => false
  }

  /** The logged status is the one committed; none is logged when none is. */
  predicate Matches(l: Log) {
    l.net.committed == if l.status == 0 then None else Some(l.status)
  }

  /** The log writer once a call has settled the status, by that call. */
  ghost predicate SettledBy(l: Log, settling: Option<Call>) {
    match settling
    case None => l.status == 0 && !l.hijacked && !l.net.hijacked && l.net.committed == None
    case Some(Hijack(_)) => l.status == 0 && l.hijacked && l.net.hijacked && l.net.committed == None
    case Some(WriteHeader(status)) =>
      && l.hijacked == l.net.hijacked && l.status == status != 0
      && if status <= 999 then l.net.committed == Some(status)
         else l.net.committed.Some? ==> l.net.committed.value <= 999
    case Some(_) =>
      l.hijacked == l.net.hijacked && l.status == 200 && l.net.committed == Some(200)
  }

  lemma LogStepSettles(l: Log, c: Call, settling: Option<Call>)
    requires SettledBy(l, settling) && (settling.Some? ==> Settles(settling.value))
    requires !c.SetHeader?
    ensures SettledBy(LogStep(l, c), if settling.None? && Settles(c) then Some(c) else settling)
  {
  }

  /** What the handler's trace comes to, when finalise works. */
  lemma {:induction false} WorkingRunSettles(h: Headers, calls: seq<Call>, fin: Finalise)
    requires fin.Works?
    ensures Settling(calls).Some? ==> Settles(Settling(calls).value)
    ensures SettledBy(RunCalls(h, calls, fin).log, Settling(calls))
    ensures Settling(calls).Some? ==> RunCalls(h, calls, fin).finalised == 1
  {
    if calls != [] {
      var before, c := calls[..|calls| - 1], calls[|calls| - 1];
      var s := RunCalls(h, before, fin);
      WorkingRunSettles(h, before, fin);
      RunCallsOk(h, before, fin);
      if c.SetHeader? {
        assert SettledBy(WriterStep(s, c, fin).log, Settling(before));
      } else {
        var s1 := if c.WriteHeader? && !IsFinal(c.status) then s else FinaliseOnce(s, fin);
        assert SettledBy(s1.log, Settling(before));
        LogStepSettles(s1.log, c, Settling(before));
      }
    }
  }

  /**
   For every trace of a handler that returns, the logged status is the one really committed unless
   the first status it commits has more than three digits, and finalise worked. None is logged
   exactly when the handler hijacked the connection before committing one, and 500 is when finalise
   failed.
   */
  lemma LoggedStatusOfReturn(h: Headers, calls: seq<Call>, fin: Finalise)
    ensures var l := Return(h, calls, fin).log;
            && (Matches(l) <==> !(fin.Works? && Overlong(calls)))
            && (l.status == 0 <==> fin.Works? && Settling(calls).Some? && Settling(calls).value.Hijack?)
            && (fin.Fails? ==> l.status == 500 && l.net.committed == Some(500))
  {
    if fin.Works? {
      WorkingRunSettles(h, calls, fin);
    } else {
      FailureSendsOne500(h, calls);
    }
  }

  /** The same for a handler that panics, which logs no status when it panics before committing one too. */
  lemma LoggedStatusOfPanic(h: Headers, calls: seq<Call>, fin: Finalise)
    ensures var l := RunCalls(h, calls, fin).log;
            && (Matches(l) <==> !(fin.Works? && Overlong(calls)))
            && (fin.Works? ==> (l.status == 0 <==> Settling(calls).None? || Settling(calls).value.Hijack?))
            && (fin.Fails? ==> (l.status == 0 <==> RunCalls(h, calls, fin).finalised == 0))
  {
    RunCallsOk(h, calls, fin);
    if fin.Works? {
      WorkingRunSettles(h, calls, fin);
    }
  }

  /** So WriteHeader(1000) is logged though nothing is committed. */
  lemma OverlongIsLogged(h: Headers)
    ensures var l := RunCalls(h, [WriteHeader(1000)], Works(None)).log;
            l.status == 1000 && l.net.committed == None && !Matches(l)
  {
    assert RunCalls(h, [WriteHeader(1000)][..0], Works(None)) == Created(h);
  }

  /** The first call that commits a status sends it with the headers finalise leaves. */
  lemma CommittedWithFinalisedHeaders(h: Headers, calls: seq<Call>, fin: Finalise)
    requires fin.Works? && calls != []
    requires RunCalls(h, calls[..|calls| - 1], fin).finalised == 0
    requires var c := calls[|calls| - 1]; Settles(c) && !c.Hijack? && !Overlong([c])
    ensures var before := RunCalls(h, calls[..|calls| - 1], fin).log.net;
            var net := RunCalls(h, calls, fin).log.net;
            && net.committed.Some?
            && |before.wire| < |net.wire| && before.wire <= net.wire
            && net.wire[|before.wire|] == Final(net.committed.value, Added(before.header, fin))
  {
    RunCallsOk(h, calls[..|calls| - 1], fin);
    var c := calls[|calls| - 1];
    assert [c][..0] == [];
    assert Settling([c][..0]) == None;
  }
}
