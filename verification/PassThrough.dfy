/**
 What the writers leave alone (server/internal/middleware/session.go, requestlog.go): when finalise works, the
 handler's calls reach net/http's writer as made, and the response is the handler's but for finalise's headers.
 */
module PassThrough {
  import opened Prelude
  import opened Writers

  // ---------------------------------------------------------------- what finalise does to headers

  /** Cache-Control is replaced, the session cookie comes after the handler's, and no other header changes. */
  lemma AddedExactly(h: Headers, fin: Finalise, name: string)
    ensures Added(h, fin)["Cache-Control"] == ["no-store"]
    ensures name != "Cache-Control" ==>
              Values(Added(h, fin), name)
              == Values(h, name)
                 + if name == "Set-Cookie" && fin.Works? && fin.cookie.Some? then [fin.cookie.value] else []
  {
  }

  /** The 500 has the initial headers, but for the content type and its sniffing. */
  lemma PlainHeadersExactly(h: Headers, name: string)
    ensures Values(PlainHeaders(h), name)
            == if name == "Content-Type" then ["text/plain; charset=UTF-8"]
               else if name == "X-Content-Type-Options" then ["nosniff"]
               else Values(h, name)
  {
  }

  // ---------------------------------------------------------------- the calls

  /** The handler's calls but for its changes of headers. */
  function Uses(calls: seq<Call>): seq<Call> {
    if calls == [] then []
    else Uses(calls[..|calls| - 1]) + if calls[|calls| - 1].SetHeader? then [] else [calls[|calls| - 1]]
  }

  /** For every trace, the inner writer gets exactly the handler's calls, in order, when finalise works. */
  lemma {:induction false} CallsReachInner(h: Headers, calls: seq<Call>, cookie: Option<string>)
    ensures RunCalls(h, calls, Works(cookie)).log.calls == Uses(calls) == Return(h, calls, Works(cookie)).log.calls
  {
    RunCallsOk(h, calls, Works(cookie));
    if calls != [] {
      var front := calls[..|calls| - 1];
      CallsReachInner(h, front, cookie);
      RunCallsOk(h, front, Works(cookie));
    }
  }

  // ---------------------------------------------------------------- the response

  /** net/http's writer, used directly. */
  function NetRun(n: Net, calls: seq<Call>): Net {
    if calls == [] then n else NetStep(NetRun(n, calls[..|calls| - 1]), calls[|calls| - 1])
  }

  /** The calls before which finalise runs. */
  predicate Triggers(c: Call) {
    match c
    case SetHeader(_, _) => false
    case WriteHeader(status) => status == 101 || status >= 200
    case _ => true
  }

  predicate NoneTriggers(calls: seq<Call>) {
    forall c | c in calls :: !Triggers(c)
  }

  function NewNet(h: Headers): Net {
    Net(h, None, false, [])
  }

  /** The headers as finalise leaves them. */
  function Finalised(n: Net, fin: Finalise): Net {
    n.(header := Added(n.header, fin))
  }

  /** One call, when finalise works. */
  lemma StepReaches(s: Writer, c: Call, fin: Finalise)
    requires fin.Works? && !s.failed && s.finalised <= 1
    ensures var s' := WriterStep(s, c, fin);
            var runs := Triggers(c) && s.finalised == 0;
            && !s'.failed && s'.finalised == (if Triggers(c) then 1 else s.finalised)
            && s'.log.net == NetStep(if runs then Finalised(s.log.net, fin) else s.log.net, c)
  {
  }

  /** Finalise runs exactly when the handler makes a call that triggers it. */
  lemma {:induction false} FinalisedExactly(h: Headers, calls: seq<Call>, fin: Finalise)
    ensures RunCalls(h, calls, fin).finalised == if NoneTriggers(calls) then 0 else 1
  {
    if calls != [] {
      var front, c := calls[..|calls| - 1], calls[|calls| - 1];
      FinalisedExactly(h, front, fin);
      assert calls == front + [c];
      assert NoneTriggers(calls) <==> NoneTriggers(front) && !Triggers(c) by {
        assert c in calls && forall d :: d in calls <==> d in front || d == c;
      }
    }
  }

  lemma {:induction false} BeforeFinalise(h: Headers, before: seq<Call>, fin: Finalise)
    requires fin.Works? && NoneTriggers(before)
    ensures var s := RunCalls(h, before, fin);
            s.finalised == 0 && !s.failed && s.log.net == NetRun(NewNet(h), before)
  {
    if before != [] {
      var front, c := before[..|before| - 1], before[|before| - 1];
      assert c in before && forall d | d in front :: d in before;
      BeforeFinalise(h, front, fin);
      StepReaches(RunCalls(h, front, fin), c, fin);
    }
  }

  /**
   For every trace: the response is the one net/http's writer gives to the same calls, had finalise's headers
   been set just before the first call that commits, writes, flushes or hijacks.
   */
  lemma {:induction false} ResponseIsTheHandlers(
      h: Headers, before: seq<Call>, after: seq<Call>, cookie: Option<string>)
    requires NoneTriggers(before) && (after != [] ==> Triggers(after[0]))
    ensures var fin := Works(cookie);
            var s := RunCalls(h, before + after, fin);
            && !s.failed && s.finalised == (if after == [] then 0 else 1)
            && s.log.net == if after == [] then NetRun(NewNet(h), before)
                            else NetRun(Finalised(NetRun(NewNet(h), before), fin), after)
    decreases |after|
  {
    var fin, calls := Works(cookie), before + after;
    if after == [] {
      assert calls == before;
      BeforeFinalise(h, before, fin);
    } else {
      var front, c := after[..|after| - 1], after[|after| - 1];
      assert calls[..|calls| - 1] == before + front && calls[|calls| - 1] == c;
      ResponseIsTheHandlers(h, before, front, cookie);
      StepReaches(RunCalls(h, before + front, fin), c, fin);
      assert front == [] ==> c == after[0];
    }
  }

  /** The same once the handler has returned: finalise's headers are on the 200 of a response never written. */
  lemma ReturnedIsTheHandlers(h: Headers, before: seq<Call>, after: seq<Call>, cookie: Option<string>)
    requires NoneTriggers(before) && (after != [] ==> Triggers(after[0]))
    ensures var fin := Works(cookie);
            Return(h, before + after, fin).log.net
            == NetFinish(NetRun(Finalised(NetRun(NewNet(h), before), fin), after))
  {
    ResponseIsTheHandlers(h, before, after, cookie);
  }

  // ---------------------------------------------------------------- the body

  /** The bodies on the wire. */
  function Bodies(wire: seq<Event>): seq<string> {
    if wire == [] then []
    else Bodies(wire[..|wire| - 1]) + if wire[|wire| - 1].Body? then [wire[|wire| - 1].body] else []
  }

  /** The bodies the handler wrote before it took the connection over. */
  function Written(calls: seq<Call>): seq<string> {
    if calls == [] then []
    else
      var front, c := calls[..|calls| - 1], calls[|calls| - 1];
      Written(front) + if c.Write? && !TookOver(front) then [c.body] else []
  }

  predicate TookOver(calls: seq<Call>) {
    exists c | c in calls :: c.Hijack? && c.allowed
  }

  lemma BodiesAppend(wire: seq<Event>, e: Event)
    ensures Bodies(wire + [e]) == Bodies(wire) + if e.Body? then [e.body] else []
  {
    assert (wire + [e])[..|wire|] == wire;
  }

  lemma NetBodies(n: Net, c: Call)
    ensures Bodies(NetStep(n, c).wire) == Bodies(n.wire) + if c.Write? && !n.hijacked then [c.body] else []
    ensures NetStep(n, c).hijacked <==> n.hijacked || (c.Hijack? && c.allowed)
  {
    match c
    case SetHeader(_, _) =>
    case WriteHeader(status) => HeaderBodies(n, status);
    case Write(body) =>
      HeaderBodies(n, 200);
      BodiesAppend(NetWriteHeader(n, 200).wire, Body(body));
    case Flush =>
      HeaderBodies(n, 200);
      BodiesAppend(NetWriteHeader(n, 200).wire, Flushed);
    case Hijack(_) => BodiesAppend(n.wire, TakenOver);
  }

  lemma HeaderBodies(n: Net, status: int)
    ensures Bodies(NetWriteHeader(n, status).wire) == Bodies(n.wire)
  {
    BodiesAppend(n.wire, Informational(status, n.header));
    BodiesAppend(n.wire, Final(status, n.header));
  }

  lemma TookOverAppend(calls: seq<Call>, c: Call)
    ensures TookOver(calls + [c]) <==> TookOver(calls) || (c.Hijack? && c.allowed)
  {
    assert c in calls + [c] && forall d :: d in calls + [c] <==> d in calls || d == c;
  }

  lemma WrittenAppend(calls: seq<Call>, c: Call)
    ensures Written(calls + [c]) == Written(calls) + if c.Write? && !TookOver(calls) then [c.body] else []
  {
    assert (calls + [c])[..|calls|] == calls;
  }

  /** One call on net/http's writer, whatever headers it has. */
  lemma BodyReaches(n: Net, calls: seq<Call>, c: Call)
    requires n.hijacked == TookOver(calls) && Bodies(n.wire) == Written(calls)
    ensures var n' := NetStep(n, c);
            n'.hijacked == TookOver(calls + [c]) && Bodies(n'.wire) == Written(calls + [c])
  {
    NetBodies(n, c);
    TookOverAppend(calls, c);
    WrittenAppend(calls, c);
  }

  lemma {:induction false} BodySoFar(h: Headers, calls: seq<Call>, fin: Finalise)
    requires fin.Works?
    ensures var s := RunCalls(h, calls, fin);
            && !s.failed && s.finalised <= 1
            && s.log.net.hijacked == TookOver(calls) && Bodies(s.log.net.wire) == Written(calls)
  {
    if calls != [] {
      var front, c := calls[..|calls| - 1], calls[|calls| - 1];
      BodySoFar(h, front, fin);
      var s := RunCalls(h, front, fin);
      StepReaches(s, c, fin);
      BodyReaches(if Triggers(c) && s.finalised == 0 then Finalised(s.log.net, fin) else s.log.net, front, c);
      assert calls == front + [c];
    }
  }

  /** For every trace of a handler that returns, the body sent is what it wrote, up to a hijack, when finalise works. */
  lemma BodyIsTheHandlers(h: Headers, calls: seq<Call>, cookie: Option<string>)
    ensures Bodies(Return(h, calls, Works(cookie)).log.net.wire) == Written(calls)
  {
    BodySoFar(h, calls, Works(cookie));
    HeaderBodies(FinaliseOnce(RunCalls(h, calls, Works(cookie)), Works(cookie)).log.net, 200);
  }
}
