/**
 The session cookie on its way from finalise's response to the client
 (server/internal/middleware/session.go): what the session commit settles is what the writers send.
 */
module ResponseCookies {
  import opened Prelude
  import opened Writers
  import SessionModel

  const SET_COOKIE := "Set-Cookie"

  /** What finalise does to the writer, for the response it settles; text gives a cookie's header value. */
  function FinaliseOf(response: SessionModel.Response, text: SessionModel.Cookie -> string): Finalise {
    if response.failed then Fails
    else Works(if response.cookie.Some? then Some(text(response.cookie.value)) else None)
  }

  function CookiesOf(fin: Finalise): seq<string> {
    if fin.Works? && fin.cookie.Some? then [fin.cookie.value] else []
  }

  /** The handler sets no cookie of its own. */
  predicate SetsNoCookie(calls: seq<Call>) {
    forall c | c in calls && c.SetHeader? :: c.name != SET_COOKIE
  }

  ghost predicate FinalsCarry(wire: seq<Event>, cookies: seq<string>) {
    forall e | e in wire && e.Final? :: Values(e.headers, SET_COOKIE) == cookies
  }

  /** A committed status was sent. */
  ghost predicate CommittedSent(n: Net) {
    n.committed.Some? ==> exists e | e in n.wire :: e.Final? && e.status == n.committed.value
  }

  /** The headers to be sent have these cookies, and so has what was sent. */
  ghost predicate Carries(n: Net, cookies: seq<string>) {
    Values(n.header, SET_COOKIE) == cookies && FinalsCarry(n.wire, cookies) && CommittedSent(n)
  }

  lemma HeaderCarries(n: Net, status: int, cookies: seq<string>)
    requires Carries(n, cookies)
    ensures Carries(NetWriteHeader(n, status), cookies)
  {
    var n' := NetWriteHeader(n, status);
    assert forall e | e in n.wire :: e in n'.wire;
    if n'.committed != n.committed {
      assert n'.wire[|n.wire|] == Final(status, n.header);
    }
  }

  lemma StepCarries(n: Net, c: Call, cookies: seq<string>)
    requires Carries(n, cookies) && SetsNoCookie([c])
    ensures Carries(NetStep(n, c), cookies)
  {
    assert c in [c];
    match c
    case WriteHeader(status) => HeaderCarries(n, status, cookies);
    case Write(body) =>
      HeaderCarries(n, 200, cookies);
      EventCarries(NetWriteHeader(n, 200), Body(body), cookies);
    case Flush =>
      HeaderCarries(n, 200, cookies);
      EventCarries(NetWriteHeader(n, 200), Flushed, cookies);
    case Hijack(_) => EventCarries(n, TakenOver, cookies);
    case SetHeader(_, _) =>
  }

  lemma EventCarries(n: Net, event: Event, cookies: seq<string>)
    requires Carries(n, cookies) && !event.Final?
    ensures Carries(n.(wire := n.wire + [event]), cookies)
    ensures Carries(n.(hijacked := true, wire := n.wire + [event]), cookies)
  {
    assert forall e | e in n.wire :: e in n.wire + [event];
  }

  /** Before finalise the handler's headers have the initial cookies; after it, its own besides. */
  ghost predicate CookieOk(s: Writer, h: Headers, fin: Finalise) {
    && s.initial == h && s.finalised <= 1
    && (s.failed <==> s.finalised == 1 && fin == Fails)
    && Carries(s.log.net, Values(h, SET_COOKIE) + if s.finalised == 1 then CookiesOf(fin) else [])
    && (s.finalised == 0 ==> OnlyInformationalEvents(s.log.net.wire) && s.log.net.committed == None)
  }

  lemma FinaliseCarries(s: Writer, h: Headers, fin: Finalise)
    requires CookieOk(s, h, fin)
    ensures CookieOk(FinaliseOnce(s, fin), h, fin) && FinaliseOnce(s, fin).finalised == 1
  {
    if s.finalised == 0 && fin.Fails? {
      var cookies := Values(h, SET_COOKIE);
      var n := s.log.net.(header := PlainHeaders(h));
      assert SetsNoCookie([WriteHeader(500)]) && SetsNoCookie([Write(PLAIN_500)]);
      assert cookies + [] == cookies;
      assert Carries(n, cookies);
      StepCarries(n, WriteHeader(500), cookies);
      StepCarries(NetStep(n, WriteHeader(500)), Write(PLAIN_500), cookies);
    }
  }

  lemma WriterCarries(s: Writer, c: Call, h: Headers, fin: Finalise)
    requires CookieOk(s, h, fin) && SetsNoCookie([c])
    ensures CookieOk(WriterStep(s, c, fin), h, fin)
  {
    var finalises := !c.SetHeader? && (c.WriteHeader? ==> IsFinal(c.status));
    var s1 := if finalises then FinaliseOnce(s, fin) else s;
    FinaliseCarries(s, h, fin);
    StepCarries(s1.log.net, c, Values(h, SET_COOKIE) + if s1.finalised == 1 then CookiesOf(fin) else []);
  }

  lemma {:induction false} RunCarries(h: Headers, calls: seq<Call>, fin: Finalise)
    requires SetsNoCookie(calls)
    ensures CookieOk(RunCalls(h, calls, fin), h, fin)
  {
    if calls != [] {
      var front, c := calls[..|calls| - 1], calls[|calls| - 1];
      assert calls == front + [c];
      RunCarries(h, front, fin);
      WriterCarries(RunCalls(h, front, fin), c, h, fin);
    }
  }

  /**
   For every trace of a handler that sets no cookie itself: every response sent has the cookies the writer
   was created with, followed by the session cookie exactly when the commit settled on a response that
   carries one. A committed status was sent with them.
   */
  lemma ResponseCarriesCookie(
      h: Headers, calls: seq<Call>, response: SessionModel.Response, text: SessionModel.Cookie -> string)
    requires SetsNoCookie(calls)
    ensures var net := Return(h, calls, FinaliseOf(response, text)).log.net;
            && FinalsCarry(net.wire, Values(h, SET_COOKIE)
                                     + if !response.failed && response.cookie.Some?
                                       then [text(response.cookie.value)] else [])
            && CommittedSent(net)
  {
    var fin := FinaliseOf(response, text);
    RunCarries(h, calls, fin);
    FinaliseCarries(RunCalls(h, calls, fin), h, fin);
    HeaderCarries(FinaliseOnce(RunCalls(h, calls, fin), fin).log.net, 200, Values(h, SET_COOKIE) + CookiesOf(fin));
  }
}
