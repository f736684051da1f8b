/** The response writers as objects that update their fields, proved against the steps in Writers.dfy. */
module WriterClasses {
  import opened Prelude
  import opened Writers

  /** net/http's writer; its own code is not part of this model, only what it does. */
  class NetWriter {
    var state: Net

    constructor (header: Headers)
      ensures state == Net(header, None, false, [])
    {
      state := Net(header, None, false, []);
    }

    method Do(c: Call)
      modifies this
      ensures state == NetStep(old(state), c)
    {
      state := NetStep(state, c);
    }
  }

  class RequestLogResponseWriter {
    const inner: NetWriter
    var status: int
    var hijacked: bool
    ghost var calls: seq<Call>

    constructor (inner: NetWriter)
      ensures this.inner == inner && State() == Log(0, false, inner.state, [])
    {
      this.inner := inner;
      status, hijacked, calls := 0, false, [];
    }

    ghost function State(): Log
      reads this, inner
    {
      Log(status, hijacked, inner.state, calls)
    }

    method SetStatus(status: int)
      modifies this
      ensures State() == Writers.SetStatus(old(State()), status)
    {
      if this.status == 0 && !hijacked {
        this.status := status;
      }
    }

    method WriteHeader(status: int)
      modifies this, inner
      ensures State() == LogStep(old(State()), Call.WriteHeader(status))
    {
      if status >= 200 || status == 101 {
        SetStatus(status);
      }
      inner.Do(Call.WriteHeader(status));
      calls := calls + [Call.WriteHeader(status)];
    }

    method Write(body: string)
      modifies this, inner
      ensures State() == LogStep(old(State()), Call.Write(body))
    {
      SetStatus(200);
      inner.Do(Call.Write(body));
      calls := calls + [Call.Write(body)];
    }

    method Flush()
      modifies this, inner
      ensures State() == LogStep(old(State()), Call.Flush)
    {
      SetStatus(200);
      inner.Do(Call.Flush);
      calls := calls + [Call.Flush];
    }

    method Hijack(allowed: bool) returns (ok: bool)
      modifies this, inner
      ensures State() == LogStep(old(State()), Call.Hijack(allowed))
      ensures ok <==> allowed && !old(inner.state.hijacked)
    {
      ok := allowed && !inner.state.hijacked;
      inner.Do(Call.Hijack(allowed));
      if ok {
        hijacked := true;
      }
      calls := calls + [Call.Hijack(allowed)];
    }

    /** The end of RequestLog for a handler that returned, and of net/http's response. */
    method Finish()
      modifies this, inner
      ensures State() == LogFinish(old(State()))
    {
      SetStatus(200);
      inner.state := NetFinish(inner.state);
    }
  }

  /** fin is what finalise does when it runs. */
  class SessionResponseWriter {
    const inner: RequestLogResponseWriter
    const initialHeader: Headers
    const fin: Finalise
    var once: bool
    var finaliseErr: bool
    ghost var runs: nat

    constructor (inner: RequestLogResponseWriter, fin: Finalise)
      ensures this.inner == inner && this.fin == fin
      ensures Valid() && State() == Writer(0, false, inner.inner.state.header, inner.State())
    {
      this.inner := inner;
      this.initialHeader := inner.inner.state.header;
      this.fin := fin;
      once, finaliseErr, runs := false, false, 0;
    }

    ghost predicate Valid()
      reads this
    {
      once <==> runs > 0
    }

    ghost function State(): Writer
      reads this, inner, inner.inner
    {
      Writer(runs, finaliseErr, initialHeader, inner.State())
    }

    /** Header: the handler changes the headers the inner writer holds. */
    method SetHeader(name: string, values: seq<string>)
      requires Valid()
      modifies inner.inner
      ensures Valid() && State() == WriterStep(old(State()), Call.SetHeader(name, values), fin)
    {
      var net := inner.inner;
      net.state := net.state.(header := net.state.header[name := values]);
    }

    method FinaliseOnce()
      requires Valid()
      modifies this, inner, inner.inner
      ensures Valid() && State() == Writers.FinaliseOnce(old(State()), fin)
    {
      if once {
        return;
      }
      once, runs := true, 1;
      var net := inner.inner;
      net.state := net.state.(header := Added(net.state.header, fin));
      if fin.Works? {
        return;
      }
      finaliseErr := true;
      net.state := net.state.(header := PlainHeaders(initialHeader));
      inner.WriteHeader(500);
      inner.Write(PLAIN_500);
    }

    method WriteHeader(status: int)
      requires Valid()
      modifies this, inner, inner.inner
      ensures Valid() && State() == WriterStep(old(State()), Call.WriteHeader(status), fin)
    {
      if status >= 200 || status == 101 {
        FinaliseOnce();
      }
      if finaliseErr {
        return;
      }
      inner.WriteHeader(status);
    }

    method Write(body: string) returns (failed: bool)
      requires Valid()
      modifies this, inner, inner.inner
      ensures Valid() && State() == WriterStep(old(State()), Call.Write(body), fin) && failed == finaliseErr
    {
      FinaliseOnce();
      failed := finaliseErr;
      if !failed {
        inner.Write(body);
      }
    }

    method Flush()
      requires Valid()
      modifies this, inner, inner.inner
      ensures Valid() && State() == WriterStep(old(State()), Call.Flush, fin)
    {
      FinaliseOnce();
      if finaliseErr {
        return;
      }
      inner.Flush();
    }

    method Hijack(allowed: bool) returns (ok: bool)
      requires Valid()
      modifies this, inner, inner.inner
      ensures Valid() && State() == WriterStep(old(State()), Call.Hijack(allowed), fin)
      ensures ok ==> !finaliseErr && inner.hijacked
    {
      FinaliseOnce();
      if finaliseErr {
        return false;
      }
      ok := inner.Hijack(allowed);
    }

    /** One use a handler makes of the writer. */
    method Take(c: Call)
      requires Valid()
      modifies this, inner, inner.inner
      ensures Valid() && State() == WriterStep(old(State()), c, fin)
    {
      match c
      case SetHeader(name, values) => SetHeader(name, values);
      case WriteHeader(status) => WriteHeader(status);
      case Write(body) => var _ := Write(body);
      case Flush => Flush();
      case Hijack(allowed) => var _ := Hijack(allowed);
    }
  }

  /**
   A request through both middlewares and back to the server, for a handler that makes these calls and
   returns: the writers end as Return says.
   */
  method Serve(h: Headers, calls: seq<Call>, fin: Finalise) returns (sw: SessionResponseWriter)
    ensures sw.Valid() && sw.State() == Return(h, calls, fin)
  {
    var net := new NetWriter(h);
    var log := new RequestLogResponseWriter(net);
    sw := new SessionResponseWriter(log, fin);
    for i := 0 to |calls|
      invariant sw.inner == log && log.inner == net && sw.fin == fin
      invariant fresh(sw) && fresh(log) && fresh(net)
      invariant sw.Valid() && sw.State() == RunCalls(h, calls[..i], fin)
    {
      sw.Take(calls[i]);
      assert calls[..i + 1][..i] == calls[..i];
    }
    assert calls[..|calls|] == calls;
    sw.FinaliseOnce();
    log.Finish();
  }
}
