/**
 * The response-writer spies of package httpspy: SimpleSpy records whether a
 * handler wrote bytes and which status it set, SimpleWriteSpy also keeps the
 * bytes written and the first transfer error. Each spy keeps a ghost record of
 * the calls made on it; Valid() ties its fields, and the log of its wrapped
 * writer, to the Status and Body specifications of that record.
 */
module HttpSpy {
  import opened Wrappers
  import opened ResponseWriter
  import Status
  import opened Body

  class SimpleSpy {
    const w: Recorder
    var written: bool
    var code: int
    /** The calls made on this spy, in order. */
    ghost var calls: seq<Status.Call>
    /** The calls this spy passed on to the wrapped writer, in order. */
    ghost var sent: seq<Event>

    ghost predicate Valid()
      reads this
    {
      Status.State(written, code) == Status.Apply(Status.Fresh, calls)
      && sent == Status.Forwarded(Status.Fresh, calls)
    }

    /** NewSpy: nothing written, no code recorded, so Code() is zero. */
    constructor (w: Recorder)
      ensures Valid() && this.w == w
      ensures !written && code == 0 && calls == [] && sent == []
      ensures Code() == 0
    {
      this.w := w;
      written := false;
      code := 0;
      calls := [];
      sent := [];
    }

    /** Marks the response as written and forwards p, returning the writer's answer verbatim. */
    method Write(p: seq<byte>) returns (n: nat, err: Option<WriteError>)
      requires Valid()
      modifies this, w
      ensures Valid() && calls == old(calls) + [Status.Write(p)]
      ensures sent == old(sent) + [BytesSent(p)]
      ensures written && code == old(code)
      ensures (n, err) == Outcome(old(w.replies), p)
      ensures w.log == old(w.log) + [BytesSent(p)]
      ensures w.replies == (if old(w.replies) == [] then [] else old(w.replies)[1..])
      ensures w.header == old(w.header)
    {
      written := true;
      n, err := w.Write(p);
      Status.ApplySnoc(Status.Fresh, calls, Status.Write(p));
      calls := calls + [Status.Write(p)];
      sent := sent + [BytesSent(p)];
    }

    /** The wrapped writer's header map, unchanged. */
    function Header(): (h: Header)
      reads this, w
      ensures h == w.header
    {
      w.header
    }

    /**
     * Records and forwards code while no code is recorded and nothing was
     * written; otherwise changes nothing and forwards nothing.
     */
    method WriteHeader(c: int)
      requires Valid()
      modifies this, w
      ensures Valid() && calls == old(calls) + [Status.WriteHeader(c)]
      ensures written == old(written)
      ensures old(code == 0 && !written) ==>
        code == c && w.log == old(w.log) + [HeaderSent(c)] && sent == old(sent) + [HeaderSent(c)]
      ensures !old(code == 0 && !written) ==>
        code == old(code) && w.log == old(w.log) && sent == old(sent)
      ensures w.replies == old(w.replies) && w.header == old(w.header)
    {
      Status.ApplySnoc(Status.Fresh, calls, Status.WriteHeader(c));
      if code == 0 && !written {
        code := c;
        w.WriteHeader(c);
        sent := sent + [HeaderSent(c)];
      }
      calls := calls + [Status.WriteHeader(c)];
    }

    /**
     * The status of the response: decided by the first Write (200) or nonzero
     * WriteHeader made on the spy, zero if neither happened, and the same
     * status the wrapped writer was sent.
     */
    function Code(): (r: int)
      reads this
      requires Valid()
      ensures r == Status.StatusSeen(Status.Requested(calls))
      ensures r == Status.StatusSeen(sent)
    {
      Status.FirstDecisionWins(Status.Fresh, calls);
      Status.WriterAgrees(Status.Fresh, calls);
      if code == 0 && written then Status.StatusOK else code
    }
  }

  class SimpleWriteSpy {
    const inner: SimpleSpy
    var buf: seq<byte>
    var err: Option<WriteError>
    /** The writes made through this spy, with the writer's answers. */
    ghost var exchanges: seq<Exchange>

    ghost predicate Valid()
      reads this, inner
    {
      inner.Valid()
      && Status.Writes(inner.calls) == Payloads(exchanges)
      && WellFormed(exchanges)
      && buf == Accepted(exchanges)
      && err == FirstErr(exchanges)
    }

    /** NewWriteSpy: a fresh SimpleSpy around w, an empty buffer and no error. */
    constructor (w: Recorder)
      ensures Valid() && fresh(inner) && inner.w == w
      ensures inner.calls == [] && inner.sent == []
      ensures exchanges == [] && buf == [] && err == None
      ensures Code() == 0
    {
      inner := new SimpleSpy(w);
      buf := [];
      err := None;
      exchanges := [];
    }

    /**
     * Writes through the inner spy, appends the accepted prefix p[:n] to the
     * buffer and keeps the error only if none was kept before.
     */
    method Write(p: seq<byte>) returns (n: nat, e: Option<WriteError>)
      requires Valid()
      modifies this, inner, inner.w
      ensures Valid() && exchanges == old(exchanges) + [Exchange(p, n, e)]
      ensures inner.calls == old(inner.calls) + [Status.Write(p)]
      ensures inner.sent == old(inner.sent) + [BytesSent(p)]
      ensures inner.written && inner.code == old(inner.code)
      ensures (n, e) == Outcome(old(inner.w.replies), p)
      ensures buf == old(buf) + p[..n]
      ensures err == (if old(err).None? then e else old(err))
      ensures inner.w.log == old(inner.w.log) + [BytesSent(p)]
      ensures inner.w.replies == (if old(inner.w.replies) == [] then [] else old(inner.w.replies)[1..])
      ensures inner.w.header == old(inner.w.header)
    {
      n, e := inner.Write(p);
      if n > 0 {
        buf := buf + p[..n];
      }
      if e.Some? && err.None? {
        err := e;
      }
      ExchangeSnoc(exchanges, Exchange(p, n, e));
      Status.WritesSnoc(old(inner.calls), Status.Write(p));
      exchanges := exchanges + [Exchange(p, n, e)];
    }

    /** Delegates to the inner spy; the buffer and the error are untouched. */
    method WriteHeader(c: int)
      requires Valid()
      modifies inner, inner.w
      ensures Valid() && inner.calls == old(inner.calls) + [Status.WriteHeader(c)]
      ensures inner.written == old(inner.written)
      ensures old(inner.code == 0 && !inner.written) ==>
        inner.code == c && inner.w.log == old(inner.w.log) + [HeaderSent(c)] &&
        inner.sent == old(inner.sent) + [HeaderSent(c)]
      ensures !old(inner.code == 0 && !inner.written) ==>
        inner.code == old(inner.code) && inner.w.log == old(inner.w.log) && inner.sent == old(inner.sent)
      ensures inner.w.replies == old(inner.w.replies) && inner.w.header == old(inner.w.header)
    {
      inner.WriteHeader(c);
      Status.WritesSnoc(old(inner.calls), Status.WriteHeader(c));
    }

    /** The wrapped writer's header map, unchanged. */
    function Header(): (h: Header)
      reads this, inner, inner.w
      ensures h == inner.w.header
    {
      inner.Header()
    }

    /** The status of the response, as the inner spy decides it. */
    function Code(): (r: int)
      reads this, inner
      requires Valid()
      ensures r == Status.StatusSeen(Status.Requested(inner.calls))
      ensures r == Status.StatusSeen(inner.sent)
    {
      inner.Code()
    }

    /** The accepted prefix of every write, in call order. */
    function Body(): (b: seq<byte>)
      reads this, inner
      requires Valid()
      ensures b == Accepted(exchanges)
      ensures |b| == TotalCount(exchanges)
    {
      buf
    }

    /** The first error a write returned, or None if none failed. */
    function WriteErr(): (e: Option<WriteError>)
      reads this, inner
      requires Valid()
      ensures e.None? <==> forall i :: 0 <= i < |exchanges| ==> exchanges[i].err.None?
      ensures e.Some? ==>
        exists k :: 0 <= k < |exchanges| && exchanges[k].err == e &&
          forall i :: 0 <= i < k ==> exchanges[i].err.None?
    {
      FirstErrIsFirst(exchanges);
      err
    }
  }
}
