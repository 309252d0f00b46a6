/** handler.go: the closure that `Handler` returns.  It wraps the real writer
    in an interceptor, lets the downstream handler run against it, and then
    takes exactly one of three ends: nothing more (the writer was already
    passing through), 304 Not Modified, or the validator header, the pending
    status and the buffered body, in that order.

    etag.go is an earlier revision of the same closure that differs only in
    the derived validator: bare hex instead of hex in double quotes.  Both are
    modelled here, selected by `Revision`. */
module Handler {
  import opened Http
  import opened Interception
  import Hex
  import Writer

  /** A SHA-1 sum: 20 bytes. */
  type Digest = d: seq<byte> | |d| == 20 witness seq(20, i => 0 as byte)

  /** Quoted: handler.go; Unquoted: etag.go. */
  datatype Revision = Quoted | Unquoted

  /** The validator derived from the hash of the body. */
  function DerivedEtag(rev: Revision, d: seq<byte>): (e: string)
    ensures rev.Quoted? ==>
      |e| == 2 * |d| + 2 && e[0] == '"' && e[|e| - 1] == '"' && Hex.Decode(e[1..|e| - 1]) == Some(d)
    ensures rev.Unquoted? ==> |e| == 2 * |d| && '"' !in e && Hex.Decode(e) == Some(d)
  {
    Hex.DecodeEncode(d);
    var hex := Hex.Encode(d);
    if rev.Quoted? then
      var e := "\"" + hex + "\"";
      assert e[1..|e| - 1] == hex;
      e
    else
      assert forall i :: 0 <= i < |hex| ==> hex[i] != '"';
      hex
  }

  /** `statusSuccess`: no status was set (an implicit 200), or a 2xx one. */
  predicate StatusSuccess(status: int)
  {
    status == 0 || (200 <= status < 300)
  }

  predicate IsGetOrHead(verb: string)
  {
    verb == "HEAD" || verb == "GET"
  }

  /** The validator the closure compares: the handler's own Etag header when
      it set a non-empty one, else the derived one. */
  function Validator(rev: Revision, s: State, sum: seq<byte> -> Digest): string
  {
    var given := s.out.Get(EtagKey);
    if given != "" then given else DerivedEtag(rev, sum(s.hashed))
  }

  /** The one way a request ends.  `Full.etag` is the derived validator to
      announce, None when the handler set its own. */
  datatype Outcome =
    | AlreadyStreamed
    | NotModified
    | Full(etag: Option<string>, status: int, body: seq<byte>)

  /** The closure's decision once the downstream handler has returned. */
  function Decide(rev: Revision, s: State, req: Request, sum: seq<byte> -> Digest): (o: Outcome)
    ensures o.AlreadyStreamed? <==> s.disabled
    ensures o.NotModified? ==> IsGetOrHead(req.verb) && req.ifNoneMatch == Validator(rev, s, sum)
    ensures o.Full? ==> o.body == s.buf && o.status == s.status
  {
    if s.disabled then AlreadyStreamed
    else
      var etagSet := s.out.Get(EtagKey) != "";
      var etag := Validator(rev, s, sum);
      var v := req.ifNoneMatch;
      if v != "" && StatusSuccess(s.status) && IsGetOrHead(req.verb) && etag == v then NotModified
      else Full(if etagSet then None else Some(etag), s.status, s.buf)
  }

  /** Ranks the kinds of event the final emission may send, in the order it
      sends them. */
  function Rank(e: Event): int
  {
    match e
    case HeaderSet(_, _) => 0
    case StatusSent(_) => 1
    case BodySent(_) => 2
    case Flushed => 3
  }

  /** The events the closure sends to the real writer for an outcome, in
      order. */
  function Emission(o: Outcome): seq<Event>
  {
    match o
    case AlreadyStreamed => []
    case NotModified => [StatusSent(304)]
    case Full(etag, status, body) =>
      (if etag.Some? then [HeaderSet(EtagKey, etag.value)] else [])
      + (if status != 0 then [StatusSent(status)] else [])
      + (if |body| > 0 then [BodySent(body)] else [])
  }

  /** The closure's calls on the real writer for an outcome: `w.Header().Set`
      (with the key spelled "etag", which canonicalises to `EtagKey`),
      `w.WriteHeader` and `w.Write`, each only when needed. */
  function Commit(w: ResponseWriter, o: Outcome): (r: ResponseWriter)
    ensures r.log == w.log + Emission(o) && r.canFlush == w.canFlush
    ensures r.header == if o.Full? && o.etag.Some? then w.header[EtagKey := o.etag.value] else w.header
  {
    match o
    case AlreadyStreamed => w
    case NotModified => w.WriteHeader(304)
    case Full(etag, status, body) =>
      EtagKeyCanonical();
      var e1: seq<Event> := if etag.Some? then [HeaderSet(EtagKey, etag.value)] else [];
      var e2: seq<Event> := if status != 0 then [StatusSent(status)] else [];
      var e3: seq<Event> := if |body| > 0 then [BodySent(body)] else [];
      var w1 := if etag.Some? then w.Set("etag", etag.value) else w;
      assert w1.log == w.log + e1;
      var w2 := if status != 0 then w1.WriteHeader(status) else w1;
      assert w2.log == w.log + e1 + e2;
      var w3 := if |body| > 0 then w2.Write(body) else w2;
      assert w3.log == w.log + (e1 + e2 + e3);
      w3
  }

  /** A full emission sends at most one header, then at most one status, then
      at most one body write, and never a status 0 or an empty write. */
  lemma EmissionOrdered(o: Outcome)
    requires o.Full?
    ensures var e := Emission(o);
      |e| <= 3
      && (forall i, j :: 0 <= i < j < |e| ==> Rank(e[i]) < Rank(e[j]))
      && (forall i :: 0 <= i < |e| ==> e[i] != Flushed && e[i] != StatusSent(0) && e[i] != BodySent([]))
  {
    var hs: seq<Event> := if o.etag.Some? then [HeaderSet(EtagKey, o.etag.value)] else [];
    var e := Emission(o);
    if o.status != 0 {
      if |o.body| > 0 {
        assert e == hs + [StatusSent(o.status), BodySent(o.body)];
      } else {
        assert e == hs + [StatusSent(o.status)];
      }
    } else {
      if |o.body| > 0 {
        assert e == hs + [BodySent(o.body)];
      } else {
        assert e == hs;
      }
    }
  }

  /** The body bytes of a full emission are exactly its buffer, and its only
      status line is the pending status, when one was set. */
  lemma EmissionCarries(o: Outcome)
    requires o.Full?
    ensures Body(Emission(o)) == o.body
    ensures Statuses(Emission(o)) == if o.status != 0 then [o.status] else []
  {
    var h: seq<Event> := if o.etag.Some? then [HeaderSet(EtagKey, o.etag.value)] else [];
    var st: seq<Event> := if o.status != 0 then [StatusSent(o.status)] else [];
    var b: seq<Event> := if |o.body| > 0 then [BodySent(o.body)] else [];
    assert Emission(o) == h + st + b;
    EmissionBody(h, st, b, o.body);
    EmissionStatuses(h, st, b, o.status);
  }

  lemma EmissionBody(h: seq<Event>, st: seq<Event>, b: seq<Event>, body: seq<byte>)
    requires Body(h) == [] && Body(st) == []
    requires b == if |body| > 0 then [BodySent(body)] else []
    ensures Body(h + st + b) == body
  {
    BodyAppend(h + st, b);
    BodyAppend(h, st);
    if |body| > 0 {
      Snoc([], BodySent(body));
    }
  }

  lemma EmissionStatuses(h: seq<Event>, st: seq<Event>, b: seq<Event>, status: int)
    requires Statuses(h) == [] && Statuses(b) == []
    requires st == if status != 0 then [StatusSent(status)] else []
    ensures Statuses(h + st + b) == if status != 0 then [status] else []
  {
    StatusesAppend(h + st, b);
    StatusesAppend(h, st);
    if status != 0 {
      Snoc([], StatusSent(status));
    }
  }

  /** The whole request: the downstream handler makes the calls `h` on the
      interceptor, then the closure commits its decision. */
  function Response(rev: Revision, w: ResponseWriter, req: Request, h: seq<Call>, sum: seq<byte> -> Digest): ResponseWriter
  {
    var s := Run(Start(w), h);
    Commit(s.out, Decide(rev, s, req, sum))
  }

  /** The closure returned by `Handler`, run once: build the interceptor
      around `w`, replay the downstream handler's calls on it, then decide. */
  method Serve(rev: Revision, w: ResponseWriter, req: Request, h: seq<Call>, sum: seq<byte> -> Digest)
    returns (res: ResponseWriter)
    ensures res == Response(rev, w, req, h, sum)
  {
    var bufw := new Writer.Interceptor(w);
    var i := 0;
    while i < |h|
      invariant 0 <= i <= |h|
      invariant bufw.Valid() && bufw.origin == w && bufw.calls == h[..i]
    {
      match h[i] {
        case Write(b) =>
          var _ := bufw.Write(b);
        case WriteHeader(code) =>
          bufw.WriteHeader(code);
        case SetHeader(k, v) =>
          bufw.SetHeader(k, v);
        case Flush =>
          bufw.Flush();
        case Disable =>
          bufw.Disable();
      }
      assert h[..i + 1] == h[..i] + [h[i]];
      i := i + 1;
    }
    assert h[..i] == h;

    if bufw.disabled {
      return bufw.out;
    }

    var etag := bufw.out.Get(EtagKey);
    var etagSet := etag != "";
    var statusSuccess := StatusSuccess(bufw.status);
    if !etagSet {
      etag := DerivedEtag(rev, sum(bufw.hashed));
    }

    var v := req.ifNoneMatch;
    if v != "" && statusSuccess && IsGetOrHead(req.verb) && etag == v {
      return bufw.out.WriteHeader(304);
    }

    res := bufw.out;
    if !etagSet {
      res := res.Set("etag", etag);
    }
    if bufw.status != 0 {
      res := res.WriteHeader(bufw.status);
    }
    if |bufw.buf| > 0 {
      res := res.Write(bufw.buf);
    }
  }

  /** A writer that was disabled when the downstream handler returned gets
      nothing further from the closure. */
  lemma StreamedRequestEndsQuietly(rev: Revision, w: ResponseWriter, req: Request, h: seq<Call>, sum: seq<byte> -> Digest)
    requires Run(Start(w), h).disabled
    ensures Response(rev, w, req, h, sum) == Run(Start(w), h).out
  {
  }

  /** The validator of a request that was still buffering: the handler's own
      non-empty Etag header verbatim, or else the one derived from the hash of
      exactly the bytes the handler wrote. */
  lemma {:induction false} ValidatorIsContentHash(rev: Revision, w: ResponseWriter, h: seq<Call>, sum: seq<byte> -> Digest)
    requires !Run(Start(w), h).disabled
    ensures var s := Run(Start(w), h);
      Validator(rev, s, sum)
      == if s.out.Get(EtagKey) != "" then s.out.Get(EtagKey) else DerivedEtag(rev, sum(Written(h)))
  {
    DeliversEverything(w, h);
    HashMirrorsBuffer(Start(w), h);
  }

  /** 304 is sent exactly when the writer was still buffering, an
      If-None-Match token is present, the last status the handler set is 0 or
      2xx, the method is GET or HEAD, and the token equals the validator. */
  lemma {:induction false} NotModifiedExactly(rev: Revision, w: ResponseWriter, req: Request, h: seq<Call>, sum: seq<byte> -> Digest)
    ensures var s := Run(Start(w), h);
      Decide(rev, s, req, sum).NotModified?
      <==> !s.disabled && req.ifNoneMatch != "" && StatusSuccess(LastStatus(h)) && IsGetOrHead(req.verb)
           && req.ifNoneMatch == (if s.out.Get(EtagKey) != "" then s.out.Get(EtagKey)
                                  else DerivedEtag(rev, sum(Written(h))))
  {
    DeliversEverything(w, h);
    if !Run(Start(w), h).disabled {
      ValidatorIsContentHash(rev, w, h, sum);
    }
  }

  /** A 304 carries nothing else: no validator header, no pending status and
      no body reach the real writer, whose body and status lines are still
      those it had before the request was wrapped, plus the 304. */
  lemma {:induction false} NotModifiedSendsOnly304(rev: Revision, w: ResponseWriter, req: Request, h: seq<Call>, sum: seq<byte> -> Digest)
    requires Decide(rev, Run(Start(w), h), req, sum).NotModified?
    ensures var s, r := Run(Start(w), h), Response(rev, w, req, h, sum);
      r.log == s.out.log + [StatusSent(304)] && r.header == s.out.header
      && Body(r.log) == Body(w.log) && Statuses(r.log) == Statuses(w.log) + [304]
  {
    var s := Run(Start(w), h);
    DeliversEverything(w, h);
    Snoc(s.out.log, StatusSent(304));
  }

  /** Whenever the answer is not 304, the real writer's body grows by exactly
      the bytes the handler wrote, in order, once: whether they went through
      passthrough, a dump on disable or flush, or the final emission. */
  lemma {:induction false} BodyDeliveredUnlessNotModified(rev: Revision, w: ResponseWriter, req: Request, h: seq<Call>, sum: seq<byte> -> Digest)
    requires !Decide(rev, Run(Start(w), h), req, sum).NotModified?
    ensures Body(Response(rev, w, req, h, sum).log) == Body(w.log) + Written(h)
  {
    var s := Run(Start(w), h);
    var o := Decide(rev, s, req, sum);
    DeliversEverything(w, h);
    if o.Full? {
      EmissionCarries(o);
      BodyAppend(s.out.log, Emission(o));
    }
  }

  /** On the full path, the pending status (when one was set) is the only
      status line added; `EmissionOrdered` places it before the body. */
  lemma {:induction false} PendingStatusSentOnFullPath(rev: Revision, w: ResponseWriter, req: Request, h: seq<Call>, sum: seq<byte> -> Digest)
    requires Decide(rev, Run(Start(w), h), req, sum).Full?
    ensures var r := Response(rev, w, req, h, sum);
      Statuses(r.log) == Statuses(w.log) + (if LastStatus(h) != 0 then [LastStatus(h)] else [])
  {
    var s := Run(Start(w), h);
    var o := Decide(rev, s, req, sum);
    DeliversEverything(w, h);
    EmissionCarries(o);
    StatusesAppend(s.out.log, Emission(o));
  }

  /** Without a handler-set validator, a full response announces the one
      derived from the hash of the body it carries. */
  lemma {:induction false} DerivedEtagAnnounced(rev: Revision, w: ResponseWriter, req: Request, h: seq<Call>, sum: seq<byte> -> Digest)
    requires Decide(rev, Run(Start(w), h), req, sum).Full?
    requires Run(Start(w), h).out.Get(EtagKey) == ""
    ensures Response(rev, w, req, h, sum).Get(EtagKey) == DerivedEtag(rev, sum(Written(h)))
  {
    EtagKeyCanonical();
    ValidatorIsContentHash(rev, w, h, sum);
  }

  /** A handler-set validator is used verbatim and never overwritten: the
      header map is left as the handler left it and no header event is sent. */
  lemma {:induction false} ExplicitEtagWins(rev: Revision, w: ResponseWriter, req: Request, h: seq<Call>, sum: seq<byte> -> Digest)
    requires !Run(Start(w), h).disabled && Run(Start(w), h).out.Get(EtagKey) != ""
    ensures var s, r := Run(Start(w), h), Response(rev, w, req, h, sum);
      Validator(rev, s, sum) == s.out.Get(EtagKey)
      && r.header == s.out.header
      && forall i :: |s.out.log| <= i < |r.log| ==> !r.log[i].HeaderSet?
  {
  }

  /** Methods other than GET and HEAD are never answered 304, even when the
      token matches; their full body is always delivered. */
  lemma {:induction false} OnlyGetOrHeadRevalidate(rev: Revision, w: ResponseWriter, req: Request, h: seq<Call>, sum: seq<byte> -> Digest)
    requires !IsGetOrHead(req.verb)
    ensures !Decide(rev, Run(Start(w), h), req, sum).NotModified?
    ensures Body(Response(rev, w, req, h, sum).log) == Body(w.log) + Written(h)
  {
    BodyDeliveredUnlessNotModified(rev, w, req, h, sum);
  }

  /** The derived validator of handler.go: 42 characters, the 40 hex digits
      of the digest between double quotes. */
  lemma QuotedEtagShape(d: Digest)
    ensures var e := DerivedEtag(Quoted, d);
      |e| == 42 && e[0] == '"' && e[41] == '"' && e[1..41] == Hex.Encode(d)
  {
  }

  /** A handler that only writes "hello" on a fresh writer gets the derived
      validator, then the body; a GET that presents that validator gets a
      lone 304. */
  lemma {:induction false} HelloScenario(rev: Revision, w: ResponseWriter, sum: seq<byte> -> Digest)
    requires w.log == [] && w.header == map[]
    ensures var hello: seq<byte> := [104, 101, 108, 108, 111];
      var e := DerivedEtag(rev, sum(hello));
      Response(rev, w, Request("GET", ""), [Call.Write(hello)], sum).log
        == [HeaderSet(EtagKey, e), BodySent(hello)]
      && Response(rev, w, Request("GET", e), [Call.Write(hello)], sum).log == [StatusSent(304)]
  {
    var hello: seq<byte> := [104, 101, 108, 108, 111];
    RunSnoc(Start(w), [], Call.Write(hello));
    var s := Run(Start(w), [Call.Write(hello)]);
    assert s == State(w, hello, hello, 0, false);
    assert s.out.Get(EtagKey) == "";
    var e := DerivedEtag(rev, sum(hello));
    assert Decide(rev, s, Request("GET", ""), sum) == Full(Some(e), 0, hello);
    assert Decide(rev, s, Request("GET", e), sum) == NotModified;
  }

  /** A handler that sets its own validator, under any spelling of the key
      that canonicalises to "Etag", and writes a body: a GET presenting that
      validator gets a lone 304, and a GET without a token gets the body with
      that validator, never a derived one. */
  lemma {:induction false} ExplicitValidatorScenario(rev: Revision, w: ResponseWriter, k: string, v: string, b: seq<byte>, sum: seq<byte> -> Digest)
    requires CanonicalKey(k) == EtagKey && v != ""
    ensures Response(rev, w, Request("GET", v), [Call.SetHeader(k, v), Call.Write(b)], sum).log
            == w.log + [HeaderSet(EtagKey, v), StatusSent(304)]
    ensures Response(rev, w, Request("GET", ""), [Call.SetHeader(k, v), Call.Write(b)], sum).log
            == w.log + [HeaderSet(EtagKey, v)] + (if |b| > 0 then [BodySent(b)] else [])
  {
    var h1 := [Call.SetHeader(k, v)];
    var h2 := h1 + [Call.Write(b)];
    assert h2 == [Call.SetHeader(k, v), Call.Write(b)];
    RunSnoc(Start(w), [], Call.SetHeader(k, v));
    RunSnoc(Start(w), h1, Call.Write(b));
    var out := w.Set(k, v);
    var s := Run(Start(w), h2);
    assert s == State(out, b, b, 0, false);
    assert out.Get(EtagKey) == v by {
      EtagKeyCanonical();
    }
    assert Decide(rev, s, Request("GET", v), sum) == NotModified;
    assert Decide(rev, s, Request("GET", ""), sum) == Full(None, 0, b);
  }

  /** The usual Go spelling "ETag" of the key reaches the closure's "Etag". */
  lemma SpelledETagScenario(rev: Revision, w: ResponseWriter, v: string, b: seq<byte>, sum: seq<byte> -> Digest)
    requires v != ""
    ensures Response(rev, w, Request("GET", v), [Call.SetHeader("ETag", v), Call.Write(b)], sum).log
            == w.log + [HeaderSet(EtagKey, v), StatusSent(304)]
  {
    EtagKeyCanonical();
    ExplicitValidatorScenario(rev, w, "ETag", v, b, sum);
  }

  /** A handler that disables interception at once and then writes two
      chunks: the real writer receives both chunks directly, separately, and
      nothing else; no validator is added and no 304 is possible. */
  lemma {:induction false} EscapeHatchScenario(rev: Revision, w: ResponseWriter, req: Request, c1: seq<byte>, c2: seq<byte>, sum: seq<byte> -> Digest)
    ensures Response(rev, w, req, [Call.Disable, Call.Write(c1), Call.Write(c2)], sum).log
            == w.log + [BodySent(c1), BodySent(c2)]
  {
    var h1 := [Call.Disable];
    var h2 := h1 + [Call.Write(c1)];
    var h3 := h2 + [Call.Write(c2)];
    assert h3 == [Call.Disable, Call.Write(c1), Call.Write(c2)];
    RunSnoc(Start(w), [], Call.Disable);
    assert Run(Start(w), h1).out == w && Run(Start(w), h1).disabled;
    RunSnoc(Start(w), h1, Call.Write(c1));
    RunSnoc(Start(w), h2, Call.Write(c2));
  }
}
