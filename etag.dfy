/** etag.go: the earlier single-file revision of the middleware.  Its `rw`
    type and methods are the same code as writer.go (modelled once, by
    `Writer.Interceptor` and `Interception.Step`), and its closure is the one
    of handler.go except that the derived validator is bare lowercase hex.
    `Handler.Response(Unquoted, …)` is that closure; this module states what
    the missing quotes change. */
module Etag {
  import opened Http
  import opened Interception
  import Hex
  import opened Handler

  /** The derived validator is the 40 hex digits of the digest, unquoted. */
  lemma UnquotedEtagShape(d: Digest)
    ensures var e := DerivedEtag(Unquoted, d);
      |e| == 40 && '"' !in e && e == Hex.Encode(d)
  {
  }

  /** A quoted If-None-Match token never matches a derived validator, so a
      client that echoes an entity-tag in the standard quoted form is never
      answered 304 and always gets the full body. */
  lemma {:induction false} QuotedTokenNeverMatches(w: ResponseWriter, req: Request, h: seq<Call>, sum: seq<byte> -> Digest)
    requires '"' in req.ifNoneMatch
    requires Run(Start(w), h).out.Get(EtagKey) == ""
    ensures !Decide(Unquoted, Run(Start(w), h), req, sum).NotModified?
    ensures Body(Response(Unquoted, w, req, h, sum).log) == Body(w.log) + Written(h)
  {
    BodyDeliveredUnlessNotModified(Unquoted, w, req, h, sum);
  }

  /** The bare hex of the body's digest, presented on a GET after a
      successful, still-buffered response with no handler-set validator,
      revalidates under etag.go and not under handler.go. */
  lemma {:induction false} BareHexRevalidatesOnlyUnquoted(w: ResponseWriter, h: seq<Call>, sum: seq<byte> -> Digest)
    requires !Run(Start(w), h).disabled
    requires Run(Start(w), h).out.Get(EtagKey) == ""
    requires StatusSuccess(LastStatus(h))
    ensures var req := Request("GET", Hex.Encode(sum(Written(h))));
      Decide(Unquoted, Run(Start(w), h), req, sum).NotModified?
      && !Decide(Quoted, Run(Start(w), h), req, sum).NotModified?
  {
    var req := Request("GET", Hex.Encode(sum(Written(h))));
    NotModifiedExactly(Unquoted, w, req, h, sum);
    NotModifiedExactly(Quoted, w, req, h, sum);
  }

  /** When the handler sets its own validator, the two revisions give the
      same response. */
  lemma {:induction false} RevisionsAgreeOnExplicitEtag(w: ResponseWriter, req: Request, h: seq<Call>, sum: seq<byte> -> Digest)
    requires Run(Start(w), h).out.Get(EtagKey) != ""
    ensures Response(Quoted, w, req, h, sum) == Response(Unquoted, w, req, h, sum)
  {
  }

  /** Without an If-None-Match token the two revisions deliver the same body
      and the same status lines; only the validator text differs. */
  lemma {:induction false} RevisionsAgreeWithoutToken(w: ResponseWriter, req: Request, h: seq<Call>, sum: seq<byte> -> Digest)
    requires req.ifNoneMatch == ""
    ensures Body(Response(Quoted, w, req, h, sum).log) == Body(Response(Unquoted, w, req, h, sum).log)
    ensures Statuses(Response(Quoted, w, req, h, sum).log) == Statuses(Response(Unquoted, w, req, h, sum).log)
  {
    BodyDeliveredUnlessNotModified(Quoted, w, req, h, sum);
    BodyDeliveredUnlessNotModified(Unquoted, w, req, h, sum);
    var s := Run(Start(w), h);
    if !s.disabled {
      PendingStatusSentOnFullPath(Quoted, w, req, h, sum);
      PendingStatusSentOnFullPath(Unquoted, w, req, h, sum);
    }
  }

  /** A still-buffering request that is not answered 304 and has no
      handler-set validator ends with the bare hex of the body's digest as
      the Etag header, then the pending status if any, then the body if any. */
  lemma {:induction false} UnquotedFullResponse(w: ResponseWriter, req: Request, h: seq<Call>, sum: seq<byte> -> Digest)
    requires !Run(Start(w), h).disabled
    requires Run(Start(w), h).out.Get(EtagKey) == ""
    requires !Decide(Unquoted, Run(Start(w), h), req, sum).NotModified?
    ensures Response(Unquoted, w, req, h, sum).log
            == Run(Start(w), h).out.log
               + [HeaderSet(EtagKey, Hex.Encode(sum(Written(h))))]
               + (if LastStatus(h) != 0 then [StatusSent(LastStatus(h))] else [])
               + (if |Written(h)| > 0 then [BodySent(Written(h))] else [])
  {
    var s := Run(Start(w), h);
    var o := Decide(Unquoted, s, req, sum);
    assert o == Full(Some(Hex.Encode(sum(Written(h)))), LastStatus(h), Written(h)) by {
      DeliversEverything(w, h);
      ValidatorIsContentHash(Unquoted, w, h, sum);
      UnquotedEtagShape(sum(Written(h)));
    }
    var e1: seq<Event> := [HeaderSet(EtagKey, Hex.Encode(sum(Written(h))))];
    var e2: seq<Event> := if LastStatus(h) != 0 then [StatusSent(LastStatus(h))] else [];
    var e3: seq<Event> := if |Written(h)| > 0 then [BodySent(Written(h))] else [];
    assert Emission(o) == e1 + e2 + e3;
    assert Response(Unquoted, w, req, h, sum) == Commit(s.out, o);
    Regroup(s.out.log, e1, e2, e3);
  }

  lemma Regroup(a: seq<Event>, b: seq<Event>, c: seq<Event>, d: seq<Event>)
    ensures a + (b + c + d) == a + b + c + d
  {
  }
}
