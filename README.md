# ETag middleware: a Dafny model

This project models the Go package `etag`. The package is an HTTP middleware.
It wraps a downstream handler's `http.ResponseWriter` in an intercepting
writer `rw`. That writer buffers the body and feeds it to a SHA-1 hash. Once
the handler returns, the middleware derives a validator (an ETag) from the
hash and either answers `304 Not Modified` or sends the validator, the pending
status and the buffered body. A handler can leave interception at any time
with `Disable(r)`, or implicitly by flushing. After that, `rw` passes every
call straight through to the real writer.

Files and modules:

- `http.dfy` (`Http`): the parts of net/http the middleware uses. The real
  response writer is a value: its header map, the ordered log of what it
  received (header sets, status lines, body writes, flushes), and whether it
  can flush. `Body` and `Statuses` read the body bytes and status lines off
  the log. The request is reduced to its method and its `If-None-Match` value.
- `interception.dfy` (`Interception`): writer.go's `rw` as a state machine
  over values. `Step` is one call on `rw` and `Run` is a sequence of calls.
  The module also holds the `write` helper (`CheckedWrite`) and the
  properties of whole call sequences.
- `writer.dfy` (`Writer`): the same `rw` as a class whose methods update its
  fields in place. Its invariant `Valid()` says that its fields equal
  `Run(Start(origin), calls)` for the ghost history of calls made on it.
- `hex.dfy` (`Hex`): lowercase hex encoding as `encoding/hex` produces it,
  with a decoder that shows the encoding is lossless.
- `handler.dfy` (`Handler`): the closure returned by `Handler`. `Decide` picks
  the outcome, `Commit` performs it, `Response` is the whole request as a
  function, and `Serve` is the closure as an imperative method proved equal
  to `Response`. The downstream handler is a parameter: the sequence of calls
  it makes on the intercepting writer.
- `etag.dfy` (`Etag`): etag.go, the earlier single-file revision. Its closure
  is `Handler.Response(Unquoted, …)`. The module states what the unquoted
  validator changes.

etag.go and handler.go+writer.go declare the same identifiers and are two
revisions of one package. Their only behavioural difference is the derived
validator: etag.go:46 emits bare hex and handler.go:44 wraps it in double
quotes. The `Revision` parameter (`Quoted`, `Unquoted`) selects between them.
etag.go:67-136 (`rw`, `write` and the methods) is the same code as
writer.go:10-77. `Interception.Step` and `Writer.Interceptor` model both
copies, so the rows below cite writer.go for them.

SHA-1 is the parameter `sum: seq<byte> -> Digest`, where `Digest` is a
20-byte sequence. Every property holds for any such function.

A status that the handler sets while buffering can be lost. `disable`
(writer.go:57-70) dumps the buffer to the real writer but never forwards the
status that `WriteHeader` recorded (writer.go:50). So after `WriteHeader(404)`
and then `Disable`, the real writer never receives 404, and the body goes out
under an implicit 200. `Interception.DisableDropsPendingStatus` states this.

Header names are canonicalised as `http.Header` does it. The closure reads
the validator with `Get("Etag")` (handler.go:38) and writes it with
`Set("etag", …)` (handler.go:53). A handler that sets "ETag" reaches the
same entry.

## Model

| member | source | states |
|---|---|---|
| `Http.CanonicalKey` | handler.go:38 | the key `Header.Get` and `Header.Set` store under has the same length as the given name and differs from it only in ASCII letter case |
| `Http.CanonicalKeyIgnoresCase` | handler.go:38 | two header names made of token characters that differ only in letter case reach the same map entry |
| `Http.CanonicalKeyIdempotent` | handler.go:38 | canonicalising a canonical key changes nothing |
| `Http.EtagKeyCanonical` | handler.go:53 | "Etag", "ETag" and "etag" all canonicalise to "Etag", so the closure's `Set("etag", …)` and `Get("Etag")` and a handler's `Set("ETag", …)` meet |
| `Interception.CheckedWrite` | writer.go:31-42 | `write` keeps the inner writer's count; it succeeds exactly when the inner writer reported no error and consumed all of `b`; an inner error is passed on unchanged; a silent partial write becomes `io.ErrShortWrite` |
| `Interception.WriteReply` | writer.go:19-29 | `rw.Write(b)` returns `(len(b), nil)` in both modes, given that bytes.Buffer, the hash and the real writer accept every byte |
| `Interception.Disabled` | writer.go:57-70 | `disable` always ends in passthrough and changes nothing if already there; it keeps the buffer, hash input and pending status; it adds no status line; the real writer's body grows by the whole buffer exactly once, and only on the first call |
| `Interception.HashMirrorsBuffer` | writer.go:19-29 | after any sequence of calls, the bytes fed to the hash equal the buffer |
| `Interception.StaysDisabled` | writer.go:57-62 | passthrough is irreversible, and once in it the buffer, hash input and pending status never change |
| `Interception.DeliversEverything` | writer.go:19-70 | for any call sequence, nothing is lost or duplicated. While buffering, the buffer is every written byte, the pending status is the last `WriteHeader` code, and the real writer has received no body and no status. Once disabled, the real writer's body has grown by exactly every written byte, in order |
| `Interception.PassthroughForwardsAll` | writer.go:19-22 | from a disabled writer (for example after a flush), every later write reaches the real writer at once, in order, and the real body grows by exactly those bytes |
| `Interception.DisableIdempotent` | writer.go:57-61 | a second `disable` has no effect, including on the real writer |
| `Interception.DisableDropsPendingStatus` | writer.go:44-70 | after `WriteHeader(code)` then `Disable`, the writer is in passthrough, still holds `code` as pending, and the real writer has received no status line |
| `Interception.FlushDumpsThenFlushes` | writer.go:72-77 | `Flush` on a writer that cannot flush changes nothing. On one that can, it dumps a non-empty buffer (when still buffering) before the real flush and leaves the writer in passthrough |
| `Writer.Interceptor.constructor` | handler.go:22-27 | the wrapper starts with an empty buffer and hash, no pending status, buffering, around the real writer |
| `Writer.Interceptor.Write` | writer.go:19-29 | while buffering, appends `b` to the buffer and to the hash input and leaves the real writer untouched; in passthrough, forwards `b` and leaves buffer and hash alone; returns `(len(b), nil)`; keeps `Valid()` |
| `Writer.Interceptor.WriteHeader` | writer.go:44-51 | while buffering, only overwrites the pending status (the last call wins); in passthrough, forwards the code and leaves the pending status unchanged |
| `Writer.Interceptor.Header` | writer.go:53-55 | the map it returns is the real writer's initial headers with every header the handler has set so far applied, in either mode, under its canonical key |
| `Interception.HeadersShared` | writer.go:53-55 | after any sequence of calls, the real writer's header map is its initial map with every `SetHeader` applied in order. Buffering delays no header |
| `Writer.Interceptor.SetHeader` | handler.go:23 | a header set through the shared map lands on the real writer at once, in either mode, and changes nothing else |
| `Writer.Interceptor.Disable` | writer.go:57-70 | sets the flag; on the first call writes a non-empty buffer to the real writer once; a second call changes nothing; no pending status is forwarded |
| `Writer.Interceptor.Flush` | writer.go:72-77 | a no-op on a non-flusher; on a flusher, disables (dumping the buffer) and then flushes the real writer |
| `Hex.Encode` | handler.go:44 | two lowercase hex digits per byte, so the length is twice the input |
| `Hex.DecodeEncode` | handler.go:44 | decoding the hex of any bytes gives them back |
| `Hex.EncodeInjective` | handler.go:44 | distinct digests give distinct hex |
| `Handler.DerivedEtag` | handler.go:43-45 | handler.go: `"` + hex + `"` (2n + 2 characters, and the hex between the quotes decodes to the digest); etag.go: bare hex with no `"` |
| `Handler.QuotedEtagShape` | handler.go:44 | for a 20-byte digest the quoted validator has 42 characters: the 40-digit hex between double quotes |
| `Handler.Decide` | handler.go:33-50 | exactly one outcome. Already streamed exactly when the writer is disabled; a 304 only for GET or HEAD with a token equal to the validator; otherwise a full emission of the buffer with the pending status |
| `Handler.Commit` | handler.go:52-63 | the real writer's log grows by exactly the outcome's events; the header map changes only when a derived validator is set, and then only under "Etag" |
| `Handler.EmissionOrdered` | handler.go:52-63 | a full emission sends at most one header, then at most one status, then at most one body write, and never status 0 or an empty write |
| `Handler.EmissionCarries` | handler.go:56-63 | the body bytes of a full emission are exactly the buffer, and its only status line is the pending status, when non-zero |
| `Handler.Serve` | handler.go:20-64 | the imperative closure (wrap, run the handler's calls, decide, emit) produces exactly `Response` |
| `Handler.StreamedRequestEndsQuietly` | handler.go:33-35 | if the writer is disabled when the handler returns, the closure sends nothing further |
| `Handler.ValidatorIsContentHash` | handler.go:37-45 | the validator is the handler's non-empty Etag header verbatim, else the validator derived from the digest of exactly the bytes the handler wrote |
| `Handler.NotModifiedExactly` | handler.go:37-50 | 304 is chosen if and only if the writer is still buffering, the token is non-empty, the last status set is 0 or 2xx, the method is GET or HEAD, and the token equals the validator |
| `Handler.NotModifiedSendsOnly304` | handler.go:47-50 | a 304 adds only the 304 status line: no validator header, no pending status and no body; the real body is what it was before the request |
| `Handler.BodyDeliveredUnlessNotModified` | handler.go:52-63 | unless the answer is 304, the real body grows by exactly the bytes the handler wrote, in order, once, whether they went through passthrough, a dump, or the final write |
| `Handler.PendingStatusSentOnFullPath` | handler.go:56-58 | on the full path, the only status line added is the last code the handler set, when non-zero |
| `Handler.DerivedEtagAnnounced` | handler.go:52-54 | without a handler-set validator, a full response carries the Etag derived from the digest of its own body |
| `Handler.ExplicitEtagWins` | handler.go:38-45 | a non-empty handler-set Etag is the validator verbatim; no derived value is written and no header event is sent |
| `Handler.OnlyGetOrHeadRevalidate` | handler.go:47 | methods other than GET and HEAD never get 304, even with a matching token, and always receive the full body |
| `Handler.HelloScenario` | handler.go:20-64 | a handler that writes "hello" gets the derived Etag and then the body; a GET presenting that Etag gets a lone 304 |
| `Handler.ExplicitValidatorScenario` | handler.go:37-58 | a handler that sets its own validator, under any spelling of the key, and writes a body: a GET presenting that validator gets a lone 304, and a GET without a token gets the body with that validator and no derived one |
| `Handler.SpelledETagScenario` | handler.go:38 | the case of a handler that spells the key "ETag": a GET presenting its validator gets a lone 304 |
| `Handler.EscapeHatchScenario` | handler.go:14-16 | `Disable` first and then two writes: the real writer gets both chunks directly and separately, and nothing else |
| `Etag.UnquotedEtagShape` | etag.go:45-47 | the etag.go validator is the 40 hex digits of the digest, without quotes |
| `Etag.QuotedTokenNeverMatches` | etag.go:49-52 | under etag.go, a token containing `"` never matches a derived validator, so no 304 is sent and the full body is delivered |
| `Etag.BareHexRevalidatesOnlyUnquoted` | etag.go:45-52 | the bare hex of the body's digest, on a successful GET with no handler-set Etag, gets 304 under etag.go and not under handler.go |
| `Etag.RevisionsAgreeOnExplicitEtag` | etag.go:39-47 | when the handler sets its own Etag, the two revisions give the same response |
| `Etag.RevisionsAgreeWithoutToken` | etag.go:54-65 | without an If-None-Match token, both revisions deliver the same body and the same status lines |
| `Etag.UnquotedFullResponse` | etag.go:54-65 | a full etag.go response appends the bare-hex Etag header, then the pending status if non-zero, then the written bytes if non-empty |

## Left out

- Transport errors: the real writer accepts every byte. The code discards the errors of its own writes (writer.go:68, handler.go:62). The error that passthrough `Write` returns unchanged is therefore always nil in this model.
- bytes.Buffer and hash.Hash are modelled by their documented replies: all bytes consumed, no error. The error branch in `rw.Write` (writer.go:24-26) is kept but cannot be taken.
- SHA-1 itself: it is the parameter `sum`, any function to 20-byte values.
- The `context.WithValue` side channel and the panic in `Disable` when the key is absent (handler.go:14-16, handler.go:29). The package-level `Disable(r)` is the `Call.Disable` action, which invokes `rw.disable`.
- The `http.Flusher` type assertion: it is the `canFlush` flag of the real writer.
- Multi-valued headers: headers are a map from canonical key to one string, so `Header.Add` and the later values of a key are not modelled. `Get` returns the one value stored.
- `Http.CanonicalKey` follows `textproto.CanonicalMIMEHeaderKey` as documented. A key holding a character that is not a token character is used as given. Go releases have differed in exactly which bytes trigger that rule.
- The HTTP rule that headers set after the status line or body has gone out are ignored is not modelled: the log records every header set in order.
- The downstream handler's own logic: it is the sequence of calls it makes on the intercepting writer.
- bytes.Buffer growth and its out-of-memory panic; the compile-time interface assertions (writer.go:79-82).
