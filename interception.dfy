/** The intercepting response writer `rw` of writer.go as a state machine over
    values: it buffers and hashes body bytes until it is disabled, then passes
    every call straight through to the real writer.  `Writer.Interceptor` is
    the imperative form; this module is its specification and carries the
    properties of whole call sequences. */
module Interception {
  import opened Http

  /** Go's `error` values as far as `write` distinguishes them. */
  datatype Error = ErrShortWrite | Failure(reason: string)

  /** The `(int, error)` pair every io.Writer returns. */
  datatype WriteResult = WriteResult(n: int, err: Option<Error>)

  /** The `write` helper: forwards an inner writer's reply, and turns a
      silent partial write into io.ErrShortWrite. */
  function CheckedWrite(b: seq<byte>, reply: WriteResult): (r: WriteResult)
    ensures r.n == reply.n
    ensures r.err.None? <==> reply.err.None? && reply.n == |b|
    ensures reply.err.Some? ==> r.err == reply.err
    ensures reply.err.None? && reply.n != |b| ==> r.err == Some(ErrShortWrite)
  {
    if reply.err.Some? then reply
    else if reply.n != |b| then WriteResult(reply.n, Some(ErrShortWrite))
    else reply
  }

  /** bytes.Buffer.Write returns len(p) and a nil error. */
  function BufferReply(b: seq<byte>): WriteResult
  {
    WriteResult(|b|, None)
  }

  /** hash.Hash.Write never returns an error and consumes all of p. */
  function HashReply(b: seq<byte>): WriteResult
  {
    WriteResult(|b|, None)
  }

  /** The real writer accepts every byte. */
  function SinkReply(b: seq<byte>): WriteResult
  {
    WriteResult(|b|, None)
  }

  /** A call the downstream handler makes on the intercepting writer; Disable
      is the package-level `Disable(r)`, which invokes `rw.disable`. */
  datatype Call =
    | Write(data: seq<byte>)
    | WriteHeader(code: int)
    | SetHeader(key: string, value: string)
    | Flush
    | Disable

  /** The fields of `rw`: the real writer, the bytes the hash has consumed,
      the buffer, the pending status (0 = none) and the passthrough flag. */
  datatype State = State(out: ResponseWriter, hashed: seq<byte>, buf: seq<byte>, status: int, disabled: bool)

  /** The writer the closure in Handler builds around the real one. */
  function Start(w: ResponseWriter): (s: State)
    ensures s.out == w && !s.disabled && s.status == 0 && s.buf == [] && s.hashed == []
  {
    State(w, [], [], 0, false)
  }

  /** What `rw.Write(b)` returns. */
  function WriteReply(s: State, b: seq<byte>): (r: WriteResult)
    ensures r == WriteResult(|b|, None)
  {
    if s.disabled then SinkReply(b)
    else
      var r := CheckedWrite(b, BufferReply(b));
      if r.err.Some? then r else CheckedWrite(b, HashReply(b))
  }

  /** `rw.disable`: flips the flag once and dumps a non-empty buffer to the
      real writer; a pending status is not forwarded. */
  function Disabled(s: State): (d: State)
    ensures d.disabled
    ensures s.disabled ==> d == s
    ensures d.buf == s.buf && d.hashed == s.hashed && d.status == s.status
    ensures d.out.header == s.out.header && d.out.canFlush == s.out.canFlush
    ensures Statuses(d.out.log) == Statuses(s.out.log)
    ensures Body(d.out.log) == Body(s.out.log) + (if s.disabled then [] else s.buf)
  {
    if s.disabled then s
    else s.(disabled := true, out := if |s.buf| > 0 then s.out.Write(s.buf) else s.out)
  }

  /** One call on `rw`. */
  function Step(s: State, c: Call): State
  {
    match c
    case Write(b) =>
      if s.disabled then s.(out := s.out.Write(b))
      else s.(buf := s.buf + b, hashed := s.hashed + b)
    case WriteHeader(code) =>
      if s.disabled then s.(out := s.out.WriteHeader(code))
      else s.(status := code)
    case SetHeader(k, v) =>
      s.(out := s.out.Set(k, v))
    case Flush =>
      if s.out.canFlush then
        var d := Disabled(s);
        d.(out := d.out.Flush())
      else s
    case Disable =>
      Disabled(s)
  }

  /** A sequence of calls, in order. */
  function Run(s: State, cs: seq<Call>): State
  {
    if cs == [] then s else Step(Run(s, cs[..|cs| - 1]), cs[|cs| - 1])
  }

  lemma RunSnoc(s: State, cs: seq<Call>, c: Call)
    ensures Run(s, cs + [c]) == Step(Run(s, cs), c)
  {
    assert (cs + [c])[..|cs|] == cs;
  }

  /** Every byte passed to Write, in call order. */
  function Written(cs: seq<Call>): seq<byte>
  {
    if cs == [] then []
    else Written(cs[..|cs| - 1]) + (if cs[|cs| - 1].Write? then cs[|cs| - 1].data else [])
  }

  /** The code of the last WriteHeader call, or 0 when there was none. */
  function LastStatus(cs: seq<Call>): int
  {
    if cs == [] then 0
    else if cs[|cs| - 1].WriteHeader? then cs[|cs| - 1].code
    else LastStatus(cs[..|cs| - 1])
  }

  /** The header map after the calls `cs`: every SetHeader applied in order,
      under the canonical form of its key. */
  function Headers(base: map<string, string>, cs: seq<Call>): map<string, string>
  {
    if cs == [] then base
    else
      var m := Headers(base, cs[..|cs| - 1]);
      var c := cs[|cs| - 1];
      if c.SetHeader? then m[CanonicalKey(c.key) := c.value] else m
  }

  /** `rw.Header()` is the real writer's own map, so in either mode every
      header the handler sets lands there at once: after any calls, the real
      writer's headers are the initial ones with every SetHeader applied. */
  lemma {:induction false} HeadersShared(s: State, cs: seq<Call>)
    ensures Run(s, cs).out.header == Headers(s.out.header, cs)
  {
    if cs != [] {
      HeadersShared(s, cs[..|cs| - 1]);
    }
  }

  /** The bytes the hash has consumed always equal the buffer. */
  lemma {:induction false} HashMirrorsBuffer(s: State, cs: seq<Call>)
    requires s.hashed == s.buf
    ensures Run(s, cs).hashed == Run(s, cs).buf
  {
    if cs != [] {
      HashMirrorsBuffer(s, cs[..|cs| - 1]);
    }
  }

  /** Passthrough is irreversible, and once in it the buffer, the hash input
      and the pending status never change again. */
  lemma {:induction false} StaysDisabled(s: State, cs: seq<Call>)
    requires s.disabled
    ensures Run(s, cs).disabled
    ensures Run(s, cs).buf == s.buf && Run(s, cs).hashed == s.hashed && Run(s, cs).status == s.status
  {
    if cs != [] {
      StaysDisabled(s, cs[..|cs| - 1]);
    }
  }

  /** The relation between a writer built on `w` and the calls made on it:
      `bytes` written so far and `pending` the last status set. */
  ghost predicate Accounts(w: ResponseWriter, t: State, bytes: seq<byte>, pending: int)
  {
    (t.disabled ==> Body(t.out.log) == Body(w.log) + bytes)
    && (!t.disabled ==>
          t.buf == bytes && t.status == pending
          && Body(t.out.log) == Body(w.log) && Statuses(t.out.log) == Statuses(w.log))
  }

  lemma StepAccounts(w: ResponseWriter, t: State, bytes: seq<byte>, pending: int, c: Call)
    requires Accounts(w, t, bytes, pending)
    ensures Accounts(w, Step(t, c), bytes + (if c.Write? then c.data else []),
                     if c.WriteHeader? then c.code else pending)
  {
    if !c.Write? {
      assert bytes + [] == bytes;
    }
    match c
    case Write(b) => WriteAccounts(w, t, bytes, pending, b);
    case WriteHeader(code) => WriteHeaderAccounts(w, t, bytes, pending, code);
    case SetHeader(k, v) => SetHeaderAccounts(w, t, bytes, pending, k, v);
    case Flush => FlushAccounts(w, t, bytes, pending);
    case Disable =>
  }

  lemma WriteAccounts(w: ResponseWriter, t: State, bytes: seq<byte>, pending: int, b: seq<byte>)
    requires Accounts(w, t, bytes, pending)
    ensures Accounts(w, Step(t, Write(b)), bytes + b, pending)
  {
    if t.disabled {
      Snoc(t.out.log, BodySent(b));
    }
  }

  lemma WriteHeaderAccounts(w: ResponseWriter, t: State, bytes: seq<byte>, pending: int, code: int)
    requires Accounts(w, t, bytes, pending)
    ensures Accounts(w, Step(t, WriteHeader(code)), bytes, code)
  {
    if t.disabled {
      Snoc(t.out.log, StatusSent(code));
    }
  }

  lemma SetHeaderAccounts(w: ResponseWriter, t: State, bytes: seq<byte>, pending: int, k: string, v: string)
    requires Accounts(w, t, bytes, pending)
    ensures Accounts(w, Step(t, SetHeader(k, v)), bytes, pending)
  {
    Snoc(t.out.log, HeaderSet(CanonicalKey(k), v));
  }

  lemma FlushAccounts(w: ResponseWriter, t: State, bytes: seq<byte>, pending: int)
    requires Accounts(w, t, bytes, pending)
    ensures Accounts(w, Step(t, Flush), bytes, pending)
  {
    if t.out.canFlush {
      Snoc(Disabled(t).out.log, Flushed);
    }
  }

  /** No byte is lost or duplicated: while buffering, the buffer holds every
      written byte and the real writer has received no body and no status;
      once disabled, the real writer's body has grown by exactly every written
      byte, in order. */
  lemma {:induction false} DeliversEverything(w: ResponseWriter, cs: seq<Call>)
    ensures var t := Run(Start(w), cs);
      t.disabled ==> Body(t.out.log) == Body(w.log) + Written(cs)
    ensures var t := Run(Start(w), cs);
      !t.disabled ==>
        t.buf == Written(cs) && t.status == LastStatus(cs)
        && Body(t.out.log) == Body(w.log) && Statuses(t.out.log) == Statuses(w.log)
  {
    if cs != [] {
      var p, c := cs[..|cs| - 1], cs[|cs| - 1];
      DeliversEverything(w, p);
      StepAccounts(w, Run(Start(w), p), Written(p), LastStatus(p), c);
    }
  }

  /** In passthrough every later write reaches the real writer at once, in
      order and unbuffered: its body grows by exactly the written bytes. */
  lemma {:induction false} PassthroughForwardsAll(s: State, cs: seq<Call>)
    requires s.disabled
    ensures Body(Run(s, cs).out.log) == Body(s.out.log) + Written(cs)
  {
    if cs == [] {
      assert Body(s.out.log) + [] == Body(s.out.log);
    } else {
      var p, c := cs[..|cs| - 1], cs[|cs| - 1];
      PassthroughForwardsAll(s, p);
      StaysDisabled(s, cs);
      StaysDisabled(s, p);
      StepAccounts(s.out, Run(s, p), Written(p), 0, c);
    }
  }

  /** Calling disable twice has the effect of calling it once. */
  lemma DisableIdempotent(s: State)
    ensures Step(Step(s, Disable), Disable) == Step(s, Disable)
  {
  }

  /** The deviation in writer.go: a status recorded while buffering is never
      sent by disable, so after WriteHeader(code) then Disable the real writer
      has still received no status line. */
  lemma {:induction false} DisableDropsPendingStatus(w: ResponseWriter, code: int)
    ensures var t := Run(Start(w), [WriteHeader(code), Disable]);
      t.disabled && t.status == code && Statuses(t.out.log) == Statuses(w.log)
  {
    RunSnoc(Start(w), [], WriteHeader(code));
    RunSnoc(Start(w), [WriteHeader(code)], Disable);
  }

  /** Flush on a writer that cannot flush changes nothing; on one that can,
      it dumps the buffer (when still buffering and non-empty) before the
      real flush, and leaves the writer in passthrough. */
  lemma FlushDumpsThenFlushes(s: State)
    ensures !s.out.canFlush ==> Step(s, Flush) == s
    ensures s.out.canFlush ==>
      Step(s, Flush).disabled
      && Step(s, Flush).out.log
         == s.out.log + (if !s.disabled && |s.buf| > 0 then [BodySent(s.buf)] else []) + [Flushed]
  {
  }
}
