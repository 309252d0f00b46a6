/** writer.go: the intercepting response writer `rw` as a class whose methods
    update its fields in place.  Its invariant is that its fields are exactly
    what the specification `Interception.Run` gives for the calls made on it
    so far, so every property proved of `Run` holds of the object. */
module Writer {
  import opened Http
  import opened Interception

  class Interceptor {
    /** The real response writer (`rw.rw`); its header map is `rw.headers`. */
    var out: ResponseWriter
    /** The bytes fed to the SHA-1 hash so far (`rw.hash`). */
    var hashed: seq<byte>
    var buf: seq<byte>
    var status: int
    var disabled: bool

    /** The real writer as it was when wrapped, and every call made since. */
    ghost const origin: ResponseWriter
    ghost var calls: seq<Call>

    ghost function Model(): State
      reads this
    {
      State(out, hashed, buf, status, disabled)
    }

    ghost predicate Valid()
      reads this
    {
      Model() == Run(Start(origin), calls)
    }

    /** The struct literal in Handler: an empty buffer and hash, no pending
        status, buffering. */
    constructor (w: ResponseWriter)
      ensures Valid() && origin == w && calls == []
      ensures out == w && hashed == [] && buf == [] && status == 0 && !disabled
    {
      out, hashed, buf, status, disabled := w, [], [], 0, false;
      origin := w;
      calls := [];
    }

    method Write(b: seq<byte>) returns (r: WriteResult)
      requires Valid()
      modifies this
      ensures Valid() && calls == old(calls) + [Call.Write(b)]
      ensures r == WriteReply(old(Model()), b) && r == WriteResult(|b|, None)
      ensures disabled == old(disabled) && status == old(status)
      ensures old(disabled) ==> out == old(out).Write(b) && buf == old(buf) && hashed == old(hashed)
      ensures !old(disabled) ==> out == old(out) && buf == old(buf) + b && hashed == old(hashed) + b
    {
      RunSnoc(Start(origin), calls, Call.Write(b));
      calls := calls + [Call.Write(b)];
      if disabled {
        out := out.Write(b);
        r := SinkReply(b);
      } else {
        buf := buf + b;
        r := CheckedWrite(b, BufferReply(b));
        if r.err.None? {
          hashed := hashed + b;
          r := CheckedWrite(b, HashReply(b));
        }
      }
    }

    method WriteHeader(code: int)
      requires Valid()
      modifies this
      ensures Valid() && calls == old(calls) + [Call.WriteHeader(code)]
      ensures disabled == old(disabled) && buf == old(buf) && hashed == old(hashed)
      ensures old(disabled) ==> out == old(out).WriteHeader(code) && status == old(status)
      ensures !old(disabled) ==> out == old(out) && status == code
    {
      ghost var before := Model();
      if disabled {
        out := out.WriteHeader(code);
      } else {
        status := code;
      }
      assert Model() == Step(before, Call.WriteHeader(code));
      RunSnoc(Start(origin), calls, Call.WriteHeader(code));
      calls := calls + [Call.WriteHeader(code)];
    }

    /** `rw.Header()`: the real writer's own header map, not a copy, so it
        holds every header set through it so far, in either mode. */
    function Header(): (h: map<string, string>)
      reads this
      requires Valid()
      ensures h == Headers(origin.header, calls)
    {
      HeadersShared(Start(origin), calls);
      out.header
    }

    /** `Header().Set(key, value)` by the downstream handler: because the
        map is shared, it lands on the real writer at once, in either mode. */
    method SetHeader(key: string, value: string)
      requires Valid()
      modifies this
      ensures Valid() && calls == old(calls) + [Call.SetHeader(key, value)]
      ensures out == old(out).Set(key, value)
      ensures disabled == old(disabled) && buf == old(buf) && hashed == old(hashed) && status == old(status)
    {
      RunSnoc(Start(origin), calls, Call.SetHeader(key, value));
      calls := calls + [Call.SetHeader(key, value)];
      out := out.Set(key, value);
    }

    /** `rw.disable`, also what the package-level `Disable(r)` invokes. */
    method Disable()
      requires Valid()
      modifies this
      ensures Valid() && calls == old(calls) + [Call.Disable]
      ensures disabled
      ensures buf == old(buf) && hashed == old(hashed) && status == old(status)
      ensures old(disabled) ==> out == old(out)
      ensures !old(disabled) ==> out == if |old(buf)| > 0 then old(out).Write(old(buf)) else old(out)
    {
      RunSnoc(Start(origin), calls, Call.Disable);
      calls := calls + [Call.Disable];
      if disabled {
        return;
      }
      disabled := true;
      if |buf| > 0 {
        out := out.Write(buf);
      }
    }

    method Flush()
      requires Valid()
      modifies this
      ensures Valid() && calls == old(calls) + [Call.Flush]
      ensures buf == old(buf) && hashed == old(hashed) && status == old(status)
      ensures !old(out).canFlush ==> out == old(out) && disabled == old(disabled)
      ensures old(out).canFlush ==>
        disabled
        && out == (if !old(disabled) && |old(buf)| > 0 then old(out).Write(old(buf)) else old(out)).Flush()
    {
      ghost var before := calls;
      if out.canFlush {
        Disable();
        out := out.Flush();
      }
      RunSnoc(Start(origin), before, Call.Flush);
      calls := before + [Call.Flush];
    }
  }
}
