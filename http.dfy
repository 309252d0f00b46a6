/** The parts of Go's net/http that the middleware talks to.

    The real http.ResponseWriter is modelled as a value: its header map, the
    ordered record of everything it has received (header sets, status lines,
    body writes, flushes), and whether it implements http.Flusher.  Writes to
    it always accept every byte (the middleware discards their errors). */
module Http {

  newtype byte = x: int | 0 <= x < 256

  datatype Option<+T> = None | Some(value: T)

  /** The header key the closure reads and writes; it is already in
      canonical form, so `Get("Etag")`, `Set("ETag", …)` and `Set("etag", …)`
      all reach the same entry. */
  const EtagKey: string := "Etag"

  /** A byte allowed in a header field name (an RFC 7230 token character). */
  predicate IsTokenChar(c: char)
  {
    ('a' <= c <= 'z') || ('A' <= c <= 'Z') || ('0' <= c <= '9') || c in "!#$%&'*+-.^_`|~"
  }

  function Upper(c: char): char
  {
    if 'a' <= c <= 'z' then (c as int - 32) as char else c
  }

  function Lower(c: char): char
  {
    if 'A' <= c <= 'Z' then (c as int + 32) as char else c
  }

  /** Upper-cases the first letter and every letter after a hyphen and
      lower-cases the rest; `upper` says whether the first one is a word
      start. */
  function Canon(s: string, upper: bool): (r: string)
    ensures |r| == |s|
  {
    if s == [] then []
    else [if upper then Upper(s[0]) else Lower(s[0])] + Canon(s[1..], s[0] == '-')
  }

  /** textproto.CanonicalMIMEHeaderKey, which http.Header's Get and Set apply
      to their key: a key made of token characters is put in word-capitalised
      form; any other key is used as it is. */
  function CanonicalKey(key: string): (k: string)
    ensures |k| == |key|
    ensures forall i :: 0 <= i < |k| ==> Lower(k[i]) == Lower(key[i])
  {
    CanonLowers(key, true);
    if forall i :: 0 <= i < |key| ==> IsTokenChar(key[i]) then Canon(key, true) else key
  }

  lemma {:induction false} CanonLowers(s: string, upper: bool)
    ensures forall i :: 0 <= i < |s| ==> Lower(Canon(s, upper)[i]) == Lower(s[i])
  {
    if s != [] {
      CanonLowers(s[1..], s[0] == '-');
      forall i | 1 <= i < |s|
        ensures Lower(Canon(s, upper)[i]) == Lower(s[i])
      {
        assert Canon(s, upper)[i] == Canon(s[1..], s[0] == '-')[i - 1];
      }
    }
  }

  /** Two header names that differ only in ASCII letter case canonicalise to
      the same key: every spelling of a name reaches one map entry. */
  lemma {:induction false} CanonicalKeyIgnoresCase(a: string, b: string)
    requires forall i :: 0 <= i < |a| ==> IsTokenChar(a[i])
    requires |a| == |b| && forall i :: 0 <= i < |a| ==> Lower(a[i]) == Lower(b[i])
    ensures CanonicalKey(a) == CanonicalKey(b)
  {
    forall i | 0 <= i < |b|
      ensures IsTokenChar(b[i])
    {
      LowerKeepsToken(a[i]);
      LowerKeepsToken(b[i]);
    }
    CanonIgnoresCase(a, b, true);
  }

  lemma LowerKeepsToken(c: char)
    ensures IsTokenChar(Lower(c)) <==> IsTokenChar(c)
  {
  }

  lemma {:induction false} CanonIgnoresCase(a: string, b: string, upper: bool)
    requires |a| == |b| && forall i :: 0 <= i < |a| ==> Lower(a[i]) == Lower(b[i])
    ensures Canon(a, upper) == Canon(b, upper)
  {
    if a != [] {
      assert Lower(a[0]) == Lower(b[0]);
      assert (a[0] == '-') == (b[0] == '-');
      CanonIgnoresCase(a[1..], b[1..], a[0] == '-');
    }
  }

  /** Canonicalising a canonical key changes nothing. */
  lemma {:induction false} CanonicalKeyIdempotent(key: string)
    ensures CanonicalKey(CanonicalKey(key)) == CanonicalKey(key)
  {
    var k := CanonicalKey(key);
    if forall i :: 0 <= i < |key| ==> IsTokenChar(key[i]) {
      forall i | 0 <= i < |k|
        ensures IsTokenChar(k[i])
      {
        LowerKeepsToken(k[i]);
        LowerKeepsToken(key[i]);
      }
      CanonicalKeyIgnoresCase(k, key);
    }
  }

  /** "Etag" is its own canonical form, and "ETag" and "etag" reach it. */
  lemma EtagKeyCanonical()
    ensures CanonicalKey(EtagKey) == EtagKey
    ensures CanonicalKey("ETag") == EtagKey && CanonicalKey("etag") == EtagKey
  {
    assert IsTokenChar('E') && IsTokenChar('t') && IsTokenChar('a') && IsTokenChar('g');
    assert Canon("g", false) == "g";
    assert Canon("ag", false) == "ag";
    assert Canon("tag", false) == "tag";
    assert Canon(EtagKey, true) == EtagKey;
    CanonicalKeyIgnoresCase("ETag", EtagKey);
    CanonicalKeyIgnoresCase("etag", EtagKey);
  }

  /** One thing the real response writer received, in the order received. */
  datatype Event =
    | HeaderSet(key: string, value: string)
    | StatusSent(code: int)
    | BodySent(data: seq<byte>)
    | Flushed

  datatype ResponseWriter = ResponseWriter(header: map<string, string>, log: seq<Event>, canFlush: bool)
  {
    /** http.Header.Get: the value under the canonical form of `key`, the
        empty string when there is none. */
    function Get(key: string): string
    {
      var k := CanonicalKey(key);
      if k in header then header[k] else ""
    }

    /** http.Header.Set on the writer's (shared) header map: the value
        replaces whatever was stored under the canonical form of `key`. */
    function Set(key: string, value: string): (w: ResponseWriter)
      ensures w.Get(key) == value && w.canFlush == canFlush
      ensures w.header == header[CanonicalKey(key) := value]
      ensures w.log == log + [HeaderSet(CanonicalKey(key), value)]
    {
      var k := CanonicalKey(key);
      this.(header := header[k := value], log := log + [HeaderSet(k, value)])
    }

    function WriteHeader(code: int): (w: ResponseWriter)
      ensures w.header == header && w.canFlush == canFlush
      ensures w.log == log + [StatusSent(code)]
    {
      this.(log := log + [StatusSent(code)])
    }

    function Write(data: seq<byte>): (w: ResponseWriter)
      ensures w.header == header && w.canFlush == canFlush
      ensures w.log == log + [BodySent(data)]
    {
      this.(log := log + [BodySent(data)])
    }

    /** http.Flusher.Flush. */
    function Flush(): (w: ResponseWriter)
      ensures w.header == header && w.canFlush == canFlush
      ensures w.log == log + [Flushed]
    {
      this.(log := log + [Flushed])
    }
  }

  /** The body bytes carried by one event. */
  function Payload(e: Event): seq<byte>
  {
    if e.BodySent? then e.data else []
  }

  /** The status codes carried by one event. */
  function Codes(e: Event): seq<int>
  {
    if e.StatusSent? then [e.code] else []
  }

  /** Every body byte received, in order. */
  function Body(log: seq<Event>): seq<byte>
  {
    if log == [] then [] else Body(log[..|log| - 1]) + Payload(log[|log| - 1])
  }

  /** Every status line received, in order. */
  function Statuses(log: seq<Event>): seq<int>
  {
    if log == [] then [] else Statuses(log[..|log| - 1]) + Codes(log[|log| - 1])
  }

  lemma Snoc(log: seq<Event>, e: Event)
    ensures Body(log + [e]) == Body(log) + Payload(e)
    ensures Statuses(log + [e]) == Statuses(log) + Codes(e)
  {
    assert (log + [e])[..|log|] == log;
  }

  lemma {:induction false} BodyAppend(a: seq<Event>, b: seq<Event>)
    ensures Body(a + b) == Body(a) + Body(b)
  {
    if b == [] {
      assert a + b == a;
    } else {
      var b', e := b[..|b| - 1], b[|b| - 1];
      assert b == b' + [e];
      assert a + b == (a + b') + [e];
      calc {
        Body(a + b);
        { Snoc(a + b', e); }
        Body(a + b') + Payload(e);
        { BodyAppend(a, b'); }
        Body(a) + Body(b') + Payload(e);
        { Snoc(b', e); }
        Body(a) + Body(b);
      }
    }
  }

  lemma {:induction false} StatusesAppend(a: seq<Event>, b: seq<Event>)
    ensures Statuses(a + b) == Statuses(a) + Statuses(b)
  {
    if b == [] {
      assert a + b == a;
    } else {
      var b', e := b[..|b| - 1], b[|b| - 1];
      assert b == b' + [e];
      assert a + b == (a + b') + [e];
      StatusesAppend(a, b');
      Snoc(a + b', e);
      Snoc(b', e);
    }
  }

  /** The parts of the inbound request the middleware reads: the method (`verb`) and the
      first If-None-Match value ("" when the header is absent). */
  datatype Request = Request(verb: string, ifNoneMatch: string)
}
