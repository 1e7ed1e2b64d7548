/** src/h1.rs: the HTTP/1.1 request stream over `async_http_codec`, and the
    response a handler builds and sends. The head decoder, the body decoder
    and the head encoder of `async_http_codec` are not part of this model:
    their outcomes are the parameters `decode`, `fromHead` and the answers of
    a `Body`. */
module H1 {
  import opened Prelude
  import opened HeaderMap
  import opened HeaderSyntax
  import opened HttpParse
  import opened Select
  import HttpEncoding

  /** The parts of a request head the stream hands on. */
  datatype RequestHead = RequestHead(verb: seq<byte>, uri: seq<byte>, version: Version, headers: Headers)

  /** One read of the request body: `n` bytes (`0` at its end), or an error. */
  datatype BodyRead = Chunk(n: nat) | BodyReadFailed

  /** `BodyDecodeWithContinue`: the answers it will give to reads, over its transport. */
  datatype Body<IO> = Body(answers: seq<BodyRead>, transport: IO)

  /** `HttpRequest`: the decoded head and the body reader. */
  datatype HttpRequest<IO> = HttpRequest(head: RequestHead, body: Body<IO>)

  /** What an entry of the pool completes with, for the loop (lines 38-45): a
      request when the head decodes and `from_head` accepts it, otherwise
      `None`, the error being logged. */
  function Framed<T, IO, E, F>(decode: T -> Result<(IO, RequestHead), E>,
                              fromHead: (RequestHead, IO) -> Result<Body<IO>, F>): T -> Option<HttpRequest<IO>>
  {
    t =>
      if decode(t).Err? then None
      else
        var (io, head) := decode(t).value;
        if fromHead(head, io).Err? then None else Some(HttpRequest(head, fromHead(head, io).value))
  }

  /** An entry yields a request exactly when its head decodes and `from_head`
      accepts it, and the request holds that head and that body. */
  lemma FramedYields<T, IO, E, F>(decode: T -> Result<(IO, RequestHead), E>,
                                  fromHead: (RequestHead, IO) -> Result<Body<IO>, F>, t: T)
    ensures Framed(decode, fromHead)(t).Some? <==>
      decode(t).Ok? && fromHead(decode(t).value.1, decode(t).value.0).Ok?
    ensures Framed(decode, fromHead)(t).Some? ==>
      Framed(decode, fromHead)(t).value == HttpRequest(decode(t).value.1, fromHead(decode(t).value.1, decode(t).value.0).value)
  {
  }

  /** A head that fails to decode, or whose body framing `from_head` rejects,
      is dropped and the loop goes on without it: it never ends the stream
      nor reaches the caller. */
  lemma FailedHeadSkipped<T, IO, E, F>(s: State<T>, decode: T -> Result<(IO, RequestHead), E>,
                                       fromHead: (RequestHead, IO) -> Result<Body<IO>, F>)
    requires s.pool != [] && s.ready != [] && s.ready[0].Completes?
    requires var t := s.pool[Picked(s.ready[0].k, |s.pool|)];
      decode(t).Err? || fromHead(decode(t).value.1, decode(t).value.0).Err?
    ensures var i := Picked(s.ready[0].k, |s.pool|);
      Run(s, Framed(decode, fromHead)) == Run(State(s.pool[..i] + s.pool[i + 1..], s.ready[1..], s.upstream), Framed(decode, fromHead))
  {
    FailureSkipped(s, Framed(decode, fromHead));
  }

  class HttpIncoming<T, IO, E, F> {
    /** The in-flight `RequestHead::decode` futures, each named by its connection. */
    var decoding: seq<T>
    /** How the pool answers its next polls. */
    var ready: seq<Readiness>
    /** How `transport_incoming` answers its next polls. */
    var incoming: seq<Upstream<T>>
    /** What decoding the head on a connection ends with. */
    const decode: T -> Result<(IO, RequestHead), E>
    /** What `BodyDecodeWithContinue::from_head` makes of a decoded head. */
    const fromHead: (RequestHead, IO) -> Result<Body<IO>, F>

    function Current(): State<T>
      reads this
    {
      State(decoding, ready, incoming)
    }

    /** `HttpIncoming::new`: no head decode in flight. */
    constructor (incoming: seq<Upstream<T>>, ready: seq<Readiness>,
                 decode: T -> Result<(IO, RequestHead), E>, fromHead: (RequestHead, IO) -> Result<Body<IO>, F>)
      ensures Current() == State([], ready, incoming)
      ensures this.decode == decode && this.fromHead == fromHead
    {
      this.decoding := [];
      this.ready := ready;
      this.incoming := incoming;
      this.decode := decode;
      this.fromHead := fromHead;
    }

    /** `poll_next`: return a request as soon as a head is decoded and framed,
        log and drop failures, and otherwise start decoding the next connection. */
    method PollNext() returns (n: Next<HttpRequest<IO>>)
      modifies this
      ensures (n, Current()) == Run(old(Current()), Framed(decode, fromHead))
    {
      while true
        invariant Run(Current(), Framed(decode, fromHead)) == Run(old(Current()), Framed(decode, fromHead))
        decreases |ready| + |incoming|
      {
        var o := PollOnce();
        if o.Some? {
          return o.value;
        }
      }
    }

    /** One pass of the loop in `poll_next`: `Some` when it returns. */
    method PollOnce() returns (o: Option<Next<HttpRequest<IO>>>)
      modifies this
      ensures (o, Current()) == Step(old(Current()), Framed(decode, fromHead))
    {
      var (p, pool, rest) := PollPool(decoding, ready, Framed(decode, fromHead));
      decoding, ready := pool, rest;
      if p.Finished? {
        if p.result.Some? {
          return Some(Yield(p.result.value));
        }
        // `log::error!("http head error: ..")` or "http head decode error", and round again.
        return None;
      }
      if incoming == [] {
        return Some(Pending);
      }
      match incoming[0]
      case Item(t) =>
        decoding, incoming := decoding + [t], incoming[1..];
        return None;
      case End =>
        incoming := incoming[1..];
        return Some(Ended);
      case NotReady =>
        incoming := incoming[1..];
        return Some(Pending);
    }
  }

  /** How draining a request body ends: a read of `0`, a read error, or no
      answer yet from the connection. */
  datatype Drain = Drained | DrainFailed | DrainStalled

  /** `while 0 < body.read(..).await? {}` over the answers its reads get. */
  function DrainBody(answers: seq<BodyRead>): (d: Drain)
    ensures d == DrainStalled <==> DataBefore(answers, |answers|)
  {
    if answers == [] then DrainStalled
    else match answers[0]
      case BodyReadFailed => DrainFailed
      case Chunk(n) => if n == 0 then Drained else DrainBody(answers[1..])
  }

  /** Every read before `k` yields data. */
  predicate DataBefore(answers: seq<BodyRead>, k: nat)
    requires k <= |answers|
  {
    forall j :: 0 <= j < k ==> answers[j].Chunk? && answers[j].n > 0
  }

  /** The body is drained exactly when some read yields `0` after reads that all yield data. */
  lemma {:induction false} DrainedIff(answers: seq<BodyRead>)
    ensures DrainBody(answers) == Drained <==>
      exists k :: 0 <= k < |answers| && answers[k] == Chunk(0) && DataBefore(answers, k)
  {
    if answers != [] && answers[0].Chunk? && answers[0].n > 0 {
      DrainedIff(answers[1..]);
      if DrainBody(answers) == Drained {
        var k :| 0 <= k < |answers[1..]| && answers[1..][k] == Chunk(0) && DataBefore(answers[1..], k);
        assert answers[k + 1] == Chunk(0) && DataBefore(answers, k + 1);
      }
      if exists k :: 0 <= k < |answers| && answers[k] == Chunk(0) && DataBefore(answers, k) {
        var k :| 0 <= k < |answers| && answers[k] == Chunk(0) && DataBefore(answers, k);
        assert k > 0;
        assert answers[1..][k - 1] == Chunk(0) && DataBefore(answers[1..], k - 1);
      }
    } else if answers != [] {
      assert answers[0] == Chunk(0) ==> DataBefore(answers, 0);
      assert forall k :: 0 < k < |answers| ==> !DataBefore(answers, k);
    }
  }

  /** A read error while draining fails `response()` exactly when it comes before any read of `0`. */
  lemma {:induction false} DrainFailedIff(answers: seq<BodyRead>)
    ensures DrainBody(answers) == DrainFailed <==>
      exists k :: 0 <= k < |answers| && answers[k] == BodyReadFailed && DataBefore(answers, k)
  {
    if answers != [] && answers[0].Chunk? && answers[0].n > 0 {
      DrainFailedIff(answers[1..]);
      if DrainBody(answers) == DrainFailed {
        var k :| 0 <= k < |answers[1..]| && answers[1..][k] == BodyReadFailed && DataBefore(answers[1..], k);
        assert answers[k + 1] == BodyReadFailed && DataBefore(answers, k + 1);
      }
      if exists k :: 0 <= k < |answers| && answers[k] == BodyReadFailed && DataBefore(answers, k) {
        var k :| 0 <= k < |answers| && answers[k] == BodyReadFailed && DataBefore(answers, k);
        assert k > 0;
        assert answers[1..][k - 1] == BodyReadFailed && DataBefore(answers[1..], k - 1);
      }
    } else if answers != [] {
      assert answers[0] == BodyReadFailed ==> DataBefore(answers, 0);
      assert forall k :: 0 < k < |answers| ==> !DataBefore(answers, k);
    }
  }

  /** A response head: what `async_http_codec` encodes for `send`. */
  datatype ResponseHead = ResponseHead(status: HttpEncoding.StatusCode, version: Version, headers: Headers)

  /** "transfer-encoding" */
  const TransferEncoding: seq<byte> := [116, 114, 97, 110, 115, 102, 101, 114, 45, 101, 110, 99, 111, 100, 105, 110, 103]
  /** "chunked" */
  const Chunked: seq<byte> := [99, 104, 117, 110, 107, 101, 100]

  /** Every name in the map is what `HeaderName` stores: a token in lower case. */
  predicate Normalised(m: Headers)
  {
    forall h :: h in m ==> IsToken(h.name) && Lower(h.name) == h.name
  }

  /** Lower-casing a token gives a token that lower-casing leaves alone. */
  lemma LowerToken(name: seq<byte>)
    requires IsToken(name)
    ensures IsToken(Lower(name)) && Lower(Lower(name)) == Lower(name)
  {
    assert forall i :: 0 <= i < |name| ==> IsTokenChar(Lower(name)[i]);
  }

  /** `transfer-encoding` is a token in lower case. */
  lemma TransferEncodingNormal()
    ensures IsToken(TransferEncoding) && Lower(TransferEncoding) == TransferEncoding
  {
    assert forall i :: 0 <= i < |TransferEncoding| ==> 97 <= TransferEncoding[i] <= 122 || TransferEncoding[i] == 45;
  }

  /** Inserting under the lower-cased name keeps the map normalised, and then
      every entry whose name matches the inserted one, in any case, is the new pair. */
  lemma InsertNormalised(m: Headers, name: seq<byte>, value: seq<byte>)
    requires Normalised(m) && IsToken(name)
    ensures var r := Insert(m, Lower(name), value);
      && Normalised(r)
      && forall i :: 0 <= i < |r| && Lower(r[i].name) == Lower(name) ==> r[i] == Header(Lower(name), value)
  {
    var r := Insert(m, Lower(name), value);
    InsertEntries(m, Lower(name), value);
    LowerToken(name);
    forall i | 0 <= i < |r| && Lower(r[i].name) == Lower(name)
      ensures r[i] == Header(Lower(name), value)
    {
      assert r[i] in r;
      ValuesOfHas(r, i);
    }
  }

  /** Two `insert_header` calls whose keys differ only in case leave the map
      as the second call alone would: one header, with the second value. */
  lemma InsertHeaderCaseless(m: Headers, a: seq<byte>, b: seq<byte>, v1: seq<byte>, v2: seq<byte>)
    requires Lower(a) == Lower(b)
    ensures Insert(Insert(m, Lower(a), v1), Lower(b), v2) == Insert(m, Lower(b), v2)
  {
    InsertTwice(m, Lower(b), v1, v2);
  }

  /** `HttpResponse`: the request's method, URI and headers, the response
      head being built, and the transport. */
  class HttpResponse<IO> {
    const requestUri: seq<byte>
    const requestHeaders: Headers
    const requestMethod: seq<byte>
    var status: HttpEncoding.StatusCode
    const version: Version
    var headers: Headers
    const transport: IO

    constructor (requestUri: seq<byte>, requestHeaders: Headers, requestMethod: seq<byte>,
                 status: HttpEncoding.StatusCode, version: Version, headers: Headers, transport: IO)
      ensures this.requestUri == requestUri && this.requestHeaders == requestHeaders
      ensures this.requestMethod == requestMethod && this.transport == transport
      ensures this.status == status && this.version == version && this.headers == headers
    {
      this.requestUri := requestUri;
      this.requestHeaders := requestHeaders;
      this.requestMethod := requestMethod;
      this.status := status;
      this.version := version;
      this.headers := headers;
      this.transport := transport;
    }

    /** `insert_header`: the key becomes a lower-case `HeaderName`, which gets
        exactly this one value; every other header keeps its values, and the
        response itself is returned. */
    method InsertHeader(name: seq<byte>, value: seq<byte>) returns (self: HttpResponse<IO>)
      requires IsToken(name)
      modifies this`headers
      ensures self == this
      ensures headers == Insert(old(headers), Lower(name), value)
      ensures ValuesOf(headers, Lower(name)) == [value]
      ensures forall n :: n != Lower(name) ==> ValuesOf(headers, n) == ValuesOf(old(headers), n)
      ensures Normalised(old(headers)) ==>
        && Normalised(headers)
        && forall i :: 0 <= i < |headers| && Lower(headers[i].name) == Lower(name) ==> headers[i] == Header(Lower(name), value)
    {
      if Normalised(headers) {
        InsertNormalised(headers, name, value);
      }
      headers := Insert(headers, Lower(name), value);
      return this;
    }

    /** `set_status`: only the status changes, and the response itself is returned. */
    method SetStatus(s: HttpEncoding.StatusCode) returns (self: HttpResponse<IO>)
      modifies this`status
      ensures self == this && status == s
    {
      status := s;
      return this;
    }

    /** `send`: set `transfer-encoding: chunked`, replacing any value it had,
        and hand the head to the encoder; the chunked body follows it. */
    method Send() returns (head: ResponseHead)
      modifies this`headers
      ensures headers == Insert(old(headers), TransferEncoding, Chunked)
      ensures head == ResponseHead(status, version, headers)
      ensures ValuesOf(head.headers, TransferEncoding) == [Chunked]
      ensures forall n :: n != TransferEncoding ==> ValuesOf(head.headers, n) == ValuesOf(old(headers), n)
      ensures Normalised(old(headers)) ==>
        && Normalised(head.headers)
        && forall i :: 0 <= i < |head.headers| && Lower(head.headers[i].name) == TransferEncoding ==> head.headers[i] == Header(TransferEncoding, Chunked)
    {
      TransferEncodingNormal();
      var self := InsertHeader(TransferEncoding, Chunked);
      head := ResponseHead(status, version, headers);
    }
  }

  /** What `response()` comes to. */
  datatype Responding<IO> = Responded(resp: HttpResponse<IO>) | RespondFailed | StillReading

  /** `HttpRequest::response`: discard the rest of the body, then start a
      `200 OK` response of the request's version with no headers, keeping
      the request's method, URI and headers. */
  method Response<IO>(req: HttpRequest<IO>) returns (r: Responding<IO>)
    ensures r.Responded? <==> DrainBody(req.body.answers) == Drained
    ensures r.RespondFailed? <==> DrainBody(req.body.answers) == DrainFailed
    ensures r.Responded? ==>
      && fresh(r.resp)
      && r.resp.status == 200 && r.resp.version == req.head.version && r.resp.headers == []
      && r.resp.requestMethod == req.head.verb && r.resp.requestUri == req.head.uri
      && r.resp.requestHeaders == req.head.headers && r.resp.transport == req.body.transport
  {
    var rest := req.body.answers;
    while true
      invariant DrainBody(rest) == DrainBody(req.body.answers)
      decreases |rest|
    {
      if rest == [] {
        return StillReading;
      }
      match rest[0]
      case BodyReadFailed =>
        return RespondFailed;
      case Chunk(n) =>
        if n == 0 {
          break;
        }
        rest := rest[1..];
    }
    var resp := new HttpResponse(req.head.uri, req.head.headers, req.head.verb, 200, req.head.version, [], req.body.transport);
    return Responded(resp);
  }
}
