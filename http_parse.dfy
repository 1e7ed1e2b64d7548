/** `http_request_parse` (src/http.rs): turns what `httparse` reports for a
    request head into a `Request` whose version is always HTTP/1.1. The
    tokeniser itself is not modelled; its report is the `Tokens` record. */
module HttpParse {
  import opened Prelude
  import opened HeaderMap
  import opened HeaderSyntax

  datatype Version = Http09 | Http10 | Http11 | Http2 | Http3

  datatype RawHeader = RawHeader(name: seq<byte>, value: seq<byte>)

  /** What `httparse::Request::parse` reports for a buffer: a syntax error, an
      incomplete head, or the method, path, minor version and headers it found. */
  datatype Tokens =
    | Malformed
    | Partial
    | Complete(verb: Option<seq<byte>>, path: Option<seq<byte>>, minor: Option<nat>, headers: seq<RawHeader>)

  datatype ParseError =
    | SyntaxError        // httparse's own error, passed on by `?`
    | TooManyHeaders     // httparse ran out of header slots
    | InvalidHead        // "invalid HTTP head"
    | UnsupportedVersion // "unsupported HTTP version"
    | InvalidMethod
    | InvalidUri
    | InvalidHeaderName
    | InvalidHeaderValue

  /** A request; `verb` is its method. */
  datatype Request<B> = Request(verb: seq<byte>, uri: seq<byte>, version: Version, headers: Headers, body: B)

  /** The head is parsed into an array of 128 header slots. */
  const HeaderSlots: nat := 128

  /** `Method::from_bytes`: a non-empty token. */
  predicate MethodParses(m: seq<byte>)
  {
    IsToken(m)
  }

  /** `Uri` parsing, reduced to: non-empty and made of visible ASCII. */
  predicate UriParses(u: seq<byte>)
  {
    |u| > 0 && forall i :: 0 <= i < |u| ==> 33 <= u[i] <= 126
  }

  function UnwrapOrEmpty(o: Option<seq<byte>>): seq<byte>
  {
    if o.Some? then o.value else []
  }

  /** The header the request map receives for one parsed header, or why it is refused. */
  function ConvertHeader(h: RawHeader): (r: Result<Header, ParseError>)
    ensures r.Ok? <==> IsToken(h.name) && IsValue(h.value)
    ensures r.Ok? ==> r.value == Header(Lower(h.name), h.value)
    ensures r == Err(InvalidHeaderName) <==> !IsToken(h.name)
    ensures r == Err(InvalidHeaderValue) <==> IsToken(h.name) && !IsValue(h.value)
  {
    if !IsToken(h.name) then Err(InvalidHeaderName)
    else if !IsValue(h.value) then Err(InvalidHeaderValue)
    else Ok(Header(Lower(h.name), h.value))
  }

  /** Appending the parsed headers one by one, in order; the first refused one aborts. */
  function ConvertHeaders(raw: seq<RawHeader>): (r: Result<Headers, ParseError>)
    ensures r.Ok? <==> forall i :: 0 <= i < |raw| ==> ConvertHeader(raw[i]).Ok?
    ensures r.Ok? ==> |r.value| == |raw| && forall i :: 0 <= i < |raw| ==> r.value[i] == Header(Lower(raw[i].name), raw[i].value)
    ensures r.Err? ==> exists i :: 0 <= i < |raw| && ConvertHeader(raw[i]) == Err(r.error) && forall j :: 0 <= j < i ==> ConvertHeader(raw[j]).Ok?
  {
    if raw == [] then Ok([])
    else
      var init := raw[..|raw| - 1];
      assert forall i :: 0 <= i < |init| ==> init[i] == raw[i];
      match ConvertHeaders(init)
      case Err(e) => Err(e)
      case Ok(hs) =>
        match ConvertHeader(raw[|raw| - 1])
        case Err(e) => Err(e)
        case Ok(h) => Ok(Append(hs, h.name, h.value))
  }

  /** Once a prefix of the headers is refused, so is the whole list, with the same error. */
  lemma {:induction false} ConvertHeadersErrSticks(raw: seq<RawHeader>, i: nat)
    requires i <= |raw|
    requires ConvertHeaders(raw[..i]).Err?
    ensures ConvertHeaders(raw) == ConvertHeaders(raw[..i])
    decreases |raw| - i
  {
    if i < |raw| {
      var next := raw[..i + 1];
      assert next[..|next| - 1] == raw[..i];
      assert ConvertHeaders(next) == ConvertHeaders(raw[..i]);
      ConvertHeadersErrSticks(raw, i + 1);
    } else {
      assert raw[..i] == raw;
    }
  }

  /** The outcome `http_request_parse` gives for a tokeniser report and a body. */
  function Parse<B>(tok: Tokens, body: B): (r: Result<Request<B>, ParseError>)
    ensures tok.Malformed? ==> r == Err(SyntaxError)
    ensures tok.Partial? ==> r == Err(InvalidHead)
    ensures tok.Complete? && |tok.headers| > HeaderSlots ==> r == Err(TooManyHeaders)
    ensures tok.Complete? && |tok.headers| <= HeaderSlots && tok.minor != Some(1) ==> r == Err(UnsupportedVersion)
    ensures tok.Complete? && |tok.headers| <= HeaderSlots && tok.minor == Some(1) && !MethodParses(UnwrapOrEmpty(tok.verb)) ==> r == Err(InvalidMethod)
    ensures (tok.Complete? && |tok.headers| <= HeaderSlots && tok.minor == Some(1) && MethodParses(UnwrapOrEmpty(tok.verb))
             && !UriParses(UnwrapOrEmpty(tok.path))) ==> r == Err(InvalidUri)
    ensures (tok.Complete? && |tok.headers| <= HeaderSlots && tok.minor == Some(1) && MethodParses(UnwrapOrEmpty(tok.verb))
             && UriParses(UnwrapOrEmpty(tok.path)) && ConvertHeaders(tok.headers).Err?) ==> r == Err(ConvertHeaders(tok.headers).error)
    ensures r.Err? && r.error in {InvalidHeaderName, InvalidHeaderValue} ==> tok.Complete? && ConvertHeaders(tok.headers) == Err(r.error)
    ensures r.Ok? <==>
              && tok.Complete? && |tok.headers| <= HeaderSlots && tok.minor == Some(1)
              && MethodParses(UnwrapOrEmpty(tok.verb)) && UriParses(UnwrapOrEmpty(tok.path))
              && ConvertHeaders(tok.headers).Ok?
    ensures r.Ok? ==> r.value.version == Http11 && r.value.body == body
    ensures r.Ok? ==> r.value.verb == UnwrapOrEmpty(tok.verb) && r.value.uri == UnwrapOrEmpty(tok.path)
    ensures r.Ok? ==> |r.value.headers| == |tok.headers| && forall i :: 0 <= i < |tok.headers| ==> r.value.headers[i] == Header(Lower(tok.headers[i].name), tok.headers[i].value)
  {
    match tok
    case Malformed => Err(SyntaxError)
    case Partial => Err(InvalidHead)
    case Complete(verb, path, minor, raw) =>
      if |raw| > HeaderSlots then Err(TooManyHeaders)
      else if minor != Some(1) then Err(UnsupportedVersion)
      else if !MethodParses(UnwrapOrEmpty(verb)) then Err(InvalidMethod)
      else if !UriParses(UnwrapOrEmpty(path)) then Err(InvalidUri)
      else
        match ConvertHeaders(raw)
        case Err(e) => Err(e)
        case Ok(hs) => Ok(Request(UnwrapOrEmpty(verb), UnwrapOrEmpty(path), Http11, hs, body))
  }

  /** `http_request_parse`: validates the report of `tokenize` on `buffer` and
      appends the headers to the request map in a loop. */
  method RequestParse<B>(buffer: seq<byte>, body: B, tokenize: seq<byte> -> Tokens)
    returns (r: Result<Request<B>, ParseError>)
    ensures r == Parse(tokenize(buffer), body)
  {
    var tok := tokenize(buffer);
    if tok.Malformed? {
      return Err(SyntaxError);
    }
    if tok.Partial? {
      return Err(InvalidHead);
    }
    if |tok.headers| > HeaderSlots {
      return Err(TooManyHeaders);
    }
    if tok.minor != Some(1) {
      return Err(UnsupportedVersion);
    }
    var verb := UnwrapOrEmpty(tok.verb);
    if !MethodParses(verb) {
      return Err(InvalidMethod);
    }
    var uri := UnwrapOrEmpty(tok.path);
    if !UriParses(uri) {
      return Err(InvalidUri);
    }
    var headers := AppendHeaders(tok.headers);
    if headers.Err? {
      return Err(headers.error);
    }
    return Ok(Request(verb, uri, Http11, headers.value, body));
  }

  /** The loop of `http_request_parse` that appends each parsed header to the request map. */
  method AppendHeaders(raw: seq<RawHeader>) returns (r: Result<Headers, ParseError>)
    ensures r == ConvertHeaders(raw)
  {
    var headers: Headers := [];
    for i := 0 to |raw|
      invariant ConvertHeaders(raw[..i]) == Ok(headers)
    {
      var h := raw[i];
      if !IsToken(h.name) || !IsValue(h.value) {
        var failed := ConvertHeader(h);
        assert raw[..i + 1][..i] == raw[..i];
        assert ConvertHeaders(raw[..i + 1]) == Err(failed.error);
        ConvertHeadersErrSticks(raw, i + 1);
        return Err(failed.error);
      }
      assert raw[..i + 1][..i] == raw[..i];
      headers := Append(headers, Lower(h.name), h.value);
    }
    assert raw[..|raw|] == raw;
    return Ok(headers);
  }
}
