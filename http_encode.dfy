/** `http_response_write` and `HttpEncode` (src/http.rs): serialising a
    response head (sections 2.1 and 4 of RFC 9112) and writing it out.
    Both the code as written and the evidently intended code are modelled;
    see the two guards noted below. */
module HttpEncoding {
  import opened Prelude
  import opened HeaderMap
  import opened HeaderSyntax
  import opened HeadFraming
  import opened HttpParse

  type StatusCode = c: int | 100 <= c <= 999 witness 200

  datatype Response<B> = Response(status: StatusCode, version: Version, headers: Headers, body: B)

  /** A byte of printable ASCII (space to tilde): never CR or LF. */
  type TextByte = b: byte | SP <= b < 127 witness SP

  /** The `Debug` form of `http::Version`, as the ASCII bytes of the text shown. */
  function VersionText(v: Version): (text: seq<TextByte>)
    ensures |text| == 8 && text[..5] == [72, 84, 84, 80, 47] && text[6] == 46 // "HTTP/" and "."
    ensures 48 <= text[5] <= 57 && 48 <= text[7] <= 57 // digits
  {
    match v
    case Http09 => [72, 84, 84, 80, 47, 48, 46, 57] // "HTTP/0.9"
    case Http10 => [72, 84, 84, 80, 47, 49, 46, 48] // "HTTP/1.0"
    case Http11 => [72, 84, 84, 80, 47, 49, 46, 49] // "HTTP/1.1"
    case Http2 => [72, 84, 84, 80, 47, 50, 46, 48] // "HTTP/2.0"
    case Http3 => [72, 84, 84, 80, 47, 51, 46, 48] // "HTTP/3.0"
  }

  /** The reason phrase `http::StatusCode::canonical_reason` knows for a code,
      as the ASCII bytes of the phrase; the table is split into small ranges. */
  function CanonicalReason(c: StatusCode): (reason: Option<seq<TextByte>>)
    ensures reason.Some? ==> |reason.value| > 0 && c <= 511
  {
    if c <= 199 then ReasonInformational(c)
    else if c <= 299 then ReasonSuccess(c)
    else if c <= 399 then ReasonRedirection(c)
    else if c <= 407 then ReasonClientA(c)
    else if c <= 415 then ReasonClientB(c)
    else if c <= 424 then ReasonClientC(c)
    else if c <= 499 then ReasonClientD(c)
    else if c <= 505 then ReasonServerA(c)
    else ReasonServerB(c)
  }

  /** Canonical reasons of the codes 100 to 199. */
  function ReasonInformational(c: StatusCode): (reason: Option<seq<TextByte>>)
    ensures reason.Some? ==> |reason.value| > 0
  {
    match c
    case 100 => Some([67, 111, 110, 116, 105, 110, 117, 101]) // "Continue"
    case 101 => Some([83, 119, 105, 116, 99, 104, 105, 110, 103, 32, 80, 114, 111, 116, 111, 99, 111, 108, 115]) // "Switching Protocols"
    case 102 => Some([80, 114, 111, 99, 101, 115, 115, 105, 110, 103]) // "Processing"
    case _ => None
  }

  /** Canonical reasons of the codes 200 to 299. */
  function ReasonSuccess(c: StatusCode): (reason: Option<seq<TextByte>>)
    ensures reason.Some? ==> |reason.value| > 0
  {
    match c
    case 200 => Some([79, 75]) // "OK"
    case 201 => Some([67, 114, 101, 97, 116, 101, 100]) // "Created"
    case 202 => Some([65, 99, 99, 101, 112, 116, 101, 100]) // "Accepted"
    case 203 => Some([78, 111, 110, 32, 65, 117, 116, 104, 111, 114, 105, 116, 97, 116, 105, 118, 101, 32, 73, 110, 102, 111, 114, 109, 97, 116, 105, 111, 110]) // "Non Authoritative Information"
    case 204 => Some([78, 111, 32, 67, 111, 110, 116, 101, 110, 116]) // "No Content"
    case 205 => Some([82, 101, 115, 101, 116, 32, 67, 111, 110, 116, 101, 110, 116]) // "Reset Content"
    case 206 => Some([80, 97, 114, 116, 105, 97, 108, 32, 67, 111, 110, 116, 101, 110, 116]) // "Partial Content"
    case 207 => Some([77, 117, 108, 116, 105, 45, 83, 116, 97, 116, 117, 115]) // "Multi-Status"
    case 208 => Some([65, 108, 114, 101, 97, 100, 121, 32, 82, 101, 112, 111, 114, 116, 101, 100]) // "Already Reported"
    case 226 => Some([73, 77, 32, 85, 115, 101, 100]) // "IM Used"
    case _ => None
  }

  /** Canonical reasons of the codes 300 to 399. */
  function ReasonRedirection(c: StatusCode): (reason: Option<seq<TextByte>>)
    ensures reason.Some? ==> |reason.value| > 0
  {
    match c
    case 300 => Some([77, 117, 108, 116, 105, 112, 108, 101, 32, 67, 104, 111, 105, 99, 101, 115]) // "Multiple Choices"
    case 301 => Some([77, 111, 118, 101, 100, 32, 80, 101, 114, 109, 97, 110, 101, 110, 116, 108, 121]) // "Moved Permanently"
    case 302 => Some([70, 111, 117, 110, 100]) // "Found"
    case 303 => Some([83, 101, 101, 32, 79, 116, 104, 101, 114]) // "See Other"
    case 304 => Some([78, 111, 116, 32, 77, 111, 100, 105, 102, 105, 101, 100]) // "Not Modified"
    case 305 => Some([85, 115, 101, 32, 80, 114, 111, 120, 121]) // "Use Proxy"
    case 307 => Some([84, 101, 109, 112, 111, 114, 97, 114, 121, 32, 82, 101, 100, 105, 114, 101, 99, 116]) // "Temporary Redirect"
    case 308 => Some([80, 101, 114, 109, 97, 110, 101, 110, 116, 32, 82, 101, 100, 105, 114, 101, 99, 116]) // "Permanent Redirect"
    case _ => None
  }

  /** Canonical reasons of the codes 400 to 407. */
  function ReasonClientA(c: StatusCode): (reason: Option<seq<TextByte>>)
    ensures reason.Some? ==> |reason.value| > 0
  {
    match c
    case 400 => Some([66, 97, 100, 32, 82, 101, 113, 117, 101, 115, 116]) // "Bad Request"
    case 401 => Some([85, 110, 97, 117, 116, 104, 111, 114, 105, 122, 101, 100]) // "Unauthorized"
    case 402 => Some([80, 97, 121, 109, 101, 110, 116, 32, 82, 101, 113, 117, 105, 114, 101, 100]) // "Payment Required"
    case 403 => Some([70, 111, 114, 98, 105, 100, 100, 101, 110]) // "Forbidden"
    case 404 => Some([78, 111, 116, 32, 70, 111, 117, 110, 100]) // "Not Found"
    case 405 => Some([77, 101, 116, 104, 111, 100, 32, 78, 111, 116, 32, 65, 108, 108, 111, 119, 101, 100]) // "Method Not Allowed"
    case 406 => Some([78, 111, 116, 32, 65, 99, 99, 101, 112, 116, 97, 98, 108, 101]) // "Not Acceptable"
    case 407 => Some([80, 114, 111, 120, 121, 32, 65, 117, 116, 104, 101, 110, 116, 105, 99, 97, 116, 105, 111, 110, 32, 82, 101, 113, 117, 105, 114, 101, 100]) // "Proxy Authentication Required"
    case _ => None
  }

  /** Canonical reasons of the codes 408 to 415. */
  function ReasonClientB(c: StatusCode): (reason: Option<seq<TextByte>>)
    ensures reason.Some? ==> |reason.value| > 0
  {
    match c
    case 408 => Some([82, 101, 113, 117, 101, 115, 116, 32, 84, 105, 109, 101, 111, 117, 116]) // "Request Timeout"
    case 409 => Some([67, 111, 110, 102, 108, 105, 99, 116]) // "Conflict"
    case 410 => Some([71, 111, 110, 101]) // "Gone"
    case 411 => Some([76, 101, 110, 103, 116, 104, 32, 82, 101, 113, 117, 105, 114, 101, 100]) // "Length Required"
    case 412 => Some([80, 114, 101, 99, 111, 110, 100, 105, 116, 105, 111, 110, 32, 70, 97, 105, 108, 101, 100]) // "Precondition Failed"
    case 413 => Some([80, 97, 121, 108, 111, 97, 100, 32, 84, 111, 111, 32, 76, 97, 114, 103, 101]) // "Payload Too Large"
    case 414 => Some([85, 82, 73, 32, 84, 111, 111, 32, 76, 111, 110, 103]) // "URI Too Long"
    case 415 => Some([85, 110, 115, 117, 112, 112, 111, 114, 116, 101, 100, 32, 77, 101, 100, 105, 97, 32, 84, 121, 112, 101]) // "Unsupported Media Type"
    case _ => None
  }

  /** Canonical reasons of the codes 416 to 424. */
  function ReasonClientC(c: StatusCode): (reason: Option<seq<TextByte>>)
    ensures reason.Some? ==> |reason.value| > 0
  {
    match c
    case 416 => Some([82, 97, 110, 103, 101, 32, 78, 111, 116, 32, 83, 97, 116, 105, 115, 102, 105, 97, 98, 108, 101]) // "Range Not Satisfiable"
    case 417 => Some([69, 120, 112, 101, 99, 116, 97, 116, 105, 111, 110, 32, 70, 97, 105, 108, 101, 100]) // "Expectation Failed"
    case 418 => Some([73, 39, 109, 32, 97, 32, 116, 101, 97, 112, 111, 116]) // "I'm a teapot"
    case 421 => Some([77, 105, 115, 100, 105, 114, 101, 99, 116, 101, 100, 32, 82, 101, 113, 117, 101, 115, 116]) // "Misdirected Request"
    case 422 => Some([85, 110, 112, 114, 111, 99, 101, 115, 115, 97, 98, 108, 101, 32, 69, 110, 116, 105, 116, 121]) // "Unprocessable Entity"
    case 423 => Some([76, 111, 99, 107, 101, 100]) // "Locked"
    case 424 => Some([70, 97, 105, 108, 101, 100, 32, 68, 101, 112, 101, 110, 100, 101, 110, 99, 121]) // "Failed Dependency"
    case _ => None
  }

  /** Canonical reasons of the codes 425 to 499. */
  function ReasonClientD(c: StatusCode): (reason: Option<seq<TextByte>>)
    ensures reason.Some? ==> |reason.value| > 0
  {
    match c
    case 426 => Some([85, 112, 103, 114, 97, 100, 101, 32, 82, 101, 113, 117, 105, 114, 101, 100]) // "Upgrade Required"
    case 428 => Some([80, 114, 101, 99, 111, 110, 100, 105, 116, 105, 111, 110, 32, 82, 101, 113, 117, 105, 114, 101, 100]) // "Precondition Required"
    case 429 => Some([84, 111, 111, 32, 77, 97, 110, 121, 32, 82, 101, 113, 117, 101, 115, 116, 115]) // "Too Many Requests"
    case 431 => Some([82, 101, 113, 117, 101, 115, 116, 32, 72, 101, 97, 100, 101, 114, 32, 70, 105, 101, 108, 100, 115, 32, 84, 111, 111, 32, 76, 97, 114, 103, 101]) // "Request Header Fields Too Large"
    case 451 => Some([85, 110, 97, 118, 97, 105, 108, 97, 98, 108, 101, 32, 70, 111, 114, 32, 76, 101, 103, 97, 108, 32, 82, 101, 97, 115, 111, 110, 115]) // "Unavailable For Legal Reasons"
    case _ => None
  }

  /** Canonical reasons of the codes 500 to 505. */
  function ReasonServerA(c: StatusCode): (reason: Option<seq<TextByte>>)
    ensures reason.Some? ==> |reason.value| > 0
  {
    match c
    case 500 => Some([73, 110, 116, 101, 114, 110, 97, 108, 32, 83, 101, 114, 118, 101, 114, 32, 69, 114, 114, 111, 114]) // "Internal Server Error"
    case 501 => Some([78, 111, 116, 32, 73, 109, 112, 108, 101, 109, 101, 110, 116, 101, 100]) // "Not Implemented"
    case 502 => Some([66, 97, 100, 32, 71, 97, 116, 101, 119, 97, 121]) // "Bad Gateway"
    case 503 => Some([83, 101, 114, 118, 105, 99, 101, 32, 85, 110, 97, 118, 97, 105, 108, 97, 98, 108, 101]) // "Service Unavailable"
    case 504 => Some([71, 97, 116, 101, 119, 97, 121, 32, 84, 105, 109, 101, 111, 117, 116]) // "Gateway Timeout"
    case 505 => Some([72, 84, 84, 80, 32, 86, 101, 114, 115, 105, 111, 110, 32, 78, 111, 116, 32, 83, 117, 112, 112, 111, 114, 116, 101, 100]) // "HTTP Version Not Supported"
    case _ => None
  }

  /** Canonical reasons of the codes 506 to 999. */
  function ReasonServerB(c: StatusCode): (reason: Option<seq<TextByte>>)
    ensures reason.Some? ==> |reason.value| > 0 && c <= 511
  {
    match c
    case 506 => Some([86, 97, 114, 105, 97, 110, 116, 32, 65, 108, 115, 111, 32, 78, 101, 103, 111, 116, 105, 97, 116, 101, 115]) // "Variant Also Negotiates"
    case 507 => Some([73, 110, 115, 117, 102, 102, 105, 99, 105, 101, 110, 116, 32, 83, 116, 111, 114, 97, 103, 101]) // "Insufficient Storage"
    case 508 => Some([76, 111, 111, 112, 32, 68, 101, 116, 101, 99, 116, 101, 100]) // "Loop Detected"
    case 510 => Some([78, 111, 116, 32, 69, 120, 116, 101, 110, 100, 101, 100]) // "Not Extended"
    case 511 => Some([78, 101, 116, 119, 111, 114, 107, 32, 65, 117, 116, 104, 101, 110, 116, 105, 99, 97, 116, 105, 111, 110, 32, 82, 101, 113, 117, 105, 114, 101, 100]) // "Network Authentication Required"
    case _ => None
  }

  /** Shown for a code without a canonical reason. */
  const UnknownReason: seq<TextByte> := [60, 117, 110, 107, 110, 111, 119, 110, 32, 115, 116, 97, 116, 117, 115, 32, 99, 111, 100, 101, 62] // "<unknown status code>"

  /** Distinct versions are shown differently. */
  lemma VersionTextInjective(v: Version, w: Version)
    ensures VersionText(v) == VersionText(w) <==> v == w
  {
    if v != w {
      assert VersionText(v)[5] != VersionText(w)[5] || VersionText(v)[7] != VersionText(w)[7];
    }
  }

  /** The ASCII decimal digit `d`. */
  function Digit(d: int): (b: TextByte)
    requires 0 <= d <= 9
    ensures b as int - 48 == d
  {
    (d + 48) as byte
  }

  /** The `Display` form of `http::StatusCode`: three digits, a space, the reason. */
  function StatusText(c: StatusCode): (r: seq<TextByte>)
    ensures |r| >= 4 && r[3] == SP
    ensures r[..3] == [Digit(c / 100), Digit(c / 10 % 10), Digit(c % 10)]
  {
    var reason := if CanonicalReason(c).Some? then CanonicalReason(c).value else UnknownReason;
    [Digit(c / 100), Digit(c / 10 % 10), Digit(c % 10), SP] + reason
  }

  /** `"{:?} {}\r\n"` of the version and the status. */
  function StatusLine(v: Version, c: StatusCode): (line: seq<byte>)
    ensures |line| >= 3 && line[|line| - 2..] == [CR, LF]
    ensures forall j :: 0 <= j < |line| - 1 ==> line[j] != LF
  {
    var text: seq<TextByte> := VersionText(v) + [SP] + StatusText(c);
    text + [CR, LF]
  }

  const COLON: byte := 58

  /** `"{}: {}\r\n"` of a header's name and value. */
  function HeaderLine(h: Header): (line: seq<byte>)
    ensures |line| >= 4 && line[|line| - 2..] == [CR, LF]
  {
    h.name + [COLON, SP] + h.value + [CR, LF]
  }

  /** The header lines, in map order. */
  function HeaderLines(hs: Headers): (lines: seq<byte>)
    ensures |lines| >= 4 * |hs|
    ensures hs != [] ==> lines[|lines| - 2..] == [CR, LF]
  {
    if hs == [] then [] else HeaderLines(hs[..|hs| - 1]) + HeaderLine(hs[|hs| - 1])
  }

  /** The response head as RFC 9112 lays it out: status line, header lines, empty line. */
  function SerializeHead<B>(resp: Response<B>): (head: seq<byte>)
    ensures var line := StatusLine(resp.version, resp.status);
      |head| >= |line| + 2 && head[..|line|] == line
    ensures |head| >= 5 && head[|head| - 4..] == [CR, LF, CR, LF]
  {
    StatusLine(resp.version, resp.status) + HeaderLines(resp.headers) + [CR, LF]
  }

  predicate AllVisible(hs: Headers)
  {
    forall i :: 0 <= i < |hs| ==> IsVisibleAscii(hs[i].value)
  }

  datatype EncodeError = InvalidCharacter | WriteFailed

  /** The buffer and pending error `http_response_write` puts into an `HttpEncode`,
      or the panic of `to_str().unwrap()` on a value that is not visible ASCII. */
  datatype HeadWrite = Written(buffer: seq<byte>, err: Option<EncodeError>) | Panicked

  lemma HeaderLinesSnoc(hs: Headers, i: nat)
    requires i < |hs|
    ensures HeaderLines(hs[..i + 1]) == HeaderLines(hs[..i]) + HeaderLine(hs[i])
  {
    assert hs[..i + 1][..i] == hs[..i];
  }

  lemma AllVisibleSnoc(hs: Headers, i: nat)
    requires i < |hs|
    ensures AllVisible(hs[..i + 1]) == (AllVisible(hs[..i]) && IsVisibleAscii(hs[i].value))
  {
    assert forall j :: 0 <= j < i ==> hs[..i + 1][j] == hs[..i][j];
  }

  /** Lines 141-143: one `writeln!` per header after the bytes `start`, or the
      panic of `to_str().unwrap()` at the first value that is not visible ASCII. */
  method AppendHeaderLines(start: seq<byte>, hs: Headers) returns (lines: Option<seq<byte>>)
    ensures lines == if AllVisible(hs) then Some(start + HeaderLines(hs)) else None
  {
    var buffer := start;
    for i := 0 to |hs|
      invariant buffer == start + HeaderLines(hs[..i])
      invariant AllVisible(hs[..i])
    {
      var h := hs[i];
      AllVisibleSnoc(hs, i);
      if !IsVisibleAscii(h.value) {
        NotAllVisible(hs, i);
        return None;
      }
      HeaderLinesSnoc(hs, i);
      buffer := buffer + HeaderLine(h);
    }
    assert hs[..|hs|] == hs;
    return Some(buffer);
  }

  /** Lines 139-145: the status line, one line per header, then the empty line. */
  method WriteHeadLines<B>(resp: Response<B>) returns (w: HeadWrite)
    ensures w == if AllVisible(resp.headers) then Written(SerializeHead(resp), None) else Panicked
  {
    var lines := AppendHeaderLines(StatusLine(resp.version, resp.status), resp.headers);
    if lines.None? {
      return Panicked;
    }
    return Written(lines.value + [CR, LF], None);
  }

  lemma NotAllVisible(hs: Headers, i: nat)
    requires i < |hs| && !IsVisibleAscii(hs[i].value)
    ensures !AllVisible(hs)
  {
  }

  /** `http_response_write` as written: the guard at line 138 is inverted, so a
      response whose values are all visible gets an empty buffer and the error
      "invalid character in header value", and any other response panics. */
  method ResponseHeadWrite<B>(resp: Response<B>) returns (w: HeadWrite)
    ensures w == if AllVisible(resp.headers) then Written([], Some(InvalidCharacter)) else Panicked
  {
    var isErr := !AllVisible(resp.headers);
    if isErr {
      w := WriteHeadLines(resp);
    } else {
      w := Written([], Some(InvalidCharacter));
    }
  }

  /** `http_response_write` with the guard the error message calls for. */
  method ResponseHeadWriteIntended<B>(resp: Response<B>) returns (w: HeadWrite)
    ensures w == if AllVisible(resp.headers) then Written(SerializeHead(resp), None)
                 else Written([], Some(InvalidCharacter))
  {
    var isErr := !AllVisible(resp.headers);
    if !isErr {
      w := WriteHeadLines(resp);
    } else {
      w := Written([], Some(InvalidCharacter));
    }
  }

  /** A line of at least three bytes whose only LF is its last byte cannot complete a head end. */
  lemma LineNoHeadEnd(s: seq<byte>, line: seq<byte>)
    requires NoHeadEnd(s)
    requires |line| >= 3 && forall j :: 0 <= j < |line| - 1 ==> line[j] != LF
    ensures NoHeadEnd(s + line)
  {
    assert (s + line)[|s| + |line| - 3] == line[|line| - 3];
    PieceNoHeadEnd(s, line, |s| + |line|);
    assert (s + line)[..|s| + |line|] == s + line;
  }

  /** A header the head framing can carry: no LF in its name, a visible value. */
  predicate Framable(h: Header)
  {
    LF !in h.name && IsVisibleAscii(h.value)
  }

  /** The only LF of a framable header's line is its last byte. */
  lemma HeaderLineOneLF(h: Header)
    requires Framable(h)
    ensures var line := HeaderLine(h); forall j :: 0 <= j < |line| - 1 ==> line[j] != LF
  {
    var line := HeaderLine(h);
    forall j | 0 <= j < |line| - 1 ensures line[j] != LF {
      if j < |h.name| {
        assert line[j] == h.name[j];
      } else if j >= |h.name| + 2 && j < |h.name| + 2 + |h.value| {
        assert line[j] == h.value[j - |h.name| - 2];
      }
    }
  }

  /** A status line followed by header lines holds no head end and ends with CR LF. */
  lemma {:induction false} LinesNoHeadEnd(status: seq<byte>, hs: Headers)
    requires |status| >= 3 && status[|status| - 2..] == [CR, LF]
    requires forall j :: 0 <= j < |status| - 1 ==> status[j] != LF
    requires forall i :: 0 <= i < |hs| ==> Framable(hs[i])
    ensures var s := status + HeaderLines(hs);
      NoHeadEnd(s) && |s| >= 2 && s[|s| - 2..] == [CR, LF]
  {
    if hs == [] {
      LineNoHeadEnd([], status);
      assert [] + status == status + HeaderLines(hs);
    } else {
      var init := hs[..|hs| - 1];
      var h := hs[|hs| - 1];
      FramableInit(hs);
      LinesNoHeadEnd(status, init);
      LineStep(status + HeaderLines(init), h);
      AppendAssoc(status, HeaderLines(init), HeaderLine(h));
    }
  }

  lemma FramableInit(hs: Headers)
    requires hs != [] && forall i :: 0 <= i < |hs| ==> Framable(hs[i])
    ensures var init := hs[..|hs| - 1]; forall i :: 0 <= i < |init| ==> Framable(init[i])
  {
    var init := hs[..|hs| - 1];
    forall i | 0 <= i < |init| ensures Framable(init[i]) {
      assert init[i] == hs[i];
    }
  }

  /** One more framable header line keeps the bytes free of a head end and closed by CR LF. */
  lemma LineStep(prefix: seq<byte>, h: Header)
    requires NoHeadEnd(prefix) && Framable(h)
    ensures var s := prefix + HeaderLine(h);
      NoHeadEnd(s) && |s| >= 2 && s[|s| - 2..] == [CR, LF]
  {
    var line := HeaderLine(h);
    HeaderLineOneLF(h);
    LineNoHeadEnd(prefix, line);
    EndsWithCRLF(prefix, line);
  }

  lemma EndsWithCRLF(a: seq<byte>, b: seq<byte>)
    requires |b| >= 2 && b[|b| - 2..] == [CR, LF]
    ensures (a + b)[|a + b| - 2..] == [CR, LF]
  {
    assert (a + b)[|a + b| - 2..] == b[|b| - 2..];
  }

  /** Lines without a head end that close with CR LF, then one more CR LF:
      these are the head of any stream they start. */
  lemma ClosedHeadIsHead(lines: seq<byte>, rest: seq<byte>)
    requires NoHeadEnd(lines) && |lines| >= 2 && lines[|lines| - 2..] == [CR, LF]
    ensures IsHeadOf(lines + [CR, LF] + rest, lines + [CR, LF])
  {
    var head := lines + [CR, LF];
    assert head[|head| - 4] == lines[|lines| - 2] && head[|head| - 3] == lines[|lines| - 1];
    assert head[..|head| - 1] == lines + [CR];
    PieceNoHeadEnd(lines, [CR], |lines| + 1);
    assert (lines + [CR])[..|lines| + 1] == lines + [CR];
    assert (head + rest)[..|head|] == head;
  }

  /** The serialised head is exactly what the head decoder's delimiter takes
      as the head of the stream, whatever body bytes follow it, once names
      hold no LF and values are visible ASCII. */
  lemma SerializedHeadIsHead<B>(resp: Response<B>, rest: seq<byte>)
    requires forall i :: 0 <= i < |resp.headers| ==> LF !in resp.headers[i].name
    requires AllVisible(resp.headers)
    ensures IsHeadOf(SerializeHead(resp) + rest, SerializeHead(resp))
  {
    var status := StatusLine(resp.version, resp.status);
    assert forall i :: 0 <= i < |resp.headers| ==> Framable(resp.headers[i]);
    LinesNoHeadEnd(status, resp.headers);
    ClosedHeadIsHead(status + HeaderLines(resp.headers), rest);
  }

  /** One answer of the connection to a write: it takes up to `n` bytes, fails, or is not ready. */
  datatype WriteOutcome = Accepts(n: nat) | WriteFails | WriteBlocks

  /** A connection being written: what it has taken so far and its next answers. */
  datatype Sink = Sink(written: seq<byte>, script: seq<WriteOutcome>)

  /** Every answer took bytes. */
  predicate AcceptsOnly(answers: seq<WriteOutcome>)
  {
    forall i :: 0 <= i < |answers| ==> answers[i].Accepts?
  }

  /** Every answer takes at least one byte. */
  predicate AlwaysTakes(script: seq<WriteOutcome>)
  {
    forall i :: 0 <= i < |script| ==> script[i].Accepts? && script[i].n > 0
  }

  /** Writing stopped at answer `p`, a failure, every earlier answer having taken bytes. */
  predicate FailsAt(script: seq<WriteOutcome>, p: nat)
  {
    p < |script| && script[p] == WriteFails && AcceptsOnly(script[..p])
  }

  /** Writing stopped at answer `p`, which says the connection is not ready
      (or there is no answer `p` yet), every earlier answer having taken bytes. */
  predicate BlocksAt(script: seq<WriteOutcome>, p: nat)
  {
    p <= |script| && AcceptsOnly(script[..p]) && (p == |script| || script[p] == WriteBlocks)
  }

  /** The answers left once answer `p` has been taken. */
  function After(script: seq<WriteOutcome>, p: nat): seq<WriteOutcome>
    requires p <= |script|
  {
    if p < |script| then script[p + 1..] else []
  }

  datatype EncodePoll = Ready(result: Result<Sink, EncodeError>) | Pending | PollPanicked

  /** The connection's next answer takes at least `n` bytes at once. */
  predicate OneWriteSuffices(t: Sink, n: nat)
  {
    |t.script| > 0 && t.script[0].Accepts? && t.script[0].n >= n
  }

  function Min(a: nat, b: nat): nat
  {
    if a < b then a else b
  }

  class HttpEncode {
    var transport: Option<Sink>
    const buffer: seq<byte>
    var off: nat
    var err: Option<EncodeError>

    /** Line 150: `HttpEncode { transport, buffer, off: 0, err }`. */
    constructor (transport: Sink, buffer: seq<byte>, err: Option<EncodeError>)
      ensures this.transport == Some(transport) && this.buffer == buffer
      ensures off == 0 && this.err == err
    {
      this.transport := Some(transport);
      this.buffer := buffer;
      this.off := 0;
      this.err := err;
    }

    /** `HttpEncode::poll` as written: a stored error is returned first; the
        write loop runs only while `buffer.len() < off` (line 171), which an
        encoder starting at `off == 0` never satisfies, so it hands the
        transport back without writing. If the guard ever held, its first
        iteration would panic taking `buffer[off..]` past the end. */
    method Poll() returns (r: EncodePoll)
      requires transport.Some?
      modifies this
      ensures off == old(off) && transport == None
      ensures old(err).Some? ==> r == Ready(Err(old(err).value)) && err == None
      ensures old(err).None? ==> err == None
      ensures old(err).None? && |buffer| < off ==> r == PollPanicked
      ensures old(err).None? && off <= |buffer| ==> r == Ready(Ok(old(transport).value))
    {
      var t := transport.value;
      transport := None;
      if err.Some? {
        var e := err.value;
        err := None;
        return Ready(Err(e));
      }
      if |buffer| < off {
        // The loop at line 171: its body takes `&self.buffer[self.off..]`,
        // out of range whenever the guard holds, so no iteration completes.
        return PollPanicked;
      }
      return Ready(Ok(t));
    }

    /** `HttpEncode::poll` with the loop guard `off < buffer.len()`: every byte
        the connection takes is the next unwritten byte of the buffer. */
    method PollIntended() returns (r: EncodePoll)
      requires transport.Some? && off <= |buffer|
      modifies this
      ensures off <= |buffer| && old(off) <= off
      ensures old(err).Some? ==> r == Ready(Err(old(err).value)) && err == None && transport == None
      ensures old(err).None? ==> err == None
      ensures r.Pending? ==>
                transport.Some? && transport.value.written == old(transport.value.written) + buffer[old(off)..off]
      ensures old(err).None? && r.Ready? && r.result.Ok? ==>
                transport == None && off == |buffer| && r.result.value.written == old(transport.value.written) + buffer[old(off)..]
      ensures old(err).None? && r.Ready? && r.result.Err? ==>
                transport == None && r.result.error == WriteFailed && off < |buffer| &&
                exists p :: FailsAt(old(transport.value.script), p)
      ensures r.Pending? ==>
                transport.Some? && off < |buffer| &&
                exists p :: BlocksAt(old(transport.value.script), p) && transport.value.script == After(old(transport.value.script), p)
      ensures r != PollPanicked
      ensures old(err).None? ==>
                var w := Writes(old(transport.value.script), |buffer| - old(off));
                && off == old(off) + w.taken
                && (r.Pending? <==> w.stop == Blocked)
                && (r == Ready(Err(WriteFailed)) <==> w.stop == Failed)
                && (r.Pending? ==> transport == Some(Sink(old(transport.value.written) + buffer[old(off)..off], old(transport.value.script)[w.used..])))
                && (r.Ready? && r.result.Ok? ==> r.result.value == Sink(old(transport.value.written) + buffer[old(off)..], old(transport.value.script)[w.used..]))
      ensures old(err).None? && r.Ready? && r.result.Ok? ==>
                IsSuffix(r.result.value.script, old(transport.value.script)) &&
                AcceptsOnly(old(transport.value.script)[..|old(transport.value.script)| - |r.result.value.script|]) &&
                (old(off) < |buffer| ==> |r.result.value.script| < |old(transport.value.script)|)
      ensures old(err).None? && old(off) < |buffer| && OneWriteSuffices(old(transport.value), |buffer| - old(off)) ==>
                r == Ready(Ok(Sink(old(transport.value.written) + buffer[old(off)..], old(transport.value.script)[1..])))
      ensures old(err).None? && AlwaysTakes(old(transport.value.script)) && |buffer| - old(off) <= |old(transport.value.script)| ==>
                r.Ready? && r.result.Ok? && r.result.value.written == old(transport.value.written) + buffer[old(off)..]
    {
      var t := transport.value;
      transport := None;
      if err.Some? {
        var e := err.value;
        err := None;
        return Ready(Err(e));
      }
      ghost var room := |buffer| - off;
      var f, t', o := WriteOut(t, buffer, off);
      FlushFacts(t, buffer, off, f, t', o);
      off := o;
      match f
      case Flushed =>
        return Ready(Ok(t'));
      case Failed =>
        return Ready(Err(WriteFailed));
      case Blocked =>
        transport := Some(t');
        return Pending;
    }
  }

  /** How the write loop of `HttpEncode::poll` stops. */
  datatype Flush = Flushed | Blocked | Failed

  /** One run of the write loop: the bytes the connection took, the answers
      the loop used, and how it stopped. */
  datatype WriteRun = WriteRun(taken: nat, used: nat, stop: Flush)

  /** The write loop of `HttpEncode::poll` with the guard `off < buffer.len()`,
      over a connection with the answers `script` and `room` bytes still to
      write: how many bytes the connection takes, how many answers the loop
      uses, and how it stops. Each answer `Accepts(n)` takes up to `n` bytes. */
  function Writes(script: seq<WriteOutcome>, room: nat): (w: WriteRun)
    ensures w.taken <= room && w.used <= |script|
    ensures w.stop == Flushed <==> w.taken == room
  {
    if room == 0 then WriteRun(0, 0, Flushed)
    else if script == [] then WriteRun(0, 0, Blocked)
    else match script[0]
      case Accepts(n) =>
        var m := Min(n, room);
        var w := Writes(script[1..], room - m);
        WriteRun(m + w.taken, 1 + w.used, w.stop)
      case WriteFails => WriteRun(0, 0, Failed)
      case WriteBlocks => WriteRun(0, 1, Blocked)
  }

  /** The state of the write loop after `k` answers: the connection has been
      handed the bytes from `off0` to `off`, and what `Writes` says of the
      answers left makes up what it says of the whole run. */
  ghost predicate WriteLoop(t0: Sink, buffer: seq<byte>, off0: nat, written: seq<byte>, script: seq<WriteOutcome>, off: nat, k: nat)
  {
    && off0 <= off <= |buffer| && k <= |t0.script| && script == t0.script[k..]
    && written == t0.written + buffer[off0..off]
    && var w, w0 := Writes(script, |buffer| - off), Writes(t0.script, |buffer| - off0);
       off - off0 + w.taken == w0.taken && k + w.used == w0.used && w.stop == w0.stop
  }

  lemma WriteLoopStep(t0: Sink, buffer: seq<byte>, off0: nat, written: seq<byte>, script: seq<WriteOutcome>, off: nat, k: nat)
    requires WriteLoop(t0, buffer, off0, written, script, off, k)
    requires off < |buffer| && script != [] && script[0].Accepts?
    ensures var m := Min(script[0].n, |buffer| - off);
      WriteLoop(t0, buffer, off0, written + buffer[off..off + m], script[1..], off + m, k + 1)
  {
    var m := Min(script[0].n, |buffer| - off);
    WritesAccepts(script, |buffer| - off);
    SliceSplit(buffer, off0, off, off + m);
    AppendAssoc(t0.written, buffer[off0..off], buffer[off..off + m]);
  }

  /** One accepting answer hands over up to its size and passes on to the next. */
  lemma WritesAccepts(script: seq<WriteOutcome>, room: nat)
    requires room > 0 && script != [] && script[0].Accepts?
    ensures var m := Min(script[0].n, room); var w := Writes(script[1..], room - m);
      Writes(script, room) == WriteRun(m + w.taken, 1 + w.used, w.stop)
  {
  }

  /** A loop that writes the buffer out has met accepting answers only. */
  lemma {:induction false} WritesFlushed(script: seq<WriteOutcome>, room: nat)
    requires Writes(script, room).stop == Flushed
    ensures AcceptsOnly(script[..Writes(script, room).used])
  {
    if room > 0 {
      var m := Min(script[0].n, room);
      WritesFlushed(script[1..], room - m);
      AcceptsCons(script, Writes(script[1..], room - m).used);
    }
  }

  /** A loop that fails stops at the first failing answer, all earlier ones accepting. */
  lemma {:induction false} WritesFails(script: seq<WriteOutcome>, room: nat)
    requires Writes(script, room).stop == Failed
    ensures FailsAt(script, Writes(script, room).used)
  {
    if script[0].Accepts? {
      var m := Min(script[0].n, room);
      WritesFails(script[1..], room - m);
      FailsCons(script, Writes(script[1..], room - m).used);
    } else {
      assert script[..0] == [];
    }
  }

  /** A loop that is blocked has run out of answers, or has used up a
      not-ready answer, all earlier ones accepting. */
  lemma {:induction false} WritesBlocks(script: seq<WriteOutcome>, room: nat)
    requires Writes(script, room).stop == Blocked
    ensures var w := Writes(script, room);
      (w.used == |script| && BlocksAt(script, w.used)) || (w.used > 0 && BlocksAt(script, w.used - 1) && w.used - 1 < |script|)
  {
    if script == [] {
    } else if script[0].Accepts? {
      var m := Min(script[0].n, room);
      var w := Writes(script[1..], room - m);
      WritesBlocks(script[1..], room - m);
      if w.used == |script[1..]| && BlocksAt(script[1..], w.used) {
        BlocksCons(script, w.used);
      } else {
        BlocksCons(script, w.used - 1);
      }
    } else {
      assert script[..0] == [];
    }
  }

  /** Every answer a loop that writes anything uses is counted. */
  lemma WritesUses(script: seq<WriteOutcome>, room: nat)
    requires Writes(script, room).taken > 0
    ensures Writes(script, room).used > 0
  {
  }

  lemma AcceptsCons(script: seq<WriteOutcome>, p: nat)
    requires script != [] && script[0].Accepts? && p < |script|
    ensures AcceptsOnly(script[1..][..p]) ==> AcceptsOnly(script[..p + 1])
  {
    assert script[..p + 1] == [script[0]] + script[1..][..p];
  }

  lemma FailsCons(script: seq<WriteOutcome>, p: nat)
    requires script != [] && script[0].Accepts?
    ensures FailsAt(script[1..], p) ==> FailsAt(script, p + 1)
  {
    if FailsAt(script[1..], p) {
      AcceptsCons(script, p);
      assert script[p + 1] == script[1..][p];
    }
  }

  lemma BlocksCons(script: seq<WriteOutcome>, p: nat)
    requires script != [] && script[0].Accepts?
    ensures BlocksAt(script[1..], p) ==> BlocksAt(script, p + 1)
  {
    if BlocksAt(script[1..], p) {
      AcceptsCons(script, p);
      if p < |script[1..]| {
        assert script[p + 1] == script[1..][p];
      }
    }
  }

  /** What the caller of `WriteOut` learns about the answers it met, by the
      way the loop stopped. */
  lemma FlushFacts(t0: Sink, buffer: seq<byte>, off0: nat, f: Flush, t: Sink, off: nat)
    requires off0 <= |buffer|
    requires var w := Writes(t0.script, |buffer| - off0);
      && f == w.stop && off == off0 + w.taken
      && t == Sink(t0.written + buffer[off0..off], t0.script[w.used..])
    ensures off0 <= off <= |buffer| && (f == Flushed <==> off == |buffer|)
    ensures f == Flushed ==>
              && IsSuffix(t.script, t0.script) && AcceptsOnly(t0.script[..|t0.script| - |t.script|])
              && (off0 < |buffer| ==> |t.script| < |t0.script|)
    ensures f == Failed ==> exists p :: FailsAt(t0.script, p)
    ensures f == Blocked ==> exists p :: BlocksAt(t0.script, p) && t.script == After(t0.script, p)
    ensures off0 < |buffer| && OneWriteSuffices(t0, |buffer| - off0) ==>
              f == Flushed && t == Sink(t0.written + buffer[off0..], t0.script[1..])
    ensures AlwaysTakes(t0.script) && |buffer| - off0 <= |t0.script| ==> f == Flushed
  {
    var room := |buffer| - off0;
    var w := Writes(t0.script, room);
    match f {
      case Flushed =>
        WritesFlushed(t0.script, room);
        if room > 0 {
          WritesUses(t0.script, room);
        }
      case Failed =>
        WritesFails(t0.script, room);
      case Blocked =>
        WritesBlocks(t0.script, room);
        if w.used == |t0.script| && BlocksAt(t0.script, w.used) {
          assert t.script == After(t0.script, w.used);
        } else {
          assert t.script == After(t0.script, w.used - 1);
        }
    }
    if AlwaysTakes(t0.script) && room <= |t0.script| {
      WritesAll(t0.script, room);
    }
    if room > 0 && OneWriteSuffices(t0, room) {
      WritesOnce(t0.script, room);
    }
  }

  /** A connection whose every answer takes at least one byte, with at least
      as many answers as bytes still to write, is handed the whole buffer. */
  lemma {:induction false} WritesAll(script: seq<WriteOutcome>, room: nat)
    requires AlwaysTakes(script) && room <= |script|
    ensures Writes(script, room).stop == Flushed
  {
    if room > 0 {
      var m := Min(script[0].n, room);
      assert AlwaysTakes(script[1..]) by {
        forall i | 0 <= i < |script[1..]| ensures script[1..][i].Accepts? && script[1..][i].n > 0 {
          assert script[1..][i] == script[i + 1];
        }
      }
      WritesAll(script[1..], room - m);
    }
  }

  /** A connection whose next answer takes everything left is handed it in that one answer. */
  lemma WritesOnce(script: seq<WriteOutcome>, room: nat)
    requires room > 0 && script != [] && script[0].Accepts? && script[0].n >= room
    ensures Writes(script, room) == WriteRun(room, 1, Flushed)
  {
    assert Writes(script[1..], 0) == WriteRun(0, 0, Flushed);
  }

  /** The write loop of `HttpEncode::poll` with the guard `off < buffer.len()`:
      it hands the connection the unwritten bytes from `off0` on, in order,
      answer by answer, exactly as `Writes` says. */
  method WriteOut(t0: Sink, buffer: seq<byte>, off0: nat) returns (f: Flush, t: Sink, off: nat)
    requires off0 <= |buffer|
    ensures var w := Writes(t0.script, |buffer| - off0);
      && f == w.stop && off == off0 + w.taken
      && t == Sink(t0.written + buffer[off0..off], t0.script[w.used..])
  {
    var written, script := t0.written, t0.script;
    off := off0;
    ghost var k := 0;
    while off < |buffer|
      invariant WriteLoop(t0, buffer, off0, written, script, off, k)
      decreases |script|
    {
      if script == [] {
        return Blocked, Sink(written, script), off;
      }
      match script[0]
      case Accepts(n) =>
        var m := Min(n, |buffer| - off);
        WriteLoopStep(t0, buffer, off0, written, script, off, k);
        written, script := written + buffer[off..off + m], script[1..];
        off := off + m;
        k := k + 1;
      case WriteFails =>
        return Failed, Sink(written, script), off;
      case WriteBlocks =>
        return Blocked, Sink(written, script[1..]), off;
    }
    return Flushed, Sink(written, script), off;
  }

  /** `http_response_write` followed by the first `HttpEncode::poll`, as written:
      a response whose values are all visible ASCII is answered with the error
      "invalid character in header value" and nothing is written. */
  method SendHeadAsWritten(resp: Response<Sink>) returns (r: EncodePoll, panicked: bool)
    ensures panicked <==> !AllVisible(resp.headers)
    ensures !panicked ==> r == Ready(Err(InvalidCharacter))
  {
    var w := ResponseHeadWrite(resp);
    if w.Panicked? {
      return PollPanicked, true;
    }
    var enc := new HttpEncode(resp.body, w.buffer, w.err);
    r := enc.Poll();
    panicked := false;
  }

  /** The write loop as written, given the buffer the intended writer builds:
      it returns the connection without having written any of the head. */
  method PollAsWrittenSkipsHead(resp: Response<Sink>) returns (r: EncodePoll)
    requires AllVisible(resp.headers)
    ensures r == Ready(Ok(resp.body))
    ensures |SerializeHead(resp)| > 0
  {
    var enc := new HttpEncode(resp.body, SerializeHead(resp), None);
    r := enc.Poll();
  }

  /** The intended writer and poll: over a connection that takes the head in
      one write, the connection receives exactly the serialised head. */
  method SendHeadIntended(resp: Response<Sink>) returns (r: EncodePoll)
    requires AllVisible(resp.headers)
    requires |resp.body.script| == 1 && resp.body.script[0].Accepts?
    requires resp.body.script[0].n >= |SerializeHead(resp)|
    ensures r == Ready(Ok(Sink(resp.body.written + SerializeHead(resp), [])))
  {
    var w := ResponseHeadWriteIntended(resp);
    var enc := new HttpEncode(resp.body, w.buffer, w.err);
    r := enc.PollIntended();
  }

  /** Resuming the intended poll: when the first poll stops at a not-ready
      answer and the second writes the rest out, the connection receives the
      buffer exactly once, in order, and keeps the answers after it. */
  method PollResumed(t: Sink, buffer: seq<byte>) returns (first: EncodePoll, second: EncodePoll)
    requires var w := Writes(t.script, |buffer|);
      w.stop == Blocked && Writes(t.script[w.used..], |buffer| - w.taken).stop == Flushed
    ensures first == Pending
    ensures var w := Writes(t.script, |buffer|);
      var rest := t.script[w.used..];
      second == Ready(Ok(Sink(t.written + buffer, rest[Writes(rest, |buffer| - w.taken).used..])))
  {
    var enc := new HttpEncode(t, buffer, None);
    first := enc.PollIntended();
    ghost var w := Writes(t.script, |buffer|);
    ghost var rest := t.script[w.used..];
    assert first == Pending && enc.err == None && enc.off == w.taken;
    assert enc.transport == Some(Sink(t.written + buffer[0..w.taken], rest));
    second := enc.PollIntended();
    ResumedBytes(t.written, buffer, w.taken);
  }

  /** The bytes of two consecutive writes of a buffer, split at `mid`, are the buffer. */
  lemma ResumedBytes(written: seq<byte>, buffer: seq<byte>, mid: nat)
    requires mid <= |buffer|
    ensures (written + buffer[0..mid]) + buffer[mid..] == written + buffer[0..]
  {
    SliceSplit(buffer, 0, mid, |buffer|);
    assert buffer[0..|buffer|] == buffer[mid..][0..0] + buffer[0..|buffer|];
    AppendAssoc(written, buffer[0..mid], buffer[mid..]);
  }
}
