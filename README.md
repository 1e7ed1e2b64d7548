# async-net-server-utils, modelled in Dafny

This project models the deterministic core of the Rust crate
`async-net-server-utils`. The crate is a set of `Stream` adapters that turn
incoming connections into TLS streams and HTTP/1.1 requests. The model covers
three parts.

- **HTTP/1.1 head framing and serialisation** (`src/http.rs`).
  - `HttpDecode::poll` accumulates a request head into a fixed 8192-byte
    array. It reads one piece at a time, a piece running up to and including
    the next LF. It stops at the first CR LF CR LF (section 2.1 of RFC 9112).
  - `http_request_parse` checks what `httparse` reports and builds an HTTP/1.1
    request.
  - `http_response_write` serialises a status line, the header lines and the
    closing blank line.
  - `HttpEncode::poll` writes that buffer to the connection.
- **The drain-then-admit rule** of the three incoming streams:
  `HttpIncoming::poll_next` in `src/http.rs` and in `src/h1.rs`, and
  `TlsIncoming::poll_next` in `src/tls.rs`. Each stream keeps a pool of
  in-flight futures (a `FuturesUnordered`).
  - A completed entry is returned first.
  - A failed entry is logged and skipped.
  - Upstream is polled for a new connection only when nothing in the pool is
    ready. Each connection adds exactly one entry.
- **Responses on `src/h1.rs`.**
  - `HttpRequest::response` drains the request body, then starts a `200 OK`
    response.
  - `HttpResponse::insert_header` and `set_status` each change only what they
    name.
  - `send` forces `transfer-encoding: chunked` (section 6.1 of RFC 9112).

## Files

- **`prelude.dfy`**: bytes, the ASCII bytes used by the HTTP syntax, suffixes,
  and `Option`/`Result`.
- **`header_map.dfy`**
  - `HeaderMap`: the header map as an ordered sequence of (name, value)
    pairs, with `append` and `insert`.
  - `HeaderSyntax`: the byte classes of header names and values.
- **`head_framing.dfy`**: what "the head of a byte stream" means, and why it
  is unique.
- **`http_parse.dfy`**: `http_request_parse`.
- **`http_decode.dfy`**: `http_accept` and `HttpDecode`, a class over an
  8192-byte `array<byte>`.
- **`http_encode.dfy`**: `http_response_write` and `HttpEncode`, each both as
  written and as evidently intended.
- **`select.dfy`**: the shared loop of the three `poll_next`s, as one
  specification function `Run` with its lemmas.
- **`http_stream.dfy`**, **`h1.dfy`**, **`tls.dfy`**: the three stream classes.
  Each `PollNext` is a `while` loop proved equal to `Run`. `h1.dfy` also holds
  `response()` and `HttpResponse`.

### Deterministic stand-ins for I/O

- **Connections.**
  - A connection being read is a `Source`: the bytes its `BufReader` holds,
    then its scripted answers to `poll_fill_buf` (data, an error, or not
    ready).
  - A connection being written is a `Sink`: what it has taken, then its
    answers to `poll_write`.
- **Pool and upstream.**
  - A pool of futures answers each poll from a `Readiness` script. One answer
    either completes entry `k` (the last entry when `k` is past the end) or says that nothing
    is ready.
  - Upstream answers from an `Upstream` script: a connection, the end, or not
    ready.
  - What an entry completes with is a parameter: `decode`, `accept`, or
    `decode` combined with `fromHead`.
- **The tokeniser.** The report of `httparse` is a parameter, `tokenize`.

## Model

| member | source | states |
|---|---|---|
| HeaderMap.Append | src/http.rs:118-122 | appending a header adds exactly one entry at the end, extends that name's values by the new value in order (duplicates kept), and leaves every other name's values alone |
| HeaderMap.Insert | src/h1.rs:168-171 | after an insert the name has exactly the one new value, every other name keeps its values, an existing name keeps its first position, and a new name is appended at the end |
| HeaderMap.WithoutProperties | src/h1.rs:168-171 | removing a name leaves no value under it, is idempotent, and leaves every other name's values unchanged |
| HeaderMap.SameWithoutEverywhere | src/h1.rs:168-171 | two maps that agree once a name is removed agree on every other name, which is what makes an insert change only the named header |
| HeaderMap.FirstIndex | src/h1.rs:168-171 | the index of a name's first entry: below the length exactly when the name is present, and no earlier entry has that name |
| HeaderMap.InsertEntries | src/h1.rs:168-171 | an insert adds no entry other than the inserted pair |
| HeaderMap.InsertTwice | src/h1.rs:168-171 | a second insert under the same name supersedes the first: the map is as if only the second happened |
| HeaderMap.ValuesOfHas | src/h1.rs:168-171 | every entry's value is among the values its name holds |
| HeaderSyntax.Lower | src/http.rs:120 | header names are lower-cased byte by byte (A-Z to a-z), length kept |
| HttpParse.ConvertHeaders | src/http.rs:116-123 | the headers convert exactly when every name and value is accepted; the result then lists, in the original order, the lower-cased name and the value of each; otherwise the error is that of the first refused header |
| HttpParse.ConvertHeadersErrSticks | src/http.rs:116-123 | the `?` in the loop aborts it: once a prefix of the headers is refused, the whole list is refused with the same error |
| HttpParse.Parse | src/http.rs:100-125 | a syntax error, a partial head ("invalid HTTP head"), more than 128 headers, a minor version other than 1 ("unsupported HTTP version"), a bad method, a bad URI and a refused header each give their error, checked in that order; a request is produced exactly when the head is complete, has at most 128 headers and version 1.1, and its method, URI and every header are accepted; it is always HTTP/1.1, carries the body, the method and path, and the headers in order |
| HttpParse.ConvertHeader | src/http.rs:120-121 | one header converts exactly when its name is a token and its value is accepted, into the lower-cased name and the value; a refused name gives the name error, and a good name with a refused value the value error |
| HttpParse.RequestParse | src/http.rs:100-125 | the function's steps, in their order, give exactly `Parse` of the tokeniser's report |
| HttpParse.AppendHeaders | src/http.rs:116-123 | the header loop computes exactly `ConvertHeaders` (invariant: the prefix converted so far) |
| HeadFraming.HeadUnique | src/http.rs:74-79 | a byte stream has at most one head, the prefix through its first CR LF CR LF |
| HeadFraming.PieceNoHeadEnd | src/http.rs:63-74 | appending a piece whose only LF is its last byte can complete a head only at the piece's end, so checking `ends_with` after each piece misses no earlier head end |
| HttpDecoding.FillBuf | src/http.rs:60-61 | `poll_fill_buf` consumes nothing: held bytes are returned as they are, otherwise the next read answer is taken; a failure comes only from an error answer and pending only from a not-ready answer or an exhausted script |
| HttpDecoding.PieceLength | src/http.rs:63-66 | a piece runs through the first LF of the available bytes, or is all of them when they hold no LF: non-empty, no LF before its last byte |
| HttpDecoding.PieceOverflows | src/http.rs:67-69 | when the next piece would overflow the 8192-byte array, the first 8192 bytes of the stream hold no head end, so "HTTP head too long" is correct |
| HttpDecoding.PieceEndsHead | src/http.rs:74-79 | when the accumulated bytes end with CR LF CR LF after a piece, they are exactly the head of the stream |
| HttpDecoding.HttpDecode.Accept | src/http.rs:92-98 | `http_accept`: a new decoder holds the connection in a fresh buffered reader with no bytes buffered yet, an empty 8192-byte buffer and `len` 0 |
| HttpDecoding.HttpDecode.AppendPiece | src/http.rs:70-72 | copying a piece appends it to the accumulated bytes and advances `len` by its length |
| HttpDecoding.HttpDecode.CopyPiece | src/http.rs:63-79 | one pass of the inner loop: the accumulated bytes stay a prefix of the stream and the held bytes shrink, or the poll finishes with the overflow error or the parsed head |
| HttpDecoding.HttpDecode.CopyBuffered | src/http.rs:62-80 | the inner loop consumes all held bytes while keeping the accumulated bytes the prefix of the stream consumed so far, or finishes the poll |
| HttpDecoding.HttpDecode.Poll | src/http.rs:54-89 | one poll, which reads some number of data answers and then the answer that decides: the accumulated bytes lie between their old value and the stream; Pending comes from a not-ready answer or an exhausted script right after those data answers and keeps everything they delivered, at most 8192 bytes with no head end, together with the connection; a read error is the answer right after the data answers, with everything before it accumulated and no head end in it; "head too long" means more than 8192 bytes were delivered with no head end in the first 8192; otherwise the accumulated bytes are exactly the stream's head, within what was delivered, the rest of the stream is untouched, and the result is the parse of the head |
| HttpDecoding.ParseOutcome | src/http.rs:75-78 | a decoded request is always HTTP/1.1 over the rest of the connection; a refused head is reported as invalid |
| HttpDecoding.PollCompletes | src/http.rs:59-80 | when the connection's answers up to some point are all data and deliver a head of at most 8192 bytes (8192 itself included), the poll always finds that head, whatever comes later: it returns its parse and leaves exactly the bytes after it |
| HttpDecoding.DataBytesAppend | src/http.rs:60-61 | two runs of read answers, one after the other, deliver the bytes of the first followed by those of the second |
| HttpDecoding.DeliveredPrefix | src/http.rs:60-61 | what the reads deliver after some answers is a prefix of what they deliver after more answers, and of the whole stream |
| HttpDecoding.HeadExtends | src/http.rs:74-79 | the head found in the bytes delivered so far is the head of the whole stream |
| HttpEncoding.StatusText | src/http.rs:140 | the `Display` of a status code starts with its three decimal digits followed by a space |
| HttpEncoding.VersionText | src/http.rs:140 | the `Debug` form of a version is eight bytes, `HTTP/` then a digit, a dot and a digit |
| HttpEncoding.VersionTextInjective | src/http.rs:140 | different versions print differently, so the status line names the version unambiguously |
| HttpEncoding.CanonicalReason | src/http.rs:140 | a status code with a reason phrase is one the `http` crate knows (at most 511) and the phrase is non-empty |
| HttpEncoding.StatusLine | src/http.rs:140 | the status line ends with CR LF and has no LF before its end |
| HttpEncoding.HeaderLine | src/http.rs:142 | a header line ends with CR LF |
| HttpEncoding.HeaderLines | src/http.rs:141-143 | the header lines of a map take at least four bytes per header and, when there is a header, end with CR LF |
| HttpEncoding.SerializeHead | src/http.rs:139-145 | the serialised head starts with the status line followed by more bytes, and ends with CR LF CR LF |
| HttpEncoding.WriteHeadLines | src/http.rs:139-145 | the `writeln!` loop produces exactly the status line, the header lines in order and the blank line when every value is visible ASCII, and panics at the first `to_str().unwrap()` otherwise |
| HttpEncoding.AppendHeaderLines | src/http.rs:141-143 | the header loop succeeds exactly when every value is visible ASCII, and then appends the header lines, in map order, to the status line |
| HttpEncoding.ResponseHeadWrite | src/http.rs:127-151 | as written (guard at line 138 inverted): all-visible values give an empty buffer and the error "invalid character in header value"; any invisible value panics |
| HttpEncoding.ResponseHeadWriteIntended | src/http.rs:133-148 | with the guard corrected: all-visible values give the serialised head and no error, anything else the error and an empty buffer |
| HttpEncoding.LinesNoHeadEnd | src/http.rs:140-143 | a status line and header lines without bare LFs hold no CR LF CR LF before the blank line |
| HttpEncoding.SerializedHeadIsHead | src/http.rs:139-145 | the serialised head, followed by any body bytes, is exactly the head a decoder finds: serialising and framing agree |
| HttpEncoding.HttpEncode.constructor | src/http.rs:150 | an encoder starts with the connection, the buffer, `off` 0 and the stored error |
| HttpEncoding.HttpEncode.Poll | src/http.rs:163-182 | as written: a stored error is returned first, taken out of the encoder; the loop guard `buffer.len() < off` is false from `off` 0, so the connection is returned with nothing written |
| HttpEncoding.HttpEncode.PollIntended | src/http.rs:163-182 | with the loop guard `off < buffer.len()`: a stored error is returned first; otherwise the poll ends exactly as `Writes` says: `off` advances by the bytes the accepting answers took, a Pending poll keeps the connection with exactly the next unwritten bytes appended, in order, and the answers not used, a completed poll returns it likewise, and the stop reason is Pending or a write error exactly when `Writes` stops there; a completed poll has written the whole rest of the buffer after accepting answers only; a write error is reported only when a write failed, every earlier answer having accepted bytes; Pending only on a not-ready answer or an exhausted script after accepting answers, keeping the connection with the answers after it; one write large enough completes it, and so does a connection whose every answer takes at least one byte with enough answers |
| HttpEncoding.PollResumed | src/http.rs:163-182 | the intended poll resumes where it stopped: when a first poll stops at a not-ready answer and a second writes the rest out, the connection receives the whole buffer exactly once, in order, keeping the answers after those used |
| HttpEncoding.WriteOut | src/http.rs:171-180 | the corrected write loop ends exactly as `Writes` says: `off` advances by the bytes taken, the connection receives exactly the unwritten bytes from `off` on up to there, in order, and keeps the answers not used |
| HttpEncoding.Writes | src/http.rs:171-180 | a run of the write loop never takes more than the bytes left nor more answers than there are, and it writes the buffer out exactly when it takes every byte left |
| HttpEncoding.WritesFlushed | src/http.rs:173 | a run that writes the buffer out has met accepting answers only |
| HttpEncoding.WritesFails | src/http.rs:174 | a run that fails stops at a failing write, every earlier answer having accepted bytes |
| HttpEncoding.WritesBlocks | src/http.rs:175-178 | a run that stops without failing or finishing has run out of answers or used up a not-ready answer, every earlier answer having accepted bytes |
| HttpEncoding.WritesAll | src/http.rs:171-173 | a connection whose every answer takes at least one byte, with at least as many answers as bytes left, receives the whole buffer |
| HttpEncoding.WritesOnce | src/http.rs:171-173 | a connection whose next answer takes everything left receives it in that one answer |
| HttpEncoding.FlushFacts | src/http.rs:171-181 | what the poll concludes from how the loop stopped: written out after accepting answers only; a failure at a failing answer; not ready at a not-ready answer or an exhausted script, the connection keeping the answers after it |
| HttpEncoding.SendHeadAsWritten | src/http.rs:127-182 | as written, a response whose header values are all valid is never sent: the first poll fails with "invalid character in header value" |
| HttpEncoding.PollAsWrittenSkipsHead | src/http.rs:171-181 | as written, even a non-empty head buffer is never written: the first poll returns the connection unchanged |
| HttpEncoding.SendHeadIntended | src/http.rs:133-181 | corrected writer and poll: a connection that takes the head in one write receives exactly the serialised head |
| Select.PollPool | src/http.rs:32 | `FuturesUnordered::poll_next`: an empty pool, and only that, says it is exhausted without consuming a readiness answer; a completion removes exactly one entry and yields what that entry finishes with |
| Select.PollPoolRemoves | src/http.rs:32 | a completion takes exactly one entry out of the pool, as a multiset, and yields what that entry finishes with |
| Select.OkOrSkipYields | src/http.rs:33-34 | an entry that completes with a value is yielded with that value, and one that completes with an error is skipped |
| Select.Step | src/h1.rs:37-55 | one pass of the loop takes answers only from the front of each script, at most one from each, and one that does not return takes at least one |
| Select.Run | src/h1.rs:36-57 | a call of `poll_next` consumes a prefix of each script, the pool's readiness answers and upstream's answers |
| Select.StepConserves | src/h1.rs:46-49 | one pass removes an entry when one completes and adds one when a connection is admitted |
| Select.StepUpstreamShape | src/h1.rs:46-53 | one pass that returns takes from upstream exactly the answers its outcome needs; one that goes round again takes nothing or exactly one admitted connection |
| Select.RunConserves | src/h1.rs:36-57 | over a whole call, every connection admitted joins the pool exactly once and every completion takes exactly one entry out: pool size plus completions equals old size plus admitted, and no entry appears from anywhere else |
| Select.RunUpstreamShape | src/h1.rs:46-53 | one call takes connections from upstream and nothing else until it returns; it returns `None` exactly on upstream's end and `Pending` on its not-ready answer (or an exhausted script) |
| Select.RunYieldsFinished | src/h1.rs:38-41 | a value the stream yields is what some entry completed with, one in the pool before the call or one the call admitted |
| Select.RunPoolAnswer | src/tls.rs:33-42 | the call returns a value right after an entry completes, and otherwise returns only once the pool has said that nothing is ready, so a ready entry always comes before upstream |
| Select.ReadyFirst | src/tls.rs:35 | when the pool has a completed entry that succeeded, it is returned at once and upstream is not touched |
| Select.FailureSkipped | src/tls.rs:36 | a failed entry is dropped and the loop goes on from the pool without it |
| Select.NoEndWithoutEnd | src/tls.rs:36-41 | the stream ends only on upstream's end; failed entries never end it |
| Select.EndsDespiteInFlight | src/tls.rs:41 | whatever the pool holds, the stream ends as soon as upstream ends while nothing in the pool is ready, leaving the pool as it was and taking only that end from upstream |
| HttpStream.HttpIncoming.constructor | src/http.rs:16-23 | a new stream has an empty pool |
| HttpStream.HttpIncoming.PollNext | src/http.rs:30-43 | the loop's result and new state are exactly `Run` with `http_accept`'s outcome, a decoding error being skipped |
| HttpStream.HttpIncoming.PollOnce | src/http.rs:32-41 | one pass of the loop body turns the stream's state and result into exactly `Step` with `http_accept`'s outcome |
| Tls.TlsIncoming.constructor | src/tls.rs:19-26 | a new stream has no handshake in flight |
| Tls.TlsIncoming.PollNext | src/tls.rs:32-46 | the loop's result and new state are exactly `Run` with the handshake's outcome, a handshake error being skipped |
| Tls.TlsIncoming.PollOnce | src/tls.rs:34-45 | one pass of the loop body turns the stream's state and result into exactly `Step` with the handshake's outcome |
| H1.HttpIncoming.constructor | src/h1.rs:20-25 | a new stream has no head decode in flight |
| H1.HttpIncoming.PollNext | src/h1.rs:36-57 | the loop's result and new state are exactly `Run` with head decoding followed by `from_head` |
| H1.HttpIncoming.PollOnce | src/h1.rs:38-56 | one pass of the loop body turns the stream's state and result into exactly `Step` with head decoding followed by `from_head` |
| H1.FramedYields | src/h1.rs:38-45 | a decoded head yields a request exactly when decoding succeeds and `from_head` accepts its body framing, and the request is that head with that body |
| H1.FailedHeadSkipped | src/h1.rs:38-45 | a head that fails to decode, or whose body framing `from_head` rejects, is dropped and the loop continues without it |
| H1.DrainBody | src/h1.rs:82 | the drain is still waiting exactly when every read so far has returned data |
| H1.DrainedIff | src/h1.rs:82 | the body is drained exactly when some read returns 0 after reads that all returned data |
| H1.DrainFailedIff | src/h1.rs:82 | `response()` fails exactly when a read error comes before any read of 0 |
| H1.Response | src/h1.rs:81-97 | after draining the body the response is new, has status 200, the request's version and no headers, and keeps the request's method, URI, headers and connection; a read error fails the call |
| H1.HttpResponse.constructor | src/h1.rs:134-140 | the response holds the request's URI, headers and method, the head being built and the connection |
| H1.HttpResponse.InsertHeader | src/h1.rs:168-171 | `insert_header` turns the key into its lower-case `HeaderName` and gives that name exactly the one new value, leaves every other header's values alone, and returns the response itself; over a map whose names are lower-case tokens it keeps them so, and afterwards every entry matching the key in any case is the new pair |
| H1.HttpResponse.SetStatus | src/h1.rs:181-184 | `set_status` changes only the status and returns the response itself |
| H1.HttpResponse.Send | src/h1.rs:186-188 | `send` encodes a head whose `transfer-encoding` is exactly `chunked`, replacing any earlier value, with every other header unchanged; over names kept lower-case by `insert_header`, no other spelling of `Transfer-Encoding` survives beside it |
| H1.InsertNormalised | src/h1.rs:168-171 | inserting under a key's lower-case name keeps every name a lower-case token, and leaves exactly one entry, the new pair, for every spelling of the key |
| H1.InsertHeaderCaseless | src/h1.rs:168-171 | two inserts whose keys differ only in case, such as `X-Foo` then `x-foo`, leave the map the second alone would: one header with the second value |

## Left out

- `src/tcp.rs`, `src/acme.rs`, `src/tcp_or_tls.rs`, `src/ws.rs`, `src/lib.rs`
  and the examples. They are socket, ACME and TLS-configuration plumbing,
  type declarations and re-exports, with no logic of their own to state.
- TLS cryptography and certificate handling. The outcome of
  `TlsAcceptor::accept` is the parameter `accept`.
- `async_http_codec`, whose code is not part of this model:
  - the request-head decoder (`RequestHead::decode`), which becomes the
    parameter `decode`;
  - `BodyDecodeWithContinue::from_head`, which becomes `fromHead`;
  - chunked body encoding and decoding, and the `Expect: 100-continue` reply;
  - the response-head encoder.
  - So `H1.HttpResponse.Send` ends with the head handed to the encoder, and
    the bytes of the head and body are not modelled.
- The `httparse` tokeniser is the parameter `tokenize`. `Method::from_bytes`
  is modelled as "a non-empty token". `Uri::try_from` is modelled as "a
  non-empty run of visible ASCII", a simplification of the URI grammar.
- `http::HeaderMap` is an ordered list of (name, value) pairs. The real map
  groups the values of one name together when iterated, so the line order of
  the serialised head differs when a name repeats after a different name.
- The reason phrases of status codes come from the `http` crate's
  `StatusCode::canonical_reason`, copied into `CanonicalReason`; codes it does
  not know print as `<unknown status code>`.
- Wakers, `Context` and real concurrency. Every poll outcome is scripted
  input. An exhausted script stands for a future that is not ready yet.
- End of file while decoding a head. An empty `poll_fill_buf` result makes the
  loop poll again; the model takes the next scripted answer, and does not
  claim that end of file ends the decode. Likewise a write that takes 0 bytes
  makes `HttpEncode::poll` loop.
- The panic "future polled after returning ready" (src/http.rs:57, :166) is
  the precondition that the connection is still held.
- H1.HttpResponse.InsertHeader: a `&'static str` key that is not a valid header name makes the `http` crate panic. The model requires the key to be a token; the panic is not modelled.
- Accessors (`status`, `headers`, `headers_mut`, `status_mut`, `uri`,
  `method`, `version`, `request_headers`) are the classes' fields.
  `into_inner`, `body`, `body_string` and `body_vec` read or unwrap the
  opaque body and are not modelled.
- `HttpRequest::response` over a body that has no answer yet returns
  `StillReading`. This stands for the `await` that is still waiting.
- `src/http.rs` is not declared as a module in `src/lib.rs`, so it is not
  compiled into the library. It is modelled as written.
- Termination: an incoming stream returns `None` as soon as upstream ends
  while nothing in the pool is ready, even with work still in flight
  (`Select.EndsDespiteInFlight`). It does not wait for the pool to drain
  first; a rule that held back the end until then is not what the code
  does, and is not modelled.

## Findings

| source | as written | input that shows it | evidently intended | confidence | as-written member | corrected member |
|---|---|---|---|---|---|---|
| src/http.rs:138 | `if is_err` serialises the head and `else` stores the error "invalid character in header value", so the branches are swapped | any response whose header values are all visible ASCII, e.g. `200 OK` with no headers: the buffer is empty and the first poll fails with that error; a response with an invalid value panics at `to_str().unwrap()` | `if !is_err`: serialise when every value is valid, report the error otherwise | high (not executed) | HttpEncoding.ResponseHeadWrite, HttpEncoding.SendHeadAsWritten | HttpEncoding.ResponseHeadWriteIntended, HttpEncoding.SendHeadIntended |
| src/http.rs:171 | the write loop runs `while self.buffer.len() < self.off` | any non-empty head buffer with `off` 0: the guard is false, nothing is written and the connection is returned; were the guard true, `buffer[off..]` would panic | `while self.off < self.buffer.len()` | high (not executed) | HttpEncoding.HttpEncode.Poll, HttpEncoding.PollAsWrittenSkipsHead | HttpEncoding.HttpEncode.PollIntended, HttpEncoding.SendHeadIntended |
