/** `HttpDecode` (src/http.rs): accumulates one request head, piece by piece,
    into a fixed 8192-byte array, reading from a buffered transport. */
module HttpDecoding {
  import opened Prelude
  import opened HeadFraming
  import opened HttpParse

  /** One answer of the underlying connection to a read: bytes (an empty
      chunk is end of file), an I/O error, or "not ready". */
  datatype ReadOutcome = Data(bytes: seq<byte>) | ReadError | ReadPending

  /** A `BufReader` over a connection: the bytes it holds but has not handed
      out yet, and the answers the connection will give to its next reads (`upcoming`).
      Once `upcoming` is exhausted the connection has nothing more for now. */
  datatype Source = Source(buffered: seq<byte>, upcoming: seq<ReadOutcome>)

  /** The bytes the connection delivers, in order, starting with those already buffered. */
  function DataBytes(rs: seq<ReadOutcome>): seq<byte>
  {
    if rs == [] then []
    else (if rs[0].Data? then rs[0].bytes else []) + DataBytes(rs[1..])
  }

  function Stream(src: Source): seq<byte>
  {
    src.buffered + DataBytes(src.upcoming)
  }

  datatype Fill = Filled | FillFailed | FillPending

  /** `poll_fill_buf`: hands out the held bytes if there are any, otherwise
      performs one read of the connection. */
  function FillBuf(src: Source): (r: (Fill, Source))
    ensures Stream(r.1) == Stream(src)
    ensures |src.buffered| > 0 ==> r == (Filled, src)
    ensures |src.buffered| == 0 && |src.upcoming| > 0 ==> r.1.upcoming == src.upcoming[1..]
    ensures |src.buffered| == 0 && |src.upcoming| == 0 ==> r == (FillPending, src)
    ensures r.0 != Filled ==> r.1.buffered == []
    ensures r.0 == FillPending ==> src.upcoming == [] || src.upcoming[0] == ReadPending
    ensures r.0 == FillFailed ==> src.upcoming != [] && src.upcoming[0] == ReadError
  {
    if |src.buffered| > 0 then (Filled, src)
    else if src.upcoming == [] then (FillPending, src)
    else
      match src.upcoming[0]
      case Data(b) => (Filled, Source(b, src.upcoming[1..]))
      case ReadError => (FillFailed, Source([], src.upcoming[1..]))
      case ReadPending => (FillPending, Source([], src.upcoming[1..]))
  }

  /** How many bytes one step copies: up to and including the first LF, or
      all of `buf` when it holds none. */
  function PieceLength(buf: seq<byte>): (n: nat)
    requires |buf| > 0
    ensures 0 < n <= |buf|
    ensures forall j :: 0 <= j < n - 1 ==> buf[j] != LF
    ensures n < |buf| ==> buf[n - 1] == LF
  {
    if buf[0] == LF || |buf| == 1 then 1 else 1 + PieceLength(buf[1..])
  }

  /** The stream of a source splits after its first `n` held bytes. */
  lemma SplitStream(src: Source, n: nat)
    requires n <= |src.buffered|
    ensures Stream(src) == src.buffered[..n] + (src.buffered[n..] + DataBytes(src.upcoming))
  {
    AppendAssoc(src.buffered[..n], src.buffered[n..], DataBytes(src.upcoming));
    assert src.buffered == src.buffered[..n] + src.buffered[n..];
  }

  /** The first `k` answers of `rs` are all bytes. */
  ghost predicate DataUpTo(rs: seq<ReadOutcome>, k: nat)
  {
    k <= |rs| && forall j :: 0 <= j < k ==> rs[j].Data?
  }

  /** The bytes `src` delivers once its first `k` answers have been read. */
  function Delivered(src: Source, k: nat): seq<byte>
    requires k <= |src.upcoming|
  {
    src.buffered + DataBytes(src.upcoming[..k])
  }

  lemma {:induction false} DataBytesAppend(a: seq<ReadOutcome>, b: seq<ReadOutcome>)
    ensures DataBytes(a + b) == DataBytes(a) + DataBytes(b)
  {
    if a != [] {
      assert (a + b)[1..] == a[1..] + b;
      DataBytesAppend(a[1..], b);
      AppendAssoc(if a[0].Data? then a[0].bytes else [], DataBytes(a[1..]), DataBytes(b));
    } else {
      assert a + b == b;
    }
  }

  /** Reading one more answer, bytes `b`, delivers `b` after what was delivered. */
  lemma DeliveredStep(src: Source, k: nat)
    requires k < |src.upcoming| && src.upcoming[k].Data?
    ensures Delivered(src, k + 1) == Delivered(src, k) + src.upcoming[k].bytes
  {
    var rs := src.upcoming;
    assert rs[..k + 1] == rs[..k] + [rs[k]];
    DataBytesAppend(rs[..k], [rs[k]]);
    assert DataBytes([rs[k]]) == rs[k].bytes;
    AppendAssoc(src.buffered, DataBytes(rs[..k]), rs[k].bytes);
  }

  /** What is delivered after `i` answers is a prefix of what is delivered
      after `j >= i`, and of the whole stream. */
  lemma DeliveredPrefix(acc: seq<byte>, src: Source, i: nat, j: nat)
    requires i <= j <= |src.upcoming|
    ensures acc + Delivered(src, i) <= acc + Delivered(src, j)
    ensures acc + Delivered(src, j) <= acc + Stream(src)
  {
    var rs := src.upcoming;
    assert rs[..j] == rs[..i] + rs[i..j];
    DataBytesAppend(rs[..i], rs[i..j]);
    assert rs == rs[..j] + rs[j..];
    DataBytesAppend(rs[..j], rs[j..]);
    AppendAssoc(acc, src.buffered, DataBytes(rs[..i]));
    AppendAssoc(acc + src.buffered, DataBytes(rs[..i]), DataBytes(rs[i..j]));
    AppendAssoc(acc, src.buffered, DataBytes(rs[..j]));
    AppendAssoc(acc + src.buffered, DataBytes(rs[..j]), DataBytes(rs[j..]));
    AppendAssoc(acc, src.buffered, DataBytes(rs));
  }

  const HeadCapacity: nat := 8192

  /** A piece that would take the accumulated bytes past the array's end
      means the stream's first 8192 bytes hold no head end. */
  lemma PieceOverflows(acc: seq<byte>, piece: seq<byte>, rest: seq<byte>)
    requires NoHeadEnd(acc) && |acc| <= HeadCapacity < |acc| + |piece|
    requires forall j :: 0 <= j < |piece| - 1 ==> piece[j] != LF
    ensures var total := acc + piece + rest;
      |total| > HeadCapacity && NoHeadEnd(total[..HeadCapacity])
  {
    PieceNoHeadEnd(acc, piece, HeadCapacity);
    assert (acc + piece)[..HeadCapacity] == (acc + piece + rest)[..HeadCapacity];
  }

  /** A piece after which the accumulated bytes end with CR LF CR LF completes the head. */
  lemma PieceEndsHead(acc: seq<byte>, piece: seq<byte>, rest: seq<byte>)
    requires NoHeadEnd(acc) && |piece| > 0
    requires forall j :: 0 <= j < |piece| - 1 ==> piece[j] != LF
    requires |acc + piece| >= 4 && (acc + piece)[|acc + piece| - 4..] == [CR, LF, CR, LF]
    ensures IsHeadOf(acc + piece + rest, acc + piece)
  {
    var head := acc + piece;
    assert EndsHead(head, |head|);
    PieceNoHeadEnd(acc, piece, |head| - 1);
    assert (acc + piece)[..|head| - 1] == head[..|head| - 1];
    assert (head + rest)[..|head|] == head;
  }

  datatype DecodeError = HeadTooLong | ReadFailed | Invalid(cause: ParseError)

  datatype DecodePoll = Ready(result: Result<Request<Source>, DecodeError>) | Pending

  /** How a copy step that returns ends, with the bytes `acc` accumulated: the
      head is too long, or `acc` is the head of `total` and has been parsed,
      `t'` holding the rest of the stream. */
  ghost predicate Concluded(total: seq<byte>, r: DecodePoll, acc: seq<byte>, t': Source, tokenize: seq<byte> -> Tokens)
  {
    && r.Ready?
    && (r == Ready(Err(HeadTooLong)) ==> |total| > HeadCapacity && NoHeadEnd(total[..HeadCapacity]))
    && (r != Ready(Err(HeadTooLong)) ==>
          && IsHeadOf(total, acc)
          && Stream(t') == total[|acc|..]
          && r.result == ParseOutcome(tokenize(acc), t'))
  }

  class HttpDecode {
    var transport: Option<Source>
    const buffer: array<byte>
    var len: nat

    ghost predicate Valid()
      reads this
    {
      buffer.Length == HeadCapacity && len <= buffer.Length
    }

    /** The state between polls: the transport is held and no head end has been seen. */
    ghost predicate Active()
      reads this, buffer
    {
      Valid() && transport.Some? && NoHeadEnd(buffer[..len])
    }

    /** `http_accept`: a decoder over a fresh buffered reader of the connection
        whose answers are `io`; the reader holds no bytes yet and nothing is
        accumulated. */
    constructor Accept(io: seq<ReadOutcome>)
      ensures Active() && fresh(buffer)
      ensures transport == Some(Source([], io)) && len == 0
    {
      transport := Some(Source([], io));
      buffer := new byte[HeadCapacity](_ => 0);
      len := 0;
    }

    /** The loop state of a poll: the transport `t` has been taken out, the
        accumulated bytes extend `start` and, followed by what `t` still
        delivers, make up the stream `total` the poll began with. */
    ghost predicate Tracks(total: seq<byte>, start: seq<byte>, t: Source)
      reads this, buffer
    {
      && Valid() && transport == None
      && start <= buffer[..len] && buffer[..len] + Stream(t) == total
      && NoHeadEnd(buffer[..len])
    }

    /** `self.buffer[off..off + n].copy_from_slice(..)` followed by `self.len += n`. */
    method AppendPiece(piece: seq<byte>)
      requires Valid() && len + |piece| <= buffer.Length
      modifies this`len, buffer
      ensures Valid() && len == old(len) + |piece|
      ensures buffer[..len] == old(buffer[..len]) + piece
    {
      forall i | 0 <= i < |piece| {
        buffer[len + i] := piece[i];
      }
      len := len + |piece|;
    }

    /** One pass of the inner `while` (lines 62-73): copy the next piece, up
        to and including the first LF the transport holds, unless it would
        overflow the array; then parse if the head is complete. */
    method CopyPiece(t: Source, tokenize: seq<byte> -> Tokens, ghost total: seq<byte>, ghost start: seq<byte>)
      returns (done: bool, r: DecodePoll, t': Source)
      requires Tracks(total, start, t) && |t.buffered| > 0
      modifies this`len, buffer
      ensures Valid() && transport == None && t'.upcoming == t.upcoming
      ensures start <= buffer[..len] <= total
      ensures !done ==> Tracks(total, start, t') && |t'.buffered| < |t.buffered|
      ensures done ==> Concluded(total, r, buffer[..len], t', tokenize)
      ensures buffer[..len] + t'.buffered == old(buffer[..len]) + t.buffered
      ensures r == Ready(Err(HeadTooLong)) ==> done && len + |t'.buffered| > HeadCapacity
    {
      t' := t;
      var n := PieceLength(t.buffered);
      ghost var acc := buffer[..len];
      var piece := t.buffered[..n];
      ghost var rest := t.buffered[n..] + DataBytes(t.upcoming);
      SplitStream(t, n);
      AppendAssoc(acc, piece, rest);
      if HeadCapacity < len + n {
        PieceOverflows(acc, piece, rest);
        done, r := true, Ready(Err(HeadTooLong));
      } else {
        AppendPiece(piece);
        t' := Source(t.buffered[n..], t.upcoming);
        assert t.buffered == piece + t'.buffered;
        AppendAssoc(acc, piece, t'.buffered);
        var head := buffer[..len];
        if |head| >= 4 && head[|head| - 4..] == [CR, LF, CR, LF] {
          PieceEndsHead(acc, piece, rest);
          var parsed := RequestParse(head, t', tokenize);
          done, r := true, Ready(if parsed.Ok? then Ok(parsed.value) else Err(Invalid(parsed.error)));
        } else {
          PieceNoHeadEnd(acc, piece, len);
          assert (acc + piece)[..len] == acc + piece;
          done, r := false, Pending;
        }
      }
    }

    /** The inner `while` of `poll`: copies pieces out of the bytes the
        transport holds until they run out (`done` false), the piece would
        overflow the array, or the accumulated bytes end with CR LF CR LF. */
    method CopyBuffered(t: Source, tokenize: seq<byte> -> Tokens, ghost total: seq<byte>, ghost start: seq<byte>)
      returns (done: bool, r: DecodePoll, t': Source)
      requires Tracks(total, start, t)
      modifies this`len, buffer
      ensures Valid() && transport == None && t'.upcoming == t.upcoming
      ensures start <= buffer[..len] <= total
      ensures !done ==> Tracks(total, start, t') && t'.buffered == []
      ensures done ==> Concluded(total, r, buffer[..len], t', tokenize)
      ensures buffer[..len] + t'.buffered == old(buffer[..len]) + t.buffered
      ensures r == Ready(Err(HeadTooLong)) ==> done && len + |t'.buffered| > HeadCapacity
    {
      t' := t;
      while |t'.buffered| > 0
        invariant Tracks(total, start, t') && t'.upcoming == t.upcoming
        invariant buffer[..len] + t'.buffered == old(buffer[..len]) + t.buffered
        decreases |t'.buffered|
      {
        done, r, t' := CopyPiece(t', tokenize, total, start);
        if done {
          return;
        }
      }
      return false, Pending, t';
    }

    /** `HttpDecode::poll`. The accumulated bytes always stay the prefix of
        the transport's stream consumed so far; the first CR LF CR LF ends
        the head, which then goes to `http_request_parse` together with the
        transport holding the unconsumed rest of the stream (`rest`). */
    method Poll(tokenize: seq<byte> -> Tokens) returns (r: DecodePoll, ghost rest: Source, ghost answers: nat)
      requires Active()
      modifies this, buffer
      ensures Valid()
      ensures PollOutcome(old(buffer[..len]), old(transport.value), r, rest, answers, buffer[..len], transport, tokenize)
    {
      ghost var start := buffer[..len];
      var t := transport.value;
      ghost var t0 := t;
      ghost var total := start + Stream(t);
      ghost var acc := start;
      answers := 0;
      transport := None;
      while true
        invariant Tracks(total, start, t) && transport == None
        invariant DataUpTo(t0.upcoming, answers) && t.upcoming == t0.upcoming[answers..]
        invariant buffer[..len] + t.buffered == start + Delivered(t0, answers)
        decreases |t.upcoming|, |t.buffered|
      {
        acc := buffer[..len];
        ghost var before := t;
        var (fill, t1) := FillBuf(t);
        if fill == FillPending {
          PendingOutcome(start, t0, answers, before, acc, tokenize);
          transport := Some(t1);
          r, rest := Pending, t1;
          break;
        } else if fill == FillFailed {
          FailedOutcome(start, t0, answers, before, acc, tokenize);
          r, rest := Ready(Err(ReadFailed)), t1;
          break;
        }
        if t.buffered == [] {
          ReadStep(start, t0, answers, acc, before);
          answers := answers + 1;
        }
        t := t1;
        var done;
        done, r, t := CopyBuffered(t, tokenize, total, start);
        if done {
          acc := buffer[..len];
          DoneOutcome(start, t0, answers, acc, r, t, tokenize);
          rest := t;
          break;
        }
      }
      assert buffer[..len] == acc;
    }
  }

  /** A read that yields bytes moves them into the transport's buffer. */
  lemma ReadStep(start: seq<byte>, t0: Source, answers: nat, acc: seq<byte>, t: Source)
    requires DataUpTo(t0.upcoming, answers) && t.upcoming == t0.upcoming[answers..]
    requires acc + t.buffered == start + Delivered(t0, answers)
    requires t.buffered == [] && FillBuf(t).0 == Filled
    ensures var t1 := FillBuf(t).1;
      && DataUpTo(t0.upcoming, answers + 1) && t1.upcoming == t0.upcoming[answers + 1..]
      && acc + t1.buffered == start + Delivered(t0, answers + 1)
  {
    assert t.upcoming[0] == t0.upcoming[answers];
    DeliveredStep(t0, answers);
    AppendAssoc(start, Delivered(t0, answers), FillBuf(t).1.buffered);
  }

  /** A poll that finds the connection not ready keeps everything delivered so far. */
  lemma PendingOutcome(start: seq<byte>, t0: Source, answers: nat, t: Source, acc: seq<byte>, tokenize: seq<byte> -> Tokens)
    requires DataUpTo(t0.upcoming, answers) && t.upcoming == t0.upcoming[answers..]
    requires acc + t.buffered == start + Delivered(t0, answers) && acc + Stream(t) == start + Stream(t0)
    requires start <= acc && NoHeadEnd(acc) && |acc| <= HeadCapacity
    requires FillBuf(t).0 == FillPending
    ensures PollOutcome(start, t0, Pending, FillBuf(t).1, answers, acc, Some(FillBuf(t).1), tokenize)
  {
    DeliveredPrefix(start, t0, answers, answers);
    if t.upcoming != [] {
      assert t.upcoming[0] == t0.upcoming[answers];
    }
  }

  /** A poll whose read fails has accumulated everything delivered before it. */
  lemma FailedOutcome(start: seq<byte>, t0: Source, answers: nat, t: Source, acc: seq<byte>, tokenize: seq<byte> -> Tokens)
    requires DataUpTo(t0.upcoming, answers) && t.upcoming == t0.upcoming[answers..]
    requires acc + t.buffered == start + Delivered(t0, answers) && acc + Stream(t) == start + Stream(t0)
    requires start <= acc && NoHeadEnd(acc) && |acc| <= HeadCapacity
    requires FillBuf(t).0 == FillFailed
    ensures PollOutcome(start, t0, Ready(Err(ReadFailed)), FillBuf(t).1, answers, acc, None, tokenize)
  {
    DeliveredPrefix(start, t0, answers, answers);
    assert t.upcoming[0] == t0.upcoming[answers];
  }

  /** A poll whose copying stops has overflowed the array or parsed the head. */
  lemma DoneOutcome(start: seq<byte>, t0: Source, answers: nat, acc: seq<byte>, r: DecodePoll, t: Source,
                    tokenize: seq<byte> -> Tokens)
    requires DataUpTo(t0.upcoming, answers) && t.upcoming == t0.upcoming[answers..]
    requires acc + t.buffered == start + Delivered(t0, answers) && start <= acc
    requires Concluded(start + Stream(t0), r, acc, t, tokenize)
    requires r == Ready(Err(HeadTooLong)) ==> |acc| + |t.buffered| > HeadCapacity
    ensures PollOutcome(start, t0, r, t, answers, acc, None, tokenize)
  {
    DeliveredPrefix(start, t0, answers, answers);
  }

  /** What one poll promises, from the accumulated bytes `acc` and transport
      `t` it started with to the outcome `r`, the leftover transport `rest`,
      the bytes `acc'` accumulated afterwards and the transport it keeps. The
      poll read `answers` answers of the connection, all of them bytes, before
      the one that decided the outcome; `delivered` is what it was handed. */
  ghost predicate PollOutcome(acc: seq<byte>, t: Source, r: DecodePoll, rest: Source, answers: nat, acc': seq<byte>,
                              kept: Option<Source>, tokenize: seq<byte> -> Tokens)
  {
    var total, up := acc + Stream(t), t.upcoming;
    && DataUpTo(up, answers)
    && var delivered := acc + Delivered(t, answers);
    && acc <= acc' <= total
    && (r.Pending? ==>
          && kept == Some(rest) && acc' == delivered && NoHeadEnd(acc') && |acc'| <= HeadCapacity
          && acc' + Stream(rest) == total && rest.buffered == []
          && ((answers == |up| && rest.upcoming == []) ||
              (answers < |up| && up[answers] == ReadPending && rest.upcoming == up[answers + 1..])))
    && (r.Ready? ==> kept == None)
    && (r == Ready(Err(ReadFailed)) ==>
          && answers < |up| && up[answers] == ReadError
          && acc' == delivered && NoHeadEnd(acc') && |acc'| <= HeadCapacity
          && rest == Source([], up[answers + 1..]))
    && (r == Ready(Err(HeadTooLong)) ==>
          && |delivered| > HeadCapacity && |total| > HeadCapacity && NoHeadEnd(total[..HeadCapacity])
          && rest.upcoming == up[answers..])
    && (r.Ready? && r.result != Err(ReadFailed) && r.result != Err(HeadTooLong) ==>
          && IsHeadOf(total, acc') && acc' <= delivered
          && rest.upcoming == up[answers..]
          && Stream(rest) == total[|acc'|..]
          && r.result == ParseOutcome(tokenize(acc'), rest))
  }

  /** What a completed head turns into: the parsed request or the reason it was refused. */
  function ParseOutcome(tok: Tokens, rest: Source): (r: Result<Request<Source>, DecodeError>)
    ensures r.Ok? ==> r.value.version == Http11 && r.value.body == rest
    ensures r.Err? ==> r.error.Invalid?
  {
    match Parse(tok, rest)
    case Ok(req) => Ok(req)
    case Err(e) => Err(Invalid(e))
  }

  /** A poll over a transport whose answers, up to some `j`, are all bytes
      and deliver the stream's head ends with exactly that head, once it fits
      the 8192-byte array (a head of exactly 8192 bytes included), and hands
      the rest of the stream on untouched: no later error or "not ready"
      answer can get in the way. */
  lemma PollCompletes(acc: seq<byte>, t: Source, r: DecodePoll, rest: Source, answers: nat, acc': seq<byte>,
                      kept: Option<Source>, tokenize: seq<byte> -> Tokens, j: nat, head: seq<byte>)
    requires PollOutcome(acc, t, r, rest, answers, acc', kept, tokenize)
    requires DataUpTo(t.upcoming, j) && IsHeadOf(acc + Delivered(t, j), head) && |head| <= HeadCapacity
    ensures acc' == head && kept == None
    ensures r == Ready(ParseOutcome(tokenize(head), rest))
    ensures Stream(rest) == (acc + Stream(t))[|head|..]
  {
    var total := acc + Stream(t);
    DeliveredPrefix(acc, t, j, j);
    HeadExtends(acc + Delivered(t, j), total, head);
    if r.Pending? || r == Ready(Err(ReadFailed)) {
      assert j <= answers;
      DeliveredPrefix(acc, t, j, answers);
      HeadExtends(acc + Delivered(t, j), acc', head);
      HeadIsEnd(acc', head);
      assert false;
    }
    if r == Ready(Err(HeadTooLong)) {
      HeadBlocks(total, head, HeadCapacity);
      assert false;
    }
    HeadUnique(total, acc', head);
  }

  /** Bytes that hold a head hold a head end. */
  lemma HeadIsEnd(x: seq<byte>, head: seq<byte>)
    requires IsHeadOf(x, head)
    ensures !NoHeadEnd(x)
  {
    assert EndsHead(x, |head|) == EndsHead(head, |head|);
  }

  /** A head of a prefix is the head of the whole stream. */
  lemma HeadExtends(d: seq<byte>, x: seq<byte>, head: seq<byte>)
    requires IsHeadOf(d, head) && d <= x
    ensures IsHeadOf(x, head)
  {
    assert x[..|head|] == d[..|head|];
  }

  /** Bytes that take in a stream's head hold a head end. */
  lemma HeadBlocks(total: seq<byte>, head: seq<byte>, m: nat)
    requires IsHeadOf(total, head) && |head| <= m <= |total|
    ensures !NoHeadEnd(total[..m])
  {
    assert EndsHead(total[..m], |head|) == EndsHead(head, |head|);
  }
}
