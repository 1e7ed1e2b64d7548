/** `HttpIncoming` of src/http.rs: a stream of decoded requests over a
    stream of connections, one `HttpDecode` in flight per connection. */
module HttpStream {
  import opened Prelude
  import opened Select

  class HttpIncoming<T, R, E> {
    /** The in-flight `http_accept` futures, each named by its connection. */
    var decoding: seq<T>
    /** How the pool answers its next polls. */
    var ready: seq<Readiness>
    /** How `transport_incoming` answers its next polls. */
    var incoming: seq<Upstream<T>>
    /** What decoding a connection ends with. */
    const decode: T -> Result<R, E>

    function Current(): State<T>
      reads this
    {
      State(decoding, ready, incoming)
    }

    /** `HttpIncoming::new`: no decode in flight. */
    constructor (incoming: seq<Upstream<T>>, ready: seq<Readiness>, decode: T -> Result<R, E>)
      ensures Current() == State([], ready, incoming) && this.decode == decode
    {
      this.decoding := [];
      this.ready := ready;
      this.incoming := incoming;
      this.decode := decode;
    }

    /** `poll_next`: return a decoded request as soon as one is ready, log and
        drop failed decodes, and otherwise start decoding the next connection. */
    method PollNext() returns (n: Next<R>)
      modifies this
      ensures (n, Current()) == Run(old(Current()), OkOrSkip(decode))
    {
      while true
        invariant Run(Current(), OkOrSkip(decode)) == Run(old(Current()), OkOrSkip(decode))
        decreases |ready| + |incoming|
      {
        var o := PollOnce();
        if o.Some? {
          return o.value;
        }
      }
    }

    /** One pass of the loop in `poll_next`: `Some` when it returns. */
    method PollOnce() returns (o: Option<Next<R>>)
      modifies this
      ensures (o, Current()) == Step(old(Current()), OkOrSkip(decode))
    {
      var (p, pool, rest) := PollPool(decoding, ready, OkOrSkip(decode));
      decoding, ready := pool, rest;
      if p.Finished? {
        if p.result.Some? {
          return Some(Yield(p.result.value));
        }
        // `log::error!("http decoding error: ..")`, and round again.
        return None;
      }
      if incoming == [] {
        return Some(Pending);
      }
      match incoming[0]
      case Item(t) =>
        decoding, incoming := decoding + [t], incoming[1..];
        return None;
      case End =>
        incoming := incoming[1..];
        return Some(Ended);
      case NotReady =>
        incoming := incoming[1..];
        return Some(Pending);
    }
  }
}
