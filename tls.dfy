/** `TlsIncoming` of src/tls.rs: a stream of TLS sessions over the stream of
    accepted TCP connections, one handshake in flight per connection. */
module Tls {
  import opened Prelude
  import opened Select

  class TlsIncoming<T, R, E> {
    /** The in-flight `tls_acceptor.accept` handshakes, each named by its TCP stream. */
    var accepts: seq<T>
    /** How the pool answers its next polls. */
    var ready: seq<Readiness>
    /** How `tcp_incoming` answers its next polls. */
    var tcpIncoming: seq<Upstream<T>>
    /** What the handshake on a TCP stream ends with. */
    const accept: T -> Result<R, E>

    function Current(): State<T>
      reads this
    {
      State(accepts, ready, tcpIncoming)
    }

    /** `TlsIncoming::new`: no handshake in flight. */
    constructor (tcpIncoming: seq<Upstream<T>>, ready: seq<Readiness>, accept: T -> Result<R, E>)
      ensures Current() == State([], ready, tcpIncoming) && this.accept == accept
    {
      this.accepts := [];
      this.ready := ready;
      this.tcpIncoming := tcpIncoming;
      this.accept := accept;
    }

    /** `poll_next`: return a TLS session as soon as a handshake completes, log
        and drop failed handshakes, and otherwise start one on the next TCP stream. */
    method PollNext() returns (n: Next<R>)
      modifies this
      ensures (n, Current()) == Run(old(Current()), OkOrSkip(accept))
    {
      while true
        invariant Run(Current(), OkOrSkip(accept)) == Run(old(Current()), OkOrSkip(accept))
        decreases |ready| + |tcpIncoming|
      {
        var o := PollOnce();
        if o.Some? {
          return o.value;
        }
      }
    }

    /** One pass of the loop in `poll_next`: `Some` when it returns. */
    method PollOnce() returns (o: Option<Next<R>>)
      modifies this
      ensures (o, Current()) == Step(old(Current()), OkOrSkip(accept))
    {
      var (p, pool, rest) := PollPool(accepts, ready, OkOrSkip(accept));
      accepts, ready := pool, rest;
      if p.Finished? {
        if p.result.Some? {
          return Some(Yield(p.result.value));
        }
        // `log::error!("tls accept error: ..")`, and round again.
        return None;
      }
      if tcpIncoming == [] {
        return Some(Pending);
      }
      match tcpIncoming[0]
      case Item(t) =>
        accepts, tcpIncoming := accepts + [t], tcpIncoming[1..];
        return None;
      case End =>
        tcpIncoming := tcpIncoming[1..];
        return Some(Ended);
      case NotReady =>
        tcpIncoming := tcpIncoming[1..];
        return Some(Pending);
    }
  }
}
