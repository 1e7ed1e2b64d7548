/** The loop shared by the three incoming streams (`HttpIncoming::poll_next`
    in src/http.rs and src/h1.rs, `TlsIncoming::poll_next` in src/tls.rs):
    drain a pool of in-flight futures (a `FuturesUnordered`) first, skip the
    ones that fail, and admit a new connection from upstream only when
    nothing in the pool is ready.

    Scheduling is a script: each poll of a non-empty pool takes the next
    `Readiness`, which either completes one entry or says nothing is ready;
    each poll of upstream takes the next `Upstream` answer. What an entry
    completes with is `finish` of the connection that started it. */
module Select {
  import opened Prelude

  /** One answer of the pool to a poll: an entry completes (see `Picked`), or none is ready. */
  datatype Readiness = Completes(k: nat) | NoneReady

  /** One answer of the upstream stream: a new connection, its end, or not ready. */
  datatype Upstream<T> = Item(t: T) | End | NotReady

  /** What `poll_next` returns: `Ready(Some(r))`, `Ready(None)`, or `Pending`. */
  datatype Next<R> = Yield(r: R) | Ended | Pending

  /** The stream's state: the in-flight entries, and the answers still to come. */
  datatype State<T> = State(pool: seq<T>, ready: seq<Readiness>, upstream: seq<Upstream<T>>)

  /** `FuturesUnordered::poll_next`: `Ready(Some(_))`, `Ready(None)` on an empty pool, or `Pending`. */
  datatype PoolPoll<R> = Finished(result: Option<R>) | Exhausted | NotYet

  /** The completion of a future whose output is a `Result`: an `Ok` value is
      yielded, an error is logged and skipped. */
  function OkOrSkip<T, R, E>(f: T -> Result<R, E>): T -> Option<R>
  {
    t => if f(t).Ok? then Some(f(t).value) else None
  }

  /** An entry yields exactly when its future succeeds, and then yields its value. */
  lemma OkOrSkipYields<T, R, E>(f: T -> Result<R, E>, t: T)
    ensures OkOrSkip(f)(t).Some? <==> f(t).Ok?
    ensures f(t).Ok? ==> OkOrSkip(f)(t) == Some(f(t).value)
  {
  }

  /** The connections among some upstream answers, in order. */
  function Items<T>(u: seq<Upstream<T>>): (ts: seq<T>)
    ensures |ts| <= |u|
  {
    if u == [] then [] else (if u[0].Item? then [u[0].t] else []) + Items(u[1..])
  }

  /** How many entries some readiness answers complete. */
  function Completions(rs: seq<Readiness>): (n: nat)
    ensures n <= |rs|
  {
    if rs == [] then 0 else (if rs[0].Completes? then 1 else 0) + Completions(rs[1..])
  }

  /** The part of `s` that `rest` no longer has. */
  function Consumed<X>(s: seq<X>, rest: seq<X>): seq<X>
    requires |rest| <= |s|
  {
    s[..|s| - |rest|]
  }

  /** The entry that `Completes(k)` names in a pool of `n` entries: entry `k`,
      or the last one when `k` is past the end, so that every entry can be chosen. */
  function Picked(k: nat, n: nat): (i: nat)
    requires n > 0
    ensures i < n
  {
    if k < n then k else n - 1
  }

  /** One poll of the pool. An empty pool is exhausted and takes no answer
      from the script; an exhausted script means nothing is ready. */
  function PollPool<T, R>(pool: seq<T>, ready: seq<Readiness>, finish: T -> Option<R>): (p: (PoolPoll<R>, seq<T>, seq<Readiness>))
    ensures pool == [] <==> p.0.Exhausted?
    ensures p.0.Exhausted? ==> p.1 == pool && p.2 == ready
    ensures p.0.NotYet? ==>
      && p.1 == pool
      && ((ready == [] && p.2 == ready) || (ready != [] && ready[0] == NoneReady && p.2 == ready[1..]))
    ensures p.0.Finished? ==> ready != [] && ready[0].Completes? && p.2 == ready[1..] && |p.1| + 1 == |pool|
  {
    if pool == [] then (Exhausted, pool, ready)
    else if ready == [] then (NotYet, pool, ready)
    else match ready[0]
      case NoneReady => (NotYet, pool, ready[1..])
      case Completes(k) =>
        var i := Picked(k, |pool|);
        (Finished(finish(pool[i])), pool[..i] + pool[i + 1..], ready[1..])
  }

  /** A completion takes exactly one entry out of the pool and yields what that entry finishes with. */
  lemma PollPoolRemoves<T, R>(pool: seq<T>, ready: seq<Readiness>, finish: T -> Option<R>)
    ensures var p := PollPool(pool, ready, finish);
      p.0.Finished? ==> exists x :: x in pool && p.0.result == finish(x) && multiset(p.1) + multiset{x} == multiset(pool)
  {
    if pool != [] && ready != [] && ready[0].Completes? {
      var i := Picked(ready[0].k, |pool|);
      assert pool == pool[..i] + [pool[i]] + pool[i + 1..];
      assert PollPool(pool, ready, finish).1 == pool[..i] + pool[i + 1..];
    }
  }

  /** One pass of the loop body: `Some(next)` when `poll_next` returns,
      `None` when it goes round again. */
  function Step<T, R>(s: State<T>, finish: T -> Option<R>): (st: (Option<Next<R>>, State<T>))
    ensures IsSuffix(st.1.ready, s.ready) && IsSuffix(st.1.upstream, s.upstream)
    ensures st.0.None? ==> |st.1.ready| + |st.1.upstream| < |s.ready| + |s.upstream|
    ensures |s.ready| - |st.1.ready| <= 1 && |s.upstream| - |st.1.upstream| <= 1
  {
    SuffixTail(s.ready);
    SuffixTail(s.upstream);
    var p := PollPool(s.pool, s.ready, finish);
    if p.0.Finished? then
      (if p.0.result.Some? then Some(Yield(p.0.result.value)) else None, State(p.1, p.2, s.upstream))
    else if s.upstream == [] then (Some(Pending), State(p.1, p.2, s.upstream))
    else match s.upstream[0]
      case Item(t) => (None, State(p.1 + [t], p.2, s.upstream[1..]))
      case End => (Some(Ended), State(p.1, p.2, s.upstream[1..]))
      case NotReady => (Some(Pending), State(p.1, p.2, s.upstream[1..]))
  }

  lemma SuffixTail<X>(s: seq<X>)
    ensures IsSuffix(s, s)
    ensures s != [] ==> IsSuffix(s[1..], s)
  {
  }

  /** What one call of `poll_next` returns, and the state it leaves. */
  function Run<T, R>(s: State<T>, finish: T -> Option<R>): (out: (Next<R>, State<T>))
    ensures IsSuffix(out.1.ready, s.ready) && IsSuffix(out.1.upstream, s.upstream)
    decreases |s.ready| + |s.upstream|
  {
    var st := Step(s, finish);
    if st.0.Some? then (st.0.value, st.1) else Run(st.1, finish)
  }

  lemma {:induction false} ItemsConcat<T>(x: seq<Upstream<T>>, y: seq<Upstream<T>>)
    ensures Items(x + y) == Items(x) + Items(y)
  {
    if x != [] {
      assert (x + y)[1..] == x[1..] + y;
      ItemsConcat(x[1..], y);
    } else {
      assert x + y == y;
    }
  }

  lemma {:induction false} CompletionsConcat(x: seq<Readiness>, y: seq<Readiness>)
    ensures Completions(x + y) == Completions(x) + Completions(y)
  {
    if x != [] {
      assert (x + y)[1..] == x[1..] + y;
      CompletionsConcat(x[1..], y);
    } else {
      assert x + y == y;
    }
  }

  lemma ConsumedChain<X>(a: seq<X>, b: seq<X>, c: seq<X>)
    requires IsSuffix(b, a) && IsSuffix(c, b)
    ensures Consumed(a, c) == Consumed(a, b) + Consumed(b, c)
  {
  }

  lemma CompletionsOne(r: Readiness)
    ensures Completions([r]) == if r.Completes? then 1 else 0
  {
    assert [r][1..] == [];
  }

  lemma ItemsOne<T>(u: Upstream<T>)
    ensures Items([u]) == if u.Item? then [u.t] else []
  {
    assert [u][1..] == [];
  }

  lemma ConsumedNothing<X>(s: seq<X>)
    ensures Consumed(s, s) == []
  {
  }

  lemma ConsumedFirst<X>(s: seq<X>)
    requires s != []
    ensures Consumed(s, s[1..]) == [s[0]]
  {
  }

  /** What one pass of the loop takes from each script. */
  lemma StepConsumes<T, R>(s: State<T>, finish: T -> Option<R>)
    ensures var st := Step(s, finish);
      && Completions(Consumed(s.ready, st.1.ready)) == (if PollPool(s.pool, s.ready, finish).0.Finished? then 1 else 0)
      && Items(Consumed(s.upstream, st.1.upstream)) ==
           (if st.1.upstream == s.upstream || !s.upstream[0].Item? then [] else [s.upstream[0].t])
  {
    var st := Step(s, finish);
    var p := PollPool(s.pool, s.ready, finish);
    assert st.1.ready == p.2;
    if p.2 == s.ready {
      ConsumedNothing(s.ready);
      assert Completions(Consumed(s.ready, st.1.ready)) == 0;
    } else {
      assert p.2 == s.ready[1..];
      ConsumedFirst(s.ready);
      CompletionsOne(s.ready[0]);
    }
    if st.1.upstream == s.upstream {
      ConsumedNothing(s.upstream);
    } else {
      assert st.1.upstream == s.upstream[1..];
      ConsumedFirst(s.upstream);
      ItemsOne(s.upstream[0]);
    }
  }

  /** One pass of the loop: a completion takes one entry out, an admitted connection adds one. */
  lemma StepConserves<T, R>(s: State<T>, finish: T -> Option<R>)
    ensures var st := Step(s, finish);
      var admitted := Items(Consumed(s.upstream, st.1.upstream));
      && |st.1.pool| + Completions(Consumed(s.ready, st.1.ready)) == |s.pool| + |admitted|
      && multiset(st.1.pool) <= multiset(s.pool) + multiset(admitted)
  {
    StepConsumes(s, finish);
    var st := Step(s, finish);
    var p := PollPool(s.pool, s.ready, finish);
    var admitted := Items(Consumed(s.upstream, st.1.upstream));
    if p.0.Finished? {
      PollPoolRemoves(s.pool, s.ready, finish);
      assert st.1.pool == p.1 && st.1.upstream == s.upstream;
      assert admitted == [];
      var x :| x in s.pool && p.0.result == finish(x) && multiset(p.1) + multiset{x} == multiset(s.pool);
      assert multiset(st.1.pool) <= multiset(s.pool);
    } else if s.upstream != [] && s.upstream[0].Item? {
      assert st.1.pool == s.pool + [s.upstream[0].t];
      assert |st.1.upstream| < |s.upstream|;
      assert admitted == [s.upstream[0].t];
      assert multiset(st.1.pool) == multiset(s.pool) + multiset(admitted);
    } else {
      assert st.1.pool == s.pool;
      assert admitted == [];
    }
  }

  /** Conservation: every connection admitted joins the pool, and every
      completion takes exactly one entry out of it. */
  lemma {:induction false} RunConserves<T, R>(s: State<T>, finish: T -> Option<R>)
    ensures var out := Run(s, finish);
      var admitted := Items(Consumed(s.upstream, out.1.upstream));
      && |out.1.pool| + Completions(Consumed(s.ready, out.1.ready)) == |s.pool| + |admitted|
      && multiset(out.1.pool) <= multiset(s.pool) + multiset(admitted)
    decreases |s.ready| + |s.upstream|
  {
    var st := Step(s, finish);
    StepConserves(s, finish);
    if st.0.None? {
      var mid := st.1;
      var out := Run(mid, finish);
      RunConserves(mid, finish);
      ConsumedChain(s.ready, mid.ready, out.1.ready);
      ConsumedChain(s.upstream, mid.upstream, out.1.upstream);
      CompletionsConcat(Consumed(s.ready, mid.ready), Consumed(mid.ready, out.1.ready));
      ItemsConcat(Consumed(s.upstream, mid.upstream), Consumed(mid.upstream, out.1.upstream));
    }
  }

  /** Every answer in `u` is a connection. */
  predicate AllItems<T>(u: seq<Upstream<T>>)
  {
    forall i :: 0 <= i < |u| ==> u[i].Item?
  }

  /** The upstream answers `u` one call of `poll_next` takes, for the outcome `n`:
      connections only, then `End` exactly when it ends, and `NotReady` or an
      exhausted upstream when it is pending. */
  predicate UpstreamShape<T, R>(u: seq<Upstream<T>>, n: Next<R>, rest: seq<Upstream<T>>)
  {
    match n
    case Yield(_) => AllItems(u)
    case Ended => u != [] && AllItems(u[..|u| - 1]) && u[|u| - 1] == End
    case Pending =>
      || (AllItems(u) && rest == [])
      || (u != [] && AllItems(u[..|u| - 1]) && u[|u| - 1] == NotReady)
  }

  lemma ShapeCons<T, R>(e: Upstream<T>, u: seq<Upstream<T>>, n: Next<R>, rest: seq<Upstream<T>>)
    requires e.Item? && UpstreamShape(u, n, rest)
    ensures UpstreamShape([e] + u, n, rest)
  {
    var v := [e] + u;
    assert forall i :: 1 <= i < |v| ==> v[i] == u[i - 1];
    if u != [] {
      assert v[..|v| - 1] == [e] + u[..|u| - 1];
    }
  }

  /** One pass of the loop: a return takes the answers its outcome needs, and
      going round again takes no upstream answer or exactly one connection. */
  lemma StepUpstreamShape<T, R>(s: State<T>, finish: T -> Option<R>)
    ensures var st := Step(s, finish);
      && (st.0.Some? ==> UpstreamShape(Consumed(s.upstream, st.1.upstream), st.0.value, st.1.upstream))
      && (st.0.None? ==> st.1.upstream == s.upstream || (s.upstream != [] && s.upstream[0].Item? && st.1.upstream == s.upstream[1..]))
  {
    var st := Step(s, finish);
    if st.1.upstream == s.upstream {
      ConsumedNothing(s.upstream);
    } else {
      ConsumedFirst(s.upstream);
      assert [s.upstream[0]][..0] == [];
    }
  }

  /** Upstream is polled only when nothing in the pool completes, and one call
      reads connections until an answer other than a connection, or a result. */
  lemma {:induction false} RunUpstreamShape<T, R>(s: State<T>, finish: T -> Option<R>)
    ensures var out := Run(s, finish);
      UpstreamShape(Consumed(s.upstream, out.1.upstream), out.0, out.1.upstream)
    decreases |s.ready| + |s.upstream|
  {
    var st := Step(s, finish);
    StepUpstreamShape(s, finish);
    if st.0.None? {
      var out := Run(s, finish);
      assert out == Run(st.1, finish);
      RunUpstreamShape(st.1, finish);
      ConsumedChain(s.upstream, st.1.upstream, out.1.upstream);
      if st.1.upstream == s.upstream {
        ConsumedNothing(s.upstream);
      } else {
        ConsumedFirst(s.upstream);
        ShapeCons(s.upstream[0], Consumed(st.1.upstream, out.1.upstream), out.0, out.1.upstream);
      }
    }
  }

  /** A value the stream yields is what some entry completed with: one in the
      pool before the call or one the call admitted. */
  lemma {:induction false} RunYieldsFinished<T, R>(s: State<T>, finish: T -> Option<R>)
    ensures var out := Run(s, finish);
      out.0.Yield? ==>
        exists x :: x in s.pool + Items(Consumed(s.upstream, out.1.upstream)) && finish(x) == Some(out.0.r)
    decreases |s.ready| + |s.upstream|
  {
    var st := Step(s, finish);
    var out := Run(s, finish);
    if st.0.None? && out.0.Yield? {
      var mid := st.1;
      RunYieldsFinished(mid, finish);
      var admittedMid := Items(Consumed(mid.upstream, out.1.upstream));
      var x :| x in mid.pool + admittedMid && finish(x) == Some(out.0.r);
      StepConserves(s, finish);
      var stepAdmitted := Items(Consumed(s.upstream, mid.upstream));
      ConsumedChain(s.upstream, mid.upstream, out.1.upstream);
      ItemsConcat(Consumed(s.upstream, mid.upstream), Consumed(mid.upstream, out.1.upstream));
      if x in mid.pool {
        assert x in multiset(mid.pool);
        assert x in multiset(s.pool) + multiset(stepAdmitted);
      }
      assert x in s.pool + Items(Consumed(s.upstream, out.1.upstream));
    }
  }

  /** The stream ends only on upstream's `End`: a failed entry never ends it. */
  lemma NoEndWithoutEnd<T, R>(s: State<T>, finish: T -> Option<R>)
    requires End !in s.upstream
    ensures Run(s, finish).0 != Ended
  {
    var out := Run(s, finish);
    RunUpstreamShape(s, finish);
    var u := Consumed(s.upstream, out.1.upstream);
    if u != [] {
      assert u[|u| - 1] in s.upstream;
    }
  }

  /** A completed entry is returned before upstream is polled at all. */
  lemma ReadyFirst<T, R>(s: State<T>, finish: T -> Option<R>, r: R)
    requires PollPool(s.pool, s.ready, finish).0 == Finished(Some(r))
    ensures Run(s, finish) == (Yield(r), State(PollPool(s.pool, s.ready, finish).1, s.ready[1..], s.upstream))
  {
  }

  /** A failed entry is dropped and the loop goes on as if it had never been there. */
  lemma FailureSkipped<T, R>(s: State<T>, finish: T -> Option<R>)
    requires PollPool(s.pool, s.ready, finish).0 == Finished(None)
    ensures Run(s, finish) == Run(State(PollPool(s.pool, s.ready, finish).1, s.ready[1..], s.upstream), finish)
  {
  }

  /** The stream ends as soon as upstream does, however many entries are still
      in flight: when no entry of the pool is ready and upstream's next answer
      is its end, the call returns `Ended` and leaves the pool as it was. */
  lemma EndsDespiteInFlight<T, R>(s: State<T>, finish: T -> Option<R>)
    requires s.ready == [] || s.ready[0] == NoneReady
    requires s.upstream != [] && s.upstream[0] == End
    ensures var out := Run(s, finish);
      out.0 == Ended && out.1.pool == s.pool && out.1.upstream == s.upstream[1..]
      && (out.1.ready == s.ready || out.1.ready == s.ready[1..])
  {
    var p := PollPool(s.pool, s.ready, finish);
    assert !p.0.Finished?;
    assert Step(s, finish) == (Some(Ended), State(s.pool, p.2, s.upstream[1..]));
  }

  /** What the pool answered last, given the readiness answers taken: a
      completion, or that nothing was ready (an empty pool, an exhausted
      script, or `NoneReady`). */
  predicate AnsweredCompletion(rc: seq<Readiness>)
  {
    rc != [] && rc[|rc| - 1].Completes?
  }

  predicate AnsweredNothing<T>(after: State<T>, rc: seq<Readiness>)
  {
    after.pool == [] || after.ready == [] || (rc != [] && rc[|rc| - 1] == NoneReady)
  }

  lemma StepPoolAnswer<T, R>(s: State<T>, finish: T -> Option<R>)
    ensures var st := Step(s, finish);
      var rc := Consumed(s.ready, st.1.ready);
      && (st.0.Some? && st.0.value.Yield? ==> AnsweredCompletion(rc))
      && (st.0.Some? && !st.0.value.Yield? ==> AnsweredNothing(st.1, rc))
  {
    var st := Step(s, finish);
    var p := PollPool(s.pool, s.ready, finish);
    assert st.1.ready == p.2;
    if p.2 == s.ready {
      ConsumedNothing(s.ready);
    } else {
      ConsumedFirst(s.ready);
    }
  }

  lemma LastOfConcat<X>(a: seq<X>, b: seq<X>)
    requires b != []
    ensures (a + b)[|a + b| - 1] == b[|b| - 1]
  {
  }

  /** The call returns a value right after an entry completes, and returns
      otherwise only once the pool has answered that nothing is ready. */
  lemma {:induction false} RunPoolAnswer<T, R>(s: State<T>, finish: T -> Option<R>)
    ensures var out := Run(s, finish);
      var rc := Consumed(s.ready, out.1.ready);
      && (out.0.Yield? ==> AnsweredCompletion(rc))
      && (!out.0.Yield? ==> AnsweredNothing(out.1, rc))
    decreases |s.ready| + |s.upstream|
  {
    var st := Step(s, finish);
    var out := Run(s, finish);
    StepPoolAnswer(s, finish);
    if st.0.None? {
      var mid := st.1;
      RunPoolAnswer(mid, finish);
      ConsumedChain(s.ready, mid.ready, out.1.ready);
      var b := Consumed(mid.ready, out.1.ready);
      if b != [] {
        LastOfConcat(Consumed(s.ready, mid.ready), b);
      }
    }
  }
}
