/** The worker pool of both servers: `append` and `run` around a request queue, a mutex and a semaphore.
    Each step is what one thread does between two points where others can get in. */
module WorkerPool {
  import opened Options

  /** `Woken` is a worker that has returned from `m_queuestat.wait()` and not yet locked the queue. */
  datatype Phase<R> = Waiting | Woken | Busy(request: R)

  datatype State<R> = State(
    queue: seq<R>,
    sem: nat,
    workers: seq<Phase<R>>,
    /** For each appending thread, whether it has queued a request and not yet posted. */
    posting: seq<bool>,
    accepted: seq<R>,
    dispatched: seq<R>,
    /** How often a wait has failed, and how often a worker has found the queue empty. */
    failed: nat,
    empties: nat)

  datatype Event<R> =
    | Push(t: nat, r: R)
    | Post(t: nat)
    | WaitOk(w: nat)
    | WaitFails(w: nat)
    | Take(w: nat)
    | Done(w: nat)

  predicate Enabled<R(==)>(s: State<R>, e: Event<R>) {
    match e
    case Push(t, _) => t < |s.posting| && !s.posting[t]
    case Post(t) => t < |s.posting| && s.posting[t]
    case WaitOk(w) => w < |s.workers| && s.workers[w].Waiting? && s.sem > 0
    case WaitFails(w) => w < |s.workers| && s.workers[w].Waiting?
    case Take(w) => w < |s.workers| && s.workers[w].Woken?
    case Done(w) => w < |s.workers| && s.workers[w].Busy?
  }

  function Apply<R(==)>(limit: nat, s: State<R>, e: Event<R>): State<R>
    requires Enabled(s, e)
  {
    match e
    case Push(t, r) =>
      if |s.queue| >= limit then s
      else s.(queue := s.queue + [r], accepted := s.accepted + [r], posting := s.posting[t := true])
    case Post(t) => s.(sem := s.sem + 1, posting := s.posting[t := false])
    case WaitOk(w) => s.(sem := s.sem - 1, workers := s.workers[w := Woken])
    case WaitFails(w) => s.(failed := s.failed + 1, workers := s.workers[w := Woken])
    case Take(w) =>
      if s.queue == [] then s.(empties := s.empties + 1, workers := s.workers[w := Waiting])
      else s.(queue := s.queue[1..], dispatched := s.dispatched + [s.queue[0]], workers := s.workers[w := Busy(s.queue[0])])
    case Done(w) => s.(workers := s.workers[w := Waiting])
  }

  function Start<R>(threads: nat, clients: nat): State<R> {
    State([], 0, seq(threads, _ => Waiting), seq(clients, _ => false), [], [], 0, 0)
  }

  /** After the events, taken in turn; one that cannot happen where it stands does nothing. */
  function After<R(==)>(limit: nat, threads: nat, clients: nat, es: seq<Event<R>>): State<R> {
    if es == [] then Start(threads, clients) else
      var s := After(limit, threads, clients, es[..|es| - 1]);
      if Enabled(s, es[|es| - 1]) then Apply(limit, s, es[|es| - 1]) else s
  }

  // ---------- counting threads ----------

  function Count<T(==)>(s: seq<T>, x: T): nat {
    if s == [] then 0 else Count(s[..|s| - 1], x) + (if s[|s| - 1] == x then 1 else 0)
  }

  lemma {:induction false} CountUpdate<T>(s: seq<T>, i: nat, y: T, x: T)
    requires i < |s|
    ensures Count(s[i := y], x) + (if s[i] == x then 1 else 0) == Count(s, x) + (if y == x then 1 else 0)
  {
    var n := |s| - 1;
    if i == n {
      assert s[i := y][..n] == s[..n];
    } else {
      CountUpdate(s[..n], i, y, x);
      assert s[i := y][..n] == s[..n][i := y];
    }
  }

  lemma {:induction false} CountNone<T>(n: nat, x: T, y: T)
    requires x != y
    ensures Count(seq(n, _ => y), x) == 0
  {
    if n > 0 {
      CountNone(n - 1, x, y);
      assert seq(n, _ => y)[..n - 1] == seq(n - 1, _ => y);
    }
  }

  // ---------- the invariant ----------

  function Tokens<R(==)>(s: State<R>): nat {
    s.sem + Count(s.workers, Woken) + Count(s.posting, true)
  }

  /** Every queued request has its token: a count of the semaphore, a woken worker or an appender about
      to post.  There are only as many more as waits have failed, less those that found nothing. */
  ghost predicate Inv<R>(limit: nat, s: State<R>) {
    && |s.queue| <= limit
    && s.accepted == s.dispatched + s.queue
    && s.empties <= s.failed
    && Tokens(s) == |s.queue| + (s.failed - s.empties)
  }

  lemma {:induction false} CountSome<T>(s: seq<T>, i: nat)
    requires i < |s|
    ensures Count(s, s[i]) > 0
  {
    if i < |s| - 1 {
      CountSome(s[..|s| - 1], i);
    }
  }

  lemma StepKeeps<R>(limit: nat, s: State<R>, e: Event<R>)
    requires Inv(limit, s) && Enabled(s, e)
    ensures Inv(limit, Apply(limit, s, e))
  {
    match e
    case Push(t, r) => CountUpdate(s.posting, t, true, true);
    case Post(t) => CountUpdate(s.posting, t, false, true);
    case WaitOk(w) => CountUpdate(s.workers, w, Woken, Woken);
    case WaitFails(w) => CountUpdate(s.workers, w, Woken, Woken);
    case Take(w) =>
      CountSome(s.workers, w);
      if s.queue == [] {
        CountUpdate(s.workers, w, Waiting, Woken);
      } else {
        CountUpdate(s.workers, w, Busy(s.queue[0]), Woken);
        assert s.queue == [s.queue[0]] + s.queue[1..];
      }
    case Done(w) => CountUpdate(s.workers, w, Waiting, Woken);
  }

  /** Under any interleaving: the queue never exceeds its limit, the accepted requests are the dispatched
      ones followed by the queue, and the tokens balance. */
  lemma {:induction false} RunsKeep<R>(limit: nat, threads: nat, clients: nat, es: seq<Event<R>>)
    ensures var s := After(limit, threads, clients, es); Inv(limit, s) && |s.queue| <= Tokens(s)
  {
    if es == [] {
      CountNone<Phase<R>>(threads, Woken, Waiting);
      CountNone(clients, true, false);
    } else {
      var n := |es| - 1;
      RunsKeep(limit, threads, clients, es[..n]);
      var r := After(limit, threads, clients, es[..n]);
      if Enabled(r, es[n]) {
        StepKeeps(limit, r, es[n]);
      }
    }
  }

  lemma {:induction false} NoFailures<R>(limit: nat, threads: nat, clients: nat, es: seq<Event<R>>)
    requires forall i :: 0 <= i < |es| ==> !es[i].WaitFails?
    ensures After(limit, threads, clients, es).failed == 0
  {
    if es != [] {
      NoFailures(limit, threads, clients, es[..|es| - 1]);
    }
  }

  /** If no wait fails, the tokens are exactly the queued requests, so a woken worker always finds one. */
  lemma NeverEmpty<R>(limit: nat, threads: nat, clients: nat, es: seq<Event<R>>)
    requires forall i :: 0 <= i < |es| ==> !es[i].WaitFails?
    ensures var s := After(limit, threads, clients, es);
      && Tokens(s) == |s.queue| && s.empties == 0
      && forall w :: 0 <= w < |s.workers| && s.workers[w].Woken? ==> s.queue != []
  {
    var s := After(limit, threads, clients, es);
    RunsKeep(limit, threads, clients, es);
    NoFailures(limit, threads, clients, es);
    forall w | 0 <= w < |s.workers| && s.workers[w].Woken? ensures s.queue != [] {
      CountSome(s.workers, w);
    }
  }

  lemma {:induction false} CountWitness<T>(s: seq<T>, x: T) returns (i: nat)
    requires Count(s, x) > 0
    ensures i < |s| && s[i] == x
  {
    if s[|s| - 1] == x {
      i := |s| - 1;
    } else {
      i := CountWitness(s[..|s| - 1], x);
    }
  }

  /** No wake-up is lost: while a request is queued, some thread can post, take it or be woken for it,
      unless every worker is busy. */
  lemma NoLostWakeup<R>(limit: nat, threads: nat, clients: nat, es: seq<Event<R>>)
    requires After(limit, threads, clients, es).queue != []
    ensures var s := After(limit, threads, clients, es);
      || (exists t :: Enabled(s, Post(t)))
      || (exists w :: Enabled(s, Take(w)))
      || (exists w :: Enabled(s, WaitOk(w)))
      || (forall w :: 0 <= w < |s.workers| ==> s.workers[w].Busy?)
  {
    var s := After(limit, threads, clients, es);
    RunsKeep(limit, threads, clients, es);
    if Count(s.posting, true) > 0 {
      var t := CountWitness(s.posting, true);
      assert Enabled(s, Post(t));
    } else if Count(s.workers, Woken) > 0 {
      var w := CountWitness(s.workers, Woken);
      assert Enabled(s, Take(w));
    } else if exists w :: 0 <= w < |s.workers| && s.workers[w].Waiting? {
      var w :| 0 <= w < |s.workers| && s.workers[w].Waiting?;
      assert Enabled(s, WaitOk(w));
    } else {
      forall w | 0 <= w < |s.workers| ensures s.workers[w].Busy? {
        if s.workers[w].Woken? {
          CountSome(s.workers, w);
        }
      }
    }
  }

  // ---------- requests get in, and can be served ----------

  lemma AfterOne<R>(limit: nat, threads: nat, clients: nat, es: seq<Event<R>>, e: Event<R>)
    ensures var s := After(limit, threads, clients, es);
      After(limit, threads, clients, es + [e]) == if Enabled(s, e) then Apply(limit, s, e) else s
  {
    assert (es + [e])[..|es|] == es;
  }

  lemma {:induction false} Sizes<R>(limit: nat, threads: nat, clients: nat, es: seq<Event<R>>)
    ensures var s := After(limit, threads, clients, es); |s.workers| == threads && |s.posting| == clients
  {
    if es != [] {
      Sizes(limit, threads, clients, es[..|es| - 1]);
    }
  }

  /** Whatever has happened, a request of an idle client is accepted, last in the queue, exactly when the queue
      is below its limit; else nothing changes. */
  lemma PushAccepted<R>(limit: nat, threads: nat, clients: nat, es: seq<Event<R>>, t: nat, r: R)
    requires t < clients && !Posting(After(limit, threads, clients, es), t)
    ensures var s, s' := After(limit, threads, clients, es), After(limit, threads, clients, es + [Push(t, r)]);
      if |s.queue| < limit
      then s'.queue == s.queue + [r] && s'.accepted == s.accepted + [r] && Posting(s', t)
      else s' == s
  {
    Sizes(limit, threads, clients, es);
    AfterOne(limit, threads, clients, es, Push(t, r));
  }

  predicate Posting<R>(s: State<R>, t: nat) {
    t < |s.posting| && s.posting[t]
  }

  /** `more` lets a worker take the request at the head, and nothing else is accepted or dispatched. */
  ghost predicate Serves<R>(limit: nat, threads: nat, clients: nat, es: seq<Event<R>>, more: seq<Event<R>>) {
    var s, s' := After(limit, threads, clients, es), After(limit, threads, clients, es + more);
    && s.queue != [] && s'.queue == s.queue[1..]
    && s'.accepted == s.accepted && s'.dispatched == s.dispatched + [s.queue[0]]
  }

  lemma TakeNow<R>(limit: nat, threads: nat, clients: nat, es: seq<Event<R>>, w: nat) returns (more: seq<Event<R>>)
    requires var s := After(limit, threads, clients, es); s.queue != [] && w < |s.workers| && s.workers[w].Woken?
    ensures Serves(limit, threads, clients, es, more)
  {
    more := [Take(w)];
    AfterOne(limit, threads, clients, es, Take(w));
  }

  /** Steps before the last that leave queue and requests alone. */
  lemma Prefixed<R>(limit: nat, threads: nat, clients: nat, es: seq<Event<R>>, e: Event<R>, more: seq<Event<R>>)
    requires Serves(limit, threads, clients, es + [e], more)
    requires var s, s' := After(limit, threads, clients, es), After(limit, threads, clients, es + [e]);
      s'.queue == s.queue && s'.accepted == s.accepted && s'.dispatched == s.dispatched
    ensures Serves(limit, threads, clients, es, [e] + more)
  {
    hide After;
    assert es + [e] + more == es + ([e] + more);
  }

  lemma TakeWaiting<R>(limit: nat, threads: nat, clients: nat, es: seq<Event<R>>, w: nat) returns (more: seq<Event<R>>)
    requires var s := After(limit, threads, clients, es); s.queue != [] && w < |s.workers| && s.workers[w].Waiting? && s.sem > 0
    ensures Serves(limit, threads, clients, es, more)
  {
    AfterOne(limit, threads, clients, es, WaitOk(w));
    more := TakeNow(limit, threads, clients, es + [WaitOk(w)], w);
    Prefixed(limit, threads, clients, es, WaitOk(w), more);
    more := [WaitOk(w)] + more;
  }

  lemma TakePosted<R>(limit: nat, threads: nat, clients: nat, es: seq<Event<R>>, w: nat) returns (more: seq<Event<R>>)
    requires var s := After(limit, threads, clients, es);
      s.queue != [] && w < |s.workers| && s.workers[w].Waiting? && Count(s.workers, Woken) == 0
    ensures Serves(limit, threads, clients, es, more)
  {
    var s := After(limit, threads, clients, es);
    RunsKeep(limit, threads, clients, es);
    if s.sem > 0 {
      more := TakeWaiting(limit, threads, clients, es, w);
    } else {
      var t := CountWitness(s.posting, true);
      AfterOne(limit, threads, clients, es, Post(t));
      more := TakeWaiting(limit, threads, clients, es + [Post(t)], w);
      Prefixed(limit, threads, clients, es, Post(t), more);
      more := [Post(t)] + more;
    }
  }

  /** Whatever has happened, with a worker at all the request at the head of the queue can be served. */
  lemma HeadServed<R>(limit: nat, threads: nat, clients: nat, es: seq<Event<R>>) returns (more: seq<Event<R>>)
    requires threads > 0 && After(limit, threads, clients, es).queue != []
    ensures Serves(limit, threads, clients, es, more)
  {
    var s := After(limit, threads, clients, es);
    Sizes(limit, threads, clients, es);
    if Count(s.workers, Woken) > 0 {
      var w := CountWitness(s.workers, Woken);
      more := TakeNow(limit, threads, clients, es, w);
    } else if s.workers[0].Busy? {
      AfterOne(limit, threads, clients, es, Done(0));
      CountUpdate(s.workers, 0, Waiting, Woken);
      more := TakePosted(limit, threads, clients, es + [Done(0)], 0);
      Prefixed(limit, threads, clients, es, Done(0), more);
      more := [Done(0)] + more;
    } else {
      if s.workers[0].Woken? { CountSome(s.workers, 0); }
      more := TakePosted(limit, threads, clients, es, 0);
    }
  }

  /** And so can every accepted request: from every state of every interleaving the threads can get to an empty
      queue, with all that was accepted dispatched in order. */
  lemma {:induction false} AllServed<R>(limit: nat, threads: nat, clients: nat, es: seq<Event<R>>) returns (more: seq<Event<R>>)
    requires threads > 0
    ensures var s, s' := After(limit, threads, clients, es), After(limit, threads, clients, es + more);
      s'.queue == [] && s'.accepted == s.accepted && s'.dispatched == s.accepted
    decreases |After(limit, threads, clients, es).queue|
  {
    hide After;
    RunsKeep(limit, threads, clients, es);
    var s := After(limit, threads, clients, es);
    if s.queue == [] {
      more := [];
      assert es + more == es;
      assert s.dispatched + s.queue == s.dispatched;
    } else {
      var first := HeadServed(limit, threads, clients, es);
      var rest := AllServed(limit, threads, clients, es + first);
      more := first + rest;
      assert es + first + rest == es + more;
    }
  }

  // ---------- the code ----------

  /** The queue and the semaphore, where each thread is, and, ghost, what has happened. */
  class Pool<R(==)> {
    const limit: nat
    var queue: seq<R>
    var sem: nat
    var workers: seq<Phase<R>>
    var posting: seq<bool>
    ghost var accepted: seq<R>
    ghost var dispatched: seq<R>
    ghost var failed: nat
    ghost var empties: nat

    ghost function Now(): State<R>
      reads this
    {
      State(queue, sem, workers, posting, accepted, dispatched, failed, empties)
    }

    constructor (limit: nat, threads: nat, clients: nat)
      ensures Now() == Start(threads, clients) && this.limit == limit
    {
      this.limit := limit;
      queue, sem := [], 0;
      workers, posting := seq(threads, _ => Waiting), seq(clients, _ => false);
      accepted, dispatched, failed, empties := [], [], 0, 0;
    }

    /** The locked part of `append`, by thread `t`; it is followed by `PostStep` when it succeeds. */
    method AppendStep(request: R, t: nat) returns (ok: bool)
      requires Enabled(Now(), Push(t, request))
      modifies this
      ensures Now() == Apply(limit, old(Now()), Push(t, request))
      ensures ok <==> |old(queue)| < limit
      ensures ok ==>
        && queue == old(queue) + [request] && accepted == old(accepted) + [request]
        && posting == old(posting)[t := true]
      ensures !ok ==> queue == old(queue) && accepted == old(accepted) && posting == old(posting)
      ensures sem == old(sem) && workers == old(workers) && dispatched == old(dispatched)
    {
      if |queue| >= limit {
        return false;
      }
      queue := queue + [request];
      accepted := accepted + [request];
      posting := posting[t := true];
      return true;
    }

    /** `m_queuestat.post()`. */
    method PostStep(t: nat)
      requires Enabled(Now(), Post(t))
      modifies this
      ensures Now() == Apply(limit, old(Now()), Post(t))
      ensures sem == old(sem) + 1 && posting == old(posting)[t := false]
      ensures queue == old(queue) && workers == old(workers) && accepted == old(accepted) && dispatched == old(dispatched)
    {
      sem := sem + 1;
      posting := posting[t := false];
    }

    /** `m_queuestat.wait()`, whose result `run` does not look at. */
    method WaitStep(interrupted: bool, w: nat)
      requires Enabled(Now(), if interrupted then WaitFails(w) else WaitOk(w))
      modifies this
      ensures Now() == Apply(limit, old(Now()), if interrupted then WaitFails(w) else WaitOk(w))
      ensures workers == old(workers)[w := Woken] && sem == if interrupted then old(sem) else old(sem) - 1
      ensures queue == old(queue) && posting == old(posting) && accepted == old(accepted) && dispatched == old(dispatched)
    {
      if interrupted {
        failed := failed + 1;
      } else {
        sem := sem - 1;
      }
      workers := workers[w := Woken];
    }

    /** The locked part of `run`. */
    method TakeStep(w: nat) returns (request: Option<R>)
      requires Enabled(Now(), Take(w))
      modifies this
      ensures Now() == Apply(limit, old(Now()), Take(w))
      ensures request == if old(queue) == [] then None else Some(old(queue)[0])
      ensures old(queue) == [] ==>
        queue == [] && workers == old(workers)[w := Waiting] && dispatched == old(dispatched)
      ensures old(queue) != [] ==>
        && queue == old(queue)[1..] && workers == old(workers)[w := Busy(old(queue)[0])]
        && dispatched == old(dispatched) + [old(queue)[0]]
      ensures sem == old(sem) && posting == old(posting) && accepted == old(accepted)
    {
      if |queue| == 0 {
        empties := empties + 1;
        workers := workers[w := Waiting];
        return None;
      }
      var r := queue[0];
      dispatched := dispatched + [r];
      workers := workers[w := Busy(r)];
      queue := queue[1..];
      return Some(r);
    }

    /** `run` has served its request and goes round its loop. */
    method DoneStep(w: nat)
      requires Enabled(Now(), Done(w))
      modifies this
      ensures Now() == Apply(limit, old(Now()), Done(w))
      ensures workers == old(workers)[w := Waiting]
      ensures queue == old(queue) && sem == old(sem) && posting == old(posting)
      ensures accepted == old(accepted) && dispatched == old(dispatched)
    {
      workers := workers[w := Waiting];
    }
  }

  /** The threads of a pool in any interleaving, steps that cannot happen where they stand left out: what is
      proved of `After` holds of the pool. */
  method Perform<R(==)>(limit: nat, threads: nat, clients: nat, es: seq<Event<R>>) returns (p: Pool<R>)
    ensures p.limit == limit && p.Now() == After(limit, threads, clients, es)
  {
    p := new Pool(limit, threads, clients);
    for i := 0 to |es|
      invariant fresh(p) && p.limit == limit && p.Now() == After(limit, threads, clients, es[..i])
    {
      assert es[..i + 1][..i] == es[..i];
      match es[i]
      case Push(t, r) =>
        if t < |p.posting| && !p.posting[t] {
          var _ := p.AppendStep(r, t);
        }
      case Post(t) =>
        if t < |p.posting| && p.posting[t] {
          p.PostStep(t);
        }
      case WaitOk(w) =>
        if w < |p.workers| && p.workers[w].Waiting? && p.sem > 0 {
          p.WaitStep(false, w);
        }
      case WaitFails(w) =>
        if w < |p.workers| && p.workers[w].Waiting? {
          p.WaitStep(true, w);
        }
      case Take(w) =>
        if w < |p.workers| && p.workers[w].Woken? {
          var _ := p.TakeStep(w);
        }
      case Done(w) =>
        if w < |p.workers| && p.workers[w].Busy? {
          p.DoneStep(w);
        }
    }
    assert es[..|es|] == es;
  }
}
