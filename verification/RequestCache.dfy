/**
 The daemon's request cache: a repeated request id never reaches the handler again.  The handler may do
 anything; what it did is known only from the steps in which it was called.  Requests without an id are
 handled every time.
 */
module RequestCache {
  import opened Wrappers
  import opened Names

  datatype Server<S, Q, R> = Server(state: S, requests: map<Name, (Q, R)>)

  /** One call of the handler: the state it met, the request, the state it left, and its reply. */
  datatype Dispatch<S, Q, R> = Dispatch(before: S, request: Q, after: S, reply: R)

  /** Request ids, and the error for an id that comes back with another payload. */
  datatype Service<!Q, !R> = Service(idOf: Q -> Option<Name>, duplicate: Q -> R)

  /** The request is answered this way, with the handler called only as recorded in the log. */
  ghost predicate Handles<S, Q, R>(v: Service<Q, R>, log: set<Dispatch<S, Q, R>>, s: Server<S, Q, R>, q: Q, t: Server<S, Q, R>, r: R) {
    match v.idOf(q)
    case None => Dispatch(s.state, q, t.state, r) in log && t.requests == s.requests
    case Some(id) =>
      if id in s.requests then
        t == s && r == if s.requests[id].0 == q then s.requests[id].1 else v.duplicate(q)
      else
        Dispatch(s.state, q, t.state, r) in log && t.requests == s.requests[id := (q, r)]
  }

  /** A sequence of requests with the servers before, between and after them and the replies. */
  datatype Run<S, Q, R> = Run(servers: seq<Server<S, Q, R>>, requests: seq<Q>, replies: seq<R>) {
    ghost predicate Valid(v: Service<Q, R>, log: set<Dispatch<S, Q, R>>) {
      && |servers| == |requests| + 1 && |replies| == |requests|
      && forall i | 0 <= i < |requests| :: Handles(v, log, servers[i], requests[i], servers[i + 1], replies[i])
    }

    function First(): Server<S, Q, R>
      requires servers != []
    {
      servers[0]
    }

    function Last(): Server<S, Q, R>
      requires servers != []
    {
      servers[|servers| - 1]
    }

    function Rest(): Run<S, Q, R>
      requires servers != [] && requests != [] && replies != []
    {
      Run(servers[1..], requests[1..], replies[1..])
    }

    function After(s: Server<S, Q, R>, q: Q, r: R): Run<S, Q, R> {
      Run([s] + servers, [q] + requests, [r] + replies)
    }
  }

  lemma RestIsValid<S, Q, R>(v: Service<Q, R>, log: set<Dispatch<S, Q, R>>, run: Run<S, Q, R>)
    requires run.Valid(v, log) && run.requests != []
    ensures run.Rest().Valid(v, log) && run.Rest().First() == run.servers[1] && run.Rest().Last() == run.Last()
    ensures Handles(v, log, run.First(), run.requests[0], run.Rest().First(), run.replies[0])
  {
    hide Handles;
    var rest := run.Rest();
    forall i | 0 <= i < |rest.requests|
      ensures Handles(v, log, rest.servers[i], rest.requests[i], rest.servers[i + 1], rest.replies[i])
    {
      assert Handles(v, log, run.servers[i + 1], run.requests[i + 1], run.servers[i + 1 + 1], run.replies[i + 1]);
    }
    assert Handles(v, log, run.servers[0], run.requests[0], run.servers[0 + 1], run.replies[0]);
  }

  lemma AfterIsValid<S, Q, R>(v: Service<Q, R>, log: set<Dispatch<S, Q, R>>, s: Server<S, Q, R>, q: Q, r: R, run: Run<S, Q, R>)
    requires run.Valid(v, log) && Handles(v, log, s, q, run.First(), r)
    ensures run.After(s, q, r).Valid(v, log) && run.After(s, q, r).First() == s && run.After(s, q, r).Last() == run.Last()
  {
    hide Handles;
    var all := run.After(s, q, r);
    forall i | 0 <= i < |all.requests|
      ensures Handles(v, log, all.servers[i], all.requests[i], all.servers[i + 1], all.replies[i])
    {
      if i > 0 {
        assert Handles(v, log, run.servers[i - 1], run.requests[i - 1], run.servers[i - 1 + 1], run.replies[i - 1]);
      }
    }
  }

  /** A request more at the end. */
  lemma Extended<S, Q, R>(v: Service<Q, R>, log: set<Dispatch<S, Q, R>>, more: set<Dispatch<S, Q, R>>, run: Run<S, Q, R>,
                          q: Q, t: Server<S, Q, R>, r: R)
    requires run.Valid(v, log) && log <= more && Handles(v, more, run.Last(), q, t, r)
    ensures Run(run.servers + [t], run.requests + [q], run.replies + [r]).Valid(v, more)
  {
    var all := Run(run.servers + [t], run.requests + [q], run.replies + [r]);
    forall i | 0 <= i < |all.requests|
      ensures Handles(v, more, all.servers[i], all.requests[i], all.servers[i + 1], all.replies[i])
    {
      if i < |run.requests| {
        assert Handles(v, log, run.servers[i], run.requests[i], run.servers[i + 1], run.replies[i]);
      }
    }
  }

  /** The sequence without the later uses of any request id. */
  function FirstUses<Q, R>(v: Service<Q, R>, qs: seq<Q>, seen: set<Name>): seq<Q> {
    if qs == [] then []
    else
      match v.idOf(qs[0])
      case None => [qs[0]] + FirstUses(v, qs[1..], seen)
      case Some(id) =>
        if id in seen then FirstUses(v, qs[1..], seen)
        else [qs[0]] + FirstUses(v, qs[1..], seen + {id})
  }

  /** The request is answered from the cache. */
  predicate Repeated<S, Q, R>(v: Service<Q, R>, s: Server<S, Q, R>, q: Q) {
    v.idOf(q).Some? && v.idOf(q).value in s.requests
  }

  lemma FirstUsesStep<S, Q, R>(v: Service<Q, R>, log: set<Dispatch<S, Q, R>>, s: Server<S, Q, R>, qs: seq<Q>, t: Server<S, Q, R>, r: R)
    requires qs != [] && Handles(v, log, s, qs[0], t, r)
    ensures
      var later := FirstUses(v, qs[1..], t.requests.Keys);
      FirstUses(v, qs, s.requests.Keys) == if Repeated(v, s, qs[0]) then later else [qs[0]] + later
  {
    if v.idOf(qs[0]).Some? && !Repeated(v, s, qs[0]) {
      assert t.requests.Keys == s.requests.Keys + {v.idOf(qs[0]).value};
    }
  }

  /** One request more is one first use more, or a repeat. */
  lemma {:induction false} FirstUsesExtended<S, Q, R>(v: Service<Q, R>, log: set<Dispatch<S, Q, R>>, run: Run<S, Q, R>, q: Q)
    requires run.Valid(v, log)
    ensures FirstUses(v, run.requests + [q], run.First().requests.Keys) ==
              FirstUses(v, run.requests, run.First().requests.Keys) + if Repeated(v, run.Last(), q) then [] else [q]
    decreases |run.requests|
  {
    if run.requests == [] {
      assert run.requests + [q] == [q];
    } else {
      var all := run.requests + [q];
      assert all[1..] == run.requests[1..] + [q];
      RestIsValid(v, log, run);
      FirstUsesExtended(v, log, run.Rest(), q);
      FirstUsesStep(v, log, run.First(), run.requests, run.servers[1], run.replies[0]);
      FirstUsesStep(v, log, run.First(), all, run.servers[1], run.replies[0]);
    }
  }

  /** Retries are invisible: without them the same calls of the handler lead to the same end, cache included. */
  lemma {:induction false} RetriesInvisible<S, Q, R>(v: Service<Q, R>, log: set<Dispatch<S, Q, R>>, run: Run<S, Q, R>) returns (fewer: Run<S, Q, R>)
    requires run.Valid(v, log)
    ensures fewer.Valid(v, log) && fewer.requests == FirstUses(v, run.requests, run.First().requests.Keys)
    ensures fewer.First() == run.First() && fewer.Last() == run.Last()
    decreases |run.requests|
  {
    if run.requests == [] {
      fewer := run;
    } else {
      RestIsValid(v, log, run);
      fewer := RetriesInvisible(v, log, run.Rest());
      FirstUsesStep(v, log, run.First(), run.requests, run.servers[1], run.replies[0]);
      if !Repeated(v, run.First(), run.requests[0]) {
        AfterIsValid(v, log, run.First(), run.requests[0], run.replies[0], fewer);
        fewer := fewer.After(run.First(), run.requests[0], run.replies[0]);
      }
    }
  }

  /** And the other way round: a run of the first uses is that of a run with all the repeats. */
  lemma {:induction false} RetriesAdded<S, Q, R>(v: Service<Q, R>, log: set<Dispatch<S, Q, R>>, fewer: Run<S, Q, R>, qs: seq<Q>)
    returns (run: Run<S, Q, R>)
    requires fewer.Valid(v, log) && fewer.requests == FirstUses(v, qs, fewer.First().requests.Keys)
    ensures run.Valid(v, log) && run.requests == qs
    ensures run.First() == fewer.First() && run.Last() == fewer.Last()
    decreases |qs|
  {
    var s := fewer.First();
    if qs == [] {
      run := fewer;
    } else if Repeated(v, s, qs[0]) {
      var known := s.requests[v.idOf(qs[0]).value];
      run := RetriesAdded(v, log, fewer, qs[1..]);
      var r := if known.0 == qs[0] then known.1 else v.duplicate(qs[0]);
      AfterIsValid(v, log, s, qs[0], r, run);
      run := run.After(s, qs[0], r);
    } else {
      RestIsValid(v, log, fewer);
      FirstUsesStep(v, log, s, qs, fewer.servers[1], fewer.replies[0]);
      run := RetriesAdded(v, log, fewer.Rest(), qs[1..]);
      AfterIsValid(v, log, s, qs[0], fewer.replies[0], run);
      run := run.After(s, qs[0], fewer.replies[0]);
    }
  }

  /** What the cache remembers under an id never changes. */
  lemma {:induction false} Remembered<S, Q, R>(v: Service<Q, R>, log: set<Dispatch<S, Q, R>>, run: Run<S, Q, R>, i: nat, j: nat, id: Name)
    requires run.Valid(v, log) && i <= j <= |run.requests| && id in run.servers[i].requests
    ensures id in run.servers[j].requests && run.servers[j].requests[id] == run.servers[i].requests[id]
    decreases j - i
  {
    if i < j {
      assert Handles(v, log, run.servers[i], run.requests[i], run.servers[i + 1], run.replies[i]);
      Remembered(v, log, run, i + 1, j, id);
    }
  }

  /** The cache knows the ids that it knew at the start and those asked for since. */
  lemma {:induction false} KnownSoFar<S, Q, R>(v: Service<Q, R>, log: set<Dispatch<S, Q, R>>, run: Run<S, Q, R>, i: nat, id: Name)
    requires run.Valid(v, log) && i <= |run.requests|
    ensures id in run.servers[i].requests <==>
              id in run.servers[0].requests || exists k :: 0 <= k < i && v.idOf(run.requests[k]) == Some(id)
  {
    if i > 0 {
      KnownSoFar(v, log, run, i - 1, id);
      assert Handles(v, log, run.servers[i - 1], run.requests[i - 1], run.servers[i - 1 + 1], run.replies[i - 1]);
    }
  }

  /** No id comes twice in this sequence, and none of these. */
  ghost predicate AllNew<Q, R>(v: Service<Q, R>, qs: seq<Q>, seen: set<Name>) {
    && (forall i | 0 <= i < |qs| && v.idOf(qs[i]).Some? :: v.idOf(qs[i]).value !in seen)
    && (forall i, j | 0 <= i < j < |qs| && v.idOf(qs[i]).Some? :: v.idOf(qs[i]) != v.idOf(qs[j]))
  }

  lemma {:induction false} FirstUsesDiffer<Q, R>(v: Service<Q, R>, qs: seq<Q>, seen: set<Name>)
    ensures AllNew(v, FirstUses(v, qs, seen), seen)
  {
    if qs != [] {
      match v.idOf(qs[0])
      case None =>
        FirstUsesDiffer(v, qs[1..], seen);
        OneInFront(v, qs[0], FirstUses(v, qs[1..], seen), seen, seen);
      case Some(id) =>
        if id in seen {
          FirstUsesDiffer(v, qs[1..], seen);
        } else {
          FirstUsesDiffer(v, qs[1..], seen + {id});
          OneInFront(v, qs[0], FirstUses(v, qs[1..], seen + {id}), seen, seen + {id});
        }
    }
  }

  lemma OneInFront<Q, R>(v: Service<Q, R>, q: Q, rest: seq<Q>, seen: set<Name>, all: set<Name>)
    requires AllNew(v, rest, all) && seen <= all
    requires v.idOf(q).Some? ==> v.idOf(q).value in all && v.idOf(q).value !in seen
    ensures AllNew(v, [q] + rest, seen)
  {
    var qs := [q] + rest;
    forall i | 0 < i < |qs| ensures qs[i] == rest[i - 1] {
    }
    forall i, j | 0 <= i < j < |qs| && v.idOf(qs[i]).Some? ensures v.idOf(qs[i]) != v.idOf(qs[j]) {
      assert v.idOf(rest[j - 1]).Some? ==> v.idOf(rest[j - 1]).value !in all;
    }
  }

  /** A repeat of the same request gets the first answer, a changed payload the duplicate error, and neither changes anything. */
  lemma RepeatsAreAnswered<S, Q, R>(v: Service<Q, R>, log: set<Dispatch<S, Q, R>>, run: Run<S, Q, R>, i: nat, j: nat)
    requires run.Valid(v, log) && i < j < |run.requests|
    requires v.idOf(run.requests[i]).Some? && v.idOf(run.requests[i]) == v.idOf(run.requests[j]) && !Repeated(v, run.servers[i], run.requests[i])
    ensures run.replies[j] == if run.requests[i] == run.requests[j] then run.replies[i] else v.duplicate(run.requests[j])
    ensures run.servers[j + 1] == run.servers[j]
  {
    assert Handles(v, log, run.servers[i], run.requests[i], run.servers[i + 1], run.replies[i]);
    Remembered(v, log, run, i + 1, j, v.idOf(run.requests[i]).value);
    assert Handles(v, log, run.servers[j], run.requests[j], run.servers[j + 1], run.replies[j]);
  }
}
