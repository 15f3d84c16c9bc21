/**
 The broker's concurrent request cache: callers with the same request id share one run of the handler.
 Each caller's passage is cut into the pieces that the lock makes atomic, interleaved in any order.
 */
module SingleFlight {
  import opened Wrappers
  import opened Names

  /** One call of `Handle`; it also stands for the channel that the call creates when it runs the handler. */
  type Caller = nat

  /** What the handler answers. */
  type Response(==, !new, 0)

  /** Where a call is.  A request without an id (None) is never shared. */
  datatype Stage =
    | Outside
    | Arriving(id: Option<Name>)
    | Running(id: Option<Name>)
    | Finishing(id: Option<Name>, response: Response)
    | Waiting(wanted: Name, channel: Caller)
    | Woken(wanted: Name)
    | Returned(id: Option<Name>, response: Response)
    | Cancelled

  /** Besides the broker's two maps: the channels closed so far, and how often the handler was started for an id. */
  datatype State = State(
    requests: map<Name, Response>, inflight: map<Name, Caller>, closed: set<Caller>, at: map<Caller, Stage>, started: map<Name, nat>)
  {
    function StageOf(c: Caller): Stage {
      if c in at then at[c] else Outside
    }

    function Go(c: Caller, stage: Stage): State {
      this.(at := at[c := stage])
    }

    function Starts(id: Name): nat {
      if id in started then started[id] else 0
    }
  }

  /** The first critical section: answered already, in flight, or this call's to run. */
  function Enter(s: State, c: Caller, id: Option<Name>): State {
    if id.None? then s.Go(c, Running(None))
    else if id.value in s.requests then s.Go(c, Returned(id, s.requests[id.value]))
    else if id.value in s.inflight then s.Go(c, Waiting(id.value, s.inflight[id.value]))
    else s.(inflight := s.inflight[id.value := c], started := s.started[id.value := s.Starts(id.value) + 1]).Go(c, Running(id))
  }

  /** The second one: the response is stored, the id leaves `inflight`, the channel is closed. */
  function Finish(s: State, c: Caller, id: Option<Name>, response: Response): State {
    if id.None? then s.Go(c, Returned(None, response))
    else
      s.(requests := s.requests[id.value := response], inflight := s.inflight - {id.value}, closed := s.closed + {c})
       .Go(c, Returned(id, response))
  }

  /** What a woken call reads: the stored response, or the zero one if there is none. */
  function Stored(s: State, id: Name, zero: Response): Response {
    if id in s.requests then s.requests[id] else zero
  }

  ghost predicate Step(zero: Response, s: State, s': State, c: Caller) {
    match s.StageOf(c)
    case Outside => exists id :: s' == s.Go(c, Arriving(id))
    case Arriving(id) => s' == Enter(s, c, id)
    case Running(id) => exists response :: s' == s.Go(c, Finishing(id, response))
    case Finishing(id, response) => s' == Finish(s, c, id, response)
    case Waiting(id, channel) => s' == s.Go(c, Cancelled) || (channel in s.closed && s' == s.Go(c, Woken(id)))
    case Woken(id) => s' == s.Go(c, Returned(Some(id), Stored(s, id, zero)))
    case _ => false
  }

  ghost predicate Run(zero: Response, run: seq<State>) {
    && run != [] && run[0] == State(map[], map[], {}, map[], map[])
    && forall i | 0 <= i < |run| - 1 :: Steps(zero, run[i], run[i + 1])
  }

  ghost predicate Steps(zero: Response, s: State, s': State) {
    exists c :: Step(zero, s, s', c)
  }

  /** This call is running the handler for this id. */
  predicate Runs(stage: Stage, id: Name) {
    (stage.Running? || stage.Finishing?) && stage.id == Some(id)
  }

  // ----- What every run keeps ---------------------------------------------------------------

  /** An id is in flight exactly while a run for it is going. */
  ghost predicate InflightExactly(s: State) {
    && (forall id | id in s.inflight :: Runs(s.StageOf(s.inflight[id]), id))
    && (forall c, id | Runs(s.StageOf(c), id) :: id in s.inflight && s.inflight[id] == c)
  }

  /** The handler has been started once for an id in flight or answered, and never for another. */
  ghost predicate StartedOnce(s: State) {
    && (forall id | id in s.inflight :: id !in s.requests)
    && (forall id :: s.Starts(id) == if id in s.inflight || id in s.requests then 1 else 0)
  }

  /** A waiter's run is still going, or the response is stored and the waiter's channel closed. */
  ghost predicate NoLostWakeup(s: State) {
    && (forall c | s.StageOf(c).Waiting? ::
          var id, channel := s.StageOf(c).wanted, s.StageOf(c).channel;
          (id in s.inflight && s.inflight[id] == channel) || (id in s.requests && channel in s.closed))
    && (forall c | c in s.closed :: s.StageOf(c).Returned?)
  }

  /** Whoever has returned for an id returned the stored response. */
  ghost predicate AnsweredAlike(s: State) {
    && (forall c | s.StageOf(c).Returned? && s.StageOf(c).id.Some? ::
          s.StageOf(c).id.value in s.requests && s.StageOf(c).response == s.requests[s.StageOf(c).id.value])
    && (forall c | s.StageOf(c).Woken? :: s.StageOf(c).wanted in s.requests)
  }

  ghost predicate Inv(s: State) {
    InflightExactly(s) && StartedOnce(s) && NoLostWakeup(s) && AnsweredAlike(s)
  }

  lemma InvStart()
    ensures Inv(State(map[], map[], {}, map[], map[]))
  {
  }

  lemma StartKeepsInv(s: State, c: Caller, id: Name)
    requires Inv(s) && s.StageOf(c) == Arriving(Some(id)) && id !in s.requests && id !in s.inflight
    ensures Inv(Enter(s, c, Some(id)))
  {
    var s' := Enter(s, c, Some(id));
    assert forall d | d != c :: s'.StageOf(d) == s.StageOf(d);
    assert s'.StageOf(c) == Running(Some(id)) && s'.inflight[id] == c;
    assert InflightExactly(s') by {
      forall i | i in s'.inflight && i != id ensures Runs(s'.StageOf(s'.inflight[i]), i) {
        assert Runs(s.StageOf(s.inflight[i]), i);
      }
    }
    assert NoLostWakeup(s') by {
      forall d | s'.StageOf(d).Waiting? ensures s.StageOf(d) == s'.StageOf(d) {
        assert d != c;
      }
    }
  }

  lemma WaitKeepsInv(s: State, c: Caller, id: Name)
    requires Inv(s) && s.StageOf(c) == Arriving(Some(id)) && id in s.inflight
    ensures Inv(s.Go(c, Waiting(id, s.inflight[id])))
  {
    var s' := s.Go(c, Waiting(id, s.inflight[id]));
    assert forall d | d != c :: s'.StageOf(d) == s.StageOf(d);
    assert InflightExactly(s') by {
      forall i | i in s'.inflight ensures Runs(s'.StageOf(s'.inflight[i]), i) {
        assert Runs(s.StageOf(s.inflight[i]), i);
      }
    }
  }

  lemma FinishKeepsInv(s: State, c: Caller, id: Option<Name>, response: Response)
    requires Inv(s) && s.StageOf(c) == Finishing(id, response)
    ensures Inv(Finish(s, c, id, response))
    ensures forall i | i in s.requests :: i in Finish(s, c, id, response).requests && Finish(s, c, id, response).requests[i] == s.requests[i]
  {
    var s' := Finish(s, c, id, response);
    assert forall d | d != c :: s'.StageOf(d) == s.StageOf(d);
    assert id.Some? ==> Runs(s.StageOf(c), id.value);
    assert s'.StageOf(c) == Returned(id, response);
    assert InflightExactly(s');
    assert StartedOnce(s');
    assert NoLostWakeup(s');
  }

  /** A step of one call outside the critical sections. */
  lemma MoveKeepsInv(s: State, c: Caller, stage: Stage)
    requires Inv(s) && !s.StageOf(c).Returned?
    requires forall id :: Runs(stage, id) <==> Runs(s.StageOf(c), id)
    requires stage.Waiting? ==> stage == s.StageOf(c)
    requires stage.Returned? ==> stage.id.Some? && stage.id.value in s.requests && stage.response == s.requests[stage.id.value]
    requires stage.Woken? ==> stage.wanted in s.requests
    ensures Inv(s.Go(c, stage))
  {
    var s' := s.Go(c, stage);
    assert forall d | d != c :: s'.StageOf(d) == s.StageOf(d);
    assert InflightExactly(s');
    assert NoLostWakeup(s');
  }

  lemma StepKeepsInv(zero: Response, s: State, s': State, c: Caller)
    requires Inv(s) && Step(zero, s, s', c)
    ensures Inv(s')
    ensures forall id | id in s.requests :: id in s'.requests && s'.requests[id] == s.requests[id]
  {
    match s.StageOf(c)
    case Arriving(id) =>
      if id.None? || id.value in s.requests {
        MoveKeepsInv(s, c, s'.StageOf(c));
      } else if id.value in s.inflight {
        WaitKeepsInv(s, c, id.value);
      } else {
        StartKeepsInv(s, c, id.value);
      }
    case Finishing(id, response) => FinishKeepsInv(s, c, id, response);
    case _ => MoveKeepsInv(s, c, s'.StageOf(c));
  }

  lemma {:induction false} InvAlways(zero: Response, run: seq<State>, i: nat)
    requires Run(zero, run) && i < |run|
    ensures Inv(run[i])
  {
    hide Step, Inv;
    InvStart();
    if i > 0 {
      InvAlways(zero, run, i - 1);
      var c :| Step(zero, run[i - 1], run[i], c);
      StepKeepsInv(zero, run[i - 1], run[i], c);
    }
  }

  /** The handler runs at most once for an id, and the id is in flight exactly while it does. */
  lemma RunsAtMostOnce(zero: Response, run: seq<State>, i: nat, id: Name)
    requires Run(zero, run) && i < |run|
    ensures run[i].Starts(id) <= 1
    ensures id in run[i].inflight <==> exists c :: Runs(run[i].StageOf(c), id)
    ensures forall c, d | Runs(run[i].StageOf(c), id) && Runs(run[i].StageOf(d), id) :: c == d
  {
    InvAlways(zero, run, i);
    if id in run[i].inflight {
      assert Runs(run[i].StageOf(run[i].inflight[id]), id);
    }
  }

  lemma {:induction false} StoredForever(zero: Response, run: seq<State>, i: nat, j: nat, id: Name)
    requires Run(zero, run) && i <= j < |run| && id in run[i].requests
    ensures id in run[j].requests && run[j].requests[id] == run[i].requests[id]
    decreases j
  {
    hide Step, Inv;
    if i < j {
      StoredForever(zero, run, i, j - 1, id);
      InvAlways(zero, run, j - 1);
      var c :| Step(zero, run[j - 1], run[j], c);
      StepKeepsInv(zero, run[j - 1], run[j], c);
    }
  }

  /** Any two calls that return for an id, at any two moments, return the same response. */
  lemma AllAlike(zero: Response, run: seq<State>, i: nat, j: nat, c: Caller, d: Caller)
    requires Run(zero, run) && i <= j < |run|
    requires run[i].StageOf(c).Returned? && run[j].StageOf(d).Returned?
    requires run[i].StageOf(c).id.Some? && run[i].StageOf(c).id == run[j].StageOf(d).id
    ensures run[i].StageOf(c).response == run[j].StageOf(d).response
  {
    InvAlways(zero, run, i);
    InvAlways(zero, run, j);
    StoredForever(zero, run, i, j, run[i].StageOf(c).id.value);
  }

  /** A step is that of one call. */
  lemma OneCallSteps(zero: Response, s: State, s': State, c: Caller, d: Caller)
    requires Step(zero, s, s', c) && d != c
    ensures s'.StageOf(d) == s.StageOf(d)
  {
  }

  /** From the moment that the handler has answered its response is on the way, and then stored. */
  lemma {:induction false} ResponseKept(zero: Response, run: seq<State>, i: nat, j: nat, c: Caller, id: Name, response: Response)
    requires Run(zero, run) && i <= j < |run| && run[i].StageOf(c) == Finishing(Some(id), response)
    ensures run[j].StageOf(c) == Finishing(Some(id), response) || (id in run[j].requests && run[j].requests[id] == response)
    decreases j
  {
    if i < j {
      ResponseKept(zero, run, i, j - 1, c, id, response);
      assert Steps(zero, run[j - 1], run[j - 1 + 1]);
      var d :| Step(zero, run[j - 1], run[j], d);
      if run[j - 1].StageOf(c) != Finishing(Some(id), response) {
        StoredForever(zero, run, j - 1, j, id);
      } else if d != c {
        OneCallSteps(zero, run[j - 1], run[j], d, c);
      }
    }
  }

  /** Every call that returns for an id returns what the handler answered when it ran for it. */
  lemma TheHandlersResponse(zero: Response, run: seq<State>, i: nat, j: nat, c: Caller, d: Caller, id: Name, response: Response)
    requires Run(zero, run) && i <= j < |run|
    requires run[i].StageOf(c) == Finishing(Some(id), response)
    requires run[j].StageOf(d).Returned? && run[j].StageOf(d).id == Some(id)
    ensures run[j].StageOf(d).response == response
  {
    ResponseKept(zero, run, i, j, c, id, response);
    InvAlways(zero, run, j);
  }

  /** Nobody waits in vain: a waiting call can wake, or the call it waits for can take its next step. */
  lemma WaitersAreServed(zero: Response, run: seq<State>, i: nat, c: Caller)
    requires Run(zero, run) && i < |run| && run[i].StageOf(c).Waiting?
    ensures
      var s := run[i];
      var id, channel := s.StageOf(c).wanted, s.StageOf(c).channel;
      || (id in s.requests && Step(zero, s, s.Go(c, Woken(id)), c))
      || (Runs(s.StageOf(channel), id)
          && (s.StageOf(channel).Running? ==> forall r :: Step(zero, s, s.Go(channel, Finishing(Some(id), r)), channel))
          && (s.StageOf(channel).Finishing? ==> Step(zero, s, Finish(s, channel, Some(id), s.StageOf(channel).response), channel)))
  {
    InvAlways(zero, run, i);
    var s := run[i];
    var id, channel := s.StageOf(c).wanted, s.StageOf(c).channel;
    if !(id in s.requests && channel in s.closed) {
      forall r | s.StageOf(channel).Running? ensures Step(zero, s, s.Go(channel, Finishing(Some(id), r)), channel) {
      }
    }
  }
}
