/**
 The bounded parallel copy: a walker sends one job for every entry that is neither directory nor symbolic
 link through a bounded queue to a pool of workers.  The steps of walker, workers and the waiting caller
 are interleaved in any order; the context is never cancelled.
 */
module CopyPool {
  import opened Wrappers

  /** Entries in the order of the walk. */
  datatype Entry = Folder | SymbolicLink | Other

  datatype Worker = Idle | Holding(job: nat) | Busy(job: nat) | Exited

  datatype State = State(
    walked: nat, sending: bool, walkFailed: bool, closed: bool,
    queue: seq<nat>, workers: seq<Worker>, copyFailed: bool,
    copied: map<nat, nat>, lost: map<nat, nat>, answer: Option<bool>)

  /** How often a job has been copied, or lost. */
  function Tally(m: map<nat, nat>, job: nat): nat {
    if job in m then m[job] else 0
  }

  function Bump(m: map<nat, nat>, job: nat): map<nat, nat> {
    m[job := Tally(m, job) + 1]
  }

  const DEFAULT_WORKERS: nat := 8

  function PoolSize(workers: int): nat {
    if workers <= 0 then DEFAULT_WORKERS else workers
  }

  function Start(workers: int): State {
    State(0, false, false, false, [], seq(PoolSize(workers), i => Idle), false, map[], map[], None)
  }

  // ----- Steps ------------------------------------------------------------------------------

  /** The walk is over, by itself or by an error. */
  predicate Ended(s: State, entries: seq<Entry>) {
    s.walkFailed || s.walked >= |entries|
  }

  /** The walker: an error, a directory or link made, a job prepared and then sent if there is room; or the close. */
  predicate WalkerStep(s: State, s': State, entries: seq<Entry>) {
    if Ended(s, entries) then
      !s.closed && s' == s.(closed := true)
    else if s.sending then
      |s.queue| < 2 * |s.workers| && s' == s.(queue := s.queue + [s.walked], walked := s.walked + 1, sending := false)
    else
      || s' == s.(walkFailed := true)
      || (!s.copyFailed && s' == if entries[s.walked] == Other then s.(sending := true) else s.(walked := s.walked + 1))
  }

  /** The worker at w becomes this one. */
  function With(s: State, w: nat, worker: Worker): State
    requires w < |s.workers|
  {
    s.(workers := s.workers[w := worker])
  }

  function Take(s: State, w: nat): State
    requires w < |s.workers| && s.queue != []
  {
    With(s.(queue := s.queue[1..]), w, Holding(s.queue[0]))
  }

  function Drop(s: State, w: nat, job: nat): State
    requires w < |s.workers|
  {
    With(s.(lost := Bump(s.lost, job)), w, Exited)
  }

  function Complete(s: State, w: nat, job: nat): State
    requires w < |s.workers|
  {
    With(s.(copied := Bump(s.copied, job)), w, Idle)
  }

  function Fail(s: State, w: nat, job: nat): State
    requires w < |s.workers|
  {
    Drop(s.(copyFailed := true), w, job)
  }

  /** A worker: takes a job or leaves, looks for an error, copies and perhaps fails. */
  predicate WorkerStep(s: State, s': State, w: nat)
    requires w < |s.workers|
  {
    match s.workers[w]
    case Idle => if s.queue != [] then s' == Take(s, w) else s.closed && s' == With(s, w, Exited)
    case Holding(job) => s' == if s.copyFailed then Drop(s, w, job) else With(s, w, Busy(job))
    case Busy(job) => s' == Complete(s, w, job) || s' == Fail(s, w, job)
    case Exited => false
  }

  predicate AllExited(s: State) {
    forall w | 0 <= w < |s.workers| :: s.workers[w].Exited?
  }

  /** The caller returns nil (true) or an error once the workers are done. */
  predicate ReturnStep(s: State, s': State) {
    s.closed && AllExited(s) && s.answer.None? && s' == s.(answer := Some(!s.walkFailed && !s.copyFailed))
  }

  ghost predicate Step(s: State, s': State, entries: seq<Entry>) {
    WalkerStep(s, s', entries) || (exists w: nat :: w < |s.workers| && WorkerStep(s, s', w)) || ReturnStep(s, s')
  }

  ghost predicate Run(run: seq<State>, entries: seq<Entry>, workers: int) {
    && run != [] && run[0] == Start(workers)
    && forall i | 0 <= i < |run| - 1 :: Step(run[i], run[i + 1], entries)
  }

  // ----- Conservation of jobs ---------------------------------------------------------------

  /** How many workers have this job in hand. */
  function InHands(workers: seq<Worker>, job: nat): nat {
    if workers == [] then 0 else InHand(workers[0], job) + InHands(workers[1..], job)
  }

  function InHand(w: Worker, job: nat): nat {
    if (w.Holding? || w.Busy?) && w.job == job then 1 else 0
  }

  /** How often the job is queued, in hand, copied or lost. */
  function Count(s: State, job: nat): nat {
    multiset(s.queue)[job] + InHands(s.workers, job) + Tally(s.copied, job) + Tally(s.lost, job)
  }

  /** One job is due for each entry already walked that is neither directory nor link. */
  function Due(entries: seq<Entry>, walked: nat, job: nat): nat {
    if job < walked && job < |entries| && entries[job] == Other then 1 else 0
  }

  lemma {:induction false} HandsUpdate(workers: seq<Worker>, w: nat, worker: Worker, job: nat)
    requires w < |workers|
    ensures InHands(workers[w := worker], job) + InHand(workers[w], job) == InHands(workers, job) + InHand(worker, job)
  {
    if w > 0 {
      HandsUpdate(workers[1..], w - 1, worker, job);
      assert workers[w := worker][1..] == workers[1..][w - 1 := worker];
    } else {
      assert workers[w := worker][1..] == workers[1..];
    }
  }

  lemma {:induction false} NoneInHands(workers: seq<Worker>, job: nat)
    requires forall w | 0 <= w < |workers| :: !workers[w].Holding? && !workers[w].Busy?
    ensures InHands(workers, job) == 0
  {
    if workers != [] {
      NoneInHands(workers[1..], job);
    }
  }

  /** Every job due is queued, in hand, copied or lost, once and in one place. */
  ghost predicate Conserved(s: State, entries: seq<Entry>) {
    forall job: nat :: Count(s, job) == Due(entries, s.walked, job)
  }

  /** Jobs are lost only after a copy has failed, and before that workers leave only a closed and empty queue. */
  ghost predicate Orderly(s: State, entries: seq<Entry>) {
    && |s.workers| > 0 && s.walked <= |entries|
    && (s.lost != map[] ==> s.copyFailed)
    && (s.closed ==> Ended(s, entries))
    && (s.sending ==> s.walked < |entries| && entries[s.walked] == Other && !s.walkFailed)
    && |s.queue| <= 2 * |s.workers|
    && (!s.copyFailed ==> forall w | 0 <= w < |s.workers| && s.workers[w].Exited? :: s.closed && s.queue == [])
    && (s.answer.Some? ==> s.closed && AllExited(s) && s.answer == Some(!s.walkFailed && !s.copyFailed))
  }

  ghost predicate Inv(s: State, entries: seq<Entry>) {
    Conserved(s, entries) && Orderly(s, entries)
  }

  lemma WalkerConserves(s: State, s': State, entries: seq<Entry>)
    requires Inv(s, entries) && WalkerStep(s, s', entries)
    ensures Conserved(s', entries)
  {
    forall job: nat ensures Count(s', job) == Due(entries, s'.walked, job) {
      assert Count(s, job) == Due(entries, s.walked, job);
    }
  }

  /** What one worker's slot, the queue and the two tallies hold of a job. */
  function Around(s: State, w: nat, job: nat): nat
    requires w < |s.workers|
  {
    multiset(s.queue)[job] + InHand(s.workers[w], job) + Tally(s.copied, job) + Tally(s.lost, job)
  }

  lemma AroundDecides(s: State, s': State, w: nat, job: nat)
    requires w < |s.workers| && |s'.workers| == |s.workers| && s'.workers == s.workers[w := s'.workers[w]]
    requires Around(s', w, job) == Around(s, w, job)
    ensures Count(s', job) == Count(s, job)
  {
    HandsUpdate(s.workers, w, s'.workers[w], job);
  }

  lemma TakeMoves(s: State, w: nat, job: nat)
    requires w < |s.workers| && s.queue != [] && s.workers[w].Idle?
    ensures Count(Take(s, w), job) == Count(s, job)
  {
    Popped(s.queue, job);
    AroundDecides(s, Take(s, w), w, job);
  }

  lemma DropMoves(s: State, w: nat, job: nat)
    requires w < |s.workers| && (s.workers[w].Holding? || s.workers[w].Busy?)
    ensures Count(Drop(s, w, s.workers[w].job), job) == Count(s, job)
  {
    AroundDecides(s, Drop(s, w, s.workers[w].job), w, job);
  }

  lemma CompleteMoves(s: State, w: nat, job: nat)
    requires w < |s.workers| && s.workers[w].Busy?
    ensures Count(Complete(s, w, s.workers[w].job), job) == Count(s, job)
  {
    AroundDecides(s, Complete(s, w, s.workers[w].job), w, job);
  }

  lemma WithMoves(s: State, w: nat, worker: Worker, job: nat)
    requires w < |s.workers| && InHand(worker, job) == InHand(s.workers[w], job)
    ensures Count(With(s, w, worker), job) == Count(s, job)
  {
    AroundDecides(s, With(s, w, worker), w, job);
  }

  lemma WorkerMoves(s: State, s': State, w: nat, job: nat)
    requires w < |s.workers| && WorkerStep(s, s', w)
    ensures Count(s', job) == Count(s, job) && s'.walked == s.walked
  {
    hide Count;
    match s.workers[w]
    case Idle => if s.queue != [] { TakeMoves(s, w, job); } else { WithMoves(s, w, Exited, job); }
    case Holding(j) => if s.copyFailed { DropMoves(s, w, job); } else { WithMoves(s, w, Busy(j), job); }
    case Busy(j) =>
      CompleteMoves(s, w, job);
      DropMoves(s.(copyFailed := true), w, job);
      assert Count(s.(copyFailed := true), job) == Count(s, job) by { SameCount(s, job); }
    case Exited =>
  }

  lemma SameCount(s: State, job: nat)
    ensures Count(s.(copyFailed := true), job) == Count(s, job)
  {
  }

  lemma Popped(queue: seq<nat>, job: nat)
    requires queue != []
    ensures multiset(queue)[job] == multiset(queue[1..])[job] + if queue[0] == job then 1 else 0
  {
    assert queue == [queue[0]] + queue[1..];
  }

  /** A worker's step moves jobs but neither makes nor drops any. */
  lemma WorkerConserves(s: State, s': State, entries: seq<Entry>, w: nat)
    requires Conserved(s, entries) && w < |s.workers| && WorkerStep(s, s', w)
    ensures Conserved(s', entries)
  {
    hide Count, WorkerStep;
    forall job: nat ensures Count(s', job) == Due(entries, s'.walked, job) {
      assert Count(s, job) == Due(entries, s.walked, job);
      WorkerMoves(s, s', w, job);
    }
  }

  /** A worker that is not done yet may become another, or leave if that is in order. */
  lemma WithOrderly(s: State, w: nat, worker: Worker, entries: seq<Entry>)
    requires Orderly(s, entries) && w < |s.workers| && !s.workers[w].Exited?
    requires worker.Exited? ==> s.copyFailed || (s.closed && s.queue == [])
    ensures Orderly(With(s, w, worker), entries)
  {
    var s' := With(s, w, worker);
    assert forall v | 0 <= v < |s.workers| && v != w :: s'.workers[v] == s.workers[v];
  }

  /** What the tallies and a shorter queue change is in order. */
  lemma StillOrderly(s: State, w: nat, job: nat, entries: seq<Entry>)
    requires Orderly(s, entries) && w < |s.workers|
    ensures s.queue != [] && s.workers[w].Idle? ==> Orderly(s.(queue := s.queue[1..]), entries)
    ensures s.copyFailed ==> Orderly(s.(lost := Bump(s.lost, job)), entries)
    ensures Orderly(s.(copied := Bump(s.copied, job)), entries)
    ensures !s.workers[w].Exited? ==> Orderly(Failing(s, job), entries)
  {
  }

  lemma WorkerOrderly(s: State, s': State, entries: seq<Entry>, w: nat)
    requires Orderly(s, entries) && w < |s.workers| && WorkerStep(s, s', w)
    ensures Orderly(s', entries)
  {
    hide Orderly;
    match s.workers[w]
    case Idle =>
      StillOrderly(s, w, 0, entries);
      if s.queue != [] {
        WithOrderly(s.(queue := s.queue[1..]), w, Holding(s.queue[0]), entries);
      } else {
        WithOrderly(s, w, Exited, entries);
      }
    case Holding(j) =>
      StillOrderly(s, w, j, entries);
      if s.copyFailed {
        WithOrderly(s.(lost := Bump(s.lost, j)), w, Exited, entries);
      } else {
        WithOrderly(s, w, Busy(j), entries);
      }
    case Busy(j) =>
      StillOrderly(s, w, j, entries);
      if s' == Complete(s, w, j) {
        WithOrderly(s.(copied := Bump(s.copied, j)), w, Idle, entries);
      } else {
        WithOrderly(Failing(s, j), w, Exited, entries);
      }
    case Exited =>
  }

  function Failing(s: State, job: nat): State {
    s.(copyFailed := true, lost := Bump(s.lost, job))
  }

  lemma StepKeepsInv(s: State, s': State, entries: seq<Entry>)
    requires Inv(s, entries) && Step(s, s', entries)
    ensures Inv(s', entries)
  {
    hide Conserved, WorkerStep;
    if WalkerStep(s, s', entries) {
      WalkerConserves(s, s', entries);
    } else if w: nat :| w < |s.workers| && WorkerStep(s, s', w) {
      WorkerConserves(s, s', entries, w);
      WorkerOrderly(s, s', entries, w);
    } else {
      ReturnConserves(s, s', entries);
    }
  }

  lemma ReturnConserves(s: State, s': State, entries: seq<Entry>)
    requires Inv(s, entries) && ReturnStep(s, s')
    ensures Conserved(s', entries)
  {
    forall job: nat ensures Count(s', job) == Due(entries, s'.walked, job) {
      assert Count(s, job) == Due(entries, s.walked, job);
    }
  }

  lemma {:induction false} InvAlways(run: seq<State>, entries: seq<Entry>, workers: int, i: nat)
    requires Run(run, entries, workers) && i < |run|
    ensures Inv(run[i], entries)
  {
    if i == 0 {
      forall job: nat ensures Count(run[0], job) == Due(entries, 0, job) {
        NoneInHands(run[0].workers, job);
      }
    } else {
      hide Inv, Step;
      InvAlways(run, entries, workers, i - 1);
      StepKeepsInv(run[i - 1], run[i], entries);
    }
  }

  /** A nil result means that every entry that is neither directory nor link was copied exactly once. */
  lemma NilMeansAllCopied(run: seq<State>, entries: seq<Entry>, workers: int, i: nat)
    requires Run(run, entries, workers) && i < |run| && run[i].answer == Some(true)
    ensures forall k: nat :: Tally(run[i].copied, k) == if k < |entries| && entries[k] == Other then 1 else 0
  {
    InvAlways(run, entries, workers, i);
    var s := run[i];
    assert s.workers[0].Exited?;
    forall k: nat ensures Tally(s.copied, k) == if k < |entries| && entries[k] == Other then 1 else 0 {
      NoneInHands(s.workers, k);
      assert Count(s, k) == Due(entries, s.walked, k);
    }
  }

  // ----- Progress ---------------------------------------------------------------------------

  function Effort(w: Worker): nat {
    match w
    case Idle => 1
    case Holding(_) => 3
    case Busy(_) => 2
    case Exited => 0
  }

  function Efforts(workers: seq<Worker>): nat {
    if workers == [] then 0 else Effort(workers[0]) + Efforts(workers[1..])
  }

  /** What is left to do: entries to walk, jobs in the queue and in hand, and the last steps. */
  function Remaining(s: State, entries: seq<Entry>): int {
    5 * (|entries| - s.walked) - (if s.sending then 1 else 0) + 3 * |s.queue| + Efforts(s.workers)
    + (if s.walkFailed then 0 else 1) + (if s.closed then 0 else 1) + (if s.answer.Some? then 0 else 1)
  }

  lemma {:induction false} EffortsUpdate(workers: seq<Worker>, w: nat, worker: Worker)
    requires w < |workers|
    ensures Efforts(workers[w := worker]) + Effort(workers[w]) == Efforts(workers) + Effort(worker)
  {
    if w > 0 {
      EffortsUpdate(workers[1..], w - 1, worker);
      assert workers[w := worker][1..] == workers[1..][w - 1 := worker];
    } else {
      assert workers[w := worker][1..] == workers[1..];
    }
  }

  lemma WithEffort(s: State, w: nat, worker: Worker, entries: seq<Entry>)
    requires w < |s.workers|
    ensures Remaining(With(s, w, worker), entries) == Remaining(s, entries) - Effort(s.workers[w]) + Effort(worker)
  {
    EffortsUpdate(s.workers, w, worker);
  }

  /** What the tallies and the mark of failure say does not count. */
  lemma SameRemaining(s: State, job: nat, entries: seq<Entry>)
    ensures Remaining(s.(lost := Bump(s.lost, job)), entries) == Remaining(s, entries)
    ensures Remaining(s.(copied := Bump(s.copied, job)), entries) == Remaining(s, entries)
    ensures Remaining(Failing(s, job), entries) == Remaining(s, entries)
  {
  }

  lemma ShorterQueue(s: State, entries: seq<Entry>)
    requires s.queue != []
    ensures Remaining(s.(queue := s.queue[1..]), entries) == Remaining(s, entries) - 3
  {
  }

  lemma Effortful()
    ensures Effort(Exited) == 0 && Effort(Idle) == 1
    ensures forall job :: Effort(Busy(job)) == 2 && Effort(Holding(job)) == 3
  {
  }

  lemma WorkerEffort(s: State, s': State, entries: seq<Entry>, w: nat)
    requires w < |s.workers| && WorkerStep(s, s', w)
    ensures Remaining(s', entries) < Remaining(s, entries)
  {
    Effortful();
    hide Remaining, Bump, Effort;
    match s.workers[w]
    case Idle =>
      if s.queue != [] {
        ShorterQueue(s, entries);
        WithEffort(s.(queue := s.queue[1..]), w, Holding(s.queue[0]), entries);
      } else {
        WithEffort(s, w, Exited, entries);
      }
    case Holding(j) =>
      SameRemaining(s, j, entries);
      if s.copyFailed {
        WithEffort(s.(lost := Bump(s.lost, j)), w, Exited, entries);
      } else {
        WithEffort(s, w, Busy(j), entries);
      }
    case Busy(j) =>
      SameRemaining(s, j, entries);
      if s' == Complete(s, w, j) {
        WithEffort(s.(copied := Bump(s.copied, j)), w, Idle, entries);
      } else {
        WithEffort(Failing(s, j), w, Exited, entries);
      }
    case Exited =>
  }

  /** Every step brings the end nearer, so no run is endless. */
  lemma StepsEnd(s: State, s': State, entries: seq<Entry>)
    requires Inv(s, entries) && Step(s, s', entries)
    ensures 0 <= Remaining(s', entries) < Remaining(s, entries)
  {
    StepKeepsInv(s, s', entries);
    hide Conserved;
    if w: nat :| w < |s.workers| && WorkerStep(s, s', w) {
      WorkerEffort(s, s', entries, w);
    } else {
      hide WorkerStep;
    }
  }

  /** Every worker has left, and the walker waits for room in a full queue. */
  predicate Hangs(s: State) {
    AllExited(s) && s.sending && |s.queue| == 2 * |s.workers|
  }

  /** Before the answer, no step is possible exactly when the walker waits for workers that have all left. */
  lemma StuckExactly(run: seq<State>, entries: seq<Entry>, workers: int, i: nat)
    requires Run(run, entries, workers) && i < |run| && run[i].answer.None?
    ensures (exists s' :: Step(run[i], s', entries)) <==> !Hangs(run[i])
  {
    InvAlways(run, entries, workers, i);
    var s := run[i];
    if Hangs(s) {
      forall s' ensures !Step(s, s', entries) {
      }
    } else if s.closed && AllExited(s) {
      var s' := s.(answer := Some(!s.walkFailed && !s.copyFailed));
      assert ReturnStep(s, s');
      assert Step(s, s', entries);
    } else if !AllExited(s) && (s.closed || s.queue != []) {
      var w: nat :| w < |s.workers| && !s.workers[w].Exited?;
      WorkerCan(s, w, entries);
    } else {
      WalkerCan(s, entries);
    }
  }

  /** So as long as no copy fails, some step is possible until the caller has its answer. */
  lemma NeverStuck(run: seq<State>, entries: seq<Entry>, workers: int, i: nat)
    requires Run(run, entries, workers) && i < |run| && !run[i].copyFailed && run[i].answer.None?
    ensures exists s' :: Step(run[i], s', entries)
  {
    InvAlways(run, entries, workers, i);
    StuckExactly(run, entries, workers, i);
    assert AllExited(run[i]) ==> run[i].workers[0].Exited?;
  }

  lemma WorkerCan(s: State, w: nat, entries: seq<Entry>)
    requires w < |s.workers| && !s.workers[w].Exited? && !(s.workers[w].Idle? && s.queue == [] && !s.closed)
    ensures exists s' :: Step(s, s', entries)
  {
    var s' :=
      match s.workers[w]
      case Idle => if s.queue != [] then Take(s, w) else With(s, w, Exited)
      case Holding(job) => if s.copyFailed then Drop(s, w, job) else With(s, w, Busy(job))
      case Busy(job) => Complete(s, w, job)
      case Exited => s;
    assert WorkerStep(s, s', w);
    assert Step(s, s', entries);
  }

  lemma WalkerCan(s: State, entries: seq<Entry>)
    requires !s.closed && !(s.sending && |s.queue| >= 2 * |s.workers|)
    ensures exists s' :: Step(s, s', entries)
  {
    var s' :=
      if Ended(s, entries) then s.(closed := true)
      else if s.sending then s.(queue := s.queue + [s.walked], walked := s.walked + 1, sending := false)
      else s.(walkFailed := true);
    assert WalkerStep(s, s', entries);
    assert Step(s, s', entries);
  }

  /**
   The premise is needed: once the only worker has left with an error, a walker that has already looked for
   errors waits for room in a full queue for ever.
   */
  lemma StuckAfterAFailure() returns (run: seq<State>)
    ensures Run(run, [Other, Other, Other, Other], 1)
    ensures var last := run[|run| - 1];
            last.answer.None? && last.copyFailed && forall s' :: !Step(last, s', [Other, Other, Other, Other])
  {
    var entries := [Other, Other, Other, Other];
    var s0 := Start(1);
    assert s0.workers == [Idle];
    var s1 := s0.(sending := true);
    var s2 := s1.(queue := [0], walked := 1, sending := false);
    var s3 := s2.(queue := [], workers := [Holding(0)]);
    var s4 := s3.(workers := [Busy(0)]);
    var s5 := s4.(sending := true);
    var s6 := s5.(queue := [1], walked := 2, sending := false);
    var s7 := s6.(sending := true);
    var s8 := s7.(queue := [1, 2], walked := 3, sending := false);
    var s9 := s8.(sending := true);
    var s10 := s9.(workers := [Exited], copyFailed := true, lost := Bump(map[], 0));
    assert WalkerStep(s0, s1, entries) && WalkerStep(s1, s2, entries);
    assert WorkerStep(s2, s3, 0) && WorkerStep(s3, s4, 0);
    assert WalkerStep(s4, s5, entries) && WalkerStep(s5, s6, entries);
    assert WalkerStep(s6, s7, entries) && WalkerStep(s7, s8, entries);
    assert WalkerStep(s8, s9, entries) && WorkerStep(s9, s10, 0);
    run := [s0, s1, s2, s3, s4, s5, s6, s7, s8, s9, s10];
  }
}
