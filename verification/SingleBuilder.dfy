/**
 Any number of clients begin, commit and abort parents of one key, their file system calls interleaved
 in any order, each of which may fail; the builder fills the staging image meanwhile, and the broker may
 die at any moment.  (The paths of different keys are disjoint, so one key is enough.)
 */
module SingleBuilder {
  import opened Wrappers
  import opened Names
  import opened StoreParents

  type Client = nat

  /** `pending.json`: a file being written is told apart by its writer. */
  datatype RecordFile = NoFile | Unfinished(writer: Id) | Of(transactionId: Id)

  datatype Pen = Pen(record: RecordFile, staging: Option<Image>)

  /** The call that a client makes next; m is the metadata it has prepared. */
  datatype Point =
    | Idle
    // begin
    | BeginResolve(t: Id) | BeginMake(t: Id) | BeginCreate(t: Id) | BeginFill(t: Id) | BeginCheck(t: Id) | Began(t: Id)
    | BeginDrop(t: Id) | BeginLeave(t: Id)
    // commit
    | CommitRead(t: Id, m: Metadata) | CommitMake(m: Metadata)
    | CommitMove(m: Metadata) | CommitSeal(m: Metadata) | CommitDescribe(m: Metadata)
    | CommitMark(m: Metadata) | CommitFill(m: Metadata) | CommitCheck(m: Metadata) | CommitUnmark
    | BackUnseal | BackUnmark | BackUndescribe | BackMove | BackRemove
    | TidyRecord | TidyLeave
    // abort
    | AbortRead(t: Id) | AbortList | AbortDrop | AbortLeave
  {
    /** Between the creation of the parent directory and the end of the work in it. */
    predicate Inside() {
      CommitMove? || CommitSeal? || CommitDescribe? || CommitMark? || CommitFill? || CommitCheck? || CommitUnmark?
      || BackUnseal? || BackUnmark? || BackUndescribe? || BackMove? || BackRemove?
    }

    /** Where a client can still take back a parent that has a whole COMPLETE. */
    predicate CanRollBack() {
      CommitCheck? || CommitUnmark? || BackUnseal? || BackUnmark? || BackUndescribe? || BackMove?
    }
  }

  /** The writer is the client that made COMPLETE whole. */
  datatype State = State(parent: Option<ParentDir>, pending: Option<Pen>, at: map<Client, Point>, writer: Option<Client>) {
    function PointOf(c: Client): Point {
      if c in at then at[c] else Idle
    }

    function Go(c: Client, p: Point): State {
      this.(at := at[c := p])
    }

    function WithImage(image: Option<Image>): State {
      if parent.Some? then this.(parent := Some(parent.value.(image := image))) else this
    }

    function WithMetadata(m: Option<Metadata>): State {
      if parent.Some? then this.(parent := Some(parent.value.(metadata := m))) else this
    }

    function WithMarker(complete: Complete): State {
      if parent.Some? then this.(parent := Some(parent.value.(complete := complete))) else this
    }

    function WithRecord(record: RecordFile): State {
      if pending.Some? then this.(pending := Some(pending.value.(record := record))) else this
    }

    function WithStaging(staging: Option<Image>): State {
      if pending.Some? then this.(pending := Some(pending.value.(staging := staging))) else this
    }

    function Record(): RecordFile {
      if pending.Some? then pending.value.record else NoFile
    }

    function Image(): Option<Image> {
      if parent.Some? then parent.value.image else None
    }

    function Marker(): Complete {
      if parent.Some? then parent.value.complete else NoMarker
    }

    /** `os.Remove` of the pending directory, if it is empty. */
    function LeavePen(): State {
      if pending == Some(Pen(NoFile, None)) then this.(pending := None) else this
    }
  }

  function Sealed(image: Option<Image>, sealed: bool): Option<Image> {
    if image.Some? then Some(image.value.(sealed := sealed)) else None
  }

  /** One call of one client: its success, or its failure with or without an effect. */
  ghost predicate ClientStep(s: State, s': State, c: Client) {
    match s.PointOf(c)
    case Idle => exists t, m :: Starts(s, s', c, t, m)
    case BeginResolve(t) => s' == s.Go(c, Idle) || s' == s.Go(c, BeginMake(t))
    case BeginMake(t) =>
      || s' == s.Go(c, Idle)
      || (s.pending.None? && s' == s.(pending := Some(Pen(NoFile, None))).Go(c, BeginCreate(t)))
    case BeginCreate(t) =>
      || s' == s.Go(c, BeginLeave(t))
      || (s.pending.Some? && s.Record() == NoFile && s' == s.WithRecord(Unfinished(t)).Go(c, BeginFill(t)))
    case BeginFill(t) =>
      || s' == s.Go(c, BeginDrop(t))
      || s' == (if s.Record() == Unfinished(t) then s.WithRecord(Of(t)) else s).Go(c, BeginCheck(t))
    case BeginCheck(t) => s' == s.Go(c, BeginDrop(t)) || (s.Record() == Of(t) && s' == s.Go(c, Began(t)))
    case Began(t) => s' == s.Go(c, Idle)
    case BeginDrop(t) => s' == s.Go(c, BeginLeave(t)) || s' == s.WithRecord(NoFile).Go(c, BeginLeave(t))
    case BeginLeave(t) => s' == s.Go(c, Idle) || s' == s.LeavePen().Go(c, Idle)
    case CommitRead(t, m) => s' == s.Go(c, Idle) || (s.Record() == Of(t) && s' == s.Go(c, CommitMake(m)))
    case CommitMake(m) =>
      || s' == s.Go(c, Idle)
      || (s.parent.None? && s' == s.(parent := Some(EMPTY_DIR)).Go(c, CommitMove(m)))
    case CommitMove(m) =>
      || s' == s.Go(c, Idle)
      || (s.Image().None? && s.pending.Some? && s.pending.value.staging.Some?
          && s' == s.WithImage(s.pending.value.staging).WithStaging(None).Go(c, CommitSeal(m)))
    case CommitSeal(m) => s' == s.Go(c, BackUnseal) || s' == s.WithImage(Sealed(s.Image(), true)).Go(c, CommitDescribe(m))
    case CommitDescribe(m) =>
      s' == s.Go(c, BackUnseal) || s' == s.WithMetadata(Some(m)).Go(c, BackUnseal) || s' == s.WithMetadata(Some(m)).Go(c, CommitMark(m))
    case CommitMark(m) =>
      s' == s.Go(c, BackUnseal) || (s.Marker() == NoMarker && s' == s.WithMarker(Torn).Go(c, CommitFill(m)))
    case CommitFill(m) => s' == s.Go(c, CommitUnmark) || s' == s.WithMarker(Whole).(writer := Some(c)).Go(c, CommitCheck(m))
    case CommitCheck(m) => s' == s.Go(c, CommitUnmark) || (s.Marker() == Whole && s' == s.Go(c, TidyRecord))
    case CommitUnmark => s' == s.Go(c, BackUnseal) || s' == s.WithMarker(NoMarker).Go(c, BackUnseal)
    case BackUnseal => s' == s.Go(c, BackUnmark) || s' == s.WithImage(Sealed(s.Image(), false)).Go(c, BackUnmark)
    case BackUnmark => s' == s.Go(c, BackUndescribe) || s' == s.WithMarker(NoMarker).Go(c, BackUndescribe)
    case BackUndescribe => s' == s.Go(c, BackMove) || s' == s.WithMetadata(None).Go(c, BackMove)
    case BackMove =>
      || s' == s.Go(c, BackRemove)
      || (s.pending.Some? && s.Image().Some? && s' == s.WithStaging(s.Image()).WithImage(None).Go(c, BackRemove))
    case BackRemove =>
      s' == s.Go(c, Idle) || (s.parent == Some(EMPTY_DIR) && s' == s.(parent := None).Go(c, Idle))
    case TidyRecord => s' == s.Go(c, TidyLeave) || s' == s.WithRecord(NoFile).Go(c, TidyLeave)
    case TidyLeave => s' == s.Go(c, Idle) || s' == s.LeavePen().Go(c, Idle)
    case AbortRead(t) => s' == s.Go(c, Idle) || (s.Record() == Of(t) && s' == s.Go(c, AbortList))
    case AbortList =>
      s' == s.Go(c, Idle) || (s.pending.Some? && s.pending.value.staging.None? && s' == s.Go(c, AbortDrop))
    case AbortDrop => s' == s.Go(c, Idle) || s' == s.WithRecord(NoFile).Go(c, AbortLeave)
    case AbortLeave => s' == s.Go(c, Idle) || s' == s.LeavePen().Go(c, Idle)
  }

  /** A client that is doing nothing may start anything. */
  ghost predicate Starts(s: State, s': State, c: Client, t: Id, m: Metadata) {
    s' == s.Go(c, BeginResolve(t)) || s' == s.Go(c, CommitRead(t, m)) || s' == s.Go(c, AbortRead(t))
  }

  /** The builder writes, or the native session removes, the staging image. */
  ghost predicate BuilderStep(s: State, s': State) {
    exists staging :: s' == s.WithStaging(staging)
  }

  /** All clients' work is cut off. */
  predicate CrashStep(s: State, s': State) {
    s' == s.(at := map[])
  }

  ghost predicate Step(s: State, s': State) {
    (exists c :: ClientStep(s, s', c)) || BuilderStep(s, s') || CrashStep(s, s')
  }

  /** A run from a key that nobody has used. */
  ghost predicate Run(run: seq<State>) {
    run != [] && run[0] == NOTHING && Goes(run)
  }

  const NOTHING: State := State(None, None, map[], None)

  ghost predicate Goes(states: seq<State>) {
    states != [] && forall i | 0 <= i < |states| - 1 :: Step(states[i], states[i + 1])
  }

  // ----- What every run keeps ---------------------------------------------------------------

  /** At most one client is at work in the parent directory, which then exists. */
  ghost predicate Exclusive(s: State) {
    && (forall c, d :: s.PointOf(c).Inside() && s.PointOf(d).Inside() ==> c == d)
    && (forall c :: s.PointOf(c).Inside() ==> s.parent.Some?)
  }

  /** COMPLETE is there and its writer has come through. */
  ghost predicate Settled(s: State) {
    s.Marker() == Whole && forall c :: !s.PointOf(c).Inside()
  }

  lemma PointsAfter(s: State, s': State, c: Client)
    requires ClientStep(s, s', c)
    ensures forall d | d != c :: s'.PointOf(d) == s.PointOf(d)
    ensures (s.PointOf(c).Inside() ==> s.parent.Some?) ==> s'.PointOf(c).Inside() ==> s'.parent.Some?
    ensures s'.PointOf(c).Inside() && !s.PointOf(c).Inside() ==> s.parent.None?
    ensures s.parent.Some? && s'.parent.None? ==> s.PointOf(c).Inside() && !s'.PointOf(c).Inside()
  {
  }

  lemma ExclusiveStep(s: State, s': State)
    requires Exclusive(s) && Step(s, s')
    ensures Exclusive(s')
  {
    hide ClientStep;
    if c :| ClientStep(s, s', c) {
      PointsAfter(s, s', c);
      forall d | s'.PointOf(d).Inside() ensures s'.parent.Some? {
        assert d != c ==> s.PointOf(d).Inside();
      }
      forall d, e | s'.PointOf(d).Inside() && s'.PointOf(e).Inside() ensures d == e {
        assert d != c ==> s.PointOf(d).Inside();
        assert e != c ==> s.PointOf(e).Inside();
      }
    } else {
      Unworked(s, s');
    }
  }

  /** A step of the builder or a crash leaves the parent, and at most stops clients. */
  lemma Unworked(s: State, s': State)
    requires BuilderStep(s, s') || CrashStep(s, s')
    ensures s'.parent == s.parent
    ensures forall d :: s'.PointOf(d).Inside() ==> s'.PointOf(d) == s.PointOf(d)
  {
  }

  lemma {:induction false} ExclusiveAlways(run: seq<State>, i: nat)
    requires Run(run) && i < |run|
    ensures Exclusive(run[i])
  {
    hide Step;
    if i > 0 {
      ExclusiveAlways(run, i - 1);
      ExclusiveStep(run[i - 1], run[i]);
    }
  }

  /** Only a client at work in the directory changes anything in it. */
  lemma OnlyInsideAlters(s: State, s': State, c: Client)
    requires ClientStep(s, s', c) && s.parent.Some? && s'.parent != s.parent
    ensures s.PointOf(c).Inside()
  {
  }

  lemma SettledStep(s: State, s': State)
    requires Exclusive(s) && Settled(s) && Step(s, s')
    ensures Settled(s') && s'.parent == s.parent
  {
    hide ClientStep;
    if c :| ClientStep(s, s', c) {
      PointsAfter(s, s', c);
      assert !s.PointOf(c).Inside();
      if s'.parent != s.parent { OnlyInsideAlters(s, s', c); }
      forall d ensures !s'.PointOf(d).Inside() {
        assert d != c ==> !s.PointOf(d).Inside();
      }
    } else {
      Unworked(s, s');
    }
  }

  /**
   Once COMPLETE is there and its writer has come through, no step of begin, commit or abort of any
   number of clients ever changes a byte of that parent.
   */
  lemma {:induction false} SettledForever(run: seq<State>, i: nat, j: nat)
    requires Run(run) && i <= j < |run| && Settled(run[i])
    ensures Settled(run[j]) && run[j].parent == run[i].parent
    decreases j
  {
    hide Step, Settled, Exclusive;
    if i < j {
      SettledForever(run, i, j - 1);
      ExclusiveAlways(run, j - 1);
      SettledStep(run[j - 1], run[j]);
    }
  }

  // ----- Before the writer has come through ---------------------------------------------------

  /** What is in the parent directory at each point of the work in it. */
  ghost predicate Whereabouts(s: State) {
    forall c :: InPlace(s, c)
  }

  predicate InPlace(s: State, c: Client) {
    var p := s.PointOf(c);
    && (p.CommitMove? || p.CommitSeal? || p.CommitDescribe? || p.CommitMark? ==> s.Marker() == NoMarker)
    && (p.CommitFill? ==> s.Marker() == Torn)
    && (p.Inside() && !p.CommitMove? && !p.BackRemove? ==> s.Image().Some?)
    && (p.Inside() && s.Marker() == Whole ==> s.writer == Some(c))
  }

  lemma PlaceAfter(s: State, s': State, c: Client)
    requires ClientStep(s, s', c) && InPlace(s, c) && (s.PointOf(c).Inside() ==> s.parent.Some?)
    ensures InPlace(s', c)
  {
  }

  lemma WhereaboutsStep(s: State, s': State)
    requires Exclusive(s) && Whereabouts(s) && Step(s, s')
    ensures Whereabouts(s')
  {
    hide ClientStep;
    if c :| ClientStep(s, s', c) {
      PointsAfter(s, s', c);
      PlaceAfter(s, s', c);
      forall d | d != c ensures InPlace(s', d) {
        assert InPlace(s, d);
        if s.PointOf(d).Inside() {
          OutsideLeaves(s, s', c);
        }
      }
    } else {
      Unworked(s, s');
      forall d ensures InPlace(s', d) {
        assert InPlace(s, d);
      }
    }
  }

  /** A client that is not at work in an existing parent directory leaves it and the writer's name alone. */
  lemma OutsideLeaves(s: State, s': State, c: Client)
    requires ClientStep(s, s', c) && s.parent.Some? && !s.PointOf(c).Inside()
    ensures s'.parent == s.parent && s'.writer == s.writer
  {
  }

  lemma {:induction false} WhereaboutsAlways(run: seq<State>, i: nat)
    requires Run(run) && i < |run|
    ensures Whereabouts(run[i])
  {
    hide Step, Exclusive;
    if i > 0 {
      ExclusiveAlways(run, i - 1);
      WhereaboutsAlways(run, i - 1);
      WhereaboutsStep(run[i - 1], run[i]);
    }
  }

  /** Whoever changes a parent with a whole COMPLETE is the client that wrote it, and works there alone. */
  lemma OnlyItsWriterAlters(run: seq<State>, i: nat, c: Client)
    requires Run(run) && i + 1 < |run| && ClientStep(run[i], run[i + 1], c)
    requires run[i].Marker() == Whole && run[i + 1].parent != run[i].parent
    ensures run[i].writer == Some(c) && run[i].PointOf(c).CanRollBack()
    ensures forall d | d != c :: !run[i].PointOf(d).Inside()
  {
    ExclusiveAlways(run, i);
    WhereaboutsAlways(run, i);
    OnlyInsideAlters(run[i], run[i + 1], c);
    assert InPlace(run[i], c);
    assert run[i].PointOf(c).Inside();
  }

  /** COMPLETE is whole and nobody is where it could be taken back. */
  ghost predicate Final(s: State) {
    s.Marker() == Whole && forall c :: !s.PointOf(c).CanRollBack()
  }

  lemma FinalStep(s: State, s': State)
    requires Exclusive(s) && Whereabouts(s) && Final(s) && Step(s, s')
    ensures Final(s') && s'.parent == s.parent
  {
    hide ClientStep;
    if c :| ClientStep(s, s', c) {
      PointsAfter(s, s', c);
      assert InPlace(s, c);
      if s.PointOf(c).Inside() {
        LingererLeaves(s, s', c);
      } else {
        OutsideLeaves(s, s', c);
      }
      forall d ensures !s'.PointOf(d).CanRollBack() {
        assert d != c ==> !s.PointOf(d).CanRollBack();
      }
    } else {
      Unworked(s, s');
    }
  }

  /** With COMPLETE whole, the last step of a rollback finds the directory in use and leaves it. */
  lemma LingererLeaves(s: State, s': State, c: Client)
    requires ClientStep(s, s', c) && s.Marker() == Whole && s.PointOf(c).Inside() && !s.PointOf(c).CanRollBack() && InPlace(s, c)
    ensures s'.parent == s.parent && s'.PointOf(c) == Idle
  {
  }

  lemma {:induction false} FinalForever(more: seq<State>, j: nat)
    requires Goes(more) && j < |more| && Exclusive(more[0]) && Whereabouts(more[0]) && Final(more[0])
    ensures Exclusive(more[j]) && Whereabouts(more[j]) && Final(more[j]) && more[j].parent == more[0].parent
  {
    hide Step, Exclusive, Whereabouts, Final;
    if j > 0 {
      FinalForever(more, j - 1);
      assert Step(more[j - 1], more[j]);
      ExclusiveStep(more[j - 1], more[j]);
      WhereaboutsStep(more[j - 1], more[j]);
      FinalStep(more[j - 1], more[j]);
    }
  }

  /** Some continuation changes the parent. */
  ghost predicate Alterable(s: State) {
    exists more :: Alters(s, more)
  }

  ghost predicate Alters(s: State, more: seq<State>) {
    Goes(more) && more[0] == s && more[|more| - 1].parent != s.parent
  }

  /**
   A parent with a whole COMPLETE can still change if and only if some client is between writing COMPLETE
   and its successful read-back, or in the rollback that a failing read-back starts.
   */
  lemma AlterableExactly(run: seq<State>, i: nat, t: Id)
    requires Run(run) && i < |run| && run[i].Marker() == Whole
    ensures Alterable(run[i]) <==> exists c :: run[i].PointOf(c).CanRollBack()
  {
    var s := run[i];
    ExclusiveAlways(run, i);
    WhereaboutsAlways(run, i);
    if c :| s.PointOf(c).CanRollBack() {
      assert InPlace(s, c);
      var more := RollsBack(s, c, t);
      assert Alters(s, more);
    } else {
      forall more: seq<State> | Goes(more) && more[0] == s ensures more[|more| - 1].parent == s.parent {
        FinalForever(more, |more| - 1);
      }
    }
  }

  lemma Along(s: State, s': State, c: Client)
    requires ClientStep(s, s', c)
    ensures Step(s, s')
  {
  }

  lemma RollsBack(s: State, c: Client, t: Id) returns (more: seq<State>)
    requires s.Marker() == Whole && s.PointOf(c).CanRollBack() && s.Image().Some?
    ensures Alters(s, more)
  {
    var unmarked := s.WithMarker(NoMarker);
    match s.PointOf(c)
    case CommitCheck(m) =>
      var s1 := s.Go(c, CommitUnmark);
      more := [s, s1, s1.WithMarker(NoMarker).Go(c, BackUnseal)];
      Along(s, s1, c);
      Along(s1, more[2], c);
    case CommitUnmark =>
      more := [s, unmarked.Go(c, BackUnseal)];
      Along(s, more[1], c);
    case BackUnseal =>
      var s1 := s.Go(c, BackUnmark);
      more := [s, s1, s1.WithMarker(NoMarker).Go(c, BackUndescribe)];
      Along(s, s1, c);
      Along(s1, more[2], c);
    case BackUnmark =>
      more := [s, unmarked.Go(c, BackUndescribe)];
      Along(s, more[1], c);
    case BackUndescribe =>
      var s1 := s.Go(c, BackMove);
      Along(s, s1, c);
      var rest := MovesBack(s1, c, t);
      more := [s] + rest;
    case BackMove =>
      more := MovesBack(s, c, t);
  }

  /** The image goes back to the pending directory; if that has gone, once somebody begins anew. */
  lemma MovesBack(s: State, c: Client, t: Id) returns (more: seq<State>)
    requires s.PointOf(c) == BackMove && s.Image().Some?
    ensures Alters(s, more)
  {
    if s.pending.Some? {
      more := [s, s.WithStaging(s.Image()).WithImage(None).Go(c, BackRemove)];
      Along(s, more[1], c);
    } else {
      var d := FreshClient(s.at.Keys);
      var s1 := s.Go(d, BeginResolve(t));
      var s2 := s1.Go(d, BeginMake(t));
      var s3 := s2.(pending := Some(Pen(NoFile, None))).Go(d, BeginCreate(t));
      var s4 := s3.WithStaging(s3.Image()).WithImage(None).Go(c, BackRemove);
      StartsAnything(s, d, t);
      Along(s1, s2, d);
      Along(s2, s3, d);
      Along(s3, s4, c);
      more := [s, s1, s2, s3, s4];
    }
  }

  lemma StartsAnything(s: State, d: Client, t: Id)
    requires s.PointOf(d) == Idle
    ensures Step(s, s.Go(d, BeginResolve(t)))
  {
    var m := Metadata(PARENT_SCHEMA, t, t, t, 0, t, 0, true);
    assert Starts(s, s.Go(d, BeginResolve(t)), d, t, m);
    Along(s, s.Go(d, BeginResolve(t)), d);
  }

  lemma {:induction false} FreshClient(taken: set<Client>) returns (d: Client)
    ensures forall c | c in taken :: c < d
  {
    d := 0;
    if taken != {} {
      var c :| c in taken;
      d := FreshClient(taken - {c});
      assert taken == taken - {c} + {c};
      d := if d > c then d else c + 1;
    }
  }

  /** A run in which the writer fails to read a whole COMPLETE back and removes it again. */
  lemma WriterMayRollBack(t: Id, m: Metadata, image: Image) returns (run: seq<State>)
    ensures Run(run) && |run| > 2
    ensures run[|run| - 3].Marker() == Whole && run[|run| - 1].Marker() == NoMarker
  {
    run := Committing(t, m, image);
    var s := run[|run| - 1];
    var s1 := s.Go(0, CommitUnmark);
    run := Onward(run, s1, 0);
    run := Onward(run, s1.WithMarker(NoMarker).Go(0, BackUnseal), 0);
  }

  lemma Onward(run: seq<State>, s: State, c: Client) returns (more: seq<State>)
    requires Run(run) && ClientStep(run[|run| - 1], s, c)
    ensures Run(more) && more == run + [s]
  {
    hide ClientStep;
    more := run + [s];
    forall i | 0 <= i < |more| - 1 ensures Step(more[i], more[i + 1]) {
      if i == |run| - 1 {
        assert more[i] == run[|run| - 1] && more[i + 1] == s;
      } else {
        assert more[i] == run[i] && more[i + 1] == run[i + 1];
      }
    }
  }

  /** A run up to a whole COMPLETE that its writer has still to read back. */
  lemma Committing(t: Id, m: Metadata, image: Image) returns (run: seq<State>)
    ensures Run(run)
    ensures run[|run| - 1].Marker() == Whole && run[|run| - 1].PointOf(0) == CommitCheck(m)
  {
    run := Building(t, m, image);
    var s4 := run[|run| - 1];
    var s5 := s4.WithImage(Sealed(s4.Image(), true)).Go(0, CommitDescribe(m));
    var s6 := s5.WithMetadata(Some(m)).Go(0, CommitMark(m));
    var s7 := s6.WithMarker(Torn).Go(0, CommitFill(m));
    var s8 := s7.WithMarker(Whole).(writer := Some(0)).Go(0, CommitCheck(m));
    run := Onward(run, s5, 0);
    run := Onward(run, s6, 0);
    run := Onward(run, s7, 0);
    run := Onward(run, s8, 0);
  }

  /** A run up to the image's arrival in the parent directory. */
  lemma Building(t: Id, m: Metadata, image: Image) returns (run: seq<State>)
    ensures Run(run)
    ensures
      var s := run[|run| - 1];
      s.parent == Some(EMPTY_DIR.(image := Some(image))) && s.PointOf(0) == CommitSeal(m)
  {
    run := Beginning(t, image);
    var s0 := run[|run| - 1];
    var s1 := s0.Go(0, CommitRead(t, m));
    var s2 := s1.Go(0, CommitMake(m));
    var s3 := s2.(parent := Some(EMPTY_DIR)).Go(0, CommitMove(m));
    var s4 := s3.WithImage(Some(image)).WithStaging(None).Go(0, CommitSeal(m));
    assert Starts(s0, s1, 0, t, m);
    run := Onward(run, s1, 0);
    run := Onward(run, s2, 0);
    run := Onward(run, s3, 0);
    run := Onward(run, s4, 0);
  }

  /** One client begins and its image is staged. */
  lemma Beginning(t: Id, image: Image) returns (run: seq<State>)
    ensures Run(run)
    ensures
      var s := run[|run| - 1];
      s.parent.None? && s.pending == Some(Pen(Of(t), Some(image))) && s.PointOf(0) == Idle
  {
    run := Recording(t);
    var s4 := run[|run| - 1];
    var s5 := s4.WithRecord(Of(t)).Go(0, BeginCheck(t));
    var s6 := s5.Go(0, Began(t));
    var s7 := s6.Go(0, Idle);
    run := Onward(run, s5, 0);
    run := Onward(run, s6, 0);
    run := Onward(run, s7, 0);
    hide ClientStep;
    assert BuilderStep(s7, s7.WithStaging(Some(image)));
    var more := run + [s7.WithStaging(Some(image))];
    forall i | 0 <= i < |more| - 1 ensures Step(more[i], more[i + 1]) {
      if i < |run| - 1 { assert more[i] == run[i] && more[i + 1] == run[i + 1]; }
    }
    run := more;
  }

  /** The pending directory made and its record being written. */
  lemma Recording(t: Id) returns (run: seq<State>)
    ensures Run(run)
    ensures
      var s := run[|run| - 1];
      s.parent.None? && s.pending == Some(Pen(Unfinished(t), None)) && s.PointOf(0) == BeginFill(t)
  {
    run := [NOTHING];
    var s1 := NOTHING.Go(0, BeginResolve(t));
    var s2 := s1.Go(0, BeginMake(t));
    var s3 := s2.(pending := Some(Pen(NoFile, None))).Go(0, BeginCreate(t));
    var s4 := s3.WithRecord(Unfinished(t)).Go(0, BeginFill(t));
    assert Starts(NOTHING, s1, 0, t, Metadata(PARENT_SCHEMA, t, t, t, 0, t, 0, true));
    run := Onward(run, s1, 0);
    run := Onward(run, s2, 0);
    run := Onward(run, s3, 0);
    run := Onward(run, s4, 0);
  }

  // ----- One pending transaction ------------------------------------------------------------

  /** A record on disk gives way only to no record at all, and begin answers only while its record is there. */
  lemma RecordStep(s: State, s': State, t: Id)
    requires Step(s, s') && s.Record() == Of(t)
    ensures s'.Record() == Of(t) || s'.Record() == NoFile
    ensures forall c, u | s'.PointOf(c) == Began(u) && s.PointOf(c) != Began(u) :: u == t && s'.Record() == Of(t)
  {
    if c :| ClientStep(s, s', c) {
      PointsAfter(s, s', c);
    }
  }

  ghost predicate Begins(s: State, s': State, t: Id) {
    exists c :: ClientStep(s, s', c) && s.PointOf(c) == BeginCheck(t) && s'.PointOf(c) == Began(t)
  }

  lemma {:induction false} RecordStays(run: seq<State>, i: nat, j: nat, t: Id)
    requires Run(run) && i <= j < |run| && run[i].Record() == Of(t)
    requires forall k | i <= k <= j :: run[k].Record() != NoFile
    ensures run[j].Record() == Of(t)
    decreases j
  {
    hide Step;
    if i < j {
      RecordStays(run, i, j - 1, t);
      RecordStep(run[j - 1], run[j], t);
    }
  }

  lemma BeginsWithRecord(s: State, s': State, t: Id)
    requires Begins(s, s', t)
    ensures s.Record() == Of(t) && s'.Record() == Of(t)
  {
  }

  /**
   A key has at most one pending transaction: two transactions are begun only if in between there was a
   moment without any.
   */
  lemma OneAtATime(run: seq<State>, i: nat, j: nat, t: Id, u: Id)
    requires Run(run) && i < j && j + 1 < |run| && Begins(run[i], run[i + 1], t) && Begins(run[j], run[j + 1], u) && t != u
    ensures exists k :: i < k < j && run[k].Record() == NoFile
  {
    hide Step, Begins;
    BeginsWithRecord(run[i], run[i + 1], t);
    BeginsWithRecord(run[j], run[j + 1], u);
    if forall k | i < k < j :: run[k].Record() != NoFile {
      RecordStays(run, i + 1, j, t);
    }
  }
}
