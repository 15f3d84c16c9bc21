/**
 The Unix daemon as a whole: one request at a time, a cache of answered requests, and restarts that
 lose the memory and keep the disk.
 */
module Daemon {
  import opened Wrappers
  import opened Environments
  import opened Names
  import opened DaemonParents
  import opened LeaseDisks
  import opened LeaseRecovery
  import opened DaemonLeases
  import TreeDigest
  import RequestCache

  datatype Operation =
    | ParentBegin(key: Key)
    | ParentCommit(transactionId: Id)
    | ParentAbort(abortedId: Id)
    | AcquireLease(request: AcquireRequest)
    | ReleaseLease(leaseId: Id)
    | Status
    | Unknown

  datatype Message = Message(schemaVersion: int, requestId: Option<Name>, operation: Operation)

  /** What the random source, the clone, the file system and the backend answer while a message is handled. */
  datatype Draws = Draws(txn: Id, identity: Identity, lease: Draw, deleteToken: Name, usage: Option<Usage>, cowAvailable: bool)

  datatype StatusReport = StatusReport(parents: nat, activeLeases: nat, quarantined: nat, manualRecovery: bool)

  datatype Reply = Refusal(code: string) | OfParent(parent: Response) | OfLease(lease: LeaseResponse) | OfStatus(status: StatusReport)

  /** An event in the life of a daemon. */
  datatype Event =
    | Called(message: Message, draws: Draws)
    | Staged(txn: Id, tree: Tree)
    | WorkspaceMade(workspaceId: Id)
    | WorkspaceRemoved(removedId: Id)
    | Restarted(host: Host, plan: seq<Outcome>, tokens: Id -> Name)

  /** No two calls draw the same id. */
  ghost predicate Apart(events: seq<Event>) {
    forall i, j | 0 <= i < j < |events| && events[i].Called? && events[j].Called? ::
      && events[i].draws.txn != events[j].draws.txn
      && events[i].draws.lease.leaseId != events[j].draws.lease.leaseId
  }

  /** What a request can change, besides the cache. */
  datatype State = State(
    parents: Disk, parentsFlag: bool, leases: LeaseDisk, held: map<Id, Lease>, leasesFlag: bool, plan: seq<Outcome>, drawn: nat, crashed: bool)

  /** How the daemon uses the request cache. */
  const CACHE: RequestCache.Service<Message, Reply> :=
    RequestCache.Service((m: Message) => m.requestId, (m: Message) => Refusal("duplicate-request-id"))

  type Dispatching = RequestCache.Dispatch<State, Message, Reply>

  type Session = RequestCache.Run<State, Message, Reply>

  function Messages(calls: seq<Event>): seq<Message>
    requires forall e | e in calls :: e.Called?
  {
    seq(|calls|, i requires 0 <= i < |calls| => assert calls[i] in calls; calls[i].message)
  }

  ghost function Recorded(log: seq<Dispatching>): set<Dispatching> {
    set d | d in log
  }

  function Asked(log: seq<Dispatching>): seq<Message> {
    seq(|log|, i requires 0 <= i < |log| => log[i].request)
  }

  predicate OnParents(o: Operation) {
    o.ParentBegin? || o.ParentCommit? || o.ParentAbort?
  }

  predicate OnLeases(o: Operation) {
    o.AcquireLease? || o.ReleaseLease?
  }

  /** What decides whether an id is taken. */
  datatype Drawings = Drawings(used: set<Id>, disk: LeaseDisk, leases: map<Id, Lease>) {
    ghost predicate Absent(id: Id) {
      Gone(disk, id) && id !in leases
    }
  }

  /** No id is taken that was free before, except those drawn. */
  ghost predicate OnlyDrawn(before: Drawings, after: Drawings, draws: Draws) {
    && after.used <= before.used + {draws.txn}
    && (forall id | id != draws.lease.leaseId && before.Absent(id) :: after.Absent(id))
  }

  class Manager {
    const parents: ParentStore
    const table: LeaseTable
    const env: Environment
    var requests: map<Name, (Message, Reply)>

    ghost predicate Valid()
      reads this, parents, table
    {
      && parents.env == env && table.env == env
      && parents.setting.identifier == table.host.identifier
      && parents.Valid() && table.Valid()
    }

    /** The ids drawn are well-formed and nothing on disk or in memory carries them yet. */
    ghost predicate Fresh(draws: Draws)
      reads this, parents, table
    {
      && parents.setting.identifier(draws.txn) && draws.txn !in parents.history.used
      && table.host.identifier(draws.lease.leaseId) && table.host.identifier(draws.lease.ownerToken)
      && table.host.identifier(draws.lease.childToken)
      && Drawn().Absent(draws.lease.leaseId)
    }

    ghost function Drawn(): Drawings
      reads this, parents, table
    {
      Drawings(parents.history.used, table.disk, table.leases)
    }

    constructor (setting: Setting, config: Config, host: Host, plan: seq<Outcome>)
      requires setting.Faithful() && setting.identifier == host.identifier
      ensures Valid() && requests == map[] && parents.setting == setting && fresh(parents) && fresh(table) && fresh(env)
      ensures parents.history == History(map[], map[], map[], {}) && table.disk == LeaseDisk(map[], map[], map[]) && table.leases == map[]
    {
      var e := new Environment(plan);
      var p := new ParentStore(setting, e);
      var t := new LeaseTable(config, e, host);
      env, parents, table := e, p, t;
      requests := map[];
    }

    /** What `status` counts. */
    method Report() returns (report: StatusReport)
      ensures report.parents == |parents.disk.parents| && report.activeLeases == |table.disk.journals|
      ensures report.quarantined == |parents.disk.quarantine| + |set c | c in table.disk.children && c.DeletedChild?|
      ensures report.manualRecovery <==> parents.manualRecovery || table.manualRecovery
    {
      var deleted := set c | c in table.disk.children && c.DeletedChild?;
      report := StatusReport(|parents.disk.parents|, |table.disk.journals|, |parents.disk.quarantine| + |deleted|,
                             parents.manualRecovery || table.manualRecovery);
    }

    /** The envelope is one that `handle` looks into. */
    predicate WellFormed(message: Message)
      reads table
    {
      message.schemaVersion == 2 && message.requestId.Some? && table.host.identifier(message.requestId.value)
    }

    /** What handling a message does and answers. */
    twostate predicate Dispatched(message: Message, draws: Draws, reply: Reply)
      reads this, parents, table, env
    {
      && (message.schemaVersion != 2 ==> reply == Refusal("unsupported-schema"))
      && (message.schemaVersion == 2 && !old(WellFormed(message)) ==> reply == Refusal("invalid-request"))
      // which requests touch what
      && (!old(WellFormed(message)) || !OnParents(message.operation) ==>
            parents.disk == old(parents.disk) && parents.history == old(parents.history))
      && (!old(WellFormed(message)) || !OnLeases(message.operation) ==>
            table.disk == old(table.disk) && table.leases == old(table.leases))
      && (old(WellFormed(message)) ==>
            match message.operation
            case ParentBegin(key) => reply.OfParent? && BeginAnswered(key, draws.txn, reply.parent)
            case ParentCommit(txn) => reply.OfParent? && CommitAnswered(txn, reply.parent)
            case ParentAbort(txn) => reply.OfParent? && AbortAnswered(txn, reply.parent)
            case AcquireLease(request) =>
              if draws.cowAvailable then reply.OfLease? && AcquireAnswered(request, draws, reply.lease) else reply == Refusal("cow-unavailable")
            case ReleaseLease(id) => reply.OfLease? && ReleaseAnswered(id, draws.deleteToken, reply.lease)
            case Status =>
              && reply.OfStatus?
              && reply.status.parents == |parents.disk.parents| && reply.status.activeLeases == |table.disk.journals|
              && reply.status.quarantined == |parents.disk.quarantine| + |set c | c in table.disk.children && c.DeletedChild?|
              && (reply.status.manualRecovery <==> parents.manualRecovery || table.manualRecovery)
            case Unknown => reply == Refusal("unknown-operation"))
    }

    /** A verified parent is served, else a transaction is opened that the client may commit. */
    twostate predicate BeginAnswered(key: Key, txn: Id, r: Response)
      reads parents, env
    {
      var id := parents.setting.parentId(key);
      && (!parents.setting.compatibility(key) ==> r == Rejected("invalid-compatibility-key") && parents.disk == old(parents.disk))
      && (r.Found? ==> old(Servable(parents.setting, parents.disk, id)) && parents.disk == old(parents.disk)
                       && old(parents.disk).parents[id].metadata == Some(r.parent))
      && (r.Opened? ==> r.transactionId == txn && txn in parents.history.begun && parents.history.begun[txn] == key)
      && (old(env.Calm()) && parents.setting.compatibility(key) ==> r.Found? || r.Opened?)
    }

    twostate predicate CommitAnswered(txn: Id, r: Response)
      reads parents, env
    {
      && (r.Found? && !env.crashed ==> parents.Settled(txn, r.parent))
      && parents.history.begun == old(parents.history).begun && parents.history.staged == old(parents.history).staged
      && (old(env.Calm() && parents.CanCommit(txn)) ==> r.Found? && parents.Answers(old(parents.disk), txn, r.parent))
    }

    twostate predicate AbortAnswered(txn: Id, r: Response)
      reads parents, env
    {
      && (r.Aborted? ==> txn in old(parents.disk).pending && txn !in parents.disk.pending)
      && (old(env.Calm()) ==>
            var dirs := old(parents.disk).pending;
            if parents.setting.identifier(txn) && txn in dirs && dirs[txn].record.Some? && dirs[txn].record.value.transactionId == txn
            then r.Aborted? else r.Rejected? && parents.disk == old(parents.disk))
      && txn !in parents.history.begun
    }

    twostate predicate AcquireAnswered(request: AcquireRequest, draws: Draws, r: LeaseResponse)
      reads parents, table, env
    {
      && !r.Released?
      && (r.Granted? ==> Live(table.disk, r.lease) && r.lease.leaseId == draws.lease.leaseId && r.lease.leaseId in table.leases
                         && r.lease.workspaceId == request.workspaceId && r.lease.parentId == request.parentId)
      && (r.Refused? && !env.crashed ==>
            (Accounted(old(table.disk), table.disk, draws.lease.leaseId, request.workspaceId, table.manualRecovery) <==>
             (old(table.manualRecovery)
              || !old(table.Admissible(request, parents, draws.usage) && table.Ownable(request.workspaceId) && table.MarkerStays()))))
      && (old(env.Calm() && table.Admissible(request, parents, draws.usage) && table.disk.workspaces[request.workspaceId].owner == NoOwner) ==> r.Granted?)
    }

    twostate predicate ReleaseAnswered(id: Id, token: Name, r: LeaseResponse)
      reads table, env
    {
      && !r.Granted?
      && (r.Released? ==> r.lease.leaseId == id && GoneFrom(table.disk, r.lease) && id !in table.leases)
      && (id !in old(table.disk).journals ==> r.Refused? && table.disk == old(table.disk))
      && (old(env.Calm() && DeletedChild(token) !in table.disk.children && id in table.disk.journals && table.Complete(id)) ==> r.Released?)
    }

    /** `handle`: the request reaches its operation. */
    method Dispatch(message: Message, draws: Draws) returns (reply: Reply)
      requires Valid() && Fresh(draws)
      modifies parents, table, env
      ensures Valid() && Preserved(old(parents.disk).parents, parents.disk.parents)
      ensures OnlyDrawn(old(Drawn()), Drawn(), draws)
      ensures Dispatched(message, draws, reply)
    {
      hide Inv, LeaseInv, Confined, Gone;
      if message.schemaVersion != 2 {
        return Refusal("unsupported-schema");
      }
      if message.requestId.None? || !table.host.identifier(message.requestId.value) {
        return Refusal("invalid-request");
      }
      match message.operation
      case ParentBegin(key) =>
        var r := parents.Begin(key, draws.txn, draws.identity);
        reply := OfParent(r);
      case ParentCommit(txn) =>
        var r := parents.Commit(txn);
        reply := OfParent(r);
      case ParentAbort(txn) =>
        var r := parents.Abort(txn);
        reply := OfParent(r);
      case AcquireLease(request) =>
        if !draws.cowAvailable {
          return Refusal("cow-unavailable");
        }
        reply := AcquireOne(request, draws);
      case ReleaseLease(id) =>
        reply := ReleaseOne(id, draws.deleteToken);
      case Status =>
        var report := Report();
        reply := OfStatus(report);
      case Unknown =>
        reply := Refusal("unknown-operation");
    }

    method AcquireOne(request: AcquireRequest, draws: Draws) returns (reply: Reply)
      requires Valid() && Fresh(draws)
      modifies table, parents`disk, env
      ensures Valid() && parents.disk == old(parents.disk)
      ensures OnlyDrawn(old(Drawn()), Drawn(), draws)
      ensures reply.OfLease? && AcquireAnswered(request, draws, reply.lease)
      ensures parents.history == old(parents.history)
    {
      hide Inv, LeaseInv, Confined, Gone;
      var r := table.Acquire(request, draws.lease, parents, draws.usage);
      forall id | id != draws.lease.leaseId && Gone(old(table.disk), id) ensures Gone(table.disk, id) {
        ConfinedKeepsGone(old(table.disk), table.disk, draws.lease.leaseId, request.workspaceId, id);
      }
      reply := OfLease(r);
    }

    method ReleaseOne(id: Id, token: Name) returns (reply: Reply)
      requires Valid()
      modifies table, env
      ensures Valid() && parents.disk == old(parents.disk)
      ensures NothingAppears(old(table.disk), table.disk) && table.leases.Keys <= old(table.leases).Keys
      ensures reply.OfLease? && ReleaseAnswered(id, token, reply.lease)
    {
      hide Inv, LeaseInv, Confined, Gone;
      var r := table.Release(id, token);
      if id in old(table.disk).journals {
        assert old(table.disk).journals[id].Some? by { JournalsReadable(table.host.identifier, old(table.disk), old(table.leases), id); }
        ConfinedToOne(old(table.disk), table.disk, id, old(table.disk).journals[id].value.workspaceId);
      }
      reply := OfLease(r);
    }

    // ----- Requests, once each --------------------------------------------------------------

    predicate Known(message: Message)
      reads this
    {
      message.requestId.Some? && message.requestId.value in requests
    }

    /** The daemon seen by the request cache. */
    ghost function Served(): RequestCache.Server<State, Message, Reply>
      reads this, parents, table, env
    {
      RequestCache.Server(
        State(parents.disk, parents.manualRecovery, table.disk, table.leases, table.manualRecovery, env.plan, env.drawn, env.crashed),
        requests)
    }

    /**
     `Handle`: a message whose id is known leaves everything as it is; any other is one step of the
     request cache around what `Dispatch` makes of it.
     */
    method Handle(message: Message, draws: Draws) returns (reply: Reply)
      requires Valid() && Fresh(draws)
      modifies `requests, parents, table, env
      ensures Valid() && Preserved(old(parents.disk).parents, parents.disk.parents)
      ensures OnlyDrawn(old(Drawn()), Drawn(), draws)
      ensures old(Known(message)) ==> unchanged(this, parents, table, env)
      ensures !old(Known(message)) ==> Dispatched(message, draws, reply)
      // the request id decides, and every reply is kept under it
      ensures match message.requestId
              case None => requests == old(requests) && Dispatched(message, draws, reply)
              case Some(id) =>
                if id in old(requests) then
                  && unchanged(this, parents, table, env)
                  && reply == if old(requests)[id].0 == message then old(requests)[id].1 else Refusal("duplicate-request-id")
                else
                  requests == old(requests)[id := (message, reply)] && Dispatched(message, draws, reply)
      ensures RequestCache.Handles(CACHE, {RequestCache.Dispatch(old(Served()).state, message, Served().state, reply)},
                                   old(Served()), message, Served(), reply)
    {
      hide Inv, LeaseInv, Gone;
      if Known(message) {
        var prior := requests[message.requestId.value];
        return if prior.0 != message then Refusal("duplicate-request-id") else prior.1;
      }
      reply := Dispatch(message, draws);
      if message.requestId.Some? {
        requests := requests[message.requestId.value := (message, reply)];
      }
    }

    /**
     The requests of one process, up to its death.  The handler is called once for each first use of a
     request id, in order, and the same calls without any of the repeats lead to the same end.
     */
    method HandleAll(calls: seq<Event>) returns (replies: seq<Reply>, ghost run: Session, ghost log: seq<Dispatching>, ghost fewer: Session)
      requires Valid() && (forall e | e in calls :: e.Called?) && AllFresh(calls, 0) && Apart(calls)
      modifies `requests, parents, table, env
      ensures Valid() && Preserved(old(parents.disk).parents, parents.disk.parents)
      ensures run.Valid(CACHE, Recorded(log)) && run.requests <= Messages(calls) && (run.requests == Messages(calls) || env.crashed)
      ensures run.replies == replies && run.First() == old(Served()) && run.Last() == Served()
      ensures Asked(log) == RequestCache.FirstUses(CACHE, run.requests, old(requests).Keys)
      ensures fewer.Valid(CACHE, Recorded(log)) && fewer.requests == Asked(log)
      ensures fewer.First() == old(Served()) && fewer.Last() == Served()
      // no request id is asked for twice, nor one that was known before
      ensures forall i, k | 0 <= i < k < |log| && log[i].request.requestId.Some? :: log[i].request.requestId != log[k].request.requestId
      ensures forall i | 0 <= i < |log| && log[i].request.requestId.Some? :: log[i].request.requestId.value !in old(requests)
      // whatever comes again is answered as the first time, or refused
      ensures forall i, k | 0 <= i < k < |replies| && FirstUse(old(requests), calls, i) && calls[k].message.requestId == calls[i].message.requestId ::
                replies[k] == if calls[k].message == calls[i].message then replies[i] else Refusal("duplicate-request-id")
      ensures forall k | 0 <= k < |replies| && calls[k].message.requestId.Some? && calls[k].message.requestId.value in old(requests) ::
                var known := old(requests)[calls[k].message.requestId.value];
                replies[k] == if known.0 == calls[k].message then known.1 else Refusal("duplicate-request-id")
    {
      hide Inv, LeaseInv, Gone, RequestCache.Handles, RequestCache.FirstUses, RequestCache.Run.Valid;
      replies, run, log := [], RequestCache.Run([Served()], [], []), [];
      NothingHandled(Served());
      var i := 0;
      while i < |calls| && !env.crashed
        invariant 0 <= i <= |calls| && Valid() && AllFresh(calls, i)
        invariant Preserved(old(parents.disk).parents, parents.disk.parents)
        invariant run.Valid(CACHE, Recorded(log)) && run.requests == Messages(calls)[..i] && run.replies == replies
        invariant run.servers != [] && run.First() == old(Served()) && run.Last() == Served()
        invariant Asked(log) == RequestCache.FirstUses(CACHE, run.requests, old(requests).Keys)
        decreases |calls| - i
      {
        assert calls[i] in calls;
        var message, draws := calls[i].message, calls[i].draws;
        ghost var before, known := Served(), Known(message);
        var reply := Handle(message, draws);
        run, log := NextHandled(run, log, before, message, Served(), reply, known);
        replies := replies + [reply];
        i := i + 1;
      }
      fewer := RequestCache.RetriesInvisible(CACHE, Recorded(log), run);
      AskedOnce(run, log);
      AnsweredAlike(calls, run, log, old(requests));
    }

    /** The process dies wherever it is; a new one starts on the same disk and recovers the leases. */
    method Restart(host: Host, plan: seq<Outcome>, tokens: Id -> Name) returns (ok: bool, ghost listing: seq<Id>)
      requires Valid() && host.identifier == table.host.identifier
      modifies `requests, parents, table, env
      ensures Valid() && parents.disk == old(parents.disk) && parents.history == old(parents.history)
      ensures requests == map[]
      ensures Distinct(listing) && forall id :: id in listing <==> id in old(table.disk).journals
      // undisturbed, it does to the leases what `RecoverAll` says
      ensures (forall i | 0 <= i < |plan| :: plan[i] == Done) && (forall id | id in listing ::
            DeletedChild(tokens(id)) !in old(table.disk).children) ==>
                && table.disk == RecoverAll(host, old(table.disk), listing)
                && (ok <==> forall i | 0 <= i < |listing| :: !VerdictAt(host, old(table.disk), listing, i).Blocked?)
                && (forall i | 0 <= i < |listing| ::
                      listing[i] in table.leases <==> VerdictAt(host, old(table.disk), listing, i).Registered?)
      ensures (forall i | 0 <= i < |plan| :: plan[i] == Done) && (forall id | id in listing ::
            DeletedChild(tokens(id)) !in old(table.disk).children) ==>
                forall i, j | 0 <= i < |listing| && FoundComplete(host, old(table.disk), listing[i], j) ::
                  Settled(host, table.disk, table.leases, listing[i], j)
      ensures table.host == host && Drawn().used == old(Drawn()).used
      ensures forall id | old(Drawn()).Absent(id) :: Drawn().Absent(id)
    {
      hide Inv, LeaseInv, RecoverAll, VerdictAt;
      parents.Restart(plan);
      table.Restart(plan, host);
      requests := map[];
      var entries := table.Listing();
      listing := entries;
      ok := table.Recover(entries, tokens);
    }

    /**
     A granted lease across a restart on the same boot: it is held again and complete on disk if its client
     still runs, and otherwise nothing of it is left.
     */
    method GrantThenRestart(request: AcquireRequest, draws: Draws, host: Host, tokens: Id -> Name) returns (r: LeaseResponse)
      requires Valid() && Fresh(draws) && host.identifier == table.host.identifier && host.boot == table.host.boot
      requires forall id :: DeletedChild(tokens(id)) !in table.disk.children
      modifies `requests, parents, table, env
      ensures Valid()
      ensures r.Granted? ==>
                var id, w := draws.lease.leaseId, request.workspaceId;
                if 0 < request.clientPid && host.running(request.clientPid) then
                  && id in table.leases && id in table.disk.journals
                  && LeaseChild(id) in table.disk.children && w in table.disk.workspaces
                  && table.disk.workspaces[w] == Workspace(Owner(id, w, draws.lease.ownerToken), Linked(LeaseChild(id)))
                else
                  && id !in table.leases && id !in table.disk.journals && LeaseChild(id) !in table.disk.children
                  && w in table.disk.workspaces && table.disk.workspaces[w] == Workspace(NoOwner, NoMount)
    {
      hide Inv, LeaseInv, Confined, Gone, Accounted;
      r := table.Acquire(request, draws.lease, parents, draws.usage);
      ghost var granted := table.disk;
      ghost var listing;
      var ok;
      ok, listing := Restart(host, [], tokens);
      if r.Granted? {
        assert FoundComplete(host, granted, draws.lease.leaseId, r.lease);
        assert draws.lease.leaseId in listing;
      }
    }

    /**
     Every run of requests, client writes to staging, workspaces made and removed, crashes and restarts
     keeps the daemon's invariants, and every parent it has published stays as it is.
     */
    method Run(events: seq<Event>)
      requires Valid() && AllFresh(events, 0) && Apart(events)
      requires forall e | e in events && e.Restarted? :: e.host.identifier == table.host.identifier
      modifies this, parents, table, env
      ensures Valid() && Preserved(old(parents.disk).parents, parents.disk.parents)
    {
      hide Inv, LeaseInv, Gone;
      for i := 0 to |events|
        invariant Valid() && AllFresh(events, i)
        invariant table.host.identifier == old(table.host).identifier
        invariant Preserved(old(parents.disk).parents, parents.disk.parents)
      {
        ghost var before := Drawn();
        assert events[i] in events;
        match events[i]
        case Called(message, draws) =>
          if !env.crashed {
            var _ := Handle(message, draws);
          }
          assert OnlyDrawn(before, Drawn(), draws);
        case Staged(txn, tree) =>
          parents.Stage(txn, tree);
        case WorkspaceMade(w) =>
          table.MakeWorkspace(w);
        case WorkspaceRemoved(w) =>
          table.RemoveWorkspace(w);
        case Restarted(host, plan, tokens) =>
          var ok;
          ghost var listing;
          ok, listing := Restart(host, plan, tokens);
      }
    }

    ghost predicate AllFresh(events: seq<Event>, from: nat)
      reads this, parents, table
    {
      forall i | from <= i < |events| && events[i].Called? :: Fresh(events[i].draws)
    }
  }

  /** The i-th call is the first to carry its request id. */
  predicate FirstUse(known: map<Name, (Message, Reply)>, calls: seq<Event>, i: nat)
    requires i < |calls| && forall e | e in calls :: e.Called?
  {
    && calls[i].message.requestId.Some? && calls[i].message.requestId.value !in known
    && forall k | 0 <= k < i :: calls[k].Called? && calls[k].message.requestId != calls[i].message.requestId
  }

  lemma AskedOnce(run: Session, log: seq<Dispatching>)
    requires run.servers != [] && Asked(log) == RequestCache.FirstUses(CACHE, run.requests, run.First().requests.Keys)
    ensures forall i, k | 0 <= i < k < |log| && log[i].request.requestId.Some? :: log[i].request.requestId != log[k].request.requestId
    ensures forall i | 0 <= i < |log| && log[i].request.requestId.Some? :: log[i].request.requestId.value !in run.First().requests
  {
    RequestCache.FirstUsesDiffer(CACHE, run.requests, run.First().requests.Keys);
    assert forall i | 0 <= i < |log| :: Asked(log)[i] == log[i].request;
  }

  lemma AnsweredAlike(calls: seq<Event>, run: Session, log: seq<Dispatching>, known: map<Name, (Message, Reply)>)
    requires (forall e | e in calls :: e.Called?) && run.Valid(CACHE, Recorded(log)) && run.First().requests == known
    requires |run.requests| <= |calls| && run.requests == Messages(calls)[..|run.requests|]
    ensures forall i, k | 0 <= i < k < |run.replies| && FirstUse(known, calls, i) && calls[k].message.requestId == calls[i].message.requestId ::
              run.replies[k] == if calls[k].message == calls[i].message then run.replies[i] else Refusal("duplicate-request-id")
    ensures forall k | 0 <= k < |run.replies| && calls[k].message.requestId.Some? && calls[k].message.requestId.value in known ::
              var first := known[calls[k].message.requestId.value];
              run.replies[k] == if first.0 == calls[k].message then first.1 else Refusal("duplicate-request-id")
  {
    hide RequestCache.Handles, RequestCache.Run.Valid;
    assert |run.replies| == |run.requests| by { LengthsAgree(run, log); }
    forall k | 0 <= k < |run.requests| ensures calls[k] in calls && run.requests[k] == calls[k].message {
      assert run.requests[k] == Messages(calls)[k];
    }
    forall i, k | 0 <= i < k < |run.replies| && FirstUse(known, calls, i) && calls[k].message.requestId == calls[i].message.requestId
      ensures run.replies[k] == if calls[k].message == calls[i].message then run.replies[i] else Refusal("duplicate-request-id")
    {
      FirstIsNew(calls, run, log, known, i);
      RequestCache.RepeatsAreAnswered(CACHE, Recorded(log), run, i, k);
    }
    forall k | 0 <= k < |run.replies| && calls[k].message.requestId.Some? && calls[k].message.requestId.value in known
      ensures var first := known[calls[k].message.requestId.value];
              run.replies[k] == if first.0 == calls[k].message then first.1 else Refusal("duplicate-request-id")
    {
      LengthsAgree(run, log);
      RequestCache.Remembered(CACHE, Recorded(log), run, 0, k, calls[k].message.requestId.value);
      KnownIsAnswered(run, log, k);
    }
  }

  lemma LengthsAgree(run: Session, log: seq<Dispatching>)
    requires run.Valid(CACHE, Recorded(log))
    ensures |run.replies| == |run.requests| && |run.servers| == |run.requests| + 1
  {
  }

  lemma KnownIsAnswered(run: Session, log: seq<Dispatching>, k: nat)
    requires run.Valid(CACHE, Recorded(log)) && k < |run.requests|
    requires run.requests[k].requestId.Some? && run.requests[k].requestId.value in run.servers[k].requests
    ensures
      var first := run.servers[k].requests[run.requests[k].requestId.value];
      run.replies[k] == if first.0 == run.requests[k] then first.1 else Refusal("duplicate-request-id")
  {
    assert RequestCache.Handles(CACHE, Recorded(log), run.servers[k], run.requests[k], run.servers[k + 1], run.replies[k]);
  }

  lemma FirstIsNew(calls: seq<Event>, run: Session, log: seq<Dispatching>, known: map<Name, (Message, Reply)>, i: nat)
    requires (forall e | e in calls :: e.Called?) && run.Valid(CACHE, Recorded(log)) && run.First().requests == known
    requires |run.requests| <= |calls| && i < |run.requests| && FirstUse(known, calls, i)
    requires forall k | 0 <= k < |run.requests| :: run.requests[k] == calls[k].message
    ensures !RequestCache.Repeated(CACHE, run.servers[i], run.requests[i])
  {
    RequestCache.KnownSoFar(CACHE, Recorded(log), run, i, calls[i].message.requestId.value);
  }

  lemma NothingHandled(s: RequestCache.Server<State, Message, Reply>)
    ensures RequestCache.Run([s], [], []).Valid(CACHE, Recorded([])) && Asked([]) == RequestCache.FirstUses(CACHE, [], s.requests.Keys)
  {
  }

  lemma NextHandled(run: Session, log: seq<Dispatching>, s: RequestCache.Server<State, Message, Reply>, m: Message,
                    t: RequestCache.Server<State, Message, Reply>, reply: Reply, known: bool)
    returns (more: Session, longer: seq<Dispatching>)
    requires run.Valid(CACHE, Recorded(log)) && run.Last() == s
    requires RequestCache.Handles(CACHE, {RequestCache.Dispatch(s.state, m, t.state, reply)}, s, m, t, reply)
    requires known <==> RequestCache.Repeated(CACHE, s, m)
    requires Asked(log) == RequestCache.FirstUses(CACHE, run.requests, run.First().requests.Keys)
    ensures more.replies == run.replies + [reply]
    ensures more.Valid(CACHE, Recorded(longer)) && more.requests == run.requests + [m] && more.First() == run.First() && more.Last() == t
    ensures Asked(longer) == RequestCache.FirstUses(CACHE, more.requests, more.First().requests.Keys)
    ensures longer == if known then log else log + [RequestCache.Dispatch(s.state, m, t.state, reply)]
  {
    longer := if known then log else log + [RequestCache.Dispatch(s.state, m, t.state, reply)];
    assert Recorded(log) <= Recorded(longer);
    assert !known ==> RequestCache.Dispatch(s.state, m, t.state, reply) in longer;
    RequestCache.FirstUsesExtended(CACHE, Recorded(log), run, m);
    RequestCache.Extended(CACHE, Recorded(log), Recorded(longer), run, m, t, reply);
    more := RequestCache.Run(run.servers + [t], run.requests + [m], run.replies + [reply]);
    assert Asked(longer) == if known then Asked(log) else Asked(log) + [m];
  }

  /** A store with one parent, built from an empty tree. */
  method PublishedParent(n: Name) returns (parents: ParentStore)
    ensures fresh(parents) && fresh(parents.env) && parents.Valid() && Servable(parents.setting, parents.disk, n)
  {
    hide Inv, Servable, TreeDigest.DigestOf;
    var env := new Environment([]);
    parents := new ParentStore(Setting(n, _ => true, _ => true, k => k, TreeDigest.DigestOf), env);
    var begun := parents.Begin(n, n, Identity(0, 0));
    assert begun.Opened? by { NothingServed(parents.setting, n); }
    EmptyTreeHasADigest();
    assert n in parents.history.begun && parents.history.staged[n].walk == [] && parents.setting.digestOf([]).Some?;
    parents.Restart([]);
    var committed := parents.Commit(n);
  }

  lemma NothingServed(s: Setting, id: Id)
    ensures !Servable(s, Disk(map[], map[], map[], []), id)
  {
  }

  lemma EmptyTreeHasADigest()
    ensures TreeDigest.DigestOf([]).Some?
  {
  }

  /**
   An acquire that is neither undone nor tracked: a parent is built and a workspace made, and then the owner
   marker is created, cannot be filled and cannot be removed.
   */
  method LostMarker(n: Name) returns (table: LeaseTable, r: LeaseResponse)
    ensures r.Refused? && !table.env.crashed
    ensures OwnerAt(table.disk, n) != NoOwner && n !in table.disk.journals && !table.manualRecovery
  {
    hide Inv, LeaseInv, Confined, Servable, Accounted;
    var parents := PublishedParent(n);
    parents.Restart([Done, Failed, Failed]);
    table := new LeaseTable(Config(100, 0, 0), parents.env, Host(_ => true, n, _ => false));
    table.MakeWorkspace(n);
    r := table.Acquire(AcquireRequest(n, n, n, 0, 0, 0), Draw(n, n, n, n, Identity(1, 1)), parents, Some(Usage(0, 100)));
  }

  /** Undisturbed, the same acquire is granted. */
  method FirstLease(n: Name) returns (table: LeaseTable, r: LeaseResponse)
    ensures r.Granted? && table.Valid() && n in table.leases && Live(table.disk, r.lease)
  {
    hide Inv, LeaseInv, Confined, Servable, Accounted, Live;
    var parents := PublishedParent(n);
    parents.Restart([]);
    table := new LeaseTable(Config(100, 0, 0), parents.env, Host(_ => true, n, _ => false));
    table.MakeWorkspace(n);
    r := table.Acquire(AcquireRequest(n, n, n, 0, 0, 0), Draw(n, n, n, n, Identity(1, 1)), parents, Some(Usage(0, 100)));
  }
}
