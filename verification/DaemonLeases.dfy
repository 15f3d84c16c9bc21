/**
 Leases of the Unix daemon: an owner marker in the workspace, a journal, a cloned child directory and
 a mount link, created in this order and removed in the opposite one.

 The storage backend appears here through its steps, each of which may fail or be cut by a crash;
 `UnixStorage` shows what these steps do to a file system of paths.
 */
module DaemonLeases {
  import opened Wrappers
  import opened Environments
  import opened Names
  import opened DaemonParents
  import opened LeaseDisks
  import opened LeaseRecovery

  datatype Config = Config(quotaBytes: int, hostFloorBytes: int, childReserveBytes: int)

  datatype AcquireRequest = AcquireRequest(
    consumerId: Id, workspaceId: Id, parentId: Id, clientPid: int, storeMaxBytes: int, minimumFreeBytes: int)

  /** The random draws of one acquire, and the identity that the clone turns out to have. */
  datatype Draw = Draw(leaseId: Id, ownerToken: Name, childToken: Name, deleteToken: Name, identity: Identity)

  datatype LeaseResponse = Refused(code: string) | Granted(lease: Journal, parent: ParentRecord) | Released(lease: Journal)

  // ----- Effects of the steps ---------------------------------------------------------------

  function WithChild(d: LeaseDisk, c: ChildName, child: Child): LeaseDisk {
    d.(children := d.children[c := child])
  }

  function WithoutChild(d: LeaseDisk, c: ChildName): LeaseDisk {
    d.(children := d.children - {c})
  }

  /** Child and mount of a lease taken away. */
  function Undone(d: LeaseDisk, l: Lease): LeaseDisk {
    WithoutChild(WithMount(d, l.workspaceId, NoMount), l.child)
  }

  /** Only what belongs to this lease, its workspace and the directories under deletion differ. */
  ghost predicate Confined(before: LeaseDisk, after: LeaseDisk, id: Id, w: Id) {
    && after.journals - {id} == before.journals - {id}
    && (forall c: ChildName | c.LeaseChild? && c.leaseId != id ::
          && (c in after.children <==> c in before.children)
          && (c in before.children ==> after.children[c] == before.children[c]))
    && after.workspaces.Keys == before.workspaces.Keys
    && (forall v | v in before.workspaces && v != w :: after.workspaces[v] == before.workspaces[v])
    && (w in before.workspaces ==>
          var x, y := before.workspaces[w], after.workspaces[w];
          && (y.mount == x.mount || y.mount == NoMount || y.mount == Linked(LeaseChild(id)))
          && (y.owner == x.owner || !y.owner.Owner? || y.owner.leaseId == id))
  }

  /** An operation on one lease brings forth nothing of another. */
  lemma ConfinedKeepsGone(before: LeaseDisk, after: LeaseDisk, id: Id, w: Id, other: Id)
    requires Confined(before, after, id, w) && other != id && Gone(before, other)
    ensures Gone(after, other)
  {
    assert other !in after.journals by {
      assert other in after.journals - {id} <==> other in after.journals;
      assert other !in before.journals - {id};
    }
    forall v | v in after.workspaces
      ensures after.workspaces[v].mount != Linked(LeaseChild(other))
              && !(after.workspaces[v].owner.Owner? && after.workspaces[v].owner.leaseId == other)
    {
      assert v in before.workspaces;
    }
  }

  /** An acquired lease: complete on disk, so that a restart would recover it. */
  ghost predicate Live(d: LeaseDisk, j: Journal) {
    && j.leaseId in d.journals && d.journals[j.leaseId] == Some(j)
    && j.state == Ready && j.snapshot.Some?
    && Recoverable(d, j.snapshot.value)
    && Owns(d, j)
  }

  /** A released lease: journal, child, mount link and marker are gone. */
  ghost predicate GoneFrom(d: LeaseDisk, j: Journal) {
    && j.leaseId !in d.journals
    && LeaseChild(j.leaseId) !in d.children
    && Unmounted(d, j.leaseId)
    && OwnerAt(d, j.workspaceId) == NoOwner
  }

  /** Taking children away, or putting some under the reserved prefix, leaves everything accounted for. */
  lemma FewerChildren(identifier: Name -> bool, d: LeaseDisk, e: LeaseDisk, leases: map<Id, Lease>)
    requires LeaseInv(identifier, d, leases) && e == d.(children := e.children)
    requires forall c | c in e.children && c.LeaseChild? :: c in d.children
    ensures LeaseInv(identifier, e, leases)
  {
    forall id | id in leases && leases[id].released ensures Unmounted(e, id) {
      assert Unmounted(d, id);
    }
  }

  function Cloned(draw: Draw): Child {
    Directory(draw.identity, Some(Marker(draw.leaseId, draw.childToken)))
  }

  function LeaseOf(draw: Draw, w: Id): Lease {
    Lease(LeaseChild(draw.leaseId), w, draw.leaseId, draw.childToken, draw.identity, false)
  }

  /** A child of a lease with a journal may appear. */
  lemma ChildAppears(identifier: Name -> bool, d: LeaseDisk, leases: map<Id, Lease>, id: Id, child: Child)
    requires LeaseInv(identifier, d, leases) && id in d.journals && id !in leases
    ensures LeaseInv(identifier, WithChild(d, LeaseChild(id), child), leases)
  {
    var e := WithChild(d, LeaseChild(id), child);
    forall i | i in leases && leases[i].released ensures Unmounted(e, i) {
      assert Unmounted(d, i);
    }
  }

  /** And so may its mount in the workspace that the journal names. */
  lemma MountAppears(identifier: Name -> bool, d: LeaseDisk, leases: map<Id, Lease>, id: Id, w: Id)
    requires LeaseInv(identifier, d, leases) && JournalFor(d, id, w) && id !in leases
    ensures LeaseInv(identifier, WithMount(d, w, Linked(LeaseChild(id))), leases)
  {
    var e := WithMount(d, w, Linked(LeaseChild(id)));
    forall i | i in leases && leases[i].released ensures Unmounted(e, i) {
      assert Unmounted(d, i);
    }
  }

  /** Once child and mount are undone, nothing is left that the journal has to account for. */
  lemma UndoneIsReleasable(identifier: Name -> bool, d: LeaseDisk, leases: map<Id, Lease>, l: Lease, j: Journal)
    requires l.leaseId == j.leaseId && l.child == LeaseChild(j.leaseId) && l.workspaceId == j.workspaceId
    requires MountAt(d, l.workspaceId) == Linked(l.child)
    ensures LeaseInv(identifier, d, leases) ==> Unmounted(Undone(d, l), j.leaseId) && LeaseChild(j.leaseId) !in Undone(d, l).children
    ensures JournalFor(Undone(d, l), j.leaseId, j.workspaceId) <==> JournalFor(d, j.leaseId, j.workspaceId)
  {
  }

  /** A lease that was nowhere before its acquire and has lost all of it again is nowhere. */
  lemma GoneAgain(before: LeaseDisk, after: LeaseDisk, id: Id, w: Id)
    requires Gone(before, id) && Confined(before, after, id, w)
    requires id !in after.journals && LeaseChild(id) !in after.children && MountAt(after, w) != Linked(LeaseChild(id))
    requires !(OwnerAt(after, w).Owner? && OwnerAt(after, w).leaseId == id)
    ensures Gone(after, id)
  {
    forall v | v in after.workspaces && v != w ensures after.workspaces[v] == before.workspaces[v] {
      assert v in before.workspaces;
    }
  }

  function JournalOfAcquire(request: AcquireRequest, draw: Draw, boot: Name): Journal {
    Journal(draw.leaseId, request.consumerId, request.workspaceId, request.parentId, Requested, LeaseChild(draw.leaseId),
            request.clientPid, Some(boot), draw.ownerToken, None)
  }

  /** The journal once the child is mounted, with the snapshot that recovery needs. */
  function ReadyJournal(j: Journal, draw: Draw): Journal {
    j.(state := Ready, snapshot := Some(Snapshot(j.parentId, j.child, j.workspaceId, j.leaseId, draw.childToken, draw.identity)))
  }

  datatype Usage = Usage(allocatedBytes: int, hostFreeBytes: int)

  /** The tighter of the daemon's and the request's limits leave room for one more child. */
  predicate Fits(config: Config, request: AcquireRequest, usage: Usage) {
    var quota := if 0 < request.storeMaxBytes < config.quotaBytes then request.storeMaxBytes else config.quotaBytes;
    var floor := if request.minimumFreeBytes > config.hostFloorBytes then request.minimumFreeBytes else config.hostFloorBytes;
    usage.allocatedBytes + config.childReserveBytes <= quota && usage.hostFreeBytes - config.childReserveBytes >= floor
  }

  lemma LeaseRegistered(identifier: Name -> bool, d: LeaseDisk, leases: map<Id, Lease>, l: Lease)
    requires LeaseInv(identifier, d, leases) && !l.released
    requires l.child == LeaseChild(l.leaseId) && JournalFor(d, l.leaseId, l.workspaceId)
    ensures LeaseInv(identifier, d, leases[l.leaseId := l])
  {
  }

  /** A lease whose child and mount are gone may be marked as released. */
  lemma MarkedReleased(identifier: Name -> bool, d: LeaseDisk, e: LeaseDisk, leases: map<Id, Lease>, j: Journal, l: Lease)
    requires LeaseInv(identifier, d, leases) && LeaseInv(identifier, e, leases) && JournalFor(d, j.leaseId, j.workspaceId)
    requires l.leaseId == j.leaseId && l.child == LeaseChild(j.leaseId) && l.workspaceId == j.workspaceId
    requires j.leaseId in leases ==> leases[j.leaseId] == l
    requires if l.released then e == d && j.leaseId in leases else MountAt(d, l.workspaceId) == Linked(l.child) && e == Undone(d, l)
    ensures Unmounted(e, j.leaseId) && LeaseChild(j.leaseId) !in e.children && JournalFor(e, j.leaseId, j.workspaceId)
    ensures j.leaseId in leases ==> LeaseInv(identifier, e, leases[j.leaseId := l.(released := true)])
  {
    if !l.released { UndoneIsReleasable(identifier, d, leases, l, j); }
  }

  lemma JournalsReadable(identifier: Name -> bool, d: LeaseDisk, leases: map<Id, Lease>, id: Id)
    requires LeaseInv(identifier, d, leases) && id in d.journals
    ensures d.journals[id].Some?
  {
  }

  ghost predicate NothingAppears(before: LeaseDisk, after: LeaseDisk) {
    forall id | Gone(before, id) :: Gone(after, id)
  }

  lemma ConfinedToOne(before: LeaseDisk, after: LeaseDisk, id: Id, w: Id)
    requires Confined(before, after, id, w) && id in before.journals
    ensures NothingAppears(before, after)
  {
    forall other | Gone(before, other) ensures Gone(after, other) {
      ConfinedKeepsGone(before, after, id, w, other);
    }
  }

  lemma NothingChanged(d: LeaseDisk)
    ensures NothingAppears(d, d)
  {
  }

  lemma NothingAppearsTwice(a: LeaseDisk, b: LeaseDisk, c: LeaseDisk)
    requires NothingAppears(a, b) && NothingAppears(b, c)
    ensures NothingAppears(a, c)
  {
  }

  lemma EntryKeepsGone(h: Host, before: LeaseDisk, after: LeaseDisk, id: Id)
    requires if JournalOf(h, before, id).None? then after == before
             else Confined(before, after, id, JournalOf(h, before, id).value.workspaceId)
    ensures NothingAppears(before, after)
  {
    if JournalOf(h, before, id).Some? {
      ConfinedToOne(before, after, id, JournalOf(h, before, id).value.workspaceId);
    }
  }

  /** Writing an owner marker is tracked by nothing, and the last one counts. */
  lemma OwnerWritten(identifier: Name -> bool, d: LeaseDisk, leases: map<Id, Lease>, w: Id, first: OwnerFile, second: OwnerFile)
    requires w in d.workspaces
    ensures OwnerAt(WithOwner(d, w, first), w) == first && OwnerAt(WithOwner(d, w, second), w) == second
    ensures WithOwner(WithOwner(d, w, first), w, second) == WithOwner(d, w, second)
    ensures WithOwner(d, w, OwnerAt(d, w)) == d
    ensures LeaseInv(identifier, d, leases) ==>
              LeaseInv(identifier, WithOwner(d, w, first), leases) && LeaseInv(identifier, WithOwner(d, w, second), leases)
  {
    assert WithOwner(WithOwner(d, w, first), w, second).workspaces == WithOwner(d, w, second).workspaces;
    if LeaseInv(identifier, d, leases) {
      OwnersAreNotTracked(identifier, d, leases, w, first);
      OwnersAreNotTracked(identifier, d, leases, w, second);
    }
  }

  lemma OwnersAreNotTracked(identifier: Name -> bool, d: LeaseDisk, leases: map<Id, Lease>, w: Id, owner: OwnerFile)
    requires LeaseInv(identifier, d, leases)
    ensures LeaseInv(identifier, WithOwner(d, w, owner), leases)
  {
    forall id | id in leases && leases[id].released ensures Unmounted(WithOwner(d, w, owner), id) {
      assert Unmounted(d, id);
    }
  }

  /** What has to hold of an acquire that is refused: all of it is undone, or its journal or a flag tells of it. */
  ghost predicate Accounted(before: LeaseDisk, after: LeaseDisk, id: Id, w: Id, flagged: bool) {
    (Gone(after, id) && OwnerAt(after, w) == OwnerAt(before, w)) || id in after.journals || flagged
  }

  /** A marker in the workspace, whole or torn, is all that differs, and no journal tells of it. */
  ghost predicate MarkerLeft(before: LeaseDisk, after: LeaseDisk, id: Id, w: Id) {
    OwnerAt(after, w) != NoOwner && after == WithOwner(before, w, OwnerAt(after, w)) && id !in after.journals
  }

  /** This journal is on disk and its lease complete. */
  ghost predicate FoundComplete(h: Host, d: LeaseDisk, id: Id, j: Journal) {
    id in d.journals && d.journals[id] == Some(j) && Consistent(h.identifier, id, j) && InPlace(d, id, j)
  }

  /** What recovery makes of a complete lease: held for a client that runs on this boot, else gone altogether. */
  ghost predicate Settled(h: Host, d: LeaseDisk, leases: map<Id, Lease>, id: Id, j: Journal) {
    if j.boot == Some(h.boot) && 0 < j.clientPid && h.running(j.clientPid) then
      id in leases && FoundComplete(h, d, id, j)
    else
      && id !in leases && id !in d.journals && j.child !in d.children
      && j.workspaceId in d.workspaces && d.workspaces[j.workspaceId] == Workspace(NoOwner, NoMount)
  }

  lemma AllSettled(h: Host, before: LeaseDisk, after: LeaseDisk, leases: map<Id, Lease>, listing: seq<Id>)
    requires Distinct(listing) && after == RecoverAll(h, before, listing)
    requires forall i | 0 <= i < |listing| :: listing[i] in leases <==> VerdictAt(h, before, listing, i).Registered?
    ensures forall i, j | 0 <= i < |listing| && FoundComplete(h, before, listing[i], j) :: Settled(h, after, leases, listing[i], j)
  {
    forall i, j | 0 <= i < |listing| && FoundComplete(h, before, listing[i], j) ensures Settled(h, after, leases, listing[i], j) {
      CompleteLease(h, before, listing, i, j);
    }
  }

  datatype Removal = Removed | Missing | Erred

  class LeaseTable {
    const config: Config
    const env: Environment
    var host: Host
    var disk: LeaseDisk
    var leases: map<Id, Lease>
    var manualRecovery: bool

    ghost predicate Valid()
      reads this
    {
      LeaseInv(host.identifier, disk, leases)
    }

    /** The lease is live on disk and, if it is in memory, held as acquired. */
    ghost predicate Complete(id: Id)
      requires id in disk.journals
      reads this
    {
      && disk.journals[id].Some? && Live(disk, disk.journals[id].value)
      && (id in leases ==> leases[id] == FromSnapshot(disk.journals[id].value.snapshot.value))
    }

    /** This lease is the one of this journal. */
    ghost predicate LeaseFits(j: Journal, l: Lease)
      reads this
    {
      && l.leaseId == j.leaseId && l.child == LeaseChild(j.leaseId) && l.workspaceId == j.workspaceId
      && JournalFor(disk, j.leaseId, j.workspaceId)
      && (j.leaseId in leases ==> leases[j.leaseId] == l)
      && (j.leaseId !in leases ==> !l.released)
    }

    /** Everything that `release` looks for is in place. */
    ghost predicate Dismantleable(j: Journal, l: Lease, token: Name)
      reads this
    {
      && DeletedChild(token) !in disk.children && Owns(disk, j) && !l.released
      && MountAt(disk, j.workspaceId) == Linked(l.child) && OwnedAt(disk, l, l.child)
    }

    /** Writing this journal keeps it valid and in its workspace. */
    ghost predicate JournalFits(j: Journal)
      reads this
    {
      && ValidJournal(host.identifier, j.leaseId, j)
      && (j.leaseId in disk.journals ==> JournalFor(disk, j.leaseId, j.workspaceId))
      && (j.leaseId in leases ==> leases[j.leaseId].workspaceId == j.workspaceId)
    }

    /** Nothing is left that the journal of this lease has to account for. */
    ghost predicate Releasable(id: Id)
      reads this
    {
      && Unmounted(disk, id) && LeaseChild(id) !in disk.children
      && (id in leases ==> leases[id].released)
    }

    constructor (config: Config, env: Environment, host: Host)
      ensures Valid() && this.config == config && this.env == env && this.host == host
      ensures disk == LeaseDisk(map[], map[], map[]) && leases == map[] && !manualRecovery
    {
      this.config, this.env, this.host := config, env, host;
      disk, leases, manualRecovery := LeaseDisk(map[], map[], map[]), map[], false;
    }

    /** A client makes a workspace or removes one. */
    method MakeWorkspace(w: Id)
      modifies `disk
      ensures old(Valid()) ==> Valid()
      ensures disk == if w in old(disk).workspaces then old(disk) else old(disk).(workspaces := old(disk).workspaces[w := EMPTY_WORKSPACE])
      ensures NothingAppears(old(disk), disk)
    {
      if w !in disk.workspaces {
        disk := disk.(workspaces := disk.workspaces[w := EMPTY_WORKSPACE]);
      }
    }

    method RemoveWorkspace(w: Id)
      modifies `disk
      ensures old(Valid()) ==> Valid()
      ensures disk == old(disk).(workspaces := old(disk).workspaces - {w})
      ensures NothingAppears(old(disk), disk)
    {
      disk := disk.(workspaces := disk.workspaces - {w});
      forall id | id in leases && old(Valid()) && leases[id].released ensures Unmounted(disk, id) {
        assert Unmounted(old(disk), id);
      }
    }

    // ----- Steps on markers and journals ----------------------------------------------------

    /** The owner marker will be created, then the writing fails, and so does the removal that is to undo it. */
    ghost predicate MarkerStays()
      reads env
    {
      !env.crashed && env.Ahead(0) == Done && env.Ahead(1) in {Failed, FailedAfter} && env.Ahead(2) in {Failed, FailedAfter}
    }

    /** The workspace can take an owner marker. */
    predicate Ownable(w: Id)
      reads this
    {
      w in disk.workspaces && OwnerAt(disk, w) == NoOwner
    }

    /**
     The exclusive creation of the owner marker: made, filled and flushed, and removed again after an error
     whose removal may fail in its turn.
     */
    method WriteOwner(w: Id, owner: OwnerFile) returns (ok: bool)
      requires owner.Owner?
      modifies `disk, env
      ensures old(Valid()) ==> Valid()
      ensures disk == old(disk) || (old(Ownable(w)) && disk == WithOwner(old(disk), w, OwnerAt(disk, w)))
      ensures OwnerAt(disk, w) in {OwnerAt(old(disk), w), owner, UnreadableOwner}
      ensures !ok && !env.crashed ==> (OwnerAt(disk, w) != OwnerAt(old(disk), w) <==> old(Ownable(w) && MarkerStays()))
      ensures !ok && !env.crashed && !old(MarkerStays()) ==> disk == old(disk)
      ensures old(Ownable(w) && MarkerStays()) ==> !ok && !env.crashed
      ensures ok ==> old(Ownable(w) && !MarkerStays()) && disk == WithOwner(old(disk), w, owner) && !env.crashed
      ensures old(env.Calm()) ==> env.Calm() && ok == old(Ownable(w))
      ensures old(env.crashed) ==> env.crashed
    {
      hide LeaseInv, WithOwner, Environment.Calm, Environment.OneFault;
      if !Ownable(w) {
        return false;
      }
      OwnerWritten(host.identifier, disk, leases, w, UnreadableOwner, owner);
      var made := env.Next();
      if made.Landed() {
        disk := WithOwner(disk, w, UnreadableOwner);
      }
      if !made.Done? {
        return false;
      }
      var filled := env.Next();
      if filled.Effective() {
        disk := WithOwner(disk, w, owner);
      }
      ok := filled.Done?;
      if !ok {
        OwnerWritten(host.identifier, old(disk), leases, w, OwnerAt(disk, w), NoOwner);
        var removed := env.Next();
        if removed.Landed() {
          disk := WithOwner(disk, w, NoOwner);
        }
      }
    }

    /** `removeWorkspaceOwner`. */
    method RemoveOwner(j: Journal) returns (r: Removal)
      modifies `disk, env
      ensures old(Valid()) ==> Valid()
      ensures disk == old(disk) || (Owns(old(disk), j) && disk == WithOwner(old(disk), j.workspaceId, NoOwner))
      ensures r.Missing? <==> OwnerAt(old(disk), j.workspaceId) == NoOwner
      ensures r.Removed? ==> Owns(old(disk), j) && disk == WithOwner(old(disk), j.workspaceId, NoOwner) && !env.crashed
      ensures old(env.Calm()) ==> env.Calm() && (r.Removed? <==> Owns(old(disk), j))
      ensures !r.Removed? && old(env.Calm()) ==> disk == old(disk)
      ensures old(env.crashed) ==> env.crashed
    {
      if OwnerAt(disk, j.workspaceId) == NoOwner {
        return Missing;
      }
      if !Owns(disk, j) {
        return Erred;
      }
      var o := env.Next();
      if o.Effective() {
        disk := WithOwner(disk, j.workspaceId, NoOwner);
      }
      r := if o.Done? then Removed else Erred;
    }

    method WriteJournal(j: Journal) returns (ok: bool)
      modifies `disk, env
      ensures old(Valid() && JournalFits(j)) ==> Valid()
      ensures disk == old(disk) || disk == old(disk).(journals := old(disk).journals[j.leaseId := Some(j)])
      ensures ok ==> disk == old(disk).(journals := old(disk).journals[j.leaseId := Some(j)]) && !env.crashed
      ensures old(env.Calm()) ==> ok && env.Calm()
      ensures old(env.crashed) ==> env.crashed
    {
      var o := env.Next();
      if o.Effective() {
        disk := disk.(journals := disk.journals[j.leaseId := Some(j)]);
      }
      ok := o.Done?;
    }

    /** `removeFileIfExists` on a journal. */
    method RemoveJournal(id: Id) returns (ok: bool)
      modifies `disk, env
      ensures old(Valid() && Releasable(id)) ==> Valid()
      ensures disk == old(disk) || disk == old(disk).(journals := old(disk).journals - {id})
      ensures ok ==> disk == old(disk).(journals := old(disk).journals - {id}) && (env.crashed ==> old(env.crashed))
      ensures old(env.Calm()) ==> ok && env.Calm()
      ensures old(env.crashed) ==> env.crashed
    {
      if id !in disk.journals {
        return true;
      }
      var o := env.Next();
      if o.Effective() {
        disk := disk.(journals := disk.journals - {id});
      }
      ok := o.Done?;
    }

    // ----- Steps of the storage backend -----------------------------------------------------

    /** `removeOwnedMount`. */
    method RemoveMount(l: Lease) returns (ok: bool)
      modifies `disk, env
      ensures old(Valid()) ==> Valid()
      ensures || disk == old(disk)
              || (MountAt(old(disk), l.workspaceId) == Linked(l.child) && disk == WithMount(old(disk), l.workspaceId, NoMount))
      ensures ok ==> MountAt(old(disk), l.workspaceId) == Linked(l.child) && disk == WithMount(old(disk), l.workspaceId, NoMount) && !env.crashed
      ensures old(env.Calm()) ==> env.Calm() && ok == (MountAt(old(disk), l.workspaceId) == Linked(l.child))
      ensures !ok && old(env.Calm()) ==> disk == old(disk)
      ensures old(env.crashed) ==> env.crashed
    {
      if MountAt(disk, l.workspaceId) != Linked(l.child) {
        return false;
      }
      var o := env.Next();
      if o.Effective() {
        disk := WithMount(disk, l.workspaceId, NoMount);
      }
      ok := o.Done?;
    }

    /**
     `removeOwnedChild`: the child is renamed to a name under the reserved prefix, its directories are
     made writable and it is removed; an interrupted removal leaves some of it under that name.
     */
    method RemoveChild(l: Lease, token: Name) returns (ok: bool)
      modifies `disk, env
      ensures old(Valid()) ==> Valid()
      ensures disk == old(disk).(children := disk.children)
      ensures forall c | c != l.child && c != DeletedChild(token) ::
                (c in disk.children <==> c in old(disk).children) && (c in disk.children ==> disk.children[c] == old(disk).children[c])
      ensures l.child in disk.children ==> l.child in old(disk).children && disk.children[l.child] == old(disk).children[l.child]
      ensures ok ==> OwnedAt(old(disk), l, l.child) && disk == WithoutChild(old(disk), l.child) && !env.crashed
      ensures old(env.Calm()) ==>
                env.Calm() && ok == (OwnedAt(old(disk), l, l.child) && l.child != DeletedChild(token) && DeletedChild(token) !in old(disk).children)
      ensures old(env.crashed) ==> env.crashed
    {
      hide LeaseInv;
      var aside := DeletedChild(token);
      if !OwnedAt(disk, l, l.child) || aside == l.child || aside in disk.children {
        return false;
      }
      ghost var before := disk.children;
      var o := env.Next();
      if o.Effective() {
        disk := disk.(children := disk.children[aside := disk.children[l.child]] - {l.child});
      }
      if !o.Done? {
        if old(Valid()) { FewerChildren(host.identifier, old(disk), disk, leases); }
        return false;
      }
      o := env.Next();
      if !o.Done? {
        if old(Valid()) { FewerChildren(host.identifier, old(disk), disk, leases); }
        return false;
      }
      o := env.Next();
      if o.Effective() {
        disk := disk.(children := disk.children - {aside});
        assert disk.children == before - {l.child};
      } else {
        disk := disk.(children := disk.children[aside := Directory(l.identity, None)]);
      }
      ok := o.Done?;
      if old(Valid()) { FewerChildren(host.identifier, old(disk), disk, leases); }
    }

    /** `unixLease.Release` with deletion of the child. */
    method ReleaseLease(l: Lease, token: Name) returns (ok: bool)
      modifies `disk, env
      ensures old(Valid()) ==> Valid()
      ensures Confined(old(disk), disk, l.leaseId, l.workspaceId) || l.child != LeaseChild(l.leaseId)
      ensures disk.journals == old(disk).journals && (forall w :: OwnerAt(disk, w) == OwnerAt(old(disk), w))
      ensures l.released ==> ok && disk == old(disk)
      ensures ok && !l.released ==>
                && MountAt(old(disk), l.workspaceId) == Linked(l.child) && OwnedAt(old(disk), l, l.child)
                && disk == Undone(old(disk), l) && !env.crashed
      ensures old(env.Calm()) ==> env.Calm()
      ensures old(env.Calm()) && !l.released && l.child.LeaseChild? && DeletedChild(token) !in old(disk).children ==>
                (ok <==> MountAt(old(disk), l.workspaceId) == Linked(l.child) && OwnedAt(old(disk), l, l.child))
      ensures old(env.crashed) ==> env.crashed
    {
      if l.released {
        return true;
      }
      ok := RemoveMount(l);
      if !ok || !OwnedAt(disk, l, l.child) {
        return false;
      }
      var measured := env.Next();
      if !measured.Done? {
        return false;
      }
      ok := RemoveChild(l, token);
    }

    /** The first half of `unixBackend.Acquire`: the clone and its ownership marker. */
    method MakeChild(draw: Draw) returns (ok: bool)
      requires draw.leaseId !in leases
      modifies `disk, env
      ensures old(Valid()) && draw.leaseId in old(disk).journals ==> Valid()
      ensures || disk == old(disk)
              || (LeaseChild(draw.leaseId) in disk.children
                  && disk == WithChild(old(disk), LeaseChild(draw.leaseId), disk.children[LeaseChild(draw.leaseId)]))
      ensures ok ==> disk == WithChild(old(disk), LeaseChild(draw.leaseId), Cloned(draw)) && !env.crashed
      ensures old(env.Calm()) ==> env.Calm() && ok == (LeaseChild(draw.leaseId) !in old(disk).children)
      ensures old(env.crashed) ==> env.crashed
    {
      hide LeaseInv;
      var child := LeaseChild(draw.leaseId);
      if child in disk.children {
        return false;
      }
      if Valid() && draw.leaseId in disk.journals {
        ChildAppears(host.identifier, disk, leases, draw.leaseId, Directory(draw.identity, None));
        ChildAppears(host.identifier, disk, leases, draw.leaseId, Cloned(draw));
      }
      var o := env.Next();
      if o.Effective() {
        disk := WithChild(disk, child, Directory(draw.identity, None));
      }
      if !o.Done? {
        return false;
      }
      o := env.Next();
      if o.Effective() {
        disk := WithChild(disk, child, Cloned(draw));
        assert disk == WithChild(old(disk), child, Cloned(draw));
      }
      ok := o.Done?;
    }

    /** The mount link. */
    method LinkMount(id: Id, w: Id) returns (ok: bool)
      requires id !in leases && w in disk.workspaces
      modifies `disk, env
      ensures old(Valid() && JournalFor(disk, id, w)) ==> Valid()
      ensures disk == old(disk) || disk == WithMount(old(disk), w, Linked(LeaseChild(id)))
      ensures ok ==> disk == WithMount(old(disk), w, Linked(LeaseChild(id))) && !env.crashed
      ensures old(env.Calm()) ==> env.Calm() && ok
      ensures old(env.crashed) ==> env.crashed
    {
      hide LeaseInv;
      if Valid() && JournalFor(disk, id, w) { MountAppears(host.identifier, disk, leases, id, w); }
      var o := env.Next();
      if o.Effective() {
        disk := WithMount(disk, w, Linked(LeaseChild(id)));
      }
      ok := o.Done?;
    }

    /** `unixBackend.Acquire`; a child that is not yet marked is left in place on failure. */
    method AcquireChild(draw: Draw, w: Id) returns (lease: Option<Lease>)
      requires draw.leaseId !in leases
      modifies `disk, env
      ensures old(Valid() && JournalFor(disk, draw.leaseId, w)) ==> Valid()
      ensures Confined(old(disk), disk, draw.leaseId, w)
      ensures disk.journals == old(disk).journals && (forall v :: OwnerAt(disk, v) == OwnerAt(old(disk), v))
      ensures lease.Some? ==>
                && lease == Some(LeaseOf(draw, w)) && !env.crashed
                && disk == WithMount(WithChild(old(disk), LeaseChild(draw.leaseId), Cloned(draw)), w, Linked(LeaseChild(draw.leaseId)))
                && w in old(disk).workspaces
      ensures old(env.Calm()) ==>
                && env.Calm()
                && (LeaseChild(draw.leaseId) !in old(disk).children && w in old(disk).workspaces && MountAt(old(disk), w) == NoMount ==> lease.Some?)
      ensures old(env.crashed) ==> env.crashed
    {
      hide LeaseInv;
      if w !in disk.workspaces || MountAt(disk, w) != NoMount {
        return None;
      }
      var ok := MakeChild(draw);
      if !ok {
        return None;
      }
      var measured := env.Next();
      ok := measured.Done?;
      if ok {
        ok := LinkMount(draw.leaseId, w);
      }
      if !ok {
        var _ := RemoveChild(LeaseOf(draw, w), draw.deleteToken);
        return None;
      }
      lease := Some(LeaseOf(draw, w));
    }

    /** `rollbackAcquiredLease`. */
    method Rollback(j: Journal, l: Lease, token: Name)
      requires l.leaseId == j.leaseId && l.child == LeaseChild(j.leaseId) && l.workspaceId == j.workspaceId
      requires !l.released && j.leaseId !in leases
      modifies `disk, `manualRecovery, env
      ensures old(Valid()) ==> Valid()
      ensures Confined(old(disk), disk, j.leaseId, j.workspaceId)
      ensures !env.crashed && old(Valid()) ==> manualRecovery || GoneFrom(disk, j)
      ensures old(manualRecovery) ==> manualRecovery
      ensures old(env.crashed) ==> env.crashed
    {
      var released := ReleaseLease(l, token);
      if !released {
        manualRecovery := true;
        return;
      }
      UndoneIsReleasable(host.identifier, old(disk), leases, l, j);
      var owner := RemoveOwner(j);
      if !owner.Removed? {
        manualRecovery := true;
        return;
      }
      var removed := RemoveJournal(j.leaseId);
      if !removed {
        manualRecovery := true;
      }
    }

    // ----- acquire --------------------------------------------------------------------------

    /** A request that `acquire` lets through to the first change on disk. */
    ghost predicate Admissible(request: AcquireRequest, parents: ParentStore, usage: Option<Usage>)
      reads this, parents
    {
      && host.identifier(request.consumerId) && host.identifier(request.workspaceId) && host.identifier(request.parentId)
      && Servable(parents.setting, parents.disk, request.parentId)
      && usage.Some? && Fits(config, request, usage.value)
      && request.workspaceId in disk.workspaces && MountAt(disk, request.workspaceId) == NoMount
    }

    /** The checks of `acquire`; a parent that does not verify is moved aside. */
    method Admit(request: AcquireRequest, parents: ParentStore, usage: Option<Usage>) returns (code: string, parent: Option<ParentRecord>)
      requires parents.env == env
      modifies `manualRecovery, parents`disk, env
      ensures old(parents.Valid()) ==> parents.Valid() && parents.disk == old(parents.disk)
      ensures parent.Some? <==> old(Admissible(request, parents, usage))
      // the room that has to be there, and the workspace
      ensures old(Servable(parents.setting, parents.disk, request.parentId))
              && host.identifier(request.consumerId) && host.identifier(request.workspaceId) && host.identifier(request.parentId) ==>
                (parent.Some? <==>
                  && usage.Some?
                  && usage.value.allocatedBytes + config.childReserveBytes <=
                     (if 0 < request.storeMaxBytes < config.quotaBytes then request.storeMaxBytes else config.quotaBytes)
                  && usage.value.hostFreeBytes - config.childReserveBytes >= request.minimumFreeBytes
                  && usage.value.hostFreeBytes - config.childReserveBytes >= config.hostFloorBytes
                  && request.workspaceId in disk.workspaces && disk.workspaces[request.workspaceId].mount == NoMount)
      ensures parent.Some? ==>
                && parents.disk == old(parents.disk) && parent == parents.disk.parents[request.parentId].metadata
                && env.plan == old(env.plan) && env.drawn == old(env.drawn) && env.crashed == old(env.crashed)
      ensures parents.disk == old(parents.disk) || parents.disk == Withdrawn(old(parents.disk), request.parentId)
      ensures old(manualRecovery) || parent.Some? ==> manualRecovery == old(manualRecovery)
    {
      parent := None;
      if !host.identifier(request.consumerId) || !host.identifier(request.workspaceId) || !host.identifier(request.parentId) {
        return "invalid-request", None;
      }
      if request.parentId !in parents.disk.parents
         || !Readable(parents.setting, request.parentId, parents.disk.parents[request.parentId]) {
        return "parent-not-found", None;
      }
      var record := parents.disk.parents[request.parentId].metadata.value;
      var verified := parents.VerifyParent(record);
      if !verified {
        manualRecovery := true;
        var _ := parents.Quarantine(request.parentId);
        return "parent-corrupt", None;
      }
      if usage.None? {
        return "status-unavailable", None;
      }
      if !Fits(config, request, usage.value) {
        return "storage-capacity-unavailable", None;
      }
      if request.workspaceId !in disk.workspaces || MountAt(disk, request.workspaceId) != NoMount {
        return "invalid-workspace", None;
      }
      return "", Some(record);
    }

    /** After a failed backend acquire: with child and mount absent the marker and the journal go too. */
    method CleanUpFailedAcquire(j: Journal)
      requires j.leaseId !in leases
      modifies `disk, `manualRecovery, env
      ensures old(Valid() && JournalFor(disk, j.leaseId, j.workspaceId)) ==> Valid()
      ensures Confined(old(disk), disk, j.leaseId, j.workspaceId)
      ensures old(Valid() && JournalFor(disk, j.leaseId, j.workspaceId)) && OwnerAt(old(disk), j.workspaceId) == Owner(j.leaseId, j.workspaceId, j.ownerToken)
              && !env.crashed && !manualRecovery && j.leaseId !in disk.journals
              ==> GoneFrom(disk, j)
      ensures old(manualRecovery) ==> manualRecovery
      ensures old(env.crashed) ==> env.crashed
    {
      if LeaseChild(j.leaseId) in disk.children || MountAt(disk, j.workspaceId) != NoMount {
        manualRecovery := true;
        return;
      }
      var owner := RemoveOwner(j);
      if !owner.Erred? {
        assert old(Valid() && JournalFor(disk, j.leaseId, j.workspaceId)) ==> Releasable(j.leaseId);
        var _ := RemoveJournal(j.leaseId);
      }
    }

    /** Marker and journal are on disk: the child, the mount and the journal's ready state. */
    method Equip(j: Journal, draw: Draw) returns (lease: Option<Lease>)
      requires j.leaseId == draw.leaseId && j.leaseId !in leases && j.child == LeaseChild(j.leaseId)
      modifies `disk, `manualRecovery, env
      ensures old(Valid() && JournalFits(j) && JournalFor(disk, j.leaseId, j.workspaceId)) && host.identifier(draw.childToken) ==> Valid()
      ensures Confined(old(disk), disk, j.leaseId, j.workspaceId)
      ensures lease.Some? ==>
                && lease == Some(LeaseOf(draw, j.workspaceId)) && !env.crashed
                && j.workspaceId in disk.workspaces
                && OwnerAt(disk, j.workspaceId) == OwnerAt(old(disk), j.workspaceId)
                && MountAt(disk, j.workspaceId) == Linked(j.child)
                && j.child in disk.children && disk.children[j.child] == Cloned(draw)
                && j.leaseId in disk.journals && disk.journals[j.leaseId] == Some(ReadyJournal(j, draw))
                && disk == WithMount(WithChild(old(disk), j.child, Cloned(draw)), j.workspaceId, Linked(j.child))
                           .(journals := old(disk).journals[j.leaseId := Some(ReadyJournal(j, draw))])
      ensures old(Valid() && JournalFits(j) && JournalFor(disk, j.leaseId, j.workspaceId)) && old(Owns(disk, j)) && host.identifier(draw.childToken)
              && lease.None? && !env.crashed ==>
                j.leaseId in disk.journals || manualRecovery || GoneFrom(disk, j)
      ensures old(env.Calm() && LeaseChild(draw.leaseId) !in disk.children && j.workspaceId in disk.workspaces && MountAt(disk, j.workspaceId) == NoMount) ==>
                lease.Some?
      ensures old(manualRecovery) ==> manualRecovery
      ensures old(env.crashed) ==> env.crashed
    {
      hide LeaseInv;
      lease := AcquireChild(draw, j.workspaceId);
      if lease.None? {
        CleanUpFailedAcquire(j);
        return;
      }
      var snapshot := env.Next();
      var written := snapshot.Done?;
      if written {
        written := WriteJournal(ReadyJournal(j, draw));
      }
      if !written {
        Rollback(j, lease.value, draw.deleteToken);
        lease := None;
      }
    }

    /** Marker first, then journal; the marker goes again if the journal cannot be written. */
    method Claim(j: Journal) returns (code: string)
      requires Gone(disk, j.leaseId) && j.leaseId !in leases
      modifies `disk, `manualRecovery, env
      ensures old(Valid()) && ValidJournal(host.identifier, j.leaseId, j) ==> Valid()
      ensures Confined(old(disk), disk, j.leaseId, j.workspaceId)
      ensures code == "" ==>
                && !env.crashed && old(Ownable(j.workspaceId) && !MarkerStays())
                && disk == WithOwner(old(disk), j.workspaceId, Owner(j.leaseId, j.workspaceId, j.ownerToken))
                           .(journals := old(disk).journals[j.leaseId := Some(j)])
      ensures code != "" && !env.crashed ==>
                (Accounted(old(disk), disk, j.leaseId, j.workspaceId, manualRecovery) <==>
                 (old(manualRecovery) || !old(Ownable(j.workspaceId) && MarkerStays())))
      ensures old(Ownable(j.workspaceId) && MarkerStays()) ==>
                code != "" && !env.crashed && MarkerLeft(old(disk), disk, j.leaseId, j.workspaceId) && manualRecovery == old(manualRecovery)
      ensures old(env.Calm()) ==>
                env.Calm() && (j.workspaceId in old(disk).workspaces && OwnerAt(old(disk), j.workspaceId) == NoOwner ==> code == "")
      ensures old(manualRecovery) ==> manualRecovery
      ensures old(env.crashed) ==> env.crashed
    {
      hide LeaseInv;
      var w := j.workspaceId;
      var owned := WriteOwner(w, Owner(j.leaseId, w, j.ownerToken));
      if !owned {
        return "workspace-owner-write-failed";
      }
      var written := WriteJournal(j);
      if written {
        return "";
      }
      var owner := RemoveOwner(j);
      if owner.Erred? {
        manualRecovery := true;
      }
      if j.leaseId !in disk.journals && owner.Removed? {
        GoneAgain(old(disk), disk, j.leaseId, w);
      }
      code := "journal-write-failed";
    }

    /** The changes that `acquire` makes for an admitted request. */
    method Establish(request: AcquireRequest, draw: Draw, parent: ParentRecord) returns (r: LeaseResponse)
      requires Gone(disk, draw.leaseId) && draw.leaseId !in leases
      requires host.identifier(request.consumerId) && host.identifier(request.workspaceId) && host.identifier(request.parentId)
      requires host.identifier(draw.leaseId) && host.identifier(draw.ownerToken) && host.identifier(draw.childToken)
      modifies `disk, `leases, `manualRecovery, env
      ensures old(Valid()) ==> Valid()
      ensures Confined(old(disk), disk, draw.leaseId, request.workspaceId)
      ensures r.Granted? ==>
                && r == Granted(ReadyJournal(JournalOfAcquire(request, draw, host.boot), draw), parent) && !env.crashed
                && Live(disk, r.lease)
                && leases == old(leases)[draw.leaseId := LeaseOf(draw, request.workspaceId)]
      // what a grant puts on disk, and that it is all
      ensures r.Granted? ==>
                var id, w := draw.leaseId, request.workspaceId;
                && w in old(disk).workspaces && old(disk).workspaces[w].owner == NoOwner
                && disk == LeaseDisk(
                      old(disk).journals[id := Some(Journal(
                        id, request.consumerId, w, request.parentId, Ready, LeaseChild(id), request.clientPid, Some(host.boot), draw.ownerToken,
                        Some(Snapshot(request.parentId, LeaseChild(id), w, id, draw.childToken, draw.identity))))],
                      old(disk).children[LeaseChild(id) := Directory(draw.identity, Some(Marker(id, draw.childToken)))],
                      old(disk).workspaces[w := Workspace(Owner(id, w, draw.ownerToken), Linked(LeaseChild(id)))])
      ensures !r.Granted? ==> r.Refused? && leases == old(leases)
      // a failing acquire is undone or tracked, unless its marker can neither be written nor removed
      ensures old(Valid()) && r.Refused? && !env.crashed ==>
                (Accounted(old(disk), disk, draw.leaseId, request.workspaceId, manualRecovery) <==>
                 (old(manualRecovery) || !old(Ownable(request.workspaceId) && MarkerStays())))
      ensures old(Ownable(request.workspaceId) && MarkerStays()) ==>
                && r.Refused? && !env.crashed
                && MarkerLeft(old(disk), disk, draw.leaseId, request.workspaceId) && manualRecovery == old(manualRecovery)
      ensures old(env.Calm()) && request.workspaceId in old(disk).workspaces && old(disk).workspaces[request.workspaceId] == EMPTY_WORKSPACE ==>
                r.Granted?
      ensures old(manualRecovery) ==> manualRecovery
      ensures old(env.crashed) ==> env.crashed
    {
      hide LeaseInv;
      var j := JournalOfAcquire(request, draw, host.boot);
      var code := Claim(j);
      if code != "" {
        return Refused(code);
      }
      var lease := Equip(j, draw);
      if lease.None? {
        if GoneFrom(disk, j) {
          GoneAgain(old(disk), disk, draw.leaseId, j.workspaceId);
        }
        return Refused("storage-operation-failed");
      }
      if Valid() { LeaseRegistered(host.identifier, disk, leases, lease.value); }
      leases := leases[draw.leaseId := lease.value];
      r := Granted(ReadyJournal(j, draw), parent);
    }

    /**
     `acquire`.  A granted lease is complete on disk and would survive a restart; a refused one is
     undone, or still has its journal, or calls for manual recovery, except when the very first file, the
     owner marker, can neither be written in full nor removed.
     */
    method Acquire(request: AcquireRequest, draw: Draw, parents: ParentStore, usage: Option<Usage>) returns (r: LeaseResponse)
      requires parents.env == env
      requires Gone(disk, draw.leaseId) && draw.leaseId !in leases
      requires host.identifier(draw.leaseId) && host.identifier(draw.ownerToken) && host.identifier(draw.childToken)
      modifies `disk, `leases, `manualRecovery, parents`disk, env
      ensures old(Valid()) ==> Valid()
      ensures old(parents.Valid()) ==> parents.Valid() && parents.disk == old(parents.disk)
      ensures Confined(old(disk), disk, draw.leaseId, request.workspaceId)
      ensures r.Granted? ==>
                && old(Admissible(request, parents, usage)) && !env.crashed
                && r == Granted(ReadyJournal(JournalOfAcquire(request, draw, host.boot), draw), old(parents.disk).parents[request.parentId].metadata.value)
                && Live(disk, r.lease)
                && leases == old(leases)[draw.leaseId := LeaseOf(draw, request.workspaceId)]
                && Complete(draw.leaseId)
      // what a grant puts on disk, and that it is all
      ensures r.Granted? ==>
                var id, w := draw.leaseId, request.workspaceId;
                && w in old(disk).workspaces && old(disk).workspaces[w].owner == NoOwner
                && disk == LeaseDisk(
                      old(disk).journals[id := Some(Journal(
                        id, request.consumerId, w, request.parentId, Ready, LeaseChild(id), request.clientPid, Some(host.boot), draw.ownerToken,
                        Some(Snapshot(request.parentId, LeaseChild(id), w, id, draw.childToken, draw.identity))))],
                      old(disk).children[LeaseChild(id) := Directory(draw.identity, Some(Marker(id, draw.childToken)))],
                      old(disk).workspaces[w := Workspace(Owner(id, w, draw.ownerToken), Linked(LeaseChild(id)))])
      // and only where one more child fits under the tighter limits of daemon and request
      ensures r.Granted? ==>
                && usage.Some? && host.identifier(request.consumerId) && host.identifier(request.workspaceId) && host.identifier(request.parentId)
                && usage.value.allocatedBytes + config.childReserveBytes <= config.quotaBytes
                && (request.storeMaxBytes > 0 ==> usage.value.allocatedBytes + config.childReserveBytes <= request.storeMaxBytes)
                && usage.value.hostFreeBytes - config.childReserveBytes >= config.hostFloorBytes
                && usage.value.hostFreeBytes - config.childReserveBytes >= request.minimumFreeBytes
                && old(disk).workspaces[request.workspaceId] == Workspace(NoOwner, NoMount)
      ensures !r.Granted? ==> r.Refused? && leases == old(leases)
      ensures old(Valid()) && r.Refused? && !env.crashed ==>
                (Accounted(old(disk), disk, draw.leaseId, request.workspaceId, manualRecovery) <==>
                 (old(manualRecovery) || !old(Admissible(request, parents, usage) && Ownable(request.workspaceId) && MarkerStays())))
      ensures old(Admissible(request, parents, usage) && Ownable(request.workspaceId) && MarkerStays()) ==>
                && r.Refused? && !env.crashed
                && MarkerLeft(old(disk), disk, draw.leaseId, request.workspaceId) && manualRecovery == old(manualRecovery)
      ensures old(env.Calm() && Admissible(request, parents, usage) && disk.workspaces[request.workspaceId].owner == NoOwner) ==> r.Granted?
      ensures !old(Admissible(request, parents, usage)) ==> disk == old(disk)
      ensures old(manualRecovery) ==> manualRecovery
    {
      hide LeaseInv;
      var code, parent := Admit(request, parents, usage);
      if parent.None? {
        return Refused(code);
      }
      r := Establish(request, draw, parent.value);
    }

    // ----- release --------------------------------------------------------------------------

    /** The lease to release: the one in memory, else the one its journal's snapshot describes. */
    method FindLease(j: Journal) returns (code: string, lease: Option<Lease>)
      modifies `manualRecovery
      ensures lease == if j.leaseId in leases then Some(leases[j.leaseId])
                       else if j.snapshot.Some? && Recoverable(disk, j.snapshot.value) then Some(FromSnapshot(j.snapshot.value))
                       else None
      ensures old(manualRecovery) ==> manualRecovery
    {
      if j.leaseId in leases {
        return "", Some(leases[j.leaseId]);
      }
      if j.snapshot.None? {
        return "lease-not-active", None;
      }
      if !Recoverable(disk, j.snapshot.value) {
        manualRecovery := true;
        return "lease-recovery-failed", None;
      }
      lease, code := Some(FromSnapshot(j.snapshot.value)), "";
    }

    /** The steps of `release`: child and mount, then the marker, then the journal. */
    method Dismantle(j: Journal, l: Lease, token: Name) returns (code: string)
      modifies `disk, `leases, env
      ensures old(Valid() && LeaseFits(j, l)) ==> Valid() && Confined(old(disk), disk, j.leaseId, j.workspaceId)
      ensures old(Valid() && LeaseFits(j, l)) && code == "" ==>
                GoneFrom(disk, j) && (j.leaseId in leases ==> leases[j.leaseId].released)
      ensures old(Valid() && LeaseFits(j, l) && env.Calm() && Dismantleable(j, l, token)) ==> code == ""
      ensures leases - {j.leaseId} == old(leases) - {j.leaseId} && leases.Keys == old(leases).Keys
    {
      hide Environment.Calm, Environment.OneFault;
      hide LeaseInv;
      var released := ReleaseLease(l, token);
      if !released {
        return "storage-operation-failed";
      }
      if old(Valid() && LeaseFits(j, l)) {
        MarkedReleased(host.identifier, old(disk), disk, leases, j, l);
      }
      if j.leaseId in leases {
        leases := leases[j.leaseId := l.(released := true)];
      }
      var owner := RemoveOwner(j);
      if !owner.Removed? {
        return "workspace-cleanup-failed";
      }
      var removed := RemoveJournal(j.leaseId);
      code := if removed then "" else "journal-remove-failed";
    }

    /** `release`: child and mount, then the marker, then the journal, then the lease in memory. */
    method Release(id: Id, token: Name) returns (r: LeaseResponse)
      modifies `disk, `leases, `manualRecovery, env
      ensures old(Valid()) ==> Valid()
      ensures r.Released? ==>
                && r.lease.leaseId == id
                && id in old(disk).journals && old(disk).journals[id] == Some(r.lease) && old(Owns(disk, r.lease))
                && (old(Valid()) ==> GoneFrom(disk, r.lease) && id !in leases)
      ensures old(Valid()) && id in old(disk).journals ==>
                Confined(old(disk), disk, id, old(disk).journals[id].value.workspaceId)
      ensures r.Released? || r.Refused?
      ensures id !in old(disk).journals ==> r.Refused? && disk == old(disk)
      ensures old(Valid() && env.Calm() && DeletedChild(token) !in disk.children && id in disk.journals && Complete(id)) ==> r.Released?
      ensures leases - {id} == old(leases) - {id} && leases.Keys <= old(leases).Keys
      ensures old(manualRecovery) ==> manualRecovery
    {
      if !host.identifier(id) {
        return Refused("invalid-lease");
      }
      var found := JournalOf(host, disk, id);
      if found.None? {
        return Refused("lease-not-found");
      }
      var j := found.value;
      var code, lease := FindLease(j);
      if lease.None? {
        return Refused(code);
      }
      if !Owns(disk, j) {
        manualRecovery := true;
        return Refused("workspace-ownership-mismatch");
      }
      code := Dismantle(j, lease.value, token);
      if code != "" {
        manualRecovery := true;
        return Refused(code);
      }
      leases := leases - {id};
      r := Released(j);
    }

    // ----- recover --------------------------------------------------------------------------

    /** The process dies, perhaps with its host, and a new one starts on the disk it left. */
    method Restart(plan: seq<Outcome>, host: Host)
      requires host.identifier == this.host.identifier
      modifies `leases, `manualRecovery, `host, env
      ensures old(Valid()) ==> Valid()
      ensures leases == map[] && !manualRecovery && this.host == host && env.plan == plan && !env.crashed
    {
      env.Restart(plan);
      leases, manualRecovery, this.host := map[], false, host;
    }

    /** The names of the journals on disk, each once, in whatever order the directory lists them. */
    method Listing() returns (listing: seq<Id>)
      ensures Distinct(listing) && forall id :: id in listing <==> id in disk.journals
    {
      listing := [];
      var rest := disk.journals.Keys;
      while rest != {}
        invariant rest <= disk.journals.Keys && Distinct(listing)
        invariant forall id :: id in listing <==> id in disk.journals && id !in rest
        decreases |rest|
      {
        var id :| id in rest;
        rest := rest - {id};
        listing := listing + [id];
      }
    }

    /** One journal in the loop of `recover`. */
    method RecoverEntry(id: Id, token: Name) returns (v: Verdict)
      requires id !in leases
      modifies `disk, `leases, env
      ensures old(Valid()) ==> Valid()
      ensures if JournalOf(host, old(disk), id).None? then disk == old(disk)
              else Confined(old(disk), disk, id, JournalOf(host, old(disk), id).value.workspaceId)
      ensures v.Registered? ==>
                && disk == old(disk) && Judge(host, old(disk), id).Registered?
                && leases == old(leases)[id := FromSnapshot(JournalOf(host, old(disk), id).value.snapshot.value)]
      ensures !v.Registered? ==> leases == old(leases)
      ensures old(env.Calm() && DeletedChild(token) !in disk.children) ==>
                env.Calm() && disk == RecoverOne(host, old(disk), id) && v == Judge(host, old(disk), id)
      // a lease that is complete on disk: kept for a client that runs on this boot, else gone
      ensures forall j | old(env.Calm() && DeletedChild(token) !in disk.children) && id in old(disk).journals && old(disk).journals[id] == Some(j)
                         && Consistent(host.identifier, id, j) && InPlace(old(disk), id, j) ::
                if j.boot == Some(host.boot) && 0 < j.clientPid && host.running(j.clientPid)
                then v == Registered && disk == old(disk) && id in leases
                else v == Cleared && disk == LeaseDisk(
                        old(disk).journals - {id}, old(disk).children - {j.child},
                        old(disk).workspaces[j.workspaceId := Workspace(NoOwner, NoMount)])
    {
      hide LeaseInv;
      var found := JournalOf(host, disk, id);
      if found.None? {
        return Blocked;
      }
      var j := found.value;
      if j.child !in disk.children {
        if MountAt(disk, j.workspaceId) != NoMount {
          return Blocked;
        }
        v := Forget(j);
        return;
      }
      if j.snapshot.None? || !Recoverable(disk, j.snapshot.value) || !Owns(disk, j) {
        return Blocked;
      }
      var l := FromSnapshot(j.snapshot.value);
      if host.Alive(j) {
        if Valid() { LeaseRegistered(host.identifier, disk, leases, l); }
        leases := leases[id := l];
        return Registered;
      }
      var released := ReleaseLease(l, token);
      if !released {
        return Blocked;
      }
      UndoneIsReleasable(host.identifier, old(disk), leases, l, j);
      var owner := RemoveOwner(j);
      if !owner.Removed? {
        return Blocked;
      }
      var removed := RemoveJournal(id);
      v := if removed then Cleared else Blocked;
    }

    /** A journal without child and mount: its marker, if it is its own or missing, and the journal go. */
    method Forget(j: Journal) returns (v: Verdict)
      requires j.leaseId !in leases && JournalOf(host, disk, j.leaseId) == Some(j)
      requires j.child !in disk.children && MountAt(disk, j.workspaceId) == NoMount
      modifies `disk, env
      ensures old(Valid()) ==> Valid()
      ensures Confined(old(disk), disk, j.leaseId, j.workspaceId)
      ensures !v.Registered?
      ensures old(env.Calm()) ==> env.Calm() && disk == RecoverOne(host, old(disk), j.leaseId) && v == Judge(host, old(disk), j.leaseId)
    {
      var owner := RemoveOwner(j);
      if owner.Erred? {
        return Blocked;
      }
      var removed := RemoveJournal(j.leaseId);
      v := if removed then Cleared else Blocked;
      if old(env.Calm()) {
        assert disk.children == old(disk).children - {j.child};
        assert Owns(old(disk), j) ==> disk.workspaces == old(disk).workspaces[j.workspaceId := Workspace(NoOwner, NoMount)];
      }
    }

    /** `recover` in a new process: undisturbed, it does to the disk what `RecoverAll` says. */
    method Recover(listing: seq<Id>, tokens: Id -> Name) returns (ok: bool)
      requires Distinct(listing) && leases == map[]
      modifies `disk, `leases, `manualRecovery, env
      ensures old(Valid()) ==> Valid()
      ensures old(env.Calm() && forall id | id in listing :: DeletedChild(tokens(id)) !in disk.children) ==>
                && disk == RecoverAll(host, old(disk), listing)
                && (ok <==> forall i | 0 <= i < |listing| :: !VerdictAt(host, old(disk), listing, i).Blocked?)
                && (forall i | 0 <= i < |listing| ::
                      listing[i] in leases <==> VerdictAt(host, old(disk), listing, i).Registered?)
      ensures forall id | id in leases :: id in listing
      ensures old(env.Calm() && forall id | id in listing :: DeletedChild(tokens(id)) !in disk.children) ==>
                forall i, j | 0 <= i < |listing| && FoundComplete(host, old(disk), listing[i], j) ::
                  Settled(host, disk, leases, listing[i], j)
      ensures NothingAppears(old(disk), disk)
      ensures manualRecovery == (old(manualRecovery) || !ok)
    {
      hide LeaseInv, Judge, RecoverOne, JournalOf, NothingAppears, Confined, Environment.Calm, Environment.OneFault,
           RecoverAll, VerdictAt;
      assert RecoverAll(host, disk, listing[..0]) == disk by { NothingRecovered(host, disk); }
      assert NothingAppears(disk, disk) by { NothingChanged(disk); }
      ok := true;
      ghost var calm := env.Calm() && forall id | id in listing :: DeletedChild(tokens(id)) !in disk.children;
      ghost var verdicts: seq<Verdict> := [];
      for i := 0 to |listing|
        invariant old(Valid()) ==> Valid()
        invariant NothingAppears(old(disk), disk)
        invariant |verdicts| == i
        invariant ok <==> forall k | 0 <= k < i :: !verdicts[k].Blocked?
        invariant forall id | id in leases :: id in listing[..i]
        invariant forall k | 0 <= k < i :: listing[k] in leases <==> verdicts[k].Registered?
        invariant calm ==> env.Calm() && disk == RecoverAll(host, old(disk), listing[..i])
        invariant calm ==> forall k | 0 <= k < i :: verdicts[k] == VerdictAt(host, old(disk), listing, k)
        invariant manualRecovery == old(manualRecovery)
      {
        OneMoreRecovered(host, old(disk), listing, i);
        assert listing[i] in listing && listing[i] !in listing[..i];
        if calm { NoNewChildren(host, old(disk), listing[..i]); }
        ghost var before := disk;
        var v := RecoverEntry(listing[i], tokens(listing[i]));
        EntryKeepsGone(host, before, disk, listing[i]);
        NothingAppearsTwice(old(disk), before, disk);
        ghost var earlier := verdicts;
        verdicts := verdicts + [v];
        assert verdicts[i] == v && forall k | 0 <= k < i :: verdicts[k] == earlier[k];
        if v.Blocked? {
          ok := false;
        }
      }
      assert listing[..|listing|] == listing;
      if calm { AllSettled(host, old(disk), disk, leases, listing); }
      if !ok {
        manualRecovery := true;
      }
    }
  }
}
