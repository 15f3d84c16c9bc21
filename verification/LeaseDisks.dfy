/**
 What the Unix daemon keeps on disk for its leases: in the workspace an owner marker and a mount link,
 in the store a journal and a cloned child directory; and the checks it makes on them.
 */
module LeaseDisks {
  import opened Wrappers
  import opened Names
  import opened DaemonParents

  // ----- The disk ---------------------------------------------------------------------------

  /**
   Names under the children directory: a lease id, or the reserved prefix ".testplay-delete-" and a
   token.  Identifiers start with a letter or digit, so the two never coincide.
   */
  datatype ChildName = LeaseChild(leaseId: Id) | DeletedChild(token: Name)

  datatype Marker = Marker(leaseId: Id, token: Name)

  /** A real directory with its ownership marker (None: missing or not readable), or something else. */
  datatype Child = Directory(identity: Identity, marker: Option<Marker>) | OtherNode

  datatype OwnerFile = NoOwner | UnreadableOwner | Owner(leaseId: Id, workspaceId: Id, token: Name)

  /** The Library path of a workspace. */
  datatype Mount = NoMount | Linked(child: ChildName) | Occupied

  datatype Workspace = Workspace(owner: OwnerFile, mount: Mount)

  datatype Snapshot = Snapshot(parentId: Id, child: ChildName, workspaceId: Id, leaseId: Id, token: Name, identity: Identity)

  datatype LeaseState = Requested | Ready

  datatype Journal = Journal(
    leaseId: Id, consumerId: Id, workspaceId: Id, parentId: Id, state: LeaseState, child: ChildName,
    clientPid: int, boot: Option<Name>, ownerToken: Name, snapshot: Option<Snapshot>)

  /** A journal that is present but unreadable is None; every workspace listed is a real directory. */
  datatype LeaseDisk = LeaseDisk(
    journals: map<Id, Option<Journal>>,
    children: map<ChildName, Child>,
    workspaces: map<Id, Workspace>)

  function MountAt(d: LeaseDisk, w: Id): Mount {
    if w in d.workspaces then d.workspaces[w].mount else NoMount
  }

  function OwnerAt(d: LeaseDisk, w: Id): OwnerFile {
    if w in d.workspaces then d.workspaces[w].owner else NoOwner
  }

  function WithMount(d: LeaseDisk, w: Id, mount: Mount): LeaseDisk {
    if w in d.workspaces then d.(workspaces := d.workspaces[w := d.workspaces[w].(mount := mount)]) else d
  }

  function WithOwner(d: LeaseDisk, w: Id, owner: OwnerFile): LeaseDisk {
    if w in d.workspaces then d.(workspaces := d.workspaces[w := d.workspaces[w].(owner := owner)]) else d
  }

  // ----- The checks -------------------------------------------------------------------------

  /** `validateLeaseJournal`: identities, and paths that are the ones derived from them. */
  predicate ValidJournal(identifier: Name -> bool, id: Id, j: Journal) {
    && j.leaseId == id
    && identifier(j.leaseId) && identifier(j.consumerId) && identifier(j.workspaceId) && identifier(j.parentId)
    && identifier(j.ownerToken) && j.boot.Some?
    && j.child == LeaseChild(j.leaseId)
    && (j.snapshot.Some? ==>
          var s := j.snapshot.value;
          s.parentId == j.parentId && s.child == j.child && s.workspaceId == j.workspaceId && s.leaseId == j.leaseId && identifier(s.token))
  }

  /** `validateWorkspaceOwner`. */
  predicate Owns(d: LeaseDisk, j: Journal) {
    OwnerAt(d, j.workspaceId) == Owner(j.leaseId, j.workspaceId, j.ownerToken)
  }

  /** A lease held in memory. */
  datatype Lease = Lease(child: ChildName, workspaceId: Id, leaseId: Id, token: Name, identity: Identity, released: bool)

  function FromSnapshot(s: Snapshot): Lease {
    Lease(s.child, s.workspaceId, s.leaseId, s.token, s.identity, false)
  }

  /** `validateOwnedChildAt`: the acquired directory with its marker. */
  predicate OwnedAt(d: LeaseDisk, l: Lease, at: ChildName) {
    at in d.children && d.children[at] == Directory(l.identity, Some(Marker(l.leaseId, l.token)))
  }

  /** `RecoverUnixLease` succeeds: child, marker and mount link are the acquired ones. */
  predicate Recoverable(d: LeaseDisk, s: Snapshot) {
    OwnedAt(d, FromSnapshot(s), s.child) && MountAt(d, s.workspaceId) == Linked(s.child)
  }

  // ----- What holds of the disk in every run ------------------------------------------------

  /**
   Write-ahead tracking: a child or a mount link exists only with its journal, and whatever else is
   under children carries the reserved prefix.
   */
  ghost predicate Tracked(d: LeaseDisk) {
    && (forall c | c in d.children && c.LeaseChild? :: c.leaseId in d.journals)
    && (forall w | w in d.workspaces && d.workspaces[w].mount.Linked? ::
          && d.workspaces[w].mount.child.LeaseChild?
          && JournalFor(d, d.workspaces[w].mount.child.leaseId, w))
  }

  /** There is a journal for this lease and it names this workspace. */
  ghost predicate JournalFor(d: LeaseDisk, id: Id, w: Id) {
    id in d.journals && d.journals[id].Some? && d.journals[id].value.workspaceId == w
  }

  ghost predicate JournalsValid(identifier: Name -> bool, d: LeaseDisk) {
    forall id | id in d.journals :: d.journals[id].Some? && ValidJournal(identifier, id, d.journals[id].value)
  }

  /** The leases in memory are those of journals on disk; a released one has neither child nor mount. */
  ghost predicate Remembered(d: LeaseDisk, leases: map<Id, Lease>) {
    forall id | id in leases ::
      && leases[id].leaseId == id && leases[id].child == LeaseChild(id)
      && (id in d.journals ==> JournalFor(d, id, leases[id].workspaceId))
      && if leases[id].released then Unmounted(d, id) && LeaseChild(id) !in d.children else id in d.journals
  }

  ghost predicate Unmounted(d: LeaseDisk, id: Id) {
    forall w | w in d.workspaces :: d.workspaces[w].mount != Linked(LeaseChild(id))
  }

  /** Nothing on disk belongs to this lease. */
  ghost predicate Gone(d: LeaseDisk, id: Id) {
    && id !in d.journals
    && LeaseChild(id) !in d.children
    && Unmounted(d, id)
    && (forall w | w in d.workspaces :: !(d.workspaces[w].owner.Owner? && d.workspaces[w].owner.leaseId == id))
  }

  ghost predicate LeaseInv(identifier: Name -> bool, d: LeaseDisk, leases: map<Id, Lease>) {
    Tracked(d) && JournalsValid(identifier, d) && Remembered(d, leases)
  }
}
