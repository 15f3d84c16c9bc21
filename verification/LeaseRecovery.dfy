/**
 Recovery of the daemon's leases after a restart, as a function of the disk: each journal is cleared
 with all that belongs to it, registered as a live lease, or left alone with an error reported.
 */
module LeaseRecovery {
  import opened Wrappers
  import opened Names
  import opened DaemonParents
  import opened LeaseDisks

  /** What recovery asks of the host: the identifier pattern, the boot session and the processes that run. */
  datatype Host = Host(identifier: Name -> bool, boot: Name, running: int -> bool) {
    predicate Alive(j: Journal) {
      j.boot == Some(boot) && j.clientPid > 0 && running(j.clientPid)
    }
  }

  datatype Verdict = Cleared | Registered | Blocked

  /** The journal of this name, if recovery can make sense of it. */
  function JournalOf(h: Host, d: LeaseDisk, id: Id): Option<Journal> {
    if id in d.journals && d.journals[id].Some? && ValidJournal(h.identifier, id, d.journals[id].value)
    then d.journals[id] else None
  }

  function Judge(h: Host, d: LeaseDisk, id: Id): Verdict {
    match JournalOf(h, d, id)
    case None => Blocked
    case Some(j) =>
      if j.child !in d.children then
        if MountAt(d, j.workspaceId) != NoMount then Blocked
        else if Owns(d, j) || OwnerAt(d, j.workspaceId) == NoOwner then Cleared
        else Blocked
      else if j.snapshot.None? || !Recoverable(d, j.snapshot.value) || !Owns(d, j) then Blocked
      else if h.Alive(j) then Registered
      else Cleared
  }

  /** The disk without the journal, its child and, where the marker is its own, marker and mount. */
  function Clear(d: LeaseDisk, j: Journal): LeaseDisk {
    LeaseDisk(
      d.journals - {j.leaseId},
      d.children - {j.child},
      if Owns(d, j) then d.workspaces[j.workspaceId := Workspace(NoOwner, NoMount)] else d.workspaces)
  }

  function RecoverOne(h: Host, d: LeaseDisk, id: Id): LeaseDisk {
    if Judge(h, d, id).Cleared? then Clear(d, JournalOf(h, d, id).value) else d
  }

  /** The loop of `recover` over the directory listing. */
  function RecoverAll(h: Host, d: LeaseDisk, listing: seq<Id>): LeaseDisk {
    if listing == [] then d
    else RecoverOne(h, RecoverAll(h, d, listing[..|listing| - 1]), listing[|listing| - 1])
  }

  /** The verdict on an entry when its turn comes. */
  function VerdictAt(h: Host, d: LeaseDisk, listing: seq<Id>, i: nat): Verdict
    requires i < |listing|
  {
    Judge(h, RecoverAll(h, d, listing[..i]), listing[i])
  }

  ghost predicate Distinct(listing: seq<Id>) {
    forall i, j | 0 <= i < j < |listing| :: listing[i] != listing[j]
  }

  // ----- What belongs to one lease ----------------------------------------------------------

  datatype Belongings = Belongings(
    journal: Option<Option<Journal>>, child: Option<Child>, mounts: set<Id>, owners: map<Id, OwnerFile>)

  /** Everything on disk that carries this lease id. */
  function BelongingsOf(d: LeaseDisk, id: Id): Belongings {
    Belongings(
      if id in d.journals then Some(d.journals[id]) else None,
      if LeaseChild(id) in d.children then Some(d.children[LeaseChild(id)]) else None,
      set w | w in d.workspaces && d.workspaces[w].mount == Linked(LeaseChild(id)),
      map w | w in d.workspaces && d.workspaces[w].owner.Owner? && d.workspaces[w].owner.leaseId == id :: d.workspaces[w].owner)
  }

  /** The journal, the child, the mount and the marker in the journal's workspace are all gone. */
  ghost predicate AllGone(d: LeaseDisk, j: Journal) {
    && j.leaseId !in d.journals
    && j.child !in d.children
    && MountAt(d, j.workspaceId) == NoMount
    && OwnerAt(d, j.workspaceId) == NoOwner
  }

  lemma OneTouchesOnlyItsOwn(h: Host, d: LeaseDisk, id: Id, other: Id)
    ensures other != id || !Judge(h, d, id).Cleared? ==>
              BelongingsOf(RecoverOne(h, d, id), other) == BelongingsOf(d, other)
  {
    if other != id && Judge(h, d, id).Cleared? {
      var e := RecoverOne(h, d, id);
      var a, b := BelongingsOf(d, other), BelongingsOf(e, other);
      assert a.mounts == b.mounts;
      assert a.owners == b.owners;
    }
  }

  lemma OneClears(h: Host, d: LeaseDisk, id: Id)
    requires Judge(h, d, id).Cleared?
    ensures JournalOf(h, d, id).Some? && AllGone(RecoverOne(h, d, id), JournalOf(h, d, id).value)
  {
  }

  lemma OneKeepsGone(h: Host, d: LeaseDisk, id: Id, j: Journal)
    requires AllGone(d, j)
    ensures AllGone(RecoverOne(h, d, id), j)
  {
  }

  lemma {:induction false} OthersKeep(h: Host, d: LeaseDisk, listing: seq<Id>, id: Id)
    requires id !in listing
    ensures BelongingsOf(RecoverAll(h, d, listing), id) == BelongingsOf(d, id)
  {
    if listing != [] {
      var n := |listing| - 1;
      assert listing[n] in listing;
      OthersKeep(h, d, listing[..n], id);
      OneTouchesOnlyItsOwn(h, RecoverAll(h, d, listing[..n]), listing[n], id);
    }
  }

  lemma {:induction false} GoneStaysGone(h: Host, d: LeaseDisk, listing: seq<Id>, n: nat, j: Journal)
    requires n <= |listing| && AllGone(RecoverAll(h, d, listing[..n]), j)
    ensures AllGone(RecoverAll(h, d, listing), j)
  {
    if n == |listing| {
      assert listing[..n] == listing;
    } else {
      var m := |listing| - 1;
      assert listing[..m][..n] == listing[..n];
      GoneStaysGone(h, d, listing[..m], n, j);
      OneKeepsGone(h, RecoverAll(h, d, listing[..m]), listing[m], j);
    }
  }

  lemma {:induction false} KeptToTheEnd(h: Host, d: LeaseDisk, listing: seq<Id>, i: nat, n: nat)
    requires Distinct(listing) && i < n <= |listing| && !VerdictAt(h, d, listing, i).Cleared?
    ensures BelongingsOf(RecoverAll(h, d, listing[..n]), listing[i]) == BelongingsOf(d, listing[i])
    decreases n
  {
    assert listing[..n][..n - 1] == listing[..n - 1];
    if n == i + 1 {
      OthersKeep(h, d, listing[..i], listing[i]);
      OneTouchesOnlyItsOwn(h, RecoverAll(h, d, listing[..i]), listing[i], listing[i]);
    } else {
      KeptToTheEnd(h, d, listing, i, n - 1);
      OneTouchesOnlyItsOwn(h, RecoverAll(h, d, listing[..n - 1]), listing[n - 1], listing[i]);
    }
  }

  /**
   Recovery trichotomy, for any disk and any listing of its journals: at the end each journal's child,
   mount, marker and journal are all gone, or the lease is registered with everything untouched and
   still verifiable, or everything is untouched and an error is reported.  The child of a live client
   of this boot is never removed.
   */
  lemma Trichotomy(h: Host, d: LeaseDisk, listing: seq<Id>, i: nat)
    requires Distinct(listing) && i < |listing|
    ensures
      var e := RecoverAll(h, d, listing);
      var id := listing[i];
      match VerdictAt(h, d, listing, i)
      case Cleared =>
        && JournalOf(h, d, id).Some? && AllGone(e, JournalOf(h, d, id).value)
        && !(h.Alive(JournalOf(h, d, id).value) && LeaseChild(id) in d.children)
      case Registered =>
        && BelongingsOf(e, id) == BelongingsOf(d, id)
        && JournalOf(h, d, id).Some? && Judge(h, e, id) == Registered
      case Blocked =>
        BelongingsOf(e, id) == BelongingsOf(d, id)
  {
    var id, before := listing[i], RecoverAll(h, d, listing[..i]);
    assert id !in listing[..i];
    OthersKeep(h, d, listing[..i], id);
    SameBelongings(h, d, before, id);
    if VerdictAt(h, d, listing, i).Cleared? {
      OneClears(h, before, id);
      assert listing[..i + 1][..i] == listing[..i];
      GoneStaysGone(h, d, listing, i + 1, JournalOf(h, d, id).value);
    } else {
      assert listing[..|listing|] == listing;
      KeptToTheEnd(h, d, listing, i, |listing|);
      SameBelongings(h, before, RecoverAll(h, d, listing), id);
    }
  }

  /** What a journal's belongings alone decide. */
  lemma SameBelongings(h: Host, d: LeaseDisk, e: LeaseDisk, id: Id)
    requires BelongingsOf(d, id) == BelongingsOf(e, id)
    ensures JournalOf(h, d, id) == JournalOf(h, e, id)
    ensures LeaseChild(id) in d.children <==> LeaseChild(id) in e.children
    ensures LeaseChild(id) in d.children ==> Judge(h, d, id) == Judge(h, e, id)
  {
    var a, b := BelongingsOf(d, id), BelongingsOf(e, id);
    assert id in d.journals <==> a.journal.Some?;
    assert id in e.journals <==> b.journal.Some?;
    if JournalOf(h, d, id).Some? {
      var j := JournalOf(h, d, id).value;
      var w := j.workspaceId;
      assert MountAt(d, w) == Linked(LeaseChild(id)) <==> w in a.mounts;
      assert MountAt(e, w) == Linked(LeaseChild(id)) <==> w in b.mounts;
      assert Owns(d, j) <==> w in a.owners && a.owners[w] == Owner(id, w, j.ownerToken);
      assert Owns(e, j) <==> w in b.owners && b.owners[w] == Owner(id, w, j.ownerToken);
    }
  }

  lemma NothingRecovered(h: Host, d: LeaseDisk)
    ensures RecoverAll(h, d, []) == d
  {
  }

  lemma OneMoreRecovered(h: Host, d: LeaseDisk, listing: seq<Id>, i: nat)
    requires i < |listing|
    ensures RecoverAll(h, d, listing[..i + 1]) == RecoverOne(h, RecoverAll(h, d, listing[..i]), listing[i])
    ensures VerdictAt(h, d, listing, i) == Judge(h, RecoverAll(h, d, listing[..i]), listing[i])
  {
    assert listing[..i + 1][..i] == listing[..i];
  }

  lemma {:induction false} NoNewChildren(h: Host, d: LeaseDisk, listing: seq<Id>)
    ensures forall c | c in RecoverAll(h, d, listing).children :: c in d.children
  {
    if listing != [] {
      NoNewChildren(h, d, listing[..|listing| - 1]);
    }
  }

  // ----- What becomes of which lease --------------------------------------------------------

  /** The identities in a journal, and the child's name, are those of the lease it is filed under. */
  ghost predicate Consistent(identifier: Name -> bool, id: Id, j: Journal) {
    && j.leaseId == id && j.child == LeaseChild(id)
    && identifier(id) && identifier(j.consumerId) && identifier(j.workspaceId) && identifier(j.parentId) && identifier(j.ownerToken)
    && j.boot.Some?
    && (j.snapshot.Some? ==>
          && j.snapshot.value.parentId == j.parentId && j.snapshot.value.child == j.child
          && j.snapshot.value.workspaceId == j.workspaceId && j.snapshot.value.leaseId == id && identifier(j.snapshot.value.token))
  }

  /** Child, marker, mount and owner marker are those that the journal and its snapshot tell of. */
  ghost predicate InPlace(d: LeaseDisk, id: Id, j: Journal) {
    && j.snapshot.Some? && j.child in d.children
    && d.children[j.child] == Directory(j.snapshot.value.identity, Some(Marker(id, j.snapshot.value.token)))
    && j.workspaceId in d.workspaces && d.workspaces[j.workspaceId] == Workspace(Owner(id, j.workspaceId, j.ownerToken), Linked(j.child))
  }

  /**
   A lease that is complete on disk is registered and untouched if its client runs on this boot of the
   host, and otherwise gone with all that belongs to it.
   */
  lemma CompleteLease(h: Host, d: LeaseDisk, listing: seq<Id>, i: nat, j: Journal)
    requires Distinct(listing) && i < |listing|
    requires listing[i] in d.journals && d.journals[listing[i]] == Some(j)
    requires Consistent(h.identifier, listing[i], j) && InPlace(d, listing[i], j)
    ensures
      var id, w, e := listing[i], j.workspaceId, RecoverAll(h, d, listing);
      if j.boot == Some(h.boot) && 0 < j.clientPid && h.running(j.clientPid) then
        && VerdictAt(h, d, listing, i) == Registered
        && id in e.journals && e.journals[id] == Some(j) && InPlace(e, id, j)
      else
        && VerdictAt(h, d, listing, i) == Cleared
        && id !in e.journals && j.child !in e.children && w in e.workspaces && e.workspaces[w] == Workspace(NoOwner, NoMount)
  {
    var id, w, e, before := listing[i], j.workspaceId, RecoverAll(h, d, listing), RecoverAll(h, d, listing[..i]);
    assert JournalOf(h, d, id) == Some(j);
    assert Judge(h, d, id) == VerdictAt(h, d, listing, i) by {
      TurnOf(h, d, listing, i);
    }
    Trichotomy(h, d, listing, i);
    LoopProgress(h, d, listing);
    if VerdictAt(h, d, listing, i) == Registered {
      var a, b := BelongingsOf(d, id), BelongingsOf(e, id);
      assert w in a.mounts && w in a.owners && a.owners[w] == b.owners[w];
    }
  }

  /** A lease whose child is there with anything amiss is left as it is, and reported. */
  lemma DoubtfulLease(h: Host, d: LeaseDisk, listing: seq<Id>, i: nat)
    requires Distinct(listing) && i < |listing| && listing[i] in d.journals && LeaseChild(listing[i]) in d.children
    requires var id, journal := listing[i], d.journals[listing[i]];
             journal.None? || !Consistent(h.identifier, id, journal.value) || !InPlace(d, id, journal.value)
    ensures
      var id, e := listing[i], RecoverAll(h, d, listing);
      && VerdictAt(h, d, listing, i) == Blocked
      && id in e.journals && e.journals[id] == d.journals[id]
      && LeaseChild(id) in e.children && e.children[LeaseChild(id)] == d.children[LeaseChild(id)]
  {
    var id, e := listing[i], RecoverAll(h, d, listing);
    TurnOf(h, d, listing, i);
    Trichotomy(h, d, listing, i);
    var a, b := BelongingsOf(d, id), BelongingsOf(e, id);
    assert a.journal == b.journal && a.child == b.child;
  }

  /** A journal without a child goes with its marker, unless something is mounted or the marker is not its own. */
  lemma ChildlessLease(h: Host, d: LeaseDisk, id: Id, j: Journal)
    requires id in d.journals && d.journals[id] == Some(j) && Consistent(h.identifier, id, j)
    requires j.child !in d.children && j.workspaceId in d.workspaces
    ensures
      var w, e := d.workspaces[j.workspaceId], RecoverOne(h, d, id);
      if w.mount == NoMount && (w.owner == NoOwner || w.owner == Owner(id, j.workspaceId, j.ownerToken)) then
        && Judge(h, d, id) == Cleared && e.journals == d.journals - {id} && e.children == d.children
        && e.workspaces == d.workspaces[j.workspaceId := Workspace(NoOwner, NoMount)]
      else
        Judge(h, d, id) == Blocked && e == d
  {
    var e := RecoverOne(h, d, id);
    assert Judge(h, d, id) == Cleared ==> e.children == d.children && e.workspaces == d.workspaces[j.workspaceId := Workspace(NoOwner, NoMount)];
  }

  /** The verdict on a lease with a child does not depend on what was done before its turn. */
  lemma TurnOf(h: Host, d: LeaseDisk, listing: seq<Id>, i: nat)
    requires Distinct(listing) && i < |listing| && LeaseChild(listing[i]) in d.children
    ensures VerdictAt(h, d, listing, i) == Judge(h, d, listing[i])
  {
    assert listing[i] !in listing[..i];
    OthersKeep(h, d, listing[..i], listing[i]);
    SameBelongings(h, d, RecoverAll(h, d, listing[..i]), listing[i]);
  }

  // ----- A second recovery ------------------------------------------------------------------

  const EMPTY_WORKSPACE: Workspace := Workspace(NoOwner, NoMount)

  /** Recovery clears this lease and with it empties its workspace. */
  predicate Empties(h: Host, d: LeaseDisk, id: Id) {
    Judge(h, d, id).Cleared? && Owns(d, JournalOf(h, d, id).value)
  }

  /** One of the listed leases empties workspace w. */
  ghost predicate EmptiedBy(h: Host, d: LeaseDisk, listing: seq<Id>, w: Id) {
    exists i :: 0 <= i < |listing| && Empties(h, d, listing[i]) && JournalOf(h, d, listing[i]).value.workspaceId == w
  }

  /** A journal whose child is gone is listed before another lease that recovery will clear from the same workspace. */
  ghost predicate Shadowed(h: Host, d: LeaseDisk, listing: seq<Id>) {
    exists i, k :: 0 <= i < k < |listing| && ShadowedBy(h, d, listing[i], listing[k])
  }

  predicate ShadowedBy(h: Host, d: LeaseDisk, id: Id, other: Id) {
    && JournalOf(h, d, id).Some? && LeaseChild(id) !in d.children
    && Empties(h, d, other)
    && JournalOf(h, d, other).value.workspaceId == JournalOf(h, d, id).value.workspaceId
  }

  /** How far the loop has changed the disk, told from the disk it started on. */
  ghost predicate Progress(h: Host, d: LeaseDisk, listing: seq<Id>, e: LeaseDisk) {
    && (forall w | w in d.workspaces :: w in e.workspaces &&
          e.workspaces[w] == if EmptiedBy(h, d, listing, w) then EMPTY_WORKSPACE else d.workspaces[w])
    && e.workspaces.Keys == d.workspaces.Keys
    && (forall id | id in e.journals :: SameFiles(d, e, id))
    && (forall id | id !in listing :: SameFiles(d, e, id))
  }

  /** Journal and child are as they were. */
  ghost predicate SameFiles(d: LeaseDisk, e: LeaseDisk, id: Id) {
    && (id in e.journals <==> id in d.journals)
    && (id in d.journals ==> e.journals[id] == d.journals[id])
    && (LeaseChild(id) in e.children <==> LeaseChild(id) in d.children)
    && (LeaseChild(id) in d.children ==> e.children[LeaseChild(id)] == d.children[LeaseChild(id)])
  }

  lemma {:induction false} LoopProgress(h: Host, d: LeaseDisk, listing: seq<Id>)
    requires Distinct(listing)
    ensures Progress(h, d, listing, RecoverAll(h, d, listing))
  {
    if listing != [] {
      var n := |listing| - 1;
      var prefix, id := listing[..n], listing[n];
      LoopProgress(h, d, prefix);
      var e := RecoverAll(h, d, prefix);
      assert id !in prefix;
      EmptiedStep(h, d, prefix, id);
      assert prefix + [id] == listing;
      TurnStep(h, d, prefix, e, id);
    }
  }

  lemma EmptiedStep(h: Host, d: LeaseDisk, prefix: seq<Id>, id: Id)
    ensures forall w :: EmptiedBy(h, d, prefix + [id], w) <==>
              EmptiedBy(h, d, prefix, w) || (Empties(h, d, id) && JournalOf(h, d, id).value.workspaceId == w)
  {
    var all := prefix + [id];
    forall w ensures EmptiedBy(h, d, all, w) <==>
        EmptiedBy(h, d, prefix, w) || (Empties(h, d, id) && JournalOf(h, d, id).value.workspaceId == w)
    {
      if EmptiedBy(h, d, prefix, w) {
        var i :| 0 <= i < |prefix| && Empties(h, d, prefix[i]) && JournalOf(h, d, prefix[i]).value.workspaceId == w;
        assert all[i] == prefix[i];
      }
      if Empties(h, d, id) && JournalOf(h, d, id).value.workspaceId == w {
        assert all[|prefix|] == id;
      }
      if EmptiedBy(h, d, all, w) {
        var i :| 0 <= i < |all| && Empties(h, d, all[i]) && JournalOf(h, d, all[i]).value.workspaceId == w;
        assert i < |prefix| ==> prefix[i] == all[i];
      }
    }
  }

  /** A marker names one lease, so a workspace is emptied by one lease only. */
  lemma OneEmptier(h: Host, d: LeaseDisk, a: Id, b: Id)
    requires Empties(h, d, a) && Empties(h, d, b)
    requires JournalOf(h, d, a).value.workspaceId == JournalOf(h, d, b).value.workspaceId
    ensures a == b
  {
  }

  /** The verdict at a lease's turn, told from the disk the loop started on. */
  lemma TurnVerdict(h: Host, d: LeaseDisk, prefix: seq<Id>, e: LeaseDisk, id: Id)
    requires Progress(h, d, prefix, e) && id !in prefix && JournalOf(h, d, id).Some?
    ensures JournalOf(h, e, id) == JournalOf(h, d, id)
    ensures
      var w := JournalOf(h, d, id).value.workspaceId;
      if EmptiedBy(h, d, prefix, w)
      then !Empties(h, d, id) && !Empties(h, e, id)
           && (Judge(h, e, id).Cleared? <==> LeaseChild(id) !in d.children)
      else Judge(h, e, id) == Judge(h, d, id) && (Empties(h, e, id) <==> Empties(h, d, id))
  {
    assert SameFiles(d, e, id);
    var w := JournalOf(h, d, id).value.workspaceId;
    if EmptiedBy(h, d, prefix, w) {
      var i :| 0 <= i < |prefix| && Empties(h, d, prefix[i]) && JournalOf(h, d, prefix[i]).value.workspaceId == w;
      assert prefix[i] in prefix;
      if Empties(h, d, id) { OneEmptier(h, d, prefix[i], id); }
      assert w in d.workspaces;
      assert e.workspaces[w] == EMPTY_WORKSPACE;
    } else {
      assert MountAt(e, w) == MountAt(d, w) && OwnerAt(e, w) == OwnerAt(d, w);
    }
  }

  lemma TurnStep(h: Host, d: LeaseDisk, prefix: seq<Id>, e: LeaseDisk, id: Id)
    requires Progress(h, d, prefix, e) && id !in prefix
    requires forall w :: EmptiedBy(h, d, prefix + [id], w) <==>
               EmptiedBy(h, d, prefix, w) || (Empties(h, d, id) && JournalOf(h, d, id).value.workspaceId == w)
    ensures Progress(h, d, prefix + [id], RecoverOne(h, e, id))
  {
    var e' := RecoverOne(h, e, id);
    assert SameFiles(d, e, id);
    if JournalOf(h, d, id).Some? {
      TurnVerdict(h, d, prefix, e, id);
      var w := JournalOf(h, d, id).value.workspaceId;
      if Empties(h, d, id) {
        assert w in d.workspaces;
      }
      forall v | v in d.workspaces
        ensures v in e'.workspaces && e'.workspaces[v] == if EmptiedBy(h, d, prefix + [id], v) then EMPTY_WORKSPACE else d.workspaces[v]
      {
        assert v in e.workspaces;
      }
      forall i | i in e'.journals || i !in prefix + [id] ensures SameFiles(d, e', i) {
        assert SameFiles(d, e, i);
      }
    } else {
      assert JournalOf(h, e, id).None?;
    }
  }

  lemma {:induction false} NothingToClear(h: Host, e: LeaseDisk, listing: seq<Id>)
    requires forall id | id in listing :: !Judge(h, e, id).Cleared?
    ensures RecoverAll(h, e, listing) == e
  {
    if listing != [] {
      var n := |listing| - 1;
      assert listing[n] in listing;
      NothingToClear(h, e, listing[..n]);
    }
  }

  /** A lease refused at its turn for want of a child is shadowed if its workspace gets emptied. */
  lemma RefusedThenEmptied(h: Host, d: LeaseDisk, listing: seq<Id>, i: nat)
    requires Distinct(listing) && i < |listing| && VerdictAt(h, d, listing, i).Blocked?
    requires JournalOf(h, d, listing[i]).Some? && LeaseChild(listing[i]) !in d.children
    requires EmptiedBy(h, d, listing, JournalOf(h, d, listing[i]).value.workspaceId)
    ensures Shadowed(h, d, listing)
  {
    var id, w := listing[i], JournalOf(h, d, listing[i]).value.workspaceId;
    assert id !in listing[..i];
    LoopProgress(h, d, listing[..i]);
    TurnVerdict(h, d, listing[..i], RecoverAll(h, d, listing[..i]), id);
    assert forall m | 0 <= m < i :: listing[..i][m] == listing[m];
    var k :| 0 <= k < |listing| && Empties(h, d, listing[k]) && JournalOf(h, d, listing[k]).value.workspaceId == w;
    assert i < k;
    assert ShadowedBy(h, d, listing[i], listing[k]);
  }

  /** A journal that stays is cleared by a second recovery only if it was shadowed. */
  lemma LeftOverIsShadowed(h: Host, d: LeaseDisk, listing: seq<Id>, i: nat)
    requires Distinct(listing) && i < |listing|
    requires listing[i] in RecoverAll(h, d, listing).journals
    ensures Judge(h, RecoverAll(h, d, listing), listing[i]).Cleared? ==> Shadowed(h, d, listing)
  {
    var id, before, e := listing[i], RecoverAll(h, d, listing[..i]), RecoverAll(h, d, listing);
    Trichotomy(h, d, listing, i);
    if VerdictAt(h, d, listing, i).Blocked? {
      assert id !in listing[..i];
      OthersKeep(h, d, listing[..i], id);
      SameBelongings(h, d, before, id);
      SameBelongings(h, d, e, id);
      if JournalOf(h, d, id).Some? && LeaseChild(id) !in d.children {
        var w := JournalOf(h, d, id).value.workspaceId;
        if EmptiedBy(h, d, listing, w) {
          RefusedThenEmptied(h, d, listing, i);
        } else {
          NotEmptied(h, d, listing, i);
        }
      }
    }
  }

  lemma NotEmptied(h: Host, d: LeaseDisk, listing: seq<Id>, i: nat)
    requires Distinct(listing) && i < |listing|
    requires JournalOf(h, d, listing[i]).Some? && LeaseChild(listing[i]) !in d.children
    requires !EmptiedBy(h, d, listing, JournalOf(h, d, listing[i]).value.workspaceId)
    requires BelongingsOf(RecoverAll(h, d, listing), listing[i]) == BelongingsOf(d, listing[i])
    ensures Judge(h, RecoverAll(h, d, listing), listing[i]) == VerdictAt(h, d, listing, i)
  {
    var id, before, e := listing[i], RecoverAll(h, d, listing[..i]), RecoverAll(h, d, listing);
    var w := JournalOf(h, d, id).value.workspaceId;
    assert id !in listing[..i];
    LoopProgress(h, d, listing);
    LoopProgress(h, d, listing[..i]);
    assert !EmptiedBy(h, d, listing[..i], w) by {
      assert forall m | 0 <= m < i :: listing[..i][m] == listing[m];
    }
    TurnVerdict(h, d, listing[..i], before, id);
    SameBelongings(h, d, e, id);
    assert MountAt(e, w) == MountAt(d, w) && OwnerAt(e, w) == OwnerAt(d, w);
  }

  /** A shadowed journal is passed over the first time and cleared the second time. */
  lemma ShadowedIsLeftOver(h: Host, d: LeaseDisk, listing: seq<Id>, i: nat, k: nat)
    requires Distinct(listing) && i < k < |listing| && ShadowedBy(h, d, listing[i], listing[k])
    ensures
      var e := RecoverAll(h, d, listing);
      listing[i] in e.journals && JournalOf(h, e, listing[i]).Some? && LeaseChild(listing[i]) !in e.children && Judge(h, e, listing[i]).Cleared?
  {
    var id, before, e := listing[i], RecoverAll(h, d, listing[..i]), RecoverAll(h, d, listing);
    var w := JournalOf(h, d, id).value.workspaceId;
    assert id !in listing[..i];
    LoopProgress(h, d, listing[..i]);
    assert !EmptiedBy(h, d, listing[..i], w);
    TurnVerdict(h, d, listing[..i], before, id);
    assert listing[..|listing|] == listing;
    KeptToTheEnd(h, d, listing, i, |listing|);
    SameBelongings(h, d, e, id);
    LoopProgress(h, d, listing);
    assert EmptiedBy(h, d, listing, w);
    assert w in d.workspaces;
    assert BelongingsOf(e, id).journal == BelongingsOf(d, id).journal;
  }

  lemma ClearedOnItsTurn(h: Host, e: LeaseDisk, again: seq<Id>, i: nat)
    requires Distinct(again) && i < |again|
    requires Judge(h, e, again[i]).Cleared? && LeaseChild(again[i]) !in e.children
    ensures again[i] !in RecoverAll(h, e, again).journals
  {
    var id := again[i];
    assert id !in again[..i];
    LoopProgress(h, e, again[..i]);
    TurnVerdict(h, e, again[..i], RecoverAll(h, e, again[..i]), id);
    Trichotomy(h, e, again, i);
  }

  /**
   A second recovery changes nothing on disk exactly when no journal is shadowed.  The claim that it
   never changes anything is false: see `ShadowedLease`.
   */
  lemma SecondRecovery(h: Host, d: LeaseDisk, listing: seq<Id>, again: seq<Id>)
    requires Distinct(listing) && (forall id | id in d.journals :: id in listing)
    requires Distinct(again) && (forall id :: id in again <==> id in RecoverAll(h, d, listing).journals)
    ensures RecoverAll(h, RecoverAll(h, d, listing), again) == RecoverAll(h, d, listing) <==> !Shadowed(h, d, listing)
  {
    var e := RecoverAll(h, d, listing);
    if Shadowed(h, d, listing) {
      var i, k :| 0 <= i < k < |listing| && ShadowedBy(h, d, listing[i], listing[k]);
      ShadowedIsLeftOver(h, d, listing, i, k);
      var m :| 0 <= m < |again| && again[m] == listing[i];
      ClearedOnItsTurn(h, e, again, m);
    } else {
      LoopProgress(h, d, listing);
      forall id | id in again ensures !Judge(h, e, id).Cleared? {
        assert SameFiles(d, e, id);
        var i :| 0 <= i < |listing| && listing[i] == id;
        LeftOverIsShadowed(h, d, listing, i);
      }
      NothingToClear(h, e, again);
    }
  }

  /**
   Two leases of one workspace: the first left only its journal, the second is dead but complete.
   The first pass refuses the first lease because the second one's mount is still there and then clears
   the second; only the second pass clears the first.
   */
  lemma ShadowedLease(h: Host, a: Id, b: Id, w: Id, p: Id, token: Name, identity: Identity)
    requires a != b && h.identifier(a) && h.identifier(b) && h.identifier(w) && h.identifier(p) && h.identifier(token)
    requires !h.running(7)
    ensures
      var snapshot := Snapshot(p, LeaseChild(b), w, b, token, identity);
      var first := Journal(a, p, w, p, Requested, LeaseChild(a), 7, Some(h.boot), token, None);
      var second := Journal(b, p, w, p, Ready, LeaseChild(b), 7, Some(h.boot), token, Some(snapshot));
      var d := LeaseDisk(
                 map[a := Some(first), b := Some(second)],
                 map[LeaseChild(b) := Directory(identity, Some(Marker(b, token)))],
                 map[w := Workspace(Owner(b, w, token), Linked(LeaseChild(b)))]);
      && RecoverAll(h, d, [a, b]) == LeaseDisk(map[a := Some(first)], map[], map[w := EMPTY_WORKSPACE])
      && RecoverAll(h, RecoverAll(h, d, [a, b]), [a]) == LeaseDisk(map[], map[], map[w := EMPTY_WORKSPACE])
  {
    var snapshot := Snapshot(p, LeaseChild(b), w, b, token, identity);
    var first := Journal(a, p, w, p, Requested, LeaseChild(a), 7, Some(h.boot), token, None);
    var second := Journal(b, p, w, p, Ready, LeaseChild(b), 7, Some(h.boot), token, Some(snapshot));
    var d := LeaseDisk(
               map[a := Some(first), b := Some(second)],
               map[LeaseChild(b) := Directory(identity, Some(Marker(b, token)))],
               map[w := Workspace(Owner(b, w, token), Linked(LeaseChild(b)))]);
    assert [a, b][..1] == [a] && [a][..0] == [];
    assert JournalOf(h, d, a) == Some(first) && JournalOf(h, d, b) == Some(second);
    assert RecoverAll(h, d, [a]) == RecoverOne(h, RecoverAll(h, d, []), a) == d;
    var e := RecoverOne(h, d, b);
    assert RecoverAll(h, d, [a, b]) == e;
    assert e == LeaseDisk(map[a := Some(first)], map[], map[w := EMPTY_WORKSPACE]);
    assert RecoverAll(h, e, [a]) == RecoverOne(h, RecoverAll(h, e, []), a) == RecoverOne(h, e, a);
  }
}
